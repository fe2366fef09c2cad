/**
 * The personal workspace provider's handle registry: two maps from handles to
 * (parent collection handle, index in parent), one for collections and one for
 * requests, and the ticker that mints handles. This module holds the registry's
 * value type and the pure functions that say what its lookups and resolvers compute.
 */
module HandleRegistry {
  import opened Wrappers

  /**
   * A handle. The provider mints the decimal string of its ticker; the model keeps the
   * number itself, which identifies the string uniquely.
   */
  type Handle = nat

  /** `[parentHandle, index]`: the parent collection's handle (`null` at the root) and the index in it. */
  datatype Entry = Entry(parent: Option<Handle>, index: int)

  /** `handleIDTicker`, `collectionHandleToParentIndex` and `requestHandleToParentIndex`. */
  datatype Registry = Registry(ticker: nat, colls: map<Handle, Entry>, reqs: map<Handle, Entry>)

  /**
   * Every registered handle was minted before the ticker's current value, from 1 upwards,
   * and no number names both a collection and a request.
   */
  ghost predicate Valid(r: Registry)
  {
    && r.ticker >= 1
    && (forall h :: h in r.colls ==> 0 < h < r.ticker)
    && (forall h :: h in r.reqs ==> 0 < h < r.ticker)
    && r.colls.Keys !! r.reqs.Keys
  }

  /** Distinct handles of one kind sit at distinct (parent, index) pairs. */
  ghost predicate Injective(m: map<Handle, Entry>)
  {
    forall h1, h2 :: h1 in m && h2 in m && m[h1] == m[h2] ==> h1 == h2
  }

  /**
   * The first handle, scanning upwards from `from` and stopping before `bound`, that is
   * registered at exactly `e`. Handles enter the source's maps in the order they are minted
   * and are never re-inserted, so ascending order is the maps' iteration order.
   */
  function FindFrom(m: map<Handle, Entry>, e: Entry, from: nat, bound: nat): (r: Option<Handle>)
    decreases bound - from
    ensures r.Some? ==> from <= r.value < bound && r.value in m && m[r.value] == e
    ensures r.Some? ==> forall h :: from <= h < r.value && h in m ==> m[h] != e
    ensures r.None? ==> forall h :: from <= h < bound && h in m ==> m[h] != e
  {
    if from >= bound then None
    else if from in m && m[from] == e then Some(from)
    else FindFrom(m, e, from + 1, bound)
  }

  /** `getAssociatedRESTCollectionHandle` / `getAssociatedRESTRequestHandle` over handles below `bound`. */
  function Find(m: map<Handle, Entry>, e: Entry, bound: nat): Option<Handle>
  {
    FindFrom(m, e, 1, bound)
  }

  /** Under `Injective`, a lookup finds a registered handle exactly when that handle sits at the pair. */
  lemma FindInjective(m: map<Handle, Entry>, e: Entry, bound: nat, h: Handle)
    requires Injective(m) && h in m && 0 < h < bound
    ensures Find(m, e, bound) == Some(h) <==> m[h] == e
  {
  }

  /**
   * `resolveRESTCollectionHandleFromFolderPath` at run time: starting from `null`, each index
   * looks up the child of the current handle; a lookup that fails leaves `null`, so the next
   * index is looked up among root collections.
   */
  function ResolveFolderPath(m: map<Handle, Entry>, path: seq<int>, bound: nat): (r: Option<Handle>)
    ensures r.Some? ==> |path| > 0 && r.value in m && m[r.value].index == path[|path| - 1]
    ensures r.Some? ==> m[r.value].parent == ResolveFolderPath(m, path[..|path| - 1], bound)
  {
    if |path| == 0 then None
    else Find(m, Entry(ResolveFolderPath(m, path[..|path| - 1], bound), path[|path| - 1]), bound)
  }

  /** Every non-empty prefix of `path` finds a handle: no lookup falls back to the root. */
  ghost predicate FullyRegistered(m: map<Handle, Entry>, path: seq<int>, bound: nat)
  {
    forall k :: 1 <= k <= |path| ==> ResolveFolderPath(m, path[..k], bound).Some?
  }

  function Reverse<T>(s: seq<T>): (r: seq<T>)
    ensures |r| == |s|
    ensures forall k :: 0 <= k < |s| ==> r[k] == s[|s| - 1 - k]
  {
    if s == [] then [] else [s[|s| - 1]] + Reverse(s[..|s| - 1])
  }

  lemma ReverseReverse<T>(s: seq<T>)
    ensures Reverse(Reverse(s)) == s
  {
  }

  lemma ReverseCons<T>(x: T, s: seq<T>)
    ensures Reverse([x] + s) == Reverse(s) + [x]
  {
    var a, b := Reverse([x] + s), Reverse(s) + [x];
    assert |a| == |b|;
    forall k | 0 <= k < |a| ensures a[k] == b[k] {
      if k < |s| {
        assert a[k] == ([x] + s)[|s| - k] == s[|s| - 1 - k];
      }
    }
  }

  /** How a walk up the parent chain ends. */
  datatype ChainEnd = Root | Missing(at: Handle) | Cycle

  /** The handles a walk visits, their indices in that order, and how it ends. */
  datatype Chain = Chain(visited: seq<Handle>, indices: seq<int>, end: ChainEnd)

  /**
   * The walk of the resolvers' `while (current !== null)` loop: from `cur`, follow parent
   * links until `null` (the root) or a handle with no entry. `seen` holds the handles already
   * visited; meeting one again is a cycle, on which the source's loop never ends.
   */
  function Walk(m: map<Handle, Entry>, cur: Option<Handle>, seen: set<Handle>): (c: Chain)
    decreases |m.Keys - seen|
    ensures |c.visited| == |c.indices|
    ensures forall k :: 0 <= k < |c.visited| ==> c.visited[k] in m && c.visited[k] !in seen
    ensures forall k :: 0 <= k < |c.visited| ==> m[c.visited[k]].index == c.indices[k]
    ensures c.visited != [] ==> Some(c.visited[0]) == cur
    ensures c.end.Root? ==> if c.visited == [] then cur.None? else m[c.visited[|c.visited| - 1]].parent.None?
    ensures c.end.Missing? ==> c.end.at !in m
    ensures c.end.Missing? ==> if c.visited == [] then cur == Some(c.end.at)
                               else m[c.visited[|c.visited| - 1]].parent == Some(c.end.at)
  {
    if cur.None? then Chain([], [], Root)
    else if cur.value !in m then Chain([], [], Missing(cur.value))
    else if cur.value in seen then Chain([], [], Cycle)
    else
      assert m.Keys - seen == (m.Keys - (seen + {cur.value})) + {cur.value};
      var rest := Walk(m, m[cur.value].parent, seen + {cur.value});
      Chain([cur.value] + rest.visited, [m[cur.value].index] + rest.indices, rest.end)
  }

  /** Each handle of `s` after the first is the parent of the one before it. */
  ghost predicate ParentLinked(m: map<Handle, Entry>, s: seq<Handle>)
  {
    forall k :: 0 <= k < |s| - 1 ==> s[k] in m && m[s[k]].parent == Some(s[k + 1])
  }

  /** Each handle a walk visits has the next one as its parent. */
  lemma {:induction false} WalkParentLinks(m: map<Handle, Entry>, cur: Option<Handle>, seen: set<Handle>)
    ensures ParentLinked(m, Walk(m, cur, seen).visited)
    decreases |m.Keys - seen|
  {
    if cur.Some? && cur.value in m && cur.value !in seen {
      assert m.Keys - seen == (m.Keys - (seen + {cur.value})) + {cur.value};
      var rest := Walk(m, m[cur.value].parent, seen + {cur.value});
      WalkParentLinks(m, m[cur.value].parent, seen + {cur.value});
      var c := Walk(m, cur, seen);
      assert c.visited == [cur.value] + rest.visited;
      forall k | 0 <= k < |c.visited| - 1 ensures c.visited[k] in m && m[c.visited[k]].parent == Some(c.visited[k + 1]) {
        if k > 0 {
          assert c.visited[k] == rest.visited[k - 1] && c.visited[k + 1] == rest.visited[k - 1 + 1];
        }
      }
    }
  }

  /** The handle a walk looks up after visiting its first `n` handles: `null` once it reaches the root. */
  function NextLookup(c: Chain, n: nat): Option<Handle>
  {
    if n < |c.visited| then Some(c.visited[n]) else if c.end.Missing? then Some(c.end.at) else None
  }

  /** After visiting handle `n`, a walk that does not loop looks up that handle's parent. */
  lemma NextLookupStep(m: map<Handle, Entry>, cur: Option<Handle>, n: nat)
    requires !Walk(m, cur, {}).end.Cycle? && n < |Walk(m, cur, {}).visited|
    ensures var c := Walk(m, cur, {});
      && NextLookup(c, n) == Some(c.visited[n]) && c.visited[n] in m && m[c.visited[n]].index == c.indices[n]
      && NextLookup(c, n + 1) == m[c.visited[n]].parent
      && c.visited[..n + 1] == c.visited[..n] + [c.visited[n]]
      && c.indices[..n + 1] == c.indices[..n] + [c.indices[n]]
  {
    var c := Walk(m, cur, {});
    PrefixSnoc(c.visited, n);
    PrefixSnoc(c.indices, n);
    if n + 1 < |c.visited| {
      WalkParentLinks(m, cur, {});
      assert m[c.visited[n]].parent == Some(c.visited[n + 1]);
    } else if c.end.Missing? {
      assert NextLookup(c, n + 1) == Some(c.end.at);
    } else {
      assert c.end.Root?;
      assert NextLookup(c, n + 1) == None;
    }
  }

  lemma PrefixSnoc<T>(s: seq<T>, n: nat)
    requires n < |s|
    ensures s[..n + 1] == s[..n] + [s[n]]
  {
  }

  /** A walk that does not loop stops exactly where its next lookup is `null` or a handle with no entry. */
  lemma NextLookupEnd(m: map<Handle, Entry>, cur: Option<Handle>, n: nat)
    requires !Walk(m, cur, {}).end.Cycle? && n <= |Walk(m, cur, {}).visited|
    requires NextLookup(Walk(m, cur, {}), n).None? || NextLookup(Walk(m, cur, {}), n).value !in m
    ensures var c := Walk(m, cur, {});
      && n == |c.visited| && c.visited[..n] == c.visited && c.indices[..n] == c.indices
      && (NextLookup(c, n).None? <==> c.end.Root?)
  {
  }

  /** The parent chain from `cur` never comes back to a handle it has visited. */
  ghost predicate NoCycleFrom(m: map<Handle, Entry>, cur: Option<Handle>)
  {
    !Walk(m, cur, {}).end.Cycle?
  }

  /**
   * `resolveIndexPathFromRESTCollectionHandle`'s result: the indices met on the way up,
   * reversed (root first), or `null` when an ancestor has no entry.
   */
  function CollectionIndexPath(m: map<Handle, Entry>, h: Handle): (p: Option<seq<int>>)
    ensures p.Some? ==> h in m && |p.value| > 0 && p.value[|p.value| - 1] == m[h].index
  {
    var c := Walk(m, Some(h), {});
    if c.end.Root? then Some(Reverse(c.indices)) else None
  }

  /** The collection map after that resolver: a missing ancestor deletes it and every handle visited. */
  function AfterCollectionResolve(m: map<Handle, Entry>, h: Handle): (m': map<Handle, Entry>)
    ensures m'.Keys <= m.Keys && forall g :: g in m' ==> m'[g] == m[g]
    ensures CollectionIndexPath(m, h).Some? ==> m' == m
    ensures Walk(m, Some(h), {}).end.Missing? ==> h !in m'
  {
    var c := Walk(m, Some(h), {});
    if c.end.Missing? then m - {c.end.at} - (set v | v in c.visited) else m
  }

  /**
   * `resolveIndexPathFromRESTRequestHandle`'s result: `null` for an unregistered request;
   * otherwise the parent collection's path followed by the request's own index.
   */
  function RequestIndexPath(r: Registry, h: Handle): (p: Option<seq<int>>)
    ensures p.Some? ==> h in r.reqs && |p.value| > 0 && p.value[|p.value| - 1] == r.reqs[h].index
  {
    if h !in r.reqs then None
    else
      var c := Walk(r.colls, r.reqs[h].parent, {});
      if c.end.Root? then Some(Reverse([r.reqs[h].index] + c.indices)) else None
  }

  /** The registry after that resolver: a missing ancestor also deletes the request handle. */
  function AfterRequestResolve(r: Registry, h: Handle): (r': Registry)
    ensures r'.ticker == r.ticker && r'.colls.Keys <= r.colls.Keys && r'.reqs.Keys <= r.reqs.Keys
    ensures (forall g :: g in r'.colls ==> r'.colls[g] == r.colls[g]) && forall g :: g in r'.reqs ==> r'.reqs[g] == r.reqs[g]
    ensures h !in r.reqs || RequestIndexPath(r, h).Some? ==> r' == r
    ensures h in r.reqs && Walk(r.colls, r.reqs[h].parent, {}).end.Missing? ==> h !in r'.reqs
  {
    if h !in r.reqs then r
    else
      var c := Walk(r.colls, r.reqs[h].parent, {});
      if c.end.Missing? then Registry(r.ticker, r.colls - {c.end.at} - (set v | v in c.visited), r.reqs - {h})
      else r
  }

  /**
   * A resolved collection path has one index per handle on the chain: it starts with the
   * index of the root ancestor (whose parent is `null`) and ends with the handle's own index.
   */
  lemma CollectionIndexPathShape(m: map<Handle, Entry>, h: Handle)
    requires CollectionIndexPath(m, h).Some?
    ensures var p := CollectionIndexPath(m, h).value; var v := Walk(m, Some(h), {}).visited;
      && |p| == |v| > 0
      && h in m && p[|p| - 1] == m[h].index
      && m[v[|v| - 1]].parent.None? && p[0] == m[v[|v| - 1]].index
      && (forall k :: 0 <= k < |p| ==> p[k] == m[v[|v| - 1 - k]].index)
  {
  }

  /** A resolved request path ends with the request's index, after its parent collection's path. */
  lemma RequestIndexPathShape(r: Registry, h: Handle)
    requires RequestIndexPath(r, h).Some?
    ensures var p := RequestIndexPath(r, h).value;
      && h in r.reqs && |p| >= 1 && p[|p| - 1] == r.reqs[h].index
      && (r.reqs[h].parent.Some? ==> CollectionIndexPath(r.colls, r.reqs[h].parent.value) == Some(p[..|p| - 1]))
      && (r.reqs[h].parent.None? ==> p == [r.reqs[h].index])
  {
    var c := Walk(r.colls, r.reqs[h].parent, {});
    var p := Reverse([r.reqs[h].index] + c.indices);
    assert p == Reverse(c.indices) + [r.reqs[h].index];
    assert p[..|p| - 1] == Reverse(c.indices);
  }

  /**
   * `hs` is a registered chain for `p`: `hs[0]` is a root collection at `p[0]`, and each
   * `hs[i]` is registered under `hs[i-1]` at `p[i]`.
   */
  ghost predicate ChainFor(m: map<Handle, Entry>, hs: seq<Handle>, p: seq<int>)
  {
    && |hs| == |p| > 0
    && (forall i :: 0 <= i < |hs| ==> hs[i] in m && m[hs[i]].index == p[i])
    && hs[0] in m && m[hs[0]].parent.None?
    && (forall i :: 0 < i < |hs| ==> hs[i] in m && m[hs[i]].parent == Some(hs[i - 1]))
  }

  lemma {:induction false} ChainForDistinct(m: map<Handle, Entry>, hs: seq<Handle>, p: seq<int>, i: nat, j: nat)
    requires ChainFor(m, hs, p) && i < j < |hs|
    ensures hs[i] != hs[j]
    decreases i
  {
    assert m[hs[j]].parent == Some(hs[j - 1]);
    if i > 0 {
      ChainForDistinct(m, hs, p, i - 1, j - 1);
      assert m[hs[i]].parent == Some(hs[i - 1]);
    }
  }

  lemma {:induction false} ChainForWalk(m: map<Handle, Entry>, hs: seq<Handle>, p: seq<int>, seen: set<Handle>)
    requires ChainFor(m, hs, p)
    requires forall i :: 0 <= i < |hs| ==> hs[i] !in seen
    ensures Walk(m, Some(hs[|hs| - 1]), seen) == Chain(Reverse(hs), Reverse(p), Root)
    decreases |hs|
  {
    var n := |hs|;
    var x := hs[n - 1];
    assert x in m && x !in seen && m[x].index == p[n - 1];
    var rest := Walk(m, m[x].parent, seen + {x});
    assert Walk(m, Some(x), seen) == Chain([x] + rest.visited, [p[n - 1]] + rest.indices, rest.end);
    if n == 1 {
      assert rest == Chain([], [], Root);
      assert Reverse(hs) == [x] + Reverse(hs[..0]);
      assert Reverse(p) == [p[0]] + Reverse(p[..0]);
    } else {
      var hs', p' := hs[..n - 1], p[..n - 1];
      forall i | 0 <= i < |hs'| ensures hs'[i] in m && m[hs'[i]].index == p'[i] {
        assert hs'[i] == hs[i] && p'[i] == p[i];
      }
      forall i | 0 < i < |hs'| ensures hs'[i] in m && m[hs'[i]].parent == Some(hs'[i - 1]) {
        assert hs'[i] == hs[i] && hs'[i - 1] == hs[i - 1];
      }
      assert ChainFor(m, hs', p');
      forall i | 0 <= i < |hs'| ensures hs'[i] !in seen + {x} {
        ChainForDistinct(m, hs, p, i, n - 1);
      }
      ChainForWalk(m, hs', p', seen + {x});
      assert m[x].parent == Some(hs'[|hs'| - 1]);
    }
  }

  /** The handles the lookups find for the prefixes of a fully registered path form a chain for it. */
  lemma {:induction false} ResolvedChain(m: map<Handle, Entry>, p: seq<int>, bound: nat) returns (hs: seq<Handle>)
    requires |p| > 0 && FullyRegistered(m, p, bound)
    ensures ChainFor(m, hs, p) && Some(hs[|hs| - 1]) == ResolveFolderPath(m, p, bound)
  {
    var n := |p|;
    assert p[..n] == p;
    var h := ResolveFolderPath(m, p, bound).value;
    if n == 1 {
      hs := [h];
    } else {
      var q := p[..n - 1];
      forall k | 1 <= k <= |q| ensures ResolveFolderPath(m, q[..k], bound).Some? {
        assert q[..k] == p[..k];
      }
      var hs' := ResolvedChain(m, q, bound);
      hs := hs' + [h];
      forall i | 0 <= i < |hs| ensures hs[i] in m && m[hs[i]].index == p[i] {
        if i < n - 1 {
          assert hs[i] == hs'[i] && p[i] == q[i];
        }
      }
      forall i | 0 < i < |hs| ensures hs[i] in m && m[hs[i]].parent == Some(hs[i - 1]) {
        if i < n - 1 {
          assert hs[i] == hs'[i] && hs[i - 1] == hs'[i - 1];
        }
      }
    }
  }

  /** A path every prefix of which is registered resolves to a handle whose index path is that path. */
  lemma PathRoundTrip(m: map<Handle, Entry>, p: seq<int>, bound: nat)
    requires |p| > 0 && FullyRegistered(m, p, bound)
    ensures ResolveFolderPath(m, p, bound).Some?
    ensures CollectionIndexPath(m, ResolveFolderPath(m, p, bound).value) == Some(p)
  {
    var hs := ResolvedChain(m, p, bound);
    ChainForWalk(m, hs, p, {});
    ReverseReverse(p);
  }

  /** A request registered at index `j` under the last handle of a chain for `p` resolves to `p + [j]`. */
  lemma ChainRequestPath(r: Registry, hs: seq<Handle>, p: seq<int>, h: Handle, j: int)
    requires ChainFor(r.colls, hs, p) && h in r.reqs && r.reqs[h] == Entry(Some(hs[|hs| - 1]), j)
    ensures RequestIndexPath(r, h) == Some(p + [j])
  {
    ChainForWalk(r.colls, hs, p, {});
    ReverseCons(j, Reverse(p));
    ReverseReverse(p);
  }

  /** A completed walk, read from the root down, is a registered chain for the resolved path. */
  lemma WalkChainFor(m: map<Handle, Entry>, h: Handle)
    requires CollectionIndexPath(m, h).Some?
    ensures var hs := Reverse(Walk(m, Some(h), {}).visited);
      && ChainFor(m, hs, CollectionIndexPath(m, h).value) && hs[|hs| - 1] == h
  {
    var c := Walk(m, Some(h), {});
    var hs := Reverse(c.visited);
    var p := Reverse(c.indices);
    var n := |hs|;
    WalkParentLinks(m, Some(h), {});
    forall i | 0 <= i < n ensures hs[i] in m && m[hs[i]].index == p[i] {
      assert hs[i] == c.visited[n - 1 - i] && p[i] == c.indices[n - 1 - i];
    }
    forall i | 0 < i < n ensures hs[i] in m && m[hs[i]].parent == Some(hs[i - 1]) {
      var j := n - 1 - i;
      assert hs[i] == c.visited[j] && hs[i - 1] == c.visited[j + 1];
    }
    assert hs[0] == c.visited[n - 1];
  }

  /** Under `Injective`, the lookups for a registered chain's path find exactly its handles. */
  lemma {:induction false} ChainForResolves(m: map<Handle, Entry>, hs: seq<Handle>, p: seq<int>, bound: nat, k: nat)
    requires Injective(m) && (forall h :: h in m ==> 0 < h < bound)
    requires ChainFor(m, hs, p) && 1 <= k <= |p|
    ensures ResolveFolderPath(m, p[..k], bound) == Some(hs[k - 1])
  {
    assert p[..k][..k - 1] == p[..k - 1];
    var prev := ResolveFolderPath(m, p[..k - 1], bound);
    if k > 1 {
      ChainForResolves(m, hs, p, bound, k - 1);
      assert m[hs[k - 1]].parent == Some(hs[k - 2]);
    }
    assert m[hs[k - 1]] == Entry(prev, p[k - 1]);
    FindInjective(m, Entry(prev, p[k - 1]), bound, hs[k - 1]);
  }

  /** Conversely, under `Injective`, resolving a handle's index path as a folder path gives the handle back. */
  lemma HandleRoundTrip(m: map<Handle, Entry>, h: Handle, bound: nat)
    requires Injective(m) && (forall k :: k in m ==> 0 < k < bound)
    requires CollectionIndexPath(m, h).Some?
    ensures ResolveFolderPath(m, CollectionIndexPath(m, h).value, bound) == Some(h)
  {
    var p := CollectionIndexPath(m, h).value;
    var hs := Reverse(Walk(m, Some(h), {}).visited);
    WalkChainFor(m, h);
    ChainForResolves(m, hs, p, bound, |p|);
    assert p[..|p|] == p;
  }

  /** How the walk ends does not depend on handles it never reaches: shrinking `seen` changes nothing unless a cycle was met. */
  lemma {:induction false} WalkSeenShrink(m: map<Handle, Entry>, cur: Option<Handle>, big: set<Handle>, small: set<Handle>)
    requires small <= big && !Walk(m, cur, big).end.Cycle?
    ensures Walk(m, cur, small) == Walk(m, cur, big)
    decreases |m.Keys - small|
  {
    if cur.Some? && cur.value in m {
      var x := cur.value;
      assert x !in big;
      assert m.Keys - small == (m.Keys - (small + {x})) + {x};
      WalkSeenShrink(m, m[x].parent, big + {x}, small + {x});
    }
  }

  /**
   * When the walk from `h` meets a handle with no entry, every handle it visited has no index
   * path of its own either: the resolver deletes handles that could never resolve again.
   */
  lemma {:induction false} MissingWalkUnresolvable(m: map<Handle, Entry>, h: Handle, k: nat)
    requires Walk(m, Some(h), {}).end.Missing? && k < |Walk(m, Some(h), {}).visited|
    ensures CollectionIndexPath(m, Walk(m, Some(h), {}).visited[k]) == None
    decreases k
  {
    var c := Walk(m, Some(h), {});
    if k > 0 {
      assert h in m;
      var none: set<Handle> := {};
      assert none + {h} == {h};
      var rest := Walk(m, m[h].parent, {h});
      assert c.visited == [h] + rest.visited && c.end == rest.end;
      WalkSeenShrink(m, m[h].parent, {h}, {});
      var up := rest.visited[0];
      assert m[h].parent == Some(up);
      MissingWalkUnresolvable(m, up, k - 1);
    }
  }

  /**
   * The cascade: `a` is the parent of `b` and `b` the parent of `c`. Once `a`'s entry is gone,
   * `c` has no index path, and resolving it deletes the entries of `b` and `c` as well.
   */
  lemma CascadeAfterAncestorRemoval(m: map<Handle, Entry>, a: Handle, b: Handle, c: Handle)
    requires a != b && b != c && a != c
    requires b in m && c in m && m[b].parent == Some(a) && m[c].parent == Some(b)
    ensures CollectionIndexPath(m - {a}, c) == None
    ensures AfterCollectionResolve(m - {a}, c) == m - {a, b, c}
  {
    var m' := m - {a};
    var none: set<Handle> := {};
    assert none + {c} == {c} && {c} + {b} == {c, b};
    assert Walk(m', Some(a), {c, b}) == Chain([], [], Missing(a));
    assert Walk(m', Some(b), {c}) == Chain([b], [m[b].index], Missing(a));
    assert Walk(m', Some(c), {}) == Chain([c, b], [m[c].index, m[b].index], Missing(a));
    assert (set v | v in [c, b]) == {c, b};
  }

  /** Which of the two maps an operation works on. */
  datatype Kind = Collections | Requests

  function Table(r: Registry, k: Kind): map<Handle, Entry>
  {
    if k.Collections? then r.colls else r.reqs
  }

  function WithTable(r: Registry, k: Kind, m: map<Handle, Entry>): Registry
  {
    if k.Collections? then r.(colls := m) else r.(reqs := m)
  }

  /** `createAssociatedRESTCollectionHandle` / `createAssociatedRESTRequestHandle`: the ticker becomes the new handle. */
  function Create(r: Registry, k: Kind, e: Entry): (Handle, Registry)
  {
    (r.ticker, WithTable(r, k, Table(r, k)[r.ticker := e]).(ticker := r.ticker + 1))
  }

  /** `getOrCreateAssociatedRESTCollectionHandle` / `getOrCreateAssociatedRESTRequestHandle`. */
  function GetOrCreate(r: Registry, k: Kind, e: Entry): (Handle, Registry)
  {
    match Find(Table(r, k), e, r.ticker)
    case Some(h) => (h, r)
    case None => Create(r, k, e)
  }

  /**
   * Minting: the new handle is the old ticker, which no map holds yet; it is registered at `e`,
   * the ticker moves up by one, and nothing else changes.
   */
  lemma CreateFresh(r: Registry, k: Kind, e: Entry)
    requires Valid(r)
    ensures var (h, r') := Create(r, k, e);
      && h == r.ticker && h !in r.colls && h !in r.reqs
      && Valid(r') && r'.ticker == r.ticker + 1
      && Table(r', k) == Table(r, k)[h := e]
      && (k.Collections? ==> r'.reqs == r.reqs) && (k.Requests? ==> r'.colls == r.colls)
  {
  }

  /**
   * A lookup: when a handle is already registered at `e` the first such handle comes back and
   * the registry is unchanged; otherwise a handle is minted for `e`.
   */
  lemma GetOrCreateFindsOrMints(r: Registry, k: Kind, e: Entry)
    requires Valid(r)
    ensures var (h, r') := GetOrCreate(r, k, e);
      && Valid(r') && h in Table(r', k) && Table(r', k)[h] == e
      && (forall g :: g in Table(r, k) && g < h ==> Table(r, k)[g] != e)
      && ((exists g :: g in Table(r, k) && Table(r, k)[g] == e) ==> r' == r)
      && ((forall g :: g in Table(r, k) ==> Table(r, k)[g] != e) ==> (h, r') == Create(r, k, e))
  {
    var f := Find(Table(r, k), e, r.ticker);
    if f.Some? {
      forall g | g in Table(r, k) && g < f.value ensures Table(r, k)[g] != e {
        assert 1 <= g;
      }
    } else {
      forall g | g in Table(r, k) ensures Table(r, k)[g] != e {
        assert 1 <= g < r.ticker;
      }
    }
  }

  /** Asking twice for the same pair gives the same handle and the second call changes nothing. */
  lemma GetOrCreateIdempotent(r: Registry, k: Kind, e: Entry)
    requires Valid(r)
    ensures var (h, r') := GetOrCreate(r, k, e); GetOrCreate(r', k, e) == (h, r')
  {
    var (h, r') := GetOrCreate(r, k, e);
    GetOrCreateFindsOrMints(r, k, e);
    var f := Find(Table(r', k), e, r'.ticker);
    assert f.Some? && f.value <= h;
  }
}
