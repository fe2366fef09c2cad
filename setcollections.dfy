/**
 * `handleSetCollections`: after the store's collections are replaced wholesale, handles are
 * matched to nodes by their `_ref_id`. This module holds the ref-id maps `handleSetCollections`
 * builds, both the keying it writes and the keying it evidently intends, and its two update
 * passes as written.
 */
module SetCollections {
  import opened Wrappers
  import opened CollectionTree
  import opened HandleRegistry
  import opened Handlers

  /**
   * A `Map<string, number[]>` filled by `set`: its entries in insertion order. The store's
   * ref ids are distinct, so no `set` replaces an earlier entry.
   */
  type PathList = seq<(RefId, seq<int>)>

  /** An entry of `foldersToProcess`: a collection and its index path. */
  datatype Pending = Pending(coll: Collection, path: seq<int>)

  /** The collections still to visit from a stack of pending entries. */
  function PendingSize(stack: seq<Pending>): nat
  {
    if stack == [] then 0 else 1 + ForestSize(stack[0].coll.folders) + PendingSize(stack[1..])
  }

  lemma {:induction false} PendingSizeAppend(a: seq<Pending>, b: seq<Pending>)
    ensures PendingSize(a + b) == PendingSize(a) + PendingSize(b)
    decreases |a|
  {
    if a == [] {
      assert a + b == b;
    } else {
      assert (a + b)[0] == a[0] && (a + b)[1..] == a[1..] + b;
      PendingSizeAppend(a[1..], b);
    }
  }

  /** The entries for collections `cs` at paths `prefix + [offset + j]`, in index order. */
  function Frames(cs: seq<Collection>, prefix: seq<int>, offset: int): (s: seq<Pending>)
    ensures |s| == |cs| && PendingSize(s) == ForestSize(cs)
    ensures forall j :: 0 <= j < |s| ==> s[j] == Pending(cs[j], prefix + [offset + j])
  {
    if cs == [] then []
    else
      var rest := Frames(cs[1..], prefix, offset + 1);
      assert ([Pending(cs[0], prefix + [offset])] + rest)[1..] == rest;
      [Pending(cs[0], prefix + [offset])] + rest
  }

  /** `state.map((coll, index) => [coll, [index]])`. */
  function Roots(state: seq<Collection>): (s: seq<Pending>)
    ensures |s| == |state| && PendingSize(s) == ForestSize(state)
    ensures forall j :: 0 <= j < |s| ==> s[j] == Pending(state[j], [j])
  {
    Frames(state, [], 0)
  }

  /** The entries pushed for the folders of `top`. */
  function Children(top: Pending): (s: seq<Pending>)
    ensures |s| == |top.coll.folders| && PendingSize(s) == ForestSize(top.coll.folders)
    ensures forall j :: 0 <= j < |s| ==> s[j] == Pending(top.coll.folders[j], top.path + [j])
  {
    Frames(top.coll.folders, top.path, 0)
  }

  /** Popping the last entry and pushing its children leaves fewer collections to visit. */
  lemma PopShrinks(stack: seq<Pending>)
    requires stack != []
    ensures PendingSize(stack[..|stack| - 1] + Children(stack[|stack| - 1])) < PendingSize(stack)
  {
    var rest := stack[..|stack| - 1];
    var top := stack[|stack| - 1];
    assert stack == rest + [top];
    PendingSizeAppend(rest, [top]);
    PendingSizeAppend(rest, Children(top));
    assert [top][1..] == [];
  }

  /** The `while (foldersToProcess.length > 0)` loop of `getRefIDToCollectionFolderPathMap`. */
  function CollectionPathsFrom(stack: seq<Pending>, acc: PathList): PathList
    decreases PendingSize(stack)
  {
    if stack == [] then acc
    else
      var top := stack[|stack| - 1];
      PopShrinks(stack);
      CollectionPathsFrom(stack[..|stack| - 1] + Children(top), acc + [(top.coll.refId, top.path)])
  }

  /** `getRefIDToCollectionFolderPathMap(state)`. */
  function CollectionPaths(state: seq<Collection>): PathList
  {
    CollectionPathsFrom(Roots(state), [])
  }

  /** The entries `result.set(req._ref_id, [...indexPath, reqIndex])` adds for one collection. */
  function RequestEntriesOf(top: Pending): (s: PathList)
    ensures |s| == |top.coll.requests|
    ensures forall j :: 0 <= j < |s| ==> s[j] == (top.coll.requests[j].refId, top.path + [j])
  {
    seq(|top.coll.requests|, j requires 0 <= j < |top.coll.requests| => (top.coll.requests[j].refId, top.path + [j]))
  }

  /** The `while (foldersToProcess.length > 0)` loop of `getRefIDToRequestFolderPathMap`. */
  function RequestPathsFrom(stack: seq<Pending>, acc: PathList): PathList
    decreases PendingSize(stack)
  {
    if stack == [] then acc
    else
      var top := stack[|stack| - 1];
      PopShrinks(stack);
      RequestPathsFrom(stack[..|stack| - 1] + Children(top), acc + RequestEntriesOf(top))
  }

  /** `getRefIDToRequestFolderPathMap(state)`. */
  function RequestPaths(state: seq<Collection>): PathList
  {
    RequestPathsFrom(Roots(state), [])
  }

  /** Every pending entry names the collection the store holds at its path. */
  ghost predicate PendingSound(state: seq<Collection>, stack: seq<Pending>)
  {
    forall k :: 0 <= k < |stack| ==> |stack[k].path| > 0 && Navigate(state, stack[k].path) == Some(stack[k].coll)
  }

  /** Every collection entry names a path at which the store holds a collection with that ref id. */
  ghost predicate CollectionPathsSound(state: seq<Collection>, pl: PathList)
  {
    forall k :: 0 <= k < |pl| ==> Navigate(state, pl[k].1).Some? && Navigate(state, pl[k].1).value.refId == pl[k].0
  }

  /** Every request entry names a folder path and an index at which the store holds a request with that ref id. */
  ghost predicate RequestPathsSound(state: seq<Collection>, pl: PathList)
  {
    forall k :: 0 <= k < |pl| ==>
      var p := pl[k].1;
      |p| > 0 && RequestAt(state, p[..|p| - 1], p[|p| - 1]).Some?
      && RequestAt(state, p[..|p| - 1], p[|p| - 1]).value.refId == pl[k].0
  }

  lemma RootsSound(state: seq<Collection>)
    ensures PendingSound(state, Roots(state))
  {
    forall k | 0 <= k < |state|
      ensures Navigate(state, [k]) == Some(state[k])
    {
      NavigateRoot(state, k);
    }
  }

  lemma PopSound(state: seq<Collection>, stack: seq<Pending>)
    requires stack != [] && PendingSound(state, stack)
    ensures PendingSound(state, stack[..|stack| - 1] + Children(stack[|stack| - 1]))
  {
    var top := stack[|stack| - 1];
    var next := stack[..|stack| - 1] + Children(top);
    var kids := Children(top);
    assert |next| == |stack| - 1 + |kids|;
    forall k | 0 <= k < |next|
      ensures |next[k].path| > 0 && Navigate(state, next[k].path) == Some(next[k].coll)
    {
      if k < |stack| - 1 {
        assert next[k] == stack[k];
      } else {
        var j := k - (|stack| - 1);
        assert next[k] == kids[j] == Pending(top.coll.folders[j], top.path + [j]);
        assert Navigate(state, top.path) == Some(top.coll);
        NavigateSnoc(state, top.path, j);
      }
    }
  }

  /** Every path `getRefIDToCollectionFolderPathMap` records leads to a collection with that ref id. */
  lemma {:induction false} CollectionPathsFromSound(state: seq<Collection>, stack: seq<Pending>, acc: PathList)
    requires PendingSound(state, stack) && CollectionPathsSound(state, acc)
    ensures CollectionPathsSound(state, CollectionPathsFrom(stack, acc))
    decreases PendingSize(stack)
  {
    if stack != [] {
      var top := stack[|stack| - 1];
      PopShrinks(stack);
      PopSound(state, stack);
      CollectionPathsFromSound(state, stack[..|stack| - 1] + Children(top), acc + [(top.coll.refId, top.path)]);
    }
  }

  /** Every path `getRefIDToRequestFolderPathMap` records leads to a request with that ref id. */
  lemma {:induction false} RequestPathsFromSound(state: seq<Collection>, stack: seq<Pending>, acc: PathList)
    requires PendingSound(state, stack) && RequestPathsSound(state, acc)
    ensures RequestPathsSound(state, RequestPathsFrom(stack, acc))
    decreases PendingSize(stack)
  {
    if stack != [] {
      var top := stack[|stack| - 1];
      var added := RequestEntriesOf(top);
      forall k | 0 <= k < |added|
        ensures var p := added[k].1;
          |p| > 0 && RequestAt(state, p[..|p| - 1], p[|p| - 1]).Some?
          && RequestAt(state, p[..|p| - 1], p[|p| - 1]).value.refId == added[k].0
      {
        assert (top.path + [k])[..|top.path|] == top.path;
      }
      PopShrinks(stack);
      PopSound(state, stack);
      RequestPathsFromSound(state, stack[..|stack| - 1] + Children(top), acc + added);
    }
  }

  lemma CollectionPathsAreSound(state: seq<Collection>)
    ensures CollectionPathsSound(state, CollectionPaths(state))
  {
    RootsSound(state);
    CollectionPathsFromSound(state, Roots(state), []);
  }

  lemma RequestPathsAreSound(state: seq<Collection>)
    ensures RequestPathsSound(state, RequestPaths(state))
  {
    RootsSound(state);
    RequestPathsFromSound(state, Roots(state), []);
  }

  /** How a scan over a handle map ends: normally, by a `TypeError`, or never (a parent cycle). */
  datatype ScanEnd = Scanned | ScanThrew | ScanHangs

  /** The registry a scan leaves, the ref-id map it built, and how it ended. */
  datatype Scan = Scan(r: Registry, refs: map<RefId, Handle>, end: ScanEnd)

  /** The collection map after a resolver's walk: a missing ancestor deletes it and every handle visited. */
  function Pruned(m: map<Handle, Entry>, c: Chain): map<Handle, Entry>
  {
    if c.end.Missing? then m - {c.end.at} - (set v | v in c.visited) else m
  }

  /** Distinct ref ids are keyed to distinct handles. */
  ghost predicate RefsInjective(refs: map<RefId, Handle>)
  {
    forall x, y :: x in refs && y in refs && refs[x] == refs[y] ==> x == y
  }

  /** What a scan keeps: the ticker and the request map; collection entries are only deleted. */
  ghost predicate ScanKeeps(r: Registry, r': Registry)
  {
    && r'.ticker == r.ticker && r'.reqs == r.reqs
    && (forall h :: h in r'.colls ==> h in r.colls && r'.colls[h] == r.colls[h])
  }

  /**
   * `getRefIDToRequestHandleMap(prevState)`, from handle `g` on: each request handle whose
   * parent resolves is keyed by the ref id of the request `prevState` holds there.
   */
  function RequestRefsFrom(r: Registry, prev: seq<Collection>, g: nat, refs: map<RefId, Handle>): (s: Scan)
    requires 0 < g <= r.ticker
    requires forall x :: x in refs ==> 0 < refs[x] < g && refs[x] in r.reqs
    requires RefsInjective(refs)
    ensures ScanKeeps(r, s.r)
    ensures forall x :: x in s.refs ==> 0 < s.refs[x] < r.ticker && s.refs[x] in r.reqs
    ensures RefsInjective(s.refs)
    decreases r.ticker - g
  {
    if g >= r.ticker then Scan(r, refs, Scanned)
    else if g !in r.reqs then RequestRefsFrom(r, prev, g + 1, refs)
    else
      var e := r.reqs[g];
      var c := Walk(r.colls, e.parent, {});
      if c.end.Cycle? then Scan(r, refs, ScanHangs)
      else if c.end.Missing? then RequestRefsFrom(r.(colls := Pruned(r.colls, c)), prev, g + 1, refs)
      else
        match RequestAt(prev, Reverse(c.indices), e.index)
        case None => Scan(r, refs, ScanThrew)
        case Some(q) => RequestRefsFrom(r, prev, g + 1, refs[q.refId := g])
  }

  /**
   * `getRefIDToCollectionHandleMap(prevState)` as written, from handle `g` on: a nested handle
   * is keyed by the ref id found at its PARENT's path; a root handle, or one whose parent no
   * longer resolves, by the ref id of the root collection at its own index.
   */
  function CollectionRefsAsWrittenFrom(r: Registry, prev: seq<Collection>, g: nat, refs: map<RefId, Handle>): (s: Scan)
    ensures ScanKeeps(r, s.r)
    decreases r.ticker - g
  {
    if g >= r.ticker then Scan(r, refs, Scanned)
    else if g !in r.colls then CollectionRefsAsWrittenFrom(r, prev, g + 1, refs)
    else
      var e := r.colls[g];
      var c := Walk(r.colls, e.parent, {});
      if c.end.Cycle? then Scan(r, refs, ScanHangs)
      else
        var r1 := r.(colls := Pruned(r.colls, c));
        var target := if e.parent.Some? && c.end.Root? then Reverse(c.indices) else [e.index];
        match Navigate(prev, target)
        case None => Scan(r1, refs, ScanThrew)
        case Some(coll) => CollectionRefsAsWrittenFrom(r1, prev, g + 1, refs[coll.refId := g])
  }

  /**
   * The same map keyed as evidently intended, from handle `g` on: each handle whose own chain
   * resolves is keyed by the ref id of the collection at its own path; a handle with a missing
   * ancestor is dropped, as `getRefIDToRequestHandleMap` drops a request.
   */
  function CollectionRefsFrom(r: Registry, prev: seq<Collection>, g: nat, refs: map<RefId, Handle>): (s: Scan)
    requires 0 < g <= r.ticker && r.colls.Keys !! r.reqs.Keys
    requires forall x :: x in refs ==> 0 < refs[x] < g && refs[x] !in r.reqs
    requires RefsInjective(refs)
    ensures ScanKeeps(r, s.r)
    ensures forall x :: x in s.refs ==> 0 < s.refs[x] < r.ticker && s.refs[x] !in r.reqs
    ensures RefsInjective(s.refs)
    decreases r.ticker - g
  {
    if g >= r.ticker then Scan(r, refs, Scanned)
    else if g !in r.colls then CollectionRefsFrom(r, prev, g + 1, refs)
    else
      var c := Walk(r.colls, Some(g), {});
      if c.end.Cycle? then Scan(r, refs, ScanHangs)
      else if c.end.Missing? then CollectionRefsFrom(r.(colls := Pruned(r.colls, c)), prev, g + 1, refs)
      else
        match Navigate(prev, Reverse(c.indices))
        case None => Scan(r, refs, ScanThrew)
        case Some(coll) => CollectionRefsFrom(r, prev, g + 1, refs[coll.refId := g])
  }

  /** The request scan, part way: at handle `g` with `refs` keyed so far, it goes on to give `target`. */
  ghost predicate RequestScanAt(r: Registry, prev: seq<Collection>, g: nat, refs: map<RefId, Handle>, target: Scan)
  {
    && 0 < g <= r.ticker
    && (forall x :: x in refs ==> 0 < refs[x] < g && refs[x] in r.reqs)
    && RefsInjective(refs)
    && RequestRefsFrom(r, prev, g, refs) == target
  }

  /** The request scan ends once every handle is visited. */
  lemma RequestScanDone(r: Registry, prev: seq<Collection>, g: nat, refs: map<RefId, Handle>, target: Scan)
    requires RequestScanAt(r, prev, g, refs, target) && g >= r.ticker
    ensures target == Scan(r, refs, Scanned)
  {
  }

  /** A number that is no request handle is skipped. */
  lemma RequestScanSkip(r: Registry, prev: seq<Collection>, g: nat, refs: map<RefId, Handle>, target: Scan)
    requires RequestScanAt(r, prev, g, refs, target) && g < r.ticker && g !in r.reqs
    ensures RequestScanAt(r, prev, g + 1, refs, target)
  {
  }

  /** A scan that does not hang meets no cycle above a request handle. */
  lemma RequestScanNoCycle(r: Registry, prev: seq<Collection>, g: nat, refs: map<RefId, Handle>, target: Scan)
    requires RequestScanAt(r, prev, g, refs, target) && g < r.ticker && g in r.reqs && !target.end.ScanHangs?
    ensures !Walk(r.colls, r.reqs[g].parent, {}).end.Cycle?
  {
  }

  /** A request whose parent chain is broken is skipped, and the chain is pruned. */
  lemma RequestScanPruned(r: Registry, prev: seq<Collection>, g: nat, refs: map<RefId, Handle>, target: Scan)
    requires RequestScanAt(r, prev, g, refs, target) && g < r.ticker && g in r.reqs
    requires Walk(r.colls, r.reqs[g].parent, {}).end.Missing?
    ensures RequestScanAt(r.(colls := Pruned(r.colls, Walk(r.colls, r.reqs[g].parent, {}))), prev, g + 1, refs, target)
  {
  }

  /** A request whose parent resolves to a path `prev` does not hold ends the scan with a throw. */
  lemma RequestScanThrows(r: Registry, prev: seq<Collection>, g: nat, refs: map<RefId, Handle>, target: Scan)
    requires RequestScanAt(r, prev, g, refs, target) && g < r.ticker && g in r.reqs
    requires var c := Walk(r.colls, r.reqs[g].parent, {});
      c.end.Root? && RequestAt(prev, Reverse(c.indices), r.reqs[g].index).None?
    ensures target == Scan(r, refs, ScanThrew)
  {
  }

  /** Otherwise the request found there is keyed to `g`. */
  lemma RequestScanKeys(r: Registry, prev: seq<Collection>, g: nat, refs: map<RefId, Handle>, target: Scan, x: RefId)
    requires RequestScanAt(r, prev, g, refs, target) && g < r.ticker && g in r.reqs
    requires var c := Walk(r.colls, r.reqs[g].parent, {});
      c.end.Root? && RequestAt(prev, Reverse(c.indices), r.reqs[g].index).Some?
      && x == RequestAt(prev, Reverse(c.indices), r.reqs[g].index).value.refId
    ensures RequestScanAt(r, prev, g + 1, refs[x := g], target)
  {
    RequestRefsStep(r, g, refs, x, refs[x := g]);
    assert RequestRefsFrom(r, prev, g, refs) == RequestRefsFrom(r, prev, g + 1, refs[x := g]);
  }

  /** Keying request handle `g`, above every keyed handle, keeps the ref map injective and its handles bounded. */
  lemma RequestRefsStep(r: Registry, g: nat, refs: map<RefId, Handle>, x: RefId, refs': map<RefId, Handle>)
    requires 0 < g && g in r.reqs && refs' == refs[x := g]
    requires forall y :: y in refs ==> 0 < refs[y] < g && refs[y] in r.reqs
    requires RefsInjective(refs)
    ensures forall y :: y in refs' ==> 0 < refs'[y] < g + 1 && refs'[y] in r.reqs
    ensures RefsInjective(refs')
  {
  }

  /** The intended collection scan, part way: at handle `g` with `refs` keyed so far, it goes on to give `target`. */
  ghost predicate CollectionScanAt(r: Registry, prev: seq<Collection>, g: nat, refs: map<RefId, Handle>, target: Scan)
  {
    && 0 < g <= r.ticker && r.colls.Keys !! r.reqs.Keys
    && (forall x :: x in refs ==> 0 < refs[x] < g && refs[x] !in r.reqs)
    && RefsInjective(refs)
    && CollectionRefsFrom(r, prev, g, refs) == target
  }

  lemma CollectionScanDone(r: Registry, prev: seq<Collection>, g: nat, refs: map<RefId, Handle>, target: Scan)
    requires CollectionScanAt(r, prev, g, refs, target) && g >= r.ticker
    ensures target == Scan(r, refs, Scanned)
  {
  }

  lemma CollectionScanSkip(r: Registry, prev: seq<Collection>, g: nat, refs: map<RefId, Handle>, target: Scan)
    requires CollectionScanAt(r, prev, g, refs, target) && g < r.ticker && g !in r.colls
    ensures CollectionScanAt(r, prev, g + 1, refs, target)
  {
  }

  lemma CollectionScanNoCycle(r: Registry, prev: seq<Collection>, g: nat, refs: map<RefId, Handle>, target: Scan)
    requires CollectionScanAt(r, prev, g, refs, target) && g < r.ticker && g in r.colls && !target.end.ScanHangs?
    ensures !Walk(r.colls, Some(g), {}).end.Cycle?
  {
  }

  lemma CollectionScanPruned(r: Registry, prev: seq<Collection>, g: nat, refs: map<RefId, Handle>, target: Scan)
    requires CollectionScanAt(r, prev, g, refs, target) && g < r.ticker && g in r.colls
    requires Walk(r.colls, Some(g), {}).end.Missing?
    ensures CollectionScanAt(r.(colls := Pruned(r.colls, Walk(r.colls, Some(g), {}))), prev, g + 1, refs, target)
  {
  }

  lemma CollectionScanThrows(r: Registry, prev: seq<Collection>, g: nat, refs: map<RefId, Handle>, target: Scan)
    requires CollectionScanAt(r, prev, g, refs, target) && g < r.ticker && g in r.colls
    requires var c := Walk(r.colls, Some(g), {}); c.end.Root? && Navigate(prev, Reverse(c.indices)).None?
    ensures target == Scan(r, refs, ScanThrew)
  {
  }

  lemma CollectionScanKeys(r: Registry, prev: seq<Collection>, g: nat, refs: map<RefId, Handle>, target: Scan, x: RefId)
    requires CollectionScanAt(r, prev, g, refs, target) && g < r.ticker && g in r.colls
    requires var c := Walk(r.colls, Some(g), {});
      c.end.Root? && Navigate(prev, Reverse(c.indices)).Some? && x == Navigate(prev, Reverse(c.indices)).value.refId
    ensures CollectionScanAt(r, prev, g + 1, refs[x := g], target)
  {
  }

  /** The collection `prev` holds at the path handle `h` resolves to, if any. */
  ghost function NodeAt(m: map<Handle, Entry>, prev: seq<Collection>, h: Handle): Option<Collection>
  {
    match CollectionIndexPath(m, h)
    case None => None
    case Some(p) => Navigate(prev, p)
  }

  /** Every ref id is keyed to a handle whose own path leads to the collection carrying it. */
  ghost predicate KeyedToOwnNode(m: map<Handle, Entry>, prev: seq<Collection>, refs: map<RefId, Handle>)
  {
    forall x :: x in refs ==> refs[x] in m && NodeAt(m, prev, refs[x]).Some? && NodeAt(m, prev, refs[x]).value.refId == x
  }

  /** The collection found at every handle below `g` has its ref id keyed. */
  ghost predicate KeysNodesBelow(m: map<Handle, Entry>, prev: seq<Collection>, refs: map<RefId, Handle>, g: nat)
  {
    forall h :: h in m && h < g && NodeAt(m, prev, h).Some? ==> NodeAt(m, prev, h).value.refId in refs
  }

  /** Every registered collection handle resolves: no chain meets a missing ancestor or loops. */
  ghost predicate Intact(m: map<Handle, Entry>)
  {
    forall h {:trigger CollectionIndexPath(m, h)} :: h in m ==> CollectionIndexPath(m, h).Some?
  }

  /** What the intended scan from handle `g` needs, and the keying facts for the handles below `g`. */
  ghost predicate KeyingReady(r: Registry, prev: seq<Collection>, g: nat, refs: map<RefId, Handle>)
  {
    && 0 < g <= r.ticker && r.colls.Keys !! r.reqs.Keys
    && (forall x :: x in refs ==> 0 < refs[x] < g && refs[x] !in r.reqs)
    && RefsInjective(refs)
    && Intact(r.colls)
    && KeyedToOwnNode(r.colls, prev, refs) && KeysNodesBelow(r.colls, prev, refs, g)
  }

  /** A scan that ends, leaves the registry as it was, and when it finishes keys every node by its own handle. */
  ghost predicate KeysOwnNodes(r: Registry, prev: seq<Collection>, s: Scan)
  {
    && s.end != ScanHangs && s.r == r
    && (s.end.Scanned? ==> KeyedToOwnNode(r.colls, prev, s.refs) && KeysNodesBelow(r.colls, prev, s.refs, r.ticker))
  }

  /** The keyed refs after the intended scan's step at handle `g`, when that step does not throw. */
  ghost function KeyingStep(m: map<Handle, Entry>, prev: seq<Collection>, g: Handle, refs: map<RefId, Handle>): map<RefId, Handle>
  {
    if g in m && NodeAt(m, prev, g).Some? then refs[NodeAt(m, prev, g).value.refId := g] else refs
  }

  /** The intended scan throws at a handle whose path leads to no collection of `prev`. */
  lemma ScanStepThrows(r: Registry, prev: seq<Collection>, g: nat, refs: map<RefId, Handle>)
    requires KeyingReady(r, prev, g, refs) && g < r.ticker
    requires g in r.colls && NodeAt(r.colls, prev, g).None?
    ensures CollectionRefsFrom(r, prev, g, refs) == Scan(r, refs, ScanThrew)
  {
    assert CollectionIndexPath(r.colls, g).Some?;
  }

  /** Otherwise the intended scan goes on from `g + 1` with the collection at `g` keyed. */
  lemma ScanStepNext(r: Registry, prev: seq<Collection>, g: nat, refs: map<RefId, Handle>)
    requires KeyingReady(r, prev, g, refs) && g < r.ticker
    requires KeyingReady(r, prev, g + 1, KeyingStep(r.colls, prev, g, refs))
    requires !(g in r.colls && NodeAt(r.colls, prev, g).None?)
    ensures CollectionRefsFrom(r, prev, g, refs) == CollectionRefsFrom(r, prev, g + 1, KeyingStep(r.colls, prev, g, refs))
  {
    if g in r.colls {
      assert CollectionIndexPath(r.colls, g).Some?;
    }
  }

  /** Keying handle `g`, above every keyed handle, keeps the ref map injective and its handles bounded. */
  lemma RefsStep(r: Registry, g: nat, refs: map<RefId, Handle>, x: RefId, refs': map<RefId, Handle>)
    requires 0 < g && g !in r.reqs && refs' == refs[x := g]
    requires forall y :: y in refs ==> 0 < refs[y] < g && refs[y] !in r.reqs
    requires RefsInjective(refs)
    ensures forall y :: y in refs' ==> 0 < refs'[y] < g + 1 && refs'[y] !in r.reqs
    ensures RefsInjective(refs')
  {
  }

  /** One step of the intended scan keeps the keying facts. */
  lemma KeyOwnStep(m: map<Handle, Entry>, prev: seq<Collection>, g: Handle, refs: map<RefId, Handle>)
    requires g in m && NodeAt(m, prev, g).Some?
    requires forall x :: x in refs ==> refs[x] < g
    requires KeyedToOwnNode(m, prev, refs) && KeysNodesBelow(m, prev, refs, g)
    ensures var refs' := refs[NodeAt(m, prev, g).value.refId := g];
      KeyedToOwnNode(m, prev, refs') && KeysNodesBelow(m, prev, refs', g + 1)
  {
  }

  /** Keying the collection at handle `g` by `g` keeps every keying fact, now up to `g + 1`. */
  lemma KeyingStepReady(r: Registry, prev: seq<Collection>, g: nat, refs: map<RefId, Handle>)
    requires KeyingReady(r, prev, g, refs) && g < r.ticker
    requires !(g in r.colls && NodeAt(r.colls, prev, g).None?)
    ensures KeyingReady(r, prev, g + 1, KeyingStep(r.colls, prev, g, refs))
  {
    if g in r.colls {
      var x := NodeAt(r.colls, prev, g).value.refId;
      var refs' := refs[x := g];
      assert KeyingStep(r.colls, prev, g, refs) == refs';
      RefsStep(r, g, refs, x, refs');
      KeyOwnStep(r.colls, prev, g, refs);
      assert KeyedToOwnNode(r.colls, prev, refs') && KeysNodesBelow(r.colls, prev, refs', g + 1);
    } else {
      assert KeyingStep(r.colls, prev, g, refs) == refs;
      forall h | h in r.colls && h < g + 1 && NodeAt(r.colls, prev, h).Some?
        ensures NodeAt(r.colls, prev, h).value.refId in refs
      {
        assert h < g;
      }
    }
  }

  /**
   * With every handle's chain intact, the intended scan finishes without changing the
   * registry, keys each ref id to a handle whose own path leads to the collection carrying
   * it, and keys the collection found at every handle's path.
   */
  lemma {:induction false} CollectionRefsKeyOwnNode(r: Registry, prev: seq<Collection>, g: nat, refs: map<RefId, Handle>)
    requires KeyingReady(r, prev, g, refs)
    ensures KeysOwnNodes(r, prev, CollectionRefsFrom(r, prev, g, refs))
    decreases r.ticker - g
  {
    if g == r.ticker {
      assert CollectionRefsFrom(r, prev, g, refs) == Scan(r, refs, Scanned);
    } else {
      if g in r.colls && NodeAt(r.colls, prev, g).None? {
        ScanStepThrows(r, prev, g, refs);
      } else {
        KeyingStepReady(r, prev, g, refs);
        ScanStepNext(r, prev, g, refs);
        CollectionRefsKeyOwnNode(r, prev, g + 1, KeyingStep(r.colls, prev, g, refs));
      }
    }
  }

  /** The request `prev` holds at the path request handle `h` resolves to, if any. */
  ghost function RequestNodeAt(r: Registry, prev: seq<Collection>, h: Handle): Option<Request>
  {
    match RequestIndexPath(r, h)
    case None => None
    case Some(p) => RequestAt(prev, p[..|p| - 1], p[|p| - 1])
  }

  /** Every ref id is keyed to a request handle whose own path leads to the request carrying it. */
  ghost predicate RequestKeyedToOwnNode(r: Registry, prev: seq<Collection>, refs: map<RefId, Handle>)
  {
    forall x :: x in refs ==>
      refs[x] in r.reqs && RequestNodeAt(r, prev, refs[x]).Some? && RequestNodeAt(r, prev, refs[x]).value.refId == x
  }

  /** The request found at every request handle below `g` has its ref id keyed. */
  ghost predicate RequestKeysNodesBelow(r: Registry, prev: seq<Collection>, refs: map<RefId, Handle>, g: nat)
  {
    forall h :: h in r.reqs && h < g && RequestNodeAt(r, prev, h).Some? ==> RequestNodeAt(r, prev, h).value.refId in refs
  }

  /** Every registered request handle resolves: no parent chain meets a missing ancestor or loops. */
  ghost predicate RequestsIntact(r: Registry)
  {
    forall h {:trigger RequestIndexPath(r, h)} :: h in r.reqs ==> RequestIndexPath(r, h).Some?
  }

  /** What the request scan from handle `g` needs, and the keying facts for the handles below `g`. */
  ghost predicate RequestKeyingReady(r: Registry, prev: seq<Collection>, g: nat, refs: map<RefId, Handle>)
  {
    && 0 < g <= r.ticker
    && (forall x :: x in refs ==> 0 < refs[x] < g && refs[x] in r.reqs)
    && RefsInjective(refs)
    && RequestsIntact(r)
    && RequestKeyedToOwnNode(r, prev, refs) && RequestKeysNodesBelow(r, prev, refs, g)
  }

  /** A request scan that ends, leaves the registry as it was, and when it finishes keys every request by its own handle. */
  ghost predicate RequestKeysOwnNodes(r: Registry, prev: seq<Collection>, s: Scan)
  {
    && s.end != ScanHangs && s.r == r
    && (s.end.Scanned? ==> RequestKeyedToOwnNode(r, prev, s.refs) && RequestKeysNodesBelow(r, prev, s.refs, r.ticker))
  }

  /** The scan's lookup at a request handle whose chain resolves is the request at that handle's path. */
  lemma RequestNodeAtScan(r: Registry, prev: seq<Collection>, h: Handle)
    requires h in r.reqs && RequestIndexPath(r, h).Some?
    ensures var c := Walk(r.colls, r.reqs[h].parent, {});
      c.end.Root? && RequestNodeAt(r, prev, h) == RequestAt(prev, Reverse(c.indices), r.reqs[h].index)
  {
    var c := Walk(r.colls, r.reqs[h].parent, {});
    var p := Reverse([r.reqs[h].index] + c.indices);
    ReverseCons(r.reqs[h].index, c.indices);
    assert p[..|p| - 1] == Reverse(c.indices);
  }

  /** The keyed refs after the request scan's step at handle `g`, when that step does not throw. */
  ghost function RequestKeying(r: Registry, prev: seq<Collection>, g: Handle, refs: map<RefId, Handle>): map<RefId, Handle>
  {
    if g in r.reqs && RequestNodeAt(r, prev, g).Some? then refs[RequestNodeAt(r, prev, g).value.refId := g] else refs
  }

  /** The request scan throws at a handle whose path leads to no request of `prev`. */
  lemma RequestStepThrows(r: Registry, prev: seq<Collection>, g: nat, refs: map<RefId, Handle>)
    requires RequestKeyingReady(r, prev, g, refs) && g < r.ticker
    requires g in r.reqs && RequestNodeAt(r, prev, g).None?
    ensures RequestRefsFrom(r, prev, g, refs) == Scan(r, refs, ScanThrew)
  {
    assert RequestIndexPath(r, g).Some?;
    RequestNodeAtScan(r, prev, g);
  }

  /** Otherwise the request scan goes on from `g + 1` with the request at `g` keyed. */
  lemma RequestStepNext(r: Registry, prev: seq<Collection>, g: nat, refs: map<RefId, Handle>)
    requires RequestKeyingReady(r, prev, g, refs) && g < r.ticker
    requires !(g in r.reqs && RequestNodeAt(r, prev, g).None?)
    ensures RequestRefsFrom(r, prev, g, refs) == RequestRefsFrom(r, prev, g + 1, RequestKeying(r, prev, g, refs))
  {
    if g in r.reqs {
      assert RequestIndexPath(r, g).Some?;
      RequestNodeAtScan(r, prev, g);
    }
  }

  /** One keying step keeps the facts about which request each ref id is keyed to. */
  lemma RequestKeyOwnStep(r: Registry, prev: seq<Collection>, g: Handle, refs: map<RefId, Handle>)
    requires g in r.reqs && RequestNodeAt(r, prev, g).Some?
    requires forall x :: x in refs ==> refs[x] < g
    requires RequestKeyedToOwnNode(r, prev, refs) && RequestKeysNodesBelow(r, prev, refs, g)
    ensures var refs' := refs[RequestNodeAt(r, prev, g).value.refId := g];
      RequestKeyedToOwnNode(r, prev, refs') && RequestKeysNodesBelow(r, prev, refs', g + 1)
  {
  }

  /** Keying the request at handle `g` by `g` keeps every keying fact, now up to `g + 1`. */
  lemma RequestKeyingStepReady(r: Registry, prev: seq<Collection>, g: nat, refs: map<RefId, Handle>)
    requires RequestKeyingReady(r, prev, g, refs) && g < r.ticker
    requires !(g in r.reqs && RequestNodeAt(r, prev, g).None?)
    ensures RequestKeyingReady(r, prev, g + 1, RequestKeying(r, prev, g, refs))
  {
    if g in r.reqs {
      var x := RequestNodeAt(r, prev, g).value.refId;
      var refs' := refs[x := g];
      assert RequestKeying(r, prev, g, refs) == refs';
      RequestRefsStep(r, g, refs, x, refs');
      RequestKeyOwnStep(r, prev, g, refs);
    } else {
      assert RequestKeying(r, prev, g, refs) == refs;
      forall h | h in r.reqs && h < g + 1 && RequestNodeAt(r, prev, h).Some?
        ensures RequestNodeAt(r, prev, h).value.refId in refs
      {
        assert h < g;
      }
    }
  }

  /**
   * With every request's parent chain intact, the request scan finishes without changing the
   * registry, keys each ref id to a request handle whose own path leads to the request carrying
   * it, and keys the request found at every request handle's path.
   */
  lemma {:induction false} RequestRefsKeyOwnNode(r: Registry, prev: seq<Collection>, g: nat, refs: map<RefId, Handle>)
    requires RequestKeyingReady(r, prev, g, refs)
    ensures RequestKeysOwnNodes(r, prev, RequestRefsFrom(r, prev, g, refs))
    decreases r.ticker - g
  {
    if g == r.ticker {
      assert RequestRefsFrom(r, prev, g, refs) == Scan(r, refs, Scanned);
    } else {
      if g in r.reqs && RequestNodeAt(r, prev, g).None? {
        RequestStepThrows(r, prev, g, refs);
      } else {
        RequestKeyingStepReady(r, prev, g, refs);
        RequestStepNext(r, prev, g, refs);
        RequestRefsKeyOwnNode(r, prev, g + 1, RequestKeying(r, prev, g, refs));
      }
    }
  }

  /** `folderPath.slice(0, -1).join("/")` read back as a path, for a recorded path `p`. */
  function ParentPath(p: seq<int>): seq<int>
    requires |p| > 0
  {
    Reparse(p[..|p| - 1])
  }

  /** Every recorded path has at least one index. */
  ghost predicate NonEmptyPaths(pl: PathList)
  {
    forall k :: 0 <= k < |pl| ==> |pl[k].1| > 0
  }

  /** The registry an update pass leaves, and whether it stopped on a throw (keeping the updates made before it). */
  datatype Pass = Pass(r: Registry, threw: bool)

  /**
   * The request pass of `handleSetCollections` as written, from entry `i` on. It runs BEFORE
   * the collection pass, so a request's new parent is resolved by position in the collection
   * map as it was before the replacement.
   */
  function RequestPassAsWritten(r: Registry, news: PathList, oldReq: map<RefId, Handle>, i: nat): (p: Pass)
    requires NonEmptyPaths(news)
    ensures p.r.colls == r.colls && r.ticker <= p.r.ticker && r.reqs.Keys <= p.r.reqs.Keys
    ensures forall h :: h in p.r.reqs && h !in r.reqs ==> r.ticker <= h < p.r.ticker
    decreases |news| - i
  {
    if i >= |news| then Pass(r, false)
    else
      var (x, p) := news[i];
      var e := Entry(ResolveFolderPath(r.colls, ParentPath(p), r.ticker), p[|p| - 1]);
      if x !in oldReq then RequestPassAsWritten(Create(r, Requests, e).1, news, oldReq, i + 1)
      else if oldReq[x] !in r.reqs then Pass(r, true)
      else RequestPassAsWritten(r.(reqs := r.reqs[oldReq[x] := e]), news, oldReq, i + 1)
  }

  /**
   * The collection pass of `handleSetCollections` as written, from entry `i` on. A known
   * collection's new parent is resolved by position in the half-updated map, and for a root
   * collection the empty prefix reads back as `[0]`.
   */
  function CollectionPassAsWritten(r: Registry, news: PathList, oldColl: map<RefId, Handle>, i: nat): (p: Pass)
    requires NonEmptyPaths(news)
    ensures p.r.reqs == r.reqs && r.ticker <= p.r.ticker && r.colls.Keys <= p.r.colls.Keys
    ensures forall h :: h in p.r.colls && h !in r.colls ==> r.ticker <= h < p.r.ticker
    decreases |news| - i
  {
    if i >= |news| then Pass(r, false)
    else
      var (x, p) := news[i];
      var index := p[|p| - 1];
      if x !in oldColl then
        var parent := if |p| > 1 then ResolveFolderPath(r.colls, p[..|p| - 1], r.ticker) else None;
        CollectionPassAsWritten(Create(r, Collections, Entry(parent, index)).1, news, oldColl, i + 1)
      else if oldColl[x] !in r.colls then Pass(r, true)
      else
        var e := Entry(ResolveFolderPath(r.colls, ParentPath(p), r.ticker), index);
        CollectionPassAsWritten(r.(colls := r.colls[oldColl[x] := e]), news, oldColl, i + 1)
  }

  /** The ref ids a path list records. */
  function Recorded(pl: PathList): set<RefId>
  {
    set k | 0 <= k < |pl| :: pl[k].0
  }

  /** Step 3: `delete` the handle of every old ref id that `present` does not record. */
  function WithoutAbsent(m: map<Handle, Entry>, known: map<RefId, Handle>, present: set<RefId>): (m': map<Handle, Entry>)
    ensures forall x :: x in known && x !in present ==> known[x] !in m'
    ensures forall h :: h in m' <==> h in m && forall x :: x in known && x !in present ==> known[x] != h
    ensures forall h :: h in m' ==> m'[h] == m[h]
  {
    m - (set x | x in known && x !in present :: known[x])
  }

  /** The outcome of a whole `setCollections` reconciliation. */
  datatype Reconciliation =
    | Reconciled(r: Registry, collHandles: map<RefId, Handle>, reqHandles: map<RefId, Handle>)
    | ReconcileThrew(at: Registry)
    | ReconcileHangs

  /** `handleSetCollections(prevState)` as written, for the store's new collections `state`. */
  function SetCollectionsAsWritten(r: Registry, prev: seq<Collection>, state: seq<Collection>): (res: Reconciliation)
    requires Valid(r)
    ensures res.Reconciled? ==> r.ticker <= res.r.ticker
    ensures res.Reconciled? ==> forall x :: x in res.collHandles && x !in Recorded(CollectionPaths(state)) ==> res.collHandles[x] !in res.r.colls
    ensures res.Reconciled? ==> forall x :: x in res.reqHandles && x !in Recorded(RequestPaths(state)) ==> res.reqHandles[x] !in res.r.reqs
  {
    var s1 := RequestRefsFrom(r, prev, 1, map[]);
    if s1.end.ScanHangs? then ReconcileHangs
    else if s1.end.ScanThrew? then ReconcileThrew(s1.r)
    else
      var s2 := CollectionRefsAsWrittenFrom(s1.r, prev, 1, map[]);
      if s2.end.ScanHangs? then ReconcileHangs
      else if s2.end.ScanThrew? then ReconcileThrew(s2.r)
      else
        var newReqs := RequestPaths(state);
        var newColls := CollectionPaths(state);
        RequestPathsAreSound(state);
        CollectionPathsAreSound(state);
        var p3 := RequestPassAsWritten(s2.r, newReqs, s1.refs, 0);
        if p3.threw then ReconcileThrew(p3.r)
        else
          var p4 := CollectionPassAsWritten(p3.r, newColls, s2.refs, 0);
          if p4.threw then ReconcileThrew(p4.r)
          else
            var reqs := WithoutAbsent(p4.r.reqs, s1.refs, Recorded(newReqs));
            var colls := WithoutAbsent(p4.r.colls, s2.refs, Recorded(newColls));
            Reconciled(Registry(p4.r.ticker, colls, reqs), s2.refs, s1.refs)
  }
}
