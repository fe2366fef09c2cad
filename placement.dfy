/**
 * The reconciliation `handleSetCollections` evidently intends: walk the new tree from the
 * roots down, give every node the handle its ref id had before (or a fresh one), register
 * it under the handle just given to its parent, and drop the handles of ref ids that left
 * the tree. This module defines that placement and proves that afterwards every handle
 * resolves to its node's new index path.
 */
module Placement {
  import opened Wrappers
  import opened CollectionTree
  import opened HandleRegistry
  import opened SetCollections

  /** The registry as placement goes on, and the handle given so far to each collection and request ref id. */
  datatype Placed = Placed(r: Registry, colls: map<RefId, Handle>, reqs: map<RefId, Handle>)

  /** The handle a node gets: the one `known` has for its ref id, or the next one minted. */
  function ClaimedHandle(r: Registry, known: map<RefId, Handle>, x: RefId): Handle
  {
    if x in known then known[x] else r.ticker
  }

  /** One collection: its known handle is re-registered at `e`, or `createAssociatedRESTCollectionHandle` mints one. */
  function WithCollection(p: Placed, known: map<RefId, Handle>, x: RefId, e: Entry): Placed
  {
    if x in known then Placed(p.r.(colls := p.r.colls[known[x] := e]), p.colls[x := known[x]], p.reqs)
    else var (h, r1) := Create(p.r, Collections, e); Placed(r1, p.colls[x := h], p.reqs)
  }

  /** One request: its known handle is re-registered at `e`, or `createAssociatedRESTRequestHandle` mints one. */
  function WithRequest(p: Placed, known: map<RefId, Handle>, x: RefId, e: Entry): Placed
  {
    if x in known then Placed(p.r.(reqs := p.r.reqs[known[x] := e]), p.colls, p.reqs[x := known[x]])
    else var (h, r1) := Create(p.r, Requests, e); Placed(r1, p.colls, p.reqs[x := h])
  }

  /** The requests `rs` of the collection with handle `parent`, at indices `offset`, `offset + 1`, ... */
  function PlaceRequests(p: Placed, known: map<RefId, Handle>, rs: seq<Request>, parent: Handle, offset: int): Placed
    decreases |rs|
  {
    if rs == [] then p
    else PlaceRequests(WithRequest(p, known, rs[0].refId, Entry(Some(parent), offset)), known, rs[1..], parent, offset + 1)
  }

  /**
   * The collections `cs` under `parent` at indices `offset`, `offset + 1`, ...: each one, then
   * its requests, then its folders under the handle it was just given.
   */
  function PlaceForest(p: Placed, oldColl: map<RefId, Handle>, oldReq: map<RefId, Handle>,
                       cs: seq<Collection>, parent: Option<Handle>, offset: int): Placed
    decreases ForestSize(cs)
  {
    if cs == [] then p
    else
      var p1 := PlaceNode(p, oldColl, oldReq, cs[0], parent, offset);
      var p2 := PlaceForest(p1, oldColl, oldReq, cs[0].folders, Some(ClaimedHandle(p.r, oldColl, cs[0].refId)), 0);
      PlaceForest(p2, oldColl, oldReq, cs[1..], parent, offset + 1)
  }

  /** Collection `c` under `parent` at `offset`, then its requests under the handle it gets. */
  function PlaceNode(p: Placed, oldColl: map<RefId, Handle>, oldReq: map<RefId, Handle>,
                     c: Collection, parent: Option<Handle>, offset: int): Placed
  {
    var h := ClaimedHandle(p.r, oldColl, c.refId);
    PlaceRequests(WithCollection(p, oldColl, c.refId, Entry(parent, offset)), oldReq, c.requests, h, 0)
  }

  /** The ref ids of `rs`, in order. */
  function RequestRefs(rs: seq<Request>): (s: seq<RefId>)
    ensures |s| == |rs| && forall j :: 0 <= j < |rs| ==> s[j] == rs[j].refId
  {
    if rs == [] then [] else [rs[0].refId] + RequestRefs(rs[1..])
  }

  /** The ref ids of every collection in the forest `cs`, each node before its folders. */
  function ForestRefs(cs: seq<Collection>): seq<RefId>
    decreases ForestSize(cs)
  {
    if cs == [] then [] else [cs[0].refId] + ForestRefs(cs[0].folders) + ForestRefs(cs[1..])
  }

  /** The ref ids of every request in the forest `cs`. */
  function ForestRequestRefs(cs: seq<Collection>): seq<RefId>
    decreases ForestSize(cs)
  {
    if cs == [] then [] else RequestRefs(cs[0].requests) + ForestRequestRefs(cs[0].folders) + ForestRequestRefs(cs[1..])
  }

  ghost predicate NoDup(s: seq<RefId>)
  {
    forall i, j :: 0 <= i < j < |s| ==> s[i] != s[j]
  }

  lemma NoDupAppend(a: seq<RefId>, b: seq<RefId>)
    requires NoDup(a + b)
    ensures NoDup(a) && NoDup(b) && (forall x :: x in a ==> x !in b)
  {
    forall i, j | 0 <= i < j < |a| ensures a[i] != a[j] {
      assert a[i] == (a + b)[i] && a[j] == (a + b)[j];
    }
    forall i, j | 0 <= i < j < |b| ensures b[i] != b[j] {
      assert b[i] == (a + b)[|a| + i] && b[j] == (a + b)[|a| + j];
    }
    forall i, j | 0 <= i < |a| && 0 <= j < |b| ensures a[i] != b[j] {
      assert a[i] == (a + b)[i] && b[j] == (a + b)[|a| + j];
    }
  }

  /** The store gives every collection and every request of `state` its own ref id. */
  ghost predicate DistinctRefs(state: seq<Collection>)
  {
    NoDup(ForestRefs(state)) && NoDup(ForestRequestRefs(state))
  }

  /**
   * What placement assumes of the handles known from before: all minted before `t0`, one
   * ref id per handle, and no number known both as a collection and as a request.
   */
  ghost predicate Ready(oldColl: map<RefId, Handle>, oldReq: map<RefId, Handle>, t0: nat)
  {
    && (forall x :: x in oldColl ==> 0 < oldColl[x] < t0)
    && (forall x :: x in oldReq ==> 0 < oldReq[x] < t0)
    && RefsInjective(oldColl) && RefsInjective(oldReq)
    && (forall x, y :: x in oldColl && y in oldReq ==> oldColl[x] != oldReq[y])
  }

  /**
   * Placement so far keeps the registry valid, gives a known ref id its known handle and a
   * new one a handle minted since `t0`, and no known handle is registered as the other kind.
   */
  ghost predicate Progress(p: Placed, oldColl: map<RefId, Handle>, oldReq: map<RefId, Handle>, t0: nat)
  {
    && Valid(p.r) && t0 <= p.r.ticker
    && (forall x :: x in oldColl ==> oldColl[x] !in p.r.reqs)
    && (forall x :: x in oldReq ==> oldReq[x] !in p.r.colls)
    && (forall x :: x in p.colls ==> if x in oldColl then p.colls[x] == oldColl[x] else t0 <= p.colls[x] < p.r.ticker)
    && (forall x :: x in p.reqs ==> if x in oldReq then p.reqs[x] == oldReq[x] else t0 <= p.reqs[x] < p.r.ticker)
  }

  /** `p'` keeps every handle `p` gave out, and the entry registered for it. */
  ghost predicate Agrees(p: Placed, p': Placed)
  {
    && (forall x :: x in p.colls ==> x in p'.colls && p'.colls[x] == p.colls[x])
    && (forall x :: x in p.colls && p.colls[x] in p.r.colls ==>
          p.colls[x] in p'.r.colls && p'.r.colls[p.colls[x]] == p.r.colls[p.colls[x]])
    && (forall x :: x in p.reqs ==> x in p'.reqs && p'.reqs[x] == p.reqs[x])
    && (forall x :: x in p.reqs && p.reqs[x] in p.r.reqs ==>
          p.reqs[x] in p'.r.reqs && p'.r.reqs[p.reqs[x]] == p.r.reqs[p.reqs[x]])
  }

  lemma AgreesTrans(p: Placed, q: Placed, s: Placed)
    requires Agrees(p, q) && Agrees(q, s)
    ensures Agrees(p, s)
  {
  }

  /** Giving a collection ref id with no handle yet its handle keeps the invariant. */
  lemma StepCollectionProgress(p: Placed, oldColl: map<RefId, Handle>, oldReq: map<RefId, Handle>, t0: nat, x: RefId, e: Entry)
    requires Ready(oldColl, oldReq, t0) && Progress(p, oldColl, oldReq, t0) && x !in p.colls
    ensures Progress(WithCollection(p, oldColl, x, e), oldColl, oldReq, t0)
  {
    if x in oldColl {
      forall y | y in p.colls ensures p.colls[y] != oldColl[x] {
        if y in oldColl {
          assert oldColl[y] != oldColl[x];
        }
      }
    } else {
      CreateFresh(p.r, Collections, e);
    }
  }

  /** That handle is one no other ref id holds, so every handle given out before keeps its entry. */
  lemma StepCollectionAgrees(p: Placed, oldColl: map<RefId, Handle>, oldReq: map<RefId, Handle>, t0: nat, x: RefId, e: Entry)
    requires Ready(oldColl, oldReq, t0) && Progress(p, oldColl, oldReq, t0) && x !in p.colls
    ensures var p' := WithCollection(p, oldColl, x, e);
      && Agrees(p, p') && p'.reqs == p.reqs && p'.r.reqs == p.r.reqs
      && x in p'.colls && p'.colls[x] == ClaimedHandle(p.r, oldColl, x)
      && p'.colls[x] in p'.r.colls && p'.r.colls[p'.colls[x]] == e
      && (forall y :: y in p'.colls <==> y in p.colls || y == x)
  {
    forall y | y in p.colls ensures p.colls[y] != ClaimedHandle(p.r, oldColl, x) {
      if x in oldColl && y in oldColl {
        assert oldColl[y] != oldColl[x];
      }
    }
  }

  /** A collection ref id with no handle yet gets one no other ref id holds, registered at `e`. */
  lemma StepCollection(p: Placed, oldColl: map<RefId, Handle>, oldReq: map<RefId, Handle>, t0: nat, x: RefId, e: Entry)
    requires Ready(oldColl, oldReq, t0) && Progress(p, oldColl, oldReq, t0) && x !in p.colls
    ensures var p' := WithCollection(p, oldColl, x, e);
      && Progress(p', oldColl, oldReq, t0) && Agrees(p, p')
      && p'.reqs == p.reqs && p'.r.reqs == p.r.reqs
      && x in p'.colls && p'.colls[x] == ClaimedHandle(p.r, oldColl, x)
      && p'.colls[x] in p'.r.colls && p'.r.colls[p'.colls[x]] == e
      && (forall y :: y in p'.colls <==> y in p.colls || y == x)
  {
    StepCollectionProgress(p, oldColl, oldReq, t0, x, e);
    StepCollectionAgrees(p, oldColl, oldReq, t0, x, e);
  }

  /** Giving a request ref id with no handle yet its handle keeps the invariant. */
  lemma StepRequestProgress(p: Placed, oldColl: map<RefId, Handle>, oldReq: map<RefId, Handle>, t0: nat, x: RefId, e: Entry)
    requires Ready(oldColl, oldReq, t0) && Progress(p, oldColl, oldReq, t0) && x !in p.reqs
    ensures Progress(WithRequest(p, oldReq, x, e), oldColl, oldReq, t0)
  {
    if x in oldReq {
      forall y | y in p.reqs ensures p.reqs[y] != oldReq[x] {
        if y in oldReq {
          assert oldReq[y] != oldReq[x];
        }
      }
    } else {
      CreateFresh(p.r, Requests, e);
    }
  }

  /** That handle is one no other ref id holds, so every handle given out before keeps its entry. */
  lemma StepRequestAgrees(p: Placed, oldColl: map<RefId, Handle>, oldReq: map<RefId, Handle>, t0: nat, x: RefId, e: Entry)
    requires Ready(oldColl, oldReq, t0) && Progress(p, oldColl, oldReq, t0) && x !in p.reqs
    ensures var p' := WithRequest(p, oldReq, x, e);
      && Agrees(p, p') && p'.colls == p.colls && p'.r.colls == p.r.colls
      && x in p'.reqs && p'.reqs[x] == ClaimedHandle(p.r, oldReq, x)
      && p'.reqs[x] in p'.r.reqs && p'.r.reqs[p'.reqs[x]] == e
      && (forall y :: y in p'.reqs <==> y in p.reqs || y == x)
  {
    forall y | y in p.reqs ensures p.reqs[y] != ClaimedHandle(p.r, oldReq, x) {
      if x in oldReq && y in oldReq {
        assert oldReq[y] != oldReq[x];
      }
    }
  }

  /** A request ref id with no handle yet gets one no other ref id holds, registered at `e`. */
  lemma StepRequest(p: Placed, oldColl: map<RefId, Handle>, oldReq: map<RefId, Handle>, t0: nat, x: RefId, e: Entry)
    requires Ready(oldColl, oldReq, t0) && Progress(p, oldColl, oldReq, t0) && x !in p.reqs
    ensures var p' := WithRequest(p, oldReq, x, e);
      && Progress(p', oldColl, oldReq, t0) && Agrees(p, p')
      && p'.colls == p.colls && p'.r.colls == p.r.colls
      && x in p'.reqs && p'.reqs[x] == ClaimedHandle(p.r, oldReq, x)
      && p'.reqs[x] in p'.r.reqs && p'.r.reqs[p'.reqs[x]] == e
      && (forall y :: y in p'.reqs <==> y in p.reqs || y == x)
  {
    StepRequestProgress(p, oldColl, oldReq, t0, x, e);
    StepRequestAgrees(p, oldColl, oldReq, t0, x, e);
  }

  /** Collection `c`'s ref id holds a handle registered at `e`. */
  ghost predicate CollPlaced(p: Placed, c: Collection, e: Entry)
  {
    c.refId in p.colls && p.colls[c.refId] in p.r.colls && p.r.colls[p.colls[c.refId]] == e
  }

  /** Request `q`'s ref id holds a handle registered at `e`. */
  ghost predicate ReqPlaced(p: Placed, q: Request, e: Entry)
  {
    q.refId in p.reqs && p.reqs[q.refId] in p.r.reqs && p.r.reqs[p.reqs[q.refId]] == e
  }

  /** Every folder and request of `c` is registered under `c`'s handle at its own index. */
  ghost predicate NodePlaced(p: Placed, c: Collection)
  {
    && c.refId in p.colls
    && (forall i :: 0 <= i < |c.folders| ==> CollPlaced(p, c.folders[i], Entry(Some(p.colls[c.refId]), i)))
    && (forall j :: 0 <= j < |c.requests| ==> ReqPlaced(p, c.requests[j], Entry(Some(p.colls[c.refId]), j)))
  }

  /** `NodePlaced` for `c` and every collection below it. */
  ghost predicate SubtreePlaced(p: Placed, c: Collection)
  {
    forall rest :: Descend(c, rest).Some? ==> NodePlaced(p, Descend(c, rest).value)
  }

  /** The collections `cs` are registered under `parent` at `offset`, `offset + 1`, ..., and so is everything below them. */
  ghost predicate ForestPlaced(p: Placed, cs: seq<Collection>, parent: Option<Handle>, offset: int)
  {
    forall j :: 0 <= j < |cs| ==> CollPlaced(p, cs[j], Entry(parent, offset + j)) && SubtreePlaced(p, cs[j])
  }

  lemma NodePlacedFrame(p: Placed, p': Placed, c: Collection)
    requires NodePlaced(p, c) && Agrees(p, p')
    ensures NodePlaced(p', c)
  {
  }

  lemma ForestPlacedFrame(p: Placed, p': Placed, cs: seq<Collection>, parent: Option<Handle>, offset: int)
    requires ForestPlaced(p, cs, parent, offset) && Agrees(p, p')
    ensures ForestPlaced(p', cs, parent, offset)
  {
    forall j, rest | 0 <= j < |cs| && Descend(cs[j], rest).Some? ensures NodePlaced(p', Descend(cs[j], rest).value) {
      NodePlacedFrame(p, p', Descend(cs[j], rest).value);
    }
  }

  /** What placing the requests `rs` needs: the invariant, and ref ids that are distinct and have no handle yet. */
  ghost predicate RequestsReady(p: Placed, oldColl: map<RefId, Handle>, oldReq: map<RefId, Handle>, t0: nat, rs: seq<Request>)
  {
    && Ready(oldColl, oldReq, t0) && Progress(p, oldColl, oldReq, t0)
    && NoDup(RequestRefs(rs)) && (forall x :: x in RequestRefs(rs) ==> x !in p.reqs)
  }

  /** After the first request is placed, the rest are ready to be. */
  lemma RequestsReadyStep(p: Placed, oldColl: map<RefId, Handle>, oldReq: map<RefId, Handle>, t0: nat,
                          rs: seq<Request>, parent: Handle, offset: int)
    requires RequestsReady(p, oldColl, oldReq, t0, rs) && rs != []
    ensures var p' := WithRequest(p, oldReq, rs[0].refId, Entry(Some(parent), offset));
      && RequestsReady(p', oldColl, oldReq, t0, rs[1..]) && Agrees(p, p')
      && p'.colls == p.colls && p'.r.colls == p.r.colls
      && ReqPlaced(p', rs[0], Entry(Some(parent), offset))
      && (forall y :: y in p'.reqs <==> y in p.reqs || y == rs[0].refId)
  {
    StepRequest(p, oldColl, oldReq, t0, rs[0].refId, Entry(Some(parent), offset));
    assert RequestRefs(rs) == [rs[0].refId] + RequestRefs(rs[1..]);
    NoDupAppend([rs[0].refId], RequestRefs(rs[1..]));
  }

  /** Placing requests keeps the invariant, touches no handle given out before, and gives one to each of their ref ids. */
  lemma {:induction false} PlaceRequestsKeeps(p: Placed, oldColl: map<RefId, Handle>, oldReq: map<RefId, Handle>, t0: nat,
                                              rs: seq<Request>, parent: Handle, offset: int)
    requires RequestsReady(p, oldColl, oldReq, t0, rs)
    ensures var p' := PlaceRequests(p, oldReq, rs, parent, offset);
      && Progress(p', oldColl, oldReq, t0) && Agrees(p, p')
      && p'.colls == p.colls && p'.r.colls == p.r.colls
      && (forall x :: x in p'.reqs <==> x in p.reqs || x in RequestRefs(rs))
    decreases |rs|
  {
    if rs != [] {
      var p1 := WithRequest(p, oldReq, rs[0].refId, Entry(Some(parent), offset));
      RequestsReadyStep(p, oldColl, oldReq, t0, rs, parent, offset);
      PlaceRequestsKeeps(p1, oldColl, oldReq, t0, rs[1..], parent, offset + 1);
      AgreesTrans(p, p1, PlaceRequests(p1, oldReq, rs[1..], parent, offset + 1));
      assert RequestRefs(rs) == [rs[0].refId] + RequestRefs(rs[1..]);
    }
  }

  /** Placing requests registers each under `parent` at its own index. */
  lemma {:induction false} PlaceRequestsPlaces(p: Placed, oldColl: map<RefId, Handle>, oldReq: map<RefId, Handle>, t0: nat,
                                               rs: seq<Request>, parent: Handle, offset: int)
    requires RequestsReady(p, oldColl, oldReq, t0, rs)
    ensures var p' := PlaceRequests(p, oldReq, rs, parent, offset);
      forall j :: 0 <= j < |rs| ==> ReqPlaced(p', rs[j], Entry(Some(parent), offset + j))
    decreases |rs|
  {
    if rs != [] {
      var p1 := WithRequest(p, oldReq, rs[0].refId, Entry(Some(parent), offset));
      RequestsReadyStep(p, oldColl, oldReq, t0, rs, parent, offset);
      PlaceRequestsKeeps(p1, oldColl, oldReq, t0, rs[1..], parent, offset + 1);
      PlaceRequestsPlaces(p1, oldColl, oldReq, t0, rs[1..], parent, offset + 1);
      var p' := PlaceRequests(p1, oldReq, rs[1..], parent, offset + 1);
      forall j | 0 < j < |rs| ensures ReqPlaced(p', rs[j], Entry(Some(parent), offset + j)) {
        assert rs[j] == rs[1..][j - 1];
      }
    }
  }

  /** The ref ids of the first collection of `cs`, of its subtree's folders and requests, and of the rest of `cs`, are apart. */
  lemma ForestRefsSplit(cs: seq<Collection>)
    requires cs != [] && NoDup(ForestRefs(cs)) && NoDup(ForestRequestRefs(cs))
    ensures var c := cs[0];
      var F, R := ForestRefs(c.folders), ForestRefs(cs[1..]);
      var RR, FR, RestR := RequestRefs(c.requests), ForestRequestRefs(c.folders), ForestRequestRefs(cs[1..]);
      && NoDup(F) && NoDup(R) && NoDup(RR) && NoDup(FR) && NoDup(RestR)
      && c.refId !in F && c.refId !in R && (forall x :: x in F ==> x !in R)
      && (forall x :: x in RR ==> x !in FR && x !in RestR) && (forall x :: x in FR ==> x !in RestR)
      && (forall x :: x in ForestRefs(cs) <==> x == c.refId || x in F || x in R)
      && (forall x :: x in ForestRequestRefs(cs) <==> x in RR || x in FR || x in RestR)
  {
    var c := cs[0];
    var F, R := ForestRefs(c.folders), ForestRefs(cs[1..]);
    var RR, FR, RestR := RequestRefs(c.requests), ForestRequestRefs(c.folders), ForestRequestRefs(cs[1..]);
    assert ForestRefs(cs) == [c.refId] + F + R;
    assert ForestRequestRefs(cs) == RR + FR + RestR;
    NoDupAppend([c.refId] + F, R);
    NoDupAppend([c.refId], F);
    NoDupAppend(RR + FR, RestR);
    NoDupAppend(RR, FR);
  }

  /** What placing the forest `cs` needs: the invariant, and ref ids that are distinct and have no handle yet. */
  ghost predicate ForestReady(p: Placed, oldColl: map<RefId, Handle>, oldReq: map<RefId, Handle>, t0: nat, cs: seq<Collection>)
  {
    && Ready(oldColl, oldReq, t0) && Progress(p, oldColl, oldReq, t0)
    && NoDup(ForestRefs(cs)) && NoDup(ForestRequestRefs(cs))
    && (forall x :: x in ForestRefs(cs) ==> x !in p.colls) && (forall x :: x in ForestRequestRefs(cs) ==> x !in p.reqs)
  }

  /** The first collection's requests are ready to be placed once it has its handle. */
  lemma NodeRequestsReady(p: Placed, oldColl: map<RefId, Handle>, oldReq: map<RefId, Handle>, t0: nat,
                          cs: seq<Collection>, parent: Option<Handle>, offset: int)
    requires ForestReady(p, oldColl, oldReq, t0, cs) && cs != []
    ensures var p0 := WithCollection(p, oldColl, cs[0].refId, Entry(parent, offset));
      && RequestsReady(p0, oldColl, oldReq, t0, cs[0].requests) && Agrees(p, p0)
      && CollPlaced(p0, cs[0], Entry(parent, offset)) && p0.colls[cs[0].refId] == ClaimedHandle(p.r, oldColl, cs[0].refId)
      && (forall x :: x in p0.colls <==> x in p.colls || x == cs[0].refId)
      && p0.reqs == p.reqs
  {
    ForestRefsSplit(cs);
    StepCollection(p, oldColl, oldReq, t0, cs[0].refId, Entry(parent, offset));
  }

  /** Placing the first collection and its requests leaves its folders ready to be placed. */
  lemma PlaceNodeReady(p: Placed, oldColl: map<RefId, Handle>, oldReq: map<RefId, Handle>, t0: nat,
                       cs: seq<Collection>, parent: Option<Handle>, offset: int)
    requires ForestReady(p, oldColl, oldReq, t0, cs) && cs != []
    ensures var p1 := PlaceNode(p, oldColl, oldReq, cs[0], parent, offset);
      && ForestReady(p1, oldColl, oldReq, t0, cs[0].folders)
      && (forall x :: x in p1.colls <==> x in p.colls || x == cs[0].refId)
      && (forall x :: x in p1.reqs <==> x in p.reqs || x in RequestRefs(cs[0].requests))
  {
    var h := ClaimedHandle(p.r, oldColl, cs[0].refId);
    var p0 := WithCollection(p, oldColl, cs[0].refId, Entry(parent, offset));
    NodeRequestsReady(p, oldColl, oldReq, t0, cs, parent, offset);
    PlaceRequestsKeeps(p0, oldColl, oldReq, t0, cs[0].requests, h, 0);
    ForestRefsSplit(cs);
  }

  /** Placing the first collection and its requests registers it at `Entry(parent, offset)` and touches no handle given out before. */
  lemma PlaceNodeAgrees(p: Placed, oldColl: map<RefId, Handle>, oldReq: map<RefId, Handle>, t0: nat,
                        cs: seq<Collection>, parent: Option<Handle>, offset: int)
    requires ForestReady(p, oldColl, oldReq, t0, cs) && cs != []
    ensures var p1 := PlaceNode(p, oldColl, oldReq, cs[0], parent, offset);
      && Agrees(p, p1) && CollPlaced(p1, cs[0], Entry(parent, offset))
      && p1.colls[cs[0].refId] == ClaimedHandle(p.r, oldColl, cs[0].refId)
  {
    var h := ClaimedHandle(p.r, oldColl, cs[0].refId);
    var p0 := WithCollection(p, oldColl, cs[0].refId, Entry(parent, offset));
    NodeRequestsReady(p, oldColl, oldReq, t0, cs, parent, offset);
    PlaceRequestsKeeps(p0, oldColl, oldReq, t0, cs[0].requests, h, 0);
    AgreesTrans(p, p0, PlaceRequests(p0, oldReq, cs[0].requests, h, 0));
  }

  /** Placing the first collection and its requests registers each request under the collection's handle. */
  lemma PlaceNodeRequests(p: Placed, oldColl: map<RefId, Handle>, oldReq: map<RefId, Handle>, t0: nat,
                          cs: seq<Collection>, parent: Option<Handle>, offset: int)
    requires ForestReady(p, oldColl, oldReq, t0, cs) && cs != []
    ensures var p1 := PlaceNode(p, oldColl, oldReq, cs[0], parent, offset);
      var h := ClaimedHandle(p.r, oldColl, cs[0].refId);
      forall j :: 0 <= j < |cs[0].requests| ==> ReqPlaced(p1, cs[0].requests[j], Entry(Some(h), j))
  {
    var h := ClaimedHandle(p.r, oldColl, cs[0].refId);
    var p0 := WithCollection(p, oldColl, cs[0].refId, Entry(parent, offset));
    NodeRequestsReady(p, oldColl, oldReq, t0, cs, parent, offset);
    PlaceRequestsPlaces(p0, oldColl, oldReq, t0, cs[0].requests, h, 0);
  }

  /** Once the first collection's subtree is placed, the rest of the forest is ready to be. */
  lemma ForestReadyRest(p: Placed, p2: Placed, oldColl: map<RefId, Handle>, oldReq: map<RefId, Handle>, t0: nat, cs: seq<Collection>)
    requires ForestReady(p, oldColl, oldReq, t0, cs) && cs != [] && Progress(p2, oldColl, oldReq, t0)
    requires forall x :: x in p2.colls <==> x in p.colls || x == cs[0].refId || x in ForestRefs(cs[0].folders)
    requires forall x :: x in p2.reqs <==> x in p.reqs || x in RequestRefs(cs[0].requests) || x in ForestRequestRefs(cs[0].folders)
    ensures ForestReady(p2, oldColl, oldReq, t0, cs[1..])
  {
    ForestRefsSplit(cs);
  }

  /** Placing a forest keeps the invariant, touches no handle given out before, and gives one to each of its ref ids. */
  lemma {:induction false} PlaceForestKeeps(p: Placed, oldColl: map<RefId, Handle>, oldReq: map<RefId, Handle>, t0: nat,
                                            cs: seq<Collection>, parent: Option<Handle>, offset: int)
    requires ForestReady(p, oldColl, oldReq, t0, cs)
    ensures var p' := PlaceForest(p, oldColl, oldReq, cs, parent, offset);
      && Progress(p', oldColl, oldReq, t0) && Agrees(p, p')
      && (forall x :: x in p'.colls <==> x in p.colls || x in ForestRefs(cs))
      && (forall x :: x in p'.reqs <==> x in p.reqs || x in ForestRequestRefs(cs))
    decreases ForestSize(cs)
  {
    if cs != [] {
      var c := cs[0];
      var h := ClaimedHandle(p.r, oldColl, c.refId);
      PlaceNodeReady(p, oldColl, oldReq, t0, cs, parent, offset);
      PlaceNodeAgrees(p, oldColl, oldReq, t0, cs, parent, offset);
      var p1 := PlaceNode(p, oldColl, oldReq, c, parent, offset);
      PlaceForestKeeps(p1, oldColl, oldReq, t0, c.folders, Some(h), 0);
      var p2 := PlaceForest(p1, oldColl, oldReq, c.folders, Some(h), 0);
      ForestReadyRest(p, p2, oldColl, oldReq, t0, cs);
      PlaceForestKeeps(p2, oldColl, oldReq, t0, cs[1..], parent, offset + 1);
      var p3 := PlaceForest(p2, oldColl, oldReq, cs[1..], parent, offset + 1);
      AgreesTrans(p, p1, p2);
      AgreesTrans(p, p2, p3);
      ForestRefsSplit(cs);
    }
  }

  /** A collection registered with handle `h`, whose folders' subtrees and requests are registered under `h`, has its whole subtree registered. */
  lemma SubtreeAssembled(p: Placed, c: Collection, h: Handle)
    requires c.refId in p.colls && p.colls[c.refId] == h
    requires ForestPlaced(p, c.folders, Some(h), 0)
    requires forall j :: 0 <= j < |c.requests| ==> ReqPlaced(p, c.requests[j], Entry(Some(h), j))
    ensures SubtreePlaced(p, c)
  {
    forall rest | Descend(c, rest).Some? ensures NodePlaced(p, Descend(c, rest).value) {
      if |rest| > 0 {
        assert Descend(c, rest) == Descend(c.folders[rest[0]], rest[1..]);
      }
    }
  }

  /** What placing the first collection and its folders established still holds once the rest of the forest is placed. */
  lemma NodeFactsFrame(p1: Placed, p2: Placed, p3: Placed, c: Collection, h: Handle, e: Entry)
    requires Agrees(p1, p2) && Agrees(p2, p3)
    requires CollPlaced(p1, c, e) && p1.colls[c.refId] == h
    requires forall j :: 0 <= j < |c.requests| ==> ReqPlaced(p1, c.requests[j], Entry(Some(h), j))
    requires ForestPlaced(p2, c.folders, Some(h), 0)
    ensures CollPlaced(p3, c, e) && SubtreePlaced(p3, c)
  {
    AgreesTrans(p1, p2, p3);
    ForestPlacedFrame(p2, p3, c.folders, Some(h), 0);
    SubtreeAssembled(p3, c, h);
  }

  /** Placing a forest registers each of its collections at its own index under `parent`, and everything below them. */
  lemma {:induction false} PlaceForestPlaces(p: Placed, oldColl: map<RefId, Handle>, oldReq: map<RefId, Handle>, t0: nat,
                                             cs: seq<Collection>, parent: Option<Handle>, offset: int)
    requires ForestReady(p, oldColl, oldReq, t0, cs)
    ensures ForestPlaced(PlaceForest(p, oldColl, oldReq, cs, parent, offset), cs, parent, offset)
    decreases ForestSize(cs)
  {
    if cs != [] {
      var c := cs[0];
      var h := ClaimedHandle(p.r, oldColl, c.refId);
      PlaceNodeReady(p, oldColl, oldReq, t0, cs, parent, offset);
      PlaceNodeAgrees(p, oldColl, oldReq, t0, cs, parent, offset);
      PlaceNodeRequests(p, oldColl, oldReq, t0, cs, parent, offset);
      var p1 := PlaceNode(p, oldColl, oldReq, c, parent, offset);
      PlaceForestKeeps(p1, oldColl, oldReq, t0, c.folders, Some(h), 0);
      PlaceForestPlaces(p1, oldColl, oldReq, t0, c.folders, Some(h), 0);
      var p2 := PlaceForest(p1, oldColl, oldReq, c.folders, Some(h), 0);
      ForestReadyRest(p, p2, oldColl, oldReq, t0, cs);
      PlaceForestKeeps(p2, oldColl, oldReq, t0, cs[1..], parent, offset + 1);
      PlaceForestPlaces(p2, oldColl, oldReq, t0, cs[1..], parent, offset + 1);
      var p3 := PlaceForest(p2, oldColl, oldReq, cs[1..], parent, offset + 1);
      NodeFactsFrame(p1, p2, p3, c, h, Entry(parent, offset));
      forall j | 0 < j < |cs| ensures CollPlaced(p3, cs[j], Entry(parent, offset + j)) && SubtreePlaced(p3, cs[j]) {
        assert cs[j] == cs[1..][j - 1];
      }
    }
  }

  /** In a placed forest, the collection any path reaches has its folders and requests registered under its handle. */
  lemma NavigatePlaced(p: Placed, state: seq<Collection>, path: seq<int>)
    requires ForestPlaced(p, state, None, 0) && Navigate(state, path).Some?
    ensures NodePlaced(p, Navigate(state, path).value)
  {
    assert Navigate(state, path) == Descend(state[path[0]], path[1..]);
  }

  /** In a placed forest, the handles of the collections along a path form a registered chain for that path. */
  lemma {:induction false} PlacedChain(p: Placed, state: seq<Collection>, path: seq<int>) returns (hs: seq<Handle>)
    requires ForestPlaced(p, state, None, 0) && Navigate(state, path).Some?
    ensures Navigate(state, path).value.refId in p.colls
    ensures ChainFor(p.r.colls, hs, path) && hs[|hs| - 1] == p.colls[Navigate(state, path).value.refId]
    decreases |path|
  {
    var n := |path|;
    if n == 1 {
      NavigateRoot(state, path[0]);
      assert path == [path[0]];
      hs := [p.colls[state[path[0]].refId]];
    } else {
      var q, i := path[..n - 1], path[n - 1];
      assert path == q + [i];
      NavigateSnoc(state, q, i);
      var node := Navigate(state, q).value;
      NavigatePlaced(p, state, q);
      var hs' := PlacedChain(p, state, q);
      var c := node.folders[i];
      assert CollPlaced(p, c, Entry(Some(p.colls[node.refId]), i));
      hs := hs' + [p.colls[c.refId]];
      forall k | 0 <= k < |hs| ensures hs[k] in p.r.colls && p.r.colls[hs[k]].index == path[k] {
        if k < n - 1 {
          assert hs[k] == hs'[k] && path[k] == q[k];
        }
      }
      forall k | 0 < k < |hs| ensures hs[k] in p.r.colls && p.r.colls[hs[k]].parent == Some(hs[k - 1]) {
        if k < n - 1 {
          assert hs[k] == hs'[k] && hs[k - 1] == hs'[k - 1];
        }
      }
    }
  }

  /** In a placed forest, every collection's handle resolves to the path that reaches it. */
  lemma PlacedCollectionPath(p: Placed, state: seq<Collection>, path: seq<int>)
    requires ForestPlaced(p, state, None, 0) && Navigate(state, path).Some?
    ensures var c := Navigate(state, path).value;
      c.refId in p.colls && CollectionIndexPath(p.r.colls, p.colls[c.refId]) == Some(path)
  {
    var hs := PlacedChain(p, state, path);
    ChainForWalk(p.r.colls, hs, path, {});
    ReverseReverse(path);
  }

  /** In a placed forest, every request's handle resolves to its collection's path followed by its own index. */
  lemma PlacedRequestPath(p: Placed, state: seq<Collection>, path: seq<int>, j: int)
    requires ForestPlaced(p, state, None, 0) && RequestAt(state, path, j).Some?
    ensures var q := RequestAt(state, path, j).value;
      q.refId in p.reqs && RequestIndexPath(p.r, p.reqs[q.refId]) == Some(path + [j])
  {
    var node := Navigate(state, path).value;
    NavigatePlaced(p, state, path);
    var hs := PlacedChain(p, state, path);
    assert ReqPlaced(p, node.requests[j], Entry(Some(p.colls[node.refId]), j));
    ChainRequestPath(p.r, hs, path, p.reqs[node.requests[j].refId], j);
  }

  /** Step 1 for requests: the request handles `prevState` keys by ref id, and the registry the scan leaves. */
  function KnownRequests(r: Registry, prev: seq<Collection>): Scan
    requires Valid(r)
  {
    RequestRefsFrom(r, prev, 1, map[])
  }

  /** Step 1 for collections, keyed as intended, on the registry the request scan left. */
  function KnownCollections(r: Registry, prev: seq<Collection>): Scan
    requires Valid(r)
  {
    var s1 := KnownRequests(r, prev);
    assert s1.r.colls.Keys !! s1.r.reqs.Keys by {
      forall h | h in s1.r.colls ensures h !in s1.r.reqs {
        assert h in r.colls;
      }
    }
    CollectionRefsFrom(s1.r, prev, 1, map[])
  }

  /** Step 3: delete the handle of every known ref id that the new tree `state` no longer holds. */
  function DropAbsent(r: Registry, oldColl: map<RefId, Handle>, oldReq: map<RefId, Handle>, state: seq<Collection>): Registry
  {
    Registry(r.ticker,
             WithoutAbsent(r.colls, oldColl, set x | x in ForestRefs(state)),
             WithoutAbsent(r.reqs, oldReq, set x | x in ForestRequestRefs(state)))
  }

  /**
   * `handleSetCollections(prevState)` as evidently intended, for the store's new collections
   * `state`: key the old handles by ref id, place the new tree from the roots down, then drop
   * the handles of ref ids the new tree no longer holds.
   */
  function Reconcile(r: Registry, prev: seq<Collection>, state: seq<Collection>): Reconciliation
    requires Valid(r)
  {
    var s1 := KnownRequests(r, prev);
    if s1.end.ScanHangs? then ReconcileHangs
    else if s1.end.ScanThrew? then ReconcileThrew(s1.r)
    else
      var s2 := KnownCollections(r, prev);
      if s2.end.ScanHangs? then ReconcileHangs
      else if s2.end.ScanThrew? then ReconcileThrew(s2.r)
      else
        var p := PlaceForest(Placed(s2.r, map[], map[]), s2.refs, s1.refs, state, None, 0);
        Reconciled(DropAbsent(p.r, s2.refs, s1.refs, state), p.colls, p.reqs)
  }

  /** After both scans, the new tree is ready to be placed on the registry they leave. */
  lemma ScansReady(r: Registry, prev: seq<Collection>, state: seq<Collection>)
    requires Valid(r) && DistinctRefs(state)
    ensures var s1 := KnownRequests(r, prev); var s2 := KnownCollections(r, prev);
      ForestReady(Placed(s2.r, map[], map[]), s2.refs, s1.refs, r.ticker, state)
  {
    var s1 := KnownRequests(r, prev);
    var s2 := KnownCollections(r, prev);
    forall x, y | x in s2.refs && y in s1.refs ensures s2.refs[x] != s1.refs[y] {
      assert s1.refs[y] in r.reqs;
    }
    forall h | h in s2.r.colls ensures h !in s2.r.reqs && 0 < h < s2.r.ticker {
      assert h in r.colls;
    }
    forall y | y in s1.refs ensures s1.refs[y] !in s2.r.colls {
      assert s1.refs[y] in r.reqs;
    }
  }

  /** Dropping absent ref ids deletes no handle that placement gave to a ref id of the new tree. */
  lemma DropAbsentAgrees(p: Placed, oldColl: map<RefId, Handle>, oldReq: map<RefId, Handle>, t0: nat, state: seq<Collection>)
    requires Ready(oldColl, oldReq, t0) && Progress(p, oldColl, oldReq, t0)
    requires forall x :: x in p.colls <==> x in ForestRefs(state)
    requires forall x :: x in p.reqs <==> x in ForestRequestRefs(state)
    ensures var p' := Placed(DropAbsent(p.r, oldColl, oldReq, state), p.colls, p.reqs);
      Agrees(p, p') && Valid(p'.r)
  {
    var r' := DropAbsent(p.r, oldColl, oldReq, state);
    forall x, y | x in p.colls && y in oldColl && y !in ForestRefs(state) ensures p.colls[x] != oldColl[y] {
      if x in oldColl {
        assert oldColl[x] != oldColl[y];
      }
    }
    forall x, y | x in p.reqs && y in oldReq && y !in ForestRequestRefs(state) ensures p.reqs[x] != oldReq[y] {
      if x in oldReq {
        assert oldReq[x] != oldReq[y];
      }
    }
  }

  /**
   * After a reconciliation that completes, the registry is valid, every ref id of the new tree
   * holds a handle (the one it had, or one minted during this call), every collection and
   * request is registered at its own index under its parent's handle, and the handles of known
   * ref ids that left the tree are gone.
   */
  lemma ReconcilePlaces(r: Registry, prev: seq<Collection>, state: seq<Collection>)
    requires Valid(r) && DistinctRefs(state) && Reconcile(r, prev, state).Reconciled?
    ensures var o := Reconcile(r, prev, state);
      var s1, s2 := KnownRequests(r, prev), KnownCollections(r, prev);
      && Valid(o.r) && ForestPlaced(Placed(o.r, o.collHandles, o.reqHandles), state, None, 0)
      && (forall x :: x in o.collHandles <==> x in ForestRefs(state))
      && (forall x :: x in o.reqHandles <==> x in ForestRequestRefs(state))
      && (forall x :: x in o.collHandles ==>
            if x in s2.refs then o.collHandles[x] == s2.refs[x] else r.ticker <= o.collHandles[x] < o.r.ticker)
      && (forall x :: x in o.reqHandles ==>
            if x in s1.refs then o.reqHandles[x] == s1.refs[x] else r.ticker <= o.reqHandles[x] < o.r.ticker)
      && (forall x :: x in s2.refs && x !in ForestRefs(state) ==> s2.refs[x] !in o.r.colls)
      && (forall x :: x in s1.refs && x !in ForestRequestRefs(state) ==> s1.refs[x] !in o.r.reqs)
  {
    var s1, s2 := KnownRequests(r, prev), KnownCollections(r, prev);
    var p0 := Placed(s2.r, map[], map[]);
    ScansReady(r, prev, state);
    PlaceForestKeeps(p0, s2.refs, s1.refs, r.ticker, state, None, 0);
    PlaceForestPlaces(p0, s2.refs, s1.refs, r.ticker, state, None, 0);
    var p := PlaceForest(p0, s2.refs, s1.refs, state, None, 0);
    DropAbsentAgrees(p, s2.refs, s1.refs, r.ticker, state);
    ForestPlacedFrame(p, Placed(DropAbsent(p.r, s2.refs, s1.refs, state), p.colls, p.reqs), state, None, 0);
  }

  /** After a reconciliation that completes, the handle of every collection of the new tree resolves to its path. */
  lemma ReconcileCollectionPaths(r: Registry, prev: seq<Collection>, state: seq<Collection>, path: seq<int>)
    requires Valid(r) && DistinctRefs(state) && Reconcile(r, prev, state).Reconciled?
    requires Navigate(state, path).Some?
    ensures var o := Reconcile(r, prev, state); var c := Navigate(state, path).value;
      c.refId in o.collHandles && CollectionIndexPath(o.r.colls, o.collHandles[c.refId]) == Some(path)
  {
    var o := Reconcile(r, prev, state);
    ReconcilePlaces(r, prev, state);
    PlacedCollectionPath(Placed(o.r, o.collHandles, o.reqHandles), state, path);
  }

  /** After a reconciliation that completes, the handle of every request of the new tree resolves to its path. */
  lemma ReconcileRequestPaths(r: Registry, prev: seq<Collection>, state: seq<Collection>, path: seq<int>, j: int)
    requires Valid(r) && DistinctRefs(state) && Reconcile(r, prev, state).Reconciled?
    requires RequestAt(state, path, j).Some?
    ensures var o := Reconcile(r, prev, state); var q := RequestAt(state, path, j).value;
      q.refId in o.reqHandles && RequestIndexPath(o.r, o.reqHandles[q.refId]) == Some(path + [j])
  {
    var o := Reconcile(r, prev, state);
    ReconcilePlaces(r, prev, state);
    PlacedRequestPath(Placed(o.r, o.collHandles, o.reqHandles), state, path, j);
  }
}
