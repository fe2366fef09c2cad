/**
 * The shape of the collection store's tree, as the personal workspace provider reads it:
 * root collections, each with child collections ("folders") and requests, every node
 * carrying a `_ref_id` identity token. The store itself (~/newstore/collections) is not
 * part of this model; only its tree shape and its navigation helper are.
 */
module CollectionTree {
  import opened Wrappers

  type RefId = string

  datatype Request = Request(refId: RefId, name: string, httpMethod: string)

  datatype Collection = Collection(refId: RefId, name: string, folders: seq<Collection>, requests: seq<Request>)

  /**
   * `navigateToFolderWithIndexPath`: the first index picks a root collection, every further
   * index a child folder. An empty path, or an index out of range at any level, gives `null`.
   */
  function Navigate(roots: seq<Collection>, path: seq<int>): Option<Collection>
  {
    if |path| == 0 then None
    else if 0 <= path[0] < |roots| then Descend(roots[path[0]], path[1..])
    else None
  }

  /** Follows `rest` through the folders below `c`. */
  function Descend(c: Collection, rest: seq<int>): Option<Collection>
    decreases |rest|
  {
    if |rest| == 0 then Some(c)
    else if 0 <= rest[0] < |c.folders| then Descend(c.folders[rest[0]], rest[1..])
    else None
  }

  /** One step further down: the child folder `i` of whatever `c` leads to. */
  function Child(o: Option<Collection>, i: int): Option<Collection>
  {
    if o.Some? && 0 <= i < |o.value.folders| then Some(o.value.folders[i]) else None
  }

  /** `getRequestFromState`: request `index` of the collection at `folderPath`, if both exist. */
  function RequestAt(roots: seq<Collection>, folderPath: seq<int>, index: int): (r: Option<Request>)
    ensures r.Some? <==> Navigate(roots, folderPath).Some? && 0 <= index < |Navigate(roots, folderPath).value.requests|
    ensures r.Some? ==> r.value == Navigate(roots, folderPath).value.requests[index]
  {
    match Navigate(roots, folderPath)
    case None => None
    case Some(c) => if 0 <= index < |c.requests| then Some(c.requests[index]) else None
  }

  lemma {:induction false} DescendSnoc(c: Collection, rest: seq<int>, i: int)
    ensures Descend(c, rest + [i]) == Child(Descend(c, rest), i)
    decreases |rest|
  {
    if |rest| == 0 {
      assert [] + [i] == [i];
      assert [i][1..] == [];
    } else {
      assert (rest + [i])[0] == rest[0];
      assert (rest + [i])[1..] == rest[1..] + [i];
      if 0 <= rest[0] < |c.folders| {
        DescendSnoc(c.folders[rest[0]], rest[1..], i);
      }
    }
  }

  /** Navigating one index further is taking that child of the node the shorter path reaches. */
  lemma NavigateSnoc(roots: seq<Collection>, path: seq<int>, i: int)
    requires |path| > 0
    ensures Navigate(roots, path + [i]) == Child(Navigate(roots, path), i)
  {
    assert (path + [i])[0] == path[0];
    assert (path + [i])[1..] == path[1..] + [i];
    if 0 <= path[0] < |roots| {
      DescendSnoc(roots[path[0]], path[1..], i);
    }
  }

  /** A one-element path names a root collection. */
  lemma NavigateRoot(roots: seq<Collection>, i: int)
    ensures Navigate(roots, [i]) == if 0 <= i < |roots| then Some(roots[i]) else None
  {
    assert [i][1..] == [];
  }

  /** The number of collections in a forest: each collection and every folder below it. */
  function ForestSize(cs: seq<Collection>): nat
  {
    if cs == [] then 0 else 1 + ForestSize(cs[0].folders) + ForestSize(cs[1..])
  }
}
