/**
 * `PersonalWorkspaceService`: the workspace provider over the local collection store. It hands
 * out handles for collections and requests and keeps them pointing at the same nodes while the
 * store changes. The store's state is passed to each operation as the value the store holds
 * after the event being handled.
 */
module PersonalWorkspace {
  import opened Wrappers
  import opened CollectionTree
  import opened HandleRegistry
  import opened Handlers
  import W = Workspace
  import S = SetCollections
  import P = Placement

  /** `PERSONAL_WORKSPACE_HANDLE`, the only workspace this provider serves. */
  const PersonalWorkspaceHandle: W.WorkspaceHandle := "personal"

  /** The listing of root collections or folders: each handle with its collection's name. */
  function FolderEntries(hs: seq<Handle>, cs: seq<Collection>): (l: seq<W.Listed<Handle, W.CollectionMeta>>)
    requires |hs| == |cs|
    ensures |l| == |cs|
    ensures forall i :: 0 <= i < |l| ==> l[i].handle == hs[i] && l[i].data.name == cs[i].name
  {
    seq(|cs|, i requires 0 <= i < |cs| => W.Listed(hs[i], W.CollectionMeta(cs[i].name)))
  }

  /** The listing of requests: each handle with its request's name and method. */
  function RequestEntries(hs: seq<Handle>, rs: seq<Request>): (l: seq<W.Listed<Handle, W.RequestMeta>>)
    requires |hs| == |rs|
    ensures |l| == |rs|
    ensures forall i :: 0 <= i < |l| ==> l[i].handle == hs[i] && l[i].data == W.RequestMeta(rs[i].name, rs[i].httpMethod)
  {
    seq(|rs|, i requires 0 <= i < |rs| => W.Listed(hs[i], W.RequestMeta(rs[i].name, rs[i].httpMethod)))
  }

  /** `getWorkspace`: an error for any handle but the personal one. */
  function GetWorkspace(handle: W.WorkspaceHandle): (r: W.Resource<W.WorkspaceMeta>)
    ensures r.Error? <==> handle != PersonalWorkspaceHandle
    ensures r.Available? <==> handle == PersonalWorkspaceHandle
    ensures r.Available? ==> r.data.name == "Personal Workspace"
  {
    if handle != PersonalWorkspaceHandle then W.Error(None, "Invalid workspace")
    else W.Available(W.WorkspaceMeta("Personal Workspace"))
  }

  class PersonalWorkspaceService {
    const providerID: W.ProviderID
    /** `handleIDTicker`: the next handle to mint. */
    var ticker: nat
    /** `collectionHandleToParentIndex`. */
    var colls: map<Handle, Entry>
    /** `requestHandleToParentIndex`. */
    var reqs: map<Handle, Entry>

    function Snapshot(): Registry
      reads this
    {
      Registry(ticker, colls, reqs)
    }

    ghost predicate Valid()
      reads this
    {
      HandleRegistry.Valid(Snapshot())
    }

    /** The provider starts with the ticker at 1 and no handles. */
    constructor()
      ensures providerID == "personal" && Snapshot() == Registry(1, map[], map[]) && Valid()
    {
      providerID := "personal";
      ticker := 1;
      colls := map[];
      reqs := map[];
    }

    /** `getAssociatedRESTCollectionHandle` / `getAssociatedRESTRequestHandle`: the first handle registered at the pair. */
    method GetAssociatedHandle(k: Kind, parent: Option<Handle>, index: int) returns (r: Option<Handle>)
      ensures r == Find(Table(Snapshot(), k), Entry(parent, index), ticker)
    {
      var m := if k.Collections? then colls else reqs;
      var e := Entry(parent, index);
      var h := 1;
      while h < ticker
        invariant 1 <= h
        invariant FindFrom(m, e, h, ticker) == Find(m, e, ticker)
        decreases ticker - h
      {
        if h in m && m[h] == e {
          return Some(h);
        }
        h := h + 1;
      }
      return None;
    }

    /** `createAssociatedRESTCollectionHandle` / `createAssociatedRESTRequestHandle`. */
    method CreateHandle(k: Kind, e: Entry) returns (h: Handle)
      modifies this
      ensures (h, Snapshot()) == Create(old(Snapshot()), k, e)
    {
      h := ticker;
      ticker := ticker + 1;
      if k.Collections? {
        colls := colls[h := e];
      } else {
        reqs := reqs[h := e];
      }
    }

    /** `getOrCreateAssociatedRESTCollectionHandle` / `getOrCreateAssociatedRESTRequestHandle`. */
    method GetOrCreateHandle(k: Kind, e: Entry) returns (h: Handle)
      requires Valid()
      modifies this
      ensures (h, Snapshot()) == GetOrCreate(old(Snapshot()), k, e)
      ensures Valid()
    {
      GetOrCreateFindsOrMints(Snapshot(), k, e);
      var found := GetAssociatedHandle(k, e.parent, e.index);
      if found.Some? {
        return found.value;
      }
      h := CreateHandle(k, e);
    }

    /** The clean-up loop of both resolvers: `delete` on every handle of `hs`. */
    method DeleteCollections(hs: seq<Handle>)
      modifies this
      ensures colls == old(colls) - (set v | v in hs)
      ensures ticker == old(ticker) && reqs == old(reqs)
    {
      for i := 0 to |hs|
        invariant colls == old(colls) - (set v | v in hs[..i])
        invariant ticker == old(ticker) && reqs == old(reqs)
      {
        ghost var done := hs[..i + 1];
        assert done == hs[..i] + [hs[i]];
        assert (set v | v in done) == (set v | v in hs[..i]) + {hs[i]};
        colls := colls - {hs[i]};
      }
      assert hs[..|hs|] == hs;
    }

    /**
     * The `while (current !== null)` walk of both resolvers: pushes each index after `initial`;
     * at a handle with no entry it deletes that handle and every one visited and gives `null`.
     */
    method CollectParents(start: Option<Handle>, initial: seq<int>) returns (r: Option<seq<int>>)
      requires !Walk(colls, start, {}).end.Cycle?
      modifies this
      ensures var c := Walk(old(colls), start, {});
        r == (if c.end.Root? then Some(initial + c.indices) else None)
        && colls == (if c.end.Missing? then old(colls) - {c.end.at} - (set v | v in c.visited) else old(colls))
      ensures ticker == old(ticker) && reqs == old(reqs)
    {
      ghost var m0 := colls;
      ghost var whole := Walk(m0, start, {});
      var parents := initial;
      var visited: seq<Handle> := [];
      var current := start;
      while current.Some?
        invariant colls == m0 && ticker == old(ticker) && reqs == old(reqs)
        invariant |visited| <= |whole.visited|
        invariant visited == whole.visited[..|visited|]
        invariant parents == initial + whole.indices[..|visited|]
        invariant current == NextLookup(whole, |visited|)
        decreases |whole.visited| - |visited|
      {
        var cur := current.value;
        if cur !in colls {
          NextLookupEnd(m0, start, |visited|);
          colls := colls - {cur};
          DeleteCollections(visited);
          return None;
        }
        NextLookupStep(m0, start, |visited|);
        var e := colls[cur];
        parents := parents + [e.index];
        visited := visited + [cur];
        current := e.parent;
      }
      NextLookupEnd(m0, start, |visited|);
      r := Some(parents);
    }

    /** `resolveIndexPathFromRESTCollectionHandle`: the walked indices, reversed. */
    method ResolveIndexPathFromCollectionHandle(handle: Handle) returns (p: Option<seq<int>>)
      requires NoCycleFrom(colls, Some(handle))
      modifies this
      ensures p == CollectionIndexPath(old(colls), handle)
      ensures colls == AfterCollectionResolve(old(colls), handle)
      ensures ticker == old(ticker) && reqs == old(reqs)
    {
      ghost var c := Walk(colls, Some(handle), {});
      var parents := CollectParents(Some(handle), []);
      if parents.None? {
        return None;
      }
      assert parents.value == c.indices;
      p := Some(Reverse(parents.value));
    }

    /**
     * `resolveIndexPathFromRESTRequestHandle`: `null` for an unregistered request; otherwise
     * the walk from its parent, starting from the request's own index, reversed; when the walk
     * meets a missing ancestor the request handle is deleted too.
     */
    method ResolveIndexPathFromRequestHandle(handle: Handle) returns (p: Option<seq<int>>)
      requires handle in reqs ==> NoCycleFrom(colls, reqs[handle].parent)
      modifies this
      ensures p == RequestIndexPath(old(Snapshot()), handle)
      ensures Snapshot() == AfterRequestResolve(old(Snapshot()), handle)
    {
      if handle !in reqs {
        return None;
      }
      var entry := reqs[handle];
      var parents := CollectParents(entry.parent, [entry.index]);
      if parents.None? {
        reqs := reqs - {handle};
        return None;
      }
      p := Some(Reverse(parents.value));
    }

    /** `resolveRESTCollectionHandleFromFolderPath`: one lookup per index, starting from the root. */
    method ResolveCollectionHandleFromFolderPath(path: seq<int>) returns (h: Option<Handle>)
      ensures h == ResolveFolderPath(colls, path, ticker)
    {
      var current: Option<Handle> := None;
      for i := 0 to |path|
        invariant current == ResolveFolderPath(colls, path[..i], ticker)
      {
        assert path[..i + 1][..i] == path[..i];
        current := GetAssociatedHandle(Collections, current, path[i]);
      }
      assert path[..|path|] == path;
      return current;
    }

    /** `resolveRESTRequestHandleFromFolderPath`: the request at the last index under the folder the rest resolves to. */
    method ResolveRequestHandleFromFolderPath(path: seq<int>) returns (h: Option<Handle>)
      requires |path| > 0
      ensures h == RequestHandleAt(Snapshot(), path)
    {
      var requestIndex := path[|path| - 1];
      var folderHandle := ResolveCollectionHandleFromFolderPath(Reparse(path[..|path| - 1]));
      h := GetAssociatedHandle(Requests, folderHandle, requestIndex);
    }

    /** One `for ... of collectionHandleToParentIndex.entries()` pass applying `rule` to each entry. */
    method RewriteCollections(rule: Rule)
      requires Valid()
      modifies this
      ensures colls == Rewritten(old(colls), rule) && ticker == old(ticker) && reqs == old(reqs)
      ensures Valid()
    {
      ghost var m0 := colls;
      var h := 1;
      while h < ticker
        invariant 1 <= h <= ticker && ticker == old(ticker) && reqs == old(reqs)
        invariant colls == PartlyRewritten(m0, rule, h)
      {
        PartlyRewrittenStep(m0, rule, h);
        if h in colls {
          match Apply(rule, h, colls[h])
          case None => colls := colls - {h};
          case Some(e) => colls := colls[h := e];
        }
        h := h + 1;
      }
      PartlyRewrittenDone(m0, rule, h);
      RewrittenValid(old(Snapshot()), Collections, rule);
    }

    /** One `for ... of requestHandleToParentIndex.entries()` pass applying `rule` to each entry. */
    method RewriteRequests(rule: Rule)
      requires Valid()
      modifies this
      ensures reqs == Rewritten(old(reqs), rule) && ticker == old(ticker) && colls == old(colls)
      ensures Valid()
    {
      ghost var m0 := reqs;
      var h := 1;
      while h < ticker
        invariant 1 <= h <= ticker && ticker == old(ticker) && colls == old(colls)
        invariant reqs == PartlyRewritten(m0, rule, h)
      {
        PartlyRewrittenStep(m0, rule, h);
        if h in reqs {
          match Apply(rule, h, reqs[h])
          case None => reqs := reqs - {h};
          case Some(e) => reqs := reqs[h := e];
        }
        h := h + 1;
      }
      PartlyRewrittenDone(m0, rule, h);
      RewrittenValid(old(Snapshot()), Requests, rule);
    }

    /** `handleFolderRemove`. */
    method HandleFolderRemove(path: seq<int>) returns (threw: bool)
      requires Valid()
      modifies this
      ensures threw <==> FolderRemove(old(Snapshot()), path).Threw?
      ensures threw ==> Snapshot() == old(Snapshot())
      ensures !threw ==> Snapshot() == FolderRemove(old(Snapshot()), path).next
      ensures Valid()
    {
      var handle := ResolveCollectionHandleFromFolderPath(path);
      if handle.None? {
        return true;
      }
      var h := handle.value;
      var e := colls[h];
      ghost var m0 := colls;
      colls := colls - {h};
      RewriteCollections(ShiftAfterRemoval(h, e.parent, e.index, true));
      assert colls == Rewritten(m0, ShiftAfterRemoval(h, e.parent, e.index, true));
      return false;
    }

    /** `handleRequestRemove`. */
    method HandleRequestRemove(folderPath: seq<int>, requestIndex: int) returns (threw: bool)
      requires Valid() && |folderPath| > 0
      modifies this
      ensures threw <==> RequestRemove(old(Snapshot()), folderPath, requestIndex).Threw?
      ensures threw ==> Snapshot() == old(Snapshot())
      ensures !threw ==> Snapshot() == RequestRemove(old(Snapshot()), folderPath, requestIndex).next
      ensures Valid()
    {
      var handle := ResolveRequestHandleFromFolderPath(folderPath + [requestIndex]);
      if handle.None? {
        return true;
      }
      var h := handle.value;
      var e := reqs[h];
      ghost var m0 := reqs;
      reqs := reqs - {h};
      RewriteRequests(ShiftAfterRemoval(h, e.parent, e.index, false));
      assert reqs == Rewritten(m0, ShiftAfterRemoval(h, e.parent, e.index, false));
      return false;
    }

    /** `handleFolderReorder`. */
    method HandleFolderReorder(state: seq<Collection>, srcPath: seq<int>, destPath: Option<seq<int>>) returns (threw: bool)
      requires Valid() && |srcPath| > 0 && (destPath.Some? ==> |destPath.value| > 0)
      modifies this
      ensures threw <==> FolderReorder(old(Snapshot()), state, srcPath, destPath).Threw?
      ensures threw ==> Snapshot() == old(Snapshot())
      ensures !threw ==> Snapshot() == FolderReorder(old(Snapshot()), state, srcPath, destPath).next
      ensures Valid()
    {
      var srcIndex := srcPath[|srcPath| - 1];
      var srcParentFolder := Navigate(state, srcPath[..|srcPath| - 1]);
      if destPath.None? && srcParentFolder.None? {
        return true;
      }
      var dest := if destPath.Some? then destPath.value[|destPath.value| - 1] else |srcParentFolder.value.folders| - 1;
      var srcParentHandle: Option<Handle> := None;
      if |srcPath| > 1 {
        srcParentHandle := ResolveCollectionHandleFromFolderPath(srcPath);
      }
      RewriteCollections(Reorder(srcParentHandle, srcIndex, dest));
      return false;
    }

    /** `handleRequestReorder`. */
    method HandleRequestReorder(state: seq<Collection>, destCollectionPath: seq<int>, src: int, dest: Option<int>) returns (threw: bool)
      requires Valid()
      modifies this
      ensures threw <==> RequestReorder(old(Snapshot()), state, destCollectionPath, src, dest).Threw?
      ensures threw ==> Snapshot() == old(Snapshot())
      ensures !threw ==> Snapshot() == RequestReorder(old(Snapshot()), state, destCollectionPath, src, dest).next
      ensures Valid()
    {
      var destCollection := Navigate(state, destCollectionPath);
      var destHandle := ResolveCollectionHandleFromFolderPath(destCollectionPath);
      if dest.None? && destCollection.None? {
        return true;
      }
      var actual := if dest.Some? then dest.value else |destCollection.value.requests|;
      RewriteRequests(Reorder(destHandle, src, actual));
      return false;
    }

    /** `handleFolderMove`. */
    method HandleFolderMove(state: seq<Collection>, srcPath: seq<int>, destPath: Option<seq<int>>) returns (threw: bool)
      requires Valid()
      modifies this
      ensures threw <==> FolderMove(old(Snapshot()), state, srcPath, destPath).Threw?
      ensures threw ==> Snapshot() == old(Snapshot())
      ensures !threw ==> Snapshot() == FolderMove(old(Snapshot()), state, srcPath, destPath).next
      ensures Valid()
    {
      var destHandle: Option<Handle> := None;
      var destPosition := |state| - 1;
      if destPath.Some? {
        destHandle := ResolveCollectionHandleFromFolderPath(destPath.value);
        var destFolder := Navigate(state, destPath.value);
        if destFolder.None? {
          return true;
        }
        destPosition := |destFolder.value.folders| - 1;
      }
      var src := ResolveCollectionHandleFromFolderPath(srcPath);
      if src.None? {
        return true;
      }
      var e := colls[src.value];
      RewriteCollections(Relocate(src.value, Entry(destHandle, destPosition), e.parent, e.index));
      return false;
    }

    /** `handleRequestMove`. */
    method HandleRequestMove(state: seq<Collection>, srcPath: seq<int>, destPath: seq<int>) returns (threw: bool)
      requires Valid() && |srcPath| > 0
      modifies this
      ensures threw <==> RequestMove(old(Snapshot()), state, srcPath, destPath).Threw?
      ensures threw ==> Snapshot() == old(Snapshot())
      ensures !threw ==> Snapshot() == RequestMove(old(Snapshot()), state, srcPath, destPath).next
      ensures Valid()
    {
      var destHandle := ResolveCollectionHandleFromFolderPath(destPath);
      var destColl := Navigate(state, destPath);
      if destColl.None? {
        return true;
      }
      var destPosition := |destColl.value.requests| - 1;
      var src := ResolveRequestHandleFromFolderPath(srcPath);
      if src.None? {
        return true;
      }
      var e := reqs[src.value];
      RewriteRequests(Relocate(src.value, Entry(destHandle, destPosition), e.parent, e.index));
      return false;
    }

    /** `handleFolderAdd`. */
    method HandleFolderAdd(state: seq<Collection>, parentPath: Option<seq<int>>) returns (threw: bool)
      requires Valid()
      modifies this
      ensures threw <==> FolderAdd(old(Snapshot()), state, parentPath).Threw?
      ensures threw ==> Snapshot() == old(Snapshot())
      ensures !threw ==> Snapshot() == FolderAdd(old(Snapshot()), state, parentPath).next
      ensures Valid()
    {
      var parentHandle: Option<Handle> := None;
      var folderIndex := |state| - 1;
      if parentPath.Some? {
        parentHandle := ResolveCollectionHandleFromFolderPath(parentPath.value);
        var parent := Navigate(state, parentPath.value);
        if parent.None? {
          return true;
        }
        folderIndex := |parent.value.folders| - 1;
      }
      var _ := CreateHandle(Collections, Entry(parentHandle, folderIndex));
      return false;
    }

    /** `handleRequestAdd`. */
    method HandleRequestAdd(state: seq<Collection>, parentPath: seq<int>) returns (threw: bool)
      requires Valid()
      modifies this
      ensures threw <==> RequestAdd(old(Snapshot()), state, parentPath).Threw?
      ensures threw ==> Snapshot() == old(Snapshot())
      ensures !threw ==> Snapshot() == RequestAdd(old(Snapshot()), state, parentPath).next
      ensures Valid()
    {
      var parentHandle := ResolveCollectionHandleFromFolderPath(parentPath);
      var parent := Navigate(state, parentPath);
      if parent.None? {
        return true;
      }
      var _ := CreateHandle(Requests, Entry(parentHandle, |parent.value.requests| - 1));
      return false;
    }

    /** One collection of `generateHandlesForCollections`: its handle, then one handle per request under it. */
    method RegisterCollection(c: Collection, e: Entry) returns (h: Handle)
      requires Valid()
      modifies this
      ensures h == GetOrCreate(old(Snapshot()), Collections, e).0
      ensures Snapshot() == RequestHandles(GetOrCreate(old(Snapshot()), Collections, e).1, h, |c.requests|, 0)
      ensures Valid()
    {
      h := GetOrCreateHandle(Collections, e);
      ghost var afterColl := Snapshot();
      var j := 0;
      while j < |c.requests|
        invariant 0 <= j <= |c.requests| && Valid()
        invariant RequestHandles(Snapshot(), h, |c.requests|, j) == RequestHandles(afterColl, h, |c.requests|, 0)
      {
        var _ := GetOrCreateHandle(Requests, Entry(Some(h), j));
        j := j + 1;
      }
    }

    /** The body of one pop of `generateHandlesForCollections`: the frames it pushes, in order. */
    method RegisterFrame(top: Frame, start: int) returns (pushed: seq<Frame>)
      requires Valid()
      modifies this
      ensures (Snapshot(), pushed) == Level(old(Snapshot()), top, start, 0, [])
      ensures Valid()
    {
      pushed := [];
      for i := 0 to |top.colls|
        invariant Valid()
        invariant Level(Snapshot(), top, start, i, pushed) == Level(old(Snapshot()), top, start, 0, [])
      {
        var c := top.colls[i];
        var h := RegisterCollection(c, Entry(top.parent, i + start));
        if |c.folders| > 0 {
          pushed := pushed + [Frame(c.folders, Some(h))];
        }
      }
    }

    /**
     * `generateHandlesForCollections`: a stack of (sibling collections, parent handle); each
     * pop registers the collections and their requests and pushes their folders.
     */
    method GenerateHandlesForCollections(cs: seq<Collection>, start: int, parent: Option<Handle>)
      requires Valid()
      modifies this
      ensures Snapshot() == GenerateHandles(old(Snapshot()), cs, start, parent)
      ensures Valid()
    {
      var stack := [Frame(cs, parent)];
      while |stack| > 0
        invariant Valid()
        invariant Generate(Snapshot(), stack, start) == GenerateHandles(old(Snapshot()), cs, start, parent)
        decreases StackSize(stack), |stack|
      {
        var top := stack[|stack| - 1];
        var rest := stack[..|stack| - 1];
        var pushed := RegisterFrame(top, start);
        assert top.colls[0..] == top.colls;
        StackSizeAppend(rest, pushed);
        stack := rest + pushed;
      }
    }

    /** `onServiceInit`: handles for every collection already in the store, from index 0 at the root. */
    method OnServiceInit(state: seq<Collection>)
      requires Valid()
      modifies this
      ensures Snapshot() == GenerateHandles(old(Snapshot()), state, 0, None)
      ensures Valid()
      ensures Extends(old(Snapshot()), Snapshot()) && CoversFrom(Snapshot(), state, None, 0, 0)
    {
      GenerateHandlesCovers(Snapshot(), state, 0, None);
      GenerateHandlesForCollections(state, 0, None);
    }

    /** `handleFolderDuplication`. */
    method HandleFolderDuplication(state: seq<Collection>, folderPath: seq<int>) returns (threw: bool)
      requires Valid() && |folderPath| > 0 && DuplicateInStore(state, folderPath)
      modifies this
      ensures threw <==> FolderDuplication(old(Snapshot()), state, folderPath).Threw?
      ensures threw ==> Snapshot() == old(Snapshot())
      ensures !threw ==> Snapshot() == FolderDuplication(old(Snapshot()), state, folderPath).next
      ensures Valid()
    {
      var folderHandle := ResolveCollectionHandleFromFolderPath(folderPath);
      if folderHandle.None? {
        return true;
      }
      var parentHandle := colls[folderHandle.value].parent;
      if parentHandle.Some? {
        var folder := Navigate(state, folderPath[..|folderPath| - 1]);
        if folder.None? {
          return true;
        }
        var destIndex := |folder.value.folders| - 1;
        assert [folder.value.folders[destIndex]] == folder.value.folders[destIndex..];
        GenerateHandlesForCollections([folder.value.folders[destIndex]], destIndex, parentHandle);
      } else {
        assert [state[|state| - 1]] == state[|state| - 1..];
        GenerateHandlesForCollections([state[|state| - 1]], |state| - 1, None);
      }
      return false;
    }

    /** `getRootRESTCollections`: for the personal workspace, one handle per root collection, in order. */
    method GetRootRESTCollections(state: seq<Collection>, handle: W.WorkspaceHandle)
      returns (res: W.Resource<seq<W.Listed<Handle, W.CollectionMeta>>>)
      requires Valid()
      modifies this
      ensures Valid()
      ensures handle != PersonalWorkspaceHandle ==> res == W.Error(None, "Invalid workspace") && Snapshot() == old(Snapshot())
      ensures handle == PersonalWorkspaceHandle ==>
        var (r', hs) := Listing(old(Snapshot()), Collections, None, |state|, 0, []);
        |hs| == |state| && Snapshot() == r' && res == W.Available(FolderEntries(hs, state))
    {
      if handle != PersonalWorkspaceHandle {
        return W.Error(None, "Invalid workspace");
      }
      ListingRegisters(Snapshot(), Collections, None, |state|, 0, []);
      var hs: seq<Handle> := [];
      for i := 0 to |state|
        invariant Valid() && |hs| == i
        invariant Listing(Snapshot(), Collections, None, |state|, i, hs) == Listing(old(Snapshot()), Collections, None, |state|, 0, [])
      {
        var h := GetOrCreateHandle(Collections, Entry(None, i));
        hs := hs + [h];
      }
      res := W.Available(FolderEntries(hs, state));
    }

    /** The listing loop of `getRESTCollectionChildren`, over folders or over requests. */
    method ListChildren(k: Kind, parent: Handle, n: nat) returns (hs: seq<Handle>)
      requires Valid()
      modifies this
      ensures Valid() && |hs| == n
      ensures (Snapshot(), hs) == Listing(old(Snapshot()), k, Some(parent), n, 0, [])
    {
      ListingRegisters(Snapshot(), k, Some(parent), n, 0, []);
      hs := [];
      for i := 0 to n
        invariant Valid() && |hs| == i
        invariant Listing(Snapshot(), k, Some(parent), n, i, hs) == Listing(old(Snapshot()), k, Some(parent), n, 0, [])
      {
        var h := GetOrCreateHandle(k, Entry(Some(parent), i));
        hs := hs + [h];
      }
    }

    /**
     * `getRESTCollectionChildren`: `unavailable` when the handle no longer resolves; otherwise
     * handles for the collection's folders and requests, in order.
     */
    method GetRESTCollectionChildren(state: seq<Collection>, handle: Handle)
      returns (res: W.Resource<W.CollectionChildren<Handle>>)
      requires Valid() && NoCycleFrom(colls, Some(handle))
      requires CollectionIndexPath(colls, handle).Some? ==> Navigate(state, CollectionIndexPath(colls, handle).value).Some?
      modifies this
      ensures Valid()
      ensures CollectionIndexPath(old(colls), handle).None? ==>
        res == W.Unavailable && Snapshot() == old(Snapshot()).(colls := AfterCollectionResolve(old(colls), handle))
      ensures CollectionIndexPath(old(colls), handle).Some? ==>
        var c := Navigate(state, CollectionIndexPath(old(colls), handle).value).value;
        var (r1, fs) := Listing(old(Snapshot()), Collections, Some(handle), |c.folders|, 0, []);
        var (r2, rs) := Listing(r1, Requests, Some(handle), |c.requests|, 0, []);
        |fs| == |c.folders| && |rs| == |c.requests| && Snapshot() == r2
        && res == W.Available(W.CollectionChildren(FolderEntries(fs, c.folders), RequestEntries(rs, c.requests)))
    {
      var path := ResolveIndexPathFromCollectionHandle(handle);
      if path.None? {
        return W.Unavailable;
      }
      var c := Navigate(state, path.value).value;
      var fs := ListChildren(Collections, handle, |c.folders|);
      var rs := ListChildren(Requests, handle, |c.requests|);
      res := W.Available(W.CollectionChildren(FolderEntries(fs, c.folders), RequestEntries(rs, c.requests)));
    }

    /**
     * `getRESTRequest`: `unavailable` when the handle no longer resolves; otherwise `available`
     * with the request the store holds at the resolved path, and with no data (`undefined`) when
     * the folder there has no request at that index.
     */
    method GetRESTRequest(state: seq<Collection>, handle: Handle) returns (res: W.Resource<Option<Request>>)
      requires Valid() && (handle in reqs ==> NoCycleFrom(colls, reqs[handle].parent))
      requires RequestIndexPath(Snapshot(), handle).Some? ==>
        var p := RequestIndexPath(Snapshot(), handle).value;
        Navigate(state, p[..|p| - 1]).Some?
      modifies this
      ensures Valid()
      ensures Snapshot() == AfterRequestResolve(old(Snapshot()), handle)
      ensures RequestIndexPath(old(Snapshot()), handle).None? ==> res == W.Unavailable
      ensures RequestIndexPath(old(Snapshot()), handle).Some? ==>
        var p := RequestIndexPath(old(Snapshot()), handle).value;
        res == W.Available(RequestAt(state, p[..|p| - 1], p[|p| - 1]))
    {
      if RequestIndexPath(Snapshot(), handle).Some? {
        RequestIndexPathShape(Snapshot(), handle);
      }
      var indexPath := ResolveIndexPathFromRequestHandle(handle);
      if indexPath.None? {
        return W.Unavailable;
      }
      var p := indexPath.value;
      var requestIndex := p[|p| - 1];
      var parentFolder := Navigate(state, p[..|p| - 1]).value;
      var request := if 0 <= requestIndex < |parentFolder.requests| then Some(parentFolder.requests[requestIndex]) else None;
      res := W.Available(request);
    }

    /**
     * `getRefIDToRequestHandleMap(prevState)`: one pass over the request handles in minting
     * order; each whose parent resolves is keyed by the ref id of the request `prevState`
     * holds at that path. Resolving prunes broken collection chains; a path `prevState`
     * does not hold throws.
     */
    method GetRefIdToRequestHandleMap(prev: seq<Collection>) returns (refs: map<RefId, Handle>, end: S.ScanEnd)
      requires Valid() && !S.RequestRefsFrom(Snapshot(), prev, 1, map[]).end.ScanHangs?
      modifies this
      ensures S.Scan(Snapshot(), refs, end) == S.RequestRefsFrom(old(Snapshot()), prev, 1, map[])
    {
      ghost var target := S.RequestRefsFrom(Snapshot(), prev, 1, map[]);
      refs := map[];
      var h := 1;
      while h < ticker
        invariant S.RequestScanAt(Snapshot(), prev, h, refs, target)
        decreases ticker - h
      {
        ghost var r := Snapshot();
        if h in reqs {
          var e := reqs[h];
          S.RequestScanNoCycle(r, prev, h, refs, target);
          var parents := CollectParents(e.parent, []);
          if parents.None? {
            S.RequestScanPruned(r, prev, h, refs, target);
          } else {
            assert parents.value == Walk(r.colls, e.parent, {}).indices;
            var q := RequestAt(prev, Reverse(parents.value), e.index);
            if q.None? {
              S.RequestScanThrows(r, prev, h, refs, target);
              end := S.ScanThrew;
              return;
            }
            S.RequestScanKeys(r, prev, h, refs, target, q.value.refId);
            refs := refs[q.value.refId := h];
          }
        } else {
          S.RequestScanSkip(r, prev, h, refs, target);
        }
        h := h + 1;
      }
      S.RequestScanDone(Snapshot(), prev, h, refs, target);
      end := S.Scanned;
    }

    /**
     * `getRefIDToCollectionHandleMap(prevState)`, keyed as evidently intended: one pass over
     * the collection handles in minting order; each whose own chain resolves is keyed by the
     * ref id of the collection `prevState` holds at its path. A path `prevState` does not hold throws.
     */
    method GetRefIdToCollectionHandleMap(prev: seq<Collection>) returns (refs: map<RefId, Handle>, end: S.ScanEnd)
      requires Valid() && !S.CollectionRefsFrom(Snapshot(), prev, 1, map[]).end.ScanHangs?
      modifies this
      ensures S.Scan(Snapshot(), refs, end) == S.CollectionRefsFrom(old(Snapshot()), prev, 1, map[])
    {
      ghost var target := S.CollectionRefsFrom(Snapshot(), prev, 1, map[]);
      refs := map[];
      var h := 1;
      while h < ticker
        invariant S.CollectionScanAt(Snapshot(), prev, h, refs, target)
        decreases ticker - h
      {
        ghost var r := Snapshot();
        if h in colls {
          S.CollectionScanNoCycle(r, prev, h, refs, target);
          var path := ResolveIndexPathFromCollectionHandle(h);
          if path.None? {
            S.CollectionScanPruned(r, prev, h, refs, target);
          } else {
            var c := Navigate(prev, path.value);
            if c.None? {
              S.CollectionScanThrows(r, prev, h, refs, target);
              end := S.ScanThrew;
              return;
            }
            S.CollectionScanKeys(r, prev, h, refs, target, c.value.refId);
            refs := refs[c.value.refId := h];
          }
        } else {
          S.CollectionScanSkip(r, prev, h, refs, target);
        }
        h := h + 1;
      }
      S.CollectionScanDone(Snapshot(), prev, h, refs, target);
      end := S.Scanned;
    }

    /**
     * `getRefIDToCollectionFolderPathMap(state)`: a depth-first walk with an explicit stack,
     * recording each collection's ref id with its index path.
     */
    static method GetRefIdToCollectionFolderPathMap(state: seq<Collection>) returns (pl: S.PathList)
      ensures pl == S.CollectionPaths(state) && S.CollectionPathsSound(state, pl)
    {
      S.CollectionPathsAreSound(state);
      var stack := S.Roots(state);
      pl := [];
      while |stack| > 0
        invariant S.CollectionPathsFrom(stack, pl) == S.CollectionPaths(state)
        decreases S.PendingSize(stack)
      {
        var top := stack[|stack| - 1];
        S.PopShrinks(stack);
        pl := pl + [(top.coll.refId, top.path)];
        stack := stack[..|stack| - 1] + S.Children(top);
      }
    }

    /**
     * `getRefIDToRequestFolderPathMap(state)`: the same walk, recording each request's ref id
     * with its collection's path followed by its own index.
     */
    static method GetRefIdToRequestFolderPathMap(state: seq<Collection>) returns (pl: S.PathList)
      ensures pl == S.RequestPaths(state) && S.RequestPathsSound(state, pl)
    {
      S.RequestPathsAreSound(state);
      var stack := S.Roots(state);
      pl := [];
      while |stack| > 0
        invariant S.RequestPathsFrom(stack, pl) == S.RequestPaths(state)
        decreases S.PendingSize(stack)
      {
        var top := stack[|stack| - 1];
        S.PopShrinks(stack);
        pl := pl + S.RequestEntriesOf(top);
        stack := stack[..|stack| - 1] + S.Children(top);
      }
    }

    /** One collection of the new tree: its known handle is re-registered at `e`, or a handle is minted for it. */
    method PlaceCollection(known: map<RefId, Handle>, x: RefId, e: Entry, cm: map<RefId, Handle>, rm: map<RefId, Handle>)
      returns (cm': map<RefId, Handle>)
      modifies this
      ensures P.Placed(Snapshot(), cm', rm) == P.WithCollection(P.Placed(old(Snapshot()), cm, rm), known, x, e)
    {
      if x in known {
        colls := colls[known[x] := e];
        cm' := cm[x := known[x]];
      } else {
        var h := CreateHandle(Collections, e);
        cm' := cm[x := h];
      }
    }

    /** The requests `rs` of the collection with handle `parent`, at `offset`, `offset + 1`, ... */
    method PlaceRequests(known: map<RefId, Handle>, rs: seq<Request>, parent: Handle, offset: int,
                         cm: map<RefId, Handle>, rm: map<RefId, Handle>) returns (rm': map<RefId, Handle>)
      modifies this
      ensures P.Placed(Snapshot(), cm, rm') == P.PlaceRequests(P.Placed(old(Snapshot()), cm, rm), known, rs, parent, offset)
    {
      rm' := rm;
      for j := 0 to |rs|
        invariant P.PlaceRequests(P.Placed(Snapshot(), cm, rm'), known, rs[j..], parent, offset + j)
               == P.PlaceRequests(P.Placed(old(Snapshot()), cm, rm), known, rs, parent, offset)
      {
        assert rs[j..][1..] == rs[j + 1..];
        var x := rs[j].refId;
        var e := Entry(Some(parent), offset + j);
        if x in known {
          reqs := reqs[known[x] := e];
          rm' := rm'[x := known[x]];
        } else {
          var h := CreateHandle(Requests, e);
          rm' := rm'[x := h];
        }
      }
    }

    /**
     * The collections `cs` under `parent` at `offset`, `offset + 1`, ...: each one, then its
     * requests, then its folders under the handle it was just given.
     */
    method PlaceForest(oldColl: map<RefId, Handle>, oldReq: map<RefId, Handle>, cs: seq<Collection>,
                       parent: Option<Handle>, offset: int, cm: map<RefId, Handle>, rm: map<RefId, Handle>)
      returns (cm': map<RefId, Handle>, rm': map<RefId, Handle>)
      modifies this
      ensures P.Placed(Snapshot(), cm', rm') == P.PlaceForest(P.Placed(old(Snapshot()), cm, rm), oldColl, oldReq, cs, parent, offset)
      decreases ForestSize(cs)
    {
      if cs == [] {
        return cm, rm;
      }
      var c := cs[0];
      var h := P.ClaimedHandle(Snapshot(), oldColl, c.refId);
      cm' := PlaceCollection(oldColl, c.refId, Entry(parent, offset), cm, rm);
      rm' := PlaceRequests(oldReq, c.requests, h, 0, cm', rm);
      cm', rm' := PlaceForest(oldColl, oldReq, c.folders, Some(h), 0, cm', rm');
      cm', rm' := PlaceForest(oldColl, oldReq, cs[1..], parent, offset + 1, cm', rm');
    }

    /** One loop of step 3 of `handleSetCollections`: `delete` the handle of every ref id of `known` not in `present`. */
    static method DeleteAbsent(m: map<Handle, Entry>, known: map<RefId, Handle>, present: set<RefId>) returns (m': map<Handle, Entry>)
      ensures m' == S.WithoutAbsent(m, known, present)
    {
      m' := m;
      var todo := known.Keys;
      while todo != {}
        invariant todo <= known.Keys
        invariant m' == m - (set x | x in known && x !in present && x !in todo :: known[x])
        decreases todo
      {
        var x :| x in todo;
        ghost var gone := set y | y in known && y !in present && y !in todo :: known[y];
        ghost var gone' := set y | y in known && y !in present && y !in todo - {x} :: known[y];
        assert gone' == if x in present then gone else gone + {known[x]};
        if x !in present {
          m' := m' - {known[x]};
        }
        todo := todo - {x};
      }
    }

    /**
     * Step 3 of `handleSetCollections`: `delete` the handle of every known ref id the new tree
     * `state` no longer holds, requests first.
     */
    method DropAbsent(oldColl: map<RefId, Handle>, oldReq: map<RefId, Handle>, state: seq<Collection>)
      modifies this
      ensures Snapshot() == P.DropAbsent(old(Snapshot()), oldColl, oldReq, state)
    {
      reqs := DeleteAbsent(reqs, oldReq, set x | x in P.ForestRequestRefs(state));
      colls := DeleteAbsent(colls, oldColl, set x | x in P.ForestRefs(state));
    }

    /**
     * `handleSetCollections(prevState)` as evidently intended: key the old handles by ref id,
     * place the new tree `state` from the roots down, then drop the handles of ref ids that
     * left it. What it leaves is `Placement.Reconcile`.
     */
    method HandleSetCollections(prev: seq<Collection>, state: seq<Collection>) returns (threw: bool)
      requires Valid() && P.DistinctRefs(state) && !P.Reconcile(Snapshot(), prev, state).ReconcileHangs?
      modifies this
      ensures var o := P.Reconcile(old(Snapshot()), prev, state);
        && (threw <==> o.ReconcileThrew?)
        && (o.ReconcileThrew? ==> Snapshot() == o.at)
        && (o.Reconciled? ==> Snapshot() == o.r)
      ensures Valid()
    {
      ghost var r0 := Snapshot();
      var reqRefs, end := GetRefIdToRequestHandleMap(prev);
      if end.ScanThrew? {
        return true;
      }
      var collRefs, end2 := GetRefIdToCollectionHandleMap(prev);
      if end2.ScanThrew? {
        return true;
      }
      var cm, rm := PlaceForest(collRefs, reqRefs, state, None, 0, map[], map[]);
      DropAbsent(collRefs, reqRefs, state);
      P.ReconcilePlaces(r0, prev, state);
      return false;
    }
  }
}
