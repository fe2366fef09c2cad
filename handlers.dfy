/**
 * What each store-event handler of the personal workspace provider does to the handle
 * registry, as pure functions of the registry before the event and the store's state after it.
 * The handlers' `for ... of entries()` passes decide each entry from that entry alone, so every
 * pass is a pointwise `Rule` applied to one map.
 */
module Handlers {
  import opened Wrappers
  import opened CollectionTree
  import opened HandleRegistry

  /** A handler either finishes or throws before it has changed anything. */
  datatype Outcome = Handled(next: Registry) | Threw

  /** How one pass rewrites an entry, given the handle and its entry before the pass. */
  datatype Rule =
      /** `removed` is deleted; later siblings under `parent` move down; with `dropChildren`, direct children of `removed` are deleted. */
    | ShiftAfterRemoval(removed: Handle, parent: Option<Handle>, index: int, dropChildren: bool)
      /** The entry under `parent` at `src` goes to `dest`; those in `src < index <= dest` move down. */
    | Reorder(parent: Option<Handle>, src: int, dest: int)
      /** `moved` goes to `dest`; its former later siblings under `oldParent` move down. */
    | Relocate(moved: Handle, target: Entry, oldParent: Option<Handle>, oldIndex: int)

  function Apply(rule: Rule, h: Handle, e: Entry): Option<Entry>
  {
    match rule
    case ShiftAfterRemoval(removed, p, i, dropChildren) =>
      if h == removed then None
      else if e.parent == p && e.index > i then Some(Entry(p, e.index - 1))
      else if dropChildren && e.parent == Some(removed) then None
      else Some(e)
    case Reorder(p, src, dest) =>
      if e.parent == p && e.index == src then Some(Entry(p, dest))
      else if e.parent == p && src < e.index <= dest then Some(Entry(p, e.index - 1))
      else Some(e)
    case Relocate(moved, dest, op, oi) =>
      if h == moved then Some(dest)
      else if e.parent == op && e.index > oi then Some(Entry(op, e.index - 1))
      else Some(e)
  }

  /** One pass of `rule` over `m`: the map holds exactly the entries the rule keeps, rewritten. */
  function Rewritten(m: map<Handle, Entry>, rule: Rule): (m': map<Handle, Entry>)
    ensures forall h :: h in m' <==> h in m && Apply(rule, h, m[h]).Some?
    ensures forall h :: h in m' ==> m'[h] == Apply(rule, h, m[h]).value
  {
    map h | h in m && Apply(rule, h, m[h]).Some? :: Apply(rule, h, m[h]).value
  }

  /** A relocation rewrites every entry and deletes none. */
  lemma RelocateKeepsKeys(m: map<Handle, Entry>, rule: Rule)
    requires rule.Relocate?
    ensures Rewritten(m, rule).Keys == m.Keys
  {
  }

  /** A pass of `rule` stopped before handle `h`: entries below `h` are rewritten, the others untouched. */
  ghost function PartlyRewritten(m: map<Handle, Entry>, rule: Rule, h: Handle): map<Handle, Entry>
  {
    map g | g in m && (g < h ==> Apply(rule, g, m[g]).Some?) :: if g < h then Apply(rule, g, m[g]).value else m[g]
  }

  /** Visiting handle `h` extends a stopped pass by one handle. */
  lemma PartlyRewrittenStep(m: map<Handle, Entry>, rule: Rule, h: Handle)
    ensures var m' := PartlyRewritten(m, rule, h);
      PartlyRewritten(m, rule, h + 1) ==
        if h !in m' then m'
        else match Apply(rule, h, m'[h])
          case None => m' - {h}
          case Some(e) => m'[h := e]
  {
  }

  /** A pass stopped past every handle of `m` is the whole pass. */
  lemma PartlyRewrittenDone(m: map<Handle, Entry>, rule: Rule, h: Handle)
    requires forall g :: g in m ==> g < h
    ensures PartlyRewritten(m, rule, h) == Rewritten(m, rule)
  {
  }

  /** A pass never adds a handle, so it keeps the registry valid. */
  lemma RewrittenValid(r: Registry, k: Kind, rule: Rule)
    requires Valid(r)
    ensures Valid(WithTable(r, k, Rewritten(Table(r, k), rule)))
  {
  }

  /**
   * The folder path a handler reads back from `path.slice(0, -1).join("/")`: joining no indices
   * gives the empty string, which `split("/").map(Number)` turns into `[0]`.
   */
  function Reparse(prefix: seq<int>): (p: seq<int>)
    ensures |p| > 0
    ensures prefix != [] ==> p == prefix
    ensures prefix == [] ==> p == [0]
  {
    if prefix == [] then [0] else prefix
  }

  /** `resolveRESTRequestHandleFromFolderPath`: the request under the resolved folder at the path's last index. */
  function RequestHandleAt(r: Registry, path: seq<int>): (h: Option<Handle>)
    requires |path| > 0
    ensures h.Some? ==> h.value in r.reqs && r.reqs[h.value].index == path[|path| - 1]
    ensures h.Some? ==> r.reqs[h.value].parent == ResolveFolderPath(r.colls, Reparse(path[..|path| - 1]), r.ticker)
    ensures h.Some? ==> forall g :: 0 < g < h.value && g in r.reqs ==>
      r.reqs[g] != Entry(ResolveFolderPath(r.colls, Reparse(path[..|path| - 1]), r.ticker), path[|path| - 1])
    ensures h.None? ==> forall g :: 0 < g < r.ticker && g in r.reqs ==>
      r.reqs[g] != Entry(ResolveFolderPath(r.colls, Reparse(path[..|path| - 1]), r.ticker), path[|path| - 1])
  {
    Find(r.reqs, Entry(ResolveFolderPath(r.colls, Reparse(path[..|path| - 1]), r.ticker), path[|path| - 1]), r.ticker)
  }

  /**
   * `handleFolderRemove`: the folder at `path` is deleted, its later siblings move down by one,
   * its direct children are deleted; grandchildren and every request handle are untouched.
   * Throws when the path resolves to no handle.
   */
  function FolderRemove(r: Registry, path: seq<int>): (o: Outcome)
    ensures o.Threw? <==> ResolveFolderPath(r.colls, path, r.ticker).None?
    ensures o.Handled? ==>
      var h := ResolveFolderPath(r.colls, path, r.ticker).value;
      var e := r.colls[h];
      && o.next.ticker == r.ticker && o.next.reqs == r.reqs
      && o.next.colls.Keys <= r.colls.Keys && h !in o.next.colls
      && (forall g :: g in r.colls && g != h && r.colls[g].parent == e.parent && r.colls[g].index > e.index ==>
            g in o.next.colls && o.next.colls[g] == Entry(e.parent, r.colls[g].index - 1))
      && (forall g :: g in r.colls && r.colls[g].parent == Some(h) && !(r.colls[g].parent == e.parent && r.colls[g].index > e.index) ==>
            g !in o.next.colls)
      && (forall g :: g in r.colls && g != h && r.colls[g].parent != Some(h) && !(r.colls[g].parent == e.parent && r.colls[g].index > e.index) ==>
            g in o.next.colls && o.next.colls[g] == r.colls[g])
  {
    match ResolveFolderPath(r.colls, path, r.ticker)
    case None => Threw
    case Some(h) =>
      var e := r.colls[h];
      Handled(r.(colls := Rewritten(r.colls, ShiftAfterRemoval(h, e.parent, e.index, true))))
  }

  /**
   * `handleRequestRemove`: the request at `folderPath/requestIndex` is deleted and its later
   * siblings move down by one; everything else is untouched. Throws when no request handle is found.
   */
  function RequestRemove(r: Registry, folderPath: seq<int>, requestIndex: int): (o: Outcome)
    requires |folderPath| > 0
    ensures o.Threw? <==> RequestHandleAt(r, folderPath + [requestIndex]).None?
    ensures o.Handled? ==>
      var h := RequestHandleAt(r, folderPath + [requestIndex]).value;
      var e := r.reqs[h];
      && o.next.ticker == r.ticker && o.next.colls == r.colls
      && o.next.reqs.Keys <= r.reqs.Keys && h !in o.next.reqs
      && (forall g :: g in r.reqs && g != h && r.reqs[g].parent == e.parent && r.reqs[g].index > e.index ==>
            g in o.next.reqs && o.next.reqs[g] == Entry(e.parent, r.reqs[g].index - 1))
      && (forall g :: g in r.reqs && g != h && !(r.reqs[g].parent == e.parent && r.reqs[g].index > e.index) ==>
            g in o.next.reqs && o.next.reqs[g] == r.reqs[g])
  {
    match RequestHandleAt(r, folderPath + [requestIndex])
    case None => Threw
    case Some(h) =>
      var e := r.reqs[h];
      Handled(r.(reqs := Rewritten(r.reqs, ShiftAfterRemoval(h, e.parent, e.index, false))))
  }

  /**
   * `handleFolderReorder`. The parent whose entries are rewritten is `null` for a root folder and,
   * for a nested one, the handle the whole source path resolves to: the moved folder itself.
   * A `null` destination means the last position, read from the parent folder in the store;
   * the store yields no folder for a root path, so a root reorder to the end throws.
   */
  function FolderReorder(r: Registry, state: seq<Collection>, srcPath: seq<int>, destPath: Option<seq<int>>): (o: Outcome)
    requires |srcPath| > 0 && (destPath.Some? ==> |destPath.value| > 0)
    ensures o.Threw? <==> destPath.None? && Navigate(state, srcPath[..|srcPath| - 1]).None?
    ensures o.Handled? ==>
      && o.next.ticker == r.ticker && o.next.reqs == r.reqs
      && o.next.colls == Rewritten(r.colls, Reorder(
           if |srcPath| > 1 then ResolveFolderPath(r.colls, srcPath, r.ticker) else None,
           srcPath[|srcPath| - 1],
           if destPath.Some? then destPath.value[|destPath.value| - 1]
           else |Navigate(state, srcPath[..|srcPath| - 1]).value.folders| - 1))
  {
    var srcIndex := srcPath[|srcPath| - 1];
    var srcParentFolder := Navigate(state, srcPath[..|srcPath| - 1]);
    if destPath.None? && srcParentFolder.None? then Threw
    else
      var dest := if destPath.Some? then destPath.value[|destPath.value| - 1] else |srcParentFolder.value.folders| - 1;
      var srcParentHandle := if |srcPath| > 1 then ResolveFolderPath(r.colls, srcPath, r.ticker) else None;
      Handled(r.(colls := Rewritten(r.colls, Reorder(srcParentHandle, srcIndex, dest))))
  }

  /**
   * `handleRequestReorder`: requests under the collection at `destCollectionPath` are reordered;
   * a `null` destination becomes the collection's request count in the store (one past its last
   * request), and throws when the store has no collection there.
   */
  function RequestReorder(r: Registry, state: seq<Collection>, destCollectionPath: seq<int>, src: int, dest: Option<int>): (o: Outcome)
    ensures o.Threw? <==> dest.None? && Navigate(state, destCollectionPath).None?
    ensures o.Handled? ==>
      && o.next.ticker == r.ticker && o.next.colls == r.colls
      && o.next.reqs == Rewritten(r.reqs, Reorder(ResolveFolderPath(r.colls, destCollectionPath, r.ticker), src,
           if dest.Some? then dest.value else |Navigate(state, destCollectionPath).value.requests|))
  {
    var destCollection := Navigate(state, destCollectionPath);
    if dest.None? && destCollection.None? then Threw
    else
      var actual := if dest.Some? then dest.value else |destCollection.value.requests|;
      Handled(r.(reqs := Rewritten(r.reqs, Reorder(ResolveFolderPath(r.colls, destCollectionPath, r.ticker), src, actual))))
  }

  /**
   * `handleFolderMove`: the folder at `srcPath` is registered as the last folder of the
   * destination (the root list when `destPath` is `null`); its former later siblings move down.
   * Throws when the destination is not a folder in the store or the source resolves to no handle.
   */
  function FolderMove(r: Registry, state: seq<Collection>, srcPath: seq<int>, destPath: Option<seq<int>>): (o: Outcome)
    ensures o.Threw? <==>
      || (destPath.Some? && Navigate(state, destPath.value).None?)
      || ResolveFolderPath(r.colls, srcPath, r.ticker).None?
    ensures o.Handled? ==>
      var h := ResolveFolderPath(r.colls, srcPath, r.ticker).value;
      var e := r.colls[h];
      var dest := if destPath.Some?
        then Entry(ResolveFolderPath(r.colls, destPath.value, r.ticker), |Navigate(state, destPath.value).value.folders| - 1)
        else Entry(None, |state| - 1);
      && o.next.ticker == r.ticker && o.next.reqs == r.reqs
      && o.next.colls.Keys == r.colls.Keys && o.next.colls[h] == dest
      && (forall g :: g in r.colls && g != h && r.colls[g].parent == e.parent && r.colls[g].index > e.index ==>
            g in o.next.colls && o.next.colls[g] == Entry(e.parent, r.colls[g].index - 1))
      && (forall g :: g in r.colls && g != h && !(r.colls[g].parent == e.parent && r.colls[g].index > e.index) ==>
            g in o.next.colls && o.next.colls[g] == r.colls[g])
  {
    var destHandle := if destPath.Some? then ResolveFolderPath(r.colls, destPath.value, r.ticker) else None;
    var destFolder := if destPath.Some? then Navigate(state, destPath.value) else None;
    if destPath.Some? && destFolder.None? then Threw
    else
      var destPosition := if destPath.Some? then |destFolder.value.folders| - 1 else |state| - 1;
      match ResolveFolderPath(r.colls, srcPath, r.ticker)
      case None => Threw
      case Some(h) =>
        var e := r.colls[h];
        var rule := Relocate(h, Entry(destHandle, destPosition), e.parent, e.index);
        RelocateKeepsKeys(r.colls, rule);
        Handled(r.(colls := Rewritten(r.colls, rule)))
  }

  /**
   * `handleRequestMove`: the request at `srcPath` is registered as the last request of the
   * collection at `destPath`; its former later siblings move down. Throws when the destination is
   * not a collection in the store or no request handle is found at the source.
   */
  function RequestMove(r: Registry, state: seq<Collection>, srcPath: seq<int>, destPath: seq<int>): (o: Outcome)
    requires |srcPath| > 0
    ensures o.Threw? <==> Navigate(state, destPath).None? || RequestHandleAt(r, srcPath).None?
    ensures o.Handled? ==>
      var h := RequestHandleAt(r, srcPath).value;
      var e := r.reqs[h];
      && o.next.ticker == r.ticker && o.next.colls == r.colls
      && o.next.reqs.Keys == r.reqs.Keys
      && o.next.reqs[h] == Entry(ResolveFolderPath(r.colls, destPath, r.ticker), |Navigate(state, destPath).value.requests| - 1)
      && (forall g :: g in r.reqs && g != h && r.reqs[g].parent == e.parent && r.reqs[g].index > e.index ==>
            g in o.next.reqs && o.next.reqs[g] == Entry(e.parent, r.reqs[g].index - 1))
      && (forall g :: g in r.reqs && g != h && !(r.reqs[g].parent == e.parent && r.reqs[g].index > e.index) ==>
            g in o.next.reqs && o.next.reqs[g] == r.reqs[g])
  {
    var destHandle := ResolveFolderPath(r.colls, destPath, r.ticker);
    match Navigate(state, destPath)
    case None => Threw
    case Some(destColl) =>
      match RequestHandleAt(r, srcPath)
      case None => Threw
      case Some(h) =>
        var e := r.reqs[h];
        var rule := Relocate(h, Entry(destHandle, |destColl.requests| - 1), e.parent, e.index);
        RelocateKeepsKeys(r.reqs, rule);
        Handled(r.(reqs := Rewritten(r.reqs, rule)))
  }

  /**
   * `handleFolderAdd`: one new handle for the last folder of the parent (the last root
   * collection when `parentPath` is `null`). Throws when the parent is not a folder in the store.
   */
  function FolderAdd(r: Registry, state: seq<Collection>, parentPath: Option<seq<int>>): (o: Outcome)
    requires Valid(r)
    ensures o.Threw? <==> parentPath.Some? && Navigate(state, parentPath.value).None?
    ensures o.Handled? ==>
      && Valid(o.next) && o.next.ticker == r.ticker + 1 && o.next.reqs == r.reqs
      && r.ticker !in r.colls
      && o.next.colls == r.colls[r.ticker := if parentPath.Some?
           then Entry(ResolveFolderPath(r.colls, parentPath.value, r.ticker), |Navigate(state, parentPath.value).value.folders| - 1)
           else Entry(None, |state| - 1)]
  {
    if parentPath.None? then Handled(Create(r, Collections, Entry(None, |state| - 1)).1)
    else match Navigate(state, parentPath.value)
      case None => Threw
      case Some(parent) => Handled(Create(r, Collections, Entry(ResolveFolderPath(r.colls, parentPath.value, r.ticker), |parent.folders| - 1)).1)
  }

  /**
   * `handleRequestAdd`: one new request handle for the last request of the collection at
   * `parentPath`. Throws when the store has no collection there.
   */
  function RequestAdd(r: Registry, state: seq<Collection>, parentPath: seq<int>): (o: Outcome)
    requires Valid(r)
    ensures o.Threw? <==> Navigate(state, parentPath).None?
    ensures o.Handled? ==>
      && Valid(o.next) && o.next.ticker == r.ticker + 1 && o.next.colls == r.colls
      && r.ticker !in r.reqs
      && o.next.reqs == r.reqs[r.ticker := Entry(ResolveFolderPath(r.colls, parentPath, r.ticker),
                                                 |Navigate(state, parentPath).value.requests| - 1)]
  {
    match Navigate(state, parentPath)
    case None => Threw
    case Some(parent) => Handled(Create(r, Requests, Entry(ResolveFolderPath(r.colls, parentPath, r.ticker), |parent.requests| - 1)).1)
  }

  /** One stack entry of `generateHandlesForCollections`: sibling collections and their parent's handle. */
  datatype Frame = Frame(colls: seq<Collection>, parent: Option<Handle>)

  /** The collections still to visit on a stack. */
  function StackSize(stack: seq<Frame>): nat
  {
    if stack == [] then 0 else StackSize(stack[..|stack| - 1]) + ForestSize(stack[|stack| - 1].colls)
  }

  lemma {:induction false} StackSizeAppend(a: seq<Frame>, b: seq<Frame>)
    ensures StackSize(a + b) == StackSize(a) + StackSize(b)
    decreases |b|
  {
    if b != [] {
      assert (a + b)[..|a + b| - 1] == a + b[..|b| - 1];
      StackSizeAppend(a, b[..|b| - 1]);
    } else {
      assert a + b == a;
    }
  }

  /** The request loop: handles for requests `j .. n-1` of the collection with handle `h`. */
  function RequestHandles(r: Registry, h: Handle, n: nat, j: nat): Registry
    decreases n - j
  {
    if j >= n then r else RequestHandles(GetOrCreate(r, Requests, Entry(Some(h), j)).1, h, n, j + 1)
  }

  /**
   * The body of one pop: for collections `i ..` of the frame, a collection handle at
   * `(parent, index + start)` (the offset is added at every depth), request handles under it,
   * and a new frame for its folders when it has any.
   */
  function Level(r: Registry, f: Frame, start: int, i: nat, pushed: seq<Frame>): (res: (Registry, seq<Frame>))
    decreases |f.colls| - i
    ensures i <= |f.colls| ==> StackSize(res.1) + |f.colls| - i == StackSize(pushed) + ForestSize(f.colls[i..])
    ensures i >= |f.colls| ==> res == (r, pushed)
  {
    if i >= |f.colls| then (r, pushed)
    else
      var c := f.colls[i];
      var (h, r1) := GetOrCreate(r, Collections, Entry(f.parent, i + start));
      var r2 := RequestHandles(r1, h, |c.requests|, 0);
      var pushed' := if |c.folders| > 0 then pushed + [Frame(c.folders, Some(h))] else pushed;
      assert f.colls[i..][0] == c && f.colls[i..][1..] == f.colls[i + 1..];
      assert StackSize(pushed') == StackSize(pushed) + ForestSize(c.folders) by {
        if |c.folders| > 0 {
          assert (pushed + [Frame(c.folders, Some(h))])[..|pushed|] == pushed;
        } else {
          assert ForestSize(c.folders) == 0;
        }
      }
      Level(r2, f, start, i + 1, pushed')
  }

  /** `generateHandlesForCollections` from a given stack: pop the last frame, process it, push its folders. */
  function Generate(r: Registry, stack: seq<Frame>, start: int): Registry
    decreases StackSize(stack), |stack|
  {
    if stack == [] then r
    else
      var top := stack[|stack| - 1];
      var rest := stack[..|stack| - 1];
      var (r', pushed) := Level(r, top, start, 0, []);
      assert top.colls[0..] == top.colls;
      StackSizeAppend(rest, pushed);
      Generate(r', rest + pushed, start)
  }

  /**
   * `generateHandlesForCollections(colls, start, parent)`: existing entries are kept, and every
   * collection of `colls`, every folder below it and every request anywhere in it gets a handle.
   */
  function GenerateHandles(r: Registry, colls: seq<Collection>, start: int, parent: Option<Handle>): Registry
  {
    Generate(r, [Frame(colls, parent)], start)
  }

  /** The `appendCollections` event: handles for the appended roots, starting at `length - entries.length - 1`. */
  function AppendCollections(r: Registry, state: seq<Collection>, entries: seq<Collection>): Registry
  {
    GenerateHandles(r, entries, |state| - |entries| - 1, None)
  }

  /** The store's `duplicateCollection` leaves the copy as the last folder of the parent (the last root at top level). */
  ghost predicate DuplicateInStore(state: seq<Collection>, folderPath: seq<int>)
    requires |folderPath| > 0
  {
    && |state| > 0
    && (Navigate(state, folderPath[..|folderPath| - 1]).Some? ==> |Navigate(state, folderPath[..|folderPath| - 1]).value.folders| > 0)
  }

  /**
   * `handleFolderDuplication`: handles for the copy, which the store appended as the last
   * folder of the duplicated folder's parent (as the last root when the registered parent is `null`).
   * Throws when the path resolves to no handle, or the parent path is not a folder in the store.
   */
  function FolderDuplication(r: Registry, state: seq<Collection>, folderPath: seq<int>): (o: Outcome)
    requires |folderPath| > 0 && DuplicateInStore(state, folderPath)
    ensures o.Threw? <==>
      || ResolveFolderPath(r.colls, folderPath, r.ticker).None?
      || (r.colls[ResolveFolderPath(r.colls, folderPath, r.ticker).value].parent.Some?
          && Navigate(state, folderPath[..|folderPath| - 1]).None?)
  {
    match ResolveFolderPath(r.colls, folderPath, r.ticker)
    case None => Threw
    case Some(h) =>
      var parent := r.colls[h].parent;
      if parent.Some? && Navigate(state, folderPath[..|folderPath| - 1]).None? then Threw
      else
        var siblings := if parent.Some? then Navigate(state, folderPath[..|folderPath| - 1]).value.folders else state;
        Handled(GenerateHandles(r, siblings[|siblings| - 1..], |siblings| - 1, parent))
  }

  /**
   * `r'` keeps every entry of `r` and registers the collection `c` at `(parent, start)`, its
   * requests under that handle and its folders below it (with the offset `start` at every depth).
   */
  ghost predicate Copied(r: Registry, r': Registry, c: Collection, parent: Option<Handle>, start: int)
  {
    && Extends(r, r') && Registered(r'.colls, Entry(parent, start))
    && NodeCovered(r', c, Entry(parent, start), start)
  }

  /** Generating handles for one collection registers it at `(parent, start)`, with everything below it. */
  lemma GenerateOne(r: Registry, r': Registry, cs: seq<Collection>, start: int, parent: Option<Handle>)
    requires Valid(r) && |cs| == 1 && r' == GenerateHandles(r, cs, start, parent)
    ensures Copied(r, r', cs[0], parent, start)
  {
    GenerateHandlesCovers(r, cs, start, parent);
    CoversFromAt(r', cs, parent, start, 0, 0);
    assert Entry(parent, 0 + 0 + start) == Entry(parent, start);
    var h := Find(r'.colls, Entry(parent, start), r'.ticker);
    assert h.value in r'.colls && r'.colls[h.value] == Entry(parent, start);
  }

  /**
   * A duplication that does not throw keeps every entry and registers the copy, the last of its
   * siblings, at its position under the duplicated folder's registered parent, with everything in it.
   */
  lemma FolderDuplicationCopies(r: Registry, state: seq<Collection>, folderPath: seq<int>)
    requires Valid(r) && |folderPath| > 0 && DuplicateInStore(state, folderPath)
    ensures FolderDuplication(r, state, folderPath).Handled? ==>
      var parent := r.colls[ResolveFolderPath(r.colls, folderPath, r.ticker).value].parent;
      var siblings := if parent.Some? then Navigate(state, folderPath[..|folderPath| - 1]).value.folders else state;
      Copied(r, FolderDuplication(r, state, folderPath).next, siblings[|siblings| - 1], parent, |siblings| - 1)
  {
    if FolderDuplication(r, state, folderPath).Handled? {
      var parent := r.colls[ResolveFolderPath(r.colls, folderPath, r.ticker).value].parent;
      var siblings := if parent.Some? then Navigate(state, folderPath[..|folderPath| - 1]).value.folders else state;
      var copy := siblings[|siblings| - 1..];
      DuplicationResult(r, state, folderPath, parent, siblings, copy);
      GenerateOne(r, FolderDuplication(r, state, folderPath).next, copy, |siblings| - 1, parent);
      assert copy[0] == siblings[|siblings| - 1];
    }
  }

  lemma DuplicationResult(r: Registry, state: seq<Collection>, folderPath: seq<int>, parent: Option<Handle>,
                          siblings: seq<Collection>, copy: seq<Collection>)
    requires |folderPath| > 0 && DuplicateInStore(state, folderPath)
    requires FolderDuplication(r, state, folderPath).Handled?
    requires parent == r.colls[ResolveFolderPath(r.colls, folderPath, r.ticker).value].parent
    requires siblings == if parent.Some? then Navigate(state, folderPath[..|folderPath| - 1]).value.folders else state
    requires |siblings| > 0 && copy == siblings[|siblings| - 1..]
    ensures FolderDuplication(r, state, folderPath).next == GenerateHandles(r, copy, |siblings| - 1, parent)
  {
  }


  /** Some handle of `m` is registered at `e`. */
  ghost predicate Registered(m: map<Handle, Entry>, e: Entry)
  {
    exists g :: g in m && m[g] == e
  }

  /** `r'` is valid and keeps every entry of `r`, with a ticker no smaller: handles were only added. */
  ghost predicate Extends(r: Registry, r': Registry)
  {
    && Valid(r') && r.ticker <= r'.ticker
    && (forall h :: h in r.colls ==> h in r'.colls && r'.colls[h] == r.colls[h])
    && (forall h :: h in r.reqs ==> h in r'.reqs && r'.reqs[h] == r.reqs[h])
    && (forall h :: h in r'.colls && h !in r.colls ==> h >= r.ticker)
    && (forall h :: h in r'.reqs && h !in r.reqs ==> h >= r.ticker)
  }

  lemma GetOrCreateExtends(r: Registry, k: Kind, e: Entry)
    requires Valid(r)
    ensures var (h, r') := GetOrCreate(r, k, e); Extends(r, r') && h in Table(r', k) && Table(r', k)[h] == e
  {
    GetOrCreateFindsOrMints(r, k, e);
    if Find(Table(r, k), e, r.ticker).None? {
      CreateFresh(r, k, e);
    }
  }

  lemma {:induction false} RequestHandlesExtends(r: Registry, h: Handle, n: nat, j: nat)
    requires Valid(r)
    ensures var r' := RequestHandles(r, h, n, j);
      && Extends(r, r') && r'.colls == r.colls
      && forall q :: j <= q < n ==> Registered(r'.reqs, Entry(Some(h), q))
    decreases n - j
  {
    if j < n {
      var (g, r1) := GetOrCreate(r, Requests, Entry(Some(h), j));
      GetOrCreateExtends(r, Requests, Entry(Some(h), j));
      GetOrCreateFindsOrMints(r, Requests, Entry(Some(h), j));
      RequestHandlesExtends(r1, h, n, j + 1);
      var r' := RequestHandles(r1, h, n, j + 1);
      assert g in r'.reqs && r'.reqs[g] == Entry(Some(h), j);
    }
  }

  lemma {:induction false} LevelExtends(r: Registry, f: Frame, start: int, i: nat, pushed: seq<Frame>)
    requires Valid(r)
    ensures var r' := Level(r, f, start, i, pushed).0;
      && Extends(r, r')
      && forall q :: i + start <= q < |f.colls| + start ==> Registered(r'.colls, Entry(f.parent, q))
    decreases |f.colls| - i
  {
    if i < |f.colls| {
      var c := f.colls[i];
      var (h, r1) := GetOrCreate(r, Collections, Entry(f.parent, i + start));
      GetOrCreateExtends(r, Collections, Entry(f.parent, i + start));
      var r2 := RequestHandles(r1, h, |c.requests|, 0);
      RequestHandlesExtends(r1, h, |c.requests|, 0);
      var pushed' := if |c.folders| > 0 then pushed + [Frame(c.folders, Some(h))] else pushed;
      LevelExtends(r2, f, start, i + 1, pushed');
      var r' := Level(r2, f, start, i + 1, pushed').0;
      assert h in r'.colls && r'.colls[h] == Entry(f.parent, i + start);
    }
  }

  lemma {:induction false} GenerateExtends(r: Registry, stack: seq<Frame>, start: int)
    requires Valid(r)
    ensures Extends(r, Generate(r, stack, start))
    decreases StackSize(stack), |stack|
  {
    if stack != [] {
      var top := stack[|stack| - 1];
      var rest := stack[..|stack| - 1];
      var (r', pushed) := Level(r, top, start, 0, []);
      LevelExtends(r, top, start, 0, []);
      assert top.colls[0..] == top.colls;
      StackSizeAppend(rest, pushed);
      GenerateExtends(r', rest + pushed, start);
    }
  }

  /**
   * What generation leaves behind for the collections `cs[0..]`, the `idx`-th and later children of
   * `parent`: each has a handle at its index plus `start`, each of its requests a handle at its
   * own index under that one, and its folders are covered in turn under that handle. The handle
   * meant is the one a lookup finds, which is the one `getOrCreate` returned.
   */
  ghost predicate CoversFrom(r: Registry, cs: seq<Collection>, parent: Option<Handle>, start: int, idx: int)
    decreases ForestSize(cs), 1
  {
    cs != [] ==> NodeCovered(r, cs[0], Entry(parent, idx + start), start) && CoversFrom(r, cs[1..], parent, start, idx + 1)
  }

  /** The collection `c` is registered at `e`, and its requests and folders below that handle. */
  ghost predicate NodeCovered(r: Registry, c: Collection, e: Entry, start: int)
    decreases ForestSize(c.folders) + 1, 0
  {
    var h := Find(r.colls, e, r.ticker);
    && h.Some?
    && (forall q :: 0 <= q < |c.requests| ==> Registered(r.reqs, Entry(h, q)))
    && CoversFrom(r, c.folders, h, start, 0)
  }

  /** Each collection of `cs` is covered at its own position `idx + j`. */
  ghost predicate EachCovered(r: Registry, cs: seq<Collection>, parent: Option<Handle>, start: int, idx: int)
  {
    forall j :: 0 <= j < |cs| ==> NodeCovered(r, cs[j], Entry(parent, idx + j + start), start)
  }

  lemma {:induction false} CoversFromEach(r: Registry, cs: seq<Collection>, parent: Option<Handle>, start: int, idx: int)
    requires EachCovered(r, cs, parent, start, idx)
    ensures CoversFrom(r, cs, parent, start, idx)
    decreases |cs|
  {
    if cs != [] {
      assert NodeCovered(r, cs[0], Entry(parent, idx + 0 + start), start);
      forall j | 0 <= j < |cs[1..]| ensures NodeCovered(r, cs[1..][j], Entry(parent, idx + 1 + j + start), start) {
        assert cs[1..][j] == cs[j + 1];
        assert idx + 1 + j == idx + (j + 1);
      }
      CoversFromEach(r, cs[1..], parent, start, idx + 1);
    }
  }

  /** Covered collections can be read off one by one. */
  lemma {:induction false} CoversFromAt(r: Registry, cs: seq<Collection>, parent: Option<Handle>, start: int, idx: int, j: nat)
    requires CoversFrom(r, cs, parent, start, idx) && j < |cs|
    ensures NodeCovered(r, cs[j], Entry(parent, idx + j + start), start)
    decreases j
  {
    if j > 0 {
      assert cs[1..][j - 1] == cs[j];
      CoversFromAt(r, cs[1..], parent, start, idx + 1, j - 1);
    }
  }

  /** After `getOrCreate` the pair's lookup finds the handle it returned. */
  lemma GetOrCreateFound(r: Registry, k: Kind, e: Entry)
    requires Valid(r)
    ensures var (h, r') := GetOrCreate(r, k, e); Find(Table(r', k), e, r'.ticker) == Some(h)
  {
    GetOrCreateFindsOrMints(r, k, e);
    var (h, r') := GetOrCreate(r, k, e);
    assert h in Table(r', k) && 0 < h < r'.ticker;
    if Find(Table(r, k), e, r.ticker).None? {
      CreateFresh(r, k, e);
    }
  }

  /** The handle a lookup finds for child `j` of frame `f`. */
  ghost function ChildHandle(r: Registry, f: Frame, start: int, j: int): Option<Handle>
  {
    Find(r.colls, Entry(f.parent, j + start), r.ticker)
  }

  /** One frame's loop keeps the frames pushed before it in front. */
  lemma {:induction false} LevelKeepsPushed(r: Registry, f: Frame, start: int, i: nat, pushed: seq<Frame>)
    ensures var pushed' := Level(r, f, start, i, pushed).1;
      |pushed| <= |pushed'| && pushed'[..|pushed|] == pushed
    decreases |f.colls| - i
  {
    if i < |f.colls| {
      var c := f.colls[i];
      var (h, r1) := GetOrCreate(r, Collections, Entry(f.parent, i + start));
      var r2 := RequestHandles(r1, h, |c.requests|, 0);
      var mid := if |c.folders| > 0 then pushed + [Frame(c.folders, Some(h))] else pushed;
      LevelKeepsPushed(r2, f, start, i + 1, mid);
      var pushed' := Level(r2, f, start, i + 1, mid).1;
      assert pushed'[..|pushed|] == pushed'[..|mid|][..|pushed|];
    } else {
      assert pushed[..|pushed|] == pushed;
    }
  }

  /** One step of a frame's loop: child `i`'s handle is found, with its requests, in the final registry. */
  lemma LevelStep(r: Registry, f: Frame, start: int, i: nat, pushed: seq<Frame>)
    requires Valid(r) && i < |f.colls|
    ensures var (h, r1) := GetOrCreate(r, Collections, Entry(f.parent, i + start));
      var r2 := RequestHandles(r1, h, |f.colls[i].requests|, 0);
      var r' := Level(r, f, start, i, pushed).0;
      && Valid(r2)
      && ChildHandle(r', f, start, i) == Some(h)
      && (forall q :: 0 <= q < |f.colls[i].requests| ==> Registered(r'.reqs, Entry(Some(h), q)))
  {
    var c := f.colls[i];
    var e := Entry(f.parent, i + start);
    var (h, r1) := GetOrCreate(r, Collections, e);
    GetOrCreateExtends(r, Collections, e);
    GetOrCreateFound(r, Collections, e);
    var r2 := RequestHandles(r1, h, |c.requests|, 0);
    RequestHandlesExtends(r1, h, |c.requests|, 0);
    FindStable(r1, r2, Collections, e);
    var mid := if |c.folders| > 0 then pushed + [Frame(c.folders, Some(h))] else pushed;
    LevelExtends(r2, f, start, i + 1, mid);
    var r' := Level(r2, f, start, i + 1, mid).0;
    FindStable(r2, r', Collections, e);
    forall q | 0 <= q < |c.requests| ensures Registered(r'.reqs, Entry(Some(h), q)) {
      var g :| g in r2.reqs && r2.reqs[g] == Entry(Some(h), q);
    }
  }

  /**
   * One frame's loop, from child `i` on: each child gets a handle its pair's lookup finds and
   * its requests are registered under it.
   */
  lemma {:induction false} LevelRegisters(r: Registry, f: Frame, start: int, i: nat, pushed: seq<Frame>)
    requires Valid(r)
    ensures var r' := Level(r, f, start, i, pushed).0;
      forall j :: i <= j < |f.colls| ==>
        && ChildHandle(r', f, start, j).Some?
        && forall q :: 0 <= q < |f.colls[j].requests| ==> Registered(r'.reqs, Entry(ChildHandle(r', f, start, j), q))
    decreases |f.colls| - i
  {
    if i < |f.colls| {
      var c := f.colls[i];
      var e := Entry(f.parent, i + start);
      var (h, r1) := GetOrCreate(r, Collections, e);
      var r2 := RequestHandles(r1, h, |c.requests|, 0);
      var mid := if |c.folders| > 0 then pushed + [Frame(c.folders, Some(h))] else pushed;
      LevelStep(r, f, start, i, pushed);
      LevelRegisters(r2, f, start, i + 1, mid);
    }
  }

  /** One frame's loop pushes, behind the earlier frames, a frame for each child with folders, under its handle. */
  lemma {:induction false} LevelPushes(r: Registry, f: Frame, start: int, i: nat, pushed: seq<Frame>)
    requires Valid(r)
    ensures |pushed| <= |Level(r, f, start, i, pushed).1|
    ensures var (r', pushed') := Level(r, f, start, i, pushed);
      forall j :: i <= j < |f.colls| && |f.colls[j].folders| > 0 ==>
        Frame(f.colls[j].folders, ChildHandle(r', f, start, j)) in pushed'[|pushed|..]
    decreases |f.colls| - i
  {
    LevelKeepsPushed(r, f, start, i, pushed);
    if i < |f.colls| {
      var c := f.colls[i];
      var e := Entry(f.parent, i + start);
      var (h, r1) := GetOrCreate(r, Collections, e);
      var r2 := RequestHandles(r1, h, |c.requests|, 0);
      var mid := if |c.folders| > 0 then pushed + [Frame(c.folders, Some(h))] else pushed;
      LevelStep(r, f, start, i, pushed);
      LevelPushes(r2, f, start, i + 1, mid);
      LevelKeepsPushed(r2, f, start, i + 1, mid);
      var (r', pushed') := Level(r2, f, start, i + 1, mid);
      if |c.folders| > 0 {
        assert pushed'[|pushed|..][0] == pushed'[..|mid|][|pushed|];
      }
      forall j | i + 1 <= j < |f.colls| && |f.colls[j].folders| > 0
        ensures Frame(f.colls[j].folders, ChildHandle(r', f, start, j)) in pushed'[|pushed|..]
      {
        var x := Frame(f.colls[j].folders, ChildHandle(r', f, start, j));
        var k :| |mid| <= k < |pushed'| && pushed'[k] == x;
        assert pushed'[|pushed|..][k - |pushed|] == x;
      }
    }
  }

  /** Every frame of `stack` is covered in `r`. */
  ghost predicate StackCovered(r: Registry, stack: seq<Frame>, start: int)
  {
    forall k :: 0 <= k < |stack| ==> CoversFrom(r, stack[k].colls, stack[k].parent, start, 0)
  }

  /** The frames below the pushed ones stay covered, and the popped frame joins them. */
  lemma StackCoveredSplit(r: Registry, rest: seq<Frame>, pushed: seq<Frame>, top: Frame, start: int)
    requires StackCovered(r, rest + pushed, start) && CoversFrom(r, top.colls, top.parent, start, 0)
    ensures StackCovered(r, rest + [top], start)
  {
    forall k | 0 <= k < |rest + [top]| ensures CoversFrom(r, (rest + [top])[k].colls, (rest + [top])[k].parent, start, 0) {
      if k < |rest| {
        assert (rest + pushed)[k] == (rest + [top])[k];
      }
    }
  }

  /** A frame left on the stack is covered wherever the whole stack is. */
  lemma PushedCovered(r: Registry, rest: seq<Frame>, pushed: seq<Frame>, x: Frame, start: int)
    requires StackCovered(r, rest + pushed, start) && x in pushed
    ensures CoversFrom(r, x.colls, x.parent, start, 0)
  {
    var m :| 0 <= m < |pushed| && pushed[m] == x;
    assert (rest + pushed)[|rest| + m] == x;
  }

  /**
   * A child the popped frame registered, with its requests, and whose folders it pushed, is
   * covered in any extension that covers the frames left on the stack.
   */
  lemma CoverChild(r1: Registry, r': Registry, top: Frame, start: int, j: nat, rest: seq<Frame>, pushed: seq<Frame>)
    requires Valid(r1) && Extends(r1, r') && StackCovered(r', rest + pushed, start) && j < |top.colls|
    requires ChildHandle(r1, top, start, j).Some?
    requires forall q :: 0 <= q < |top.colls[j].requests| ==> Registered(r1.reqs, Entry(ChildHandle(r1, top, start, j), q))
    requires |top.colls[j].folders| > 0 ==> Frame(top.colls[j].folders, ChildHandle(r1, top, start, j)) in pushed
    ensures NodeCovered(r', top.colls[j], Entry(top.parent, 0 + j + start), start)
  {
    var e := Entry(top.parent, j + start);
    FindStable(r1, r', Collections, e);
    var h := Find(r'.colls, e, r'.ticker);
    assert h == ChildHandle(r1, top, start, j);
    forall q | 0 <= q < |top.colls[j].requests| ensures Registered(r'.reqs, Entry(h, q)) {
      assert Registered(r1.reqs, Entry(h, q));
      var g :| g in r1.reqs && r1.reqs[g] == Entry(h, q);
      assert r'.reqs[g] == Entry(h, q);
    }
    if |top.colls[j].folders| > 0 {
      PushedCovered(r', rest, pushed, Frame(top.colls[j].folders, h), start);
    }
    assert 0 + j + start == j + start;
  }

  /** The popped frame's children are covered in any extension that covers the frames left on the stack. */
  lemma CoverChildren(r: Registry, top: Frame, start: int, rest: seq<Frame>, r': Registry)
    requires Valid(r)
    requires var (r1, pushed) := Level(r, top, start, 0, []);
      Extends(r1, r') && StackCovered(r', rest + pushed, start)
    ensures EachCovered(r', top.colls, top.parent, start, 0)
  {
    var (r1, pushed) := Level(r, top, start, 0, []);
    LevelRegisters(r, top, start, 0, []);
    LevelPushes(r, top, start, 0, []);
    LevelExtends(r, top, start, 0, []);
    assert pushed[0..] == pushed;
    forall j | 0 <= j < |top.colls| ensures NodeCovered(r', top.colls[j], Entry(top.parent, 0 + j + start), start) {
      CoverChild(r1, r', top, start, j, rest, pushed);
    }
  }

  /**
   * The stack loop covers every frame on the stack: each collection of a frame, every request in
   * it and everything below it has a handle.
   */
  lemma {:induction false} GenerateCovers(r: Registry, stack: seq<Frame>, start: int)
    requires Valid(r)
    ensures StackCovered(Generate(r, stack, start), stack, start)
    decreases StackSize(stack), |stack|
  {
    if stack != [] {
      var top := stack[|stack| - 1];
      var rest := stack[..|stack| - 1];
      assert rest + [top] == stack;
      var (r1, pushed) := Level(r, top, start, 0, []);
      LevelExtends(r, top, start, 0, []);
      assert top.colls[0..] == top.colls;
      StackSizeAppend(rest, pushed);
      GenerateCovers(r1, rest + pushed, start);
      var r' := Generate(r1, rest + pushed, start);
      assert r' == Generate(r, stack, start);
      GenerateExtends(r1, rest + pushed, start);
      CoverChildren(r, top, start, rest, r');
      CoversFromEach(r', top.colls, top.parent, start, 0);
      StackCoveredSplit(r', rest, pushed, top, start);
    }
  }

  /**
   * Generating handles keeps every existing entry, and leaves every collection of the list, every
   * folder below it and every request anywhere in it with a handle.
   */
  lemma GenerateHandlesCovers(r: Registry, colls: seq<Collection>, start: int, parent: Option<Handle>)
    requires Valid(r)
    ensures Extends(r, GenerateHandles(r, colls, start, parent))
    ensures CoversFrom(GenerateHandles(r, colls, start, parent), colls, parent, start, 0)
  {
    GenerateExtends(r, [Frame(colls, parent)], start);
    GenerateCovers(r, [Frame(colls, parent)], start);
  }

  /**
   * The offset is added at every depth: duplicating a collection into position 2 registers its
   * only folder at index 2 under the copy, although the folder is the copy's child 0.
   */
  lemma GenerateOffsetAtEveryDepth()
    ensures var leaf := Collection("b", "B", [], []);
      var top := Collection("a", "A", [leaf], []);
      GenerateHandles(Registry(1, map[], map[]), [top], 2, None)
        == Registry(3, map[1 := Entry(None, 2), 2 := Entry(Some(1), 2)], map[])
  {
    var leaf := Collection("b", "B", [], []);
    var top := Collection("a", "A", [leaf], []);
    var r0 := Registry(1, map[], map[]);
    var r1 := Registry(2, map[1 := Entry(None, 2)], map[]);
    var r2 := Registry(3, map[1 := Entry(None, 2), 2 := Entry(Some(1), 2)], map[]);
    var f0, f1 := Frame([top], None), Frame([leaf], Some(1));
    assert Find(r0.colls, Entry(None, 2), 1) == None;
    assert GetOrCreate(r0, Collections, Entry(None, 2)) == (1, r1);
    assert RequestHandles(r1, 1, 0, 0) == r1;
    assert Level(r1, f0, 2, 1, [f1]) == (r1, [f1]);
    assert Level(r0, f0, 2, 0, []) == (r1, [f1]);
    assert FindFrom(r1.colls, Entry(Some(1), 2), 2, 2) == None;
    assert Find(r1.colls, Entry(Some(1), 2), 2) == None;
    assert GetOrCreate(r1, Collections, Entry(Some(1), 2)) == (2, r2);
    assert RequestHandles(r2, 2, 0, 0) == r2;
    assert Level(r2, f1, 2, 1, []) == (r2, []);
    assert Level(r1, f1, 2, 0, []) == (r2, []);
    assert [f0][..0] + [f1] == [f1];
    assert [f1][..0] + [] == [];
    assert Generate(r2, [], 2) == r2;
    assert Generate(r1, [f1], 2) == r2;
  }

  /**
   * Appending starts one position too early: with root 0 registered, appending a second root
   * finds root 0's handle at index 0 and registers nothing at index 1.
   */
  lemma AppendStartsOneEarly()
    ensures var a := Collection("a", "A", [], []);
      var b := Collection("b", "B", [], []);
      var r := Registry(2, map[1 := Entry(None, 0)], map[]);
      && AppendCollections(r, [a, b], [b]) == r
      && !Registered(AppendCollections(r, [a, b], [b]).colls, Entry(None, 1))
  {
    var b := Collection("b", "B", [], []);
    var r := Registry(2, map[1 := Entry(None, 0)], map[]);
    assert Find(r.colls, Entry(None, 0), 2) == Some(1);
    assert GetOrCreate(r, Collections, Entry(None, 0)) == (1, r);
    assert RequestHandles(r, 1, 0, 0) == r;
    assert Level(r, Frame([b], None), 0, 1, []) == (r, []);
    assert Level(r, Frame([b], None), 0, 0, []) == (r, []);
    assert [Frame([b], None)][..0] + [] == [];
    assert Generate(r, [], 0) == r;
  }

  /**
   * Appending keeps every entry and registers each appended root, everything inside it and
   * every request in it, at the positions counted from `length - entries.length - 1`.
   */
  lemma AppendCollectionsCovers(r: Registry, state: seq<Collection>, entries: seq<Collection>)
    requires Valid(r)
    ensures Extends(r, AppendCollections(r, state, entries))
    ensures CoversFrom(AppendCollections(r, state, entries), entries, None, |state| - |entries| - 1, 0)
  {
    var start := |state| - |entries| - 1;
    assert AppendCollections(r, state, entries) == GenerateHandles(r, entries, start, None);
    GenerateHandlesCovers(r, entries, start, None);
  }

  /** The store's removal of the sibling at `i`. */
  function RemoveAt<T>(s: seq<T>, i: int): (t: seq<T>)
    requires 0 <= i < |s|
    ensures |t| == |s| - 1
  {
    s[..i] + s[i + 1..]
  }

  /** The store's reorder of siblings: the one at `src` is taken out and put back at `dest`. */
  function MoveTo<T>(s: seq<T>, src: int, dest: int): (t: seq<T>)
    requires 0 <= src < |s| && 0 <= dest < |s|
    ensures |t| == |s|
  {
    var rest := RemoveAt(s, src);
    rest[..dest] + [s[src]] + rest[dest..]
  }

  /**
   * Removal keeps every sibling's handle on its node: when the store drops sibling `i` of
   * `sibs`, each other sibling handle ends up under the same parent at the index that the same
   * sibling has in the shortened list.
   */
  lemma RemovalTracksSiblings<T>(m: map<Handle, Entry>, h: Handle, dropChildren: bool, sibs: seq<T>)
    requires Injective(m) && h in m && m[h].parent != Some(h) && 0 <= m[h].index < |sibs|
    ensures var e := m[h]; var m' := Rewritten(m, ShiftAfterRemoval(h, e.parent, e.index, dropChildren));
      forall g :: g in m && g != h && m[g].parent == e.parent && 0 <= m[g].index < |sibs| ==>
        && g in m' && m'[g].parent == e.parent && 0 <= m'[g].index < |sibs| - 1
        && RemoveAt(sibs, e.index)[m'[g].index] == sibs[m[g].index]
  {
    var e := m[h];
    forall g | g in m && g != h && m[g].parent == e.parent && 0 <= m[g].index < |sibs|
      ensures m[g].index != e.index
    {
      assert m[g] != m[h];
    }
  }

  /**
   * A forward reorder keeps every sibling's handle on its node: when the store moves sibling
   * `src` to position `dest` (not before `src`), each sibling handle gets the index that the same
   * sibling has in the reordered list.
   */
  lemma ReorderTracksSiblings<T>(m: map<Handle, Entry>, p: Option<Handle>, src: int, dest: int, sibs: seq<T>)
    requires 0 <= src <= dest < |sibs|
    ensures var m' := Rewritten(m, Reorder(p, src, dest));
      forall g :: g in m && m[g].parent == p && 0 <= m[g].index < |sibs| ==>
        && g in m' && m'[g].parent == p && 0 <= m'[g].index < |sibs|
        && MoveTo(sibs, src, dest)[m'[g].index] == sibs[m[g].index]
  {
  }

  /**
   * A backward reorder shifts nothing: the moved sibling lands on the index of the sibling
   * already at `dest`, and the two handles then share one entry.
   */
  lemma ReorderBackwardCollides(m: map<Handle, Entry>, p: Option<Handle>, src: int, dest: int, moved: Handle, other: Handle)
    requires dest < src
    requires moved in m && m[moved] == Entry(p, src) && other in m && m[other] == Entry(p, dest)
    ensures var m' := Rewritten(m, Reorder(p, src, dest));
      && moved != other && moved in m' && other in m' && m'[moved] == m'[other] && !Injective(m')
  {
  }

  /**
   * A move keeps the handles on their nodes: the moved handle names the node the store appended
   * to the destination, and each former sibling gets the index that the same sibling has once
   * the moved one is gone.
   */
  lemma RelocateTracks<T>(m: map<Handle, Entry>, h: Handle, target: Entry, sibs: seq<T>, destSibs: seq<T>)
    requires Injective(m) && h in m && 0 <= m[h].index < |sibs| && target.index == |destSibs|
    ensures var e := m[h]; var m' := Rewritten(m, Relocate(h, target, e.parent, e.index));
      && h in m' && m'[h] == target && (destSibs + [sibs[e.index]])[m'[h].index] == sibs[e.index]
      && forall g :: g in m && g != h && m[g].parent == e.parent && 0 <= m[g].index < |sibs| ==>
        && g in m' && m'[g].parent == e.parent && 0 <= m'[g].index < |sibs| - 1
        && RemoveAt(sibs, e.index)[m'[g].index] == sibs[m[g].index]
  {
    var e := m[h];
    forall g | g in m && g != h && m[g].parent == e.parent && 0 <= m[g].index < |sibs|
      ensures m[g].index != e.index
    {
      assert m[g] != m[h];
    }
  }

  /**
   * Reordering a nested folder rewrites the entries under the moved folder's own handle: with
   * folders 0/0 and 0/1 registered, swapping them changes no entry.
   */
  lemma NestedReorderUsesOwnHandle()
    ensures var b := Collection("b", "B", [], []);
      var c := Collection("c", "C", [], []);
      var a := Collection("a", "A", [b, c], []);
      var r := Registry(4, map[1 := Entry(None, 0), 2 := Entry(Some(1), 0), 3 := Entry(Some(1), 1)], map[]);
      FolderReorder(r, [a], [0, 0], Some([0, 1])) == Handled(r)
  {
    var r := Registry(4, map[1 := Entry(None, 0), 2 := Entry(Some(1), 0), 3 := Entry(Some(1), 1)], map[]);
    assert [0, 0][..1] == [0] && [0][..0] == [];
    assert Find(r.colls, Entry(None, 0), 4) == Some(1);
    assert FindFrom(r.colls, Entry(Some(1), 0), 2, 4) == Some(2);
    assert ResolveFolderPath(r.colls, [0, 0], 4) == Some(2);
    assert Rewritten(r.colls, Reorder(Some(2), 0, 1)) == r.colls;
  }

  /**
   * A request reorder with no destination index sends the request to the collection's request
   * count, one past its last index: of two requests, the first lands at index 2.
   */
  lemma RequestReorderToCount()
    ensures var a := Collection("a", "A", [], [Request("x", "X", "GET"), Request("y", "Y", "GET")]);
      var r := Registry(4, map[1 := Entry(None, 0)], map[2 := Entry(Some(1), 0), 3 := Entry(Some(1), 1)]);
      var o := RequestReorder(r, [a], [0], 0, None);
      && o.Handled? && o.next.reqs == map[2 := Entry(Some(1), 2), 3 := Entry(Some(1), 0)]
      && o.next.reqs[2].index == |a.requests|
  {
    var r := Registry(4, map[1 := Entry(None, 0)], map[2 := Entry(Some(1), 0), 3 := Entry(Some(1), 1)]);
    assert [0][..0] == [] && [0][1..] == [];
    assert ResolveFolderPath(r.colls, [0], 4) == Some(1);
  }

  lemma ExtendsTransitive(r1: Registry, r2: Registry, r3: Registry)
    requires Extends(r1, r2) && Extends(r2, r3)
    ensures Extends(r1, r3)
  {
  }

  /** A handle found for a pair is still the one found after handles were only added. */
  lemma FindStable(r: Registry, r': Registry, k: Kind, e: Entry)
    requires Valid(r) && Extends(r, r') && Find(Table(r, k), e, r.ticker).Some?
    ensures Find(Table(r', k), e, r'.ticker) == Find(Table(r, k), e, r.ticker)
  {
    var h := Find(Table(r, k), e, r.ticker).value;
    assert h in Table(r', k) && Table(r', k)[h] == e;
    var f := Find(Table(r', k), e, r'.ticker);
    assert f.Some? && f.value <= h;
  }

  /**
   * The getters' listing loop: `getOrCreate` for entries `(parent, i) .. (parent, n-1)`,
   * collecting the handles.
   */
  function Listing(r: Registry, k: Kind, parent: Option<Handle>, n: nat, i: nat, acc: seq<Handle>): (Registry, seq<Handle>)
    decreases n - i
  {
    if i >= n then (r, acc)
    else
      var (h, r') := GetOrCreate(r, k, Entry(parent, i));
      Listing(r', k, parent, n, i + 1, acc + [h])
  }

  /** A listing only adds entries of its own kind, and yields one handle per position after `acc`. */
  lemma {:induction false} ListingKeeps(r: Registry, k: Kind, parent: Option<Handle>, n: nat, i: nat, acc: seq<Handle>)
    requires Valid(r) && i <= n
    ensures var (r', hs) := Listing(r, k, parent, n, i, acc);
      && Extends(r, r') && Table(r', if k.Collections? then Requests else Collections) == Table(r, if k.Collections? then Requests else Collections)
      && |hs| == |acc| + n - i && hs[..|acc|] == acc
    decreases n - i
  {
    if i < n {
      var e := Entry(parent, i);
      var (h, r1) := GetOrCreate(r, k, e);
      GetOrCreateExtends(r, k, e);
      ListingKeeps(r1, k, parent, n, i + 1, acc + [h]);
      var (r', hs) := Listing(r1, k, parent, n, i + 1, acc + [h]);
      ExtendsTransitive(r, r1, r');
      assert hs[..|acc| + 1] == acc + [h];
      assert hs[..|acc|] == (acc + [h])[..|acc|];
    } else {
      assert acc[..|acc|] == acc;
    }
  }

  /** Handle `j` of a listing is registered at `(parent, j)`, and it is the one a later lookup of that pair finds. */
  lemma {:induction false} ListingFinds(r: Registry, k: Kind, parent: Option<Handle>, n: nat, i: nat, acc: seq<Handle>)
    requires Valid(r) && i <= n
    ensures var (r', hs) := Listing(r, k, parent, n, i, acc);
      forall j :: |acc| <= j < |hs| ==>
        && hs[j] in Table(r', k) && Table(r', k)[hs[j]] == Entry(parent, j - |acc| + i)
        && Find(Table(r', k), Entry(parent, j - |acc| + i), r'.ticker) == Some(hs[j])
    decreases n - i
  {
    if i < n {
      var e := Entry(parent, i);
      var (h, r1) := GetOrCreate(r, k, e);
      GetOrCreateExtends(r, k, e);
      GetOrCreateIdempotent(r, k, e);
      assert Find(Table(r1, k), e, r1.ticker) == Some(h);
      ListingKeeps(r1, k, parent, n, i + 1, acc + [h]);
      ListingFinds(r1, k, parent, n, i + 1, acc + [h]);
      var (r', hs) := Listing(r1, k, parent, n, i + 1, acc + [h]);
      FindStable(r1, r', k, e);
      assert hs[|acc|] == (acc + [h])[|acc|];
    }
  }

  /**
   * A listing yields one handle per position: handle `j` is registered at `(parent, j)`, and
   * it is the one a later lookup of that pair finds. Existing entries are kept and the other map is untouched.
   */
  lemma ListingRegisters(r: Registry, k: Kind, parent: Option<Handle>, n: nat, i: nat, acc: seq<Handle>)
    requires Valid(r) && i <= n
    ensures var (r', hs) := Listing(r, k, parent, n, i, acc);
      && Extends(r, r') && Table(r', if k.Collections? then Requests else Collections) == Table(r, if k.Collections? then Requests else Collections)
      && |hs| == |acc| + n - i && hs[..|acc|] == acc
      && (forall j :: |acc| <= j < |hs| ==> hs[j] in Table(r', k) && Table(r', k)[hs[j]] == Entry(parent, j - |acc| + i))
      && (forall j :: |acc| <= j < |hs| ==> Find(Table(r', k), Entry(parent, j - |acc| + i), r'.ticker) == Some(hs[j]))
  {
    ListingKeeps(r, k, parent, n, i, acc);
    ListingFinds(r, k, parent, n, i, acc);
  }

  /** Once listed, the same positions list the same handles again and change nothing. */
  lemma {:induction false} ListingIdempotent(r: Registry, k: Kind, parent: Option<Handle>, n: nat, i: nat, acc: seq<Handle>, hs: seq<Handle>)
    requires Valid(r) && i <= n && |hs| == n
    requires forall j :: i <= j < n ==> Find(Table(r, k), Entry(parent, j), r.ticker) == Some(hs[j])
    ensures Listing(r, k, parent, n, i, acc) == (r, acc + hs[i..])
    decreases n - i
  {
    if i < n {
      assert GetOrCreate(r, k, Entry(parent, i)) == (hs[i], r);
      ListingIdempotent(r, k, parent, n, i + 1, acc + [hs[i]], hs);
      assert acc + [hs[i]] + hs[i + 1..] == acc + hs[i..];
    } else {
      assert hs[i..] == [] && acc + hs[i..] == acc;
    }
  }

  /** `getRootRESTCollections` twice over the same store: the same handles, and nothing changes the second time. */
  lemma RootListingStable(r: Registry, n: nat)
    requires Valid(r)
    ensures var (r', hs) := Listing(r, Collections, None, n, 0, []);
      Listing(r', Collections, None, n, 0, []) == (r', hs)
  {
    var (r', hs) := Listing(r, Collections, None, n, 0, []);
    ListingRegisters(r, Collections, None, n, 0, []);
    ListingIdempotent(r', Collections, None, n, 0, [], hs);
    assert [] + hs[0..] == hs;
  }
}
