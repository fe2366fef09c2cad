# Personal workspace handle registry, in Dafny

This project models the handle registry behind Hoppscotch's personal workspace.
`PersonalWorkspaceService` hands out opaque handles for the collections, folders and requests of
the REST collection store. Each handle is a decimal string minted from a counter. The service keeps
two maps: collection handle to (parent collection handle or null, index), and request handle to
(parent collection handle, index). For every structural store event it rewrites those maps so that
the surviving handles keep naming the same node. The project also models `NewWorkspaceService`,
the registry of workspace providers that delegates every call to the provider registered under an
id, and its `Resource<T>` result type.

Layout:

- `wrappers.dfy`: `Option` and `Result`.
- `tree.dfy` (module `CollectionTree`): the collection tree and the store's navigation by index
  path. The store's navigation helper is not part of this model; `Navigate` is written from its
  behaviour (an empty path finds nothing).
- `registry.dfy` (module `HandleRegistry`): the two maps and the ticker as one `Registry` value.
  It holds the lookup in insertion order, the parent-chain walk of the resolvers and the folder-path
  resolution, with the round trips between index paths and handles.
- `handlers.dfy` (module `Handlers`): each event handler as a function from registry to
  `Handled(next)` or `Threw`, plus the handle generation of `generateHandlesForCollections` and
  the getters' listing loop. Lemmas relate each rewrite to the store's sibling operations.
- `setcollections.dfy` (module `SetCollections`): the depth-first path lists and the ref-id scans
  of `handleSetCollections`, and the passes of `handleSetCollections` as written.
- `placement.dfy` (module `Placement`): the reconciliation by ref id that the passes evidently
  intend, with its identity-preservation theorems.
- `findings.dfy` (module `Findings`): concrete inputs on which the written passes go wrong.
- `workspace.dfy` (module `Workspace`): `Resource<T>`, the provider interface as a record of
  functions, and `NewWorkspaceService` as a class over a `map` of providers.
- `personal.dfy` (module `PersonalWorkspace`): `PersonalWorkspaceService` as a class whose
  fields are the ticker and the two maps. Its methods update them in place with the source's loops,
  and each method is proved against the functions above.

Modelling choices:

- A handle is the ticker value as a `nat`; the decimal rendering is injective, so nothing is lost.
- A JavaScript `Map` iterates in insertion order. Handles are inserted when minted, in ticker
  order, and later `set` calls only overwrite existing keys. So "first entry in iteration order"
  is "smallest handle", and the loops scan handles `1 .. ticker-1` in ascending order.
- A request's parent is an `Option` as well: `resolveRESTCollectionHandleFromFolderPath` can
  return null at run time, and the handlers store that null.
- Folder paths are index sequences. The source splits strings on `/`, which always yields at
  least one element, so paths given as strings are non-empty. An empty prefix joined and split
  again becomes `[0]` (`Handlers.Reparse`).
- A throw (a `!` on a missing map entry or store node) is the `Threw` outcome. Each handler of a
  single structural event (remove, reorder, move, add, duplicate) throws before it changes
  anything, so the registry stays as it was. `handleSetCollections` can throw part way: its scans
  delete broken chains, and its passes create and overwrite entries before a later step throws.
  The model keeps those changes (`ReconcileThrew(at)`, `Pass(r, true)`).
- The resolvers loop forever when the parent chain has a cycle. Their callers must rule that out
  (`NoCycleFrom`); the ref-id scans report it as `ScanHangs`.
- Behaviour that looks unintended but is modelled as written, with a lemma showing it:
  - reordering a nested folder rewrites entries under the folder's own handle
    (`Handlers.NestedReorderUsesOwnHandle`);
  - a backward reorder shifts nothing (`Handlers.ReorderBackwardCollides`);
  - `generateHandlesForCollections` adds its start offset at every depth
    (`Handlers.GenerateOffsetAtEveryDepth`);
  - `appendCollections` starts one position early (`Handlers.AppendStartsOneEarly`).
- `handleSetCollections` as written does not keep identities; see "## Findings". The class method
  `HandleSetCollections` runs the corrected reconciliation `Placement.Reconcile`. It uses the
  source's request scan (`GetRefIdToRequestHandleMap`) unchanged. The collection scan
  (`GetRefIdToCollectionHandleMap`) is corrected to key each handle by its own node. Placement
  then files every node by ref id under its real parent, walking the new tree itself rather than
  the two path lists. The path-list loops are modelled as their own methods
  (`GetRefIdToCollectionFolderPathMap`, `GetRefIdToRequestFolderPathMap`). As pure functions they
  feed the passes as written, `SetCollections.SetCollectionsAsWritten`.
- Some functions only compute: `generateHandlesForCollections` (`Handlers.GenerateHandles`), the
  getters' listing loop (`Handlers.Listing`), `Create`, `GetOrCreate` and `Placement.Reconcile`.
  Their contracts are the lemmas about them (`GenerateHandlesCovers`, `ListingRegisters`,
  `CreateFresh`, `GetOrCreateFindsOrMints`, `ReconcilePlaces`), and those have the rows.

## Model

| member | source | states |
|---|---|---|
| CollectionTree.RequestAt | packages/hoppscotch-common/src/services/new-workspace/providers/personal.service.ts:944-952 | the request exists exactly when the folder path leads to a collection and the index is within its requests, and it is that collection's request at the index |
| HandleRegistry.FindFrom | packages/hoppscotch-common/src/services/new-workspace/providers/personal.service.ts:705-723 | a found handle is in range, in the map and maps to the pair, and no smaller handle in range does; no handle is found only when none in range maps to the pair |
| HandleRegistry.FindInjective | packages/hoppscotch-common/src/services/new-workspace/providers/personal.service.ts:705-723 | in a map with one handle per pair, the lookup finds a handle exactly when that handle maps to the pair |
| HandleRegistry.ResolveFolderPath | packages/hoppscotch-common/src/services/new-workspace/providers/personal.service.ts:850-862 | a resolved handle is registered with the path's last index, and its parent is the handle the path's prefix resolves to |
| HandleRegistry.Walk | packages/hoppscotch-common/src/services/new-workspace/providers/personal.service.ts:767-799 | the parent-chain walk visits registered, not yet seen handles whose indices it records, starts at the given handle, and ends at a root, at a missing handle or at a cycle |
| HandleRegistry.WalkParentLinks | packages/hoppscotch-common/src/services/new-workspace/providers/personal.service.ts:767-799 | each visited handle's parent is the next handle visited |
| HandleRegistry.NextLookupStep | packages/hoppscotch-common/src/services/new-workspace/providers/personal.service.ts:767-799 | the n-th lookup of the resolver loop is the n-th visited handle |
| HandleRegistry.NextLookupEnd | packages/hoppscotch-common/src/services/new-workspace/providers/personal.service.ts:767-799 | after the last visited handle the resolver's next lookup is null for a root, or the missing handle |
| HandleRegistry.CollectionIndexPath | packages/hoppscotch-common/src/services/new-workspace/providers/personal.service.ts:767-799 | a resolved collection path belongs to a registered handle, is non-empty and ends with that handle's own index |
| HandleRegistry.AfterCollectionResolve | packages/hoppscotch-common/src/services/new-workspace/providers/personal.service.ts:780-788 | the collection resolver only deletes entries; it changes nothing when the handle resolves, and deletes the handle when its chain meets a missing ancestor |
| HandleRegistry.RequestIndexPath | packages/hoppscotch-common/src/services/new-workspace/providers/personal.service.ts:803-848 | a resolved request path belongs to a registered request handle, is non-empty and ends with the request's own index |
| HandleRegistry.AfterRequestResolve | packages/hoppscotch-common/src/services/new-workspace/providers/personal.service.ts:803-848 | the request resolver keeps the ticker and only deletes entries; it changes nothing for an unknown or resolving handle, and deletes a request handle whose chain is broken |
| HandleRegistry.CollectionIndexPathShape | packages/hoppscotch-common/src/services/new-workspace/providers/personal.service.ts:767-799 | a resolved collection path is the chain's indices reversed: root first, the handle's own index last, as long as the chain |
| HandleRegistry.RequestIndexPathShape | packages/hoppscotch-common/src/services/new-workspace/providers/personal.service.ts:803-848 | a resolved request path is the parent's path followed by the request's own index |
| HandleRegistry.ChainForWalk | packages/hoppscotch-common/src/services/new-workspace/providers/personal.service.ts:767-799 | walking up from the last handle of a root-to-leaf chain visits the chain in reverse and ends at a root |
| HandleRegistry.ResolvedChain | packages/hoppscotch-common/src/services/new-workspace/providers/personal.service.ts:850-862 | a folder path that resolves is backed by a chain of registered handles from a root |
| HandleRegistry.PathRoundTrip | packages/hoppscotch-common/src/services/new-workspace/providers/personal.service.ts:850-862 | a path of a registered chain resolves to a handle, and that handle's index path is the path again |
| HandleRegistry.HandleRoundTrip | packages/hoppscotch-common/src/services/new-workspace/providers/personal.service.ts:767-799 | a handle whose index path resolves is the handle that path resolves back to |
| HandleRegistry.ChainRequestPath | packages/hoppscotch-common/src/services/new-workspace/providers/personal.service.ts:803-848 | a request filed under the last handle of a chain for path p at index j resolves to p followed by j |
| HandleRegistry.MissingWalkUnresolvable | packages/hoppscotch-common/src/services/new-workspace/providers/personal.service.ts:780-788 | when the walk meets a missing handle, no handle visited on the way resolves any more |
| HandleRegistry.CascadeAfterAncestorRemoval | packages/hoppscotch-common/src/services/new-workspace/providers/personal.service.ts:780-788 | once an ancestor is gone, resolving a grandchild yields null and deletes it and its parent |
| HandleRegistry.CreateFresh | packages/hoppscotch-common/src/services/new-workspace/providers/personal.service.ts:539-559 | `Create`: a minted handle is the old ticker, registered in neither map; the ticker goes up by one and only the chosen map gains the entry |
| HandleRegistry.GetOrCreateFindsOrMints | packages/hoppscotch-common/src/services/new-workspace/providers/personal.service.ts:725-733 | `GetOrCreate`: the result is registered at the pair; if a handle already has the pair the first such comes back with nothing changed, otherwise a fresh one is minted |
| HandleRegistry.GetOrCreateIdempotent | packages/hoppscotch-common/src/services/new-workspace/providers/personal.service.ts:755-763 | asking twice for the same pair gives the same handle and the second call changes nothing |
| Handlers.Rewritten | packages/hoppscotch-common/src/services/new-workspace/providers/personal.service.ts:400-421 | the in-place rewrite keeps exactly the entries the rule keeps, with the rule's new value |
| Handlers.RewrittenValid | packages/hoppscotch-common/src/services/new-workspace/providers/personal.service.ts:374-537 | a rewrite keeps the ticker above every handle and the two maps disjoint |
| Handlers.Reparse | packages/hoppscotch-common/src/services/new-workspace/providers/personal.service.ts:864-879 | splitting a joined path always gives at least one index; a non-empty path comes back unchanged, and the empty prefix comes back as `[0]` |
| Handlers.RequestHandleAt | packages/hoppscotch-common/src/services/new-workspace/providers/personal.service.ts:864-879 | the result is the first request handle registered at (the handle the re-parsed prefix resolves to, the path's last index): a found handle is registered there and no smaller handle is, and nothing is found only when no handle is registered there |
| Handlers.FolderRemove | packages/hoppscotch-common/src/services/new-workspace/providers/personal.service.ts:497-537 | throws exactly when the path does not resolve; otherwise it deletes the folder, moves later same-parent siblings down by one, deletes its direct children, adds no handle, and leaves every other entry and the request map alone |
| Handlers.RequestRemove | packages/hoppscotch-common/src/services/new-workspace/providers/personal.service.ts:466-495 | throws exactly when no request handle is found; otherwise it deletes it, moves later siblings down by one, adds no handle, and leaves every other entry alone |
| Handlers.FolderReorder | packages/hoppscotch-common/src/services/new-workspace/providers/personal.service.ts:374-422 | throws exactly when the destination is null and the parent folder is missing; otherwise under the chosen parent the moved entry gets the destination and entries in (src, dest] move down by one, nothing else changes |
| Handlers.RequestReorder | packages/hoppscotch-common/src/services/new-workspace/providers/personal.service.ts:424-464 | throws exactly when the destination is null and the collection is missing; otherwise the request at src gets dest (or the request count) and requests in (src, dest] move down by one |
| Handlers.FolderMove | packages/hoppscotch-common/src/services/new-workspace/providers/personal.service.ts:625-663 | throws exactly at the source's failing lookups; otherwise the key set is unchanged, the moved folder is filed last under the destination, its former later siblings move down by one and every other entry is kept |
| Handlers.RequestMove | packages/hoppscotch-common/src/services/new-workspace/providers/personal.service.ts:665-695 | throws exactly when the destination or the request handle is missing; otherwise the key set is unchanged, the request is filed last under the destination, its former later siblings move down by one and every other entry is kept |
| Handlers.FolderAdd | packages/hoppscotch-common/src/services/new-workspace/providers/personal.service.ts:595-608 | throws exactly when the parent folder is missing; otherwise the new last child gets a handle and no existing entry changes |
| Handlers.RequestAdd | packages/hoppscotch-common/src/services/new-workspace/providers/personal.service.ts:610-623 | throws exactly when the parent is missing; otherwise the new last request gets a handle and no existing entry changes |
| Handlers.FolderDuplication | packages/hoppscotch-common/src/services/new-workspace/providers/personal.service.ts:342-372 | throws exactly when the path does not resolve, or a nested folder's parent is not in the store |
| Handlers.DuplicationResult | packages/hoppscotch-common/src/services/new-workspace/providers/personal.service.ts:342-372 | a duplication that does not throw generates handles for exactly the last sibling, at its position, under the duplicated folder's registered parent |
| Handlers.FolderDuplicationCopies | packages/hoppscotch-common/src/services/new-workspace/providers/personal.service.ts:342-372 | a duplication that does not throw keeps every entry and registers the copy, the last of its siblings, under the duplicated folder's registered parent at its position, with every folder below it and every request in it |
| Handlers.GenerateOne | packages/hoppscotch-common/src/services/new-workspace/providers/personal.service.ts:561-593 | generating handles for one collection keeps every entry and registers it at (parent, offset), with everything inside it |
| Handlers.Level | packages/hoppscotch-common/src/services/new-workspace/providers/personal.service.ts:571-591 | one frame's loop accounts for its work: the size of the frames it pushes, plus one for each child it handled, is the size of the forest it handled, so the stack loop ends |
| Handlers.LevelKeepsPushed | packages/hoppscotch-common/src/services/new-workspace/providers/personal.service.ts:571-591 | the frame's loop only appends to the stack |
| Handlers.LevelRegisters | packages/hoppscotch-common/src/services/new-workspace/providers/personal.service.ts:571-591 | after the frame's loop every child from the current one on has a handle at (parent, index plus offset), and every request of it is registered under that handle at its own index |
| Handlers.LevelPushes | packages/hoppscotch-common/src/services/new-workspace/providers/personal.service.ts:571-591 | the frame's loop pushes, for every child with folders, a frame of those folders under the child's handle |
| Handlers.GetOrCreateExtends | packages/hoppscotch-common/src/services/new-workspace/providers/personal.service.ts:725-733 | `getOrCreate` only adds entries and the result is registered at the pair |
| Handlers.RequestHandlesExtends | packages/hoppscotch-common/src/services/new-workspace/providers/personal.service.ts:579-585 | registering a collection's requests only adds entries, one per request index |
| Handlers.LevelExtends | packages/hoppscotch-common/src/services/new-workspace/providers/personal.service.ts:561-593 | a frame's loop only adds entries and registers every child folder at its index plus the offset |
| Handlers.GenerateExtends | packages/hoppscotch-common/src/services/new-workspace/providers/personal.service.ts:561-593 | the stack loop only adds entries |
| Handlers.GenerateCovers | packages/hoppscotch-common/src/services/new-workspace/providers/personal.service.ts:561-593 | the stack loop covers every frame on the stack: each of its collections, every folder below them and every request in them gets a handle |
| Handlers.GenerateHandlesCovers | packages/hoppscotch-common/src/services/new-workspace/providers/personal.service.ts:561-593 | `generateHandlesForCollections` keeps every earlier entry and registers every listed collection under the parent at its index plus the offset, every folder below it under its parent's handle at its index plus the offset, and every request at its own index under its collection's handle |
| Handlers.GenerateOffsetAtEveryDepth | packages/hoppscotch-common/src/services/new-workspace/providers/personal.service.ts:576 | the start offset is added at every depth: a duplicated folder's only child is registered at the offset instead of 0 |
| Handlers.AppendStartsOneEarly | packages/hoppscotch-common/src/services/new-workspace/providers/personal.service.ts:89-96 | appending one root after one existing root registers nothing at the new position |
| Handlers.AppendCollectionsCovers | packages/hoppscotch-common/src/services/new-workspace/providers/personal.service.ts:89-96 | the `appendCollections` event keeps every entry and registers every appended root and everything inside it, at positions counted from `length - entries.length - 1` |
| Handlers.RemovalTracksSiblings | packages/hoppscotch-common/src/services/new-workspace/providers/personal.service.ts:466-537 | after a removal each other sibling's handle has the index the same sibling has in the shortened list |
| Handlers.ReorderTracksSiblings | packages/hoppscotch-common/src/services/new-workspace/providers/personal.service.ts:400-421 | after a forward reorder each sibling's handle has the index the same sibling has in the reordered list |
| Handlers.ReorderBackwardCollides | packages/hoppscotch-common/src/services/new-workspace/providers/personal.service.ts:400-421 | a backward reorder leaves the moved handle and the one already at the destination sharing one entry |
| Handlers.RelocateTracks | packages/hoppscotch-common/src/services/new-workspace/providers/personal.service.ts:625-695 | after a move the moved handle names the node appended at the destination and former siblings keep their nodes |
| Handlers.NestedReorderUsesOwnHandle | packages/hoppscotch-common/src/services/new-workspace/providers/personal.service.ts:394-397 | reordering nested folders 0/0 and 0/1 changes no entry, because the rewrite is keyed on the folder's own handle |
| Handlers.RequestReorderToCount | packages/hoppscotch-common/src/services/new-workspace/providers/personal.service.ts:439-452 | with no destination a request goes to index "number of requests", one past the last |
| Handlers.FindStable | packages/hoppscotch-common/src/services/new-workspace/providers/personal.service.ts:705-723 | a pair's handle is still the one found after entries were only added |
| Handlers.ListingRegisters | packages/hoppscotch-common/src/services/new-workspace/providers/personal.service.ts:881-942 | `Listing`, the getters' loop: the listing gives one handle per position, each registered at (parent, position) and found by a later lookup; the other map is untouched |
| Handlers.ListingIdempotent | packages/hoppscotch-common/src/services/new-workspace/providers/personal.service.ts:881-942 | a listing whose handles are already registered changes nothing |
| Handlers.RootListingStable | packages/hoppscotch-common/src/services/new-workspace/providers/personal.service.ts:881-899 | listing the roots twice gives the same handles and the second time changes nothing |
| SetCollections.Frames | packages/hoppscotch-common/src/services/new-workspace/providers/personal.service.ts:220-240 | one pending frame per collection, each carrying its path |
| SetCollections.Roots | packages/hoppscotch-common/src/services/new-workspace/providers/personal.service.ts:220-240 | the initial stack has root j at path [j] |
| SetCollections.Children | packages/hoppscotch-common/src/services/new-workspace/providers/personal.service.ts:220-240 | a popped frame pushes child j at its path followed by j |
| SetCollections.PopShrinks | packages/hoppscotch-common/src/services/new-workspace/providers/personal.service.ts:220-240 | popping a frame and pushing its children leaves less work |
| SetCollections.RequestEntriesOf | packages/hoppscotch-common/src/services/new-workspace/providers/personal.service.ts:196-218 | one (ref id, path) pair per request of the popped collection, in order |
| SetCollections.RootsSound | packages/hoppscotch-common/src/services/new-workspace/providers/personal.service.ts:220-240 | every frame of the initial stack sits at its path in the tree |
| SetCollections.PopSound | packages/hoppscotch-common/src/services/new-workspace/providers/personal.service.ts:220-240 | popping keeps every frame at its path in the tree |
| SetCollections.CollectionPathsFromSound | packages/hoppscotch-common/src/services/new-workspace/providers/personal.service.ts:220-240 | every recorded (ref id, path) names a collection of the tree with that ref id at that path |
| SetCollections.RequestPathsFromSound | packages/hoppscotch-common/src/services/new-workspace/providers/personal.service.ts:196-218 | every recorded (ref id, path) names a request of the tree with that ref id at that path |
| SetCollections.CollectionPathsAreSound | packages/hoppscotch-common/src/services/new-workspace/providers/personal.service.ts:220-240 | the collection path list records only real (ref id, path) pairs of the tree |
| SetCollections.RequestPathsAreSound | packages/hoppscotch-common/src/services/new-workspace/providers/personal.service.ts:196-218 | the request path list records only real (ref id, path) pairs of the tree |
| SetCollections.RequestRefsFrom | packages/hoppscotch-common/src/services/new-workspace/providers/personal.service.ts:147-169 | the request scan only deletes broken collection chains, and maps ref ids one-to-one to registered request handles |
| SetCollections.CollectionRefsFrom | packages/hoppscotch-common/src/services/new-workspace/providers/personal.service.ts:171-194 | the collection scan only deletes broken chains, and maps ref ids one-to-one to registered collection handles |
| SetCollections.CollectionRefsKeyOwnNode | packages/hoppscotch-common/src/services/new-workspace/providers/personal.service.ts:171-194 | with the keying corrected, every ref id maps to the handle of the node that carries that ref id |
| SetCollections.RequestRefsKeyOwnNode | packages/hoppscotch-common/src/services/new-workspace/providers/personal.service.ts:147-169 | with every request's parent chain intact, the request scan changes nothing and, when it finishes, keys every ref id to a request handle whose path leads to the request with that ref id, and keys the ref id of the request found at every request handle's path |
| SetCollections.CollectionRefsAsWrittenFrom | packages/hoppscotch-common/src/services/new-workspace/providers/personal.service.ts:171-194 | the written collection scan keeps the ticker and the request map and only deletes collection entries; what it keys is shown by `Findings.NestedKeyedToParent` |
| SetCollections.RequestPassAsWritten | packages/hoppscotch-common/src/services/new-workspace/providers/personal.service.ts:262-293 | the written request pass leaves the collection map alone, keeps every request handle, and adds only handles minted from the ticker |
| SetCollections.CollectionPassAsWritten | packages/hoppscotch-common/src/services/new-workspace/providers/personal.service.ts:295-326 | the written collection pass leaves the request map alone, keeps every collection handle, and adds only handles minted from the ticker |
| SetCollections.SetCollectionsAsWritten | packages/hoppscotch-common/src/services/new-workspace/providers/personal.service.ts:242-340 | a reconciliation as written that completes never lowers the ticker, and deletes from both maps the handle of every known ref id the new tree no longer records |
| SetCollections.RequestScanKeys | packages/hoppscotch-common/src/services/new-workspace/providers/personal.service.ts:147-169 | one step of the request scan that records a ref id keeps the loop invariant |
| SetCollections.RequestScanPruned | packages/hoppscotch-common/src/services/new-workspace/providers/personal.service.ts:147-169 | one step whose chain is broken keeps the loop invariant over the pruned map |
| SetCollections.RequestScanThrows | packages/hoppscotch-common/src/services/new-workspace/providers/personal.service.ts:147-169 | a resolved path with no request in the old tree ends the scan with a throw |
| SetCollections.CollectionScanKeys | packages/hoppscotch-common/src/services/new-workspace/providers/personal.service.ts:171-194 | one step of the collection scan that records a ref id keeps the loop invariant |
| SetCollections.CollectionScanPruned | packages/hoppscotch-common/src/services/new-workspace/providers/personal.service.ts:171-194 | one step whose chain is broken keeps the loop invariant over the pruned map |
| SetCollections.CollectionScanThrows | packages/hoppscotch-common/src/services/new-workspace/providers/personal.service.ts:171-194 | a resolved path with no collection in the old tree ends the scan with a throw |
| SetCollections.WithoutAbsent | packages/hoppscotch-common/src/services/new-workspace/providers/personal.service.ts:329-339 | the handle of every known ref id absent from the new tree is deleted, and every other entry is kept as it was |
| Placement.PlaceRequestsPlaces | packages/hoppscotch-common/src/services/new-workspace/providers/personal.service.ts:262-293 | every request of a collection is filed under the collection's handle at its own index |
| Placement.PlaceForestPlaces | packages/hoppscotch-common/src/services/new-workspace/providers/personal.service.ts:262-326 | after placement every collection and request of the new tree has a handle filed under its real parent at its own index |
| Placement.PlacedCollectionPath | packages/hoppscotch-common/src/services/new-workspace/providers/personal.service.ts:262-326 | a placed collection's handle resolves to the collection's path |
| Placement.PlacedRequestPath | packages/hoppscotch-common/src/services/new-workspace/providers/personal.service.ts:262-326 | a placed request's handle resolves to its folder's path followed by its index |
| Placement.ScansReady | packages/hoppscotch-common/src/services/new-workspace/providers/personal.service.ts:242-261 | the two scans leave a registry and ref-id maps from which placement can start |
| Placement.DropAbsentAgrees | packages/hoppscotch-common/src/services/new-workspace/providers/personal.service.ts:329-339 | deleting the absent handles keeps every handle the placement assigned |
| Placement.ReconcilePlaces | packages/hoppscotch-common/src/services/new-workspace/providers/personal.service.ts:242-340 | `Reconcile`, the corrected `handleSetCollections`: a completed reconciliation keeps the registry valid, places the whole new tree, gives known ref ids their old handle and new ones fresh handles, and deletes the handles of vanished ref ids |
| Placement.ReconcileCollectionPaths | packages/hoppscotch-common/src/services/new-workspace/providers/personal.service.ts:242-340 | after reconciliation each collection's handle resolves to the collection's path in the new tree |
| Placement.ReconcileRequestPaths | packages/hoppscotch-common/src/services/new-workspace/providers/personal.service.ts:242-340 | after reconciliation each request's handle resolves to its path in the new tree |
| Findings.NestedKeyedToParent | packages/hoppscotch-common/src/services/new-workspace/providers/personal.service.ts:185-188 | on a root with one folder the written scan keys only the root's ref id, to the folder's handle |
| Findings.NestedKeyedToOwnNode | packages/hoppscotch-common/src/services/new-workspace/providers/personal.service.ts:171-194 | on the same registry the corrected scan keys the root to its own handle and the folder to its own |
| Findings.RootBecomesOwnParent | packages/hoppscotch-common/src/services/new-workspace/providers/personal.service.ts:315-317 | the written collection pass files a root collection under itself, a cycle, where the corrected placement leaves it a root |
| Findings.RequestFiledUnderOldOccupant | packages/hoppscotch-common/src/services/new-workspace/providers/personal.service.ts:262-326 | the written request pass files a request under the collection that held its parent's position before the swap, where the corrected placement files it under its real parent |
| Workspace.Resolve | packages/hoppscotch-common/src/services/new-workspace/workspace.service.ts:193-201 | fails exactly for an unregistered id, with "Provider not found: " and the id, and otherwise returns the registered provider |
| Workspace.RegisterFreshResolves | packages/hoppscotch-common/src/services/new-workspace/workspace.service.ts:177-187 | after registering a new id that id resolves to the provider and every other id resolves as before |
| Workspace.RegisterDuplicateKeepsFirst | packages/hoppscotch-common/src/services/new-workspace/workspace.service.ts:178-184 | registering an id already present changes nothing |
| Workspace.NewWorkspaceService.constructor | packages/hoppscotch-common/src/services/new-workspace/workspace.service.ts:164-171 | no providers and no current workspace |
| Workspace.NewWorkspaceService.RegisterWorkspaceProvider | packages/hoppscotch-common/src/services/new-workspace/workspace.service.ts:177-187 | warns exactly for an id already present, keeping the map, and otherwise adds the provider under its id |
| Workspace.NewWorkspaceService.ResolveProvider | packages/hoppscotch-common/src/services/new-workspace/workspace.service.ts:193-201 | the provider lookup over the service's map |
| Workspace.NewWorkspaceService.GetWorkspace | packages/hoppscotch-common/src/services/new-workspace/workspace.service.ts:203-208 | fails exactly for an unregistered provider, and otherwise returns that provider's answer for the same handle |
| Workspace.NewWorkspaceService.GetRootRESTCollections | packages/hoppscotch-common/src/services/new-workspace/workspace.service.ts:210-215 | fails exactly for an unregistered provider, and otherwise returns that provider's answer for the same handle |
| Workspace.NewWorkspaceService.GetRESTCollectionChildren | packages/hoppscotch-common/src/services/new-workspace/workspace.service.ts:217-222 | fails exactly for an unregistered provider, and otherwise returns that provider's answer for the same handle |
| Workspace.NewWorkspaceService.GetRESTRequest | packages/hoppscotch-common/src/services/new-workspace/workspace.service.ts:224-229 | fails exactly for an unregistered provider, and otherwise returns that provider's answer for the same handle |
| Workspace.NewWorkspaceService.CreateRESTCollection | packages/hoppscotch-common/src/services/new-workspace/workspace.service.ts:231-242 | fails exactly for an unregistered provider, and otherwise returns that provider's answer for the same arguments |
| Workspace.NewWorkspaceService.CreateRESTRequest | packages/hoppscotch-common/src/services/new-workspace/workspace.service.ts:244-255 | fails exactly for an unregistered provider, and otherwise returns that provider's answer for the same arguments |
| Workspace.NewWorkspaceService.DeleteRESTRequest | packages/hoppscotch-common/src/services/new-workspace/workspace.service.ts:257-262 | fails exactly for an unregistered provider, and otherwise returns that provider's answer for the same handle |
| Workspace.NewWorkspaceService.DeleteRESTCollection | packages/hoppscotch-common/src/services/new-workspace/workspace.service.ts:264-269 | fails exactly for an unregistered provider, and otherwise returns that provider's answer for the same handle |
| PersonalWorkspace.FolderEntries | packages/hoppscotch-common/src/services/new-workspace/providers/personal.service.ts:881-899 | one listed entry per collection, in order, with its handle and name |
| PersonalWorkspace.RequestEntries | packages/hoppscotch-common/src/services/new-workspace/providers/personal.service.ts:901-942 | one listed entry per request, in order, with its handle, name and method |
| PersonalWorkspace.GetWorkspace | packages/hoppscotch-common/src/services/new-workspace/providers/personal.service.ts:697-703 | an error for any workspace handle other than "personal", and otherwise the "Personal Workspace" meta |
| PersonalWorkspace.PersonalWorkspaceService.constructor | packages/hoppscotch-common/src/services/new-workspace/providers/personal.service.ts:33-43 | provider id "personal", ticker 1, both maps empty |
| PersonalWorkspace.PersonalWorkspaceService.GetAssociatedHandle | packages/hoppscotch-common/src/services/new-workspace/providers/personal.service.ts:705-723 | the loop returns the first handle in iteration order registered at the pair, or null |
| PersonalWorkspace.PersonalWorkspaceService.CreateHandle | packages/hoppscotch-common/src/services/new-workspace/providers/personal.service.ts:539-559 | mints the ticker as a handle at the pair and bumps the ticker |
| PersonalWorkspace.PersonalWorkspaceService.GetOrCreateHandle | packages/hoppscotch-common/src/services/new-workspace/providers/personal.service.ts:725-733 | returns the registered handle or mints one, as `GetOrCreate` |
| PersonalWorkspace.PersonalWorkspaceService.DeleteCollections | packages/hoppscotch-common/src/services/new-workspace/providers/personal.service.ts:780-788 | deletes exactly the visited collection handles |
| PersonalWorkspace.PersonalWorkspaceService.CollectParents | packages/hoppscotch-common/src/services/new-workspace/providers/personal.service.ts:770-796 | the while loop collects the chain's indices and deletes the chain when a lookup fails |
| PersonalWorkspace.PersonalWorkspaceService.ResolveIndexPathFromCollectionHandle | packages/hoppscotch-common/src/services/new-workspace/providers/personal.service.ts:767-799 | returns the handle's index path, or null after deleting the broken chain |
| PersonalWorkspace.PersonalWorkspaceService.ResolveIndexPathFromRequestHandle | packages/hoppscotch-common/src/services/new-workspace/providers/personal.service.ts:803-848 | returns the request's index path, or null after deleting the broken chain and the request handle; null with no change for an unknown handle |
| PersonalWorkspace.PersonalWorkspaceService.ResolveCollectionHandleFromFolderPath | packages/hoppscotch-common/src/services/new-workspace/providers/personal.service.ts:850-862 | resolves the path level by level with the lookup loop |
| PersonalWorkspace.PersonalWorkspaceService.ResolveRequestHandleFromFolderPath | packages/hoppscotch-common/src/services/new-workspace/providers/personal.service.ts:864-879 | looks up the request at the re-parsed parent path and the last index |
| PersonalWorkspace.PersonalWorkspaceService.RewriteCollections | packages/hoppscotch-common/src/services/new-workspace/providers/personal.service.ts:400-421 | the in-place `for...of` rewrite of the collection map, keeping the other fields |
| PersonalWorkspace.PersonalWorkspaceService.RewriteRequests | packages/hoppscotch-common/src/services/new-workspace/providers/personal.service.ts:439-463 | the in-place `for...of` rewrite of the request map, keeping the other fields |
| PersonalWorkspace.PersonalWorkspaceService.HandleFolderRemove | packages/hoppscotch-common/src/services/new-workspace/providers/personal.service.ts:497-537 | throws exactly when `Handlers.FolderRemove` does, leaving the state; otherwise the new state is its result |
| PersonalWorkspace.PersonalWorkspaceService.HandleRequestRemove | packages/hoppscotch-common/src/services/new-workspace/providers/personal.service.ts:466-495 | throws exactly when `Handlers.RequestRemove` does, leaving the state; otherwise the new state is its result |
| PersonalWorkspace.PersonalWorkspaceService.HandleFolderReorder | packages/hoppscotch-common/src/services/new-workspace/providers/personal.service.ts:374-422 | throws exactly when `Handlers.FolderReorder` does, leaving the state; otherwise the new state is its result |
| PersonalWorkspace.PersonalWorkspaceService.HandleRequestReorder | packages/hoppscotch-common/src/services/new-workspace/providers/personal.service.ts:424-464 | throws exactly when `Handlers.RequestReorder` does, leaving the state; otherwise the new state is its result |
| PersonalWorkspace.PersonalWorkspaceService.HandleFolderMove | packages/hoppscotch-common/src/services/new-workspace/providers/personal.service.ts:625-663 | throws exactly when `Handlers.FolderMove` does, leaving the state; otherwise the new state is its result |
| PersonalWorkspace.PersonalWorkspaceService.HandleRequestMove | packages/hoppscotch-common/src/services/new-workspace/providers/personal.service.ts:665-695 | throws exactly when `Handlers.RequestMove` does, leaving the state; otherwise the new state is its result |
| PersonalWorkspace.PersonalWorkspaceService.HandleFolderAdd | packages/hoppscotch-common/src/services/new-workspace/providers/personal.service.ts:595-608 | throws exactly when `Handlers.FolderAdd` does, leaving the state; otherwise the new state is its result |
| PersonalWorkspace.PersonalWorkspaceService.HandleRequestAdd | packages/hoppscotch-common/src/services/new-workspace/providers/personal.service.ts:610-623 | throws exactly when `Handlers.RequestAdd` does, leaving the state; otherwise the new state is its result |
| PersonalWorkspace.PersonalWorkspaceService.RegisterCollection | packages/hoppscotch-common/src/services/new-workspace/providers/personal.service.ts:573-586 | registers a collection at its pair and then each of its requests |
| PersonalWorkspace.PersonalWorkspaceService.RegisterFrame | packages/hoppscotch-common/src/services/new-workspace/providers/personal.service.ts:571-591 | one popped frame's loop, as `Handlers.Level` |
| PersonalWorkspace.PersonalWorkspaceService.GenerateHandlesForCollections | packages/hoppscotch-common/src/services/new-workspace/providers/personal.service.ts:561-593 | the stack loop ends in the state `Handlers.GenerateHandles` describes |
| PersonalWorkspace.PersonalWorkspaceService.OnServiceInit | packages/hoppscotch-common/src/services/new-workspace/providers/personal.service.ts:52-53 | the state becomes the generation for the whole store at offset 0 under no parent; it keeps every earlier entry and registers every collection, folder and request of the store |
| PersonalWorkspace.PersonalWorkspaceService.HandleFolderDuplication | packages/hoppscotch-common/src/services/new-workspace/providers/personal.service.ts:342-372 | throws exactly when `Handlers.FolderDuplication` does, leaving the state; otherwise the new state is its result, whose registration of the copy `Handlers.FolderDuplicationCopies` states |
| PersonalWorkspace.PersonalWorkspaceService.GetRootRESTCollections | packages/hoppscotch-common/src/services/new-workspace/providers/personal.service.ts:881-899 | an error with no change for a foreign workspace handle; otherwise one listed entry per root collection, in order, with handle `getOrCreate(null, i)` |
| PersonalWorkspace.PersonalWorkspaceService.ListChildren | packages/hoppscotch-common/src/services/new-workspace/providers/personal.service.ts:919-939 | one handle per child position, as `Handlers.Listing` |
| PersonalWorkspace.PersonalWorkspaceService.GetRESTCollectionChildren | packages/hoppscotch-common/src/services/new-workspace/providers/personal.service.ts:901-942 | `unavailable` when the handle does not resolve, after the resolver's clean-up; otherwise the folders and requests of the collection at its path, with their handles |
| PersonalWorkspace.PersonalWorkspaceService.GetRESTRequest | packages/hoppscotch-common/src/services/new-workspace/providers/personal.service.ts:944-969 | `unavailable` when the handle does not resolve, after the resolver's clean-up; otherwise `available` with the request at the resolved folder path and index, or with no data when that folder has no request at the index |
| PersonalWorkspace.PersonalWorkspaceService.GetRefIdToRequestHandleMap | packages/hoppscotch-common/src/services/new-workspace/providers/personal.service.ts:147-169 | the loop over request handles ends in the scan result `SetCollections.RequestRefsFrom` describes |
| PersonalWorkspace.PersonalWorkspaceService.GetRefIdToCollectionHandleMap | packages/hoppscotch-common/src/services/new-workspace/providers/personal.service.ts:171-194 | the loop over collection handles ends in the corrected scan result `SetCollections.CollectionRefsFrom` describes |
| PersonalWorkspace.PersonalWorkspaceService.GetRefIdToCollectionFolderPathMap | packages/hoppscotch-common/src/services/new-workspace/providers/personal.service.ts:220-240 | the stack loop yields the depth-first path list, and every pair in it is a real collection of the tree at that path |
| PersonalWorkspace.PersonalWorkspaceService.GetRefIdToRequestFolderPathMap | packages/hoppscotch-common/src/services/new-workspace/providers/personal.service.ts:196-218 | the stack loop yields the depth-first path list, and every pair in it is a real request of the tree at that path |
| PersonalWorkspace.PersonalWorkspaceService.PlaceCollection | packages/hoppscotch-common/src/services/new-workspace/providers/personal.service.ts:262-326 | files one collection by ref id, keeping its old handle or minting one |
| PersonalWorkspace.PersonalWorkspaceService.PlaceRequests | packages/hoppscotch-common/src/services/new-workspace/providers/personal.service.ts:262-326 | files a collection's requests by ref id under its handle at their indices |
| PersonalWorkspace.PersonalWorkspaceService.PlaceForest | packages/hoppscotch-common/src/services/new-workspace/providers/personal.service.ts:262-326 | files the whole new tree by ref id, parents before children |
| PersonalWorkspace.PersonalWorkspaceService.DeleteAbsent | packages/hoppscotch-common/src/services/new-workspace/providers/personal.service.ts:329-339 | the deletion loop leaves exactly the entries `SetCollections.WithoutAbsent` keeps |
| PersonalWorkspace.PersonalWorkspaceService.DropAbsent | packages/hoppscotch-common/src/services/new-workspace/providers/personal.service.ts:329-339 | deletes the handles of ref ids absent from the new tree from both maps |
| PersonalWorkspace.PersonalWorkspaceService.HandleSetCollections | packages/hoppscotch-common/src/services/new-workspace/providers/personal.service.ts:242-340 | throws exactly when a scan throws, keeping what the scan pruned; otherwise the state is the corrected reconciliation, which keeps the registry valid |

## Left out

- The store event subscription and its dispatch switch (`personal.service.ts`, lines 56-133) only route events. Each event is
  a method of the class. The payload-to-argument mapping is not modelled; the `appendCollections`
  offset is covered by `Handlers.AppendStartsOneEarly`.
- `onServiceInit` also registers the service with `NewWorkspaceService` and sets the current
  workspace. `PersonalWorkspace.PersonalWorkspaceService.OnServiceInit` covers only the handle
  generation; the registration is covered by `Workspace.NewWorkspaceService.RegisterWorkspaceProvider`.
- Vue reactivity, `useReadonlyStream`, the rxjs subscription and the service container wiring are
  plumbing. The store's state is a parameter of each method.
- The collection store and its navigation helper are not part of this model. `Navigate` is written
  from that helper's behaviour. The store's own tree edits appear only as sequence operations in
  the lemmas that relate a rewrite to them.
- Paths are index sequences, not strings. `split("/").map(Number)` on a malformed segment (NaN)
  is not modelled.
- The asynchronous `create*`/`delete*` calls are declared in the provider interface but not
  implemented by the personal provider. The model treats each provider answer as an opaque value.
- Console output (the duplicate-registration warning) is the method's `warned` result.
- PersonalWorkspace.PersonalWorkspaceService.HandleSetCollections: models the corrected
  reconciliation, not the source's passes, which are modelled as written in
  `SetCollections.SetCollectionsAsWritten`. It requires the new tree's ref ids to be distinct,
  which the store does not enforce. It also requires that no scan meets a parent cycle, where the
  source would loop forever.
- PersonalWorkspace.PersonalWorkspaceService.GetRefIdToRequestHandleMap and
  PersonalWorkspace.PersonalWorkspaceService.GetRefIdToCollectionHandleMap: require that the scan
  meets no parent cycle, where the source would loop forever.
- SetCollections.CollectionPathsAreSound and SetCollections.RequestPathsAreSound: prove that the
  path lists record only real pairs, not that they record every node. The corrected
  reconciliation takes the present ref ids from the tree directly (`Placement.ForestRefs`).
- The resolver methods and the getters require that the parent chain has no cycle, where the
  source would loop forever.
- PersonalWorkspace.PersonalWorkspaceService.GetRESTCollectionChildren and
  PersonalWorkspace.PersonalWorkspaceService.GetRESTRequest: require that the resolved collection
  path (for a request, its folder path) leads to a collection of the store. Otherwise the source
  reads `folders` or `requests` of `undefined` and throws a `TypeError`. An index past the
  folder's requests is modelled: the data is then `None`, the source's `undefined`.
- Workspace.NewWorkspaceService.GetRESTRequest: the provider interface declares a request as the
  data, so the delegation keeps that type. The personal provider's `undefined` data is modelled
  only in its own method.
- SetCollections.SetCollectionsAsWritten: its path lists are sequences in depth-first order. The
  source's `Map` keeps one entry per ref id, at its first position but with its last path. The
  two agree when the new tree's ref ids are distinct, which the store does not enforce.
- SetCollections.RequestRefsKeyOwnNode: requires every request's parent chain to resolve. A scan
  that meets a broken chain deletes it; what it keys then is not stated.
- PersonalWorkspace.PersonalWorkspaceService.HandleFolderDuplication: requires that the duplicate
  is in the store where the source reads it. The store's duplication is not part of this model.
- HandleRegistry.FindFrom and the other lookups scan handles in ascending order. This matches
  the `Map`'s insertion order only because keys are never re-inserted.

## Findings

| source | as written | input that shows it | evidently intended | confidence | as-written member | corrected member |
|---|---|---|---|---|---|---|
| packages/hoppscotch-common/src/services/new-workspace/providers/personal.service.ts:185-188 | for a nested collection the old tree is navigated to the parent's path, so the ref id recorded for the handle is the parent's | root `a` with child `b`, handles 1 and 2: the map is `{a: 2}`, and `b` is lost | key each handle by the ref id of its own node: `{a: 1, b: 2}` | high, not executed | Findings.NestedKeyedToParent | SetCollections.CollectionRefsKeyOwnNode, Findings.NestedKeyedToOwnNode |
| packages/hoppscotch-common/src/services/new-workspace/providers/personal.service.ts:315-317 | the parent of a root collection is resolved from the empty prefix joined as `""`, which splits to `[0]`, so the root is filed under root 0's handle | one root `a` with handle 1: after the pass handle 1 is its own parent, and resolving it never ends | a root collection keeps a null parent | high, not executed | Findings.RootBecomesOwnParent | Placement.ReconcileCollectionPaths |
| packages/hoppscotch-common/src/services/new-workspace/providers/personal.service.ts:262-326 | the request pass runs before the collection pass and resolves a request's parent by its new path in the old map | roots `a` (handle 1) and `b` (handle 2) swap places; request `q` of `a` (handle 3) is filed under handle 2, which is `b` | file each request under the handle of its real parent collection | high, not executed | Findings.RequestFiledUnderOldOccupant | Placement.ReconcileRequestPaths |
