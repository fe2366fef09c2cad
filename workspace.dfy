/**
 * The workspace service: the `Resource<T>` result of every provider getter, the provider
 * contract, and `NewWorkspaceService`, which keeps the registered providers by ID and hands
 * every call to the provider named in it.
 */
module Workspace {
  import opened Wrappers
  import opened CollectionTree

  type ProviderID = string
  type WorkspaceHandle = string

  /** What a provider getter answers: exactly one of four states. */
  datatype Resource<T> =
    | Loading
    | Available(data: T)
    | Unavailable
    | Error(humanError: Option<string>, error: string)

  datatype WorkspaceMeta = WorkspaceMeta(name: string)

  datatype CollectionMeta = CollectionMeta(name: string)

  datatype RequestMeta = RequestMeta(name: string, httpMethod: string)

  /** One listed child: its handle (as the provider's own handle value) and its display data. */
  datatype Listed<H, D> = Listed(handle: H, data: D)

  datatype CollectionChildren<H> = CollectionChildren(folders: seq<Listed<H, CollectionMeta>>, requests: seq<Listed<H, RequestMeta>>)

  /** `CreateRESTCollectionInput`, without the optional headers and auth. */
  datatype CreateCollectionInput = CreateCollectionInput(name: string)

  /** How a provider's promise settles. */
  datatype Settled<T> = Resolved(value: T) | Rejected(reason: string)

  /**
   * `WorkspaceProvider`: its persistable ID and its operations, over handles of type `H`. The
   * operations are given as functions: what a provider does inside them is its own business.
   */
  datatype WorkspaceProvider<!H> = WorkspaceProvider(
    providerID: ProviderID,
    getWorkspace: WorkspaceHandle -> Resource<WorkspaceMeta>,
    getRootRESTCollections: WorkspaceHandle -> Resource<seq<Listed<H, CollectionMeta>>>,
    getRESTCollectionChildren: H -> Resource<CollectionChildren<H>>,
    getRESTRequest: H -> Resource<Request>,
    createRESTCollection: (WorkspaceHandle, Option<H>, CreateCollectionInput) -> Settled<H>,
    createRESTRequest: (WorkspaceHandle, H, Request) -> Settled<H>,
    deleteRESTRequest: H -> Settled<()>,
    deleteRESTCollection: H -> Settled<()>)

  /** `currentWorkspace`'s value when set. */
  datatype WorkspaceRef = WorkspaceRef(provider: ProviderID, handle: WorkspaceHandle)

  /** The provider map after registering `p`: an ID already present keeps its first provider. */
  function WithProvider<H>(m: map<ProviderID, WorkspaceProvider<H>>, p: WorkspaceProvider<H>): map<ProviderID, WorkspaceProvider<H>>
  {
    if p.providerID in m then m else m[p.providerID := p]
  }

  /** `resolveProvider` on a provider map: the provider under `id`, or the error it throws. */
  function Resolve<H>(m: map<ProviderID, WorkspaceProvider<H>>, id: ProviderID): (r: Result<WorkspaceProvider<H>, string>)
    ensures r.Failure? <==> id !in m
    ensures r.Failure? ==> r.error == "Provider not found: " + id
    ensures r.Success? ==> r.value == m[id]
  {
    if id in m then Success(m[id]) else Failure("Provider not found: " + id)
  }

  /** Registering a provider under a new ID makes it resolvable and leaves every other ID as it was. */
  lemma RegisterFreshResolves<H>(m: map<ProviderID, WorkspaceProvider<H>>, p: WorkspaceProvider<H>, id: ProviderID)
    requires p.providerID !in m
    ensures Resolve(WithProvider(m, p), p.providerID) == Success(p)
    ensures id != p.providerID ==> Resolve(WithProvider(m, p), id) == Resolve(m, id)
  {
  }

  /** Registering again under a taken ID is a no-op: the first provider still answers. */
  lemma RegisterDuplicateKeepsFirst<H>(m: map<ProviderID, WorkspaceProvider<H>>, p: WorkspaceProvider<H>, id: ProviderID)
    requires p.providerID in m
    ensures WithProvider(m, p) == m
    ensures Resolve(WithProvider(m, p), id) == Resolve(m, id)
  {
  }

  class NewWorkspaceService<H> {
    var providerMap: map<ProviderID, WorkspaceProvider<H>>
    var currentWorkspace: Option<WorkspaceRef>

    /** No provider is registered and no workspace is current. */
    constructor()
      ensures providerMap == map[] && currentWorkspace == None
    {
      providerMap := map[];
      currentWorkspace := None;
    }

    /**
     * `registerWorkspaceProvider`: inserts `provider` under its ID unless that ID is taken, in
     * which case it only warns (`warned`) and changes nothing.
     */
    method RegisterWorkspaceProvider(provider: WorkspaceProvider<H>) returns (warned: bool)
      modifies this
      ensures warned <==> provider.providerID in old(providerMap)
      ensures warned ==> providerMap == old(providerMap)
      ensures !warned ==> providerMap == old(providerMap)[provider.providerID := provider]
      ensures providerMap == WithProvider(old(providerMap), provider)
      ensures currentWorkspace == old(currentWorkspace)
    {
      if provider.providerID in providerMap {
        warned := true;
        return;
      }
      warned := false;
      providerMap := providerMap[provider.providerID := provider];
    }

    /** `resolveProvider`. */
    function ResolveProvider(id: ProviderID): (r: Result<WorkspaceProvider<H>, string>)
      reads this
      ensures r == Resolve(providerMap, id)
    {
      Resolve(providerMap, id)
    }

    /** `getWorkspace`: the named provider's answer for the same handle, or the resolution error. */
    function GetWorkspace(provider: ProviderID, handle: WorkspaceHandle): (r: Result<Resource<WorkspaceMeta>, string>)
      reads this
      ensures provider !in providerMap <==> r.Failure?
      ensures provider in providerMap ==> r == Success(providerMap[provider].getWorkspace(handle))
    {
      match ResolveProvider(provider)
      case Failure(e) => Failure(e)
      case Success(p) => Success(p.getWorkspace(handle))
    }

    /** `getRootRESTCollections`: delegated unchanged. */
    function GetRootRESTCollections(provider: ProviderID, handle: WorkspaceHandle): (r: Result<Resource<seq<Listed<H, CollectionMeta>>>, string>)
      reads this
      ensures provider !in providerMap <==> r.Failure?
      ensures provider in providerMap ==> r == Success(providerMap[provider].getRootRESTCollections(handle))
    {
      match ResolveProvider(provider)
      case Failure(e) => Failure(e)
      case Success(p) => Success(p.getRootRESTCollections(handle))
    }

    /** `getRESTCollectionChildren`: delegated unchanged. */
    function GetRESTCollectionChildren(provider: ProviderID, handle: H): (r: Result<Resource<CollectionChildren<H>>, string>)
      reads this
      ensures provider !in providerMap <==> r.Failure?
      ensures provider in providerMap ==> r == Success(providerMap[provider].getRESTCollectionChildren(handle))
    {
      match ResolveProvider(provider)
      case Failure(e) => Failure(e)
      case Success(p) => Success(p.getRESTCollectionChildren(handle))
    }

    /** `getRESTRequest`: delegated unchanged. */
    function GetRESTRequest(provider: ProviderID, handle: H): (r: Result<Resource<Request>, string>)
      reads this
      ensures provider !in providerMap <==> r.Failure?
      ensures provider in providerMap ==> r == Success(providerMap[provider].getRESTRequest(handle))
    {
      match ResolveProvider(provider)
      case Failure(e) => Failure(e)
      case Success(p) => Success(p.getRESTRequest(handle))
    }

    /** `createRESTCollection`: delegated unchanged. */
    function CreateRESTCollection(provider: ProviderID, workspace: WorkspaceHandle, parent: Option<H>, input: CreateCollectionInput): (r: Result<Settled<H>, string>)
      reads this
      ensures provider !in providerMap <==> r.Failure?
      ensures provider in providerMap ==> r == Success(providerMap[provider].createRESTCollection(workspace, parent, input))
    {
      match ResolveProvider(provider)
      case Failure(e) => Failure(e)
      case Success(p) => Success(p.createRESTCollection(workspace, parent, input))
    }

    /** `createRESTRequest`: delegated unchanged. */
    function CreateRESTRequest(provider: ProviderID, workspace: WorkspaceHandle, parent: H, input: Request): (r: Result<Settled<H>, string>)
      reads this
      ensures provider !in providerMap <==> r.Failure?
      ensures provider in providerMap ==> r == Success(providerMap[provider].createRESTRequest(workspace, parent, input))
    {
      match ResolveProvider(provider)
      case Failure(e) => Failure(e)
      case Success(p) => Success(p.createRESTRequest(workspace, parent, input))
    }

    /** `deleteRESTRequest`: delegated unchanged. */
    function DeleteRESTRequest(provider: ProviderID, handle: H): (r: Result<Settled<()>, string>)
      reads this
      ensures provider !in providerMap <==> r.Failure?
      ensures provider in providerMap ==> r == Success(providerMap[provider].deleteRESTRequest(handle))
    {
      match ResolveProvider(provider)
      case Failure(e) => Failure(e)
      case Success(p) => Success(p.deleteRESTRequest(handle))
    }

    /** `deleteRESTCollection`: delegated unchanged. */
    function DeleteRESTCollection(provider: ProviderID, handle: H): (r: Result<Settled<()>, string>)
      reads this
      ensures provider !in providerMap <==> r.Failure?
      ensures provider in providerMap ==> r == Success(providerMap[provider].deleteRESTCollection(handle))
    {
      match ResolveProvider(provider)
      case Failure(e) => Failure(e)
      case Success(p) => Success(p.deleteRESTCollection(handle))
    }
  }
}
