/** A source repository, as the Manager sees it: one of the three
    implementations behind the same four calls. Only the HTTP source has
    state of its own (its catalogue cache); the clock reading it compares
    against is fixed for the source value. */
module Source {
  import opened Pak
  import MemoryRepo
  import FsRepo
  import HttpRepo

  datatype Remote =
    | MemorySource(mem: MemoryRepo.Repository)
    | FsSource(store: FsRepo.Store)
    | HttpSource(client: HttpRepo.Repository, server: HttpRepo.Server, now: Time)

  /** The catalogue the source currently answers with. */
  ghost function Catalogue(remote: Remote): Result<SpecIndex> {
    match remote
    case MemorySource(mem) => Ok(mem.index)
    case FsSource(store) => FsRepo.ReadIndex(store)
    case HttpSource(client, server, now) => HttpRepo.GetIndex(client, server, now).0
  }

  /** Two source values that differ at most in the HTTP cache. */
  predicate SameOrigin(a: Remote, b: Remote) {
    match a
    case MemorySource(_) => b == a
    case FsSource(_) => b == a
    case HttpSource(client, server, now) =>
      b.HttpSource? && b.server == server && b.now == now && b.client.cacheTtl == client.cacheTtl
  }

  /** The catalogue entry of id. It is determined by the catalogue, and the
      catalogue reads the same afterwards. */
  function GetSpec(remote: Remote, id: string): (r: (Lookup<Spec>, Remote))
    ensures SameOrigin(remote, r.1)
    ensures Catalogue(r.1) == Catalogue(remote)
    ensures Catalogue(remote).Err? ==> r.0 == Failed(Wrapped(GettingIndex, Catalogue(remote).error))
    ensures Catalogue(remote).Ok? ==> !r.0.Failed? && (r.0.Found? <==> id in Catalogue(remote).value)
    ensures r.0.Found? ==> Catalogue(remote).Ok? && r.0.value == Catalogue(remote).value[id]
  {
    match remote
    case MemorySource(mem) => (MemoryRepo.GetSpec(mem, id), remote)
    case FsSource(store) => (FsRepo.GetSpec(store, id), remote)
    case HttpSource(client, server, now) =>
      HttpRepo.GetIndexIsStable(client, server, now);
      var (spec, client1) := HttpRepo.GetSpec(client, server, now, id);
      (spec, HttpSource(client1, server, now))
  }

  /** The whole catalogue, which reads the same afterwards. */
  function List(remote: Remote): (r: (Result<SpecIndex>, Remote))
    ensures SameOrigin(remote, r.1)
    ensures Catalogue(r.1) == Catalogue(remote)
    ensures r.0.Ok? <==> Catalogue(remote).Ok?
    ensures r.0.Ok? ==> r.0.value == Catalogue(remote).value
    ensures r.0.Err? ==> r.0.error == Catalogue(remote).error
  {
    match remote
    case MemorySource(mem) => (MemoryRepo.List(mem), remote)
    case FsSource(store) => (FsRepo.List(store), remote)
    case HttpSource(client, server, now) =>
      HttpRepo.GetIndexIsStable(client, server, now);
      var (index, client1) := HttpRepo.List(client, server, now);
      (index, HttpSource(client1, server, now))
  }

  function GetManifest(remote: Remote, id: string, version: string): Lookup<Manifest> {
    match remote
    case MemorySource(mem) => MemoryRepo.GetManifest(mem, id, version)
    case FsSource(store) => FsRepo.GetManifest(store, id, version)
    case HttpSource(_, server, _) => HttpRepo.GetManifest(server, id, version)
  }

  function GetFile(remote: Remote, id: string, version: string, file: string): Result<Option<Reader>> {
    match remote
    case MemorySource(mem) => MemoryRepo.GetFile(mem, id, version, file)
    case FsSource(store) => FsRepo.GetFile(store, id, version, file)
    case HttpSource(_, server, _) => HttpRepo.GetFile(server, id, version, file)
  }

  /** Manifests and files do not go through the cache: source values of the
      same origin serve the same ones. */
  lemma SameOriginServesAlike(a: Remote, b: Remote, id: string, version: string, file: string)
    requires SameOrigin(a, b)
    ensures GetManifest(a, id, version) == GetManifest(b, id, version)
    ensures GetFile(a, id, version, file) == GetFile(b, id, version, file)
  {
  }

  lemma SameOriginIsTransitive(a: Remote, b: Remote, c: Remote)
    requires SameOrigin(a, b) && SameOrigin(b, c)
    ensures SameOrigin(a, c)
  {
  }
}
