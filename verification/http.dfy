/** The HTTP source repository. The server is an oracle: for each path below
    the base URL it either answers with a status and a body, or (when it is
    unreachable) the request fails. The catalogue is kept in a single-slot
    cache that expires once more than `cacheTtl` time units have passed
    since it was filled; `now` is the clock reading of the call. */
module HttpRepo {
  import opened Pak

  const IndexPath := "index.yml"
  const ManifestPath := "manifest.yml"

  /** An HTTP response: its status code and its body stream. */
  datatype Reply = Reply(status: int, body: Reader)

  /** The remote server as the client sees it; a path it has no reply for
      is answered with 404. */
  datatype Server = Server(reachable: bool, replies: map<Path, Reply>)

  /** The client's state: the cache's time to live, the cached catalogue,
      and when it was cached. */
  datatype Repository = Repository(cacheTtl: int, cachedIndex: Option<SpecIndex>, cacheTime: Time)

  /** A new client: no time to live (every later clock reading expires the
      cache) and nothing cached. */
  function New(): (r: Repository)
    ensures r.cacheTtl == 0 && r.cachedIndex.None?
  {
    Repository(0, None, 0)
  }

  function ManifestPathOf(id: string, version: string): Path {
    Join([id, version, ManifestPath])
  }

  function FilePathOf(id: string, version: string, file: string): Path {
    Join([id, version, file])
  }

  function ReplyTo(server: Server, path: Path): Reply {
    if path in server.replies then server.replies[path] else Reply(404, Reader(Data([]), None))
  }

  /** A GET request: the body of a reply below 400, otherwise an error. A
      status error carries only the status, nothing to unwrap. */
  function Fetch(server: Server, path: Path): (r: Result<Reader>)
    ensures r.Ok? <==> server.reachable && ReplyTo(server, path).status < 400
    ensures r.Ok? ==> r.value == ReplyTo(server, path).body
    ensures !server.reachable ==> r == Err(Wrapped(RequestingRemoteFile, RequestFailed))
    ensures server.reachable && ReplyTo(server, path).status >= 400 ==> r == Err(BadStatus(ReplyTo(server, path).status))
    ensures server.reachable && path !in server.replies ==> r == Err(BadStatus(404))
  {
    if !server.reachable then Err(Wrapped(RequestingRemoteFile, RequestFailed))
    else
      var reply := ReplyTo(server, path);
      if reply.status >= 400 then Err(BadStatus(reply.status)) else Ok(reply.body)
  }

  /** The cache holds a catalogue that has not yet expired at `now`. */
  predicate CacheValid(repo: Repository, now: Time) {
    repo.cachedIndex.Some? && now - repo.cacheTime <= repo.cacheTtl
  }

  /** Drops a cached catalogue once strictly more than the time to live has
      passed; an empty cache stays empty. */
  function CheckCacheExpired(repo: Repository, now: Time): (r: Repository)
    ensures r.cacheTtl == repo.cacheTtl && r.cacheTime == repo.cacheTime
    ensures r.cachedIndex.Some? <==> CacheValid(repo, now)
    ensures r.cachedIndex.Some? ==> r.cachedIndex == repo.cachedIndex
  {
    if repo.cachedIndex.None? then repo
    else if now - repo.cacheTime > repo.cacheTtl then repo.(cachedIndex := None)
    else repo
  }

  /** The catalogue a fresh fetch would obtain from the server, if any. */
  ghost function Served(server: Server): Option<SpecIndex> {
    var reply := ReplyTo(server, [IndexPath]);
    if server.reachable && reply.status < 400 && reply.body.fault.None? && reply.body.delivered.IndexDoc?
    then Some(reply.body.delivered.index)
    else None
  }

  /** The catalogue: from the cache while it is valid, otherwise fetched and
      cached with the clock reading; a failed fetch or decode leaves the
      cache empty, so the next call tries again. */
  function GetIndex(repo: Repository, server: Server, now: Time): (r: (Result<SpecIndex>, Repository))
    ensures r.1.cacheTtl == repo.cacheTtl
    ensures CacheValid(repo, now) ==> r == (Ok(repo.cachedIndex.value), repo)
    ensures !CacheValid(repo, now) ==> (r.0.Ok? <==> Served(server).Some?)
    ensures !CacheValid(repo, now) && r.0.Ok? ==>
      r.0.value == Served(server).value && r.1.cachedIndex == Some(r.0.value) && r.1.cacheTime == now
    ensures !CacheValid(repo, now) && r.0.Err? ==>
      r.1.cachedIndex.None? && r.1.cacheTime == repo.cacheTime
  {
    var checked := CheckCacheExpired(repo, now);
    if checked.cachedIndex.Some? then (Ok(checked.cachedIndex.value), checked)
    else
      match Fetch(server, [IndexPath])
      case Err(e) => (Err(Wrapped(GettingIndexFile, e)), checked)
      case Ok(body) =>
        match ReadSpecIndex(body)
        case Err(e) => (Err(Wrapped(ReadingIndexFile, e)), checked)
        case Ok(index) => (Ok(index), checked.(cachedIndex := Some(index), cacheTime := now))
  }

  /** Asking again at the same clock reading gives the same answer and
      leaves the client as the first call left it. */
  lemma GetIndexIsStable(repo: Repository, server: Server, now: Time)
    ensures var (r1, repo1) := GetIndex(repo, server, now);
      GetIndex(repo1, server, now) == (r1, repo1)
  {
  }

  /** A valid cache answers without consulting the server. */
  lemma CachedIndexIgnoresServer(repo: Repository, s1: Server, s2: Server, now: Time)
    requires CacheValid(repo, now)
    ensures GetIndex(repo, s1, now) == GetIndex(repo, s2, now)
  {
  }

  /** At exactly the time to live the cache still answers; one unit later an
      unreachable server makes the call fail. */
  lemma ExpiryIsStrict()
    ensures var repo := Repository(10, Some(map[]), 0);
      var down := Server(false, map[]);
      && GetIndex(repo, down, 10) == (Ok(map[]), repo)
      && GetIndex(repo, down, 11).0 == Err(Wrapped(GettingIndexFile, Wrapped(RequestingRemoteFile, RequestFailed)))
      && GetIndex(repo, down, 11).1.cachedIndex.None?
  {
  }

  /** The catalogue entry of id: not found when the catalogue lacks it, an
      error when the catalogue cannot be obtained. */
  function GetSpec(repo: Repository, server: Server, now: Time, id: string): (r: (Lookup<Spec>, Repository))
    ensures r.1 == GetIndex(repo, server, now).1
    ensures GetIndex(repo, server, now).0.Err? ==>
      r.0 == Failed(Wrapped(GettingIndex, GetIndex(repo, server, now).0.error))
    ensures GetIndex(repo, server, now).0.Ok? ==>
      var index := GetIndex(repo, server, now).0.value;
      (r.0.Found? <==> id in index) && !r.0.Failed? && (r.0.Found? ==> r.0.value == index[id])
  {
    var (result, repo1) := GetIndex(repo, server, now);
    match result
    case Err(e) => (Failed(Wrapped(GettingIndex, e)), repo1)
    case Ok(index) => (if id in index then Found(index[id]) else NotFound, repo1)
  }

  /** The whole catalogue, through the cache. */
  function List(repo: Repository, server: Server, now: Time): (r: (Result<SpecIndex>, Repository))
    ensures CacheValid(repo, now) ==> r == (Ok(repo.cachedIndex.value), repo)
    ensures !CacheValid(repo, now) ==> (r.0.Ok? <==> Served(server).Some?)
    ensures !CacheValid(repo, now) && r.0.Ok? ==> r.0.value == Served(server).value
    ensures r.0.Ok? ==> r.1.cachedIndex == Some(r.0.value)
    ensures r.0.Err? ==> r.1.cachedIndex.None?
  {
    GetIndex(repo, server, now)
  }

  /** The manifest at `<id>/<version>/manifest.yml` (`<id>/manifest.yml` for
      an empty version). A manifest whose version differs from a non-empty
      requested version counts as not found; fetch and decode failures are
      errors. */
  function GetManifest(server: Server, id: string, version: string): (r: Lookup<Manifest>)
    ensures r.Found? ==> version == "" || r.value.version == version
    ensures var reply := ReplyTo(server, ManifestPathOf(id, version));
      var readable := server.reachable && reply.status < 400 && reply.body.fault.None? && reply.body.delivered.ManifestDoc?;
      && (r.Failed? <==> !readable)
      && (readable ==> var m := reply.body.delivered.manifest;
            (r.NotFound? <==> version != "" && version != m.version) && (r.Found? ==> r.value == m))
  {
    match Fetch(server, ManifestPathOf(id, version))
    case Err(e) => Failed(Wrapped(GettingManifestFile, e))
    case Ok(body) =>
      match ReadManifest(body)
      case Err(e) => Failed(Wrapped(ReadingManifestFile, e))
      case Ok(m) => if version != "" && version != m.version then NotFound else Found(m)
  }

  /** The body of `<id>/<version>/<file>`; never a nil reader. */
  function GetFile(server: Server, id: string, version: string, file: string): (r: Result<Option<Reader>>)
    ensures r.Ok? <==> server.reachable && ReplyTo(server, FilePathOf(id, version, file)).status < 400
    ensures r.Ok? ==> r.value == Some(ReplyTo(server, FilePathOf(id, version, file)).body)
    ensures r.Err? ==> r.error.Wrapped? && r.error.context == GettingFile
  {
    match Fetch(server, FilePathOf(id, version, file))
    case Err(e) => Err(Wrapped(GettingFile, e))
    case Ok(body) => Ok(Some(body))
  }
}
