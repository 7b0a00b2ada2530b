/** The in-memory repository: a catalogue, manifests keyed by (id, version)
    and file contents keyed by (id, version, file name). It serves as a
    source; `Write` and `Delete` set it up. Go maps are reference values, so
    `List` copies; here every map is a value and the copy is implicit. */
module MemoryRepo {
  import opened Pak

  datatype FileKey = FileKey(spec: InstallSpec, file: string)

  datatype Repository = Repository(
    index: SpecIndex,
    manifests: map<InstallSpec, Manifest>,
    files: map<FileKey, Content>)

  function New(): (r: Repository)
    ensures r.index == map[] && r.manifests == map[] && r.files == map[]
  {
    Repository(map[], map[], map[])
  }

  function KeyOf(id: string, version: string, file: string): FileKey {
    FileKey(InstallSpec(id, version), file)
  }

  /** The catalogue entry for id; an unknown id is not found, never an error. */
  function GetSpec(repo: Repository, id: string): (r: Lookup<Spec>)
    ensures !r.Failed?
    ensures r.Found? <==> id in repo.index
    ensures r.Found? ==> r.value == repo.index[id]
  {
    if id in repo.index then Found(repo.index[id]) else NotFound
  }

  /** The whole catalogue; listing never fails. */
  function List(repo: Repository): (r: Result<SpecIndex>)
    ensures r.Ok? && r.value.Keys == repo.index.Keys
    ensures forall id :: id in r.value ==> r.value[id] == repo.index[id]
  {
    Ok(map id | id in repo.index :: repo.index[id])
  }

  /** The manifest stored under exactly (id, version); an empty version is a
      key like any other and is not resolved to the latest version. */
  function GetManifest(repo: Repository, id: string, version: string): (r: Lookup<Manifest>)
    ensures !r.Failed?
    ensures r.Found? <==> InstallSpec(id, version) in repo.manifests
    ensures r.Found? ==> r.value == repo.manifests[InstallSpec(id, version)]
  {
    var key := InstallSpec(id, version);
    if key in repo.manifests then Found(repo.manifests[key]) else NotFound
  }

  /** A reader over the stored content; for a missing file, no reader and no
      error. */
  function GetFile(repo: Repository, id: string, version: string, file: string): (r: Result<Option<Reader>>)
    ensures r.Ok?
    ensures r.value.Some? <==> KeyOf(id, version, file) in repo.files
    ensures r.value.Some? ==> r.value.value == Reader(repo.files[KeyOf(id, version, file)], None)
  {
    var key := KeyOf(id, version, file);
    if key in repo.files then Ok(Some(Reader(repo.files[key], None))) else Ok(None)
  }

  /** Stores everything the reader delivers under (id, version, file). A
      broken reader fails the copy and stores nothing; a nil reader crashes
      the copy. */
  function Write(repo: Repository, id: string, version: string, file: string, data: Option<Reader>): (r: (Run<()>, Repository))
    ensures r.1.index == repo.index && r.1.manifests == repo.manifests
    ensures data.None? ==> r.0 == Panicked(NilReader) && r.1 == repo
    ensures data.Some? && data.value.fault.Some? ==> r.0 == Errored(data.value.fault.value) && r.1 == repo
    ensures data.Some? && data.value.fault.None? ==>
      && r.0.Returned?
      && r.1.files.Keys == repo.files.Keys + {KeyOf(id, version, file)}
      && r.1.files[KeyOf(id, version, file)] == data.value.delivered
      && forall k :: k in repo.files && k != KeyOf(id, version, file) ==> r.1.files[k] == repo.files[k]
  {
    match data
    case None => (Panicked(NilReader), repo)
    case Some(rd) =>
      match rd.fault
      case Some(e) => (Errored(e), repo)
      case None => (Returned(()), repo.(files := repo.files[KeyOf(id, version, file) := rd.delivered]))
  }

  /** Removes the catalogue entry and every manifest and file of id; never
      fails. */
  function Delete(repo: Repository, id: string): (r: Repository)
    ensures r.index.Keys == repo.index.Keys - {id}
    ensures forall k :: k in r.index ==> r.index[k] == repo.index[k]
    ensures forall k :: k in r.manifests <==> k in repo.manifests && k.id != id
    ensures forall k :: k in r.manifests ==> r.manifests[k] == repo.manifests[k]
    ensures forall k :: k in r.files <==> k in repo.files && k.spec.id != id
    ensures forall k :: k in r.files ==> r.files[k] == repo.files[k]
  {
    Repository(
      repo.index - {id},
      map k | k in repo.manifests && k.id != id :: repo.manifests[k],
      map k | k in repo.files && k.spec.id != id :: repo.files[k])
  }

  /** Reading back a complete write yields what was written, and no other
      file changes. */
  lemma WriteThenGetFile(repo: Repository, id: string, version: string, file: string, c: Content,
                         id': string, version': string, file': string)
    ensures var w := Write(repo, id, version, file, Some(Reader(c, None)));
      && w.0 == Returned(())
      && GetFile(w.1, id, version, file) == Ok(Some(Reader(c, None)))
      && (KeyOf(id', version', file') != KeyOf(id, version, file) ==>
            GetFile(w.1, id', version', file') == GetFile(repo, id', version', file'))
  {
  }

  /** After deleting id nothing of it can be found, and every other package
      reads as before. */
  lemma DeleteThenLookups(repo: Repository, id: string, other: string, version: string, file: string)
    requires other != id
    ensures var d := Delete(repo, id);
      && GetSpec(d, id) == NotFound
      && GetManifest(d, id, version) == NotFound
      && GetFile(d, id, version, file) == Ok(None)
      && GetSpec(d, other) == GetSpec(repo, other)
      && GetManifest(d, other, version) == GetManifest(repo, other, version)
      && GetFile(d, other, version, file) == GetFile(repo, other, version, file)
  {
  }
}
