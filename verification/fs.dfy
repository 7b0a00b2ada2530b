/** The file-system repository, over an abstract directory tree: a map from
    paths below the base directory to file contents. As the local store it
    keeps each installed package under `<id>/`, its manifest in
    `<id>/manifest` and its files in `<id>/<file>`; as a source it reads
    `index.yml`, `<id>/<version>/manifest.yml` and `<id>/<version>/<file>`. */
module FsRepo {
  import opened Pak
  import Sequences

  const IndexPath := "index.yml"
  const ManifestPath := "manifest"
  const RemoteManifestPath := "manifest.yml"

  /** Whether the base directory exists, and the content of every file below it. */
  datatype Store = Store(baseExists: bool, files: map<Path, Content>)

  /** No file is stored below a missing base directory. The operations
      keep this (`UpdatesKeepValid`); no contract relies on it, since every
      one holds for all stores. */
  predicate Valid(st: Store) {
    !st.baseExists ==> st.files == map[]
  }

  function ManifestPathOf(id: string): Path {
    Join([id, ManifestPath])
  }

  function FilePathOf(id: string, name: string): Path {
    Join([id, name])
  }

  /** The paths of the named files of package id. */
  function PathsOf(id: string, names: seq<string>): set<Path> {
    set n | n in names :: FilePathOf(id, n)
  }

  /** A file of a package lives at the manifest's path only if it is named `manifest`. */
  lemma FilePathIsManifestPath(id: string, name: string)
    ensures FilePathOf(id, name) == ManifestPathOf(id) <==> name == ManifestPath
  {
    if FilePathOf(id, name) == ManifestPathOf(id) {
      JoinTwoInjective(id, name, ManifestPath);
    }
  }

  /** Distinct names of one package have distinct paths. */
  lemma PathsOfNames(id: string, names: seq<string>, n: string)
    ensures FilePathOf(id, n) in PathsOf(id, names) <==> n in names
  {
    if FilePathOf(id, n) in PathsOf(id, names) {
      var k :| k in names && FilePathOf(id, k) == FilePathOf(id, n);
      JoinTwoInjective(id, k, n);
    }
  }

  /** m is installed: it is stored, decodable, at its own id's manifest path. */
  ghost predicate IsInstalled(st: Store, m: Manifest) {
    ManifestPathOf(m.id) in st.files && st.files[ManifestPathOf(m.id)] == ManifestDoc(m)
  }

  /** The manifest of id; a missing manifest file means "not installed" and
      is not an error, while one that does not decode is. */
  function GetInstalledManifest(st: Store, id: string): (r: Lookup<Manifest>)
    ensures r.NotFound? <==> ManifestPathOf(id) !in st.files
    ensures r.Found? <==> ManifestPathOf(id) in st.files && st.files[ManifestPathOf(id)].ManifestDoc?
    ensures r.Found? ==> r.value == st.files[ManifestPathOf(id)].manifest
    ensures r.Failed? ==> Cause(r.error) == Malformed
  {
    var path := ManifestPathOf(id);
    if path !in st.files then NotFound
    else
      match DecodeManifest(st.files[path])
      case Ok(m) => Found(m)
      case Err(e) => Failed(e)
  }

  /** The order `filepath.Walk` visits files in: directory entries sorted by
      name, depth first, which is the lexicographic order of paths. */
  function PathLess(a: Path, b: Path): bool {
    Sequences.LexLess(a, b, Sequences.StringLess)
  }

  lemma PathLessIsStrictTotal()
    ensures Sequences.StrictTotalOrder(PathLess)
  {
    Sequences.StringLessIsStrictTotal();
    forall a: Path
      ensures !PathLess(a, a)
    {
      Sequences.LexIrreflexive(a, Sequences.StringLess);
    }
    forall a: Path, b: Path, c: Path | PathLess(a, b) && PathLess(b, c)
      ensures PathLess(a, c)
    {
      Sequences.LexTransitive(a, b, c, Sequences.StringLess);
    }
    forall a: Path, b: Path | a != b
      ensures PathLess(a, b) || PathLess(b, a)
    {
      Sequences.LexConnected(a, b, Sequences.StringLess);
    }
  }

  function BaseName(p: Path): string {
    if p == [] then "" else p[|p| - 1]
  }

  /** The walk keeps the file at p: it is named `manifest`, it decodes, and
      it sits at the manifest path of the id it declares. */
  predicate IsOwnManifest(st: Store, p: Path) {
    && p in st.files
    && BaseName(p) == ManifestPath
    && match DecodeManifest(st.files[p]) {
         case Ok(m) => p == ManifestPathOf(m.id)
         case Err(_) => false
       }
  }

  /** Every file of the tree, in walk order. */
  function WalkOrder(st: Store): (r: seq<Path>)
    ensures forall p :: p in r <==> p in st.files
    ensures Sequences.StrictlySorted(r, PathLess)
  {
    PathLessIsStrictTotal();
    Sequences.SortSet(st.files.Keys, PathLess)
  }

  lemma ManifestPathIsOwn(st: Store, m: Manifest)
    requires IsInstalled(st, m)
    ensures IsOwnManifest(st, ManifestPathOf(m.id))
  {
    JoinTwo(m.id, ManifestPath);
  }

  /** The manifests the walk keeps, in the order it visits their files. */
  function Collect(st: Store, walk: seq<Path>): (r: seq<Manifest>)
    ensures forall m :: m in r ==> IsInstalled(st, m) && ManifestPathOf(m.id) in walk
    ensures forall m :: IsInstalled(st, m) && ManifestPathOf(m.id) in walk ==> m in r
    ensures Sequences.StrictlySorted(walk, PathLess) ==>
      forall i, j :: 0 <= i < j < |r| ==> PathLess(ManifestPathOf(r[i].id), ManifestPathOf(r[j].id))
  {
    if walk == [] then []
    else
      var rest := Collect(st, walk[1..]);
      forall m | IsInstalled(st, m) && ManifestPathOf(m.id) in walk
        ensures m in rest || (IsOwnManifest(st, walk[0]) && st.files[walk[0]].manifest == m)
      {
        ManifestPathIsOwn(st, m);
      }
      (if IsOwnManifest(st, walk[0]) then [st.files[walk[0]].manifest] else []) + rest
  }

  /** The installed packages, in walk order. Files that do not decode, or
      that sit anywhere but at their own id's manifest path, are skipped; a
      missing base directory fails the walk. */
  function ListInstalled(st: Store): (r: Result<seq<Manifest>>)
    ensures r.Ok? <==> st.baseExists
    ensures r.Err? ==> r.error == Wrapped(WalkingRepository, NotExist([]))
    ensures r.Ok? ==> forall m :: m in r.value <==> IsInstalled(st, m)
    ensures r.Ok? ==> forall i, j :: 0 <= i < j < |r.value| ==>
      PathLess(ManifestPathOf(r.value[i].id), ManifestPathOf(r.value[j].id))
  {
    if !st.baseExists then Err(Wrapped(WalkingRepository, NotExist([])))
    else Ok(Collect(st, WalkOrder(st)))
  }

  /** Stores what the reader delivers at `<id>/<file>`; the version plays no
      part. The file is created (or truncated) before the copy, so a broken
      reader leaves what it delivered, and a nil reader leaves an empty file
      and crashes the copy. */
  function Write(st: Store, id: string, version: string, file: string, data: Option<Reader>): (r: (Run<()>, Store))
    ensures r.1.baseExists
    ensures r.1.files.Keys == st.files.Keys + {FilePathOf(id, file)}
    ensures forall p :: p in st.files && p != FilePathOf(id, file) ==> r.1.files[p] == st.files[p]
    ensures r.0.Returned? <==> data.Some? && data.value.fault.None?
    ensures r.0.Panicked? <==> data.None?
    ensures data.Some? ==> r.1.files[FilePathOf(id, file)] == data.value.delivered
    ensures data.None? ==> r.0.site == NilReader && r.1.files[FilePathOf(id, file)] == Data([])
  {
    var path := FilePathOf(id, file);
    match data
    case None => (Panicked(NilReader), Store(true, st.files[path := Data([])]))
    case Some(rd) =>
      var written := Store(true, st.files[path := rd.delivered]);
      match rd.fault
      case Some(e) => (Errored(Wrapped(WritingFile(path), e)), written)
      case None => (Returned(()), written)
  }

  lemma WriteIgnoresVersion(st: Store, id: string, v1: string, v2: string, file: string, data: Option<Reader>)
    ensures Write(st, id, v1, file, data) == Write(st, id, v2, file, data)
  {
  }

  /** Replaces the manifest stored for `m.id`; reading it back yields m. */
  function WriteManifest(st: Store, m: Manifest): (r: Store)
    ensures r.baseExists
    ensures GetInstalledManifest(r, m.id) == Found(m)
    ensures r.files.Keys == st.files.Keys + {ManifestPathOf(m.id)}
    ensures forall p :: p in st.files && p != ManifestPathOf(m.id) ==> r.files[p] == st.files[p]
  {
    Store(true, st.files[ManifestPathOf(m.id) := ManifestDoc(m)])
  }

  /** The named files of id exist and no name repeats, so removing them one
      by one succeeds. */
  ghost predicate Removable(st: Store, id: string, names: seq<string>) {
    && (forall i :: 0 <= i < |names| ==> FilePathOf(id, names[i]) in st.files)
    && (forall i, j :: 0 <= i < j < |names| ==> names[i] != names[j])
  }

  /** Removes the named files of id in order, stopping with an error at the
      first that is missing; files removed before it stay removed. */
  function RemoveFiles(st: Store, id: string, names: seq<string>): (r: (Result<()>, Store))
    ensures r.1.baseExists == st.baseExists
    ensures forall p :: p in r.1.files ==> p in st.files && r.1.files[p] == st.files[p]
    ensures r.1.files.Keys >= st.files.Keys - PathsOf(id, names)
    ensures r.0.Ok? <==> Removable(st, id, names)
    ensures r.0.Ok? ==> r.1.files.Keys == st.files.Keys - PathsOf(id, names)
    decreases |names|
  {
    if names == [] then (Ok(()), st)
    else
      var path := FilePathOf(id, names[0]);
      if path !in st.files then (Err(Wrapped(RemovingFile(path), NotExist(path))), st)
      else
        RemoveFilesStep(st, id, names);
        assert PathsOf(id, names) == {path} + PathsOf(id, names[1..]);
        RemoveFiles(Store(st.baseExists, st.files - {path}), id, names[1..])
  }

  /** Once the first name is removed, the rest are removable exactly when
      the whole list was. */
  lemma RemoveFilesStep(st: Store, id: string, names: seq<string>)
    requires names != [] && FilePathOf(id, names[0]) in st.files
    ensures Removable(Store(st.baseExists, st.files - {FilePathOf(id, names[0])}), id, names[1..])
        <==> Removable(st, id, names)
  {
    var path := FilePathOf(id, names[0]);
    var st1 := Store(st.baseExists, st.files - {path});
    var rest := names[1..];
    if Removable(st, id, names) {
      forall i | 0 <= i < |rest|
        ensures FilePathOf(id, rest[i]) in st1.files
      {
        assert rest[i] == names[i + 1];
        assert names[0] != names[i + 1];
        if FilePathOf(id, rest[i]) == path {
          JoinTwoInjective(id, rest[i], names[0]);
        }
      }
      forall i, j | 0 <= i < j < |rest|
        ensures rest[i] != rest[j]
      {
        assert rest[i] == names[i + 1] && rest[j] == names[j + 1];
      }
    }
    if Removable(st1, id, rest) {
      forall i | 0 <= i < |names|
        ensures FilePathOf(id, names[i]) in st.files
      {
        if i > 0 {
          assert names[i] == rest[i - 1];
        }
      }
      forall i, j | 0 <= i < j < |names|
        ensures names[i] != names[j]
      {
        if i == 0 {
          assert names[j] == rest[j - 1];
          assert FilePathOf(id, names[j]) in st1.files;
        } else {
          assert names[i] == rest[i - 1] && names[j] == rest[j - 1];
        }
      }
    }
  }

  /** The files removed before position k, seen from the store after the
      first of them is gone. */
  lemma PathsOfPrefix(id: string, names: seq<string>, k: nat)
    requires 0 < k <= |names|
    ensures PathsOf(id, names[..k]) == {FilePathOf(id, names[0])} + PathsOf(id, names[1..][..k - 1])
  {
    assert names[..k] == [names[0]] + names[1..][..k - 1];
  }

  /** The file at position k still cannot be removed after the first file is. */
  lemma StillUnremovable(st: Store, id: string, names: seq<string>, k: nat)
    requires 0 < k < |names|
    requires FilePathOf(id, names[k]) !in st.files || names[k] in names[..k]
    ensures var st1 := Store(st.baseExists, st.files - {FilePathOf(id, names[0])});
      FilePathOf(id, names[k]) !in st1.files || names[1..][k - 1] in names[1..][..k - 1]
  {
    assert names[1..][k - 1] == names[k];
    if names[k] != names[0] && names[k] in names[..k] {
      var i :| 0 <= i < k && names[i] == names[k];
      assert names[1..][..k - 1][i - 1] == names[k];
    }
  }

  /** When the file at position k is the first that cannot be removed
      (missing, or already removed under an earlier copy of its name), the
      files before it are gone, everything else stays, and the error names
      that file. */
  lemma {:induction false} RemoveFilesStopsAt(st: Store, id: string, names: seq<string>, k: nat)
    requires k < |names|
    requires Removable(st, id, names[..k])
    requires FilePathOf(id, names[k]) !in st.files || names[k] in names[..k]
    ensures var path := FilePathOf(id, names[k]);
      RemoveFiles(st, id, names)
        == (Err(Wrapped(RemovingFile(path), NotExist(path))), Store(st.baseExists, st.files - PathsOf(id, names[..k])))
    decreases k
  {
    if k == 0 {
      assert names[..0] == [];
      assert FilePathOf(id, names[0]) !in st.files;
      assert PathsOf(id, names[..0]) == {};
      assert st.files - PathsOf(id, names[..0]) == st.files;
    } else {
      var path0 := FilePathOf(id, names[0]);
      assert names[..k][0] == names[0];
      var st1 := Store(st.baseExists, st.files - {path0});
      RemoveFilesStep(st, id, names[..k]);
      assert names[..k][1..] == names[1..][..k - 1];
      StillUnremovable(st, id, names, k);
      RemoveFilesStopsAt(st1, id, names[1..], k - 1);
      PathsOfPrefix(id, names, k);
      assert st1.files - PathsOf(id, names[1..][..k - 1]) == st.files - PathsOf(id, names[..k]);
    }
  }

  lemma ManifestPathListed(id: string, names: seq<string>)
    ensures ManifestPathOf(id) in PathsOf(id, names) <==> ManifestPath in names
  {
    forall n | n in names
      ensures FilePathOf(id, n) == ManifestPathOf(id) <==> n == ManifestPath
    {
      FilePathIsManifestPath(id, n);
    }
  }

  /** Deletes package id: exactly the files its manifest lists, then the
      manifest. A package that is not installed is left alone without error. */
  function Delete(st: Store, id: string): (r: (Result<()>, Store))
    ensures r.1.baseExists == st.baseExists
    ensures forall p :: p in r.1.files ==> p in st.files && r.1.files[p] == st.files[p]
    ensures GetInstalledManifest(st, id).NotFound? ==> r == (Ok(()), st)
    ensures GetInstalledManifest(st, id).Failed? ==> r.0.Err? && r.1 == st
    ensures r.0.Ok? ==> GetInstalledManifest(r.1, id).NotFound?
    ensures GetInstalledManifest(st, id).Found? ==>
      var m := GetInstalledManifest(st, id).value;
      && r.1.files.Keys >= st.files.Keys - PathsOf(id, m.files) - {ManifestPathOf(id)}
      && (r.0.Ok? <==> Removable(st, id, m.files) && ManifestPath !in m.files)
      && (r.0.Ok? ==> r.1.files.Keys == st.files.Keys - PathsOf(id, m.files) - {ManifestPathOf(id)})
      && (r.0.Err? && ManifestPath !in m.files ==> GetInstalledManifest(r.1, id) == Found(m))
  {
    match GetInstalledManifest(st, id)
    case Failed(e) => (Err(Wrapped(GettingInstalledManifest, e)), st)
    case NotFound => (Ok(()), st)
    case Found(m) =>
      var removed := RemoveFiles(st, id, m.files);
      var manifestPath := ManifestPathOf(id);
      ManifestPathListed(id, m.files);
      if removed.0.Err? then removed
      else if manifestPath !in removed.1.files then
        (Err(Wrapped(RemovingManifest, NotExist(manifestPath))), removed.1)
      else (Ok(()), Store(removed.1.baseExists, removed.1.files - {manifestPath}))
  }

  /** Writing and deleting never leave a file below a missing base directory. */
  lemma UpdatesKeepValid(st: Store, id: string, version: string, file: string, data: Option<Reader>, m: Manifest)
    requires Valid(st)
    ensures Valid(Write(st, id, version, file, data).1)
    ensures Valid(WriteManifest(st, m))
    ensures Valid(Delete(st, id).1)
  {
  }

  /** Deleting a package removes its manifest and listed files and leaves
      every other file as it was. */
  lemma DeleteIsExact(st: Store, id: string, m: Manifest)
    requires GetInstalledManifest(st, id) == Found(m)
    requires Removable(st, id, m.files) && ManifestPath !in m.files
    ensures Delete(st, id).0 == Ok(())
    ensures Delete(st, id).1 == Store(st.baseExists, st.files - PathsOf(id, m.files) - {ManifestPathOf(id)})
  {
    var r := Delete(st, id).1;
    var expected := st.files - PathsOf(id, m.files) - {ManifestPathOf(id)};
    assert r.files.Keys == expected.Keys;
    assert forall p :: p in r.files ==> r.files[p] == expected[p];
    assert r.files == expected;
  }

  // The store used as a source.

  function RemoteManifestPathOf(id: string, version: string): Path {
    Join([id, version, RemoteManifestPath])
  }

  function RemoteFilePathOf(id: string, version: string, file: string): Path {
    Join([id, version, file])
  }

  /** The catalogue in `index.yml`. */
  function ReadIndex(st: Store): (r: Result<SpecIndex>)
    ensures r.Ok? <==> [IndexPath] in st.files && st.files[[IndexPath]].IndexDoc?
    ensures r.Ok? ==> r.value == st.files[[IndexPath]].index
  {
    var path := [IndexPath];
    if path !in st.files then Err(Wrapped(GettingIndexFile, NotExist(path)))
    else
      match DecodeIndex(st.files[path])
      case Ok(i) => Ok(i)
      case Err(e) => Err(Wrapped(ReadingIndexFile, e))
  }

  /** The whole catalogue: an error unless `index.yml` exists and holds a
      catalogue. */
  function List(st: Store): (r: Result<SpecIndex>)
    ensures r.Ok? <==> [IndexPath] in st.files && st.files[[IndexPath]].IndexDoc?
    ensures r.Ok? ==> r.value == st.files[[IndexPath]].index
    ensures [IndexPath] !in st.files ==> r == Err(Wrapped(GettingIndexFile, NotExist([IndexPath])))
    ensures [IndexPath] in st.files && r.Err? ==> r.error.Wrapped? && r.error.context == ReadingIndexFile
  {
    ReadIndex(st)
  }

  /** The catalogue entry of id: not found when the catalogue lacks it, an
      error when the catalogue cannot be read. */
  function GetSpec(st: Store, id: string): (r: Lookup<Spec>)
    ensures ReadIndex(st).Err? ==> r == Failed(Wrapped(GettingIndex, ReadIndex(st).error))
    ensures ReadIndex(st).Ok? ==> (r.Found? <==> id in ReadIndex(st).value) && !r.Failed?
    ensures r.Found? ==> r.value == ReadIndex(st).value[id]
  {
    match ReadIndex(st)
    case Err(e) => Failed(Wrapped(GettingIndex, e))
    case Ok(index) => if id in index then Found(index[id]) else NotFound
  }

  /** The manifest in `<id>/<version>/manifest.yml`, or in `<id>/manifest.yml`
      for an empty version. A missing file is an error, never "not found",
      and the manifest's own version is not compared with the one asked for. */
  function GetManifest(st: Store, id: string, version: string): (r: Lookup<Manifest>)
    ensures !r.NotFound?
    ensures r.Found? <==> RemoteManifestPathOf(id, version) in st.files && st.files[RemoteManifestPathOf(id, version)].ManifestDoc?
    ensures r.Found? ==> r.value == st.files[RemoteManifestPathOf(id, version)].manifest
  {
    var path := RemoteManifestPathOf(id, version);
    if path !in st.files then Failed(NotExist(path))
    else
      match DecodeManifest(st.files[path])
      case Ok(m) => Found(m)
      case Err(e) => Failed(e)
  }

  /** A manifest whose version field disagrees with the directory it is
      stored under is still returned. */
  lemma GetManifestTrustsDirectory()
    ensures var m := Manifest("widget", "Widget", "2.0", 0, []);
      var st := Store(true, map[RemoteManifestPathOf("widget", "1.0") := ManifestDoc(m)]);
      GetManifest(st, "widget", "1.0") == Found(m) && m.version != "1.0"
  {
  }

  /** A reader over `<id>/<version>/<file>`; a missing file is an error, and
      the reader is never nil. */
  function GetFile(st: Store, id: string, version: string, file: string): (r: Result<Option<Reader>>)
    ensures r.Ok? <==> RemoteFilePathOf(id, version, file) in st.files
    ensures r.Ok? ==> r.value == Some(Reader(st.files[RemoteFilePathOf(id, version, file)], None))
  {
    var path := RemoteFilePathOf(id, version, file);
    if path !in st.files then Err(Wrapped(GettingFile, NotExist(path)))
    else Ok(Some(Reader(st.files[path], None)))
  }
}
