/** The pak Manager: install, uninstall, upgrade and the upgradable query,
    as functions from an environment (the local file-system store and the
    source) to an outcome and the environment afterwards. The three places
    where the Go code dereferences nil are outcomes (`Panicked`), not
    preconditions. */
module Manager {
  import opened Pak
  import FsRepo
  import Source
  import Sequences

  datatype Env = Env(local: FsRepo.Store, remote: Source.Remote)

  /** The outcome of an operation and the environment it leaves. */
  datatype Step<T> = Step(run: Run<T>, env: Env)

  // ---------------------------------------------------------------------
  // Running a batch

  /** Runs step on each item in order and stops at the first that does not
      return; its error is wrapped with that item's context. Whatever the
      earlier items did stays done. */
  function Batch<X>(env: Env, items: seq<X>, step: (Env, X) -> Step<()>, context: X -> Context): (r: Step<()>)
    ensures items == [] ==> r == Step(Returned(()), env)
    ensures r.run.Errored? ==> r.run.error.Wrapped? && exists x :: x in items && r.run.error.context == context(x)
    decreases |items|
  {
    if items == [] then Step(Returned(()), env)
    else
      var s := step(env, items[0]);
      match s.run
      case Returned(_) => Batch(s.env, items[1..], step, context)
      case Errored(e) => Step(Errored(Wrapped(context(items[0]), e)), s.env)
      case Panicked(p) => Step(Panicked(p), s.env)
  }

  /** A batch over a + b is the batch over a followed, only if all of a
      returned, by the batch over b from where a left off. */
  lemma {:induction false} BatchSeq<X>(env: Env, a: seq<X>, b: seq<X>, step: (Env, X) -> Step<()>, context: X -> Context)
    ensures var first := Batch(env, a, step, context);
      Batch(env, a + b, step, context)
        == if first.run.Returned? then Batch(first.env, b, step, context) else first
    decreases |a|
  {
    if a == [] {
      assert a + b == b;
    } else {
      assert (a + b)[0] == a[0];
      assert (a + b)[1..] == a[1..] + b;
      var s := step(env, a[0]);
      if s.run.Returned? {
        BatchSeq(s.env, a[1..], b, step, context);
      }
    }
  }

  /** When every item up to position k returned and item k did not, the
      batch ends with item k's outcome: later items are never attempted. */
  lemma {:induction false} BatchStopsAt<X>(env: Env, items: seq<X>, k: nat, step: (Env, X) -> Step<()>, context: X -> Context)
    requires k < |items|
    requires Batch(env, items[..k], step, context).run.Returned?
    requires !step(Batch(env, items[..k], step, context).env, items[k]).run.Returned?
    ensures var s := step(Batch(env, items[..k], step, context).env, items[k]);
      Batch(env, items, step, context)
        == Step(if s.run.Errored? then Errored(Wrapped(context(items[k]), s.run.error)) else s.run, s.env)
  {
    var prefix := Batch(env, items[..k], step, context);
    BatchSeq(env, items[..k], items[k..], step, context);
    assert items[..k] + items[k..] == items;
    assert items[k..][0] == items[k];
  }

  // ---------------------------------------------------------------------
  // Downloading files

  /** The source delivers the file completely. */
  predicate Fetchable(remote: Source.Remote, id: string, version: string, file: string) {
    var got := Source.GetFile(remote, id, version, file);
    got.Ok? && got.value.Some? && got.value.value.fault.None?
  }

  function Delivered(remote: Source.Remote, id: string, version: string, file: string): Content
    requires Fetchable(remote, id, version, file)
  {
    Source.GetFile(remote, id, version, file).value.value.delivered
  }

  /** Copies one file from the source into the local store. */
  function DownloadFile(env: Env, id: string, version: string, file: string): (r: Step<()>)
    ensures r.env.remote == env.remote
    ensures r.run.Returned? <==> Fetchable(env.remote, id, version, file)
    ensures r.run.Panicked? ==> r.run.site == NilReader && r.env == env
    ensures Source.GetFile(env.remote, id, version, file) == Ok(None) <==> r.run.Panicked?
    ensures forall p :: p in r.env.local.files ==> p in env.local.files || p == FsRepo.FilePathOf(id, file)
    ensures forall p :: p in env.local.files && p != FsRepo.FilePathOf(id, file) ==>
      p in r.env.local.files && r.env.local.files[p] == env.local.files[p]
    ensures r.run.Returned? ==>
      FsRepo.FilePathOf(id, file) in r.env.local.files
      && r.env.local.files[FsRepo.FilePathOf(id, file)] == Delivered(env.remote, id, version, file)
  {
    match Source.GetFile(env.remote, id, version, file)
    case Err(e) => Step(Errored(Wrapped(GettingRemoteFile, e)), env)
    // Deferring Close on the nil reader crashes before anything is written.
    case Ok(None) => Step(Panicked(NilReader), env)
    case Ok(reader) =>
      var (run, local) := FsRepo.Write(env.local, id, version, file, reader);
      var outcome := if run.Errored? then Errored(Wrapped(WritingLocalFile, run.error)) else run;
      Step(outcome, Env(local, env.remote))
  }

  function DownloadStep(id: string, version: string): (Env, string) -> Step<()> {
    (e: Env, file: string) => DownloadFile(e, id, version, file)
  }

  /** Copies the listed files in order, stopping at the first failure. */
  function DownloadFiles(env: Env, id: string, version: string, files: seq<string>): (r: Step<()>)
    ensures r.env.remote == env.remote
    ensures r.run.Panicked? ==> r.run.site == NilReader
    ensures r.run.Returned? <==> forall i :: 0 <= i < |files| ==> Fetchable(env.remote, id, version, files[i])
    ensures forall p :: p in r.env.local.files ==> p in env.local.files || p in FsRepo.PathsOf(id, files)
    ensures forall p :: p in env.local.files && p !in FsRepo.PathsOf(id, files) ==>
      p in r.env.local.files && r.env.local.files[p] == env.local.files[p]
    ensures r.run.Returned? ==> forall i :: 0 <= i < |files| ==>
      FsRepo.FilePathOf(id, files[i]) in r.env.local.files
      && r.env.local.files[FsRepo.FilePathOf(id, files[i])] == Delivered(env.remote, id, version, files[i])
  {
    DownloadFilesEffect(env, id, version, files);
    Batch(env, files, DownloadStep(id, version), (f: string) => DownloadingFile(f))
  }

  /** What copying the files amounts to, by induction over the list. */
  lemma DownloadFilesEffect(env: Env, id: string, version: string, files: seq<string>)
    ensures var r := Batch(env, files, DownloadStep(id, version), (f: string) => DownloadingFile(f));
      && r.env.remote == env.remote
      && (r.run.Panicked? ==> r.run.site == NilReader)
      && (r.run.Returned? <==> forall i :: 0 <= i < |files| ==> Fetchable(env.remote, id, version, files[i]))
      && (forall p :: p in r.env.local.files ==> p in env.local.files || p in FsRepo.PathsOf(id, files))
      && (forall p :: p in env.local.files && p !in FsRepo.PathsOf(id, files) ==>
            p in r.env.local.files && r.env.local.files[p] == env.local.files[p])
      && (r.run.Returned? ==> forall i :: 0 <= i < |files| ==>
            FsRepo.FilePathOf(id, files[i]) in r.env.local.files
            && r.env.local.files[FsRepo.FilePathOf(id, files[i])] == Delivered(env.remote, id, version, files[i]))
  {
    DownloadFilesOutcome(env, id, version, files);
    DownloadFilesFootprint(env, id, version, files);
    DownloadFilesContent(env, id, version, files);
  }

  /** The batch over files unfolds into the first file's download and the
      batch over the rest. */
  lemma DownloadFilesFirst(env: Env, id: string, version: string, files: seq<string>)
    requires files != []
    ensures var s := DownloadFile(env, id, version, files[0]);
      var r := Batch(env, files, DownloadStep(id, version), (f: string) => DownloadingFile(f));
      && (s.run.Returned? ==> r == Batch(s.env, files[1..], DownloadStep(id, version), (f: string) => DownloadingFile(f)))
      && (!s.run.Returned? ==> r.env == s.env && !r.run.Returned? && (r.run.Panicked? <==> s.run.Panicked?))
  {
    assert DownloadStep(id, version)(env, files[0]) == DownloadFile(env, id, version, files[0]);
  }

  lemma {:induction false} DownloadFilesOutcome(env: Env, id: string, version: string, files: seq<string>)
    ensures var r := Batch(env, files, DownloadStep(id, version), (f: string) => DownloadingFile(f));
      && r.env.remote == env.remote
      && (r.run.Panicked? ==> r.run.site == NilReader)
      && (r.run.Returned? <==> forall i :: 0 <= i < |files| ==> Fetchable(env.remote, id, version, files[i]))
    decreases |files|
  {
    if files != [] {
      DownloadFilesFirst(env, id, version, files);
      var s := DownloadFile(env, id, version, files[0]);
      var rest := files[1..];
      if s.run.Returned? {
        DownloadFilesOutcome(s.env, id, version, rest);
        forall i | 0 < i < |files|
          ensures files[i] == rest[i - 1]
        {
        }
      } else if s.run.Panicked? {
        assert Batch(env, files, DownloadStep(id, version), (f: string) => DownloadingFile(f)).run == s.run;
      }
    }
  }

  lemma {:induction false} DownloadFilesFootprint(env: Env, id: string, version: string, files: seq<string>)
    ensures var r := Batch(env, files, DownloadStep(id, version), (f: string) => DownloadingFile(f));
      && (forall p :: p in r.env.local.files ==> p in env.local.files || p in FsRepo.PathsOf(id, files))
      && (forall p :: p in env.local.files && p !in FsRepo.PathsOf(id, files) ==>
            p in r.env.local.files && r.env.local.files[p] == env.local.files[p])
    decreases |files|
  {
    if files != [] {
      DownloadFilesFirst(env, id, version, files);
      var s := DownloadFile(env, id, version, files[0]);
      var rest := files[1..];
      assert FsRepo.PathsOf(id, files) == {FsRepo.FilePathOf(id, files[0])} + FsRepo.PathsOf(id, rest) by {
        assert files == [files[0]] + rest;
      }
      if s.run.Returned? {
        DownloadFilesFootprint(s.env, id, version, rest);
      }
    }
  }

  lemma {:induction false} DownloadFilesContent(env: Env, id: string, version: string, files: seq<string>)
    ensures var r := Batch(env, files, DownloadStep(id, version), (f: string) => DownloadingFile(f));
      r.run.Returned? ==> forall i :: 0 <= i < |files| ==>
        && Fetchable(env.remote, id, version, files[i])
        && FsRepo.FilePathOf(id, files[i]) in r.env.local.files
        && r.env.local.files[FsRepo.FilePathOf(id, files[i])] == Delivered(env.remote, id, version, files[i])
    decreases |files|
  {
    var r := Batch(env, files, DownloadStep(id, version), (f: string) => DownloadingFile(f));
    if files != [] && r.run.Returned? {
      DownloadFilesFirst(env, id, version, files);
      var s := DownloadFile(env, id, version, files[0]);
      var rest := files[1..];
      var first := FsRepo.FilePathOf(id, files[0]);
      DownloadFilesContent(s.env, id, version, rest);
      DownloadFilesFootprint(s.env, id, version, rest);
      forall i | 0 <= i < |files|
        ensures Fetchable(env.remote, id, version, files[i])
        ensures FsRepo.FilePathOf(id, files[i]) in r.env.local.files
        ensures r.env.local.files[FsRepo.FilePathOf(id, files[i])] == Delivered(env.remote, id, version, files[i])
      {
        if i > 0 {
          assert files[i] == rest[i - 1];
        } else if files[0] !in rest {
          assert first !in FsRepo.PathsOf(id, rest) by {
            FsRepo.PathsOfNames(id, rest, files[0]);
          }
        } else {
          var j :| 0 <= j < |rest| && rest[j] == files[0];
        }
      }
    }
  }

  // ---------------------------------------------------------------------
  // Installing one package

  /** The version to install: the one asked for, or, for an empty version,
      the source's current version. */
  function ResolveVersion(remote: Source.Remote, spec: InstallSpec): (r: (Result<string>, Source.Remote))
    ensures Source.SameOrigin(remote, r.1) && Source.Catalogue(r.1) == Source.Catalogue(remote)
    ensures spec.version != "" ==> r == (Ok(spec.version), remote)
    ensures spec.version == "" && Source.Catalogue(remote).Err? ==>
      r.0 == Err(Wrapped(GettingSpec, Wrapped(GettingIndex, Source.Catalogue(remote).error)))
    ensures spec.version == "" && Source.Catalogue(remote).Ok? ==>
      var index := Source.Catalogue(remote).value;
      && (spec.id in index ==> r.0 == Ok(index[spec.id].currentVersion))
      && (spec.id !in index ==> r.0 == Err(SpecNotFound))
  {
    if spec.version != "" then (Ok(spec.version), remote)
    else
      var (found, remote1) := Source.GetSpec(remote, spec.id);
      match found
      case Failed(e) => (Err(Wrapped(GettingSpec, e)), remote1)
      case NotFound => (Err(SpecNotFound), remote1)
      case Found(s) => (Ok(s.currentVersion), remote1)
  }

  /** The paths below a package's directory. */
  predicate Under(p: Path, id: string) {
    p != [] && p[0] == id
  }

  /** Path p is absent from both stores or holds the same content in both. */
  ghost predicate SameAt(a: FsRepo.Store, b: FsRepo.Store, p: Path) {
    (p in a.files <==> p in b.files) && (p in a.files ==> a.files[p] == b.files[p])
  }

  /** Nothing outside package id's directory differs between the stores. */
  ghost predicate OthersUnchanged(a: FsRepo.Store, b: FsRepo.Store, id: string) {
    forall p :: !Under(p, id) ==> SameAt(a, b, p)
  }

  lemma PackagePathsAreUnder(id: string, names: seq<string>)
    requires id != ""
    ensures Under(FsRepo.ManifestPathOf(id), id)
    ensures forall p :: p in FsRepo.PathsOf(id, names) ==> Under(p, id)
  {
    JoinTwo(id, FsRepo.ManifestPath);
    forall n | n in names
      ensures Under(FsRepo.FilePathOf(id, n), id)
    {
      JoinTwo(id, n);
    }
  }

  lemma ManifestPathIsNamedManifest(id: string)
    ensures FsRepo.BaseName(FsRepo.ManifestPathOf(id)) == FsRepo.ManifestPath
  {
    JoinTwo(id, FsRepo.ManifestPath);
  }

  /** Deleting a package leaves everything outside its directory alone. */
  lemma DeleteStaysUnder(st: FsRepo.Store, id: string)
    requires id != ""
    ensures OthersUnchanged(st, FsRepo.Delete(st, id).1, id)
  {
    var installed := FsRepo.GetInstalledManifest(st, id);
    if installed.Found? {
      PackagePathsAreUnder(id, installed.value.files);
    }
  }

  /** Removes the installed version (when there is one), downloads the
      manifest's files below id and then writes the manifest, which goes
      below the id the manifest itself declares. */
  function Replace(env: Env, id: string, version: string, installed: bool, m: Manifest): (r: Step<()>)
    requires id != ""
    ensures r.env.remote == env.remote
    ensures r.run.Panicked? ==> r.run.site == NilReader
    ensures !r.run.Returned? ==> OthersUnchanged(env.local, r.env.local, id)
    ensures forall p :: !Under(p, id) && p != FsRepo.ManifestPathOf(m.id) ==> SameAt(env.local, r.env.local, p)
    ensures r.run.Returned? ==> FsRepo.GetInstalledManifest(r.env.local, m.id) == Found(m)
  {
    PackagePathsAreUnder(id, m.files);
    DeleteStaysUnder(env.local, id);
    var deleted := if installed then FsRepo.Delete(env.local, id) else (Ok(()), env.local);
    if deleted.0.Err? then
      Step(Errored(Wrapped(UninstallingExisting, Wrapped(DeletingLocalPak, deleted.0.error))), Env(deleted.1, env.remote))
    else
      var downloaded := DownloadFiles(Env(deleted.1, env.remote), id, version, m.files);
      if !downloaded.run.Returned? then downloaded
      else Step(Returned(()), Env(FsRepo.WriteManifest(downloaded.env.local, m), env.remote))
  }

  /** Installs (or, with `upgrade`, upgrades) one package. Outside the
      package's directory at most one manifest file changes: the one of the
      id the downloaded manifest declares. */
  function InstallOne(env: Env, spec: InstallSpec, upgrade: bool): (r: Step<()>)
    ensures spec.id == "" ==> r == Step(Errored(InvalidInstallSpec), env)
    ensures FsRepo.GetInstalledManifest(env.local, spec.id).Failed? && spec.id != "" ==>
      r == Step(Errored(Wrapped(GettingLocalSpec, FsRepo.GetInstalledManifest(env.local, spec.id).error)), env)
    ensures Source.SameOrigin(env.remote, r.env.remote) && Source.Catalogue(r.env.remote) == Source.Catalogue(env.remote)
    ensures !r.run.Returned? ==> OthersUnchanged(env.local, r.env.local, spec.id)
    ensures forall p :: !Under(p, spec.id) && FsRepo.BaseName(p) != FsRepo.ManifestPath ==> SameAt(env.local, r.env.local, p)
    ensures r.run.Panicked? ==>
      (r.run.site == NilReader
      || (upgrade && r.run.site == NilInstalledManifest && FsRepo.GetInstalledManifest(env.local, spec.id).NotFound?))
  {
    if spec.id == "" then Step(Errored(InvalidInstallSpec), env)
    else
      var existing := FsRepo.GetInstalledManifest(env.local, spec.id);
      if existing.Failed? then Step(Errored(Wrapped(GettingLocalSpec, existing.error)), env)
      else
        var (version, remote) := ResolveVersion(env.remote, spec);
        var env1 := Env(env.local, remote);
        if version.Err? then Step(Errored(version.error), env1)
        else if existing.Found? && existing.value.version == version.value then Step(Returned(()), env1)
        else if upgrade && existing.NotFound? then Step(Panicked(NilInstalledManifest), env1)
        else
          match Source.GetManifest(remote, spec.id, version.value)
          case Failed(e) => Step(Errored(Wrapped(GettingRemoteManifest, e)), env1)
          case NotFound => Step(Errored(ManifestNotFound(version.value)), env1)
          case Found(m) =>
            ManifestPathIsNamedManifest(m.id);
            Replace(env1, spec.id, version.value, existing.Found?, m)
  }

  // ---------------------------------------------------------------------
  // The batch operations

  function InstallStep(upgrade: bool): (Env, InstallSpec) -> Step<()> {
    (e: Env, s: InstallSpec) => InstallOne(e, s, upgrade)
  }

  function InstallingContext(s: InstallSpec): Context {
    InstallingPak(s.id, s.version)
  }

  /** Installs the packages in order, stopping at the first failure, which
      is reported with the id and version asked for. */
  function Install(env: Env, specs: seq<InstallSpec>): (r: Step<()>)
    ensures specs == [] ==> r == Step(Returned(()), env)
    ensures r.run.Errored? ==>
      (r.run.error.Wrapped? && exists s :: s in specs && r.run.error.context == InstallingPak(s.id, s.version))
  {
    Batch(env, specs, InstallStep(false), InstallingContext)
  }

  /** Installing a + b installs a, and then b only if all of a succeeded. */
  lemma InstallInOrder(env: Env, a: seq<InstallSpec>, b: seq<InstallSpec>)
    ensures Install(env, a + b)
      == if Install(env, a).run.Returned? then Install(Install(env, a).env, b) else Install(env, a)
  {
    BatchSeq(env, a, b, InstallStep(false), InstallingContext);
  }

  /** Deletes one package from the local store. */
  function UninstallOne(env: Env, id: string): (r: Step<()>)
    ensures r.env.remote == env.remote
    ensures r.run.Returned? <==> FsRepo.Delete(env.local, id).0.Ok?
    ensures r.env.local == FsRepo.Delete(env.local, id).1
    ensures r.run.Errored? ==> r.run.error == Wrapped(DeletingLocalPak, FsRepo.Delete(env.local, id).0.error)
  {
    var (result, local) := FsRepo.Delete(env.local, id);
    match result
    case Err(e) => Step(Errored(Wrapped(DeletingLocalPak, e)), Env(local, env.remote))
    case Ok(_) => Step(Returned(()), Env(local, env.remote))
  }

  function UninstallingContext(id: string): Context {
    UninstallingPak(id)
  }

  /** Uninstalls the packages in order, stopping at the first failure. */
  function Uninstall(env: Env, ids: seq<string>): (r: Step<()>)
    ensures ids == [] ==> r == Step(Returned(()), env)
    ensures r.run.Errored? ==>
      (r.run.error.Wrapped? && exists id :: id in ids && r.run.error.context == UninstallingPak(id))
  {
    Batch(env, ids, UninstallOne, UninstallingContext)
  }

  lemma UninstallInOrder(env: Env, a: seq<string>, b: seq<string>)
    ensures Uninstall(env, a + b)
      == if Uninstall(env, a).run.Returned? then Uninstall(Uninstall(env, a).env, b) else Uninstall(env, a)
  {
    BatchSeq(env, a, b, UninstallOne, UninstallingContext);
  }

  /** One latest-version request per installed package, in listing order. */
  function LatestOf(installed: seq<Manifest>): (r: seq<InstallSpec>)
    ensures |r| == |installed|
    ensures forall i :: 0 <= i < |r| ==> r[i] == InstallSpec(installed[i].id, "")
  {
    seq(|installed|, i requires 0 <= i < |installed| => InstallSpec(installed[i].id, ""))
  }

  function UpgradingContext(s: InstallSpec): Context {
    UpgradingPak(s.id)
  }

  /** Upgrades the packages in order; with no packages named, upgrades
      every installed package to its latest version. */
  function Upgrade(env: Env, specs: seq<InstallSpec>): (r: Step<()>)
    ensures specs == [] && FsRepo.ListInstalled(env.local).Err? ==>
      r == Step(Errored(Wrapped(ListingLocalPaks, FsRepo.ListInstalled(env.local).error)), env)
    ensures specs == [] && FsRepo.ListInstalled(env.local) == Ok([]) ==> r == Step(Returned(()), env)
    ensures r.run.Errored? && specs != [] ==>
      (r.run.error.Wrapped? && exists s :: s in specs && r.run.error.context == UpgradingPak(s.id))
  {
    if specs != [] then Batch(env, specs, InstallStep(true), UpgradingContext)
    else
      match FsRepo.ListInstalled(env.local)
      case Err(e) => Step(Errored(Wrapped(ListingLocalPaks, e)), env)
      case Ok(installed) => Batch(env, LatestOf(installed), InstallStep(true), UpgradingContext)
  }

  /** Upgrading with no packages named is upgrading every installed package,
      named in listing order with an empty version. */
  lemma UpgradeAllIsUpgradeOfInstalled(env: Env)
    requires FsRepo.ListInstalled(env.local).Ok? && FsRepo.ListInstalled(env.local).value != []
    ensures Upgrade(env, []) == Upgrade(env, LatestOf(FsRepo.ListInstalled(env.local).value))
  {
  }

  lemma UpgradeInOrder(env: Env, a: seq<InstallSpec>, b: seq<InstallSpec>)
    requires a != [] && b != []
    ensures Upgrade(env, a + b)
      == if Upgrade(env, a).run.Returned? then Upgrade(Upgrade(env, a).env, b) else Upgrade(env, a)
  {
    BatchSeq(env, a, b, InstallStep(true), UpgradingContext);
  }

  // ---------------------------------------------------------------------
  // Queries

  /** The upgradable entry for an installed manifest: the installed id,
      version and date with the source's description, and the source's
      current version and update time. */
  function Entry(installed: Manifest, latest: Spec): UpgradableSpec {
    UpgradableSpec(
      Spec(installed.id, "", latest.description, installed.version, installed.date, []),
      latest.currentVersion,
      latest.updated)
  }

  /** Asks the source about each installed manifest in turn. */
  function Outdated(remote: Source.Remote, installed: seq<Manifest>): (r: (Run<seq<UpgradableSpec>>, Source.Remote))
    ensures Source.SameOrigin(remote, r.1) && Source.Catalogue(r.1) == Source.Catalogue(remote)
    ensures r.0.Returned? ==> forall u :: u in r.0.value ==> u.spec.currentVersion != u.latestVersion
    ensures r.0.Returned? ==> |r.0.value| <= |installed|
    decreases |installed|
  {
    if installed == [] then (Returned([]), remote)
    else
      var (found, remote1) := Source.GetSpec(remote, installed[0].id);
      match found
      case Failed(e) => (Errored(Wrapped(GettingLatestVersion, e)), remote1)
      case NotFound => (Panicked(NilSpec), remote1)
      case Found(latest) =>
        var (rest, remote2) := Outdated(remote1, installed[1..]);
        Source.SameOriginIsTransitive(remote, remote1, remote2);
        if !rest.Returned? then (rest, remote2)
        else
          var head := if latest.currentVersion != installed[0].version then [Entry(installed[0], latest)] else [];
          (Returned(head + rest.value), remote2)
  }

  /** The installed packages whose version differs from the source's
      current one, in listing order. Against a readable catalogue that
      knows every installed package this is the reference list; an
      installed package the catalogue does not know crashes the query. */
  function Upgradable(env: Env): (r: (Run<seq<UpgradableSpec>>, Env))
    ensures r.1.local == env.local
    ensures FsRepo.ListInstalled(env.local).Err? ==>
      r.0 == Errored(Wrapped(ListingLocalPaks, FsRepo.ListInstalled(env.local).error))
    ensures Source.SameOrigin(env.remote, r.1.remote) && Source.Catalogue(r.1.remote) == Source.Catalogue(env.remote)
    ensures (FsRepo.ListInstalled(env.local).Ok? && FsRepo.ListInstalled(env.local).value != []
             && Source.Catalogue(env.remote).Err?) ==>
      r.0 == Errored(Wrapped(GettingLatestVersion, Wrapped(GettingIndex, Source.Catalogue(env.remote).error)))
    ensures FsRepo.ListInstalled(env.local).Ok? && Source.Catalogue(env.remote).Ok? ==>
      var installed, index := FsRepo.ListInstalled(env.local).value, Source.Catalogue(env.remote).value;
      && (r.0.Panicked? <==> exists m :: m in installed && m.id !in index)
      && (r.0.Panicked? ==> r.0.site == NilSpec)
      && ((forall m :: m in installed ==> m.id in index) ==> r.0 == Returned(OutdatedIn(index, installed)))
  {
    match FsRepo.ListInstalled(env.local)
    case Err(e) => (Errored(Wrapped(ListingLocalPaks, e)), env)
    case Ok(installed) =>
      OutdatedMatchesCatalogue(env.remote, installed);
      var (result, remote) := Outdated(env.remote, installed);
      (result, Env(env.local, remote))
  }

  /** The reference answer when the catalogue knows every installed id:
      keep the outdated ones, then describe each. */
  ghost function OutdatedIn(index: SpecIndex, installed: seq<Manifest>): seq<UpgradableSpec>
    requires forall m :: m in installed ==> m.id in index
  {
    var outdated := Sequences.Filter(installed, (m: Manifest) => m.id in index && index[m.id].currentVersion != m.version);
    seq(|outdated|, i requires 0 <= i < |outdated| => Entry(outdated[i], index[outdated[i].id]))
  }

  /** The reference list peels off its first manifest. */
  lemma OutdatedInCons(index: SpecIndex, installed: seq<Manifest>)
    requires installed != []
    requires forall m :: m in installed ==> m.id in index
    ensures var m := installed[0];
      OutdatedIn(index, installed)
        == (if index[m.id].currentVersion != m.version then [Entry(m, index[m.id])] else [])
           + OutdatedIn(index, installed[1..])
  {
    var keep := (m: Manifest) => m.id in index && index[m.id].currentVersion != m.version;
    var m0, rest := installed[0], installed[1..];
    assert forall m :: m in rest ==> m in installed;
    var kept, keptRest := Sequences.Filter(installed, keep), Sequences.Filter(rest, keep);
    var head := if keep(m0) then [m0] else [];
    assert kept == head + keptRest;
    var all, tail := OutdatedIn(index, installed), OutdatedIn(index, rest);
    var first := if index[m0.id].currentVersion != m0.version then [Entry(m0, index[m0.id])] else [];
    forall i | 0 <= i < |all|
      ensures all[i] == (first + tail)[i]
    {
      if i >= |head| {
        assert kept[i] == keptRest[i - |head|];
      }
    }
  }

  /** Against a readable catalogue that knows every installed package, the
      query answers exactly the reference list; a package it does not know
      crashes the query; an unreadable catalogue is an error. */
  lemma {:induction false} OutdatedMatchesCatalogue(remote: Source.Remote, installed: seq<Manifest>)
    ensures Source.Catalogue(remote).Err? && installed != [] ==>
      Outdated(remote, installed).0 == Errored(Wrapped(GettingLatestVersion, Wrapped(GettingIndex, Source.Catalogue(remote).error)))
    ensures Source.Catalogue(remote).Ok? ==>
      var index := Source.Catalogue(remote).value;
      && (Outdated(remote, installed).0.Panicked? <==> exists m :: m in installed && m.id !in index)
      && (Outdated(remote, installed).0.Panicked? ==> Outdated(remote, installed).0.site == NilSpec)
      && ((forall m :: m in installed ==> m.id in index) ==>
            Outdated(remote, installed).0 == Returned(OutdatedIn(index, installed)))
    decreases |installed|
  {
    if installed == [] {
      if Source.Catalogue(remote).Ok? {
        assert OutdatedIn(Source.Catalogue(remote).value, installed) == [];
      }
    } else {
      var (found, remote1) := Source.GetSpec(remote, installed[0].id);
      var rest := installed[1..];
      assert forall m :: m in installed <==> m == installed[0] || m in rest by {
        assert installed == [installed[0]] + rest;
      }
      if Source.Catalogue(remote).Ok? {
        var index := Source.Catalogue(remote).value;
        if installed[0].id in index {
          OutdatedMatchesCatalogue(remote1, rest);
          if forall m :: m in installed ==> m.id in index {
            OutdatedInCons(index, installed);
            assert found == Found(index[installed[0].id]);
            assert Outdated(remote1, rest).0 == Returned(OutdatedIn(index, rest));
            var latest := index[installed[0].id];
            var head := if latest.currentVersion != installed[0].version then [Entry(installed[0], latest)] else [];
            assert Outdated(remote, installed).0 == Returned(head + OutdatedIn(index, rest));
          }
        }
      }
    }
  }

  /** The whole catalogue of the source. */
  function List(env: Env): (r: (Result<SpecIndex>, Env))
    ensures r.1.local == env.local
    ensures Source.SameOrigin(env.remote, r.1.remote) && Source.Catalogue(r.1.remote) == Source.Catalogue(env.remote)
    ensures r.0.Ok? <==> Source.Catalogue(env.remote).Ok?
    ensures r.0.Ok? ==> r.0.value == Source.Catalogue(env.remote).value
    ensures r.0.Err? ==> r.0.error == Wrapped(ListingRemotePaks, Source.Catalogue(env.remote).error)
  {
    var (result, remote) := Source.List(env.remote);
    match result
    case Err(e) => (Err(Wrapped(ListingRemotePaks, e)), Env(env.local, remote))
    case Ok(index) => (Ok(index), Env(env.local, remote))
  }

  /** The installed packages, each once, in the order of their manifest
      paths; this is what the `installed` command prints. */
  function ListInstalled(env: Env): (r: Result<seq<Manifest>>)
    ensures r.Ok? <==> env.local.baseExists
    ensures r.Ok? ==> forall m :: m in r.value <==> FsRepo.IsInstalled(env.local, m)
    ensures r.Ok? ==> forall i, j :: 0 <= i < j < |r.value| ==>
      FsRepo.PathLess(FsRepo.ManifestPathOf(r.value[i].id), FsRepo.ManifestPathOf(r.value[j].id))
    ensures r.Ok? ==> forall i, j :: 0 <= i < j < |r.value| ==> r.value[i].id != r.value[j].id
    ensures r.Err? ==> r.error == Wrapped(ListingLocalPaks, Wrapped(WalkingRepository, NotExist([])))
  {
    FsRepo.PathLessIsStrictTotal();
    match FsRepo.ListInstalled(env.local)
    case Err(e) => Err(Wrapped(ListingLocalPaks, e))
    case Ok(installed) => Ok(installed)
  }
}
