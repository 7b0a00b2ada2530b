/** What installing one package does, case by case: the order of the
    checks in `install`, the no-op for the installed version, and the
    replace-by-delete-then-write of a successful install. */
module InstallProperties {
  import opened Pak
  import FsRepo
  import Source
  import opened Manager

  /** The remote after resolving the version of spec. */
  function Resolved(env: Env, spec: InstallSpec): Source.Remote {
    ResolveVersion(env.remote, spec).1
  }

  /** An empty version installs what the source's catalogue names as the
      current version, exactly as if that version had been asked for. */
  lemma InstallResolvesLatest(env: Env, id: string, upgrade: bool)
    requires id != ""
    requires !FsRepo.GetInstalledManifest(env.local, id).Failed?
    requires Source.Catalogue(env.remote).Ok? && id in Source.Catalogue(env.remote).value
    requires Source.Catalogue(env.remote).value[id].currentVersion != ""
    ensures var latest := Source.Catalogue(env.remote).value[id].currentVersion;
      InstallOne(env, InstallSpec(id, ""), upgrade)
        == InstallOne(Env(env.local, Resolved(env, InstallSpec(id, ""))), InstallSpec(id, latest), upgrade)
  {
  }

  /** A package the catalogue does not list is not found, and the local
      store is untouched. */
  lemma InstallUnknownPackage(env: Env, id: string, upgrade: bool)
    requires id != ""
    requires !FsRepo.GetInstalledManifest(env.local, id).Failed?
    requires Source.Catalogue(env.remote).Ok? && id !in Source.Catalogue(env.remote).value
    ensures InstallOne(env, InstallSpec(id, ""), upgrade).run == Errored(SpecNotFound)
    ensures InstallOne(env, InstallSpec(id, ""), upgrade).env.local == env.local
  {
  }

  /** When the installed version is the one asked for (or resolved), the
      install succeeds without changing the local store. */
  lemma InstallNoOpWhenCurrent(env: Env, spec: InstallSpec, upgrade: bool, m: Manifest)
    requires spec.id != ""
    requires FsRepo.GetInstalledManifest(env.local, spec.id) == Found(m)
    requires ResolveVersion(env.remote, spec).0 == Ok(m.version)
    ensures InstallOne(env, spec, upgrade).run == Returned(())
    ensures InstallOne(env, spec, upgrade).env.local == env.local
  {
  }

  /** Upgrading a package that is not installed dereferences the missing
      manifest. */
  lemma UpgradeOfMissingPanics(env: Env, spec: InstallSpec, v: string)
    requires spec.id != ""
    requires FsRepo.GetInstalledManifest(env.local, spec.id).NotFound?
    requires ResolveVersion(env.remote, spec).0 == Ok(v)
    ensures InstallOne(env, spec, true).run == Panicked(NilInstalledManifest)
    ensures InstallOne(env, spec, true).env.local == env.local
  {
  }

  /** Without a manifest from the source nothing is deleted: a missing one
      is reported with the version, a failed lookup is wrapped. */
  lemma InstallWithoutManifest(env: Env, spec: InstallSpec, upgrade: bool, v: string)
    requires spec.id != ""
    requires !FsRepo.GetInstalledManifest(env.local, spec.id).Failed?
    requires ResolveVersion(env.remote, spec).0 == Ok(v)
    requires !(FsRepo.GetInstalledManifest(env.local, spec.id).Found? && FsRepo.GetInstalledManifest(env.local, spec.id).value.version == v)
    requires !(upgrade && FsRepo.GetInstalledManifest(env.local, spec.id).NotFound?)
    requires !Source.GetManifest(Resolved(env, spec), spec.id, v).Found?
    ensures InstallOne(env, spec, upgrade).env.local == env.local
    ensures Source.GetManifest(Resolved(env, spec), spec.id, v).NotFound? ==>
      InstallOne(env, spec, upgrade).run == Errored(ManifestNotFound(v))
    ensures Source.GetManifest(Resolved(env, spec), spec.id, v).Failed? ==>
      InstallOne(env, spec, upgrade).run
        == Errored(Wrapped(GettingRemoteManifest, Source.GetManifest(Resolved(env, spec), spec.id, v).error))
  {
  }

  /** The situation in which install goes on to replace the package: the
      version resolves to v, v is not the installed version, the source has
      manifest m for it, and an installed version can be deleted. */
  ghost predicate Replaces(env: Env, spec: InstallSpec, upgrade: bool, v: string, m: Manifest) {
    var existing := FsRepo.GetInstalledManifest(env.local, spec.id);
    && spec.id != ""
    && !existing.Failed?
    && ResolveVersion(env.remote, spec).0 == Ok(v)
    && !(existing.Found? && existing.value.version == v)
    && !(upgrade && existing.NotFound?)
    && Source.GetManifest(env.remote, spec.id, v) == Found(m)
    && (existing.Found? ==>
          FsRepo.Removable(env.local, spec.id, existing.value.files) && FsRepo.ManifestPath !in existing.value.files)
  }

  /** The store after the installed version, if any, is deleted. */
  lemma DeletedFirst(env: Env, spec: InstallSpec, upgrade: bool, v: string, m: Manifest)
    requires Replaces(env, spec, upgrade, v, m)
    ensures var existing := FsRepo.GetInstalledManifest(env.local, spec.id);
      var removed := if existing.Found? then FsRepo.PathsOf(spec.id, existing.value.files) + {FsRepo.ManifestPathOf(spec.id)} else {};
      InstallOne(env, spec, upgrade)
        == DownloadAndRecord(Env(FsRepo.Store(env.local.baseExists, env.local.files - removed), Resolved(env, spec)), spec.id, v, m)
  {
    var existing := FsRepo.GetInstalledManifest(env.local, spec.id);
    Source.SameOriginServesAlike(env.remote, Resolved(env, spec), spec.id, v, "");
    if existing.Found? {
      FsRepo.DeleteIsExact(env.local, spec.id, existing.value);
      var removed := FsRepo.PathsOf(spec.id, existing.value.files) + {FsRepo.ManifestPathOf(spec.id)};
      assert env.local.files - FsRepo.PathsOf(spec.id, existing.value.files) - {FsRepo.ManifestPathOf(spec.id)}
        == env.local.files - removed;
    } else {
      assert env.local.files - {} == env.local.files;
    }
  }

  /** What Replace does once the deletion succeeded. */
  function DownloadAndRecord(env: Env, id: string, v: string, m: Manifest): Step<()>
  {
    var downloaded := DownloadFiles(env, id, v, m.files);
    if !downloaded.run.Returned? then downloaded
    else Step(Returned(()), Env(FsRepo.WriteManifest(downloaded.env.local, m), env.remote))
  }

  /** Downloading every file of m and recording m: the files hold what the
      source delivered, m is installed, and nothing else changes. */
  lemma DownloadAndRecordEffect(env: Env, id: string, v: string, m: Manifest)
    requires m.id == id
    requires forall f :: f in m.files ==> Fetchable(env.remote, id, v, f)
    ensures var r := DownloadAndRecord(env, id, v, m);
      && r.run == Returned(())
      && FsRepo.GetInstalledManifest(r.env.local, id) == Found(m)
      && (forall p :: p != FsRepo.ManifestPathOf(id) && p !in FsRepo.PathsOf(id, m.files) ==> SameAt(env.local, r.env.local, p))
      && (forall f :: f in m.files && f != FsRepo.ManifestPath ==>
            FsRepo.FilePathOf(id, f) in r.env.local.files
            && r.env.local.files[FsRepo.FilePathOf(id, f)] == Delivered(env.remote, id, v, f))
  {
    var downloaded := DownloadFiles(env, id, v, m.files);
    assert downloaded.run.Returned?;
    forall f | f in m.files && f != FsRepo.ManifestPath
      ensures FsRepo.FilePathOf(id, f) != FsRepo.ManifestPathOf(id)
      ensures FsRepo.FilePathOf(id, f) in downloaded.env.local.files
      ensures downloaded.env.local.files[FsRepo.FilePathOf(id, f)] == Delivered(env.remote, id, v, f)
    {
      var i :| 0 <= i < |m.files| && m.files[i] == f;
      FsRepo.FilePathIsManifestPath(id, f);
    }
  }

  /** The paths of the installed version's files, if one is installed. */
  ghost function OldPaths(local: FsRepo.Store, id: string): set<Path> {
    var existing := FsRepo.GetInstalledManifest(local, id);
    if existing.Found? then FsRepo.PathsOf(id, existing.value.files) else {}
  }

  /** A successful install: the old version's files and manifest are gone
      unless the new version lists them again, every file of the new version
      holds what the source delivered, the new manifest is installed, and
      no other file, inside the package's directory or outside it, changes. */
  lemma InstallReplaces(env: Env, spec: InstallSpec, upgrade: bool, v: string, m: Manifest)
    requires Replaces(env, spec, upgrade, v, m)
    requires m.id == spec.id
    requires forall f :: f in m.files ==> Fetchable(env.remote, spec.id, v, f)
    ensures var r := InstallOne(env, spec, upgrade);
      && r.run == Returned(())
      && FsRepo.GetInstalledManifest(r.env.local, spec.id) == Found(m)
      && OthersUnchanged(env.local, r.env.local, spec.id)
      && (forall p :: (p != FsRepo.ManifestPathOf(spec.id) && p !in FsRepo.PathsOf(spec.id, m.files)
                      && p !in OldPaths(env.local, spec.id)) ==> SameAt(env.local, r.env.local, p))
      && (forall f :: f in m.files && f != FsRepo.ManifestPath ==>
            FsRepo.FilePathOf(spec.id, f) in r.env.local.files
            && r.env.local.files[FsRepo.FilePathOf(spec.id, f)] == Delivered(env.remote, spec.id, v, f))
      && (FsRepo.GetInstalledManifest(env.local, spec.id).Found? ==>
            forall f :: f in FsRepo.GetInstalledManifest(env.local, spec.id).value.files && f !in m.files ==>
              FsRepo.FilePathOf(spec.id, f) !in r.env.local.files)
  {
    var id := spec.id;
    var existing := FsRepo.GetInstalledManifest(env.local, id);
    var remote1 := Resolved(env, spec);
    DeletedFirst(env, spec, upgrade, v, m);
    var removed := if existing.Found? then FsRepo.PathsOf(id, existing.value.files) + {FsRepo.ManifestPathOf(id)} else {};
    var deleted := Env(FsRepo.Store(env.local.baseExists, env.local.files - removed), remote1);
    forall f | f in m.files
      ensures Fetchable(remote1, id, v, f)
      ensures Delivered(remote1, id, v, f) == Delivered(env.remote, id, v, f)
    {
      Source.SameOriginServesAlike(env.remote, remote1, id, v, f);
    }
    DownloadAndRecordEffect(deleted, id, v, m);
    var r := InstallOne(env, spec, upgrade);
    assert r == DownloadAndRecord(deleted, id, v, m);
    PackagePathsAreUnder(id, m.files);
    if existing.Found? {
      PackagePathsAreUnder(id, existing.value.files);
      forall f | f in existing.value.files && f !in m.files
        ensures FsRepo.FilePathOf(id, f) !in r.env.local.files
      {
        FsRepo.PathsOfNames(id, m.files, f);
        FsRepo.FilePathIsManifestPath(id, f);
      }
    }
  }

  /** A failed download leaves the package not installed: the old version
      was deleted first and the new manifest is never written. */
  lemma InstallDownloadFailure(env: Env, spec: InstallSpec, upgrade: bool, v: string, m: Manifest, f: string)
    requires Replaces(env, spec, upgrade, v, m)
    requires FsRepo.ManifestPath !in m.files
    requires f in m.files && !Fetchable(env.remote, spec.id, v, f)
    ensures var r := InstallOne(env, spec, upgrade);
      && !r.run.Returned?
      && FsRepo.GetInstalledManifest(r.env.local, spec.id).NotFound?
      && OthersUnchanged(env.local, r.env.local, spec.id)
  {
    var existing := FsRepo.GetInstalledManifest(env.local, spec.id);
    var remote1 := Resolved(env, spec);
    DeletedFirst(env, spec, upgrade, v, m);
    Source.SameOriginServesAlike(env.remote, remote1, spec.id, v, f);
    var removed := if existing.Found? then FsRepo.PathsOf(spec.id, existing.value.files) + {FsRepo.ManifestPathOf(spec.id)} else {};
    var deleted := FsRepo.Store(env.local.baseExists, env.local.files - removed);
    var i :| 0 <= i < |m.files| && m.files[i] == f;
    var downloaded := DownloadFiles(Env(deleted, remote1), spec.id, v, m.files);
    assert !downloaded.run.Returned?;
    FsRepo.ManifestPathListed(spec.id, m.files);
    PackagePathsAreUnder(spec.id, m.files);
    if existing.Found? {
      PackagePathsAreUnder(spec.id, existing.value.files);
    }
  }

  /** Installing again what was just installed changes nothing, provided
      the installed manifest carries the version that was resolved (an
      HTTP source guarantees this for a non-empty version). */
  lemma InstallTwiceIsNoOp(env: Env, spec: InstallSpec, upgrade: bool, v: string, m: Manifest)
    requires spec.id != ""
    requires ResolveVersion(env.remote, spec).0 == Ok(v)
    requires InstallOne(env, spec, upgrade).run == Returned(())
    requires FsRepo.GetInstalledManifest(InstallOne(env, spec, upgrade).env.local, spec.id) == Found(m)
    requires m.version == v
    ensures var first := InstallOne(env, spec, upgrade);
      var second := InstallOne(first.env, spec, upgrade);
      second.run == Returned(()) && second.env.local == first.env.local
  {
    var first := InstallOne(env, spec, upgrade);
    assert ResolveVersion(first.env.remote, spec).0 == Ok(v);
    InstallNoOpWhenCurrent(first.env, spec, upgrade, m);
  }

  /** Deleting a package that was added to a store without touching
      anything else gives back the store's files. */
  lemma DeleteUndoes(before: FsRepo.Store, local: FsRepo.Store, id: string, m: Manifest)
    requires FsRepo.GetInstalledManifest(local, id) == Found(m)
    requires FsRepo.Removable(local, id, m.files) && FsRepo.ManifestPath !in m.files
    requires FsRepo.ManifestPathOf(id) !in before.files
    requires forall f :: f in m.files ==> FsRepo.FilePathOf(id, f) !in before.files
    requires forall p :: p != FsRepo.ManifestPathOf(id) && p !in FsRepo.PathsOf(id, m.files) ==> SameAt(before, local, p)
    ensures FsRepo.Delete(local, id) == (Ok(()), FsRepo.Store(local.baseExists, before.files))
  {
    FsRepo.DeleteIsExact(local, id, m);
    var after := FsRepo.Delete(local, id).1;
    var gone := FsRepo.PathsOf(id, m.files);
    forall p | p in before.files
      ensures p in after.files && after.files[p] == before.files[p]
    {
      assert forall f :: f in m.files ==> FsRepo.FilePathOf(id, f) != p;
      assert SameAt(before, local, p);
    }
    forall p | p in after.files
      ensures p in before.files
    {
      assert SameAt(before, local, p);
    }
    assert after.files == before.files;
  }

  /** Installing a package into a store that has none of its paths and then
      uninstalling it gives back the files the store had. */
  lemma InstallThenUninstallRestores(env: Env, spec: InstallSpec, v: string, m: Manifest)
    requires Replaces(env, spec, false, v, m)
    requires m.id == spec.id
    requires FsRepo.ManifestPathOf(spec.id) !in env.local.files
    requires forall f :: f in m.files ==> FsRepo.FilePathOf(spec.id, f) !in env.local.files
    requires forall f :: f in m.files ==> Fetchable(env.remote, spec.id, v, f)
    requires forall i, j :: 0 <= i < j < |m.files| ==> m.files[i] != m.files[j]
    requires FsRepo.ManifestPath !in m.files
    ensures var installed := InstallOne(env, spec, false);
      var removed := UninstallOne(installed.env, spec.id);
      removed.run == Returned(()) && removed.env.local.files == env.local.files
  {
    var installed := InstallOne(env, spec, false);
    InstallReplaces(env, spec, false, v, m);
    assert OldPaths(env.local, spec.id) == {};
    var local := installed.env.local;
    forall i | 0 <= i < |m.files|
      ensures FsRepo.FilePathOf(spec.id, m.files[i]) in local.files
    {
      assert m.files[i] in m.files;
    }
    assert FsRepo.Removable(local, spec.id, m.files);
    DeleteUndoes(env.local, local, spec.id, m);
  }
}
