/** The value types of the pak package manager: catalogue entries (specs),
    installed-package records (manifests), install requests, the outcome types
    that stand for Go's `(*T, error)` returns, the error values with the
    context each layer wraps around them, and the YAML codec reduced to an
    abstract document type. */
module Pak {

  /** A timestamp; the core only copies and compares it. */
  type Time = int

  datatype Option<T> = None | Some(value: T)

  /** A catalogue entry: `currentVersion` is the version considered latest. */
  datatype Spec = Spec(
    id: string,
    name: string,
    description: string,
    currentVersion: string,
    updated: Time,
    versions: seq<string>)

  /** The catalogue, keyed by package id. */
  type SpecIndex = map<string, Spec>

  /** An installed (or installable) package: its version and the files it owns. */
  datatype Manifest = Manifest(
    id: string,
    name: string,
    version: string,
    date: Time,
    files: seq<string>)

  /** An installed package that the source has a different current version of.
      `spec.currentVersion` and `spec.updated` describe the installed copy. */
  datatype UpgradableSpec = UpgradableSpec(spec: Spec, latestVersion: string, lastUpdated: Time)

  /** A request to install `id`; an empty version means the latest one. */
  datatype InstallSpec = InstallSpec(id: string, version: string)

  /** A path relative to a repository root, one element per path component. */
  type Path = seq<string>

  /** Joining path elements skips the empty ones, as Go's `filepath.Join`
      and `url.JoinPath` do. */
  function Join(elems: seq<string>): (p: Path)
    ensures forall e :: e in p <==> e in elems && e != ""
    ensures |p| <= |elems|
  {
    if elems == [] then []
    else (if elems[0] == "" then [] else [elems[0]]) + Join(elems[1..])
  }

  lemma JoinTwo(a: string, b: string)
    ensures Join([a, b]) == (if a == "" then [] else [a]) + (if b == "" then [] else [b])
  {
    assert [a, b][1..] == [b];
    assert [b][1..] == [];
  }

  /** Two-element joins under the same first element differ when the second
      elements differ: a package's files never share a path. */
  lemma JoinTwoInjective(a: string, b: string, c: string)
    requires Join([a, b]) == Join([a, c])
    ensures b == c
  {
    JoinTwo(a, b);
    JoinTwo(a, c);
    var head: seq<string> := if a == "" then [] else [a];
    if b != "" && c != "" {
      assert (head + [b])[|head|] == b;
      assert (head + [c])[|head|] == c;
    } else {
      assert |head + (if b == "" then [] else [b])| == |head + (if c == "" then [] else [c])|;
    }
  }

  /** The bytes of a stored or transferred file. YAML documents are kept
      abstract: a document is either the serialisation of a manifest, of a
      catalogue, or other data. */
  datatype Content =
    | Data(bytes: seq<bv8>)
    | ManifestDoc(manifest: Manifest)
    | IndexDoc(index: SpecIndex)

  /** An open byte stream: what it delivers, and the error it ends with, if
      any, instead of end-of-file. */
  datatype Reader = Reader(delivered: Content, fault: Option<Error>)

  /** Where an error was wrapped, one case per `fmt.Errorf("...: %w", err)`. */
  datatype Context =
    // pkg/pak/manager.go
    | InstallingPak(pakId: string, pakVersion: string)
    | GettingLocalSpec
    | GettingSpec
    | GettingRemoteManifest
    | UninstallingExisting
    | DownloadingFile(file: string)
    | GettingRemoteFile
    | WritingLocalFile
    | UninstallingPak(uninstallId: string)
    | DeletingLocalPak
    | ListingLocalPaks
    | UpgradingPak(upgradeId: string)
    | GettingLatestVersion
    | ListingRemotePaks
    // pkg/pak/yaml/yaml.go
    | DecodingYaml
    // pkg/repository/fs/fs.go
    | WalkingRepository
    | WritingFile(path: Path)
    | GettingInstalledManifest
    | RemovingFile(removedPath: Path)
    | RemovingManifest
    | GettingFile
    // pkg/repository/fs/fs.go and pkg/repository/http/http.go
    | GettingIndex
    | GettingIndexFile
    | ReadingIndexFile
    // pkg/repository/http/http.go
    | GettingManifestFile
    | ReadingManifestFile
    | RequestingRemoteFile

  datatype Error =
    | InvalidInstallSpec
    | SpecNotFound
    | ManifestNotFound(version: string)
    /** The operating system's "file does not exist". */
    | NotExist(missing: Path)
    /** The YAML decoder rejected the document. */
    | Malformed
    /** The HTTP client could not complete the request. */
    | RequestFailed
    /** The HTTP server answered with status 400 or above. */
    | BadStatus(status: int)
    /** A stream broke off before its end. */
    | StreamBroken
    | Wrapped(context: Context, cause: Error)

  /** The innermost error, as `errors.Is` would find it. */
  function Cause(e: Error): Error {
    if e.Wrapped? then Cause(e.cause) else e
  }

  /** A Go call returning `(T, error)`. */
  datatype Result<T> = Ok(value: T) | Err(error: Error)

  /** A Go call returning `(*T, error)`: a nil pointer with a nil error is
      NotFound, distinct from a failure. */
  datatype Lookup<T> = Found(value: T) | NotFound | Failed(error: Error)

  /** The points where the Go code dereferences a nil value and panics. */
  datatype PanicSite =
    /** `existing.Version` while upgrading a package that is not installed. */
    | NilInstalledManifest
    /** `spec.CurrentVersion` for an installed package the source does not know. */
    | NilSpec
    /** Using the nil reader a source returned: the Manager crashes when it
        defers `Close` on it, a store's `Write` when it copies from it. */
    | NilReader

  /** A Manager operation: it returns, returns an error, or crashes. */
  datatype Run<T> = Returned(value: T) | Errored(error: Error) | Panicked(site: PanicSite)

  /** Decoding a manifest document: only a serialised manifest decodes as one. */
  function DecodeManifest(c: Content): (r: Result<Manifest>)
    ensures r.Ok? <==> c.ManifestDoc?
    ensures r.Ok? ==> r.value == c.manifest
    ensures r.Err? ==> r.error == Wrapped(DecodingYaml, Malformed)
  {
    match c
    case ManifestDoc(m) => Ok(m)
    case _ => Err(Wrapped(DecodingYaml, Malformed))
  }

  /** Decoding a catalogue document: only a serialised catalogue decodes as one. */
  function DecodeIndex(c: Content): (r: Result<SpecIndex>)
    ensures r.Ok? <==> c.IndexDoc?
    ensures r.Ok? ==> r.value == c.index
    ensures r.Err? ==> r.error == Wrapped(DecodingYaml, Malformed)
  {
    match c
    case IndexDoc(i) => Ok(i)
    case _ => Err(Wrapped(DecodingYaml, Malformed))
  }

  /** Reading a manifest from a stream: a broken stream fails the decoder. */
  function ReadManifest(rd: Reader): (r: Result<Manifest>)
    ensures r.Ok? <==> rd.fault.None? && rd.delivered.ManifestDoc?
    ensures r.Ok? ==> r.value == rd.delivered.manifest
    ensures rd.fault.Some? ==> r == Err(Wrapped(DecodingYaml, rd.fault.value))
    ensures rd.fault.None? && r.Err? ==> r.error == Wrapped(DecodingYaml, Malformed)
  {
    match rd.fault
    case Some(e) => Err(Wrapped(DecodingYaml, e))
    case None => DecodeManifest(rd.delivered)
  }

  /** Reading a catalogue from a stream. */
  function ReadSpecIndex(rd: Reader): (r: Result<SpecIndex>)
    ensures r.Ok? <==> rd.fault.None? && rd.delivered.IndexDoc?
    ensures r.Ok? ==> r.value == rd.delivered.index
    ensures rd.fault.Some? ==> r == Err(Wrapped(DecodingYaml, rd.fault.value))
    ensures rd.fault.None? && r.Err? ==> r.error == Wrapped(DecodingYaml, Malformed)
  {
    match rd.fault
    case Some(e) => Err(Wrapped(DecodingYaml, e))
    case None => DecodeIndex(rd.delivered)
  }
}
