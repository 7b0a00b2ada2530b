# pakman, modelled in Dafny

pakman is a small package manager. A *pak* is a package with an id. A
source repository publishes a catalogue (`index.yml`, a map from id to
`Spec`), and one manifest per version listing the pak's files. The
**Manager** installs, upgrades and uninstalls paks in a writable local
repository by copying files from a source, and it answers which installed
paks are upgradable.

This project models that core as pure functions over immutable values, and
proves what the code promises about it:

| file | module | what it models |
|---|---|---|
| `pak.dfy` | `Pak` | `Spec`, `SpecIndex`, `Manifest`, `UpgradableSpec`, `InstallSpec`; errors and the context each `fmt.Errorf` adds; outcome types; YAML documents as abstract content |
| `sequences.dfy` | `Sequences` | strict total orders, sorting a finite set, lexicographic order, filtering |
| `memory.dfy` | `MemoryRepo` | the in-memory repository: three maps |
| `fs.dfy` | `FsRepo` | the file-system repository, as the local store and as a source, over a map from paths to contents |
| `http.dfy` | `HttpRepo` | the HTTP source: the server is an oracle, and the catalogue sits in a single-slot cache with a time to live |
| `source.dfy` | `Source` | the three sources behind one interface, and the catalogue a source answers with |
| `manager.dfy` | `Manager` | `Install`, `install`, `downloadFile`, `Uninstall`, `uninstall`, `Upgrade`, `Upgradable`, `List`, `ListInstalled` |
| `install.dfy` | `InstallProperties` | what one install does, case by case |
| `cli.dfy` | `Cli` | the command line's key order, search filter, printed lines and argument handling |

Modelling choices:

- **Outcomes.** Go's `(*T, error)` becomes `Lookup<T> = Found(v) | NotFound | Failed(e)`, so "nil and no error" stays distinct from failure. A Manager operation returns a `Run<T> = Returned(v) | Errored(e) | Panicked(site)`, together with the local store and source it leaves behind.
- **The three nil dereferences are outcomes.** Each is a `Panicked(site)` outcome, not a precondition:
  - `NilInstalledManifest`: the upgrade log line reads `existing.Version` when nothing is installed (`pkg/pak/manager.go:123-125`).
  - `NilSpec`: `Upgradable` reads `spec.CurrentVersion` for an id the catalogue lacks (`pkg/pak/manager.go:231-236`).
  - `NilReader`: deferring `Close` on the nil reader that the in-memory source returns for a missing file (`pkg/pak/manager.go:164`). The crash comes before the local `Write`, so the local store is left as it was.
- **Errors.** An error is `Wrapped(context, cause)`, one context per wrapping site, so the model's contracts can say which site reported a failure.
- **Local store.** The local repository is always the file-system one: the in-memory repository has no `WriteManifest` and cannot be local.
- **Sources.** The source is any of the three repositories.
- **HTTP clock.** The HTTP source carries a clock reading `now`, fixed for one Manager call. Its cache is state that a call hands on to the next.
- **The written manifest's id.** `install` writes the manifest under the id the downloaded manifest declares (`manifest.ID`, `pkg/pak/manager.go:151`), not the id asked for. It downloads the files under the id asked for. The model does the same. The install contracts therefore allow one manifest file outside the pak's directory to change, and the lemmas about a successful install assume the two ids agree.

In two places the program's own comments promise more than its code does.
The model follows the code in each:

- **Upgrading a pak that is not installed.** `Upgrade`'s comment (`pkg/pak/manager.go:193-194`) says it upgrades the given paks. Its upgrade log line reads the installed manifest's version (`pkg/pak/manager.go:123-125`), so naming a pak that is not installed crashes instead (`InstallProperties.UpgradeOfMissingPanics`).
- **Empty versions.** The source interface's comment (`pkg/pak/repository.go:46`, copied at `pkg/repository/memory/memory.go:33`, `pkg/repository/fs/fs.go:193` and `pkg/repository/http/http.go:81`) says an empty version means the latest. No source does that (see the last item of "Left out").

## Model

| member | source | states |
|---|---|---|
| `Pak.ReadManifest` | pkg/pak/yaml/yaml.go:44-51 | a stream decodes as a manifest exactly when it is complete and holds a manifest document, and then gives that manifest; a broken stream gives its own error wrapped as a decode error |
| `Pak.ReadSpecIndex` | pkg/pak/yaml/yaml.go:59-66 | a stream decodes as a catalogue exactly when it is complete and holds a catalogue document, and then gives that catalogue; a broken stream gives its own error wrapped as a decode error |
| `MemoryRepo.New` | pkg/repository/memory/memory.go:24-30 | a new repository has an empty catalogue, no manifests and no files |
| `MemoryRepo.GetSpec` | pkg/repository/memory/memory.go:34-41 | found exactly when the id is a catalogue key, with that entry; otherwise not found, never an error |
| `MemoryRepo.List` | pkg/repository/memory/memory.go:44-50 | always succeeds, with the same keys and entries as the catalogue |
| `MemoryRepo.GetManifest` | pkg/repository/memory/memory.go:53-60 | found exactly when (id, version) is a key, taken literally: an empty version is not resolved to the latest |
| `MemoryRepo.GetFile` | pkg/repository/memory/memory.go:62-69 | never an error; a reader over the stored content exactly when (id, version, file) is a key, otherwise no reader |
| `MemoryRepo.Write` | pkg/repository/memory/memory.go:71-80 | a complete reader stores its content under (id, version, file) and changes no other entry; a broken reader stores nothing; a nil reader crashes |
| `MemoryRepo.Delete` | pkg/repository/memory/memory.go:82-95 | removes the catalogue entry and every manifest and file key of the id; every key of another id keeps its value |
| `MemoryRepo.WriteThenGetFile` | pkg/repository/memory/memory.go:62-80 | reading back a written file gives what was written; every other file reads as before |
| `MemoryRepo.DeleteThenLookups` | pkg/repository/memory/memory.go:82-95 | after a delete, nothing of the id is found and every other id reads as before |
| `FsRepo.GetInstalledManifest` | pkg/repository/fs/fs.go:34-63 | not found exactly when `<id>/manifest` is missing; found with the stored manifest when it decodes; a file that does not decode is an error |
| `FsRepo.FilePathIsManifestPath` | pkg/repository/fs/fs.go:47-53 | a pak's file lands on its manifest's path exactly when the file is named `manifest` |
| `FsRepo.PathsOfNames` | pkg/repository/fs/fs.go:51-53 | a file path of a pak is among the paths of a list of names exactly when its name is in the list |
| `FsRepo.WalkOrder` | pkg/repository/fs/fs.go:69 | the walk visits every file once, in lexicographic order of path components |
| `FsRepo.Collect` | pkg/repository/fs/fs.go:74-102 | keeps exactly the visited files that are named `manifest`, decode, and sit at their own id's manifest path, in visiting order |
| `FsRepo.ListInstalled` | pkg/repository/fs/fs.go:66-108 | fails, wrapped as a walk error, exactly when the base directory is missing; otherwise lists exactly the installed manifests, in walk order |
| `FsRepo.Write` | pkg/repository/fs/fs.go:111-132 | stores at `<id>/<file>` whatever the reader delivered, overwriting, and changes no other path; returns exactly for a complete reader; a nil reader leaves an empty file and crashes |
| `FsRepo.WriteIgnoresVersion` | pkg/repository/fs/fs.go:111-112 | the version argument has no effect on the write |
| `FsRepo.WriteManifest` | pkg/repository/fs/fs.go:135-156 | afterwards the manifest of `manifest.ID` reads back as the one written; only that path changes |
| `FsRepo.RemoveFiles` | pkg/repository/fs/fs.go:172-178 | succeeds exactly when every listed file exists and no name repeats, and then removes exactly those paths; it never adds or alters a file |
| `FsRepo.RemoveFilesStopsAt` | pkg/repository/fs/fs.go:173-178 | at the first listed file that cannot be removed, the error names that file; the files before it are gone and everything else stays |
| `FsRepo.Delete` | pkg/repository/fs/fs.go:161-189 | a pak with no manifest is left alone with success; an undecodable manifest is an error that changes nothing; success exactly when the listed files can all be removed, and then exactly they and the manifest go; a failure keeps the manifest |
| `FsRepo.DeleteIsExact` | pkg/repository/fs/fs.go:172-183 | deleting a removable pak leaves exactly the store minus its listed files and its manifest |
| `FsRepo.List` | pkg/repository/fs/fs.go:229-252 | the catalogue succeeds exactly when `index.yml` exists and holds a catalogue; a missing file is a wrapped "not exist" |
| `FsRepo.GetSpec` | pkg/repository/fs/fs.go:215-227 | an unreadable catalogue is a wrapped error; otherwise found exactly when the id is in the catalogue, else not found |
| `FsRepo.GetManifest` | pkg/repository/fs/fs.go:194-211 | found exactly when `<id>/<version>/manifest.yml` exists and decodes; never "not found"; no version check |
| `FsRepo.GetManifestTrustsDirectory` | pkg/repository/fs/fs.go:194-207 | a manifest whose version disagrees with its directory is still returned |
| `FsRepo.GetFile` | pkg/repository/fs/fs.go:257-268 | a reader over `<id>/<version>/<file>` exactly when it exists; never a nil reader |
| `HttpRepo.New` | pkg/repository/http/http.go:43-51 | a new client has an empty cache and a zero time to live |
| `HttpRepo.Fetch` | pkg/repository/http/http.go:144-161 | a body exactly when the server is reachable and answers below 400; an unreachable server gives a wrapped request error; an unwrapped error carrying the reply's status otherwise |
| `HttpRepo.CheckCacheExpired` | pkg/repository/http/http.go:101-109 | the cache survives exactly when it holds a catalogue and at most the time to live has passed; an empty cache stays empty |
| `HttpRepo.GetIndex` | pkg/repository/http/http.go:111-142 | a valid cache answers unchanged; otherwise the catalogue the server serves is fetched, cached and stamped with the clock; a failed fetch or decode leaves the cache empty |
| `HttpRepo.GetIndexIsStable` | pkg/repository/http/http.go:111-142 | a second call at the same clock reading gives the same answer and leaves the same state |
| `HttpRepo.CachedIndexIgnoresServer` | pkg/repository/http/http.go:112-116 | a valid cache answers the same whatever the server would say |
| `HttpRepo.ExpiryIsStrict` | pkg/repository/http/http.go:106-108 | with a time to live of 10 the cache still answers after exactly 10, and after 11 a dead server makes the call fail and empties the cache |
| `HttpRepo.GetSpec` | pkg/repository/http/http.go:82-94 | a catalogue error is wrapped; otherwise found exactly when the id is in the catalogue; the cache moves as for `getIndex` |
| `HttpRepo.List` | pkg/repository/http/http.go:97-99 | the cached catalogue while the cache is valid; otherwise the catalogue the server serves, failing exactly when it serves none; a success leaves it cached and a failure leaves the cache empty |
| `HttpRepo.GetManifest` | pkg/repository/http/http.go:54-72 | an error exactly when the manifest cannot be fetched or decoded; otherwise not found exactly when a non-empty version differs from the manifest's version; an empty version accepts any |
| `HttpRepo.GetFile` | pkg/repository/http/http.go:164-171 | the body exactly when the fetch succeeds; failures are wrapped as "failed to get file" |
| `Source.GetSpec` | pkg/pak/repository.go:36-38 | whichever source, the answer is determined by the catalogue it holds, and that catalogue reads the same afterwards |
| `Source.List` | pkg/pak/repository.go:40-41 | whichever source, the catalogue itself or its error, and the catalogue reads the same afterwards |
| `Manager.Batch` | pkg/pak/manager.go:79-89 | no items succeed trivially; an error is wrapped with the context of one of the items |
| `Manager.BatchSeq` | pkg/pak/manager.go:81-86 | a batch over a + b runs a, then b from where a left off only if all of a returned |
| `Manager.BatchStopsAt` | pkg/pak/manager.go:175-180 | the first item that does not return ends the batch with its outcome, wrapped; later items are never attempted and earlier effects remain |
| `Manager.DownloadFile` | pkg/pak/manager.go:158-171 | returns exactly when the source delivers the file completely, and then the local file holds what was delivered; only that path changes; a nil reader crashes with the local store untouched |
| `Manager.DownloadFiles` | pkg/pak/manager.go:144-149 | returns exactly when every listed file can be fetched, and then each holds what the source delivered; only the listed paths change; a crash is the nil reader |
| `Manager.DownloadFilesEffect` | pkg/pak/manager.go:145-149 | the same facts, for any environment and file list |
| `Manager.DownloadFilesOutcome` | pkg/pak/manager.go:145-149 | the loop returns exactly when every listed file is delivered completely, crashes only on a nil reader, and leaves the source as it was |
| `Manager.DownloadFilesFootprint` | pkg/pak/manager.go:145-149 | only the listed files' paths appear or change |
| `Manager.DownloadFilesContent` | pkg/pak/manager.go:145-149 | after a full success each listed path holds what the source delivered for it, also when a name repeats |
| `Manager.ResolveVersion` | pkg/pak/manager.go:102-113 | a given version is kept; an empty one becomes the catalogue's current version; an id missing from the catalogue is "not found"; a catalogue error is wrapped twice |
| `Manager.DeleteStaysUnder` | pkg/pak/manager.go:185-191 | uninstalling a pak changes nothing outside its directory |
| `Manager.Replace` | pkg/pak/manager.go:137-155 | a failure changes nothing outside the pak's directory; a success leaves the downloaded manifest installed under its own id |
| `Manager.InstallOne` | pkg/pak/manager.go:91-156 | an empty id fails first with "invalid install spec"; a local read error is wrapped and changes nothing; any failure stays inside the pak's directory; the only crashes are the nil reader and upgrading a pak that is not installed |
| `Manager.Install` | pkg/pak/manager.go:79-89 | no specs succeed; an error names the id and version of one of the specs |
| `Manager.InstallInOrder` | pkg/pak/manager.go:81-86 | installing a + b installs b only if all of a succeeded, from the state a left |
| `Manager.UninstallOne` | pkg/pak/manager.go:185-191 | is the local store's delete, with its error wrapped |
| `Manager.Uninstall` | pkg/pak/manager.go:174-183 | no ids succeed; an error names one of the ids |
| `Manager.UninstallInOrder` | pkg/pak/manager.go:175-180 | uninstalling a + b uninstalls b only if all of a succeeded |
| `Manager.LatestOf` | pkg/pak/manager.go:203-207 | one latest-version request per installed manifest, in listing order |
| `Manager.Upgrade` | pkg/pak/manager.go:195-219 | with no specs, a listing error is wrapped and an empty installation succeeds; an error names one of the specs |
| `Manager.UpgradeAllIsUpgradeOfInstalled` | pkg/pak/manager.go:196-208 | upgrading with no specs is upgrading every installed pak, in listing order, to its latest version |
| `Manager.UpgradeInOrder` | pkg/pak/manager.go:212-216 | upgrading a + b upgrades b only if all of a succeeded |
| `Manager.Outdated` | pkg/pak/manager.go:229-249 | every entry reports an installed version different from the latest; the source keeps its catalogue |
| `Manager.Upgradable` | pkg/pak/manager.go:222-252 | a listing error is wrapped; an unreadable catalogue is a wrapped error once anything is installed; against a readable one it crashes exactly when an installed id is unknown, and otherwise returns the reference list `OutdatedIn` of installed packages whose version differs from the current one; the local store is not touched |
| `Manager.OutdatedMatchesCatalogue` | pkg/pak/manager.go:229-251 | against a readable catalogue the query crashes exactly when an installed id is missing from it; otherwise it returns exactly the outdated manifests, in installed order, with the installed version and the latest |
| `Manager.List` | pkg/pak/manager.go:255-262 | the source's catalogue, or its error wrapped as "listing remote paks" |
| `Manager.ListInstalled` | pkg/pak/manager.go:265-272 | exactly the installed manifests, each once, in the order of their manifest paths, or a wrapped walk error when the base directory is missing |
| `InstallProperties.InstallResolvesLatest` | pkg/pak/manager.go:102-113 | installing with an empty version is installing the catalogue's current version |
| `InstallProperties.InstallUnknownPackage` | pkg/pak/manager.go:102-110 | a pak missing from the catalogue gives "not found" and leaves the local store unchanged |
| `InstallProperties.InstallNoOpWhenCurrent` | pkg/pak/manager.go:115-121 | when the installed version is the one resolved, install succeeds and the local store is unchanged |
| `InstallProperties.UpgradeOfMissingPanics` | pkg/pak/manager.go:123-125 | upgrading a pak that is not installed crashes before touching the store |
| `InstallProperties.InstallWithoutManifest` | pkg/pak/manager.go:128-142 | a missing source manifest is reported with the version and a failed lookup is wrapped; in both cases nothing is deleted |
| `InstallProperties.DeletedFirst` | pkg/pak/manager.go:137-142 | a replacing install runs on the store with the old version's files and manifest already removed |
| `InstallProperties.DownloadAndRecordEffect` | pkg/pak/manager.go:144-155 | downloading everything and recording the manifest installs it; each file holds what was delivered; nothing else changes |
| `InstallProperties.InstallReplaces` | pkg/pak/manager.go:137-155 | a successful install leaves the new manifest installed, every new file as delivered, and the old version's other files gone; nothing outside the pak's directory changes |
| `InstallProperties.InstallDownloadFailure` | pkg/pak/manager.go:145-153 | a failed download leaves the pak not installed, because the manifest is never written; nothing outside its directory changes |
| `InstallProperties.InstallTwiceIsNoOp` | pkg/pak/manager.go:115-121 | when the installed manifest carries the resolved version, a repeated install succeeds and changes nothing |
| `InstallProperties.DeleteUndoes` | pkg/repository/fs/fs.go:172-183 | deleting a pak that was added without touching anything else gives back the earlier files |
| `InstallProperties.InstallThenUninstallRestores` | pkg/pak/manager.go:137-191 | installing a fresh pak and then uninstalling it gives back the local files the store had |
| `Cli.LowerStr` | cmd/pakman/pakman.go:218 | lower-cases each character and keeps the length |
| `Cli.KeyLessIsStrictTotal` | cmd/pakman/pakman.go:213-219 | the comparator is irreflexive, transitive and total on distinct keys |
| `Cli.SortedKeys` | cmd/pakman/pakman.go:206-222 | every key exactly once, strictly ordered by the comparator |
| `Cli.SortedKeysOrder` | cmd/pakman/pakman.go:213-219 | an earlier key is smaller in lower case, or equal in lower case and smaller in byte order |
| `Cli.SortedKeysIsUnique` | cmd/pakman/pakman.go:213-219 | any ordered listing of the keys is this one, so the output does not depend on map iteration order |
| `Cli.SortedKeysExample` | cmd/pakman/pakman.go:206-222 | `Widget`, `apple`, `Apple` list as `Apple`, `apple`, `Widget` |
| `Cli.ContainsIffOccurs` | cmd/pakman/pakman.go:250 | the substring scan succeeds exactly when the query occurs at some position |
| `Cli.Search` | cmd/pakman/pakman.go:248-250 | keeps exactly the keys whose lower-case form contains the lower-cased query, in listing order |
| `Cli.SearchEmptyListsAll` | cmd/pakman/pakman.go:248-250 | an empty query keeps every key |
| `Cli.VersionLines` | cmd/pakman/pakman.go:198-203 | one line per version, in version order, carrying the spec's own id and description |
| `Cli.LinesOfAppend` | cmd/pakman/pakman.go:249-256 | the lines for a + b are those for a followed by those for b |
| `Cli.LinesOf` | cmd/pakman/pakman.go:198-203 | a line is printed exactly when it carries the id, description and one of the versions of an entry under one of the keys |
| `Cli.ListLines` | cmd/pakman/pakman.go:189-204 | `list` prints exactly the lines of every version of every catalogue entry |
| `Cli.SearchLines` | cmd/pakman/pakman.go:234-256 | `search` prints exactly the lines of every version of the entries whose lower-cased key contains the lower-cased term |
| `Cli.SearchEmptyPrintsList` | cmd/pakman/pakman.go:189-256 | `search` with an empty term prints what `list` prints, in the same order |
| `Cli.LinesOfAt` | cmd/pakman/pakman.go:196-256 | in `list` and `search` output the lines of the key at position i form one block, between the lines of the keys before and after it |
| `Cli.SpecsOf` | cmd/pakman/pakman.go:133-138 | one request per id, in order, each with an empty version |
| `Cli.InstallArgs` | cmd/pakman/pakman.go:126-138 | no ids is a usage error; otherwise one latest-version request per id, request i naming id i |
| `Cli.UninstallArgs` | cmd/pakman/pakman.go:147-154 | no ids is a usage error; otherwise the ids as given |
| `Cli.SearchArgs` | cmd/pakman/pakman.go:235-240 | no term is a usage error; otherwise the first argument |
| `Cli.UpgradeArgs` | cmd/pakman/pakman.go:161-169 | no ids give no requests; otherwise one latest-version request per id |
| `Cli.UpgradeNamingAllIsUpgradeAll` | cmd/pakman/pakman.go:161-169 | naming every installed pak, in listing order, upgrades exactly as naming none |

## Left out

- `InstallProperties.InstallTwiceIsNoOp`: a repeated install is a no-op only when the installed manifest carries the resolved version. The in-memory and file-system sources do not check a manifest's version against the one asked for, so one of them can serve, for version 1, a manifest that says version 2; the next install of version 1 then finds version 2 installed and reinstalls, and with a repeated file name that reinstall fails part-way (`pkg/pak/manager.go:115-142`, `pkg/repository/fs/fs.go:172-183`).
- YAML encoding and decoding (`pkg/pak/yaml/yaml.go`, and the `Time` marshalling in `pkg/pak/spec.go`). It wraps a third-party library. A document is abstract content: it either is a manifest, is a catalogue, or does not decode. Time is an integer.
- File contents and streams. A file's content is an abstract value. A reader either delivers it completely or fails after delivering it.
- `FsRepo.Write`: operating-system failures (creating the directory or the file) are not modelled, because the store is a map. Only a broken reader fails the write.
- `FsRepo.WriteManifest`: never fails, for the same reason; encoding failures are part of the YAML codec left out above.
- `FsRepo.ListInstalled`: the only walk error modelled is a missing base directory. A manifest file that cannot be opened is not modelled.
- `FsRepo.Delete`: removing the pak's directory once it is empty (`pkg/repository/fs/fs.go:186`) is not modelled. Directories below the base are implicit in paths, and that step ignores its errors. For the empty id the manifest is `manifest` directly in the base directory, so that step removes the base directory itself once nothing else is stored: the program's next listing then fails (`pkg/repository/fs/fs.go:68-71` and `pkg/repository/fs/fs.go:103-104`), while the model keeps `baseExists` and lists nothing. This arises when a source serves a manifest that declares the empty id, since the Manager writes the manifest under the id it declares.
- Path handling: paths are lists of components, and joining drops empty components. Cleaning of `..` or separators inside names is not modelled.
- HTTP transport and URL building. The server is an oracle that answers each path with a status and a body, or is unreachable. Cancellation through `context.Context` is left out throughout.
- `HttpRepo.GetIndex`: the clock is an integer passed in, fixed for one Manager call. The time to live is an unbounded integer, so saturation of Go's 64-bit `time.Duration` is not modelled.
- The logger has no effect, except that the upgrade log line's read of the installed version is the `NilInstalledManifest` crash.
- `NewManager` and its defaults, `initManager`, `loadConfig`, `main` dispatch, `usage`, `os.Exit`, and the formatting of printed lines: the model stops at the lines' fields.
- `Cli.SortedKeys`: case folding is ASCII only. Go's `strings.ToLower` and `strings.EqualFold` fold Unicode, and for non-ASCII keys the two can disagree.
- `Cli.Search`: lower-cases with the same ASCII folding as `Cli.SortedKeys`.
- The `installed` and `upgradable` commands only print what `Manager.ListInstalled` and `Manager.Upgradable` return. They have no model of their own.
- The source interface's comment says an empty version means the latest. No source does that:
  - the in-memory source looks the empty version up as a key;
  - the file-system source reads `<id>/manifest.yml`;
  - the HTTP source fetches `<id>/manifest.yml` and accepts any manifest there.

  The Manager asks with an empty version only when the catalogue's current version is empty, and then gets what the items above describe. The model follows the code.
- `Source`'s manifest and file lookups dispatch to the three repositories and carry no contract of their own. `Source.SameOriginServesAlike` states that the HTTP cache does not affect them.
