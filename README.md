# Resource installer of the Redcar plugin manager, in Dafny

The plugin manager loads plugins, and each plugin may declare *resources*.
A resource is a URI to download, an optional file name and an optional
directory prefix. `install_to(root)` installs every declared resource of
every loaded plugin under `root`. For each one the installer:

- works out its path `root / prefix / filename`;
- gets its bytes through a download cache that lasts as long as the installer;
- aborts the run with a diagnostic if the bytes are an S3 "access denied"
  body, and otherwise writes the file.

The HTTP object the installer fetches through can be swapped. The test suite
swaps in `FakeHttp`, which counts requests per URI, to show that a URI is
fetched once across repeated runs. `resource_dir(plugin)` names the
directory a plugin's resources go to by default.

The installer's implementation file is not part of this model. What is
modelled is the behaviour the test file `spec/resource_installer_spec.rb`
expects. Where that file leaves the behaviour open, the model makes a choice
(see below).

Modules:

- `Resources` (resources.dfy) holds plugins and resource declarations. It
  also holds name resolution: the namespace, the implied file name, the
  prefix, and the rendering of paths.
- `Fetcher` (fetcher.dfy) holds the HTTP object as a class. It has what it
  serves and the per-URI request counter (`get_count`) that `get` bumps.
- `Install` (install.dfy) gives a run of `install_to` as pure functions over
  a `World`. A `World` holds the cache, the counter, files, directories and
  output lines. This module also holds the lemmas about runs: fetch-once,
  idempotence, the abort's effects, and completeness.
- `Installer` (installer.dfy) is the `ResourceInstaller` object. It has
  fields for the cache, the `http` object, the files, the directories, the
  output and the root of the latest install. Its `InstallTo` and
  `InstallTargetsTo` loops are proved equal to the `Install` functions.
  `ResourceDir` is `resource_dir`.
- `InstallerSpec` (installer_spec.dfy) turns each example of the test file
  into a method, with stand-in fixture plugins. Each method drives a fresh
  installer and promises what the example expects.

## Choices

- A run's end is an `Outcome`:
  - `Completed`;
  - `Aborted`, which stands for the `SystemExit` raised on a bad payload;
  - `AmbiguousFilename(uri)`, for a declaration with no file name whose URI
    ends in `/` or is empty.
- A plugin's declarations are all resolved before any of them is fetched.
  When one is ambiguous, the run stops at that plugin.
- A target's directory is created before its bytes are fetched. This is the
  model's own choice. The abort example (lines 117-118) expects `root/core`
  to exist after the run is aborted. The s3-denied fixture is not shown, and
  the model assumes that its core plugin declares only the refused resource,
  as `InstallerSpec.DeniedPlugins` encodes. Under that assumption only a
  directory created before the check explains `root/core`. An earlier
  resource written into `core` would also satisfy those lines, and then the
  opposite order would fit them too.
- The namespace of a plugin name is the name with ASCII capitals
  lower-cased and spaces dropped ("Core" gives "core").
- The implied file name of a declaration is the text after the last `/` of
  its URI.
- Bad bytes are cached like any others.
- `resource_dir` answers with no directory before any `install_to`. After one,
  it is based on the root of the latest `install_to`. The test file asks
  for `resource_dir` only after one run to a single root (lines 54-57), so
  both behaviours are the model's choice.

## Model

| member | source | states |
|---|---|---|
| Fetcher.Count | spec/resource_installer_spec.rb:13-17 | the counter is a hash with default 0: a URI never requested counts 0, a requested one counts what is stored for it |
| Fetcher.Bump | spec/resource_installer_spec.rb:13-17 | after one request for `uri`, its count is one more; every other URI's count is unchanged; a URI never seen counts 0 |
| Fetcher.Http.Fake | spec/resource_installer_spec.rb:12-18 | the counting stand-in serves "Fake File" for every URI and starts with every count at 0 |
| Fetcher.Http.Serving | spec/resource_installer_spec.rb:45-47 | a fetcher serving given content, counter at 0 (the installer's HTTP object before the swap) |
| Fetcher.Http.Get | spec/resource_installer_spec.rb:16-19 | `get(uri)` returns what is served for `uri` and bumps that URI's count by one, no other |
| Resources.Namespace | spec/resource_installer_spec.rb:41-42 | the namespace has no capitals or spaces and is no longer than the name; a name already in that form is its own namespace; a name without spaces is lower-cased character by character; a single space gives "" and a single other character gives its lower case |
| Resources.NamespaceAppend | spec/resource_installer_spec.rb:41-42 | the namespace works character by character: the namespace of a concatenation is the concatenation of the namespaces, so with the single-character cases it is fixed on every name ("C D" gives "cd") |
| Resources.NamespaceIdempotent | spec/resource_installer_spec.rb:41-42 | a property of the namespace rule the model chose (the test file does not promise it): taking the namespace of a namespace changes nothing |
| Resources.LastSegment | spec/resource_installer_spec.rb:91-96 | the implied file name is a suffix of the URI, contains no '/', and is preceded by '/' unless it is the whole URI |
| Resources.LastSegmentUnique | spec/resource_installer_spec.rb:91-96 | those three properties determine the implied file name uniquely |
| Resources.LastSegmentAfterSlash | spec/resource_installer_spec.rb:91-96 | a URI ending in `/foo` implies the file name `foo` |
| Resources.EffectiveFilename | spec/resource_installer_spec.rb:91-96 | a declared file name is used as given; without one, there is a file name exactly when the URI is non-empty and does not end in '/', and it is then the URI's last segment, which has no '/' |
| Resources.ImpliedFilenameEmpty | spec/resource_installer_spec.rb:91-96 | without a declared file name, there is none exactly when the URI's last segment is empty |
| Resources.PrefixOf | spec/resource_installer_spec.rb:54-69 | a declared prefix is used as given; without one, it is exactly the namespace of the plugin's name ("Core" gives "core"), so it has no capitals or spaces, is no longer than the name, and is as long as it when the name has no spaces |
| Resources.TargetOf | spec/resource_installer_spec.rb:66-96 | a resolved target keeps the declaration's URI, takes the prefix PrefixOf gives, and takes the declared file name, else the URI's last segment |
| Resources.ResolveAll | spec/resource_installer_spec.rb:78-96 | resolution succeeds iff every declaration has a file name, declared or implied; it then gives one target per declaration, in order; otherwise it reports the URI of the first declaration without one |
| Resources.ResolvedDestination | spec/resource_installer_spec.rb:66-69 | a resolved declaration's path is root / (declared prefix, else namespace) / (declared file name, else the URI's last segment) |
| Resources.DefaultPrefixInResourceDir | spec/resource_installer_spec.rb:54-57 | a declaration without a prefix lands directly inside the plugin's resource_dir |
| Resources.RenderAppend | spec/resource_installer_spec.rb:56 | a path extended by one segment renders as the old rendering, "/", and the segment |
| Install.FetchOnce | spec/resource_installer_spec.rb:45-52 | a cache hit returns the cached bytes and changes nothing; a miss returns what is served, caches it, and bumps that URI's count once; the cache only grows; files, directories and output are untouched |
| Install.InstallTarget | spec/resource_installer_spec.rb:105-121 | one target either completes or aborts; either way the directories gain exactly its directory, and its URI is fetched through the cache: the cache keeps its old entries and gains only that URI, holding what is served when it was missing, and the counter goes up by one for that URI exactly when it was missing; it aborts exactly when the cached bytes of its URI are bad; an abort writes no file and outputs the diagnostic; a completion writes those cached bytes to the target's path, changes no other file, and outputs nothing |
| Install.StopIndex | spec/resource_installer_spec.rb:105-121 | the first planned target that is uncached or bad; every target before it is cached with good bytes |
| Install.TargetsCompleted | spec/resource_installer_spec.rb:78-82 | a run over targets that does not abort completes with every target cached with good bytes, its files the overlay of each target's path with its cached bytes, its directories exactly the targets' directories added, and no output |
| Install.TargetsAborted | spec/resource_installer_spec.rb:105-121 | an aborted run over targets stopped at the first target that is uncached or bad: that target's bytes are bad, exactly the targets before it were written, the directories up to and including it were added, and the diagnostic was output once |
| Install.TargetsAbortStop | spec/resource_installer_spec.rb:105-121 | an aborted run over targets is an AbortedRun: besides what TargetsAborted says, the cache only grew, by URIs of targets up to the stop only, each holding what was served and fetched exactly once, and no other URI was fetched |
| Install.TargetsCompletedAt | spec/resource_installer_spec.rb:78-82 | after a completed run over targets, a path no target writes is as it was, and a path some target writes holds the cached bytes of a target with that path |
| Install.PluginsFlat | spec/resource_installer_spec.rb:38-121 | a run over plugins is the run over the targets of all plugins in order, ending with AmbiguousFilename for the first plugin that does not resolve unless an abort came first |
| Install.FetchesOnlyMisses | spec/resource_installer_spec.rb:45-52 | over a run the cache keeps its bytes; it gains only declared URIs; each gained URI is fetched exactly once and no other URI is fetched |
| Install.FetchedOncePreserved | spec/resource_installer_spec.rb:45-52 | "each cached URI fetched once, no other fetched" is preserved by every run, so no count ever exceeds 1 |
| Install.InstallTwiceFetchesOnce | spec/resource_installer_spec.rb:45-52 | from a fresh cache and counter, after two runs whose first completes, every declared URI has been fetched exactly once |
| Install.CompletedInstallsEverything | spec/resource_installer_spec.rb:38-96 | after a completed run, every declaration has a file name; its directory and its file root/prefix/filename exist; the file holds the bytes of a declaration with that path, exactly its own URI's bytes when no other URI shares the path; those bytes are the ones cached before, else what was served; the run wrote exactly the planned paths and left every other file as it was |
| Install.InstallIsIdempotent | spec/resource_installer_spec.rb:49-50 | a run repeated after a completed one completes and leaves the state exactly as it was: no fetch, no output, same files |
| Install.AbortStopsEverything | spec/resource_installer_spec.rb:105-121 | an aborted run wrote the diagnostic once. It stopped at the first target of the plan that is uncached or bad, and that target's bytes are bad. Exactly the earlier targets were written, to exactly their paths. The directories added are exactly those of the targets up to the stop. The cache gained only URIs of those targets, each holding what was served and fetched exactly once. The bad target's file is absent unless it existed before or an earlier target wrote it. Nothing on disk was removed |
| Install.NoBadPayloadWritten | spec/resource_installer_spec.rb:118 | every file after any run is either untouched from before or holds bytes that passed the check |
| Install.NoAbortWithoutBadPayload | spec/resource_installer_spec.rb:105-109 | when nothing served or cached is a bad payload, a run never aborts |
| Install.AmbiguousFilenameReported | spec/resource_installer_spec.rb:91-96 | a run ending with AmbiguousFilename names a declared URI that has no file name; when some plugin fails to resolve and no abort came first, the run ends that way |
| Installer.ResourceInstaller.constructor | spec/resource_installer_spec.rb:22-26 | a new installer has an empty cache, no files, directories or output, and no install root |
| Installer.ResourceInstaller.SetHttp | spec/resource_installer_spec.rb:47 | `http=` replaces the HTTP object and keeps the cache |
| Installer.ResourceInstaller.Fetch | spec/resource_installer_spec.rb:45-52 | the installer's cached fetch does exactly what FetchOnce says to the cache and the HTTP object's counter |
| Installer.ResourceInstaller.InstallTargetsTo | spec/resource_installer_spec.rb:105-121 | the loop over one plugin's targets ends in the outcome and state that InstallTargets gives |
| Installer.ResourceInstaller.InstallTo | spec/resource_installer_spec.rb:38-121 | `install_to(root)` records the root and ends in the outcome and state that InstallPlugins gives; the HTTP object stays the same |
| Installer.ResourceInstaller.ResourceDir | spec/resource_installer_spec.rb:54-57 | before any install there is no resource dir; after one, it is the latest root extended by the plugin's namespace, rendering as root + "/" + namespace |
| InstallerSpec.FreshRunInstalls | spec/resource_installer_spec.rb:38-96 | from an empty cache, with nothing bad served and every declaration named, a run completes and installs each declaration's directory and file |
| InstallerSpec.DeniedRun | spec/resource_installer_spec.rb:111-121 | running the access-denied plugin from a fresh state aborts, leaves root/core in place, writes no bad_file.html and outputs the diagnostic |
| InstallerSpec.DownloadsToPredefinedLocation | spec/resource_installer_spec.rb:38-43 | after install_to, root/core exists and holds google.html |
| InstallerSpec.OnlyDownloadsOnce | spec/resource_installer_spec.rb:45-52 | with the counting fetcher swapped in, two install_to calls fetch the Google page exactly once |
| InstallerSpec.ResourceDirOfCore | spec/resource_installer_spec.rb:54-57 | resource_dir of "Core" renders as the root followed by "/core" |
| InstallerSpec.InstallsUnderPrefix | spec/resource_installer_spec.rb:66-69 | a resource declared with prefix "with-prefix" is written to root/with-prefix/google.html |
| InstallerSpec.InstallsMultipleResources | spec/resource_installer_spec.rb:78-82 | both resources of one plugin are written: google-ca.html and google-uk.html |
| InstallerSpec.UsesImpliedFilenames | spec/resource_installer_spec.rb:91-96 | for any base URI, declarations of base/foo, base/bar and base/baz without file names are written as foo, bar and baz under the plugin's namespace |
| InstallerSpec.ImpliedTarget | spec/resource_installer_spec.rb:91-96 | a declaration of base/name with no file name or prefix resolves to file name `name` under the plugin's namespace |
| InstallerSpec.ReportsS3Denied | spec/resource_installer_spec.rb:105-121 | an access-denied body makes install_to abort; root/core exists, bad_file.html does not, and the output holds the diagnostic |

## Left out

- Real HTTP and the real filesystem. What the HTTP object serves is a function parameter. Files are a map from paths to bytes and directories a set of paths. Globbing, permissions and I/O errors are not modelled.
- Process exit. The `SystemExit` of a bad payload is the `Aborted` outcome. What happens to the process afterwards is not modelled.
- The output stream. It is a sequence of lines, and the model writes only the diagnostic to it. The test file checks only that the diagnostic is among the output (line 120), so any other output the installer may write is not modelled.
- The S3 "access denied" signature. The check is a parameter of the installer (`isBadPayload`). The diagnostic's wording is not known, so the constant `S3BadMessage` stands for it.
- Plugin loading (`add_plugin_source`, `load`) and the fixture manifests. The plugins are given to the installer, and the scenario fixtures are stand-ins with the names, prefixes and file names the examples mention.
- The temporary directory set-up and tear-down around each example (lines 22-30). The root is a parameter.
- Fetcher.Http.Get: the `uri.to_s` conversion is not modelled, because URIs are strings throughout.
- Resources.Namespace: only lower-casing ASCII capitals and dropping spaces is modelled. Any other filesystem-safe rewriting the source might do is not known.
- A run after a rescued abort. The abort example rescues the `SystemExit` (lines 112-115), so the same installer could run again, but the test file does not say what that run does. In the model it finds the bad bytes in the cache and aborts again without fetching. That is a modelling choice.
