/** The examples of the installer's test suite, each as a method that drives a
    fresh installer and promises what the example expects. The plugin
    fixtures are stand-ins with the names, prefixes and file names the
    examples mention; the bad-payload check and what the HTTP object serves
    are parameters. */
module InstallerSpec {
  import opened Resources
  import opened Fetcher
  import opened Install
  import opened Installer

  const GoogleUri: string := "http://www.google.com/index.html"

  /** A name made of lower-case letters and dashes is its own namespace. */
  lemma PlainNamespace(name: string)
    requires forall i :: 0 <= i < |name| ==> 'a' <= name[i] <= 'z' || name[i] == '-'
    ensures Namespace(name) == name
  {
  }

  /** A plugin "Core" with one resource saved as google.html, no prefix. */
  function ExamplePlugins(): seq<Plugin> {
    [Plugin("Core", [Declaration(GoogleUri, Some("google.html"), None)])]
  }

  function PrefixPlugins(): seq<Plugin> {
    [Plugin("WithPrefix", [Declaration(GoogleUri, Some("google.html"), Some("with-prefix"))])]
  }

  function MultiplePlugins(): seq<Plugin> {
    [Plugin("multiple-installs", [
      Declaration("http://www.google.ca/index.html", Some("google-ca.html"), None),
      Declaration("http://www.google.co.uk/index.html", Some("google-uk.html"), None)])]
  }

  /** A declaration of `<base>/<name>` with no file name. */
  function ImpliedDeclaration(base: string, name: string): Declaration {
    Declaration(base + "/" + name, None, None)
  }

  /** A plugin declaring `<base>/foo`, `<base>/bar` and `<base>/baz` without
      file names. */
  function ImpliedPlugin(name: string, base: string): Plugin {
    Plugin(name, [ImpliedDeclaration(base, "foo"), ImpliedDeclaration(base, "bar"), ImpliedDeclaration(base, "baz")])
  }

  /** A plugin "Core" whose one resource is served as an access-denied body.
      The s3-denied fixture is assumed to declare only that resource, so the
      root/core the example expects can only come from this very target. */
  function DeniedPlugins(): seq<Plugin> {
    [Plugin("Core", [Declaration("http://s3.amazonaws.com/bucket/bad_file.html", Some("bad_file.html"), None)])]
  }

  lemma CoreNamespace()
    ensures Namespace("Core") == "core"
  {
    assert Lower('C') == 'c';
  }

  /** A run from an empty cache where nothing served is a bad payload and
      every declaration has a file name ends with Completed, and declaration
      `j` of plugin `i` has its directory and its file. */
  lemma FreshRunInstalls(env: Env, w: World, ps: seq<Plugin>, i: nat, j: nat)
    requires w.cache == map[]
    requires forall u :: !env.isBad(env.respond(u))
    requires forall a, b :: 0 <= a < |ps| && 0 <= b < |ps[a].resources| ==>
      EffectiveFilename(ps[a].resources[b]).Some?
    requires i < |ps| && j < |ps[i].resources|
    ensures InstallPlugins(env, w, ps).outcome == Completed
    ensures var t := TargetOf(ps[i].name, ps[i].resources[j]);
      var w' := InstallPlugins(env, w, ps).world;
      TargetDir(env.root, t) in w'.dirs && TargetPath(env.root, t) in w'.files
  {
    NoAbortWithoutBadPayload(env, w, ps);
    AmbiguousFilenameReported(env, w, ps);
    CompletedInstallsEverything(env, w, ps);
  }

  /** Where the "Core" example's one resource goes. */
  lemma CorePaths(root: Path)
    ensures var t := TargetOf("Core", ExamplePlugins()[0].resources[0]);
      TargetDir(root, t) == root + ["core"] && TargetPath(root, t) == root + ["core", "google.html"]
  {
    CoreNamespace();
  }

  /** A path under root rendered with "/" and the "Core" namespace. */
  lemma CoreSuffix(rendered: string)
    ensures rendered + "/" + Namespace("Core") == rendered + "/core"
  {
    CoreNamespace();
  }

  lemma MultiplePaths(root: Path)
    ensures var p := MultiplePlugins()[0];
      TargetPath(root, TargetOf(p.name, p.resources[0])) == root + ["multiple-installs", "google-ca.html"]
      && TargetPath(root, TargetOf(p.name, p.resources[1])) == root + ["multiple-installs", "google-uk.html"]
  {
    PlainNamespace("multiple-installs");
  }

  /** An implied declaration resolves to its last segment, under the
      plugin's namespace. */
  lemma ImpliedTarget(pluginName: string, base: string, name: string)
    requires name != [] && '/' !in name
    ensures EffectiveFilename(ImpliedDeclaration(base, name)) == Some(name)
    ensures TargetOf(pluginName, ImpliedDeclaration(base, name)).prefix == Namespace(pluginName)
    ensures TargetOf(pluginName, ImpliedDeclaration(base, name)).filename == name
  {
    LastSegmentAfterSlash(base, name);
  }

  lemma ImpliedPaths(root: Path, pluginName: string, base: string)
    ensures var p := ImpliedPlugin(pluginName, base);
      (forall b :: 0 <= b < |p.resources| ==> EffectiveFilename(p.resources[b]).Some?)
      && TargetPath(root, TargetOf(p.name, p.resources[0])) == root + [Namespace(pluginName), "foo"]
      && TargetPath(root, TargetOf(p.name, p.resources[1])) == root + [Namespace(pluginName), "bar"]
      && TargetPath(root, TargetOf(p.name, p.resources[2])) == root + [Namespace(pluginName), "baz"]
  {
    var p := ImpliedPlugin(pluginName, base);
    ImpliedTarget(p.name, base, "foo");
    ImpliedTarget(p.name, base, "bar");
    ImpliedTarget(p.name, base, "baz");
    forall b | 0 <= b < |p.resources|
      ensures EffectiveFilename(p.resources[b]).Some?
    {
      if b == 0 {} else if b == 1 {} else {}
    }
  }

  lemma ImpliedFilenamesPaths(root: Path, base: string)
    ensures var p := ImpliedPlugin("implied-filenames", base);
      (forall b :: 0 <= b < |p.resources| ==> EffectiveFilename(p.resources[b]).Some?)
      && TargetPath(root, TargetOf(p.name, p.resources[0])) == root + ["implied-filenames", "foo"]
      && TargetPath(root, TargetOf(p.name, p.resources[1])) == root + ["implied-filenames", "bar"]
      && TargetPath(root, TargetOf(p.name, p.resources[2])) == root + ["implied-filenames", "baz"]
  {
    ImpliedPaths(root, "implied-filenames", base);
    ImpliedFilenamesNamespace();
  }

  lemma ImpliedFilenamesNamespace()
    ensures Namespace("implied-filenames") == "implied-filenames"
  {
    PlainNamespace("implied-filenames");
  }

  /** From a fresh installer, the denied plugin's run aborts after creating
      root/core, writes the diagnostic, and leaves bad_file.html unwritten. */
  lemma DeniedRun(env: Env, w: World)
    requires w.cache == map[] && w.files == map[] && w.dirs == {} && w.output == []
    requires env.isBad(env.respond(DeniedPlugins()[0].resources[0].uri))
    ensures var r := InstallPlugins(env, w, DeniedPlugins());
      r.outcome == Aborted
      && env.root + ["core"] in r.world.dirs
      && env.root + ["core", "bad_file.html"] !in r.world.files
      && S3BadMessage in r.world.output
  {
    var ps := DeniedPlugins();
    CoreNamespace();
    var t := TargetOf(ps[0].name, ps[0].resources[0]);
    assert Resolve(ps[0]) == Resolved([t]);
    assert InstallTargets(env, w, [t]).outcome == Aborted;
    assert InstallPlugins(env, w, ps).outcome == Aborted;
    AbortStopsEverything(env, w, ps);
  }

  /** spec/resource_installer_spec.rb lines 38-43: after install_to,
      root/core exists and holds google.html. */
  method DownloadsToPredefinedLocation(root: Path, content: string -> Bytes, isBad: Bytes -> bool)
    returns (hasCore: bool, hasGoogle: bool)
    requires forall u :: !isBad(content(u))
    ensures hasCore && hasGoogle
  {
    var http := new Http.Serving(content);
    var installer := new ResourceInstaller(ExamplePlugins(), http, isBad);
    ghost var w0 := installer.State();
    var outcome := installer.InstallTo(root);
    FreshRunInstalls(installer.EnvAt(root), w0, ExamplePlugins(), 0, 0);
    CorePaths(root);
    hasCore := root + ["core"] in installer.dirs;
    hasGoogle := root + ["core", "google.html"] in installer.files;
  }

  /** spec/resource_installer_spec.rb lines 45-52: two install_to calls
      with the counting fetcher swapped in fetch the Google page once. */
  method OnlyDownloadsOnce(root: Path, isBad: Bytes -> bool) returns (count: nat)
    requires !isBad(FakeFile)
    ensures count == 1
  {
    var original := new Http.Serving(_ => FakeFile);
    var installer := new ResourceInstaller(ExamplePlugins(), original, isBad);
    var fake := new Http.Fake();
    installer.SetHttp(fake);
    ghost var w0 := installer.State();
    var outcome := installer.InstallTo(root);
    outcome := installer.InstallTo(root);
    FreshRunInstalls(installer.EnvAt(root), w0, ExamplePlugins(), 0, 0);
    InstallTwiceFetchesOnce(installer.EnvAt(root), w0, ExamplePlugins(), 0, 0);
    count := fake.CountOf(GoogleUri);
  }

  /** spec/resource_installer_spec.rb lines 54-57: resource_dir of "Core"
      is the root followed by "/core". */
  method ResourceDirOfCore(root: Path, content: string -> Bytes, isBad: Bytes -> bool)
    returns (dir: string)
    requires root != []
    ensures dir == Render(root) + "/core"
  {
    var http := new Http.Serving(content);
    var installer := new ResourceInstaller(ExamplePlugins(), http, isBad);
    var outcome := installer.InstallTo(root);
    dir := Render(installer.ResourceDir(ExamplePlugins()[0]).value);
    CoreSuffix(Render(root));
  }

  /** spec/resource_installer_spec.rb lines 66-69: a declared prefix
      replaces the namespace directory. */
  method InstallsUnderPrefix(root: Path, content: string -> Bytes, isBad: Bytes -> bool)
    returns (installed: bool)
    requires forall u :: !isBad(content(u))
    ensures installed
  {
    var http := new Http.Serving(content);
    var installer := new ResourceInstaller(PrefixPlugins(), http, isBad);
    ghost var w0 := installer.State();
    var outcome := installer.InstallTo(root);
    FreshRunInstalls(installer.EnvAt(root), w0, PrefixPlugins(), 0, 0);
    installed := root + ["with-prefix", "google.html"] in installer.files;
  }

  /** spec/resource_installer_spec.rb lines 78-82: both resources of one
      plugin are installed by one run. */
  method InstallsMultipleResources(root: Path, content: string -> Bytes, isBad: Bytes -> bool)
    returns (hasCa: bool, hasUk: bool)
    requires forall u :: !isBad(content(u))
    ensures hasCa && hasUk
  {
    var http := new Http.Serving(content);
    var installer := new ResourceInstaller(MultiplePlugins(), http, isBad);
    ghost var w0 := installer.State();
    var outcome := installer.InstallTo(root);
    FreshRunInstalls(installer.EnvAt(root), w0, MultiplePlugins(), 0, 0);
    FreshRunInstalls(installer.EnvAt(root), w0, MultiplePlugins(), 0, 1);
    MultiplePaths(root);
    hasCa := root + ["multiple-installs", "google-ca.html"] in installer.files;
    hasUk := root + ["multiple-installs", "google-uk.html"] in installer.files;
  }

  /** spec/resource_installer_spec.rb lines 91-96: declarations of
      `<base>/foo`, `<base>/bar` and `<base>/baz` without a file name install
      as foo, bar and baz. */
  method UsesImpliedFilenames(root: Path, base: string, content: string -> Bytes, isBad: Bytes -> bool)
    returns (hasFoo: bool, hasBar: bool, hasBaz: bool)
    requires forall u :: !isBad(content(u))
    ensures hasFoo && hasBar && hasBaz
  {
    var ps := [ImpliedPlugin("implied-filenames", base)];
    var http := new Http.Serving(content);
    var installer := new ResourceInstaller(ps, http, isBad);
    ghost var w0 := installer.State();
    var outcome := installer.InstallTo(root);
    ImpliedFilenamesPaths(root, base);
    FreshRunInstalls(installer.EnvAt(root), w0, ps, 0, 0);
    FreshRunInstalls(installer.EnvAt(root), w0, ps, 0, 1);
    FreshRunInstalls(installer.EnvAt(root), w0, ps, 0, 2);
    hasFoo := root + ["implied-filenames", "foo"] in installer.files;
    hasBar := root + ["implied-filenames", "bar"] in installer.files;
    hasBaz := root + ["implied-filenames", "baz"] in installer.files;
  }

  /** spec/resource_installer_spec.rb lines 105-121: an access-denied body
      aborts the run, the diagnostic is written, root/core exists and
      bad_file.html is not in it. */
  method ReportsS3Denied(root: Path, denied: Bytes, isBad: Bytes -> bool)
    returns (outcome: Outcome, hasCore: bool, hasBadFile: bool, reported: bool)
    requires isBad(denied)
    ensures outcome == Aborted && hasCore && !hasBadFile && reported
  {
    var http := new Http.Serving(_ => denied);
    var installer := new ResourceInstaller(DeniedPlugins(), http, isBad);
    ghost var w0 := installer.State();
    outcome := installer.InstallTo(root);
    DeniedRun(installer.EnvAt(root), w0);
    hasCore := root + ["core"] in installer.dirs;
    hasBadFile := root + ["core", "bad_file.html"] in installer.files;
    reported := S3BadMessage in installer.output;
  }
}
