/** The installer object a plugin manager owns: the loaded plugins, the
    swappable HTTP object, the download cache that lives as long as the
    installer, and the files, directories and output its runs produce. */
module Installer {
  import opened Resources
  import opened Fetcher
  import opened Install

  class ResourceInstaller {
    /** The loaded plugins, in load order. */
    const plugins: seq<Plugin>
    /** Recognises an S3 "access denied" body. */
    const isBadPayload: Bytes -> bool
    var http: Http
    /** Bytes already downloaded, by URI string. */
    var cache: map<string, Bytes>
    var files: map<Path, Bytes>
    var dirs: set<Path>
    /** Lines written to the output stream. */
    var output: seq<string>
    /** The root of the latest `install_to`, if any. */
    var installDir: Option<Path>

    constructor (plugins: seq<Plugin>, http: Http, isBadPayload: Bytes -> bool)
      ensures this.plugins == plugins && this.http == http && this.isBadPayload == isBadPayload
      ensures cache == map[] && files == map[] && dirs == {} && output == [] && installDir == None
    {
      this.plugins := plugins;
      this.http := http;
      this.isBadPayload := isBadPayload;
      cache := map[];
      files := map[];
      dirs := {};
      output := [];
      installDir := None;
    }

    /** The state a run reads and changes, the fetcher's counter included. */
    function State(): World
      reads this, http
    {
      World(cache, http.getCount, files, dirs, output)
    }

    function EnvAt(root: Path): Env
      reads this, http
    {
      Env(root, http.respond, isBadPayload)
    }

    /** Replaces the HTTP object (`resource_installer.http = ...`); the cache
        is kept. */
    method SetHttp(h: Http)
      modifies this`http
      ensures http == h
    {
      http := h;
    }

    /** Bytes for `uri`, asking the HTTP object only on a cache miss. */
    method Fetch(uri: string) returns (bytes: Bytes)
      modifies this`cache, http
      ensures Fetched(bytes, State()) == FetchOnce(http.respond, old(State()), uri)
    {
      if uri in cache {
        bytes := cache[uri];
      } else {
        bytes := http.Get(uri);
        cache := cache[uri := bytes];
      }
    }

    /** Installs resolved targets in order, stopping at the first bad payload. */
    method InstallTargetsTo(root: Path, ts: seq<Target>) returns (outcome: Outcome)
      modifies this, http
      ensures http == old(http) && installDir == old(installDir)
      ensures Run(outcome, State()) == InstallTargets(EnvAt(root), old(State()), ts)
    {
      var j := 0;
      while j < |ts|
        invariant 0 <= j <= |ts|
        invariant http == old(http) && installDir == old(installDir)
        invariant InstallTargets(EnvAt(root), old(State()), ts) == InstallTargets(EnvAt(root), State(), ts[j..])
      {
        var t := ts[j];
        assert ts[j..][0] == t && ts[j..][1..] == ts[j + 1..];
        dirs := dirs + {TargetDir(root, t)};
        var bytes := Fetch(t.uri);
        if isBadPayload(bytes) {
          output := output + [S3BadMessage];
          return Aborted;
        }
        files := files[TargetPath(root, t) := bytes];
        j := j + 1;
      }
      return Completed;
    }

    /** `install_to(root)`: every plugin in load order, every declaration in
        order; the run ends early on a bad payload (the model's stand-in for
        the process exit) or on a declaration with no file name. */
    method InstallTo(root: Path) returns (outcome: Outcome)
      modifies this, http
      ensures http == old(http) && installDir == Some(root)
      ensures Run(outcome, State()) == InstallPlugins(EnvAt(root), old(State()), plugins)
    {
      installDir := Some(root);
      var i := 0;
      while i < |plugins|
        invariant 0 <= i <= |plugins|
        invariant http == old(http) && installDir == Some(root)
        invariant InstallPlugins(EnvAt(root), old(State()), plugins) == InstallPlugins(EnvAt(root), State(), plugins[i..])
      {
        assert plugins[i..][0] == plugins[i] && plugins[i..][1..] == plugins[i + 1..];
        match Resolve(plugins[i]) {
          case Ambiguous(u) =>
            return AmbiguousFilename(u);
          case Resolved(ts) =>
            var o := InstallTargetsTo(root, ts);
            if o == Aborted {
              return Aborted;
            }
        }
        i := i + 1;
      }
      return Completed;
    }

    /** `resource_dir(plugin)`: the plugin's namespace directory under the
        root of the latest install, whatever prefixes its declarations use. */
    function ResourceDir(p: Plugin): (dir: Option<Path>)
      reads this
      ensures dir.Some? <==> installDir.Some?
      ensures dir.Some? ==> installDir.value < dir.value
      ensures dir.Some? && installDir.value != [] ==>
        Render(dir.value) == Render(installDir.value) + "/" + Namespace(p.name)
    {
      match installDir
      case None => None
      case Some(root) =>
        if root == [] then Some(DefaultDir(root, p))
        else RenderAppend(root, Namespace(p.name)); Some(DefaultDir(root, p))
    }
  }
}
