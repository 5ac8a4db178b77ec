/** What one `install_to` run does, as functions over the state it touches,
    and the properties of a run. */
module Install {
  import opened Resources
  import opened Fetcher

  /** The diagnostic written when a download is an S3 "access denied" body.
      Its exact wording is not known here; only its identity matters. */
  const S3BadMessage: string := "S3_BAD_MESSAGE"

  /** Everything a run reads or changes: the installer's download cache, the
      fetcher's request counter, the files and directories on disk, and the
      lines written to the output stream. */
  datatype World = World(
    cache: map<string, Bytes>,
    counts: map<string, nat>,
    files: map<Path, Bytes>,
    dirs: set<Path>,
    output: seq<string>)

  /** What a run is given: the install root, what the fetcher serves, and the
      bad-payload check. */
  datatype Env = Env(root: Path, respond: string -> Bytes, isBad: Bytes -> bool)

  /** How a run ends: normally, by the bad-payload abort (the process exit),
      or with a declaration whose file name cannot be worked out. */
  datatype Outcome = Completed | Aborted | AmbiguousFilename(uri: string)

  datatype Run = Run(outcome: Outcome, world: World)

  datatype Fetched = Fetched(bytes: Bytes, world: World)

  /** Every entry of `small` is in `big` with the same bytes. */
  predicate Extends(small: map<string, Bytes>, big: map<string, Bytes>) {
    forall u :: u in small ==> u in big && big[u] == small[u]
  }

  /** Bytes for `uri` through the cache: a hit changes nothing, a miss asks
      the fetcher once and remembers the answer. */
  function FetchOnce(respond: string -> Bytes, w: World, uri: string): (f: Fetched)
    ensures uri in f.world.cache && f.bytes == f.world.cache[uri]
    ensures Extends(w.cache, f.world.cache) && f.world.cache.Keys == w.cache.Keys + {uri}
    ensures uri in w.cache ==> f.world == w
    ensures uri !in w.cache ==> f.bytes == respond(uri) && f.world.counts == Bump(w.counts, uri)
    ensures forall u :: Count(f.world.counts, u) == Count(w.counts, u) + (if u == uri && uri !in w.cache then 1 else 0)
    ensures f.world.files == w.files && f.world.dirs == w.dirs && f.world.output == w.output
  {
    if uri in w.cache then Fetched(w.cache[uri], w)
    else
      var b := respond(uri);
      Fetched(b, w.(cache := w.cache[uri := b], counts := Bump(w.counts, uri)))
  }

  /** One resolved declaration: make its directory, get its bytes, and either
      abort with the diagnostic or write the file. The directory exists
      whatever the bytes turn out to be. */
  function InstallTarget(env: Env, w: World, t: Target): (r: Run)
    ensures r.outcome == Completed || r.outcome == Aborted
    ensures r.world.dirs == w.dirs + {TargetDir(env.root, t)}
    ensures r.outcome == Aborted ==> r.world.files == w.files && r.world.output == w.output + [S3BadMessage]
    ensures r.outcome == Completed ==> TargetPath(env.root, t) in r.world.files && r.world.output == w.output
    ensures t.uri in r.world.cache && (r.outcome == Aborted <==> env.isBad(r.world.cache[t.uri]))
    ensures r.outcome == Completed ==> r.world.files == w.files[TargetPath(env.root, t) := r.world.cache[t.uri]]
    ensures Extends(w.cache, r.world.cache) && r.world.cache.Keys == w.cache.Keys + {t.uri}
    ensures t.uri in w.cache ==> r.world.cache == w.cache && r.world.counts == w.counts
    ensures t.uri !in w.cache ==> r.world.cache[t.uri] == env.respond(t.uri)
    ensures forall u :: Count(r.world.counts, u) == Count(w.counts, u) + (if u == t.uri && t.uri !in w.cache then 1 else 0)
  {
    var w1 := w.(dirs := w.dirs + {TargetDir(env.root, t)});
    var f := FetchOnce(env.respond, w1, t.uri);
    if env.isBad(f.bytes) then Run(Aborted, f.world.(output := f.world.output + [S3BadMessage]))
    else Run(Completed, f.world.(files := f.world.files[TargetPath(env.root, t) := f.bytes]))
  }

  /** Targets in order, up to the first bad payload. */
  function InstallTargets(env: Env, w: World, ts: seq<Target>): (r: Run)
    decreases |ts|
  {
    if ts == [] then Run(Completed, w)
    else
      var r := InstallTarget(env, w, ts[0]);
      if r.outcome == Aborted then r else InstallTargets(env, r.world, ts[1..])
  }

  /** `install_to`: plugins in load order, each plugin's declarations in order. */
  function InstallPlugins(env: Env, w: World, ps: seq<Plugin>): (r: Run)
    decreases |ps|
  {
    if ps == [] then Run(Completed, w)
    else match Resolve(ps[0])
      case Ambiguous(u) => Run(AmbiguousFilename(u), w)
      case Resolved(ts) =>
        var r := InstallTargets(env, w, ts);
        if r.outcome == Aborted then r else InstallPlugins(env, r.world, ps[1..])
  }

  // ---------------------------------------------------------------------
  // The run as one flat sequence of targets

  /** The targets of all plugins in order, up to the first plugin that does
      not resolve, and that plugin's offending URI. */
  datatype Plan = Plan(targets: seq<Target>, failure: Option<string>)

  function PlanOf(ps: seq<Plugin>): Plan {
    if ps == [] then Plan([], None)
    else match Resolve(ps[0])
      case Ambiguous(u) => Plan([], Some(u))
      case Resolved(ts) =>
        var rest := PlanOf(ps[1..]);
        Plan(ts + rest.targets, rest.failure)
  }


  /** The first k targets all have bytes in `c`. */
  predicate CachedUpTo(ts: seq<Target>, k: nat, c: map<string, Bytes>)
    requires k <= |ts|
  {
    forall i :: 0 <= i < k ==> ts[i].uri in c
  }

  /** The bytes of the first k targets all pass the bad-payload check. */
  predicate GoodUpTo(env: Env, ts: seq<Target>, k: nat, c: map<string, Bytes>)
    requires k <= |ts| && CachedUpTo(ts, k, c)
  {
    forall i :: 0 <= i < k ==> !env.isBad(c[ts[i].uri])
  }

  /** The files after writing the first k targets' cached bytes in turn. */
  function FilesAfter(root: Path, f: map<Path, Bytes>, ts: seq<Target>, k: nat, c: map<string, Bytes>): map<Path, Bytes>
    requires k <= |ts| && CachedUpTo(ts, k, c)
    decreases k
  {
    if k == 0 then f
    else FilesAfter(root, f[TargetPath(root, ts[0]) := c[ts[0].uri]], ts[1..], k - 1, c)
  }

  /** The directories of the first k targets. */
  function DirsOf(root: Path, ts: seq<Target>, k: nat): set<Path>
    requires k <= |ts|
  {
    set i | 0 <= i < k :: TargetDir(root, ts[i])
  }

  /** The file paths of the first k targets. */
  function PathsOf(root: Path, ts: seq<Target>, k: nat): set<Path>
    requires k <= |ts|
  {
    set i | 0 <= i < k :: TargetPath(root, ts[i])
  }

  /** The URIs of the first k targets. */
  function UrisUpTo(ts: seq<Target>, k: nat): set<string>
    requires k <= |ts|
  {
    set i | 0 <= i < k :: ts[i].uri
  }

  /** Where a run that left cache `c` stopped: the first target whose bytes
      are missing from `c` or fail the check (|ts| when there is none). */
  function StopIndex(env: Env, ts: seq<Target>, c: map<string, Bytes>): (k: nat)
    ensures k <= |ts| && CachedUpTo(ts, k, c) && GoodUpTo(env, ts, k, c)
    ensures k < |ts| ==> ts[k].uri !in c || env.isBad(c[ts[k].uri])
    decreases |ts|
  {
    if ts == [] || ts[0].uri !in c || env.isBad(c[ts[0].uri]) then 0
    else 1 + StopIndex(env, ts[1..], c)
  }

  /** Once each URI the cache holds, and never a URI it does not hold. */
  ghost predicate FetchedOncePerCachedUri(w: World) {
    forall u :: Count(w.counts, u) == (if u in w.cache then 1 else 0)
  }

  // ---------------------------------------------------------------------
  // Small facts about the helpers

  lemma DirsOfCons(root: Path, ts: seq<Target>, k: nat)
    requires 0 < k <= |ts|
    ensures DirsOf(root, ts, k) == {TargetDir(root, ts[0])} + DirsOf(root, ts[1..], k - 1)
  {
    forall d | d in DirsOf(root, ts, k) ensures d in {TargetDir(root, ts[0])} + DirsOf(root, ts[1..], k - 1) {
      var i :| 0 <= i < k && d == TargetDir(root, ts[i]);
      if i > 0 { assert d == TargetDir(root, ts[1..][i - 1]); }
    }
    forall d | d in DirsOf(root, ts[1..], k - 1) ensures d in DirsOf(root, ts, k) {
      var i :| 0 <= i < k - 1 && d == TargetDir(root, ts[1..][i]);
      assert d == TargetDir(root, ts[i + 1]);
    }
  }

  lemma PathsOfCons(root: Path, ts: seq<Target>, k: nat)
    requires 0 < k <= |ts|
    ensures PathsOf(root, ts, k) == {TargetPath(root, ts[0])} + PathsOf(root, ts[1..], k - 1)
  {
    forall p | p in PathsOf(root, ts, k) ensures p in {TargetPath(root, ts[0])} + PathsOf(root, ts[1..], k - 1) {
      var i :| 0 <= i < k && p == TargetPath(root, ts[i]);
      if i > 0 { assert p == TargetPath(root, ts[1..][i - 1]); }
    }
    forall p | p in PathsOf(root, ts[1..], k - 1) ensures p in PathsOf(root, ts, k) {
      var i :| 0 <= i < k - 1 && p == TargetPath(root, ts[1..][i]);
      assert p == TargetPath(root, ts[i + 1]);
    }
  }

  lemma UrisUpToCons(ts: seq<Target>)
    requires ts != []
    ensures UrisUpTo(ts, |ts|) == {ts[0].uri} + UrisUpTo(ts[1..], |ts[1..]|)
  {
    forall u | u in UrisUpTo(ts, |ts|) ensures u in {ts[0].uri} + UrisUpTo(ts[1..], |ts[1..]|) {
      var i :| 0 <= i < |ts| && u == ts[i].uri;
      if i > 0 { assert u == ts[1..][i - 1].uri; }
    }
    forall u | u in UrisUpTo(ts[1..], |ts[1..]|) ensures u in UrisUpTo(ts, |ts|) {
      var i :| 0 <= i < |ts[1..]| && u == ts[1..][i].uri;
      assert u == ts[i + 1].uri;
    }
  }

  /** Writing a sequence of targets overlays a fixed map on the files. */
  lemma {:induction false} FilesAfterOverlay(root: Path, f: map<Path, Bytes>, ts: seq<Target>, k: nat, c: map<string, Bytes>)
    requires k <= |ts| && CachedUpTo(ts, k, c)
    ensures FilesAfter(root, f, ts, k, c) == f + FilesAfter(root, map[], ts, k, c)
    decreases k
  {
    if k > 0 {
      var p, v := TargetPath(root, ts[0]), c[ts[0].uri];
      FilesAfterOverlay(root, f[p := v], ts[1..], k - 1, c);
      FilesAfterOverlay(root, map[p := v], ts[1..], k - 1, c);
      assert map[][p := v] == map[p := v];
      assert f[p := v] == f + map[p := v];
    }
  }

  lemma FilesAfterIdempotent(root: Path, f: map<Path, Bytes>, ts: seq<Target>, k: nat, c: map<string, Bytes>)
    requires k <= |ts| && CachedUpTo(ts, k, c)
    ensures FilesAfter(root, FilesAfter(root, f, ts, k, c), ts, k, c) == FilesAfter(root, f, ts, k, c)
  {
    var m := FilesAfter(root, map[], ts, k, c);
    FilesAfterOverlay(root, f, ts, k, c);
    FilesAfterOverlay(root, f + m, ts, k, c);
    assert (f + m) + m == f + m;
  }

  /** The files afterwards are those before plus the targets' paths. */
  lemma {:induction false} FilesAfterKeys(root: Path, f: map<Path, Bytes>, ts: seq<Target>, k: nat, c: map<string, Bytes>)
    requires k <= |ts| && CachedUpTo(ts, k, c)
    ensures FilesAfter(root, f, ts, k, c).Keys == f.Keys + PathsOf(root, ts, k)
    decreases k
  {
    if k > 0 {
      FilesAfterKeys(root, f[TargetPath(root, ts[0]) := c[ts[0].uri]], ts[1..], k - 1, c);
      PathsOfCons(root, ts, k);
    }
  }

  /** A path no target writes keeps what it had; a path some target writes
      holds the cached bytes of one of the targets with that path. */
  lemma {:induction false} FilesAfterAt(root: Path, f: map<Path, Bytes>, ts: seq<Target>, k: nat, c: map<string, Bytes>, p: Path)
    requires k <= |ts| && CachedUpTo(ts, k, c)
    ensures var g := FilesAfter(root, f, ts, k, c);
      && (p !in PathsOf(root, ts, k) ==> (p in g <==> p in f) && (p in f ==> g[p] == f[p]))
      && (p in PathsOf(root, ts, k) ==>
            p in g && exists i :: 0 <= i < k && TargetPath(root, ts[i]) == p && g[p] == c[ts[i].uri])
    decreases k
  {
    if k > 0 {
      var p0 := TargetPath(root, ts[0]);
      var f' := f[p0 := c[ts[0].uri]];
      assert CachedUpTo(ts[1..], k - 1, c) by {
        forall i | 0 <= i < k - 1 ensures ts[1..][i].uri in c {
          assert ts[1..][i] == ts[i + 1];
        }
      }
      FilesAfterAt(root, f', ts[1..], k - 1, c, p);
      PathsOfCons(root, ts, k);
      var g := FilesAfter(root, f, ts, k, c);
      assert g == FilesAfter(root, f', ts[1..], k - 1, c);
      if p in PathsOf(root, ts[1..], k - 1) {
        var i :| 0 <= i < k - 1 && TargetPath(root, ts[1..][i]) == p && g[p] == c[ts[1..][i].uri];
        assert ts[1..][i] == ts[i + 1];
      } else if p == p0 {
        assert g[p] == c[ts[0].uri];
      }
    }
  }

  /** A file is either as it was or holds bytes that passed the check. */
  lemma {:induction false} FilesAfterGood(env: Env, f: map<Path, Bytes>, ts: seq<Target>, k: nat, c: map<string, Bytes>)
    requires k <= |ts| && CachedUpTo(ts, k, c) && GoodUpTo(env, ts, k, c)
    ensures var g := FilesAfter(env.root, f, ts, k, c);
      forall p :: p in g ==> (p in f && g[p] == f[p]) || !env.isBad(g[p])
    decreases k
  {
    if k > 0 {
      var p0 := TargetPath(env.root, ts[0]);
      assert GoodUpTo(env, ts[1..], k - 1, c) by {
        forall i | 0 <= i < k - 1 ensures !env.isBad(c[ts[1..][i].uri]) {
          assert ts[1..][i] == ts[i + 1];
        }
      }
      var f' := f[p0 := c[ts[0].uri]];
      FilesAfterGood(env, f', ts[1..], k - 1, c);
      var g := FilesAfter(env.root, f, ts, k, c);
      assert g == FilesAfter(env.root, f', ts[1..], k - 1, c);
      forall p | p in g ensures (p in f && g[p] == f[p]) || !env.isBad(g[p]) {
        if p != p0 && p in f' && g[p] == f'[p] {
          assert p in f && f'[p] == f[p];
        }
      }
    }
  }

  // ---------------------------------------------------------------------
  // Runs over a flat sequence of targets

  /** The cache only grows and keeps its bytes. */
  lemma {:induction false} TargetsExtend(env: Env, w: World, ts: seq<Target>)
    ensures Extends(w.cache, InstallTargets(env, w, ts).world.cache)
    decreases |ts|
  {
    if ts != [] {
      var r := InstallTarget(env, w, ts[0]);
      if r.outcome != Aborted {
        TargetsExtend(env, r.world, ts[1..]);
      }
    }
  }

  /** The cache only grows and keeps its bytes, it gains only URIs the run
      asked for, with the bytes the fetcher served, and each URI it gains was
      fetched exactly once. */
  lemma {:induction false} TargetsCache(env: Env, w: World, ts: seq<Target>)
    ensures var w' := InstallTargets(env, w, ts).world;
      && Extends(w.cache, w'.cache)
      && w'.cache.Keys <= w.cache.Keys + UrisUpTo(ts, |ts|)
      && (forall u :: u in w'.cache && u !in w.cache ==> w'.cache[u] == env.respond(u))
      && forall u :: Count(w'.counts, u) == Count(w.counts, u) + (if u in w'.cache && u !in w.cache then 1 else 0)
    decreases |ts|
  {
    if ts != [] {
      var r := InstallTarget(env, w, ts[0]);
      UrisUpToCons(ts);
      if r.outcome == Aborted {
        assert InstallTargets(env, w, ts) == r;
      } else {
        var w' := InstallTargets(env, r.world, ts[1..]).world;
        assert InstallTargets(env, w, ts).world == w';
        TargetsCache(env, r.world, ts[1..]);
        CacheLater(env, w, ts, r.world, w');
      }
    }
  }

  /** The step of TargetsCache: the first target took the cache and counter
      from w to w1, and the rest took them from w1 to w'. */
  lemma CacheLater(env: Env, w: World, ts: seq<Target>, w1: World, w': World)
    requires ts != [] && UrisUpTo(ts, |ts|) == {ts[0].uri} + UrisUpTo(ts[1..], |ts[1..]|)
    requires Extends(w.cache, w1.cache) && w1.cache.Keys == w.cache.Keys + {ts[0].uri}
    requires ts[0].uri !in w.cache ==> w1.cache[ts[0].uri] == env.respond(ts[0].uri)
    requires forall u :: Count(w1.counts, u) == Count(w.counts, u) + (if u == ts[0].uri && ts[0].uri !in w.cache then 1 else 0)
    requires Extends(w1.cache, w'.cache) && w'.cache.Keys <= w1.cache.Keys + UrisUpTo(ts[1..], |ts[1..]|)
    requires forall u :: u in w'.cache && u !in w1.cache ==> w'.cache[u] == env.respond(u)
    requires forall u :: Count(w'.counts, u) == Count(w1.counts, u) + (if u in w'.cache && u !in w1.cache then 1 else 0)
    ensures && Extends(w.cache, w'.cache)
      && w'.cache.Keys <= w.cache.Keys + UrisUpTo(ts, |ts|)
      && (forall u :: u in w'.cache && u !in w.cache ==> w'.cache[u] == env.respond(u))
      && forall u :: Count(w'.counts, u) == Count(w.counts, u) + (if u in w'.cache && u !in w.cache then 1 else 0)
  {
    forall u ensures Count(w'.counts, u) == Count(w.counts, u) + (if u in w'.cache && u !in w.cache then 1 else 0) {
      assert Count(w'.counts, u) == Count(w1.counts, u) + (if u in w'.cache && u !in w1.cache then 1 else 0);
      assert Count(w1.counts, u) == Count(w.counts, u) + (if u == ts[0].uri && ts[0].uri !in w.cache then 1 else 0);
    }
  }

  lemma {:induction false} TargetsCompleted(env: Env, w: World, ts: seq<Target>)
    requires InstallTargets(env, w, ts).outcome != Aborted
    ensures var r := InstallTargets(env, w, ts); var c := r.world.cache;
      && r.outcome == Completed
      && CachedUpTo(ts, |ts|, c) && GoodUpTo(env, ts, |ts|, c)
      && r.world.files == FilesAfter(env.root, w.files, ts, |ts|, c)
      && r.world.dirs == w.dirs + DirsOf(env.root, ts, |ts|)
      && r.world.output == w.output
    decreases |ts|
  {
    if ts != [] {
      var t, rest := ts[0], ts[1..];
      var r := InstallTarget(env, w, t);
      var r' := InstallTargets(env, r.world, rest);
      assert InstallTargets(env, w, ts) == r';
      TargetsCompleted(env, r.world, rest);
      TargetsExtend(env, r.world, rest);
      CompletedLater(env, w, ts, r.world, r'.world);
    }
  }

  /** The step of TargetsCompleted: the first target was written from w to
      w1, and the rest were then all written, from w1 to w'. */
  lemma CompletedLater(env: Env, w: World, ts: seq<Target>, w1: World, w': World)
    requires ts != [] && ts[0].uri in w1.cache && !env.isBad(w1.cache[ts[0].uri])
    requires w1.files == w.files[TargetPath(env.root, ts[0]) := w1.cache[ts[0].uri]]
    requires w1.dirs == w.dirs + {TargetDir(env.root, ts[0])} && w1.output == w.output
    requires Extends(w1.cache, w'.cache)
    requires var c := w'.cache;
      && CachedUpTo(ts[1..], |ts[1..]|, c) && GoodUpTo(env, ts[1..], |ts[1..]|, c)
      && w'.files == FilesAfter(env.root, w1.files, ts[1..], |ts[1..]|, c)
      && w'.dirs == w1.dirs + DirsOf(env.root, ts[1..], |ts[1..]|)
      && w'.output == w1.output
    ensures var c := w'.cache;
      && CachedUpTo(ts, |ts|, c) && GoodUpTo(env, ts, |ts|, c)
      && w'.files == FilesAfter(env.root, w.files, ts, |ts|, c)
      && w'.dirs == w.dirs + DirsOf(env.root, ts, |ts|)
      && w'.output == w.output
  {
    var c := w'.cache;
    assert |ts[1..]| + 1 == |ts|;
    assert c[ts[0].uri] == w1.cache[ts[0].uri];
    assert CachedUpTo(ts, |ts|, c) && GoodUpTo(env, ts, |ts|, c) by {
      forall i | 0 <= i < |ts| ensures ts[i].uri in c && !env.isBad(c[ts[i].uri]) {
        if i > 0 {
          assert ts[i] == ts[1..][i - 1];
        }
      }
    }
    assert FilesAfter(env.root, w.files, ts, |ts|, c) == FilesAfter(env.root, w1.files, ts[1..], |ts[1..]|, c);
    DirsStep(env.root, ts, |ts[1..]|, w.dirs, w1.dirs, w'.dirs);
  }

  /** The run from w to w' over ts stopped at its k-th target: the targets
      before it were cached and written, its own bytes are cached and bad,
      the directories of targets up to it were made, and the diagnostic was
      written once. */
  ghost predicate StoppedAt(env: Env, w: World, ts: seq<Target>, w': World, k: nat) {
    var c := w'.cache;
    && k < |ts| && CachedUpTo(ts, k, c) && ts[k].uri in c && env.isBad(c[ts[k].uri])
    && w'.files == FilesAfter(env.root, w.files, ts, k, c)
    && w'.dirs == w.dirs + DirsOf(env.root, ts, k + 1)
    && w'.output == w.output + [S3BadMessage]
  }

  /** An aborted run over targets stopped at the first target that is
      uncached or bad when it ends. */
  lemma {:induction false} TargetsAborted(env: Env, w: World, ts: seq<Target>)
    requires InstallTargets(env, w, ts).outcome == Aborted
    ensures var w' := InstallTargets(env, w, ts).world;
      StoppedAt(env, w, ts, w', StopIndex(env, ts, w'.cache))
    decreases |ts|
  {
    var t, rest := ts[0], ts[1..];
    var r := InstallTarget(env, w, t);
    if r.outcome == Aborted {
      assert InstallTargets(env, w, ts) == r;
      assert StopIndex(env, ts, r.world.cache) == 0;
      assert DirsOf(env.root, ts, 1) == {TargetDir(env.root, t)};
    } else {
      var w' := InstallTargets(env, r.world, rest).world;
      assert InstallTargets(env, w, ts).world == w';
      TargetsAborted(env, r.world, rest);
      TargetsExtend(env, r.world, rest);
      var k := StopIndex(env, rest, w'.cache);
      assert w'.cache[t.uri] == r.world.cache[t.uri];
      assert StopIndex(env, ts, w'.cache) == k + 1;
      AbortedLater(env, w, ts, r.world, w', k);
    }
  }

  /** Directories made by the first target and then by j more are those of
      the first j + 1. */
  lemma DirsStep(root: Path, ts: seq<Target>, j: nat, d0: set<Path>, d1: set<Path>, d2: set<Path>)
    requires j < |ts|
    requires d1 == d0 + {TargetDir(root, ts[0])} && d2 == d1 + DirsOf(root, ts[1..], j)
    ensures d2 == d0 + DirsOf(root, ts, j + 1)
  {
    DirsOfCons(root, ts, j + 1);
  }

  /** The step of TargetsAborted: the first target was written from w to w1,
      and the rest then stopped at their k-th, so the whole run stopped at
      the (k+1)-th. */
  lemma AbortedLater(env: Env, w: World, ts: seq<Target>, w1: World, w': World, k: nat)
    requires ts != [] && ts[0].uri in w1.cache && !env.isBad(w1.cache[ts[0].uri])
    requires w1.files == w.files[TargetPath(env.root, ts[0]) := w1.cache[ts[0].uri]]
    requires w1.dirs == w.dirs + {TargetDir(env.root, ts[0])} && w1.output == w.output
    requires Extends(w1.cache, w'.cache) && StoppedAt(env, w1, ts[1..], w', k)
    requires StopIndex(env, ts, w'.cache) == k + 1
    ensures StoppedAt(env, w, ts, w', StopIndex(env, ts, w'.cache))
  {
    var c := w'.cache;
    assert c[ts[0].uri] == w1.cache[ts[0].uri];
    assert ts[k + 1] == ts[1..][k];
    assert CachedUpTo(ts, k + 1, c) by {
      forall i | 0 <= i < k + 1 ensures ts[i].uri in c {
        if i > 0 {
          assert ts[i] == ts[1..][i - 1];
        }
      }
    }
    assert FilesAfter(env.root, w.files, ts, k + 1, c) == FilesAfter(env.root, w1.files, ts[1..], k, c);
    DirsStep(env.root, ts, k + 1, w.dirs, w1.dirs, w'.dirs);
    assert StoppedAt(env, w, ts, w', k + 1);
  }

  /** The cache c gained, over the cache before, only URIs of targets up to the
      k-th. */
  ghost predicate GainedWithin(before: map<string, Bytes>, c: map<string, Bytes>, ts: seq<Target>, k: nat) {
    k < |ts| && c.Keys <= before.Keys + UrisUpTo(ts, k + 1)
  }

  /** An aborted run's cache gains only URIs of targets up to the one that
      stopped it. */
  lemma {:induction false} AbortedCache(env: Env, w: World, ts: seq<Target>)
    requires InstallTargets(env, w, ts).outcome == Aborted
    ensures var c := InstallTargets(env, w, ts).world.cache;
      GainedWithin(w.cache, c, ts, StopIndex(env, ts, c))
    decreases |ts|
  {
    var t, rest := ts[0], ts[1..];
    var r := InstallTarget(env, w, t);
    if r.outcome == Aborted {
      assert InstallTargets(env, w, ts) == r;
      assert StopIndex(env, ts, r.world.cache) == 0;
      assert t.uri in UrisUpTo(ts, 1);
    } else {
      var c := InstallTargets(env, r.world, rest).world.cache;
      assert InstallTargets(env, w, ts).world.cache == c;
      AbortedCache(env, r.world, rest);
      TargetsExtend(env, r.world, rest);
      var k := StopIndex(env, rest, c);
      assert c[t.uri] == r.world.cache[t.uri];
      assert StopIndex(env, ts, c) == k + 1;
      AbortedCacheLater(env, w, ts, r.world, c, k);
    }
  }

  /** The step of AbortedCache, over the world w1 after the first target and
      the cache c after the rest. */
  lemma AbortedCacheLater(env: Env, w: World, ts: seq<Target>, w1: World, c: map<string, Bytes>, k: nat)
    requires ts != [] && w1.cache.Keys == w.cache.Keys + {ts[0].uri}
    requires GainedWithin(w1.cache, c, ts[1..], k) && StopIndex(env, ts, c) == k + 1
    ensures GainedWithin(w.cache, c, ts, StopIndex(env, ts, c))
  {
    assert ts[0].uri in UrisUpTo(ts, k + 2);
    forall i | 0 <= i < k + 1 ensures ts[1..][i].uri in UrisUpTo(ts, k + 2) {
      assert ts[1..][i] == ts[i + 1];
    }
  }

  /** What an aborted run from w to w' over the targets ts did. It stopped at
      the k-th target, whose bytes are cached and bad and whose directory
      exists (StoppedAt). Exactly the targets before k were written, to
      exactly their paths. The cache only grew, and only by URIs of targets up
      to k (GainedWithin), each fetched once and holding what was served. */
  ghost predicate AbortedRun(env: Env, w: World, ts: seq<Target>, w': World) {
    var c := w'.cache;
    var k := StopIndex(env, ts, c);
    && StoppedAt(env, w, ts, w', k)
    && GainedWithin(w.cache, c, ts, k)
    && TargetDir(env.root, ts[k]) in w'.dirs
    && w'.files.Keys == w.files.Keys + PathsOf(env.root, ts, k)
    && Extends(w.cache, c)
    && (forall u :: u in c && u !in w.cache ==> c[u] == env.respond(u))
    && forall u :: Count(w'.counts, u) == Count(w.counts, u) + (if u in c && u !in w.cache then 1 else 0)
  }

  /** An aborted run over targets is an AbortedRun. */
  lemma TargetsAbortStop(env: Env, w: World, ts: seq<Target>)
    requires InstallTargets(env, w, ts).outcome == Aborted
    ensures AbortedRun(env, w, ts, InstallTargets(env, w, ts).world)
  {
    var w' := InstallTargets(env, w, ts).world;
    var c := w'.cache;
    var k := StopIndex(env, ts, c);
    assert StoppedAt(env, w, ts, w', k) by {
      TargetsAborted(env, w, ts);
    }
    assert GainedWithin(w.cache, c, ts, k) by {
      AbortedCache(env, w, ts);
    }
    assert Extends(w.cache, c)
      && (forall u :: u in c && u !in w.cache ==> c[u] == env.respond(u))
      && forall u :: Count(w'.counts, u) == Count(w.counts, u) + (if u in c && u !in w.cache then 1 else 0) by {
      TargetsCache(env, w, ts);
    }
    assert w'.files.Keys == w.files.Keys + PathsOf(env.root, ts, k) by {
      FilesAfterKeys(env.root, w.files, ts, k, c);
    }
    AbortedRunIntro(env, w, ts, w', k);
  }

  /** The facts AbortedRun bundles, gathered into it. */
  lemma AbortedRunIntro(env: Env, w: World, ts: seq<Target>, w': World, k: nat)
    requires k == StopIndex(env, ts, w'.cache)
    requires StoppedAt(env, w, ts, w', k) && GainedWithin(w.cache, w'.cache, ts, k)
    requires w'.files.Keys == w.files.Keys + PathsOf(env.root, ts, k)
    requires Extends(w.cache, w'.cache)
    requires forall u :: u in w'.cache && u !in w.cache ==> w'.cache[u] == env.respond(u)
    requires forall u :: Count(w'.counts, u) == Count(w.counts, u) + (if u in w'.cache && u !in w.cache then 1 else 0)
    ensures AbortedRun(env, w, ts, w')
  {
    assert TargetDir(env.root, ts[k]) in DirsOf(env.root, ts, k + 1);
  }

  /** With every target's bytes cached and good, a run fetches nothing and
      only writes. */
  lemma {:induction false} Replay(env: Env, w: World, ts: seq<Target>)
    requires CachedUpTo(ts, |ts|, w.cache) && GoodUpTo(env, ts, |ts|, w.cache)
    ensures InstallTargets(env, w, ts)
      == Run(Completed, w.(files := FilesAfter(env.root, w.files, ts, |ts|, w.cache),
                           dirs := w.dirs + DirsOf(env.root, ts, |ts|)))
    decreases |ts|
  {
    if ts != [] {
      var r := InstallTarget(env, w, ts[0]);
      assert CachedUpTo(ts[1..], |ts| - 1, r.world.cache) && GoodUpTo(env, ts[1..], |ts| - 1, r.world.cache) by {
        forall i | 0 <= i < |ts| - 1 ensures ts[1..][i].uri in w.cache && !env.isBad(w.cache[ts[1..][i].uri]) {
          assert ts[1..][i] == ts[i + 1];
        }
      }
      Replay(env, r.world, ts[1..]);
      DirsOfCons(env.root, ts, |ts|);
    }
  }

  lemma {:induction false} TargetsAppend(env: Env, w: World, a: seq<Target>, b: seq<Target>)
    ensures InstallTargets(env, w, a + b)
      == var r := InstallTargets(env, w, a);
         if r.outcome == Aborted then r else InstallTargets(env, r.world, b)
    decreases |a|
  {
    if a == [] {
      assert a + b == b;
    } else {
      assert (a + b)[0] == a[0] && (a + b)[1..] == a[1..] + b;
      var r := InstallTarget(env, w, a[0]);
      if r.outcome != Aborted {
        TargetsAppend(env, r.world, a[1..], b);
      }
    }
  }

  // ---------------------------------------------------------------------
  // Runs over plugins

  /** A run over plugins is the run over its plan: the targets of all
      plugins in order, ending with AmbiguousFilename for the first plugin
      that does not resolve unless an abort came first. */
  lemma {:induction false} PluginsFlat(env: Env, w: World, ps: seq<Plugin>)
    ensures InstallPlugins(env, w, ps)
      == var plan := PlanOf(ps);
         var r := InstallTargets(env, w, plan.targets);
         if r.outcome == Aborted || plan.failure.None? then r
         else Run(AmbiguousFilename(plan.failure.value), r.world)
    decreases |ps|
  {
    if ps != [] {
      match Resolve(ps[0])
      case Ambiguous(u) =>
      case Resolved(ts) =>
        var r := InstallTargets(env, w, ts);
        TargetsAppend(env, w, ts, PlanOf(ps[1..]).targets);
        if r.outcome != Aborted {
          TargetsCompleted(env, w, ts);
          PluginsFlat(env, r.world, ps[1..]);
        }
    }
  }

  /** Every declaration of every plugin is resolved and planned, unless some
      plugin fails to resolve. */
  lemma {:induction false} PlanCovers(ps: seq<Plugin>)
    requires PlanOf(ps).failure.None?
    ensures forall i, j :: 0 <= i < |ps| && 0 <= j < |ps[i].resources| ==>
      EffectiveFilename(ps[i].resources[j]).Some?
      && TargetOf(ps[i].name, ps[i].resources[j]) in PlanOf(ps).targets
    decreases |ps|
  {
    if ps != [] {
      PlanCovers(ps[1..]);
      var ts := Resolve(ps[0]).targets;
      forall i, j | 0 <= i < |ps| && 0 <= j < |ps[i].resources|
        ensures EffectiveFilename(ps[i].resources[j]).Some?
        ensures TargetOf(ps[i].name, ps[i].resources[j]) in PlanOf(ps).targets
      {
        if i == 0 {
          assert ts[j] in ts;
        } else {
          assert ps[i] == ps[1..][i - 1];
        }
      }
    }
  }

  /** A plan that fails names a declared URI with no derivable file name. */
  lemma {:induction false} PlanFailure(ps: seq<Plugin>)
    requires PlanOf(ps).failure.Some?
    ensures exists i, j :: (0 <= i < |ps| && 0 <= j < |ps[i].resources|
      && ps[i].resources[j].uri == PlanOf(ps).failure.value
      && EffectiveFilename(ps[i].resources[j]).None?)
    decreases |ps|
  {
    if Resolve(ps[0]).Resolved? {
      PlanFailure(ps[1..]);
      var i, j :| 0 <= i < |ps[1..]| && 0 <= j < |ps[1..][i].resources|
        && ps[1..][i].resources[j].uri == PlanOf(ps).failure.value
        && EffectiveFilename(ps[1..][i].resources[j]).None?;
      assert ps[i + 1] == ps[1..][i];
    }
  }

  // ---------------------------------------------------------------------
  // The properties of install_to

  /** Over a run, the cache only grows and keeps its bytes, every URI it
      gains is a declared one and was fetched once, and no other URI was
      fetched. */
  lemma FetchesOnlyMisses(env: Env, w: World, ps: seq<Plugin>)
    ensures var w' := InstallPlugins(env, w, ps).world; var ts := PlanOf(ps).targets;
      && Extends(w.cache, w'.cache)
      && w'.cache.Keys <= w.cache.Keys + UrisUpTo(ts, |ts|)
      && forall u :: Count(w'.counts, u) == Count(w.counts, u) + (if u in w'.cache && u !in w.cache then 1 else 0)
  {
    PluginsFlat(env, w, ps);
    TargetsCache(env, w, PlanOf(ps).targets);
  }

  /** Starting from a fresh cache and counter, however many runs follow one
      another, no URI is ever fetched twice. */
  lemma FetchedOncePreserved(env: Env, w: World, ps: seq<Plugin>)
    requires FetchedOncePerCachedUri(w)
    ensures FetchedOncePerCachedUri(InstallPlugins(env, w, ps).world)
    ensures forall u :: Count(InstallPlugins(env, w, ps).world.counts, u) <= 1
  {
    FetchesOnlyMisses(env, w, ps);
  }

  /** A declared URI is fetched exactly once over two successive runs of a
      fresh installer whose first run completes. */
  lemma InstallTwiceFetchesOnce(env: Env, w: World, ps: seq<Plugin>, i: nat, j: nat)
    requires w.cache == map[] && forall u :: Count(w.counts, u) == 0
    requires InstallPlugins(env, w, ps).outcome == Completed
    requires i < |ps| && j < |ps[i].resources|
    ensures var w2 := InstallPlugins(env, InstallPlugins(env, w, ps).world, ps).world;
      Count(w2.counts, ps[i].resources[j].uri) == 1
  {
    var w1 := InstallPlugins(env, w, ps).world;
    var plan := PlanOf(ps);
    PluginsFlat(env, w, ps);
    TargetsCompleted(env, w, plan.targets);
    PlanCovers(ps);
    var t := TargetOf(ps[i].name, ps[i].resources[j]);
    var k :| 0 <= k < |plan.targets| && plan.targets[k] == t;
    assert t.uri in w1.cache;
    FetchedOncePreserved(env, w, ps);
    FetchedOncePreserved(env, w1, ps);
    FetchesOnlyMisses(env, w1, ps);
  }

  /** After a completed run over targets, a path no target writes is as it
      was, and a path some target writes holds the cached bytes of one of the
      targets with that path. */
  lemma TargetsCompletedAt(env: Env, w: World, ts: seq<Target>, p: Path)
    requires InstallTargets(env, w, ts).outcome != Aborted
    ensures var w' := InstallTargets(env, w, ts).world;
      && (p !in PathsOf(env.root, ts, |ts|) ==> (p in w'.files <==> p in w.files) && (p in w.files ==> w'.files[p] == w.files[p]))
      && (p in PathsOf(env.root, ts, |ts|) ==>
            && p in w'.files
            && exists k :: 0 <= k < |ts| && TargetPath(env.root, ts[k]) == p
                 && ts[k].uri in w'.cache && w'.files[p] == w'.cache[ts[k].uri])
  {
    var w' := InstallTargets(env, w, ts).world;
    TargetsCompleted(env, w, ts);
    FilesAfterAt(env.root, w.files, ts, |ts|, w'.cache, p);
  }

  /** Target t of the plan ts is installed by the run from w to w': its
      directory and file exist, and the file holds the bytes of a planned
      target with the same path, exactly those of t's own URI when no other
      URI is planned for that path. Those bytes are the ones cached before the
      run, else what was served. */
  ghost predicate DeclarationInstalled(env: Env, w: World, ts: seq<Target>, w': World, t: Target) {
    var p := TargetPath(env.root, t);
    && TargetDir(env.root, t) in w'.dirs
    && p in w'.files && t.uri in w'.cache
    && w'.cache[t.uri] == (if t.uri in w.cache then w.cache[t.uri] else env.respond(t.uri))
    && (exists k :: 0 <= k < |ts| && TargetPath(env.root, ts[k]) == p
          && ts[k].uri in w'.cache && w'.files[p] == w'.cache[ts[k].uri])
    && ((forall k :: 0 <= k < |ts| && TargetPath(env.root, ts[k]) == p ==> ts[k].uri == t.uri) ==> w'.files[p] == w'.cache[t.uri])
  }

  /** A completed run installs every declared resource (DeclarationInstalled),
      each declaration having a file name. It wrote exactly the planned paths
      and left every other file as it was. */
  lemma CompletedInstallsEverything(env: Env, w: World, ps: seq<Plugin>)
    requires InstallPlugins(env, w, ps).outcome == Completed
    ensures var w' := InstallPlugins(env, w, ps).world; var ts := PlanOf(ps).targets;
      && w'.files.Keys == w.files.Keys + PathsOf(env.root, ts, |ts|)
      && (forall p :: p in w.files && p !in PathsOf(env.root, ts, |ts|) ==> p in w'.files && w'.files[p] == w.files[p])
      && forall i, j :: 0 <= i < |ps| && 0 <= j < |ps[i].resources| ==>
        && EffectiveFilename(ps[i].resources[j]).Some?
        && DeclarationInstalled(env, w, ts, w', TargetOf(ps[i].name, ps[i].resources[j]))
  {
    var ts := PlanOf(ps).targets;
    var w' := InstallPlugins(env, w, ps).world;
    PluginsFlat(env, w, ps);
    assert InstallPlugins(env, w, ps) == InstallTargets(env, w, ts);
    TargetsCompleted(env, w, ts);
    TargetsCache(env, w, ts);
    PlanCovers(ps);
    FilesAfterKeys(env.root, w.files, ts, |ts|, w'.cache);
    forall p | p in w.files && p !in PathsOf(env.root, ts, |ts|)
      ensures p in w'.files && w'.files[p] == w.files[p]
    {
      TargetsCompletedAt(env, w, ts, p);
    }
    forall i, j | 0 <= i < |ps| && 0 <= j < |ps[i].resources|
      ensures DeclarationInstalled(env, w, ts, w', TargetOf(ps[i].name, ps[i].resources[j]))
    {
      var t := TargetOf(ps[i].name, ps[i].resources[j]);
      var p := TargetPath(env.root, t);
      var k :| 0 <= k < |ts| && ts[k] == t;
      assert TargetDir(env.root, ts[k]) in DirsOf(env.root, ts, |ts|);
      assert p in PathsOf(env.root, ts, |ts|);
      TargetsCompletedAt(env, w, ts, p);
    }
  }

  /** Running install_to again after a completed run changes nothing: the
      same files with the same bytes, no fetch, no output. */
  lemma InstallIsIdempotent(env: Env, w: World, ps: seq<Plugin>)
    requires InstallPlugins(env, w, ps).outcome == Completed
    ensures var w' := InstallPlugins(env, w, ps).world;
      InstallPlugins(env, w', ps) == Run(Completed, w')
  {
    var ts := PlanOf(ps).targets;
    var w' := InstallPlugins(env, w, ps).world;
    PluginsFlat(env, w, ps);
    PluginsFlat(env, w', ps);
    TargetsCompleted(env, w, ts);
    Replay(env, w', ts);
    FilesAfterIdempotent(env.root, w.files, ts, |ts|, w'.cache);
    assert w'.dirs + DirsOf(env.root, ts, |ts|) == w'.dirs;
  }

  /** The bad-payload abort: an aborted install_to is an AbortedRun over the
      plan. In particular nothing after the stopping target was touched, and
      that target's own file is absent unless it was there before or an
      earlier target wrote the same path. */
  lemma AbortStopsEverything(env: Env, w: World, ps: seq<Plugin>)
    requires InstallPlugins(env, w, ps).outcome == Aborted
    ensures var w' := InstallPlugins(env, w, ps).world; var ts := PlanOf(ps).targets;
      && AbortedRun(env, w, ts, w')
      && var k := StopIndex(env, ts, w'.cache);
         TargetPath(env.root, ts[k]) in w'.files ==>
           TargetPath(env.root, ts[k]) in w.files || TargetPath(env.root, ts[k]) in PathsOf(env.root, ts, k)
  {
    var ts := PlanOf(ps).targets;
    PluginsFlat(env, w, ps);
    assert InstallPlugins(env, w, ps) == InstallTargets(env, w, ts);
    TargetsAbortStop(env, w, ts);
  }

  /** No run ever writes a bad payload: every file is as it was before the
      run or holds bytes that passed the check. */
  lemma NoBadPayloadWritten(env: Env, w: World, ps: seq<Plugin>)
    ensures var w' := InstallPlugins(env, w, ps).world;
      forall p :: p in w'.files ==> (p in w.files && w'.files[p] == w.files[p]) || !env.isBad(w'.files[p])
  {
    var ts := PlanOf(ps).targets;
    var r := InstallTargets(env, w, ts);
    PluginsFlat(env, w, ps);
    if r.outcome == Aborted {
      TargetsAborted(env, w, ts);
      FilesAfterGood(env, w.files, ts, StopIndex(env, ts, r.world.cache), r.world.cache);
    } else {
      TargetsCompleted(env, w, ts);
      FilesAfterGood(env, w.files, ts, |ts|, r.world.cache);
    }
  }

  /** Conversely, a run with no bad bytes to find never aborts. */
  lemma NoAbortWithoutBadPayload(env: Env, w: World, ps: seq<Plugin>)
    requires forall u :: !env.isBad(env.respond(u))
    requires forall u :: u in w.cache ==> !env.isBad(w.cache[u])
    ensures InstallPlugins(env, w, ps).outcome != Aborted
  {
    var ts := PlanOf(ps).targets;
    var r := InstallTargets(env, w, ts);
    PluginsFlat(env, w, ps);
    if r.outcome == Aborted {
      TargetsAborted(env, w, ts);
      TargetsCache(env, w, ts);
    }
  }

  /** A run ends with AmbiguousFilename exactly when some plugin does not
      resolve and no abort came first; the URI it reports is a declared one
      with no derivable file name. */
  lemma AmbiguousFilenameReported(env: Env, w: World, ps: seq<Plugin>)
    ensures var r := InstallPlugins(env, w, ps);
      r.outcome.AmbiguousFilename? ==>
        exists i, j :: (0 <= i < |ps| && 0 <= j < |ps[i].resources|
          && ps[i].resources[j].uri == r.outcome.uri
          && EffectiveFilename(ps[i].resources[j]).None?)
    ensures var r := InstallPlugins(env, w, ps);
      PlanOf(ps).failure.Some? && r.outcome != Aborted ==> r.outcome == AmbiguousFilename(PlanOf(ps).failure.value)
  {
    PluginsFlat(env, w, ps);
    if PlanOf(ps).failure.Some? {
      PlanFailure(ps);
    } else {
      var r := InstallTargets(env, w, PlanOf(ps).targets);
      if r.outcome != Aborted {
        TargetsCompleted(env, w, PlanOf(ps).targets);
      }
    }
  }
}
