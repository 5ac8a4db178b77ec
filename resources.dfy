/** Plugins, the resources they declare, and how a declaration resolves to
    the place under the install root where its bytes are written. */
module Resources {

  newtype byte = x: int | 0 <= x < 256

  /** The raw body of a downloaded resource. */
  type Bytes = seq<byte>

  /** A filesystem path as a sequence of segments: `root / prefix / filename`. */
  type Path = seq<string>

  datatype Option<T> = None | Some(value: T)

  /** One `resource` line of a plugin manifest: the URI to download, and
      optionally the file name and the directory (prefix) to put it under. */
  datatype Declaration = Declaration(uri: string, filename: Option<string>, prefix: Option<string>)

  /** A loaded plugin: its name and its declarations, in declaration order. */
  datatype Plugin = Plugin(name: string, resources: seq<Declaration>)

  /** A resolved declaration: where `uri` is installed, relative to the root. */
  datatype Target = Target(uri: string, prefix: string, filename: string)

  /** The resolution of all of one plugin's declarations, or the URI of the
      first declaration whose file name cannot be worked out. */
  datatype Resolution = Resolved(targets: seq<Target>) | Ambiguous(uri: string)

  predicate IsUpper(c: char) { 'A' <= c <= 'Z' }

  function Lower(c: char): (l: char)
    ensures !IsUpper(l)
    ensures !IsUpper(c) ==> l == c
  {
    if IsUpper(c) then (c as int + 32) as char else c
  }

  /** A character a namespace keeps: anything but an upper-case letter or a
      space. */
  predicate NamespaceChar(c: char) { !IsUpper(c) && c != ' ' }

  /** The directory a plugin's resources go to by default: the plugin's name
      lower-cased with its spaces dropped ("Core" gives "core"). */
  function Namespace(name: string): (ns: string)
    ensures |ns| <= |name|
    ensures forall i :: 0 <= i < |ns| ==> NamespaceChar(ns[i])
    ensures (forall i :: 0 <= i < |name| ==> NamespaceChar(name[i])) ==> ns == name
    ensures ' ' !in name ==> |ns| == |name| && forall i :: 0 <= i < |ns| ==> ns[i] == Lower(name[i])
    ensures |name| == 1 ==> ns == (if name[0] == ' ' then [] else [Lower(name[0])])
  {
    if name == [] then []
    else
      var rest := Namespace(name[1..]);
      assert forall i :: 1 <= i < |name| ==> name[i] == name[1..][i - 1];
      if name[0] == ' ' then rest else [Lower(name[0])] + rest
  }

  /** The namespace of a name is made piece by piece: with the one-character
      case in Namespace's contract, this says spaces are dropped and every
      other character is lower-cased, in order. */
  lemma {:induction false} NamespaceAppend(a: string, b: string)
    ensures Namespace(a + b) == Namespace(a) + Namespace(b)
  {
    if a == [] {
      assert a + b == b;
    } else {
      assert (a + b)[0] == a[0] && (a + b)[1..] == a[1..] + b;
      NamespaceAppend(a[1..], b);
    }
  }

  /** A namespace is its own namespace. */
  lemma NamespaceIdempotent(name: string)
    ensures Namespace(Namespace(name)) == Namespace(name)
  {
  }

  /** The text after the last '/' of `uri` (all of it when there is no '/'). */
  function LastSegment(uri: string): (seg: string)
    ensures |seg| <= |uri| && uri[|uri| - |seg|..] == seg
    ensures '/' !in seg
    ensures |seg| < |uri| ==> uri[|uri| - |seg| - 1] == '/'
  {
    if uri == [] || uri[|uri| - 1] == '/' then []
    else LastSegment(uri[..|uri| - 1]) + [uri[|uri| - 1]]
  }

  /** The three properties of LastSegment's contract single out its result. */
  lemma LastSegmentUnique(uri: string, seg: string)
    requires |seg| <= |uri| && uri[|uri| - |seg|..] == seg
    requires '/' !in seg
    requires |seg| < |uri| ==> uri[|uri| - |seg| - 1] == '/'
    ensures seg == LastSegment(uri)
  {
    var last := LastSegment(uri);
    assert |seg| == |last|;
  }

  /** A URI ending in "/foo" implies the file name "foo". */
  lemma LastSegmentAfterSlash(base: string, name: string)
    requires '/' !in name
    ensures LastSegment(base + "/" + name) == name
  {
    var uri := base + "/" + name;
    assert uri[|uri| - |name|..] == name;
    assert uri[|uri| - |name| - 1] == '/';
    LastSegmentUnique(uri, name);
  }

  /** The declared file name, or else the one implied by the URI; None when
      the URI ends in '/' and no name was declared. */
  function EffectiveFilename(d: Declaration): (f: Option<string>)
    ensures d.filename.Some? ==> f == d.filename
    ensures d.filename.None? ==> (f.None? <==> d.uri == [] || d.uri[|d.uri| - 1] == '/')
    ensures d.filename.None? && f.Some? ==> f.value == LastSegment(d.uri) && '/' !in f.value
  {
    match d.filename
    case Some(f) => Some(f)
    case None =>
      if d.uri == [] || d.uri[|d.uri| - 1] == '/' then None else Some(LastSegment(d.uri))
  }

  /** Without a declared file name, a declaration has none exactly when the
      text after its URI's last '/' is empty. */
  lemma ImpliedFilenameEmpty(d: Declaration)
    requires d.filename.None?
    ensures EffectiveFilename(d).None? <==> LastSegment(d.uri) == []
  {
    var seg := LastSegment(d.uri);
    if seg != [] {
      assert seg[|seg| - 1] == d.uri[|d.uri| - 1];
    }
  }

  /** The declared prefix, or else the plugin's namespace. */
  function PrefixOf(pluginName: string, d: Declaration): (p: string)
    ensures d.prefix.Some? ==> p == d.prefix.value
    ensures d.prefix.None? ==> |p| <= |pluginName| && forall i :: 0 <= i < |p| ==> NamespaceChar(p[i])
    ensures d.prefix.None? && ' ' !in pluginName ==> |p| == |pluginName|
    ensures d.prefix.None? ==> p == Namespace(pluginName)
  {
    match d.prefix
    case Some(p) => p
    case None => Namespace(pluginName)
  }

  function TargetOf(pluginName: string, d: Declaration): (t: Target)
    requires EffectiveFilename(d).Some?
    ensures t.uri == d.uri && t.prefix == PrefixOf(pluginName, d)
    ensures d.filename.Some? ==> t.filename == d.filename.value
    ensures d.filename.None? ==> t.filename == LastSegment(d.uri)
  {
    Target(d.uri, PrefixOf(pluginName, d), EffectiveFilename(d).value)
  }

  /** Resolves a plugin's declarations one by one, in order; the first one
      without an effective file name stops the resolution. */
  function ResolveAll(pluginName: string, ds: seq<Declaration>): (r: Resolution)
    ensures r.Resolved? <==> forall i :: 0 <= i < |ds| ==> EffectiveFilename(ds[i]).Some?
    ensures r.Resolved? ==>
      |r.targets| == |ds| && forall i :: 0 <= i < |ds| ==> r.targets[i] == TargetOf(pluginName, ds[i])
    ensures r.Ambiguous? ==>
      exists i :: 0 <= i < |ds| && ds[i].uri == r.uri && EffectiveFilename(ds[i]).None?
        && forall j :: 0 <= j < i ==> EffectiveFilename(ds[j]).Some?
  {
    if ds == [] then Resolved([])
    else match EffectiveFilename(ds[0])
      case None => Ambiguous(ds[0].uri)
      case Some(_) =>
        var rest := ResolveAll(pluginName, ds[1..]);
        ResolveStep(pluginName, ds, rest);
        if rest.Ambiguous? then rest else Resolved([TargetOf(pluginName, ds[0])] + rest.targets)
  }

  /** ResolveAll's contract carries over from the declarations after the
      first, which has a file name, to all of them. */
  lemma ResolveStep(pluginName: string, ds: seq<Declaration>, rest: Resolution)
    requires ds != [] && EffectiveFilename(ds[0]).Some?
    requires rest.Resolved? <==> forall i :: 0 <= i < |ds[1..]| ==> EffectiveFilename(ds[1..][i]).Some?
    requires rest.Resolved? ==>
      |rest.targets| == |ds[1..]| && forall i :: 0 <= i < |ds[1..]| ==> rest.targets[i] == TargetOf(pluginName, ds[1..][i])
    requires rest.Ambiguous? ==>
      exists i :: 0 <= i < |ds[1..]| && ds[1..][i].uri == rest.uri && EffectiveFilename(ds[1..][i]).None?
        && forall j :: 0 <= j < i ==> EffectiveFilename(ds[1..][j]).Some?
    ensures var r := if rest.Ambiguous? then rest else Resolved([TargetOf(pluginName, ds[0])] + rest.targets);
      && (r.Resolved? <==> forall i :: 0 <= i < |ds| ==> EffectiveFilename(ds[i]).Some?)
      && (r.Resolved? ==>
            |r.targets| == |ds| && forall i :: 0 <= i < |ds| ==> r.targets[i] == TargetOf(pluginName, ds[i]))
      && (r.Ambiguous? ==>
            exists i :: 0 <= i < |ds| && ds[i].uri == r.uri && EffectiveFilename(ds[i]).None?
              && forall j :: 0 <= j < i ==> EffectiveFilename(ds[j]).Some?)
  {
    assert forall i :: 1 <= i < |ds| ==> ds[i] == ds[1..][i - 1];
    if rest.Ambiguous? {
      var i :| 0 <= i < |ds[1..]| && ds[1..][i].uri == rest.uri && EffectiveFilename(ds[1..][i]).None?
        && forall j :: 0 <= j < i ==> EffectiveFilename(ds[1..][j]).Some?;
      forall j | 0 <= j < i + 1 ensures EffectiveFilename(ds[j]).Some? {
        if j > 0 {
          assert ds[j] == ds[1..][j - 1];
        }
      }
      assert ds[i + 1] == ds[1..][i];
      assert 0 <= i + 1 < |ds| && ds[i + 1].uri == rest.uri && EffectiveFilename(ds[i + 1]).None?;
    }
  }

  function Resolve(p: Plugin): Resolution {
    ResolveAll(p.name, p.resources)
  }

  /** The conventional directory of a plugin under `root` (`resource_dir`). */
  function DefaultDir(root: Path, p: Plugin): Path {
    root + [Namespace(p.name)]
  }

  function TargetDir(root: Path, t: Target): Path {
    root + [t.prefix]
  }

  function TargetPath(root: Path, t: Target): Path {
    root + [t.prefix, t.filename]
  }

  /** A path written out with '/' between its segments. */
  function Render(p: Path): string {
    if p == [] then "" else if |p| == 1 then p[0] else p[0] + "/" + Render(p[1..])
  }

  lemma {:induction false} RenderAppend(p: Path, s: string)
    requires p != []
    ensures Render(p + [s]) == Render(p) + "/" + s
  {
    if |p| == 1 {
      assert (p + [s])[1..] == [s];
    } else {
      assert (p + [s])[1..] == p[1..] + [s];
      RenderAppend(p[1..], s);
    }
  }

  /** The path of a resolved declaration: its prefix is the explicit one if
      declared and the plugin's namespace otherwise; its file name is the
      explicit one if declared and the URI's last segment otherwise. */
  lemma ResolvedDestination(root: Path, p: Plugin, i: nat)
    requires Resolve(p).Resolved? && i < |p.resources|
    ensures i < |Resolve(p).targets|
    ensures var d := p.resources[i];
      TargetPath(root, Resolve(p).targets[i])
        == root + [if d.prefix.Some? then d.prefix.value else Namespace(p.name),
                   if d.filename.Some? then d.filename.value else LastSegment(d.uri)]
  {
  }

  /** A declaration without a prefix lands in the plugin's resource_dir. */
  lemma DefaultPrefixInResourceDir(root: Path, p: Plugin, i: nat)
    requires Resolve(p).Resolved? && i < |p.resources| && p.resources[i].prefix.None?
    ensures i < |Resolve(p).targets|
    ensures TargetPath(root, Resolve(p).targets[i]) == DefaultDir(root, p) + [Resolve(p).targets[i].filename]
  {
  }
}
