/** The source configuration of `src/lib/Config.js`: the defaults and the
    optional `config.cson` merged into the object, and the glob patterns
    `sourcePath` built from its `source` roots for every supported
    extension. */
module SourceConfig {
  import opened Common

  /** A configuration value as the patterns see it. */
  datatype CValue = CStr(s: string) | CArr(items: seq<string>) | CNull

  /** The extensions the constructor installs as `support`, in order. */
  const Support: seq<string> := [".css", ".scss", ".styl"]

  /** The suffix appended to every source root before the extension. */
  const Wildcard: string := "/**/*"

  // ---------------------------------------------------------------------
  // `replace(/\/\//g, "/")`
  // ---------------------------------------------------------------------

  /** One left-to-right pass that replaces each non-overlapping `//` by `/`. */
  function Collapse(s: string): (r: string)
    ensures |r| <= |s|
    decreases |s|
  {
    if s == [] then []
    else if |s| >= 2 && s[0] == '/' && s[1] == '/' then "/" + Collapse(s[2..])
    else [s[0]] + Collapse(s[1..])
  }

  predicate HasDoubleSlash(s: string)
  {
    exists i | 0 <= i < |s| - 1 :: s[i] == '/' && s[i + 1] == '/'
  }

  function Slashes(k: nat): (r: string)
    ensures |r| == k && forall i | 0 <= i < k :: r[i] == '/'
  {
    if k == 0 then [] else "/" + Slashes(k - 1)
  }

  /** The characters other than `/`, in order. */
  function WithoutSlashes(s: string): string
  {
    if s == [] then [] else (if s[0] == '/' then [] else [s[0]]) + WithoutSlashes(s[1..])
  }

  // ---------------------------------------------------------------------
  // Patterns
  // ---------------------------------------------------------------------

  /** The pattern for one source root and one extension. */
  function Pattern(root: string, ext: string): string
  {
    Collapse(root + Wildcard + ext)
  }

  /** What string concatenation makes of a value that is not an array. */
  function Stringify(v: Option<CValue>): string
  {
    match v
    case None => "undefined"
    case Some(CStr(s)) => s
    case Some(CNull) => "null"
    case Some(CArr(items)) => ""  // arrays take the other branch of `_globWithExt`
  }

  function Lookup(props: map<string, CValue>, key: string): Option<CValue>
  {
    if key in props then Some(props[key]) else None
  }

  /** `_globWithExt`: one pattern per root, in order, for an array; a single
      pattern otherwise. */
  datatype Globs = One(pattern: string) | Many(patterns: seq<string>)

  function GlobWithExt(props: map<string, CValue>, key: string, ext: string): (g: Globs)
    ensures Lookup(props, key).Some? && Lookup(props, key).value.CArr? ==>
              var roots := props[key].items;
              g.Many? && |g.patterns| == |roots| &&
              forall i | 0 <= i < |roots| :: g.patterns[i] == Pattern(roots[i], ext)
    ensures !(Lookup(props, key).Some? && Lookup(props, key).value.CArr?) ==>
              g == One(Pattern(Stringify(Lookup(props, key)), ext))
  {
    match Lookup(props, key)
    case Some(CArr(roots)) => Many(seq(|roots|, i requires 0 <= i < |roots| => Pattern(roots[i], ext)))
    case v => One(Pattern(Stringify(v), ext))
  }

  /** `_.flatten` one level deep: arrays are spliced, single patterns kept. */
  function Flatten(gs: seq<Globs>): seq<string>
  {
    if gs == [] then []
    else (match gs[0] case One(p) => [p] case Many(ps) => ps) + Flatten(gs[1..])
  }

  /** What `_.map(this.support, …)` walks: the items of an array, the
      characters of a string, nothing otherwise. */
  function Extensions(props: map<string, CValue>): seq<string>
  {
    match Lookup(props, "support")
    case Some(CArr(exts)) => exts
    case Some(CStr(s)) => seq(|s|, i requires 0 <= i < |s| => [s[i]])
    case _ => []
  }

  /** What `_.map(this.support, ext => this._globWithExt("source", ext))` makes. */
  function ExtensionGlobs(props: map<string, CValue>): (gs: seq<Globs>)
    ensures |gs| == |Extensions(props)|
    ensures forall k | 0 <= k < |gs| :: gs[k] == GlobWithExt(props, "source", Extensions(props)[k])
  {
    var exts := Extensions(props);
    seq(|exts|, k requires 0 <= k < |exts| => GlobWithExt(props, "source", exts[k]))
  }

  /** `_setup`: the patterns of every extension, extension by extension. */
  function SourcePath(props: map<string, CValue>): seq<string>
  {
    Flatten(ExtensionGlobs(props))
  }

  function OrEmpty(loaded: Option<map<string, CValue>>): map<string, CValue>
  {
    if loaded.Some? then loaded.value else map[]
  }

  /** The configuration object.  `props` holds its own properties: the
      `support` list the constructor installs and whatever the defaults and
      `config.cson` assign over it; `sourcePath` the patterns built from
      them. */
  class Config {
    var props: map<string, CValue>
    var sourcePath: seq<string>

    /** `loaded` is the parsed `config.cson`, or None when the file is
        missing, unreadable or empty. */
    constructor (defaults: map<string, CValue>, loaded: Option<map<string, CValue>>)
      ensures props == Merge(Merge(map["support" := CArr(Support)], defaults), OrEmpty(loaded))
      ensures sourcePath == SourcePath(props)
    {
      props := map["support" := CArr(Support)];
      sourcePath := [];
      new;
      OnEndLoadConfigCson(defaults, loaded);
    }

    /** `objectAssign(this, defaultConfig, json)`, then `_setup`. */
    method OnEndLoadConfigCson(defaults: map<string, CValue>, json: Option<map<string, CValue>>)
      modifies this
      ensures props == Merge(Merge(old(props), defaults), OrEmpty(json))
      ensures sourcePath == SourcePath(props)
    {
      props := Merge(Merge(props, defaults), OrEmpty(json));
      Setup();
    }

    method Setup()
      modifies this`sourcePath
      ensures sourcePath == SourcePath(props)
    {
      sourcePath := SourcePath(props);
    }
  }
}

/** What the patterns promise. */
module SourceConfigProperties {
  import opened Common
  import opened SourceConfig

  /** The pass changes a string exactly when it holds a `//`. */
  lemma {:induction false} CollapseChangesOnlyDoubleSlashes(s: string)
    ensures Collapse(s) == s <==> !HasDoubleSlash(s)
    decreases |s|
  {
    if s == [] {
    } else if |s| >= 2 && s[0] == '/' && s[1] == '/' {
      assert |Collapse(s)| < |s|;
    } else {
      CollapseChangesOnlyDoubleSlashes(s[1..]);
      assert HasDoubleSlash(s) <==> HasDoubleSlash(s[1..]) by {
        if HasDoubleSlash(s[1..]) {
          var i :| 0 <= i < |s[1..]| - 1 && s[1..][i] == '/' && s[1..][i + 1] == '/';
          assert s[i + 1] == '/' && s[i + 2] == '/';
        }
        if HasDoubleSlash(s) {
          var i :| 0 <= i < |s| - 1 && s[i] == '/' && s[i + 1] == '/';
          assert i != 0;
          assert s[1..][i - 1] == '/' && s[1..][i] == '/';
        }
      }
      assert Collapse(s) == [s[0]] + Collapse(s[1..]);
      if Collapse(s[1..]) == s[1..] {
        assert [s[0]] + s[1..] == s;
      } else {
        assert Collapse(s)[1..] == Collapse(s[1..]);
      }
    }
  }

  /** A run of k slashes becomes ceil(k / 2) slashes. */
  lemma {:induction false} CollapseHalvesSlashRuns(k: nat)
    ensures Collapse(Slashes(k)) == Slashes((k + 1) / 2)
    decreases k
  {
    if k >= 2 {
      var s := Slashes(k);
      assert s[0] == '/' && s[1] == '/' && s[2..] == Slashes(k - 2);
      assert Collapse(s) == "/" + Collapse(Slashes(k - 2));
      CollapseHalvesSlashRuns(k - 2);
      assert (k + 1) / 2 == (k - 1) / 2 + 1;
      assert Slashes((k + 1) / 2) == "/" + Slashes((k - 1) / 2);
    } else if k == 1 {
      assert Slashes(1)[1..] == [];
    }
  }

  /** One pass does not remove every `//`: three slashes become two, and a
      second pass would change the result again. */
  lemma CollapseIsNotIdempotent()
    ensures Collapse("///") == "//"
    ensures Collapse(Collapse("////")) != Collapse("////")
  {
    CollapseHalvesSlashRuns(3);
    CollapseHalvesSlashRuns(4);
    CollapseHalvesSlashRuns(2);
    assert Slashes(3) == "///" && Slashes(2) == "//" && Slashes(4) == "////" && Slashes(1) == "/";
  }

  /** Only slashes are removed: every other character survives, in order. */
  lemma {:induction false} CollapseKeepsOtherCharacters(s: string)
    ensures WithoutSlashes(Collapse(s)) == WithoutSlashes(s)
    decreases |s|
  {
    if s == [] {
    } else if |s| >= 2 && s[0] == '/' && s[1] == '/' {
      CollapseKeepsOtherCharacters(s[2..]);
      WithoutSlashesAppend("/", Collapse(s[2..]));
      assert WithoutSlashes(s) == WithoutSlashes(s[1..]) == WithoutSlashes(s[2..]);
    } else {
      CollapseKeepsOtherCharacters(s[1..]);
      WithoutSlashesAppend([s[0]], Collapse(s[1..]));
    }
  }

  lemma {:induction false} WithoutSlashesAppend(a: string, b: string)
    ensures WithoutSlashes(a + b) == WithoutSlashes(a) + WithoutSlashes(b)
    decreases |a|
  {
    if a == [] {
      assert a + b == b;
    } else {
      assert (a + b)[1..] == a[1..] + b;
      WithoutSlashesAppend(a[1..], b);
    }
  }

  /** A `//` cannot straddle a boundary after which no slash follows. */
  lemma {:induction false} CollapseSplits(a: string, b: string)
    requires b == [] || b[0] != '/'
    ensures Collapse(a + b) == Collapse(a) + Collapse(b)
    decreases |a|
  {
    var x := a + b;
    if a == [] {
      assert x == b;
    } else if |a| >= 2 && a[0] == '/' && a[1] == '/' {
      assert x[0] == '/' && x[1] == '/' && x[2..] == a[2..] + b;
      CollapseSplits(a[2..], b);
      ConsAppend('/', Collapse(a[2..]), Collapse(b));
    } else {
      assert x[0] == a[0] && x[1..] == a[1..] + b;
      assert !(|x| >= 2 && x[0] == '/' && x[1] == '/') by {
        if |a| == 1 {
          assert x[1..] == b;
        } else {
          assert x[1] == a[1];
        }
      }
      CollapseSplits(a[1..], b);
      ConsAppend(a[0], Collapse(a[1..]), Collapse(b));
    }
  }

  lemma ConsAppend(c: char, u: string, v: string)
    ensures [c] + (u + v) == ([c] + u) + v
  {
  }

  /** A string ending in `/` still ends in `/` after the pass. */
  lemma {:induction false} CollapseKeepsFinalSlash(s: string)
    requires s != [] && s[|s| - 1] == '/'
    ensures Collapse(s) != [] && Collapse(s)[|Collapse(s)| - 1] == '/'
    decreases |s|
  {
    if |s| >= 2 && s[0] == '/' && s[1] == '/' {
      if |s| > 2 {
        CollapseKeepsFinalSlash(s[2..]);
      }
    } else if |s| > 1 {
      CollapseKeepsFinalSlash(s[1..]);
    }
  }

  /** For an extension without a slash, the pattern is the collapsed root
      and slash followed, untouched, by the rest of the wildcard and the
      extension: every pattern ends with the wildcard and its extension. */
  lemma PatternEndsWithWildcard(root: string, ext: string)
    requires forall i | 0 <= i < |ext| :: ext[i] != '/'
    ensures Pattern(root, ext) == Collapse(root + "/") + "**/*" + ext
    ensures |Pattern(root, ext)| >= |Wildcard + ext| &&
            Pattern(root, ext)[|Pattern(root, ext)| - |Wildcard + ext|..] == Wildcard + ext
  {
    var tail := "**/*" + ext;
    assert Pattern(root, ext) == Collapse(root + "/") + tail by {
      assert root + Wildcard + ext == (root + "/") + tail;
      CollapseSplits(root + "/", tail);
      WildcardTailIsKept(ext);
    }
    CollapseKeepsFinalSlash(root + "/");
    EndsWith(Collapse(root + "/"), tail);
    assert Wildcard + ext == "/" + tail;
  }

  lemma WildcardTailIsKept(ext: string)
    requires forall i | 0 <= i < |ext| :: ext[i] != '/'
    ensures Collapse("**/*" + ext) == "**/*" + ext
  {
    var tail := "**/*" + ext;
    forall i | 0 <= i < |tail| - 1
      ensures !(tail[i] == '/' && tail[i + 1] == '/')
    {
      if i >= 3 {
        assert tail[i + 1] == ext[i - 3];
      }
    }
    CollapseChangesOnlyDoubleSlashes(tail);
  }

  lemma EndsWith(c: string, tail: string)
    requires c != [] && c[|c| - 1] == '/'
    ensures |c + tail| >= |"/" + tail| && (c + tail)[|c + tail| - |"/" + tail|..] == "/" + tail
  {
    assert (c + tail)[|c| - 1..] == c[|c| - 1..] + tail;
  }

  predicate Uniform(gs: seq<Globs>, n: nat)
  {
    forall k | 0 <= k < |gs| :: gs[k].Many? && |gs[k].patterns| == n
  }

  lemma MulStep(k: nat, n: nat)
    requires k > 0
    ensures k * n == n + (k - 1) * n
  {
  }

  lemma {:induction false} FlattenUniformLength(gs: seq<Globs>, n: nat)
    requires Uniform(gs, n)
    ensures |Flatten(gs)| == |gs| * n
    decreases |gs|
  {
    if gs != [] {
      FlattenUniformLength(gs[1..], n);
      MulStep(|gs|, n);
    }
  }

  /** The patterns of every extension in turn, each one root after root. */
  lemma {:induction false} FlattenUniformAt(gs: seq<Globs>, n: nat, k: nat, i: nat)
    requires Uniform(gs, n) && k < |gs| && i < n
    ensures k * n + i < |Flatten(gs)| && Flatten(gs)[k * n + i] == gs[k].patterns[i]
    decreases k
  {
    FlattenUniformLength(gs, n);
    assert Flatten(gs) == gs[0].patterns + Flatten(gs[1..]);
    if k > 0 {
      FlattenUniformAt(gs[1..], n, k - 1, i);
      MulStep(k, n);
      assert gs[k] == gs[1..][k - 1];
    }
  }

  lemma {:induction false} FlattenSingles(gs: seq<Globs>)
    requires forall k | 0 <= k < |gs| :: gs[k].One?
    ensures |Flatten(gs)| == |gs|
    ensures forall k | 0 <= k < |gs| :: Flatten(gs)[k] == gs[k].pattern
    decreases |gs|
  {
    if gs != [] {
      FlattenSingles(gs[1..]);
      assert forall k | 1 <= k < |gs| :: gs[k] == gs[1..][k - 1];
    }
  }

  /** With an array of n roots, `sourcePath` holds n patterns per
      extension, extension by extension, roots in order; pattern i of
      extension k is made from root i alone. */
  lemma SourcePathOfRoots(props: map<string, CValue>, roots: seq<string>)
    requires "source" in props && props["source"] == CArr(roots)
    ensures |SourcePath(props)| == |Extensions(props)| * |roots|
    ensures forall k, i | 0 <= k < |Extensions(props)| && 0 <= i < |roots| ::
              k * |roots| + i < |SourcePath(props)| &&
              SourcePath(props)[k * |roots| + i] == Pattern(roots[i], Extensions(props)[k])
  {
    assert Uniform(ExtensionGlobs(props), |roots|);
    FlattenUniformLength(ExtensionGlobs(props), |roots|);
    forall k, i | 0 <= k < |Extensions(props)| && 0 <= i < |roots|
      ensures k * |roots| + i < |SourcePath(props)| &&
              SourcePath(props)[k * |roots| + i] == Pattern(roots[i], Extensions(props)[k])
    {
      SourcePathAt(props, roots, k, i);
    }
  }

  lemma SourcePathAt(props: map<string, CValue>, roots: seq<string>, k: nat, i: nat)
    requires "source" in props && props["source"] == CArr(roots)
    requires k < |Extensions(props)| && i < |roots|
    ensures k * |roots| + i < |SourcePath(props)| &&
            SourcePath(props)[k * |roots| + i] == Pattern(roots[i], Extensions(props)[k])
  {
    var gs := ExtensionGlobs(props);
    assert Uniform(gs, |roots|);
    FlattenUniformAt(gs, |roots|, k, i);
  }

  /** With a single root, or none, `sourcePath` holds one pattern per
      extension, in order. */
  lemma SourcePathOfOneRoot(props: map<string, CValue>)
    requires !("source" in props && props["source"].CArr?)
    ensures var exts := Extensions(props);
      |SourcePath(props)| == |exts| &&
      forall k | 0 <= k < |exts| :: SourcePath(props)[k] == Pattern(Stringify(Lookup(props, "source")), exts[k])
  {
    FlattenSingles(ExtensionGlobs(props));
  }

  /** Unless the defaults or `config.cson` assign `support`, `_setup`
      walks the extensions the constructor installed: `.css`, then
      `.scss`, then `.styl`. */
  lemma DefaultSupportOrder(defaults: map<string, CValue>, loaded: Option<map<string, CValue>>)
    requires "support" !in defaults && "support" !in OrEmpty(loaded)
    ensures Extensions(Merge(Merge(map["support" := CArr(Support)], defaults), OrEmpty(loaded))) == [".css", ".scss", ".styl"]
  {
  }
}
