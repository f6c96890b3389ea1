/** The documentation pipeline of `lib/Aigis.js`: the options merge, the
    injector registry, the three per-module stages and the order in which
    `_setup` runs them. */
module Pipeline {
  import opened Common
  import opened AigisSyntax

  /** One documented module as extracted from the CSS comments: its
      markdown, the html rendered from it once the markdown stage has run,
      and the other fields extraction and injectors attach. */
  datatype Module = Module(md: string, html: Option<string>, fields: map<string, string>)

  /** A configuration value. */
  datatype Value = Str(s: string) | List(items: seq<string>) | Flag(b: bool)

  /** The four injectors `_initPlugins` registers. */
  datatype Injector = HtmlInjector | JadeInjector | CoffeeInjector | JsInjector

  /** The registry `_initPlugins` builds: injector name to injector. */
  const Registry: map<string, Injector> :=
    map["html" := HtmlInjector, "jade" := JadeInjector, "coffee" := CoffeeInjector, "js" := JsInjector]

  /** The stages of `_setup`, in the order it runs them. */
  datatype Stage = Parse | Colors | ExpandSyntax | Inject | Markdown | CopyAssets | Write

  const AllStages: seq<Stage> := [Parse, Colors, ExpandSyntax, Inject, Markdown, CopyAssets, Write]

  /** The state of the module list after a stage, and where it stopped if
      it threw: `at` is the position, in the list the stage walks, of the
      element whose processing threw. */
  datatype Step = Done(modules: seq<Module>) | Failed(modules: seq<Module>, at: nat, error: Error)

  function FailureOf(s: Step): Option<Error>
  {
    if s.Failed? then Some(s.error) else None
  }

  // ---------------------------------------------------------------------
  // Options
  // ---------------------------------------------------------------------

  /** `options.module_html`, when it is a string. */
  function ModuleDir(options: map<string, Value>): Option<string>
  {
    if "module_html" in options && options["module_html"].Str? then Some(options["module_html"].s)
    else None
  }

  /** What `_.each(options.inject, …)` walks: the items of a list, the
      characters of a string, nothing for a flag or a missing key. */
  function InjectNames(options: map<string, Value>): seq<string>
  {
    if "inject" !in options then []
    else match options["inject"]
      case List(items) => items
      case Str(s) => seq(|s|, i requires 0 <= i < |s| => [s[i]])
      case Flag(_) => []
  }

  // ---------------------------------------------------------------------
  // Expansion of every module: `_replaceCustomSyntax`
  // ---------------------------------------------------------------------

  /** `_replaceAigisSyntax` with the directory taken from the options:
      `path.join` throws when `module_html` is not a string, which only
      happens once a directive has been found. */
  function ExpandMarkdown(fs: FileSystem, dir: Option<string>, md: string): Result<string>
  {
    match dir
    case Some(d) => ReplaceAigisSyntax(fs, d, md)
    case None => if HasMatch(md) then Err(ModuleDirNotString) else Ok(md)
  }

  /** With a string directory this is `_replaceAigisSyntax`; without one
      it fails exactly when there is a directive to resolve; text without
      a directive always comes back unchanged. */
  lemma ExpandMarkdownMeaning(fs: FileSystem, dir: Option<string>, md: string)
    ensures dir.Some? ==> ExpandMarkdown(fs, dir, md) == ReplaceAigisSyntax(fs, dir.value, md)
    ensures dir.None? ==> (ExpandMarkdown(fs, dir, md).Ok? <==> !HasMatch(md))
    ensures !HasMatch(md) ==> ExpandMarkdown(fs, dir, md) == Ok(md)
  {
  }

  /** `ExpandMarkdown` as the value `_replaceCustomSyntax` applies to
      each module. */
  function Expander(fs: FileSystem, dir: Option<string>): string -> Result<string>
  {
    md => ExpandMarkdown(fs, dir, md)
  }

  /** The first `n` modules of `ms` have had their markdown expanded
      successfully into `out`, and the others are as they were. */
  predicate Rewritten(expand: string -> Result<string>, ms: seq<Module>, out: seq<Module>, n: nat)
  {
    n <= |ms| == |out| &&
    (forall j | 0 <= j < n :: expand(ms[j].md).Ok? && out[j] == ms[j].(md := expand(ms[j].md).value)) &&
    (forall j | n <= j < |ms| :: out[j] == ms[j])
  }

  /** The effect of `_replaceCustomSyntax` on a module list. */
  function ExpandModules(expand: string -> Result<string>, ms: seq<Module>): Step
    decreases |ms|
  {
    if ms == [] then Done([])
    else match expand(ms[0].md)
      case Err(e) => Failed(ms, 0, e)
      case Ok(md) =>
        var r := ExpandModules(expand, ms[1..]);
        var out := [ms[0].(md := md)] + r.modules;
        if r.Done? then Done(out) else Failed(out, r.at + 1, r.error)
  }

  /** Modules are rewritten in order, each `md` replaced by its expansion
      and nothing else changed; the first module whose expansion throws
      stops the stage, the modules before it already rewritten and the
      rest untouched. */
  lemma {:induction false} ExpandModulesRewrites(expand: string -> Result<string>, ms: seq<Module>)
    ensures var s := ExpandModules(expand, ms);
      (s.Done? ==> Rewritten(expand, ms, s.modules, |ms|)) &&
      (s.Failed? ==> s.at < |ms| && Rewritten(expand, ms, s.modules, s.at) && expand(ms[s.at].md) == Err(s.error))
    decreases |ms|
  {
    if ms != [] && expand(ms[0].md).Ok? {
      ExpandModulesRewrites(expand, ms[1..]);
      var r := ExpandModules(expand, ms[1..]);
      var out := [ms[0].(md := expand(ms[0].md).value)] + r.modules;
      assert forall j | 1 <= j < |ms| :: ms[j] == ms[1..][j - 1] && out[j] == r.modules[j - 1];
    }
  }

  lemma RewrittenIsUnique(expand: string -> Result<string>, ms: seq<Module>, a: seq<Module>, b: seq<Module>, n: nat)
    requires Rewritten(expand, ms, a, n) && Rewritten(expand, ms, b, n)
    ensures a == b
  {
    assert forall j | 0 <= j < |a| :: a[j] == b[j];
  }

  lemma RewrittenStep(expand: string -> Result<string>, ms: seq<Module>, out: seq<Module>, n: nat)
    requires Rewritten(expand, ms, out, n) && n < |ms| && expand(ms[n].md).Ok?
    ensures Rewritten(expand, ms, out[n := out[n].(md := expand(ms[n].md).value)], n + 1)
  {
  }

  /** Expansion succeeds exactly when every module's markdown expands. */
  lemma ExpandModulesSucceedsIffAllExpand(expand: string -> Result<string>, ms: seq<Module>)
    ensures ExpandModules(expand, ms).Done? <==> forall j | 0 <= j < |ms| :: expand(ms[j].md).Ok?
  {
    ExpandModulesRewrites(expand, ms);
    var s := ExpandModules(expand, ms);
    if s.Failed? {
      assert !expand(ms[s.at].md).Ok?;
    }
  }

  // ---------------------------------------------------------------------
  // Injection: `_injection`
  // ---------------------------------------------------------------------

  function Shift(s: Step, n: nat): (r: Step)
  {
    match s
    case Done(ms) => Done(ms)
    case Failed(ms, k, e) => Failed(ms, k + n, e)
  }

  /** The effect of `_injection`: each name is looked up in the registry
      and its injector applied to the whole module list, in the order of
      the names; an unregistered name throws, leaving the list as the
      injectors before it made it.  `apply` stands for the injectors'
      code. */
  function RunInjectors(apply: (Injector, seq<Module>) -> seq<Module>, plugins: map<string, Injector>,
                        names: seq<string>, ms: seq<Module>): Step
    decreases |names|
  {
    if names == [] then Done(ms)
    else if names[0] !in plugins then Failed(ms, 0, UnknownInjector(names[0]))
    else Shift(RunInjectors(apply, plugins, names[1..], apply(plugins[names[0]], ms)), 1)
  }

  /** Injection fails exactly when some configured name is not registered,
      whatever its position, and then with the first such name. */
  lemma {:induction false} RunInjectorsStopsAtFirstUnknown(apply: (Injector, seq<Module>) -> seq<Module>,
                                                           plugins: map<string, Injector>,
                                                           names: seq<string>, ms: seq<Module>)
    ensures var s := RunInjectors(apply, plugins, names, ms);
      (s.Done? <==> forall i | 0 <= i < |names| :: names[i] in plugins) &&
      (s.Failed? ==> s.at < |names| && names[s.at] !in plugins &&
                     s.error == UnknownInjector(names[s.at]) &&
                     forall i | 0 <= i < s.at :: names[i] in plugins)
    decreases |names|
  {
    if names != [] && names[0] in plugins {
      RunInjectorsStopsAtFirstUnknown(apply, plugins, names[1..], apply(plugins[names[0]], ms));
      assert forall i | 1 <= i < |names| :: names[i] == names[1..][i - 1];
    }
  }

  // ---------------------------------------------------------------------
  // Markdown: `_mdToHTML`
  // ---------------------------------------------------------------------

  /** The effect of `_mdToHTML`: every module gets the html `render`
      makes of its markdown; nothing else changes.  `render` stands for
      `marked` with the custom renderer. */
  function RenderAll(render: string -> string, ms: seq<Module>): (r: seq<Module>)
    ensures |r| == |ms|
    ensures forall j | 0 <= j < |ms| ::
              r[j].md == ms[j].md && r[j].fields == ms[j].fields && r[j].html == Some(render(ms[j].md))
  {
    seq(|ms|, j requires 0 <= j < |ms| => ms[j].(html := Some(render(ms[j].md))))
  }

  // ---------------------------------------------------------------------
  // The whole of `_setup`
  // ---------------------------------------------------------------------

  /** How a run of `_setup` ends: the module list, the error if one was
      thrown, and the stages that were entered. */
  datatype Outcome = Outcome(modules: seq<Module>, failure: Option<Error>, reached: seq<Stage>)

  function RunStages(expand: string -> Result<string>, plugins: map<string, Injector>, names: seq<string>,
                     apply: (Injector, seq<Module>) -> seq<Module>, render: string -> string,
                     parsed: seq<Module>): Outcome
  {
    var s1 := ExpandModules(expand, parsed);
    if s1.Failed? then Outcome(s1.modules, Some(s1.error), AllStages[..3])
    else
      var s2 := RunInjectors(apply, plugins, names, s1.modules);
      if s2.Failed? then Outcome(s2.modules, Some(s2.error), AllStages[..4])
      else Outcome(RenderAll(render, s2.modules), None, AllStages)
  }

  /** A run enters the stages in the order of `_setup`, always gets
      through parsing, colours and expansion, enters every stage exactly
      when nothing throws, and otherwise stops at expansion or injection. */
  lemma RunStagesFollowsStageOrder(expand: string -> Result<string>, plugins: map<string, Injector>, names: seq<string>,
                                   apply: (Injector, seq<Module>) -> seq<Module>, render: string -> string,
                                   parsed: seq<Module>)
    ensures var o := RunStages(expand, plugins, names, apply, render, parsed);
      (o.failure.None? <==> o.reached == AllStages) &&
      3 <= |o.reached| <= |AllStages| && o.reached == AllStages[..|o.reached|] &&
      (o.failure.Some? ==> o.reached[|o.reached| - 1] == ExpandSyntax || o.reached[|o.reached| - 1] == Inject)
  {
  }

  /** The documentation generator: its options, its injector registry and
      the module list and palette the stages work on.  `trace` records the
      stages entered, in order. */
  class Aigis {
    var options: map<string, Value>
    var plugins: map<string, Injector>
    var modules: seq<Module>
    var colors: map<string, string>
    ghost var trace: seq<Stage>

    /** The options are the defaults overridden by the user's configuration. */
    constructor (defaults: map<string, Value>, user: map<string, Value>)
      ensures options == Merge(defaults, user)
      ensures plugins == Registry
      ensures modules == [] && colors == map[] && trace == []
    {
      options := Merge(defaults, user);
      modules := [];
      colors := map[];
      trace := [];
      new;
      InitPlugins();
    }

    method InitPlugins()
      modifies this`plugins
      ensures plugins == Registry
    {
      plugins := Registry;
    }

    /** `_replaceCustomSyntax`: walks the list in order, rewriting each
        module's markdown; stops at the first module whose expansion throws. */
    method ReplaceCustomSyntax(fs: FileSystem) returns (failure: Option<Error>)
      modifies this`modules
      ensures var s := ExpandModules(Expander(fs, ModuleDir(options)), old(modules));
        modules == s.modules && failure == FailureOf(s)
    {
      var expand := Expander(fs, ModuleDir(options));
      ghost var ms := modules;
      var i := 0;
      while i < |modules|
        invariant i <= |modules| && Rewritten(expand, ms, modules, i)
      {
        var r := expand(modules[i].md);
        if r.Err? {
          var s := ExpandModules(expand, ms);
          ExpandModulesRewrites(expand, ms);
          assert expand(ms[s.at].md).Err? && expand(ms[i].md).Err?;
          RewrittenIsUnique(expand, ms, modules, s.modules, i);
          return Some(r.error);
        }
        RewrittenStep(expand, ms, modules, i);
        modules := modules[i := modules[i].(md := r.value)];
        i := i + 1;
      }
      ExpandModulesRewrites(expand, ms);
      RewrittenIsUnique(expand, ms, modules, ExpandModules(expand, ms).modules, i);
      failure := None;
    }

    /** `_injection`: applies the configured injectors, in order, to the
        whole list; stops at the first name the registry does not hold. */
    method Injection(apply: (Injector, seq<Module>) -> seq<Module>) returns (failure: Option<Error>)
      modifies this`modules
      ensures var s := RunInjectors(apply, plugins, InjectNames(options), old(modules));
        modules == s.modules && failure == FailureOf(s)
    {
      var names := InjectNames(options);
      var i := 0;
      while i < |names|
        invariant 0 <= i <= |names|
        invariant RunInjectors(apply, plugins, names, old(modules)) ==
                  Shift(RunInjectors(apply, plugins, names[i..], modules), i)
      {
        var name := names[i];
        assert names[i..][1..] == names[i + 1..];
        if name !in plugins {
          return Some(UnknownInjector(name));
        }
        modules := apply(plugins[name], modules);
        i := i + 1;
      }
      failure := None;
    }

    /** `_mdToHTML`: renders every module's markdown into its html. */
    method MdToHTML(render: string -> string)
      modifies this`modules
      ensures modules == RenderAll(render, old(modules))
    {
      ghost var ms := modules;
      var i := 0;
      while i < |modules|
        invariant 0 <= i <= |modules| == |ms|
        invariant forall j | 0 <= j < i :: modules[j] == ms[j].(html := Some(render(ms[j].md)))
        invariant forall j | i <= j < |modules| :: modules[j] == ms[j]
      {
        modules := modules[i := modules[i].(html := Some(render(modules[i].md)))];
        i := i + 1;
      }
    }

    /** `_setup`: parse, colours, expansion, injection, markdown, assets,
        write, in that order; a thrown error ends the run at the stage
        that threw.  `parseCSS`, `parseColor`, the injectors and the
        markdown renderer are parameters; copying assets and writing the
        site are recorded in `trace` only. */
    method Setup(fs: FileSystem, files: seq<string>, parseCSS: seq<string> -> seq<Module>,
                 parseColor: seq<string> -> map<string, string>,
                 apply: (Injector, seq<Module>) -> seq<Module>, render: string -> string)
      returns (failure: Option<Error>)
      modifies this`modules, this`colors, this`trace
      ensures var o := RunStages(Expander(fs, ModuleDir(options)), plugins, InjectNames(options), apply, render, parseCSS(files));
        modules == o.modules && failure == o.failure && trace == old(trace) + o.reached
      ensures colors == parseColor(files)
    {
      modules := parseCSS(files);
      colors := parseColor(files);
      failure := ReplaceCustomSyntax(fs);
      if failure.Some? {
        trace := trace + AllStages[..3];
        return;
      }
      failure := Injection(apply);
      if failure.Some? {
        trace := trace + AllStages[..4];
        return;
      }
      MdToHTML(render);
      trace := trace + AllStages;
    }
  }
}

/** What the order of the stages and of the injectors implies. */
module PipelineProperties {
  import opened Common
  import opened AigisSyntax
  import opened Pipeline

  /** Running the names `a` and then `b` is running `a + b`: each injector
      sees the list its predecessors left. */
  lemma {:induction false} InjectionComposes(apply: (Injector, seq<Module>) -> seq<Module>,
                                             plugins: map<string, Injector>,
                                             a: seq<string>, b: seq<string>, ms: seq<Module>)
    ensures RunInjectors(apply, plugins, a + b, ms) ==
            match RunInjectors(apply, plugins, a, ms)
            case Done(r) => Shift(RunInjectors(apply, plugins, b, r), |a|)
            case Failed(r, k, e) => Failed(r, k, e)
    decreases |a|
  {
    if a == [] {
      assert a + b == b;
      match RunInjectors(apply, plugins, b, ms)
      case Done(_) =>
      case Failed(_, _, _) =>
    } else {
      assert (a + b)[0] == a[0] && (a + b)[1..] == a[1..] + b;
      if a[0] in plugins {
        InjectionComposes(apply, plugins, a[1..], b, apply(plugins[a[0]], ms));
      }
    }
  }

  /** Each injector appends its own name to every module's markdown. */
  function Tag(k: Injector, ms: seq<Module>): seq<Module>
  {
    var tag := match k
      case HtmlInjector => "html"
      case JadeInjector => "jade"
      case CoffeeInjector => "coffee"
      case JsInjector => "js";
    seq(|ms|, i requires 0 <= i < |ms| => ms[i].(md := ms[i].md + tag))
  }

  /** Injectors are not commutative: with injectors that each append
      their name, the configured order is the order of the tags. */
  lemma InjectorOrderMatters(m: Module)
    ensures RunInjectors(Tag, Registry, ["html", "jade"], [m]) == Done([m.(md := m.md + "html" + "jade")])
    ensures RunInjectors(Tag, Registry, ["jade", "html"], [m]) == Done([m.(md := m.md + "jade" + "html")])
    ensures m.md + "html" + "jade" != m.md + "jade" + "html"
  {
    assert ["html", "jade"][1..] == ["jade"] && ["jade", "html"][1..] == ["html"];
    assert (m.md + "html" + "jade")[|m.md|] == 'h';
    assert (m.md + "jade" + "html")[|m.md|] == 'j';
  }

  /** A module whose expansion throws ends the run after the expansion
      stage: no injector runs and nothing is rendered. */
  lemma ExpansionFailureStopsTheRun(expand: string -> Result<string>, plugins: map<string, Injector>,
                                    names: seq<string>, apply: (Injector, seq<Module>) -> seq<Module>,
                                    render: string -> string, parsed: seq<Module>, j: nat)
    requires j < |parsed| && expand(parsed[j].md).Err?
    requires forall i | 0 <= i < j :: expand(parsed[i].md).Ok?
    ensures var o := RunStages(expand, plugins, names, apply, render, parsed);
      o.failure == Some(expand(parsed[j].md).error) && o.reached == [Parse, Colors, ExpandSyntax] &&
      o.modules == ExpandModules(expand, parsed).modules
  {
    ExpandModulesRewrites(expand, parsed);
    var s1 := ExpandModules(expand, parsed);
    assert s1.Failed? && s1.at == j by {
      ExpandModulesSucceedsIffAllExpand(expand, parsed);
    }
  }

  /** An unregistered injector name, at any position of `inject`, ends the
      run before the markdown stage, with the first such name. */
  lemma UnknownInjectorStopsBeforeMarkdown(expand: string -> Result<string>, plugins: map<string, Injector>,
                                           names: seq<string>, apply: (Injector, seq<Module>) -> seq<Module>,
                                           render: string -> string, parsed: seq<Module>, k: nat)
    requires ExpandModules(expand, parsed).Done?
    requires k < |names| && names[k] !in plugins && forall i | 0 <= i < k :: names[i] in plugins
    ensures var o := RunStages(expand, plugins, names, apply, render, parsed);
      o.failure == Some(UnknownInjector(names[k])) &&
      o.reached == [Parse, Colors, ExpandSyntax, Inject] && Markdown !in o.reached
  {
    var s2 := RunInjectors(apply, plugins, names, ExpandModules(expand, parsed).modules);
    RunInjectorsStopsAtFirstUnknown(apply, plugins, names, ExpandModules(expand, parsed).modules);
    assert s2.Failed? && s2.at == k;
  }

  /** Expansion runs before injection: on a run that completes, the
      markdown each module is rendered from is exactly what the injectors
      left, so a directive an injector writes reaches the renderer
      unexpanded. */
  lemma InjectedMarkdownIsNotExpanded(expand: string -> Result<string>, plugins: map<string, Injector>,
                                      names: seq<string>, apply: (Injector, seq<Module>) -> seq<Module>,
                                      render: string -> string, parsed: seq<Module>)
    ensures var o := RunStages(expand, plugins, names, apply, render, parsed);
      var s1 := ExpandModules(expand, parsed);
      o.failure.None? ==>
        s1.Done? && RunInjectors(apply, plugins, names, s1.modules).Done? &&
        var injected := RunInjectors(apply, plugins, names, s1.modules).modules;
        |o.modules| == |injected| &&
        forall j | 0 <= j < |injected| ::
          o.modules[j].md == injected[j].md && o.modules[j].html == Some(render(injected[j].md))
  {
  }
}
