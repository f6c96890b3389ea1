# aigis core in Dafny

A model of the core of aigis, a generator of style-guide documentation
from CSS comments. Two files are modelled.

`lib/Aigis.js`:

- the merge of the default options with the user's configuration;
- the injector registry built by `_initPlugins`;
- the three per-module stages run by `_setup`:
  - `_replaceCustomSyntax` applies `_replaceAigisSyntax` to every module;
  - `_injection` runs the configured injectors in order;
  - `_mdToHTML` renders each module's markdown;
- the order in which `_setup` runs its stages, and where a thrown error stops it.

`src/lib/Config.js`:

- the constructor's `support` list;
- the `objectAssign` of the defaults and the optional `config.cson`;
- `_globWithExt` and `_setup`, which build the `sourcePath` glob patterns.

Files:

- `common.dfy` (module `Common`): `Option`, `Result`, the errors the core can
  throw, and the key-wise `Merge` that both option merges perform.
- `aigis_syntax.dfy` (modules `AigisSyntax`, `AigisSyntaxProperties`, `AigisSyntaxLines`, `AigisSyntaxExamples`):
  - The directive `!![title](path)`. Its regular expression
    `!!\[(.*)\]\(([-_.!~*¥'()a-zA-Z0-9;¥/?:¥@&=+¥$,%#]+)\)` with the
    global flag is modelled as a JavaScript engine runs it:
    - the leftmost match wins;
    - the greedy title takes the longest line prefix that still lets the rest match;
    - the greedy path then takes the longest run that still ends in `)`.
  - `Scan` cuts a text into kept characters and matches, resuming after
    each match as `String.prototype.replace` does.
  - `Expand` replaces each match by the fenced `html` block of the file it
    names, failing on the first missing file.
- `pipeline.dfy` (modules `Pipeline`, `PipelineProperties`):
  - the class `Aigis`, with the options, the registry, the module list and
    the colour palette as fields;
  - one method per stage, each with a `while` loop proved against a
    function (`ExpandModules`, `RunInjectors`, `RenderAll`);
  - `Setup`, proved against `RunStages`;
  - a ghost `trace` that records the stages entered.
- `config.dfy` (modules `SourceConfig`, `SourceConfigProperties`):
  - the class `Config`;
  - the one-pass `//`-to-`/` rewrite `Collapse`;
  - the patterns one root and one extension make;
  - the layout of `sourcePath`.

Where the code and the description of the tool differ, the model follows the code:

- Two directives on one line can be a single match: the greedy title takes
  the longest line prefix that still lets the rest match. In
  `!![a](x)!![b](y)` only `y` is read, and `x` need not exist
  (`AigisSyntaxExamples.TwoDirectivesOnOneLineCollapse`).
- The contents of an embedded file are not searched for directives again.
- The `test` guard before the `replace` never changes the result
  (`AigisSyntaxProperties.GuardIsRedundant`).
- Expansion runs before injection. Markdown an injector adds therefore
  reaches the renderer unexpanded
  (`PipelineProperties.InjectedMarkdownIsNotExpanded`).

## Model

| member | source | states |
|---|---|---|
| Common.Merge | lib/Aigis.js:31 | the merged options hold every key of either side; the user's value wins, and a default survives only where the user gives none |
| AigisSyntax.IsPathChar | lib/Aigis.js:107 | the path's character class, member by member: `-_.!~*¥'()`, ASCII letters and digits, and `;/?:@&=+$,%#` (`¥` is U+00A5) |
| AigisSyntax.IsMatch | lib/Aigis.js:107 | the pattern matches from position 0 with the title on [3, t) and the path on [t + 2, e): `!![`, a title without line terminators, `](`, at least one class character, `)` |
| AigisSyntax.IsLineTerminator | lib/Aigis.js:107 | the four characters `.` refuses: line feed, carriage return, U+2028 and U+2029 |
| AigisSyntax.PathRunEnd | lib/Aigis.js:107 | the greedy `[...]+` first takes the longest run of class characters from its start |
| AigisSyntax.LastClose | lib/Aigis.js:107 | backtracking from the run's end finds the last `)` strictly inside it, or none |
| AigisSyntax.PathEnd | lib/Aigis.js:107 | the greedy path capture closes at the largest `)` reachable through path characters only, and at none when no such `)` exists |
| AigisSyntax.LineEnd | lib/Aigis.js:107 | the title `.*` cannot cross the first line terminator after the opening |
| AigisSyntax.TitleSearch | lib/Aigis.js:107 | backtracking the greedy title from its longest span finds the longest title that admits a path, with that title's longest path |
| AigisSyntax.MatchPrefix | lib/Aigis.js:107 | a match reported at the start of a text is a match, and dominates every other (longest title first, then longest path); when none is reported, no match starts there |
| AigisSyntax.MatchPrefixDeterminedByMatches | lib/Aigis.js:107 | two texts with the same set of matches get the same reported match |
| AigisSyntax.GreatestMatchIsReported | lib/Aigis.js:107 | a match that dominates all others is the one reported |
| AigisSyntax.MatchSpellsDirective | lib/Aigis.js:107 | a match is literally `!![` title `](` path `)`, with a title free of line terminators and a non-empty path of class characters |
| AigisSyntax.Head | lib/Aigis.js:107-109 | the piece the global search emits at a position (the captures of the reported match, else the character there) is well formed and its raw text is non-empty and no longer than the rest of the text |
| AigisSyntax.HeadSpells | lib/Aigis.js:107-109 | the head piece's raw text is exactly the beginning of the text |
| AigisSyntax.Captures | lib/Aigis.js:109 | the `title` and `fileName` the callback receives: the text on [3, t) and on [t + 2, e) |
| AigisSyntax.Scan | lib/Aigis.js:109-113 | the global replace's segmentation loses nothing: its pieces spell the text again, and every match piece is well formed |
| AigisSyntax.HasMatch | lib/Aigis.js:108 | `test` is false exactly when no suffix of the text starts a match |
| AigisSyntax.Block | lib/Aigis.js:112 | the `format` result: two newlines and an opening fence line for `html` (10 characters), the file's contents verbatim, then a newline and a closing fence (4 characters) |
| AigisSyntax.Replacement | lib/Aigis.js:109-112 | a kept character stays; a directive becomes the block of the file at `resolve(dir, path)`, and fails with `FileNotFound` of that path exactly when the file is absent |
| AigisSyntax.Join | lib/Aigis.js:109-113 | two expansion results in a row: a throw in an earlier callback aborts the whole `replace`, else a later one does, else the texts are concatenated |
| AigisSyntax.Substitute | lib/Aigis.js:109-113 | a failure names a directive of the list whose file is absent; a list without directives never fails |
| AigisSyntax.Expand | lib/Aigis.js:109-113 | the global `replace`: the scan's pieces substituted in order; an error is always `FileNotFound` of a path that is not on disk |
| AigisSyntax.ReplaceAigisSyntax | lib/Aigis.js:106-117 | `_replaceAigisSyntax`: expand when `test` finds a directive, else return the text; it throws only when there is a directive, and only `FileNotFound` of a path not on disk |
| AigisSyntaxProperties.UnscanAppend | lib/Aigis.js:109-113 | the text spelled by two piece lists in a row is the concatenation of their texts |
| AigisSyntaxProperties.ScanSuffix | lib/Aigis.js:109-113 | after emitting i pieces the search resumes just past the text they spell, and scans the rest as if it were a fresh text |
| AigisSyntaxProperties.PieceIsHeadAtItsOffset | lib/Aigis.js:109-113 | piece i is the leftmost greedy match, or the kept character, at the offset the earlier pieces reach |
| AigisSyntaxProperties.ExpandWithoutMatchIsIdentity | lib/Aigis.js:108-116 | a markdown text without a directive comes back unchanged |
| AigisSyntaxProperties.GuardIsRedundant | lib/Aigis.js:108-116 | expanding with or without the `test` guard gives the same result |
| AigisSyntaxProperties.SubstituteFailsOnFirstMissing | lib/Aigis.js:109-113 | substitution fails exactly when a directive names a missing file, and reports the first such file |
| AigisSyntaxProperties.ExpandFailsIffFileMissing | lib/Aigis.js:106-117 | `_replaceAigisSyntax` (`ReplaceAigisSyntax`) throws exactly when a directive of the text resolves to a file that does not exist, and then names the first such file in text order |
| AigisSyntaxLines.SubstituteAppend | lib/Aigis.js:109-113 | substituting two piece lists in a row joins their results, the first failure winning |
| AigisSyntaxLines.HeadIgnoresLaterLines | lib/Aigis.js:107 | what the search emits at a position does not depend on text after the next line terminator |
| AigisSyntaxLines.ScanSplitsAtLineEnd | lib/Aigis.js:107-113 | a text cut just after a line terminator scans as its two parts scanned separately |
| AigisSyntaxLines.ExpandSplitsAtLineEnd | lib/Aigis.js:107-113 | a text cut just after a line terminator expands as its two parts, joined |
| AigisSyntaxLines.SubstituteChars | lib/Aigis.js:109-113 | text kept character by character substitutes to itself |
| AigisSyntaxLines.ScanBangFree | lib/Aigis.js:107 | no match starts in text without a `!`; such text is kept character by character |
| AigisSyntaxLines.HeadWithoutBang | lib/Aigis.js:107 | a position that does not hold `!` emits its character |
| AigisSyntaxLines.DirectiveMatchesAlone | lib/Aigis.js:107 | a well-formed directive that ends its line is matched exactly, with its own title and path |
| AigisSyntaxLines.ScanOneDirective | lib/Aigis.js:107-109 | text without `!`, then a directive ending its line: the text is kept, the directive is one piece, the rest is scanned on its own |
| AigisSyntaxLines.ExpandOneDirective | lib/Aigis.js:109-112 | such a directive becomes "\n\n```html\n" + the file's contents + "\n```", the surrounding text is kept, and a missing file fails the whole call |
| AigisSyntaxExamples.EmbedsReferencedFile | lib/Aigis.js:109-112 | `Sample: !![Demo](demo.html)` becomes `Sample: ` followed by the fenced block of `demo.html` |
| AigisSyntaxExamples.TwoDirectivesOnOneLineCollapse | lib/Aigis.js:107 | `!![a](x)!![b](y)` is one directive with title `a](x)!![b` and path `y`: only `y` is read |
| AigisSyntaxExamples.PathRunsToLastParen | lib/Aigis.js:107 | the path class admits `)`, so in `!![t](b)c)` the path is `b)c` |
| AigisSyntaxExamples.SpaceInPathIsNoDirective | lib/Aigis.js:107-108 | `!![a](b c)` holds no directive and is returned unchanged |
| AigisSyntaxExamples.SpacedPathNeverMatches | lib/Aigis.js:107 | no suffix of `!![a](b c)` starts a match |
| Pipeline.ModuleDir | lib/Aigis.js:110 | `options.module_html` when it is a string, else nothing |
| Pipeline.InjectNames | lib/Aigis.js:87-88 | what `_.each` walks over `options.inject`: a list's items in order, a string's characters, nothing for a boolean or a missing key |
| Pipeline.ExpandMarkdown | lib/Aigis.js:106-117 | `_replaceAigisSyntax` under the options: with a string directory `ReplaceAigisSyntax`; otherwise `path.join` throws `ModuleDirNotString` once a directive is found |
| Pipeline.ExpandMarkdownMeaning | lib/Aigis.js:106-117 | with a string `module_html` the module's markdown is `_replaceAigisSyntax` of it; otherwise `path.join` throws exactly when a directive is found; markdown without a directive is always kept |
| Pipeline.ExpandModules | lib/Aigis.js:100-104 | the module list after `_replaceCustomSyntax`, with the position and error of the module that threw; its meaning is stated by the three lemmas below |
| Pipeline.ExpandModulesRewrites | lib/Aigis.js:100-104 | modules are rewritten in order, only their `md` changing; the first module whose expansion throws stops the stage, with the modules before it rewritten and the rest untouched |
| Pipeline.RewrittenIsUnique | lib/Aigis.js:100-104 | the state after rewriting the first n modules is determined by the input list |
| Pipeline.RewrittenStep | lib/Aigis.js:101-103 | rewriting module n extends the rewritten prefix by one |
| Pipeline.ExpandModulesSucceedsIffAllExpand | lib/Aigis.js:100-104 | the stage completes exactly when every module's markdown expands |
| Pipeline.RunInjectors | lib/Aigis.js:86-92 | the module list after `_injection`: each name looked up in the registry and its injector applied to the whole list, in order, an unregistered name throwing |
| Pipeline.RunInjectorsStopsAtFirstUnknown | lib/Aigis.js:86-92 | with injectors that do not throw themselves, injection completes exactly when every configured name is registered; otherwise it throws at the first unregistered name |
| Pipeline.RenderAll | lib/Aigis.js:94-98 | every module gets the html its markdown renders to; its markdown and other fields are kept, and no module is added or lost |
| Pipeline.RunStages | lib/Aigis.js:55-63 | `_setup` after parsing: expansion, then injection, then markdown, a thrown error ending the run with the stages entered so far |
| Pipeline.RunStagesFollowsStageOrder | lib/Aigis.js:55-63 | the stages entered are a prefix of parse, colours, expansion, injection, markdown, assets, write; all of them exactly when nothing throws; and, of the errors the model has (a missing file, a non-string `module_html`, an unregistered injector), a thrown one ends the run at expansion or injection |
| Pipeline.Aigis.constructor | lib/Aigis.js:31-37 | the options are the defaults overridden by the user's configuration; the registry is installed |
| Pipeline.Aigis.InitPlugins | lib/Aigis.js:75-84 | the registry (`Pipeline.Registry`) maps `html`, `jade`, `coffee` and `js` to their injectors, and holds no other name |
| Pipeline.Aigis.ReplaceCustomSyntax | lib/Aigis.js:100-104 | the loop leaves the module list and the thrown error exactly as `ExpandModules` describes |
| Pipeline.Aigis.Injection | lib/Aigis.js:86-92 | the loop leaves the module list and the thrown error exactly as `RunInjectors` describes, for the names `_.each` walks over `options.inject` |
| Pipeline.Aigis.MdToHTML | lib/Aigis.js:94-98 | the loop leaves the module list as `RenderAll` describes |
| Pipeline.Aigis.Setup | lib/Aigis.js:55-63 | the palette is `parseColor(files)`; the module list, the thrown error and the stages entered are those of `RunStages` on `parseCSS(files)` |
| PipelineProperties.InjectionComposes | lib/Aigis.js:86-92 | running the names a + b is running a, then b on the list a left, unless a throws first |
| PipelineProperties.InjectorOrderMatters | lib/Aigis.js:86-92 | with injectors that append their name, `["html","jade"]` and `["jade","html"]` give different markdown: the configured order is the order of application |
| PipelineProperties.ExpansionFailureStopsTheRun | lib/Aigis.js:55-63 | if module j is the first whose expansion throws, the run ends after expansion with that error, and no injector or renderer runs |
| PipelineProperties.UnknownInjectorStopsBeforeMarkdown | lib/Aigis.js:55-63 | if names[k] is the first unregistered injector name, the run throws `UnknownInjector(names[k])` and never enters the markdown stage |
| PipelineProperties.InjectedMarkdownIsNotExpanded | lib/Aigis.js:58-60 | on a completed run every module is rendered from exactly the markdown the injectors left |
| SourceConfig.Collapse | src/lib/Config.js:50 | the replace of `//` by `/` never lengthens a pattern |
| SourceConfig.Slashes | src/lib/Config.js:54 | a run of k slashes, as the rewrite sees it |
| SourceConfig.Pattern | src/lib/Config.js:50 | one root, then `/**/*`, then the extension, with each `//` rewritten to `/` |
| SourceConfig.Stringify | src/lib/Config.js:54 | what `+` makes of a value that is not an array: `undefined`, `null`, or the string itself |
| SourceConfig.Lookup | src/lib/Config.js:46 | `this[key]`: the property's value, or nothing when it is not set |
| SourceConfig.GlobWithExt | src/lib/Config.js:45-58 | an array of roots gives one pattern per root, in order; any other value gives one pattern from its string form (`undefined`, `null` or the string) |
| SourceConfig.Extensions | src/lib/Config.js:42 | what `_.map` walks over `this.support`: an array's items, a string's characters, nothing otherwise |
| SourceConfig.Flatten | src/lib/Config.js:43 | `_.flatten` one level: arrays of patterns spliced in, single patterns kept, in order |
| SourceConfig.SourcePath | src/lib/Config.js:41-44 | `sourcePath`: the flattened patterns of every extension, extension by extension |
| SourceConfig.ExtensionGlobs | src/lib/Config.js:42 | one glob result per supported extension, in the order of `support` |
| SourceConfig.OrEmpty | src/lib/Config.js:31-38 | a parsed `config.cson` assigns its properties; a missing, unreadable or empty file assigns nothing |
| SourceConfig.Config.constructor | src/lib/Config.js:12-17 | the object's properties are `support`, then the defaults, then `config.cson` over them; `sourcePath` is built from the result |
| SourceConfig.Config.OnEndLoadConfigCson | src/lib/Config.js:37-40 | the defaults and the parsed file are assigned over the current properties, later ones winning; `sourcePath` is rebuilt |
| SourceConfig.Config.Setup | src/lib/Config.js:41-44 | `sourcePath` is the flattened patterns of every extension, and nothing else changes |
| SourceConfigProperties.CollapseChangesOnlyDoubleSlashes | src/lib/Config.js:50 | the rewrite changes a string exactly when it contains `//` |
| SourceConfigProperties.CollapseHalvesSlashRuns | src/lib/Config.js:54 | a run of k slashes becomes ceil(k / 2) slashes |
| SourceConfigProperties.CollapseIsNotIdempotent | src/lib/Config.js:54 | `///` becomes `//`: one pass can leave a `//`, and a second pass would change the pattern again |
| SourceConfigProperties.CollapseKeepsOtherCharacters | src/lib/Config.js:54 | only slashes are removed; every other character survives, in order |
| SourceConfigProperties.WithoutSlashesAppend | src/lib/Config.js:54 | the non-slash characters of a concatenation are those of its parts |
| SourceConfigProperties.CollapseSplits | src/lib/Config.js:54 | a string cut before a non-slash is rewritten as its two parts |
| SourceConfigProperties.CollapseKeepsFinalSlash | src/lib/Config.js:54 | a string ending in `/` still ends in `/` |
| SourceConfigProperties.PatternEndsWithWildcard | src/lib/Config.js:50-54 | for an extension without `/`, the pattern is the rewritten root and slash, then `**/*` and the extension untouched |
| SourceConfigProperties.FlattenUniformLength | src/lib/Config.js:43 | flattening m arrays of n patterns gives m * n patterns |
| SourceConfigProperties.FlattenUniformAt | src/lib/Config.js:43 | pattern i of array k lands at position k * n + i |
| SourceConfigProperties.FlattenSingles | src/lib/Config.js:43 | flattening single patterns keeps them, in order |
| SourceConfigProperties.SourcePathOfRoots | src/lib/Config.js:41-51 | with n source roots, `sourcePath` holds n patterns per extension, extension by extension, and position k * n + i is root i with extension k |
| SourceConfigProperties.SourcePathAt | src/lib/Config.js:41-51 | with n source roots, position k * n + i of `sourcePath` is root i with extension k |
| SourceConfigProperties.SourcePathOfOneRoot | src/lib/Config.js:41-44 | with a non-array `source`, `sourcePath` holds one pattern per extension, in order |
| SourceConfigProperties.DefaultSupportOrder | src/lib/Config.js:15 | unless the defaults or the file assign `support`, the extensions are `.css`, `.scss`, `.styl` in that order |

## Left out

- Reading and parsing the configuration (`readConfig`, `parseConfig`, the CSON file read and `CSON.parse`): the parsed maps are parameters of the constructors. A file that is missing, unreadable or empty is `None`.
- The `console.log` of the index path, and the `Promise` returned by `run` together with `readCSSFiles`. `Setup` receives the file contents directly.
- `parseCSS`, `parseColor`, `marked` with the custom renderer, and the injectors' own code are parameters (`parseCSS`, `parseColor`, `render`, `apply`). Loading the injectors through `PluginRegister` is modelled as the registry map only.
- The parameters `parseCSS`, `parseColor`, `render` and `apply` are total functions, so they never throw in the model. A CSS parse error, a `marked` error, or an injector's own compile error (jade or coffee, say) cannot happen. `Pipeline.RunInjectorsStopsAtFirstUnknown` and `Pipeline.RunStagesFollowsStageOrder` speak of the modelled errors only: a missing file, a non-string `module_html`, and an unregistered injector name.
- `path.join` and `path.resolve` are the abstract `resolve` of `FileSystem`; the file system is a map from resolved paths to contents, and `fs.readFileSync` is a lookup in it.
- `_copyAssets` and `_write` (the template renderer and the asset manager) are recorded in the trace only. Their own I/O errors are not modelled.
- Pipeline.Module: modules are values in a sequence. Injectors that keep references to module objects, and any aliasing between modules, are not modelled.
- Pipeline.InjectNames: only list, string and boolean values of `inject` are modelled. An object's values, which `_.each` would also walk, are not.
- SourceConfig.CValue: only string, array-of-strings and null/undefined values are modelled. Numbers, booleans, objects and non-string array items, which string concatenation would also format, are not.
- SourceConfig.Stringify: the array case is unreachable, because arrays take the other branch of `_globWithExt`.
- The `EventEmitter` wiring of `Config` (`_eventify`, `emit`) is a direct method call.
- Pipeline.Aigis.Setup: the ghost `trace` is appended once when a run ends, with every stage entered; it is not appended stage by stage.
- Unicode: a Dafny `char` is a Unicode scalar value, while a JavaScript string is a sequence of UTF-16 code units. A character outside the Basic Multilingual Plane is one `char` here but two code units there. The regular expression has no `u` flag, so it sees code units too. Lone surrogates cannot be represented at all.
- Pipeline.InjectNames: for a string `inject`, the model yields one name per scalar value, where lodash's `_.each` yields one per UTF-16 code unit. The two differ only for characters outside the Basic Multilingual Plane.
- SourceConfig.Extensions: the same difference applies to a string `support`.
