# agent-kit stack detector, preset recommender and helpers, in Dafny

agent-kit is a toolkit of VS Code extensions and scripts. Its core is a
**project stack detector**. The detector walks a workspace with a
depth-bounded breadth-first search. It evaluates an ordered table of
framework indicators: file patterns, `package.json` dependencies and
`composer.json` dependencies. It decides whether the workspace is a
monorepo and recommends one preset through a fixed priority list. The
repository has three copies of the detector:

- the library, `lib/projectScanner.js`;
- the command-line copy, `scan_project.mjs`, whose ignore set also holds `agent`;
- the shallow signal detector, `detect_stack.mjs`, which only looks at the root.

Around the detector sit small pure helpers that this model also covers:

- action-identifier slugging with collision suffixes;
- shell and PowerShell quoting, and recognising a codex runner;
- `dedent` and code-fence stripping;
- the de-duplicated action lists of both extensions;
- required-file preset matching, the preset-changed flag, watch-file union and command normalisation;
- the completion-sound configuration, with its precedence and cache, and the player command;
- the argument parser of the completion-sound script;
- the Selenium context exporter's `@include(` bracket scanner, path normalisation and use-case checklist.

Everything is modelled with immutable datatypes and pure functions:

- The filesystem is a tree (`FileTree.Entry`). A directory carries a `readable` flag. A `false` flag stands for a `readdirSync` that throws.
- A file's parsed JSON content is an optional `Json.Json` value. `None` means the read or the parse failed.
- The search is a functional reference (`Search.Bfs`) plus the queue loop of the source (`Search.FindFilesByName`). The two are proved equal. The search is proved sound and complete against a declarative predicate (`Search.Match`).

The clock and the process environment are parameters:

- `scannedAt` is a parameter;
- the command-line copy's working directory is a parameter;
- `process.platform` is a parameter;
- the outcome of writing the metadata file is a parameter.

The modules follow the program:

| module | what it models |
|---|---|
| `Wrappers`, `Json`, `FileTree` | option/result types, JSON values with JavaScript truthiness, the filesystem tree |
| `Search` | `findFilesByName` |
| `Indicators` | `STACK_INDICATORS` |
| `Dependencies` | `hasDependency`, `detectPackageDependency`, `detectComposerDependency` |
| `Classifier` | `pathMatchesPattern`, `detectFrameworks` |
| `Monorepo` | `hasMultipleSubdirectories`, `detectMonorepo` |
| `Recommender` | `choosePreset` |
| `Scanner` | `detectDockerTargets`, `detectHeadlessFallback`, `scanWorkspace`, the command-line `main` |
| `DetectStack` | `detect_stack.mjs`, with its agreement with the scanner |
| `Presets` | the preset manager of both extensions |
| `Actions`, `ActionIds`, `Dedup` | the side-panel action lists and custom action identifiers |
| `TextBlocks`, `Shell`, `NodePath`, `Text` | text helpers with JavaScript string semantics |
| `Sound`, `PlayArgs` | `lib/sound.js`, the agent extension's sound cache, `play_done_sound.js` |
| `SeleniumContext`, `UseCases` | `export_selenium_context.mjs` |

Worth knowing about the detector as written:

- A pattern with the deep prefix `**/` is searched for as a bare file name. Every entry name is a single path segment, so `**/src/App.tsx` and `**/src/App.jsx` can never match anything (`Classifier.DeepPatternWithSlashNeverMatches`). React is detected through its dependency or through `src/App.tsx` or `src/App.jsx` at the root.
- A file at the root that is listed both plainly and with `**/` is reported twice. A root `angular.json`, for example, yields two match entries.
- The shallow detector leaves `nx.json` out of its monorepo manifests. Apart from that it agrees with the scanner (`DetectStack.MonorepoAgreement`).
- In the agent extension, `getSoundConfig(extensionRoot)` caches one record for every root. `lib/sound.js` keys its cache by root.
- The agent extension's own default message is stored with mis-decoded characters (its UTF-8 bytes read as Mac Roman), unlike the default in `lib/sound.js`. The model keeps both texts as written (`Sound.AgentDefaultApplies`).

## Model

| member | source | states |
|---|---|---|
| FileTree.FindChild | lib/projectScanner.js:115-116 | the lookup behind `existsSync`, which `readJsonFile` (lines 157-167) uses too: the child found has the requested name and belongs to the listing; nothing is found exactly when no entry has that name |
| Search.FindFilesByName | lib/projectScanner.js:119-155 | the queue loop returns exactly the reference search's list; every returned path ends in the file name, lies within `maxDepth + 1` segments and passes through no ignored directory; with a root and a file name, it is sound and complete for `Match` |
| Search.RunQueue | lib/projectScanner.js:127-152 | the `while (queue.length)` loop returns what the breadth-first reference returns for the same queue |
| Search.ScanListing | lib/projectScanner.js:140-151 | one pass over a listing appends that listing's matching files and queued directories, in order |
| Search.ExtendScan | lib/projectScanner.js:141-150 | handling one more listing entry extends both lists by exactly that entry's share |
| Search.BfsStep | lib/projectScanner.js:127-152 | one round dequeues the head, emits its files, enqueues its subdirectories and shrinks the remaining work |
| Search.BfsCorrect | lib/projectScanner.js:119-155 | a path is returned exactly when some queued item leads to it |
| Search.FindFilesCorrect | lib/projectScanner.js:119-155 | with a non-empty root and file name, a path is returned exactly when it names a regular file of that name, no deeper than `maxDepth` directories, reached through readable directories whose names are not ignored |
| Search.MatchShape | lib/projectScanner.js:140-151 | every match ends in the file name, has at most `maxDepth + 1` segments and no ignored directory on the way |
| Search.FindFilesFacts | lib/projectScanner.js:119-155 | soundness, completeness and the shape facts, stated for every returned path |
| Search.MatchNameHasNoSlash | lib/projectScanner.js:148-149 | in a well-formed tree only a name without `/` can be found |
| Search.ScanEntryCorrect | lib/projectScanner.js:141-150 | one listing entry contributes exactly the paths that go through it: a matching regular file, or a directory that is not ignored and is within depth |
| Search.ScanEntriesCorrect | lib/projectScanner.js:140-151 | a whole listing contributes exactly the paths through its entries |
| Search.ExpandCorrect | lib/projectScanner.js:128-151 | a dequeued item that is too deep or unreadable contributes nothing; otherwise it contributes exactly the paths below it |
| Search.ExpandSmaller | lib/projectScanner.js:127-152 | the directories an item enqueues are smaller than the item, which is why the loop ends |
| Search.Deep | lib/projectScanner.js:110-111 | the deep form of a name is the `**/` prefix followed by that name |
| Classifier.PathMatchesPattern | lib/projectScanner.js:105-117 | an empty root or pattern never matches; a `**/` pattern (after turning back-slashes into slashes) matches exactly when the search finds the rest of the pattern as a file name within the bound; any other pattern matches exactly when the path exists under the root |
| Classifier.FindFilesNonEmpty | lib/projectScanner.js:110-113 | the deep search finds something exactly when a matching file is reachable within the bound |
| Classifier.DeepPatternWithSlashNeverMatches | lib/projectScanner.js:109-113 | in a well-formed tree a deep pattern whose rest holds a `/` never matches |
| Classifier.EvalFilePatterns | lib/projectScanner.js:218-224 | the recorded names are empty exactly when no pattern matches; there are at most as many as there are patterns |
| Classifier.EvalFilePatternsMembers | lib/projectScanner.js:218-224 | a name is recorded exactly when some matching pattern reports it, with the `**/` prefix stripped |
| Classifier.EvalMatcher | lib/projectScanner.js:217-238 | a package matcher contributes exactly when some candidate manifest declares the dependency; a composer matcher contributes exactly when some `composer.json` within the default depth declares it; each contributes at most one path |
| Classifier.PackageFound | lib/projectScanner.js:225-232 | a package manifest is found exactly when some candidate declares the dependency |
| Classifier.ComposerFound | lib/projectScanner.js:233-237 | a composer manifest is found exactly when some `composer.json` within the default depth declares the dependency |
| Classifier.Relative | lib/projectScanner.js:229-236 | a found manifest contributes its one relative path; a missing one contributes nothing |
| Classifier.EvalMatchersAppend | lib/projectScanner.js:217-239 | all matchers are evaluated and their contributions concatenated in order |
| Classifier.EvalMatchersEmpty | lib/projectScanner.js:217-244 | an indicator has no matches exactly when none of its matchers contributes |
| Classifier.Evals | lib/projectScanner.js:214-240 | one match list per table entry, each that entry's matcher evaluation |
| Classifier.Keep | lib/projectScanner.js:241-244 | only indicators with matches are kept, never more than the table holds |
| Classifier.DetectIn | lib/projectScanner.js:211-248 | every reported framework has matches; never more frameworks than indicators |
| Classifier.DetectFrameworks | lib/projectScanner.js:211-248 | the table detection at the effective depth bound; `Classifier.KeepExactly` states that the result is the table restricted, in order, to the indicators with matches, and `Classifier.ReportedIff` that an indicator is reported exactly when one of its matchers matched |
| Classifier.EffectiveMaxDepth | lib/projectScanner.js:212 | an absent or zero bound becomes the default 3; any other bound is kept |
| Classifier.KeptIndicesSorted | lib/projectScanner.js:214-244 | the kept table positions are strictly increasing, so table order is preserved |
| Classifier.KeptIndicesComplete | lib/projectScanner.js:241-244 | a table position is kept exactly when its match list is non-empty |
| Classifier.KeepAtKeptIndices | lib/projectScanner.js:241-244 | the k-th result is the report of the k-th kept table entry |
| Classifier.KeepExactly | lib/projectScanner.js:211-248 | the result is the table restricted, in order, to the indicators with matches, each reported with its own matches |
| Classifier.ReportedIff | lib/projectScanner.js:211-248 | with distinct identifiers, an indicator is reported exactly when one of its matchers matched |
| Classifier.RootFileMatches | lib/projectScanner.js:105-117 | a plain file at the root matches both its direct pattern and its `**/` form |
| Classifier.FileAtRootReportedTwice | lib/projectScanner.js:218-224 | a file indicator listing a name and its deep form reports a root file of that name twice |
| Classifier.AngularAtRoot | lib/projectScanner.js:22-28 | a root `angular.json` gives the Angular indicator the two matches `angular.json`, `angular.json` |
| Classifier.AnywhereAtRoot | lib/projectScanner.js:218-224 | when both forms of a name match, both are recorded under that name |
| Indicators.TableFacts | lib/projectScanner.js:20-99 | identifiers are distinct, each indicator recommends its own preset, and exactly the first four have a user interface |
| Dependencies.AnyBucket | lib/projectScanner.js:203-209 | some bucket of the list declares the dependency with a truthy value |
| Dependencies.HasDependency | lib/projectScanner.js:203-209 | true exactly when the manifest is truthy and one of `dependencies`, `devDependencies`, `peerDependencies`, `require` has the dependency as a key with a truthy value; false for `null` |
| Dependencies.KeysNotValues | resources/presets/selenium/template/scripts/detect_stack.mjs:18-24 | a manifest naming the dependency only as a value does not declare it; a `peerDependencies` key does |
| Dependencies.FirstWithDependency | lib/projectScanner.js:175-180 | the result is the first candidate whose manifest declares the dependency, or nothing when none does |
| Dependencies.FirstDeclaringFound | lib/projectScanner.js:171-189 | something is found exactly when some candidate declares the dependency |
| Dependencies.FirstDeclaringCons | lib/projectScanner.js:175-180 | a candidate that does not declare the dependency can be skipped |
| Dependencies.FirstDeclaringAppend | lib/projectScanner.js:171-188 | the first declaring candidate of a concatenation comes from the first part if it has one, else from the second |
| Dependencies.DetectPackageDependency | lib/projectScanner.js:169-190 | the result is the first manifest, in pattern order and then search order, that declares the dependency |
| Dependencies.DetectComposerDependency | lib/projectScanner.js:192-201 | the result is the first `composer.json`, in search order within the default depth, that declares the dependency |
| Monorepo.CountDirsAtLeastTwo | lib/projectScanner.js:276-277 | at least two directories are listed exactly when two distinct positions hold directories |
| Monorepo.CountDirsPositive | lib/projectScanner.js:276-277 | at least one directory is listed exactly when some position holds one |
| Monorepo.HasMultipleSubdirectories | lib/projectScanner.js:270-281 | true exactly when the path is a readable directory with at least two subdirectories; a missing or unreadable path gives false |
| Monorepo.DetectMonorepo | lib/projectScanner.js:260-268 | true exactly when a workspace manifest matches at the root, or a container directory has at least two subdirectories |
| Monorepo.AnyPatternMatches | lib/projectScanner.js:262-264 | some listed manifest pattern matches |
| Monorepo.AnyMultiple | lib/projectScanner.js:265-267 | some listed container directory has at least two subdirectories |
| Monorepo.PlainPatternIsExistence | lib/projectScanner.js:115-116 | a plain pattern matches exactly when the path exists |
| Monorepo.ManifestsArePlain | lib/projectScanner.js:261 | the six workspace manifests are plain names |
| Monorepo.DetectMonorepoByExistence | resources/presets/selenium/template/scripts/scan_project.mjs:222-238 | with a root, the verdict holds exactly when one of the six manifests exists at the root or one of `apps`, `packages`, `services`, `modules` has two subdirectories |
| Recommender.FirstPresent | lib/projectScanner.js:284-290 | nothing is found exactly when no listed identifier is present; otherwise the result is present and no earlier identifier is |
| Recommender.ChoosePreset | lib/projectScanner.js:283-297 | the result is never empty; a priority preset is returned exactly when some priority framework is present, and it is the first present one; otherwise the result is `docker` when docker-only, else `headless` when the fallback holds, else `generic` |
| Recommender.ChoosePresetKnown | resources/presets/selenium/template/scripts/scan_project.mjs:246-256 | the recommendation is always one of the eight known presets |
| Recommender.PresenceDetermines | lib/projectScanner.js:284-290 | the first present identifier depends only on which identifiers are present |
| Recommender.ChoosePresetByPresence | lib/projectScanner.js:283-297 | two framework lists with the same priority frameworks present get the same recommendation |
| Scanner.DockerTargets | lib/projectScanner.js:250-252 | the targets are exactly the `docker` entries; all entries are kept exactly when all are `docker` |
| Scanner.AnyUi | lib/projectScanner.js:306 | true exactly when some framework has a user interface |
| Scanner.DockerOnlyMeaning | lib/projectScanner.js:309 | docker-only holds exactly when something was detected and all of it is `docker`; the command-line copy's spelling means the same |
| Scanner.DetectHeadlessFallback | lib/projectScanner.js:254-258 | false without a root; otherwise true exactly when `composer.json` or `package.json` exists at the root or is found within the default depth |
| Scanner.HeadlessParts | lib/projectScanner.js:254-258 | each of the four checks means existence at the root or discovery within the default depth |
| Scanner.PlainManifest | lib/projectScanner.js:254-258 | a manifest name matches at the root exactly when it exists there; its deep form matches exactly when the file is reachable |
| Scanner.Infos | lib/projectScanner.js:316-321 | the metadata keeps one record per framework, without `hasUi`, in order |
| Scanner.TableUi | lib/projectScanner.js:20-99 | `ui` is set exactly for angular, ionic, next and react, and identifiers are distinct |
| Scanner.DetectedFromTable | lib/projectScanner.js:211-248 | every detected framework is the report of some table entry |
| Scanner.DetectedFacts | lib/projectScanner.js:211-248 | a detected framework has a user interface exactly when it is a user-interface framework, and detected identifiers are distinct |
| Scanner.FlatSingleDocker | lib/projectScanner.js:324 | with distinct identifiers, the flattened docker targets are the docker entry's matches |
| Scanner.AnalyseDocker | lib/projectScanner.js:323-324 | `hasDocker` holds exactly when docker matched, and `dockerTargets` are then its matches (else empty) |
| Scanner.AnalyseUi | lib/projectScanner.js:306 | `hasUi` holds exactly when a user-interface framework was detected |
| Scanner.AnalyseShape | lib/projectScanner.js:312-327 | version 1, the given root and time, at most six frameworks each with matches, and a recommendation among the known presets |
| Scanner.ScanWorkspace | lib/projectScanner.js:299-328 | an empty root fails with the source's message; otherwise the record is the scan at the effective depth bound with the library's ignore set, so it has version 1, the root and time, at most six frameworks each with matches, `hasDocker` exactly when docker matched with its matches as targets (else none), `hasUi` exactly when a user-interface framework matched, and a known preset |
| Scanner.Analyse | lib/projectScanner.js:304-327 | the record one scan builds; its fields are stated by `Scanner.AnalyseFields`, `Scanner.AnalyseDocker`, `Scanner.AnalyseUi` and `Scanner.AnalyseShape` |
| Scanner.AnalyseFields | lib/projectScanner.js:304-325 | the record lists the detected frameworks in table order, its monorepo flag is the monorepo check, and its recommendation is `choosePreset` of the detected frameworks, the docker-only flag and the headless fallback |
| Scanner.HasDockerOnly | lib/projectScanner.js:309 | the docker-only flag; `Scanner.DockerOnlyMeaning` states that it holds exactly when something was detected and all of it is `docker` |
| Scanner.Labels | resources/presets/selenium/template/scripts/scan_project.mjs:290-292 | one label per framework, its display name |
| Scanner.StackSummary | resources/presets/selenium/template/scripts/scan_project.mjs:290-292 | the labels joined by a comma and a space; `Scanner.StackSummaryEmptyIff` states that it is the stand-in exactly when nothing was detected |
| Scanner.StackSummaryEmptyIff | resources/presets/selenium/template/scripts/scan_project.mjs:290-292 | for table frameworks, the summary is `Sin frameworks específicos` exactly when nothing was detected |
| Scanner.LabelNotPlaceholder | resources/presets/selenium/template/scripts/scan_project.mjs:290-292 | no text that starts with a table label is the stand-in |
| Scanner.ScanProjectCli | resources/presets/selenium/template/scripts/scan_project.mjs:5-307 | `--help` or `-h` prints the usage and exits 0 before any scan; otherwise the run exits 1 exactly when the write fails; a written scan is the scan of the working directory at the default depth with `agent` ignored, prints four lines and adds the JSON exactly with `--json` |
| Scanner.CliSummaryPlaceholder | resources/presets/selenium/template/scripts/scan_project.mjs:290-292 | the printed summary is the stand-in exactly when no framework matched |
| Scanner.CliSearchSkipsIgnored | resources/presets/selenium/template/scripts/scan_project.mjs:20-33 | the command-line search never reports a file under `.git`, `node_modules`, `vendor`, `agent` or another ignored directory, nor deeper than the bound |
| DetectStack.AnyHas | resources/presets/selenium/template/scripts/detect_stack.mjs:6 | some listed name exists at the root |
| DetectStack.RootManifest | resources/presets/selenium/template/scripts/detect_stack.mjs:15-16 | reading only after an existence check yields what reading alone yields |
| DetectStack.AllHave | resources/presets/selenium/template/scripts/detect_stack.mjs:38 | every listed name exists at the root |
| DetectStack.LaravelSignal | resources/presets/selenium/template/scripts/detect_stack.mjs:38 | true exactly when `artisan`, `bootstrap/app.php` and `composer.json` all exist |
| DetectStack.DockerSignal | resources/presets/selenium/template/scripts/detect_stack.mjs:45 | true exactly when one of the four compose or Docker files exists |
| DetectStack.MonorepoSignal | resources/presets/selenium/template/scripts/detect_stack.mjs:46-48 | true exactly when one of the five manifests exists or a container directory has two subdirectories |
| DetectStack.ReactSignal | resources/presets/selenium/template/scripts/detect_stack.mjs:44 | true exactly when the package manifest declares `react` or `react-dom`; a failed read gives false |
| DetectStack.DetectSignals | resources/presets/selenium/template/scripts/detect_stack.mjs:37-52 | the laravel, docker, monorepo and react signals are those of their own definitions, and `headless` never holds together with angular, nextjs or react |
| DetectStack.HeadlessSignal | resources/presets/selenium/template/scripts/detect_stack.mjs:51-52 | `headless` holds exactly when angular, nextjs and react are all false and a root `package.json` or `composer.json` parsed to a truthy value |
| DetectStack.HeadlessHasManifest | resources/presets/selenium/template/scripts/detect_stack.mjs:15-16 | a headless workspace has a `package.json` or a `composer.json` at its root |
| DetectStack.IonicSignal | resources/presets/selenium/template/scripts/detect_stack.mjs:40 | `ionic` holds exactly when `ionic.config.json` exists or the package manifest declares `@ionic/angular` or `@ionic/react` |
| DetectStack.MonorepoAgreement | resources/presets/selenium/template/scripts/detect_stack.mjs:46-48 | the shallow monorepo signal with `nx.json` added back is the scanner's monorepo verdict |
| DetectStack.AnyHasWithout | resources/presets/selenium/template/scripts/detect_stack.mjs:46-47 | removing one name from a list and testing it separately changes nothing |
| DetectStack.PlainRootMatch | resources/presets/selenium/template/scripts/detect_stack.mjs:6 | whatever exists at the root also matches the scanner's plain pattern of that name |
| DetectStack.DockerAgreement | resources/presets/selenium/template/scripts/detect_stack.mjs:45 | a docker signal means the scanner's docker indicator matches too |
| DetectStack.LaravelAgreement | resources/presets/selenium/template/scripts/detect_stack.mjs:38 | a laravel signal means the scanner's laravel indicator matches too |
| DetectStack.ReactAgreement | resources/presets/selenium/template/scripts/detect_stack.mjs:44 | a root `package.json` declaring `react` makes the scanner's React indicator match |
| DetectStack.HeadlessAgreement | resources/presets/selenium/template/scripts/detect_stack.mjs:51-52 | a headless signal means the scanner's headless fallback holds too |
| Presets.MatchesWorkspace | agent/extensions/vscode-cursor-agent/extension.js:119-127 | true exactly when every required file exists under the workspace root |
| Presets.EveryExists | extension.js:349-357 | the recursive check agrees with `every` |
| Presets.NoRequirementsMatches | agent/extensions/vscode-cursor-agent/extension.js:119-127 | a preset without required files matches every workspace |
| Presets.FirstMatch | agent/extensions/vscode-cursor-agent/extension.js:116 | nothing is found exactly when no preset matches; otherwise the result is the first preset that matches |
| Presets.DetectPreset | agent/extensions/vscode-cursor-agent/extension.js:111-117 | nothing without a workspace; a detected preset is loaded and matches |
| Presets.DetectFindsUnconstrained | extension.js:341-347 | a preset without requirements guarantees a detection no later than it |
| Presets.UpdateCurrentPreset | agent/extensions/vscode-cursor-agent/extension.js:90-97 | the new current preset is the given one, else the default; the event fires exactly when there was none before, there is none now, or the identifiers differ |
| Presets.DefaultPreset | extension.js:366-368 | the first loaded preset, if any; `Presets.UpdateCurrentPreset` states that it is the fallback when no preset is given |
| Presets.UpdateTwice | extension.js:320-327 | repeating an update is silent unless no preset exists at all |
| Presets.UpdateToOtherFires | extension.js:320-327 | switching to a preset with another identifier fires |
| Presets.PresentPaths | agent/extensions/vscode-cursor-agent/extension.js:55 | the kept paths are exactly the non-empty ones |
| Presets.WatchFiles | agent/extensions/vscode-cursor-agent/extension.js:52-57 | the watched files are pairwise distinct |
| Presets.WatchFilesMembers | agent/extensions/vscode-cursor-agent/extension.js:52-57 | a path is watched exactly when it is listed explicitly or is a non-empty context path |
| Presets.WatchFilesExplicitFirst | extension.js:282-287 | the explicit list, without repeats, comes first |
| Presets.NormalizeCommands | extension.js:2181-2185 | an array is kept as it is, a string becomes a one-element list, anything else becomes no command |
| Presets.NormalizeCommandsIdempotent | agent/extensions/vscode-cursor-agent/extension.js:1730 | normalising a normalised list changes nothing |
| Presets.CommandsToRun | extension.js:2181-2190 | there is something to run exactly when the value is a string or a non-empty array; otherwise the warning is shown |
| Dedup.FirstByKeyKeepsFirst | extension.js:1444-1454 | the first acceptable item with an unseen key is kept |
| Dedup.FirstByKey | extension.js:1444-1454 | every kept item is an acceptable item of the input whose key was not seen before, and no two kept items share a key |
| Dedup.FirstByKeyCovers | extension.js:1444-1454 | every acceptable item is represented by a kept item with its key, unless the key was seen before |
| Dedup.FirstByKeyAppend | extension.js:1444-1454 | de-duplicating a concatenation de-duplicates the first part, then the second against its keys |
| Dedup.FirstByKeyKeys | extension.js:1444-1454 | the kept keys are exactly the unseen keys of acceptable items |
| Dedup.FirstByKeyFresh | extension.js:1444-1454 | acceptable items with distinct unseen keys are all kept, in order |
| Actions.CustomEntry | extension.js:1461-1469 | a custom action's entry has a command, takes the identifier as its one argument and is keyed `custom:` plus the identifier |
| Actions.CustomEntries | extension.js:1461-1469 | one entry per custom action, in order |
| Actions.BuildActions | extension.js:1440-1481 | no two entries share a key and every entry has a command |
| Actions.InstallOnly | extension.js:1456-1459 | without a workspace or without an agent structure the list is exactly the install action |
| Actions.BuildActionsLayout | extension.js:1461-1478 | with an agent structure, the de-duplicated custom entries come first, then the fixed entries |
| Actions.BuiltInKeys | extension.js:1471-1478 | the five fixed entries have commands and distinct keys |
| Actions.CustomActionOffered | extension.js:1461-1469 | the first custom action with a given identifier is always offered |
| Actions.TaskActions | agent/extensions/vscode-cursor-agent/extension.js:1112-1119 | one entry per preset task, running that task |
| Actions.AgentBuildActions | agent/extensions/vscode-cursor-agent/extension.js:1100-1146 | no two entries run the same command and every entry has a command |
| Actions.TasksFirst | agent/extensions/vscode-cursor-agent/extension.js:1112-1121 | the de-duplicated preset tasks come before every fixed entry |
| Actions.OpenContextsFixed | agent/extensions/vscode-cursor-agent/extension.js:1124-1126 | among the fixed entries, `openContexts` is there exactly when there is a workspace with context files |
| Actions.OpenContextsOffered | agent/extensions/vscode-cursor-agent/extension.js:1124-1126 | an `openContexts` entry is offered exactly when a task runs it, or there is a workspace with context files |
| ActionIds.Slug | extension.js:2865 | the base is a slug: the maximal runs of letters and digits of the lower-cased title (or of `custom-action` for an empty title), joined by single dashes, or `action` when there are none |
| ActionIds.SlugIdempotent | extension.js:2865 | slugging a slug gives it back |
| ActionIds.Collapse | extension.js:2865 | the result holds only slug characters and single dashes, is empty exactly when the input is, and keeps the letters and digits in order; where the dashes go is stated by `ActionIds.CollapseRuns` |
| ActionIds.StripDashes | extension.js:2865 | no leading or trailing dash is left, and the letters and digits are kept; what is removed is stated by `ActionIds.StripDashesSplit` |
| ActionIds.StripDashesSplit | extension.js:2865 | the stripped text is one contiguous slice of the input, with only dashes before it and only dashes after it |
| ActionIds.Runs | extension.js:2865 | the maximal runs of letters and digits, in order; an input that starts with a letter or digit has at least one run |
| ActionIds.RunsShape | extension.js:2865 | every run is non-empty and made of letters and digits only |
| ActionIds.RunsEmpty | extension.js:2865 | there are no runs exactly when the input has no letter or digit |
| ActionIds.CollapseRuns | extension.js:2865 | replacing every maximal stretch of other characters by one dash gives the runs joined by single dashes, with one dash in front when the input starts with another character and one at the end when it ends with one; without runs the result is empty or a single dash |
| ActionIds.StripCollapsed | extension.js:2865 | stripping the edge dashes of the collapsed text leaves exactly the runs joined by single dashes, and nothing only when there are no runs |
| ActionIds.CandidateInjective | extension.js:2867-2871 | distinct suffix numbers give distinct candidates |
| ActionIds.FirstFreeUnique | extension.js:2867-2871 | at most one identifier is the first free candidate |
| ActionIds.FirstFreeId | extension.js:2867-2871 | the result is the base, or `base-n` for the smallest n not taken |
| ActionIds.GenerateCustomActionId | extension.js:2864-2873 | the result is never taken and is the first free candidate of the title's slug |
| TextBlocks.Indent | extension.js:1065 | the indentation is a prefix of white space followed by a non-space character or the end of the line |
| TextBlocks.MinOf | extension.js:1067 | the minimum of the indentations, or 0 when there are none |
| TextBlocks.Dedent | extension.js:1061-1070 | `dedent`; `TextBlocks.DedentSpec`, `TextBlocks.DedentAllBlank`, `TextBlocks.DedentedFlush` and `TextBlocks.DedentIdempotent` state what it does |
| TextBlocks.CommonIndentIsMinimum | extension.js:1063-1067 | the common indentation is at most every non-blank line's, and equals one of them when there is a non-blank line |
| TextBlocks.DedentSpec | extension.js:1061-1070 | `dedent` keeps the number of lines, removes the common indentation from every line, and leaves some non-blank line flush left |
| TextBlocks.DedentAllBlank | extension.js:1061-1070 | text whose lines are all blank comes back unchanged |
| TextBlocks.DedentedFlush | extension.js:1061-1070 | the result has no common indentation left |
| TextBlocks.DedentIdempotent | extension.js:1061-1070 | dedenting twice is dedenting once |
| TextBlocks.StripCodeFence | extension.js:1053-1059 | `stripCodeFence`; `TextBlocks.StripFence` states that a fenced block gives back its body and `TextBlocks.StripOnlyFences` that nothing else is changed |
| TextBlocks.StripFence | extension.js:1053-1059 | a fenced block with a language tag gives back its body |
| TextBlocks.StripOnlyFences | extension.js:1053-1059 | anything that is changed was a fenced block |
| Shell.UnescapeEscapeShell | extension.js:2743-2745 | the shell escaping is lossless |
| Shell.EscapeForShell | extension.js:2743-2745 | `escapePromptForShell`; `Shell.UnescapeEscapeShell` states that it is lossless and `Shell.EscapeShellQuotesGuarded` that every quote gets a back-slash |
| Shell.EscapeShellQuotesGuarded | extension.js:2743-2745 | every quote of the escaped text follows a back-slash, and the text grows by one character per quote |
| Shell.EscapeHeadNotQuote | extension.js:2743-2745 | an escaped text never begins with a bare quote |
| Shell.EscapePowerShellPerChar | extension.js:2766-2768 | the two passes escape each character on its own |
| Shell.EscapePowerShell | extension.js:2766-2768 | `escapePowerShell`; `Shell.EscapePowerShellPerChar` states that it escapes each character on its own and `Shell.UnescapeEscapePowerShell` that it is lossless |
| Shell.UnescapeEscapePowerShell | extension.js:2766-2768 | the PowerShell escaping is lossless |
| Shell.QuoteFirstIsLossy | extension.js:2766-2768 | escaping quotes before doubling back-ticks would not be reversible, which is why back-ticks go first |
| Shell.CodexRunnerPadding | extension.js:2770-2776 | white space around the runner does not change the verdict |
| Shell.IsCodexRunner | extension.js:2770-2776 | `isCodexRunner`; `Shell.CodexRunnerPadding` and `Shell.CodexRunnerCaseInsensitive` state that surrounding white space and letter case do not change the verdict |
| Shell.CodexRunnerCaseInsensitive | extension.js:2770-2776 | letter case does not change the verdict |
| NodePath.Basename | extension.js:3044 | the base name is the end of the path after trailing slashes are dropped, starts right after a slash or at the start, and holds no slash |
| NodePath.ExtOf | extension.js:3038 | the extension runs from a dot that is not the first character to the end, with no further dot; it is empty exactly when the name is `..` or has no dot after its first character |
| NodePath.Extname | extension.js:3038 | `path.extname`: the extension of the base name, as `NodePath.ExtOf` states it |
| NodePath.InitShHasShExtension | extension.js:3039-3044 | the `init.sh` rule adds nothing: that name already has the `.sh` extension |
| NodePath.ShouldMakeExecutableIff | extension.js:3037-3045 | a file is made executable exactly when its lower-cased base name ends in `.sh` or `.mjs` with something before the extension |
| NodePath.ShouldMakeExecutable | extension.js:3037-3045 | `shouldMakeExecutable`; `NodePath.ShouldMakeExecutableIff` states exactly which paths it accepts |
| NodePath.ExecutableBase | extension.js:3038-3044 | on a base name, "extension `.sh` or `.mjs`, or the name `init.sh`" holds exactly when the lower-cased name ends in `.sh` or `.mjs` with something before the extension |
| Sound.GetSetting | agent/extensions/vscode-cursor-agent/lib/sound.js:9-17 | absent or falsy settings give undefined; a configuration gives the stored value of the key |
| Sound.ReadConfigFile | agent/extensions/vscode-cursor-agent/lib/sound.js:24-37 | a missing file gives `{}` silently; a failed parse gives `{}` with a warning; otherwise the parsed value |
| Sound.ReadFileConfig | agent/extensions/vscode-cursor-agent/lib/sound.js:19-38 | without a root the result is `{}`; with one it is the file read |
| Sound.Pick | agent/extensions/vscode-cursor-agent/lib/sound.js:47-50 | a falsy setting with a `null` file configuration throws; otherwise the result is truthy or the fallback |
| Sound.Merge | agent/extensions/vscode-cursor-agent/lib/sound.js:46-50 | the message is always truthy, the sound file is truthy or empty, and only a `null` file configuration with a missing setting throws; the default message is the caller's |
| Sound.MergePrecedence | agent/extensions/vscode-cursor-agent/lib/sound.js:46-50 | each field is the setting when truthy, else the file's value when truthy, else the default |
| Sound.SettingsShadowFile | agent/extensions/vscode-cursor-agent/lib/sound.js:46-50 | with both settings given, the file configuration does not matter |
| Sound.CacheKey | agent/extensions/vscode-cursor-agent/lib/sound.js:41 | the key is never empty and is the root when there is one |
| Sound.LoadSoundConfig | agent/extensions/vscode-cursor-agent/lib/sound.js:40-54 | a cached key returns its entry untouched; a success stores its result under the key; a fresh result has a message; a failure leaves the cache alone |
| Sound.LoadTwice | agent/extensions/vscode-cursor-agent/lib/sound.js:41-44 | a second load of the same root returns the first result, whatever the settings or the file now say |
| Sound.GlobalRootSharesEntry | agent/extensions/vscode-cursor-agent/lib/sound.js:41 | loading without a root and from a root named `__global__` share one entry |
| Sound.ClearSoundConfigCache | agent/extensions/vscode-cursor-agent/lib/sound.js:56-63 | without a root the cache is emptied; with one only that key goes and every other entry stays |
| Sound.ClearThenLoad | agent/extensions/vscode-cursor-agent/lib/sound.js:56-63 | after clearing a root its configuration is read afresh, while other roots keep their entries |
| Sound.AgentGetSoundConfig | agent/extensions/vscode-cursor-agent/extension.js:2007-2037 | a cached record is returned as it is; a fresh success is cached and has a message |
| Sound.AgentCacheIgnoresRoot | agent/extensions/vscode-cursor-agent/extension.js:2009-2012 | once loaded, the same record is returned for every root until the cache is cleared |
| Sound.AgentDefaultApplies | agent/extensions/vscode-cursor-agent/extension.js:2026-2029 | with no message setting and no message in a readable configuration file, the agent extension shows its own stored default text, which differs from the library's |
| Sound.GetPlayerCommand | agent/extensions/vscode-cursor-agent/lib/sound.js:111-133 | darwin plays with `/usr/bin/afplay` and linux with `paplay` on the file itself; win32 runs `powershell -NoProfile -Command` with the playing script; any other platform gets no command and no arguments |
| Sound.UndoubleDoubleQuotes | agent/extensions/vscode-cursor-agent/lib/sound.js:121 | the quote-doubled path reads back as the original |
| Sound.DoubledQuotesPaired | agent/extensions/vscode-cursor-agent/lib/sound.js:121 | no quote of the escaped path stands alone |
| PlayArgs.Tokenize | agent/scripts/play_done_sound.js:6-27 | the scan never yields more tokens than arguments, and yields some for a non-empty argument list |
| PlayArgs.TokenizeLossless | agent/scripts/play_done_sound.js:6-27 | the tokens spell out the arguments again |
| PlayArgs.ParseArgs | agent/scripts/play_done_sound.js:6-27 | the index loop computes the token-by-token parse |
| PlayArgs.Parse | agent/scripts/play_done_sound.js:6-27 | the token-by-token parse; `PlayArgs.ParseArgs` states that the source's index loop computes it, and `PlayArgs.ApplyFields`, `PlayArgs.LastSoundFileWins`, `PlayArgs.LastMessageWins` and `PlayArgs.ApplyWarnings` state what it records |
| PlayArgs.ApplyFields | agent/scripts/play_done_sound.js:10-23 | `help` is set exactly when some help flag was seen; fields no token sets keep their value |
| PlayArgs.LastSoundFileWins | agent/scripts/play_done_sound.js:14-18 | a later `--sound-file` overrides every earlier one |
| PlayArgs.LastMessageWins | agent/scripts/play_done_sound.js:19-23 | a later `--message` overrides every earlier one |
| PlayArgs.ApplyWarnings | agent/scripts/play_done_sound.js:24 | exactly one warning per unrecognised argument, in order |
| PlayArgs.DanglingFlagIgnored | agent/scripts/play_done_sound.js:14-24 | a value flag with nothing after it is warned about and sets nothing |
| PlayArgs.Overrides | agent/scripts/play_done_sound.js:47-50 | there are no overrides exactly when neither a non-empty sound file nor a non-empty message was given |
| PlayArgs.OverridesReachLoader | agent/scripts/play_done_sound.js:47-50 | a given sound file or message is what the loader reads as the setting; a missing one reads as undefined |
| SeleniumContext.NormalizePath | agent/scripts/export_selenium_context.mjs:38 | no back-slash is left and the length is kept |
| SeleniumContext.NormalizePathPointwise | agent/scripts/export_selenium_context.mjs:38 | each back-slash becomes a slash and every other character stays |
| SeleniumContext.NormalizePathIdempotent | agent/scripts/export_selenium_context.mjs:38 | a normalised path is its own normal form |
| SeleniumContext.MatchName | agent/scripts/export_selenium_context.mjs:50 | a match ends at a comma and captures a non-empty name without quotes |
| SeleniumContext.MatchNameOf | agent/scripts/export_selenium_context.mjs:50 | every text of the shape space, quote, name, quote, space, comma matches with that name |
| SeleniumContext.MatchingBracket | agent/scripts/export_selenium_context.mjs:62-75 | a closed scan stops at the `]` that balances the `[`, with balanced brackets between; an unclosed one runs to the end |
| SeleniumContext.ScanRound | agent/scripts/export_selenium_context.mjs:44-92 | a round that resumes moves forward; a found include is valid and starts at or after the scan position; the round is the functional round `SeleniumContext.RoundOf` |
| SeleniumContext.OpenRound | agent/scripts/export_selenium_context.mjs:45-60 | the token, name and `[` search of a round agrees with `SeleniumContext.OpenAt`, and an opened head starts at a token, has its name and sits on the first `[` after the comma |
| SeleniumContext.RoundOf | agent/scripts/export_selenium_context.mjs:44-92 | one round as a function: a resumed round moves past the scan position, and a found include ends after it |
| SeleniumContext.OpenAt | agent/scripts/export_selenium_context.mjs:45-60 | no token stops the scan; a missing name or `[` resumes past the scan position; an opened head starts at or after it and its `[` lies inside the content |
| SeleniumContext.CloseOf | agent/scripts/export_selenium_context.mjs:61-91 | an unclosed `[` resumes past the end of the content; a closed one gives an include that starts at the token and ends after the `[` |
| SeleniumContext.Closed | agent/scripts/export_selenium_context.mjs:78-89 | the closed include keeps the head's start, has its `]` at the stop and ends after it |
| SeleniumContext.Closing | agent/scripts/export_selenium_context.mjs:63-75 | the position where the bracket depth first drops below that of the `[`, if any, lies inside the content |
| SeleniumContext.ClosingAt | agent/scripts/export_selenium_context.mjs:63-75 | the closing position is the first one at which the depth drops |
| SeleniumContext.ClosingNone | agent/scripts/export_selenium_context.mjs:63-79 | without such a drop there is no closing position |
| SeleniumContext.BracketClosing | agent/scripts/export_selenium_context.mjs:61-79 | the bracket loop's stop is the functional closing position, and its unclosed case is the missing one |
| SeleniumContext.ClosedValid | agent/scripts/export_selenium_context.mjs:78-89 | a head closed at its matching `]` is a valid include |
| SeleniumContext.Scan | agent/scripts/export_selenium_context.mjs:40-95 | the includes of the scan from a position, as a function of the rounds; `SeleniumContext.ScanStep` and `SeleniumContext.ScanFirstFound` state how rounds contribute |
| SeleniumContext.ScanStep | agent/scripts/export_selenium_context.mjs:44-92 | a finished round contributes nothing, a resumed one continues at its position, and a found include is reported and the scan continues at its end |
| SeleniumContext.ScanFirstFound | agent/scripts/export_selenium_context.mjs:44-92 | the first reported include is the one the first successful round finds |
| SeleniumContext.CloseRound | agent/scripts/export_selenium_context.mjs:57-92 | a round with a matched head either resumes past the token or reports a valid include that starts at the token |
| SeleniumContext.ExtractIncludes | agent/scripts/export_selenium_context.mjs:40-95 | the result is exactly the functional scan from position 0; every include is valid: it starts at `@include(`, its `[` and `]` balance, its parameters lie between them, and its end follows the first `)` from the `]` on; each ends before the next starts; starts strictly increase; without a token there is nothing |
| SeleniumContext.ScannedOrdered | agent/scripts/export_selenium_context.mjs:44-92 | scanned includes start at a token, in strictly increasing order |
| SeleniumContext.OrderedSnoc | agent/scripts/export_selenium_context.mjs:84-92 | an include that starts at or after the scan position keeps the list ordered |
| UseCases.RequiredFields | agent/scripts/export_selenium_context.mjs:319 | exactly the required fields are kept |
| UseCases.ComponentScenarios | agent/scripts/export_selenium_context.mjs:320-330 | only selection scenarios, in groups of three |
| UseCases.EmptyScenarios | agent/scripts/export_selenium_context.mjs:334-337 | one scenario per required field |
| UseCases.FieldScenarios | agent/scripts/export_selenium_context.mjs:341-350 | only range and date scenarios |
| UseCases.Scenarios | agent/scripts/export_selenium_context.mjs:317-354 | the happy flow comes first, naming fields exactly when some are required, and the interrupt and retry scenarios come last |
| UseCases.EmptyCheckIff | agent/scripts/export_selenium_context.mjs:336 | a rendered line asks to leave a field empty exactly when it is such a scenario |
| UseCases.OneEmptyScenarioPerRequiredField | agent/scripts/export_selenium_context.mjs:317-354 | exactly one "leave it empty" scenario per required field |
| UseCases.OneEmptyCheckPerRequiredField | agent/scripts/export_selenium_context.mjs:317-354 | the written checklist has exactly one `Dejar vacío` line per required field |
| UseCases.RenderUseCasesBounds | agent/scripts/export_selenium_context.mjs:317-354 | the checklist opens with the happy-flow line and ends with the interrupt and retry lines |
| UseCases.RenderUseCases | agent/scripts/export_selenium_context.mjs:317-354 | the checklist text; `UseCases.RenderUseCasesBounds` and `UseCases.OneEmptyCheckPerRequiredField` state its first and last lines and its `Dejar vacío` lines |
| Text.IndexOf | agent/scripts/export_selenium_context.mjs:45 | the result is the first occurrence at or after the start, or -1 when there is none |
| Text.JoinSplit | extension.js:1062-1069 | joining what was split gives back the text |
| Text.TrimLower | extension.js:2774 | trimming and lower-casing commute |

## Left out

- The real filesystem calls are not modelled: `readdirSync`, `existsSync`, `statSync`, `accessSync`, `readFileSync` and `JSON.parse`. The tree stands for them.
- Symbolic links are not modelled. An entry that is neither a file nor a directory is `Special`: `existsSync` sees it, and the search neither matches nor enters it.
- Paths with `..` or absolute paths are not modelled. `path.join` is modelled only for relative segments, and paths follow POSIX separators.
- Property lookups that hit JavaScript prototype keys (such as `constructor`) are not modelled. Indexing strings or arrays by key is left out too.
- `Text.Lower` models `toLowerCase` on ASCII letters only. The other Unicode case mappings are left out.
- `writeMetadata`, `readMetadata` and `new Date().toISOString()` are not modelled. `scannedAt` is a parameter, and the outcome of the write is a parameter of `Scanner.ScanProjectCli`.
- The console lines of the command line are kept as data. Its `--json` output is a flag rather than serialised text.
- The VS Code layer is not modelled: tree providers, webviews, quick picks, terminals, watchers and secret storage. The `resolvePreset` and `selectPreset` paths that read the configuration are left out too.
- Process spawning is not modelled: `playSound`, `runDoneSound`, the root `play_done_sound.js` fallback chain and `resolveSoundFile`. Their results depend on external programs and on the filesystem.
- The other regex parsers of the Selenium context exporter are not modelled: `parsePhpArrayScalar`, `summarizeRemoteSelect`, `extractFormFields`, `summarizeButtons`, `summarizeForm`, `analyzeView`. They are defined by JavaScript regular-expression semantics.
- `getNonce` is not modelled, because it uses `Math.random`. `applyEnvToCommand` is not modelled, because it depends on `process.platform`.
- The `primary` and `danger` display flags of actions are not modelled.
- `UseCases.Scenarios`: a component is read through `comp?.summary ?? comp`, and `null` components are not modelled. A component is its summary.
- `SeleniumContext.ExtractIncludes`: the positions `start`, `arrayStart`, `arrayEnd` and `end` count characters (code points), while JavaScript strings count UTF-16 code units. They differ once the content holds a character outside the Basic Multilingual Plane, such as an emoji, before the include.
- `UseCases.FieldNames`: an empty label and an absent one are both the empty string.
- The panel entries use the intended captions and not the stored bytes of the source.
- `Scanner.ScanProjectCli`: labels that contain a newline would split a printed line. The model keeps each printed line as one string.
- Presets are used in load order. The directory-listing order and the `localeCompare` sort of preset choices are not modelled.
- `Presets.CommandsToRun`: the warning's text is the intended one. Showing the message is not modelled.
- `Dedup.FirstByKey` proves membership, key facts and order on concatenations. It does not state that the result is a subsequence of the input in general.
