/** Preset selection in both extensions: which preset a workspace matches,
    when the current preset counts as changed, the files a preset watches,
    and the command list a preset action runs. */
module Presets {
  import opened Wrappers
  import opened Json
  import FileTree
  import Dedup

  /** A loaded preset manifest: its id and `detection.requiredFiles`, an
      absent list being the empty one (`|| []`). */
  datatype Preset = Preset(id: string, requiredFiles: seq<string>)

  /** `requiredFiles.every(...)` over `fs.existsSync(path.join(root, f))`. */
  predicate AllExist(root: FileTree.Entry, files: seq<string>) {
    files == [] || (FileTree.Exists(root, FileTree.SplitPath(files[0])) && AllExist(root, files[1..]))
  }

  /** `matchesWorkspace(preset, workspaceRoot)` */
  function MatchesWorkspace(p: Preset, root: FileTree.Entry): (r: bool)
    ensures r <==> forall i :: 0 <= i < |p.requiredFiles| ==> FileTree.Exists(root, FileTree.SplitPath(p.requiredFiles[i]))
  {
    EveryExists(root, p.requiredFiles);
    AllExist(root, p.requiredFiles)
  }

  lemma {:induction false} EveryExists(root: FileTree.Entry, files: seq<string>)
    ensures AllExist(root, files) <==> forall i :: 0 <= i < |files| ==> FileTree.Exists(root, FileTree.SplitPath(files[i]))
  {
    if files != [] {
      EveryExists(root, files[1..]);
      assert forall i :: 1 <= i < |files| ==> files[i] == files[1..][i - 1];
    }
  }

  /** A preset that requires nothing matches every workspace. */
  lemma NoRequirementsMatches(p: Preset, root: FileTree.Entry)
    requires p.requiredFiles == []
    ensures MatchesWorkspace(p, root)
  {
  }

  /** `presets.find(preset => matchesWorkspace(preset, root))` */
  function FirstMatch(presets: seq<Preset>, root: FileTree.Entry): (r: Option<Preset>)
    ensures r.None? <==> forall i :: 0 <= i < |presets| ==> !MatchesWorkspace(presets[i], root)
    ensures r.Some? ==> exists i :: 0 <= i < |presets| && presets[i] == r.value
                                    && MatchesWorkspace(presets[i], root)
                                    && forall j :: 0 <= j < i ==> !MatchesWorkspace(presets[j], root)
  {
    if presets == [] then None
    else if MatchesWorkspace(presets[0], root) then Some(presets[0])
    else
      var r := FirstMatch(presets[1..], root);
      assert forall i :: 1 <= i < |presets| ==> presets[i] == presets[1..][i - 1];
      r
  }

  /** `detectPreset()`: nothing without a workspace, else the first preset
      (in load order) whose required files all exist. */
  function DetectPreset(presets: seq<Preset>, root: Option<FileTree.Entry>): (r: Option<Preset>)
    ensures root.None? ==> r.None?
    ensures r.Some? ==> r.value in presets && MatchesWorkspace(r.value, root.value)
  {
    if root.None? then None else FirstMatch(presets, root.value)
  }

  /** With a workspace, detection finds a preset whenever some preset
      requires no file, and the one it finds comes no later. */
  lemma DetectFindsUnconstrained(presets: seq<Preset>, root: FileTree.Entry, k: nat)
    requires k < |presets| && presets[k].requiredFiles == []
    ensures DetectPreset(presets, Some(root)).Some?
    ensures exists i :: 0 <= i <= k && presets[i] == DetectPreset(presets, Some(root)).value
  {
    NoRequirementsMatches(presets[k], root);
  }

  /** `getDefaultPreset()`: the first loaded preset, if any. */
  function DefaultPreset(presets: seq<Preset>): Option<Preset> {
    if presets == [] then None else Some(presets[0])
  }

  /** The state `updateCurrentPreset` leaves behind and whether it fired
      `onDidChangePreset`. */
  datatype PresetChange = PresetChange(current: Option<Preset>, fired: bool)

  /** `updateCurrentPreset(preset)` */
  function UpdateCurrentPreset(current: Option<Preset>, preset: Option<Preset>, presets: seq<Preset>): (r: PresetChange)
    ensures r.current == (if preset.Some? then preset else DefaultPreset(presets))
    ensures r.fired <==> current.None? || r.current.None? || current.value.id != r.current.value.id
  {
    var next := if preset.Some? then preset else DefaultPreset(presets);
    PresetChange(next, current.None? || next.None? || current.value.id != next.value.id)
  }

  /** Selecting the same preset again is silent, unless there is no preset
      at all: then every update fires. */
  lemma UpdateTwice(current: Option<Preset>, preset: Option<Preset>, presets: seq<Preset>)
    ensures var once := UpdateCurrentPreset(current, preset, presets);
            UpdateCurrentPreset(once.current, preset, presets).fired <==> once.current.None?
  {
  }

  /** Switching to a preset with another id always fires. */
  lemma UpdateToOtherFires(current: Preset, preset: Preset, presets: seq<Preset>)
    requires current.id != preset.id
    ensures UpdateCurrentPreset(Some(current), Some(preset), presets) == PresetChange(Some(preset), true)
  {
  }

  /** `.filter(Boolean)` on the context files' `relativePath`s, a missing
      path being the empty string. */
  function PresentPaths(paths: seq<string>): (r: seq<string>)
    ensures forall s :: s in r <==> s in paths && s != ""
  {
    if paths == [] then []
    else
      var rest := PresentPaths(paths[1..]);
      assert forall s :: s in paths <==> s == paths[0] || s in paths[1..];
      if paths[0] == "" then rest else [paths[0]] + rest
  }

  function Always(s: string): bool {
    true
  }

  function Itself(s: string): string {
    s
  }

  /** `Array.from(new Set([...explicitWatchFiles, ...contextPaths]))`:
      insertion order, each path once. */
  function WatchFiles(explicit: seq<string>, contextPaths: seq<string>): (r: seq<string>)
    ensures forall i, j :: 0 <= i < j < |r| ==> r[i] != r[j]
  {
    Dedup.FirstByKey(explicit + PresentPaths(contextPaths), Always, Itself, {})
  }

  /** A path is watched exactly when it is listed explicitly or is the
      non-empty path of a context file. */
  lemma WatchFilesMembers(explicit: seq<string>, contextPaths: seq<string>, s: string)
    ensures s in WatchFiles(explicit, contextPaths) <==> s in explicit || (s in contextPaths && s != "")
  {
    var xs := explicit + PresentPaths(contextPaths);
    var r := WatchFiles(explicit, contextPaths);
    Dedup.FirstByKeyKeys(xs, Always, Itself, {}, s);
    if s in r {
      var i :| 0 <= i < |r| && r[i] == s;
      assert Itself(r[i]) == s;
    }
    if s in xs {
      var i :| 0 <= i < |xs| && xs[i] == s;
      assert Always(xs[i]) && Itself(xs[i]) == s;
      var j :| 0 <= j < |r| && Itself(r[j]) == s;
      assert r[j] in r;
    }
  }

  /** The explicit list, without its repeats, comes first; an explicit
      list without repeats is kept as it is. */
  lemma WatchFilesExplicitFirst(explicit: seq<string>, contextPaths: seq<string>)
    ensures Dedup.FirstByKey(explicit, Always, Itself, {}) <= WatchFiles(explicit, contextPaths)
    ensures (forall i, j :: 0 <= i < j < |explicit| ==> explicit[i] != explicit[j])
              ==> explicit <= WatchFiles(explicit, contextPaths)
  {
    Dedup.FirstByKeyAppend(explicit, PresentPaths(contextPaths), Always, Itself, {});
    if forall i, j :: 0 <= i < j < |explicit| ==> explicit[i] != explicit[j] {
      Dedup.FirstByKeyFresh(explicit, Always, Itself, {});
    }
  }

  /** The `commands` list `runPresetCommand` executes: an array as it is,
      a string as a one-element list, anything else (absent included) as
      none. */
  function NormalizeCommands(v: Option<Json>): (r: seq<Json>)
    ensures v.Some? && v.value.JArr? ==> r == v.value.items
    ensures v.Some? && v.value.JStr? ==> r == [v.value]
    ensures !(v.Some? && (v.value.JArr? || v.value.JStr?)) ==> r == []
  {
    match v
    case Some(JArr(xs)) => xs
    case Some(JStr(_)) => [v.value]
    case _ => []
  }

  /** Normalising twice changes nothing: the normalised list read back as
      an array normalises to itself. */
  lemma NormalizeCommandsIdempotent(v: Option<Json>)
    ensures NormalizeCommands(Some(JArr(NormalizeCommands(v)))) == NormalizeCommands(v)
  {
  }

  /** The message shown when there is nothing to run. */
  const NoCommands: string := "La acci\U{F3}n no tiene comandos configurados."

  /** The commands to run, or the warning when the list is empty. */
  function CommandsToRun(v: Option<Json>): (r: Result<seq<Json>, string>)
    ensures r.Success? ==> r.value == NormalizeCommands(v) && r.value != []
    ensures r.Failure? <==> v.None? || !(v.value.JStr? || (v.value.JArr? && v.value.items != []))
  {
    var commands := NormalizeCommands(v);
    if commands == [] then Failure(NoCommands) else Success(commands)
  }
}
