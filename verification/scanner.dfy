/** The whole scan: frameworks, docker targets, user-interface flag,
    monorepo flag, headless fallback and the recommended preset, as the
    library computes it and as the command-line copy reports it. */
module Scanner {
  import opened Wrappers
  import opened FileTree
  import opened Search
  import opened Indicators
  import opened Classifier
  import opened Monorepo
  import opened Recommender
  import Text

  /** A framework as the metadata records it (without `hasUi`). */
  datatype FrameworkInfo = FrameworkInfo(id: string, displayName: string, preset: string, matches: seq<string>)

  /** The metadata record of a scan. */
  datatype Metadata = Metadata(
    version: int,
    scannedAt: string,
    workspaceRoot: string,
    frameworks: seq<FrameworkInfo>,
    hasUi: bool,
    hasDocker: bool,
    dockerTargets: seq<string>,
    isMonorepo: bool,
    recommendedPreset: string)

  /** Identifiers of the user-interface frameworks of the table. */
  const UiIds: set<string> := {"angular", "ionic", "next", "react"}

  /** `frameworks.filter((framework) => framework.id === 'docker')` */
  function DockerTargets(fws: seq<FrameworkMatch>): (r: seq<FrameworkMatch>)
    ensures |r| <= |fws|
    ensures forall k :: 0 <= k < |r| ==> r[k].id == "docker" && r[k] in fws
    ensures forall k :: 0 <= k < |fws| && fws[k].id == "docker" ==> fws[k] in r
    ensures |r| == |fws| <==> forall k :: 0 <= k < |fws| ==> fws[k].id == "docker"
  {
    if fws == [] then []
    else
      var rest := DockerTargets(fws[1..]);
      assert forall k :: 1 <= k < |fws| ==> fws[k] == fws[1..][k - 1];
      if fws[0].id == "docker" then [fws[0]] + rest else rest
  }

  /** `targets.map((fw) => fw.matches).flat()` */
  function FlatMatches(fws: seq<FrameworkMatch>): seq<string> {
    if fws == [] then [] else fws[0].matches + FlatMatches(fws[1..])
  }

  /** `frameworks.some((fw) => fw.hasUi)` */
  function AnyUi(fws: seq<FrameworkMatch>): (r: bool)
    ensures r <==> exists k :: 0 <= k < |fws| && fws[k].hasUi
  {
    if fws == [] then false
    else
      assert forall k :: 1 <= k < |fws| ==> fws[k] == fws[1..][k - 1];
      fws[0].hasUi || AnyUi(fws[1..])
  }

  /** The library's `hasDockerOnly`: as many docker targets as frameworks,
      and at least one. */
  predicate HasDockerOnly(fws: seq<FrameworkMatch>) {
    |fws| == |DockerTargets(fws)| && |DockerTargets(fws)| > 0
  }

  /** The command-line copy's `hasDockerOnly`, written the other way round. */
  predicate HasDockerOnlyCli(fws: seq<FrameworkMatch>) {
    |fws| > 0 && |fws| == |DockerTargets(fws)|
  }

  /** Both spellings mean: something was detected, and all of it is docker. */
  lemma DockerOnlyMeaning(fws: seq<FrameworkMatch>)
    ensures HasDockerOnly(fws) <==> |fws| > 0 && forall k :: 0 <= k < |fws| ==> fws[k].id == "docker"
    ensures HasDockerOnly(fws) <==> HasDockerOnlyCli(fws)
  {
  }

  /** `detectHeadlessFallback(root)`: a `composer.json` or `package.json`
      exists at the root or is found within the default depth. */
  function DetectHeadlessFallback(ws: Workspace, ignore: set<string>): (r: bool)
    ensures ws.path == "" ==> !r
    ensures ws.path != "" ==> (r <==>
      Exists(ws.tree, SplitPath("composer.json")) || FoundAnywhere(ws, "composer.json", DefaultMaxDepth, ignore)
      || Exists(ws.tree, SplitPath("package.json")) || FoundAnywhere(ws, "package.json", DefaultMaxDepth, ignore))
  {
    HeadlessParts(ws, ignore);
    var hasComposer := PathMatchesPattern(ws, "composer.json", DefaultMaxDepth, ignore)
      || |FindFiles(ws, "composer.json", DefaultMaxDepth, ignore)| > 0;
    var hasPkg := PathMatchesPattern(ws, "package.json", DefaultMaxDepth, ignore)
      || |FindFiles(ws, "package.json", DefaultMaxDepth, ignore)| > 0;
    hasComposer || hasPkg
  }

  lemma HeadlessParts(ws: Workspace, ignore: set<string>)
    ensures ws.path != "" ==>
      && (PathMatchesPattern(ws, "composer.json", DefaultMaxDepth, ignore) <==> Exists(ws.tree, SplitPath("composer.json")))
      && (PathMatchesPattern(ws, "package.json", DefaultMaxDepth, ignore) <==> Exists(ws.tree, SplitPath("package.json")))
      && (|FindFiles(ws, "composer.json", DefaultMaxDepth, ignore)| > 0 <==> FoundAnywhere(ws, "composer.json", DefaultMaxDepth, ignore))
      && (|FindFiles(ws, "package.json", DefaultMaxDepth, ignore)| > 0 <==> FoundAnywhere(ws, "package.json", DefaultMaxDepth, ignore))
  {
    if ws.path != "" {
      ManifestNamesPlain();
      PlainManifest(ws, "composer.json", ignore);
      PlainManifest(ws, "package.json", ignore);
    }
  }

  lemma ManifestNamesPlain()
    ensures PlainName("composer.json") && PlainName("package.json")
  {
    var c, p := "composer.json", "package.json";
    assert forall k :: 0 <= k < |c| ==> c[k] != '\\';
    assert forall k :: 0 <= k < |p| ==> p[k] != '\\';
  }

  /** A plain manifest name: matched at the root exactly when it exists
      there, found anywhere exactly when the search returns something. */
  lemma PlainManifest(ws: Workspace, name: string, ignore: set<string>)
    requires ws.path != "" && PlainName(name)
    ensures PathMatchesPattern(ws, name, DefaultMaxDepth, ignore) <==> Exists(ws.tree, SplitPath(name))
    ensures |FindFiles(ws, name, DefaultMaxDepth, ignore)| > 0 <==> FoundAnywhere(ws, name, DefaultMaxDepth, ignore)
  {
    PlainPatternIsExistence(ws, name, DefaultMaxDepth, ignore);
    FindFilesNonEmpty(ws, name, DefaultMaxDepth, ignore);
  }

  function Info(fw: FrameworkMatch): FrameworkInfo {
    FrameworkInfo(fw.id, fw.displayName, fw.preset, fw.matches)
  }

  function Infos(fws: seq<FrameworkMatch>): (r: seq<FrameworkInfo>)
    ensures |r| == |fws| && forall k :: 0 <= k < |fws| ==> r[k] == Info(fws[k])
  {
    seq(|fws|, k requires 0 <= k < |fws| => Info(fws[k]))
  }

  /** The scan proper, for an effective depth bound and ignore set. */
  function Analyse(ws: Workspace, maxDepth: int, ignore: set<string>, scannedAt: string): Metadata {
    var frameworks := DetectIn(ws, StackIndicators, maxDepth, ignore);
    var docker := DockerTargets(frameworks);
    Metadata(
      1, scannedAt, ws.path, Infos(frameworks), AnyUi(frameworks), |docker| > 0, FlatMatches(docker),
      DetectMonorepo(ws),
      ChoosePreset(frameworks, HasDockerOnly(frameworks), DetectHeadlessFallback(ws, ignore)))
  }

  /** Table facts needed below: identifiers distinct, `ui` exactly for the
      user-interface identifiers. */
  lemma TableUi()
    ensures forall j :: 0 <= j < |StackIndicators| ==> (StackIndicators[j].ui <==> StackIndicators[j].id in UiIds)
    ensures forall a, b :: 0 <= a < b < |StackIndicators| ==> StackIndicators[a].id != StackIndicators[b].id
  {
  }

  /** The table entry a detected framework came from. */
  ghost predicate FromTable(ws: Workspace, maxDepth: int, ignore: set<string>, fw: FrameworkMatch) {
    exists j :: 0 <= j < |StackIndicators| && fw == Report(StackIndicators[j], EvalMatchers(ws, StackIndicators[j].matchers, maxDepth, ignore))
  }

  lemma DetectedFromTable(ws: Workspace, maxDepth: int, ignore: set<string>)
    ensures forall k :: 0 <= k < |DetectIn(ws, StackIndicators, maxDepth, ignore)| ==>
      FromTable(ws, maxDepth, ignore, DetectIn(ws, StackIndicators, maxDepth, ignore)[k])
  {
    var fws := DetectIn(ws, StackIndicators, maxDepth, ignore);
    var evals := Evals(ws, StackIndicators, maxDepth, ignore);
    var idx := KeepExactly(StackIndicators, evals);
    forall k | 0 <= k < |fws|
      ensures FromTable(ws, maxDepth, ignore, fws[k])
    {
      assert fws[k] == Report(StackIndicators[idx[k]], evals[idx[k]]);
    }
  }

  /** What every detected framework carries over from its indicator: the
      `hasUi` flag marks the user-interface identifiers, and no identifier
      is reported twice. */
  lemma DetectedFacts(ws: Workspace, maxDepth: int, ignore: set<string>)
    ensures var fws := DetectIn(ws, StackIndicators, maxDepth, ignore);
      && (forall k :: 0 <= k < |fws| ==> (fws[k].hasUi <==> fws[k].id in UiIds))
      && (forall a, b :: 0 <= a < b < |fws| ==> fws[a].id != fws[b].id)
  {
    var fws := DetectIn(ws, StackIndicators, maxDepth, ignore);
    var evals := Evals(ws, StackIndicators, maxDepth, ignore);
    var idx := KeepExactly(StackIndicators, evals);
    TableUi();
    forall k | 0 <= k < |fws|
      ensures fws[k].hasUi <==> fws[k].id in UiIds
    {
      assert fws[k] == Report(StackIndicators[idx[k]], evals[idx[k]]);
    }
    forall a, b | 0 <= a < b < |fws|
      ensures fws[a].id != fws[b].id
    {
      assert fws[a].id == StackIndicators[idx[a]].id;
      assert fws[b].id == StackIndicators[idx[b]].id;
    }
  }

  /** A docker match list flattened from a list holding at most one docker
      entry is that entry's matches. */
  lemma FlatSingleDocker(fws: seq<FrameworkMatch>, k: nat)
    requires k < |fws| && fws[k].id == "docker"
    requires forall a, b :: 0 <= a < b < |fws| ==> fws[a].id != fws[b].id
    ensures FlatMatches(DockerTargets(fws)) == fws[k].matches
  {
    if k == 0 {
      assert DockerTargets(fws[1..]) == [];
    } else {
      assert fws[1..][k - 1] == fws[k];
      FlatSingleDocker(fws[1..], k - 1);
    }
  }

  /** The docker flag and targets of a scan come from the docker entry. */
  lemma AnalyseDocker(ws: Workspace, maxDepth: int, ignore: set<string>, scannedAt: string)
    ensures var m := Analyse(ws, maxDepth, ignore, scannedAt);
      && (m.hasDocker <==> exists k :: 0 <= k < |m.frameworks| && m.frameworks[k].id == "docker")
      && (forall k :: 0 <= k < |m.frameworks| && m.frameworks[k].id == "docker" ==> m.dockerTargets == m.frameworks[k].matches)
      && (!m.hasDocker ==> m.dockerTargets == [])
  {
    var fws := DetectIn(ws, StackIndicators, maxDepth, ignore);
    var m := Analyse(ws, maxDepth, ignore, scannedAt);
    assert m.frameworks == Infos(fws) && m.dockerTargets == FlatMatches(DockerTargets(fws));
    DetectedFacts(ws, maxDepth, ignore);
    forall k | 0 <= k < |fws| && fws[k].id == "docker"
      ensures m.dockerTargets == fws[k].matches
    {
      FlatSingleDocker(fws, k);
    }
    if m.hasDocker {
      assert DockerTargets(fws)[0] in fws;
    }
  }

  /** A scan reports a user interface exactly when a user-interface
      framework was detected. */
  lemma AnalyseUi(ws: Workspace, maxDepth: int, ignore: set<string>, scannedAt: string)
    ensures var m := Analyse(ws, maxDepth, ignore, scannedAt);
      m.hasUi <==> exists k :: 0 <= k < |m.frameworks| && m.frameworks[k].id in UiIds
  {
    var fws := DetectIn(ws, StackIndicators, maxDepth, ignore);
    var m := Analyse(ws, maxDepth, ignore, scannedAt);
    assert m.frameworks == Infos(fws) && m.hasUi == AnyUi(fws);
    DetectedFacts(ws, maxDepth, ignore);
  }

  /** The fixed fields of a scan, the framework bound and the preset range. */
  lemma AnalyseShape(ws: Workspace, maxDepth: int, ignore: set<string>, scannedAt: string)
    ensures var m := Analyse(ws, maxDepth, ignore, scannedAt);
      && m.version == 1 && m.workspaceRoot == ws.path && m.scannedAt == scannedAt
      && |m.frameworks| <= |StackIndicators|
      && m.recommendedPreset in Presets
      && (forall k :: 0 <= k < |m.frameworks| ==> m.frameworks[k].matches != [])
  {
    var fws := DetectIn(ws, StackIndicators, maxDepth, ignore);
    ChoosePresetKnown(fws, HasDockerOnly(fws), DetectHeadlessFallback(ws, ignore));
  }

  /** The detected frameworks, the monorepo flag and the recommendation are
      those of the detection pass over the table. */
  lemma AnalyseFields(ws: Workspace, maxDepth: int, ignore: set<string>, scannedAt: string)
    ensures var m := Analyse(ws, maxDepth, ignore, scannedAt);
            var fws := DetectIn(ws, StackIndicators, maxDepth, ignore);
            && m.frameworks == Infos(fws)
            && m.isMonorepo == DetectMonorepo(ws)
            && m.recommendedPreset == ChoosePreset(fws, HasDockerOnly(fws), DetectHeadlessFallback(ws, ignore))
  {
  }

  /** `scanWorkspace(root, { maxDepth })` without the clock: the caller
      supplies `scannedAt`. */
  function ScanWorkspace(ws: Workspace, maxDepth: Option<int>, scannedAt: string): (r: Result<Metadata, string>)
    ensures r.Failure? <==> ws.path == ""
    ensures r.Failure? ==> r.error == "No se defini\U{F3} la ruta del workspace."
    ensures r.Success? ==>
      var m := r.value;
      && m.version == 1 && m.workspaceRoot == ws.path && m.scannedAt == scannedAt
      && |m.frameworks| <= |StackIndicators|
      && m.recommendedPreset in Presets
      && (m.hasDocker <==> exists k :: 0 <= k < |m.frameworks| && m.frameworks[k].id == "docker")
      && (m.hasUi <==> exists k :: 0 <= k < |m.frameworks| && m.frameworks[k].id in UiIds)
      && (forall k :: 0 <= k < |m.frameworks| ==> m.frameworks[k].matches != [])
      && (forall k :: 0 <= k < |m.frameworks| && m.frameworks[k].id == "docker" ==> m.dockerTargets == m.frameworks[k].matches)
      && (!m.hasDocker ==> m.dockerTargets == [])
    ensures r.Success? ==> r.value == Analyse(ws, EffectiveMaxDepth(maxDepth), LibraryIgnoreDirs, scannedAt)
  {
    if ws.path == "" then Failure("No se defini\U{F3} la ruta del workspace.")
    else
      var md := EffectiveMaxDepth(maxDepth);
      AnalyseDocker(ws, md, LibraryIgnoreDirs, scannedAt);
      AnalyseUi(ws, md, LibraryIgnoreDirs, scannedAt);
      AnalyseShape(ws, md, LibraryIgnoreDirs, scannedAt);
      Success(Analyse(ws, md, LibraryIgnoreDirs, scannedAt))
  }

  // ---------------------------------------------------------------------
  // The command-line copy

  const Usage: string :=
    "Uso:\n  node agent/scripts/scan_project.mjs [--json]\n\nOpciones:\n  --json    Imprime el JSON completo adem\U{E1}s del resumen.\n  --help    Muestra esta ayuda.\n"

  /** The summary's stand-in for an empty framework list. */
  const NoFrameworks: string := "Sin frameworks espec\U{ED}ficos"

  function Labels(fws: seq<FrameworkInfo>): (r: seq<string>)
    ensures |r| == |fws| && forall k :: 0 <= k < |fws| ==> r[k] == fws[k].displayName
  {
    seq(|fws|, k requires 0 <= k < |fws| => fws[k].displayName)
  }

  /** The labels joined by `, `, or the stand-in when nothing matched. */
  function StackSummary(fws: seq<FrameworkInfo>): string {
    if |fws| > 0 then Text.Join(Labels(fws), ", ") else NoFrameworks
  }

  /** The stand-in is never a real summary: every label of the table differs
      from it within the first two characters. */
  lemma StackSummaryEmptyIff(fws: seq<FrameworkInfo>)
    requires forall k :: 0 <= k < |fws| ==> exists j :: 0 <= j < |StackIndicators| && fws[k].displayName == StackIndicators[j].displayName
    ensures StackSummary(fws) == NoFrameworks <==> fws == []
  {
    if fws != [] {
      var j :| 0 <= j < |StackIndicators| && fws[0].displayName == StackIndicators[j].displayName;
      Text.JoinStartsWithFirst(Labels(fws), ", ");
      LabelNotPlaceholder(j, StackSummary(fws));
    }
  }

  lemma LabelNotPlaceholder(j: nat, s: string)
    requires j < |StackIndicators| && StackIndicators[j].displayName <= s
    ensures s != NoFrameworks
  {
    var first := StackIndicators[j].displayName;
    assert |first| >= 2;
    assert first[0] != 'S' || first[1] != 'i';
    assert s[0] == first[0] && s[1] == first[1];
  }

  function SummaryLines(cwd: string, m: Metadata): seq<string> {
    [ "\U{1F50D} Workspace analizado: " + cwd,
      "\U{1F4E6} Stacks detectados: " + StackSummary(m.frameworks),
      "\U{1F4C1} Tipo: " + (if m.isMonorepo then "Monorepo" else "Proyecto cl\U{E1}sico"),
      "\U{2B50} Preset sugerido: " + m.recommendedPreset ]
  }

  /** What one run of the command prints and writes. `printsJson` stands for
      the full JSON dump after the summary. */
  datatype CliRun = CliRun(exitCode: int, stdout: seq<string>, stderr: seq<string>, written: Option<Metadata>, printsJson: bool)

  /** One run in `cwd` over `tree`; `writeError` is the message of a failed
      metadata write, if it fails. */
  function ScanProjectCli(args: seq<string>, cwd: string, tree: Entry, scannedAt: string, writeError: Option<string>): (r: CliRun)
    ensures ("--help" in args || "-h" in args) ==> r == CliRun(0, [Usage], [], None, false)
    ensures !("--help" in args || "-h" in args) ==>
      (r.exitCode == 1 <==> writeError.Some?) && (r.written.Some? <==> writeError.None?)
    ensures r.written.Some? ==>
      r.written.value == Analyse(Workspace(cwd, tree), DefaultMaxDepth, CliIgnoreDirs, scannedAt)
      && |r.stdout| == 4 && r.stderr == [] && (r.printsJson <==> "--json" in args)
  {
    if "--help" in args || "-h" in args then CliRun(0, [Usage], [], None, false)
    else
      var m := Analyse(Workspace(cwd, tree), DefaultMaxDepth, CliIgnoreDirs, scannedAt);
      match writeError
      case Some(msg) => CliRun(1, [], ["No se pudo escanear el proyecto: " + msg], None, false)
      case None => CliRun(0, SummaryLines(cwd, m), [], Some(m), "--json" in args)
  }

  /** The command line's summary shows the stand-in exactly when no
      framework was detected. */
  lemma CliSummaryPlaceholder(cwd: string, tree: Entry, scannedAt: string)
    ensures var m := Analyse(Workspace(cwd, tree), DefaultMaxDepth, CliIgnoreDirs, scannedAt);
      StackSummary(m.frameworks) == NoFrameworks <==> m.frameworks == []
  {
    var ws := Workspace(cwd, tree);
    var fws := DetectIn(ws, StackIndicators, DefaultMaxDepth, CliIgnoreDirs);
    var m := Analyse(ws, DefaultMaxDepth, CliIgnoreDirs, scannedAt);
    assert m.frameworks == Infos(fws);
    DetectedFromTable(ws, DefaultMaxDepth, CliIgnoreDirs);
    forall k | 0 <= k < |m.frameworks|
      ensures exists j :: 0 <= j < |StackIndicators| && m.frameworks[k].displayName == StackIndicators[j].displayName
    {
      assert FromTable(ws, DefaultMaxDepth, CliIgnoreDirs, fws[k]);
    }
    StackSummaryEmptyIff(m.frameworks);
  }

  /** Whatever the command line searches for, it never reports a file under
      the automation directory or any other ignored one, nor deeper than the
      default bound. */
  lemma CliSearchSkipsIgnored(cwd: string, tree: Entry, fileName: string)
    ensures forall x :: x in FindFiles(Workspace(cwd, tree), fileName, DefaultMaxDepth, CliIgnoreDirs) ==>
      |x| <= DefaultMaxDepth + 1 && forall i :: 0 <= i < |x| - 1 ==> x[i] != "agent" && x[i] !in LibraryIgnoreDirs
  {
    FindFilesFacts(Workspace(cwd, tree), fileName, DefaultMaxDepth, CliIgnoreDirs);
  }
}
