/** The shallow signal detector: root-level existence checks and the root
    manifests only, no depth search. */
module DetectStack {
  import opened Wrappers
  import opened Json
  import opened FileTree
  import opened Search
  import opened Dependencies
  import opened Indicators
  import opened Classifier
  import opened Monorepo
  import opened Scanner
  import Text

  datatype Signals = Signals(
    laravel: bool, angular: bool, ionic: bool, nx: bool, vite: bool,
    nextjs: bool, react: bool, docker: bool, monorepo: bool, headless: bool)

  /** `has(p)`: anything exists at the root-relative path. */
  predicate Has(tree: Entry, p: string) {
    Exists(tree, SplitPath(p))
  }

  function AnyHas(tree: Entry, names: seq<string>): (r: bool)
    ensures r <==> exists i :: 0 <= i < |names| && Has(tree, names[i])
  {
    if names == [] then false else Has(tree, names[0]) || AnyHas(tree, names[1..])
  }

  /** `has(name) ? readJson(name) : null`: the same value `readJson` alone
      would give, since a missing file reads as `null` too. */
  function RootManifest(tree: Entry, name: string): (r: Json)
    ensures r == ReadJson(tree, SplitPath(name))
  {
    if Has(tree, name) then ReadJson(tree, SplitPath(name)) else JNull
  }

  /** The five manifests this detector checks: the scanner's six without
      `nx.json` (pnpm-workspace.yaml, pnpm-workspace.yml, turbo.json,
      lerna.json, workspace.json). */
  const StackManifests: seq<string> := WorkspaceManifests[..3] + WorkspaceManifests[4..]

  const LaravelFiles: seq<string> := ["artisan", "bootstrap/app.php", "composer.json"]

  function AllHave(tree: Entry, names: seq<string>): (r: bool)
    ensures r <==> forall i :: 0 <= i < |names| ==> Has(tree, names[i])
  {
    if names == [] then true
    else
      assert forall i :: 1 <= i < |names| ==> names[i] == names[1..][i - 1];
      Has(tree, names[0]) && AllHave(tree, names[1..])
  }

  /** `laravel`: all three Laravel files exist at the root. */
  function LaravelSignal(tree: Entry): (r: bool)
    ensures r <==> forall i :: 0 <= i < |LaravelFiles| ==> Has(tree, LaravelFiles[i])
  {
    AllHave(tree, LaravelFiles)
  }

  /** `docker`: one of the compose files or a Dockerfile exists at the root. */
  function DockerSignal(tree: Entry): (r: bool)
    ensures r <==> exists i :: 0 <= i < |ComposeFiles| && Has(tree, ComposeFiles[i])
  {
    AnyHas(tree, ComposeFiles)
  }

  /** `monorepo`: one of the five manifests exists at the root, or a
      container directory lists two subdirectories. */
  function MonorepoSignal(tree: Entry): (r: bool)
    ensures r <==> (exists i :: 0 <= i < |StackManifests| && Has(tree, StackManifests[i]))
                   || (exists i :: 0 <= i < |ContainerDirs| && HasMultipleSubdirectories(tree, ContainerDirs[i]))
  {
    AnyHas(tree, StackManifests) || AnyMultiple(tree, ContainerDirs)
  }

  /** `react`: the root package manifest declares `react` or `react-dom`. */
  function ReactSignal(pkg: Json): (r: bool)
    ensures r ==> Truthy(pkg)
    ensures r <==> exists d :: d in {"react", "react-dom"} && HasDependency(pkg, d)
  {
    HasDependency(pkg, "react") || HasDependency(pkg, "react-dom")
  }

  /** The `signals` record, `headless` derived from the others. */
  function DetectSignals(tree: Entry): (s: Signals)
    ensures s.laravel == LaravelSignal(tree) && s.docker == DockerSignal(tree) && s.monorepo == MonorepoSignal(tree)
    ensures s.react == ReactSignal(ReadJson(tree, SplitPath("package.json")))
    ensures s.headless ==> !s.angular && !s.nextjs && !s.react
  {
    var pkg := RootManifest(tree, "package.json");
    var composer := RootManifest(tree, "composer.json");
    var angular := Has(tree, "angular.json") || HasDependency(pkg, "@angular/core");
    var nextjs := HasDependency(pkg, "next");
    var react := ReactSignal(pkg);
    Signals(
      laravel := LaravelSignal(tree),
      angular := angular,
      ionic := Has(tree, "ionic.config.json") || HasDependency(pkg, "@ionic/angular") || HasDependency(pkg, "@ionic/react"),
      nx := Has(tree, "nx.json") || HasDependency(pkg, "nx"),
      vite := HasDependency(pkg, "vite"),
      nextjs := nextjs,
      react := react,
      docker := DockerSignal(tree),
      monorepo := MonorepoSignal(tree),
      headless := !angular && !nextjs && !react && (Truthy(pkg) || Truthy(composer)))
  }

  /** `headless`: none of angular, nextjs and react, and a root
      `package.json` or `composer.json` that was read and parsed. */
  lemma HeadlessSignal(tree: Entry)
    ensures var s := DetectSignals(tree);
            s.headless <==> !s.angular && !s.nextjs && !s.react
                            && (Truthy(ReadJson(tree, SplitPath("package.json"))) || Truthy(ReadJson(tree, SplitPath("composer.json"))))
  {
  }

  /** A headless workspace has a root manifest. */
  lemma HeadlessHasManifest(tree: Entry)
    ensures DetectSignals(tree).headless ==> Has(tree, "package.json") || Has(tree, "composer.json")
  {
    HeadlessSignal(tree);
    ReadMissing(tree, "package.json");
    ReadMissing(tree, "composer.json");
  }

  /** A name that does not exist reads as `null`. */
  lemma ReadMissing(tree: Entry, name: string)
    ensures !Has(tree, name) ==> ReadJson(tree, SplitPath(name)) == JNull
  {
  }

  /** `ionic`: `ionic.config.json` at the root, or the package manifest
      declares `@ionic/angular` or `@ionic/react`. */
  lemma IonicSignal(tree: Entry)
    ensures DetectSignals(tree).ionic <==>
              Has(tree, "ionic.config.json")
              || HasDependency(ReadJson(tree, SplitPath("package.json")), "@ionic/angular")
              || HasDependency(ReadJson(tree, SplitPath("package.json")), "@ionic/react")
  {
  }

  /** The shallow detector's monorepo signal, with `nx.json` added back,
      is exactly the scanner's verdict. */
  lemma MonorepoAgreement(ws: Workspace)
    requires ws.path != ""
    ensures MonorepoSignal(ws.tree) || Has(ws.tree, "nx.json") <==> DetectMonorepo(ws)
  {
    DetectMonorepoByExistence(ws);
    AnyHasWithout(ws.tree, WorkspaceManifests, 3, StackManifests);
    assert WorkspaceManifests[3] == "nx.json";
  }

  /** Some name of a list exists exactly when one of the list without its
      `k`th name exists or the `k`th does. */
  lemma AnyHasWithout(tree: Entry, names: seq<string>, k: nat, rest: seq<string>)
    requires k < |names| && rest == names[..k] + names[k + 1..]
    ensures (exists i :: 0 <= i < |names| && Has(tree, names[i]))
            <==> (exists i :: 0 <= i < |rest| && Has(tree, rest[i])) || Has(tree, names[k])
  {
    if exists i :: 0 <= i < |names| && Has(tree, names[i]) {
      var i :| 0 <= i < |names| && Has(tree, names[i]);
      if i < k {
        assert rest[i] == names[i];
      } else if i > k {
        assert rest[i - 1] == names[i];
      }
    }
    if exists i :: 0 <= i < |rest| && Has(tree, rest[i]) {
      var i :| 0 <= i < |rest| && Has(tree, rest[i]);
      if i < k {
        assert rest[i] == names[i];
      } else {
        assert rest[i] == names[i + 1];
      }
    }
  }

  lemma ComposeFilesPlain()
    ensures forall i :: 0 <= i < |ComposeFiles| ==> PlainName(ComposeFiles[i])
  {
    forall i | 0 <= i < |ComposeFiles|
      ensures PlainName(ComposeFiles[i])
    {
      var m := ComposeFiles[i];
      assert forall k :: 0 <= k < |m| ==> m[k] != '\\';
    }
  }

  /** A root file every scanner pattern of that name also sees. */
  lemma PlainRootMatch(ws: Workspace, name: string, maxDepth: int, ignore: set<string>)
    requires ws.path != "" && Has(ws.tree, name)
    requires name != "" && name[0] != '*' && forall k :: 0 <= k < |name| ==> name[k] != '\\'
    ensures PathMatchesPattern(ws, name, maxDepth, ignore)
  {
    PlainPatternIsExistence(ws, name, maxDepth, ignore);
  }

  /** A file matcher at the head of a matcher list fires as soon as one of
      its patterns matches. */
  lemma HeadPatternFires(ws: Workspace, ms: seq<Matcher>, i: nat, maxDepth: int, ignore: set<string>)
    requires ms != [] && ms[0].FileMatcher? && i < |ms[0].patterns|
    requires PathMatchesPattern(ws, ms[0].patterns[i], maxDepth, ignore)
    ensures EvalMatchers(ws, ms, maxDepth, ignore) != []
  {
    assert EvalMatcher(ws, ms[0], maxDepth, ignore) != [];
  }

  /** The docker indicator's file matcher lists the compose files first. */
  lemma DockerPatterns(i: nat)
    requires i < |ComposeFiles|
    ensures DockerIndicator.matchers != [] && DockerIndicator.matchers[0].FileMatcher?
    ensures i < |DockerIndicator.matchers[0].patterns| && DockerIndicator.matchers[0].patterns[i] == ComposeFiles[i]
  {
  }

  /** A compose file at the root matches its own scanner pattern. */
  lemma ComposeFileMatches(ws: Workspace, i: nat, maxDepth: int, ignore: set<string>)
    requires ws.path != "" && i < |ComposeFiles| && Has(ws.tree, ComposeFiles[i])
    ensures PathMatchesPattern(ws, ComposeFiles[i], maxDepth, ignore)
  {
    ComposeFilesPlain();
    PlainPatternIsExistence(ws, ComposeFiles[i], maxDepth, ignore);
  }

  /** A docker signal means the scanner's docker indicator matches too. */
  lemma DockerAgreement(ws: Workspace, maxDepth: int, ignore: set<string>)
    requires ws.path != "" && DockerSignal(ws.tree)
    ensures EvalMatchers(ws, DockerIndicator.matchers, maxDepth, ignore) != []
  {
    var i :| 0 <= i < |ComposeFiles| && Has(ws.tree, ComposeFiles[i]);
    ComposeFileMatches(ws, i, maxDepth, ignore);
    DockerPatterns(i);
    HeadPatternFires(ws, DockerIndicator.matchers, i, maxDepth, ignore);
  }

  /** A laravel signal means the scanner's laravel indicator matches too. */
  lemma LaravelAgreement(ws: Workspace, maxDepth: int, ignore: set<string>)
    requires ws.path != "" && LaravelSignal(ws.tree)
    ensures EvalMatchers(ws, LaravelIndicator.matchers, maxDepth, ignore) != []
  {
    var name := LaravelFiles[0];
    assert Has(ws.tree, name);
    assert forall k :: 0 <= k < |name| ==> name[k] != '\\';
    PlainRootMatch(ws, name, maxDepth, ignore);
    var patterns := LaravelIndicator.matchers[0].patterns;
    assert patterns[0] == name;
    assert EvalMatchers(ws, LaravelIndicator.matchers, maxDepth, ignore)
      == EvalFilePatterns(ws, patterns, maxDepth, ignore) + EvalMatchers(ws, LaravelIndicator.matchers[1..], maxDepth, ignore);
  }

  /** A root `package.json` declaring `react` makes the scanner's React
      indicator match through its dependency matcher. */
  lemma ReactAgreement(ws: Workspace, maxDepth: int, ignore: set<string>)
    requires HasDependency(ReadJson(ws.tree, SplitPath("package.json")), "react")
    ensures EvalMatchers(ws, ReactIndicator.matchers, maxDepth, ignore) != []
  {
    var m := ReactIndicator.matchers[0];
    assert m == PackageDependency("react", ["package.json", Deep("package.json")]);
    var name := "package.json";
    assert !Text.StartsWith(name, DeepPrefix) by { assert name[..3][0] == 'p'; }
    assert PatternCandidates(ws, name, maxDepth, ignore) == [SplitPath(name)];
    assert Candidates(ws, m.filePatterns, maxDepth, ignore)[0] == SplitPath(name);
    assert EvalMatcher(ws, m, maxDepth, ignore) != [];
    assert EvalMatchers(ws, ReactIndicator.matchers, maxDepth, ignore)
      == EvalMatcher(ws, m, maxDepth, ignore) + EvalMatchers(ws, ReactIndicator.matchers[1..], maxDepth, ignore);
  }

  /** A headless signal means the scanner's headless fallback holds too. */
  lemma HeadlessAgreement(ws: Workspace, ignore: set<string>)
    requires ws.path != "" && DetectSignals(ws.tree).headless
    ensures DetectHeadlessFallback(ws, ignore)
  {
    var tree := ws.tree;
    if Truthy(ReadJson(tree, SplitPath("package.json"))) {
      assert Exists(tree, SplitPath("package.json"));
    } else {
      assert Exists(tree, SplitPath("composer.json"));
    }
  }
}
