/** Dependency inspection: whether a manifest declares a dependency in one of
    its dependency buckets, and which manifest file is the first to do so. */
module Dependencies {
  import opened Wrappers
  import opened Json
  import opened FileTree
  import opened Search
  import Text

  /** The buckets `hasDependency` inspects, in order. */
  const Buckets: seq<string> := ["dependencies", "devDependencies", "peerDependencies", "require"]

  /** `manifest[bucket] && manifest[bucket][dependency]` is truthy. */
  predicate DeclaredIn(manifest: Json, bucket: string, dependency: string) {
    var b := Get(manifest, bucket);
    TruthyOpt(b) && TruthyOpt(Get(b.value, dependency))
  }

  /** `buckets.some(...)` */
  function AnyBucket(manifest: Json, buckets: seq<string>, dependency: string): (r: bool)
    ensures r <==> exists i :: 0 <= i < |buckets| && DeclaredIn(manifest, buckets[i], dependency)
  {
    if buckets == [] then false
    else DeclaredIn(manifest, buckets[0], dependency) || AnyBucket(manifest, buckets[1..], dependency)
  }

  /** `hasDependency(manifest, dependency)`: a falsy manifest (a failed read
      is `null`) declares nothing; otherwise one of the four buckets must hold
      the dependency as a key with a truthy value. */
  function HasDependency(manifest: Json, dependency: string): (r: bool)
    ensures r <==> Truthy(manifest) && exists b :: b in Buckets && DeclaredIn(manifest, b, dependency)
    ensures manifest == JNull ==> !r
  {
    Truthy(manifest) && AnyBucket(manifest, Buckets, dependency)
  }

  /** Only keys count: a manifest that mentions the dependency solely as a
      value of an unrelated field does not declare it, while a declaration
      in the peer bucket alone does. */
  lemma KeysNotValues(dependency: string, version: string)
    requires version != ""
    ensures !HasDependency(JObj(map["name" := JStr(dependency)]), dependency)
    ensures HasDependency(JObj(map["peerDependencies" := JObj(map[dependency := JStr(version)])]), dependency)
  {
    var m := JObj(map["peerDependencies" := JObj(map[dependency := JStr(version)])]);
    assert DeclaredIn(m, Buckets[2], dependency);
  }

  /** The path is the first candidate whose manifest declares the
      dependency; `None` means no candidate does. */
  ghost predicate FirstDeclaring(tree: Entry, candidates: seq<Path>, dependency: string, r: Option<Path>) {
    match r
    case None => forall k :: 0 <= k < |candidates| ==> !HasDependency(ReadJson(tree, candidates[k]), dependency)
    case Some(p) =>
      exists k :: 0 <= k < |candidates| && candidates[k] == p
        && HasDependency(ReadJson(tree, p), dependency)
        && forall j :: 0 <= j < k ==> !HasDependency(ReadJson(tree, candidates[j]), dependency)
  }

  /** Some candidate's manifest declares the dependency. */
  predicate SomeDeclares(tree: Entry, candidates: seq<Path>, dependency: string) {
    exists k :: 0 <= k < |candidates| && HasDependency(ReadJson(tree, candidates[k]), dependency)
  }

  /** Something is found exactly when some candidate declares the dependency. */
  lemma FirstDeclaringFound(tree: Entry, candidates: seq<Path>, dependency: string, r: Option<Path>)
    requires FirstDeclaring(tree, candidates, dependency, r)
    ensures r.Some? <==> SomeDeclares(tree, candidates, dependency)
  {
  }

  /** The loop `for (const file of files) { if (pkg && hasDependency(...)) return file; }` */
  function FirstWithDependency(tree: Entry, files: seq<Path>, dependency: string): (r: Option<Path>)
    ensures FirstDeclaring(tree, files, dependency, r)
  {
    if files == [] then None
    else if HasDependency(ReadJson(tree, files[0]), dependency) then Some(files[0])
    else
      var r := FirstWithDependency(tree, files[1..], dependency);
      FirstDeclaringCons(tree, files, dependency, r);
      r
  }

  /** A candidate that does not declare the dependency can be skipped. */
  lemma FirstDeclaringCons(tree: Entry, files: seq<Path>, dependency: string, r: Option<Path>)
    requires files != [] && !HasDependency(ReadJson(tree, files[0]), dependency)
    requires FirstDeclaring(tree, files[1..], dependency, r)
    ensures FirstDeclaring(tree, files, dependency, r)
  {
    if r.Some? {
      var k :| 0 <= k < |files| - 1 && files[1..][k] == r.value
        && HasDependency(ReadJson(tree, r.value), dependency)
        && forall j :: 0 <= j < k ==> !HasDependency(ReadJson(tree, files[1..][j]), dependency);
      assert files[k + 1] == r.value;
      forall j | 0 <= j < k + 1
        ensures !HasDependency(ReadJson(tree, files[j]), dependency)
      {
        if j > 0 { assert files[j] == files[1..][j - 1]; }
      }
    } else {
      forall k | 0 <= k < |files|
        ensures !HasDependency(ReadJson(tree, files[k]), dependency)
      {
        if k > 0 { assert files[k] == files[1..][k - 1]; }
      }
    }
  }

  /** The manifest paths `detectPackageDependency` tries, in order: a deep
      pattern contributes every file the bounded search finds, a direct
      pattern the one root-relative path. */
  function Candidates(ws: Workspace, patterns: seq<string>, maxDepth: int, ignore: set<string>): seq<Path> {
    if patterns == [] then []
    else PatternCandidates(ws, patterns[0], maxDepth, ignore) + Candidates(ws, patterns[1..], maxDepth, ignore)
  }

  function PatternCandidates(ws: Workspace, pattern: string, maxDepth: int, ignore: set<string>): seq<Path> {
    if Text.StartsWith(pattern, DeepPrefix) then FindFiles(ws, pattern[3..], maxDepth, ignore)
    else [SplitPath(pattern)]
  }

  lemma FirstDeclaringAppend(tree: Entry, a: seq<Path>, b: seq<Path>, dependency: string, ra: Option<Path>, rb: Option<Path>)
    requires FirstDeclaring(tree, a, dependency, ra)
    requires FirstDeclaring(tree, b, dependency, rb)
    ensures FirstDeclaring(tree, a + b, dependency, if ra.Some? then ra else rb)
  {
    var ab := a + b;
    match ra
    case Some(p) =>
      var k :| 0 <= k < |a| && a[k] == p && HasDependency(ReadJson(tree, p), dependency)
        && forall j :: 0 <= j < k ==> !HasDependency(ReadJson(tree, a[j]), dependency);
      assert ab[k] == p;
      assert forall j :: 0 <= j < k ==> ab[j] == a[j];
    case None =>
      match rb
      case Some(p) =>
        var k :| 0 <= k < |b| && b[k] == p && HasDependency(ReadJson(tree, p), dependency)
          && forall j :: 0 <= j < k ==> !HasDependency(ReadJson(tree, b[j]), dependency);
        assert ab[|a| + k] == p;
        forall j | 0 <= j < |a| + k
          ensures !HasDependency(ReadJson(tree, ab[j]), dependency)
        {
          if j < |a| { assert ab[j] == a[j]; } else { assert ab[j] == b[j - |a|]; }
        }
      case None =>
        forall j | 0 <= j < |ab|
          ensures !HasDependency(ReadJson(tree, ab[j]), dependency)
        {
          if j < |a| { assert ab[j] == a[j]; } else { assert ab[j] == b[j - |a|]; }
        }
  }

  /** `detectPackageDependency(root, dependency, { filePatterns, maxDepth })`:
      the first manifest, in pattern order and search order, that declares the
      dependency. */
  function DetectPackageDependency(ws: Workspace, dependency: string, patterns: seq<string>, maxDepth: int, ignore: set<string>): (r: Option<Path>)
    ensures FirstDeclaring(ws.tree, Candidates(ws, patterns, maxDepth, ignore), dependency, r)
  {
    if patterns == [] then None
    else
      var pattern := patterns[0];
      var hit :=
        if Text.StartsWith(pattern, DeepPrefix) then FirstWithDependency(ws.tree, FindFiles(ws, pattern[3..], maxDepth, ignore), dependency)
        else if HasDependency(ReadJson(ws.tree, SplitPath(pattern)), dependency) then Some(SplitPath(pattern))
        else None;
      var rest := DetectPackageDependency(ws, dependency, patterns[1..], maxDepth, ignore);
      assert FirstDeclaring(ws.tree, PatternCandidates(ws, pattern, maxDepth, ignore), dependency, hit) by {
        if !Text.StartsWith(pattern, DeepPrefix) && hit.Some? {
          assert PatternCandidates(ws, pattern, maxDepth, ignore)[0] == SplitPath(pattern);
        }
      }
      FirstDeclaringAppend(ws.tree, PatternCandidates(ws, pattern, maxDepth, ignore), Candidates(ws, patterns[1..], maxDepth, ignore), dependency, hit, rest);
      if hit.Some? then hit else rest
  }

  /** `detectComposerDependency(root, dependency)`: every `composer.json`
      within the default depth, whatever depth the caller asked for. */
  function DetectComposerDependency(ws: Workspace, dependency: string, ignore: set<string>): (r: Option<Path>)
    ensures FirstDeclaring(ws.tree, FindFiles(ws, "composer.json", DefaultMaxDepth, ignore), dependency, r)
  {
    FirstWithDependency(ws.tree, FindFiles(ws, "composer.json", DefaultMaxDepth, ignore), dependency)
  }
}
