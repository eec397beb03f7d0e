/** Framework classification: evaluating each indicator's matchers against a
    workspace and reporting the indicators with at least one match. */
module Classifier {
  import opened Wrappers
  import opened FileTree
  import opened Search
  import opened Dependencies
  import opened Indicators
  import Text

  /** `pattern.replace(/\\/g, '/')` */
  function Normalize(pattern: string): string {
    Text.ReplaceChar(pattern, '\\', "/")
  }

  /** Some regular file called `name` is reachable within the bound. */
  ghost predicate FoundAnywhere(ws: Workspace, name: string, maxDepth: int, ignore: set<string>) {
    name != "" && exists x :: Match(ws.tree, x, name, maxDepth, ignore)
  }

  lemma FindFilesNonEmpty(ws: Workspace, name: string, maxDepth: int, ignore: set<string>)
    requires ws.path != ""
    ensures |FindFiles(ws, name, maxDepth, ignore)| > 0 <==> FoundAnywhere(ws, name, maxDepth, ignore)
  {
    FindFilesFacts(ws, name, maxDepth, ignore);
    if |FindFiles(ws, name, maxDepth, ignore)| > 0 {
      assert FindFiles(ws, name, maxDepth, ignore)[0] in FindFiles(ws, name, maxDepth, ignore);
    }
  }

  /** `pathMatchesPattern(root, pattern, { maxDepth })`: a deep pattern (after
      backslashes become slashes) asks the bounded search for its file name;
      any other pattern asks whether anything exists at that path, joined
      from the pattern as written. */
  function PathMatchesPattern(ws: Workspace, pattern: string, maxDepth: int, ignore: set<string>): (r: bool)
    ensures ws.path == "" || pattern == "" ==> !r
    ensures ws.path != "" && pattern != "" && Text.StartsWith(Normalize(pattern), DeepPrefix) ==>
      (r <==> FoundAnywhere(ws, Normalize(pattern)[3..], maxDepth, ignore))
    ensures ws.path != "" && pattern != "" && !Text.StartsWith(Normalize(pattern), DeepPrefix) ==>
      (r <==> Exists(ws.tree, SplitPath(pattern)))
  {
    if ws.path == "" || pattern == "" then false
    else
      var normalized := Normalize(pattern);
      if Text.StartsWith(normalized, DeepPrefix) then
        FindFilesNonEmpty(ws, normalized[3..], maxDepth, ignore);
        |FindFiles(ws, normalized[3..], maxDepth, ignore)| > 0
      else Exists(ws.tree, SplitPath(pattern))
  }

  /** The deep-search prefix only ever looks for a bare file name: in a tree
      whose entry names hold no `/`, a deep pattern whose remainder has one
      (such as the React indicator's `src/App.tsx` variants) never matches. */
  lemma DeepPatternWithSlashNeverMatches(ws: Workspace, rest: string, maxDepth: int, ignore: set<string>)
    requires WellFormed(ws.tree) && '/' in rest
    ensures !PathMatchesPattern(ws, DeepPrefix + rest, maxDepth, ignore)
  {
    var pattern := DeepPrefix + rest;
    if ws.path != "" {
      Text.ReplaceCharAppend(DeepPrefix, rest, '\\', "/");
      var n := Normalize(pattern);
      assert n == DeepPrefix + Normalize(rest);
      assert n[3..] == Normalize(rest);
      if FoundAnywhere(ws, n[3..], maxDepth, ignore) {
        var x :| Match(ws.tree, x, n[3..], maxDepth, ignore);
        MatchNameHasNoSlash(ws.tree, x, n[3..], maxDepth, ignore);
      }
    }
  }

  /** The name a file pattern is reported under: the pattern with the
      deep-search prefix removed. */
  function Reported(pattern: string): string {
    if Text.StartsWith(pattern, DeepPrefix) then pattern[3..] else pattern
  }

  /** `matcher.patterns.forEach(...)`: every matching pattern, in order. */
  function EvalFilePatterns(ws: Workspace, patterns: seq<string>, maxDepth: int, ignore: set<string>): (r: seq<string>)
    ensures |r| <= |patterns|
    ensures r == [] <==> forall i :: 0 <= i < |patterns| ==> !PathMatchesPattern(ws, patterns[i], maxDepth, ignore)
  {
    if patterns == [] then []
    else
      var rest := EvalFilePatterns(ws, patterns[1..], maxDepth, ignore);
      assert forall i :: 1 <= i < |patterns| ==> patterns[i] == patterns[1..][i - 1];
      (if PathMatchesPattern(ws, patterns[0], maxDepth, ignore) then [Reported(patterns[0])] else []) + rest
  }

  /** Each matching pattern is recorded under its reported name, and nothing
      else is. */
  lemma {:induction false} EvalFilePatternsMembers(ws: Workspace, patterns: seq<string>, maxDepth: int, ignore: set<string>, s: string)
    ensures s in EvalFilePatterns(ws, patterns, maxDepth, ignore) <==>
      exists i :: 0 <= i < |patterns| && PathMatchesPattern(ws, patterns[i], maxDepth, ignore) && Reported(patterns[i]) == s
  {
    if patterns != [] {
      EvalFilePatternsMembers(ws, patterns[1..], maxDepth, ignore, s);
      if exists i :: 0 <= i < |patterns| && PathMatchesPattern(ws, patterns[i], maxDepth, ignore) && Reported(patterns[i]) == s {
        var i :| 0 <= i < |patterns| && PathMatchesPattern(ws, patterns[i], maxDepth, ignore) && Reported(patterns[i]) == s;
        if i > 0 {
          assert patterns[1..][i - 1] == patterns[i];
        }
      }
      if s in EvalFilePatterns(ws, patterns[1..], maxDepth, ignore) {
        var j :| 0 <= j < |patterns| - 1 && PathMatchesPattern(ws, patterns[1..][j], maxDepth, ignore) && Reported(patterns[1..][j]) == s;
        assert patterns[j + 1] == patterns[1..][j];
      }
    }
  }

  /** One matcher's contribution to an indicator's matches. */
  function EvalMatcher(ws: Workspace, m: Matcher, maxDepth: int, ignore: set<string>): (r: seq<string>)
    ensures m.PackageDependency? ==>
      (r != [] <==> SomeDeclares(ws.tree, Candidates(ws, m.filePatterns, maxDepth, ignore), m.dependency))
    ensures m.ComposerDependency? ==>
      (r != [] <==> SomeDeclares(ws.tree, FindFiles(ws, "composer.json", DefaultMaxDepth, ignore), m.dependency))
    ensures !m.FileMatcher? ==> |r| <= 1
  {
    match m
    case FileMatcher(patterns) => EvalFilePatterns(ws, patterns, maxDepth, ignore)
    case PackageDependency(dependency, filePatterns) =>
      PackageFound(ws, dependency, filePatterns, maxDepth, ignore);
      Relative(DetectPackageDependency(ws, dependency, filePatterns, maxDepth, ignore))
    case ComposerDependency(dependency) =>
      ComposerFound(ws, dependency, ignore);
      Relative(DetectComposerDependency(ws, dependency, ignore))
  }

  lemma PackageFound(ws: Workspace, dependency: string, patterns: seq<string>, maxDepth: int, ignore: set<string>)
    ensures DetectPackageDependency(ws, dependency, patterns, maxDepth, ignore).Some? <==>
            SomeDeclares(ws.tree, Candidates(ws, patterns, maxDepth, ignore), dependency)
  {
    FirstDeclaringFound(ws.tree, Candidates(ws, patterns, maxDepth, ignore), dependency,
                        DetectPackageDependency(ws, dependency, patterns, maxDepth, ignore));
  }

  lemma ComposerFound(ws: Workspace, dependency: string, ignore: set<string>)
    ensures DetectComposerDependency(ws, dependency, ignore).Some? <==>
            SomeDeclares(ws.tree, FindFiles(ws, "composer.json", DefaultMaxDepth, ignore), dependency)
  {
    FirstDeclaringFound(ws.tree, FindFiles(ws, "composer.json", DefaultMaxDepth, ignore), dependency,
                        DetectComposerDependency(ws, dependency, ignore));
  }

  /** `path.relative(root, file)` of a found manifest, if any. */
  function Relative(found: Option<Path>): (r: seq<string>)
    ensures |r| <= 1 && (r == [] <==> found.None?)
  {
    match found
    case Some(p) => [JoinPath(p)]
    case None => []
  }

  /** `indicator.matchers.forEach(...)`: every matcher is evaluated, none
      short-circuits the others. */
  function EvalMatchers(ws: Workspace, ms: seq<Matcher>, maxDepth: int, ignore: set<string>): seq<string> {
    if ms == [] then [] else EvalMatcher(ws, ms[0], maxDepth, ignore) + EvalMatchers(ws, ms[1..], maxDepth, ignore)
  }

  lemma {:induction false} EvalMatchersAppend(ws: Workspace, a: seq<Matcher>, b: seq<Matcher>, maxDepth: int, ignore: set<string>)
    ensures EvalMatchers(ws, a + b, maxDepth, ignore) == EvalMatchers(ws, a, maxDepth, ignore) + EvalMatchers(ws, b, maxDepth, ignore)
  {
    if a == [] {
      assert a + b == b;
    } else {
      assert (a + b)[0] == a[0] && (a + b)[1..] == a[1..] + b;
      EvalMatchersAppend(ws, a[1..], b, maxDepth, ignore);
    }
  }

  /** An indicator's matches are empty exactly when none of its matchers
      contributes anything. */
  lemma {:induction false} EvalMatchersEmpty(ws: Workspace, ms: seq<Matcher>, maxDepth: int, ignore: set<string>)
    ensures EvalMatchers(ws, ms, maxDepth, ignore) == [] <==> forall i :: 0 <= i < |ms| ==> EvalMatcher(ws, ms[i], maxDepth, ignore) == []
  {
    if ms != [] {
      EvalMatchersEmpty(ws, ms[1..], maxDepth, ignore);
      assert forall i :: 1 <= i < |ms| ==> ms[i] == ms[1..][i - 1];
    }
  }

  /** An entry of `detectFrameworks`' result, `hasUi` included. */
  datatype FrameworkMatch = FrameworkMatch(id: string, displayName: string, preset: string, hasUi: bool, matches: seq<string>)

  function Report(ind: Indicator, matches: seq<string>): FrameworkMatch {
    FrameworkMatch(ind.id, ind.displayName, ind.preset, ind.ui, matches)
  }

  /** Each indicator's matches, table order. */
  function Evals(ws: Workspace, table: seq<Indicator>, maxDepth: int, ignore: set<string>): (r: seq<seq<string>>)
    ensures |r| == |table|
    ensures forall i :: 0 <= i < |table| ==> r[i] == EvalMatchers(ws, table[i].matchers, maxDepth, ignore)
  {
    seq(|table|, i requires 0 <= i < |table| => EvalMatchers(ws, table[i].matchers, maxDepth, ignore))
  }

  /** `if (info.matches.length) frameworks.push(info)` over the table. */
  function Keep(table: seq<Indicator>, matches: seq<seq<string>>): (r: seq<FrameworkMatch>)
    requires |matches| == |table|
    ensures |r| <= |table|
    ensures forall k :: 0 <= k < |r| ==> r[k].matches != []
  {
    if table == [] then []
    else (if matches[0] != [] then [Report(table[0], matches[0])] else []) + Keep(table[1..], matches[1..])
  }

  function DetectIn(ws: Workspace, table: seq<Indicator>, maxDepth: int, ignore: set<string>): (r: seq<FrameworkMatch>)
    ensures |r| <= |table|
    ensures forall k :: 0 <= k < |r| ==> r[k].matches != []
  {
    Keep(table, Evals(ws, table, maxDepth, ignore))
  }

  /** `options.maxDepth || DEFAULT_MAX_DEPTH`: an absent or zero bound means
      the default. */
  function EffectiveMaxDepth(maxDepth: Option<int>): (r: int)
    ensures r != 0
    ensures maxDepth.Some? && maxDepth.value != 0 ==> r == maxDepth.value
  {
    match maxDepth
    case Some(d) => if d != 0 then d else DefaultMaxDepth
    case None => DefaultMaxDepth
  }

  /** `detectFrameworks(root, { maxDepth })` */
  function DetectFrameworks(ws: Workspace, maxDepth: Option<int>, ignore: set<string>): seq<FrameworkMatch> {
    DetectIn(ws, StackIndicators, EffectiveMaxDepth(maxDepth), ignore)
  }

  /** The table positions `Keep` retains. */
  function KeptIndices(matches: seq<seq<string>>): (r: seq<nat>)
    ensures forall k :: 0 <= k < |r| ==> r[k] < |matches|
  {
    if matches == [] then []
    else (if matches[0] != [] then [0] else []) + Shift(KeptIndices(matches[1..]))
  }

  function Shift(xs: seq<nat>): (r: seq<nat>)
    ensures |r| == |xs| && forall k :: 0 <= k < |xs| ==> r[k] == xs[k] + 1
  {
    seq(|xs|, k requires 0 <= k < |xs| => xs[k] + 1)
  }

  lemma {:induction false} KeptIndicesSorted(matches: seq<seq<string>>)
    ensures forall a, b :: 0 <= a < b < |KeptIndices(matches)| ==> KeptIndices(matches)[a] < KeptIndices(matches)[b]
  {
    if matches != [] {
      KeptIndicesSorted(matches[1..]);
    }
  }

  lemma {:induction false} KeptIndicesComplete(matches: seq<seq<string>>, i: nat)
    requires i < |matches|
    ensures i in KeptIndices(matches) <==> matches[i] != []
  {
    var rest := KeptIndices(matches[1..]);
    if i > 0 {
      KeptIndicesComplete(matches[1..], i - 1);
      assert matches[1..][i - 1] == matches[i];
      if i - 1 in rest {
        var k :| 0 <= k < |rest| && rest[k] == i - 1;
        assert Shift(rest)[k] == i;
      }
      assert i in Shift(rest) ==> i - 1 in rest;
    }
  }

  lemma {:induction false} KeepAtKeptIndices(table: seq<Indicator>, matches: seq<seq<string>>)
    requires |matches| == |table|
    ensures |KeptIndices(matches)| == |Keep(table, matches)|
    ensures forall k :: 0 <= k < |KeptIndices(matches)| ==>
      Keep(table, matches)[k] == Report(table[KeptIndices(matches)[k]], matches[KeptIndices(matches)[k]])
  {
    if table != [] {
      KeepAtKeptIndices(table[1..], matches[1..]);
      var rest := KeptIndices(matches[1..]);
      var tail := Keep(table[1..], matches[1..]);
      forall k | 0 <= k < |rest|
        ensures tail[k] == Report(table[rest[k] + 1], matches[rest[k] + 1])
      {
        assert table[1..][rest[k]] == table[rest[k] + 1];
        assert matches[1..][rest[k]] == matches[rest[k] + 1];
      }
      if matches[0] != [] {
        assert KeptIndices(matches) == [0] + Shift(rest);
        assert Keep(table, matches) == [Report(table[0], matches[0])] + tail;
      } else {
        assert KeptIndices(matches) == Shift(rest);
        assert Keep(table, matches) == tail;
      }
    }
  }

  /** The result is the table, in order, restricted to the indicators whose
      matchers found something, each reported with all its matches and the
      indicator's own identity and `ui` flag. */
  lemma KeepExactly(table: seq<Indicator>, matches: seq<seq<string>>) returns (idx: seq<nat>)
    requires |matches| == |table|
    ensures |idx| == |Keep(table, matches)|
    ensures forall a, b :: 0 <= a < b < |idx| ==> idx[a] < idx[b]
    ensures forall k :: 0 <= k < |idx| ==>
      idx[k] < |table| && Keep(table, matches)[k] == Report(table[idx[k]], matches[idx[k]])
    ensures forall i :: 0 <= i < |table| ==> (i in idx <==> matches[i] != [])
  {
    idx := KeptIndices(matches);
    KeptIndicesSorted(matches);
    KeepAtKeptIndices(table, matches);
    forall i | 0 <= i < |table|
      ensures i in idx <==> matches[i] != []
    {
      KeptIndicesComplete(matches, i);
    }
  }

  /** With distinct identifiers, an indicator is reported exactly when at
      least one of its matchers matched. */
  lemma ReportedIff(ws: Workspace, table: seq<Indicator>, maxDepth: int, ignore: set<string>, i: nat)
    requires i < |table|
    requires forall a, b :: 0 <= a < b < |table| ==> table[a].id != table[b].id
    ensures (exists k :: 0 <= k < |DetectIn(ws, table, maxDepth, ignore)| && DetectIn(ws, table, maxDepth, ignore)[k].id == table[i].id)
      <==> EvalMatchers(ws, table[i].matchers, maxDepth, ignore) != []
  {
    var r := DetectIn(ws, table, maxDepth, ignore);
    var idx := KeepExactly(table, Evals(ws, table, maxDepth, ignore));
    if EvalMatchers(ws, table[i].matchers, maxDepth, ignore) != [] {
      var k :| 0 <= k < |idx| && idx[k] == i;
      assert r[k].id == table[i].id;
    } else {
      forall k | 0 <= k < |r|
        ensures r[k].id != table[i].id
      {
      }
    }
  }

  /** A file directly under the root matches both its direct pattern and
      its deep pattern. */
  lemma RootFileMatches(ws: Workspace, name: string, content: Option<Json.Json>, maxDepth: int, ignore: set<string>)
    requires ws.path != "" && maxDepth >= 0
    requires name != "" && name != "." && '/' !in name && '\\' !in name
    requires ws.tree.Dir? && ws.tree.readable && File(name, content) in ws.tree.children
    ensures PathMatchesPattern(ws, name, maxDepth, ignore)
    ensures PathMatchesPattern(ws, Deep(name), maxDepth, ignore)
  {
    var cs := ws.tree.children;
    var i :| 0 <= i < |cs| && cs[i] == File(name, content);
    assert ChildMatch(cs[i], [name], name, maxDepth, ignore);
    assert Match(ws.tree, [name], name, maxDepth, ignore);
    Text.ReplaceCharAppend(DeepPrefix, name, '\\', "/");
    assert Normalize(Deep(name)) == Deep(name);
    Text.SplitNoSeparator(name, '/');
    assert [name][1..] == [];
    assert KeepSegments([name]) == [name];
    assert SplitPath(name) == [name];
    var c := FindChild(cs, name).value;
    assert Lookup(c, [name][1..]) == Some(c);
    assert Lookup(ws.tree, [name]) == Some(c);
  }

  /** A file indicator listing a name and its deep variant reports a file
      found directly under the root twice. */
  lemma FileAtRootReportedTwice(ws: Workspace, name: string, content: Option<Json.Json>, maxDepth: int, ignore: set<string>)
    requires ws.path != "" && maxDepth >= 0
    requires name != "" && name != "." && '/' !in name && '\\' !in name && !Text.StartsWith(name, DeepPrefix)
    requires ws.tree.Dir? && ws.tree.readable && File(name, content) in ws.tree.children
    ensures EvalMatchers(ws, [FileMatcher([name, Deep(name)])], maxDepth, ignore) == [name, name]
  {
    RootFileMatches(ws, name, content, maxDepth, ignore);
    AnywhereAtRoot(ws, name, maxDepth, ignore);
    var ms := [FileMatcher([name, Deep(name)])];
    assert EvalMatchers(ws, ms, maxDepth, ignore) == EvalMatcher(ws, ms[0], maxDepth, ignore) + EvalMatchers(ws, ms[1..], maxDepth, ignore);
  }

  /** An Angular workspace with `angular.json` at its root reports it twice:
      once for the direct pattern and once for the deep one, since the
      search includes the root's own files. */
  lemma AngularAtRoot(ws: Workspace, content: Option<Json.Json>, maxDepth: int, ignore: set<string>)
    requires ws.path != "" && maxDepth >= 0
    requires ws.tree.Dir? && ws.tree.readable && File("angular.json", content) in ws.tree.children
    ensures EvalMatchers(ws, AngularIndicator.matchers, maxDepth, ignore) == ["angular.json", "angular.json"]
  {
    var name := "angular.json";
    assert forall i :: 0 <= i < |name| ==> name[i] != '/' && name[i] != '\\';
    assert name[..3] != DeepPrefix by { assert name[..3][0] != DeepPrefix[0]; }
    FileAtRootReportedTwice(ws, name, content, maxDepth, ignore);
  }

  lemma AnywhereAtRoot(ws: Workspace, name: string, maxDepth: int, ignore: set<string>)
    requires PathMatchesPattern(ws, name, maxDepth, ignore) && PathMatchesPattern(ws, Deep(name), maxDepth, ignore)
    requires !Text.StartsWith(name, DeepPrefix)
    ensures EvalFilePatterns(ws, [name, Deep(name)], maxDepth, ignore) == [name, name]
  {
    var patterns := [name, Deep(name)];
    assert patterns[1..] == [Deep(name)];
    assert Reported(Deep(name)) == name;
    assert EvalFilePatterns(ws, [Deep(name)], maxDepth, ignore) == [name] + EvalFilePatterns(ws, [Deep(name)][1..], maxDepth, ignore);
  }
}
