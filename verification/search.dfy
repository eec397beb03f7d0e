/** The depth-bounded breadth-first search for a file name
    (`findFilesByName`). The search starts at the root at depth 0, skips
    directories whose listing throws, enqueues a sub-directory only when its
    name is outside the ignore set and its depth stays within `maxDepth`, and
    collects every regular file whose name is exactly `fileName`.

    `Bfs` is the search as a recursive function over the queue;
    `FindFilesByName` is the queue loop of the source, proved to compute the
    same list; `Match` says declaratively which paths the search must find. */
module Search {
  import opened FileTree

  type Path = seq<string>

  /** Directory names the library search never enters. */
  const LibraryIgnoreDirs: set<string> :=
    {".git", ".hg", ".svn", ".next", ".turbo", "dist", "build", "coverage",
     "node_modules", "vendor", ".output"}

  /** The command-line copy also skips the automation output directory. */
  const CliIgnoreDirs: set<string> := LibraryIgnoreDirs + {"agent"}

  const DefaultMaxDepth: int := 3

  /** A queued directory: where it is, what it holds, how deep it is. */
  datatype Item = Item(path: Path, node: Entry, depth: int)

  /** What reading one directory adds: matching files and queued directories. */
  datatype Expansion = Expansion(files: seq<Path>, dirs: seq<Item>)

  function Concat(a: Expansion, b: Expansion): Expansion {
    Expansion(a.files + b.files, a.dirs + b.dirs)
  }

  /** One entry of a listing of the directory at `path`, at `depth`. */
  function ScanEntry(path: Path, c: Entry, depth: int, fileName: string, maxDepth: int, ignore: set<string>): Expansion {
    if c.Dir? then
      if c.name !in ignore && depth + 1 <= maxDepth then Expansion([], [Item(path + [c.name], c, depth + 1)])
      else Expansion([], [])
    else if c.File? && c.name == fileName then Expansion([path + [c.name]], [])
    else Expansion([], [])
  }

  function ScanEntries(path: Path, cs: seq<Entry>, depth: int, fileName: string, maxDepth: int, ignore: set<string>): Expansion {
    if cs == [] then Expansion([], [])
    else Concat(ScanEntry(path, cs[0], depth, fileName, maxDepth, ignore),
                ScanEntries(path, cs[1..], depth, fileName, maxDepth, ignore))
  }

  /** Processing one dequeued item: too deep or unreadable gives nothing. */
  function Expand(it: Item, fileName: string, maxDepth: int, ignore: set<string>): Expansion {
    if it.depth > maxDepth then Expansion([], [])
    else match it.node
      case Dir(_, readable, cs) =>
        if readable then ScanEntries(it.path, cs, it.depth, fileName, maxDepth, ignore) else Expansion([], [])
      case _ => Expansion([], [])
  }

  function QueueSize(q: seq<Item>): nat {
    if q == [] then 0 else Size(q[0].node) + QueueSize(q[1..])
  }

  lemma QueueSizeAppend(a: seq<Item>, b: seq<Item>)
    ensures QueueSize(a + b) == QueueSize(a) + QueueSize(b)
  {
    if a == [] {
      assert a + b == b;
    } else {
      assert (a + b)[1..] == a[1..] + b;
      QueueSizeAppend(a[1..], b);
    }
  }

  lemma ScanEntriesSmaller(path: Path, cs: seq<Entry>, depth: int, fileName: string, maxDepth: int, ignore: set<string>)
    ensures QueueSize(ScanEntries(path, cs, depth, fileName, maxDepth, ignore).dirs) <= SizeAll(cs)
  {
    if cs != [] {
      var one := ScanEntry(path, cs[0], depth, fileName, maxDepth, ignore);
      var rest := ScanEntries(path, cs[1..], depth, fileName, maxDepth, ignore);
      ScanEntriesSmaller(path, cs[1..], depth, fileName, maxDepth, ignore);
      QueueSizeAppend(one.dirs, rest.dirs);
    }
  }

  lemma ExpandSmaller(it: Item, fileName: string, maxDepth: int, ignore: set<string>)
    ensures QueueSize(Expand(it, fileName, maxDepth, ignore).dirs) < Size(it.node)
  {
    if it.depth <= maxDepth && it.node.Dir? && it.node.readable {
      ScanEntriesSmaller(it.path, it.node.children, it.depth, fileName, maxDepth, ignore);
    }
  }

  /** The search as a function of its queue: the files of the head, then
      the search of the rest with the head's sub-directories appended. */
  function Bfs(queue: seq<Item>, fileName: string, maxDepth: int, ignore: set<string>): seq<Path>
    decreases QueueSize(queue)
  {
    if queue == [] then []
    else
      var x := Expand(queue[0], fileName, maxDepth, ignore);
      ExpandSmaller(queue[0], fileName, maxDepth, ignore);
      QueueSizeAppend(queue[1..], x.dirs);
      x.files + Bfs(queue[1..] + x.dirs, fileName, maxDepth, ignore)
  }

  /** The prefix that turns a file pattern into a search at any depth. */
  const DeepPrefix: string := "**/"

  /** `**` + `/` + name: the file name searched for at any depth. */
  function Deep(name: string): (r: string)
    ensures |r| == |name| + 3 && r[..3] == DeepPrefix && r[3..] == name
  {
    DeepPrefix + name
  }

  /** `findFilesByName(root, fileName, maxDepth)`: an empty root or file name
      gives no match. */
  function FindFiles(ws: Workspace, fileName: string, maxDepth: int, ignore: set<string>): seq<Path> {
    if ws.path == "" || fileName == "" then []
    else Bfs([Item([], ws.tree, 0)], fileName, maxDepth, ignore)
  }

  /** `p` (relative to `e`) names a regular file called `fileName` that the
      search reaches from `e` with `budget` levels left: every directory on
      the way is readable and, below `e`, not ignored. */
  ghost predicate Match(e: Entry, p: Path, fileName: string, budget: int, ignore: set<string>)
    decreases |p|, 1
  {
    && budget >= 0 && e.Dir? && e.readable && |p| >= 1
    && exists i :: 0 <= i < |e.children| && ChildMatch(e.children[i], p, fileName, budget, ignore)
  }

  ghost predicate ChildMatch(c: Entry, p: Path, fileName: string, budget: int, ignore: set<string>)
    requires |p| >= 1
    decreases |p|, 0
  {
    && c.name == p[0]
    && ((|p| == 1 && c.File? && c.name == fileName)
        || (|p| > 1 && c.Dir? && c.name !in ignore && Match(c, p[1..], fileName, budget - 1, ignore)))
  }

  /** `x` lies under the queued item and is found from it. */
  ghost predicate InItem(it: Item, x: Path, fileName: string, maxDepth: int, ignore: set<string>) {
    && |it.path| <= |x| && x[..|it.path|] == it.path
    && Match(it.node, x[|it.path|..], fileName, maxDepth - it.depth, ignore)
  }

  /** `x` is found from some item of the queue. */
  ghost predicate InQueue(q: seq<Item>, x: Path, fileName: string, maxDepth: int, ignore: set<string>) {
    exists k :: 0 <= k < |q| && InItem(q[k], x, fileName, maxDepth, ignore)
  }

  lemma InQueueCons(q: seq<Item>, x: Path, fileName: string, maxDepth: int, ignore: set<string>)
    requires q != []
    ensures InQueue(q, x, fileName, maxDepth, ignore)
        <==> InItem(q[0], x, fileName, maxDepth, ignore) || InQueue(q[1..], x, fileName, maxDepth, ignore)
  {
    if InQueue(q, x, fileName, maxDepth, ignore) {
      var k :| 0 <= k < |q| && InItem(q[k], x, fileName, maxDepth, ignore);
      if k > 0 {
        assert q[1..][k - 1] == q[k];
      }
    }
    if InQueue(q[1..], x, fileName, maxDepth, ignore) {
      var k :| 0 <= k < |q| - 1 && InItem(q[1..][k], x, fileName, maxDepth, ignore);
      assert q[1..][k] == q[k + 1];
    }
  }

  lemma InQueueAppend(a: seq<Item>, b: seq<Item>, x: Path, fileName: string, maxDepth: int, ignore: set<string>)
    ensures InQueue(a + b, x, fileName, maxDepth, ignore)
        <==> InQueue(a, x, fileName, maxDepth, ignore) || InQueue(b, x, fileName, maxDepth, ignore)
  {
    var ab := a + b;
    if InQueue(ab, x, fileName, maxDepth, ignore) {
      var k :| 0 <= k < |ab| && InItem(ab[k], x, fileName, maxDepth, ignore);
      if k < |a| {
        assert ab[k] == a[k];
      } else {
        assert ab[k] == b[k - |a|];
      }
    }
    if InQueue(a, x, fileName, maxDepth, ignore) {
      var k :| 0 <= k < |a| && InItem(a[k], x, fileName, maxDepth, ignore);
      assert ab[k] == a[k];
    }
    if InQueue(b, x, fileName, maxDepth, ignore) {
      var k :| 0 <= k < |b| && InItem(b[k], x, fileName, maxDepth, ignore);
      assert ab[|a| + k] == b[k];
    }
  }

  ghost predicate Covers(ex: Expansion, x: Path, fileName: string, maxDepth: int, ignore: set<string>) {
    x in ex.files || InQueue(ex.dirs, x, fileName, maxDepth, ignore)
  }

  lemma CoversConcat(a: Expansion, b: Expansion, x: Path, fileName: string, maxDepth: int, ignore: set<string>)
    ensures Covers(Concat(a, b), x, fileName, maxDepth, ignore)
        <==> Covers(a, x, fileName, maxDepth, ignore) || Covers(b, x, fileName, maxDepth, ignore)
  {
    InQueueAppend(a.dirs, b.dirs, x, fileName, maxDepth, ignore);
  }

  /** One listing entry contributes exactly the paths through that child. */
  lemma ScanEntryCorrect(path: Path, c: Entry, depth: int, x: Path, fileName: string, maxDepth: int, ignore: set<string>)
    requires depth <= maxDepth
    ensures Covers(ScanEntry(path, c, depth, fileName, maxDepth, ignore), x, fileName, maxDepth, ignore)
        <==> (|path| < |x| && x[..|path|] == path && ChildMatch(c, x[|path|..], fileName, maxDepth - depth, ignore))
  {
    var ex := ScanEntry(path, c, depth, fileName, maxDepth, ignore);
    var budget := maxDepth - depth;
    if |path| < |x| && x[..|path|] == path {
      var p := x[|path|..];
      assert p[0] == x[|path|];
      assert p[1..] == x[|path| + 1..];
      assert x[..|path| + 1] == path + [x[|path|]];
      if c.Dir? && c.name !in ignore && depth + 1 <= maxDepth {
        var it := Item(path + [c.name], c, depth + 1);
        assert ex.dirs == [it] && ex.files == [];
        if InItem(it, x, fileName, maxDepth, ignore) {
          assert |p| > 1;
          assert x[|path|] == (path + [c.name])[|path|] == c.name;
          assert ChildMatch(c, p, fileName, budget, ignore);
        }
        if ChildMatch(c, p, fileName, budget, ignore) {
          assert |p| > 1 && p[0] == c.name;
          assert InItem(it, x, fileName, maxDepth, ignore);
        }
        assert Covers(ex, x, fileName, maxDepth, ignore) <==> InItem(it, x, fileName, maxDepth, ignore) by {
          if InItem(it, x, fileName, maxDepth, ignore) {
            assert ex.dirs[0] == it;
          }
        }
      } else if c.File? && c.name == fileName {
        assert x == path + [c.name] <==> |p| == 1 && p[0] == c.name by {
          if |p| == 1 && p[0] == c.name {
            assert x == x[..|path|] + p;
          }
        }
      }
    } else {
    }
  }

  lemma {:induction false} ScanEntriesCorrect(path: Path, cs: seq<Entry>, depth: int, x: Path, fileName: string, maxDepth: int, ignore: set<string>)
    requires depth <= maxDepth
    ensures Covers(ScanEntries(path, cs, depth, fileName, maxDepth, ignore), x, fileName, maxDepth, ignore)
        <==> (&& |path| < |x| && x[..|path|] == path
              && exists i :: 0 <= i < |cs| && ChildMatch(cs[i], x[|path|..], fileName, maxDepth - depth, ignore))
  {
    if cs != [] {
      var one := ScanEntry(path, cs[0], depth, fileName, maxDepth, ignore);
      var rest := ScanEntries(path, cs[1..], depth, fileName, maxDepth, ignore);
      CoversConcat(one, rest, x, fileName, maxDepth, ignore);
      ScanEntryCorrect(path, cs[0], depth, x, fileName, maxDepth, ignore);
      ScanEntriesCorrect(path, cs[1..], depth, x, fileName, maxDepth, ignore);
      if |path| < |x| && x[..|path|] == path {
        var p := x[|path|..];
        if exists i :: 0 <= i < |cs| && ChildMatch(cs[i], p, fileName, maxDepth - depth, ignore) {
          var i :| 0 <= i < |cs| && ChildMatch(cs[i], p, fileName, maxDepth - depth, ignore);
          if i > 0 {
            assert cs[1..][i - 1] == cs[i];
          }
        }
        if exists i :: 0 <= i < |cs| - 1 && ChildMatch(cs[1..][i], p, fileName, maxDepth - depth, ignore) {
          var i :| 0 <= i < |cs| - 1 && ChildMatch(cs[1..][i], p, fileName, maxDepth - depth, ignore);
          assert cs[1..][i] == cs[i + 1];
        }
      }
    }
  }

  lemma ExpandCorrect(it: Item, x: Path, fileName: string, maxDepth: int, ignore: set<string>)
    ensures Covers(Expand(it, fileName, maxDepth, ignore), x, fileName, maxDepth, ignore)
        <==> InItem(it, x, fileName, maxDepth, ignore)
  {
    if it.depth <= maxDepth && it.node.Dir? && it.node.readable {
      ScanEntriesCorrect(it.path, it.node.children, it.depth, x, fileName, maxDepth, ignore);
      if |it.path| <= |x| && x[..|it.path|] == it.path && |it.path| == |x| {
        assert x[|it.path|..] == [];
      }
    }
  }

  /** The recursive search finds exactly the paths some queued item leads to. */
  lemma {:induction false} BfsCorrect(queue: seq<Item>, x: Path, fileName: string, maxDepth: int, ignore: set<string>)
    ensures x in Bfs(queue, fileName, maxDepth, ignore) <==> InQueue(queue, x, fileName, maxDepth, ignore)
    decreases QueueSize(queue)
  {
    if queue != [] {
      var e := Expand(queue[0], fileName, maxDepth, ignore);
      var next := queue[1..] + e.dirs;
      ExpandSmaller(queue[0], fileName, maxDepth, ignore);
      QueueSizeAppend(queue[1..], e.dirs);
      BfsCorrect(next, x, fileName, maxDepth, ignore);
      ExpandCorrect(queue[0], x, fileName, maxDepth, ignore);
      InQueueCons(queue, x, fileName, maxDepth, ignore);
      InQueueAppend(queue[1..], e.dirs, x, fileName, maxDepth, ignore);
      assert Bfs(queue, fileName, maxDepth, ignore) == e.files + Bfs(next, fileName, maxDepth, ignore);
    }
  }

  /** Soundness and completeness of the search: a path is returned exactly
      when it names a regular file called `fileName` that is reachable
      through readable, non-ignored directories within `maxDepth`. */
  lemma FindFilesCorrect(ws: Workspace, fileName: string, maxDepth: int, ignore: set<string>, x: Path)
    requires ws.path != "" && fileName != ""
    ensures x in FindFiles(ws, fileName, maxDepth, ignore) <==> Match(ws.tree, x, fileName, maxDepth, ignore)
  {
    var it := Item([], ws.tree, 0);
    BfsCorrect([it], x, fileName, maxDepth, ignore);
    InQueueCons([it], x, fileName, maxDepth, ignore);
    assert [it][1..] == [];
    assert x[..0] == [] && x[0..] == x;
    assert InItem(it, x, fileName, maxDepth, ignore) <==> Match(ws.tree, x, fileName, maxDepth, ignore);
  }

  /** What every found path looks like: it ends in the file name, it is at
      most `maxDepth` directories deep, and it crosses no ignored directory. */
  lemma {:induction false} MatchShape(e: Entry, p: Path, fileName: string, budget: int, ignore: set<string>)
    requires Match(e, p, fileName, budget, ignore)
    ensures 1 <= |p| <= budget + 1
    ensures p[|p| - 1] == fileName
    ensures forall i :: 0 <= i < |p| - 1 ==> p[i] !in ignore
    decreases |p|
  {
    var i :| 0 <= i < |e.children| && ChildMatch(e.children[i], p, fileName, budget, ignore);
    var c := e.children[i];
    if |p| > 1 {
      MatchShape(c, p[1..], fileName, budget - 1, ignore);
      forall j | 0 <= j < |p| - 1
        ensures p[j] !in ignore
      {
        if j > 0 {
          assert p[j] == p[1..][j - 1];
        }
      }
    }
  }

  /** In a real tree no entry name holds `/`, so a deep pattern such as
      `src/App.tsx` can never be found. */
  lemma {:induction false} MatchNameHasNoSlash(e: Entry, p: Path, fileName: string, budget: int, ignore: set<string>)
    requires WellFormed(e)
    requires Match(e, p, fileName, budget, ignore)
    ensures GoodName(fileName)
    decreases |p|
  {
    var i :| 0 <= i < |e.children| && ChildMatch(e.children[i], p, fileName, budget, ignore);
    if |p| > 1 {
      MatchNameHasNoSlash(e.children[i], p[1..], fileName, budget - 1, ignore);
    }
  }

  /** Every path the search returns is an exact match within the depth
      bound, and every such path is returned. */
  lemma FindFilesFacts(ws: Workspace, fileName: string, maxDepth: int, ignore: set<string>)
    ensures ws.path != "" && fileName != "" ==>
      forall x :: x in FindFiles(ws, fileName, maxDepth, ignore) <==> Match(ws.tree, x, fileName, maxDepth, ignore)
    ensures forall x :: x in FindFiles(ws, fileName, maxDepth, ignore) ==>
      |x| >= 1 && x[|x| - 1] == fileName && |x| <= maxDepth + 1 && forall i :: 0 <= i < |x| - 1 ==> x[i] !in ignore
  {
    if ws.path != "" && fileName != "" {
      forall x
        ensures x in FindFiles(ws, fileName, maxDepth, ignore) <==> Match(ws.tree, x, fileName, maxDepth, ignore)
      {
        FindFilesCorrect(ws, fileName, maxDepth, ignore, x);
      }
      forall x | x in FindFiles(ws, fileName, maxDepth, ignore)
        ensures |x| >= 1 && x[|x| - 1] == fileName && |x| <= maxDepth + 1 && forall i :: 0 <= i < |x| - 1 ==> x[i] !in ignore
      {
        FindFilesCorrect(ws, fileName, maxDepth, ignore, x);
        MatchShape(ws.tree, x, fileName, maxDepth, ignore);
      }
    }
  }

  /** The `for (const entry of entries)` pass over one directory listing:
      matching files go to `matches`, eligible sub-directories to `queue`. */
  method ScanListing(path: Path, cs: seq<Entry>, depth: int, fileName: string, maxDepth: int, ignore: set<string>,
                     matches0: seq<Path>, queue0: seq<Item>)
    returns (matches: seq<Path>, queue: seq<Item>)
    ensures matches == matches0 + ScanEntries(path, cs, depth, fileName, maxDepth, ignore).files
    ensures queue == queue0 + ScanEntries(path, cs, depth, fileName, maxDepth, ignore).dirs
  {
    matches, queue := matches0, queue0;
    var j := 0;
    while j < |cs|
      invariant 0 <= j <= |cs|
      invariant matches == matches0 + ScanEntries(path, cs[..j], depth, fileName, maxDepth, ignore).files
      invariant queue == queue0 + ScanEntries(path, cs[..j], depth, fileName, maxDepth, ignore).dirs
    {
      var c := cs[j];
      assert cs[..j + 1] == cs[..j] + [c];
      ExtendScan(matches0, queue0, matches, queue, path, cs[..j], c, depth, fileName, maxDepth, ignore);
      ghost var step := ScanEntry(path, c, depth, fileName, maxDepth, ignore);
      ghost var before := (matches, queue);
      if c.Dir? {
        if c.name !in ignore && depth + 1 <= maxDepth {
          queue := queue + [Item(path + [c.name], c, depth + 1)];
        }
      } else if c.File? && c.name == fileName {
        matches := matches + [path + [c.name]];
      }
      assert matches == before.0 + step.files && queue == before.1 + step.dirs;
      j := j + 1;
    }
    assert cs[..j] == cs;
  }

  /** One more entry of the listing extends both lists by its own share. */
  lemma ExtendScan(matches0: seq<Path>, queue0: seq<Item>, matches: seq<Path>, queue: seq<Item>,
                   path: Path, front: seq<Entry>, c: Entry, depth: int, fileName: string, maxDepth: int, ignore: set<string>)
    requires matches == matches0 + ScanEntries(path, front, depth, fileName, maxDepth, ignore).files
    requires queue == queue0 + ScanEntries(path, front, depth, fileName, maxDepth, ignore).dirs
    ensures matches + ScanEntry(path, c, depth, fileName, maxDepth, ignore).files
            == matches0 + ScanEntries(path, front + [c], depth, fileName, maxDepth, ignore).files
    ensures queue + ScanEntry(path, c, depth, fileName, maxDepth, ignore).dirs
            == queue0 + ScanEntries(path, front + [c], depth, fileName, maxDepth, ignore).dirs
  {
    ScanEntriesSplit(path, front, c, depth, fileName, maxDepth, ignore);
  }

  /** `findFilesByName`: the queue loop of the source. */
  method FindFilesByName(ws: Workspace, fileName: string, maxDepth: int, ignore: set<string>) returns (matches: seq<Path>)
    ensures matches == FindFiles(ws, fileName, maxDepth, ignore)
    ensures ws.path != "" && fileName != "" ==>
      forall x :: x in matches <==> Match(ws.tree, x, fileName, maxDepth, ignore)
    ensures forall x :: x in matches ==> |x| >= 1 && x[|x| - 1] == fileName && |x| <= maxDepth + 1
  {
    if ws.path == "" || fileName == "" {
      FindFilesFacts(ws, fileName, maxDepth, ignore);
      return [];
    }
    matches := RunQueue([Item([], ws.tree, 0)], fileName, maxDepth, ignore);
    FindFilesFacts(ws, fileName, maxDepth, ignore);
  }

  /** The `while (queue.length > 0)` loop, from a given queue. */
  method RunQueue(queue0: seq<Item>, fileName: string, maxDepth: int, ignore: set<string>) returns (matches: seq<Path>)
    ensures matches == Bfs(queue0, fileName, maxDepth, ignore)
  {
    matches := [];
    var queue := queue0;
    while queue != []
      invariant matches + Bfs(queue, fileName, maxDepth, ignore) == Bfs(queue0, fileName, maxDepth, ignore)
      decreases QueueSize(queue)
    {
      var it := queue[0];
      ghost var e := Expand(it, fileName, maxDepth, ignore);
      ghost var next := queue[1..] + e.dirs;
      ghost var m0 := matches;
      BfsStep(queue, fileName, maxDepth, ignore);
      assert (m0 + e.files) + Bfs(next, fileName, maxDepth, ignore) == Bfs(queue0, fileName, maxDepth, ignore);
      queue := queue[1..];
      if it.depth > maxDepth || !(it.node.Dir? && it.node.readable) {
        assert e.files == [] && next == queue;
        assert m0 + e.files == m0;
        continue;
      }
      matches, queue := ScanListing(it.path, it.node.children, it.depth, fileName, maxDepth, ignore, matches, queue);
      assert queue == next && matches == m0 + e.files;
    }
  }

  /** One round of the queue loop: the head's files, then the rest of the
      queue with the head's sub-directories appended, which is smaller. */
  lemma BfsStep(queue: seq<Item>, fileName: string, maxDepth: int, ignore: set<string>)
    requires queue != []
    ensures var e := Expand(queue[0], fileName, maxDepth, ignore);
            && Bfs(queue, fileName, maxDepth, ignore) == e.files + Bfs(queue[1..] + e.dirs, fileName, maxDepth, ignore)
            && QueueSize(queue[1..] + e.dirs) < QueueSize(queue)
  {
    var e := Expand(queue[0], fileName, maxDepth, ignore);
    ExpandSmaller(queue[0], fileName, maxDepth, ignore);
    QueueSizeAppend(queue[1..], e.dirs);
  }

  lemma ScanEntriesSplit(path: Path, front: seq<Entry>, c: Entry, depth: int, fileName: string, maxDepth: int, ignore: set<string>)
    ensures ScanEntries(path, front + [c], depth, fileName, maxDepth, ignore)
         == Concat(ScanEntries(path, front, depth, fileName, maxDepth, ignore), ScanEntry(path, c, depth, fileName, maxDepth, ignore))
  {
    if front == [] {
      assert front + [c] == [c];
    } else {
      assert (front + [c])[1..] == front[1..] + [c];
      ScanEntriesSplit(path, front[1..], c, depth, fileName, maxDepth, ignore);
    }
  }
}
