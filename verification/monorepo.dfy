/** Monorepo detection: a workspace manifest at the root, or a container
    directory that lists at least two subdirectories. */
module Monorepo {
  import opened Wrappers
  import opened FileTree
  import opened Search
  import opened Classifier
  import Text

  /** Root files that declare a multi-package workspace. */
  const WorkspaceManifests: seq<string> :=
    ["pnpm-workspace.yaml", "pnpm-workspace.yml", "turbo.json", "nx.json", "lerna.json", "workspace.json"]

  /** Directories whose subdirectories are the packages of a monorepo. */
  const ContainerDirs: seq<string> := ["apps", "packages", "services", "modules"]

  /** `entries.filter((entry) => entry.isDirectory()).length` */
  function CountDirs(cs: seq<Entry>): nat {
    if cs == [] then 0 else (if cs[0].Dir? then 1 else 0) + CountDirs(cs[1..])
  }

  /** At least two directories among the entries, as positions. */
  lemma {:induction false} CountDirsAtLeastTwo(cs: seq<Entry>)
    ensures CountDirs(cs) >= 2 <==> exists i, j :: 0 <= i < j < |cs| && cs[i].Dir? && cs[j].Dir?
  {
    if cs != [] {
      CountDirsAtLeastTwo(cs[1..]);
      CountDirsPositive(cs[1..]);
      if CountDirs(cs) >= 2 {
        if cs[0].Dir? {
          var j :| 0 <= j < |cs| - 1 && cs[1..][j].Dir?;
          assert cs[0].Dir? && cs[j + 1].Dir?;
        } else {
          var i, j :| 0 <= i < j < |cs| - 1 && cs[1..][i].Dir? && cs[1..][j].Dir?;
          assert cs[i + 1].Dir? && cs[j + 1].Dir?;
        }
      }
      if exists i, j :: 0 <= i < j < |cs| && cs[i].Dir? && cs[j].Dir? {
        var i, j :| 0 <= i < j < |cs| && cs[i].Dir? && cs[j].Dir?;
        assert cs[1..][j - 1].Dir?;
        if i > 0 {
          assert cs[1..][i - 1].Dir?;
        }
      }
    }
  }

  lemma {:induction false} CountDirsPositive(cs: seq<Entry>)
    ensures CountDirs(cs) >= 1 <==> exists j :: 0 <= j < |cs| && cs[j].Dir?
  {
    if cs != [] {
      CountDirsPositive(cs[1..]);
      if exists j :: 0 <= j < |cs| && cs[j].Dir? {
        var j :| 0 <= j < |cs| && cs[j].Dir?;
        if j > 0 {
          assert cs[1..][j - 1].Dir?;
        }
      }
      if exists j :: 0 <= j < |cs| - 1 && cs[1..][j].Dir? {
        var j :| 0 <= j < |cs| - 1 && cs[1..][j].Dir?;
        assert cs[j + 1].Dir?;
      }
    }
  }

  /** `hasMultipleSubdirectories(root, dir)` and `hasDirWithMultiple(dir)`:
      the path must name a directory whose listing succeeds and holds at
      least two directories; anything else, a failed listing included, is
      `false`. */
  function HasMultipleSubdirectories(tree: Entry, dir: string): (r: bool)
    ensures r <==> var e := Lookup(tree, SplitPath(dir));
      && e.Some? && e.value.Dir? && e.value.readable
      && exists i, j :: 0 <= i < j < |e.value.children| && e.value.children[i].Dir? && e.value.children[j].Dir?
  {
    match Lookup(tree, SplitPath(dir))
    case Some(Dir(_, readable, cs)) =>
      CountDirsAtLeastTwo(cs);
      readable && CountDirs(cs) >= 2
    case _ => false
  }

  /** `detectMonorepo(root)`: the manifest check comes first, then the
      container directories. */
  function DetectMonorepo(ws: Workspace): (r: bool)
    ensures r <==>
      (exists i :: 0 <= i < |WorkspaceManifests| && PathMatchesPattern(ws, WorkspaceManifests[i], 1, LibraryIgnoreDirs))
      || (exists i :: 0 <= i < |ContainerDirs| && HasMultipleSubdirectories(ws.tree, ContainerDirs[i]))
  {
    AnyPatternMatches(ws, WorkspaceManifests) || AnyMultiple(ws.tree, ContainerDirs)
  }

  function AnyPatternMatches(ws: Workspace, names: seq<string>): (r: bool)
    ensures r <==> exists i :: 0 <= i < |names| && PathMatchesPattern(ws, names[i], 1, LibraryIgnoreDirs)
  {
    if names == [] then false
    else PathMatchesPattern(ws, names[0], 1, LibraryIgnoreDirs) || AnyPatternMatches(ws, names[1..])
  }

  function AnyMultiple(tree: Entry, dirs: seq<string>): (r: bool)
    ensures r <==> exists i :: 0 <= i < |dirs| && HasMultipleSubdirectories(tree, dirs[i])
  {
    if dirs == [] then false
    else HasMultipleSubdirectories(tree, dirs[0]) || AnyMultiple(tree, dirs[1..])
  }

  /** A plain relative name: no backslash and no deep-search prefix, so
      matching it is an existence check. */
  predicate PlainName(p: string) {
    p != "" && '\\' !in p && p[0] != '*'
  }

  lemma PlainPatternIsExistence(ws: Workspace, p: string, maxDepth: int, ignore: set<string>)
    requires ws.path != "" && PlainName(p)
    ensures PathMatchesPattern(ws, p, maxDepth, ignore) <==> Exists(ws.tree, SplitPath(p))
  {
    assert Normalize(p) == p;
  }

  lemma ManifestsArePlain()
    ensures forall i :: 0 <= i < |WorkspaceManifests| ==> PlainName(WorkspaceManifests[i])
  {
    forall i | 0 <= i < |WorkspaceManifests|
      ensures PlainName(WorkspaceManifests[i])
    {
      var m := WorkspaceManifests[i];
      assert forall k :: 0 <= k < |m| ==> m[k] != '\\';
    }
  }

  /** In a workspace with a root path, the monorepo verdict is: one of the
      six manifests exists at the root, or a container directory holds two
      subdirectories. */
  lemma DetectMonorepoByExistence(ws: Workspace)
    requires ws.path != ""
    ensures DetectMonorepo(ws) <==>
      (exists i :: 0 <= i < |WorkspaceManifests| && Exists(ws.tree, SplitPath(WorkspaceManifests[i])))
      || (exists i :: 0 <= i < |ContainerDirs| && HasMultipleSubdirectories(ws.tree, ContainerDirs[i]))
  {
    ManifestsArePlain();
    forall i | 0 <= i < |WorkspaceManifests|
      ensures PathMatchesPattern(ws, WorkspaceManifests[i], 1, LibraryIgnoreDirs) <==> Exists(ws.tree, SplitPath(WorkspaceManifests[i]))
    {
      PlainPatternIsExistence(ws, WorkspaceManifests[i], 1, LibraryIgnoreDirs);
    }
  }
}
