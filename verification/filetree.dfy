/** The filesystem as an immutable tree. A directory whose `readable` flag is
    false is one whose listing throws (permissions, a concurrent deletion);
    existence checks by path do not list directories and ignore the flag.
    A file carries its parsed JSON content, or `None` when reading or parsing
    it fails. */
module FileTree {
  import opened Wrappers
  import opened Json
  import Text

  datatype Entry =
    | File(name: string, content: Option<Json>)
    | Dir(name: string, readable: bool, children: seq<Entry>)
    | Special(name: string)

  /** A workspace: the root path string the source receives and the tree
      found there. A root that does not exist is an unreadable empty
      directory. */
  datatype Workspace = Workspace(path: string, tree: Entry)

  /** Number of entries in a tree; the search terminates because it falls. */
  function Size(e: Entry): nat {
    match e
    case Dir(_, _, cs) => 1 + SizeAll(cs)
    case _ => 1
  }

  function SizeAll(cs: seq<Entry>): nat {
    if cs == [] then 0 else Size(cs[0]) + SizeAll(cs[1..])
  }

  /** Real directory entries have non-empty names without `/`. */
  predicate WellFormed(e: Entry) {
    match e
    case Dir(_, _, cs) => forall i :: 0 <= i < |cs| ==> GoodName(cs[i].name) && WellFormed(cs[i])
    case _ => true
  }

  predicate GoodName(n: string) {
    n != "" && '/' !in n
  }

  /** The first entry of a listing with the given name. */
  function FindChild(cs: seq<Entry>, n: string): (r: Option<Entry>)
    ensures r.Some? ==> r.value in cs && r.value.name == n
    ensures r.None? <==> forall i :: 0 <= i < |cs| ==> cs[i].name != n
  {
    if cs == [] then None
    else if cs[0].name == n then Some(cs[0])
    else FindChild(cs[1..], n)
  }

  /** The entry reached by following path segments from `e`. */
  function Lookup(e: Entry, segs: seq<string>): Option<Entry>
    decreases |segs|
  {
    if segs == [] then Some(e)
    else if !e.Dir? then None
    else match FindChild(e.children, segs[0])
      case None => None
      case Some(c) => Lookup(c, segs[1..])
  }

  /** `fs.existsSync(path.join(root, ...segs))`: a file, a directory or
      anything else. */
  predicate Exists(e: Entry, segs: seq<string>) {
    Lookup(e, segs).Some?
  }

  /** The segments `path.join` keeps of a relative path: empty and `.`
      segments vanish. */
  function SplitPath(p: string): seq<string> {
    KeepSegments(Text.Split(p, '/'))
  }

  function KeepSegments(parts: seq<string>): seq<string> {
    if parts == [] then []
    else if parts[0] == "" || parts[0] == "." then KeepSegments(parts[1..])
    else [parts[0]] + KeepSegments(parts[1..])
  }

  /** `path.relative(root, ...)` of a path found under the root. */
  function JoinPath(segs: seq<string>): string {
    Text.Join(segs, "/")
  }

  /** `readJson(path)`: the parsed content of the file at `segs`, or `null`
      when it is missing, is a directory, or does not parse. */
  function ReadJson(e: Entry, segs: seq<string>): Json {
    match Lookup(e, segs)
    case Some(File(_, Some(j))) => j
    case _ => JNull
  }
}
