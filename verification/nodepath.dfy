/** POSIX `path.basename` and `path.extname`, and the rule deciding which
    copied template files are made executable. */
module NodePath {
  import Text

  /** The last index of `c` in `s`, or -1. */
  function LastIndex(s: string, c: char): (r: int)
    ensures -1 <= r < |s|
    ensures r == -1 ==> c !in s
    ensures r >= 0 ==> s[r] == c && forall j :: r < j < |s| ==> s[j] != c
  {
    if s == [] then -1
    else if s[|s| - 1] == c then |s| - 1
    else
      var r := LastIndex(s[..|s| - 1], c);
      assert forall j :: 0 <= j < |s| - 1 ==> s[j] == s[..|s| - 1][j];
      r
  }

  /** The path without its trailing slashes. */
  function DropTrailingSlashes(p: string): (r: string)
    ensures |r| <= |p| && r == p[..|r|]
    ensures r == [] || r[|r| - 1] != '/'
  {
    if p == [] || p[|p| - 1] != '/' then p else DropTrailingSlashes(p[..|p| - 1])
  }

  /** `path.basename(p)`: the last segment, trailing slashes ignored. */
  function Basename(p: string): (r: string)
    ensures '/' !in r
    ensures var q := DropTrailingSlashes(p);
            |r| <= |q| && r == q[|q| - |r|..] && (|r| == |q| || q[|q| - |r| - 1] == '/')
  {
    var q := DropTrailingSlashes(p);
    var i := LastIndex(q, '/');
    assert forall j :: i + 1 <= j < |q| ==> q[j] != '/';
    q[i + 1..]
  }

  /** `path.extname` of a base name: from the last dot on, unless that dot
      is the first character or the name is `..`. */
  function ExtOf(base: string): (r: string)
    ensures r == [] || (r[0] == '.' && exists d :: 0 < d < |base| && r == base[d..])
    ensures r != [] ==> '.' !in r[1..]
    ensures r == [] <==> base == ".." || forall d :: 0 < d < |base| ==> base[d] != '.'
  {
    var d := LastIndex(base, '.');
    if d <= 0 || base == ".." then [] else base[d..]
  }

  /** `path.extname(p)` */
  function Extname(p: string): string {
    ExtOf(Basename(p))
  }

  /** `shouldMakeExecutable(filePath)` */
  predicate ShouldMakeExecutable(p: string) {
    var ext := Text.Lower(Extname(p));
    ext == ".sh" || ext == ".mjs" || Basename(p) == "init.sh"
  }

  /** The `init.sh` rule adds nothing: that name already has the `.sh`
      extension. */
  lemma InitShHasShExtension(p: string)
    requires Basename(p) == "init.sh"
    ensures Text.Lower(Extname(p)) == ".sh"
  {
    InitShExt();
  }

  lemma InitShExt()
    ensures Text.Lower(ExtOf("init.sh")) == ".sh"
  {
    LastIndexIs("init.sh", '.', 4);
    assert "init.sh"[4..] == ".sh";
  }

  /** A lower-cased character is a dot only if it was one. */
  lemma LowerDot(c: char)
    ensures Text.LowerChar(c) == '.' <==> c == '.'
  {
  }

  /** The extension, lower-cased, is `suffix` exactly when the lower-cased
      base name ends with `suffix` after at least one more character. */
  lemma ExtIs(base: string, suffix: string)
    requires |suffix| >= 2 && suffix[0] == '.' && '.' !in suffix[1..]
    ensures Text.Lower(ExtOf(base)) == suffix
            <==> |base| > |suffix| && Text.EndsWith(Text.Lower(base), suffix)
  {
    if Text.Lower(ExtOf(base)) == suffix {
      ExtIsOnlyIf(base, suffix);
    }
    if |base| > |suffix| && Text.EndsWith(Text.Lower(base), suffix) {
      ExtIsIf(base, suffix);
    }
  }

  lemma ExtIsOnlyIf(base: string, suffix: string)
    requires Text.Lower(ExtOf(base)) == suffix && suffix != []
    ensures |base| > |suffix| && Text.EndsWith(Text.Lower(base), suffix)
  {
    var n := |suffix|;
    var ext := ExtOf(base);
    var d :| 0 < d < |base| && ext == base[d..];
    assert |base| - d == n;
    Text.LowerSuffix(base, d);
  }

  lemma ExtIsIf(base: string, suffix: string)
    requires |suffix| >= 2 && suffix[0] == '.' && '.' !in suffix[1..]
    requires |base| > |suffix| && Text.EndsWith(Text.Lower(base), suffix)
    ensures Text.Lower(ExtOf(base)) == suffix
  {
    var d := |base| - |suffix|;
    NoDotAfter(base, suffix, d);
    LastIndexIs(base, '.', d);
    assert base != "..";
    Text.LowerSuffix(base, d);
  }

  /** With `suffix` ending the lower-cased `base` at `d`, the dot at `d` is
      the last one in `base`. */
  lemma NoDotAfter(base: string, suffix: string, d: nat)
    requires |suffix| >= 2 && suffix[0] == '.' && '.' !in suffix[1..]
    requires |base| > |suffix| && Text.EndsWith(Text.Lower(base), suffix)
    requires d == |base| - |suffix|
    ensures base[d] == '.'
    ensures forall j :: d < j < |base| ==> base[j] != '.'
  {
    var low := Text.Lower(base);
    assert low[d] == suffix[0];
    LowerDot(base[d]);
    forall j | d < j < |base|
      ensures base[j] != '.'
    {
      assert low[j] == suffix[j - d];
      assert suffix[j - d] == suffix[1..][j - d - 1];
      LowerDot(base[j]);
    }
  }

  lemma LastIndexIs(s: string, c: char, d: nat)
    requires d < |s| && s[d] == c
    requires forall j :: d < j < |s| ==> s[j] != c
    ensures LastIndex(s, c) == d
  {
    var r := LastIndex(s, c);
    assert c in s;
  }

  /** Which files are made executable, stated on the base name alone:
      those whose name, lower-cased, ends in `.sh` or `.mjs` after at least
      one more character. */
  lemma ShouldMakeExecutableIff(p: string)
    ensures ShouldMakeExecutable(p)
            <==> var b := Basename(p);
                 (|b| > 3 && Text.EndsWith(Text.Lower(b), ".sh"))
                 || (|b| > 4 && Text.EndsWith(Text.Lower(b), ".mjs"))
  {
    ExecutableBase(Basename(p));
  }

  /** The executable rule on a base name `b`. */
  lemma ExecutableBase(b: string)
    ensures (Text.Lower(ExtOf(b)) == ".sh" || Text.Lower(ExtOf(b)) == ".mjs" || b == "init.sh")
            <==> (|b| > 3 && Text.EndsWith(Text.Lower(b), ".sh"))
                 || (|b| > 4 && Text.EndsWith(Text.Lower(b), ".mjs"))
  {
    ExtIs(b, ".sh");
    ExtIs(b, ".mjs");
    if b == "init.sh" {
      InitShExt();
    }
  }
}
