/** String helpers with the JavaScript semantics the source relies on:
    white space as matched by `\s` and `trim()`, ASCII lower-casing,
    `split`/`join` on a separator, `indexOf`, and decimal rendering. */
module Text {

  /** The characters JavaScript's `\s` and `String.prototype.trim` treat as
      white space or line terminators. */
  predicate IsSpace(c: char) {
    || c == ' ' || c == '\t' || c == '\n' || c == '\r'
    || c == '\U{0B}' || c == '\U{0C}' || c == '\U{A0}' || c == '\U{1680}'
    || ('\U{2000}' <= c <= '\U{200A}')
    || c == '\U{2028}' || c == '\U{2029}' || c == '\U{202F}' || c == '\U{205F}'
    || c == '\U{3000}' || c == '\U{FEFF}'
  }

  predicate AllSpace(s: string) {
    forall i :: 0 <= i < |s| ==> IsSpace(s[i])
  }

  function LowerChar(c: char): char {
    if 'A' <= c <= 'Z' then (c as int + 32) as char else c
  }

  /** `toLowerCase`, restricted to ASCII letters. */
  function Lower(s: string): (r: string)
    ensures |r| == |s|
    ensures forall i :: 0 <= i < |s| ==> r[i] == LowerChar(s[i])
  {
    seq(|s|, i requires 0 <= i < |s| => LowerChar(s[i]))
  }

  lemma LowerIdempotent(s: string)
    ensures Lower(Lower(s)) == Lower(s)
  {
    assert forall i :: 0 <= i < |s| ==> LowerChar(LowerChar(s[i])) == LowerChar(s[i]);
  }

  /** Lower-casing neither creates nor removes white space. */
  lemma LowerCharSpace(c: char)
    ensures IsSpace(LowerChar(c)) == IsSpace(c)
  {
  }

  lemma {:induction false} TrimStartLower(s: string)
    ensures TrimStart(Lower(s)) == Lower(TrimStart(s))
  {
    if s != [] {
      LowerCharSpace(s[0]);
      assert Lower(s)[0] == LowerChar(s[0]);
      if IsSpace(s[0]) {
        calc {
          TrimStart(Lower(s));
          TrimStart(Lower(s)[1..]);
          { assert Lower(s)[1..] == Lower(s[1..]); }
          TrimStart(Lower(s[1..]));
          { TrimStartLower(s[1..]); }
          Lower(TrimStart(s[1..]));
          Lower(TrimStart(s));
        }
      }
    }
  }

  lemma {:induction false} TrimEndLower(s: string)
    ensures TrimEnd(Lower(s)) == Lower(TrimEnd(s))
  {
    if s != [] {
      var n := |s| - 1;
      var low := Lower(s);
      LowerCharSpace(s[n]);
      assert low[n] == LowerChar(s[n]);
      if IsSpace(s[n]) {
        assert low[..n] == Lower(s[..n]);
        TrimEndLower(s[..n]);
        assert TrimEnd(low) == TrimEnd(low[..n]);
        assert TrimEnd(s) == TrimEnd(s[..n]);
      }
    }
  }

  /** Trimming and lower-casing commute. */
  lemma TrimLower(s: string)
    ensures Trim(Lower(s)) == Lower(Trim(s))
  {
    TrimStartLower(s);
    TrimEndLower(TrimStart(s));
  }

  predicate StartsWith(s: string, prefix: string) {
    |prefix| <= |s| && s[..|prefix|] == prefix
  }

  predicate EndsWith(s: string, suffix: string) {
    |suffix| <= |s| && s[|s| - |suffix|..] == suffix
  }

  predicate OccursAt(s: string, t: string, i: int) {
    0 <= i && i + |t| <= |s| && s[i..i + |t|] == t
  }

  /** `s.indexOf(t, from)` for a non-empty `t`: the first occurrence at or
      after `from`, or -1. */
  function IndexOf(s: string, t: string, from: nat): (r: int)
    requires |t| > 0
    ensures r == -1 || (from <= r && OccursAt(s, t, r))
    ensures r == -1 ==> forall i :: from <= i ==> !OccursAt(s, t, i)
    ensures r != -1 ==> forall i :: from <= i < r ==> !OccursAt(s, t, i)
    decreases |s| - from
  {
    if from + |t| > |s| then -1
    else if s[from..from + |t|] == t then from
    else IndexOf(s, t, from + 1)
  }

  /** `s.includes(t)` */
  predicate Contains(s: string, t: string) {
    exists i :: 0 <= i <= |s| && OccursAt(s, t, i)
  }

  function TrimStart(s: string): (r: string)
    ensures |r| <= |s| && r == s[|s| - |r|..]
    ensures r == [] || !IsSpace(r[0])
    ensures AllSpace(s[..|s| - |r|])
  {
    if s == [] || !IsSpace(s[0]) then s
    else
      var r := TrimStart(s[1..]);
      var n := |s| - |r|;
      assert s[1..][n - 1..] == s[n..];
      assert s[..n] == [s[0]] + s[1..][..n - 1];
      r
  }

  function TrimEnd(s: string): (r: string)
    ensures |r| <= |s| && r == s[..|r|]
    ensures r == [] || !IsSpace(r[|r| - 1])
    ensures AllSpace(s[|r|..])
  {
    if s == [] || !IsSpace(s[|s| - 1]) then s else TrimEnd(s[..|s| - 1])
  }

  /** `s.trim()` */
  function Trim(s: string): string {
    TrimEnd(TrimStart(s))
  }

  /** Leading white space does not change what `trimStart` keeps. */
  lemma {:induction false} TrimStartSkipsSpace(a: string, s: string)
    requires AllSpace(a)
    ensures TrimStart(a + s) == TrimStart(s)
  {
    if a == [] {
      assert a + s == s;
    } else {
      calc {
        TrimStart(a + s);
        { assert (a + s)[0] == a[0]; }
        TrimStart((a + s)[1..]);
        { assert (a + s)[1..] == a[1..] + s; }
        TrimStart(a[1..] + s);
        { TrimStartSkipsSpace(a[1..], s); }
        TrimStart(s);
      }
    }
  }

  /** Trailing white space does not change what `trimEnd` keeps. */
  lemma {:induction false} TrimEndSkipsSpace(s: string, b: string)
    requires AllSpace(b)
    ensures TrimEnd(s + b) == TrimEnd(s)
  {
    if b == [] {
      assert s + b == s;
    } else {
      var n := |b| - 1;
      assert (s + b)[|s + b| - 1] == b[n];
      assert (s + b)[..|s + b| - 1] == s + b[..n];
      TrimEndSkipsSpace(s, b[..n]);
    }
  }

  /** Once a non-space character has been reached, `trimStart` keeps
      everything after it. */
  lemma {:induction false} TrimStartAppend(s: string, b: string)
    requires !AllSpace(s)
    ensures TrimStart(s + b) == TrimStart(s) + b
  {
    assert s != [];
    assert (s + b)[0] == s[0];
    if IsSpace(s[0]) {
      assert (s + b)[1..] == s[1..] + b;
      TrimStartAppend(s[1..], b);
    }
  }

  /** `trim()` leaves nothing exactly when the text is all white space. */
  lemma TrimEmptyIff(s: string)
    ensures Trim(s) == [] <==> AllSpace(s)
  {
  }

  /** White space around a text does not change its trimmed form. */
  lemma TrimPadding(a: string, s: string, b: string)
    requires AllSpace(a) && AllSpace(b)
    ensures Trim(a + s + b) == Trim(s)
  {
    if AllSpace(s) {
      AllSpacePadding(a, s, b);
      TrimEmptyIff(a + s + b);
      TrimEmptyIff(s);
    } else {
      TrimStartPadding(a, s, b);
      TrimEndSkipsSpace(TrimStart(s), b);
    }
  }

  lemma AllSpacePadding(a: string, s: string, b: string)
    requires AllSpace(a) && AllSpace(s) && AllSpace(b)
    ensures AllSpace(a + s + b)
  {
  }

  lemma TrimStartPadding(a: string, s: string, b: string)
    requires AllSpace(a) && !AllSpace(s)
    ensures TrimStart(a + s + b) == TrimStart(s) + b
  {
    calc {
      TrimStart(a + s + b);
      { assert a + s + b == a + (s + b); }
      TrimStart(a + (s + b));
      { TrimStartSkipsSpace(a, s + b); }
      TrimStart(s + b);
      { TrimStartAppend(s, b); }
      TrimStart(s) + b;
    }
  }

  /** Lower-casing commutes with taking a suffix. */
  lemma LowerSuffix(s: string, d: nat)
    requires d <= |s|
    ensures Lower(s)[d..] == Lower(s[d..])
  {
    var x, y := Lower(s)[d..], Lower(s[d..]);
    forall i | 0 <= i < |x|
      ensures x[i] == y[i]
    {
      assert x[i] == LowerChar(s[d + i]);
    }
  }

  /** `s.replace(/c/g, rep)` */
  function ReplaceChar(s: string, c: char, rep: string): (r: string)
    ensures c !in rep ==> c !in r
    ensures c !in s ==> r == s
    ensures forall x :: x in s && x != c ==> x in r
    ensures |rep| == 1 ==> |r| == |s|
  {
    if s == [] then []
    else (if s[0] == c then rep else [s[0]]) + ReplaceChar(s[1..], c, rep)
  }

  lemma ReplaceCharAppend(a: string, b: string, c: char, rep: string)
    ensures ReplaceChar(a + b, c, rep) == ReplaceChar(a, c, rep) + ReplaceChar(b, c, rep)
  {
    if a == [] {
      assert a + b == b;
    } else {
      assert (a + b)[0] == a[0];
      assert (a + b)[1..] == a[1..] + b;
      ReplaceCharAppend(a[1..], b, c, rep);
    }
  }

  /** `s.split(c)` for a one-character separator: never empty, and
      `Split("", c) == [""]`. */
  function Split(s: string, c: char): (parts: seq<string>)
    ensures |parts| >= 1
    ensures forall k :: 0 <= k < |parts| ==> c !in parts[k]
  {
    if s == [] then [""]
    else
      var rest := Split(s[1..], c);
      if s[0] == c then [""] + rest
      else [[s[0]] + rest[0]] + rest[1..]
  }

  /** `parts.join(sep)` */
  function Join(parts: seq<string>, sep: string): string {
    if parts == [] then ""
    else if |parts| == 1 then parts[0]
    else parts[0] + sep + Join(parts[1..], sep)
  }

  /** Joining what was split gives back the original text. */
  lemma {:induction false} JoinSplit(s: string, c: char)
    ensures Join(Split(s, c), [c]) == s
  {
    if s != [] {
      var rest := Split(s[1..], c);
      JoinSplit(s[1..], c);
      if s[0] == c {
        assert Split(s, c) == [""] + rest;
        assert ([""] + rest)[1..] == rest;
      } else {
        var parts := [[s[0]] + rest[0]] + rest[1..];
        assert Split(s, c) == parts;
        if |rest| == 1 {
          assert Join(parts, [c]) == [s[0]] + rest[0];
        } else {
          assert parts[1..] == rest[1..];
          assert Join(rest, [c]) == rest[0] + [c] + Join(rest[1..], [c]);
        }
      }
    }
  }

  /** Splitting what was joined gives back the parts, when no part holds
      the separator. */
  lemma {:induction false} SplitJoin(parts: seq<string>, c: char)
    requires |parts| >= 1
    requires forall k :: 0 <= k < |parts| ==> c !in parts[k]
    ensures Split(Join(parts, [c]), c) == parts
  {
    if |parts| == 1 {
      SplitNoSeparator(parts[0], c);
    } else {
      SplitJoin(parts[1..], c);
      SplitAfterSegment(parts[0], Join(parts[1..], [c]), c);
    }
  }

  /** The joined text ends with the last part. */
  lemma {:induction false} JoinEndsWithLast(parts: seq<string>, sep: string)
    requires |parts| >= 1
    ensures EndsWith(Join(parts, sep), parts[|parts| - 1])
  {
    if |parts| > 1 {
      JoinEndsWithLast(parts[1..], sep);
      var rest := Join(parts[1..], sep);
      assert Join(parts, sep) == (parts[0] + sep) + rest;
      assert parts[1..][|parts[1..]| - 1] == parts[|parts| - 1];
      var last := parts[|parts| - 1];
      assert ((parts[0] + sep) + rest)[|(parts[0] + sep) + rest| - |last|..] == rest[|rest| - |last|..];
    }
  }

  /** The joined text begins with the first part. */
  lemma JoinStartsWithFirst(parts: seq<string>, sep: string)
    requires |parts| >= 1
    ensures parts[0] <= Join(parts, sep)
  {
    if |parts| > 1 {
      assert Join(parts, sep) == parts[0] + (sep + Join(parts[1..], sep));
    }
  }

  lemma {:induction false} SplitNoSeparator(a: string, c: char)
    requires c !in a
    ensures Split(a, c) == [a]
  {
    if a != [] {
      SplitNoSeparator(a[1..], c);
      assert [a[0]] + a[1..] == a;
    }
  }

  lemma {:induction false} SplitAfterSegment(a: string, b: string, c: char)
    requires c !in a
    ensures Split(a + [c] + b, c) == [a] + Split(b, c)
  {
    if a == [] {
      assert a + [c] + b == [c] + b;
      assert ([c] + b)[1..] == b;
    } else {
      assert (a + [c] + b)[1..] == a[1..] + [c] + b;
      SplitAfterSegment(a[1..], b, c);
      assert [a[0]] + a[1..] == a;
    }
  }

  function DigitChar(d: nat): char
    requires d < 10
  {
    "0123456789"[d]
  }

  /** Decimal rendering of a natural number, as template literals print it. */
  function NatToString(n: nat): (s: string)
    ensures |s| >= 1
    ensures forall i :: 0 <= i < |s| ==> '0' <= s[i] <= '9'
    decreases n
  {
    if n < 10 then [DigitChar(n)] else NatToString(n / 10) + [DigitChar(n % 10)]
  }

  /** Reads back a decimal rendering. */
  function ParseNat(s: string): nat
    requires forall i :: 0 <= i < |s| ==> '0' <= s[i] <= '9'
  {
    if s == [] then 0
    else ParseNat(s[..|s| - 1]) * 10 + (s[|s| - 1] as int - '0' as int)
  }

  lemma {:induction false} ParseNatToString(n: nat)
    ensures ParseNat(NatToString(n)) == n
    decreases n
  {
    var s := NatToString(n);
    if n < 10 {
      assert s[..0] == [];
    } else {
      ParseNatToString(n / 10);
      assert s[..|s| - 1] == NatToString(n / 10);
    }
  }

  lemma NatToStringInjective(m: nat, n: nat)
    requires NatToString(m) == NatToString(n)
    ensures m == n
  {
    ParseNatToString(m);
    ParseNatToString(n);
  }
}
