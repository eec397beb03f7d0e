/** Clean-up of text blocks taken from snippets and prompts: removing the
    common indentation of a block (`dedent`) and unwrapping a Markdown
    code fence (`stripCodeFence`). Both extensions carry identical copies. */
module TextBlocks {
  import Text

  /** `line.trim().length === 0`, which holds exactly when every character
      is white space (`Text.TrimEmptyIff`). */
  predicate Blank(line: string) {
    Text.AllSpace(line)
  }

  /** `line.match(/^\s*\/)[0].length`: the width of the leading white space. */
  function Indent(line: string): (n: nat)
    ensures n <= |line|
    ensures Text.AllSpace(line[..n])
    ensures n < |line| ==> !Text.IsSpace(line[n])
  {
    if line == [] || !Text.IsSpace(line[0]) then 0
    else
      var n := Indent(line[1..]);
      assert forall i :: 0 <= i < n ==> line[1..][i] == line[i + 1];
      n + 1
  }

  /** The indentations of the non-blank lines, in order. */
  function Indents(lines: seq<string>): (r: seq<nat>)
    ensures forall x :: x in r <==> exists k :: 0 <= k < |lines| && !Blank(lines[k]) && Indent(lines[k]) == x
    ensures (forall k :: 0 <= k < |lines| ==> Blank(lines[k])) ==> r == []
  {
    if lines == [] then []
    else
      var rest := Indents(lines[1..]);
      assert forall k :: 1 <= k < |lines| ==> lines[k] == lines[1..][k - 1];
      if Blank(lines[0]) then rest else [Indent(lines[0])] + rest
  }

  /** `indents.length ? Math.min(...indents) : 0` */
  function MinOf(xs: seq<nat>): (m: nat)
    ensures forall x :: x in xs ==> m <= x
    ensures xs != [] ==> m in xs
    ensures xs == [] ==> m == 0
  {
    if xs == [] then 0
    else if |xs| == 1 then xs[0]
    else
      var m := MinOf(xs[1..]);
      assert forall x :: x in xs ==> x == xs[0] || x in xs[1..];
      if xs[0] <= m then xs[0] else m
  }

  /** `line.slice(m)` */
  function Slice(line: string, m: nat): string {
    if m <= |line| then line[m..] else []
  }

  function SliceAll(lines: seq<string>, m: nat): (r: seq<string>)
    ensures |r| == |lines|
    ensures forall k :: 0 <= k < |lines| ==> r[k] == Slice(lines[k], m)
  {
    if lines == [] then [] else [Slice(lines[0], m)] + SliceAll(lines[1..], m)
  }

  /** The width `dedent` removes from every line. */
  function CommonIndent(lines: seq<string>): nat {
    MinOf(Indents(lines))
  }

  /** `dedent(text)` */
  function Dedent(text: string): string {
    var lines := Text.Split(text, '\n');
    Text.Join(SliceAll(lines, CommonIndent(lines)), "\n")
  }

  /** The common indentation is at most the indentation of every non-blank
      line, equals that of at least one of them, and is 0 when all lines
      are blank. */
  lemma CommonIndentIsMinimum(lines: seq<string>)
    ensures forall k :: 0 <= k < |lines| && !Blank(lines[k]) ==> CommonIndent(lines) <= Indent(lines[k])
    ensures (exists k :: 0 <= k < |lines| && !Blank(lines[k]))
            ==> exists k :: 0 <= k < |lines| && !Blank(lines[k]) && Indent(lines[k]) == CommonIndent(lines)
    ensures (forall k :: 0 <= k < |lines| ==> Blank(lines[k])) ==> CommonIndent(lines) == 0
  {
    var xs := Indents(lines);
    if forall k :: 0 <= k < |lines| ==> Blank(lines[k]) {
    } else {
      var j :| 0 <= j < |lines| && !Blank(lines[j]);
      assert Indent(lines[j]) in xs;
      forall k | 0 <= k < |lines| && !Blank(lines[k])
        ensures CommonIndent(lines) <= Indent(lines[k])
      {
        assert Indent(lines[k]) in xs;
      }
    }
  }

  /** The lines of the result are the sliced input lines. */
  lemma DedentLines(text: string)
    ensures Text.Split(Dedent(text), '\n')
            == SliceAll(Text.Split(text, '\n'), CommonIndent(Text.Split(text, '\n')))
  {
    var lines := Text.Split(text, '\n');
    var out := SliceAll(lines, CommonIndent(lines));
    forall k | 0 <= k < |out|
      ensures '\n' !in out[k]
    {
      assert forall c :: c in out[k] ==> c in lines[k];
    }
    Text.SplitJoin(out, '\n');
  }

  /** `out` is `line` with part of its leading white space removed, blank
      exactly when `line` is; when `line` is not blank, exactly `m`
      characters went and the trimmed content is kept. */
  ghost predicate LineDedented(line: string, out: string, m: nat) {
    && |out| <= |line| && out == line[|line| - |out|..]
    && Text.AllSpace(line[..|line| - |out|])
    && Blank(out) == Blank(line)
    && (!Blank(line) ==> |line| - |out| == m && Text.Trim(out) == Text.Trim(line))
  }

  /** Slicing at most the indentation off a non-blank line, or anything
      off a blank line, dedents it. */
  lemma SliceDedents(line: string, m: nat)
    requires Blank(line) || m <= Indent(line)
    ensures LineDedented(line, Slice(line, m), m)
    ensures !Blank(line) ==> Indent(Slice(line, m)) == Indent(line) - m
  {
    if !Blank(line) {
      SliceNonBlank(line, m);
    } else {
      SliceBlank(line, m);
    }
  }

  lemma SliceNonBlank(line: string, m: nat)
    requires !Blank(line) && m <= Indent(line)
    ensures LineDedented(line, Slice(line, m), m)
    ensures Indent(Slice(line, m)) == Indent(line) - m
  {
    var n := Indent(line);
    var out := line[m..];
    assert Slice(line, m) == out;
    IndentSkip(line, m);
    SkipKeepsTrim(line, m);
    assert |line| - |out| == m;
    assert line[|line| - |out|..] == out;
    assert line[..|line| - |out|] == line[..m];
    IndentOfNonBlank(line);
    assert !Blank(out) by {
      assert out[n - m] == line[n];
    }
    LineDedentedIntro(line, out, m);
  }

  lemma LineDedentedIntro(line: string, out: string, m: nat)
    requires |out| <= |line| && out == line[|line| - |out|..] && |line| - |out| == m
    requires Text.AllSpace(line[..m]) && !Blank(out) && !Blank(line)
    requires Text.Trim(out) == Text.Trim(line)
    ensures LineDedented(line, out, m)
  {
    assert line[..|line| - |out|] == line[..m];
    assert Blank(out) == Blank(line);
  }

  /** A non-blank line has a non-space character right after its
      indentation. */
  lemma IndentOfNonBlank(line: string)
    requires !Blank(line)
    ensures Indent(line) < |line| && !Text.IsSpace(line[Indent(line)])
  {
  }

  lemma SliceBlank(line: string, m: nat)
    requires Blank(line)
    ensures LineDedented(line, Slice(line, m), m)
  {
    var out := Slice(line, m);
    var d := |line| - |out|;
    assert out == line[d..];
    assert forall i :: 0 <= i < d ==> line[..d][i] == line[i];
    assert forall i :: 0 <= i < |out| ==> out[i] == line[d + i];
  }

  lemma {:induction false} IndentSkip(line: string, m: nat)
    requires m <= Indent(line)
    ensures Indent(line[m..]) == Indent(line) - m
  {
    if m == 0 {
      assert line[0..] == line;
    } else {
      assert Text.IsSpace(line[..Indent(line)][0]);
      assert line[m..] == line[1..][m - 1..];
      IndentSkip(line[1..], m - 1);
    }
  }

  /** Every prefix of the indentation is white space. */
  lemma IndentPrefixSpace(line: string, m: nat)
    requires m <= Indent(line)
    ensures Text.AllSpace(line[..m])
  {
    var n := Indent(line);
    forall i | 0 <= i < m
      ensures Text.IsSpace(line[..m][i])
    {
      assert line[..m][i] == line[..n][i];
    }
  }

  lemma SkipKeepsTrim(line: string, m: nat)
    requires m <= Indent(line)
    ensures Text.AllSpace(line[..m])
    ensures Text.Trim(line[m..]) == Text.Trim(line)
  {
    var a, b := line[..m], line[m..];
    IndentPrefixSpace(line, m);
    calc {
      Text.Trim(b);
      Text.TrimEnd(Text.TrimStart(b));
      { Text.TrimStartSkipsSpace(a, b); }
      Text.TrimEnd(Text.TrimStart(a + b));
      { assert a + b == line; }
      Text.Trim(line);
    }
  }

  /** `dedent` keeps the number of lines, dedents every line by the common
      indentation, and leaves at least one non-blank line, if there is
      any, without indentation. */
  lemma DedentSpec(text: string)
    ensures |Text.Split(Dedent(text), '\n')| == |Text.Split(text, '\n')|
    ensures forall k :: 0 <= k < |Text.Split(text, '\n')| ==>
      LineDedented(Text.Split(text, '\n')[k], Text.Split(Dedent(text), '\n')[k], CommonIndent(Text.Split(text, '\n')))
    ensures (exists k :: 0 <= k < |Text.Split(text, '\n')| && !Blank(Text.Split(text, '\n')[k]))
      ==> exists k :: 0 <= k < |Text.Split(text, '\n')| && !Blank(Text.Split(text, '\n')[k])
                      && Indent(Text.Split(Dedent(text), '\n')[k]) == 0
  {
    var lines := Text.Split(text, '\n');
    var m := CommonIndent(lines);
    DedentLines(text);
    CommonIndentIsMinimum(lines);
    var out := Text.Split(Dedent(text), '\n');
    assert out == SliceAll(lines, m);
    forall k | 0 <= k < |lines|
      ensures LineDedented(lines[k], out[k], m)
    {
      SliceDedents(lines[k], m);
    }
    if exists k :: 0 <= k < |lines| && !Blank(lines[k]) {
      var k :| 0 <= k < |lines| && !Blank(lines[k]) && Indent(lines[k]) == m;
      SliceDedents(lines[k], m);
    }
  }

  /** Text whose lines are all blank is returned unchanged. */
  lemma DedentAllBlank(text: string)
    requires forall k :: 0 <= k < |Text.Split(text, '\n')| ==> Blank(Text.Split(text, '\n')[k])
    ensures Dedent(text) == text
  {
    var lines := Text.Split(text, '\n');
    CommonIndentIsMinimum(lines);
    assert SliceAll(lines, 0) == lines;
    Text.JoinSplit(text, '\n');
  }

  /** The result of `dedent` has no common indentation left. */
  lemma DedentedFlush(text: string)
    ensures CommonIndent(Text.Split(Dedent(text), '\n')) == 0
  {
    var lines := Text.Split(text, '\n');
    var out := Text.Split(Dedent(text), '\n');
    DedentSpec(text);
    CommonIndentIsMinimum(out);
    if exists k :: 0 <= k < |out| && !Blank(out[k]) {
      var k :| 0 <= k < |out| && !Blank(out[k]);
      assert LineDedented(lines[k], out[k], CommonIndent(lines));
      var j :| 0 <= j < |lines| && !Blank(lines[j]) && Indent(out[j]) == 0;
      assert LineDedented(lines[j], out[j], CommonIndent(lines));
    }
  }

  /** Dedenting twice is dedenting once. */
  lemma DedentIdempotent(text: string)
    ensures Dedent(Dedent(text)) == Dedent(text)
  {
    var d := Dedent(text);
    var out := Text.Split(d, '\n');
    DedentedFlush(text);
    assert SliceAll(out, 0) == out;
    Text.JoinSplit(d, '\n');
  }

  /** The characters `[a-zA-Z0-9_-]` allowed in a fence's language tag. */
  predicate IsLangChar(c: char) {
    ('a' <= c <= 'z') || ('A' <= c <= 'Z') || ('0' <= c <= '9') || c == '_' || c == '-'
  }

  predicate IsLangTag(lang: string) {
    forall i :: 0 <= i < |lang| ==> IsLangChar(lang[i])
  }

  /** The length of the longest language tag at the start of `s`. */
  function LangRun(s: string): (n: nat)
    ensures n <= |s| && IsLangTag(s[..n])
    ensures n < |s| ==> !IsLangChar(s[n])
  {
    if s == [] || !IsLangChar(s[0]) then 0
    else
      var n := LangRun(s[1..]);
      assert forall i :: 0 <= i < n ==> s[1..][i] == s[i + 1];
      n + 1
  }

  const Ticks: string := "```"

  /** A fenced block: three back-ticks and a language tag on the first
      line, three back-ticks alone at the very end. */
  function Fence(lang: string, body: string): string {
    Ticks + lang + "\n" + body + "\n" + Ticks
  }

  ghost predicate Fenced(block: string) {
    exists lang, body :: IsLangTag(lang) && block == Fence(lang, body)
  }

  predicate IsTicks(s: string, i: int) {
    0 <= i && i + 3 <= |s| && s[i] == '`' && s[i + 1] == '`' && s[i + 2] == '`'
  }

  /** `stripCodeFence(block)`: the anchored match of
      ```` ^```[a-zA-Z0-9_-]*\n([\s\S]*?)\n```$ ````, whose language tag is
      the longest run of tag characters and whose body runs to the closing
      fence at the very end. */
  function StripCodeFence(block: string): string {
    if IsTicks(block, 0) then
      var k := 3 + LangRun(block[3..]);
      if k + 5 <= |block| && block[k] == '\n' && block[|block| - 4] == '\n' && IsTicks(block, |block| - 3)
      then block[k + 1..|block| - 4]
      else block
    else block
  }

  /** A fenced block gives back its body. */
  lemma StripFence(lang: string, body: string)
    requires IsLangTag(lang)
    ensures StripCodeFence(Fence(lang, body)) == body
  {
    var block := Fence(lang, body);
    var n := |lang|;
    assert block[..3] == Ticks;
    assert block[3..] == lang + "\n" + body + "\n" + Ticks;
    assert block[3..][n] == '\n';
    assert forall i :: 0 <= i < n ==> block[3..][i] == lang[i];
    assert LangRun(block[3..]) == n;
    assert block[3 + n] == '\n';
    assert block[|block| - 4..] == "\n" + Ticks;
    assert block[3 + n + 1..|block| - 4] == body;
  }

  /** Anything but a fenced block is returned unchanged. */
  lemma StripOnlyFences(block: string)
    requires StripCodeFence(block) != block
    ensures Fenced(block)
  {
    var n := |block|;
    var k := 3 + LangRun(block[3..]);
    var lang := block[3..k];
    var body := block[k + 1..n - 4];
    assert IsLangTag(lang) by {
      assert lang == block[3..][..k - 3];
    }
    FenceFromParts(block, k);
    assert block == Fence(lang, body);
  }

  /** A block whose fence lines sit where `stripCodeFence` looks for them
      is the fence of its tag and body. */
  lemma FenceFromParts(block: string, k: nat)
    requires IsTicks(block, 0) && 3 <= k && k + 5 <= |block|
    requires block[k] == '\n' && block[|block| - 4] == '\n' && IsTicks(block, |block| - 3)
    ensures block == Fence(block[3..k], block[k + 1..|block| - 4])
  {
    var n := |block|;
    var open, close := block[..k + 1], block[n - 4..];
    assert open == Ticks + block[3..k] + "\n" by {
      assert block[..3] == Ticks;
      assert open == block[..3] + block[3..k] + [block[k]];
    }
    assert close == "\n" + Ticks by {
      assert close == [block[n - 4]] + block[n - 3..];
    }
    Concat3(block, k + 1, n - 4);
  }

  lemma Concat3(s: string, i: nat, j: nat)
    requires i <= j <= |s|
    ensures s == s[..i] + s[i..j] + s[j..]
  {
  }
}
