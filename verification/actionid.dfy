/** Identifiers for user-defined actions: a title is turned into a slug
    (lower case, runs of anything but `[a-z0-9]` replaced by one `-`, no
    dash at either end, `action` when nothing is left), and a numeric
    suffix is appended until the identifier is not already taken. */
module ActionIds {
  import Text

  predicate IsSlugChar(c: char) {
    ('a' <= c <= 'z') || ('0' <= c <= '9')
  }

  /** No two dashes are adjacent. */
  predicate NoDoubleDash(s: string) {
    forall i, j :: 0 <= i < |s| && j == i + 1 && j < |s| ==> !(s[i] == '-' && s[j] == '-')
  }

  /** A slug: non-empty, made of slug characters and single dashes, with
      no dash at either end. */
  predicate IsSlug(s: string) {
    && s != []
    && (forall i :: 0 <= i < |s| ==> IsSlugChar(s[i]) || s[i] == '-')
    && s[0] != '-' && s[|s| - 1] != '-'
    && NoDoubleDash(s)
  }

  /** The letters and digits of `s`, in order. */
  function Alnum(s: string): (r: string)
    ensures |r| <= |s|
    ensures forall i :: 0 <= i < |r| ==> IsSlugChar(r[i])
  {
    if s == [] then []
    else if IsSlugChar(s[0]) then [s[0]] + Alnum(s[1..])
    else Alnum(s[1..])
  }

  /** Drops the leading run of non-slug characters. */
  function SkipRun(s: string): (r: string)
    ensures |r| <= |s| && r == s[|s| - |r|..]
    ensures r == [] || IsSlugChar(r[0])
    ensures Alnum(r) == Alnum(s)
  {
    if s == [] || IsSlugChar(s[0]) then s else SkipRun(s[1..])
  }

  /** `s.replace(/[^a-z0-9]+/g, '-')` */
  function Collapse(s: string): (r: string)
    ensures forall i :: 0 <= i < |r| ==> IsSlugChar(r[i]) || r[i] == '-'
    ensures NoDoubleDash(r)
    ensures s != [] && IsSlugChar(s[0]) ==> r != [] && r[0] == s[0]
    ensures s == [] <==> r == []
    ensures Alnum(r) == Alnum(s)
    decreases |s|
  {
    if s == [] then []
    else if IsSlugChar(s[0]) then [s[0]] + Collapse(s[1..])
    else
      var rest := SkipRun(s[1..]);
      assert Alnum(s) == Alnum(rest);
      "-" + Collapse(rest)
  }

  /** Drops the leading dashes. */
  function DropLeadingDashes(s: string): (r: string)
    ensures |r| <= |s| && r == s[|s| - |r|..]
    ensures forall i :: 0 <= i < |s| - |r| ==> s[i] == '-'
    ensures r == [] || r[0] != '-'
    ensures Alnum(r) == Alnum(s)
  {
    if s == [] || s[0] != '-' then s else DropLeadingDashes(s[1..])
  }

  /** Drops the trailing dashes. */
  function DropTrailingDashes(s: string): (r: string)
    ensures |r| <= |s| && r == s[..|r|]
    ensures forall i :: |r| <= i < |s| ==> s[i] == '-'
    ensures r == [] || r[|r| - 1] != '-'
    ensures (forall i :: 0 <= i < |s| ==> s[i] == '-') ==> r == []
    ensures Alnum(r) == Alnum(s)
  {
    if s == [] || s[|s| - 1] != '-' then s
    else
      AlnumDropLastDash(s);
      DropTrailingDashes(s[..|s| - 1])
  }

  /** `s.replace(/^-+|-+$/g, '')`: what is left once a run of dashes is
      cut from each end; nothing inside is touched. */
  function StripDashes(s: string): (r: string)
    ensures r == [] || (r[0] != '-' && r[|r| - 1] != '-')
    ensures Alnum(r) == Alnum(s)
  {
    DropTrailingDashes(DropLeadingDashes(s))
  }

  /** Only a run of dashes at each end is removed. */
  lemma StripDashesSplit(s: string)
    ensures exists a, b :: 0 <= a <= b <= |s| && StripDashes(s) == s[a..b]
                          && (forall i :: 0 <= i < a ==> s[i] == '-')
                          && (forall i :: b <= i < |s| ==> s[i] == '-')
  {
    var lead := DropLeadingDashes(s);
    var a := |s| - |lead|;
    var r := DropTrailingDashes(lead);
    var b := a + |r|;
    assert r == s[a..b];
    assert forall i :: b <= i < |s| ==> s[i] == '-' by {
      forall i | b <= i < |s|
        ensures s[i] == '-'
      {
        assert s[i] == lead[i - a];
      }
    }
    assert StripDashes(s) == s[a..b];
  }

  lemma AlnumDropLastDash(s: string)
    requires s != [] && s[|s| - 1] == '-'
    ensures Alnum(s) == Alnum(s[..|s| - 1])
  {
    AlnumAppend(s[..|s| - 1], "-");
    assert s == s[..|s| - 1] + "-";
  }

  lemma {:induction false} AlnumAppend(a: string, b: string)
    ensures Alnum(a + b) == Alnum(a) + Alnum(b)
  {
    if a == [] {
      assert a + b == b;
    } else {
      assert (a + b)[0] == a[0];
      assert (a + b)[1..] == a[1..] + b;
      AlnumAppend(a[1..], b);
    }
  }

  /** The maximal runs of letters and digits in `s`, in order. */
  function Runs(s: string): (r: seq<string>)
    ensures s != [] && IsSlugChar(s[0]) ==> r != []
  {
    if s == [] then []
    else if !IsSlugChar(s[0]) then Runs(s[1..])
    else
      var rest := Runs(s[1..]);
      if |s| > 1 && IsSlugChar(s[1]) then
        assert s[1..][0] == s[1];
        [[s[0]] + rest[0]] + rest[1..]
      else [[s[0]]] + rest
  }

  /** Every run is a non-empty stretch of letters and digits. */
  lemma {:induction false} RunsShape(s: string)
    ensures forall k :: 0 <= k < |Runs(s)| ==> Runs(s)[k] != [] && forall i :: 0 <= i < |Runs(s)[k]| ==> IsSlugChar(Runs(s)[k][i])
  {
    if s != [] {
      RunsShape(s[1..]);
      if IsSlugChar(s[0]) {
        var rest := Runs(s[1..]);
        if |s| > 1 && IsSlugChar(s[1]) {
          assert s[1..][0] == s[1];
          assert forall k :: 1 <= k < |Runs(s)| ==> Runs(s)[k] == rest[k];
          assert forall i :: 1 <= i < |Runs(s)[0]| ==> Runs(s)[0][i] == rest[0][i - 1];
        } else {
          assert forall k :: 1 <= k < |Runs(s)| ==> Runs(s)[k] == rest[k - 1];
        }
      }
    }
  }

  /** There are no runs exactly when no character is a letter or digit. */
  lemma {:induction false} RunsEmpty(s: string)
    ensures Runs(s) == [] <==> forall i :: 0 <= i < |s| ==> !IsSlugChar(s[i])
  {
    if s != [] && !IsSlugChar(s[0]) {
      RunsEmpty(s[1..]);
      assert forall i :: 1 <= i < |s| ==> s[i] == s[1..][i - 1];
    }
  }

  /** A dash for a character that is not a letter or digit, else nothing. */
  function Edge(c: char): string {
    if IsSlugChar(c) then "" else "-"
  }

  /** Skipped characters belong to no run. */
  lemma {:induction false} RunsSkip(s: string)
    ensures Runs(SkipRun(s)) == Runs(s)
  {
    if s != [] && !IsSlugChar(s[0]) {
      RunsSkip(s[1..]);
    }
  }

  /** Extending the first part extends the joined text at the front. */
  lemma JoinExtendFirst(c: char, parts: seq<string>, sep: string)
    requires parts != []
    ensures Text.Join([[c] + parts[0]] + parts[1..], sep) == [c] + Text.Join(parts, sep)
  {
    var ext := [[c] + parts[0]] + parts[1..];
    assert ext[1..] == parts[1..];
    if |parts| > 1 {
      assert Text.Join(ext, sep) == ([c] + parts[0]) + sep + Text.Join(parts[1..], sep);
    }
  }

  /** Where `replace(/[^a-z0-9]+/g, '-')` puts its dashes, stated against
      the runs of `s`. */
  ghost predicate CollapsedByRuns(s: string) {
    && (Runs(s) == [] ==> Collapse(s) == (if s == [] then "" else "-"))
    && (Runs(s) != [] ==> Collapse(s) == Edge(s[0]) + Text.Join(Runs(s), "-") + Edge(s[|s| - 1]))
  }

  /** `replace(/[^a-z0-9]+/g, '-')` places one dash between consecutive
      runs, plus one at each end that is not a letter or digit. */
  lemma {:induction false} CollapseRuns(s: string)
    ensures Runs(s) == [] ==> Collapse(s) == (if s == [] then "" else "-")
    ensures Runs(s) != [] ==> Collapse(s) == Edge(s[0]) + Text.Join(Runs(s), "-") + Edge(s[|s| - 1])
    decreases |s|
  {
    if s == [] {
    } else if IsSlugChar(s[0]) {
      CollapseRuns(s[1..]);
      if |s| > 1 && IsSlugChar(s[1]) {
        CollapseJoinsRun(s);
      } else {
        CollapseEndsRun(s);
      }
    } else {
      var u := SkipRun(s[1..]);
      RunsSkip(s[1..]);
      CollapseRuns(u);
      CollapseSkips(s, u);
    }
  }

  lemma CollapseSlugStep(s: string)
    requires s != [] && IsSlugChar(s[0])
    ensures Collapse(s) == [s[0]] + Collapse(s[1..])
  {
  }

  lemma CollapseOtherStep(s: string)
    requires s != [] && !IsSlugChar(s[0])
    ensures Collapse(s) == "-" + Collapse(SkipRun(s[1..]))
  {
  }

  lemma RunsOtherStep(s: string)
    requires s != [] && !IsSlugChar(s[0])
    ensures Runs(s) == Runs(s[1..])
  {
  }

  lemma RunsContinue(s: string)
    requires |s| > 1 && IsSlugChar(s[0]) && IsSlugChar(s[1])
    ensures Runs(s[1..]) != []
    ensures Runs(s) == [[s[0]] + Runs(s[1..])[0]] + Runs(s[1..])[1..]
  {
    assert s[1..][0] == s[1];
  }

  lemma RunsBreak(s: string)
    requires s != [] && IsSlugChar(s[0]) && (|s| == 1 || !IsSlugChar(s[1]))
    ensures Runs(s) == [[s[0]]] + Runs(s[1..])
  {
  }

  /** Joining a further part in front adds it and one separator. */
  lemma JoinCons(a: string, parts: seq<string>, sep: string)
    requires parts != []
    ensures Text.Join([a] + parts, sep) == a + sep + Text.Join(parts, sep)
  {
    assert ([a] + parts)[1..] == parts;
  }

  lemma LastOfTail(s: string, t: string)
    requires t != [] && |t| <= |s| && t == s[|s| - |t|..]
    ensures t[|t| - 1] == s[|s| - 1]
  {
  }

  /** Two ways of bracketing the same concatenation. */
  lemma Regroup(a: string, b: string, c: string, d: string)
    ensures a + (b + c + d) == (a + b + c) + d
  {
  }

  /** The collapsed form of a text that starts with a letter or digit and
      has runs. */
  lemma CollapsedForm(u: string)
    requires u != [] && IsSlugChar(u[0]) && Runs(u) != []
    requires CollapsedByRuns(u)
    ensures Collapse(u) == "" + Text.Join(Runs(u), "-") + Edge(u[|u| - 1])
  {
  }

  /** A letter or digit followed by another continues the same run. */
  lemma CollapseJoinsRun(s: string)
    requires |s| > 1 && IsSlugChar(s[0]) && IsSlugChar(s[1])
    requires CollapsedByRuns(s[1..])
    ensures CollapsedByRuns(s)
  {
    var t := s[1..];
    RunsContinue(s);
    CollapseSlugStep(s);
    LastOfTail(s, t);
    assert t[0] == s[1];
    CollapsedForm(t);
    JoinExtendFirst(s[0], Runs(t), "-");
    Regroup([s[0]], "", Text.Join(Runs(t), "-"), Edge(s[|s| - 1]));
  }

  /** A letter or digit followed by anything else ends its run. */
  lemma CollapseEndsRun(s: string)
    requires s != [] && IsSlugChar(s[0]) && (|s| == 1 || !IsSlugChar(s[1]))
    requires CollapsedByRuns(s[1..])
    ensures CollapsedByRuns(s)
  {
    var t := s[1..];
    if t == [] {
      assert s == [s[0]];
    } else if Runs(t) == [] {
      RunsEmpty(t);
      LastOfTail(s, t);
      LoneRun(s);
    } else {
      assert t[0] == s[1];
      LastOfTail(s, t);
      RunThenMore(s, Text.Join(Runs(t), "-"), Edge(s[|s| - 1]));
    }
  }

  /** A single run followed only by other characters. */
  lemma LoneRun(s: string)
    requires |s| > 1 && IsSlugChar(s[0]) && !IsSlugChar(s[|s| - 1])
    requires Runs(s[1..]) == [] && Collapse(s[1..]) == "-"
    ensures Collapse(s) == Edge(s[0]) + Text.Join(Runs(s), "-") + Edge(s[|s| - 1])
  {
    LoneRunJoin(s);
    CollapseSlugStep(s);
    LoneRunEdges(s, Text.Join(Runs(s), "-"));
  }

  lemma LoneRunJoin(s: string)
    requires |s| > 1 && IsSlugChar(s[0]) && Runs(s[1..]) == []
    ensures Text.Join(Runs(s), "-") == [s[0]]
  {
    RunsBreak(s);
    assert Runs(s) == [[s[0]]];
  }

  lemma LoneRunEdges(s: string, x: string)
    requires |s| > 1 && IsSlugChar(s[0]) && !IsSlugChar(s[|s| - 1])
    requires Collapse(s) == [s[0]] + "-" && x == [s[0]]
    ensures Collapse(s) == Edge(s[0]) + x + Edge(s[|s| - 1])
  {
  }

  /** A run ended by another character, with more runs after it. */
  lemma RunThenMore(s: string, j: string, e: string)
    requires |s| > 1 && IsSlugChar(s[0]) && !IsSlugChar(s[1])
    requires Runs(s[1..]) != [] && j == Text.Join(Runs(s[1..]), "-")
    requires Collapse(s[1..]) == "-" + j + e
    ensures Collapse(s) == "" + Text.Join(Runs(s), "-") + e
  {
    BreakJoin(s);
    CollapseSlugStep(s);
    ConsDash(Collapse(s), Collapse(s[1..]), [s[0]], j, e, Text.Join(Runs(s), "-"));
  }

  lemma BreakJoin(s: string)
    requires |s| > 1 && IsSlugChar(s[0]) && !IsSlugChar(s[1]) && Runs(s[1..]) != []
    ensures Text.Join(Runs(s), "-") == [s[0]] + "-" + Text.Join(Runs(s[1..]), "-")
  {
    RunsBreak(s);
    JoinCons([s[0]], Runs(s[1..]), "-");
  }

  lemma ConsDash(c: string, x: string, a: string, j: string, e: string, joined: string)
    requires c == a + x && x == "-" + j + e && joined == a + "-" + j
    ensures c == "" + joined + e
  {
  }

  /** A leading run of other characters becomes the one leading dash. */
  lemma CollapseSkips(s: string, u: string)
    requires s != [] && !IsSlugChar(s[0]) && u == SkipRun(s[1..])
    requires Runs(u) == Runs(s[1..])
    requires CollapsedByRuns(u)
    ensures CollapsedByRuns(s)
  {
    CollapseOtherStep(s);
    RunsOtherStep(s);
    if Runs(u) == [] {
      SkippedEmpty(s[1..], u);
    } else {
      LastOfTail(s[1..], u);
      CollapsedForm(u);
      DashThen(Collapse(s), Collapse(u), Text.Join(Runs(u), "-"), Edge(u[|u| - 1]));
    }
  }

  lemma DashThen(c: string, x: string, j: string, e: string)
    requires c == "-" + x && x == "" + j + e
    ensures c == "-" + j + e
  {
  }

  lemma SkippedEmpty(s: string, u: string)
    requires u == SkipRun(s) && Runs(u) == []
    ensures u == []
  {
  }

  /** Cutting an end dash off each side of a joined run list leaves it. */
  lemma StripEdges(pre: string, j: string, post: string)
    requires pre == "" || pre == "-"
    requires post == "" || post == "-"
    requires j != [] && j[0] != '-' && j[|j| - 1] != '-'
    ensures StripDashes(pre + j + post) == j
  {
    DropLeadingEdge(pre, j + post);
    assert pre + j + post == pre + (j + post);
    DropTrailingEdge(j, post);
  }

  lemma DropLeadingEdge(pre: string, x: string)
    requires pre == "" || pre == "-"
    requires x != [] && x[0] != '-'
    ensures DropLeadingDashes(pre + x) == x
  {
    if pre == "-" {
      assert (pre + x)[1..] == x;
    } else {
      assert pre + x == x;
    }
  }

  lemma DropTrailingEdge(j: string, post: string)
    requires post == "" || post == "-"
    requires j != [] && j[|j| - 1] != '-'
    ensures DropTrailingDashes(j + post) == j
  {
    if post == "-" {
      assert (j + post)[..|j|] == j;
    } else {
      assert j + post == j;
    }
  }

  /** The dashes between runs are kept, and no others. */
  lemma StripCollapsed(s: string)
    ensures var runs := Runs(s);
            StripDashes(Collapse(s)) == if runs == [] then "" else Text.Join(runs, "-")
    ensures Runs(s) != [] ==> StripDashes(Collapse(s)) != []
  {
    CollapseRuns(s);
    var runs := Runs(s);
    if runs == [] {
      StripDash();
    } else {
      RunsShape(s);
      JoinedRunsEnds(runs);
      StripEdges(Edge(s[0]), Text.Join(runs, "-"), Edge(s[|s| - 1]));
    }
  }

  lemma StripDash()
    ensures StripDashes("") == "" && StripDashes("-") == ""
  {
    assert "-"[1..] == "";
  }

  /** Runs joined by dashes begin and end with a letter or digit. */
  lemma JoinedRunsEnds(runs: seq<string>)
    requires runs != []
    requires forall k :: 0 <= k < |runs| ==> runs[k] != [] && forall i :: 0 <= i < |runs[k]| ==> IsSlugChar(runs[k][i])
    ensures var j := Text.Join(runs, "-"); j != [] && IsSlugChar(j[0]) && IsSlugChar(j[|j| - 1])
  {
    var j := Text.Join(runs, "-");
    Text.JoinStartsWithFirst(runs, "-");
    Text.JoinEndsWithLast(runs, "-");
    var last := runs[|runs| - 1];
    assert j[0] == runs[0][0];
    assert j[|j| - |last|..] == last;
    assert j[|j| - 1] == last[|last| - 1];
  }

  /** `title || 'custom-action'` */
  function Source(title: string): string {
    if title == "" then "custom-action" else title
  }

  /** The base identifier of `generateCustomActionId`. */
  function Slug(title: string): (r: string)
    ensures IsSlug(r)
    ensures Alnum(Text.Lower(Source(title))) != [] ==> Alnum(r) == Alnum(Text.Lower(Source(title)))
    ensures Alnum(Text.Lower(Source(title))) == [] ==> r == Fallback
    ensures var runs := Runs(Text.Lower(Source(title)));
            r == if runs == [] then Fallback else Text.Join(runs, "-")
  {
    StripCollapsed(Text.Lower(Source(title)));
    var collapsed := Collapse(Text.Lower(Source(title)));
    StripShape(collapsed);
    var stripped := StripDashes(collapsed);
    if stripped == "" then FallbackIsSlug(); Fallback else stripped
  }

  /** The identifier used when the title has no letter or digit. */
  const Fallback: string := "action"

  lemma FallbackIsSlug()
    ensures IsSlug(Fallback)
  {
    assert forall i :: 0 <= i < |Fallback| ==> IsSlugChar(Fallback[i]);
  }

  lemma {:induction false} AlnumEmpty(s: string)
    requires Alnum(s) == []
    ensures forall i :: 0 <= i < |s| ==> !IsSlugChar(s[i])
  {
    if s != [] {
      AlnumEmpty(s[1..]);
      assert forall i :: 1 <= i < |s| ==> s[i] == s[1..][i - 1];
    }
  }

  /** Stripping the dashes off a collapsed text leaves a slug, or nothing
      when the text held no letter or digit. */
  lemma StripShape(s: string)
    requires forall i :: 0 <= i < |s| ==> IsSlugChar(s[i]) || s[i] == '-'
    requires NoDoubleDash(s)
    ensures StripDashes(s) == [] || IsSlug(StripDashes(s))
    ensures Alnum(s) == [] ==> StripDashes(s) == []
  {
    var lead := DropLeadingDashes(s);
    var d := |s| - |lead|;
    var r := DropTrailingDashes(lead);
    assert forall k :: 0 <= k < |r| ==> r[k] == s[d + k];
    SliceShape(s, r, d);
    if Alnum(s) == [] {
      AlnumEmpty(s);
    }
  }

  /** A piece of a collapsed text is made of the same characters and has
      no doubled dash either. */
  lemma SliceShape(s: string, r: string, a: nat)
    requires a + |r| <= |s|
    requires forall k :: 0 <= k < |r| ==> r[k] == s[a + k]
    requires forall i :: 0 <= i < |s| ==> IsSlugChar(s[i]) || s[i] == '-'
    requires NoDoubleDash(s)
    ensures forall i :: 0 <= i < |r| ==> IsSlugChar(r[i]) || r[i] == '-'
    ensures NoDoubleDash(r)
  {
    forall i, j | 0 <= i < |r| && j == i + 1 && j < |r|
      ensures !(r[i] == '-' && r[j] == '-')
    {
      assert r[i] == s[a + i] && r[j] == s[a + j];
    }
  }

  /** A slug is left unchanged by every step of the slugging. */
  lemma SlugLowerFixed(s: string)
    requires IsSlug(s)
    ensures Text.Lower(s) == s
  {
    assert forall i :: 0 <= i < |s| ==> Text.LowerChar(s[i]) == s[i];
  }

  lemma {:induction false} CollapseFixed(s: string)
    requires forall i :: 0 <= i < |s| ==> IsSlugChar(s[i]) || s[i] == '-'
    requires NoDoubleDash(s)
    ensures Collapse(s) == s
    decreases |s|
  {
    if s != [] {
      if IsSlugChar(s[0]) {
        CollapseFixed(s[1..]);
      } else {
        var tail := s[1..];
        assert tail == [] || IsSlugChar(tail[0]) by {
          if tail != [] {
            assert s[1] == tail[0];
          }
        }
        assert SkipRun(tail) == tail;
        CollapseFixed(tail);
        assert s == "-" + tail;
      }
    }
  }

  /** Slugging is idempotent: a slug is its own slug. */
  lemma SlugIdempotent(title: string)
    ensures Slug(Slug(title)) == Slug(title)
  {
    var s := Slug(title);
    assert Source(s) == s;
    SlugLowerFixed(s);
    CollapseFixed(s);
  }

  /** The n-th candidate: the base itself, then `base-1`, `base-2`, … */
  function Candidate(base: string, n: nat): (r: string)
    ensures n == 0 ==> r == base
    ensures n > 0 ==> |r| > |base| + 1 && r[..|base|] == base && r[|base|] == '-'
  {
    if n == 0 then base else base + "-" + Text.NatToString(n)
  }

  lemma CandidateInjective(base: string, m: nat, n: nat)
    requires Candidate(base, m) == Candidate(base, n)
    ensures m == n
  {
    if m > 0 && n > 0 {
      var a := Candidate(base, m);
      assert a[|base| + 1..] == Text.NatToString(m);
      assert Candidate(base, n)[|base| + 1..] == Text.NatToString(n);
      Text.NatToStringInjective(m, n);
    }
  }

  /** `id` is the first candidate for `base` that is not taken. */
  ghost predicate FirstFree(base: string, taken: seq<string>, id: string) {
    && id !in taken
    && exists n: nat :: id == Candidate(base, n)
                      && forall k: nat :: k < n ==> Candidate(base, k) in taken
  }

  /** At most one identifier is the first free candidate. */
  lemma FirstFreeUnique(base: string, taken: seq<string>, a: string, b: string)
    requires FirstFree(base, taken, a) && FirstFree(base, taken, b)
    ensures a == b
  {
    var m: nat :| a == Candidate(base, m) && forall k: nat :: k < m ==> Candidate(base, k) in taken;
    var n: nat :| b == Candidate(base, n) && forall k: nat :: k < n ==> Candidate(base, k) in taken;
  }

  lemma SubsetCard(a: set<string>, b: set<string>)
    requires a <= b
    ensures |a| <= |b|
  {
    assert b == a + (b - a);
  }

  /** The collision loop of `generateCustomActionId`: tries `base`, then
      `base-1`, `base-2`, … until one is not in `taken`. */
  method FirstFreeId(base: string, taken: seq<string>) returns (id: string)
    ensures FirstFree(base, taken, id)
  {
    ghost var takenSet := set x | x in taken;
    ghost var tried: set<string> := {};
    var suffix: nat := 0;
    id := base;
    while id in taken
      invariant id == Candidate(base, suffix)
      invariant forall k: nat :: k < suffix ==> Candidate(base, k) in taken
      invariant tried <= takenSet && |tried| == suffix
      invariant forall x :: x in tried ==> exists k: nat :: k < suffix && x == Candidate(base, k)
      decreases |takenSet| - |tried|
    {
      if id in tried {
        var k: nat :| k < suffix && id == Candidate(base, k);
        CandidateInjective(base, k, suffix);
        assert false;
      }
      tried := tried + {id};
      SubsetCard(tried, takenSet);
      suffix := suffix + 1;
      id := Candidate(base, suffix);
    }
  }

  /** `generateCustomActionId`; `taken` holds the identifiers of the
      actions already stored in the workspace. */
  method GenerateCustomActionId(title: string, taken: seq<string>) returns (id: string)
    ensures id !in taken
    ensures FirstFree(Slug(title), taken, id)
  {
    id := FirstFreeId(Slug(title), taken);
  }
}
