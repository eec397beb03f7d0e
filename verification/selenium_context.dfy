/** Pure pieces of the Selenium context exporter: path normalisation, the
    scanner that finds `@include('name', [ ... ])` directives in Blade
    templates, and the checklist of use cases rendered for a form. */
module SeleniumContext {
  import opened Wrappers
  import Text

  /** `normalizePath(p)`: back-slashes become slashes. */
  function NormalizePath(p: string): (r: string)
    ensures '\\' !in r
    ensures |r| == |p|
  {
    Text.ReplaceChar(p, '\\', "/")
  }

  /** Character by character: a back-slash becomes a slash and every other
      character stays. */
  lemma {:induction false} NormalizePathPointwise(p: string)
    ensures forall i :: 0 <= i < |p| ==> NormalizePath(p)[i] == (if p[i] == '\\' then '/' else p[i])
  {
    if p != [] {
      NormalizePathPointwise(p[1..]);
      var head := if p[0] == '\\' then "/" else [p[0]];
      assert NormalizePath(p) == head + NormalizePath(p[1..]);
      forall i | 0 <= i < |p|
        ensures NormalizePath(p)[i] == (if p[i] == '\\' then '/' else p[i])
      {
        if i > 0 {
          assert NormalizePath(p)[i] == NormalizePath(p[1..])[i - 1];
          assert p[i] == p[1..][i - 1];
        }
      }
    }
  }

  /** A normalised path is its own normal form. */
  lemma NormalizePathIdempotent(p: string)
    ensures NormalizePath(NormalizePath(p)) == NormalizePath(p)
  {
  }

  const Token: string := "@include("

  predicate IsQuote(c: char) {
    c == '\'' || c == '"'
  }

  /** The first index at or after `i` that is not white space. */
  function SkipSpaces(s: string, i: nat): (r: nat)
    requires i <= |s|
    ensures i <= r <= |s|
    ensures forall k :: i <= k < r ==> Text.IsSpace(s[k])
    ensures r == |s| || !Text.IsSpace(s[r])
    decreases |s| - i
  {
    if i == |s| || !Text.IsSpace(s[i]) then i else SkipSpaces(s, i + 1)
  }

  /** The first index at or after `i` that holds a quote. */
  function SkipName(s: string, i: nat): (r: nat)
    requires i <= |s|
    ensures i <= r <= |s|
    ensures forall k :: i <= k < r ==> !IsQuote(s[k])
    ensures r == |s| || IsQuote(s[r])
    decreases |s| - i
  {
    if i == |s| || IsQuote(s[i]) then i else SkipName(s, i + 1)
  }

  /** A match of `/^\s*['"]([^'"]+)['"]\s*,/`: the captured name and the
      number of characters matched. */
  datatype NameMatch = NameMatch(name: string, length: nat)

  function MatchName(s: string): (r: Option<NameMatch>)
    ensures r.Some? ==> 0 < r.value.length <= |s| && s[r.value.length - 1] == ','
    ensures r.Some? ==> r.value.name != [] && forall k :: 0 <= k < |r.value.name| ==> !IsQuote(r.value.name[k])
  {
    var a := SkipSpaces(s, 0);
    if a == |s| || !IsQuote(s[a]) then None
    else
      var b := SkipName(s, a + 1);
      if b == a + 1 || b == |s| then None
      else
        var c := SkipSpaces(s, b + 1);
        if c == |s| || s[c] != ',' then None
        else Some(NameMatch(s[a + 1..b], c + 1))
  }

  /** Every text of that shape matches, with the name between the quotes
      captured and the comma the last character matched. */
  lemma MatchNameOf(pre: string, q1: char, name: string, q2: char, mid: string, rest: string)
    requires Text.AllSpace(pre) && Text.AllSpace(mid) && IsQuote(q1) && IsQuote(q2)
    requires name != [] && forall k :: 0 <= k < |name| ==> !IsQuote(name[k])
    ensures MatchName(pre + [q1] + name + [q2] + mid + "," + rest)
            == Some(NameMatch(name, |pre| + |name| + |mid| + 3))
  {
    var s := pre + [q1] + name + [q2] + mid + "," + rest;
    NameLayout(pre, q1, name, q2, mid, rest);
    MatchNameAt(s, |pre|, |pre| + 1 + |name|, |pre| + 2 + |name| + |mid|);
  }

  /** Where the parts of such a text sit. */
  lemma NameLayout(pre: string, q1: char, name: string, q2: char, mid: string, rest: string)
    requires Text.AllSpace(pre) && Text.AllSpace(mid) && IsQuote(q1) && IsQuote(q2)
    requires name != [] && forall k :: 0 <= k < |name| ==> !IsQuote(name[k])
    ensures var s, a, b, c := pre + [q1] + name + [q2] + mid + "," + rest, |pre|, |pre| + 1 + |name|, |pre| + 2 + |name| + |mid|;
            c < |s| && (forall k :: 0 <= k < a ==> Text.IsSpace(s[k])) && IsQuote(s[a])
            && (forall k :: a + 1 <= k < b ==> !IsQuote(s[k])) && IsQuote(s[b])
            && (forall k :: b + 1 <= k < c ==> Text.IsSpace(s[k])) && s[c] == ','
            && s[a + 1..b] == name
  {
    var s, a, b, c := pre + [q1] + name + [q2] + mid + "," + rest, |pre|, |pre| + 1 + |name|, |pre| + 2 + |name| + |mid|;
    assert forall k :: 0 <= k < a ==> s[k] == pre[k];
    assert forall k :: a + 1 <= k < b ==> s[k] == name[k - a - 1];
    assert forall k :: b + 1 <= k < c ==> s[k] == mid[k - b - 1];
    assert s[a + 1..b] == name;
  }

  /** `MatchName` from the positions of the quotes and the comma. */
  lemma MatchNameAt(s: string, a: nat, b: nat, c: nat)
    requires a < b < c < |s| && b > a + 1
    requires (forall k :: 0 <= k < a ==> Text.IsSpace(s[k])) && IsQuote(s[a])
    requires (forall k :: a + 1 <= k < b ==> !IsQuote(s[k])) && IsQuote(s[b])
    requires (forall k :: b + 1 <= k < c ==> Text.IsSpace(s[k])) && s[c] == ','
    ensures MatchName(s) == Some(NameMatch(s[a + 1..b], c + 1))
  {
    SkipSpacesAt(s, 0, a);
    SkipNameAt(s, a + 1, b);
    SkipSpacesAt(s, b + 1, c);
  }

  lemma SkipSpacesAt(s: string, i: nat, r: nat)
    requires i <= r < |s| && !Text.IsSpace(s[r])
    requires forall k :: i <= k < r ==> Text.IsSpace(s[k])
    ensures SkipSpaces(s, i) == r
    decreases r - i
  {
    if i < r {
      SkipSpacesAt(s, i + 1, r);
    }
  }

  lemma SkipNameAt(s: string, i: nat, r: nat)
    requires i <= r < |s| && IsQuote(s[r])
    requires forall k :: i <= k < r ==> !IsQuote(s[k])
    ensures SkipName(s, i) == r
    decreases r - i
  {
    if i < r {
      SkipNameAt(s, i + 1, r);
    }
  }

  /** The bracket depth a text adds: one per `[`, minus one per `]`. */
  function Net(s: string): int {
    if s == [] then 0
    else Net(s[..|s| - 1]) + (if s[|s| - 1] == '[' then 1 else if s[|s| - 1] == ']' then -1 else 0)
  }

  /** The depth the text between the `[` at `open` and index `k` adds. */
  function DepthAfter(content: string, open: nat, k: nat): int
    requires open < k <= |content|
  {
    Net(content[open + 1..k])
  }

  /** Brackets that close as often as they open, never closing one too
      many on the way. */
  predicate Balanced(s: string) {
    Net(s) == 0 && forall j :: 0 <= j <= |s| ==> Net(s[..j]) >= 0
  }

  /** The depth loop of `extractIncludes`, from the `[` at `arrayStart`:
      the `]` that closes it, or the end of the content. */
  method MatchingBracket(content: string, arrayStart: nat) returns (stop: nat, closed: bool)
    requires arrayStart < |content| && content[arrayStart] == '['
    ensures closed ==> arrayStart < stop < |content| && content[stop] == ']'
                       && Balanced(content[arrayStart + 1..stop])
    ensures !closed ==> stop == |content|
                        && forall k :: arrayStart + 1 <= k <= |content| ==> DepthAfter(content, arrayStart, k) >= 0
  {
    var depth := 0;
    stop := arrayStart;
    while stop < |content|
      invariant arrayStart <= stop <= |content|
      invariant stop == arrayStart ==> depth == 0
      invariant stop > arrayStart ==> depth == 1 + Net(content[arrayStart + 1..stop]) && depth >= 1
      invariant forall k :: arrayStart + 1 <= k <= stop ==> DepthAfter(content, arrayStart, k) >= 0
      decreases |content| - stop
    {
      var ch := content[stop];
      if stop > arrayStart {
        assert content[arrayStart + 1..stop + 1][..stop - arrayStart - 1] == content[arrayStart + 1..stop];
      }
      if ch == '[' {
        depth := depth + 1;
      } else if ch == ']' {
        depth := depth - 1;
        if depth == 0 {
          break;
        }
      }
      stop := stop + 1;
    }
    closed := depth == 0;
    if closed {
      var params := content[arrayStart + 1..stop];
      forall j | 0 <= j <= |params|
        ensures Net(params[..j]) >= 0
      {
        assert params[..j] == content[arrayStart + 1..arrayStart + 1 + j];
        assert DepthAfter(content, arrayStart, arrayStart + 1 + j) >= 0;
      }
    }
  }

  /** The first index `k` at or after `from` where the depth below the `[`
      at `open` drops below zero: the `]` that closes it. */
  function Closing(content: string, open: nat, from: nat): (r: Option<nat>)
    requires open < from <= |content|
    ensures r.Some? ==> from <= r.value < |content|
    decreases |content| - from
  {
    if from == |content| then None
    else if DepthAfter(content, open, from + 1) < 0 then Some(from)
    else Closing(content, open, from + 1)
  }

  /** `Closing` finds nothing when the depth never drops below zero. */
  lemma {:induction false} ClosingNone(content: string, open: nat, from: nat)
    requires open < from <= |content|
    requires forall k :: from < k <= |content| ==> DepthAfter(content, open, k) >= 0
    ensures Closing(content, open, from) == None
    decreases |content| - from
  {
    if from < |content| {
      ClosingNone(content, open, from + 1);
    }
  }

  /** `Closing` finds the first place where the depth drops below zero. */
  lemma {:induction false} ClosingAt(content: string, open: nat, from: nat, stop: nat)
    requires open < from <= stop < |content|
    requires forall k :: from < k <= stop ==> DepthAfter(content, open, k) >= 0
    requires DepthAfter(content, open, stop + 1) < 0
    ensures Closing(content, open, from) == Some(stop)
    decreases stop - from
  {
    if from < stop {
      ClosingAt(content, open, from + 1, stop);
    }
  }

  /** The outcome of the depth loop is the one `Closing` describes. */
  lemma BracketClosing(content: string, arrayStart: nat, stop: nat, closed: bool)
    requires arrayStart < |content| && content[arrayStart] == '['
    requires closed ==> arrayStart < stop < |content| && content[stop] == ']'
                        && Balanced(content[arrayStart + 1..stop])
    requires !closed ==> stop == |content|
                         && forall k :: arrayStart + 1 <= k <= |content| ==> DepthAfter(content, arrayStart, k) >= 0
    ensures closed ==> Closing(content, arrayStart, arrayStart + 1) == Some(stop)
    ensures !closed ==> Closing(content, arrayStart, arrayStart + 1) == None
  {
    if closed {
      var params := content[arrayStart + 1..stop];
      forall k | arrayStart + 1 < k <= stop
        ensures DepthAfter(content, arrayStart, k) >= 0
      {
        assert content[arrayStart + 1..k] == params[..k - arrayStart - 1];
      }
      assert content[arrayStart + 1..stop + 1][..stop - arrayStart - 1] == params;
      ClosingAt(content, arrayStart, arrayStart + 1, stop);
    } else {
      ClosingNone(content, arrayStart, arrayStart + 1);
    }
  }

  /** One `@include` found by the scanner. */
  datatype Include = Include(name: string, params: string, start: nat, arrayStart: nat, arrayEnd: nat, end: nat)

  /** What every reported include satisfies: it starts at an `@include(`
      token followed by a quoted name and a comma; its array opens at the
      first `[` after that and closes at the matching `]`, with the
      parameters the text strictly between; and it ends one past the first
      `)` from the closing bracket on, or right after the bracket when no
      `)` follows. */
  predicate ValidInclude(content: string, inc: Include) {
    HeadOk(content, inc) && ArrayOk(content, inc) && TailOk(content, inc)
  }

  /** The token, the quoted name and the first `[` after them. */
  predicate HeadOk(content: string, inc: Include) {
    && Text.OccursAt(content, Token, inc.start)
    && var m := MatchName(content[inc.start + |Token|..]);
    && m.Some? && m.value.name == inc.name
    && inc.start + |Token| + m.value.length <= inc.arrayStart < |content|
    && content[inc.arrayStart] == '['
    && (forall k :: inc.start + |Token| + m.value.length <= k < inc.arrayStart ==> content[k] != '[')
  }

  /** The matching `]` and the parameters between the brackets. */
  predicate ArrayOk(content: string, inc: Include) {
    && inc.arrayStart < inc.arrayEnd < |content|
    && content[inc.arrayEnd] == ']'
    && inc.params == content[inc.arrayStart + 1..inc.arrayEnd]
    && Balanced(inc.params)
  }

  /** The token at `found`, its name match `m` and the first `[` after
      them make the head of an include. */
  lemma HeadAt(content: string, found: nat, m: NameMatch, arrayStart: nat)
    requires Text.OccursAt(content, Token, found)
    requires MatchName(content[found + |Token|..]) == Some(m)
    requires Text.IndexOf(content, "[", found + |Token| + m.length) == arrayStart
    ensures HeadOk(content, Include(m.name, "", found, arrayStart, arrayStart, arrayStart))
  {
    assert content[arrayStart] == '[' by {
      assert content[arrayStart..arrayStart + 1] == "[";
    }
    FirstAt(content, '[', found + |Token| + m.length, arrayStart);
    HeadOkIntro(content, Include(m.name, "", found, arrayStart, arrayStart, arrayStart), m);
  }

  lemma HeadOkIntro(content: string, inc: Include, m: NameMatch)
    requires Text.OccursAt(content, Token, inc.start)
    requires MatchName(content[inc.start + |Token|..]) == Some(m) && m.name == inc.name
    requires inc.start + |Token| + m.length <= inc.arrayStart < |content| && content[inc.arrayStart] == '['
    requires forall k :: inc.start + |Token| + m.length <= k < inc.arrayStart ==> content[k] != '['
    ensures HeadOk(content, inc)
  {
  }

  /** The head depends only on the name, the start and the `[`. */
  lemma HeadOkKept(content: string, head: Include, inc: Include)
    requires HeadOk(content, head)
    requires inc.name == head.name && inc.start == head.start && inc.arrayStart == head.arrayStart
    ensures HeadOk(content, inc)
  {
  }

  /** One past the first `)` from the `]` on, or one past the `]`. */
  predicate TailOk(content: string, inc: Include) {
    && inc.arrayEnd < inc.end <= |content|
    && (forall k :: inc.arrayEnd <= k < inc.end - 1 ==> content[k] != ')')
    && (content[inc.end - 1] == ')' || (inc.end == inc.arrayEnd + 1 && forall k :: inc.arrayEnd <= k < |content| ==> content[k] != ')'))
  }

  /** The outcome of one round of the scan: no token left, a position to
      resume from, or an include found. */
  datatype Round = Done | Resume(index: nat) | Found(inc: Include)

  /** Where the first part of a round stops: no token left, a position to
      resume from, or the head of an include up to its `[`. */
  datatype Opening = Exhausted | Skipped(next: nat) | Opened(head: Include)

  /** The round from `index` on, as a function: open the include, then
      close it. */
  function RoundOf(content: string, index: nat): (r: Round)
    requires index < |content|
    ensures r.Resume? ==> r.index > index
    ensures r.Found? ==> r.inc.end > index
  {
    match OpenAt(content, index)
    case Exhausted => Done
    case Skipped(next) => Resume(next)
    case Opened(head) => CloseOf(content, head)
  }

  /** The first part of a round: find the token, match the name and comma,
      find the `[`. */
  function OpenAt(content: string, index: nat): (o: Opening)
    requires index < |content|
    ensures o.Skipped? ==> o.next > index
    ensures o.Opened? ==> index <= o.head.start < o.head.arrayStart < |content|
  {
    var found := Text.IndexOf(content, Token, index);
    if found == -1 then Exhausted else AfterToken(content, found)
  }

  /** The opening once the token is found at `found`. */
  function AfterToken(content: string, found: nat): (o: Opening)
    requires found + |Token| <= |content|
    ensures o.Skipped? ==> o.next > found
    ensures o.Opened? ==> found == o.head.start < o.head.arrayStart < |content|
  {
    var m := MatchName(content[found + |Token|..]);
    if m.None? then Skipped(found + |Token|) else AfterName(content, found, m.value)
  }

  /** The opening once the name and comma are matched. */
  function AfterName(content: string, found: nat, m: NameMatch): (o: Opening)
    requires found + |Token| + m.length <= |content|
    ensures o.Skipped? ==> o.next > found
    ensures o.Opened? ==> found == o.head.start < o.head.arrayStart < |content|
  {
    var arrayStart := Text.IndexOf(content, "[", found + |Token| + m.length);
    if arrayStart == -1 then Skipped(found + |Token| + m.length)
    else Opened(Include(m.name, "", found, arrayStart, arrayStart, arrayStart))
  }

  /** The rest of a round, as a function: an unclosed `[` resumes past the
      end; a closed one ends at the first `)` from the `]` on, or right
      after the `]`. */
  function CloseOf(content: string, head: Include): (r: Round)
    requires head.arrayStart < |content|
    ensures r.Resume? ==> r.index > head.arrayStart
    ensures r.Found? ==> r.inc.end > head.arrayStart && r.inc.start == head.start
  {
    match Closing(content, head.arrayStart, head.arrayStart + 1)
    case None => Resume(|content| + 1)
    case Some(stop) => Found(Closed(content, head, stop))
  }

  /** The include a head becomes once its `]` is at `stop`: the parameters
      between the brackets, and the end one past the first `)` from the
      `]` on, or right after the `]`. */
  function Closed(content: string, head: Include, stop: nat): (inc: Include)
    requires head.arrayStart < stop < |content|
    ensures inc.arrayEnd == stop && inc.end > stop && inc.start == head.start
  {
    var closeParen := Text.IndexOf(content, ")", stop);
    head.(params := content[head.arrayStart + 1..stop], arrayEnd := stop,
          end := if closeParen == -1 then stop + 1 else closeParen + 1)
  }

  /** The includes a scan from `index` reports: the rounds from there on,
      each `Found` contributing its include and resuming after it. */
  function Scan(content: string, index: nat): (r: seq<Include>)
    decreases |content| + 1 - index
  {
    if index >= |content| then []
    else
      match RoundOf(content, index)
      case Done => []
      case Resume(next) => Scan(content, next)
      case Found(inc) => [inc] + Scan(content, inc.end)
  }

  /** One step of `Scan`. */
  lemma ScanStep(content: string, index: nat)
    requires index < |content|
    ensures RoundOf(content, index).Done? ==> Scan(content, index) == []
    ensures RoundOf(content, index).Resume? ==> Scan(content, index) == Scan(content, RoundOf(content, index).index)
    ensures RoundOf(content, index).Found? ==>
              Scan(content, index) == [RoundOf(content, index).inc] + Scan(content, RoundOf(content, index).inc.end)
  {
  }

  /** The opening when no token is left. */
  lemma OpenNoToken(content: string, index: nat)
    requires index < |content| && Text.IndexOf(content, Token, index) == -1
    ensures OpenAt(content, index) == Exhausted
  {
  }

  /** The opening when the token is not followed by a quoted name and comma. */
  lemma OpenNoName(content: string, index: nat, found: nat)
    requires index < |content| && Text.IndexOf(content, Token, index) == found
    requires found + |Token| <= |content|
    requires MatchName(content[found + |Token|..]).None?
    ensures OpenAt(content, index) == Skipped(found + |Token|)
  {
    OpenToken(content, index, found);
  }

  /** The opening when no `[` follows the name. */
  lemma OpenNoArray(content: string, index: nat, found: nat, m: NameMatch)
    requires index < |content| && Text.IndexOf(content, Token, index) == found
    requires found + |Token| + m.length <= |content|
    requires MatchName(content[found + |Token|..]) == Some(m)
    requires Text.IndexOf(content, "[", found + |Token| + m.length) == -1
    ensures OpenAt(content, index) == Skipped(found + |Token| + m.length)
  {
    OpenToken(content, index, found);
    TokenName(content, found, m);
  }

  /** The opening when a `[` follows the name. */
  lemma OpenHead(content: string, index: nat, found: nat, m: NameMatch, arrayStart: nat)
    requires index < |content| && Text.IndexOf(content, Token, index) == found
    requires found + |Token| + m.length <= |content|
    requires MatchName(content[found + |Token|..]) == Some(m)
    requires Text.IndexOf(content, "[", found + |Token| + m.length) == arrayStart
    requires arrayStart < |content|
    ensures OpenAt(content, index) == Opened(Include(m.name, "", found, arrayStart, arrayStart, arrayStart))
  {
    OpenToken(content, index, found);
    TokenName(content, found, m);
    NameArray(content, found, m, arrayStart);
  }

  lemma OpenToken(content: string, index: nat, found: nat)
    requires index < |content| && Text.IndexOf(content, Token, index) == found
    requires found + |Token| <= |content|
    ensures OpenAt(content, index) == AfterToken(content, found)
  {
  }

  lemma TokenName(content: string, found: nat, m: NameMatch)
    requires found + |Token| + m.length <= |content|
    requires MatchName(content[found + |Token|..]) == Some(m)
    ensures AfterToken(content, found) == AfterName(content, found, m)
  {
  }

  lemma NameArray(content: string, found: nat, m: NameMatch, arrayStart: nat)
    requires found + |Token| + m.length <= |content|
    requires Text.IndexOf(content, "[", found + |Token| + m.length) == arrayStart
    requires arrayStart < |content|
    ensures AfterName(content, found, m) == Opened(Include(m.name, "", found, arrayStart, arrayStart, arrayStart))
  {
  }

  /** The first include reported is the one the first successful round
      finds, and rounds that find nothing are skipped. */
  lemma ScanFirstFound(content: string, index: nat)
    requires index < |content| && RoundOf(content, index).Found?
    ensures Scan(content, index) != [] && Scan(content, index)[0] == RoundOf(content, index).inc
  {
  }

  /** One round of the `while (index < content.length)` loop. */
  method ScanRound(content: string, index: nat) returns (r: Round)
    requires index < |content|
    ensures r.Resume? ==> r.index > index
    ensures r.Found? ==> ValidInclude(content, r.inc) && index <= r.inc.start
    ensures r == RoundOf(content, index)
  {
    var o := OpenRound(content, index);
    match o
    case Exhausted => r := Done;
    case Skipped(next) => r := Resume(next);
    case Opened(head) => r := CloseRound(content, head);
  }

  /** The first part of a round: the token from `index` on, the quoted name
      and comma after it, and the first `[` after those. */
  method OpenRound(content: string, index: nat) returns (o: Opening)
    requires index < |content|
    ensures o.Opened? ==> HeadOk(content, o.head) && index <= o.head.start
    ensures o == OpenAt(content, index)
  {
    var found := Text.IndexOf(content, Token, index);
    if found == -1 {
      OpenNoToken(content, index);
      return Exhausted;
    }
    var cursor := found + |Token|;
    var m := MatchName(content[cursor..]);
    if m.None? {
      OpenNoName(content, index, found);
      return Skipped(cursor);
    }
    cursor := cursor + m.value.length;
    var arrayStart := Text.IndexOf(content, "[", cursor);
    if arrayStart == -1 {
      OpenNoArray(content, index, found, m.value);
      return Skipped(cursor);
    }
    HeadAt(content, found, m.value, arrayStart);
    OpenHead(content, index, found, m.value, arrayStart);
    o := Opened(Include(m.value.name, "", found, arrayStart, arrayStart, arrayStart));
  }

  /** The rest of a round once the head of an include is found: the
      matching `]` and the `)` after it. */
  method CloseRound(content: string, head: Include) returns (r: Round)
    requires HeadOk(content, head)
    ensures r.Resume? ==> r.index > head.start
    ensures r.Found? ==> ValidInclude(content, r.inc) && r.inc.start == head.start
    ensures r == CloseOf(content, head)
  {
    var stop, closed := MatchingBracket(content, head.arrayStart);
    BracketClosing(content, head.arrayStart, stop, closed);
    if !closed {
      CloseOfNone(content, head);
      return Resume(stop + 1);
    }
    ClosedValid(content, head, stop);
    CloseOfFound(content, head, stop);
    r := Found(Closed(content, head, stop));
  }

  /** A head closed by the matching `]` and the `)` after it is a valid
      include. */
  lemma ClosedValid(content: string, head: Include, stop: nat)
    requires HeadOk(content, head)
    requires head.arrayStart < stop < |content| && content[stop] == ']'
    requires Balanced(content[head.arrayStart + 1..stop])
    ensures ValidInclude(content, Closed(content, head, stop))
  {
    ClosedHead(content, head, stop);
    ClosedArray(content, head, stop);
    ClosedTail(content, head, stop);
  }

  lemma ClosedHead(content: string, head: Include, stop: nat)
    requires HeadOk(content, head)
    requires head.arrayStart < stop < |content|
    ensures HeadOk(content, Closed(content, head, stop))
  {
    HeadOkKept(content, head, Closed(content, head, stop));
  }

  lemma ClosedArray(content: string, head: Include, stop: nat)
    requires head.arrayStart < stop < |content| && content[stop] == ']'
    requires Balanced(content[head.arrayStart + 1..stop])
    ensures ArrayOk(content, Closed(content, head, stop))
  {
  }

  lemma ClosedTail(content: string, head: Include, stop: nat)
    requires head.arrayStart < stop < |content|
    ensures TailOk(content, Closed(content, head, stop))
  {
    TailOkIntro(content, Closed(content, head, stop), Text.IndexOf(content, ")", stop));
  }

  lemma CloseOfNone(content: string, head: Include)
    requires head.arrayStart < |content|
    requires Closing(content, head.arrayStart, head.arrayStart + 1) == None
    ensures CloseOf(content, head) == Resume(|content| + 1)
  {
  }

  lemma CloseOfFound(content: string, head: Include, stop: nat)
    requires head.arrayStart < |content|
    requires Closing(content, head.arrayStart, head.arrayStart + 1) == Some(stop)
    ensures CloseOf(content, head) == Found(Closed(content, head, stop))
  {
  }

  lemma TailOkIntro(content: string, inc: Include, closeParen: int)
    requires inc.arrayEnd < |content|
    requires closeParen == Text.IndexOf(content, ")", inc.arrayEnd)
    requires inc.end == if closeParen == -1 then inc.arrayEnd + 1 else closeParen + 1
    ensures TailOk(content, inc)
  {
    if closeParen == -1 {
      FirstAt(content, ')', inc.arrayEnd, |content|);
    } else {
      ParenAt(content, closeParen);
      FirstAt(content, ')', inc.arrayEnd, closeParen);
    }
  }

  lemma ParenAt(content: string, at: int)
    requires 0 <= at && Text.OccursAt(content, ")", at)
    ensures at < |content| && content[at] == ')'
  {
    assert content[at..at + 1] == ")";
  }

  /** Every include valid, each ending before the next starts. */
  predicate Scanned(content: string, includes: seq<Include>) {
    AllValid(content, includes) && Ordered(includes)
  }

  predicate AllValid(content: string, includes: seq<Include>) {
    forall i :: 0 <= i < |includes| ==> ValidInclude(content, includes[i])
  }

  predicate Ordered(includes: seq<Include>) {
    forall i, j :: 0 <= i < j < |includes| ==> includes[i].end <= includes[j].start
  }

  /** Every include ends at or before `index`. */
  predicate EndsBy(includes: seq<Include>, index: nat) {
    forall i :: 0 <= i < |includes| ==> includes[i].end <= index
  }

  lemma AllValidSnoc(content: string, includes: seq<Include>, inc: Include)
    requires AllValid(content, includes) && ValidInclude(content, inc)
    ensures AllValid(content, includes + [inc])
  {
    var all := includes + [inc];
    forall i | 0 <= i < |all|
      ensures ValidInclude(content, all[i])
    {
      if i < |includes| {
        assert all[i] == includes[i];
      }
    }
  }

  lemma OrderedSnoc(includes: seq<Include>, inc: Include, index: nat)
    requires Ordered(includes) && EndsBy(includes, index) && index <= inc.start < inc.end
    ensures Ordered(includes + [inc]) && EndsBy(includes + [inc], inc.end)
  {
  }

  lemma StartBeforeEnd(content: string, inc: Include)
    requires ValidInclude(content, inc)
    ensures inc.start < inc.end
  {
    assert HeadOk(content, inc) && ArrayOk(content, inc) && TailOk(content, inc);
  }

  /** `extractIncludes(content)` */
  method ExtractIncludes(content: string) returns (includes: seq<Include>)
    ensures Scanned(content, includes)
    ensures forall i, j :: 0 <= i < j < |includes| ==> includes[i].start < includes[j].start
    ensures (forall k :: !Text.OccursAt(content, Token, k)) ==> includes == []
    ensures includes == Scan(content, 0)
  {
    includes := [];
    var index: nat := 0;
    while index < |content|
      invariant Scanned(content, includes)
      invariant EndsBy(includes, index)
      invariant includes + Scan(content, index) == Scan(content, 0)
      decreases |content| + 1 - index
    {
      var round := ScanRound(content, index);
      ScanStep(content, index);
      match round
      case Done =>
        break;
      case Resume(next) =>
        index := next;
      case Found(inc) =>
        FoundStep(content, includes, index, inc);
        ShiftOne(includes, inc, Scan(content, index), Scan(content, inc.end), Scan(content, 0));
        includes := includes + [inc];
        index := inc.end;
    }
    ScannedOrdered(content, includes);
    if includes != [] {
      assert Text.OccursAt(content, Token, includes[0].start);
    }
  }

  /** Recording a found include keeps the loop's invariants. */
  lemma FoundStep(content: string, includes: seq<Include>, index: nat, inc: Include)
    requires Scanned(content, includes) && EndsBy(includes, index)
    requires ValidInclude(content, inc) && index <= inc.start
    ensures Scanned(content, includes + [inc]) && EndsBy(includes + [inc], inc.end)
  {
    AllValidSnoc(content, includes, inc);
    StartBeforeEnd(content, inc);
    OrderedSnoc(includes, inc, index);
  }

  /** Moving the next element of what is left onto what is done. */
  lemma ShiftOne(done: seq<Include>, x: Include, left: seq<Include>, rest: seq<Include>, total: seq<Include>)
    requires done + left == total && left == [x] + rest
    ensures (done + [x]) + rest == total
  {
    assert done + ([x] + rest) == (done + [x]) + rest;
  }

  /** Scanned includes start in strictly increasing order, each at a
      token. */
  lemma ScannedOrdered(content: string, includes: seq<Include>)
    requires Scanned(content, includes)
    ensures forall i, j :: 0 <= i < j < |includes| ==> includes[i].start < includes[j].start
    ensures forall i :: 0 <= i < |includes| ==> Text.OccursAt(content, Token, includes[i].start)
  {
    forall i | 0 <= i < |includes|
      ensures includes[i].start < includes[i].end && Text.OccursAt(content, Token, includes[i].start)
    {
      assert HeadOk(content, includes[i]) && ArrayOk(content, includes[i]) && TailOk(content, includes[i]);
    }
  }

  /** `IndexOf` for a single character, read character by character. */
  lemma FirstAt(s: string, c: char, from: nat, r: nat)
    requires r == |s| ==> Text.IndexOf(s, [c], from) == -1
    requires r < |s| ==> Text.IndexOf(s, [c], from) == r
    requires r <= |s|
    ensures forall k :: from <= k < r ==> s[k] != c
  {
    forall k | from <= k < r
      ensures s[k] != c
    {
      assert !Text.OccursAt(s, [c], k);
      assert s[k..k + 1] == [s[k]];
    }
  }
}
