/** Quoting of values spliced into shell command lines, and recognition of
    the Codex runner template. Every escape has a decoder that gives the
    original text back. */
module Shell {
  import Text

  /** `escapePromptForShell`: `text.replace(/"/g, '\\"')`. */
  function EscapeForShell(text: string): string {
    Text.ReplaceChar(text, '"', "\\\"")
  }

  /** Reads a shell-escaped text back: a back-slash followed by a quote is
      a quote, anything else is itself. */
  function UnescapeShell(s: string): string {
    if s == [] then []
    else if |s| >= 2 && s[0] == '\\' && s[1] == '"' then "\"" + UnescapeShell(s[2..])
    else [s[0]] + UnescapeShell(s[1..])
  }

  /** No escaped text begins with a bare quote. */
  lemma EscapeHeadNotQuote(text: string)
    ensures EscapeForShell(text) == [] || EscapeForShell(text)[0] != '"'
  {
  }

  /** Escaping loses nothing: decoding gives the original text back. */
  lemma {:induction false} UnescapeEscapeShell(text: string)
    ensures UnescapeShell(EscapeForShell(text)) == text
  {
    if text != [] {
      var rest := EscapeForShell(text[1..]);
      UnescapeEscapeShell(text[1..]);
      EscapeHeadNotQuote(text[1..]);
      if text[0] == '"' {
        assert EscapeForShell(text) == "\\\"" + rest;
        assert ("\\\"" + rest)[2..] == rest;
      } else {
        assert EscapeForShell(text) == [text[0]] + rest;
        assert ([text[0]] + rest)[1..] == rest;
      }
    }
  }

  /** Every quote of the escaped text is preceded by a back-slash, and the
      escape adds exactly one character per quote. */
  lemma {:induction false} EscapeShellQuotesGuarded(text: string)
    ensures forall i :: 0 <= i < |EscapeForShell(text)| && EscapeForShell(text)[i] == '"'
              ==> i > 0 && EscapeForShell(text)[i - 1] == '\\'
    ensures |EscapeForShell(text)| == |text| + multiset(text)['"']
  {
    if text != [] {
      var rest := EscapeForShell(text[1..]);
      EscapeShellQuotesGuarded(text[1..]);
      assert text == [text[0]] + text[1..];
      assert multiset(text) == multiset([text[0]]) + multiset(text[1..]);
      var head := if text[0] == '"' then "\\\"" else [text[0]];
      assert EscapeForShell(text) == head + rest;
      forall i | 0 <= i < |head + rest| && (head + rest)[i] == '"'
        ensures i > 0 && (head + rest)[i - 1] == '\\'
      {
        if i >= |head| {
          assert (head + rest)[i] == rest[i - |head|];
          if i - |head| > 0 {
            assert (head + rest)[i - 1] == rest[i - |head| - 1];
          }
        }
      }
    }
  }

  /** What `escapePowerShell` does to one character. */
  function EscapePsChar(c: char): string {
    if c == '`' then "``" else if c == '"' then "`\"" else [c]
  }

  function EscapePsChars(text: string): string {
    if text == [] then [] else EscapePsChar(text[0]) + EscapePsChars(text[1..])
  }

  /** `escapePowerShell`: back-ticks are doubled first, then quotes get a
      back-tick. */
  function EscapePowerShell(text: string): string {
    Text.ReplaceChar(Text.ReplaceChar(text, '`', "``"), '"', "`\"")
  }

  /** The two passes together escape each character on its own. */
  lemma {:induction false} EscapePowerShellPerChar(text: string)
    ensures EscapePowerShell(text) == EscapePsChars(text)
  {
    if text != [] {
      var c := text[0];
      var inner := if c == '`' then "``" else [c];
      var tail := Text.ReplaceChar(text[1..], '`', "``");
      assert Text.ReplaceChar(text, '`', "``") == inner + tail;
      Text.ReplaceCharAppend(inner, tail, '"', "`\"");
      EscapePowerShellPerChar(text[1..]);
      if c == '"' {
        assert Text.ReplaceChar(inner, '"', "`\"") == "`\"" + Text.ReplaceChar([], '"', "`\"");
      } else {
        assert '"' !in inner;
      }
    }
  }

  /** Reads a PowerShell-escaped text back: a back-tick escapes the
      character after it. */
  function UnescapePowerShell(s: string): string {
    if s == [] then []
    else if |s| >= 2 && s[0] == '`' then [s[1]] + UnescapePowerShell(s[2..])
    else [s[0]] + UnescapePowerShell(s[1..])
  }

  /** Escaping for PowerShell loses nothing. */
  lemma {:induction false} UnescapeEscapePowerShell(text: string)
    ensures UnescapePowerShell(EscapePowerShell(text)) == text
  {
    EscapePowerShellPerChar(text);
    UnescapePsChars(text);
  }

  lemma {:induction false} UnescapePsChars(text: string)
    ensures UnescapePowerShell(EscapePsChars(text)) == text
  {
    if text != [] {
      var head, rest := EscapePsChar(text[0]), EscapePsChars(text[1..]);
      UnescapePsChars(text[1..]);
      assert EscapePsChars(text) == head + rest;
      if |head| == 2 {
        assert (head + rest)[2..] == rest;
      } else {
        assert (head + rest)[1..] == rest;
      }
    }
  }

  /** Quoting in the other order would not be reversible: the quote would
      come back as a back-tick and a quote. */
  lemma QuoteFirstIsLossy()
    ensures UnescapePowerShell(Text.ReplaceChar(Text.ReplaceChar("\"", '"', "`\""), '`', "``")) != "\""
  {
    var once := Text.ReplaceChar("\"", '"', "`\"");
    assert once == "`\"" + Text.ReplaceChar([], '"', "`\"");
    var twice := Text.ReplaceChar(once, '`', "``");
    assert twice == "``" + Text.ReplaceChar("\"", '`', "``");
    assert UnescapePowerShell(twice) == "`" + UnescapePowerShell("\"");
  }

  /** `isCodexRunner(runnerTemplate)` */
  predicate IsCodexRunner(template: string) {
    template != []
    && var normalized := Text.Lower(Text.Trim(template));
       Text.StartsWith(normalized, "codex ") || Text.Contains(normalized, " codex ")
  }

  /** White space around the template does not matter. */
  lemma CodexRunnerPadding(a: string, template: string, b: string)
    requires Text.AllSpace(a) && Text.AllSpace(b)
    ensures IsCodexRunner(a + template + b) == IsCodexRunner(template)
  {
    Text.TrimPadding(a, template, b);
    if template == [] {
      assert Text.AllSpace(a + template + b);
      Text.TrimEmptyIff(a + template + b);
    }
  }

  /** Upper or lower case does not matter. */
  lemma CodexRunnerCaseInsensitive(template: string)
    ensures IsCodexRunner(Text.Lower(template)) == IsCodexRunner(template)
  {
    Text.TrimLower(template);
    Text.LowerIdempotent(Text.Trim(template));
  }
}
