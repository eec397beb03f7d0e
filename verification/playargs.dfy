/** The command line of the completion-sound script: `--help`/`-h`,
    `--sound-file <path>` and `--message <text>`, anything else warned
    about and ignored, and the settings overrides built from it. */
module PlayArgs {
  import opened Wrappers
  import opened Json
  import Sound

  /** One step of the scan: a flag, a flag with the value after it, or an
      argument that is warned about. */
  datatype Token = Help(flag: string) | SoundFile(path: string) | Message(text: string) | Unknown(arg: string)

  predicate IsHelpFlag(arg: string) {
    arg == "--help" || arg == "-h"
  }

  /** How the scan of `parseArgs` splits the arguments: a value-taking flag
      takes the next argument only when there is one. */
  function Tokenize(argv: seq<string>): (r: seq<Token>)
    ensures |r| <= |argv|
    ensures argv != [] ==> r != []
    decreases |argv|
  {
    if argv == [] then []
    else if IsHelpFlag(argv[0]) then [Help(argv[0])] + Tokenize(argv[1..])
    else if argv[0] == "--sound-file" && |argv| >= 2 then [SoundFile(argv[1])] + Tokenize(argv[2..])
    else if argv[0] == "--message" && |argv| >= 2 then [Message(argv[1])] + Tokenize(argv[2..])
    else [Unknown(argv[0])] + Tokenize(argv[1..])
  }

  /** The arguments a token was read from. */
  function Render(t: Token): seq<string> {
    match t
    case Help(f) => [f]
    case SoundFile(p) => ["--sound-file", p]
    case Message(m) => ["--message", m]
    case Unknown(a) => [a]
  }

  function RenderAll(ts: seq<Token>): seq<string> {
    if ts == [] then [] else Render(ts[0]) + RenderAll(ts[1..])
  }

  /** The scan loses nothing: the tokens spell out the arguments again. */
  lemma {:induction false} TokenizeLossless(argv: seq<string>)
    ensures RenderAll(Tokenize(argv)) == argv
    decreases |argv|
  {
    if argv != [] {
      var ts := Tokenize(argv);
      assert ts[1..] == Tokenize(argv[|Render(ts[0])|..]);
      TokenizeLossless(argv[|Render(ts[0])|..]);
      assert argv == argv[..|Render(ts[0])|] + argv[|Render(ts[0])|..];
    }
  }

  /** The record `parseArgs` returns, with the warnings it prints. */
  datatype Parsed = Parsed(help: bool, soundFile: Option<string>, message: Option<string>, warnings: seq<string>)

  const Empty: Parsed := Parsed(false, None, None, [])

  function Warning(arg: string): string {
    "Argumento desconocido: " + arg
  }

  function Step(p: Parsed, t: Token): Parsed {
    match t
    case Help(_) => p.(help := true)
    case SoundFile(v) => p.(soundFile := Some(v))
    case Message(v) => p.(message := Some(v))
    case Unknown(a) => p.(warnings := p.warnings + [Warning(a)])
  }

  /** The tokens applied in order. */
  function Apply(ts: seq<Token>, p: Parsed): Parsed
    decreases |ts|
  {
    if ts == [] then p else Apply(ts[1..], Step(p, ts[0]))
  }

  /** What `parseArgs(argv)` computes, token by token. */
  function Parse(argv: seq<string>): Parsed {
    Apply(Tokenize(argv), Empty)
  }

  /** `parseArgs(argv)`: the index loop of the source. */
  method ParseArgs(argv: seq<string>) returns (parsed: Parsed)
    ensures parsed == Parse(argv)
  {
    parsed := Empty;
    var i := 0;
    while i < |argv|
      invariant 0 <= i <= |argv|
      invariant Apply(Tokenize(argv[i..]), parsed) == Parse(argv)
      decreases |argv| - i
    {
      var arg := argv[i];
      if IsHelpFlag(arg) {
        parsed := parsed.(help := true);
      } else if arg == "--sound-file" && i + 1 < |argv| {
        parsed := parsed.(soundFile := Some(argv[i + 1]));
        i := i + 1;
      } else if arg == "--message" && i + 1 < |argv| {
        parsed := parsed.(message := Some(argv[i + 1]));
        i := i + 1;
      } else {
        parsed := parsed.(warnings := parsed.warnings + [Warning(arg)]);
      }
      i := i + 1;
    }
  }

  /** The value of a field after applying tokens: the last token that
      sets it wins, and fields no token sets keep their value. */
  lemma {:induction false} ApplyFields(ts: seq<Token>, p: Parsed)
    ensures Apply(ts, p).help <==> p.help || exists i :: 0 <= i < |ts| && ts[i].Help?
    ensures (forall i :: 0 <= i < |ts| ==> !ts[i].SoundFile?) ==> Apply(ts, p).soundFile == p.soundFile
    ensures (forall i :: 0 <= i < |ts| ==> !ts[i].Message?) ==> Apply(ts, p).message == p.message
    decreases |ts|
  {
    if ts != [] {
      ApplyFields(ts[1..], Step(p, ts[0]));
      assert forall i :: 1 <= i < |ts| ==> ts[i] == ts[1..][i - 1];
    }
  }

  lemma {:induction false} ApplyAppend(a: seq<Token>, b: seq<Token>, p: Parsed)
    ensures Apply(a + b, p) == Apply(b, Apply(a, p))
    decreases |a|
  {
    if a == [] {
      assert a + b == b;
    } else {
      assert (a + b)[1..] == a[1..] + b;
      ApplyAppend(a[1..], b, Step(p, a[0]));
    }
  }

  /** A later `--sound-file` overrides every earlier one. */
  lemma LastSoundFileWins(ts: seq<Token>, v: string, rest: seq<Token>)
    requires forall i :: 0 <= i < |rest| ==> !rest[i].SoundFile?
    ensures Apply(ts + [SoundFile(v)] + rest, Empty).soundFile == Some(v)
  {
    ApplyAppend(ts + [SoundFile(v)], rest, Empty);
    ApplyAppend(ts, [SoundFile(v)], Empty);
    ApplyFields(rest, Apply(ts + [SoundFile(v)], Empty));
  }

  /** A later `--message` overrides every earlier one. */
  lemma LastMessageWins(ts: seq<Token>, v: string, rest: seq<Token>)
    requires forall i :: 0 <= i < |rest| ==> !rest[i].Message?
    ensures Apply(ts + [Message(v)] + rest, Empty).message == Some(v)
  {
    ApplyAppend(ts + [Message(v)], rest, Empty);
    ApplyAppend(ts, [Message(v)], Empty);
    ApplyFields(rest, Apply(ts + [Message(v)], Empty));
  }

  /** The arguments the scan did not recognise, in order. */
  function UnknownArgs(ts: seq<Token>): seq<string> {
    if ts == [] then [] else (if ts[0].Unknown? then [ts[0].arg] else []) + UnknownArgs(ts[1..])
  }

  /** The warning lines printed for the given arguments. */
  function Warnings(args: seq<string>): seq<string> {
    seq(|args|, i requires 0 <= i < |args| => Warning(args[i]))
  }

  /** One warning per unrecognised argument, in order; nothing else
      warns. */
  lemma {:induction false} ApplyWarnings(ts: seq<Token>, p: Parsed)
    ensures Apply(ts, p).warnings == p.warnings + Warnings(UnknownArgs(ts))
    decreases |ts|
  {
    if ts == [] {
      assert Warnings(UnknownArgs(ts)) == [];
    } else {
      var q := Step(p, ts[0]);
      assert Apply(ts, p) == Apply(ts[1..], q);
      ApplyWarnings(ts[1..], q);
      var head := if ts[0].Unknown? then [ts[0].arg] else [];
      assert UnknownArgs(ts) == head + UnknownArgs(ts[1..]);
      WarningsAppend(head, UnknownArgs(ts[1..]));
      var wh, wt := Warnings(head), Warnings(UnknownArgs(ts[1..]));
      assert q.warnings == p.warnings + wh;
      assert Apply(ts, p).warnings == (p.warnings + wh) + wt;
      assert (p.warnings + wh) + wt == p.warnings + (wh + wt);
    }
  }

  lemma WarningsAppend(a: seq<string>, b: seq<string>)
    ensures Warnings(a + b) == Warnings(a) + Warnings(b)
  {
    assert forall i :: 0 <= i < |a + b| ==> Warnings(a + b)[i] == (Warnings(a) + Warnings(b))[i];
  }

  /** An argument list of one value-taking flag with no value after it is
      warned about and sets nothing. */
  lemma DanglingFlagIgnored(flag: string)
    requires flag == "--sound-file" || flag == "--message"
    ensures Parse([flag]) == Parsed(false, None, None, [Warning(flag)])
  {
    assert Tokenize([flag]) == [Unknown(flag)];
    assert [Unknown(flag)][1..] == [];
    assert Apply([Unknown(flag)], Empty) == Apply([], Step(Empty, Unknown(flag)));
    assert Step(Empty, Unknown(flag)) == Parsed(false, None, None, [Warning(flag)]);
  }

  /** `args.soundFile || args.message ? {...} : undefined`, as the settings
      `loadSoundConfig` receives: a missing value leaves its key out. */
  function Overrides(p: Parsed): (r: Sound.Settings)
    ensures r.Absent? <==> (p.soundFile.None? || p.soundFile.value == "") && (p.message.None? || p.message.value == "")
  {
    if (p.soundFile.Some? && p.soundFile.value != "") || (p.message.Some? && p.message.value != "") then
      Sound.Value(JObj((if p.soundFile.Some? then map["soundFile" := JStr(p.soundFile.value)] else map[])
                       + (if p.message.Some? then map["soundMessage" := JStr(p.message.value)] else map[])))
    else Sound.Absent
  }

  /** A non-empty path or message from the command line is exactly what the
      loader reads as the corresponding setting. */
  lemma OverridesReachLoader(p: Parsed)
    ensures p.soundFile.Some? && p.soundFile.value != "" ==>
              Sound.GetSetting(Overrides(p), "soundFile") == Some(JStr(p.soundFile.value))
    ensures p.message.Some? && p.message.value != "" ==>
              Sound.GetSetting(Overrides(p), "soundMessage") == Some(JStr(p.message.value))
    ensures p.soundFile.None? ==> Sound.GetSetting(Overrides(p), "soundFile").None?
    ensures p.message.None? ==> Sound.GetSetting(Overrides(p), "soundMessage").None?
  {
  }
}
