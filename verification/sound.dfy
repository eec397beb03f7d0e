/** The completion-sound configuration: where the sound file and the
    message come from, how the loaded configuration is cached, and the
    player command line for each platform. */
module Sound {
  import opened Wrappers
  import opened Json
  import FileTree
  import Text

  const DefaultMessage: string := "\U{1F514} El agente termin\U{F3} su trabajo"

  /** The agent extension's default message, stored with its characters
      already mis-decoded (UTF-8 bytes read as Mac Roman). */
  const AgentDefaultMessage: string := "\U{F8FF}\U{FC}\U{EE}\U{EE} El agente termin\U{221A}\U{2265} su trabajo"

  /** The `settings` argument: absent (`null`/`undefined`), a VS Code
      configuration object whose `get` looks a key up, or any other value,
      read by plain property access. */
  datatype Settings = Absent | Configuration(values: map<string, Json>) | Value(j: Json)

  /** `getSetting(settings, key)`; `None` is `undefined`. */
  function GetSetting(settings: Settings, key: string): (r: Option<Json>)
    ensures settings.Absent? ==> r.None?
    ensures settings.Value? && !Truthy(settings.j) ==> r.None?
    ensures r.Some? ==> (settings.Configuration? && key in settings.values && r.value == settings.values[key])
                        || (settings.Value? && settings.j.JObj? && key in settings.j.props && r.value == settings.j.props[key])
  {
    match settings
    case Absent => None
    case Configuration(values) => if key in values then Some(values[key]) else None
    case Value(j) => if !Truthy(j) then None else Get(j, key)
  }

  /** The file configuration and whether reading it produced a warning. */
  datatype FileConfigRead = FileConfigRead(config: Json, warned: bool)

  const EmptyObject: Json := JObj(map[])

  /** Reading `config.json` under an existing extension root: the parsed
      value, or `{}` when the file is missing, and `{}` with a warning when
      reading or parsing it fails. */
  function ReadConfigFile(tree: FileTree.Entry): (r: FileConfigRead)
    ensures r.warned ==> r.config == EmptyObject
    ensures FileTree.Lookup(tree, ["config.json"]).None? ==> r == FileConfigRead(EmptyObject, false)
    ensures !r.warned && FileTree.Lookup(tree, ["config.json"]).Some? ==>
              FileTree.Lookup(tree, ["config.json"]).value.File?
              && FileTree.Lookup(tree, ["config.json"]).value.content == Some(r.config)
  {
    match FileTree.Lookup(tree, ["config.json"])
    case None => FileConfigRead(EmptyObject, false)
    case Some(File(_, Some(j))) => FileConfigRead(j, false)
    case Some(_) => FileConfigRead(EmptyObject, true)
  }

  /** `readFileConfig(extensionRoot, warn)`: total, `{}` without a root. */
  function ReadFileConfig(extensionRoot: string, tree: FileTree.Entry): (r: FileConfigRead)
    ensures extensionRoot == "" ==> r == FileConfigRead(EmptyObject, false)
    ensures extensionRoot != "" ==> r == ReadConfigFile(tree)
  {
    if extensionRoot == "" then FileConfigRead(EmptyObject, false) else ReadConfigFile(tree)
  }

  /** The merged configuration. Both fields are whatever values the
      settings or the file hold, strings or not. */
  datatype SoundConfig = SoundConfig(soundFile: Json, message: Json)

  const NullAccess: string := "TypeError: Cannot read properties of null"

  /** `fileConfig.<key>`: a property read that throws on `null`. */
  function ReadProperty(config: Json, key: string): Result<Option<Json>, string> {
    if config.JNull? then Failure(NullAccess) else Success(Get(config, key))
  }

  /** `setting || fileConfig.<key> || fallback`, short-circuiting: the file
      configuration is only read when the setting is falsy. */
  function Pick(setting: Option<Json>, config: Json, key: string, fallback: Json): (r: Result<Json, string>)
    requires Truthy(fallback) || fallback == JStr("")
    ensures r.Failure? <==> !TruthyOpt(setting) && config.JNull?
    ensures r.Success? ==> Truthy(r.value) || r.value == fallback
  {
    if TruthyOpt(setting) then Success(setting.value)
    else match ReadProperty(config, key)
      case Failure(e) => Failure(e)
      case Success(v) => Success(if TruthyOpt(v) then v.value else fallback)
  }

  /** The `{ soundFile, message }` record both loaders build. */
  function Merge(settingFile: Option<Json>, settingMessage: Option<Json>, config: Json, defaultMessage: string): (r: Result<SoundConfig, string>)
    requires defaultMessage != ""
    ensures r.Failure? <==> config.JNull? && !(TruthyOpt(settingFile) && TruthyOpt(settingMessage))
    ensures r.Success? ==> Truthy(r.value.message)
    ensures r.Success? ==> Truthy(r.value.soundFile) || r.value.soundFile == JStr("")
  {
    match Pick(settingFile, config, "soundFile", JStr(""))
    case Failure(e) => Failure(e)
    case Success(soundFile) =>
      match Pick(settingMessage, config, "message", JStr(defaultMessage))
      case Failure(e) => Failure(e)
      case Success(message) => Success(SoundConfig(soundFile, message))
  }

  /** Each field comes from the setting when it is truthy, else from the
      file when that is truthy, else from the default. */
  lemma MergePrecedence(settingFile: Option<Json>, settingMessage: Option<Json>, config: Json, defaultMessage: string)
    requires !config.JNull? && defaultMessage != ""
    ensures var r := Merge(settingFile, settingMessage, config, defaultMessage);
            && r.Success?
            && r.value.soundFile == (if TruthyOpt(settingFile) then settingFile.value
                                     else if TruthyOpt(Get(config, "soundFile")) then Get(config, "soundFile").value
                                     else JStr(""))
            && r.value.message == (if TruthyOpt(settingMessage) then settingMessage.value
                                   else if TruthyOpt(Get(config, "message")) then Get(config, "message").value
                                   else JStr(defaultMessage))
  {
  }

  /** When both settings are given, the file configuration does not
      matter, not even a `null` one. */
  lemma SettingsShadowFile(settingFile: Option<Json>, settingMessage: Option<Json>, a: Json, b: Json, defaultMessage: string)
    requires TruthyOpt(settingFile) && TruthyOpt(settingMessage) && defaultMessage != ""
    ensures Merge(settingFile, settingMessage, a, defaultMessage) == Merge(settingFile, settingMessage, b, defaultMessage)
            == Success(SoundConfig(settingFile.value, settingMessage.value))
  {
  }

  /** The cache key: the extension root, or `__global__` without one. */
  function CacheKey(extensionRoot: string): (r: string)
    ensures r != ""
    ensures extensionRoot != "" ==> r == extensionRoot
  {
    if extensionRoot != "" then extensionRoot else "__global__"
  }

  /** Every cached configuration has a message. */
  predicate MessagesSet(cache: map<string, SoundConfig>) {
    forall k :: k in cache ==> Truthy(cache[k].message)
  }

  /** What a `loadSoundConfig` call returns (or throws), the cache after
      it, and whether it warned. */
  datatype Loaded = Loaded(result: Result<SoundConfig, string>, cache: map<string, SoundConfig>, warned: bool)

  /** `loadSoundConfig({ extensionRoot, settings, warn })` with
      `configCache` made explicit. */
  function LoadSoundConfig(cache: map<string, SoundConfig>, extensionRoot: string, settings: Settings, tree: FileTree.Entry): (r: Loaded)
    ensures CacheKey(extensionRoot) in cache ==> r == Loaded(Success(cache[CacheKey(extensionRoot)]), cache, false)
    ensures r.result.Success? ==> r.cache == cache[CacheKey(extensionRoot) := r.result.value]
    ensures r.result.Success? && CacheKey(extensionRoot) !in cache ==> Truthy(r.result.value.message)
    ensures r.result.Failure? ==> r.cache == cache
    ensures MessagesSet(cache) ==> MessagesSet(r.cache)
  {
    var key := CacheKey(extensionRoot);
    if key in cache then Loaded(Success(cache[key]), cache, false)
    else
      var file := ReadFileConfig(extensionRoot, tree);
      var merged := Merge(GetSetting(settings, "soundFile"), GetSetting(settings, "soundMessage"), file.config, DefaultMessage);
      match merged
      case Failure(e) => Loaded(merged, cache, file.warned)
      case Success(config) => Loaded(merged, cache[key := config], file.warned)
  }

  /** A second load for the same root returns the first result, whatever
      the settings or the file now say. */
  lemma LoadTwice(cache: map<string, SoundConfig>, extensionRoot: string, s1: Settings, t1: FileTree.Entry,
                  s2: Settings, t2: FileTree.Entry)
    requires LoadSoundConfig(cache, extensionRoot, s1, t1).result.Success?
    ensures var first := LoadSoundConfig(cache, extensionRoot, s1, t1);
            LoadSoundConfig(first.cache, extensionRoot, s2, t2) == Loaded(first.result, first.cache, false)
  {
  }

  /** Loading without a root and loading from a root literally named
      `__global__` share one cache entry. */
  lemma GlobalRootSharesEntry(cache: map<string, SoundConfig>, s1: Settings, t1: FileTree.Entry,
                              s2: Settings, t2: FileTree.Entry)
    requires LoadSoundConfig(cache, "", s1, t1).result.Success?
    ensures LoadSoundConfig(LoadSoundConfig(cache, "", s1, t1).cache, "__global__", s2, t2).result
            == LoadSoundConfig(cache, "", s1, t1).result
  {
  }

  /** `clearSoundConfigCache(extensionRoot)` */
  function ClearSoundConfigCache(cache: map<string, SoundConfig>, extensionRoot: string): (r: map<string, SoundConfig>)
    ensures extensionRoot == "" ==> r == map[]
    ensures extensionRoot != "" ==> extensionRoot !in r
    ensures extensionRoot != "" ==> forall k :: k != extensionRoot ==> (k in r <==> k in cache)
    ensures forall k :: k in r ==> k in cache && r[k] == cache[k]
  {
    if extensionRoot == "" then map[] else cache - {CacheKey(extensionRoot)}
  }

  /** After clearing a root, loading it reads the configuration afresh;
      entries of other roots stay as they were. */
  lemma ClearThenLoad(cache: map<string, SoundConfig>, root: string, other: string, settings: Settings, tree: FileTree.Entry)
    requires root != "" && CacheKey(other) != root && CacheKey(other) in cache
    ensures var cleared := ClearSoundConfigCache(cache, root);
            && LoadSoundConfig(cleared, root, settings, tree).result
               == Merge(GetSetting(settings, "soundFile"), GetSetting(settings, "soundMessage"), ReadConfigFile(tree).config, DefaultMessage)
            && LoadSoundConfig(cleared, other, settings, tree).result == Success(cache[CacheKey(other)])
  {
  }

  /** The agent extension's `getSoundConfig(extensionRoot)`: one cached
      record for every root, the configuration settings always present. */
  function AgentGetSoundConfig(cached: Option<SoundConfig>, settings: map<string, Json>, tree: FileTree.Entry): (r: Loaded)
    ensures cached.Some? ==> r.result == Success(cached.value)
    ensures r.result.Success? ==> r.cache == map["" := r.result.value]
    ensures r.result.Success? && cached.None? ==> Truthy(r.result.value.message)
  {
    if cached.Some? then Loaded(Success(cached.value), map["" := cached.value], false)
    else
      var file := ReadConfigFile(tree);
      var s := Configuration(settings);
      var merged := Merge(GetSetting(s, "soundFile"), GetSetting(s, "soundMessage"), file.config, AgentDefaultMessage);
      Loaded(merged, if merged.Success? then map["" := merged.value] else map[], file.warned)
  }

  /** Without a message setting and without a message in a readable
      configuration file, the agent extension shows its own stored default,
      not the root extension's. */
  lemma AgentDefaultApplies(settings: map<string, Json>, tree: FileTree.Entry)
    requires "soundMessage" !in settings || !Truthy(settings["soundMessage"])
    requires !TruthyOpt(Get(ReadConfigFile(tree).config, "message"))
    requires !ReadConfigFile(tree).config.JNull?
    ensures var r := AgentGetSoundConfig(None, settings, tree);
            r.result.Success? && r.result.value.message == JStr(AgentDefaultMessage)
            && r.result.value.message != JStr(DefaultMessage)
  {
    var file := ReadConfigFile(tree);
    MergePrecedence(GetSetting(Configuration(settings), "soundFile"), GetSetting(Configuration(settings), "soundMessage"),
                    file.config, AgentDefaultMessage);
    assert AgentDefaultMessage[0] != DefaultMessage[0];
  }

  /** The agent extension's cache, as the `Option` it is: one slot, keyed
      by nothing. */
  function AgentCache(l: Loaded): (r: Option<SoundConfig>)
    ensures l.result.Success? && "" in l.cache ==> r == Some(l.cache[""])
  {
    if "" in l.cache then Some(l.cache[""]) else None
  }

  /** In the agent extension a loaded record is returned for every root,
      until `clearSoundConfigCache()` empties the slot. */
  lemma AgentCacheIgnoresRoot(settings1: map<string, Json>, t1: FileTree.Entry, settings2: map<string, Json>, t2: FileTree.Entry)
    requires AgentGetSoundConfig(None, settings1, t1).result.Success?
    ensures var first := AgentGetSoundConfig(None, settings1, t1);
            AgentGetSoundConfig(AgentCache(first), settings2, t2).result == first.result
  {
  }

  /** The player invocation; `None` is the `null` command of an
      unsupported platform. */
  datatype PlayerCommand = PlayerCommand(command: Option<string>, args: seq<string>)

  /** `soundFile.replace(/"/g, '""')` */
  function DoubleQuotes(s: string): string {
    Text.ReplaceChar(s, '"', "\"\"")
  }

  /** Reads a path with doubled quotes back. */
  function UndoubleQuotes(s: string): string {
    if s == [] then []
    else if |s| >= 2 && s[0] == '"' && s[1] == '"' then "\"" + UndoubleQuotes(s[2..])
    else [s[0]] + UndoubleQuotes(s[1..])
  }

  /** The PowerShell script that plays `soundFile`. */
  function PowerShellScript(soundFile: string): string {
    Text.Join(["$player = New-Object System.Media.SoundPlayer",
               "$player.SoundLocation = \"" + DoubleQuotes(soundFile) + "\"",
               "$player.Load()",
               "$player.PlaySync()"], "; ")
  }

  /** `getPlayerCommand(platform, soundFile)` */
  function GetPlayerCommand(platform: string, soundFile: string): (r: PlayerCommand)
    ensures r.command.None? <==> platform !in {"darwin", "linux", "win32"}
    ensures r.command.None? ==> r.args == []
    ensures platform == "darwin" ==> r.command == Some("/usr/bin/afplay")
    ensures platform == "linux" ==> r.command == Some("paplay")
    ensures platform in {"darwin", "linux"} ==> r.args == [soundFile]
    ensures platform == "win32" ==> r.command == Some("powershell") && |r.args| == 3
    ensures platform == "win32" ==> r.args[..2] == ["-NoProfile", "-Command"] && r.args[2] == PowerShellScript(soundFile)
  {
    if platform == "darwin" then PlayerCommand(Some("/usr/bin/afplay"), [soundFile])
    else if platform == "linux" then PlayerCommand(Some("paplay"), [soundFile])
    else if platform == "win32" then PlayerCommand(Some("powershell"), ["-NoProfile", "-Command", PowerShellScript(soundFile)])
    else PlayerCommand(None, [])
  }

  /** The quoted path in the Windows script reads back as the original
      path. */
  lemma {:induction false} UndoubleDoubleQuotes(s: string)
    ensures UndoubleQuotes(DoubleQuotes(s)) == s
  {
    if s != [] {
      var rest := DoubleQuotes(s[1..]);
      UndoubleDoubleQuotes(s[1..]);
      if s[0] == '"' {
        assert DoubleQuotes(s) == "\"\"" + rest;
        assert ("\"\"" + rest)[2..] == rest;
      } else {
        assert DoubleQuotes(s) == [s[0]] + rest;
        assert ([s[0]] + rest)[1..] == rest;
      }
    }
  }

  /** Every quote of `d` has another quote right next to it. */
  predicate QuotesPaired(d: string) {
    forall i :: 0 <= i < |d| ==> PairedAt(d, i)
  }

  /** A quote at `i` has a quote right before or right after it. */
  predicate PairedAt(d: string, i: nat)
    requires i < |d|
  {
    d[i] == '"' ==> (i + 1 < |d| && d[i + 1] == '"') || (i > 0 && d[i - 1] == '"')
  }

  /** Doubling leaves no quote alone: every quote of the escaped path has a
      partner right next to it. */
  lemma {:induction false} DoubledQuotesPaired(s: string)
    ensures QuotesPaired(DoubleQuotes(s))
  {
    if s != [] {
      var head := if s[0] == '"' then "\"\"" else [s[0]];
      DoubledQuotesPaired(s[1..]);
      assert DoubleQuotes(s) == head + DoubleQuotes(s[1..]);
      PairedPrepend(head, DoubleQuotes(s[1..]));
    }
  }

  lemma PairedPrepend(head: string, rest: string)
    requires head == "\"\"" || (|head| == 1 && head[0] != '"')
    requires QuotesPaired(rest)
    ensures QuotesPaired(head + rest)
  {
    var d := head + rest;
    forall i | 0 <= i < |d| && d[i] == '"'
      ensures PairedAt(d, i)
    {
      if i < |head| {
        assert d[i] == head[i];
        assert head == "\"\"";
        assert d[0] == '"' && d[1] == '"';
        if i == 0 {
          assert i + 1 < |d| && d[i + 1] == '"';
        } else {
          assert i > 0 && d[i - 1] == '"';
        }
      } else {
        var k := i - |head|;
        assert d[i] == rest[k];
        assert rest[k] == '"';
        assert PairedAt(rest, k);
        if k + 1 < |rest| && rest[k + 1] == '"' {
          assert d[i + 1] == rest[k + 1];
        } else {
          assert rest[k - 1] == d[i - 1];
        }
      }
    }
  }
}
