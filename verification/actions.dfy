/** The action lists both extensions show in their side panel. Each list
    is assembled by a sequence of `pushAction` calls that skip actions
    without a command and actions whose key an earlier action claimed:
    the root extension keys an action by `key`, or by `command:args`;
    the agent extension keys it by its command alone. */
module Actions {
  import Text
  import Dedup

  /** An entry of the panel. The `primary` and `danger` display flags are
      not modelled. */
  datatype Action = Action(key: string, command: string, args: seq<string>, caption: string)

  /** `!action || !action.command` fails for it. */
  predicate HasCommand(a: Action) {
    a.command != ""
  }

  /** `action.key || `${action.command}:${(action.args || []).join('|')}`` */
  function ActionKey(a: Action): string {
    if a.key != "" then a.key else a.command + ":" + Text.Join(a.args, "|")
  }

  function CommandOf(a: Action): string {
    a.command
  }

  /** A plain entry: no key, no arguments. */
  function Plain(command: string, caption: string): Action {
    Action("", command, [], caption)
  }

  /** The root extension's `pushAction` calls, in order, on an empty list. */
  function PushAllByKey(actions: seq<Action>): seq<Action> {
    Dedup.FirstByKey(actions, HasCommand, ActionKey, {})
  }

  /** A user-defined action as stored in the workspace; `kind` is its
      `type` field. */
  datatype CustomAction = CustomAction(id: string, caption: string, kind: string)

  /** The entry of a custom action: keyed by its identifier, which is also
      the one argument of the command that runs it. */
  function CustomEntry(c: CustomAction): (r: Action)
    ensures HasCommand(r) && r.args == [c.id]
    ensures ActionKey(r) == "custom:" + c.id
    ensures ActionKey(r)[0] == 'c'
  {
    Action("custom:" + c.id, "agent.runCustomAction", [c.id],
           c.caption + (if c.kind == "prompt" then " \U{2022} IA" else " \U{2022} Script"))
  }

  function CustomEntries(cs: seq<CustomAction>): (r: seq<Action>)
    ensures |r| == |cs|
    ensures forall i :: 0 <= i < |cs| ==> r[i] == CustomEntry(cs[i])
    ensures forall a :: a in r ==> ActionKey(a) != [] && ActionKey(a)[0] == 'c'
  {
    if cs == [] then [] else [CustomEntry(cs[0])] + CustomEntries(cs[1..])
  }

  const InstallAction: Action := Plain("agent.installAgentKit", "Instalar Agent Kit")

  /** The fixed entries offered once the workspace holds an agent structure. */
  function BuiltIns(showConfigPanel: bool): seq<Action> {
    [ Plain("agent.customActions.configure", "Crear Funci\U{F3}n"),
      Plain("agent.runSeleniumModules", "Ejecutar Test Selenium"),
      Plain("toggleConfigPanel", if showConfigPanel then "Ocultar configuraci\U{F3}n" else "Configuraci\U{F3}n"),
      Plain("agent.reinstallAgentKit", "Reinstalar Agent Kit"),
      Plain("agent.cleanAgentKit", "Limpiar") ]
  }

  /** `buildActions({ hasWorkspace, hasAgent })` of the root extension;
      `custom` is what `getCustomActionsSafe` read from the workspace. */
  function BuildActions(hasWorkspace: bool, hasAgent: bool, custom: seq<CustomAction>, showConfigPanel: bool): (r: seq<Action>)
    ensures forall i, j :: 0 <= i < j < |r| ==> ActionKey(r[i]) != ActionKey(r[j])
    ensures forall a :: a in r ==> HasCommand(a)
  {
    if !hasWorkspace || !hasAgent then PushAllByKey([InstallAction])
    else PushAllByKey(CustomEntries(custom) + BuiltIns(showConfigPanel))
  }

  /** Without a workspace or without an agent structure, the panel offers
      exactly the install action. */
  lemma InstallOnly(hasWorkspace: bool, hasAgent: bool, custom: seq<CustomAction>, showConfigPanel: bool)
    requires !hasWorkspace || !hasAgent
    ensures BuildActions(hasWorkspace, hasAgent, custom, showConfigPanel) == [InstallAction]
  {
    Dedup.FirstByKeyFresh([InstallAction], HasCommand, ActionKey, {});
  }

  /** With an agent structure, the de-duplicated custom entries come first
      and all five fixed entries follow, in order. */
  lemma BuildActionsLayout(custom: seq<CustomAction>, showConfigPanel: bool)
    ensures BuildActions(true, true, custom, showConfigPanel)
            == PushAllByKey(CustomEntries(custom)) + BuiltIns(showConfigPanel)
  {
    var cs, bs := CustomEntries(custom), BuiltIns(showConfigPanel);
    var first := PushAllByKey(cs);
    Dedup.FirstByKeyAppend(cs, bs, HasCommand, ActionKey, {});
    var seen := Dedup.KeysOf(first, ActionKey);
    assert {} + seen == seen;
    BuiltInKeys(showConfigPanel);
    forall i | 0 <= i < |bs|
      ensures ActionKey(bs[i]) !in seen
    {
    }
    Dedup.FirstByKeyFresh(bs, HasCommand, ActionKey, seen);
  }

  /** The fixed entries have commands, pairwise distinct keys, and keys
      that do not start with `c`. */
  lemma BuiltInKeys(showConfigPanel: bool)
    ensures |BuiltIns(showConfigPanel)| == 5
    ensures forall i :: 0 <= i < 5 ==> HasCommand(BuiltIns(showConfigPanel)[i])
    ensures forall i :: 0 <= i < 5 ==>
              (ActionKey(BuiltIns(showConfigPanel)[i]) != [] && ActionKey(BuiltIns(showConfigPanel)[i])[0] != 'c')
    ensures forall i, j :: 0 <= i < j < 5 ==>
              ActionKey(BuiltIns(showConfigPanel)[i]) != ActionKey(BuiltIns(showConfigPanel)[j])
  {
    var bs := BuiltIns(showConfigPanel);
    assert Text.Join([], "|") == "";
    forall i | 0 <= i < 5
      ensures ActionKey(bs[i]) == bs[i].command + ":"
    {
    }
    forall i, j | 0 <= i < j < 5
      ensures ActionKey(bs[i]) != ActionKey(bs[j])
    {
      assert |ActionKey(bs[i])| != |ActionKey(bs[j])|;
    }
  }

  /** The first custom action with a given identifier is always offered. */
  lemma CustomActionOffered(custom: seq<CustomAction>, showConfigPanel: bool, i: nat)
    requires i < |custom|
    requires forall j :: 0 <= j < i ==> custom[j].id != custom[i].id
    ensures CustomEntry(custom[i]) in BuildActions(true, true, custom, showConfigPanel)
  {
    var cs := CustomEntries(custom);
    forall j | 0 <= j < i && HasCommand(cs[j])
      ensures ActionKey(cs[j]) != ActionKey(cs[i])
    {
      assert ("custom:" + custom[j].id)[7..] == custom[j].id;
      assert ("custom:" + custom[i].id)[7..] == custom[i].id;
    }
    Dedup.FirstByKeyKeepsFirst(cs + BuiltIns(showConfigPanel), HasCommand, ActionKey, {}, i);
  }

  /** A preset task as listed in the preset's manifest. */
  datatype Task = Task(command: string, caption: string)

  function TaskActions(tasks: seq<Task>): (r: seq<Action>)
    ensures |r| == |tasks|
    ensures forall i :: 0 <= i < |tasks| ==> r[i] == Plain(tasks[i].command, tasks[i].caption)
  {
    if tasks == [] then [] else [Plain(tasks[0].command, tasks[0].caption)] + TaskActions(tasks[1..])
  }

  /** What the agent panel knows when it builds its list; the three flags
      are the truthiness of `bootstrapScript`, `composerData` and
      `snippetSource`. */
  datatype PanelState = PanelState(hasWorkspace: bool, contextCount: int,
                                   hasBootstrap: bool, hasComposer: bool, hasSnippets: bool)

  const OpenContexts: string := "openContexts"

  /** The fixed entries of the agent panel, the conditional ones included
      only when their condition holds. */
  function AgentBuiltIns(st: PanelState): seq<Action> {
    [ Plain("agent.scaffoldAgent", "Crear estructura agent/"),
      Plain("choosePreset", "Seleccionar preset\U{2026}") ]
    + (if st.hasWorkspace && st.contextCount > 0 then [Plain(OpenContexts, "Abrir contextos")] else [])
    + (if st.hasComposer then [Plain("openComposer", "Abrir dependencias")] else [])
    + (if st.hasSnippets then [Plain("openSnippets", "Editar snippets")] else [])
    + (if st.hasBootstrap then [Plain("openBootstrapFile", "Abrir bootstrap")] else [])
    + [ Plain("openConfigurator", "Configurar extensi\U{F3}n\U{2026}"),
        Plain("openDocs", "Ver documentaci\U{F3}n"),
        Plain("openConfig", "Editar config.json"),
        Plain("playSound", "Probar sonido") ]
  }

  /** `buildActions(...)` of the agent extension: preset tasks, then the
      fixed entries, de-duplicated by command. */
  function AgentBuildActions(tasks: seq<Task>, st: PanelState): (r: seq<Action>)
    ensures forall i, j :: 0 <= i < j < |r| ==> r[i].command != r[j].command
    ensures forall a :: a in r ==> HasCommand(a)
  {
    Dedup.FirstByKey(TaskActions(tasks) + AgentBuiltIns(st), HasCommand, CommandOf, {})
  }

  /** Preset tasks come first: the list starts with the de-duplicated
      tasks, and everything after them is a fixed entry whose command no
      task used. */
  lemma TasksFirst(tasks: seq<Task>, st: PanelState)
    ensures var first := Dedup.FirstByKey(TaskActions(tasks), HasCommand, CommandOf, {});
            var r := AgentBuildActions(tasks, st);
            && first <= r
            && forall k :: |first| <= k < |r| ==>
                 r[k] in AgentBuiltIns(st) && forall t :: t in tasks ==> t.command != r[k].command
  {
    TasksBeforeFixed(tasks, AgentBuiltIns(st));
  }

  lemma TasksBeforeFixed(tasks: seq<Task>, bs: seq<Action>)
    ensures var first := Dedup.FirstByKey(TaskActions(tasks), HasCommand, CommandOf, {});
            var r := Dedup.FirstByKey(TaskActions(tasks) + bs, HasCommand, CommandOf, {});
            && first <= r
            && forall k :: |first| <= k < |r| ==>
                 r[k] in bs && forall t :: t in tasks ==> t.command != r[k].command
  {
    var ts := TaskActions(tasks);
    var first := Dedup.FirstByKey(ts, HasCommand, CommandOf, {});
    var seen := Dedup.KeysOf(first, CommandOf);
    assert {} + seen == seen;
    Dedup.FirstByKeyAppend(ts, bs, HasCommand, CommandOf, {});
    Dedup.FirstByKeyCovers(ts, HasCommand, CommandOf, {});
    var r := Dedup.FirstByKey(ts + bs, HasCommand, CommandOf, {});
    var rest := Dedup.FirstByKey(bs, HasCommand, CommandOf, seen);
    assert r == first + rest;
    forall k | |first| <= k < |r|
      ensures r[k] in bs
      ensures forall t :: t in tasks ==> t.command != r[k].command
    {
      assert r[k] == rest[k - |first|];
      assert rest[k - |first|] in rest;
      forall t | t in tasks
        ensures t.command != r[k].command
      {
        var i :| 0 <= i < |tasks| && tasks[i] == t;
        assert ts[i].command == t.command;
      }
    }
  }

  /** Some entry of `xs` runs `command`. */
  predicate AnyCommand(xs: seq<Action>, command: string) {
    exists i :: 0 <= i < |xs| && xs[i].command == command
  }

  lemma AnyCommandAppend(a: seq<Action>, b: seq<Action>, command: string)
    ensures AnyCommand(a + b, command) <==> AnyCommand(a, command) || AnyCommand(b, command)
  {
    var xs := a + b;
    if AnyCommand(a, command) {
      var i :| 0 <= i < |a| && a[i].command == command;
      assert xs[i] == a[i];
    }
    if AnyCommand(b, command) {
      var i :| 0 <= i < |b| && b[i].command == command;
      assert xs[|a| + i] == b[i];
    }
    if AnyCommand(xs, command) {
      var i :| 0 <= i < |xs| && xs[i].command == command;
      if i >= |a| {
        assert b[i - |a|] == xs[i];
      } else {
        assert a[i] == xs[i];
      }
    }
  }

  lemma AnyCommandTasks(tasks: seq<Task>, command: string)
    ensures AnyCommand(TaskActions(tasks), command) <==> exists t :: t in tasks && t.command == command
  {
    if exists t :: t in tasks && t.command == command {
      var t :| t in tasks && t.command == command;
      var i :| 0 <= i < |tasks| && tasks[i] == t;
      assert TaskActions(tasks)[i].command == command;
    }
  }

  /** Among the fixed entries, `openContexts` is there exactly when the
      workspace has context files. */
  lemma OpenContextsFixed(st: PanelState)
    ensures AnyCommand(AgentBuiltIns(st), OpenContexts) <==> st.hasWorkspace && st.contextCount > 0
  {
    if st.hasWorkspace && st.contextCount > 0 {
      assert AgentBuiltIns(st)[2].command == OpenContexts;
    }
  }

  /** An entry for `openContexts` is offered exactly when there is a
      workspace with at least one context file, or a preset task uses that
      command. */
  lemma OpenContextsOffered(tasks: seq<Task>, st: PanelState)
    ensures (exists a :: a in AgentBuildActions(tasks, st) && a.command == OpenContexts)
            <==> (st.hasWorkspace && st.contextCount > 0) || exists t :: t in tasks && t.command == OpenContexts
  {
    var ts, bs := TaskActions(tasks), AgentBuiltIns(st);
    var xs := ts + bs;
    var r := AgentBuildActions(tasks, st);
    Dedup.FirstByKeyKeys(xs, HasCommand, CommandOf, {}, OpenContexts);
    assert AnyCommand(xs, OpenContexts) <==> exists i :: 0 <= i < |xs| && HasCommand(xs[i]) && CommandOf(xs[i]) == OpenContexts;
    AnyCommandAppend(ts, bs, OpenContexts);
    AnyCommandTasks(tasks, OpenContexts);
    OpenContextsFixed(st);
    assert (exists a :: a in r && a.command == OpenContexts) <==> OpenContexts in Dedup.KeysOf(r, CommandOf);
  }
}
