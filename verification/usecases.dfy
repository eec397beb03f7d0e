/** The checklist of use cases the Selenium context exporter writes for
    each form: a happy-flow line, three lines per remote select, one
    "leave it empty" line per required field, a line per number or date
    field, and two closing lines. */
module UseCases {
  import Text

  /** One form field as the exporter reads it; an absent attribute is the
      empty string. */
  datatype FormField = FormField(element: string, kind: string, name: string, id: string, required: bool)

  /** The summary of a Blade component used inside the form. */
  datatype Component = Component(kind: string, caption: string, name: string)

  datatype Form = Form(fields: seq<FormField>, components: seq<Component>)

  /** JavaScript's `a || b` on strings. */
  function Or(a: string, b: string): string {
    if a != "" then a else b
  }

  /** `field.name || field.id || field.element` */
  function Label(f: FormField): string {
    Or(f.name, Or(f.id, f.element))
  }

  function Code(s: string): string {
    "`" + s + "`"
  }

  /** The scenarios `renderUseCases` can write, each with the label it
      names. */
  datatype Scenario =
    | HappyAll
    | HappyNamed(names: seq<string>)
    | SelectValid(shown: string)
    | SearchPartial(shown: string)
    | LeaveUnselected(shown: string)
    | LeaveEmpty(field: string)
    | OutOfRange(field: string)
    | InvalidDate(field: string)
    | Interrupt
    | Retry

  /** Every scenario is a Markdown check-box item. */
  const Check: string := "- [ ] "

  function Item(text: string): string {
    Check + text
  }

  const EmptyLead: string := "Dejar vac\U{ED}o "
  const HappyLead: string := "Flujo feliz completando"
  /** The first words of the closing lines, kept as their own short
      constants: the verifier cannot read a character out of a literal as
      long as a whole line. */
  const InterruptLead: string := "Interrumpir"
  const RetryLead: string := "Reintentar"

  /** The line written for a scenario. */
  function Render(sc: Scenario): string {
    match sc
    case HappyAll => Item(HappyLead + " todos los campos visibles.")
    case HappyNamed(names) => Item(HappyLead + ": " + Text.Join(names, ", ") + ".")
    case SelectValid(shown) => Item("Seleccionar opci\U{F3}n v\U{E1}lida en **" + shown + "** y verificar persistencia.")
    case SearchPartial(shown) => Item("Buscar por t\U{E9}rmino parcial en **" + shown + "** y validar lista filtrada.")
    case LeaveUnselected(shown) => Item("Intentar continuar sin seleccionar **" + shown + "** y confirmar mensaje requerido.")
    case LeaveEmpty(field) => Item(EmptyLead + Code(field) + " para validar la restricci\U{F3}n de requerido.")
    case OutOfRange(field) => Item("Ingresar un valor fuera de rango en " + Code(field) + " y comprobar validaci\U{F3}n.")
    case InvalidDate(field) => Item("Probar fecha inv\U{E1}lida en " + Code(field) + " (pasado/futuro seg\U{FA}n negocio).")
    case Interrupt => Item(InterruptLead + " el env\U{ED}o y confirmar que los datos permanecen visibles.")
    case Retry => Item(RetryLead + " el env\U{ED}o tras corregir errores y validar \U{E9}xito.")
  }

  /** `form.fields.filter((f) => f.required)` */
  function RequiredFields(fields: seq<FormField>): (r: seq<FormField>)
    ensures |r| <= |fields|
    ensures forall i :: 0 <= i < |r| ==> r[i].required && r[i] in fields
    ensures forall i :: 0 <= i < |fields| && fields[i].required ==> fields[i] in r
  {
    if fields == [] then []
    else
      var rest := RequiredFields(fields[1..]);
      assert forall i :: 1 <= i < |fields| ==> fields[i] == fields[1..][i - 1];
      if fields[0].required then [fields[0]] + rest else rest
  }

  /** `requiredFields.map((f) => f.name || f.id || f.element).filter(Boolean)`,
      back-quoted. */
  function FieldNames(required: seq<FormField>): (r: seq<string>)
    ensures |r| <= |required|
  {
    if required == [] then []
    else (if Label(required[0]) != "" then [Code(Label(required[0]))] else []) + FieldNames(required[1..])
  }

  /** The happy-flow scenario `unshift`ed in front of every other one. */
  function Happy(required: seq<FormField>): Scenario {
    if required == [] then HappyAll else HappyNamed(FieldNames(required))
  }

  /** The three scenarios of each remote select, in component order. */
  function ComponentScenarios(components: seq<Component>): (r: seq<Scenario>)
    ensures |r| % 3 == 0
    ensures forall i :: 0 <= i < |r| ==> r[i].SelectValid? || r[i].SearchPartial? || r[i].LeaveUnselected?
  {
    if components == [] then []
    else
      var c := components[0];
      var shown := Or(c.caption, Or(c.name, "selector remoto"));
      var here := if c.kind == "component-remote-select" then [SelectValid(shown), SearchPartial(shown), LeaveUnselected(shown)] else [];
      here + ComponentScenarios(components[1..])
  }

  /** One "leave it empty" scenario per required field, in order. */
  function EmptyScenarios(required: seq<FormField>): (r: seq<Scenario>)
    ensures |r| == |required|
  {
    seq(|required|, i requires 0 <= i < |required| => LeaveEmpty(Label(required[i])))
  }

  /** The range and date scenarios, in field order. */
  function FieldScenarios(fields: seq<FormField>): (r: seq<Scenario>)
    ensures forall i :: 0 <= i < |r| ==> r[i].OutOfRange? || r[i].InvalidDate?
  {
    if fields == [] then []
    else
      var f := fields[0];
      var here :=
        if f.kind == "number" then [OutOfRange(Or(f.name, Or(f.id, "campo num\U{E9}rico")))]
        else if f.kind == "date" then [InvalidDate(Or(f.name, Or(f.id, "campo fecha")))]
        else [];
      here + FieldScenarios(fields[1..])
  }

  /** The scenarios of `renderUseCases(form)`, in the order written. */
  function Scenarios(form: Form): (r: seq<Scenario>)
    ensures |r| >= 3
    ensures r[0].HappyAll? || r[0].HappyNamed?
    ensures r[0].HappyAll? <==> RequiredFields(form.fields) == []
    ensures r[|r| - 2] == Interrupt && r[|r| - 1] == Retry
  {
    var required := RequiredFields(form.fields);
    [Happy(required)] + ComponentScenarios(form.components) + EmptyScenarios(required) + FieldScenarios(form.fields) + [Interrupt, Retry]
  }

  function RenderAll(scs: seq<Scenario>): (r: seq<string>)
    ensures |r| == |scs|
  {
    seq(|scs|, i requires 0 <= i < |scs| => Render(scs[i]))
  }

  /** `renderUseCases(form)`: the scenario lines joined with new lines. */
  function RenderUseCases(form: Form): string {
    Text.Join(RenderAll(Scenarios(form)), "\n")
  }

  /** A line that asks to leave a field empty. */
  predicate IsEmptyCheck(line: string) {
    Text.StartsWith(line, Item(EmptyLead))
  }

  /** Exactly the "leave it empty" scenarios render as such lines. */
  lemma EmptyCheckIff(sc: Scenario)
    ensures IsEmptyCheck(Render(sc)) <==> sc.LeaveEmpty?
  {
    match sc
    case LeaveEmpty(field) =>
      ItemLead3(EmptyLead, Code(field), " para validar la restricci\U{F3}n de requerido.");
    case HappyAll => HappyNotEmpty(sc);
    case HappyNamed(_) => HappyNotEmpty(sc);
    case SelectValid(_) => SelectNotEmpty(sc);
    case SearchPartial(_) => SelectNotEmpty(sc);
    case LeaveUnselected(_) => SelectNotEmpty(sc);
    case OutOfRange(_) => FieldNotEmpty(sc);
    case InvalidDate(_) => FieldNotEmpty(sc);
    case Interrupt => ClosingNotEmpty(sc);
    case Retry => ClosingNotEmpty(sc);
  }

  lemma HappyNotEmpty(sc: Scenario)
    requires sc.HappyAll? || sc.HappyNamed?
    ensures !IsEmptyCheck(Render(sc))
  {
    if sc.HappyAll? {
      NotLead(HappyLead + " todos los campos visibles.");
    } else {
      NotLead(HappyLead + ": " + Text.Join(sc.names, ", ") + ".");
    }
  }

  lemma SelectNotEmpty(sc: Scenario)
    requires sc.SelectValid? || sc.SearchPartial? || sc.LeaveUnselected?
    ensures !IsEmptyCheck(Render(sc))
  {
    match sc
    case SelectValid(shown) =>
      NotLead("Seleccionar opci\U{F3}n v\U{E1}lida en **" + shown + "** y verificar persistencia.");
    case SearchPartial(shown) =>
      NotLead("Buscar por t\U{E9}rmino parcial en **" + shown + "** y validar lista filtrada.");
    case LeaveUnselected(shown) =>
      NotLead("Intentar continuar sin seleccionar **" + shown + "** y confirmar mensaje requerido.");
  }

  lemma FieldNotEmpty(sc: Scenario)
    requires sc.OutOfRange? || sc.InvalidDate?
    ensures !IsEmptyCheck(Render(sc))
  {
    match sc
    case OutOfRange(field) =>
      NotLead("Ingresar un valor fuera de rango en " + Code(field) + " y comprobar validaci\U{F3}n.");
    case InvalidDate(field) =>
      NotLead("Probar fecha inv\U{E1}lida en " + Code(field) + " (pasado/futuro seg\U{FA}n negocio).");
  }

  lemma ClosingNotEmpty(sc: Scenario)
    requires sc.Interrupt? || sc.Retry?
    ensures !IsEmptyCheck(Render(sc))
  {
    if sc.Interrupt? {
      NotLead(InterruptLead + " el env\U{ED}o y confirmar que los datos permanecen visibles.");
    } else {
      NotLead(RetryLead + " el env\U{ED}o tras corregir errores y validar \U{E9}xito.");
    }
  }

  /** A line whose text does not begin with a `D` is no "leave it empty"
      line. */
  lemma NotLead(text: string)
    requires text != [] && text[0] != 'D'
    ensures !IsEmptyCheck(Item(text))
  {
    assert Item(text)[6] == text[0];
    assert Item(EmptyLead)[6] == 'D';
  }

  /** An item begins with the item of its leading text. */
  lemma ItemLead2(a: string, b: string)
    ensures Text.StartsWith(Item(a + b), Item(a))
  {
    assert Item(a + b)[..|Item(a)|] == Item(a);
  }

  lemma ItemLead3(a: string, b: string, c: string)
    ensures Text.StartsWith(Item(a + b + c), Item(a))
  {
    assert Item(a + b + c)[..|Item(a)|] == Item(a);
  }

  lemma ItemLead4(a: string, b: string, c: string, d: string)
    ensures Text.StartsWith(Item(a + b + c + d), Item(a))
  {
    assert Item(a + b + c + d)[..|Item(a)|] == Item(a);
  }

  function CountEmpty(scs: seq<Scenario>): nat {
    if scs == [] then 0 else (if scs[0].LeaveEmpty? then 1 else 0) + CountEmpty(scs[1..])
  }

  function CountEmptyChecks(lines: seq<string>): nat {
    if lines == [] then 0 else (if IsEmptyCheck(lines[0]) then 1 else 0) + CountEmptyChecks(lines[1..])
  }

  lemma {:induction false} CountEmptyAppend(a: seq<Scenario>, b: seq<Scenario>)
    ensures CountEmpty(a + b) == CountEmpty(a) + CountEmpty(b)
  {
    if a == [] {
      assert a + b == b;
    } else {
      assert (a + b)[1..] == a[1..] + b;
      CountEmptyAppend(a[1..], b);
    }
  }

  /** Counting the rendered lines counts the scenarios. */
  lemma {:induction false} CountRendered(scs: seq<Scenario>)
    ensures CountEmptyChecks(RenderAll(scs)) == CountEmpty(scs)
  {
    if scs != [] {
      CountRendered(scs[1..]);
      EmptyCheckIff(scs[0]);
      assert RenderAll(scs)[1..] == RenderAll(scs[1..]);
    }
  }

  lemma {:induction false} CountNone(scs: seq<Scenario>)
    requires forall i :: 0 <= i < |scs| ==> !scs[i].LeaveEmpty?
    ensures CountEmpty(scs) == 0
  {
    if scs != [] {
      CountNone(scs[1..]);
    }
  }

  lemma {:induction false} CountAll(scs: seq<Scenario>)
    requires forall i :: 0 <= i < |scs| ==> scs[i].LeaveEmpty?
    ensures CountEmpty(scs) == |scs|
  {
    if scs != [] {
      CountAll(scs[1..]);
    }
  }

  /** Exactly one "leave it empty" scenario per required field. */
  lemma OneEmptyScenarioPerRequiredField(form: Form)
    ensures CountEmpty(Scenarios(form)) == |RequiredFields(form.fields)|
  {
    var required := RequiredFields(form.fields);
    var h, cs, es, fs := [Happy(required)], ComponentScenarios(form.components), EmptyScenarios(required), FieldScenarios(form.fields);
    CountNone(h);
    CountNone(cs);
    CountAll(es);
    CountNone(fs);
    CountNone([Interrupt, Retry]);
    CountEmptyAppend(h, cs);
    CountEmptyAppend(h + cs, es);
    CountEmptyAppend(h + cs + es, fs);
    CountEmptyAppend(h + cs + es + fs, [Interrupt, Retry]);
  }

  /** In the written checklist, exactly one line per required field asks to
      leave it empty, and no other line reads like one. */
  lemma OneEmptyCheckPerRequiredField(form: Form)
    ensures CountEmptyChecks(RenderAll(Scenarios(form))) == |RequiredFields(form.fields)|
  {
    CountRendered(Scenarios(form));
    OneEmptyScenarioPerRequiredField(form);
  }

  /** The rendered checklist opens with the happy-flow line and closes
      with the interrupt and retry lines. */
  lemma RenderUseCasesBounds(form: Form)
    ensures Text.StartsWith(RenderUseCases(form), Item(HappyLead))
    ensures Text.EndsWith(RenderUseCases(form), Render(Retry))
    ensures RenderAll(Scenarios(form))[|Scenarios(form)| - 2] == Render(Interrupt)
  {
    var lines := RenderAll(Scenarios(form));
    Text.JoinStartsWithFirst(lines, "\n");
    Text.JoinEndsWithLast(lines, "\n");
    HappyLineLead(Scenarios(form)[0]);
  }

  lemma HappyLineLead(sc: Scenario)
    requires sc.HappyAll? || sc.HappyNamed?
    ensures Text.StartsWith(Render(sc), Item(HappyLead))
  {
    if sc.HappyAll? {
      ItemLead2(HappyLead, " todos los campos visibles.");
    } else {
      ItemLead4(HappyLead, ": ", Text.Join(sc.names, ", "), ".");
    }
  }
}
