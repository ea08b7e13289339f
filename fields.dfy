/** The form as the scripts see it: a table of controls keyed by their id
    (which is also their `name`), each with a value, the `required` and
    `disabled` attributes, the two validation classes `is-valid` and
    `is-invalid`, and the step (`etapa-N`) that contains it. Everything here is
    a function of the table; the wizard class applies these functions. */
module Fields {
  import opened Text
  import opened Documents
  import opened Income

  /** The two copies of the script: the live one served by the application
      and the static prototype. */
  datatype Copy = Live | Prototype

  /** An option of a select: its value and whether it is disabled. */
  datatype SelectOption = SelectOption(value: string, disabled: bool)

  /** What kind of control a field is. Only `input` and `select` elements are
      picked by the `input[required], select[required]` selector. A select's
      selection is not stored: it is the option its value selects. */
  datatype Control =
    | Entry                                   // an input holding text
    | TextArea
    | Choice(options: seq<SelectOption>)      // a select, options in page order
    | Upload(hasFile: bool)                   // a file input: `files.length > 0`
    | Check(checked: bool)                    // a checkbox or radio button

  datatype Field = Field(control: Control, value: string, required: bool, disabled: bool,
                         isValid: bool, isInvalid: bool, step: int)

  type Table = map<string, Field>

  /** The checks the model does not compute: the issue date against the
      clock, the prototype's `parseFloat` income check, and whether the file
      chosen under a name has the type `application/pdf`. */
  datatype Env = Env(issueDateOk: string -> bool, prototypeIncomeOk: string -> bool, pdfFile: string -> bool)

  const TotalSteps := 6
  const TokenField := "csrfmiddlewaretoken"
  const NotInformed := "N\U{00E3}o informado"

  /** The option value of a yes/no control that enables its dependent field. */
  function YesCode(copy: Copy, trigger: string): string {
    match copy
    case Live => "Sim"
    case Prototype => if trigger == "deficiente" then "def-sim" else "laudo-sim"
  }

  // ---------------------------------------------------------------------
  // Selects and assignments

  /** `selectedIndex` of a select whose value has been set: the first option
      with that value, or -1 when no option has it. */
  function SelectedIndex(options: seq<SelectOption>, value: string): (i: int)
    ensures -1 <= i < |options|
    ensures i >= 0 ==> options[i].value == value
    ensures forall j :: 0 <= j < |options| && (i == -1 || j < i) ==> options[j].value != value
  {
    if options == [] then -1
    else if options[0].value == value then 0
    else
      var i := SelectedIndex(options[1..], value);
      assert forall j :: 1 <= j < |options| ==> options[j] == options[1..][j - 1];
      if i == -1 then -1 else i + 1
  }

  /** `campo.value = v`. A select selects the first option with value `v`
      and then reads `v`, or selects nothing and reads ""; a file input takes
      only "", which empties its file list, and refuses anything else. Only
      the value and the file list can change. */
  function Assigned(f: Field, v: string): (g: Field)
    ensures g.(value := f.value, control := f.control) == f
    ensures v == "" ==> g.value == "" && !(g.control.Upload? && g.control.hasFile)
    ensures !f.control.Upload? ==> g.control == f.control
    ensures f.control.Upload? ==> g.control.Upload?
  {
    match f.control
    case Choice(options) => f.(value := if SelectedIndex(options, v) >= 0 then v else "")
    case Upload(_) => if v == "" then f.(value := "", control := Upload(false)) else f
    case _ => f.(value := v)
  }

  /** A field after the user changes it: a select shows the option chosen
      (the first with that value); a file input holds the chosen file's name,
      or nothing when the dialog returned no file; a box flips its checked
      state and keeps its value; a text control holds the new text. */
  function Changed(f: Field, chosen: string): (g: Field)
    ensures g.required == f.required && g.disabled == f.disabled && g.step == f.step
    ensures g.isValid == f.isValid && g.isInvalid == f.isInvalid
  {
    match f.control
    case Choice(_) => Assigned(f, chosen)
    case Upload(_) => f.(value := chosen, control := Upload(chosen != ""))
    case Check(c) => f.(control := Check(!c))
    case _ => f.(value := chosen)
  }

  // ---------------------------------------------------------------------
  // validarCampo

  /** The verdict of `validarCampo` on one field: specific checks by id, in
      the script's order, then the plain required check. A field without a
      check of its own is valid, when required, exactly when its trimmed
      value is not empty, and always when not required; observacao is valid
      when disabled, and otherwise needs a value. */
  function Verdict(env: Env, copy: Copy, key: string, f: Field): (v: bool)
    ensures !Special(copy, key) && f.required ==> (v <==> Trim(f.value) != "")
    ensures !Special(copy, key) && !f.required ==> v
    ensures key == "observacao" ==> (v <==> f.disabled || Trim(f.value) != "")
  {
    var valor := Trim(f.value);
    if key == "cpf" then IsValidCpf(valor)
    else if key == "rg" && copy == Live then ValidRg(valor)
    else if key == "telefone" then ValidPhone(valor)
    else if key == "renda" then
      if copy == Live then IncomeAccepted(f.value) else env.prototypeIncomeOk(valor)
    else if key == "data-emissao" then valor != "" && env.issueDateOk(valor)
    else if key == "observacao" then f.disabled || valor != ""
    else if f.required then valor != ""
    else true
  }

  /** The ids with a check of their own in a copy. */
  predicate Special(copy: Copy, key: string) {
    key in {"cpf", "telefone", "renda", "data-emissao", "observacao"} || (key == "rg" && copy == Live)
  }

  /** `validarCampo` leaves exactly one of the two classes on the field. */
  function MarkField(f: Field, ok: bool): (g: Field)
    ensures g.isValid == ok && g.isInvalid == !ok
    ensures g.(isValid := f.isValid, isInvalid := f.isInvalid) == f
  {
    f.(isValid := ok, isInvalid := !ok)
  }

  /** Picked by `input[required], select[required]` inside `etapa-<step>`. */
  predicate InStep(f: Field, step: int) {
    f.step == step && f.required && !f.control.TextArea?
  }

  /** The verdict of every field of the table. */
  function Verdicts(env: Env, copy: Copy, fs: Table): map<string, bool> {
    map k | k in fs :: Verdict(env, copy, k, fs[k])
  }

  /** Every field of the step in `keys` has a passing verdict in `vs`. */
  predicate Passes(fs: Table, vs: map<string, bool>, keys: seq<string>, step: int) {
    forall k :: k in keys && k in fs && k in vs && InStep(fs[k], step) ==> vs[k]
  }

  /** Every field of the step in `keys` marked with its verdict in `vs`. */
  function Marked(fs: Table, vs: map<string, bool>, keys: seq<string>, step: int): Table {
    map k | k in fs :: if k in keys && k in vs && InStep(fs[k], step) then MarkField(fs[k], vs[k]) else fs[k]
  }

  /** Every field of the step in `keys` passes. */
  predicate AllPass(env: Env, copy: Copy, fs: Table, keys: seq<string>, step: int) {
    Passes(fs, Verdicts(env, copy, fs), keys, step)
  }

  /** The table after `validarCampo` has run on every field of the step in
      `keys`. A verdict does not read the classes, so the order of the calls
      does not matter. */
  function Validated(env: Env, copy: Copy, fs: Table, keys: seq<string>, step: int): Table {
    Marked(fs, Verdicts(env, copy, fs), keys, step)
  }

  /** The step-six rule: laudo answered yes and an observacao field present. */
  predicate CrossApplies(copy: Copy, fs: Table, step: int) {
    step == TotalSteps && "laudo" in fs && fs["laudo"].value == YesCode(copy, "laudo") && "observacao" in fs
  }

  predicate CrossOk(copy: Copy, fs: Table, step: int) {
    CrossApplies(copy, fs, step) ==> Trim(fs["observacao"].value) != ""
  }

  /** The rule's marks: a blank observacao gains `is-invalid` (its
      `is-valid` stays), a filled one loses `is-invalid` and gains `is-valid`. */
  function CrossMarked(copy: Copy, fs: Table, step: int): Table {
    if CrossApplies(copy, fs, step) then
      var o := fs["observacao"];
      if Trim(o.value) == "" then fs["observacao" := o.(isInvalid := true)]
      else fs["observacao" := o.(isInvalid := false, isValid := true)]
    else fs
  }

  /** `validarEtapaAtual`'s result. */
  predicate StepOk(env: Env, copy: Copy, fs: Table, keys: seq<string>, step: int) {
    AllPass(env, copy, fs, keys, step) && CrossOk(copy, fs, step)
  }

  /** `validarEtapaAtual`'s effect on the table. */
  function StepMarked(env: Env, copy: Copy, fs: Table, keys: seq<string>, step: int): Table {
    CrossMarked(copy, Validated(env, copy, fs, keys, step), step)
  }

  // ---------------------------------------------------------------------
  // checarEnvioPermitido (live copy)

  /** Considered by the send gate on the last step. */
  predicate InSendScope(f: Field) {
    f.step == TotalSteps && f.required && !f.control.TextArea? && !f.disabled
  }

  /** A field that keeps the send button disabled: a select with an empty
      value, on its first option, on a disabled option or on none; a file
      input without a file; any other input empty, blank or marked invalid. */
  predicate Blocked(f: Field) {
    match f.control
    case Choice(options) =>
      var i := SelectedIndex(options, f.value);
      f.value == "" || i <= 0 || options[i].disabled
    case Upload(hasFile) => !hasFile
    case _ => f.value == "" || Trim(f.value) == "" || f.isInvalid
  }

  predicate SendAllowed(fs: Table, keys: seq<string>, step: int) {
    step == TotalSteps ==> forall k :: k in keys && k in fs && InSendScope(fs[k]) ==> !Blocked(fs[k])
  }

  // ---------------------------------------------------------------------
  // configurarCamposCondicionais

  /** The change handler of a trigger: enabling makes the dependent editable
      and required, anything else disables it, drops `required` and clears
      it. */
  function Bind(fs: Table, dependent: string, enabling: bool): (g: Table)
    ensures g.Keys == fs.Keys
    ensures forall k :: k in fs && k != dependent ==> g[k] == fs[k]
    ensures dependent in fs && !enabling ==>
      g[dependent].disabled && !g[dependent].required && g[dependent].value == ""
      && !(g[dependent].control.Upload? && g[dependent].control.hasFile)
    ensures dependent in fs && enabling ==>
      !g[dependent].disabled && g[dependent].required && g[dependent].value == fs[dependent].value
      && g[dependent].control == fs[dependent].control
  {
    if dependent in fs then
      var d := fs[dependent];
      if enabling then fs[dependent := d.(disabled := false, required := true)]
      else fs[dependent := Assigned(d, "").(disabled := true, required := false)]
    else fs
  }

  /** The field a trigger controls. */
  function Dependent(trigger: string): string {
    if trigger == "deficiente" then "deficiencia" else "observacao"
  }

  /** A file the live copy's observacao listener drops: one is chosen and
      its type is not PDF. */
  predicate RejectsFile(env: Env, f: Field) {
    f.control.Upload? && f.control.hasFile && !env.pdfFile(f.value)
  }

  /** The change listeners that run after `salvarDados`: a trigger binds its
      dependent to its new value, and in the live copy a file other than a
      PDF chosen for observacao is dropped again. */
  function Reacted(env: Env, copy: Copy, fs: Table, key: string): Table {
    if (key == "deficiente" || key == "laudo") && key in fs then
      Bind(fs, Dependent(key), fs[key].value == YesCode(copy, key))
    else if key == "observacao" && copy == Live && key in fs && RejectsFile(env, fs[key]) then
      fs[key := Assigned(fs[key], "")]
    else fs
  }

  // ---------------------------------------------------------------------
  // salvarDados / preencherFormulario

  /** A saved value: the text of a control, or a file (which the storage
      cannot hold as text). */
  datatype Entry = Text(text: string) | Attachment

  /** What `new FormData(form)` holds for a field, if anything: disabled
      controls, unchecked boxes, and selects with no option or a disabled
      option selected are left out. */
  function EntryOf(f: Field): Option<Entry> {
    if f.disabled then None
    else match f.control
      case Upload(_) => Some(Attachment)
      case Check(checked) => if checked then Some(Text(f.value)) else None
      case Choice(options) =>
        var i := SelectedIndex(options, f.value);
        if i >= 0 && !options[i].disabled then Some(Text(f.value)) else None
      case _ => Some(Text(f.value))
  }

  datatype Option<T> = None | Some(get: T)

  /** `dadosFormulario` rebuilt from the form: nothing of a disabled control,
      the text of every enabled text control, a box only while checked, and
      a file input as a file. */
  function Snapshot(fs: Table): (d: map<string, Entry>)
    ensures forall k :: k in d ==> k in fs && !fs[k].disabled
    ensures forall k :: k in fs && !fs[k].disabled && (fs[k].control.Entry? || fs[k].control.TextArea?) ==>
      k in d && d[k] == Text(fs[k].value)
    ensures forall k :: k in fs && fs[k].control.Check? ==> (k in d <==> !fs[k].disabled && fs[k].control.checked)
    ensures forall k :: k in d ==> (d[k] == Attachment <==> fs[k].control.Upload?)
  {
    map k | k in fs && EntryOf(fs[k]).Some? :: EntryOf(fs[k]).get
  }

  /** Whether `preencherFormulario` writes the saved entry back into `f`. */
  predicate Restores(copy: Copy, f: Field, e: Entry) {
    e.Text? && !(copy == Live && f.control.Upload?)
  }

  /** `preencherFormulario`: every saved text is assigned back to the
      field's value, which moves a select's selection; the live copy skips
      file inputs. Attributes, marks and a box's checked state stay as the
      page has them, and a field without a saved entry is untouched. */
  function Restore(copy: Copy, fs: Table, saved: map<string, Entry>): (g: Table)
    ensures g.Keys == fs.Keys
    ensures forall k :: k in fs ==> g[k].(value := fs[k].value, control := fs[k].control) == fs[k]
    ensures forall k :: k in fs && k !in saved ==> g[k] == fs[k]
    ensures forall k :: k in fs && (fs[k].control.Check? || fs[k].control.Choice?) ==> g[k].control == fs[k].control
    ensures copy == Live ==> forall k :: k in fs && fs[k].control.Upload? ==> g[k] == fs[k]
  {
    map k | k in fs :: if k in saved && Restores(copy, fs[k], saved[k]) then Assigned(fs[k], saved[k].text) else fs[k]
  }

  // ---------------------------------------------------------------------
  // limparFormulario (live copy)

  /** One field after the clearing loop: files and values emptied (a select
      then selects its option with an empty value, if any), boxes unchecked,
      both validation classes removed. */
  function ResetField(f: Field): (g: Field)
    ensures !g.isValid && !g.isInvalid
    ensures g.required == f.required && g.disabled == f.disabled && g.step == f.step
    ensures g.control.Check? == f.control.Check?
    ensures if g.control.Check? then !g.control.checked else g.value == ""
    ensures !(g.control.Upload? && g.control.hasFile)
  {
    var c := f.(isValid := false, isInvalid := false);
    match f.control
    case Check(_) => c.(control := Check(false))
    case _ => Assigned(c, "")
  }

  function Disable(fs: Table, key: string): (g: Table)
    ensures g.Keys == fs.Keys
    ensures forall k :: k in fs ==> g[k] == if k == key then fs[k].(disabled := true) else fs[k]
  {
    if key in fs then fs[key := fs[key].(disabled := true)] else fs
  }

  /** The clearing loop over every field but the token. */
  function Cleared(fs: Table): (g: Table)
    ensures g.Keys == fs.Keys
    ensures forall k :: k in fs ==> g[k] == if k == TokenField then fs[k] else ResetField(fs[k])
  {
    map k | k in fs :: if k == TokenField then fs[k] else ResetField(fs[k])
  }

  /** The table after the reset, before the token is renewed: the token
      field exactly as it was; every other field without marks, files or a
      tick, and with an empty value unless it is a box; both dependents
      disabled again. */
  function ResetTable(fs: Table): (g: Table)
    ensures g.Keys == fs.Keys
    ensures TokenField in fs ==> g[TokenField] == fs[TokenField]
    ensures forall k :: k in fs && k != TokenField ==>
      !g[k].isValid && !g[k].isInvalid
      && (if g[k].control.Check? then !g[k].control.checked else g[k].value == "")
      && !(g[k].control.Upload? && g[k].control.hasFile)
    ensures "observacao" in fs ==> g["observacao"].disabled
    ensures "deficiencia" in fs ==> g["deficiencia"].disabled
  {
    Disable(Disable(Cleared(fs), "observacao"), "deficiencia")
  }

  // ---------------------------------------------------------------------
  // Lemmas

  /** The prototype has no RG check: an RG is only checked for being filled. */
  lemma PrototypeRgOnlyRequired(env: Env, f: Field)
    requires f.required
    ensures Verdict(env, Prototype, "rg", f) <==> Trim(f.value) != ""
    ensures Verdict(env, Live, "rg", f) <==> ValidRg(f.value)
  {
    VerdictsIgnoreTrim(f.value);
  }

  /** After the step validation every field of the step carries the class of
      its own verdict, and nothing else but the marks changes. */
  lemma ValidatedMarksEveryField(env: Env, copy: Copy, fs: Table, keys: seq<string>, step: int)
    ensures var g := Validated(env, copy, fs, keys, step);
      g.Keys == fs.Keys
      && (forall k :: k in keys && k in fs && InStep(fs[k], step) ==>
            g[k].isValid == Verdict(env, copy, k, fs[k]) && g[k].isInvalid == !Verdict(env, copy, k, fs[k]))
      && (forall k :: k in fs && !(k in keys && InStep(fs[k], step)) ==> g[k] == fs[k])
      && (forall k :: k in fs ==> g[k].(isValid := fs[k].isValid, isInvalid := fs[k].isInvalid) == fs[k])
  {
  }

  /** A failed step leaves at least one field marked invalid. */
  lemma StepFailureIsVisible(env: Env, copy: Copy, fs: Table, keys: seq<string>, step: int)
    requires !StepOk(env, copy, fs, keys, step)
    ensures var g := StepMarked(env, copy, fs, keys, step);
      exists k :: k in g && g[k].isInvalid
  {
    if !AllPass(env, copy, fs, keys, step) {
      FailedFieldIsVisible(env, copy, fs, keys, step);
    } else {
      CrossFailureIsVisible(env, copy, fs, keys, step);
    }
  }

  lemma FailedFieldIsVisible(env: Env, copy: Copy, fs: Table, keys: seq<string>, step: int)
    requires !AllPass(env, copy, fs, keys, step)
    ensures var g := StepMarked(env, copy, fs, keys, step);
      exists k :: k in g && g[k].isInvalid
  {
    var v := Validated(env, copy, fs, keys, step);
    var g := CrossMarked(copy, v, step);
    assert g == StepMarked(env, copy, fs, keys, step);
    var vs := Verdicts(env, copy, fs);
    var k :| k in keys && k in fs && k in vs && InStep(fs[k], step) && !vs[k];
    assert v[k] == MarkField(fs[k], false);
    assert k in g;
    assert g[k].isInvalid by {
      if CrossApplies(copy, v, step) && k == "observacao" {
        assert v[k].value == fs[k].value;
      }
    }
  }

  lemma CrossFailureIsVisible(env: Env, copy: Copy, fs: Table, keys: seq<string>, step: int)
    requires AllPass(env, copy, fs, keys, step) && !CrossOk(copy, fs, step)
    ensures var g := StepMarked(env, copy, fs, keys, step);
      exists k :: k in g && g[k].isInvalid
  {
    var v := Validated(env, copy, fs, keys, step);
    var g := CrossMarked(copy, v, step);
    assert g == StepMarked(env, copy, fs, keys, step);
    assert v["laudo"].value == fs["laudo"].value;
    assert "laudo" in v && "observacao" in v;
    assert fs["observacao"].value == v["observacao"].value;
    assert CrossApplies(copy, v, step);
    assert g == v["observacao" := v["observacao"].(isInvalid := true)];
    var w := "observacao";
    assert w in g && g[w].isInvalid;
  }

  /** A passed step leaves every field of the step marked valid and none
      invalid. */
  lemma StepSuccessIsVisible(env: Env, copy: Copy, fs: Table, keys: seq<string>, step: int)
    requires StepOk(env, copy, fs, keys, step)
    ensures var g := StepMarked(env, copy, fs, keys, step);
      forall k :: k in keys && k in fs && InStep(fs[k], step) ==> g[k].isValid && !g[k].isInvalid
  {
    var v := Validated(env, copy, fs, keys, step);
    var g := CrossMarked(copy, v, step);
    forall k | k in keys && k in fs && InStep(fs[k], step)
      ensures g[k].isValid && !g[k].isInvalid
    {
      assert v[k] == MarkField(fs[k], true);
      if CrossApplies(copy, v, step) {
        assert fs["observacao"].value == v["observacao"].value;
      }
    }
  }

  /** The one way a field ends with both classes: on step six, laudo is yes,
      and a disabled, blank, required observacao of the step passes its own
      check and is then flagged by the rule without losing `is-valid`. */
  lemma BothClassesOnObservacao(env: Env, copy: Copy, fs: Table, keys: seq<string>)
    requires "laudo" in fs && fs["laudo"].value == YesCode(copy, "laudo")
    requires "observacao" in fs && "observacao" in keys
    requires var o := fs["observacao"]; o.disabled && o.value == "" && InStep(o, TotalSteps)
    ensures var g := StepMarked(env, copy, fs, keys, TotalSteps);
      g["observacao"].isValid && g["observacao"].isInvalid
    ensures !StepOk(env, copy, fs, keys, TotalSteps)
  {
    var v := Validated(env, copy, fs, keys, TotalSteps);
    assert v["observacao"].isValid;
    assert v["laudo"].value == fs["laudo"].value;
    assert Trim(v["observacao"].value) == "";
  }

  /** A field marked invalid, or with a blank value, always blocks the gate
      when it is in scope: text inputs by their class or value, selects by an
      empty value. */
  lemma BlankBlocks(f: Field)
    requires !f.control.Upload?
    ensures Trim(f.value) == "" && !f.control.Choice? ==> Blocked(f)
    ensures f.value == "" ==> Blocked(f)
    ensures f.isInvalid && (f.control.Entry? || f.control.Check?) ==> Blocked(f)
  {
  }

  /** Choosing an option opens a select for the gate exactly when the option
      is not the first, is not disabled and has a value, provided no earlier
      option has the same value (which the choice would select instead). */
  lemma ChoosingOpensSelect(f: Field, i: nat)
    requires f.control.Choice? && i < |f.control.options|
    requires forall j :: 0 <= j < i ==> f.control.options[j].value != f.control.options[i].value
    ensures var o := f.control.options[i];
      !Blocked(Changed(f, o.value)) <==> 0 < i && !o.disabled && o.value != ""
  {
    var o := f.control.options[i];
    assert SelectedIndex(f.control.options, o.value) == i;
  }

  /** A file input opens the gate exactly when the dialog returned a file. */
  lemma PickingOpensUpload(f: Field, name: string)
    requires f.control.Upload?
    ensures !Blocked(Changed(f, name)) <==> name != ""
  {
  }

  /** An answer that a field of the last step accepts: a select's value must
      select an enabled option other than the first, a file input needs a
      file, a text input a non-blank text while it is not marked invalid; a
      box is judged by its value and class, which ticking leaves alone. */
  predicate Accepts(f: Field, answer: string) {
    match f.control
    case Choice(options) =>
      var i := SelectedIndex(options, answer);
      answer != "" && i > 0 && !options[i].disabled
    case Upload(_) => answer != ""
    case Check(_) => Trim(f.value) != "" && !f.isInvalid
    case _ => Trim(answer) != "" && !f.isInvalid
  }

  /** The form after the user has answered the fields in `answers`. */
  function Answered(fs: Table, answers: map<string, string>): Table {
    map k | k in fs :: if k in answers then Changed(fs[k], answers[k]) else fs[k]
  }

  /** The gate can open: once every field it considers has an accepted
      answer, the send is allowed. */
  lemma AnsweredFormSends(fs: Table, keys: seq<string>, answers: map<string, string>)
    requires forall k :: k in keys && k in fs && InSendScope(fs[k]) ==> k in answers && Accepts(fs[k], answers[k])
    ensures SendAllowed(Answered(fs, answers), keys, TotalSteps)
  {
    var g := Answered(fs, answers);
    forall k | k in keys && k in g && InSendScope(g[k])
      ensures !Blocked(g[k])
    {
      assert InSendScope(fs[k]);
      if fs[k].control.Choice? {
        assert Assigned(fs[k], answers[k]).value == answers[k];
      }
      assert Trim("") == "";
    }
  }

  /** No field other than laudo and observacao is considered by the gate. */
  predicate OnlyLaudoInScope(fs: Table) {
    forall k :: k in fs && k != "laudo" && k != "observacao" ==> !InSendScope(fs[k])
  }

  /** With only laudo and observacao in scope, the gate looks at those two. */
  lemma TwoFieldGate(fs: Table, keys: seq<string>)
    requires "laudo" in fs && "observacao" in fs && "laudo" in keys && "observacao" in keys
    requires OnlyLaudoInScope(fs)
    ensures SendAllowed(fs, keys, TotalSteps) <==>
      (InSendScope(fs["laudo"]) ==> !Blocked(fs["laudo"]))
      && (InSendScope(fs["observacao"]) ==> !Blocked(fs["observacao"]))
  {
  }

  /** laudo as the live page has it: a placeholder, then `Sim` and `Não`. */
  const LaudoOptions := [SelectOption("", false), SelectOption("Sim", false), SelectOption("N\U{00E3}o", false)]

  /** The live copy's last step with laudo and observacao, the file input it
      controls, as the only fields the gate considers. Answering `Sim` makes
      observacao required, so the gate stays closed. */
  lemma LaudoYesWaitsForFile(env: Env, fs: Table, keys: seq<string>)
    requires "laudo" in fs && "observacao" in fs && "laudo" in keys && "observacao" in keys
    requires fs["laudo"].control == Choice(LaudoOptions) && InSendScope(fs["laudo"])
    requires fs["observacao"].control == Upload(false) && fs["observacao"].step == TotalSteps
    requires OnlyLaudoInScope(fs)
    ensures !SendAllowed(Reacted(env, Live, fs["laudo" := Changed(fs["laudo"], "Sim")], "laudo"), keys, TotalSteps)
  {
    assert SelectedIndex(LaudoOptions, "Sim") == 1;
    var typed := fs["laudo" := Changed(fs["laudo"], "Sim")];
    assert typed["laudo"].value == "Sim";
    var yes := Reacted(env, Live, typed, "laudo");
    assert yes == Bind(typed, "observacao", true);
    assert InSendScope(yes["observacao"]) && Blocked(yes["observacao"]);
  }

  /** After `Sim`, attaching a file opens the gate exactly when a file was
      chosen and it is a PDF. */
  lemma LaudoYesThenFile(env: Env, fs: Table, keys: seq<string>, name: string)
    requires "laudo" in fs && "observacao" in fs && "laudo" in keys && "observacao" in keys
    requires fs["laudo"].control == Choice(LaudoOptions) && InSendScope(fs["laudo"])
    requires fs["observacao"].control == Upload(false) && fs["observacao"].step == TotalSteps
    requires OnlyLaudoInScope(fs)
    ensures var yes := Reacted(env, Live, fs["laudo" := Changed(fs["laudo"], "Sim")], "laudo");
      SendAllowed(Reacted(env, Live, yes["observacao" := Changed(yes["observacao"], name)], "observacao"), keys, TotalSteps)
      <==> name != "" && env.pdfFile(name)
  {
    assert SelectedIndex(LaudoOptions, "Sim") == 1;
    var typed := fs["laudo" := Changed(fs["laudo"], "Sim")];
    assert typed["laudo"].value == "Sim";
    var yes := Reacted(env, Live, typed, "laudo");
    assert yes == Bind(typed, "observacao", true);
    assert !Blocked(yes["laudo"]);
    var attached := yes["observacao" := Changed(yes["observacao"], name)];
    var after := Reacted(env, Live, attached, "observacao");
    assert after["laudo"] == yes["laudo"];
    assert InSendScope(after["observacao"]);
    TwoFieldGate(after, keys);
    if name != "" && env.pdfFile(name) {
      assert after == attached;
    }
  }

  /** Answering `Não` keeps observacao disabled and opens the gate at once. */
  lemma LaudoNoSends(env: Env, fs: Table, keys: seq<string>)
    requires "laudo" in fs && "observacao" in fs && "laudo" in keys && "observacao" in keys
    requires fs["laudo"].control == Choice(LaudoOptions) && InSendScope(fs["laudo"])
    requires OnlyLaudoInScope(fs)
    ensures SendAllowed(Reacted(env, Live, fs["laudo" := Changed(fs["laudo"], "N\U{00E3}o")], "laudo"), keys, TotalSteps)
  {
    assert SelectedIndex(LaudoOptions, "N\U{00E3}o") == 2;
    var typed := fs["laudo" := Changed(fs["laudo"], "N\U{00E3}o")];
    assert typed["laudo"].value == "N\U{00E3}o";
    assert typed["laudo"].value != "Sim";
    var no := Reacted(env, Live, typed, "laudo");
    assert no == Bind(typed, "observacao", false);
    assert !InSendScope(no["observacao"]);
    assert !Blocked(no["laudo"]);
    TwoFieldGate(no, keys);
  }

  /** A trigger answered other than yes takes observacao out of the gate's
      scope, and its verdict is then always valid. */
  lemma DisabledDependentNeverBlocks(env: Env, copy: Copy, fs: Table, enabling: bool)
    requires "observacao" in fs && !enabling
    ensures var g := Bind(fs, "observacao", enabling);
      !InSendScope(g["observacao"]) && Verdict(env, copy, "observacao", g["observacao"])
  {
  }

  /** Saving and restoring into the same table changes nothing: a saved
      select value selects the same option again. */
  lemma RestoreSnapshot(copy: Copy, fs: Table)
    ensures Restore(copy, fs, Snapshot(fs)) == fs
  {
    var r := Restore(copy, fs, Snapshot(fs));
    forall k | k in fs ensures r[k] == fs[k] {
      if k in Snapshot(fs) && Restores(copy, fs[k], Snapshot(fs)[k]) {
        assert Snapshot(fs)[k] == EntryOf(fs[k]).get;
        if fs[k].control.Choice? {
          assert SelectedIndex(fs[k].control.options, fs[k].value) >= 0;
        }
        assert Assigned(fs[k], fs[k].value) == fs[k];
      }
    }
  }

  /** Restoring into a freshly loaded form gives back every saved text of an
      enabled field, whatever the loaded values were, and with a select's
      value its selection, so the selects block the gate as they did when
      saved; a box's checked state and, in the live copy, a file never come
      back. */
  lemma RestoreRecovers(copy: Copy, fs: Table, loaded: Table, k: string)
    requires k in fs && k in loaded && loaded[k].control == fs[k].control
    ensures EntryOf(fs[k]).Some? && EntryOf(fs[k]).get.Text?
      ==> Restore(copy, loaded, Snapshot(fs))[k].value == fs[k].value
    ensures fs[k].control.Choice? && EntryOf(fs[k]).Some?
      ==> (Blocked(Restore(copy, loaded, Snapshot(fs))[k]) <==> Blocked(fs[k]))
    ensures Restore(copy, loaded, Snapshot(fs))[k].control == loaded[k].control
    ensures fs[k].disabled ==> Restore(copy, loaded, Snapshot(fs))[k] == loaded[k]
  {
    var r := Restore(copy, loaded, Snapshot(fs));
    if EntryOf(fs[k]).Some? && EntryOf(fs[k]).get.Text? {
      assert !fs[k].control.Upload?;
      assert Snapshot(fs)[k] == EntryOf(fs[k]).get;
      if fs[k].control.Choice? {
        assert SelectedIndex(fs[k].control.options, fs[k].value) >= 0;
      }
    }
    if fs[k].disabled {
      assert k !in Snapshot(fs);
    }
  }
}
