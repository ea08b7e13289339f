/** The six-step intake wizard: the global step counter `etapaAtual`, the
    form's field table, the saved data `dadosFormulario` and its storage
    slot, the navigation buttons and the step indicators. Each method is one
    function or event handler of the script; `copy` selects the live or the
    prototype behaviour where the two differ. */
module Wizard {
  import opened Text
  import opened Masks
  import opened Income
  import opened Fields
  import opened Summary
  import Csrf

  /** `Math.round(etapaAtual / totalEtapas * 100)`: the nearest whole
      percentage, halves rounded up. */
  function Percent(k: int): (r: int)
    requires 1 <= k <= TotalSteps
    ensures 12 * r - 6 <= 200 * k < 12 * r + 6
  {
    (200 * k + 6) / 12
  }

  lemma PercentValues()
    ensures Percent(1) == 17 && Percent(2) == 33 && Percent(3) == 50
    ensures Percent(4) == 67 && Percent(5) == 83 && Percent(6) == 100
  {
  }

  /** The input handler of a field, if it has one: the masks, and the
      income formatter of the live copy (the RG mask is live only too). */
  function Masked(copy: Copy, key: string, value: string): string {
    if key == "cpf" then CpfInput(value)
    else if key == "rg" && copy == Live then RgInput(value)
    else if key == "telefone" then PhoneInput(value)
    else if key == "renda" && copy == Live then FormatIncome(value)
    else value
  }

  /** The income field's value after its blur formatter, which the live copy
      registers before the validation listener. */
  function Formatted(copy: Copy, fs: Table, key: string): Table
    requires key in fs
  {
    if key == "renda" && copy == Live then fs[key := fs[key].(value := FormatIncome(fs[key].value))] else fs
  }

  /** What typing does to a control: a text control takes the text; the
      input event of any other control accompanies its change event, which
      `Change` models, and leaves it as it is. */
  function Typed(f: Field, text: string): Field {
    if f.control.Entry? || f.control.TextArea? then f.(value := text) else f
  }

  /** The income value as the last step of the live copy submits it. */
  function WithIncomeNormalized(fs: Table): Table {
    if "renda" in fs then fs["renda" := fs["renda"].(value := NormalizeIncome(fs["renda"].value))] else fs
  }

  /** Marking one more key extends the marks by that key's verdict. */
  lemma MarkedStep(fs: Table, vs: map<string, bool>, keys: seq<string>, i: nat, step: int)
    requires i < |keys|
    ensures var k := keys[i];
      Marked(fs, vs, keys[..i + 1], step)
         == if k in fs && k in vs && InStep(fs[k], step)
            then Marked(fs, vs, keys[..i], step)[k := MarkField(fs[k], vs[k])]
            else Marked(fs, vs, keys[..i], step)
    ensures var k := keys[i];
      Passes(fs, vs, keys[..i + 1], step)
        == (Passes(fs, vs, keys[..i], step) && (k in fs && k in vs && InStep(fs[k], step) ==> vs[k]))
  {
    assert keys[..i + 1] == keys[..i] + [keys[i]];
  }

  /** The marks leave values and keys alone, so the step-six rule sees the
      same fields before and after them. */
  lemma ValidatedKeepsCross(env: Env, copy: Copy, fs: Table, keys: seq<string>, step: int)
    ensures var v := Validated(env, copy, fs, keys, step);
      v.Keys == fs.Keys
      && (forall k :: k in fs ==> v[k].value == fs[k].value)
      && (CrossApplies(copy, v, step) <==> CrossApplies(copy, fs, step))
      && (CrossApplies(copy, v, step) ==> (CrossOk(copy, v, step) <==> CrossOk(copy, fs, step)))
  {
  }

  class Wizard {
    const copy: Copy
    const env: Env
    /** The form's controls in document order. */
    const order: seq<string>
    /** The `data-etapa` number of each step button, in page order. */
    const stepButtons: seq<int>
    /** The inputs and selects marked `required` when the page loaded: the
        only ones whose blur, input and change events reach the validation. */
    const watched: set<string>

    var fields: Table
    var step: int
    /** Steps whose button carries the `completed` class. */
    var completed: set<int>
    var prevDisabled: bool
    var nextDisabled: bool
    var percent: int
    /** Whether each step button carries the `active` class. */
    var active: seq<bool>
    /** `dadosFormulario`. */
    var saved: map<string, Entry>
    /** The `formulario-cras-dados` item of the local storage. */
    var storage: Option<map<string, Entry>>
    var submitted: bool
    /** The review summary the prototype shows before sending. */
    var summary: Option<seq<Line>>

    /** The step indicators agree with the step. */
    predicate Indicators()
      reads this
    {
      1 <= step <= TotalSteps
      && percent == Percent(step)
      && prevDisabled == (step == 1)
      && |active| == |stepButtons|
      && (forall i :: 0 <= i < |stepButtons| ==> active[i] == (stepButtons[i] == step))
    }

    /** The indicators follow the step, every field is in the form's order,
        and the next button can only be disabled on the live copy's last
        step, the one place where `checarEnvioPermitido` can close it. */
    ghost predicate Valid()
      reads this
    {
      Indicators() && (forall k :: k in fields ==> k in order)
      && (copy == Prototype || step < TotalSteps ==> !nextDisabled)
    }

    /** Page load: the saved data, if any, is read back into the form and the
        interface is drawn for step one. On the live copy's success page the
        storage is emptied first. */
    constructor (copy: Copy, env: Env, order: seq<string>, stepButtons: seq<int>, form: Table,
                 stored: Option<map<string, Entry>>, onSuccessPage: bool)
      requires forall k :: k in form ==> k in order
      ensures Valid()
      ensures this.copy == copy && this.env == env && this.order == order && this.stepButtons == stepButtons
      ensures watched == set k | k in form && form[k].required && !form[k].control.TextArea?
      ensures storage == (if copy == Live && onSuccessPage then None else stored)
      ensures storage.Some? ==> saved == storage.get && fields == Restore(copy, form, storage.get)
      ensures storage.None? ==> saved == map[] && fields == form
      ensures step == 1 && completed == {} && !submitted && summary.None?
      ensures !nextDisabled
    {
      this.copy := copy;
      this.env := env;
      this.order := order;
      this.stepButtons := stepButtons;
      watched := set k | k in form && form[k].required && !form[k].control.TextArea?;
      var kept := if copy == Live && onSuccessPage then None else stored;
      storage := kept;
      saved := if kept.Some? then kept.get else map[];
      fields := if kept.Some? then Restore(copy, form, kept.get) else form;
      step := 1;
      completed := {};
      submitted := false;
      summary := None;
      nextDisabled := false;
      prevDisabled := true;
      percent := Percent(1);
      active := [];
      new;
      RefreshInterface();
    }

    /** `checarEnvioPermitido`: the send button is disabled exactly when the
        send gate blocks. */
    method CheckSendAllowed()
      modifies this
      ensures nextDisabled == !SendAllowed(fields, order, step)
      ensures fields == old(fields) && step == old(step) && completed == old(completed)
      ensures prevDisabled == old(prevDisabled) && percent == old(percent) && active == old(active)
      ensures saved == old(saved) && storage == old(storage) && submitted == old(submitted) && summary == old(summary)
    {
      var podeEnviar := true;
      if step == TotalSteps {
        for i := 0 to |order|
          invariant podeEnviar == (forall k :: k in order[..i] && k in fields && InSendScope(fields[k]) ==> !Blocked(fields[k]))
        {
          var campo := order[i];
          assert order[..i + 1] == order[..i] + [campo];
          if campo in fields && InSendScope(fields[campo]) && Blocked(fields[campo]) {
            podeEnviar := false;
          }
        }
        assert order[..|order|] == order;
      }
      nextDisabled := !podeEnviar;
    }

    /** `atualizarInterface`: percentage, active step button and back button
        follow the step; the live copy also re-runs the send gate. */
    method RefreshInterface()
      requires 1 <= step <= TotalSteps
      modifies this
      ensures Indicators()
      ensures copy == Live ==> nextDisabled == !SendAllowed(fields, order, step)
      ensures copy == Prototype ==> nextDisabled == old(nextDisabled)
      ensures fields == old(fields) && step == old(step) && completed == old(completed)
      ensures saved == old(saved) && storage == old(storage) && submitted == old(submitted) && summary == old(summary)
    {
      percent := Percent(step);
      var flags: seq<bool> := [];
      for i := 0 to |stepButtons|
        invariant |flags| == i
        invariant forall j :: 0 <= j < i ==> flags[j] == (stepButtons[j] == step)
      {
        flags := flags + [stepButtons[i] == step];
      }
      active := flags;
      prevDisabled := step == 1;
      if copy == Live {
        CheckSendAllowed();
      }
    }

    /** `validarCampo` on one field. */
    method ValidateField(key: string) returns (ok: bool)
      requires key in fields
      modifies this
      ensures ok == Verdict(env, copy, key, old(fields)[key])
      ensures fields == old(fields)[key := MarkField(old(fields)[key], ok)]
      ensures step == old(step) && completed == old(completed) && nextDisabled == old(nextDisabled)
      ensures prevDisabled == old(prevDisabled) && percent == old(percent) && active == old(active)
      ensures saved == old(saved) && storage == old(storage) && submitted == old(submitted) && summary == old(summary)
    {
      ok := Verdict(env, copy, key, fields[key]);
      fields := fields[key := MarkField(fields[key], ok)];
    }

    /** The loop of `validarEtapaAtual` over the form's controls: each
        required input and select of the current step is validated and
        marked, and no failure stops the loop. */
    method MarkStepFields(initial: Table) returns (marked: Table, pass: bool)
      ensures marked == Validated(env, copy, initial, order, step)
      ensures pass == AllPass(env, copy, initial, order, step)
    {
      var verdicts := Verdicts(env, copy, initial);
      marked := initial;
      pass := true;
      for i := 0 to |order|
        invariant marked == Marked(initial, verdicts, order[..i], step)
        invariant pass == Passes(initial, verdicts, order[..i], step)
      {
        var campo := order[i];
        MarkedStep(initial, verdicts, order, i, step);
        if campo in initial && InStep(initial[campo], step) {
          var valido := Verdict(env, copy, campo, initial[campo]);
          assert campo in verdicts && verdicts[campo] == valido;
          marked := marked[campo := MarkField(initial[campo], valido)];
          if !valido {
            pass := false;
          }
        }
      }
      assert order[..|order|] == order;
    }

    /** `validarEtapaAtual`: every required input and select of the step is
        validated, then the step-six observacao rule runs. */
    method ValidateStep() returns (ok: bool)
      modifies this
      ensures ok == StepOk(env, copy, old(fields), order, step)
      ensures fields == StepMarked(env, copy, old(fields), order, step)
      ensures step == old(step) && completed == old(completed) && nextDisabled == old(nextDisabled)
      ensures prevDisabled == old(prevDisabled) && percent == old(percent) && active == old(active)
      ensures saved == old(saved) && storage == old(storage) && submitted == old(submitted) && summary == old(summary)
    {
      var initial := fields;
      var marked, etapaValida := MarkStepFields(initial);
      var v := marked;
      ValidatedKeepsCross(env, copy, initial, order, step);
      assert etapaValida == AllPass(env, copy, initial, order, step);
      if CrossApplies(copy, v, step) {
        var o := v["observacao"];
        if Trim(o.value) == "" {
          marked := v["observacao" := o.(isInvalid := true)];
          etapaValida := false;
        } else {
          marked := v["observacao" := o.(isInvalid := false, isValid := true)];
        }
      }
      assert marked == CrossMarked(copy, v, step);
      assert etapaValida == (AllPass(env, copy, initial, order, step) && CrossOk(copy, v, step));
      fields := marked;
      ok := etapaValida;
    }

    /** The `blur` event of a field: in the live copy the income formatter
        runs first; then a watched field is validated and, in the live copy,
        the send gate re-runs; any other blur does nothing. */
    method Blur(key: string)
      requires Valid() && key in fields && !fields[key].disabled
      modifies this
      ensures Valid()
      ensures var shown := Formatted(copy, old(fields), key);
        fields == if key in watched then shown[key := MarkField(shown[key], Verdict(env, copy, key, shown[key]))] else shown
      ensures copy == Live && key in watched ==> nextDisabled == !SendAllowed(fields, order, step)
      ensures copy == Prototype || key !in watched ==> nextDisabled == old(nextDisabled)
      ensures step == old(step) && completed == old(completed)
      ensures prevDisabled == old(prevDisabled) && percent == old(percent) && active == old(active)
      ensures saved == old(saved) && storage == old(storage) && submitted == old(submitted) && summary == old(summary)
    {
      fields := Formatted(copy, fields, key);
      if key in watched {
        var _ := ValidateField(key);
        if copy == Live {
          CheckSendAllowed();
        }
      }
    }

    /** The `focus` event: the live copy shows the income as a plain decimal
        number for editing; any other focus does nothing. */
    method Focus(key: string)
      requires Valid() && key in fields && !fields[key].disabled
      modifies this
      ensures Valid()
      ensures fields == if key == "renda" && copy == Live
                        then old(fields)[key := old(fields)[key].(value := UnformatIncome(old(fields)[key].value))]
                        else old(fields)
      ensures step == old(step) && completed == old(completed) && nextDisabled == old(nextDisabled)
      ensures prevDisabled == old(prevDisabled) && percent == old(percent) && active == old(active)
      ensures saved == old(saved) && storage == old(storage) && submitted == old(submitted) && summary == old(summary)
    {
      if key == "renda" && copy == Live {
        fields := fields[key := fields[key].(value := UnformatIncome(fields[key].value))];
      }
    }

    /** `salvarDados`: `dadosFormulario` rebuilt from the form, entry by
        entry, and written to the storage. */
    method Save()
      requires forall k :: k in fields ==> k in order
      modifies this
      ensures saved == Snapshot(fields) && storage == Some(Snapshot(fields))
      ensures fields == old(fields) && step == old(step) && completed == old(completed) && nextDisabled == old(nextDisabled)
      ensures prevDisabled == old(prevDisabled) && percent == old(percent) && active == old(active)
      ensures submitted == old(submitted) && summary == old(summary)
    {
      var dados: map<string, Entry> := map[];
      for i := 0 to |order|
        invariant dados == map k | k in order[..i] && k in fields && EntryOf(fields[k]).Some? :: EntryOf(fields[k]).get
      {
        var campo := order[i];
        assert order[..i + 1] == order[..i] + [campo];
        if campo in fields && EntryOf(fields[campo]).Some? {
          dados := dados[campo := EntryOf(fields[campo]).get];
        }
      }
      assert order[..|order|] == order;
      saved := dados;
      storage := Some(dados);
    }

    /** The `input` event of a field: `salvarDados` runs first (it was
        registered first), then the field's mask or formatter, if it has one,
        rewrites the value, and last, for a watched field of the live copy,
        the send gate. The saved copy therefore holds the value as typed. */
    method Input(key: string, typed: string)
      requires Valid() && key in fields && !fields[key].disabled
      modifies this
      ensures Valid()
      ensures var t := Typed(old(fields)[key], typed);
        fields == old(fields)[key := t.(value := Masked(copy, key, t.value))]
      ensures saved == Snapshot(old(fields)[key := Typed(old(fields)[key], typed)]) && storage == Some(saved)
      ensures copy == Live && key in watched ==> nextDisabled == !SendAllowed(fields, order, step)
      ensures copy == Prototype || key !in watched ==> nextDisabled == old(nextDisabled)
      ensures step == old(step) && completed == old(completed)
      ensures submitted == old(submitted) && summary == old(summary)
    {
      fields := fields[key := Typed(fields[key], typed)];
      Save();
      Reformat(key);
      if copy == Live && key in watched {
        CheckSendAllowed();
      }
    }

    /** The mask listener of a field rewrites its value. */
    method Reformat(key: string)
      requires key in fields
      modifies this
      ensures fields == old(fields)[key := old(fields)[key].(value := Masked(copy, key, old(fields)[key].value))]
      ensures step == old(step) && completed == old(completed) && nextDisabled == old(nextDisabled)
      ensures prevDisabled == old(prevDisabled) && percent == old(percent) && active == old(active)
      ensures saved == old(saved) && storage == old(storage) && submitted == old(submitted) && summary == old(summary)
    {
      fields := fields[key := fields[key].(value := Masked(copy, key, fields[key].value))];
    }

    /** The `change` event of a control: the user's choice lands in the
        field, then `salvarDados` runs, then the listeners of the two triggers
        bind their dependent and, in the live copy, the observacao listener
        drops a file that is not a PDF and re-runs the send gate, as the
        validation listener does for a watched control. The saved copy
        therefore holds the dependent and the file from before the
        listeners. */
    method Change(key: string, chosen: string)
      requires Valid() && key in fields && !fields[key].disabled
      modifies this
      ensures Valid()
      ensures var typed := old(fields)[key := Changed(old(fields)[key], chosen)];
        saved == Snapshot(typed) && storage == Some(saved) && fields == Reacted(env, copy, typed, key)
      ensures copy == Live && (key in watched || key == "observacao") ==> nextDisabled == !SendAllowed(fields, order, step)
      ensures !(copy == Live && (key in watched || key == "observacao")) ==> nextDisabled == old(nextDisabled)
      ensures step == old(step) && completed == old(completed)
      ensures submitted == old(submitted) && summary == old(summary)
    {
      fields := fields[key := Changed(fields[key], chosen)];
      Save();
      var typed := fields;
      fields := Reacted(env, copy, typed, key);
      assert forall k :: k in fields ==> k in typed;
      if copy == Live && (key in watched || key == "observacao") {
        CheckSendAllowed();
      }
    }

    /** `proximaEtapa` below the last step: advance by one exactly when the
        step validates, marking the step's button completed. */
    method Advance()
      requires Valid() && step < TotalSteps
      modifies this
      ensures Valid()
      ensures var ok := StepOk(env, copy, old(fields), order, old(step));
        fields == StepMarked(env, copy, old(fields), order, old(step))
        && step == (if ok then old(step) + 1 else old(step))
        && completed == (if ok then old(completed) + {old(step)} else old(completed))
        && nextDisabled == (if ok && copy == Live then !SendAllowed(fields, order, step) else old(nextDisabled))
      ensures submitted == old(submitted) && summary == old(summary) && saved == old(saved) && storage == old(storage)
    {
      var ok := ValidateStep();
      ValidatedKeepsCross(env, copy, old(fields), order, step);
      assert forall k :: k in fields ==> k in old(fields);
      if ok {
        completed := completed + {step};
        step := step + 1;
        RefreshInterface();
      }
    }

    /** `proximaEtapa` on the last step of the live copy: the income is
        normalised, the send gate re-runs and the form is submitted only if
        the button stays enabled. */
    method Submit()
      requires Valid() && step == TotalSteps && copy == Live
      modifies this
      ensures Valid()
      ensures fields == WithIncomeNormalized(old(fields))
      ensures nextDisabled == !SendAllowed(fields, order, TotalSteps)
      ensures submitted == (old(submitted) || SendAllowed(fields, order, TotalSteps))
      ensures step == old(step) && completed == old(completed) && summary == old(summary)
      ensures saved == old(saved) && storage == old(storage)
    {
      fields := WithIncomeNormalized(fields);
      CheckSendAllowed();
      if !nextDisabled {
        submitted := true;
      }
    }

    /** `proximaEtapa` on the last step of the prototype: the step is
        validated and, when it passes, the data is saved and the summary
        shown. */
    method Review()
      requires Valid() && step == TotalSteps && copy == Prototype
      modifies this
      ensures Valid()
      ensures var ok := StepOk(env, copy, old(fields), order, TotalSteps);
        fields == StepMarked(env, copy, old(fields), order, TotalSteps)
        && saved == (if ok then Snapshot(fields) else old(saved))
        && storage == (if ok then Some(Snapshot(fields)) else old(storage))
        && summary == (if ok then Some(SummaryLines(Snapshot(fields))) else old(summary))
      ensures step == old(step) && completed == old(completed) && submitted == old(submitted)
      ensures nextDisabled == old(nextDisabled)
    {
      var ok := ValidateStep();
      ValidatedKeepsCross(env, copy, old(fields), order, step);
      assert forall k :: k in fields ==> k in old(fields);
      if ok {
        Save();
        ShowSummary();
      }
    }

    /** `mostrarResumo`'s summary, built from the saved data. */
    method ShowSummary()
      modifies this
      ensures summary == Some(SummaryLines(saved))
      ensures fields == old(fields) && step == old(step) && completed == old(completed) && nextDisabled == old(nextDisabled)
      ensures prevDisabled == old(prevDisabled) && percent == old(percent) && active == old(active)
      ensures saved == old(saved) && storage == old(storage) && submitted == old(submitted)
    {
      summary := Some(SummaryLines(saved));
    }

    /** `proximaEtapa`, the click on the next button: below the last step
        the step is validated and the wizard advances when it passes; on the
        last step the live copy normalises the income and submits when the
        gate allows it, and the prototype validates, saves and reviews. A
        disabled button receives no click, so then nothing happens. */
    method Next()
      requires Valid()
      modifies this
      ensures Valid()
      ensures old(step) < TotalSteps ==>
        var ok := StepOk(env, copy, old(fields), order, old(step));
        fields == StepMarked(env, copy, old(fields), order, old(step))
        && step == (if ok then old(step) + 1 else old(step))
        && completed == (if ok then old(completed) + {old(step)} else old(completed))
        && nextDisabled == (if ok && copy == Live then !SendAllowed(fields, order, step) else old(nextDisabled))
        && saved == old(saved) && storage == old(storage) && summary == old(summary)
      ensures old(nextDisabled) ==>
        fields == old(fields) && step == old(step) && completed == old(completed) && nextDisabled
        && saved == old(saved) && storage == old(storage) && summary == old(summary) && submitted == old(submitted)
        && prevDisabled == old(prevDisabled) && percent == old(percent) && active == old(active)
      ensures old(step) == TotalSteps && copy == Live && !old(nextDisabled) ==>
        fields == WithIncomeNormalized(old(fields))
        && nextDisabled == !SendAllowed(fields, order, TotalSteps)
        && submitted == (old(submitted) || SendAllowed(fields, order, TotalSteps))
        && saved == old(saved) && storage == old(storage) && summary == old(summary)
      ensures old(step) == TotalSteps && copy == Prototype ==>
        var ok := StepOk(env, copy, old(fields), order, TotalSteps);
        fields == StepMarked(env, copy, old(fields), order, TotalSteps)
        && saved == (if ok then Snapshot(fields) else old(saved))
        && storage == (if ok then Some(Snapshot(fields)) else old(storage))
        && summary == (if ok then Some(SummaryLines(Snapshot(fields))) else old(summary))
        && nextDisabled == old(nextDisabled)
      ensures old(step) == TotalSteps ==> step == TotalSteps && completed == old(completed)
      ensures old(step) < TotalSteps || copy == Prototype ==> submitted == old(submitted)
    {
      if !nextDisabled {
        if step < TotalSteps {
          Advance();
        } else if copy == Live {
          Submit();
        } else {
          Review();
        }
      }
    }

    /** `etapaAnterior`: back one step, never below the first. */
    method Previous()
      requires Valid()
      modifies this
      ensures Valid()
      ensures step == if old(step) > 1 then old(step) - 1 else old(step)
      ensures nextDisabled == if old(step) > 1 && copy == Live then !SendAllowed(fields, order, step) else old(nextDisabled)
      ensures fields == old(fields) && completed == old(completed) && saved == old(saved) && storage == old(storage)
      ensures submitted == old(submitted) && summary == old(summary)
    {
      if step > 1 {
        step := step - 1;
        RefreshInterface();
      }
    }

    /** `irParaEtapa`: a step button click; a target outside the six steps is
        ignored. */
    method GoTo(target: int)
      requires Valid()
      modifies this
      ensures Valid()
      ensures step == if 1 <= target <= TotalSteps then target else old(step)
      ensures nextDisabled == if 1 <= target <= TotalSteps && copy == Live then !SendAllowed(fields, order, step) else old(nextDisabled)
      ensures fields == old(fields) && completed == old(completed) && saved == old(saved) && storage == old(storage)
      ensures submitted == old(submitted) && summary == old(summary)
    {
      if target <= TotalSteps && target >= 1 {
        step := target;
        RefreshInterface();
      }
    }

    /** `limparFormulario` (live copy): after the user confirms, the storage
        and the saved data are dropped, every field but the token is cleared,
        both dependents are disabled, the token is renewed and the wizard
        returns to step one. Without confirmation nothing happens. */
    method Clear(confirmed: bool, endpoint: Csrf.EndpointReply, page: Csrf.PageReply)
      returns (renewal: Csrf.Renewal)
      requires Valid() && copy == Live
      modifies this
      ensures Valid()
      ensures !confirmed ==>
        fields == old(fields) && step == old(step) && saved == old(saved) && storage == old(storage)
        && nextDisabled == old(nextDisabled) && renewal == Csrf.Renewal(false, "")
      ensures confirmed ==>
        var present := TokenField in old(fields);
        var obtained := Csrf.ObtainToken(endpoint, page);
        var reset := ResetTable(old(fields));
        renewal == Csrf.Renew(present, obtained)
        && fields == (if present
                      then reset[TokenField := reset[TokenField].(value := Csrf.RenewedToken(present, obtained, reset[TokenField].value))]
                      else reset)
        && step == 1 && saved == map[] && storage == None && !nextDisabled
      ensures completed == old(completed) && submitted == old(submitted) && summary == old(summary)
    {
      renewal := Csrf.Renewal(false, "");
      if confirmed {
        storage := None;
        saved := map[];
        fields := ResetTable(fields);
        var present := TokenField in fields;
        var obtained := Csrf.ObtainToken(endpoint, page);
        renewal := Csrf.Renew(present, obtained);
        if present {
          var token := fields[TokenField];
          fields := fields[TokenField := token.(value := Csrf.RenewedToken(present, obtained, token.value))];
        }
        step := 1;
        RefreshInterface();
      }
    }

    /** `enviarFormulario` (live copy): an empty or missing token is renewed
        first, and the form is then submitted whatever the renewal's outcome. */
    method SendChecked(endpoint: Csrf.EndpointReply, page: Csrf.PageReply)
      requires Valid() && copy == Live
      modifies this
      ensures Valid()
      ensures submitted
      ensures var present := TokenField in old(fields);
        var current := if present then old(fields)[TokenField].value else "";
        var obtained := Csrf.ObtainToken(endpoint, page);
        fields == (if present && current == ""
                   then old(fields)[TokenField := old(fields)[TokenField].(value := Csrf.RenewedToken(present, obtained, current))]
                   else old(fields))
      ensures step == old(step) && completed == old(completed) && saved == old(saved) && summary == old(summary)
      ensures storage == old(storage) && nextDisabled == old(nextDisabled)
    {
      var present := TokenField in fields;
      var current := if present then fields[TokenField].value else "";
      var obtained := Csrf.ObtainToken(endpoint, page);
      var tokenValido := Csrf.VerifyToken(present, current, obtained);
      if present && current == "" {
        fields := fields[TokenField := fields[TokenField].(value := Csrf.RenewedToken(present, obtained, current))];
      }
      if Csrf.CheckTruthy(tokenValido) {
        submitted := true;
      }
    }
  }
}
