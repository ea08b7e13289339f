# CRAS intake wizard — a verified Dafny model

The CRAS identification form is a six-step wizard that runs in the browser. It
exists in two copies:

- the **live copy**, `templates/static/assets/js/custom/script.js`, served by
  the Django application and submitting to it;
- the **prototype**, `frontend/assets/js/custom/script.js`, an older static
  page that ends in a review summary.

The model covers what the two scripts decide:

- the CPF, RG and phone validators;
- the CPF, RG and phone input masks;
- the live copy's income display formatter and the normaliser it applies before submitting;
- the per-field and per-step validation (`validarCampo`, `validarEtapaAtual`);
- the live copy's send gate (`checarEnvioPermitido`) and its PDF check on the report file;
- the step controller (`proximaEtapa`, `etapaAnterior`, `irParaEtapa`,
  `atualizarInterface`);
- the conditional fields (`deficiente` → `deficiencia`, `laudo` → `observacao`);
- saving to and restoring from the local storage (`salvarDados`,
  `preencherFormulario`);
- the live copy's reset (`limparFormulario`);
- its CSRF token renewal chain;
- the prototype's review summary.

Where the two copies differ, one definition takes the copy (`Live` or
`Prototype`) as a parameter:

| behaviour | live copy | prototype |
|---|---|---|
| trigger value | `Sim` | `def-sim` / `laudo-sim` |
| RG check and RG mask | yes | no |
| income check | exact | environment input |
| send gate | yes | none |
| last step | submits | shows the summary |

The DOM is a table from a control's name to a `Field`. A `Field` holds:

- the control kind: a text entry with its own check, a text area, a select with
  its options (the selected option is the first whose value is the field's value),
  a file input with whether a file is chosen, or a check box with its tick;
- the value;
- the `required` and `disabled` flags;
- the two classes `is-valid` and `is-invalid`, kept separately because both
  can be present at once;
- the number of the step the control belongs to.

Files:

| file | content |
|---|---|
| `text.dfy` | digit stripping (`replace(/\D/g, '')`), `trim()` over the JavaScript white-space set, counting |
| `documents.dfy` | `validarCPF` (a method with the script's two loops, proved against the check-digit rule), `validarRG`, `validarTelefone` |
| `masks.dfy` | the three mask handlers, with digit preservation, idempotence and output shape |
| `income.dfy` | the live copy's income display formatter, the normaliser and the income check |
| `fields.dfy` | the field table: `validarCampo`'s verdict, step validation, the send gate, the bindings, save and restore, the reset |
| `csrf.dfy` | `obterNovoTokenCSRF`, `atualizarTokenCSRF`, `verificarTokenCSRF`, the guard of `enviarFormulario` |
| `summary.dfy` | the label tables and lines of `mostrarResumo` |
| `wizard.dfy` | the `Wizard` class: global state, event handlers and navigation, each method proved against the functions above |

Some behaviour comes from the order in which listeners were registered, and
the model keeps it:

- `salvarDados` runs before a mask or a binding on the same event. The saved
  record therefore holds the value as typed, and a dependent's value from
  before it was cleared.
- In the live copy the income field's blur formatter runs before the
  validation listener, so the income is validated as displayed.
- In the live copy the last click of "next" does not run the step validation.
  It only normalises the income, re-runs the send gate and calls
  `form.submit()` directly (script.js:450). It never goes through
  `enviarFormulario`, so the CSRF check of `Wizard.Wizard.SendChecked` is not
  on that path. Nothing in script.js calls `enviarFormulario` (it is defined
  at script.js:578); the model keeps it as a separate way to submit.

## Model

| member | source | states |
|---|---|---|
| Text.Digits | templates/static/assets/js/custom/script.js:342 | the result of stripping non-digits holds only digits and is no longer than the input; `DigitsOfDigits` and `DigitsIdempotent` show a digit string is its own stripping |
| Text.DigitsAppend | templates/static/assets/js/custom/script.js:342 | stripping distributes over concatenation |
| Text.DigitsIdempotent | templates/static/assets/js/custom/script.js:342 | stripping twice equals stripping once |
| Text.Trim | templates/static/assets/js/custom/script.js:254 | the trimmed value starts and ends with no white space, is empty exactly when the value is all white space, and has the same digits as the value |
| Text.TrimUnpadded | templates/static/assets/js/custom/script.js:254 | a value that neither starts nor ends with white space is its own trim |
| Text.RepeatsIffAllSame | templates/static/assets/js/custom/script.js:345 | the `/^(\d)\1{n-1}$/` test on an n-digit string holds exactly when all its digits are equal |
| Documents.CheckDigit | templates/static/assets/js/custom/script.js:351-352 | `11 - sum % 11` with 10 and 11 read as 0 is a decimal digit that completes the sum to a multiple of 11, or is 0 when the remainder is 1 |
| Documents.ValidateCpf | templates/static/assets/js/custom/script.js:341-364 | the two accumulation loops accept exactly the values whose digits are eleven, not all equal, and end in their two modulo-11 check digits; the prototype's `validarCPF` is the same code and makes the same decision (frontend script.js 184-207) |
| Documents.CompleteCpf | templates/static/assets/js/custom/script.js:347-361 | appending the two computed check digits to nine digits gives eleven digits that start with those nine |
| Documents.CpfIsCompletion | templates/static/assets/js/custom/script.js:347-361 | eleven digits pass both check-digit tests exactly when they are the completion of their first nine |
| Documents.ValidRg | templates/static/assets/js/custom/script.js:373-393 | an RG passes exactly when it has 7 or 11 digits and they are not all the same |
| Documents.VerdictsIgnoreTrim | templates/static/assets/js/custom/script.js:254-263 | trimming never changes the CPF, RG or phone verdict |
| Documents.VerdictsDependOnDigitsOnly | templates/static/assets/js/custom/script.js:341-393 | two values with the same digits get the same CPF, RG and phone verdicts |
| Documents.ValidCpfExample | templates/static/assets/js/custom/script.js:341-364 | every value whose digits are `52998224725` is accepted |
| Documents.InvalidCpfExample | templates/static/assets/js/custom/script.js:355-361 | `12345678900` fails the second check digit (which is 9) |
| Documents.RepeatedCpfExample | templates/static/assets/js/custom/script.js:345 | `11111111111` satisfies both check digits (both 1) and is still rejected by the repetition test |
| Documents.RgExamples | templates/static/assets/js/custom/script.js:378-391 | seven distinct digits pass; seven equal digits and eight digits fail |
| Masks.CpfInputKeepsDigits | templates/static/assets/js/custom/script.js:77-84 | the CPF handler writes back exactly the digits it read, and with more than eleven digits leaves the field as typed |
| Masks.RgInputKeepsDigits | templates/static/assets/js/custom/script.js:89-106 | the RG handler writes back exactly the digits it read, and with more than eleven digits leaves the field as typed |
| Masks.PhoneInputKeepsDigits | templates/static/assets/js/custom/script.js:112-122 | the phone handler writes back exactly the digits it read, and with more than eleven digits leaves the field as typed |
| Masks.MasksIdempotent | templates/static/assets/js/custom/script.js:77-122 | applying a mask to its own output changes nothing |
| Masks.CpfMaskShape | templates/static/assets/js/custom/script.js:77-84 | eleven digits show as `###.###.###-##`; fewer digits stay bare, because the pattern needs all eleven; the prototype's CPF mask is the same handler (frontend script.js 63-69) |
| Masks.RgNewShape | templates/static/assets/js/custom/script.js:93-94 | the new format applies from nine digits on: 11 digits show as `###.###.###-##`, 10 as `###.###.###-#`, 9 as `###.###.###-` |
| Masks.RgOldShape | templates/static/assets/js/custom/script.js:96-102 | the old format applies at 4 to 7 digits: 7 show as `#.###.###`, 6 as `#.###.##`, 5 as `#.###.#`, 4 as `#.###.`; 8 digits and 1 to 3 digits stay bare |
| Masks.PhoneMaskShape | templates/static/assets/js/custom/script.js:112-122 | 11 digits show as `(##) #####-####`, 10 as `(##) ####-####`, fewer stay bare; the prototype's phone mask is the same handler (frontend script.js 72-82) |
| Masks.PhoneValidIffComplete | templates/static/assets/js/custom/script.js:367-371 | `validarTelefone` accepts a value exactly when the phone mask shows it in one of the two complete formats |
| Masks.FitsCountsDigits | templates/static/assets/js/custom/script.js:112-122 | a value that fits a mask template has exactly one digit per `#` of the template |
| Masks.CpfMaskExample | templates/static/assets/js/custom/script.js:78-80 | the digits `52998224725` show as `529.982.247-25` |
| Masks.PhoneMaskExample | templates/static/assets/js/custom/script.js:114-116 | the digits `11987654321` show as `(11) 98765-4321` |
| Masks.MasksKeepVerdicts | templates/static/assets/js/custom/script.js:77-122 | masking never changes a CPF, RG or phone verdict |
| Income.KeepNumeric | templates/static/assets/js/custom/script.js:266 | the filter keeps only digits, commas and dots, and never lengthens the value |
| Income.KeepNumericKeepsDigits | templates/static/assets/js/custom/script.js:266 | the filter keeps every digit, in order |
| Income.ReplaceFirst | templates/static/assets/js/custom/script.js:267 | a string-pattern `replace` leaves a value without the character alone, and otherwise removes exactly one occurrence |
| Income.ReplaceFirstSplit | templates/static/assets/js/custom/script.js:267 | the replaced occurrence is the first one |
| Income.NormalizeKeepsDigits | templates/static/assets/js/custom/script.js:439-441 | the normalised income has the same digits as the typed value |
| Income.NormalizeCounts | templates/static/assets/js/custom/script.js:439-441 | normalising removes one dot if there is any, and turns one comma into a dot if there is any |
| Income.NormalizeNoThousands | templates/static/assets/js/custom/script.js:439-441 | `R$ 1500,50`-style values (no dot) become `1500.50` |
| Income.NormalizeOneThousand | templates/static/assets/js/custom/script.js:439-441 | one thousands dot before a decimal comma is dropped: `1.234,56` becomes `1234.56` |
| Income.NormalizeTwoThousands | templates/static/assets/js/custom/script.js:439-441 | with two thousands dots only the first is dropped: `1.234.567,89` becomes `1234.567.89` |
| Income.IncomeAcceptedDigits | templates/static/assets/js/custom/script.js:264-269 | the `renda` check: an accepted income contains a digit, and a value whose filtered form starts with a digit is accepted |
| Income.Decimal | templates/static/assets/js/custom/script.js:137-138 | a whole number is written with digits that read back as that number |
| Income.Cents | templates/static/assets/js/custom/script.js:137-138 | the cents are two digits that read back as the cents |
| Income.Group | templates/static/assets/js/custom/script.js:139 | a group after a thousands dot is three digits that read back as the group |
| Income.ThousandsDigits | templates/static/assets/js/custom/script.js:139 | the pt-BR grouping only adds dots: without them it is the number's own digits |
| Income.DisplaysReadBack | templates/static/assets/js/custom/script.js:125-160 | the currency display of the input and blur listeners and the plain display of the focus listener both hold the digits of the same number of cents |
| Income.SameNumberSameDisplay | templates/static/assets/js/custom/script.js:125-160 | both displays depend only on the number the digits stand for, so leading zeros make no difference |
| Income.DisplaysSettle | templates/static/assets/js/custom/script.js:125-160 | formatting twice is formatting once, a blur after a focus shows the formatted amount again, and a focus after a blur shows the same plain decimal as a focus alone |
| Income.NormalizeAmount | templates/static/assets/js/custom/script.js:435-441 | below a million reais the last step's normaliser turns the currency display into the plain decimal |
| Income.NormalizeLargeAmount | templates/static/assets/js/custom/script.js:435-441 | from a million up to a billion reais, where the display has two thousands dots, the normaliser drops the first and keeps the second |
| Income.FormattedIncomeSubmits | templates/static/assets/js/custom/script.js:125-160 | for a displayed income of any size the submitted value is the display's digits and dots with the first thousands dot dropped and the comma turned into a dot; it equals the focus listener's plain decimal exactly below a million reais, and is `1234.567.89`-shaped from a million up to a billion |
| Income.NormalizeAnyAmount | templates/static/assets/js/custom/script.js:435-441 | for an amount of any size the normaliser drops only the first thousands dot, keeps every other one, and turns the decimal comma into a dot (`R$ 1.234.567.890,12` becomes `1234.567.890.12`) |
| Income.NormalizeIsPlainIffBelowAMillion | templates/static/assets/js/custom/script.js:435-441 | the normalised amount is the plain decimal exactly below a million reais; from a million up it holds at least two dots |
| Income.FormattedIncomeAccepted | templates/static/assets/js/custom/script.js:125-160 | the `renda` check accepts a displayed income exactly when the value had a digit |
| Fields.SelectedIndex | templates/static/assets/js/custom/script.js:320-321 | setting a select's value selects the first option with that value, or none when no option has it |
| Fields.Assigned | templates/static/assets/js/custom/script.js:28-37 | assigning `elemento.value` changes only the value and, for a file input, whether a file is chosen; a select's options and a box's tick stay; assigning the empty value leaves no value and no file |
| Fields.Changed | templates/static/assets/js/custom/script.js:59-62 | a user change keeps the attributes, the step and both classes |
| Fields.Verdict | templates/static/assets/js/custom/script.js:253-289 | a field without a check of its own is valid, when required, exactly when its trimmed value is non-empty, and otherwise always; observacao is valid exactly when disabled or filled; the prototype has the same required and observacao rules (frontend script.js 160-169) |
| Fields.MarkField | templates/static/assets/js/custom/script.js:292-300 | a verdict sets exactly one of the two classes and changes nothing else |
| Fields.PrototypeRgOnlyRequired | frontend/assets/js/custom/script.js:141-169 | the prototype checks a required RG only for being non-blank, the live copy with `validarRG` |
| Fields.ValidatedMarksEveryField | templates/static/assets/js/custom/script.js:396-405 | every required input and select of the step gets its own verdict's class, with no short-circuit, and nothing else changes |
| Fields.StepFailureIsVisible | templates/static/assets/js/custom/script.js:396-423 | a failed step always leaves some field marked invalid |
| Fields.FailedFieldIsVisible | templates/static/assets/js/custom/script.js:396-405 | a field of the step that fails its check ends marked invalid |
| Fields.CrossFailureIsVisible | templates/static/assets/js/custom/script.js:408-420 | when the step-six observacao rule fails, observacao ends marked invalid |
| Fields.StepSuccessIsVisible | templates/static/assets/js/custom/script.js:396-423 | a passed step leaves every validated field marked valid and none invalid |
| Fields.BothClassesOnObservacao | templates/static/assets/js/custom/script.js:408-420 | on step six, with laudo answered yes, a disabled, blank, required observacao passes its own check and is then flagged by the rule: it ends with both classes and the step fails |
| Fields.BlankBlocks | templates/static/assets/js/custom/script.js:322-334 | an empty value, or a blank or invalid text entry, always blocks the send |
| Fields.ChoosingOpensSelect | templates/static/assets/js/custom/script.js:320-323 | choosing an option lets a select pass the gate exactly when the option is not the first, not disabled and has a value |
| Fields.PickingOpensUpload | templates/static/assets/js/custom/script.js:324-327 | a file input passes the gate exactly when a file was chosen |
| Fields.AnsweredFormSends | templates/static/assets/js/custom/script.js:314-338 | once every required, enabled control of the last step has an accepted answer, the send is allowed |
| Fields.TwoFieldGate | templates/static/assets/js/custom/script.js:314-338 | with only laudo and observacao in scope, the gate checks exactly those two |
| Fields.LaudoYesWaitsForFile | templates/static/assets/js/custom/script.js:186-198 | answering laudo `Sim` in the live copy makes observacao required and keeps the send disabled |
| Fields.LaudoYesThenFile | templates/static/assets/js/custom/script.js:201-224 | after `Sim`, choosing a file enables the send exactly when a file was chosen and it is a PDF; any other file is dropped |
| Fields.LaudoNoSends | templates/static/assets/js/custom/script.js:186-198 | answering laudo `Não` keeps observacao disabled and enables the send at once |
| Fields.Bind | templates/static/assets/js/custom/script.js:164-198 | a yes answer makes the dependent enabled and required and keeps its value; any other answer disables it, drops `required` and clears its value and file; no other field changes; the prototype's bindings behave the same with `def-sim` and `laudo-sim` (frontend script.js 86-112) |
| Fields.DisabledDependentNeverBlocks | templates/static/assets/js/custom/script.js:280-286 | after a no answer, observacao always validates and never blocks the send |
| Fields.Snapshot | templates/static/assets/js/custom/script.js:228-237 | the saved data holds only enabled controls: every text control's value, a box exactly while it is checked, and a file input as a file |
| Fields.Restore | templates/static/assets/js/custom/script.js:28-37 | restoring keeps the table's keys, changes only values and file choices, leaves unsaved fields, a box's tick and a select's options alone, and in the live copy leaves file inputs alone |
| Fields.RestoreSnapshot | templates/static/assets/js/custom/script.js:228-237 | restoring what `salvarDados` just saved gives back the same form |
| Fields.RestoreRecovers | templates/static/assets/js/custom/script.js:28-37 | a saved text value comes back into any form with the same controls, a select blocks the gate again exactly as it did when saved, and a disabled field, never saved, is left as the form has it |
| Fields.ResetField | templates/static/assets/js/custom/script.js:701-716 | a cleared field has neither class, no file, an empty value or, for a box, no tick, and keeps its required, disabled and step attributes |
| Fields.ResetTable | templates/static/assets/js/custom/script.js:694-723 | the reset keeps the CSRF field exactly, clears every other value, box, file and class, and disables both dependents |
| Csrf.ObtainToken | templates/static/assets/js/custom/script.js:611-657 | a token obtained comes from the endpoint's ok reply or from an ok page; an error raised is the request's, the body's, one of the two refusals, or the page request's |
| Csrf.EndpointTokenWins | templates/static/assets/js/custom/script.js:621-625 | worked case: an ok reply with a token returns it, whatever the page holds |
| Csrf.RefusalsHaveNoFallback | templates/static/assets/js/custom/script.js:626-634 | worked case: 429 and 403 raise their errors without consulting the page |
| Csrf.FallThrough | templates/static/assets/js/custom/script.js:621-655 | worked case: every other status, and an ok reply without a token, falls through to the page fallback |
| Csrf.PageFallback | templates/static/assets/js/custom/script.js:637-655 | worked case: the fallback gives the scraped token or null, and null when the page request is not ok |
| Csrf.PageOnlyOnFallThrough | templates/static/assets/js/custom/script.js:621-655 | the page changes the outcome only for a reply that falls through |
| Csrf.Renew | templates/static/assets/js/custom/script.js:659-677 | a renewal succeeds exactly when the field exists and a non-empty token was obtained; its message is never empty, and is the error's own message when it has one |
| Csrf.WritesOnlyObtainedToken | templates/static/assets/js/custom/script.js:659-677 | the token field is written only by a successful renewal, and then with the obtained token |
| Csrf.VerifyToken | templates/static/assets/js/custom/script.js:804-811 | `verificarTokenCSRF`'s result is always truthy; it is `true` exactly when the field holds a token, and otherwise the renewal's result |
| Csrf.VerifySkipsPresentToken | templates/static/assets/js/custom/script.js:804-811 | a non-empty token skips the renewal |
| Csrf.FailedRenewalStillSubmits | templates/static/assets/js/custom/script.js:580-607 | a failed renewal returns an object, which is truthy, so the guard never aborts the send |
| Csrf.SendForm | templates/static/assets/js/custom/script.js:578-608 | `enviarFormulario` submits in every case |
| Summary.Shown | frontend/assets/js/custom/script.js:380 | a plain line is never empty: the text, or "Não informado", or a file's text |
| Summary.Lookup | frontend/assets/js/custom/script.js:383 | a looked-up line is never empty |
| Summary.YesNo | frontend/assets/js/custom/script.js:430 | a yes/no line says "Sim" or "Não" |
| Summary.SummaryLines | frontend/assets/js/custom/script.js:372-447 | the summary has its 23 modelled lines, none of them empty |
| Summary.SummaryLinesAt | frontend/assets/js/custom/script.js:380-447 | the name, deficiency, report and observation lines sit at positions 0, 14, 21 and 22 |
| Summary.SummaryReflectsForm | frontend/assets/js/custom/script.js:342-447 | the summary of the saved form shows a filled name as typed, a disabled deficiency as not informed, the report as `Sim` exactly when `laudo-sim` was selected, and an enabled file input as a file |
| Summary.LabelsAreInformed | frontend/assets/js/custom/script.js:352-369 | every label of the four tables is a non-empty real label |
| Summary.LookupShowsLabelOrNotInformed | frontend/assets/js/custom/script.js:383 | worked case: a code missing from its table shows as "Não informado"; a known code shows its label |
| Summary.YesOnlyForExactCode | frontend/assets/js/custom/script.js:430-446 | worked case: a yes/no line says "Sim" exactly for its own code and "Não" otherwise |
| Summary.ShownIsTextOrNotInformed | frontend/assets/js/custom/script.js:380-447 | worked case: a plain line shows the saved text, or "Não informado" when it is missing or empty |
| Summary.EmptySummary | frontend/assets/js/custom/script.js:380-447 | with nothing saved every line reads "Não informado" or "Não" |
| Wizard.Percent | templates/static/assets/js/custom/script.js:498-502 | the shown percentage is the step's share of six rounded to the nearest whole number |
| Wizard.PercentValues | frontend/assets/js/custom/script.js:303-305 | the six steps show 17, 33, 50, 67, 83 and 100 |
| Wizard.Wizard.constructor | templates/static/assets/js/custom/script.js:7-37 | page load restores the saved data (each select selecting the first option with its saved value; the live copy skips file inputs and clears the storage on the success page) and draws step one with next enabled |
| Wizard.Wizard.CheckSendAllowed | templates/static/assets/js/custom/script.js:314-338 | the `podeEnviar` loop over the controls disables the button exactly when `SendAllowed` fails; nothing else changes |
| Wizard.Wizard.RefreshInterface | frontend/assets/js/custom/script.js:286-326 | the percentage follows the step, exactly the button of the current step is active, and back is disabled exactly on step one; the live copy also re-runs the send gate |
| Wizard.Wizard.ValidateField | templates/static/assets/js/custom/script.js:253-311 | one field gets its verdict and its class |
| Wizard.Wizard.MarkStepFields | templates/static/assets/js/custom/script.js:396-405 | the `forEach` over the step's required controls marks each with its verdict, and its flag is true exactly when all pass |
| Wizard.Wizard.ValidateStep | templates/static/assets/js/custom/script.js:396-423 | the step result and the new marks are exactly `StepOk` and `StepMarked`, including the step-six observacao rule; the prototype's step validation is the same, with `laudo-sim` (frontend script.js 216-243) |
| Wizard.Wizard.Blur | templates/static/assets/js/custom/script.js:148-159 | a blur first formats the live copy's income, then validates a field that was required at load and, in the live copy, re-runs the send gate (listeners at 240-250); only an enabled control receives it |
| Wizard.Wizard.Focus | templates/static/assets/js/custom/script.js:141-147 | focusing the live copy's income shows it as a plain decimal; nothing else changes; only an enabled control receives it |
| Wizard.Wizard.Save | templates/static/assets/js/custom/script.js:228-237 | the saved data is rebuilt from the form and stored |
| Wizard.Wizard.Input | templates/static/assets/js/custom/script.js:59-140 | typing saves the text as typed, then the mask or the income formatter rewrites the field, then the send gate runs for a watched field of the live copy; only an enabled control receives it |
| Wizard.Wizard.Reformat | templates/static/assets/js/custom/script.js:77-140 | a mask or formatter handler rewrites only its field's value |
| Wizard.Wizard.Change | templates/static/assets/js/custom/script.js:59-224 | a change puts the choice into the control, saves, then binds the dependent and, in the live copy, drops a non-PDF observacao file and re-runs the gate when observacao or a watched control changed; only an enabled control receives it |
| Wizard.Wizard.Advance | templates/static/assets/js/custom/script.js:427-434 | below step six the step rises by exactly one, and the button is marked completed, exactly when the step validates; the live copy then re-runs the gate; the prototype advances the same way (frontend script.js 246-259) |
| Wizard.Wizard.Submit | templates/static/assets/js/custom/script.js:435-451 | on step six the live copy normalises the income, re-runs the gate and submits exactly when the gate allows it |
| Wizard.Wizard.Review | frontend/assets/js/custom/script.js:342-348 | the prototype's summary re-validates, and only on success saves to the storage and builds the summary |
| Wizard.Wizard.ShowSummary | frontend/assets/js/custom/script.js:349-447 | the summary is built from the saved data |
| Wizard.Wizard.Next | templates/static/assets/js/custom/script.js:426-452 | the click on next: while the button is disabled nothing changes; otherwise the whole new state of `Advance` below step six, of `Submit` on the live copy's step six and of `Review` on the prototype's; only the live copy's last step submits; the button can be disabled only on the live copy's last step, which every method preserves |
| Wizard.Wizard.Previous | templates/static/assets/js/custom/script.js:455-460 | back moves one step down and does nothing on step one; the form and the storage stay |
| Wizard.Wizard.GoTo | templates/static/assets/js/custom/script.js:463-468 | a step button moves to its target inside 1..6 and ignores any other; the form and the storage stay |
| Wizard.Wizard.Clear | templates/static/assets/js/custom/script.js:680-733 | a confirmed reset drops the storage, clears the form except the token, renews the token, returns to step one and enables next; without confirmation nothing changes |
| Wizard.Wizard.SendChecked | templates/static/assets/js/custom/script.js:578-608 | the live copy's `enviarFormulario` (not called by the script's own submit path) renews an empty or missing token and always submits; the storage and the button stay; the prototype's send is simulated and left out |

## Left out

**Outside the model**

- DOM plumbing is not modelled: listener registration, showing and hiding steps, button labels, focus and scrolling, error messages under fields, and the summary's HTML. The form is an abstract table of fields.
- Reading the storage is an input. `JSON.parse` of a corrupted item throws in the script, and that case is not modelled.
- `fetch`, `DOMParser` and `form.submit()` are not modelled. The replies are inputs, and submitting is a flag.
- `formatarRenda` and `formatarData` are left out: they use floating point and locale date formatting.
- `baixarDados` is left out: it is a browser download.
- Banners, modals, alerts and the prototype's simulated send (frontend script.js:502-527) are left out: they are browser-only display.
- The Django side (`ficha/models.py`, `ficha/views.py`, `ficha/urls.py`, `create_superuser.py`) has no client logic and is not part of this model.

**Environment inputs**

- Fields.Verdict on `renda` in the prototype is an environment input. It rests on `parseFloat` over arbitrary text, which means floating point, signs and `Infinity`.
- Fields.Verdict on `data-emissao` is an environment input in both copies. It needs the clock and `Date` parsing. Only its demand for a non-empty value is modelled.
- Fields.Reacted takes the `application/pdf` test of a chosen file as an environment input (`Env.pdfFile`), by file name. A file's MIME type comes from the browser.

**Simplifications**

- Income.FormatIncome reads the digits as an exact whole number of cents. The script goes through `parseInt`, `/ 100`, `toFixed` and `parseFloat`, which stop being exact beyond about 2^53 cents.
- Wizard.Wizard.constructor does not model the prototype's failure on a saved file entry: the prototype assigns the stored `{}` to the file input, which throws, so the page stops loading before the listeners are attached and the interface is drawn. The model skips such an entry, as the live copy does, and finishes loading.
- Wizard.Wizard.Clear treats `limparFormulario` as one atomic step. In the script, other events can run while it awaits the token renewal (script.js:726), for example an input that saves the form again after the storage was cleared.
- Wizard.Wizard.SendChecked treats `enviarFormulario` as one atomic step, although it awaits the token check (script.js:580).
- Wizard.Wizard.Input, Wizard.Wizard.Change and Wizard.Wizard.Blur take the set of watched fields (required at load) as fixed. Listeners are attached once, so a field made required later by a binding is validated only by the step validation. That is how the scripts behave.
- Wizard.Wizard.Input changes only text controls. The `input` event a select, box or file input fires together with its `change` event is folded into Wizard.Wizard.Change, since it runs the same save and gate listeners.
- Fields.SelectedIndex matches the first option with the value, as a browser does; options with duplicate values are not told apart.
- Radio groups are modelled as one field per name, and ticking one radio button does not untick the others.
- Wizard.Wizard.Clear does not model `formulario.reset()` separately, because the loop that follows clears every control again (the token keeps its value either way).
- Summary.SummaryLines leaves out the two date lines and the income line, because they go through locale formatting.
