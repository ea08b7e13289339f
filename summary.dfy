/** The review summary of the prototype (`mostrarResumo`): each saved value
    is shown as typed, through a label table, or as a yes/no answer, and a
    value that is missing or empty is shown as "Não informado". */
module Summary {
  import opened Fields

  const Sexo: map<string, string> := map[
    "masculino" := "Masculino", "feminino" := "Feminino", "outro" := "Outro"]

  const EstadoCivil: map<string, string> := map[
    "solteiro" := "Solteiro(a)", "casado" := "Casado(a)", "separado" := "Separado(a)",
    "divorciado" := "Divorciado(a)", "uniao-estavel" := "Uni\U{00E3}o Est\U{00E1}vel",
    "viuvo" := "Vi\U{00FA}vo(a)"]

  const NivelFormacao: map<string, string> := map[
    "sem-formacao" := "N\U{00E3}o Alfabetizado", "ef-incompleto" := "Fundamental Incompleto",
    "ef-completo" := "Fundamental Completo", "em-incompleto" := "Ensino M\U{00E9}dio Incompleto",
    "em-completo" := "Ensino M\U{00E9}dio Completo", "es-incompleto" := "Ensino Superior Incompleto",
    "es-completo" := "Ensino Superior Completo"]

  const BeneficioSocial: map<string, string> := map[
    "nao-recebe" := "Nenhum", "bolsafamilia" := "Bolsa Fam\U{00ED}lia", "bpc" := "BPC",
    "aux-incapacidade-temp" := "Aux\U{00ED}lio por Incapacidade Tempor\U{00E1}ria",
    "aux-incapacidade-perm" := "Aux\U{00ED}lio por Incapacidade Permanente"]

  const Yes := "Sim"
  const No := "N\U{00E3}o"

  /** How a file object prints inside the summary text. */
  const FileText := "[object File]"

  datatype Line = Line(caption: string, shown: string)

  /** `dadosFormulario[key] || 'Não informado'`. */
  function Shown(d: map<string, Entry>, key: string): (r: string)
    ensures r != ""
  {
    if key !in d then NotInformed
    else match d[key]
      case Text(t) => if t == "" then NotInformed else t
      case Attachment => FileText
  }

  /** `mapeamentos[table][dadosFormulario[key]] || 'Não informado'`. */
  function Lookup(table: map<string, string>, d: map<string, Entry>, key: string): (r: string)
    ensures r != ""
  {
    if key in d && d[key].Text? && d[key].text in table && table[d[key].text] != "" then table[d[key].text]
    else NotInformed
  }

  /** `dadosFormulario[key] === code ? 'Sim' : 'Não'`. */
  function YesNo(d: map<string, Entry>, key: string, code: string): (r: string)
    ensures r == Yes || r == No
  {
    if key in d && d[key] == Text(code) then Yes else No
  }

  /** The summary's lines in page order. The two dates and the income go
      through locale formatting and are not part of the model. */
  function SummaryLines(d: map<string, Entry>): (r: seq<Line>)
    ensures |r| == 23
    ensures forall i :: 0 <= i < |r| ==> r[i].shown != ""
  {
    [ Line("Nome", Shown(d, "nome")),
      Line("Telefone", Shown(d, "telefone")),
      Line("Sexo", Lookup(Sexo, d, "sexo")),
      Line("CPF", Shown(d, "cpf")),
      Line("\U{00D3}rg\U{00E3}o Emissor", Shown(d, "orgao-emissor")),
      Line("Endere\U{00E7}o", Shown(d, "endereco")),
      Line("Bairro", Shown(d, "bairro")),
      Line("Refer\U{00EA}ncia", Shown(d, "referencia")),
      Line("Estado Civil", Lookup(EstadoCivil, d, "estado-civil")),
      Line("Nome da M\U{00E3}e", Shown(d, "mae")),
      Line("Nome do Pai", Shown(d, "pai")),
      Line("N\U{00ED}vel de Forma\U{00E7}\U{00E3}o", Lookup(NivelFormacao, d, "nivel-formacao")),
      Line("Profiss\U{00E3}o", Shown(d, "profissao")),
      Line("Possui Defici\U{00EA}ncia", YesNo(d, "deficiente", "def-sim")),
      Line("Qual Defici\U{00EA}ncia", Shown(d, "deficiencia")),
      Line("CAD \U{00DA}NICO", YesNo(d, "familia-cad-unico", "fam-sim")),
      Line("Benef\U{00ED}cio Social", Lookup(BeneficioSocial, d, "beneficio-social")),
      Line("Aposentado", YesNo(d, "aposentadoria", "aposentado")),
      Line("Passe Inter-municipal", YesNo(d, "passe-intermunicipal", "pim-sim")),
      Line("Passe Inter-estadual", YesNo(d, "passe-interestadual", "pie-sim")),
      Line("Carteira de Autista", YesNo(d, "carteira-autista", "carteira-autista-sim")),
      Line("Laudo M\U{00E9}dico", YesNo(d, "laudo", "laudo-sim")),
      Line("Observa\U{00E7}\U{00F5}es do Laudo", Shown(d, "observacao")) ]
  }

  // ---------------------------------------------------------------------

  /** Every label of the four tables is a real label. */
  lemma LabelsAreInformed()
    ensures forall c :: c in Sexo ==> Sexo[c] != "" && Sexo[c] != NotInformed
    ensures forall c :: c in EstadoCivil ==> EstadoCivil[c] != "" && EstadoCivil[c] != NotInformed
    ensures forall c :: c in NivelFormacao ==> NivelFormacao[c] != "" && NivelFormacao[c] != NotInformed
    ensures forall c :: c in BeneficioSocial ==> BeneficioSocial[c] != "" && BeneficioSocial[c] != NotInformed
  {
  }

  /** A code missing from its table, or no value at all, shows as "Não
      informado"; a code in the table shows its label. */
  lemma LookupShowsLabelOrNotInformed(d: map<string, Entry>, key: string)
    ensures forall t :: t in [Sexo, EstadoCivil, NivelFormacao, BeneficioSocial] ==>
      (Lookup(t, d, key) != NotInformed <==> key in d && d[key].Text? && d[key].text in t)
    ensures forall t :: t in [Sexo, EstadoCivil, NivelFormacao, BeneficioSocial] ==>
      key in d && d[key].Text? && d[key].text in t ==> Lookup(t, d, key) == t[d[key].text]
  {
    LabelsAreInformed();
  }

  /** A yes/no line says "Sim" for its exact code only, and "Não" for every
      other value, an absent one included. */
  lemma YesOnlyForExactCode(d: map<string, Entry>, key: string, code: string)
    ensures YesNo(d, key, code) == Yes <==> key in d && d[key] == Text(code)
    ensures YesNo(d, key, code) != Yes ==> YesNo(d, key, code) == No
  {
  }

  /** A plain line shows the saved text unless it is empty or absent. */
  lemma ShownIsTextOrNotInformed(d: map<string, Entry>, key: string)
    ensures key in d && d[key].Text? && d[key].text != "" ==> Shown(d, key) == d[key].text
    ensures key !in d || d[key] == Text("") ==> Shown(d, key) == NotInformed
  {
  }

  /** With nothing saved, every line says "Não informado" or "Não". */
  lemma EmptySummary()
    ensures forall i :: 0 <= i < |SummaryLines(map[])| ==>
      SummaryLines(map[])[i].shown == NotInformed || SummaryLines(map[])[i].shown == No
  {
  }

  /** Where four of the lines sit. */
  lemma SummaryLinesAt(d: map<string, Entry>)
    ensures SummaryLines(d)[0].shown == Shown(d, "nome")
    ensures SummaryLines(d)[14].shown == Shown(d, "deficiencia")
    ensures SummaryLines(d)[21].shown == YesNo(d, "laudo", "laudo-sim")
    ensures SummaryLines(d)[22].shown == Shown(d, "observacao")
  {
  }

  /** The summary shows what the form held when it was saved: a filled name
      as typed, a disabled deficiency as not informed, the medical report
      answered yes exactly when the select had `laudo-sim` selected, and an
      enabled file input as a file. */
  lemma SummaryReflectsForm(fs: Table)
    ensures var r := SummaryLines(Snapshot(fs));
      ("nome" in fs && !fs["nome"].disabled && fs["nome"].control.Entry? && fs["nome"].value != "" ==>
         r[0].shown == fs["nome"].value)
      && ("deficiencia" in fs && fs["deficiencia"].disabled ==> r[14].shown == NotInformed)
      && ("laudo" in fs ==> (r[21].shown == Yes <==> EntryOf(fs["laudo"]) == Some(Text("laudo-sim"))))
      && ("observacao" in fs && !fs["observacao"].disabled && fs["observacao"].control.Upload? ==>
         r[22].shown == FileText)
  {
    var d := Snapshot(fs);
    SummaryLinesAt(d);
    if "laudo" in fs {
      assert "laudo" in d <==> EntryOf(fs["laudo"]).Some?;
    }
  }
}
