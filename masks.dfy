/** The input masks of `configurarFormatacao`: on every keystroke the field's
    value is stripped to its digits and, while there are at most eleven, the
    mask for the current digit count is written back; with more than eleven
    digits the handler writes nothing and the field keeps what was typed.
    The patterns are the scripts' `String.replace` calls with a regular
    expression and no `g` flag: the first match is rewritten, the rest of the
    string is kept. */
module Masks {
  import opened Text
  import opened Documents

  /** `(\d{3})(\d{3})(\d{3})(\d{2})` -> `$1.$2.$3-$4` on a digit string. */
  function CpfPattern(d: string): string
    requires AllDigits(d)
  {
    if |d| >= 11 then d[..3] + "." + d[3..6] + "." + d[6..9] + "-" + d[9..11] + d[11..] else d
  }

  /** `(\d{3})(\d{3})(\d{3})(\d{0,2})` -> `$1.$2.$3-$4` on a digit string. */
  function RgNewPattern(d: string): string
    requires AllDigits(d)
  {
    if |d| >= 9 then
      var e := if |d| < 11 then |d| else 11;
      d[..3] + "." + d[3..6] + "." + d[6..9] + "-" + d[9..e] + d[e..]
    else d
  }

  /** `(\d{1})(\d{3})(\d{0,3})` -> `$1.$2.$3` on a digit string. */
  function RgOldPattern(d: string): string
    requires AllDigits(d)
  {
    if |d| >= 4 then
      var e := if |d| < 7 then |d| else 7;
      d[..1] + "." + d[1..4] + "." + d[4..e] + d[e..]
    else d
  }

  /** `(\d{2})(\d{5})(\d{4})` -> `($1) $2-$3` on a digit string. */
  function MobilePattern(d: string): string
    requires AllDigits(d)
  {
    if |d| >= 11 then "(" + d[..2] + ") " + d[2..7] + "-" + d[7..11] + d[11..] else d
  }

  /** `(\d{2})(\d{4})(\d{4})` -> `($1) $2-$3` on a digit string. */
  function LandlinePattern(d: string): string
    requires AllDigits(d)
  {
    if |d| >= 10 then "(" + d[..2] + ") " + d[2..6] + "-" + d[6..10] + d[10..] else d
  }

  /** The value the CPF `input` handler leaves in the field. */
  function CpfInput(value: string): string {
    var valor := Digits(value);
    if |valor| <= 11 then CpfPattern(valor) else value
  }

  /** The value the RG `input` handler leaves in the field (live copy only):
      new format from nine digits on, old format for four to seven digits,
      bare digits otherwise. */
  function RgInput(value: string): string {
    var valor := Digits(value);
    if |valor| <= 11 then
      if |valor| >= 9 then RgNewPattern(valor)
      else if 4 <= |valor| <= 7 then RgOldPattern(valor)
      else valor
    else value
  }

  /** The value the phone `input` handler leaves in the field. */
  function PhoneInput(value: string): string {
    var valor := Digits(value);
    if |valor| <= 11 then
      if |valor| == 11 then MobilePattern(valor)
      else if |valor| == 10 then LandlinePattern(valor)
      else valor
    else value
  }

  // ---------------------------------------------------------------------
  // Shape of a masked value: `#` stands for one digit, every other
  // character of the template for itself.

  predicate Fits(r: string, template: string) {
    |r| == |template|
    && forall i :: 0 <= i < |r| ==>
         if template[i] == '#' then IsDigit(r[i]) else r[i] == template[i]
  }

  lemma FitsAppend(a: string, ta: string, b: string, tb: string)
    requires Fits(a, ta) && Fits(b, tb)
    ensures Fits(a + b, ta + tb)
  {
    forall i | 0 <= i < |a + b|
      ensures if (ta + tb)[i] == '#' then IsDigit((a + b)[i]) else (a + b)[i] == (ta + tb)[i]
    {
      if i >= |a| {
        assert (a + b)[i] == b[i - |a|] && (ta + tb)[i] == tb[i - |a|];
      }
    }
  }

  /** A value that fits a template without digits has one digit per `#`. */
  lemma {:induction false} FitsCountsDigits(r: string, t: string)
    requires Fits(r, t) && forall i :: 0 <= i < |t| ==> !IsDigit(t[i])
    ensures |Digits(r)| == Count(t, '#')
  {
    if r != [] {
      assert Fits(r[1..], t[1..]) by {
        forall i | 0 <= i < |r| - 1
          ensures if t[1..][i] == '#' then IsDigit(r[1..][i]) else r[1..][i] == t[1..][i]
        {
          assert r[1..][i] == r[i + 1] && t[1..][i] == t[i + 1];
        }
      }
      FitsCountsDigits(r[1..], t[1..]);
    }
  }

  /** A run of `n` digits fits the template of `n` hashes. */
  lemma FitsDigitRun(s: string, t: string)
    requires AllDigits(s) && |s| == |t| && forall i :: 0 <= i < |t| ==> t[i] == '#'
    ensures Fits(s, t)
  {
  }

  lemma {:induction false} NoDigitsInSeparators()
    ensures Digits(".") == [] && Digits("-") == [] && Digits("(") == [] && Digits(") ") == []
  {
    assert ") "[1..] == " ";
    assert Digits(" ") == [];
  }

  lemma SliceIsDigits(d: string, i: nat, j: nat)
    requires AllDigits(d) && i <= j <= |d|
    ensures AllDigits(d[i..j])
  {
  }

  /** One group of a mask: the digits `d[j..k]` followed by a separator
      without digits extend the digits read so far from `d[..j]` to `d[..k]`. */
  lemma DigitsStep(p: string, d: string, j: nat, k: nat, sep: string)
    requires AllDigits(d) && j <= k <= |d| && Digits(p) == d[..j] && Digits(sep) == []
    ensures Digits(p + d[j..k] + sep) == d[..k]
  {
    DigitsAppend(p + d[j..k], sep);
    DigitsAppend(p, d[j..k]);
    DigitsOfDigits(d[j..k]);
    assert d[..j] + d[j..k] == d[..k];
  }

  // ---------------------------------------------------------------------
  // Digit preservation of each pattern.

  lemma CpfPatternKeepsDigits(d: string)
    requires AllDigits(d)
    ensures Digits(CpfPattern(d)) == d
  {
    NoDigitsInSeparators();
    if |d| >= 11 {
      var p1 := d[..3] + ".";
      var p2 := p1 + d[3..6] + ".";
      var p3 := p2 + d[6..9] + "-";
      var p4 := p3 + d[9..11];
      assert p1 == [] + d[0..3] + ".";
      DigitsStep([], d, 0, 3, ".");
      DigitsStep(p1, d, 3, 6, ".");
      DigitsStep(p2, d, 6, 9, "-");
      assert p4 == p3 + d[9..11] + [];
      DigitsStep(p3, d, 9, 11, []);
      assert CpfPattern(d) == p4 + d[11..|d|] + [];
      DigitsStep(p4, d, 11, |d|, []);
    } else {
      DigitsOfDigits(d);
    }
  }

  lemma RgNewPatternKeepsDigits(d: string)
    requires AllDigits(d)
    ensures Digits(RgNewPattern(d)) == d
  {
    NoDigitsInSeparators();
    if |d| >= 9 {
      var e := if |d| < 11 then |d| else 11;
      var p1 := d[..3] + ".";
      var p2 := p1 + d[3..6] + ".";
      var p3 := p2 + d[6..9] + "-";
      var p4 := p3 + d[9..e];
      assert p1 == [] + d[0..3] + ".";
      DigitsStep([], d, 0, 3, ".");
      DigitsStep(p1, d, 3, 6, ".");
      DigitsStep(p2, d, 6, 9, "-");
      assert p4 == p3 + d[9..e] + [];
      DigitsStep(p3, d, 9, e, []);
      assert RgNewPattern(d) == p4 + d[e..|d|] + [];
      DigitsStep(p4, d, e, |d|, []);
    } else {
      DigitsOfDigits(d);
    }
  }

  lemma RgOldPatternKeepsDigits(d: string)
    requires AllDigits(d)
    ensures Digits(RgOldPattern(d)) == d
  {
    NoDigitsInSeparators();
    if |d| >= 4 {
      var e := if |d| < 7 then |d| else 7;
      var p1 := d[..1] + ".";
      var p2 := p1 + d[1..4] + ".";
      var p3 := p2 + d[4..e];
      assert p1 == [] + d[0..1] + ".";
      DigitsStep([], d, 0, 1, ".");
      DigitsStep(p1, d, 1, 4, ".");
      assert p3 == p2 + d[4..e] + [];
      DigitsStep(p2, d, 4, e, []);
      assert RgOldPattern(d) == p3 + d[e..|d|] + [];
      DigitsStep(p3, d, e, |d|, []);
    } else {
      DigitsOfDigits(d);
    }
  }

  lemma MobilePatternKeepsDigits(d: string)
    requires AllDigits(d)
    ensures Digits(MobilePattern(d)) == d
  {
    NoDigitsInSeparators();
    if |d| >= 11 {
      var p1 := "(" + d[..2] + ") ";
      var p2 := p1 + d[2..7] + "-";
      var p3 := p2 + d[7..11];
      DigitsStep("(", d, 0, 2, ") ");
      DigitsStep(p1, d, 2, 7, "-");
      assert p3 == p2 + d[7..11] + [];
      DigitsStep(p2, d, 7, 11, []);
      assert MobilePattern(d) == p3 + d[11..|d|] + [];
      DigitsStep(p3, d, 11, |d|, []);
    } else {
      DigitsOfDigits(d);
    }
  }

  lemma LandlinePatternKeepsDigits(d: string)
    requires AllDigits(d)
    ensures Digits(LandlinePattern(d)) == d
  {
    NoDigitsInSeparators();
    if |d| >= 10 {
      var p1 := "(" + d[..2] + ") ";
      var p2 := p1 + d[2..6] + "-";
      var p3 := p2 + d[6..10];
      DigitsStep("(", d, 0, 2, ") ");
      DigitsStep(p1, d, 2, 6, "-");
      assert p3 == p2 + d[6..10] + [];
      DigitsStep(p2, d, 6, 10, []);
      assert LandlinePattern(d) == p3 + d[10..|d|] + [];
      DigitsStep(p3, d, 10, |d|, []);
    } else {
      DigitsOfDigits(d);
    }
  }

  // ---------------------------------------------------------------------
  // The handlers: digits kept, idempotent, long input untouched.

  /** The CPF handler writes back exactly the digits it read, and with more
      than eleven leaves the field as it was. */
  lemma CpfInputKeepsDigits(value: string)
    ensures Digits(CpfInput(value)) == Digits(value)
    ensures |Digits(value)| > 11 ==> CpfInput(value) == value
  {
    CpfPatternKeepsDigits(Digits(value));
  }

  /** The RG handler writes back exactly the digits it read, and with more
      than eleven leaves the field as it was. */
  lemma RgInputKeepsDigits(value: string)
    ensures Digits(RgInput(value)) == Digits(value)
    ensures |Digits(value)| > 11 ==> RgInput(value) == value
  {
    var d := Digits(value);
    RgNewPatternKeepsDigits(d);
    RgOldPatternKeepsDigits(d);
    DigitsOfDigits(d);
  }

  /** The phone handler writes back exactly the digits it read, and with
      more than eleven leaves the field as it was. */
  lemma PhoneInputKeepsDigits(value: string)
    ensures Digits(PhoneInput(value)) == Digits(value)
    ensures |Digits(value)| > 11 ==> PhoneInput(value) == value
  {
    var d := Digits(value);
    MobilePatternKeepsDigits(d);
    LandlinePatternKeepsDigits(d);
    DigitsOfDigits(d);
  }

  /** Running a handler on its own output changes nothing. */
  lemma MasksIdempotent(value: string)
    ensures CpfInput(CpfInput(value)) == CpfInput(value)
    ensures RgInput(RgInput(value)) == RgInput(value)
    ensures PhoneInput(PhoneInput(value)) == PhoneInput(value)
  {
    CpfInputKeepsDigits(value);
    RgInputKeepsDigits(value);
    PhoneInputKeepsDigits(value);
  }

  lemma Hashes()
    ensures forall i :: 0 <= i < 1 ==> "#"[i] == '#'
    ensures forall i :: 0 <= i < 2 ==> "##"[i] == '#'
    ensures forall i :: 0 <= i < 3 ==> "###"[i] == '#'
    ensures forall i :: 0 <= i < 4 ==> "####"[i] == '#'
    ensures forall i :: 0 <= i < 5 ==> "#####"[i] == '#'
  {
  }

  /** The CPF mask appears only at exactly eleven digits; with fewer the field
      holds the bare digits. */
  lemma CpfMaskShape(value: string)
    ensures |Digits(value)| == 11 ==> Fits(CpfInput(value), "###.###.###-##")
    ensures |Digits(value)| < 11 ==> CpfInput(value) == Digits(value)
  {
    var d := Digits(value);
    if |d| == 11 {
      Hashes();
      SliceIsDigits(d, 0, 3); SliceIsDigits(d, 3, 6); SliceIsDigits(d, 6, 9); SliceIsDigits(d, 9, 11);
      FitsDigitRun(d[..3], "###"); FitsDigitRun(d[3..6], "###");
      FitsDigitRun(d[6..9], "###"); FitsDigitRun(d[9..11], "##");
      FitsAppend(d[..3], "###", ".", ".");
      FitsAppend(d[..3] + ".", "###.", d[3..6], "###");
      FitsAppend(d[..3] + "." + d[3..6], "###.###", ".", ".");
      FitsAppend(d[..3] + "." + d[3..6] + ".", "###.###.", d[6..9], "###");
      FitsAppend(d[..3] + "." + d[3..6] + "." + d[6..9], "###.###.###", "-", "-");
      FitsAppend(d[..3] + "." + d[3..6] + "." + d[6..9] + "-", "###.###.###-", d[9..11], "##");
      assert d[11..] == [];
      assert CpfInput(value) == d[..3] + "." + d[3..6] + "." + d[6..9] + "-" + d[9..11];
    }
  }

  /** The phone mask: `(DD) DDDDD-DDDD` at eleven digits, `(DD) DDDD-DDDD` at
      ten, the bare digits below ten. */
  lemma PhoneMaskShape(value: string)
    ensures |Digits(value)| == 11 ==> Fits(PhoneInput(value), "(##) #####-####")
    ensures |Digits(value)| == 10 ==> Fits(PhoneInput(value), "(##) ####-####")
    ensures |Digits(value)| < 10 ==> PhoneInput(value) == Digits(value)
  {
    var d := Digits(value);
    if |d| == 11 {
      Hashes();
      SliceIsDigits(d, 0, 2); SliceIsDigits(d, 2, 7); SliceIsDigits(d, 7, 11);
      FitsDigitRun(d[..2], "##"); FitsDigitRun(d[2..7], "#####"); FitsDigitRun(d[7..11], "####");
      FitsAppend("(", "(", d[..2], "##");
      FitsAppend("(" + d[..2], "(##", ") ", ") ");
      FitsAppend("(" + d[..2] + ") ", "(##) ", d[2..7], "#####");
      FitsAppend("(" + d[..2] + ") " + d[2..7], "(##) #####", "-", "-");
      FitsAppend("(" + d[..2] + ") " + d[2..7] + "-", "(##) #####-", d[7..11], "####");
      assert d[11..] == [];
      assert PhoneInput(value) == "(" + d[..2] + ") " + d[2..7] + "-" + d[7..11];
    } else if |d| == 10 {
      Hashes();
      SliceIsDigits(d, 0, 2); SliceIsDigits(d, 2, 6); SliceIsDigits(d, 6, 10);
      FitsDigitRun(d[..2], "##"); FitsDigitRun(d[2..6], "####"); FitsDigitRun(d[6..10], "####");
      FitsAppend("(", "(", d[..2], "##");
      FitsAppend("(" + d[..2], "(##", ") ", ") ");
      FitsAppend("(" + d[..2] + ") ", "(##) ", d[2..6], "####");
      FitsAppend("(" + d[..2] + ") " + d[2..6], "(##) ####", "-", "-");
      FitsAppend("(" + d[..2] + ") " + d[2..6] + "-", "(##) ####-", d[6..10], "####");
      assert d[10..] == [];
      assert PhoneInput(value) == "(" + d[..2] + ") " + d[2..6] + "-" + d[6..10];
    }
  }

  /** The RG mask in the new format: `###.###.###-##` at eleven digits,
      `###.###.###-#` at ten; at nine digits the dash is already shown,
      `###.###.###-`. */
  lemma RgNewShape(value: string)
    ensures |Digits(value)| == 11 ==> Fits(RgInput(value), "###.###.###-##")
    ensures |Digits(value)| == 10 ==> Fits(RgInput(value), "###.###.###-#")
    ensures |Digits(value)| == 9 ==> Fits(RgInput(value), "###.###.###-")
  {
    var d := Digits(value);
    if 9 <= |d| <= 11 {
      Hashes();
      var e := |d|;
      var t4 := if e == 11 then "##" else if e == 10 then "#" else "";
      SliceIsDigits(d, 0, 3); SliceIsDigits(d, 3, 6); SliceIsDigits(d, 6, 9); SliceIsDigits(d, 9, e);
      FitsDigitRun(d[..3], "###"); FitsDigitRun(d[3..6], "###");
      FitsDigitRun(d[6..9], "###"); FitsDigitRun(d[9..e], t4);
      FitsAppend(d[..3], "###", ".", ".");
      FitsAppend(d[..3] + ".", "###.", d[3..6], "###");
      FitsAppend(d[..3] + "." + d[3..6], "###.###", ".", ".");
      FitsAppend(d[..3] + "." + d[3..6] + ".", "###.###.", d[6..9], "###");
      FitsAppend(d[..3] + "." + d[3..6] + "." + d[6..9], "###.###.###", "-", "-");
      FitsAppend(d[..3] + "." + d[3..6] + "." + d[6..9] + "-", "###.###.###-", d[9..e], t4);
      assert d[e..] == [];
      assert RgInput(value) == d[..3] + "." + d[3..6] + "." + d[6..9] + "-" + d[9..e];
      assert "###.###.###-" + t4 == if e == 11 then "###.###.###-##" else if e == 10 then "###.###.###-#" else "###.###.###-";
    }
  }

  /** The RG mask in the old format: `#.###.###` at seven digits, `#.###.##`
      at six, `#.###.#` at five; a four-digit value already ends in a dot,
      `#.###.`. Eight digits and one to three digits stay bare: neither
      pattern is applied to them. */
  lemma RgOldShape(value: string)
    ensures |Digits(value)| == 7 ==> Fits(RgInput(value), "#.###.###")
    ensures |Digits(value)| == 6 ==> Fits(RgInput(value), "#.###.##")
    ensures |Digits(value)| == 5 ==> Fits(RgInput(value), "#.###.#")
    ensures |Digits(value)| == 4 ==> Fits(RgInput(value), "#.###.")
    ensures |Digits(value)| == 8 || |Digits(value)| <= 3 ==> RgInput(value) == Digits(value)
  {
    var d := Digits(value);
    if 4 <= |d| <= 7 {
      Hashes();
      var e := |d|;
      var t3 := if e == 7 then "###" else if e == 6 then "##" else if e == 5 then "#" else "";
      SliceIsDigits(d, 0, 1); SliceIsDigits(d, 1, 4); SliceIsDigits(d, 4, e);
      FitsDigitRun(d[..1], "#"); FitsDigitRun(d[1..4], "###"); FitsDigitRun(d[4..e], t3);
      FitsAppend(d[..1], "#", ".", ".");
      FitsAppend(d[..1] + ".", "#.", d[1..4], "###");
      FitsAppend(d[..1] + "." + d[1..4], "#.###", ".", ".");
      FitsAppend(d[..1] + "." + d[1..4] + ".", "#.###.", d[4..e], t3);
      assert d[e..] == [];
      assert RgInput(value) == d[..1] + "." + d[1..4] + "." + d[4..e];
      assert "#.###." + t3 == if e == 7 then "#.###.###" else if e == 6 then "#.###.##" else if e == 5 then "#.###.#" else "#.###.";
    }
  }

  /** The worked example: the digits `52998224725` show as `529.982.247-25`. */
  lemma CpfMaskExample(cpf: string)
    requires Digits(cpf) == "52998224725"
    ensures CpfInput(cpf) == "529.982.247-25"
  {
    var d := Digits(cpf);
    assert d[..3] == "529" && d[3..6] == "982" && d[6..9] == "247" && d[9..11] == "25" && d[11..] == [];
    assert CpfInput(cpf) == CpfPattern(d);
  }

  /** The digits `11987654321` show as `(11) 98765-4321`. */
  lemma PhoneMaskExample(phone: string)
    requires Digits(phone) == "11987654321"
    ensures PhoneInput(phone) == "(11) 98765-4321"
  {
    var d := Digits(phone);
    assert d[..2] == "11" && d[2..7] == "98765" && d[7..11] == "4321" && d[11..] == [];
    assert PhoneInput(phone) == MobilePattern(d);
  }

  /** A mask never changes a verdict: the validators read only digits and each
      handler keeps them. */
  lemma MasksKeepVerdicts(value: string)
    ensures IsValidCpf(CpfInput(value)) == IsValidCpf(value)
    ensures ValidRg(RgInput(value)) == ValidRg(value)
    ensures ValidPhone(PhoneInput(value)) == ValidPhone(value)
  {
    CpfInputKeepsDigits(value);
    RgInputKeepsDigits(value);
    PhoneInputKeepsDigits(value);
    VerdictsDependOnDigitsOnly(CpfInput(value), value);
    VerdictsDependOnDigitsOnly(RgInput(value), value);
    VerdictsDependOnDigitsOnly(PhoneInput(value), value);
  }

  /** The two complete phone formats: a `#` per digit, no digit of their own. */
  lemma MobileHashes()
    ensures Count("(##) #####-####", '#') == 11
  {
  }

  lemma LandlineHashes()
    ensures Count("(##) ####-####", '#') == 10
  {
  }

  lemma PhoneTemplatesHaveNoDigits()
    ensures forall i :: 0 <= i < |"(##) #####-####"| ==> !IsDigit("(##) #####-####"[i])
    ensures forall i :: 0 <= i < |"(##) ####-####"| ==> !IsDigit("(##) ####-####"[i])
  {
  }

  /** A value fitting a complete phone format holds eleven or ten digits. */
  lemma PhoneFormatsCountDigits(r: string)
    ensures Fits(r, "(##) #####-####") ==> |Digits(r)| == 11
    ensures Fits(r, "(##) ####-####") ==> |Digits(r)| == 10
  {
    if Fits(r, "(##) #####-####") {
      MobileHashes();
      PhoneTemplatesHaveNoDigits();
      FitsCountsDigits(r, "(##) #####-####");
    }
    if Fits(r, "(##) ####-####") {
      LandlineHashes();
      PhoneTemplatesHaveNoDigits();
      FitsCountsDigits(r, "(##) ####-####");
    }
  }

  /** `validarTelefone` accepts a phone exactly when its mask shows one of
      the two complete formats, `(DD) DDDDD-DDDD` or `(DD) DDDD-DDDD`. */
  lemma PhoneValidIffComplete(value: string)
    ensures ValidPhone(value) <==>
      Fits(PhoneInput(value), "(##) #####-####") || Fits(PhoneInput(value), "(##) ####-####")
  {
    var r := PhoneInput(value);
    PhoneMaskShape(value);
    PhoneInputKeepsDigits(value);
    PhoneFormatsCountDigits(r);
  }
}
