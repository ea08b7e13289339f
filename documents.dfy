/** Document and phone validators: `validarCPF`, `validarRG`, `validarTelefone`.
    `validarCPF` is the same code in both copies of the script. */
module Documents {
  import opened Text

  /** `11 - (sum % 11)`, with 10 and 11 read as 0: a CPF check digit. */
  function CheckDigit(sum: nat): (d: nat)
    ensures d <= 9
    ensures (d + sum) % 11 == 0 || (d == 0 && sum % 11 == 1)
  {
    var resto := 11 - sum % 11;
    if resto == 10 || resto == 11 then 0 else resto
  }

  /** Sum of the first `n` digits of `d`, digit `i` weighted by `top - i`. */
  function WeightedSum(d: string, n: nat, top: int): int
    requires n <= |d| && AllDigits(d)
  {
    if n == 0 then 0 else WeightedSum(d, n - 1, top) + DigitValue(d[n - 1]) * (top - (n - 1))
  }

  lemma {:induction false} WeightedSumNonNegative(d: string, n: nat, top: int)
    requires n <= |d| && AllDigits(d) && n <= top
    ensures WeightedSum(d, n, top) >= 0
  {
    if n > 0 {
      WeightedSumNonNegative(d, n - 1, top);
    }
  }

  /** The first check digit (weights 10..2 over digits 1..9). */
  function FirstCheckDigit(d: string): nat
    requires |d| >= 9 && AllDigits(d)
  {
    WeightedSumNonNegative(d, 9, 10);
    CheckDigit(WeightedSum(d, 9, 10))
  }

  /** The second check digit (weights 11..2 over digits 1..10). */
  function SecondCheckDigit(d: string): nat
    requires |d| >= 10 && AllDigits(d)
  {
    WeightedSumNonNegative(d, 10, 11);
    CheckDigit(WeightedSum(d, 10, 11))
  }

  /** The CPF rule: after stripping non-digits, exactly eleven digits, not all
      the same, whose last two are the modulo-11 check digits of the others. */
  predicate IsValidCpf(cpf: string) {
    var d := Digits(cpf);
    |d| == 11 && !AllSame(d)
    && DigitValue(d[9]) == FirstCheckDigit(d)
    && DigitValue(d[10]) == SecondCheckDigit(d)
  }

  /** `validarCPF`: the two accumulation loops of the script. */
  method ValidateCpf(cpf: string) returns (ok: bool)
    ensures ok == IsValidCpf(cpf)
  {
    var d := Digits(cpf);
    if |d| != 11 {
      return false;
    }
    RepeatsIffAllSame(d, 11);
    if RepeatsOneDigit(d, 11) {
      return false;
    }
    var soma := 0;
    for i := 0 to 9
      invariant soma == WeightedSum(d, i, 10)
    {
      soma := soma + DigitValue(d[i]) * (10 - i);
    }
    WeightedSumNonNegative(d, 9, 10);
    var resto := 11 - soma % 11;
    if resto == 10 || resto == 11 {
      resto := 0;
    }
    if resto != DigitValue(d[9]) {
      return false;
    }
    soma := 0;
    for i := 0 to 10
      invariant soma == WeightedSum(d, i, 11)
    {
      soma := soma + DigitValue(d[i]) * (11 - i);
    }
    WeightedSumNonNegative(d, 10, 11);
    resto := 11 - soma % 11;
    if resto == 10 || resto == 11 {
      resto := 0;
    }
    if resto != DigitValue(d[10]) {
      return false;
    }
    return true;
  }

  /** The eleven-digit CPF whose first nine digits are `nine`: both check
      digits appended. */
  function CompleteCpf(nine: string): (d: string)
    requires |nine| == 9 && AllDigits(nine)
    ensures |d| == 11 && AllDigits(d) && d[..9] == nine
  {
    var ten := nine + [DigitChar(FirstCheckDigit(nine))];
    ten + [DigitChar(SecondCheckDigit(ten))]
  }

  lemma {:induction false} WeightedSumPrefix(d: string, e: string, n: nat, top: int)
    requires n <= |d| && n <= |e| && AllDigits(d) && AllDigits(e) && d[..n] == e[..n]
    ensures WeightedSum(d, n, top) == WeightedSum(e, n, top)
  {
    if n > 0 {
      assert d[n - 1] == d[..n][n - 1] == e[..n][n - 1] == e[n - 1];
      assert d[..n - 1] == d[..n][..n - 1];
      assert e[..n - 1] == e[..n][..n - 1];
      WeightedSumPrefix(d, e, n - 1, top);
    }
  }

  lemma DigitCharValue(c: char)
    requires IsDigit(c)
    ensures DigitChar(DigitValue(c)) == c
  {
  }

  /** A CPF is valid exactly when its digits are the completion of their first
      nine and are not eleven copies of one digit: the check digits are
      determined by the rest, and every nine-digit prefix has exactly one
      valid completion unless the completion is a repeated digit. */
  lemma CpfIsCompletion(cpf: string)
    ensures IsValidCpf(cpf) <==>
      var d := Digits(cpf);
      |d| == 11 && !AllSame(d) && d == CompleteCpf(d[..9])
  {
    var d := Digits(cpf);
    if |d| == 11 {
      var nine := d[..9];
      var ten := nine + [DigitChar(FirstCheckDigit(nine))];
      WeightedSumPrefix(d, nine, 9, 10);
      assert FirstCheckDigit(d) == FirstCheckDigit(nine);
      if d == CompleteCpf(nine) {
        assert d[9] == DigitChar(FirstCheckDigit(nine));
        assert d[..10] == ten;
        WeightedSumPrefix(d, ten, 10, 11);
        assert d[10] == DigitChar(SecondCheckDigit(ten));
      }
      if DigitValue(d[9]) == FirstCheckDigit(d) && DigitValue(d[10]) == SecondCheckDigit(d) {
        DigitCharValue(d[9]);
        DigitCharValue(d[10]);
        assert d[..10] == ten;
        WeightedSumPrefix(d, ten, 10, 11);
        assert d == d[..10] + [d[10]];
      }
    }
  }

  /** `validarRG`: seven (old format) or eleven (new format) digits, not all
      the same digit. */
  function ValidRg(rg: string): (ok: bool)
    ensures ok <==> var d := Digits(rg); (|d| == 7 || |d| == 11) && !AllSame(d)
  {
    var apenasNumeros := Digits(rg);
    if |apenasNumeros| == 7 then
      RepeatsIffAllSame(apenasNumeros, 7);
      !RepeatsOneDigit(apenasNumeros, 7)
    else if |apenasNumeros| == 11 then
      RepeatsIffAllSame(apenasNumeros, 11);
      !RepeatsOneDigit(apenasNumeros, 11)
    else false
  }

  /** `validarTelefone`: ten or eleven digits (area code and number). */
  function ValidPhone(telefone: string): bool {
    var apenasNumeros := Digits(telefone);
    |apenasNumeros| == 10 || |apenasNumeros| == 11
  }

  /** Only the digits of a value decide every validator, so white space around
      it (the `trim()` applied by `validarCampo`) never changes a verdict. */
  lemma VerdictsIgnoreTrim(v: string)
    ensures IsValidCpf(Trim(v)) == IsValidCpf(v)
    ensures ValidRg(Trim(v)) == ValidRg(v)
    ensures ValidPhone(Trim(v)) == ValidPhone(v)
  {
  }

  /** Values that depend only on digits: two strings with the same digits get
      the same verdict from each validator. */
  lemma VerdictsDependOnDigitsOnly(a: string, b: string)
    requires Digits(a) == Digits(b)
    ensures IsValidCpf(a) == IsValidCpf(b)
    ensures ValidRg(a) == ValidRg(b)
    ensures ValidPhone(a) == ValidPhone(b)
  {
  }

  /** The worked example `529.982.247-25`: any value with these digits passes. */
  lemma ValidCpfExample(cpf: string)
    requires Digits(cpf) == "52998224725"
    ensures IsValidCpf(cpf)
  {
    var d := "52998224725";
    assert d[0] != d[1];
    assert DigitValue(d[9]) == 2 && DigitValue(d[10]) == 5;
    assert WeightedSum(d, 9, 10) == 295;
    assert WeightedSum(d, 10, 11) == 347;
  }

  /** `123.456.789-00` has a correct first check digit and a wrong second one. */
  lemma InvalidCpfExample(cpf: string)
    requires Digits(cpf) == "12345678900"
    ensures !IsValidCpf(cpf)
  {
    var d := "12345678900";
    assert SecondCheckDigit(d) == 9 by {
      assert WeightedSum(d, 3, 11) == 58;
      assert WeightedSum(d, 6, 11) == 161;
      assert WeightedSum(d, 9, 11) == 255;
      assert WeightedSum(d, 10, 11) == 255;
    }
    assert DigitValue(d[10]) == 0;
  }

  /** Eleven copies of one digit satisfy both check-digit equations (for
      `111.111.111-11` both are 1) and are still rejected. */
  lemma RepeatedCpfExample(cpf: string)
    requires Digits(cpf) == "11111111111"
    ensures !IsValidCpf(cpf)
    ensures FirstCheckDigit(Digits(cpf)) == 1 && SecondCheckDigit(Digits(cpf)) == 1
  {
    var d := "11111111111";
    assert WeightedSum(d, 9, 10) == 54;
    assert WeightedSum(d, 10, 11) == 65;
    assert forall i, j :: 0 <= i < |d| && 0 <= j < |d| ==> d[i] == d[j];
  }

  lemma RgExamples(old7: string, repeated7: string, eight: string)
    requires Digits(old7) == "1234567" && Digits(repeated7) == "1111111"
    requires Digits(eight) == "11111111"
    ensures ValidRg(old7) && !ValidRg(repeated7) && !ValidRg(eight)
  {
    assert "1234567"[0] != "1234567"[1];
    assert "1111111"[0] == "1111111"[6];
  }
}
