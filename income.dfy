/** The income field (`renda`) of the live copy: the check in `validarCampo`
    and the normaliser `proximaEtapa` applies before submitting. Both strip
    the value to digits, commas and dots, then call `String.replace` with a
    string pattern, which replaces the FIRST occurrence only: the first dot
    is dropped and the first comma becomes a dot. */
module Income {
  import opened Text

  predicate IsNumericChar(c: char) {
    IsDigit(c) || c == ',' || c == '.'
  }

  /** `s.replace(/[^\d,\.]/g, '')`. */
  function KeepNumeric(s: string): (r: string)
    ensures forall i :: 0 <= i < |r| ==> IsNumericChar(r[i])
    ensures |r| <= |s|
  {
    if s == [] then []
    else if IsNumericChar(s[0]) then [s[0]] + KeepNumeric(s[1..])
    else KeepNumeric(s[1..])
  }

  /** Index of the first `c` in `s`. */
  function FirstIndex(s: string, c: char): (i: nat)
    requires c in s
    ensures i < |s| && s[i] == c && c !in s[..i]
  {
    if s[0] == c then 0
    else
      assert c in s[1..] by { assert s == [s[0]] + s[1..]; }
      var j := FirstIndex(s[1..], c);
      assert s[..j + 1] == [s[0]] + s[1..][..j];
      j + 1
  }

  /** `s.replace(c, rep)` with a one-character string pattern: the first
      occurrence of `c`, if any, becomes `rep`. */
  function ReplaceFirst(s: string, c: char, rep: string): (r: string)
    ensures c !in s ==> r == s
    ensures c in s && c !in rep ==> Count(r, c) == Count(s, c) - 1
  {
    if c in s then
      var i := FirstIndex(s, c);
      var r := s[..i] + rep + s[i + 1..];
      assert c !in rep ==> Count(r, c) == Count(s, c) - 1 by {
        if c !in rep {
          ReplaceFirstCount(s, c, rep, i);
        }
      }
      r
    else s
  }

  lemma ReplaceFirstCount(s: string, c: char, rep: string, i: nat)
    requires i < |s| && s[i] == c && c !in rep
    ensures Count(s[..i] + rep + s[i + 1..], c) == Count(s, c) - 1
  {
    assert s == s[..i] + [s[i]] + s[i + 1..];
    CountAppend(s[..i] + [s[i]], s[i + 1..], c);
    CountAppend(s[..i], [s[i]], c);
    CountAppend(s[..i] + rep, s[i + 1..], c);
    CountAppend(s[..i], rep, c);
  }

  /** `valor.replace(/[^\d,\.]/g, '').replace('.', '').replace(',', '.')`
      (`validarCampo` on the trimmed value, and `proximaEtapa` on step 6). */
  function NormalizeIncome(valor: string): string {
    ReplaceFirst(ReplaceFirst(KeepNumeric(valor), '.', ""), ',', ".")
  }

  /** `!isNaN(parseFloat(s))` for a string of digits, commas and dots: the
      string must begin with a decimal literal, a digit or a dot followed by a
      digit. Such a literal is never negative, so `rendaNum >= 0` adds
      nothing. */
  predicate StartsDecimal(s: string) {
    (|s| >= 1 && IsDigit(s[0])) || (|s| >= 2 && s[0] == '.' && IsDigit(s[1]))
  }

  /** The `renda` branch of `validarCampo`. */
  predicate IncomeAccepted(value: string) {
    StartsDecimal(NormalizeIncome(Trim(value)))
  }

  // ---------------------------------------------------------------------

  lemma {:induction false} KeepNumericKeepsDigits(s: string)
    ensures Digits(KeepNumeric(s)) == Digits(s)
  {
    if s != [] {
      KeepNumericKeepsDigits(s[1..]);
      if IsNumericChar(s[0]) {
        DigitsAppend([s[0]], KeepNumeric(s[1..]));
      }
    }
  }

  lemma {:induction false} KeepNumericAppend(a: string, b: string)
    ensures KeepNumeric(a + b) == KeepNumeric(a) + KeepNumeric(b)
  {
    if a == [] {
      assert a + b == b;
    } else {
      assert (a + b)[1..] == a[1..] + b;
      KeepNumericAppend(a[1..], b);
    }
  }

  lemma {:induction false} KeepNumericOfNumeric(s: string)
    requires forall i :: 0 <= i < |s| ==> IsNumericChar(s[i])
    ensures KeepNumeric(s) == s
  {
    if s != [] {
      KeepNumericOfNumeric(s[1..]);
    }
  }

  lemma {:induction false} KeepNumericOfOther(s: string)
    requires forall i :: 0 <= i < |s| ==> !IsNumericChar(s[i])
    ensures KeepNumeric(s) == []
  {
    if s != [] {
      KeepNumericOfOther(s[1..]);
    }
  }

  /** Replacing a non-digit by a string without digits keeps the digits. */
  lemma ReplaceFirstKeepsDigits(s: string, c: char, rep: string)
    requires !IsDigit(c) && Digits(rep) == []
    ensures Digits(ReplaceFirst(s, c, rep)) == Digits(s)
  {
    if c in s {
      var i := FirstIndex(s, c);
      assert s == s[..i] + [s[i]] + s[i + 1..];
      DigitsAppend(s[..i] + [s[i]], s[i + 1..]);
      DigitsAppend(s[..i], [s[i]]);
      DigitsAppend(s[..i] + rep, s[i + 1..]);
      DigitsAppend(s[..i], rep);
    }
  }

  /** Only the first occurrence is replaced: everything after it is kept,
      whether or not it holds more copies of `c`. */
  lemma ReplaceFirstSplit(a: string, c: char, b: string, rep: string)
    requires c !in a
    ensures ReplaceFirst(a + [c] + b, c, rep) == a + rep + b
  {
    var s := a + [c] + b;
    assert s[|a|] == c;
    var i := FirstIndex(s, c);
    assert s[..i] == a && s[i + 1..] == b;
  }

  // ---------------------------------------------------------------------
  // What the normaliser does to a currency string.

  /** The normaliser never loses or invents a digit. */
  lemma NormalizeKeepsDigits(valor: string)
    ensures Digits(NormalizeIncome(valor)) == Digits(valor)
  {
    var k := KeepNumeric(valor);
    KeepNumericKeepsDigits(valor);
    ReplaceFirstKeepsDigits(k, '.', "");
    assert Digits(".") == [];
    ReplaceFirstKeepsDigits(ReplaceFirst(k, '.', ""), ',', ".");
  }

  /** The normaliser removes exactly one dot when there is one and turns
      exactly one comma into a dot when there is one; the other dots and
      commas stay. */
  lemma NormalizeCounts(valor: string)
    ensures var k := KeepNumeric(valor);
      var r := NormalizeIncome(valor);
      Count(r, ',') == Count(k, ',') - (if ',' in k then 1 else 0)
      && Count(r, '.') == Count(k, '.') - (if '.' in k then 1 else 0) + (if ',' in k then 1 else 0)
  {
    var k := KeepNumeric(valor);
    var k1 := ReplaceFirst(k, '.', "");
    ReplaceFirstCounts(k, '.', "", ',');
    ReplaceFirstCounts(k, '.', "", '.');
    assert ',' in k1 <==> ',' in k by {
      assert Count(k1, ',') == 0 <==> ',' !in k1;
      assert Count(k, ',') == 0 <==> ',' !in k;
    }
    assert Count(".", '.') == 1 && Count(".", ',') == 0;
    ReplaceFirstCounts(k1, ',', ".", ',');
    ReplaceFirstCounts(k1, ',', ".", '.');
  }

  /** How many `x` there are after replacing the first `c` by `rep`. */
  lemma ReplaceFirstCounts(s: string, c: char, rep: string, x: char)
    ensures Count(ReplaceFirst(s, c, rep), x) ==
      Count(s, x) + (if c in s then Count(rep, x) - (if x == c then 1 else 0) else 0)
  {
    if c in s {
      var i := FirstIndex(s, c);
      assert s == s[..i] + [s[i]] + s[i + 1..];
      CountAppend(s[..i] + [s[i]], s[i + 1..], x);
      CountAppend(s[..i], [s[i]], x);
      CountAppend(s[..i] + rep, s[i + 1..], x);
      CountAppend(s[..i], rep, x);
    }
  }

  /** Replacing a character other than the first one keeps the first one. */
  lemma ReplaceFirstKeepsHead(s: string, c: char, rep: string)
    requires |s| >= 1 && s[0] != c
    ensures |ReplaceFirst(s, c, rep)| >= 1 && ReplaceFirst(s, c, rep)[0] == s[0]
  {
    if c in s {
      var i := FirstIndex(s, c);
      assert i > 0;
      assert (s[..i] + rep + s[i + 1..])[0] == s[..i][0];
    }
  }

  lemma DigitsHaveNoSeparator(a: string)
    requires AllDigits(a)
    ensures '.' !in a && ',' !in a
  {
  }

  /** A prefix without digits, commas or dots (the currency sign and its
      space) is stripped and the numeric part passes through unchanged. */
  lemma KeepNumericAfterPrefix(p: string, s: string)
    requires forall i :: 0 <= i < |p| ==> !IsNumericChar(p[i])
    requires forall i :: 0 <= i < |s| ==> IsNumericChar(s[i])
    ensures KeepNumeric(p + s) == s
  {
    KeepNumericAppend(p, s);
    KeepNumericOfOther(p);
    KeepNumericOfNumeric(s);
  }

  /** `1234,56` becomes `1234.56`. */
  lemma NormalizeNoThousands(p: string, a: string, c: string)
    requires forall i :: 0 <= i < |p| ==> !IsNumericChar(p[i])
    requires AllDigits(a) && AllDigits(c)
    ensures NormalizeIncome(p + a + "," + c) == a + "." + c
  {
    var s := a + "," + c;
    assert KeepNumeric(p + a + "," + c) == s by {
      assert p + s == p + a + "," + c;
      KeepNumericAfterPrefix(p, s);
    }
    assert ReplaceFirst(s, '.', "") == s by {
      DigitsHaveNoSeparator(a);
      DigitsHaveNoSeparator(c);
      assert '.' !in s;
    }
    assert ReplaceFirst(s, ',', ".") == a + "." + c by {
      DigitsHaveNoSeparator(a);
      assert s == a + [','] + c;
      ReplaceFirstSplit(a, ',', c, ".");
    }
  }

  predicate Numeric(s: string) {
    forall i :: 0 <= i < |s| ==> IsNumericChar(s[i])
  }

  /** The general shape: the dot before `b` is dropped, the comma before `c`
      becomes a dot, and nothing else moves, provided neither appears earlier. */
  lemma NormalizeDotThenComma(p: string, a: string, b: string, c: string)
    requires forall i :: 0 <= i < |p| ==> !IsNumericChar(p[i])
    requires Numeric(a) && Numeric(b) && Numeric(c)
    requires '.' !in a && ',' !in a && ',' !in b
    ensures NormalizeIncome(p + a + "." + b + "," + c) == a + b + "." + c
  {
    NormalizeDotThenCommaAt(p + a + "." + b + "," + c, p, a, b, c);
  }

  lemma NormalizeDotThenCommaAt(v: string, p: string, a: string, b: string, c: string)
    requires v == p + a + "." + b + "," + c
    requires forall i :: 0 <= i < |p| ==> !IsNumericChar(p[i])
    requires Numeric(a) && Numeric(b) && Numeric(c)
    requires '.' !in a && ',' !in a && ',' !in b
    ensures NormalizeIncome(v) == a + b + "." + c
  {
    var s := a + "." + b + "," + c;
    assert KeepNumeric(p + a + "." + b + "," + c) == s by {
      assert p + s == p + a + "." + b + "," + c;
      KeepNumericAfterPrefix(p, s);
    }
    var t := a + b + "," + c;
    assert ReplaceFirst(s, '.', "") == t by {
      assert s == a + ['.'] + (b + "," + c);
      ReplaceFirstSplit(a, '.', b + "," + c, "");
      assert a + "" + (b + "," + c) == t;
    }
    assert ReplaceFirst(t, ',', ".") == a + b + "." + c by {
      assert ',' !in a + b;
      assert t == (a + b) + [','] + c;
      ReplaceFirstSplit(a + b, ',', c, ".");
    }
  }

  /** `R$ 1.234,56` becomes `1234.56`: one thousands separator is handled. */
  lemma NormalizeOneThousand(p: string, a: string, b: string, c: string)
    requires forall i :: 0 <= i < |p| ==> !IsNumericChar(p[i])
    requires AllDigits(a) && AllDigits(b) && AllDigits(c)
    ensures NormalizeIncome(p + a + "." + b + "," + c) == a + b + "." + c
  {
    DigitsHaveNoSeparator(a);
    DigitsHaveNoSeparator(b);
    NormalizeDotThenComma(p, a, b, c);
  }

  lemma MiddleGroup(a: string, b: string, c: string, e: string)
    requires AllDigits(a) && AllDigits(b) && AllDigits(c) && AllDigits(e)
    ensures Numeric(a) && Numeric(b + "." + c) && Numeric(e)
    ensures '.' !in a && ',' !in a && ',' !in b + "." + c
  {
    DigitsHaveNoSeparator(a);
    DigitsHaveNoSeparator(b);
    DigitsHaveNoSeparator(c);
  }

  lemma Regroup(p: string, a: string, b: string, c: string, e: string)
    ensures p + a + "." + b + "." + c + "," + e == p + a + "." + (b + "." + c) + "," + e
    ensures a + (b + "." + c) + "." + e == a + b + "." + c + "." + e
  {
  }

  lemma NormalizeTwoDots(p: string, a: string, b: string, c: string, e: string)
    requires forall i :: 0 <= i < |p| ==> !IsNumericChar(p[i])
    requires Numeric(a) && Numeric(b + "." + c) && Numeric(e)
    requires '.' !in a && ',' !in a && ',' !in b + "." + c
    ensures NormalizeIncome(p + a + "." + b + "." + c + "," + e) == a + b + "." + c + "." + e
  {
    var v := p + a + "." + b + "." + c + "," + e;
    Regroup(p, a, b, c, e);
    NormalizeDotThenCommaAt(v, p, a, b + "." + c, e);
  }

  /** `R$ 1.234.567,89` becomes `1234.567.89`: from a million up only the
      first thousands separator is dropped, so a dot is still in front of the
      comma's replacement and `parseFloat` reads only `1234.567`. */
  lemma NormalizeTwoThousands(p: string, a: string, b: string, c: string, e: string)
    requires forall i :: 0 <= i < |p| ==> !IsNumericChar(p[i])
    requires AllDigits(a) && AllDigits(b) && AllDigits(c) && AllDigits(e)
    ensures NormalizeIncome(p + a + "." + b + "." + c + "," + e) == a + b + "." + c + "." + e
  {
    MiddleGroup(a, b, c, e);
    NormalizeTwoDots(p, a, b, c, e);
  }

  /** The income check accepts a value only if it has a digit, and always
      when its numeric part begins with a digit. */
  lemma IncomeAcceptedDigits(value: string)
    ensures IncomeAccepted(value) ==> Digits(value) != []
    ensures (var k := KeepNumeric(Trim(value)); |k| >= 1 && IsDigit(k[0])) ==> IncomeAccepted(value)
  {
    var t := Trim(value);
    var n := NormalizeIncome(t);
    assert Digits(t) == Digits(value);
    assert StartsDecimal(n) ==> Digits(n) != [] by {
      if StartsDecimal(n) {
        StartsDecimalHasDigit(n);
      }
    }
    NormalizeKeepsDigits(t);
    var k := KeepNumeric(t);
    if |k| >= 1 && IsDigit(k[0]) {
      ReplaceFirstKeepsHead(k, '.', "");
      ReplaceFirstKeepsHead(ReplaceFirst(k, '.', ""), ',', ".");
    }
  }

  lemma StartsDecimalHasDigit(n: string)
    requires StartsDecimal(n)
    ensures Digits(n) != []
  {
    var i := if IsDigit(n[0]) then 0 else 1;
    assert n == n[..i] + [n[i]] + n[i + 1..];
    DigitsAppend(n[..i] + [n[i]], n[i + 1..]);
    DigitsAppend(n[..i], [n[i]]);
  }

  // ---------------------------------------------------------------------
  // The display formatter of the live copy's income field: its `input` and
  // `blur` listeners show the digits as an amount in reais, its `focus`
  // listener as a plain decimal. Both read the digits as a number of cents.

  /** `parseInt(valor, 10)` on a digit string. Leading zeros, such as the
      ones the listeners pad to three digits, add nothing. */
  function Number(s: string): nat
    requires AllDigits(s)
  {
    if s == [] then 0 else Number(s[..|s| - 1]) * 10 + DigitValue(s[|s| - 1])
  }

  /** A whole number written out: its digits without leading zeros. */
  function Decimal(n: nat): (r: string)
    ensures AllDigits(r) && |r| >= 1
    ensures Number(r) == n
  {
    if n < 10 then
      var r := [DigitChar(n)];
      assert r[..0] == [];
      r
    else
      var r := Decimal(n / 10) + [DigitChar(n % 10)];
      assert r[..|r| - 1] == Decimal(n / 10);
      r
  }

  /** Two digits with a leading zero: the cents. */
  function Cents(c: nat): (r: string)
    requires c < 100
    ensures AllDigits(r) && |r| == 2 && Number(r) == c
  {
    var r := [DigitChar(c / 10), DigitChar(c % 10)];
    NumberSnoc([DigitChar(c / 10)], DigitChar(c % 10));
    NumberSnoc([], DigitChar(c / 10));
    assert [] + [DigitChar(c / 10)] == [DigitChar(c / 10)];
    assert [DigitChar(c / 10)] + [DigitChar(c % 10)] == r;
    r
  }

  /** Three digits with leading zeros: a group after a thousands separator. */
  function Group(g: nat): (r: string)
    requires g < 1000
    ensures AllDigits(r) && |r| == 3 && Number(r) == g
  {
    var r := [DigitChar(g / 100), DigitChar(g / 10 % 10), DigitChar(g % 10)];
    NumberSnoc([DigitChar(g / 100), DigitChar(g / 10 % 10)], DigitChar(g % 10));
    NumberSnoc([DigitChar(g / 100)], DigitChar(g / 10 % 10));
    NumberSnoc([], DigitChar(g / 100));
    assert [] + [DigitChar(g / 100)] == [DigitChar(g / 100)];
    assert [DigitChar(g / 100)] + [DigitChar(g / 10 % 10)] == [DigitChar(g / 100), DigitChar(g / 10 % 10)];
    assert [DigitChar(g / 100), DigitChar(g / 10 % 10)] + [DigitChar(g % 10)] == r;
    assert (g / 100) * 10 + g / 10 % 10 == g / 10;
    r
  }

  /** One more digit on the right: ten times the number, plus the digit. */
  lemma NumberSnoc(a: string, c: char)
    requires AllDigits(a) && IsDigit(c)
    ensures AllDigits(a + [c]) && Number(a + [c]) == Number(a) * 10 + DigitValue(c)
  {
    assert (a + [c])[..|a|] == a;
  }

  /** Whole reais as the pt-BR locale writes them: groups of three digits
      separated by dots. */
  function Thousands(q: nat): string {
    if q < 1000 then Decimal(q) else Thousands(q / 1000) + "." + Group(q % 1000)
  }

  /** The currency sign of `toLocaleString('pt-BR', {style: 'currency',
      currency: 'BRL'})`, followed by a no-break space. */
  const CurrencySign := "R$\U{00A0}"

  /** The `input` and `blur` listeners of `renda`: a value without digits
      becomes empty; otherwise its digits, read as cents, are written as an
      amount in reais, `R$ 1.500,00`. */
  function FormatIncome(value: string): string {
    var d := Digits(value);
    if d == [] then ""
    else
      var n := Number(d);
      Amount(n / 100, n % 100)
  }

  /** `R$ <reais>,<cents>`. */
  function Amount(q: nat, c: nat): string
    requires c < 100
  {
    CurrencySign + Thousands(q) + "," + Cents(c)
  }

  /** `<reais>.<cents>`. */
  function Plain(q: nat, c: nat): string
    requires c < 100
  {
    Decimal(q) + "." + Cents(c)
  }

  /** The `focus` listener: the digits, read as cents, written with
      `toFixed(2)`, `1500.00`; a value without digits is left alone. */
  function UnformatIncome(value: string): string {
    var d := Digits(value);
    if d == [] then value
    else
      var n := Number(d);
      Plain(n / 100, n % 100)
  }

  // ---------------------------------------------------------------------

  /** Two digits on the right: a hundred times the number, plus theirs. */
  lemma NumberAppendCents(a: string, c: nat)
    requires AllDigits(a) && c < 100
    ensures Number(a + Cents(c)) == Number(a) * 100 + c
  {
    var r := Cents(c);
    NumberSnoc(a, r[0]);
    NumberSnoc(a + [r[0]], r[1]);
    assert a + [r[0]] + [r[1]] == a + r;
  }

  /** Past a thousand, the last three digits of a number form its last group. */
  lemma DecimalSplit(q: nat)
    requires q >= 1000
    ensures Decimal(q) == Decimal(q / 1000) + Group(q % 1000)
  {
    var a := q / 1000;
    var b := q % 1000;
    assert q / 10 / 10 == q / 100 && q / 100 / 10 == a;
    assert q / 100 % 10 == b / 100 && q / 10 % 10 == b / 10 % 10 && q % 10 == b % 10;
    assert Decimal(q / 100) == Decimal(a) + [DigitChar(b / 100)];
    assert Decimal(q / 10) == Decimal(a) + [DigitChar(b / 100)] + [DigitChar(b / 10 % 10)];
  }

  /** The thousands separators are the only thing the grouping adds. */
  lemma {:induction false} ThousandsDigits(q: nat)
    ensures Digits(Thousands(q)) == Decimal(q)
    decreases q
  {
    if q < 1000 {
      DigitsOfDigits(Decimal(q));
    } else {
      ThousandsDigits(q / 1000);
      DigitsAppend(Thousands(q / 1000) + ".", Group(q % 1000));
      DigitsAppend(Thousands(q / 1000), ".");
      assert Digits(".") == [];
      DigitsOfDigits(Group(q % 1000));
      DecimalSplit(q);
    }
  }

  lemma CurrencySignHasNoNumber()
    ensures forall i :: 0 <= i < |CurrencySign| ==> !IsNumericChar(CurrencySign[i])
    ensures Digits(CurrencySign) == []
  {
    NoDigits(CurrencySign);
  }

  lemma AmountDigits(q: nat, c: nat)
    requires c < 100
    ensures Digits(Amount(q, c)) == Decimal(q) + Cents(c)
  {
    CurrencySignHasNoNumber();
    ThousandsDigits(q);
    assert Digits(",") == [];
    DigitsAppend(CurrencySign + Thousands(q) + ",", Cents(c));
    DigitsAppend(CurrencySign + Thousands(q), ",");
    DigitsAppend(CurrencySign, Thousands(q));
    DigitsOfDigits(Cents(c));
  }

  lemma PlainDigits(q: nat, c: nat)
    requires c < 100
    ensures Digits(Plain(q, c)) == Decimal(q) + Cents(c)
  {
    assert Digits(".") == [];
    DigitsAppend(Decimal(q) + ".", Cents(c));
    DigitsAppend(Decimal(q), ".");
    DigitsOfDigits(Decimal(q));
    DigitsOfDigits(Cents(c));
  }

  /** Both displays hold the number's digits and nothing else that counts:
      they read back as the same number of cents. */
  lemma DisplaysReadBack(value: string)
    requires Digits(value) != []
    ensures var n := Number(Digits(value));
      Digits(FormatIncome(value)) == Decimal(n / 100) + Cents(n % 100)
      && Digits(UnformatIncome(value)) == Decimal(n / 100) + Cents(n % 100)
      && Number(Decimal(n / 100) + Cents(n % 100)) == n
  {
    var n := Number(Digits(value));
    AmountDigits(n / 100, n % 100);
    PlainDigits(n / 100, n % 100);
    NumberAppendCents(Decimal(n / 100), n % 100);
  }

  /** The displays depend only on the number the digits stand for. */
  lemma SameNumberSameDisplay(a: string, b: string)
    requires Digits(a) != [] && Digits(b) != [] && Number(Digits(a)) == Number(Digits(b))
    ensures FormatIncome(a) == FormatIncome(b) && UnformatIncome(a) == UnformatIncome(b)
  {
  }

  /** Formatting twice is formatting once, and a focus followed by a blur
      (or a blur followed by a focus) gives back what the second listener
      alone would show. */
  lemma DisplaysSettle(value: string)
    ensures FormatIncome(FormatIncome(value)) == FormatIncome(value)
    ensures FormatIncome(UnformatIncome(value)) == FormatIncome(value)
    ensures Digits(value) != [] ==> UnformatIncome(FormatIncome(value)) == UnformatIncome(value)
  {
    if Digits(value) != [] {
      DisplaysReadBack(value);
      var n := Number(Digits(value));
      var r := Decimal(n / 100) + Cents(n % 100);
      assert Digits(FormatIncome(value)) == r && Digits(UnformatIncome(value)) == r;
      DigitsOfDigits(r);
      SameNumberSameDisplay(FormatIncome(value), value);
      SameNumberSameDisplay(UnformatIncome(value), value);
    }
  }

  lemma ThousandsBelowAMillion(q: nat)
    requires 1000 <= q < 1000000
    ensures Thousands(q) == Decimal(q / 1000) + "." + Group(q % 1000)
  {
  }

  lemma ThousandsBelowABillion(q: nat)
    requires 1000000 <= q < 1000000000
    ensures Thousands(q) == Decimal(q / 1000000) + "." + Group(q / 1000 % 1000) + "." + Group(q % 1000)
  {
    ThousandsBelowAMillion(q / 1000);
    assert q / 1000 / 1000 == q / 1000000;
  }

  /** Below a million reais the normaliser turns the amount into the plain
      decimal. */
  lemma NormalizeAmount(q: nat, c: nat)
    requires q < 1000000 && c < 100
    ensures NormalizeIncome(Amount(q, c)) == Plain(q, c)
  {
    CurrencySignHasNoNumber();
    if q < 1000 {
      NormalizeNoThousands(CurrencySign, Decimal(q), Cents(c));
    } else {
      ThousandsBelowAMillion(q);
      NormalizeOneThousand(CurrencySign, Decimal(q / 1000), Group(q % 1000), Cents(c));
      DecimalSplit(q);
      assert Amount(q, c) == CurrencySign + Decimal(q / 1000) + "." + Group(q % 1000) + "," + Cents(c);
    }
  }

  /** From a million up to a billion reais, with two separators, the second
      one survives. */
  lemma NormalizeLargeAmount(q: nat, c: nat)
    requires 1000000 <= q < 1000000000 && c < 100
    ensures NormalizeIncome(Amount(q, c)) == Decimal(q / 1000) + "." + Group(q % 1000) + "." + Cents(c)
  {
    CurrencySignHasNoNumber();
    ThousandsBelowABillion(q);
    var a := Decimal(q / 1000000);
    var b := Group(q / 1000 % 1000);
    var e := Group(q % 1000);
    assert Amount(q, c) == CurrencySign + a + "." + b + "." + e + "," + Cents(c);
    NormalizeTwoThousands(CurrencySign, a, b, e, Cents(c));
    DecimalSplit(q / 1000);
    assert q / 1000 / 1000 == q / 1000000;
  }

  /** The grouping writes only digits and dots: at least one dot from a
      thousand up and at least two from a million up. */
  lemma {:induction false} ThousandsShape(q: nat)
    ensures Numeric(Thousands(q)) && ',' !in Thousands(q)
    ensures q >= 1000 ==> Count(Thousands(q), '.') >= 1
    ensures q >= 1000000 ==> Count(Thousands(q), '.') >= 2
    decreases q
  {
    if q < 1000 {
      DigitsHaveNoSeparator(Decimal(q));
    } else {
      ThousandsShape(q / 1000);
      var t := Thousands(q / 1000);
      var g := Group(q % 1000);
      var r := t + "." + g;
      assert Thousands(q) == r;
      DigitsHaveNoSeparator(g);
      forall i | 0 <= i < |r|
        ensures IsNumericChar(r[i])
      {
        if i < |t| {
          assert r[i] == t[i];
        } else if i > |t| {
          assert r[i] == g[i - |t| - 1];
        }
      }
      CountAppend(t + ".", g, '.');
      CountAppend(t, ".", '.');
      assert Count(".", '.') == 1;
    }
  }

  /** Whatever follows a string that already holds the character is carried
      along unchanged. */
  lemma ReplaceFirstAppend(s: string, t: string, c: char, rep: string)
    requires c in s
    ensures ReplaceFirst(s + t, c, rep) == ReplaceFirst(s, c, rep) + t
  {
    var i := FirstIndex(s, c);
    assert s == s[..i] + [c] + s[i + 1..];
    assert s + t == s[..i] + [c] + (s[i + 1..] + t);
    ReplaceFirstSplit(s[..i], c, s[i + 1..] + t, rep);
    ReplaceFirstSplit(s[..i], c, s[i + 1..], rep);
  }

  /** For an amount of any size the normaliser drops the first thousands
      separator, keeps every other one, and turns the decimal comma into a
      dot: `R$ 1.234.567.890,12` becomes `1234.567.890.12`. */
  lemma NormalizeAnyAmount(q: nat, c: nat)
    requires c < 100
    ensures NormalizeIncome(Amount(q, c)) == ReplaceFirst(Thousands(q), '.', "") + "." + Cents(c)
  {
    var t := Thousands(q);
    var e := Cents(c);
    var s := t + "," + e;
    ThousandsShape(q);
    DigitsHaveNoSeparator(e);
    CurrencySignHasNoNumber();
    forall i | 0 <= i < |s|
      ensures IsNumericChar(s[i])
    {
      if i < |t| {
        assert s[i] == t[i];
      } else if i > |t| {
        assert s[i] == e[i - |t| - 1];
      }
    }
    assert Amount(q, c) == CurrencySign + s;
    KeepNumericAfterPrefix(CurrencySign, s);
    var r := ReplaceFirst(t, '.', "");
    if '.' in t {
      assert s == t + ("," + e);
      ReplaceFirstAppend(t, "," + e, '.', "");
    } else {
      assert '.' !in s;
    }
    assert ReplaceFirst(s, '.', "") == r + [','] + e;
    ReplaceFirstCounts(t, '.', "", ',');
    assert Count(t, ',') == 0;
    ReplaceFirstSplit(r, ',', e, ".");
  }

  /** The normaliser gives the plain decimal exactly below a million reais;
      from a million up a thousands separator survives, so the submitted
      value holds two dots or more. */
  lemma NormalizeIsPlainIffBelowAMillion(q: nat, c: nat)
    requires c < 100
    ensures NormalizeIncome(Amount(q, c)) == Plain(q, c) <==> q < 1000000
    ensures q >= 1000000 ==> Count(NormalizeIncome(Amount(q, c)), '.') >= 2
  {
    if q < 1000000 {
      NormalizeAmount(q, c);
    } else {
      NormalizeAnyAmount(q, c);
      ThousandsShape(q);
      var t := Thousands(q);
      var r := ReplaceFirst(t, '.', "");
      var e := Cents(c);
      assert Count("", '.') == 0 && Count(".", '.') == 1;
      ReplaceFirstCounts(t, '.', "", '.');
      DigitsHaveNoSeparator(e);
      DigitsHaveNoSeparator(Decimal(q));
      CountAppend(r + ".", e, '.');
      CountAppend(r, ".", '.');
      CountAppend(Decimal(q) + ".", e, '.');
      CountAppend(Decimal(q), ".", '.');
      assert Count(Plain(q, c), '.') == 1;
    }
  }

  /** What the last step submits for a formatted income: the first thousands
      separator is dropped and the comma becomes a dot, so the result is the
      decimal the focus listener shows exactly below a million reais; from a
      million up to a billion it is `1234.567.89`-shaped, and beyond that
      further separators survive as well. */
  lemma FormattedIncomeSubmits(value: string)
    requires Digits(value) != []
    ensures var n := Number(Digits(value));
      n / 100 < 1000000 ==> NormalizeIncome(FormatIncome(value)) == UnformatIncome(value)
    ensures var n := Number(Digits(value)); var q := n / 100;
      1000000 <= q < 1000000000 ==>
        NormalizeIncome(FormatIncome(value)) == Decimal(q / 1000) + "." + Group(q % 1000) + "." + Cents(n % 100)
    ensures var n := Number(Digits(value));
      NormalizeIncome(FormatIncome(value)) == ReplaceFirst(Thousands(n / 100), '.', "") + "." + Cents(n % 100)
    ensures NormalizeIncome(FormatIncome(value)) == UnformatIncome(value) <==> Number(Digits(value)) / 100 < 1000000
  {
    var n := Number(Digits(value));
    NormalizeAnyAmount(n / 100, n % 100);
    NormalizeIsPlainIffBelowAMillion(n / 100, n % 100);
    if n / 100 < 1000000 {
      NormalizeAmount(n / 100, n % 100);
    } else if n / 100 < 1000000000 {
      NormalizeLargeAmount(n / 100, n % 100);
    }
  }

  /** The income check accepts a formatted value exactly when it has digits:
      the display never adds a sign, a space at either end, or a leading
      separator. */
  lemma FormattedIncomeAccepted(value: string)
    ensures IncomeAccepted(FormatIncome(value)) <==> Digits(value) != []
  {
    if Digits(value) == [] {
      assert FormatIncome(value) == [];
      assert Trim([]) == [];
      assert KeepNumeric([]) == [];
    } else {
      var n := Number(Digits(value));
      var cents := Cents(n % 100);
      var rest := Thousands(n / 100) + "," + cents;
      assert FormatIncome(value) == CurrencySign + rest;
      ThousandsStartsWithDigit(n / 100);
      assert rest[|rest| - 1] == cents[1];
      SignedAmountAccepted(rest);
    }
  }

  /** A currency display whose amount starts and ends with a digit passes the
      `renda` check. */
  lemma SignedAmountAccepted(rest: string)
    requires |rest| >= 1 && IsDigit(rest[0]) && IsDigit(rest[|rest| - 1])
    ensures IncomeAccepted(CurrencySign + rest)
  {
    var s := CurrencySign + rest;
    if IsJsSpace(rest[|rest| - 1]) {
      SpaceIsNotDigit(rest[|rest| - 1]);
    }
    assert s[0] == 'R';
    assert s[|s| - 1] == rest[|rest| - 1];
    TrimUnpadded(s);
    CurrencySignHasNoNumber();
    KeepNumericAppend(CurrencySign, rest);
    KeepNumericOfOther(CurrencySign);
    assert rest == [rest[0]] + rest[1..];
    KeepNumericAppend([rest[0]], rest[1..]);
    assert IsNumericChar(rest[0]);
    IncomeAcceptedDigits(s);
  }

  lemma {:induction false} ThousandsStartsWithDigit(q: nat)
    ensures |Thousands(q)| >= 1 && IsDigit(Thousands(q)[0])
    decreases q
  {
    if q >= 1000 {
      ThousandsStartsWithDigit(q / 1000);
    }
  }
}
