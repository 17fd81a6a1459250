/** Coercion of the text a client sends for a coordinate into the numbers the
    `Coords` row stores: `latitude` and `longitude` are decimal fields with at
    most 10 digits of which 7 are fractional (models.py:23-30), `height` is an
    integer field (models.py:31). A decimal value is kept as an integer count
    of 10^-7 units, so `45.3842` is stored as 453842000. */
module Decimals {
  import opened Wrappers
  import opened Text

  const MaxDigits: nat := 10
  const DecimalPlaces: nat := 7
  /** Digits allowed before the decimal point. */
  const MaxWholeDigits: nat := MaxDigits - DecimalPlaces
  /** 10^10 units of 10^-7: the bound on the stored magnitude. */
  const ColumnLimit: int := 10_000_000_000

  function Pow10(n: nat): (r: nat)
    ensures r >= 1
  {
    if n == 0 then 1 else 10 * Pow10(n - 1)
  }

  lemma {:induction false} Pow10Add(a: nat, b: nat)
    ensures Pow10(a + b) == Pow10(a) * Pow10(b)
    decreases a
  {
    if a > 0 {
      Pow10Add(a - 1, b);
    }
  }

  lemma Pow10Monotone(a: nat, b: nat)
    requires a <= b
    ensures Pow10(a) <= Pow10(b)
  {
    Pow10Add(a, b - a);
  }

  predicate IsDigit(c: char)
  {
    '0' <= c <= '9'
  }

  predicate AllDigits(s: string)
  {
    forall i :: 0 <= i < |s| ==> IsDigit(s[i])
  }

  /** The number a string of decimal digits spells. */
  function DigitsValue(s: string): nat
    requires AllDigits(s)
  {
    if s == [] then 0
    else 10 * DigitsValue(s[..|s| - 1]) + (s[|s| - 1] as int - '0' as int)
  }

  /** The number of decimal digits of `n` without leading zeros (one for
      zero): the length of the digit tuple of a Python Decimal. */
  function NumDigits(n: nat): (r: nat)
    ensures 1 <= r && n < Pow10(r)
  {
    if n < 10 then 1 else 1 + NumDigits(n / 10)
  }

  /** The decimal digits of `n`, the inverse of `DigitsValue`. */
  function FormatNat(n: nat): (r: string)
    ensures r != [] && AllDigits(r)
  {
    if n < 10 then [(48 + n) as char]
    else FormatNat(n / 10) + [(48 + n % 10) as char]
  }

  lemma {:induction false} DigitsValueFormatNat(n: nat)
    ensures DigitsValue(FormatNat(n)) == n
  {
    if n >= 10 {
      DigitsValueFormatNat(n / 10);
      var r := FormatNat(n);
      assert r[..|r| - 1] == FormatNat(n / 10);
    }
  }

  /** An optional leading `-` or `+`, and the rest of the text. */
  function SplitSign(s: string): (bool, string)
  {
    if |s| > 0 && (s[0] == '-' || s[0] == '+') then (s[0] == '-', s[1..]) else (false, s)
  }

  // ------------------------------------------------------------- integers

  /** The text without its trailing zeros. */
  function DropTrailingZeros(s: string): (r: string)
    ensures |r| <= |s| && r == s[..|r|]
    decreases |s|
  {
    if s != [] && s[|s| - 1] == '0' then DropTrailingZeros(s[..|s| - 1]) else s
  }

  /** The substitution the integer field applies first, removing a match of
      `\.0*\s*$`: a point followed only by zeros and then white space at
      the end. Text with no such ending is returned as it is. */
  function DropZeroFraction(s: string): string
  {
    var u := DropTrailingZeros(TrimRight(s));
    if u != [] && u[|u| - 1] == '.' then u[..|u| - 1] else s
  }

  /** The integer text `int()` accepts after white space is stripped: an
      optional sign and at least one digit. */
  function IntegerText(s: string): Option<int>
  {
    var (negative, digits) := SplitSign(s);
    if digits == [] || !AllDigits(digits) then None
    else if negative then Some(-(DigitsValue(digits) as int))
    else Some(DigitsValue(digits))
  }

  /** The integer field: `int(re.sub(r'\.0*\s*$', '', text))`. None stands
      for the validation error. */
  function ParseInteger(s: string): Option<int>
  {
    IntegerText(Strip(DropZeroFraction(s)))
  }

  /** How an integer is written in JSON, and so how it reaches the field. */
  function FormatInt(n: int): string
  {
    if n < 0 then "-" + FormatNat(-n) else FormatNat(n)
  }

  /** Every integer the client can send comes back unchanged. */
  lemma ParseFormatInt(n: int)
    ensures ParseInteger(FormatInt(n)) == Some(n)
  {
    var f := FormatInt(n);
    FormatIntKept(n);
    if n < 0 {
      DigitsValueFormatNat(-n);
      assert f[1..] == FormatNat(-n);
    } else {
      DigitsValueFormatNat(n);
    }
    assert IntegerText(f) == Some(n);
  }

  /** Neither the zero-fraction substitution nor stripping changes a
      written integer. */
  lemma FormatIntKept(n: int)
    ensures Strip(DropZeroFraction(FormatInt(n))) == FormatInt(n)
  {
    var f := FormatInt(n);
    FormatIntPlain(n);
    assert TrimRight(f) == f;
    var u := DropTrailingZeros(f);
    assert u != [] ==> u[|u| - 1] == f[|u| - 1];
    assert DropZeroFraction(f) == f;
    StripUnchanged(f);
  }

  /** The written integer: no point, and neither end is white space. */
  lemma FormatIntPlain(n: int)
    ensures var f := FormatInt(n);
      f != [] && '.' !in f && !IsSpace(f[0]) && IsDigit(f[|f| - 1])
  {
    var f := FormatInt(n);
    var digits := FormatNat(if n < 0 then -n else n);
    assert f == (if n < 0 then "-" else "") + digits;
    assert f[|f| - 1] == digits[|digits| - 1];
    assert forall i :: 0 <= i < |f| ==> f[i] == '-' || IsDigit(f[i]);
  }

  /** An integer followed by a point and only zeros, such as `1200.0`, is
      accepted as that integer. */
  lemma ParseIntegerZeroFraction(n: int, zeros: string)
    requires forall i :: 0 <= i < |zeros| ==> zeros[i] == '0'
    ensures ParseInteger(FormatInt(n) + "." + zeros) == Some(n)
  {
    var f := FormatInt(n);
    var s := f + "." + zeros;
    FormatIntPlain(n);
    assert s != [] && !IsSpace(s[|s| - 1]);
    assert TrimRight(s) == s;
    DropZeros(f + ".", zeros);
    assert s == (f + ".") + zeros;
    assert DropTrailingZeros(f + ".") == f + ".";
    assert (f + ".")[..|f|] == f;
    assert DropZeroFraction(s) == f;
    ParseFormatInt(n);
  }

  /** Zeros appended to a text that does not end in a zero are dropped
      again. */
  lemma {:induction false} DropZeros(s: string, zeros: string)
    requires s != [] && s[|s| - 1] != '0'
    requires forall i :: 0 <= i < |zeros| ==> zeros[i] == '0'
    ensures DropTrailingZeros(s + zeros) == s
    decreases |zeros|
  {
    if zeros == [] {
      assert s + zeros == s;
    } else {
      var init := zeros[..|zeros| - 1];
      assert (s + zeros)[..|s + zeros| - 1] == s + init;
      DropZeros(s, init);
    }
  }

  /** The three counts the decimal field's precision check uses, computed
      from the number of digits of the coefficient and the number of digits
      written after the point, as a Python Decimal reports them. */
  datatype Precision = Precision(total: nat, places: nat, whole: nat)

  function PrecisionOf(coefficientDigits: nat, fractionLength: nat): (p: Precision)
    ensures p.places == fractionLength
    ensures p.whole + p.places <= p.total || p.whole == 0
  {
    if fractionLength == 0 then Precision(coefficientDigits, 0, coefficientDigits)
    else if coefficientDigits > fractionLength then
      Precision(coefficientDigits, fractionLength, coefficientDigits - fractionLength)
    else Precision(fractionLength, fractionLength, 0)
  }

  predicate WithinPrecision(p: Precision)
  {
    p.total <= MaxDigits && p.places <= DecimalPlaces && p.whole <= MaxWholeDigits
  }

  /** Decimal text, once white space is stripped from both ends: an
      optional sign, digits, and optionally a point followed by more digits,
      with at least one digit in all. The result counts
      10^-7 units. None stands for the validation errors: not a number, more
      than 10 digits, more than 7 decimal places, more than 3 whole digits. */
  function ParseDecimal(s: string): (r: Option<int>)
    ensures r.Some? ==> -ColumnLimit < r.value < ColumnLimit
  {
    match DecimalParts(Strip(s))
    case None => None
    case Some((negative, whole, fraction)) =>
      var coefficient := DigitsValue(whole + fraction);
      var d := NumDigits(coefficient);
      if !WithinPrecision(PrecisionOf(d, |fraction|)) then None
      else
        ScaledWithinColumn(coefficient, d, |fraction|);
        var units: int := coefficient * Pow10(DecimalPlaces - |fraction|);
        Some(if negative then -units else units)
  }

  /** The sign, the digits before the point and the digits after it. */
  function DecimalParts(s: string): (r: Option<(bool, string, string)>)
    ensures r.Some? ==> AllDigits(r.value.1 + r.value.2) && r.value.1 + r.value.2 != []
  {
    var (negative, body) := SplitSign(s);
    var point := if '.' in body then IndexOfPoint(body) else |body|;
    var whole := body[..point];
    var fraction := if point < |body| then body[point + 1..] else "";
    if whole + fraction == [] || !AllDigits(whole) || !AllDigits(fraction) then None
    else
      assert AllDigits(whole + fraction);
      Some((negative, whole, fraction))
  }

  function IndexOfPoint(s: string): (i: nat)
    requires '.' in s
    ensures i < |s| && s[i] == '.'
  {
    if s[0] == '.' then 0 else 1 + IndexOfPoint(s[1..])
  }

  /** A coefficient of `d` digits with `n` written decimal places that
      passes the precision check is below 10^10 once scaled to 10^-7 units. */
  lemma ScaledWithinColumn(coefficient: nat, d: nat, n: nat)
    requires coefficient < Pow10(d)
    requires WithinPrecision(PrecisionOf(d, n))
    ensures n <= DecimalPlaces
    ensures 0 <= coefficient * Pow10(DecimalPlaces - n) < ColumnLimit
  {
    assert d <= n + MaxWholeDigits;
    Pow10Monotone(d, n + MaxWholeDigits);
    var scale := Pow10(DecimalPlaces - n);
    MultiplyStrict(coefficient, Pow10(n + MaxWholeDigits), scale);
    Pow10Add(n + MaxWholeDigits, DecimalPlaces - n);
    assert Pow10(MaxDigits) == ColumnLimit;
  }

  lemma MultiplyStrict(a: nat, b: nat, c: nat)
    requires a < b && c >= 1
    ensures 0 <= a * c < b * c
  {
  }

  // ------------------------------------------------------ written values

  /** The last `k` decimal digits of `m`, with leading zeros. */
  function FixedDigits(m: nat, k: nat): (r: string)
    ensures |r| == k && AllDigits(r)
  {
    if k == 0 then [] else FixedDigits(m / 10, k - 1) + [(48 + m % 10) as char]
  }

  /** A coordinate of `n` units of 10^-7 written out with all seven decimal
      places, the form a stored value takes when it is sent back. */
  function FormatUnits(n: int): string
  {
    var m := Magnitude(n);
    (if n < 0 then "-" else "") + FormatNat(m / Pow10(DecimalPlaces)) + "." + FixedDigits(m % Pow10(DecimalPlaces), DecimalPlaces)
  }

  lemma {:induction false} FixedDigitsValue(m: nat, k: nat)
    requires m < Pow10(k)
    ensures DigitsValue(FixedDigits(m, k)) == m
  {
    if k > 0 {
      var r := FixedDigits(m, k);
      assert r[..k - 1] == FixedDigits(m / 10, k - 1);
      FixedDigitsValue(m / 10, k - 1);
    }
  }

  lemma {:induction false} DigitsValueConcat(a: string, b: string)
    requires AllDigits(a) && AllDigits(b)
    ensures AllDigits(a + b) && DigitsValue(a + b) == DigitsValue(a) * Pow10(|b|) + DigitsValue(b)
    decreases |b|
  {
    if b == [] {
      assert a + b == a;
    } else {
      var init := b[..|b| - 1];
      var ab := a + b;
      assert ab[..|ab| - 1] == a + init;
      DigitsValueConcat(a, init);
      var last := b[|b| - 1] as int - '0' as int;
      assert DigitsValue(ab) == 10 * DigitsValue(a + init) + last;
      assert DigitsValue(b) == 10 * DigitsValue(init) + last;
      assert Pow10(|b|) == 10 * Pow10(|init|);
      Regroup(DigitsValue(a), Pow10(|init|), DigitsValue(init), last);
    }
  }

  lemma Regroup(x: int, p: int, y: int, last: int)
    ensures 10 * (x * p + y) + last == x * (10 * p) + (10 * y + last)
  {
  }

  lemma {:induction false} NumDigitsBound(m: nat, k: nat)
    requires 1 <= k && m < Pow10(k)
    ensures NumDigits(m) <= k
    decreases k
  {
    if m >= 10 {
      assert k >= 2;
      NumDigitsBound(m / 10, k - 1);
    }
  }

  lemma {:induction false} IndexOfPointAfterDigits(w: string, f: string)
    requires AllDigits(w)
    ensures '.' in w + "." + f && IndexOfPoint(w + "." + f) == |w|
    decreases |w|
  {
    var s := w + "." + f;
    assert s[|w|] == '.';
    if w != [] {
      assert s[1..] == w[1..] + "." + f;
      IndexOfPointAfterDigits(w[1..], f);
    }
  }

  function Magnitude(n: int): nat
  {
    if n < 0 then -n else n
  }

  /** The sign, the whole digits and the seven places of a written value. */
  lemma FormatUnitsParts(n: int)
    ensures DecimalParts(FormatUnits(n)) ==
      Some((n < 0, FormatNat(Magnitude(n) / Pow10(DecimalPlaces)), FixedDigits(Magnitude(n) % Pow10(DecimalPlaces), DecimalPlaces)))
  {
    var m := Magnitude(n);
    var scale := Pow10(DecimalPlaces);
    var w, f := FormatNat(m / scale), FixedDigits(m % scale, DecimalPlaces);
    var body := w + "." + f;
    var s := FormatUnits(n);
    if n < 0 {
      assert s[0] == '-' && s[1..] == body;
      assert SplitSign(s) == (true, body);
    } else {
      assert s == body;
      assert s[0] == w[0] && IsDigit(w[0]);
      assert SplitSign(s) == (false, body);
    }
    IndexOfPointAfterDigits(w, f);
    assert body[..|w|] == w && body[|w| + 1..] == f;
  }

  /** The whole digits followed by the seven places spell the magnitude. */
  lemma FormatUnitsDigits(m: nat)
    ensures var scale := Pow10(DecimalPlaces);
      DigitsValue(FormatNat(m / scale) + FixedDigits(m % scale, DecimalPlaces)) == m
  {
    var scale := Pow10(DecimalPlaces);
    var w, f := FormatNat(m / scale), FixedDigits(m % scale, DecimalPlaces);
    assert scale == 10_000_000;
    DigitsValueConcat(w, f);
    DigitsValueFormatNat(m / scale);
    FixedDigitsValue(m % scale, DecimalPlaces);
    assert DigitsValue(w + f) == (m / scale) * scale + m % scale;
  }

  /** Text whose parts are a sign, digits and seven places spelling `m`
      reads as `m` units, signed. */
  lemma ParseSevenPlaces(s: string, negative: bool, whole: string, fraction: string, m: nat)
    requires DecimalParts(Strip(s)) == Some((negative, whole, fraction))
    requires |fraction| == DecimalPlaces && DigitsValue(whole + fraction) == m && m < ColumnLimit
    ensures ParseDecimal(s) == Some(if negative then -(m as int) else m)
  {
    assert Pow10(MaxDigits) == ColumnLimit;
    NumDigitsBound(m, MaxDigits);
    var d := NumDigits(m);
    assert WithinPrecision(PrecisionOf(d, |fraction|));
    assert Pow10(DecimalPlaces - |fraction|) == 1;
    var units: int := m * Pow10(DecimalPlaces - |fraction|);
    assert units == m;
  }

  /** Stripping does not change a written value. */
  lemma FormatUnitsKept(n: int)
    ensures Strip(FormatUnits(n)) == FormatUnits(n)
  {
    var m := Magnitude(n);
    var s := FormatUnits(n);
    var w, f := FormatNat(m / Pow10(DecimalPlaces)), FixedDigits(m % Pow10(DecimalPlaces), DecimalPlaces);
    assert s == (if n < 0 then "-" else "") + w + "." + f;
    assert s[0] == (if n < 0 then '-' else w[0]);
    assert s[|s| - 1] == f[DecimalPlaces - 1];
    StripUnchanged(s);
  }

  /** Every value the column can hold, written with its seven places, is
      read back unchanged. */
  lemma ParseFormatUnits(n: int)
    requires -ColumnLimit < n < ColumnLimit
    ensures ParseDecimal(FormatUnits(n)) == Some(n)
  {
    var m := Magnitude(n);
    var scale := Pow10(DecimalPlaces);
    var w, f := FormatNat(m / scale), FixedDigits(m % scale, DecimalPlaces);
    FormatUnitsKept(n);
    FormatUnitsParts(n);
    FormatUnitsDigits(m);
    ParseSevenPlaces(FormatUnits(n), n < 0, w, f, m);
  }
}
