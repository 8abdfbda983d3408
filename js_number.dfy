/** JavaScript numbers as the colour converter uses them: a value that is
    either NaN or a finite number, `parseFloat`, `Math.round`, and the decimal
    text a template literal prints for an integer. Arithmetic is exact over
    the reals; IEEE-754 rounding and the infinities are not modelled. */
module JsNumber {
  import opened JsText

  datatype Number = NaN | Finite(value: real)

  function Add(x: Number, y: Number): (r: Number)
    ensures r.Finite? <==> x.Finite? && y.Finite?
  {
    if x.Finite? && y.Finite? then Finite(x.value + y.value) else NaN
  }

  function Mul(x: Number, y: Number): (r: Number)
    ensures r.Finite? <==> x.Finite? && y.Finite?
  {
    if x.Finite? && y.Finite? then Finite(x.value * y.value) else NaN
  }

  /** Multiplication by a constant, as in `x * (Math.PI / 180)`. */
  function Scale(x: Number, k: real): (r: Number)
    ensures r.Finite? <==> x.Finite?
  {
    if x.Finite? then Finite(x.value * k) else NaN
  }

  /** `Math.min(Math.max(x, lo), hi)`: NaN stays NaN, a value below `lo` becomes
      `lo`, one above `hi` becomes `hi`, and one in between is kept. */
  function Clamp(x: Number, lo: real, hi: real): (r: Number)
    requires lo <= hi
    ensures r.NaN? <==> x.NaN?
    ensures r.Finite? ==> lo <= r.value <= hi
    ensures x.Finite? && lo <= x.value <= hi ==> r == x
    ensures x.Finite? && x.value < lo ==> r == Finite(lo)
    ensures x.Finite? && x.value > hi ==> r == Finite(hi)
  {
    if x.NaN? then NaN
    else if x.value < lo then Finite(lo)
    else if x.value > hi then Finite(hi)
    else x
  }

  /** `Math.round(x)`: the nearest integer, halves rounded up. */
  function Round(x: Number): (r: Number)
    ensures r.NaN? <==> x.NaN?
    ensures r.Finite? ==> r.value == r.value.Floor as real
    ensures r.Finite? ==> x.value - 1.0 / 2.0 < r.value <= x.value + 1.0 / 2.0
  {
    if x.NaN? then NaN else Finite((x.value + 1.0 / 2.0).Floor as real)
  }

  predicate IsDigit(c: char)
  {
    '0' <= c <= '9'
  }

  predicate AllDigits(s: string)
  {
    forall i | 0 <= i < |s| :: IsDigit(s[i])
  }

  function Pow10(n: nat): (r: nat)
    ensures r >= 1
  {
    if n == 0 then 1 else 10 * Pow10(n - 1)
  }

  /** The value of a string of decimal digits (0 for the empty string). */
  function DigitsValue(ds: string): nat
    requires AllDigits(ds)
  {
    if ds == [] then 0
    else DigitsValue(ds[..|ds| - 1]) * 10 + (ds[|ds| - 1] as int - '0' as int)
  }

  /** The decimal text of a natural number, without leading zeros. */
  function NatToString(n: nat): (s: string)
    ensures s != [] && AllDigits(s)
    ensures |s| > 1 ==> s[0] != '0'
  {
    if n < 10 then ['0' + n as char]
    else NatToString(n / 10) + ['0' + (n % 10) as char]
  }

  /** Reading back the text of a natural number gives the number. */
  lemma {:induction false} NatToStringRoundTrip(n: nat)
    ensures DigitsValue(NatToString(n)) == n
  {
    if n >= 10 {
      var s := NatToString(n / 10) + ['0' + (n % 10) as char];
      assert s[..|s| - 1] == NatToString(n / 10);
      NatToStringRoundTrip(n / 10);
    }
  }

  /** The decimal text of an integer, with a minus sign when negative. */
  function IntToString(i: int): (s: string)
    ensures s != [] && (s[0] == '-' <==> i < 0)
    ensures i >= 0 ==> AllDigits(s)
  {
    if i < 0 then "-" + NatToString(-i) else NatToString(i)
  }

  /** End of the run of decimal digits that starts at `k`. */
  function DigitRunEnd(s: string, k: nat): (e: nat)
    requires k <= |s|
    ensures k <= e <= |s|
    ensures AllDigits(s[k..e])
    ensures e < |s| ==> !IsDigit(s[e])
    decreases |s| - k
  {
    if k < |s| && IsDigit(s[k]) then DigitRunEnd(s, k + 1) else k
  }

  /** The exponent part `e[+-]digits` at `k`, if one is there; `parseFloat`
      ignores an `e` that no digit follows. */
  function ExponentAt(s: string, k: nat): int
    requires k <= |s|
  {
    if k < |s| && (s[k] == 'e' || s[k] == 'E') then
      var signed := k + 1 < |s| && (s[k + 1] == '+' || s[k + 1] == '-');
      var from := if signed then k + 2 else k + 1;
      var to := DigitRunEnd(s, from);
      if to == from then 0
      else if signed && s[k + 1] == '-' then -(DigitsValue(s[from..to]) as int)
      else DigitsValue(s[from..to])
    else 0
  }

  /** The parts of a decimal literal: sign, integer digits, fraction digits
      and exponent. */
  datatype Literal = Literal(negative: bool, intDigits: string, fracDigits: string, exponent: int)

  /** The longest prefix of `t` of the form `[+-]digits[.digits][e[+-]digits]`,
      where either digit run may be empty but not both; None when there is none. */
  function LiteralPrefix(t: string): (r: Option<Literal>)
    ensures r.Some? ==> AllDigits(r.value.intDigits) && AllDigits(r.value.fracDigits)
  {
    var signed := |t| > 0 && (t[0] == '+' || t[0] == '-');
    var start := if signed then 1 else 0;
    var intEnd := DigitRunEnd(t, start);
    var hasDot := intEnd < |t| && t[intEnd] == '.';
    var fracEnd := if hasDot then DigitRunEnd(t, intEnd + 1) else intEnd;
    var fracDigits := if hasDot then t[intEnd + 1..fracEnd] else "";
    if intEnd == start && fracDigits == [] then None
    else Some(Literal(signed && t[0] == '-', t[start..intEnd], fracDigits, ExponentAt(t, fracEnd)))
  }

  /** The value of the digits `i.f`. */
  function Mantissa(intDigits: string, fracDigits: string): (m: real)
    requires AllDigits(intDigits) && AllDigits(fracDigits)
    ensures m >= 0.0
  {
    DigitsValue(intDigits) as real + DigitsValue(fracDigits) as real / Pow10(|fracDigits|) as real
  }

  /** `m` times 10 to the power `e`, for an exponent of either sign, one
      factor of ten at a time (`ScaledMantissa` gives the closed form). */
  function ScaleByPow10(m: real, e: int): (r: real)
    ensures m >= 0.0 ==> r >= 0.0
    decreases if e >= 0 then e else -e
  {
    if e == 0 then m
    else if e > 0 then ScaleByPow10(m, e - 1) * 10.0
    else ScaleByPow10(m, e + 1) / 10.0
  }

  /** The exact value of a decimal literal: its sign is the literal's sign. */
  function LiteralValue(lit: Literal): (v: real)
    requires AllDigits(lit.intDigits) && AllDigits(lit.fracDigits)
    ensures if lit.negative then v <= 0.0 else v >= 0.0
  {
    var magnitude := ScaleByPow10(Mantissa(lit.intDigits, lit.fracDigits), lit.exponent);
    assert magnitude >= 0.0;
    if lit.negative then -magnitude else magnitude
  }

  /** `parseFloat(s)`: skips leading white space and reads the longest decimal
      literal there. The result is NaN when the first other character is not
      a digit, a sign or `.`, a number when it is a digit, and negative only
      after a minus sign. The `Infinity` spelling, which JavaScript reads as
      an infinite number, has no value here and is read as NaN. */
  function ParseFloat(s: string): (r: Number)
    ensures var t := TrimStart(s);
      t == [] || (!IsDigit(t[0]) && t[0] != '+' && t[0] != '-' && t[0] != '.') ==> r.NaN?
    ensures var t := TrimStart(s);
      t != [] && IsDigit(t[0]) ==> r.Finite?
    ensures r.Finite? ==> TrimStart(s) != [] && (r.value >= 0.0 || TrimStart(s)[0] == '-')
  {
    var t := TrimStart(s);
    var lit := LiteralPrefix(t);
    if lit.None? then NaN else Finite(LiteralValue(lit.value))
  }

  /** `parseFloat` reads back the text of an integer, whatever non-numeric
      text (such as a unit) follows it. */
  lemma {:induction false} ParseFloatOfInteger(n: nat, unit: string)
    requires unit == [] || (!IsDigit(unit[0]) && unit[0] != '.' && unit[0] != 'e' && unit[0] != 'E')
    ensures ParseFloat(NatToString(n) + unit) == Finite(n as real)
  {
    var t := NatToString(n) + unit;
    DigitsAreNotSpace(t);
    LiteralOfInteger(n, unit);
    IntegerLiteralValue(NatToString(n));
    NatToStringRoundTrip(n);
  }

  /** Text that starts with a digit has no white space to skip. */
  lemma {:induction false} DigitsAreNotSpace(t: string)
    requires t != [] && IsDigit(t[0])
    ensures TrimStart(t) == t
  {
    assert !IsWhiteSpace(t[0]);
  }

  /** A literal without fraction or exponent is worth its integer digits. */
  lemma {:induction false} IntegerLiteralValue(ds: string)
    requires AllDigits(ds)
    ensures LiteralValue(Literal(false, ds, "", 0)) == DigitsValue(ds) as real
  {
    assert DigitsValue("") == 0 && Pow10(0) == 1;
  }

  /** The decimal literal at the start of an integer's text followed by a unit. */
  lemma {:induction false} LiteralOfInteger(n: nat, unit: string)
    requires unit == [] || (!IsDigit(unit[0]) && unit[0] != '.' && unit[0] != 'e' && unit[0] != 'E')
    ensures LiteralPrefix(NatToString(n) + unit) == Some(Literal(false, NatToString(n), "", 0))
  {
    var d := NatToString(n);
    var t := d + unit;
    assert !(t[0] == '+' || t[0] == '-');
    assert t[0..|d|] == d;
    DigitRunOver(t, 0, |d|);
    assert !(|d| < |t| && t[|d|] == '.');
    assert ExponentAt(t, |d|) == 0;
  }

  /** `parseFloat` reads a decimal fraction `d.f`, whatever text that does not
      continue the literal (such as a unit) follows it: `0.7` reads as 0.7.
      The integer digits may be empty, as in `.5`, or have leading zeros. */
  lemma {:induction false} ParseFloatOfDecimal(d: string, f: string, unit: string)
    requires AllDigits(d) && f != [] && AllDigits(f)
    requires unit == [] || (!IsDigit(unit[0]) && unit[0] != 'e' && unit[0] != 'E')
    ensures ParseFloat(d + "." + f + unit)
            == Finite(DigitsValue(d) as real + DigitsValue(f) as real / Pow10(|f|) as real)
  {
    DecimalWithUnit(d, f, unit);
    DecimalLiteralValue(d, f);
  }

  /** `parseFloat` reads a fraction written without integer digits:
      `.5` reads as 0.5. */
  lemma {:induction false} ParseFloatOfFraction(f: string, unit: string)
    requires f != [] && AllDigits(f)
    requires unit == [] || (!IsDigit(unit[0]) && unit[0] != 'e' && unit[0] != 'E')
    ensures ParseFloat("." + f + unit) == Finite(DigitsValue(f) as real / Pow10(|f|) as real)
  {
    FractionText(f, unit);
    FractionValue(f);
  }

  /** `parseFloat` reads an exponent `e`, `e+` or `e-` followed by the digits
      `xs`, of value x, after the integer digits `d`, of value i: `25e-1`
      reads as 2.5 and `1e3` as 1000. Either digit run may have leading
      zeros, as in `1e05`. */
  lemma {:induction false} ParseFloatOfExponent(d: string, sign: string, xs: string, unit: string, i: nat, x: nat)
    requires AllDigits(d) && d != [] && AllDigits(xs) && xs != []
    requires DigitsValue(d) == i && DigitsValue(xs) == x
    requires sign == "" || sign == "+" || sign == "-"
    requires unit == [] || !IsDigit(unit[0])
    ensures ParseFloat(d + "e" + sign + xs + unit)
            == Finite(if sign == "-" then i as real / Pow10(x) as real else i as real * Pow10(x) as real)
  {
    IntegerExponentText(d, sign, xs, unit, x);
    IntegerExponentValue(d, sign, i, x);
  }

  /** `de[+-]xs` followed by a unit, where `xs` is worth x, reads as its literal. */
  lemma {:induction false} IntegerExponentText(d: string, sign: string, xs: string, unit: string, x: nat)
    requires AllDigits(d) && d != [] && AllDigits(xs) && xs != [] && DigitsValue(xs) == x
    requires sign == "" || sign == "+" || sign == "-"
    requires unit == [] || !IsDigit(unit[0])
    ensures ParseFloat(d + "e" + sign + xs + unit)
            == Finite(LiteralValue(Literal(false, d, "", if sign == "-" then -(x as int) else x as int)))
  {
    var t := d + "e" + sign + xs + unit;
    assert t[0] == d[0];
    StartNotSpace(t);
    LiteralOfIntegerExponent(d, sign, xs, unit, x);
    ParseFloatOfLiteral(t, Literal(false, d, "", if sign == "-" then -(x as int) else x as int));
  }

  /** An integer literal of digits worth i, with exponent plus or minus x, is
      i times or over 10 to the x. */
  lemma {:induction false} IntegerExponentValue(d: string, sign: string, i: nat, x: nat)
    requires AllDigits(d) && DigitsValue(d) == i
    ensures LiteralValue(Literal(false, d, "", if sign == "-" then -(x as int) else x as int))
            == if sign == "-" then i as real / Pow10(x) as real else i as real * Pow10(x) as real
  {
    var e: int := if sign == "-" then -(x as int) else x as int;
    assert LiteralValue(Literal(false, d, "", e)) == ScaleByPow10(Mantissa(d, ""), e);
    assert Mantissa(d, "") == i as real by {
      assert Pow10(0) == 1 && DigitsValue("") == 0;
    }
    ScaledMantissa(i as real, sign == "-", x);
  }

  /** `parseFloat` reads an exponent after a decimal fraction: the number
      `d.f` is scaled by 10 to the exponent, plus or minus the value x of the
      digits `xs`, so `1.5e3` reads as 1500 and `1.5e-1` as 0.15
      (`ScaledMantissa` spells the scaling out). */
  lemma {:induction false} ParseFloatOfDecimalExponent(d: string, f: string, sign: string, xs: string, unit: string, x: nat)
    requires AllDigits(d) && f != [] && AllDigits(f) && AllDigits(xs) && xs != []
    requires DigitsValue(xs) == x
    requires sign == "" || sign == "+" || sign == "-"
    requires unit == [] || !IsDigit(unit[0])
    ensures var m := ParseFloat(d + "." + f);
            m.Finite? &&
            ParseFloat(d + "." + f + "e" + sign + xs + unit)
            == Finite(ScaleByPow10(m.value, if sign == "-" then -(x as int) else x as int))
  {
    var m := ParseFloat(d + "." + f);
    assert m == Finite(LiteralValue(Literal(false, d, f, 0))) by {
      DecimalText(d, f);
    }
    DecimalExponentText(d, f, sign, xs, unit, x);
    ScientificLiteralValue(d, f, if sign == "-" then -(x as int) else x as int, m.value);
  }

  /** `.f` followed by a unit reads as the literal of fraction digits `f`. */
  lemma {:induction false} FractionText(f: string, unit: string)
    requires f != [] && AllDigits(f)
    requires unit == [] || (!IsDigit(unit[0]) && unit[0] != 'e' && unit[0] != 'E')
    ensures ParseFloat("." + f + unit) == Finite(LiteralValue(Literal(false, "", f, 0)))
  {
    var t := "." + f + unit;
    assert t[0] == '.';
    StartNotSpace(t);
    LiteralOfFraction(f, unit);
    ParseFloatOfLiteral(t, Literal(false, "", f, 0));
  }

  /** The literal `.f` is worth its digits over the matching power of ten. */
  lemma {:induction false} FractionValue(f: string)
    requires AllDigits(f)
    ensures LiteralValue(Literal(false, "", f, 0)) == DigitsValue(f) as real / Pow10(|f|) as real
  {
    DecimalLiteralValue("", f);
    assert DigitsValue("") == 0;
  }

  /** `d.fe[+-]xs` followed by a unit, where `xs` is worth x, reads as its literal. */
  lemma {:induction false} DecimalExponentText(d: string, f: string, sign: string, xs: string, unit: string, x: nat)
    requires AllDigits(d) && f != [] && AllDigits(f) && AllDigits(xs) && xs != [] && DigitsValue(xs) == x
    requires sign == "" || sign == "+" || sign == "-"
    requires unit == [] || !IsDigit(unit[0])
    ensures ParseFloat(d + "." + f + "e" + sign + xs + unit)
            == Finite(LiteralValue(Literal(false, d, f, if sign == "-" then -(x as int) else x as int)))
  {
    var t := d + "." + f + "e" + sign + xs + unit;
    assert t[0] == if d == [] then '.' else d[0];
    StartNotSpace(t);
    LiteralOfDecimalExponent(d, f, sign, xs, unit, x);
    ParseFloatOfLiteral(t, Literal(false, d, f, if sign == "-" then -(x as int) else x as int));
  }

  /** `d.f` followed by a unit reads as its literal. */
  lemma {:induction false} DecimalWithUnit(d: string, f: string, unit: string)
    requires AllDigits(d) && f != [] && AllDigits(f)
    requires unit == [] || (!IsDigit(unit[0]) && unit[0] != 'e' && unit[0] != 'E')
    ensures ParseFloat(d + "." + f + unit) == Finite(LiteralValue(Literal(false, d, f, 0)))
  {
    var t := d + "." + f + unit;
    assert t[0] == if d == [] then '.' else d[0];
    StartNotSpace(t);
    LiteralOfDecimal(d, f, unit);
    ParseFloatOfLiteral(t, Literal(false, d, f, 0));
  }

  /** `d.f` alone reads as its literal. */
  lemma {:induction false} DecimalText(d: string, f: string)
    requires AllDigits(d) && f != [] && AllDigits(f)
    ensures ParseFloat(d + "." + f) == Finite(LiteralValue(Literal(false, d, f, 0)))
  {
    DecimalWithUnit(d, f, "");
    assert d + "." + f + "" == d + "." + f;
  }

  /** `parseFloat` of text with no white space to skip and a literal at its
      start is that literal's value. */
  lemma {:induction false} ParseFloatOfLiteral(t: string, lit: Literal)
    requires TrimStart(t) == t && LiteralPrefix(t) == Some(lit)
    ensures ParseFloat(t) == Finite(LiteralValue(lit))
  {
  }

  /** Text that starts with anything but white space has none to skip. */
  lemma {:induction false} StartNotSpace(t: string)
    requires t != [] && (IsDigit(t[0]) || t[0] == '.')
    ensures TrimStart(t) == t
  {
    assert !IsWhiteSpace(t[0]);
  }

  /** The digits `ds` after `pre`, followed by a non-digit or the end, are the
      run `DigitRunEnd` finds there. */
  lemma {:induction false} DigitRunAt(pre: string, ds: string, post: string)
    requires AllDigits(ds)
    requires post == [] || !IsDigit(post[0])
    ensures DigitRunEnd(pre + ds + post, |pre|) == |pre| + |ds|
    ensures (pre + ds + post)[|pre|..|pre| + |ds|] == ds
  {
    var t := pre + ds + post;
    forall j | |pre| <= j < |pre| + |ds|
      ensures IsDigit(t[j])
    {
      assert t[j] == ds[j - |pre|];
    }
    assert |pre| + |ds| < |t| ==> t[|pre| + |ds|] == post[0];
    DigitRunOver(t, |pre|, |pre| + |ds|);
  }

  /** The literal at the start of `d.f` followed by text that does not continue
      the fraction: digits `d` and `f`, and whatever exponent comes next. */
  lemma {:induction false} DecimalHead(d: string, f: string, rest: string)
    requires AllDigits(d) && AllDigits(f) && f != []
    requires rest == [] || !IsDigit(rest[0])
    ensures LiteralPrefix(d + "." + f + rest)
            == Some(Literal(false, d, f, ExponentAt(d + "." + f + rest, |d| + 1 + |f|)))
  {
    var t := d + "." + f + rest;
    IntegerDigitsBeforePoint(d, f, rest);
    DigitRunAt(d + ".", f, rest);
    assert |d + "."| == |d| + 1;
    assert t[|d| + 1..|d| + 1 + |f|] == f;
    UnsignedFraction(t, |d|, |d| + 1 + |f|);
  }

  /** In `d.` followed by anything, the integer digits are `d` and end at the `.`. */
  lemma {:induction false} IntegerDigitsBeforePoint(d: string, f: string, rest: string)
    requires AllDigits(d)
    ensures var t := d + "." + f + rest;
            t[0] != '+' && t[0] != '-' && t[|d|] == '.' && DigitRunEnd(t, 0) == |d| && t[..|d|] == d
  {
    var t := d + "." + f + rest;
    assert t[0] == if d == [] then '.' else d[0];
    forall j | 0 <= j < |d|
      ensures IsDigit(t[j])
    {
      assert t[j] == d[j];
    }
    DigitRunOver(t, 0, |d|);
    assert t[..|d|] == d;
  }

  /** An unsigned literal with a non-empty fraction: its digits are the two
      runs on either side of the `.`. */
  lemma {:induction false} UnsignedFraction(t: string, intEnd: nat, fracEnd: nat)
    requires t != [] && t[0] != '+' && t[0] != '-'
    requires intEnd < |t| && DigitRunEnd(t, 0) == intEnd && t[intEnd] == '.'
    requires intEnd + 1 < fracEnd <= |t| && DigitRunEnd(t, intEnd + 1) == fracEnd
    ensures LiteralPrefix(t)
            == Some(Literal(false, t[..intEnd], t[intEnd + 1..fracEnd], ExponentAt(t, fracEnd)))
  {
    assert t[0..intEnd] == t[..intEnd];
  }

  /** A text whose first characters are the digits `d`, then a `.` and the
      digits `f`, followed by a non-digit or the end, starts with the literal
      of digits `d` and `f` and whatever exponent comes next. */
  lemma {:induction false} DecimalAt(t: string, d: string, f: string)
    requires AllDigits(d) && AllDigits(f) && f != []
    requires |d| + 1 + |f| <= |t| && t[|d|] == '.'
    requires forall j | 0 <= j < |d| :: t[j] == d[j]
    requires forall j | 0 <= j < |f| :: t[|d| + 1 + j] == f[j]
    requires |d| + 1 + |f| == |t| || !IsDigit(t[|d| + 1 + |f|])
    ensures LiteralPrefix(t) == Some(Literal(false, d, f, ExponentAt(t, |d| + 1 + |f|)))
  {
    var p := |d| + 1 + |f|;
    assert t[0] == if d == [] then '.' else d[0];
    forall j | 0 <= j < |d|
      ensures IsDigit(t[j])
    {
      assert t[j] == d[j];
    }
    forall j | |d| + 1 <= j < p
      ensures IsDigit(t[j])
    {
      assert t[j] == f[j - |d| - 1];
    }
    DigitRunOver(t, 0, |d|);
    DigitRunOver(t, |d| + 1, p);
    assert t[..|d|] == d;
    assert t[|d| + 1..p] == f;
    UnsignedFraction(t, |d|, p);
  }

  /** A text whose first characters are the digits `d`, followed by neither a
      digit nor a `.`, starts with the literal of digits `d` and whatever
      exponent comes next. */
  lemma {:induction false} IntegerAt(t: string, d: string)
    requires AllDigits(d) && d != [] && |d| <= |t|
    requires forall j | 0 <= j < |d| :: t[j] == d[j]
    requires |d| == |t| || (!IsDigit(t[|d|]) && t[|d|] != '.')
    ensures LiteralPrefix(t) == Some(Literal(false, d, "", ExponentAt(t, |d|)))
  {
    assert t[0] == d[0];
    forall j | 0 <= j < |d|
      ensures IsDigit(t[j])
    {
      assert t[j] == d[j];
    }
    DigitRunOver(t, 0, |d|);
    assert t[0..|d|] == d;
  }

  /** `e`, an optional sign and the digits `xs`, at the end of `pre` and
      followed by a non-digit or the end, is the exponent plus or minus the
      value x of `xs`. */
  lemma {:induction false} ExponentDigits(pre: string, sign: string, xs: string, unit: string, x: nat)
    requires AllDigits(xs) && xs != [] && DigitsValue(xs) == x
    requires sign == "" || sign == "+" || sign == "-"
    requires unit == [] || !IsDigit(unit[0])
    ensures ExponentAt(pre + "e" + sign + xs + unit, |pre|)
            == if sign == "-" then -(x as int) else x as int
  {
    var t := pre + "e" + sign + xs + unit;
    var k := |pre|;
    assert t[k] == 'e';
    assert t[k + 1] == if sign == "" then xs[0] else sign[0];
    DigitRunAt(pre + "e" + sign, xs, unit);
  }

  /** Text after a literal that does not start with `e` or `E` adds no exponent. */
  lemma {:induction false} NoExponent(pre: string, unit: string)
    requires unit == [] || (unit[0] != 'e' && unit[0] != 'E')
    ensures ExponentAt(pre + unit, |pre|) == 0
  {
    assert |pre| < |pre + unit| ==> (pre + unit)[|pre|] == unit[0];
  }

  /** The decimal literal at the start of `.f` followed by a unit. */
  lemma {:induction false} LiteralOfFraction(f: string, unit: string)
    requires AllDigits(f) && f != []
    requires unit == [] || (!IsDigit(unit[0]) && unit[0] != 'e' && unit[0] != 'E')
    ensures LiteralPrefix("." + f + unit) == Some(Literal(false, "", f, 0))
  {
    var t := "." + f + unit;
    forall j | 0 <= j < |f|
      ensures t[1 + j] == f[j]
    {
    }
    assert 1 + |f| < |t| ==> t[1 + |f|] == unit[0];
    DecimalAt(t, "", f);
    NoExponent("." + f, unit);
  }

  /** The decimal literal at the start of `d.f` followed by a unit. */
  lemma {:induction false} LiteralOfDecimal(d: string, f: string, unit: string)
    requires AllDigits(d) && AllDigits(f) && f != []
    requires unit == [] || (!IsDigit(unit[0]) && unit[0] != 'e' && unit[0] != 'E')
    ensures LiteralPrefix(d + "." + f + unit) == Some(Literal(false, d, f, 0))
  {
    DecimalHead(d, f, unit);
    NoExponent(d + "." + f, unit);
  }

  /** The literal at the start of `de[+-]xs` followed by a unit, where `xs`
      is worth x. */
  lemma {:induction false} LiteralOfIntegerExponent(d: string, sign: string, xs: string, unit: string, x: nat)
    requires AllDigits(d) && d != [] && AllDigits(xs) && xs != [] && DigitsValue(xs) == x
    requires sign == "" || sign == "+" || sign == "-"
    requires unit == [] || !IsDigit(unit[0])
    ensures LiteralPrefix(d + "e" + sign + xs + unit)
            == Some(Literal(false, d, "", if sign == "-" then -(x as int) else x as int))
  {
    var rest := "e" + sign + xs + unit;
    var t := d + "e" + sign + xs + unit;
    AppendFour(d, "e", sign, xs, unit);
    SameText(t, d + rest, |d|);
    assert rest[0] == 'e';
    IntegerHead(d, rest);
    ExponentDigits(d, sign, xs, unit, x);
  }

  /** Digits `d` followed by neither a digit nor a `.` start with the literal
      of digits `d` and whatever exponent comes next. */
  lemma {:induction false} IntegerHead(d: string, rest: string)
    requires AllDigits(d) && d != []
    requires rest == [] || (!IsDigit(rest[0]) && rest[0] != '.')
    ensures LiteralPrefix(d + rest) == Some(Literal(false, d, "", ExponentAt(d + rest, |d|)))
  {
    var t := d + rest;
    forall j | 0 <= j < |d|
      ensures t[j] == d[j]
    {
    }
    assert |d| < |t| ==> t[|d|] == rest[0];
    IntegerAt(t, d);
  }

  /** The literal at the start of `d.fe[+-]xs` followed by a unit, where `xs`
      is worth x. */
  lemma {:induction false} LiteralOfDecimalExponent(d: string, f: string, sign: string, xs: string, unit: string, x: nat)
    requires AllDigits(d) && AllDigits(f) && f != [] && AllDigits(xs) && xs != [] && DigitsValue(xs) == x
    requires sign == "" || sign == "+" || sign == "-"
    requires unit == [] || !IsDigit(unit[0])
    ensures LiteralPrefix(d + "." + f + "e" + sign + xs + unit)
            == Some(Literal(false, d, f, if sign == "-" then -(x as int) else x as int))
  {
    var p := d + "." + f;
    var rest := "e" + sign + xs + unit;
    var t := p + "e" + sign + xs + unit;
    AppendFour(p, "e", sign, xs, unit);
    assert |p| == |d| + 1 + |f|;
    SameText(t, p + rest, |d| + 1 + |f|);
    assert rest[0] == 'e';
    DecimalHead(d, f, rest);
    ExponentDigits(p, sign, xs, unit, x);
  }

  /** Equal texts have the same literal and the same exponent at `k`. */
  lemma {:induction false} SameText(t: string, u: string, k: nat)
    requires t == u && k <= |t|
    ensures LiteralPrefix(t) == LiteralPrefix(u) && ExponentAt(t, k) == ExponentAt(u, k)
  {
  }

  /** Appending four pieces one by one is appending their concatenation. */
  lemma {:induction false} AppendFour(p: string, a: string, b: string, c: string, e: string)
    ensures p + a + b + c + e == p + (a + b + c + e)
  {
    assert p + a + b + c + e == p + (a + b) + c + e;
    assert p + (a + b) + c + e == p + (a + b + c) + e;
  }

  /** Where the digits, the `.` and the `e` sit in `d.fe[+-]xs` followed by a unit. */
  lemma {:induction false} DecimalExponentLayout(d: string, f: string, sign: string, xs: string, unit: string)
    ensures var t := d + "." + f + "e" + sign + xs + unit;
            |d| + 1 + |f| < |t| && t[|d|] == '.' && t[|d| + 1 + |f|] == 'e' &&
            (forall j | 0 <= j < |d| :: t[j] == d[j]) &&
            (forall j | 0 <= j < |f| :: t[|d| + 1 + j] == f[j])
  {
    var t := d + "." + f + "e" + sign + xs + unit;
    forall j | 0 <= j < |d|
      ensures t[j] == d[j]
    {
    }
    forall j | 0 <= j < |f|
      ensures t[|d| + 1 + j] == f[j]
    {
    }
  }

  /** A literal `d.f` is worth its integer digits plus its fraction digits
      over the matching power of ten. */
  lemma {:induction false} DecimalLiteralValue(d: string, f: string)
    requires AllDigits(d) && AllDigits(f)
    ensures LiteralValue(Literal(false, d, f, 0))
            == DigitsValue(d) as real + DigitsValue(f) as real / Pow10(|f|) as real
  {
    assert Pow10(0) == 1;
    assert ScaleByPow10(Mantissa(d, f), 0) == Mantissa(d, f);
  }

  /** A literal with exponent e is worth the value `v` of the same literal
      without exponent, scaled by 10 to the e. */
  lemma {:induction false} ScientificLiteralValue(d: string, f: string, e: int, v: real)
    requires AllDigits(d) && AllDigits(f)
    requires v == LiteralValue(Literal(false, d, f, 0))
    ensures LiteralValue(Literal(false, d, f, e)) == ScaleByPow10(v, e)
  {
    var m := Mantissa(d, f);
    assert LiteralValue(Literal(false, d, f, 0)) == ScaleByPow10(m, 0);
    assert Pow10(0) == 1;
    assert ScaleByPow10(m, 0) == m;
    assert LiteralValue(Literal(false, d, f, e)) == ScaleByPow10(m, e);
  }

  /** Scaling by a positive or negative power of ten is multiplying or
      dividing by it. */
  lemma {:induction false} ScaledMantissa(m: real, negative: bool, x: nat)
    ensures ScaleByPow10(m, if negative then -(x as int) else x as int)
            == if negative then m / Pow10(x) as real else m * Pow10(x) as real
  {
    if negative {
      ScaleDown(m, x);
      Quotient(m, Pow10(x) as real, ScaleByPow10(m, -(x as int)));
    } else {
      ScaleUp(m, x);
    }
  }

  /** Scaling up x times is multiplying by 10 to the x. */
  lemma {:induction false} ScaleUp(m: real, x: nat)
    ensures ScaleByPow10(m, x) == m * Pow10(x) as real
    decreases x
  {
    if x > 0 {
      ScaleUp(m, x - 1);
      var p := Pow10(x - 1) as real;
      assert Pow10(x) as real == 10.0 * p;
      assert ScaleByPow10(m, x) == (m * p) * 10.0;
      assert (m * p) * 10.0 == m * (10.0 * p);
    }
  }

  /** Scaling down x times and multiplying by 10 to the x gives m back. */
  lemma {:induction false} ScaleDown(m: real, x: nat)
    ensures ScaleByPow10(m, -(x as int)) * Pow10(x) as real == m
    decreases x
  {
    if x == 0 {
      assert Pow10(0) == 1;
    } else {
      ScaleDown(m, x - 1);
      var p := Pow10(x - 1) as real;
      var q := ScaleByPow10(m, -(x as int));
      assert Pow10(x) as real == 10.0 * p;
      assert q * 10.0 == ScaleByPow10(m, -((x - 1) as int));
      assert q * (10.0 * p) == (q * 10.0) * p;
    }
  }

  /** The one number q with q * p == a is a / p. */
  lemma {:induction false} Quotient(a: real, p: real, q: real)
    requires p > 0.0 && q * p == a
    ensures q == a / p
  {
    assert (a / p) * p == a;
    assert (q - a / p) * p == 0.0;
  }

  /** A run of digits from `k` to `e` followed by a non-digit is exactly what
      `DigitRunEnd` finds. */
  lemma {:induction false} DigitRunOver(s: string, k: nat, e: nat)
    requires k <= e <= |s|
    requires forall j | k <= j < e :: IsDigit(s[j])
    requires e == |s| || !IsDigit(s[e])
    ensures DigitRunEnd(s, k) == e
    decreases e - k
  {
    if k < e {
      DigitRunOver(s, k + 1, e);
    }
  }
}
