/** The colour converter of the CV page: it finds every `oklch(...)` token in
    a style value and rewrites it as an `rgb(...)` or `rgba(...)` token that a
    renderer without CSS Color Module Level 4 support understands.

    The arithmetic is exact over the reals. `Math.cos`, `Math.sin` and
    `Math.pow` are not expressible exactly, so they are a parameter of the
    model (`MathLib`); every property below holds whatever they compute. */
module OklchConvert {
  import opened JsText
  import opened JsNumber

  /** The transcendental functions of `Math` that the conversion calls. */
  datatype MathLib = MathLib(cos: real -> real, sin: real -> real, pow: (real, real) -> real)

  /** `Math.PI` as JavaScript prints it. */
  const Pi: real := 3.141592653589793

  function Cos(x: Number, lib: MathLib): Number
  {
    if x.Finite? then Finite(lib.cos(x.value)) else NaN
  }

  function Sin(x: Number, lib: MathLib): Number
  {
    if x.Finite? then Finite(lib.sin(x.value)) else NaN
  }

  // ---------------------------------------------------------------------
  // Parsers for the channels of an oklch() token

  /** `parsePercentageOrNumber`: a trailing `%` divides the number by 100. */
  function ParsePercentageOrNumber(input: string): (r: Number)
    ensures !EndsWith(Trim(input), "%") ==> r == ParseFloat(Trim(input))
    ensures EndsWith(Trim(input), "%") ==>
              (r.Finite? <==> ParseFloat(Trim(input)).Finite?) &&
              (r.Finite? ==> 100.0 * r.value == ParseFloat(Trim(input)).value)
  {
    var trimmed := Trim(input);
    if EndsWith(trimmed, "%") then Scale(ParseFloat(trimmed), 1.0 / 100.0)
    else ParseFloat(trimmed)
  }

  /** A lightness or chroma field written as `n%` is n hundredths and one
      written as `n` is n, with any white space around it: `70%` reads as 0.7. */
  lemma {:induction false} PercentageOrNumberReading(n: nat, w1: string, w2: string)
    requires AllWhiteSpace(w1) && AllWhiteSpace(w2)
    ensures ParsePercentageOrNumber(w1 + NatToString(n) + "%" + w2) == Finite(n as real / 100.0)
    ensures ParsePercentageOrNumber(w1 + NatToString(n) + w2) == Finite(n as real)
  {
    PercentField(n, w1, w2);
    NumberField(n, w1, w2);
  }

  /** `n%` trims to a percentage whose number is n. */
  lemma {:induction false} PercentField(n: nat, w1: string, w2: string)
    requires AllWhiteSpace(w1) && AllWhiteSpace(w2)
    ensures ParsePercentageOrNumber(w1 + NatToString(n) + "%" + w2) == Finite(n as real / 100.0)
  {
    PercentTrimmed(n, w1, w2);
    PercentOfInteger(w1 + NatToString(n) + "%" + w2, n);
  }

  /** White space around `n%` is trimmed away. */
  lemma {:induction false} PercentTrimmed(n: nat, w1: string, w2: string)
    requires AllWhiteSpace(w1) && AllWhiteSpace(w2)
    ensures Trim(w1 + NatToString(n) + "%" + w2) == NatToString(n) + "%"
  {
    var d := NatToString(n);
    var p := d + "%";
    assert w1 + d + "%" + w2 == w1 + p + w2;
    assert p[0] == d[0] && p[|p| - 1] == '%';
    TrimAround(w1, p, w2);
  }

  /** A field that trims to `n%` reads as n / 100. */
  lemma {:induction false} PercentOfInteger(input: string, n: nat)
    requires Trim(input) == NatToString(n) + "%"
    ensures ParsePercentageOrNumber(input) == Finite(n as real / 100.0)
  {
    PercentNumber(n);
    PercentOfText(input, NatToString(n), n as real);
  }

  /** The number in `n%` is n. */
  lemma {:induction false} PercentNumber(n: nat)
    ensures ParseFloat(NatToString(n) + "%") == Finite(n as real)
  {
    ParseFloatOfInteger(n, "%");
  }

  /** A field that trims to `d%`, where `d%` reads as v, reads as v / 100. */
  lemma {:induction false} PercentOfText(input: string, d: string, v: real)
    requires Trim(input) == d + "%" && ParseFloat(d + "%") == Finite(v)
    ensures ParsePercentageOrNumber(input) == Finite(v / 100.0)
  {
    PercentSuffix(d);
    PercentReading(input, d + "%", v);
  }

  /** Text followed by `%` ends in `%`. */
  lemma {:induction false} PercentSuffix(d: string)
    ensures EndsWith(d + "%", "%")
  {
    var p := d + "%";
    assert p[|p| - 1..] == "%";
  }

  /** A field that trims to a percentage reads as its number over 100. */
  lemma {:induction false} PercentBranch(input: string)
    requires EndsWith(Trim(input), "%")
    ensures ParsePercentageOrNumber(input) == Scale(ParseFloat(Trim(input)), 1.0 / 100.0)
  {
  }

  /** v scaled by 1/100 is v / 100. */
  lemma {:induction false} Hundredths(v: real)
    ensures Scale(Finite(v), 1.0 / 100.0) == Finite(v / 100.0)
  {
    assert v * (1.0 / 100.0) == v / 100.0;
  }

  /** `n` trims to a number that does not end in `%`. */
  lemma {:induction false} NumberField(n: nat, w1: string, w2: string)
    requires AllWhiteSpace(w1) && AllWhiteSpace(w2)
    ensures ParsePercentageOrNumber(w1 + NatToString(n) + w2) == Finite(n as real)
  {
    var d := NatToString(n);
    assert IsDigit(d[0]) && IsDigit(d[|d| - 1]);
    TrimAround(w1, d, w2);
    assert d[|d| - 1..] != "%";
    ParseFloatOfInteger(n, "");
    assert d + "" == d;
  }

  /** A lightness or chroma field written as a decimal fraction `d.f%` is the
      number `d.f` over 100, and one written as `d.f` is that number, with any
      white space around it; `ParseFloatOfDecimal` gives the number's value. */
  lemma {:induction false} DecimalPercentageOrNumberReading(d: string, f: string, w1: string, w2: string)
    requires AllDigits(d) && f != [] && AllDigits(f)
    requires AllWhiteSpace(w1) && AllWhiteSpace(w2)
    ensures ParseFloat(d + "." + f).Finite?
    ensures ParsePercentageOrNumber(w1 + d + "." + f + "%" + w2)
            == Scale(ParseFloat(d + "." + f), 1.0 / 100.0)
    ensures ParsePercentageOrNumber(w1 + d + "." + f + w2) == ParseFloat(d + "." + f)
  {
    DecimalPercentField(d, f, w1, w2);
    DecimalNumberField(d, f, w1, w2);
  }

  /** `d.f%` trims to a percentage whose number is d.f. */
  lemma {:induction false} DecimalPercentField(d: string, f: string, w1: string, w2: string)
    requires AllDigits(d) && f != [] && AllDigits(f)
    requires AllWhiteSpace(w1) && AllWhiteSpace(w2)
    ensures ParseFloat(d + "." + f).Finite?
    ensures ParsePercentageOrNumber(w1 + d + "." + f + "%" + w2)
            == Scale(ParseFloat(d + "." + f), 1.0 / 100.0)
  {
    var input := w1 + d + "." + f + "%" + w2;
    var t := d + "." + f + "%";
    assert input == w1 + t + w2 by {
      RegroupFour(w1, d, ".", f, "%", w2);
    }
    assert !IsWhiteSpace(t[0]) && t[|t| - 1] == '%' by {
      DecimalStart(d, f, "%");
    }
    TrimAround(w1, t, w2);
    assert EndsWith(t, "%") by {
      PercentSuffix(d + "." + f);
    }
    var v := LiteralValue(Literal(false, d, f, 0));
    assert ParseFloat(t) == Finite(v) by {
      DecimalWithUnit(d, f, "%");
    }
    assert ParseFloat(d + "." + f) == Finite(v) by {
      DecimalWithUnit(d, f, "");
      assert d + "." + f + "" == d + "." + f;
    }
    PercentBranch(input);
  }

  /** `d.f` trims to a number that does not end in `%`. */
  lemma {:induction false} DecimalNumberField(d: string, f: string, w1: string, w2: string)
    requires AllDigits(d) && f != [] && AllDigits(f)
    requires AllWhiteSpace(w1) && AllWhiteSpace(w2)
    ensures ParsePercentageOrNumber(w1 + d + "." + f + w2) == ParseFloat(d + "." + f)
  {
    var input := w1 + d + "." + f + w2;
    var t := d + "." + f;
    assert Trim(input) == t by {
      Regroup(w1, d, ".", f, w2);
      assert t[0] == if d == [] then '.' else d[0];
      assert t[|t| - 1] == f[|f| - 1];
      assert IsDigit(t[|t| - 1]);
      TrimAround(w1, t, w2);
    }
    assert !EndsWith(t, "%") by {
      assert t[|t| - 1..] != "%";
    }
  }

  /** The two spellings of a lightness in the page's colours agree: `0.7`
      and `70%` both read as 0.7. */
  lemma {:induction false} LightnessSpellings()
    ensures ParsePercentageOrNumber("0.7") == Finite(0.7)
    ensures ParsePercentageOrNumber("70%") == Finite(0.7)
  {
    PointSeven();
    SeventyPercent();
  }

  /** `0.7` reads as 0.7. */
  lemma {:induction false} PointSeven()
    ensures ParsePercentageOrNumber("0.7") == Finite(0.7)
  {
    PointSevenField();
    PointSevenNumber();
  }

  /** The field `0.7` is read by `parseFloat` alone. */
  lemma {:induction false} PointSevenField()
    ensures ParsePercentageOrNumber("0.7") == ParseFloat("0" + "." + "7")
  {
    assert AllDigits("0") && AllDigits("7");
    BareDecimalField("0.7", "0", "7");
  }

  /** `parseFloat` reads `0.7` as 0.7. */
  lemma {:induction false} PointSevenNumber()
    ensures ParseFloat("0" + "." + "7") == Finite(0.7)
  {
    DecimalWithUnit("0", "7", "");
    SameNumber("0" + "." + "7" + "", "0" + "." + "7");
    PointSevenLiteral();
  }

  /** The literal `0.7` has the value 0.7. */
  lemma {:induction false} PointSevenLiteral()
    ensures LiteralValue(Literal(false, "0", "7", 0)) == 0.7
  {
    assert DigitsValue("0") == 0 && DigitsValue("7") == 7 by {
      assert "0"[..0] == "" && "7"[..0] == "";
    }
    assert Pow10(|"7"|) == 10 by {
      assert Pow10(0) == 1;
    }
    DecimalLiteralValue("0", "7");
  }

  /** A field that is exactly `d.f` reads as the number `d.f`. */
  lemma {:induction false} BareDecimalField(s: string, d: string, f: string)
    requires AllDigits(d) && f != [] && AllDigits(f)
    requires s == d + "." + f
    ensures ParsePercentageOrNumber(s) == ParseFloat(d + "." + f)
  {
    DecimalNumberField(d, f, "", "");
    NothingAround(d, f);
    SameField(s, "" + d + "." + f + "");
  }

  /** Equal texts read as the same number. */
  lemma {:induction false} SameNumber(a: string, b: string)
    requires a == b
    ensures ParseFloat(a) == ParseFloat(b)
  {
  }

  /** Equal fields read the same. */
  lemma {:induction false} SameField(a: string, b: string)
    requires a == b
    ensures ParsePercentageOrNumber(a) == ParsePercentageOrNumber(b)
  {
  }

  /** `d.f` with no white space on either side. */
  lemma {:induction false} NothingAround(d: string, f: string)
    ensures "" + d + "." + f + "" == d + "." + f
  {
    assert "" + d == d;
  }

  /** `70%` reads as 0.7. */
  lemma {:induction false} SeventyPercent()
    ensures ParsePercentageOrNumber("70%") == Finite(0.7)
  {
    assert NatToString(70) == "70" by {
      assert NatToString(7) == "7";
    }
    assert "" + NatToString(70) + "%" + "" == "70%";
    PercentField(70, "", "");
  }

  /** A field that trims to text without a trailing `%` reads as that text's number. */
  lemma {:induction false} NumberReading(input: string, t: string, v: real)
    requires Trim(input) == t && !EndsWith(t, "%") && ParseFloat(t) == Finite(v)
    ensures ParsePercentageOrNumber(input) == Finite(v)
  {
  }

  /** A field that trims to text with a trailing `%` reads as that text's number
      over 100. */
  lemma {:induction false} PercentReading(input: string, t: string, v: real)
    requires Trim(input) == t && EndsWith(t, "%") && ParseFloat(t) == Finite(v)
    ensures ParsePercentageOrNumber(input) == Finite(v / 100.0)
  {
    Hundredths(v);
  }

  /** Regrouping the middle of a five-part concatenation. */
  lemma {:induction false} Regroup(w1: string, a: string, b: string, c: string, w2: string)
    ensures w1 + a + b + c + w2 == w1 + (a + b + c) + w2
  {
  }

  /** The same regrouping for a middle of four pieces. */
  lemma {:induction false} RegroupFour(w1: string, a: string, b: string, c: string, e: string, w2: string)
    ensures w1 + a + b + c + e + w2 == w1 + (a + b + c + e) + w2
  {
    Regroup(w1, a, b, c, e + w2);
    assert w1 + a + b + c + e + w2 == w1 + a + b + c + (e + w2);
    assert a + b + c + e + w2 == (a + b + c) + (e + w2);
  }

  /** `d.f` followed by a unit starts with a digit or `.`, neither of them
      white space. */
  lemma {:induction false} DecimalStart(d: string, f: string, unit: string)
    requires AllDigits(d) && f != []
    ensures var t := d + "." + f + unit;
      !IsWhiteSpace(t[0]) && (unit != [] ==> t[|t| - 1] == unit[|unit| - 1])
  {
    var t := d + "." + f + unit;
    assert t[0] == if d == [] then '.' else d[0];
  }

  /** `parseHue`: the angle in radians, chosen by the first suffix test that
      succeeds, in the order `deg`, `rad`, `turn`, `grad`; no suffix means
      degrees. Every unit scales by a positive factor, so the hue is NaN
      exactly when its number is, and has that number's sign. */
  function ParseHue(input: string): (r: Number)
    ensures KeepsSign(r, ParseFloat(Trim(input)))
  {
    HueOfTrimmed(Trim(input))
  }

  /** `r` is NaN exactly when `x` is and, when both are numbers, has the sign
      of `x` and is zero exactly when `x` is. */
  predicate KeepsSign(r: Number, x: Number)
  {
    (r.NaN? <==> x.NaN?) &&
    (r.Finite? && x.Finite? ==> (r.value < 0.0 <==> x.value < 0.0) && (r.value == 0.0 <==> x.value == 0.0))
  }

  /** The suffix tests of `parseHue` on the trimmed text. */
  function HueOfTrimmed(trimmed: string): (r: Number)
    ensures KeepsSign(r, ParseFloat(trimmed))
  {
    var x := ParseFloat(trimmed);
    ScaleKeepsSign(x, Pi / 180.0);
    ScaleTwiceKeepsSign(x, 2.0, Pi);
    ScaleKeepsSign(x, Pi / 200.0);
    assert KeepsSign(x, x);
    if EndsWith(trimmed, "deg") then Scale(x, Pi / 180.0)
    else if EndsWith(trimmed, "rad") then x
    else if EndsWith(trimmed, "turn") then Scale(Scale(x, 2.0), Pi)
    else if EndsWith(trimmed, "grad") then Scale(x, Pi / 200.0)
    else Scale(x, Pi / 180.0)
  }

  /** A positive factor keeps the sign of a number. */
  lemma {:induction false} ScaleKeepsSign(x: Number, k: real)
    requires k > 0.0
    ensures KeepsSign(Scale(x, k), x)
  {
  }

  /** So do two positive factors in turn. */
  lemma {:induction false} ScaleTwiceKeepsSign(x: Number, a: real, b: real)
    requires a > 0.0 && b > 0.0
    ensures KeepsSign(Scale(Scale(x, a), b), x)
  {
    ScaleKeepsSign(x, a);
    ScaleKeepsSign(Scale(x, a), b);
  }

  /** The angle units of section 7.1 of CSS Values and Units Module Level 4,
      plus the bare number that the hue of `oklch()` reads as degrees. */
  datatype AngleUnit = Deg | Grad | Rad | Turn | Unitless

  /** The unit a hue is written in, read as CSS reads it: the unit is the
      whole identifier after the number, so `grad` is not mistaken for `rad`. */
  function CssAngleUnit(t: string): AngleUnit
  {
    if EndsWith(t, "deg") then Deg
    else if EndsWith(t, "grad") then Grad
    else if EndsWith(t, "rad") then Rad
    else if EndsWith(t, "turn") then Turn
    else Unitless
  }

  /** Radians per unit, as section 7.1 of CSS Values and Units Level 4 defines them. */
  function RadiansPer(u: AngleUnit): real
  {
    match u
    case Deg => Pi / 180.0
    case Grad => Pi / 200.0
    case Rad => 1.0
    case Turn => 2.0 * Pi
    case Unitless => Pi / 180.0
  }

  /** Every `...grad` string also ends in `rad`. */
  lemma {:induction false} GradEndsInRad(t: string)
    requires EndsWith(t, "grad")
    ensures EndsWith(t, "rad") && !EndsWith(t, "deg")
  {
    var tail := t[|t| - 4..];
    assert tail == "grad";
    assert t[|t| - 3..] == tail[1..] == "rad";
  }

  /** `parseHue` converts every hue that is not in gradians exactly as CSS does. */
  lemma {:induction false} ParseHueAgreesWithCss(input: string)
    requires !EndsWith(Trim(input), "grad")
    ensures ParseHue(input) == Scale(ParseFloat(Trim(input)), RadiansPer(CssAngleUnit(Trim(input))))
  {
    HueAgreesWithCss(Trim(input));
  }

  /** The same on text that is already trimmed. */
  lemma {:induction false} HueAgreesWithCss(t: string)
    requires !EndsWith(t, "grad")
    ensures HueOfTrimmed(t) == Scale(ParseFloat(t), RadiansPer(CssAngleUnit(t)))
  {
    var x := ParseFloat(t);
    if EndsWith(t, "rad") {
      assert Scale(x, 1.0) == x;
    } else if !EndsWith(t, "deg") && EndsWith(t, "turn") {
      assert Scale(Scale(x, 2.0), Pi) == Scale(x, 2.0 * Pi);
    }
  }

  /** The `grad` branch of `parseHue` is never taken: a hue in gradians is
      read by the `rad` branch, as that many radians. */
  lemma {:induction false} ParseHueReadsGradAsRadians(input: string)
    requires EndsWith(Trim(input), "grad")
    ensures ParseHue(input) == ParseFloat(Trim(input))
    ensures CssAngleUnit(Trim(input)) == Grad
  {
    GradEndsInRad(Trim(input));
  }

  /** For example `100grad`, a right angle in CSS, is read as 100 radians:
      a whole number `n` of gradians is read as `n` radians, where CSS reads
      `n` times pi/200. */
  lemma {:induction false} GradiansReadAsRadians(n: nat)
    ensures var t := NatToString(n) + "grad";
      ParseHue(t) == Finite(n as real) &&
      Scale(ParseFloat(t), RadiansPer(CssAngleUnit(t))) == Scale(Finite(n as real), Pi / 200.0)
  {
    var t := NatToString(n) + "grad";
    ParseFloatOfInteger(n, "grad");
    GradText(n);
    GradHue(t);
  }

  /** A trimmed hue in gradians: read as radians, where CSS scales by pi/200. */
  lemma {:induction false} GradHue(t: string)
    requires Trim(t) == t && EndsWith(t, "grad")
    ensures ParseHue(t) == ParseFloat(t)
    ensures RadiansPer(CssAngleUnit(t)) == Pi / 200.0
  {
    ParseHueReadsGradAsRadians(t);
  }

  /** `n grad` needs no trimming and ends in `grad`. */
  lemma {:induction false} GradText(n: nat)
    ensures var t := NatToString(n) + "grad";
      Trim(t) == t && EndsWith(t, "grad")
  {
    assert "grad"[3] == 'd';
    UnitText(NatToString(n), "grad");
  }

  /** Digits followed by a unit that does not end in white space need no
      trimming, and end in that unit. */
  lemma {:induction false} UnitText(d: string, unit: string)
    requires d != [] && AllDigits(d)
    requires unit != [] && !IsWhiteSpace(unit[|unit| - 1])
    ensures Trim(d + unit) == d + unit && EndsWith(d + unit, unit)
  {
    assert IsDigit(d[0]);
    NoSpaceAtEnds(d + unit, d[0], unit[|unit| - 1]);
    EndsWithAppended(d, unit);
  }

  /** A text whose first and last characters are not white space is its own trim. */
  lemma {:induction false} NoSpaceAtEnds(t: string, first: char, last: char)
    requires t != [] && t[0] == first && t[|t| - 1] == last
    requires IsDigit(first) && !IsWhiteSpace(last)
    ensures Trim(t) == t
  {
  }

  /** `parseAlpha`: an absent or empty alpha is opaque, `none` is transparent,
      a percentage or number is clamped into [0, 1], and a number that does not
      parse is opaque. Only a percentage whose number does not parse gives NaN. */
  function ParseAlpha(input: Option<string>): (r: Number)
    ensures r.NaN? ==> input.Some? && EndsWith(Trim(input.value), "%")
                        && ParseFloat(Trim(input.value)).NaN?
    ensures r.Finite? ==> 0.0 <= r.value <= 1.0
  {
    if input.None? || input.value == "" then Finite(1.0)
    else AlphaOfTrimmed(Trim(input.value))
  }

  /** `parseAlpha` after `trim`, on an input that is present and not empty. */
  function AlphaOfTrimmed(trimmed: string): (r: Number)
    ensures r.NaN? ==> EndsWith(trimmed, "%") && ParseFloat(trimmed).NaN?
    ensures r.Finite? ==> 0.0 <= r.value <= 1.0
  {
    if trimmed == "none" then Finite(0.0)
    else if EndsWith(trimmed, "%") then Clamp(Scale(ParseFloat(trimmed), 1.0 / 100.0), 0.0, 1.0)
    else
      var value := ParseFloat(trimmed);
      if value.NaN? then Finite(1.0) else Clamp(value, 0.0, 1.0)
  }

  /** The cases of `parseAlpha`, case by case. */
  lemma {:induction false} ParseAlphaCases(input: Option<string>)
    ensures input.None? || input == Some("") ==> ParseAlpha(input) == Finite(1.0)
    ensures input.Some? && input.value != "" && Trim(input.value) == "none" ==> ParseAlpha(input) == Finite(0.0)
    ensures (input.Some? && Trim(input.value) != "none" && !EndsWith(Trim(input.value), "%")
             && ParseFloat(Trim(input.value)).NaN?)
              ==> ParseAlpha(input) == Finite(1.0)
    ensures (input.Some? && Trim(input.value) != "none" && !EndsWith(Trim(input.value), "%")
             && ParseFloat(Trim(input.value)).Finite?)
              ==> ParseAlpha(input) == Clamp(ParseFloat(Trim(input.value)), 0.0, 1.0)
  {
    if input.Some? && input.value == "" {
      assert Trim(input.value) == "";
    }
  }

  /** A percentage alpha is the number divided by 100 and clamped into [0, 1]. */
  lemma {:induction false} ParseAlphaPercent(input: string)
    requires Trim(input) != "none" && EndsWith(Trim(input), "%")
    ensures ParseAlpha(Some(input)) == Clamp(Scale(ParseFloat(Trim(input)), 1.0 / 100.0), 0.0, 1.0)
  {
    TrimOfEmpty();
    assert input != "";
    assert ParseAlpha(Some(input)) == AlphaOfTrimmed(Trim(input));
  }

  /** Trimming the empty string gives the empty string. */
  lemma {:induction false} TrimOfEmpty()
    ensures Trim("") == ""
  {
    assert TrimStart("") == "";
  }

  // ---------------------------------------------------------------------
  // From oklch to sRGB

  /** `linearToSrgb`: the sRGB transfer curve of IEC 61966-2-1 on a clamped
      channel: linear below 0.0031308, a power curve above. */
  function LinearToSrgb(value: Number, lib: MathLib): (r: Number)
    ensures r.NaN? <==> value.NaN?
    ensures value.Finite? && value.value <= 0.0 ==> r == Finite(0.0)
    ensures value.Finite? && 0.0 <= value.value <= 0.0031308 ==> r == Finite(12.92 * value.value)
  {
    var v := Clamp(value, 0.0, 1.0);
    if v.Finite? && v.value <= 0.0031308 then Finite(12.92 * v.value)
    else if v.Finite? then Finite(1.055 * lib.pow(v.value, 1.0 / 2.4) - 0.055)
    else NaN
  }

  /** The Oklab step of `oklchToRgb`: hue and chroma to the a and b axes,
      the cube-root-space predictors, their cubes, and the matrix to linear
      sRGB. A NaN anywhere makes all three channels NaN. Each row of the matrix
      sums to 1, so a colour without chroma is a grey: all three channels are
      the cube of the lightness, whatever the hue. */
  function OklabToLinearSrgb(lightness: Number, chroma: Number, hue: Number, lib: MathLib)
    : (rgb: (Number, Number, Number))
    ensures rgb.0.NaN? <==> lightness.NaN? || chroma.NaN? || hue.NaN?
    ensures rgb.1.NaN? <==> rgb.0.NaN?
    ensures rgb.2.NaN? <==> rgb.0.NaN?
    ensures chroma == Finite(0.0) && lightness.Finite? && hue.Finite? ==>
              var grey := Finite(lightness.value * lightness.value * lightness.value);
              rgb.0 == grey && rgb.1 == grey && rgb.2 == grey
  {
    OklabGrey(lightness, hue, lib);
    RowsSumToOne(if lightness.Finite? then lightness.value * lightness.value * lightness.value else 0.0);
    var a := Mul(Cos(hue, lib), chroma);
    var b := Mul(Sin(hue, lib), chroma);
    var l' := Add(Add(lightness, Scale(a, 0.3963377774)), Scale(b, 0.2158037573));
    var m' := Add(Add(lightness, Scale(a, -0.1055613458)), Scale(b, -0.0638541728));
    var s' := Add(Add(lightness, Scale(a, -0.0894841775)), Scale(b, -1.291485548));
    var l := Mul(Mul(l', l'), l');
    var m := Mul(Mul(m', m'), m');
    var s := Mul(Mul(s', s'), s');
    (Add(Add(Scale(l, 4.0767416621), Scale(m, -3.3077115913)), Scale(s, 0.2309699292)),
     Add(Add(Scale(l, -1.2684380046), Scale(m, 2.6097574011)), Scale(s, -0.3413193965)),
     Add(Add(Scale(l, -0.0041960863), Scale(m, -0.7034186147)), Scale(s, 1.707614701)))
  }

  /** The lightness, chroma and hue fields of the text before `/`: its
      white-space separated words, with "0" for a missing one. A text of one
      word is the lightness alone. */
  function ChannelFields(components: string): (f: (string, string, string))
    ensures NoWhiteSpace(f.0) && NoWhiteSpace(f.1) && NoWhiteSpace(f.2)
    ensures NoWhiteSpace(Trim(components)) ==> f == (Trim(components), "0", "0")
  {
    var t := Trim(components);
    var fields := SplitWhiteSpace(t);
    ZeroUnspaced();
    (fields[0], if |fields| > 1 then fields[1] else "0", if |fields| > 2 then fields[2] else "0")
  }

  /** The default field holds no white space. */
  lemma {:induction false} ZeroUnspaced()
    ensures NoWhiteSpace("0")
  {
    assert "0"[0] == '0';
  }

  /** The fields of `L C H`, written with any runs of white space between
      them, are L, C and H. */
  lemma {:induction false} ChannelFieldsOfText(l: string, w1: string, c: string, w2: string, h: string)
    requires l != [] && c != [] && h != []
    requires NoWhiteSpace(l) && NoWhiteSpace(c) && NoWhiteSpace(h)
    requires w1 != [] && w2 != [] && AllWhiteSpace(w1) && AllWhiteSpace(w2)
    ensures ChannelFields(l + w1 + c + w2 + h) == (l, c, h)
  {
    var t := l + w1 + c + w2 + h;
    assert t[0] == l[0] && t[|t| - 1] == h[|h| - 1];
    SplitThreeFields(l, w1, c, w2, h);
  }

  /** Without chroma the predictors all equal the lightness, and each row of
      the matrix, summing to 1, gives back its cube. */
  lemma {:induction false} OklabGrey(lightness: Number, hue: Number, lib: MathLib)
    ensures lightness.Finite? && hue.Finite? ==>
      var a := Mul(Cos(hue, lib), Finite(0.0));
      var b := Mul(Sin(hue, lib), Finite(0.0));
      var p := Add(Add(lightness, Scale(a, 0.3963377774)), Scale(b, 0.2158037573));
      var q := Add(Add(lightness, Scale(a, -0.1055613458)), Scale(b, -0.0638541728));
      var u := Add(Add(lightness, Scale(a, -0.0894841775)), Scale(b, -1.291485548));
      var cube := lightness.value * lightness.value * lightness.value;
      Mul(Mul(p, p), p) == Finite(cube) && Mul(Mul(q, q), q) == Finite(cube) && Mul(Mul(u, u), u) == Finite(cube)
  {
  }

  /** Rows of the matrix sum to 1. */
  lemma {:induction false} RowsSumToOne(x: real)
    ensures 4.0767416621 * x + -3.3077115913 * x + 0.2309699292 * x == x
    ensures -1.2684380046 * x + 2.6097574011 * x + -0.3413193965 * x == x
    ensures -0.0041960863 * x + -0.7034186147 * x + 1.707614701 * x == x
  {
  }

  /** The three channels of an `oklch()` body without its alpha part: the
      lightness, chroma and hue fields, converted and gamma-encoded. The three
      are NaN together, exactly when a field does not parse; with chroma 0
      they are equal, a grey. */
  function ChannelsOf(components: string, lib: MathLib): (rgb: (Number, Number, Number))
    ensures var f := ChannelFields(components);
      var unreadable := ParsePercentageOrNumber(f.0).NaN? || ParseFloat(Trim(f.1)).NaN? || ParseHue(f.2).NaN?;
      (rgb.0.NaN? <==> unreadable) && (rgb.1.NaN? <==> unreadable) && (rgb.2.NaN? <==> unreadable)
    ensures ParseFloat(Trim(ChannelFields(components).1)) == Finite(0.0) ==> rgb.0 == rgb.1 && rgb.1 == rgb.2
  {
    var f := ChannelFields(components);
    Encoded(ParsePercentageOrNumber(f.0), ParseFloat(Trim(f.1)), ParseHue(f.2), lib)
  }

  /** Lightness, chroma and hue to gamma-encoded sRGB channels. */
  function Encoded(lightness: Number, chroma: Number, hue: Number, lib: MathLib): (rgb: (Number, Number, Number))
    ensures rgb.0.NaN? <==> lightness.NaN? || chroma.NaN? || hue.NaN?
    ensures rgb.1.NaN? <==> rgb.0.NaN?
    ensures rgb.2.NaN? <==> rgb.0.NaN?
    ensures chroma == Finite(0.0) ==> rgb.0 == rgb.1 && rgb.1 == rgb.2
  {
    var linear := OklabToLinearSrgb(lightness, chroma, hue, lib);
    assert chroma == Finite(0.0) ==> linear.0 == linear.1 && linear.1 == linear.2;
    (LinearToSrgb(linear.0, lib), LinearToSrgb(linear.1, lib), LinearToSrgb(linear.2, lib))
  }

  // ---------------------------------------------------------------------
  // Device colour text

  /** `to255` in `formatColor`: the channel clamped into [0, 1], scaled by 255
      and rounded to the nearest integer, which lies in [0, 255]; NaN stays NaN. */
  function To255(v: Number): (r: Number)
    ensures r.NaN? <==> v.NaN?
    ensures r.Finite? ==> r.value == r.value.Floor as real && 0.0 <= r.value <= 255.0
    ensures v.Finite? ==> var x := Clamp(v, 0.0, 1.0).value * 255.0;
              x - 1.0 / 2.0 < r.value <= x + 1.0 / 2.0
  {
    Round(Scale(Clamp(v, 0.0, 1.0), 255.0))
  }

  /** The text a template literal prints for an integer-valued number. */
  function ChannelText(x: Number): (s: string)
    ensures s == "NaN" <==> x.NaN?
    ensures x.Finite? ==> s != [] && (s[0] == '-' <==> x.value.Floor < 0)
  {
    if x.NaN? then "NaN" else IntToString(x.value.Floor)
  }

  /** The last three decimal digits of `f`, without trailing zeros. */
  function Thousandths(f: nat): (s: string)
    requires 0 < f < 1000
    ensures AllDigits(s) && s != []
  {
    var ds := ['0' + (f / 100) as char, '0' + (f / 10 % 10) as char, '0' + (f % 10) as char];
    if f % 100 == 0 then ds[..1] else if f % 10 == 0 then ds[..2] else ds
  }

  /** `String(parseFloat(a.toFixed(3)))`: the number rounded to three decimals
      (halves away from zero) and printed without trailing zeros. */
  function AlphaText(a: Number): (s: string)
    ensures ',' !in s && ')' !in s
  {
    if a.NaN? then "NaN"
    else
      var magnitude := if a.value < 0.0 then -a.value else a.value;
      var k := (magnitude * 1000.0 + 1.0 / 2.0).Floor;
      if k == 0 then "0"
      else
        var sign := if a.value < 0.0 then "-" else "";
        var whole := NatToString(k / 1000);
        var digits := if k % 1000 == 0 then "" else "." + Thousandths(k % 1000);
        assert AllDigits(whole);
        assert forall i | 0 <= i < |digits| :: digits[i] == '.' || IsDigit(digits[i]);
        sign + whole + digits
  }

  /** `formatColor`: the `rgb(r, g, b)` form exactly when alpha is at least
      0.999, otherwise `rgba(r, g, b, alpha)`. */
  function FormatColor(r: Number, g: Number, b: Number, a: Number): (s: string)
    ensures if a.Finite? && a.value >= 0.999 then StartsWith(s, "rgb(") && !StartsWith(s, "rgba(")
            else StartsWith(s, "rgba(") && !StartsWith(s, "rgb(")
  {
    var args := ChannelText(To255(r)) + ", " + ChannelText(To255(g)) + ", " + ChannelText(To255(b));
    if a.Finite? && a.value >= 0.999 then
      OpaquePrefix(args);
      "rgb(" + args + ")"
    else
      var inner := args + ", " + AlphaText(a);
      TranslucentPrefix(inner);
      "rgba(" + inner + ")"
  }

  /** `rgb(...)` text starts with `rgb(` and not with `rgba(`. */
  lemma {:induction false} OpaquePrefix(x: string)
    ensures StartsWith("rgb(" + x + ")", "rgb(") && !StartsWith("rgb(" + x + ")", "rgba(")
  {
    var s := "rgb(" + x + ")";
    assert s[..4] == "rgb(" && s[3] == '(';
  }

  /** `rgba(...)` text starts with `rgba(` and not with `rgb(`. */
  lemma {:induction false} TranslucentPrefix(x: string)
    ensures StartsWith("rgba(" + x + ")", "rgba(") && !StartsWith("rgba(" + x + ")", "rgb(")
  {
    var s := "rgba(" + x + ")";
    assert s[..5] == "rgba(" && s[3] == 'a';
  }

  /** What a reader of device colour text sees: three integer channels and,
      for the `rgba` form, the alpha text. */
  datatype DeviceColor = DeviceColor(red: int, green: int, blue: int, alpha: Option<string>)

  /** An integer channel written as digits. */
  function ParseChannel(s: string): Option<int>
  {
    if s != [] && AllDigits(s) then Some(DigitsValue(s)) else None
  }

  /** A field after the first one, which `formatColor` writes after ", ". */
  function Unspaced(field: string): Option<string>
  {
    if field != [] && field[0] == ' ' then Some(field[1..]) else None
  }

  /** The fields of a device colour's argument list: three channels, then
      the alpha text when the form has one. */
  function ParseFields(fields: seq<string>, hasAlpha: bool): Option<DeviceColor>
  {
    if |fields| != (if hasAlpha then 4 else 3) then None
    else
      var red := ParseChannel(fields[0]);
      var green := Unspaced(fields[1]);
      var blue := Unspaced(fields[2]);
      var alpha := if hasAlpha then Unspaced(fields[3]) else None;
      if red.None? || green.None? || blue.None? || (hasAlpha && alpha.None?) then None
      else
        var g := ParseChannel(green.value);
        var b := ParseChannel(blue.value);
        if g.None? || b.None? then None
        else Some(DeviceColor(red.value, g.value, b.value, alpha))
  }

  /** Reads `rgb(r, g, b)` and `rgba(r, g, b, alpha)` back. */
  function ParseDeviceColor(s: string): Option<DeviceColor>
  {
    if |s| > 4 && StartsWith(s, "rgb(") && s[|s| - 1] == ')' then
      ParseFields(Split(s[4..|s| - 1], ','), false)
    else if |s| > 5 && StartsWith(s, "rgba(") && s[|s| - 1] == ')' then
      ParseFields(Split(s[5..|s| - 1], ','), true)
    else None
  }

  /** Splitting at the first separator. */
  lemma {:induction false} SplitAtFirst(a: string, sep: char, rest: string)
    requires sep !in a
    ensures Split(a + [sep] + rest, sep) == [a] + Split(rest, sep)
  {
    var s := a + [sep] + rest;
    assert s[|a|] == sep;
    assert s[..|a|] == a && s[|a| + 1..] == rest;
    assert IndexOf(s, sep) == |a|;
  }

  /** A channel that is not NaN reads back as the integer `formatColor` computed. */
  lemma {:induction false} ChannelRoundTrip(v: Number)
    requires v.Finite?
    ensures To255(v).value.Floor >= 0
    ensures ChannelText(To255(v)) == NatToString(To255(v).value.Floor)
    ensures DigitsValue(ChannelText(To255(v))) == To255(v).value.Floor
  {
    var n := To255(v).value.Floor;
    NatToStringRoundTrip(n);
  }

  /** A separator-free string with a space in front is still separator-free. */
  lemma {:induction false} SpacedFree(x: string)
    requires ',' !in x
    ensures ',' !in " " + x
  {
    assert forall i | 0 <= i < |" " + x| :: (" " + x)[i] == if i == 0 then ' ' else x[i - 1];
  }

  /** Two separator-free fields joined by the separator split back apart. */
  lemma {:induction false} SplitTwo(x: string, y: string)
    requires ',' !in x && ',' !in y
    ensures Split(x + [','] + y, ',') == [x, y]
  {
    SplitAtFirst(x, ',', y);
  }

  /** Three separator-free fields joined by the separator split back apart. */
  lemma {:induction false} SplitThree(x: string, y: string, z: string)
    requires ',' !in x && ',' !in y && ',' !in z
    ensures Split(x + [','] + (y + [','] + z), ',') == [x, y, z]
  {
    SplitAtFirst(x, ',', y + [','] + z);
    SplitTwo(y, z);
  }

  /** Four separator-free fields joined by the separator split back apart. */
  lemma {:induction false} SplitFour(w: string, x: string, y: string, z: string)
    requires ',' !in w && ',' !in x && ',' !in y && ',' !in z
    ensures Split(w + [','] + (x + [','] + (y + [','] + z)), ',') == [w, x, y, z]
  {
    SplitThree(x, y, z);
    SplitInFront(w, x + [','] + (y + [','] + z), [x, y, z]);
    FieldInFront(w, x, y, z);
  }

  /** One field in front of three makes the four in order. */
  lemma {:induction false} FieldInFront(w: string, x: string, y: string, z: string)
    ensures [w] + [x, y, z] == [w, x, y, z]
  {
  }

  /** A separator-free field in front of a text adds one piece in front of its split. */
  lemma {:induction false} SplitInFront(w: string, tail: string, pieces: seq<string>)
    requires ',' !in w && Split(tail, ',') == pieces
    ensures Split(w + [','] + tail, ',') == [w] + pieces
  {
    SplitAtFirst(w, ',', tail);
  }

  /** The parser reads the argument list between `rgb(` and `)`. */
  lemma {:induction false} ParseOpaqueBody(body: string)
    ensures ParseDeviceColor("rgb(" + body + ")") == ParseFields(Split(body, ','), false)
  {
    var s := "rgb(" + body + ")";
    assert s[4..|s| - 1] == body && s[..4] == "rgb(" && s[|s| - 1] == ')';
  }

  /** The parser reads the argument list between `rgba(` and `)`. */
  lemma {:induction false} ParseTranslucentBody(body: string)
    ensures ParseDeviceColor("rgba(" + body + ")") == ParseFields(Split(body, ','), true)
  {
    var s := "rgba(" + body + ")";
    assert !StartsWith(s, "rgb(") by {
      assert s[3] == 'a';
    }
    assert s[5..|s| - 1] == body && s[..5] == "rgba(" && s[|s| - 1] == ')';
  }

  /** The text of `rgb(r, g, b)` is its three fields joined by commas. */
  lemma {:induction false} OpaqueTextShape(red: string, green: string, blue: string)
    ensures "rgb(" + (red + ", " + green + ", " + blue) + ")"
            == "rgb(" + (red + [','] + ((" " + green) + [','] + (" " + blue))) + ")"
  {
    assert ", " + green == [','] + (" " + green);
    assert ", " + blue == [','] + (" " + blue);
  }

  /** The text of `rgba(r, g, b, alpha)` is its four fields joined by commas. */
  lemma {:induction false} TranslucentTextShape(red: string, green: string, blue: string, alpha: string)
    ensures "rgba(" + (red + ", " + green + ", " + blue) + ", " + alpha + ")"
            == "rgba(" + (red + [','] + ((" " + green) + [','] + ((" " + blue) + [','] + (" " + alpha)))) + ")"
  {
    assert ", " + green == [','] + (" " + green);
    assert ", " + blue == [','] + (" " + blue);
    assert ", " + alpha == [','] + (" " + alpha);
  }

  /** Digit channels written after ", " read back as their values. */
  lemma {:induction false} ParseFieldsOfChannels(red: string, green: string, blue: string, alpha: Option<string>)
    requires red != [] && green != [] && blue != []
    requires AllDigits(red) && AllDigits(green) && AllDigits(blue)
    ensures alpha.None? ==> ParseFields([red, " " + green, " " + blue], false)
                            == Some(DeviceColor(DigitsValue(red), DigitsValue(green), DigitsValue(blue), None))
    ensures alpha.Some? ==> ParseFields([red, " " + green, " " + blue, " " + alpha.value], true)
                            == Some(DeviceColor(DigitsValue(red), DigitsValue(green), DigitsValue(blue), alpha))
  {
    assert Unspaced(" " + green) == Some(green) && Unspaced(" " + blue) == Some(blue);
    if alpha.Some? {
      assert Unspaced(" " + alpha.value) == alpha;
    }
  }

  /** `rgb(r, g, b)` with digit channels reads back as those channels. */
  lemma {:induction false} ParseOpaqueText(red: string, green: string, blue: string)
    requires red != [] && green != [] && blue != []
    requires AllDigits(red) && AllDigits(green) && AllDigits(blue)
    ensures ParseDeviceColor("rgb(" + (red + ", " + green + ", " + blue) + ")")
            == Some(DeviceColor(DigitsValue(red), DigitsValue(green), DigitsValue(blue), None))
  {
    var body := red + [','] + ((" " + green) + [','] + (" " + blue));
    OpaqueTextShape(red, green, blue);
    ParseOpaqueBody(body);
    SpacedFree(green);
    SpacedFree(blue);
    SplitThree(red, " " + green, " " + blue);
    ParseFieldsOfChannels(red, green, blue, None);
  }

  /** `rgba(r, g, b, alpha)` with digit channels reads back as those channels
      and that alpha text. */
  lemma {:induction false} ParseTranslucentText(red: string, green: string, blue: string, alpha: string)
    requires red != [] && green != [] && blue != [] && ',' !in alpha
    requires AllDigits(red) && AllDigits(green) && AllDigits(blue)
    ensures ParseDeviceColor("rgba(" + (red + ", " + green + ", " + blue) + ", " + alpha + ")")
            == Some(DeviceColor(DigitsValue(red), DigitsValue(green), DigitsValue(blue), Some(alpha)))
  {
    var body := red + [','] + ((" " + green) + [','] + ((" " + blue) + [','] + (" " + alpha)));
    TranslucentTextShape(red, green, blue, alpha);
    ParseTranslucentBody(body);
    SpacedFree(green);
    SpacedFree(blue);
    SpacedFree(alpha);
    SplitFour(red, " " + green, " " + blue, " " + alpha);
    ParseFieldsOfChannels(red, green, blue, Some(alpha));
  }

  /** Reading the text `formatColor` writes gives back its three channels and,
      exactly when alpha is below 0.999, its alpha text. */
  lemma {:induction false} FormatColorRoundTrip(r: Number, g: Number, b: Number, a: Number)
    requires r.Finite? && g.Finite? && b.Finite?
    ensures var isOpaque := a.Finite? && a.value >= 0.999;
      ParseDeviceColor(FormatColor(r, g, b, a))
      == Some(DeviceColor(To255(r).value.Floor, To255(g).value.Floor, To255(b).value.Floor,
                          if isOpaque then None else Some(AlphaText(a))))
  {
    ChannelRoundTrip(r);
    ChannelRoundTrip(g);
    ChannelRoundTrip(b);
    var red := ChannelText(To255(r));
    var green := ChannelText(To255(g));
    var blue := ChannelText(To255(b));
    if a.Finite? && a.value >= 0.999 {
      FormatOpaque(r, g, b, a);
      ParseOpaqueText(red, green, blue);
    } else {
      FormatTranslucent(r, g, b, a);
      ParseTranslucentText(red, green, blue, AlphaText(a));
    }
  }

  /** The text `formatColor` writes for an opaque colour. */
  lemma {:induction false} FormatOpaque(r: Number, g: Number, b: Number, a: Number)
    requires a.Finite? && a.value >= 0.999
    ensures FormatColor(r, g, b, a)
            == "rgb(" + (ChannelText(To255(r)) + ", " + ChannelText(To255(g)) + ", " + ChannelText(To255(b))) + ")"
  {
  }

  /** The text `formatColor` writes for a translucent colour. */
  lemma {:induction false} FormatTranslucent(r: Number, g: Number, b: Number, a: Number)
    requires !(a.Finite? && a.value >= 0.999)
    ensures FormatColor(r, g, b, a)
            == "rgba(" + (ChannelText(To255(r)) + ", " + ChannelText(To255(g)) + ", " + ChannelText(To255(b)))
               + ", " + AlphaText(a) + ")"
  {
    var args := ChannelText(To255(r)) + ", " + ChannelText(To255(g)) + ", " + ChannelText(To255(b));
    Regroup("rgba(", args, ", ", AlphaText(a), ")");
  }

  // ---------------------------------------------------------------------
  // oklchToRgb and replaceOklchValues

  /** `oklchToRgb`: the text between the first `(` and the last `)`, split at
      `/` into the channels and the alpha part, converted and formatted.
      Nothing in the body of its `try` can throw on a string argument
      (`parseFloat` yields NaN instead), so the conversion is total. A token
      without `/` has no alpha part and is written in the opaque form. */
  function OklchToRgb(oklch: string, lib: MathLib): (s: string)
    ensures StartsWith(s, "rgb(") || StartsWith(s, "rgba(")
    ensures '/' !in oklch ==> StartsWith(s, "rgb(")
  {
    InnerWithin(oklch, '/');
    var parts := Split(Inner(oklch), '/');
    var alphaPart := if |parts| > 1 then Some(parts[1]) else None;
    var rgb := ChannelsOf(parts[0], lib);
    var alpha := ParseAlpha(alphaPart);
    assert '/' !in oklch ==> alpha == Finite(1.0);
    ColorPrefix(rgb.0, rgb.1, rgb.2, alpha);
    FormatColor(rgb.0, rgb.1, rgb.2, alpha)
  }

  /** Every formatted colour starts with `rgb(` or `rgba(`, and an opaque one
      with `rgb(`. */
  lemma {:induction false} ColorPrefix(r: Number, g: Number, b: Number, a: Number)
    ensures StartsWith(FormatColor(r, g, b, a), "rgb(") || StartsWith(FormatColor(r, g, b, a), "rgba(")
    ensures a == Finite(1.0) ==> StartsWith(FormatColor(r, g, b, a), "rgb(")
  {
  }

  /** The text between the first `(` and the last `)` of a token: with the
      `(` before the `)`, the token is what precedes and includes that `(`,
      then the result, then what follows from that `)` on. */
  function Inner(oklch: string): (r: string)
    ensures |r| <= |oklch|
    ensures var open := IndexOf(oklch, '(');
      var close := LastIndexOf(oklch, ')');
      0 <= open < close ==> oklch == oklch[..open + 1] + r + oklch[close..]
  {
    Slice(oklch, IndexOf(oklch, '(') + 1, LastIndexOf(oklch, ')'))
  }

  /** A character absent from a token is absent from its inner text. */
  lemma {:induction false} InnerWithin(oklch: string, c: char)
    ensures c !in oklch ==> c !in Inner(oklch)
  {
  }

  /** A match of the `oklch(...)` pattern: the name, a non-empty body without
      `)`, and the closing parenthesis. */
  predicate IsOklchMatch(t: string)
  {
    |t| > 7 && StartsWith(t, "oklch(") && t[|t| - 1] == ')' && ')' !in t[6..|t| - 1]
  }

  /** On a match with components and an alpha part, `oklchToRgb` converts the
      components and formats them with the alpha it parses. */
  lemma {:induction false} OklchToRgbOfMatch(components: string, alpha: string, lib: MathLib)
    requires '/' !in components && '/' !in alpha && ')' !in components && ')' !in alpha
    ensures var t := "oklch(" + components + "/" + alpha + ")";
      IsOklchMatch(t) &&
      var rgb := ChannelsOf(components, lib);
      OklchToRgb(t, lib) == FormatColor(rgb.0, rgb.1, rgb.2, ParseAlpha(Some(alpha)))
  {
    var body := components + "/" + alpha;
    assert "oklch(" + components + "/" + alpha + ")" == "oklch(" + body + ")";
    assert ')' !in body by {
      assert forall i | 0 <= i < |body| :: body[i] == '/' || body[i] in components || body[i] in alpha;
    }
    InnerOfToken(body);
    assert body == components + ['/'] + alpha;
    SplitAtFirst(components, '/', alpha);
  }

  /** The text inside `oklch(...)` is what the conversion reads, and with a
      non-empty body free of `)` the token is a match of the pattern. */
  lemma {:induction false} InnerOfToken(body: string)
    requires body != [] && ')' !in body
    ensures IsOklchMatch("oklch(" + body + ")")
    ensures Inner("oklch(" + body + ")") == body
  {
    var t := "oklch(" + body + ")";
    assert t[6..|t| - 1] == body && t[..6] == "oklch(";
    assert IndexOf(t, '(') == 5 by {
      assert t[5] == '(' && '(' !in t[..5];
    }
    assert LastIndexOf(t, ')') == |t| - 1 by {
      assert t[|t| - 1] == ')' && t[|t|..] == [];
    }
  }

  /** A token with a percentage alpha below 100%, such as
      `oklch(0.5 0.2 30 / 50%)`, comes out in the `rgba(...)` form, ending with
      that alpha as a fraction. */
  lemma {:induction false} TranslucentToken(components: string, n: nat, lib: MathLib)
    requires '/' !in components && ')' !in components && n < 100
    ensures var s := OklchToRgb("oklch(" + components + "/ " + NatToString(n) + "%)", lib);
      StartsWith(s, "rgba(") && EndsWith(s, ", " + AlphaText(Finite(n as real / 100.0)) + ")")
  {
    var alpha := " " + NatToString(n) + "%";
    var a := Finite(n as real / 100.0);
    PercentTokenShape(components, n);
    OklchToRgbOfMatch(components, alpha, lib);
    PercentAlpha(n);
    var rgb := ChannelsOf(components, lib);
    FormatTranslucent(rgb.0, rgb.1, rgb.2, a);
    var args := ChannelText(To255(rgb.0)) + ", " + ChannelText(To255(rgb.1)) + ", " + ChannelText(To255(rgb.2));
    EndsWithAlpha(args, AlphaText(a));
  }

  /** A token with a percentage alpha is the pattern's name, the components,
      `/` and an alpha part free of `/` and `)`. */
  lemma {:induction false} PercentTokenShape(components: string, n: nat)
    ensures var alpha := " " + NatToString(n) + "%";
      '/' !in alpha && ')' !in alpha &&
      "oklch(" + components + "/ " + NatToString(n) + "%)" == "oklch(" + components + "/" + alpha + ")"
  {
    var alpha := " " + NatToString(n) + "%";
    assert forall i | 0 <= i < |alpha| :: alpha[i] == ' ' || alpha[i] == '%' || IsDigit(alpha[i]);
  }

  /** The `rgba(...)` text ends with its alpha. */
  lemma {:induction false} EndsWithAlpha(args: string, alpha: string)
    ensures EndsWith("rgba(" + args + ", " + alpha + ")", ", " + alpha + ")")
  {
    assert "rgba(" + args + ", " + alpha + ")" == ("rgba(" + args) + (", " + alpha + ")");
    EndsWithAppended("rgba(" + args, ", " + alpha + ")");
  }

  /** The alpha `50%` is printed as `0.5`. */
  lemma {:induction false} HalfAlphaText()
    ensures AlphaText(Finite(50 as real / 100.0)) == "0.5"
  {
    assert ((0.5 * 1000.0 + 1.0 / 2.0).Floor) == 500;
    assert NatToString(0) == "0";
  }

  /** An alpha part ` n%` is read as n / 100. */
  lemma {:induction false} PercentAlpha(n: nat)
    requires n <= 100
    ensures ParseAlpha(Some(" " + NatToString(n) + "%")) == Finite(n as real / 100.0)
  {
    var input := " " + NatToString(n) + "%";
    PercentText(n);
    ParseFloatOfInteger(n, "%");
    ParseAlphaPercent(input);
    HundredthOf(n);
  }

  /** n percent of 1, clamped into [0, 1], is n / 100 when n is at most 100. */
  lemma {:induction false} HundredthOf(n: nat)
    requires n <= 100
    ensures Clamp(Scale(Finite(n as real), 1.0 / 100.0), 0.0, 1.0) == Finite(n as real / 100.0)
  {
    var x := n as real / 100.0;
    assert (n as real) * (1.0 / 100.0) == x && 0.0 <= x <= 1.0;
  }

  /** The text ` n%` trims to `n%`, which is a percentage and not `none`. */
  lemma {:induction false} PercentText(n: nat)
    ensures var t := NatToString(n) + "%";
      Trim(" " + NatToString(n) + "%") == t && t != "none" && EndsWith(t, "%")
  {
    var t := NatToString(n) + "%";
    assert " " + NatToString(n) + "%" == " " + t;
    assert !IsWhiteSpace(t[0]) && t[|t| - 1] == '%';
    TrimLeadingSpace(t);
    assert IsDigit(t[0]) && t[|t| - 1..] == "%";
  }

  /** One space before an unspaced string is trimmed away. */
  lemma {:induction false} TrimLeadingSpace(t: string)
    requires t != [] && !IsWhiteSpace(t[0]) && !IsWhiteSpace(t[|t| - 1])
    ensures Trim(" " + t) == t
  {
    assert (" " + t)[1..] == t;
    assert TrimStart(" " + t) == TrimStart(t) == t;
  }

  /** A string ends with what was appended to it. */
  lemma {:induction false} EndsWithAppended(a: string, b: string)
    ensures EndsWith(a + b, b)
  {
    assert (a + b)[|a + b| - |b|..] == b;
  }

  /** A piece of a style value as the global `oklch(...)` regular expression
      cuts it: a character outside every match, or a whole match. */
  datatype Piece = Plain(c: char) | Match(text: string)

  /** Length of the match of `/oklch\(([^)]+)\)/` at the start of `t`, or 0
      when no match starts there: the body runs to the first `)` and must not
      be empty. A length it returns is that of a match. */
  function MatchLength(t: string): (k: nat)
    ensures k <= |t|
    ensures k > 0 ==> IsOklchMatch(t[..k])
  {
    if !StartsWith(t, "oklch(") then
      0
    else
      var close := IndexOf(t[6..], ')');
      MatchAtFirstClose(t, close);
      if close < 1 then 0 else 7 + close
  }

  /** The match length is exact: a prefix of `t` is a match exactly when its
      length is `MatchLength(t)`, so a 0 means that no match starts there. */
  lemma {:induction false} MatchLengthExact(t: string)
    ensures forall j | 0 < j <= |t| :: IsOklchMatch(t[..j]) <==> j == MatchLength(t)
  {
    if !StartsWith(t, "oklch(") {
      NoMatchWithoutName(t);
    } else {
      MatchAtFirstClose(t, IndexOf(t[6..], ')'));
    }
  }

  /** No prefix of a text that does not start with `oklch(` is a match. */
  lemma {:induction false} NoMatchWithoutName(t: string)
    requires !StartsWith(t, "oklch(")
    ensures forall j | 0 < j <= |t| :: !IsOklchMatch(t[..j])
  {
    forall j | 0 < j <= |t| && |t[..j]| >= 6
      ensures t[..j][..6] == t[..6]
    {
    }
  }

  /** After `oklch(`, the prefixes that are matches end at the first `)`,
      and only when the body before it is not empty. */
  lemma {:induction false} MatchAtFirstClose(t: string, close: int)
    requires StartsWith(t, "oklch(") && close == IndexOf(t[6..], ')')
    ensures forall j | 0 < j <= |t| :: IsOklchMatch(t[..j]) <==> close >= 1 && j == 7 + close
  {
    var u := t[6..];
    forall j | 0 < j <= |t|
      ensures IsOklchMatch(t[..j]) <==> close >= 1 && j == 7 + close
    {
      if j > 7 {
        var m := j - 7;
        assert t[..j][|t[..j]| - 1] == u[m];
        assert t[..j][6..|t[..j]| - 1] == u[..m];
        assert t[..j][..6] == t[..6];
        if u[m] == ')' && ')' !in u[..m] {
          FirstIndex(u, ')', m);
        }
      }
    }
  }

  /** The first position of `c` is the one with no `c` before it. */
  lemma {:induction false} FirstIndex(u: string, c: char, m: nat)
    requires m < |u| && u[m] == c && c !in u[..m]
    ensures IndexOf(u, c) == m
  {
    var k := IndexOf(u, c);
    assert forall i | 0 <= i < m :: u[..m][i] == u[i];
    assert m + 1 <= |u| && u[..m + 1][m] == c;
    assert forall i | 0 <= i < k :: u[..k][i] == u[i];
  }

  /** The text of one piece. */
  function PieceText(p: Piece): string
  {
    match p
    case Plain(c) => [c]
    case Match(t) => t
  }

  function Flatten(pieces: seq<Piece>): string
  {
    if pieces == [] then "" else PieceText(pieces[0]) + Flatten(pieces[1..])
  }

  /** The scan of `String.prototype.replace` with a global regular expression:
      from left to right, a match is taken wherever one starts, and the scan
      resumes after it. Gluing the pieces back gives the text; at every piece
      the match that starts there is that piece when it is a match, and there
      is none when it is a plain character. */
  function Tokens(s: string): (pieces: seq<Piece>)
    ensures Flatten(pieces) == s
    ensures forall i | 0 <= i < |pieces| :: pieces[i].Match? ==> IsOklchMatch(pieces[i].text)
    ensures forall i | 0 <= i < |pieces| ::
              MatchLength(Flatten(pieces[i..])) == if pieces[i].Match? then |pieces[i].text| else 0
    decreases |s|
  {
    if s == [] then []
    else
      var first := FirstPiece(s);
      var rest := Tokens(s[|PieceText(first)|..]);
      ScanStep(s, first, rest);
      [first] + rest
  }

  /** The piece the scan takes at the start of a non-empty text: the match
      that starts there, or else the first character. */
  function FirstPiece(s: string): (first: Piece)
    requires s != []
    ensures 0 < |PieceText(first)| <= |s| && PieceText(first) == s[..|PieceText(first)|]
    ensures first.Match? ==> IsOklchMatch(first.text)
    ensures MatchLength(s) == if first.Match? then |first.text| else 0
  {
    var k := MatchLength(s);
    if k > 0 then Match(s[..k]) else Plain(s[0])
  }

  /** The scan's promises for one more piece in front. */
  lemma {:induction false} ScanStep(s: string, first: Piece, rest: seq<Piece>)
    requires 0 < |PieceText(first)| <= |s| && PieceText(first) == s[..|PieceText(first)|]
    requires Flatten(rest) == s[|PieceText(first)|..]
    requires MatchLength(s) == if first.Match? then |first.text| else 0
    requires first.Match? ==> IsOklchMatch(first.text)
    requires forall i | 0 <= i < |rest| :: rest[i].Match? ==> IsOklchMatch(rest[i].text)
    requires forall i | 0 <= i < |rest| ::
               MatchLength(Flatten(rest[i..])) == if rest[i].Match? then |rest[i].text| else 0
    ensures var pieces := [first] + rest;
      Flatten(pieces) == s &&
      (forall i | 0 <= i < |pieces| :: pieces[i].Match? ==> IsOklchMatch(pieces[i].text)) &&
      forall i | 0 <= i < |pieces| ::
        MatchLength(Flatten(pieces[i..])) == if pieces[i].Match? then |pieces[i].text| else 0
  {
    var pieces := [first] + rest;
    ScanText(s, first, rest);
    forall i | 0 <= i < |pieces|
      ensures pieces[i].Match? ==> IsOklchMatch(pieces[i].text)
      ensures MatchLength(Flatten(pieces[i..])) == if pieces[i].Match? then |pieces[i].text| else 0
    {
      if i == 0 {
        assert pieces[i..] == pieces;
      } else {
        assert pieces[i..] == rest[i - 1..] && pieces[i] == rest[i - 1];
      }
    }
  }

  /** One more piece in front still glues back to the text. */
  lemma {:induction false} ScanText(s: string, first: Piece, rest: seq<Piece>)
    requires 0 < |PieceText(first)| <= |s| && PieceText(first) == s[..|PieceText(first)|]
    requires Flatten(rest) == s[|PieceText(first)|..]
    ensures Flatten([first] + rest) == s
  {
    var pieces := [first] + rest;
    var n := |PieceText(first)|;
    assert pieces[1..] == rest && pieces[0] == first;
    assert s == s[..n] + s[n..];
  }

  /** Each match replaced by what `convert` makes of it; the rest copied. */
  function Render(pieces: seq<Piece>, convert: string -> string): (r: string)
    ensures (forall i | 0 <= i < |pieces| :: pieces[i].Plain?) ==> r == Flatten(pieces)
  {
    if pieces == [] then ""
    else (if pieces[0].Match? then convert(pieces[0].text) else PieceText(pieces[0])) + Render(pieces[1..], convert)
  }

  /** `replaceOklchValues`: every match of the `oklch(...)` pattern replaced by
      its conversion. A value that is one whole match, as a resolved colour
      is, becomes that match's conversion. */
  function ReplaceOklchValues(value: string, lib: MathLib): (r: string)
    ensures IsOklchMatch(value) ==> r == OklchToRgb(value, lib)
  {
    WholeMatch(value, t => OklchToRgb(t, lib));
    Render(Tokens(value), t => OklchToRgb(t, lib))
  }

  /** A text that is one whole match is scanned as that match alone. */
  lemma {:induction false} WholeMatch(value: string, convert: string -> string)
    ensures IsOklchMatch(value) ==> Tokens(value) == [Match(value)] && Render(Tokens(value), convert) == convert(value)
  {
    if IsOklchMatch(value) {
      MatchLengthExact(value);
      assert value[..|value|] == value;
      assert value[|value|..] == [];
      assert Render([Match(value)], convert) == convert(value) + Render([], convert);
    }
  }

  /** Rendering changes only the matches: where `convert` leaves every match
      as it is, the text comes back unchanged. */
  lemma {:induction false} RenderKeepsPlainText(pieces: seq<Piece>, convert: string -> string)
    requires forall i | 0 <= i < |pieces| :: pieces[i].Match? ==> convert(pieces[i].text) == pieces[i].text
    ensures Render(pieces, convert) == Flatten(pieces)
  {
    if pieces != [] {
      RenderKeepsPlainText(pieces[1..], convert);
    }
  }

  /** Text outside the matches is never changed: replacing every match by
      itself is the identity. */
  lemma {:induction false} ReplaceChangesOnlyMatches(s: string)
    ensures Render(Tokens(s), t => t) == s
  {
    RenderKeepsPlainText(Tokens(s), t => t);
  }

  /** Without the text `oklch(` there is no match, so the value comes back unchanged. */
  lemma {:induction false} NoMatchWithoutOklch(s: string, convert: string -> string)
    requires !Contains(s, "oklch(")
    ensures forall i | 0 <= i < |Tokens(s)| :: Tokens(s)[i].Plain?
    ensures Render(Tokens(s), convert) == s
    decreases |s|
  {
    if s != [] {
      assert MatchLength(s) == 0;
      NoMatchWithoutOklch(s[1..], convert);
      assert Tokens(s) == [Plain(s[0])] + Tokens(s[1..]);
    }
  }

  /** No piece of `s` is a match of the `oklch(...)` pattern. */
  predicate HasNoMatch(s: string)
  {
    forall i, j | 0 <= i < j <= |s| :: !IsOklchMatch(s[i..j])
  }

  /** No piece of a text is a match exactly when no prefix is one and no
      piece of the text after its first character is one. */
  lemma {:induction false} NoMatchShift(s: string)
    requires s != []
    ensures HasNoMatch(s) <==> (forall j | 0 < j <= |s| :: !IsOklchMatch(s[..j])) && HasNoMatch(s[1..])
  {
    var rest := s[1..];
    assert forall j | 0 < j <= |s| :: s[0..j] == s[..j];
    assert forall i, j | 0 <= i < j <= |rest| :: rest[i..j] == s[i + 1..j + 1];
    if (forall j | 0 < j <= |s| :: !IsOklchMatch(s[..j])) && HasNoMatch(rest) {
      forall i, j | 0 <= i < j <= |s|
        ensures !IsOklchMatch(s[i..j])
      {
        if i > 0 {
          assert s[i..j] == rest[i - 1..j - 1];
        }
      }
    }
  }

  /** Where no match starts, the scan takes one plain character. */
  lemma {:induction false} PlainHead(s: string)
    requires s != [] && MatchLength(s) == 0
    ensures Tokens(s) == [Plain(s[0])] + Tokens(s[1..])
  {
  }

  /** The scan finds only plain characters exactly when no piece of the text
      is a match: a match anywhere is found, by itself or inside an earlier
      match. */
  lemma {:induction false} AllPlainIffNoMatch(s: string)
    ensures (forall i | 0 <= i < |Tokens(s)| :: Tokens(s)[i].Plain?) <==> HasNoMatch(s)
    decreases |s|
  {
    if s != [] {
      var k := MatchLength(s);
      MatchLengthExact(s);
      NoMatchShift(s);
      if k > 0 {
        assert IsOklchMatch(s[..k]);
        assert Tokens(s)[0].Match?;
      } else {
        AllPlainIffNoMatch(s[1..]);
        AllPlainShift(s);
      }
    }
  }

  /** When no match starts at the front, the scan is all plain characters
      exactly when the scan of the rest is. */
  lemma {:induction false} AllPlainShift(s: string)
    requires s != [] && MatchLength(s) == 0
    ensures (forall i | 0 <= i < |Tokens(s)| :: Tokens(s)[i].Plain?)
            <==> (forall i | 0 <= i < |Tokens(s[1..])| :: Tokens(s[1..])[i].Plain?)
  {
    PlainHead(s);
    AllPlainCons(Plain(s[0]), Tokens(s[1..]));
  }

  /** A plain piece in front changes nothing about being all plain. */
  lemma {:induction false} AllPlainCons(p: Piece, tail: seq<Piece>)
    requires p.Plain?
    ensures (forall i | 0 <= i < |[p] + tail| :: ([p] + tail)[i].Plain?)
            <==> (forall i | 0 <= i < |tail| :: tail[i].Plain?)
  {
    var pieces := [p] + tail;
    assert forall i | 0 <= i < |tail| :: pieces[i + 1] == tail[i];
    assert forall i | 1 <= i < |pieces| :: pieces[i] == tail[i - 1];
  }

  /** A text in which nothing matches renders to itself, whatever the conversion. */
  lemma {:induction false} NoMatchRendersText(s: string, convert: string -> string)
    requires HasNoMatch(s)
    ensures Render(Tokens(s), convert) == s
  {
    AllPlainIffNoMatch(s);
    assert forall i | 0 <= i < |Tokens(s)| :: Tokens(s)[i].Plain?;
    RenderKeepsPlainText(Tokens(s), convert);
  }

  /** A value in which nothing matches the pattern, such as `oklch()` or an
      unclosed `oklch(0.5`, is returned unchanged by `replaceOklchValues`. */
  lemma {:induction false} ReplaceWithoutOklch(value: string, lib: MathLib)
    requires HasNoMatch(value)
    ensures ReplaceOklchValues(value, lib) == value
  {
    NoMatchRendersText(value, t => OklchToRgb(t, lib));
  }

  /** A lone field is the lightness; chroma and hue read "0", which parse as
      the number 0. */
  lemma {:induction false} LoneField(l: string)
    requires l != [] && NoWhiteSpace(l)
    ensures ChannelFields(l) == (l, "0", "0")
    ensures ParseFloat(Trim("0")) == Finite(0.0) && ParseHue("0").Finite?
  {
    assert Trim(l) == l;
    ZeroText();
  }

  /** The text "0" needs no trimming and parses as 0. */
  lemma {:induction false} ZeroText()
    ensures Trim("0") == "0" && ParseFloat("0") == Finite(0.0)
  {
    var z := NatToString(0);
    assert z == "0";
    ParseFloatOfInteger(0, "");
    assert z + "" == z;
  }

  /** A token without `/` is converted with alpha 1. */
  lemma {:induction false} OklchToRgbWithoutAlpha(body: string, lib: MathLib)
    requires body != [] && ')' !in body && '/' !in body
    ensures var rgb := ChannelsOf(body, lib);
      OklchToRgb("oklch(" + body + ")", lib) == FormatColor(rgb.0, rgb.1, rgb.2, Finite(1.0))
  {
    InnerOfToken(body);
    assert Split(body, '/') == [body];
  }

  /** A token with a lightness alone, such as `oklch(0.5)`, reads its chroma
      and hue as "0": its three channels are equal, a grey that is NaN only
      when the lightness does not parse, and it is written in the opaque
      `rgb(...)` form. */
  lemma {:induction false} LightnessOnlyIsGrey(l: string, lib: MathLib)
    requires l != [] && NoWhiteSpace(l) && ')' !in l && '/' !in l
    ensures var rgb := ChannelsOf(l, lib);
      rgb.0 == rgb.1 && rgb.1 == rgb.2 &&
      (rgb.0.NaN? <==> ParsePercentageOrNumber(l).NaN?) &&
      OklchToRgb("oklch(" + l + ")", lib) == FormatColor(rgb.0, rgb.1, rgb.2, Finite(1.0))
  {
    LoneField(l);
    OklchToRgbWithoutAlpha(l, lib);
  }
}
