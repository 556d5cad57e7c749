/**
 * JavaScript's string-to-number conversions as the helpers use them:
 * `parseFloat` on a transform coefficient and `Number(...)` on a captured
 * run of digits and dots. Values are exact reals; NaN is an explicit `None`.
 */
module Numbers {
  import opened Wrappers
  import opened Strings

  /** The value 10^e for a signed exponent. */
  function Scale10(e: int): (r: real)
    ensures r > 0.0
  {
    if e >= 0 then Pow10(e) as real else 1.0 / (Pow10(-e) as real)
  }

  /** `n / 10^places`: `n` with a decimal point moved `places` digits to the left. */
  function Shifted(n: int, places: nat): real
  {
    (n as real) / (Pow10(places) as real)
  }

  /** Moving the point by no places leaves the number as it is. */
  lemma ShiftedByNone(n: int)
    ensures Shifted(n, 0) == n as real
  {
    assert Pow10(0) == 1;
  }

  /** Moving the point commutes with negation. */
  lemma ShiftedNegated(n: int, places: nat)
    ensures Shifted(-n, places) == -Shifted(n, places)
  {
    var p := Pow10(places) as real;
    assert p > 0.0;
    assert (-n) as real == -(n as real);
    assert (-(n as real)) / p == -((n as real) / p);
  }

  /** The factor an exponent part (`e`, optional sign, digits) contributes; 1 when the part is absent or incomplete. */
  function ExponentFactor(s: string): real
  {
    if |s| >= 1 && (s[0] == 'e' || s[0] == 'E') then
      var signed := |s| >= 2 && (s[1] == '+' || s[1] == '-');
      var digits := DigitRun(if signed then s[2..] else s[1..]);
      if digits == [] then 1.0
      else if signed && s[1] == '-' then Scale10(0 - DigitsValue(digits) as int)
      else Scale10(DigitsValue(digits))
    else 1.0
  }

  /** The characters a number may begin with: a digit, a sign or a decimal point. */
  predicate MayStartNumber(c: char)
  {
    IsDigit(c) || c == '+' || c == '-' || c == '.'
  }

  function TrimStart(s: string): (r: string)
    ensures r == [] || !IsWhitespace(r[0])
    ensures |r| <= |s|
  {
    if s != [] && IsWhitespace(s[0]) then TrimStart(s[1..]) else s
  }

  /**
   * `parseFloat(s)`: leading whitespace is skipped, then the longest prefix of the
   * form [+-] digits [. digits] [exponent] (with at least one digit before the
   * exponent) is read; `None` where JavaScript gives NaN.
   */
  function ParseFloat(s: string): (r: Option<real>)
    ensures r.Some? ==> TrimStart(s) != [] && MayStartNumber(TrimStart(s)[0])
  {
    ParseSigned(TrimStart(s))
  }

  /** `parseFloat` after the whitespace: an optional sign, then the unsigned part. */
  function ParseSigned(t: string): Option<real>
  {
    if |t| >= 1 && (t[0] == '-' || t[0] == '+') then
      var m := ParseUnsigned(t[1..]);
      if m.Some? && t[0] == '-' then Some(-m.value) else m
    else ParseUnsigned(t)
  }

  /** The unsigned part of `parseFloat`: digits, an optional fraction and an optional exponent. */
  function ParseUnsigned(body: string): Option<real>
  {
    var intPart := DigitRun(body);
    var afterInt := body[|intPart|..];
    if |afterInt| >= 1 && afterInt[0] == '.' then
      var fracPart := DigitRun(afterInt[1..]);
      Mantissa(intPart, fracPart, afterInt[1 + |fracPart|..])
    else Mantissa(intPart, [], afterInt)
  }

  /** The digits before and after the point, scaled by the exponent part in `rest`; NaN without any digit. */
  function Mantissa(intPart: string, fracPart: string, rest: string): Option<real>
    requires AllDigits(intPart) && AllDigits(fracPart)
  {
    if |intPart| + |fracPart| == 0 then None
    else Some(Shifted(DigitsValue(intPart + fracPart), |fracPart|) * ExponentFactor(rest))
  }

  /** Without an exponent part the digits are read as they stand. */
  lemma MantissaAlone(ip: string, fp: string)
    requires |ip| >= 1 && AllDigits(ip) && AllDigits(fp)
    ensures Mantissa(ip, fp, []) == Some(Shifted(DigitsValue(ip + fp), |fp|))
  {
    assert ExponentFactor([]) == 1.0;
  }

  /** A decimal `units / 10^scale`, the shape of a coefficient in a serialized matrix. */
  datatype Fixed = Fixed(units: int, scale: nat)

  function FixedValue(f: Fixed): real
  {
    Shifted(f.units, f.scale)
  }

  function Abs(n: int): nat
  {
    if n < 0 then -n else n
  }

  /** The digits of `f` with a point before the last `scale` of them (no point when `scale` is 0). */
  function FixedBody(f: Fixed): (s: string)
    ensures |s| >= 1 && IsDigit(s[0])
  {
    var digits := PadLeft(Decimal(Abs(f.units)), f.scale + 1);
    if f.scale == 0 then digits
    else digits[..|digits| - f.scale] + "." + digits[|digits| - f.scale..]
  }

  /** The numeral of `f`: a minus sign when negative, then its digits and point. */
  function FormatFixed(f: Fixed): string
  {
    (if f.units < 0 then "-" else "") + FixedBody(f)
  }

  /** A run of digits alone reads as its value. */
  lemma ParseDigits(ip: string)
    requires |ip| >= 1 && AllDigits(ip)
    ensures ParseUnsigned(ip) == Some(DigitsValue(ip) as real)
  {
    assert ip + [] == ip;
    DigitRunOf(ip, []);
    assert ip[|ip|..] == [];
    assert ParseUnsigned(ip) == Mantissa(ip, [], []);
    MantissaAlone(ip, []);
    ShiftedByNone(DigitsValue(ip));
  }

  /** Digits, a point and digits read as a decimal fraction. */
  lemma ParseDigitsWithFraction(ip: string, fp: string)
    requires |ip| >= 1 && AllDigits(ip) && AllDigits(fp)
    ensures ParseUnsigned(ip + "." + fp) == Some(Shifted(DigitsValue(ip + fp), |fp|))
  {
    var body := ip + "." + fp;
    assert body == ip + ("." + fp);
    DigitRunOf(ip, "." + fp);
    assert body[|ip|..] == "." + fp;
    assert ("." + fp)[1..] == fp;
    assert fp + [] == fp;
    DigitRunOf(fp, []);
    assert ("." + fp)[1 + |fp|..] == [];
    assert ParseUnsigned(body) == Mantissa(ip, fp, []);
    MantissaAlone(ip, fp);
  }

  /** The body of a decimal numeral: its padded digits, split by a point before the last `scale`. */
  lemma FixedBodyShape(f: Fixed) returns (ip: string, fp: string)
    ensures AllDigits(ip) && AllDigits(fp) && |ip| >= 1 && |fp| == f.scale
    ensures DigitsValue(ip + fp) == Abs(f.units)
    ensures FixedBody(f) == if f.scale == 0 then ip else ip + "." + fp
  {
    var digits := PadLeft(Decimal(Abs(f.units)), f.scale + 1);
    DigitsValueOfDecimal(Abs(f.units));
    var k := |digits| - f.scale;
    ip, fp := digits[..k], digits[k..];
    assert ip + fp == digits;
  }

  /** A numeral is made of digits, at most a leading minus sign and a point. */
  lemma FormatFixedCharacters(f: Fixed)
    ensures forall i :: 0 <= i < |FormatFixed(f)| ==> IsDigit(FormatFixed(f)[i]) || FormatFixed(f)[i] == '-' || FormatFixed(f)[i] == '.'
  {
    var ip, fp := FixedBodyShape(f);
    var sign: string := if f.units < 0 then "-" else "";
    var s := FormatFixed(f);
    forall i | 0 <= i < |s|
      ensures IsDigit(s[i]) || s[i] == '-' || s[i] == '.'
    {
      if f.scale == 0 {
        assert s == sign + ip;
        if i >= |sign| {
          assert s[i] == ip[i - |sign|];
        }
      } else {
        assert s == sign + ip + "." + fp;
        if |sign| <= i < |sign| + |ip| {
          assert s[i] == ip[i - |sign|];
        } else if i > |sign| + |ip| {
          assert s[i] == fp[i - |sign| - |ip| - 1];
        }
      }
    }
  }

  /** The unsigned reading of the body of a decimal numeral is the absolute value of the decimal. */
  lemma ParseFixedBody(f: Fixed)
    ensures ParseUnsigned(FixedBody(f)) == Some(Shifted(Abs(f.units), f.scale))
  {
    var ip, fp := FixedBodyShape(f);
    if f.scale == 0 {
      assert fp == [] && ip + fp == ip;
      ParseDigits(ip);
    } else {
      ParseDigitsWithFraction(ip, fp);
    }
  }

  /** Text that starts with a digit has no whitespace to skip. */
  lemma TrimStartAtDigit(s: string)
    requires |s| >= 1 && IsDigit(s[0])
    ensures TrimStart(s) == s
  {
    assert !IsWhitespace(s[0]);
  }

  /** `parseFloat` on text that starts with a digit reads it unsigned. */
  lemma ParseFloatFromDigit(s: string, v: real)
    requires |s| >= 1 && IsDigit(s[0]) && ParseUnsigned(s) == Some(v)
    ensures ParseFloat(s) == Some(v)
  {
    TrimStartAtDigit(s);
  }

  /** `parseFloat` on a minus sign followed by a digit negates the unsigned reading of the rest. */
  lemma ParseFloatNegated(s: string, body: string, v: real)
    requires s == "-" + body
    requires |body| >= 1 && IsDigit(body[0]) && ParseUnsigned(body) == Some(v)
    ensures ParseFloat(s) == Some(-v)
  {
    assert !IsWhitespace(s[0]);
    assert TrimStart(s) == s;
    assert s[1..] == body;
  }

  /** A negative decimal is the negation of the decimal its digits spell. */
  lemma NegatedMagnitude(f: Fixed)
    requires f.units < 0
    ensures -Shifted(-f.units, f.scale) == FixedValue(f)
  {
    ShiftedNegated(-f.units, f.scale);
    assert -(-f.units) == f.units;
  }

  /** The numeral of a negative decimal reads as the negated reading of its digits. */
  lemma {:induction false} NegativeNumeralReads(f: Fixed)
    requires f.units < 0
    ensures ParseFloat(FormatFixed(f)) == Some(-Shifted(-f.units, f.scale))
  {
    var body := FixedBody(f);
    var v := Shifted(-f.units, f.scale);
    ParseFixedBody(f);
    assert Abs(f.units) == -f.units;
    assert ParseUnsigned(body) == Some(v);
    assert FormatFixed(f) == "-" + body;
    ParseFloatNegated(FormatFixed(f), body, v);
  }

  /** The numeral of a negative decimal reads back as its value. */
  lemma {:induction false} ParseNegativeFixed(f: Fixed)
    requires f.units < 0
    ensures ParseFloat(FormatFixed(f)) == Some(FixedValue(f))
  {
    NegativeNumeralReads(f);
    NegatedMagnitude(f);
  }

  /** The numeral of a decimal that is not negative reads back as its value. */
  lemma ParseNonNegativeFixed(f: Fixed)
    requires f.units >= 0
    ensures ParseFloat(FormatFixed(f)) == Some(FixedValue(f))
  {
    ParseFixedBody(f);
    assert Abs(f.units) == f.units;
    assert FormatFixed(f) == FixedBody(f);
    ParseFloatFromDigit(FormatFixed(f), FixedValue(f));
  }

  /** Reading the numeral of a decimal back with `parseFloat` gives its exact value. */
  lemma ParseFormatFixed(f: Fixed)
    ensures ParseFloat(FormatFixed(f)) == Some(FixedValue(f))
  {
    if f.units < 0 {
      ParseNegativeFixed(f);
    } else {
      ParseNonNegativeFixed(f);
    }
  }

  /**
   * `Number(s)` for a string made only of digits and dots: the empty string is 0,
   * one optional point with at least one digit is read as a decimal, and anything
   * else (a lone point, two points) is NaN, here `None`.
   */
  function DigitsAndDotsToNumber(s: string): (r: Option<real>)
    requires forall i :: 0 <= i < |s| ==> IsDigit(s[i]) || s[i] == '.'
    ensures AllDigits(s) ==> r == Some(DigitsValue(s) as real)
  {
    var intPart := DigitRun(s);
    if |intPart| == |s| then Some(DigitsValue(s) as real)
    else
      var fracPart := s[|intPart| + 1..];
      if !AllDigits(fracPart) || |intPart| + |fracPart| == 0 then None
      else Some(Shifted(DigitsValue(intPart + fracPart), |fracPart|))
  }

  /**
   * Digits with exactly one point: the digits on both sides read as one
   * decimal, and a point with no digit on either side is NaN.
   */
  lemma NumberWithOnePoint(ip: string, fp: string)
    requires AllDigits(ip) && AllDigits(fp)
    ensures forall i :: 0 <= i < |ip + "." + fp| ==> IsDigit((ip + "." + fp)[i]) || (ip + "." + fp)[i] == '.'
    ensures DigitsAndDotsToNumber(ip + "." + fp)
            == if |ip| + |fp| == 0 then None else Some(Shifted(DigitsValue(ip + fp), |fp|))
  {
    var s := ip + "." + fp;
    assert s == ip + ("." + fp);
    DigitRunOf(ip, "." + fp);
    assert s[|ip| + 1..] == fp;
  }
}
