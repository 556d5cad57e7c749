/**
 * `timeToMS`: a duration written as digits and points followed by one of the
 * units `ms`, `s`, `min` or `h`, converted to milliseconds.
 */
module Durations {
  import opened Wrappers
  import opened Strings
  import opened Numbers

  /**
   * What the helper hands back: a number of milliseconds, the captured digits
   * themselves (the `ms` unit returns the text unconverted), or NaN when the
   * digits and points do not form a number.
   */
  datatype Duration = Millis(ms: real) | Captured(text: string) | NotANumber

  predicate IsDigitOrPoint(c: char)
  {
    IsDigit(c) || c == '.'
  }

  predicate AllDigitsOrPoints(s: string)
  {
    forall i :: 0 <= i < |s| ==> IsDigitOrPoint(s[i])
  }

  predicate IsUnit(u: string)
  {
    u == "ms" || u == "s" || u == "min" || u == "h"
  }

  /** The longest prefix made of digits and points. */
  function DigitsAndPoints(s: string): (d: string)
    ensures |d| <= |s| && d == s[..|d|] && AllDigitsOrPoints(d)
    ensures |d| == |s| || !IsDigitOrPoint(s[|d|])
  {
    if s != [] && IsDigitOrPoint(s[0]) then [s[0]] + DigitsAndPoints(s[1..]) else []
  }

  /** Milliseconds in one of the scaled units. */
  function UnitFactor(u: string): (f: Option<real>)
    ensures f.Some? <==> u == "s" || u == "min" || u == "h"
    ensures u == "s" ==> f == Some(1000.0)
    ensures u == "min" ==> f == Some(60000.0)
    ensures u == "h" ==> f == Some(3600000.0)
  {
    if u == "s" then Some(1000.0)
    else if u == "min" then Some(60.0 * 1000.0)
    else if u == "h" then Some(60.0 * 60.0 * 1000.0)
    else None
  }

  /** `Number(digits) * factor`, given the number the digits read as (`None` for NaN). */
  function Scaled(number: Option<real>, factor: real): Duration
  {
    match number
    case Some(v) => Millis(v * factor)
    case None => NotANumber
  }

  /**
   * The whole string must be digits and points followed by exactly one unit;
   * anything else is 0.
   */
  function TimeToMS(time: string): (r: Duration)
    ensures r.Captured? ==> time == r.text + "ms" && AllDigitsOrPoints(r.text)
    ensures !IsUnit(time[|DigitsAndPoints(time)|..]) ==> r == Millis(0.0)
  {
    var digits := DigitsAndPoints(time);
    var u := time[|digits|..];
    if u == "ms" then Captured(digits)
    else match UnitFactor(u)
      case Some(f) => Scaled(DigitsAndDotsToNumber(digits), f)
      case None => Millis(0.0)
  }

  /**
   * Only digits and points followed by a unit give anything but 0, and the `ms`
   * unit hands back exactly the digits before it.
   */
  lemma TimeToMSShape(time: string)
    ensures var r := TimeToMS(time);
            && (r.Captured? ==> time == r.text + "ms" && AllDigitsOrPoints(r.text))
            && (r != Millis(0.0) ==>
                  exists k :: 0 <= k <= |time| && AllDigitsOrPoints(time[..k]) && IsUnit(time[k..]))
  {
    var digits := DigitsAndPoints(time);
    var u := time[|digits|..];
    assert time == digits + u;
    assert time[..|digits|] == digits;
  }

  /** Digits and points followed by anything else are taken whole. */
  lemma {:induction false} DigitsAndPointsOf(d: string, rest: string)
    requires AllDigitsOrPoints(d)
    requires rest == [] || !IsDigitOrPoint(rest[0])
    ensures DigitsAndPoints(d + rest) == d
  {
    if d != [] {
      assert (d + rest)[1..] == d[1..] + rest;
      DigitsAndPointsOf(d[1..], rest);
    }
  }

  /** Each unit applied to a string of digits and points. */
  lemma TimeOfUnit(d: string)
    requires AllDigitsOrPoints(d)
    ensures TimeToMS(d + "ms") == Captured(d)
    ensures TimeToMS(d + "s") == Scaled(DigitsAndDotsToNumber(d), 1000.0)
    ensures TimeToMS(d + "min") == Scaled(DigitsAndDotsToNumber(d), 60000.0)
    ensures TimeToMS(d + "h") == Scaled(DigitsAndDotsToNumber(d), 3600000.0)
  {
    DigitsAndPointsOf(d, "ms");
    assert (d + "ms")[|d|..] == "ms";
    DigitsAndPointsOf(d, "s");
    assert (d + "s")[|d|..] == "s";
    DigitsAndPointsOf(d, "min");
    assert (d + "min")[|d|..] == "min";
    DigitsAndPointsOf(d, "h");
    assert (d + "h")[|d|..] == "h";
  }

  /** A run of digits is in particular a run of digits and points. */
  lemma DigitsArePoints(d: string)
    requires AllDigits(d)
    ensures AllDigitsOrPoints(d)
  {
    forall i | 0 <= i < |d|
      ensures IsDigitOrPoint(d[i])
    {
      assert IsDigit(d[i]);
    }
  }

  /** Scaling a number that is not NaN multiplies it by the factor. */
  lemma ScaledNumber(n: Option<real>, v: real, factor: real)
    requires n == Some(v)
    ensures Scaled(n, factor) == Millis(v * factor)
  {
  }

  /** A run of digits reads as its value, so a scaled run is that value times the factor. */
  lemma {:induction false} ScaledDigits(d: string, factor: real)
    requires AllDigits(d)
    ensures AllDigitsOrPoints(d)
    ensures Scaled(DigitsAndDotsToNumber(d), factor) == Millis(DigitsValue(d) as real * factor)
  {
    DigitsArePoints(d);
    ScaledNumber(DigitsAndDotsToNumber(d), DigitsValue(d) as real, factor);
  }

  /** A whole number of seconds, minutes or hours, written in digits, converts exactly. */
  lemma WholeUnits(d: string)
    requires AllDigits(d)
    ensures TimeToMS(d + "s") == Millis(DigitsValue(d) as real * 1000.0)
    ensures TimeToMS(d + "min") == Millis(DigitsValue(d) as real * 60000.0)
    ensures TimeToMS(d + "h") == Millis(DigitsValue(d) as real * 3600000.0)
  {
    ScaledDigits(d, 1000.0);
    ScaledDigits(d, 60000.0);
    ScaledDigits(d, 3600000.0);
    TimeOfUnit(d);
  }

  /** A unit alone stands for an empty number, which is 0. */
  lemma BareUnitIsZero()
    ensures TimeToMS("s") == Millis(0.0)
    ensures TimeToMS("h") == Millis(0.0)
  {
    TimeOfUnit("");
    assert "" + "s" == "s" && "" + "h" == "h";
  }

  /** Digits with two or more points are not a number. */
  lemma NumberWithTwoPoints(a: string, b: string, c: string)
    requires AllDigits(a) && AllDigits(b) && AllDigitsOrPoints(c)
    ensures DigitsAndDotsToNumber(a + "." + b + "." + c) == None
  {
    var s := a + "." + b + "." + c;
    assert s == a + ("." + b + "." + c);
    DigitRunOf(a, "." + b + "." + c);
    assert s[|a| + 1..] == b + "." + c;
    assert (b + "." + c)[|b|] == '.';
  }

  /** A second point, and any further ones, make a scaled duration NaN. */
  lemma TwoPointsIsNaN(a: string, b: string, c: string)
    requires AllDigits(a) && AllDigits(b) && AllDigitsOrPoints(c)
    ensures TimeToMS(a + "." + b + "." + c + "s") == NotANumber
  {
    var d := a + "." + b + "." + c;
    assert AllDigitsOrPoints(d);
    TimeOfUnit(d);
    NumberWithTwoPoints(a, b, c);
  }

  /** A point without digits is NaN. */
  lemma LonePointIsNaN()
    ensures TimeToMS(".min") == NotANumber
  {
    DigitsAndPointsOf(".", "min");
    assert "." + "min" == ".min";
    assert ".min"[1..] == "min";
    assert DigitRun(".") == "";
    assert DigitsAndDotsToNumber(".") == None;
  }

  /** Anything that is not digits and points followed by exactly one unit is 0. */
  lemma UnknownUnitIsZero()
    ensures TimeToMS("5sec") == Millis(0.0)
    ensures TimeToMS("") == Millis(0.0)
    ensures TimeToMS("2 s") == Millis(0.0)
  {
    assert DigitsAndPoints("5sec") == "5";
    assert "5sec"[1..] == "sec";
    assert DigitsAndPoints("2 s") == "2";
    assert "2 s"[1..] == " s";
  }
}
