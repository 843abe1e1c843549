/**
 * `toPrometheusTime`: a duration in milliseconds rendered as a Prometheus range duration such as
 * `1d3h5m30s`, after rounding to whole seconds.
 */
module Time {
  import opened Strings
  import opened Wrappers

  /** `Math.round(ms / 1000)`: the nearest whole second, a half second rounding up. */
  function RoundedSeconds(ms: int): (s: int)
    ensures s * 1000 - 500 <= ms < s * 1000 + 500
  {
    (ms + 500) / 1000
  }

  /** JavaScript's `a % b`, whose remainder takes the sign of `a` (Dafny's `%` never is negative). */
  function JsRem(a: int, b: int): (r: int)
    requires b > 0
  {
    if a >= 0 then a % b else -((-a) % b)
  }

  /** A count of one unit: days `d`, hours `h`, minutes `m` or seconds `s`. */
  datatype Component = Component(amount: int, unit: char)

  /** The unit letters a rendering uses. */
  predicate IsUnit(unit: char) { unit == 'd' || unit == 'h' || unit == 'm' || unit == 's' }

  /** `n` units in seconds. */
  function InSeconds(n: int, unit: char): int
    requires IsUnit(unit)
  {
    match unit
    case 'd' => n * 86400
    case 'h' => n * 3600
    case 'm' => n * 60
    case 's' => n
  }

  predicate ValidUnits(cs: seq<Component>) { forall k :: 0 <= k < |cs| ==> IsUnit(cs[k].unit) }

  /** The number of seconds a list of components stands for. */
  function Total(cs: seq<Component>): int
    requires ValidUnits(cs)
  {
    if cs == [] then 0 else InSeconds(cs[0].amount, cs[0].unit) + Total(cs[1..])
  }

  /**
   * The four components the source computes, in the order it prints them: seconds and minutes
   * are remainders modulo 60 and hours modulo 24 (with JavaScript's `%`), the quotients are taken
   * with `Math.floor`, and days are what is left.
   */
  function Decompose(ms: int): (cs: seq<Component>)
    ensures |cs| == 4 && ValidUnits(cs)
    ensures cs[0].unit == 'd' && cs[1].unit == 'h' && cs[2].unit == 'm' && cs[3].unit == 's'
  {
    var total := RoundedSeconds(ms);
    var minutesTotal := total / 60;
    var hoursTotal := minutesTotal / 60;
    [ Component(hoursTotal / 24, 'd'), Component(JsRem(hoursTotal, 24), 'h'),
      Component(JsRem(minutesTotal, 60), 'm'), Component(JsRem(total, 60), 's') ]
  }

  /** One printed component: the number and its unit letter, or nothing when the number is not positive. */
  function Part(c: Component): string
  {
    if c.amount > 0 then NatToString(c.amount) + [c.unit] else ""
  }

  /** The printed components, in order. */
  function Render(cs: seq<Component>): string
  {
    if cs == [] then "" else Part(cs[0]) + Render(cs[1..])
  }

  /** `toPrometheusTime(ms)`. */
  function ToPrometheusTime(ms: int): string
  {
    Render(Decompose(ms))
  }

  /**
   * For a duration that rounds to a non-negative number of seconds the components are in range
   * (seconds and minutes below 60, hours below 24, days unbounded) and recompose to that number.
   */
  lemma DecomposeRecompose(ms: int)
    requires RoundedSeconds(ms) >= 0
    ensures var cs := Decompose(ms);
      && 0 <= cs[3].amount < 60 && 0 <= cs[2].amount < 60 && 0 <= cs[1].amount < 24 && 0 <= cs[0].amount
      && Total(cs) == RoundedSeconds(ms)
  {
    var total := RoundedSeconds(ms);
    var minutesTotal := total / 60;
    var hoursTotal := minutesTotal / 60;
    var cs := Decompose(ms);
    var d, h, m, s := cs[0].amount, cs[1].amount, cs[2].amount, cs[3].amount;
    assert total == minutesTotal * 60 + s;
    assert minutesTotal == hoursTotal * 60 + m;
    assert hoursTotal == d * 24 + h;
    assert cs[3..] == [cs[3]] && cs[2..][1..] == cs[3..] && cs[1..][1..] == cs[2..] && cs[1..] == cs[1..];
    assert Total(cs[3..]) == s by {
      assert cs[3..][1..] == [];
    }
    calc {
      Total(cs);
      d * 86400 + Total(cs[1..]);
      d * 86400 + h * 3600 + Total(cs[2..]);
      d * 86400 + h * 3600 + m * 60 + Total(cs[3..]);
      d * 86400 + h * 3600 + m * 60 + s;
      ((d * 24 + h) * 60 + m) * 60 + s;
      total;
    }
  }

  /** A rendering is empty exactly when no component is positive. */
  lemma {:induction false} RenderEmptyIff(cs: seq<Component>)
    ensures Render(cs) == "" <==> forall k :: 0 <= k < |cs| ==> cs[k].amount <= 0
  {
    if cs != [] {
      RenderEmptyIff(cs[1..]);
      assert forall k :: 1 <= k < |cs| ==> cs[k] == cs[1..][k - 1];
      if cs[0].amount > 0 {
        assert |Part(cs[0])| > 0;
      }
    }
  }

  /**
   * The rendering is empty exactly when the duration rounds to zero seconds or less: the source's
   * `res ?? '0s'` never supplies `0s`, because `res` is a string and never `null`.
   */
  lemma EmptyIffNotPositive(ms: int)
    ensures ToPrometheusTime(ms) == "" <==> RoundedSeconds(ms) <= 0
  {
    var cs := Decompose(ms);
    RenderEmptyIff(cs);
    if RoundedSeconds(ms) > 0 {
      DecomposeRecompose(ms);
      assert exists k :: 0 <= k < 4 && cs[k].amount > 0 by {
        if cs[0].amount <= 0 && cs[1].amount <= 0 && cs[2].amount <= 0 {
          assert cs[3].amount > 0;
        }
      }
    } else {
      var total := RoundedSeconds(ms);
      assert total / 60 <= 0 && total / 60 / 60 <= 0;
    }
  }

  // ---------------------------------------------------------------------------------------------
  // Reading a duration string back
  // ---------------------------------------------------------------------------------------------

  /**
   * The number of seconds a duration string of numerals each followed by `d`, `h`, `m` or `s`
   * denotes; `None` when the string is not of that form. The empty string denotes zero.
   */
  function ParseDuration(s: string): Option<int>
    decreases |s|
  {
    if s == [] then Some(0)
    else
      var k := DigitRun(s);
      if k == 0 || k == |s| || !IsUnit(s[k]) then None
      else match ParseDuration(s[k + 1..])
        case None => None
        case Some(rest) => Some(InSeconds(DigitsValue(s[..k]), s[k]) + rest)
  }

  /** One step of `ParseDuration`: a numeral, a unit letter, then the rest of the string. */
  lemma ParseStep(s: string, rest: string, t: int)
    requires DigitRun(s) > 0 && DigitRun(s) < |s| && IsUnit(s[DigitRun(s)])
    requires s[DigitRun(s) + 1..] == rest && ParseDuration(rest) == Some(t)
    ensures ParseDuration(s) == Some(InSeconds(DigitsValue(s[..DigitRun(s)]), s[DigitRun(s)]) + t)
  {
  }

  lemma SliceAroundUnit(digits: string, unit: char, rest: string)
    ensures var s := digits + ([unit] + rest);
      s[..|digits|] == digits && s[|digits|] == unit && s[|digits| + 1..] == rest
  {
  }

  /** Reading a numeral and a unit letter off the front of a duration string. */
  lemma ParseNumeralUnit(digits: string, unit: char, rest: string, t: int)
    requires digits != [] && AllDigits(digits) && IsUnit(unit)
    requires ParseDuration(rest) == Some(t)
    ensures ParseDuration(digits + ([unit] + rest)) == Some(InSeconds(DigitsValue(digits), unit) + t)
  {
    var s := digits + ([unit] + rest);
    DigitRunOfNumeral(digits, [unit] + rest);
    SliceAroundUnit(digits, unit, rest);
    ParseStep(s, rest, t);
  }

  /** Reading a printed positive number and a unit letter off the front of a duration string. */
  lemma ParseNumeral(n: int, unit: char, rest: string, t: int)
    requires n > 0 && IsUnit(unit) && ParseDuration(rest) == Some(t)
    ensures ParseDuration((NatToString(n) + [unit]) + rest) == Some(InSeconds(n, unit) + t)
  {
    var digits := NatToString(n);
    NatToStringRoundTrip(n);
    ParseNumeralUnit(digits, unit, rest, t);
    assert (digits + [unit]) + rest == digits + ([unit] + rest);
  }

  /** Reading one printed component off the front of a duration string. */
  lemma ParsePart(c: Component, rest: string, t: int, s: string)
    requires c.amount >= 0 && IsUnit(c.unit)
    requires ParseDuration(rest) == Some(t) && s == Part(c) + rest
    ensures ParseDuration(s) == Some(InSeconds(c.amount, c.unit) + t)
  {
    if c.amount > 0 {
      ParseNumeral(c.amount, c.unit, rest, t);
    } else {
      assert s == rest;
    }
  }

  /** Reading back the rendering of non-negative components gives the seconds they stand for. */
  lemma {:induction false} RenderParse(cs: seq<Component>)
    requires ValidUnits(cs) && forall k :: 0 <= k < |cs| ==> cs[k].amount >= 0
    ensures ParseDuration(Render(cs)) == Some(Total(cs))
  {
    if cs != [] {
      var tail := cs[1..];
      assert forall k :: 0 <= k < |tail| ==> tail[k] == cs[k + 1];
      RenderParse(tail);
      RenderParseCons(cs);
    }
  }

  /** One step of `RenderParse`: the first component, then the rest of the rendering. */
  lemma RenderParseCons(cs: seq<Component>)
    requires cs != [] && ValidUnits(cs) && cs[0].amount >= 0
    requires ParseDuration(Render(cs[1..])) == Some(Total(cs[1..]))
    ensures ParseDuration(Render(cs)) == Some(Total(cs))
  {
    var t := Total(cs[1..]);
    assert Total(cs) == InSeconds(cs[0].amount, cs[0].unit) + t;
    ParsePart(cs[0], Render(cs[1..]), t, Render(cs));
  }

  /**
   * Round trip: for a duration that rounds to a non-negative number of seconds, reading the
   * rendered string back gives that number of seconds.
   */
  lemma RenderParseRoundTrip(ms: int)
    requires RoundedSeconds(ms) >= 0
    ensures ParseDuration(ToPrometheusTime(ms)) == Some(RoundedSeconds(ms))
  {
    DecomposeRecompose(ms);
    RenderParse(Decompose(ms));
  }

  /** Four components in printing order, for the examples below. */
  function D4(d: int, h: int, m: int, s: int): seq<Component>
  {
    [Component(d, 'd'), Component(h, 'h'), Component(m, 'm'), Component(s, 's')]
  }

  /** The worked examples: a day, an hour, a minute and a second; 59 seconds; one hour. */
  lemma Examples()
    ensures ToPrometheusTime(90061000) == "1d1h1m1s"
    ensures ToPrometheusTime(59000) == "59s"
    ensures ToPrometheusTime(3600000) == "1h"
  {
    assert NatToString(1) == "1";
    assert Decompose(90061000) == D4(1, 1, 1, 1);
    assert NatToString(59) == "59" by {
      assert NatToString(5) == "5";
    }
    assert Decompose(59000) == D4(0, 0, 0, 59);
    assert Decompose(3600000) == D4(0, 1, 0, 0);
  }

  /** Half a second rounds up, anything less rounds down, and zero renders as the empty string. */
  lemma RoundingExamples()
    ensures ToPrometheusTime(1499) == "1s" && ToPrometheusTime(1500) == "2s"
    ensures ToPrometheusTime(0) == "" && ToPrometheusTime(499) == ""
  {
    assert NatToString(1) == "1";
    assert NatToString(2) == "2";
    assert Decompose(1499) == D4(0, 0, 0, 1);
    assert Decompose(1500) == D4(0, 0, 0, 2);
    assert Decompose(499) == D4(0, 0, 0, 0);
  }
}
