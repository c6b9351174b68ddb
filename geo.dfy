/**
 * Geographic helpers: distance-to-walking-time conversion and the parser for
 * GTFS time-of-day strings ("HH:MM:SS", hours may exceed 24).
 */
module Geo {
  import opened Wrappers

  /** Brisk walking speed, in kilometres per hour. */
  const WalkSpeedKmh: real := 4.8

  /**
   * A great-circle distance in kilometres between (lat1, lon1) and (lat2, lon2).
   * The haversine formula itself is floating-point trigonometry and is not
   * modelled: the engine receives the distance as a function value.
   */
  type DistanceFn = (real, real, real, real) -> real

  /** Minutes needed to walk `distanceKm` at `speedKmh`; zero for a non-positive distance. */
  function WalkingMinutes(distanceKm: real, speedKmh: real): (r: real)
    requires speedKmh != 0.0
    ensures distanceKm <= 0.0 ==> r == 0.0
    ensures distanceKm > 0.0 ==> r * speedKmh == distanceKm * 60.0
    ensures speedKmh > 0.0 ==> r >= 0.0
    ensures distanceKm > 0.0 && speedKmh > 0.0 ==> r > 0.0
  {
    if distanceKm <= 0.0 then 0.0 else (distanceKm / speedKmh) * 60.0
  }

  /** At a fixed positive speed, walking a longer distance never takes less time. */
  lemma WalkingMinutesMonotone(d1: real, d2: real, speedKmh: real)
    requires speedKmh > 0.0 && d1 <= d2
    ensures WalkingMinutes(d1, speedKmh) <= WalkingMinutes(d2, speedKmh)
  {
    if d1 > 0.0 {
      var w1, w2 := WalkingMinutes(d1, speedKmh), WalkingMinutes(d2, speedKmh);
      assert w1 * speedKmh == d1 * 60.0 && w2 * speedKmh == d2 * 60.0;
      CancelPositive(w1, w2, speedKmh);
    }
  }

  lemma CancelPositive(a: real, b: real, c: real)
    requires c > 0.0 && a * c <= b * c
    ensures a <= b
  {
  }

  /** At the default speed, 4.8 km takes exactly an hour. */
  lemma WalkingAnHour()
    ensures WalkingMinutes(4.8, WalkSpeedKmh) == 60.0
  {
  }

  // ---------------------------------------------------------------------
  // parseTimeToMinutes

  /** JavaScript's `s.split(':')`: the pieces between colons, at least one. */
  function Split(s: string): (parts: seq<string>)
    ensures |parts| >= 1
  {
    if |s| == 0 then [""]
    else if s[0] == ':' then [""] + Split(s[1..])
    else
      var rest := Split(s[1..]);
      [[s[0]] + rest[0]] + rest[1..]
  }

  predicate IsDigit(c: char) { '0' <= c <= '9' }

  /** A string of decimal digits only (leading zeros allowed, possibly empty). */
  predicate AllDigits(s: string) {
    forall i :: 0 <= i < |s| ==> IsDigit(s[i])
  }

  function DigitsValue(s: string): nat
    requires AllDigits(s)
  {
    if |s| == 0 then 0
    else
      assert IsDigit(s[|s| - 1]);
      DigitsValue(s[..|s| - 1]) * 10 + (s[|s| - 1] as int - '0' as int)
  }

  /**
   * JavaScript's `Number(s)` on a time component, for strings of decimal
   * digits (the empty string is 0). Any other string is `None`, standing for NaN.
   */
  function NumberOf(s: string): (r: Option<real>)
    ensures r.Some? ==> r.value >= 0.0
  {
    if AllDigits(s) then Some(DigitsValue(s) as real) else None
  }

  /**
   * `parseTimeToMinutes`: hours * 60 + minutes + seconds / 60, with missing
   * trailing components read as "0", components after the third ignored, and
   * no wrapping of hours past 24. `None` stands for a NaN result.
   */
  function ParseTimeToMinutes(value: string): (r: Option<real>)
    ensures r.Some? ==> r.value >= 0.0
  {
    ComponentsToMinutes(Split(value))
  }

  /** The arithmetic on the colon-separated pieces of a time string. */
  function ComponentsToMinutes(parts: seq<string>): (r: Option<real>)
    requires |parts| >= 1
    ensures r.Some? ==> r.value >= 0.0
  {
    var h := parts[0];
    var m := if |parts| > 1 then parts[1] else "0";
    var s := if |parts| > 2 then parts[2] else "0";
    match (NumberOf(h), NumberOf(m), NumberOf(s))
    case (Some(hv), Some(mv), Some(sv)) => Some(hv * 60.0 + mv + sv / 60.0)
    case _ => None
  }

  /** The first three pieces (those that exist) are digit strings. */
  predicate LeadingDigits(p: seq<string>) {
    forall i :: 0 <= i < |p| && i < 3 ==> AllDigits(p[i])
  }

  /** A time is NaN exactly when one of its first three pieces is not a digit string. */
  lemma ParseTimeDefined(value: string)
    ensures ParseTimeToMinutes(value).Some? <==> LeadingDigits(Split(value))
  {
    var p := Split(value);
    if LeadingDigits(p) {
      ComponentsSome(p);
    } else {
      var i :| 0 <= i < |p| && i < 3 && !AllDigits(p[i]);
      ComponentsNaN(p, i);
    }
  }

  lemma ComponentsSome(p: seq<string>)
    requires |p| >= 1 && forall i :: 0 <= i < |p| && i < 3 ==> AllDigits(p[i])
    ensures ComponentsToMinutes(p).Some?
  {
    ZeroComponent();
    assert AllDigits(p[0]);
    assert |p| > 1 ==> AllDigits(p[1]);
    assert |p| > 2 ==> AllDigits(p[2]);
  }

  lemma ComponentsNaN(p: seq<string>, i: nat)
    requires i < |p| && i < 3 && !AllDigits(p[i])
    ensures ComponentsToMinutes(p) == None
  {
    assert NumberOf(p[i]) == None;
  }

  /** The decimal digits of `n`, most significant first, without leading zeros. */
  function Digits(n: nat): (s: string)
    ensures |s| >= 1
    ensures AllDigits(s)
  {
    if n < 10 then [('0' as int + n) as char]
    else Digits(n / 10) + [('0' as int + n % 10) as char]
  }

  lemma {:induction false} DigitsRoundTrip(n: nat)
    ensures DigitsValue(Digits(n)) == n
  {
    if n >= 10 {
      var s := Digits(n);
      assert s[..|s| - 1] == Digits(n / 10);
      DigitsRoundTrip(n / 10);
    }
  }

  lemma NumberOfDigits(n: nat)
    ensures NumberOf(Digits(n)) == Some(n as real)
  {
    DigitsRoundTrip(n);
  }

  /** A string without colons splits into itself. */
  lemma {:induction false} SplitNoColon(a: string)
    requires NoColon(a)
    ensures Split(a) == [a]
  {
    if |a| > 0 {
      SplitNoColon(a[1..]);
      assert [a[0]] + a[1..] == a;
    }
  }

  /** Splitting at the first colon. */
  lemma {:induction false} SplitAtColon(a: string, b: string)
    requires NoColon(a)
    ensures Split(a + ":" + b) == [a] + Split(b)
  {
    if |a| == 0 {
      assert a + ":" + b == [':'] + b;
      assert (a + ":" + b)[1..] == b;
    } else {
      assert (a + ":" + b)[1..] == a[1..] + ":" + b;
      SplitAtColon(a[1..], b);
      assert [a[0]] + a[1..] == a;
    }
  }

  /** No colon in `s`. */
  ghost predicate NoColon(s: string) {
    forall i :: 0 <= i < |s| ==> s[i] != ':'
  }

  lemma DigitsNoColon(s: string)
    requires AllDigits(s)
    ensures NoColon(s)
  {
    forall i | 0 <= i < |s| ensures s[i] != ':' {
      assert IsDigit(s[i]);
    }
  }

  lemma SplitThree(a: string, b: string, c: string)
    requires NoColon(a) && NoColon(b)
    ensures Split(a + ":" + b + ":" + c) == [a, b] + Split(c)
  {
    assert a + ":" + b + ":" + c == a + ":" + (b + ":" + c);
    SplitAtColon(a, b + ":" + c);
    SplitAtColon(b, c);
  }

  /** Three or more pieces, the first three digit strings. */
  lemma ComponentsOfDigits(parts: seq<string>)
    requires |parts| >= 3 && AllDigits(parts[0]) && AllDigits(parts[1]) && AllDigits(parts[2])
    ensures ComponentsToMinutes(parts)
         == Some(DigitsValue(parts[0]) as real * 60.0 + DigitsValue(parts[1]) as real + DigitsValue(parts[2]) as real / 60.0)
  {
  }

  lemma SplitFull(h: string, m: string, s: string)
    requires AllDigits(h) && AllDigits(m) && AllDigits(s)
    ensures Split(h + ":" + m + ":" + s) == [h, m, s]
  {
    DigitsNoColon(h); DigitsNoColon(m); DigitsNoColon(s);
    SplitThree(h, m, s);
    SplitNoColon(s);
  }

  lemma SplitExtra(h: string, m: string, s: string, rest: string)
    requires AllDigits(h) && AllDigits(m) && AllDigits(s)
    ensures Split(h + ":" + m + ":" + s + ":" + rest) == [h, m, s] + Split(rest)
  {
    DigitsNoColon(h); DigitsNoColon(m); DigitsNoColon(s);
    assert h + ":" + m + ":" + s + ":" + rest == h + ":" + m + ":" + (s + ":" + rest);
    SplitThree(h, m, s + ":" + rest);
    SplitAtColon(s, rest);
  }

  /**
   * A full "H:M:S" time, for any digit strings (zero padding included), is
   * H*60 + M + S/60, with no wrapping of hours.
   */
  lemma ParseTimeFull(h: string, m: string, s: string)
    requires AllDigits(h) && AllDigits(m) && AllDigits(s)
    ensures ParseTimeToMinutes(h + ":" + m + ":" + s)
         == Some(DigitsValue(h) as real * 60.0 + DigitsValue(m) as real + DigitsValue(s) as real / 60.0)
  {
    ParseTimeThree(h, m, s);
    ComponentsOfThree(h, m, s);
  }

  lemma ComponentsOfThree(h: string, m: string, s: string)
    requires AllDigits(h) && AllDigits(m) && AllDigits(s)
    ensures ComponentsToMinutes([h, m, s])
         == Some(DigitsValue(h) as real * 60.0 + DigitsValue(m) as real + DigitsValue(s) as real / 60.0)
  {
    ComponentsOfDigits([h, m, s]);
  }

  lemma ParseTimeThree(h: string, m: string, s: string)
    requires AllDigits(h) && AllDigits(m) && AllDigits(s)
    ensures ParseTimeToMinutes(h + ":" + m + ":" + s) == ComponentsToMinutes([h, m, s])
  {
    SplitFull(h, m, s);
  }

  /** Components after the third are ignored, whatever they hold. */
  lemma ParseTimeIgnoresExtra(h: string, m: string, s: string, rest: string)
    requires AllDigits(h) && AllDigits(m) && AllDigits(s)
    ensures ParseTimeToMinutes(h + ":" + m + ":" + s + ":" + rest)
         == Some(DigitsValue(h) as real * 60.0 + DigitsValue(m) as real + DigitsValue(s) as real / 60.0)
  {
    SplitExtra(h, m, s, rest);
    ComponentsOfDigits([h, m, s] + Split(rest));
  }

  /** "H" alone is H hours: the minutes and seconds default to zero. */
  lemma ParseTimeHoursOnly(h: string)
    requires AllDigits(h)
    ensures ParseTimeToMinutes(h) == Some(DigitsValue(h) as real * 60.0)
  {
    DigitsNoColon(h);
    SplitNoColon(h);
    HoursOnlyComponents(h);
  }

  lemma HoursOnlyComponents(h: string)
    requires AllDigits(h)
    ensures ComponentsToMinutes([h]) == Some(DigitsValue(h) as real * 60.0)
  {
    ZeroComponent();
    assert [h][0] == h && |[h]| == 1;
  }

  /** "H:M" is H hours and M minutes: the seconds default to zero. */
  lemma ParseTimeHoursMinutes(h: string, m: string)
    requires AllDigits(h) && AllDigits(m)
    ensures ParseTimeToMinutes(h + ":" + m) == Some(DigitsValue(h) as real * 60.0 + DigitsValue(m) as real)
  {
    var value := h + ":" + m;
    DigitsNoColon(h); DigitsNoColon(m);
    SplitAtColon(h, m);
    SplitNoColon(m);
    assert Split(value) == [h, m];
    HoursMinutesComponents(h, m);
  }

  lemma HoursMinutesComponents(h: string, m: string)
    requires AllDigits(h) && AllDigits(m)
    ensures ComponentsToMinutes([h, m]) == Some(DigitsValue(h) as real * 60.0 + DigitsValue(m) as real)
  {
    ZeroComponent();
    assert [h, m][0] == h && [h, m][1] == m && |[h, m]| == 2;
  }

  lemma ZeroComponent()
    ensures NumberOf("0") == Some(0.0)
  {
    assert "0"[..0] == [];
  }

  /** "25:10:00" is 1510 minutes: the hour is not wrapped at 24. */
  lemma ParseTimePastMidnight()
    ensures ParseTimeToMinutes("25:10:00") == Some(1510.0)
  {
    assert "25:10:00" == "25" + ":" + "10" + ":" + "00";
    TwoDigits('2', '5'); TwoDigits('1', '0'); TwoDigits('0', '0');
    ParseTimeFull("25", "10", "00");
  }

  /** A zero-padded timetable time: "08:05:30" is 485.5 minutes. */
  lemma ParseTimePadded()
    ensures ParseTimeToMinutes("08:05:30") == Some(485.5)
  {
    assert "08:05:30" == "08" + ":" + "05" + ":" + "30";
    TwoDigits('0', '8'); TwoDigits('0', '5'); TwoDigits('3', '0');
    ParseTimeFull("08", "05", "30");
  }

  lemma TwoDigits(a: char, b: char)
    requires IsDigit(a) && IsDigit(b)
    ensures AllDigits([a, b])
    ensures DigitsValue([a, b]) == (a as int - '0' as int) * 10 + (b as int - '0' as int)
  {
    assert [a, b][..1] == [a];
    assert AllDigits([a]);
    assert DigitsValue([a]) == a as int - '0' as int by {
      assert [a][..0] == [];
    }
  }
}
