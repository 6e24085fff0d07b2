/**
  Wall-clock time of day at minute granularity. The generator reads its start
  with `datetime.strptime(_, "%H:%M")`, adds `timedelta(minutes=_)` and prints
  with `strftime("%H:%M")`; since only hour and minute are ever printed, the
  clock is minutes since midnight and every sum wraps modulo one day.
 */
module Clock {
  import opened Wrappers
  import opened Text

  const MinutesPerDay: int := 1440

  /** Minutes since midnight: 00:00 is 0, 23:59 is 1439. */
  type Minute = m: int | 0 <= m < MinutesPerDay

  /** The time of day `d` minutes after `t` (before it when `d` is negative). */
  function Advance(t: Minute, d: int): Minute {
    (t + d) % MinutesPerDay
  }

  /** A move that stays within the same day is plain addition: no wrapping. */
  lemma AdvanceWithinDay(t: Minute, d: int)
    requires 0 <= t + d < MinutesPerDay
    ensures Advance(t, d) == t + d
  {
  }

  /**
    `Advance(t, d)` is the one time of day congruent to `t + d` modulo a day:
    a run past midnight wraps with no day marker, and nothing else is lost.
   */
  lemma AdvanceCongruent(t: Minute, d: int, m: Minute)
    ensures m == Advance(t, d) <==> (t + d - m) % MinutesPerDay == 0
  {
    var q := (t + d) / MinutesPerDay;
    assert t + d == MinutesPerDay * q + Advance(t, d);
    if (t + d - m) % MinutesPerDay == 0 {
      var k := (t + d - m) / MinutesPerDay;
      assert m - Advance(t, d) == MinutesPerDay * (q - k);
    } else {
      assert (t + d - Advance(t, d)) == MinutesPerDay * q;
    }
  }

  /** Advancing by `a` and then by `b` is advancing by `a + b`: wrapping loses nothing. */
  lemma AdvanceAdd(t: Minute, a: int, b: int)
    ensures Advance(Advance(t, a), b) == Advance(t, a + b)
  {
    var m := Advance(t, a);
    var q := (t + a) / MinutesPerDay;
    assert m == t + a - MinutesPerDay * q;
    assert m + b == (t + a + b) + MinutesPerDay * (-q);
    ModShift(t + a + b, -q);
  }

  lemma ModShift(x: int, q: int)
    ensures (x + MinutesPerDay * q) % MinutesPerDay == x % MinutesPerDay
  {
  }

  // ---------------------------------------------------------------------------
  // strftime("%H:%M") and strptime(_, "%H:%M")
  // ---------------------------------------------------------------------------

  /** `strftime("%H:%M")`: two-digit hour, a colon, two-digit minute. */
  function FormatHHMM(t: Minute): (s: string)
    ensures |s| == 5 && s[2] == ':' && AllDigits(s[..2]) && AllDigits(s[3..])
    ensures DigitsValue(s[..2]) == t / 60 && DigitsValue(s[3..]) == t % 60
  {
    var s := [DigitChar(t / 600), DigitChar(t / 60 % 10), ':', DigitChar(t % 60 / 10), DigitChar(t % 10)];
    TwoDigits(s[..2]);
    TwoDigits(s[3..]);
    s
  }

  lemma TwoDigits(s: string)
    requires |s| == 2 && AllDigits(s)
    ensures DigitsValue(s) == 10 * DigitValue(s[0]) + DigitValue(s[1])
  {
    var first := s[..1];
    assert first[..0] == [] && first[0] == s[0];
    assert DigitsValue(first) == DigitValue(s[0]);
  }

  /**
    `strptime(s, "%H:%M")` reduced to the time of day: an hour of one or two
    digits below 24, a colon, a minute of one or two digits below 60, and
    nothing after; any other text is a `ValueError`.
   */
  function ParseHHMM(s: string): (r: Option<Minute>)
    ensures r.Some? ==> 3 <= |s| <= 5 && ':' in s
  {
    if |s| < 3 || |s| > 5 then None
    else
      var colon := if s[1] == ':' then 1 else 2;
      var hh, mm := s[..colon], s[colon + 1..];
      if s[colon] == ':' && 1 <= |mm| <= 2 && AllDigits(hh) && AllDigits(mm)
         && DigitsValue(hh) < 24 && DigitsValue(mm) < 60
      then Some(60 * DigitsValue(hh) + DigitsValue(mm))
      else None
  }

  /** Reading back what `strftime` printed gives the same time of day. */
  lemma ParseFormat(t: Minute)
    ensures ParseHHMM(FormatHHMM(t)) == Some(t)
  {
    var s := FormatHHMM(t);
    assert s[1] != ':';
    assert s[3..] == s[2 + 1..];
  }

  /** A five-character text `strptime` accepts is exactly what `strftime` prints for its time. */
  lemma FormatParse(s: string)
    requires |s| == 5 && ParseHHMM(s).Some?
    ensures FormatHHMM(ParseHHMM(s).value) == s
  {
    assert s[1] != ':' && s[2] == ':';
    TwoDigits(s[..2]);
    TwoDigits(s[3..]);
    var h1, h0, m1, m0 := DigitValue(s[0]), DigitValue(s[1]), DigitValue(s[3]), DigitValue(s[4]);
    var t := ParseHHMM(s).value;
    assert t == 600 * h1 + 60 * h0 + 10 * m1 + m0;
    assert m1 < 6;
    DigitsOfTime(t, h1, h0, m1, m0);
    DigitCharValue(s[0]);
    DigitCharValue(s[1]);
    DigitCharValue(s[3]);
    DigitCharValue(s[4]);
  }

  /** The four digits `strftime` prints are those of the hour and the minute. */
  lemma DigitsOfTime(t: Minute, h1: nat, h0: nat, m1: nat, m0: nat)
    requires h0 < 10 && m1 < 6 && m0 < 10
    requires t == 600 * h1 + 60 * h0 + 10 * m1 + m0
    ensures t / 600 == h1 && t / 60 % 10 == h0 && t % 60 / 10 == m1 && t % 10 == m0
  {
    assert t / 60 == 10 * h1 + h0;
    assert t % 60 == 10 * m1 + m0;
  }

  lemma DigitCharValue(c: char)
    requires IsDigit(c)
    ensures DigitChar(DigitValue(c)) == c
  {
  }
}
