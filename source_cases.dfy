/**
 * The durations src/04_timedelta.py converts at lines 59-63 and 80-85
 * (one day, minus one day, a day and a half plus 500 microseconds), and
 * minus seven hours as in src/02_timezones.py: the text `str(td)` gives
 * for each, and that `strptimedelta` reads each one back.
 */
module SourceCases {
  import opened Wrappers
  import opened Text
  import opened Decimals
  import opened TimeDelta
  import opened DurationCodec
  import opened FormatProperties
  import opened RoundTrip

  /** The normalised fields of a duration given as whole days, seconds within the day and microseconds. */
  lemma FieldsOf(d: Duration, days: int, seconds: nat, micros: nat)
    requires seconds < SecondsPerDay && micros < MicrosPerSecond
    requires d.micros == days * MicrosPerDay + seconds * MicrosPerSecond + micros
    ensures d.Days() == days && d.Seconds() == seconds && d.Microseconds() == micros
  {
    var r := seconds * MicrosPerSecond + micros;
    DivModUnique(d.micros, MicrosPerDay, days, r);
    DivModUnique(r, MicrosPerSecond, seconds, micros);
    DivModUnique(d.micros, MicrosPerSecond, days * SecondsPerDay + seconds, micros);
  }

  /* ---------- the literal texts ---------- */

  lemma OneDigit(n: nat)
    requires n < 10
    ensures NatToDigits(n) == [DigitChar(n)]
  {
  }

  lemma TwoDigits(n: nat)
    requires 10 <= n < 100
    ensures NatToDigits(n) == [DigitChar(n / 10), DigitChar(n % 10)]
  {
    OneDigit(n / 10);
  }

  /** The clock of `str(td)` is the unpadded hours, two-digit minutes and the seconds text. */
  lemma ClockOfFields(seconds: nat, micros: nat, h: nat, m: nat, s: nat)
    requires m < 60 && s < 60 && seconds == h * 3600 + m * 60 + s
    ensures Clock(seconds, micros) == NatToDigits(h) + ":" + ZeroPad(m, 2) + ":" + SecondsText(s, micros)
  {
    var minutes := h * 60 + m;
    assert seconds == minutes * 60 + s;
    DivModUnique(seconds, 60, minutes, s);
    DivModUnique(minutes, 60, h, m);
  }

  /** Midnight is `0:00:00`: the hours of `str(td)` are not padded. */
  lemma ClockMidnight(seconds: nat, micros: nat)
    requires seconds == 0 && micros == 0
    ensures Clock(seconds, micros) == "0:00:00"
  {
    // Hours, minutes and seconds are all zero. A bound variable rather than
    // the literal keeps the solver from unfolding the numerals of 0.
    var zero: nat := seconds;
    ClockOfFields(seconds, micros, zero, zero, zero);
    OneDigit(zero);
    PadTwoDigits(zero);
    ClockTextJoin(NatToDigits(zero), ZeroPad(zero, 2), SecondsText(zero, micros), "0", "00", "00");
  }

  lemma ClockTextJoin(h: string, m: string, s: string, h': string, m': string, s': string)
    requires h == h' && m == m' && s == s'
    ensures h + ":" + m + ":" + s == h' + ":" + m' + ":" + s'
  {
  }

  /** Noon and 500 microseconds is `12:00:00.000500`: six fraction digits, zero-padded. */
  lemma ClockNoon(seconds: nat, micros: nat)
    requires seconds == 43200 && micros == 500
    ensures Clock(seconds, micros) == "12:00:00.000500"
  {
    ClockOfFields(seconds, micros, 12, 0, 0);
    TwoDigits(12);
    PadTwoDigits(0);
    SecondsWithMicros(0, micros);
    NoonText(NatToDigits(12), ZeroPad(0, 2), SecondsText(0, micros));
  }

  lemma NoonText(h: string, m: string, s: string)
    requires h == "12" && m == "00" && s == "00.000500"
    ensures h + ":" + m + ":" + s == "12:00:00.000500"
  {
  }

  lemma SecondsWithMicros(ss: nat, micros: nat)
    requires ss == 0 && micros == 500
    ensures SecondsText(ss, micros) == "00.000500"
  {
    PadTwoDigits(ss);
    MicrosText(micros);
  }

  lemma MicrosText(n: nat)
    requires n == 500
    ensures ZeroPad(n, 6) == "000500"
  {
    OneDigit(5);
    assert NatToDigits(50) == "50";
    assert NatToDigits(500) == "500";
    assert Zeros(3) == "000";
  }

  /** Five in the afternoon is `17:00:00`. */
  lemma ClockSeventeen(seconds: nat, micros: nat)
    requires seconds == 61200 && micros == 0
    ensures Clock(seconds, micros) == "17:00:00"
  {
    ClockOfFields(seconds, micros, 17, 0, 0);
    TwoDigits(17);
    PadTwoDigits(0);
  }

  /** The day prefix: `day,` for one day either way, `days,` for more. */
  lemma DayWords(clock: string)
    requires |clock| >= 1
    ensures WithDays(1, clock) == "1 day, " + clock
    ensures WithDays(-1, clock) == "-1 day, " + clock
    ensures WithDays(2, clock) == "2 days, " + clock
  {
    OneDigit(1);
    OneDigit(2);
  }

  /* ---------- the examples ---------- */

  /** `str(timedelta(1))` is `1 day, 0:00:00`. */
  lemma OneDay(d: Duration)
    requires d.micros == MicrosPerDay
    ensures Render(d) == "1 day, 0:00:00"
  {
    FieldsOf(d, 1, 0, 0);
    var clock := Clock(d.Seconds(), d.Microseconds());
    ClockMidnight(d.Seconds(), d.Microseconds());
    assert Render(d) == WithDays(1, clock);
    DayWords(clock);
    OneDayText("1 day, ", clock);
  }

  /** `str(timedelta(-1))` is `-1 day, 0:00:00`. */
  lemma MinusOneDay(d: Duration)
    requires d.micros == -MicrosPerDay
    ensures Render(d) == "-1 day, 0:00:00"
  {
    FieldsOf(d, -1, 0, 0);
    var clock := Clock(d.Seconds(), d.Microseconds());
    ClockMidnight(d.Seconds(), d.Microseconds());
    assert Render(d) == WithDays(-1, clock);
    DayWords(clock);
    MinusOneDayText("-1 day, ", clock);
  }

  /** `str(timedelta(days=1.5, microseconds=500))` is `1 day, 12:00:00.000500`. */
  lemma DayAndAHalf(d: Duration)
    requires d.micros == MicrosPerDay + MicrosPerDay / 2 + 500
    ensures Render(d) == "1 day, 12:00:00.000500"
  {
    FieldsOf(d, 1, 43200, 500);
    var clock := Clock(d.Seconds(), d.Microseconds());
    ClockNoon(d.Seconds(), d.Microseconds());
    assert Render(d) == WithDays(1, clock);
    DayWords(clock);
    DayAndAHalfText("1 day, ", clock);
  }

  /** Minus seven hours, the UTC offset printed by src/02_timezones.py, is `-1 day, 17:00:00`. */
  lemma MinusSevenHours(d: Duration)
    requires d.micros == -7 * 3600 * MicrosPerSecond
    ensures Render(d) == "-1 day, 17:00:00"
  {
    FieldsOf(d, -1, 61200, 0);
    var clock := Clock(d.Seconds(), d.Microseconds());
    ClockSeventeen(d.Seconds(), d.Microseconds());
    assert Render(d) == WithDays(-1, clock);
    DayWords(clock);
    MinusSevenHoursText("-1 day, ", clock);
  }

  /**
   * The loop at src/04_timedelta.py:80-85: each of the three durations, and
   * minus seven hours, is read back as itself from its `str(td)` text.
   */
  lemma SourceRoundTrips(d: Duration)
    requires d.micros in {MicrosPerDay, -MicrosPerDay, MicrosPerDay + MicrosPerDay / 2 + 500, -7 * 3600 * MicrosPerSecond}
    ensures Parse(Render(d)) == Ok(d)
  {
    ParseRender(d);
  }

  lemma OneDayText(prefix: string, clock: string)
    requires prefix == "1 day, " && clock == "0:00:00"
    ensures prefix + clock == "1 day, 0:00:00"
  {
  }

  lemma MinusOneDayText(prefix: string, clock: string)
    requires prefix == "-1 day, " && clock == "0:00:00"
    ensures prefix + clock == "-1 day, 0:00:00"
  {
  }

  lemma DayAndAHalfText(prefix: string, clock: string)
    requires prefix == "1 day, " && clock == "12:00:00.000500"
    ensures prefix + clock == "1 day, 12:00:00.000500"
  {
  }

  lemma MinusSevenHoursText(prefix: string, clock: string)
    requires prefix == "-1 day, " && clock == "17:00:00"
    ensures prefix + clock == "-1 day, 17:00:00"
  {
  }
}
