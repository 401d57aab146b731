/**
 * What `strftimedelta` promises: the sign, the zero-padded and uncapped hours,
 * minutes and seconds below 60 that add up to the magnitude truncated to
 * whole seconds, and nothing finer than a second.
 */
module FormatProperties {
  import opened Wrappers
  import opened Text
  import opened Decimals
  import opened TimeDelta
  import opened DurationCodec

  /** The magnitude of `d` truncated (never rounded) to whole seconds. */
  function WholeSeconds(d: Duration): nat {
    (if d.micros < 0 then -d.micros else d.micros) / MicrosPerSecond
  }

  /** An hours field: at least two digits, and no zero in front of two or more. */
  predicate HoursField(f: string) {
    AllDigits(f) && |f| >= 2 && (|f| == 2 || f[0] != '0')
  }

  /** A minutes or seconds field: exactly two digits, below 60. */
  predicate SexagesimalField(f: string) {
    AllDigits(f) && |f| == 2 && DigitsValue(f) < 60
  }

  /**
   * Reads the compact form `[-]HH:MM:SS` and nothing else, giving its sign
   * and its total number of seconds.
   */
  function ReadCompact(s: string): Option<(bool, nat)> {
    var negative := |s| > 0 && s[0] == '-';
    match ClockSeconds(Split(s[if negative then 1 else 0..], ':'))
    case None => None
    case Some(seconds) => Some((negative, seconds))
  }

  /** The seconds denoted by an hours, a minutes and a seconds field, if the fields are well formed. */
  function ClockSeconds(fields: seq<string>): Option<nat> {
    if |fields| == 3 && HoursField(fields[0]) && SexagesimalField(fields[1]) && SexagesimalField(fields[2]) then
      Some(DigitsValue(fields[0]) * 3600 + DigitsValue(fields[1]) * 60 + DigitsValue(fields[2]))
    else
      None
  }

  /** The compact form of a sign and a number of whole seconds. */
  function Compact(negative: bool, seconds: nat): string {
    ClockText(negative, seconds / 3600, seconds % 3600 / 60, seconds % 60)
  }

  lemma DigitsHaveNoSeparator(s: string, c: char)
    requires AllDigits(s) && !IsDigit(c)
    ensures c !in s
  {
  }

  /** Padding a number to two digits adds a zero only in front of a single digit. */
  lemma ZeroPadTwo(n: nat)
    ensures |ZeroPad(n, 2)| >= 2
    ensures |ZeroPad(n, 2)| == 2 || ZeroPad(n, 2)[0] != '0'
    ensures n < 100 ==> |ZeroPad(n, 2)| == 2
  {
    var digits := NatToDigits(n);
    if |digits| >= 2 {
      assert Zeros(0) + digits == digits;
    }
    if n < 100 {
      NatToDigitsBelow(n, 2);
    }
  }

  /** A number below 100 padded to two digits is its tens digit and its units digit. */
  lemma PadTwoDigits(n: nat)
    requires n < 100
    ensures ZeroPad(n, 2) == [DigitChar(n / 10), DigitChar(n % 10)]
  {
    if n < 10 {
      assert NatToDigits(n) == [DigitChar(n)];
      assert Zeros(1) == ['0'];
    } else {
      assert NatToDigits(n / 10) == [DigitChar(n / 10)];
      assert NatToDigits(n) == [DigitChar(n / 10), DigitChar(n % 10)];
      assert Zeros(0) + NatToDigits(n) == NatToDigits(n);
    }
  }

  /** The three fields of a compact string, behind its optional sign. */
  lemma CompactFields(negative: bool, a: string, b: string, c: string)
    requires AllDigits(a) && AllDigits(b) && AllDigits(c) && |a| >= 1
    ensures var s := (if negative then "-" else "") + a + ":" + b + ":" + c;
            && (|s| > 0 && s[0] == '-') == negative
            && Split(s[if negative then 1 else 0..], ':') == [a, b, c]
  {
    var s := (if negative then "-" else "") + a + ":" + b + ":" + c;
    assert IsDigit(a[0]);
    assert !negative ==> s[0] == a[0];
    JoinThree(a, b, c, ':');
    assert s[if negative then 1 else 0..] == Join([a, b, c], ':');
    DigitsHaveNoSeparator(a, ':');
    DigitsHaveNoSeparator(b, ':');
    DigitsHaveNoSeparator(c, ':');
    SplitJoin([a, b, c], ':');
  }

  /** Well-formed fields read back as the seconds they denote. */
  lemma ReadCompactOfFields(negative: bool, a: string, b: string, c: string)
    requires HoursField(a) && SexagesimalField(b) && SexagesimalField(c)
    ensures ReadCompact((if negative then "-" else "") + a + ":" + b + ":" + c)
            == Some((negative, DigitsValue(a) * 3600 + DigitsValue(b) * 60 + DigitsValue(c)))
  {
    var s := (if negative then "-" else "") + a + ":" + b + ":" + c;
    CompactFields(negative, a, b, c);
    ReadCompactOfSplit(s, negative, a, b, c);
  }

  lemma ReadCompactOfSplit(s: string, negative: bool, a: string, b: string, c: string)
    requires HoursField(a) && SexagesimalField(b) && SexagesimalField(c)
    requires (|s| > 0 && s[0] == '-') == negative
    requires Split(s[if negative then 1 else 0..], ':') == [a, b, c]
    ensures ReadCompact(s) == Some((negative, DigitsValue(a) * 3600 + DigitsValue(b) * 60 + DigitsValue(c)))
  {
    ClockSecondsOfFields(a, b, c);
  }

  /** Three well-formed fields denote their hours, minutes and seconds. */
  lemma ClockSecondsOfFields(a: string, b: string, c: string)
    requires HoursField(a) && SexagesimalField(b) && SexagesimalField(c)
    ensures ClockSeconds([a, b, c]) == Some(DigitsValue(a) * 3600 + DigitsValue(b) * 60 + DigitsValue(c))
  {
    var fields := [a, b, c];
    assert fields[0] == a && fields[1] == b && fields[2] == c;
  }

  /** The compact form reads back as the sign and the seconds it was written from. */
  lemma ReadCompactOfCompact(negative: bool, seconds: nat)
    ensures ReadCompact(Compact(negative, seconds)) == Some((negative, seconds))
  {
    var h, m, sec := seconds / 3600, seconds % 3600 / 60, seconds % 60;
    SplitSeconds(seconds);
    ZeroPadTwo(h);
    ZeroPadTwo(m);
    ZeroPadTwo(sec);
    ReadCompactOfFields(negative, ZeroPad(h, 2), ZeroPad(m, 2), ZeroPad(sec, 2));
  }

  /** Whole seconds are their hours, minutes below 60 and seconds below 60. */
  lemma SplitSeconds(w: nat)
    ensures w % 3600 / 60 < 60 && w % 60 < 60
    ensures w / 3600 * 3600 + w % 3600 / 60 * 60 + w % 60 == w
  {
    var r := w % 3600;
    assert w == w / 3600 * 3600 + r;
    assert r == r / 60 * 60 + r % 60;
    DivModUnique(w, 60, w / 3600 * 60 + r / 60, r % 60);
  }

  /** `Format` spelled out on the magnitude in microseconds. */
  lemma FormatOfMagnitude(d: Duration)
    ensures var total := if d.micros < 0 then -d.micros else d.micros;
            Format(d) == ClockText(d.micros < 0, total / MicrosPerHour, total % MicrosPerHour / MicrosPerMinute,
                                   total % MicrosPerHour % MicrosPerMinute / MicrosPerSecond)
  {
    assert Magnitude(d) == if d.micros < 0 then -d.micros else d.micros;
  }

  /** `Format` writes the compact form of the sign and the truncated magnitude. */
  lemma FormatIsCompact(d: Duration)
    ensures Format(d) == Compact(d.micros < 0, WholeSeconds(d))
  {
    FormatFields(d);
  }

  /** `Format` writes the hours, minutes and seconds of the truncated magnitude. */
  lemma FormatFields(d: Duration)
    ensures var w := WholeSeconds(d);
            Format(d) == ClockText(d.micros < 0, w / 3600, w % 3600 / 60, w % 60)
  {
    FormatOfMagnitude(d);
    MagnitudeFields(d);
  }

  /** The fields `Format` computes from the magnitude are those of the truncated magnitude. */
  lemma MagnitudeFields(d: Duration)
    ensures var total, w := if d.micros < 0 then -d.micros else d.micros, WholeSeconds(d);
            && total / MicrosPerHour == w / 3600
            && total % MicrosPerHour / MicrosPerMinute == w % 3600 / 60
            && total % MicrosPerHour % MicrosPerMinute / MicrosPerSecond == w % 60
  {
    if d.micros < 0 {
      FieldsOfWholeSeconds(-d.micros);
    } else {
      FieldsOfWholeSeconds(d.micros);
    }
  }

  /** Splitting microseconds into hours, minutes and seconds is splitting the whole seconds. */
  lemma FieldsOfWholeSeconds(total: nat)
    ensures total / MicrosPerHour == total / MicrosPerSecond / 3600
    ensures total % MicrosPerHour / MicrosPerMinute == total / MicrosPerSecond % 3600 / 60
    ensures total % MicrosPerHour % MicrosPerMinute / MicrosPerSecond == total / MicrosPerSecond % 60
  {
    var w, f := total / 1_000_000, total % 1_000_000;
    var h, v := w / 3600, w % 3600;
    var m, sc := v / 60, v % 60;
    assert total == w * 1_000_000 + f;
    assert w == h * 3600 + v && v == m * 60 + sc;
    var r := v * 1_000_000 + f;
    var sec := sc * 1_000_000 + f;
    assert r == m * 60_000_000 + sec;
    assert total == h * 3_600_000_000 + r;
    DivModUnique(total, 3_600_000_000, h, r);
    DivModUnique(r, 60_000_000, m, sec);
    DivModUnique(sec, 1_000_000, sc, f);
    DivModUnique(w, 60, h * 60 + m, sc);
  }

  /**
   * The formatted string is exactly `[-]HH:MM:SS`, starts with `-` exactly when
   * the duration is negative (decided before truncation), and its fields add
   * up to the magnitude truncated to whole seconds, however many hours that is.
   */
  lemma FormatReadBack(d: Duration)
    ensures ReadCompact(Format(d)) == Some((d.micros < 0, WholeSeconds(d)))
  {
    FormatIsCompact(d);
    ReadCompactOfCompact(d.micros < 0, WholeSeconds(d));
  }

  /**
   * Two durations format alike exactly when they have the same sign and the
   * same whole seconds: sub-second parts are dropped and make no difference.
   */
  lemma FormatDeterminedBy(a: Duration, b: Duration)
    ensures Format(a) == Format(b) <==>
            (a.micros < 0 <==> b.micros < 0) && WholeSeconds(a) == WholeSeconds(b)
  {
    FormatReadBack(a);
    FormatReadBack(b);
    FormatIsCompact(a);
    FormatIsCompact(b);
  }

  /** Whole seconds written as hours, minutes below 60 and seconds below 60 split back into those three. */
  lemma ClockOfSeconds(w: nat, h: nat, m: nat, sec: nat)
    requires m < 60 && sec < 60 && w == h * 3600 + m * 60 + sec
    ensures w / 3600 == h && w % 3600 / 60 == m && w % 60 == sec
  {
    DivModUnique(w, 3600, h, m * 60 + sec);
    DivModUnique(m * 60 + sec, 60, m, sec);
    DivModUnique(w, 60, h * 60 + m, sec);
  }

  /**
   * Below a hundred hours, `Format` writes two digits each for the hours,
   * minutes and seconds that make up the truncated magnitude.
   */
  lemma FormatBelow100Hours(d: Duration, h: nat, m: nat, sec: nat)
    requires h < 100 && m < 60 && sec < 60 && WholeSeconds(d) == h * 3600 + m * 60 + sec
    ensures Format(d) == (if d.micros < 0 then "-" else "")
                         + [DigitChar(h / 10), DigitChar(h % 10), ':', DigitChar(m / 10), DigitChar(m % 10),
                            ':', DigitChar(sec / 10), DigitChar(sec % 10)]
  {
    var w := WholeSeconds(d);
    var sign := if d.micros < 0 then "-" else "";
    FormatIsCompact(d);
    ClockOfSeconds(w, h, m, sec);
    assert Format(d) == sign + ZeroPad(h, 2) + ":" + ZeroPad(m, 2) + ":" + ZeroPad(sec, 2);
    PadTwoDigits(h);
    PadTwoDigits(m);
    PadTwoDigits(sec);
    ConcatEight(sign, DigitChar(h / 10), DigitChar(h % 10), DigitChar(m / 10), DigitChar(m % 10),
                DigitChar(sec / 10), DigitChar(sec % 10));
  }

  lemma ConcatEight(p: string, a: char, b: char, c: char, d: char, e: char, f: char)
    ensures p + [a, b] + ":" + [c, d] + ":" + [e, f] == p + [a, b, ':', c, d, ':', e, f]
  {
  }

  /*
   * The characters `FormatBelow100Hours` gives, spelled as string literals.
   * Each is stated on a bare string so that no duration is in scope.
   */

  lemma SpellDay(s: string)
    requires s == "" + [DigitChar(24 / 10), DigitChar(24 % 10), ':', DigitChar(0 / 10), DigitChar(0 % 10),
                        ':', DigitChar(0 / 10), DigitChar(0 % 10)]
    ensures s == "24:00:00"
  {
  }

  lemma SpellMinusDay(s: string)
    requires s == "-" + [DigitChar(24 / 10), DigitChar(24 % 10), ':', DigitChar(0 / 10), DigitChar(0 % 10),
                         ':', DigitChar(0 / 10), DigitChar(0 % 10)]
    ensures s == "-24:00:00"
  {
  }

  lemma SpellDayAndAHalf(s: string)
    requires s == "" + [DigitChar(36 / 10), DigitChar(36 % 10), ':', DigitChar(0 / 10), DigitChar(0 % 10),
                        ':', DigitChar(0 / 10), DigitChar(0 % 10)]
    ensures s == "36:00:00"
  {
  }

  lemma SpellMinusZero(s: string)
    requires s == "-" + [DigitChar(0 / 10), DigitChar(0 % 10), ':', DigitChar(0 / 10), DigitChar(0 % 10),
                         ':', DigitChar(0 / 10), DigitChar(0 % 10)]
    ensures s == "-00:00:00"
  {
  }

  /* What `Format` writes for a few magnitudes, whatever the microseconds below the second. */

  lemma FormatWholeDay(d: Duration)
    requires d.micros >= 0 && WholeSeconds(d) == 24 * 3600
    ensures Format(d) == "24:00:00"
  {
    FormatBelow100Hours(d, 24, 0, 0);
    SpellDay(Format(d));
  }

  lemma FormatMinusWholeDay(d: Duration)
    requires d.micros < 0 && WholeSeconds(d) == 24 * 3600
    ensures Format(d) == "-24:00:00"
  {
    FormatBelow100Hours(d, 24, 0, 0);
    SpellMinusDay(Format(d));
  }

  lemma FormatDayAndAHalf(d: Duration)
    requires d.micros >= 0 && WholeSeconds(d) == 36 * 3600
    ensures Format(d) == "36:00:00"
  {
    FormatBelow100Hours(d, 36, 0, 0);
    SpellDayAndAHalf(Format(d));
  }

  /** A negative duration shorter than a second keeps its sign though every field is zero. */
  lemma FormatNegativeUnderASecond(d: Duration)
    requires -MicrosPerSecond < d.micros < 0
    ensures Format(d) == "-00:00:00"
  {
    FormatBelow100Hours(d, 0, 0, 0);
    SpellMinusZero(Format(d));
  }

  /** Hours are not reduced modulo a day and grow past two digits. */
  lemma FormatFiveDays(d: Duration)
    requires d.micros >= 0 && WholeSeconds(d) == 120 * 3600 + 3
    ensures Format(d) == "120:00:03"
  {
    FormatIsCompact(d);
    ClockOfSeconds(WholeSeconds(d), 120, 0, 3);
    PadTwoDigits(0);
    PadTwoDigits(3);
    HundredTwenty();
    SpellHundredTwenty(Format(d));
  }

  lemma HundredTwenty()
    ensures ZeroPad(120, 2) == "120"
  {
    assert NatToDigits(120) == NatToDigits(12) + ['0'];
    assert NatToDigits(12) == ['1', '2'];
    assert Zeros(0) + NatToDigits(120) == "120";
  }

  lemma SpellHundredTwenty(s: string)
    requires s == "" + "120" + ":" + [DigitChar(0 / 10), DigitChar(0 % 10)] + ":" + [DigitChar(3 / 10), DigitChar(3 % 10)]
    ensures s == "120:00:03"
  {
  }

  /**
   * The outputs written beside the examples: one day, minus one day, and a
   * day and a half plus 500 microseconds, whose microseconds are dropped.
   */
  lemma FormatExamples(d: Duration)
    ensures d.micros == MicrosPerDay ==> Format(d) == "24:00:00"
    ensures d.micros == -MicrosPerDay ==> Format(d) == "-24:00:00"
    ensures d.micros == MicrosPerDay + MicrosPerDay / 2 + 500 ==> Format(d) == "36:00:00"
  {
    if d.micros == MicrosPerDay {
      FormatWholeDay(d);
    } else if d.micros == -MicrosPerDay {
      FormatMinusWholeDay(d);
    } else if d.micros == MicrosPerDay + MicrosPerDay / 2 + 500 {
      FormatDayAndAHalf(d);
    }
  }
}
