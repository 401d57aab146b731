/**
 * The two directions together: what `strptimedelta` makes of the text
 * `strftimedelta` writes, and of the text `str(td)` writes.
 */
module RoundTrip {
  import opened Wrappers
  import opened Text
  import opened Decimals
  import opened TimeDelta
  import opened DurationCodec
  import opened FormatProperties
  import opened ParseProperties

  /* ---------- clock fields ---------- */

  /** A whole number read as a clock field is that many seconds. */
  lemma MicrosOfWhole(v: int)
    ensures ToMicros(Decimal(v, 0)) == v * MicrosPerSecond
  {
    assert Pow10(6) == MicrosPerSecond;
  }

  /** Three clock fields count 3600, 60 and 1 seconds. */
  lemma WeightedMicrosThree(a: Decimal, b: Decimal, c: Decimal)
    requires AtMostMicros([a, b, c])
    ensures WeightedMicros([a, b, c], Weights) == 3600 * ToMicros(a) + 60 * ToMicros(b) + ToMicros(c)
  {
    assert [a, b, c][..2] == [a, b];
    assert [a, b][..1] == [a];
    assert [a][..0] == [];
    assert WeightedMicros([a], Weights) == 3600 * ToMicros(a);
    assert WeightedMicros([a, b], Weights) == 3600 * ToMicros(a) + 60 * ToMicros(b);
  }

  /** A clock of three numeric fields is the weighted sum of their microseconds. */
  lemma ParseClockThree(a: string, b: string, c: string, x: Decimal, y: Decimal, z: Decimal)
    requires ':' !in a && ':' !in b && ':' !in c
    requires ParseDecimal(a) == Some(x) && ParseDecimal(b) == Some(y) && ParseDecimal(c) == Some(z)
    requires x.scale <= 6 && y.scale <= 6 && z.scale <= 6
    ensures ParseClock(a + ":" + b + ":" + c).Ok?
    ensures ToMicros(ParseClock(a + ":" + b + ":" + c).value) == 3600 * ToMicros(x) + 60 * ToMicros(y) + ToMicros(z)
  {
    JoinThree(a, b, c, ':');
    var fields := [a, b, c];
    assert forall i :: 0 <= i < 3 ==> ':' !in fields[i];
    ParseClockAccepts(fields, [x, y, z]);
    WeightedMicrosThree(x, y, z);
  }

  /** Two-digit and wider unsigned numerals read as the number they spell. */
  lemma ReadUnsigned(digits: string)
    requires |digits| >= 1 && AllDigits(digits)
    ensures ParseDecimal(digits) == Some(Decimal(DigitsValue(digits), 0))
    ensures ':' !in digits && ' ' !in digits
  {
    ParseDecimalInteger(false, digits);
    assert "" + digits == digits;
    DigitsHaveNoSeparator(digits, ':');
    DigitsHaveNoSeparator(digits, ' ');
  }

  /* ---------- reading back strftimedelta ---------- */

  /**
   * What reading the formatted text back gives: the minus sign, if any, is
   * read with the hours field only, while minutes and seconds still count
   * upwards, and the microseconds are gone.
   */
  function Reread(d: Duration): Duration {
    SignedHours(d.micros < 0, WholeSeconds(d))
  }

  /** The value of `[-]HH:MM:SS` written for `w` whole seconds, with the sign on the hours alone. */
  function SignedHours(negative: bool, w: nat): Duration {
    Duration((Signed(negative, w / 3600) * 3600 + w % 3600) * MicrosPerSecond)
  }

  /** Whole hours, minutes and seconds, in microseconds. */
  lemma ClockInMicros(h: int, m: int, s: int)
    ensures 3600 * (h * MicrosPerSecond) + 60 * (m * MicrosPerSecond) + s * MicrosPerSecond
            == (h * 3600 + m * 60 + s) * MicrosPerSecond
  {
  }

  /** A clock of three whole-number fields counts them as hours, minutes and seconds. */
  lemma WholeClock(a: string, b: string, c: string, x: int, y: int, z: int)
    requires ':' !in a && ':' !in b && ':' !in c
    requires ParseDecimal(a) == Some(Decimal(x, 0)) && ParseDecimal(b) == Some(Decimal(y, 0))
    requires ParseDecimal(c) == Some(Decimal(z, 0))
    ensures ParseClock(a + ":" + b + ":" + c).Ok?
    ensures ToMicros(ParseClock(a + ":" + b + ":" + c).value) == (x * 3600 + y * 60 + z) * MicrosPerSecond
  {
    ParseClockThree(a, b, c, Decimal(x, 0), Decimal(y, 0), Decimal(z, 0));
    MicrosOfWhole(x);
    MicrosOfWhole(y);
    MicrosOfWhole(z);
    ClockInMicros(x, y, z);
  }

  /** `[-]a:b:c` with digit fields reads as the signed hours `a` plus the unsigned minutes `b` and seconds `c`. */
  lemma SignedClock(negative: bool, a: string, b: string, c: string)
    requires |a| >= 1 && AllDigits(a) && |b| >= 1 && AllDigits(b) && |c| >= 1 && AllDigits(c)
    ensures var s := (if negative then "-" else "") + a + ":" + b + ":" + c;
            && ' ' !in s
            && ParseClock(s).Ok?
            && ToMicros(ParseClock(s).value)
               == (Signed(negative, DigitsValue(a)) * 3600 + DigitsValue(b) * 60 + DigitsValue(c)) * MicrosPerSecond
  {
    var hours := (if negative then "-" else "") + a;
    HoursFieldReads(negative, a);
    ReadUnsigned(b);
    ReadUnsigned(c);
    WholeClock(hours, b, c, Signed(negative, DigitsValue(a)), DigitsValue(b), DigitsValue(c));
  }

  /** An optionally signed hours field reads as the signed number it spells, and has no separator in it. */
  lemma HoursFieldReads(negative: bool, a: string)
    requires |a| >= 1 && AllDigits(a)
    ensures var hours := (if negative then "-" else "") + a;
            && ParseDecimal(hours) == Some(Decimal(Signed(negative, DigitsValue(a)), 0))
            && ':' !in hours && ' ' !in hours
  {
    ParseDecimalInteger(negative, a);
    DigitsHaveNoSeparator(a, ':');
    DigitsHaveNoSeparator(a, ' ');
  }

  /** The clock of the compact form reads as the signed hours plus the unsigned minutes and seconds. */
  lemma CompactClock(negative: bool, w: nat)
    ensures |Compact(negative, w)| >= 1 && ' ' !in Compact(negative, w)
    ensures ParseClock(Compact(negative, w)).Ok?
    ensures ToMicros(ParseClock(Compact(negative, w)).value)
            == (Signed(negative, w / 3600) * 3600 + w % 3600) * MicrosPerSecond
  {
    SplitSeconds(w);
    ZeroPadTwo(w / 3600);
    ZeroPadTwo(w % 3600 / 60);
    ZeroPadTwo(w % 60);
    SignedClock(negative, ZeroPad(w / 3600, 2), ZeroPad(w % 3600 / 60, 2), ZeroPad(w % 60, 2));
  }

  /** In exact arithmetic, the reread duration is within a timedelta's range when the original is. */
  lemma RereadValid(d: Duration)
    requires d.Valid()
    ensures Reread(d).Valid()
  {
    var w := WholeSeconds(d);
    var total := if d.micros < 0 then -d.micros else d.micros;
    assert w * MicrosPerSecond <= total;
    var v := Signed(d.micros < 0, w / 3600) * 3600 + w % 3600;
    assert -w <= v <= w;
    assert -w * MicrosPerSecond <= v * MicrosPerSecond <= w * MicrosPerSecond;
  }

  /** The compact form is read back as its signed hours plus its unsigned minutes and seconds. */
  lemma ParseCompact(negative: bool, w: nat)
    requires SignedHours(negative, w).Valid()
    ensures Parse(Compact(negative, w)) == Ok(SignedHours(negative, w))
  {
    CompactClock(negative, w);
    ParseClockOnly(Compact(negative, w));
  }

  /**
   * `strptimedelta(strftimedelta(td))`, in exact arithmetic: always a
   * duration, namely the signed hours plus the unsigned minutes and seconds
   * of the formatted text.
   */
  lemma ParseFormat(d: Duration)
    requires d.Valid()
    ensures Parse(Format(d)) == Ok(Reread(d))
  {
    FormatIsCompact(d);
    RereadValid(d);
    ParseCompact(d.micros < 0, WholeSeconds(d));
  }

  /**
   * Formatting then parsing gives the duration back exactly when it has no
   * sub-second part and either is not negative or has no minutes and seconds:
   * `-01:30:00` reads as -3600 + 1800 seconds, not -5400.
   */
  lemma FormatParseRoundTrip(d: Duration)
    requires d.Valid()
    ensures Parse(Format(d)) == Ok(d) <==>
            d.micros % MicrosPerSecond == 0 && (d.micros >= 0 || WholeSeconds(d) % 3600 == 0)
  {
    ParseFormat(d);
    RereadIsSelf(d);
  }

  lemma RereadIsSelf(d: Duration)
    ensures Reread(d) == d <==>
            d.micros % MicrosPerSecond == 0 && (d.micros >= 0 || WholeSeconds(d) % 3600 == 0)
  {
    var w := WholeSeconds(d);
    var total := if d.micros < 0 then -d.micros else d.micros;
    var f := total % MicrosPerSecond;
    var h, r := w / 3600, w % 3600;
    assert total == w * MicrosPerSecond + f;
    assert w == h * 3600 + r;
    if d.micros >= 0 {
      assert Reread(d).micros == w * MicrosPerSecond;
    } else {
      assert Reread(d).micros == (-h * 3600 + r) * MicrosPerSecond;
      assert d.micros == -(h * 3600 + r) * MicrosPerSecond - f;
      NegatedRemainder(total, w, f);
    }
  }

  /** A negative multiple of a second has no sub-second part, and a negative non-multiple has one. */
  lemma NegatedRemainder(total: int, w: int, f: int)
    requires 0 <= f < MicrosPerSecond && total == w * MicrosPerSecond + f
    ensures (-total) % MicrosPerSecond == 0 <==> f == 0
  {
    if f == 0 {
      DivModUnique(-total, MicrosPerSecond, -w, 0);
    } else {
      DivModUnique(-total, MicrosPerSecond, -w - 1, MicrosPerSecond - f);
    }
  }

  /**
   * Formatting the parsed text gives the same text again exactly when the
   * duration is not negative, or is negative with a magnitude that, truncated
   * to whole seconds, is a whole number of hours (at least one): otherwise the
   * minutes and seconds that were subtracted come back added, and under an
   * hour even the sign is lost. A sub-second part does not matter, since the
   * text never shows it. Like the reading itself, this is in exact arithmetic.
   */
  lemma FormatParseFormat(d: Duration)
    requires d.Valid()
    ensures Parse(Format(d)).Ok?
    ensures Format(Parse(Format(d)).value) == Format(d) <==>
            d.micros >= 0 || (WholeSeconds(d) % 3600 == 0 && WholeSeconds(d) > 0)
  {
    ParseFormat(d);
    RereadFormat(d);
  }

  lemma RereadFormat(d: Duration)
    ensures Format(Reread(d)) == Format(d) <==>
            d.micros >= 0 || (WholeSeconds(d) % 3600 == 0 && WholeSeconds(d) > 0)
  {
    var w, r := WholeSeconds(d), Reread(d);
    assert (r.micros < 0 <==> d.micros < 0) && WholeSeconds(r) == w <==>
           d.micros >= 0 || (w % 3600 == 0 && w > 0) by {
      var v := Signed(d.micros < 0, w / 3600) * 3600 + w % 3600;
      assert r == Duration(v * MicrosPerSecond);
      WholeSecondsOfWhole(v);
      SignedHoursKeeps(d.micros < 0, w);
    }
    FormatDeterminedBy(r, d);
  }

  /**
   * The value read from `[-]HH:MM:SS` has the sign and the magnitude it was
   * written from exactly when there is no sign, or the minutes and seconds
   * are zero and the hours are not.
   */
  lemma SignedHoursKeeps(negative: bool, w: nat)
    ensures var v := Signed(negative, w / 3600) * 3600 + w % 3600;
            ((v < 0) == negative && (if v < 0 then -v else v) == w) <==>
            !negative || (w % 3600 == 0 && w > 0)
  {
  }
  /** A whole number of seconds, truncated to whole seconds, is its own magnitude. */
  lemma WholeSecondsOfWhole(v: int)
    ensures Duration(v * MicrosPerSecond).micros < 0 <==> v < 0
    ensures WholeSeconds(Duration(v * MicrosPerSecond)) == if v < 0 then -v else v
  {
    var a := if v < 0 then -v else v;
    assert (if v < 0 then -(v * MicrosPerSecond) else v * MicrosPerSecond) == a * MicrosPerSecond;
    DivModUnique(a * MicrosPerSecond, MicrosPerSecond, a, 0);
  }

  /* ---------- reading back str(td) ---------- */

  /** The number the seconds field of `str(td)` denotes: whole, or in units of a microsecond. */
  function SecondsValue(ss: nat, us: nat): Decimal {
    if us == 0 then Decimal(ss, 0) else Decimal(ss * MicrosPerSecond + us, 6)
  }

  lemma SecondsValueMicros(ss: nat, us: nat)
    ensures SecondsValue(ss, us).scale <= 6
    ensures ToMicros(SecondsValue(ss, us)) == ss * MicrosPerSecond + us
  {
    if us == 0 {
      MicrosOfWhole(ss);
    } else {
      MicrosAtSix(ss * MicrosPerSecond + us);
    }
  }

  /** The seconds field of `str(td)`, with its six fraction digits when there are microseconds. */
  lemma SecondsFieldReads(ss: nat, us: nat)
    requires ss < 60 && us < MicrosPerSecond
    ensures ':' !in SecondsText(ss, us) && ' ' !in SecondsText(ss, us)
    ensures ParseDecimal(SecondsText(ss, us)) == Some(SecondsValue(ss, us))
  {
    if us == 0 {
      WholeSecondsText(ss);
    } else {
      FractionSecondsText(ss, us);
    }
  }

  lemma WholeSecondsText(ss: nat)
    requires ss < 60
    ensures ':' !in SecondsText(ss, 0) && ' ' !in SecondsText(ss, 0)
    ensures ParseDecimal(SecondsText(ss, 0)) == Some(SecondsValue(ss, 0))
  {
    ZeroPadTwo(ss);
    ReadUnsigned(ZeroPad(ss, 2));
    assert SecondsText(ss, 0) == ZeroPad(ss, 2);
  }

  lemma FractionSecondsText(ss: nat, us: nat)
    requires ss < 60 && 0 < us < MicrosPerSecond
    ensures ':' !in SecondsText(ss, us) && ' ' !in SecondsText(ss, us)
    ensures ParseDecimal(SecondsText(ss, us)) == Some(SecondsValue(ss, us))
  {
    var whole, fraction := ZeroPad(ss, 2), ZeroPad(us, 6);
    assert SecondsText(ss, us) == whole + "." + fraction;
    assert SecondsValue(ss, us) == Decimal(ss * MicrosPerSecond + us, 6);
    FractionSecondsField(ss, us);
    FractionFieldHasNoSeparator(whole, fraction);
  }

  lemma FractionSecondsField(ss: nat, us: nat)
    requires ss < 60 && 0 < us < MicrosPerSecond
    ensures ParseDecimal(ZeroPad(ss, 2) + "." + ZeroPad(us, 6)) == Some(Decimal(ss * MicrosPerSecond + us, 6))
  {
    var whole, fraction := ZeroPad(ss, 2), ZeroPad(us, 6);
    ZeroPadTwo(ss);
    SixFractionDigits(us);
    FractionFieldReads(whole, fraction);
    assert DigitsValue(whole) == ss && DigitsValue(fraction) == us;
  }

  /** Microseconds padded to six digits take exactly six digits. */
  lemma SixFractionDigits(us: nat)
    requires us < MicrosPerSecond
    ensures |ZeroPad(us, 6)| == 6
  {
    assert Pow10(6) == MicrosPerSecond;
    NatToDigitsBelow(us, 6);
  }

  /** `whole.ffffff` reads as the whole seconds plus six digits of microseconds. */
  lemma FractionFieldReads(whole: string, fraction: string)
    requires |whole| >= 1 && AllDigits(whole) && AllDigits(fraction) && |fraction| == 6
    ensures ParseDecimal(whole + "." + fraction)
            == Some(Decimal(DigitsValue(whole) * MicrosPerSecond + DigitsValue(fraction), 6))
  {
    ParseDecimalFraction(whole, fraction);
    MillionthsValue(whole, fraction);
  }

  /** Six fraction digits after the whole digits count millionths. */
  lemma MillionthsValue(whole: string, fraction: string)
    requires AllDigits(whole) && AllDigits(fraction) && |fraction| == 6
    ensures DigitsValue(whole + fraction) == DigitsValue(whole) * MicrosPerSecond + DigitsValue(fraction)
  {
    DigitsValueAppend(whole, fraction);
    assert Pow10(|fraction|) == MicrosPerSecond;
  }

  lemma FractionFieldHasNoSeparator(whole: string, fraction: string)
    requires AllDigits(whole) && AllDigits(fraction)
    ensures ':' !in whole + "." + fraction && ' ' !in whole + "." + fraction
  {
    DigitsHaveNoSeparator(whole, ':');
    DigitsHaveNoSeparator(whole, ' ');
    DigitsHaveNoSeparator(fraction, ':');
    DigitsHaveNoSeparator(fraction, ' ');
  }

  /** Six fraction digits are a whole number of microseconds. */
  lemma MicrosAtSix(v: int)
    ensures ToMicros(Decimal(v, 6)) == v
  {
    assert Pow10(0) == 1;
  }

  /**
   * The clock of `str(td)` has no space in it, and reads as the seconds
   * within the day plus the microseconds.
   */
  lemma ClockReads(seconds: nat, micros: nat)
    requires seconds < SecondsPerDay && micros < MicrosPerSecond
    ensures ' ' !in Clock(seconds, micros)
    ensures ParseClock(Clock(seconds, micros)).Ok?
    ensures ToMicros(ParseClock(Clock(seconds, micros)).value) == seconds * MicrosPerSecond + micros
  {
    var hh, mm, ss := seconds / 60 / 60, seconds / 60 % 60, seconds % 60;
    assert Clock(seconds, micros) == NatToDigits(hh) + ":" + ZeroPad(mm, 2) + ":" + SecondsText(ss, micros);
    ClockOfParts(hh, mm, ss, micros);
    SecondsOfClock(seconds);
  }

  /** Hours, minutes and seconds recombine into the seconds they were taken from. */
  lemma SecondsOfClock(seconds: nat)
    ensures seconds / 60 / 60 * 3600 + seconds / 60 % 60 * 60 + seconds % 60 == seconds
  {
  }

  /** `H:MM:SS[.ffffff]` reads as its hours, minutes, seconds and microseconds. */
  lemma ClockOfParts(hh: nat, mm: nat, ss: nat, us: nat)
    requires mm < 60 && ss < 60 && us < MicrosPerSecond
    ensures var clock := NatToDigits(hh) + ":" + ZeroPad(mm, 2) + ":" + SecondsText(ss, us);
            && ' ' !in clock
            && ParseClock(clock).Ok?
            && ToMicros(ParseClock(clock).value) == (hh * 3600 + mm * 60 + ss) * MicrosPerSecond + us
  {
    ReadUnsigned(NatToDigits(hh));
    ZeroPadTwo(mm);
    ReadUnsigned(ZeroPad(mm, 2));
    SecondsFieldReads(ss, us);
    SecondsValueMicros(ss, us);
    ParseClockThree(NatToDigits(hh), ZeroPad(mm, 2), SecondsText(ss, us), Decimal(hh, 0), Decimal(mm, 0), SecondsValue(ss, us));
    MicrosOfWhole(hh);
    MicrosOfWhole(mm);
    ClockInMicros(hh, mm, ss);
  }

  /**
   * `strptimedelta(str(td)) == td` for every timedelta: the day count and its
   * `day,`/`days,` word come before the clock when there are days, and the
   * normalised fields add back up to the duration.
   */
  lemma ParseRender(d: Duration)
    requires d.Valid()
    ensures Parse(Render(d)) == Ok(d)
  {
    var clock := Clock(d.Seconds(), d.Microseconds());
    ClockReads(d.Seconds(), d.Microseconds());
    ParseWithDays(d.Days(), clock);
    Normalised(d);
  }

  /** Whatever the day count, the rendered text reads as the clock plus that many days. */
  lemma ParseWithDays(days: int, clock: string)
    requires |clock| >= 1 && ' ' !in clock
    ensures Parse(WithDays(days, clock)) == AddDays(ParseClock(clock), days)
  {
    if days == 0 {
      ParseClockOnly(clock);
    } else {
      ParseDays(days, if days == 1 || days == -1 then "day," else "days,", clock);
    }
  }

  /** `D word clock`, with `D` written by `%d`, adds `D` days to the clock. */
  lemma ParseDays(days: int, word: string, clock: string)
    requires |word| >= 1 && ' ' !in word && |clock| >= 1 && ' ' !in clock
    ensures Parse(IntToString(days) + " " + word + " " + clock) == AddDays(ParseClock(clock), days)
  {
    var first := IntToString(days);
    IntToStringHasNoSpace(days);
    JoinThree(first, word, clock, ' ');
    assert [first] + [word] + [clock] == [first, word, clock];
    ParseIntOfIntToString(days);
    ParseAddsDays(first, [word], clock);
  }

  lemma IntToStringHasNoSpace(i: int)
    ensures ' ' !in IntToString(i)
  {
    if i < 0 {
      DigitsHaveNoSeparator(NatToDigits(-i), ' ');
    } else {
      DigitsHaveNoSeparator(NatToDigits(i), ' ');
    }
  }
}
