/**
 * The shapes of clock text `strptimedelta` accepts besides `H:MM:SS`:
 * fewer fields, a signed hours field, and what makes a clock rejected.
 */
module ClockForms {
  import opened Wrappers
  import opened Text
  import opened Decimals
  import opened TimeDelta
  import opened DurationCodec
  import opened ParseProperties
  import opened RoundTrip

  lemma WeightedMicrosTwo(x: Decimal, y: Decimal)
    requires AtMostMicros([x, y])
    ensures WeightedMicros([x, y], Weights) == 3600 * ToMicros(x) + 60 * ToMicros(y)
  {
    assert [x, y][..1] == [x];
    assert [x][..0] == [];
    assert WeightedMicros([x], Weights) == 3600 * ToMicros(x);
  }

  /** Two clock fields are hours and minutes: the missing seconds field is not an error. */
  lemma ClockHoursMinutes(a: string, b: string)
    requires |a| >= 1 && AllDigits(a) && |b| >= 1 && AllDigits(b)
    ensures ' ' !in a + ":" + b
    ensures ParseClock(a + ":" + b).Ok?
    ensures ToMicros(ParseClock(a + ":" + b).value) == (DigitsValue(a) * 3600 + DigitsValue(b) * 60) * MicrosPerSecond
  {
    ReadUnsigned(a);
    ReadUnsigned(b);
    var x, y := Decimal(DigitsValue(a), 0), Decimal(DigitsValue(b), 0);
    assert [a, b][1..] == [b];
    assert a + ":" + b == Join([a, b], ':');
    ParseClockAccepts([a, b], [x, y]);
    WeightedMicrosTwo(x, y);
    MicrosOfWhole(DigitsValue(a));
    MicrosOfWhole(DigitsValue(b));
    ClockInMicros(DigitsValue(a), DigitsValue(b), 0);
  }

  /** `HH:MM` reads as that many hours and minutes. */
  lemma ParseHoursMinutes(a: string, b: string)
    requires |a| >= 1 && AllDigits(a) && |b| >= 1 && AllDigits(b)
    requires Duration((DigitsValue(a) * 3600 + DigitsValue(b) * 60) * MicrosPerSecond).Valid()
    ensures Parse(a + ":" + b) == Ok(Duration((DigitsValue(a) * 3600 + DigitsValue(b) * 60) * MicrosPerSecond))
  {
    ClockHoursMinutes(a, b);
    ParseClockOnly(a + ":" + b);
  }

  /** `12:00`, or any other spelling of 12 and 0, is 43200 seconds. */
  lemma ParseTwelveHundred(a: string, b: string)
    requires |a| >= 1 && AllDigits(a) && DigitsValue(a) == 12
    requires |b| >= 1 && AllDigits(b) && DigitsValue(b) == 0
    ensures Parse(a + ":" + b) == Ok(Duration(43200 * MicrosPerSecond))
  {
    var micros := (DigitsValue(a) * 3600 + DigitsValue(b) * 60) * MicrosPerSecond;
    assert micros == 43200 * MicrosPerSecond;
    assert Duration(micros).Valid();
    ParseHoursMinutes(a, b);
  }

  /**
   * `[-]H:M:S`: a leading minus belongs to the hours field alone, so the
   * minutes and seconds are still added.
   */
  lemma ParseSignedClock(negative: bool, a: string, b: string, c: string)
    requires |a| >= 1 && AllDigits(a) && |b| >= 1 && AllDigits(b) && |c| >= 1 && AllDigits(c)
    requires Duration((Signed(negative, DigitsValue(a)) * 3600 + DigitsValue(b) * 60 + DigitsValue(c)) * MicrosPerSecond).Valid()
    ensures Parse((if negative then "-" else "") + a + ":" + b + ":" + c)
            == Ok(Duration((Signed(negative, DigitsValue(a)) * 3600 + DigitsValue(b) * 60 + DigitsValue(c)) * MicrosPerSecond))
  {
    SignedClock(negative, a, b, c);
    ParseClockOnly((if negative then "-" else "") + a + ":" + b + ":" + c);
  }

  /** `-01:30:00`, or any other spelling of minus 1, 30 and 0, is -1800 seconds, not -5400. */
  lemma ParseMinusHourThirty(a: string, b: string, c: string)
    requires |a| >= 1 && AllDigits(a) && DigitsValue(a) == 1
    requires |b| >= 1 && AllDigits(b) && DigitsValue(b) == 30
    requires |c| >= 1 && AllDigits(c) && DigitsValue(c) == 0
    ensures Parse("-" + a + ":" + b + ":" + c) == Ok(Duration(-1800 * MicrosPerSecond))
  {
    ParseSignedClock(true, a, b, c);
  }

  /** A single-token clock with a field among its first four that is not a number fails. */
  lemma ParseRejectsClockField(fields: seq<string>, i: nat)
    requires |fields| >= 1 && forall j :: 0 <= j < |fields| ==> ':' !in fields[j] && ' ' !in fields[j]
    requires |Join(fields, ':')| >= 1
    requires i < Min(|fields|, 4) && ParseDecimal(fields[i]).None?
    ensures Parse(Join(fields, ':')) == Err(BadClockField)
  {
    ParseClockRejects(fields, i);
    JoinAvoids(fields, ':', ' ');
    ParseClockOnly(Join(fields, ':'));
  }
}
