/**
 * What `strptimedelta` does with its input: surrounding spaces are ignored,
 * the first of several tokens is a whole number of days, tokens between the
 * first and the last are never read, and the last token's fields count
 * 3600, 60 and 1 seconds from the left, however many of them there are.
 */
module ParseProperties {
  import opened Wrappers
  import opened Text
  import opened Decimals
  import opened TimeDelta
  import opened DurationCodec

  /* ---------- the clock token ---------- */

  /** Every value has at most six fraction digits, so it is a whole number of microseconds. */
  predicate AtMostMicros(xs: seq<Decimal>) {
    forall i :: 0 <= i < |xs| ==> xs[i].scale <= 6
  }

  /** The microseconds of each value times its weight, added up: what the weighted sum is meant to be. */
  function WeightedMicros(xs: seq<Decimal>, ws: seq<int>): int
    requires |xs| <= |ws| && AtMostMicros(xs)
  {
    if xs == [] then 0
    else
      var n := |xs| - 1;
      WeightedMicros(xs[..n], ws) + ws[n] * ToMicros(xs[n])
  }

  /** For fields of at most six fraction digits the weighted sum is exact in microseconds. */
  lemma {:induction false} WeightedSumMicros(xs: seq<Decimal>, ws: seq<int>)
    requires |xs| <= |ws| && AtMostMicros(xs)
    ensures WeightedSum(xs, ws).scale <= 6
    ensures ToMicros(WeightedSum(xs, ws)) == WeightedMicros(xs, ws)
    decreases |xs|
  {
    if xs != [] {
      var n := |xs| - 1;
      WeightedSumMicros(xs[..n], ws);
      ToMicrosScale(xs[n], ws[n]);
      ToMicrosAdd(WeightedSum(xs[..n], ws), Scale(xs[n], ws[n]));
    }
  }

  /**
   * A clock whose fields read as numbers is accepted whatever its number of
   * fields: the first three (or fewer) count 3600, 60 and 1 seconds, a fourth
   * must still be a number but does not count, and a fifth or later is never read.
   */
  lemma ParseClockAccepts(fields: seq<string>, xs: seq<Decimal>)
    requires |fields| >= 1 && forall i :: 0 <= i < |fields| ==> ':' !in fields[i]
    requires |xs| == Min(|fields|, 3) && AtMostMicros(xs)
    requires forall i :: 0 <= i < |xs| ==> ParseDecimal(fields[i]) == Some(xs[i])
    requires |fields| >= 4 ==> ParseDecimal(fields[3]).Some?
    ensures ParseClock(Join(fields, ':')).Ok?
    ensures ToMicros(ParseClock(Join(fields, ':')).value) == WeightedMicros(xs, Weights)
  {
    SplitJoin(fields, ':');
    ParseClockOfSplit(Join(fields, ':'), fields, xs);
  }

  lemma ParseClockOfSplit(token: string, fields: seq<string>, xs: seq<Decimal>)
    requires Split(token, ':') == fields
    requires |xs| == Min(|fields|, 3) && AtMostMicros(xs)
    requires forall i :: 0 <= i < |xs| ==> ParseDecimal(fields[i]) == Some(xs[i])
    requires |fields| >= 4 ==> ParseDecimal(fields[3]).Some?
    ensures ParseClock(token).Ok?
    ensures ToMicros(ParseClock(token).value) == WeightedMicros(xs, Weights)
  {
    ParseClockSum(token, fields, xs);
    WeightedSumMicros(xs, Weights);
  }

  /** The clock's value is the weighted sum of its first three (or fewer) fields. */
  lemma ParseClockSum(token: string, fields: seq<string>, xs: seq<Decimal>)
    requires Split(token, ':') == fields
    requires |xs| == Min(|fields|, 3)
    requires forall i :: 0 <= i < |xs| ==> ParseDecimal(fields[i]) == Some(xs[i])
    requires |fields| >= 4 ==> ParseDecimal(fields[3]).Some?
    ensures ParseClock(token) == Ok(WeightedSum(xs, Weights))
  {
    var read := fields[..Min(|fields|, 4)];
    forall i | 0 <= i < |xs|
      ensures ParseDecimal(read[i]) == Some(xs[i])
    {
      assert read[i] == fields[i];
    }
    forall i | |xs| <= i < |read|
      ensures ParseDecimal(read[i]).Some?
    {
      assert i == 3 && read[i] == fields[3];
    }
    ReadFieldsValues(read, xs);
    var values := ReadFields(read).value;
    assert values[..Min(|fields|, 3)] == xs;
  }

  /** Fields that all read as numbers are read, in order. */
  lemma ReadFieldsValues(read: seq<string>, xs: seq<Decimal>)
    requires |xs| <= |read|
    requires forall i :: 0 <= i < |xs| ==> ParseDecimal(read[i]) == Some(xs[i])
    requires forall i :: |xs| <= i < |read| ==> ParseDecimal(read[i]).Some?
    ensures ReadFields(read).Ok? && ReadFields(read).value[..|xs|] == xs
  {
    assert forall i :: 0 <= i < |read| ==> ParseDecimal(read[i]).Some? by {
      forall i | 0 <= i < |read|
        ensures ParseDecimal(read[i]).Some?
      {
        if i < |xs| {
          assert ParseDecimal(read[i]) == Some(xs[i]);
        }
      }
    }
  }

  /** A clock with a field among the first four that is not a number is rejected. */
  lemma ParseClockRejects(fields: seq<string>, i: nat)
    requires |fields| >= 1 && forall j :: 0 <= j < |fields| ==> ':' !in fields[j]
    requires i < Min(|fields|, 4) && ParseDecimal(fields[i]).None?
    ensures ParseClock(Join(fields, ':')) == Err(BadClockField)
  {
    SplitJoin(fields, ':');
  }

  /* ---------- tokens and days ---------- */

  lemma {:induction false} JoinEnds(parts: seq<string>, sep: char)
    requires |parts| >= 1 && |parts[0]| >= 1 && |parts[|parts| - 1]| >= 1
    ensures var s := Join(parts, sep);
            |s| >= 1 && s[0] == parts[0][0] && s[|s| - 1] == parts[|parts| - 1][|parts[|parts| - 1]| - 1]
    decreases |parts|
  {
    if |parts| > 1 {
      var rest := parts[1..];
      if |rest| > 1 || |rest[0]| >= 1 {
        JoinRestEnds(rest, sep);
      }
    }
  }

  lemma {:induction false} JoinRestEnds(parts: seq<string>, sep: char)
    requires |parts| >= 1 && |parts[|parts| - 1]| >= 1
    ensures var s := Join(parts, sep);
            |s| >= 1 && s[|s| - 1] == parts[|parts| - 1][|parts[|parts| - 1]| - 1]
    decreases |parts|
  {
    if |parts| > 1 {
      JoinRestEnds(parts[1..], sep);
    }
  }

  /** Tokens without spaces, the outer two not empty, joined by single spaces, are split back apart. */
  lemma TokensOfJoin(parts: seq<string>)
    requires |parts| >= 1 && |parts[0]| >= 1 && |parts[|parts| - 1]| >= 1
    requires forall i :: 0 <= i < |parts| ==> ' ' !in parts[i]
    ensures Tokens(Join(parts, ' ')) == parts
  {
    JoinEnds(parts, ' ');
    SplitJoin(parts, ' ');
  }

  /**
   * The result the parser is meant to give: the clock's microseconds plus
   * whole days, as a timedelta, or the clock's error.
   */
  function AddDays(clock: Result<Decimal, ParseError>, days: int): Result<Duration, ParseError> {
    match clock
    case Err(e) => Err(e)
    case Ok(c) => FromMicros(ToMicros(c) + days * MicrosPerDay)
  }

  /** A single token is all clock, with no days. */
  lemma ParseClockOnly(clock: string)
    requires |clock| >= 1 && ' ' !in clock
    ensures Parse(clock) == AddDays(ParseClock(clock), 0)
  {
    TokensOfJoin([clock]);
    ParseTokensDays([clock], 0);
  }

  /** Once the day count is known, the clock is read and the days are added to it. */
  lemma ParseTokensDays(tokens: seq<string>, days: int)
    requires |tokens| >= 1 && DayCount(tokens) == Ok(days)
    ensures ParseTokens(tokens) == AddDays(ParseClock(tokens[|tokens| - 1]), days)
  {
    match ParseClock(tokens[|tokens| - 1])
    case Err(_) =>
    case Ok(c) =>
      var seconds := days * SecondsPerDay;
      var sum := Add(c, Decimal(seconds, 0));
      assert ParseTokens(tokens) == FromMicros(ToMicros(sum));
      assert ToMicros(sum) == ToMicros(c) + days * MicrosPerDay by {
        ToMicrosAddSeconds(c, seconds);
        DayInSeconds(days);
      }
      assert ParseTokens(tokens) == FromMicros(ToMicros(c) + days * MicrosPerDay);
  }

  /** The tokens of a first token, some middle ones and a clock, all without spaces. */
  lemma TokensOfThree(first: string, middle: seq<string>, clock: string)
    requires |first| >= 1 && ' ' !in first && |clock| >= 1 && ' ' !in clock
    requires forall i :: 0 <= i < |middle| ==> ' ' !in middle[i]
    ensures Tokens(Join([first] + middle + [clock], ' ')) == [first] + middle + [clock]
  {
    var parts := [first] + middle + [clock];
    assert forall i :: 0 <= i < |parts| ==> ' ' !in parts[i] by {
      forall i | 0 <= i < |parts|
        ensures ' ' !in parts[i]
      {
        if 0 < i < |parts| - 1 {
          assert parts[i] == middle[i - 1];
        }
      }
    }
    TokensOfJoin(parts);
  }

  /**
   * With several tokens the first is a whole number of days, added to the
   * clock in the last token, and whatever lies between them is never read:
   * a first token that is not an integer fails before the clock is looked at.
   */
  lemma ParseAddsDays(first: string, middle: seq<string>, clock: string)
    requires |first| >= 1 && ' ' !in first && |clock| >= 1 && ' ' !in clock
    requires forall i :: 0 <= i < |middle| ==> ' ' !in middle[i]
    ensures Parse(Join([first] + middle + [clock], ' ')) ==
            match ParseInt(first)
            case None => Err(BadDayCount)
            case Some(days) => AddDays(ParseClock(clock), days)
  {
    var tokens := [first] + middle + [clock];
    TokensOfThree(first, middle, clock);
    assert tokens[0] == first && tokens[|tokens| - 1] == clock;
    match ParseInt(first)
    case None =>
    case Some(days) => ParseTokensDays(tokens, days);
  }

  /** Spaces around the text make no difference. */
  lemma ParseIgnoresPadding(text: string, a: nat, b: nat)
    ensures Parse(Repeat(' ', a) + text + Repeat(' ', b)) == Parse(text)
  {
    var padded := Repeat(' ', a) + text + Repeat(' ', b);
    StripPadded(padded, text, ' ', a, b);
    assert Tokens(padded) == Tokens(text);
  }

  /**
   * What `strptimedelta` gives for any text: a day count that is not an
   * integer fails first; otherwise the clock is read and the days are added.
   */
  lemma ParseOutcome(text: string)
    ensures var tokens := Tokens(text);
            Parse(text) == match DayCount(tokens)
                           case Err(e) => Err(e)
                           case Ok(days) => AddDays(ParseClock(tokens[|tokens| - 1]), days)
  {
    ParseTokensOutcome(Tokens(text));
  }

  /** The same, once the text is split into tokens. */
  lemma ParseTokensOutcome(tokens: seq<string>)
    requires |tokens| >= 1
    ensures ParseTokens(tokens) == match DayCount(tokens)
                                   case Err(e) => Err(e)
                                   case Ok(days) => AddDays(ParseClock(tokens[|tokens| - 1]), days)
  {
    match DayCount(tokens)
    case Err(e) =>
    case Ok(days) =>
      ParseTokensDays(tokens, days);
  }

  /**
   * Each way reading fails, and nothing else: a first token that is not an
   * integer (when there are several), a clock field among the first four
   * that is not a number, or a total outside a timedelta's range.
   */
  lemma ParseFailures(text: string)
    ensures var tokens := Tokens(text);
            var clock := ParseClock(tokens[|tokens| - 1]);
            && (Parse(text) == Err(BadDayCount) <==> |tokens| > 1 && ParseInt(tokens[0]).None?)
            && (Parse(text) == Err(BadClockField) <==> DayCount(tokens).Ok? && clock.Err?)
            && (Parse(text) == Err(Overflow) <==>
                DayCount(tokens).Ok? && clock.Ok?
                && !Duration(ToMicros(clock.value) + DayCount(tokens).value * MicrosPerDay).Valid())
  {
    ParseOutcome(text);
  }
}
