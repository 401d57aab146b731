/**
 * The duration codec of src/04_timedelta.py: `strftimedelta` writes a
 * duration as `[-]HH:MM:SS`, and `strptimedelta` reads
 * `[days <ignored tokens> ]H:M:S[.f]` back into a duration.
 */
module DurationCodec {
  import opened Wrappers
  import opened Text
  import opened Decimals
  import opened TimeDelta

  /* ---------- strftimedelta ---------- */

  const MicrosPerMinute: int := 60_000_000
  const MicrosPerHour: int := 3_600_000_000

  /**
   * `strftimedelta(td)`: a `-` when the duration is negative, then the
   * magnitude's whole hours (at least two digits, never reduced modulo a day),
   * minutes and seconds (two digits each); microseconds are dropped.
   */
  function Format(d: Duration): (s: string)
    ensures |s| >= 8
    ensures (s[0] == '-') <==> d.micros < 0
  {
    ClockText(d.micros < 0, Magnitude(d) / MicrosPerHour, Magnitude(d) % MicrosPerHour / MicrosPerMinute,
              Magnitude(d) % MicrosPerHour % MicrosPerMinute / MicrosPerSecond)
  }

  /** The duration with its sign removed: `total * -1` when it is negative. */
  function Magnitude(d: Duration): nat {
    if d.micros < 0 then -d.micros else d.micros
  }

  /** `f"{prefix}{h:02d}:{m:02d}:{s:02d}"`: the sign, then the three fields with at least two digits each. */
  function ClockText(negative: bool, h: nat, m: nat, s: nat): string {
    (if negative then "-" else "") + ZeroPad(h, 2) + ":" + ZeroPad(m, 2) + ":" + ZeroPad(s, 2)
  }

  /* ---------- strptimedelta ---------- */

  /** Why reading a duration fails: a ValueError from `int` or `float`, or an OverflowError from timedelta. */
  datatype ParseError = BadDayCount | BadClockField | Overflow

  /** Seconds in an hour, a minute and a second: the weights of the clock fields, in order. */
  const Weights: seq<int> := [3600, 60, 1]

  /** The day count: none when there is one token, otherwise `int` of the first token. */
  function DayCount(tokens: seq<string>): Result<int, ParseError>
    requires |tokens| >= 1
  {
    if |tokens| == 1 then Ok(0)
    else match ParseInt(tokens[0])
      case Some(days) => Ok(days)
      case None => Err(BadDayCount)
  }

  /** `float` of every field in turn, stopping at the first that is not a number. */
  function ReadFields(fields: seq<string>): (r: Result<seq<Decimal>, ParseError>)
    ensures r.Ok? <==> forall i :: 0 <= i < |fields| ==> ParseDecimal(fields[i]).Some?
    ensures r.Ok? ==> |r.value| == |fields|
                      && forall i :: 0 <= i < |fields| ==> ParseDecimal(fields[i]) == Some(r.value[i])
    ensures r.Err? ==> r.error == BadClockField
    decreases |fields|
  {
    if fields == [] then Ok([])
    else match ParseDecimal(fields[0])
      case None => Err(BadClockField)
      case Some(x) =>
        match ReadFields(fields[1..])
        case Err(e) => Err(e)
        case Ok(rest) => Ok([x] + rest)
  }

  /** `sum(x * w for x, w in zip(values, weights))`, added up from the left starting at 0. */
  function WeightedSum(values: seq<Decimal>, weights: seq<int>): Decimal
    requires |values| <= |weights|
  {
    if values == [] then Decimal(0, 0)
    else
      var n := |values| - 1;
      Add(WeightedSum(values[..n], weights), Scale(values[n], weights[n]))
  }

  function Min(a: nat, b: nat): nat {
    if a < b then a else b
  }

  /**
   * The clock token: its `:`-separated fields are read with `float` and
   * summed with the weights 3600, 60, 1. `zip` stops at the shorter
   * sequence, so a clock with fewer than three fields is accepted; since
   * `map` is lazy, `float` reaches the fourth field, if any, before `zip`
   * finds the weights exhausted, and never the fifth or later.
   */
  function ParseClock(token: string): (r: Result<Decimal, ParseError>)
    ensures var fields := Split(token, ':');
            r.Ok? <==> forall i :: 0 <= i < Min(|fields|, 4) ==> ParseDecimal(fields[i]).Some?
    ensures r.Err? ==> r.error == BadClockField
  {
    var fields := Split(token, ':');
    var read := fields[..Min(|fields|, 4)];
    assert forall i :: 0 <= i < |read| ==> ParseDecimal(read[i]) == ParseDecimal(fields[i]);
    match ReadFields(read)
    case Err(e) => Err(e)
    case Ok(values) => Ok(WeightedSum(values[..Min(|fields|, 3)], Weights))
  }

  /**
   * A timedelta of `micros` microseconds, or OverflowError when its day count
   * is beyond 999999999 either way.
   */
  function FromMicros(micros: int): (r: Result<Duration, ParseError>)
    ensures r.Ok? <==> -MaxDays <= Duration(micros).Days() <= MaxDays
    ensures r.Ok? ==> r.value.micros == micros
    ensures r.Err? ==> r.error == Overflow
  {
    Normalised(Duration(micros));
    if Duration(micros).Valid() then Ok(Duration(micros)) else Err(Overflow)
  }

  /** `timedelta(seconds=x)`: rounded half to even to whole microseconds, then range-checked. */
  function FromSeconds(x: Decimal): Result<Duration, ParseError> {
    FromMicros(ToMicros(x))
  }

  /** The text's tokens: stripped of surrounding spaces, then split at every single space. */
  function Tokens(text: string): (tokens: seq<string>)
    ensures |tokens| >= 1
  {
    Split(Strip(text, ' '), ' ')
  }

  /**
   * What `strptimedelta` does once the text is split: the day count (first
   * token, when there is more than one) times 86400 plus the weighted clock
   * fields of the last token, as a timedelta. Tokens between the first and
   * the last are never looked at.
   */
  function ParseTokens(tokens: seq<string>): (r: Result<Duration, ParseError>)
    requires |tokens| >= 1
    ensures r.Ok? ==> r.value.Valid()
  {
    var days :- DayCount(tokens);
    var clock :- ParseClock(tokens[|tokens| - 1]);
    FromSeconds(Add(clock, Decimal(days * SecondsPerDay, 0)))
  }

  /** `strptimedelta(text)`: the tokens of the text, read as above. */
  function Parse(text: string): (r: Result<Duration, ParseError>)
    ensures r.Ok? ==> r.value.Valid()
  {
    ParseTokens(Tokens(text))
  }
}
