/**
 * The duration value the codec converts: a timedelta, held as a signed count
 * of microseconds, with the normalised (days, seconds, microseconds) view a
 * timedelta keeps, its representable range, and its own human-readable
 * rendering (`str(td)`), which is the input form the parser is meant to read.
 */
module TimeDelta {
  import opened Text
  import opened Decimals

  const SecondsPerDay: int := 86_400
  const MicrosPerDay: int := 86_400_000_000

  /** The largest day count, in magnitude, a timedelta can hold. */
  const MaxDays: int := 999_999_999

  /** A signed span of time, `micros` microseconds long. */
  datatype Duration = Duration(micros: int) {

    /** The span fits a timedelta: from -999999999 days up to 999999999 days, 23:59:59.999999. */
    predicate Valid() {
      -(MaxDays * MicrosPerDay) <= micros < (MaxDays + 1) * MicrosPerDay
    }

    /** Normalised day count: whole days, rounded towards minus infinity. */
    function Days(): (days: int)
      ensures days * MicrosPerDay <= micros < (days + 1) * MicrosPerDay
    {
      micros / MicrosPerDay
    }

    /** Normalised seconds within the day. */
    function Seconds(): (secs: nat)
      ensures secs < SecondsPerDay
    {
      (micros % MicrosPerDay) / MicrosPerSecond
    }

    /** Normalised microseconds within the second. */
    function Microseconds(): (us: nat)
      ensures us < MicrosPerSecond
    {
      micros % MicrosPerSecond
    }
  }

  /** The normalised fields add back up to the span, and validity is a bound on the day count. */
  lemma Normalised(d: Duration)
    ensures d.micros == d.Days() * MicrosPerDay + d.Seconds() * MicrosPerSecond + d.Microseconds()
    ensures d.Valid() <==> -MaxDays <= d.Days() <= MaxDays
  {
    var days, rest := d.Days(), d.micros % MicrosPerDay;
    var secs, us := rest / MicrosPerSecond, rest % MicrosPerSecond;
    assert d.micros == days * MicrosPerDay + rest;
    assert rest == secs * MicrosPerSecond + us;
    assert d.micros == (days * SecondsPerDay + secs) * MicrosPerSecond + us by {
      DayInSeconds(days);
    }
    DivModUnique(d.micros, MicrosPerSecond, days * SecondsPerDay + secs, us);
    DaysInRange(d.micros, days);
  }

  /** A day count in microseconds is that many days of seconds. */
  lemma DayInSeconds(days: int)
    ensures days * MicrosPerDay == days * SecondsPerDay * MicrosPerSecond
  {
  }

  /** The span lies in the range exactly when its day count does. */
  lemma DaysInRange(micros: int, days: int)
    requires days * MicrosPerDay <= micros < (days + 1) * MicrosPerDay
    ensures -(MaxDays * MicrosPerDay) <= micros < (MaxDays + 1) * MicrosPerDay <==> -MaxDays <= days <= MaxDays
  {
    if days < -MaxDays {
      MulMonotone(days + 1, -MaxDays, MicrosPerDay);
    } else if days > MaxDays {
      MulMonotone(MaxDays + 1, days, MicrosPerDay);
    } else {
      MulMonotone(-MaxDays, days, MicrosPerDay);
      MulMonotone(days + 1, MaxDays + 1, MicrosPerDay);
    }
  }

  lemma MulMonotone(a: int, b: int, c: nat)
    requires a <= b
    ensures a * c <= b * c
  {
    assert b * c - a * c == (b - a) * c;
  }

  /**
   * The clock part of `str(td)`: `H:MM:SS` for the seconds within the day,
   * followed by `.ffffff` when there are microseconds.
   */
  function Clock(seconds: nat, micros: nat): (s: string)
    ensures |s| >= 7 && IsDigit(s[0])
  {
    var minutes, ss := seconds / 60, seconds % 60;
    var hh, mm := minutes / 60, minutes % 60;
    NatToDigits(hh) + ":" + ZeroPad(mm, 2) + ":" + SecondsText(ss, micros)
  }

  /** The seconds of the clock: two digits, then `.` and six digits when there are microseconds. */
  function SecondsText(ss: nat, micros: nat): string {
    ZeroPad(ss, 2) + (if micros == 0 then "" else "." + ZeroPad(micros, 6))
  }

  /**
   * `str(td)`: the clock, preceded by `D day, ` or `D days, ` when the day
   * count is not zero.
   */
  function Render(d: Duration): (s: string)
    ensures |s| >= 7
    ensures (s[0] == '-') <==> d.micros < 0
  {
    WithDays(d.Days(), Clock(d.Seconds(), d.Microseconds()))
  }

  /** A clock preceded by its day count and the word `day,` or `days,`, unless there are no days. */
  function WithDays(days: int, clock: string): (s: string)
    requires |clock| >= 1
    ensures |s| >= |clock|
    ensures days != 0 ==> s[0] == IntToString(days)[0]
    ensures days == 0 ==> s == clock
  {
    if days == 0 then
      clock
    else
      IntToString(days) + " " + (if days == 1 || days == -1 then "day," else "days,") + " " + clock
  }
}
