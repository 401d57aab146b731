# Duration codec: `strftimedelta` and `strptimedelta`

This project models the duration codec in `src/04_timedelta.py` and proves its properties.

- `strftimedelta(td)` writes a timedelta as `[-]HH:MM:SS`:
  - a minus sign when the duration is negative;
  - the whole hours of the magnitude, never reduced modulo a day, with at least two digits;
  - two-digit minutes and seconds.
  - Microseconds are truncated away.
- `strptimedelta(text)` reads a duration back:
  - It strips surrounding spaces and splits at single spaces.
  - When there are several tokens, the first is an `int` day count.
  - The last token is the clock. Its `:`-separated fields are read with `float` and weighted 3600, 60 and 1.
  - The sum is handed to `timedelta(seconds=…)`.

The model works on exact values. A timedelta is `TimeDelta.Duration`, a signed count of microseconds with the range `-999999999 days ≤ d < 1000000000 days`. `float` yields an exact `Decimals.Decimal`. Building a timedelta from seconds rounds half to even to whole microseconds and raises an overflow error out of range.

The parser reports `ValueError` and `OverflowError` as `DurationCodec.ParseError`:

- `BadDayCount`: the first token is not an integer.
- `BadClockField`: a clock field that `float` reads is not a number.
- `Overflow`: the total is outside the timedelta range.

The round-trip the script demonstrates at lines 80-85 goes through Python's own `str(td)`, so the model includes that rendering: `TimeDelta.Render`, which writes `[D day[s], ]H:MM:SS[.ffffff]`.

The main results:

- `Parse(Render(d)) == Ok(d)` for every valid duration, in exact arithmetic (`RoundTrip.ParseRender`).
- In exact arithmetic, `Parse(Format(d))` always succeeds with `Reread(d)`. A minus sign written by `strftimedelta` is read back with the hours field only, while minutes and seconds still count upwards.
- In exact arithmetic, `Parse(Format(d)) == Ok(d)` exactly when `d` has no sub-second part and is either non-negative or a whole number of hours (`RoundTrip.FormatParseRoundTrip`).
- In exact arithmetic, `Format(Parse(Format(d)))` gives the same text back exactly when `d` is non-negative, or negative with a magnitude that, truncated to whole seconds, is a whole number of hours, at least one (`RoundTrip.FormatParseFormat`). A sub-second part makes no difference: minus one hour and 500 µs keeps its text `-01:00:00`.

The parser's docstring (src/04_timedelta.py:70) gives its input as `[+- days](HH:MM:SS)[.f]`. Where that description and the code disagree, the model follows the code:

- The code does not demand exactly three clock fields. `zip` stops at the shorter sequence, so `12:00` is accepted as twelve hours (`ClockForms.ParseTwelveHundred`).
- Because `map` is lazy, a fourth field is still read by `float` and must be a number, but it does not count. A fifth or later field is never read (`ParseProperties.ParseClockAccepts`, `ClockForms.ParseRejectsClockField`).
- Tokens between the first and the last are never looked at (`ParseProperties.ParseAddsDays`).

Modules, one per file:

| file | module | contents |
|---|---|---|
| wrappers.dfy | Wrappers | `Option`, `Result` |
| text.dfy | Text | `strip`, `split`, numerals, `%d` / `%02d`, `int()` |
| decimals.dfy | Decimals | exact decimals, `float()`, rounding to microseconds |
| timedelta.dfy | TimeDelta | the duration value and `str(td)` |
| codec.dfy | DurationCodec | `strftimedelta` and `strptimedelta` |
| format_props.dfy | FormatProperties | what `Format` writes, the examples at lines 59-63 |
| parse_props.dfy | ParseProperties | how `Parse` treats tokens, fields and errors |
| roundtrip.dfy | RoundTrip | the two directions composed |
| clock_forms.dfy | ClockForms | clocks with two fields or a signed hours field; rejected clocks |
| source_cases.dfy | SourceCases | the examples at lines 80-85 and the -7 h offset |

## Model

| member | source | states |
|---|---|---|
| DurationCodec.Format | src/04_timedelta.py:46-56 | the text is at least eight characters and starts with `-` exactly when the duration is negative |
| FormatProperties.FormatIsCompact | src/04_timedelta.py:52-56 | `strftimedelta` writes the sign, then hours/minutes/seconds of the magnitude truncated to whole seconds: `Format` is `ClockText` (the f-string, line 56) of the divmods of `Magnitude` (the negation, line 53) |
| FormatProperties.FormatFields | src/04_timedelta.py:52-56 | the fields written are hours, minutes below 60 and seconds below 60 of the truncated whole seconds |
| FormatProperties.MagnitudeFields | src/04_timedelta.py:53-55 | the divmods of the magnitude in microseconds give the same fields as those of its whole seconds |
| FormatProperties.FieldsOfWholeSeconds | src/04_timedelta.py:54-56 | taking the divmods in microseconds then truncating equals taking them on the truncated seconds |
| FormatProperties.SplitSeconds | src/04_timedelta.py:54-55 | hours·3600 + minutes·60 + seconds is the total, with minutes and seconds below 60 |
| FormatProperties.ClockOfSeconds | src/04_timedelta.py:54-55 | the divmod split is the unique one with minutes and seconds below 60 |
| FormatProperties.ReadCompactOfCompact | src/04_timedelta.py:56 | the `[-]HH:MM:SS` text decodes back to the sign and whole seconds it was written from |
| FormatProperties.ReadCompactOfFields | src/04_timedelta.py:56 | well-formed hours, minutes and seconds fields decode to the seconds they denote |
| FormatProperties.ReadCompactOfSplit | src/04_timedelta.py:56 | a text whose unsigned part splits into three well-formed fields decodes to their seconds |
| FormatProperties.ClockSecondsOfFields | src/04_timedelta.py:56 | three well-formed fields denote hours·3600 + minutes·60 + seconds |
| FormatProperties.CompactFields | src/04_timedelta.py:56 | the unsigned part of `[-]a:b:c` splits at `:` into exactly `a`, `b`, `c` |
| FormatProperties.FormatReadBack | src/04_timedelta.py:46-56 | the formatted text decodes to the sign (decided before truncation) and the truncated magnitude |
| FormatProperties.FormatDeterminedBy | src/04_timedelta.py:46-56 | two durations format alike iff they have the same sign and the same whole seconds |
| FormatProperties.ZeroPadTwo | src/04_timedelta.py:56 | `%02d` gives at least two digits, and a leading zero only in a two-digit result |
| FormatProperties.PadTwoDigits | src/04_timedelta.py:56 | `%02d` of a number below 100 is its tens digit then its units digit |
| FormatProperties.DigitsHaveNoSeparator | src/04_timedelta.py:56 | a numeral contains no non-digit separator |
| FormatProperties.FormatBelow100Hours | src/04_timedelta.py:56 | under 100 hours the text is the sign and exactly eight characters `hh:mm:ss` |
| FormatProperties.FormatWholeDay | src/04_timedelta.py:59-61 | one day formats as `24:00:00` |
| FormatProperties.FormatMinusWholeDay | src/04_timedelta.py:59-62 | minus one day formats as `-24:00:00` |
| FormatProperties.FormatDayAndAHalf | src/04_timedelta.py:59-63 | a day and a half formats as `36:00:00` |
| FormatProperties.FormatNegativeUnderASecond | src/04_timedelta.py:52-56 | a negative duration under a second formats as `-00:00:00`: the sign survives truncation |
| FormatProperties.FormatFiveDays | src/04_timedelta.py:54-56 | hours are not reduced modulo a day: 120 h 3 s formats as `120:00:03` |
| FormatProperties.HundredTwenty | src/04_timedelta.py:56 | `%02d` of 120 is `120`, not truncated to two digits |
| FormatProperties.FormatExamples | src/04_timedelta.py:59-63 | one day, minus one day and 1.5 days + 500 µs format as `24:00:00`, `-24:00:00`, `36:00:00` |
| DurationCodec.ReadFields | src/04_timedelta.py:76 | `float` of every field, succeeding iff every field is a number, with each value in order |
| DurationCodec.ParseClock | src/04_timedelta.py:76 | the clock is accepted iff its first four fields (or fewer) are numbers |
| DurationCodec.FromMicros | src/04_timedelta.py:77 | a timedelta of that many microseconds, or Overflow exactly when its day count is beyond ±999999999 |
| DurationCodec.Tokens | src/04_timedelta.py:72 | the stripped text splits into at least one token |
| DurationCodec.ParseTokens | src/04_timedelta.py:73-77 | a successful read is a valid timedelta |
| DurationCodec.Parse | src/04_timedelta.py:67-77 | a successful read is a valid timedelta |
| ParseProperties.ParseOutcome | src/04_timedelta.py:67-77 | for any text: the day-count error of `DayCount` (`int(parts[0])` when there are several tokens, lines 73-75) first, else the clock read with the days added |
| ParseProperties.ParseTokensOutcome | src/04_timedelta.py:73-77 | for any tokens: the day-count error first, else the last token's clock read with the days added |
| ParseProperties.ParseFailures | src/04_timedelta.py:67-77 | each error kind happens iff its cause holds: non-integer first token when there are several (`DayCount`), non-numeric clock field, out-of-range total |
| ParseProperties.ParseTokensDays | src/04_timedelta.py:73-77 | once the day count is read, the result is the last token's clock plus those days |
| ParseProperties.ParseClockOnly | src/04_timedelta.py:73 | a text of one token is all clock, with zero days |
| ParseProperties.ParseAddsDays | src/04_timedelta.py:72-77 | `first middle… clock` adds `int(first)` days to the clock and never reads the middle tokens |
| ParseProperties.ParseIgnoresPadding | src/04_timedelta.py:72 | any number of spaces around the text make no difference |
| ParseProperties.TokensOfJoin | src/04_timedelta.py:72 | space-free tokens (outer two non-empty) joined by single spaces split back apart |
| ParseProperties.TokensOfThree | src/04_timedelta.py:72 | a first token, middle tokens and a clock joined by spaces split back into those tokens |
| ParseProperties.JoinEnds | src/04_timedelta.py:72 | joined tokens start with the first token's first and end with the last token's last character |
| ParseProperties.JoinRestEnds | src/04_timedelta.py:72 | joined tokens end with the last token's last character |
| ParseProperties.ParseClockAccepts | src/04_timedelta.py:76 | numeric fields are accepted however many there are; the first three count 3600, 60, 1 seconds; a fourth is read but not counted |
| ParseProperties.ParseClockOfSplit | src/04_timedelta.py:76 | the same, for a token given with its split |
| ParseProperties.ParseClockSum | src/04_timedelta.py:76 | a clock whose first fields read as numbers is `WeightedSum` of the first three, the fourth being read but not counted |
| ParseProperties.ParseClockRejects | src/04_timedelta.py:76 | a non-numeric field among the first four rejects the clock |
| ParseProperties.ReadFieldsValues | src/04_timedelta.py:76 | fields that read as numbers give those numbers, in order |
| ParseProperties.WeightedSumMicros | src/04_timedelta.py:76 | `WeightedSum`, the model of `sum(x * y for x, y in zip(…))`, is exact in microseconds for fields with at most six fraction digits: Σ fieldᵢ·10^6·weightᵢ |
| ClockForms.ClockHoursMinutes | src/04_timedelta.py:76 | a two-field clock is accepted as hours and minutes |
| ClockForms.ParseHoursMinutes | src/04_timedelta.py:67-77 | `HH:MM` reads as that many hours and minutes |
| ClockForms.ParseTwelveHundred | src/04_timedelta.py:67-77 | `12:00` reads as 43200 seconds rather than failing |
| ClockForms.ParseSignedClock | src/04_timedelta.py:67-77 | `[-]H:M:S` reads as the signed hours plus the unsigned minutes and seconds |
| ClockForms.ParseMinusHourThirty | src/04_timedelta.py:67-77 | `-01:30:00` reads as -1800 seconds, not -5400 |
| ClockForms.ParseRejectsClockField | src/04_timedelta.py:67-77 | a single-token clock with a non-numeric field among its first four fails with BadClockField |
| ClockForms.WeightedMicrosTwo | src/04_timedelta.py:76 | two fields are weighted 3600 and 60 |
| RoundTrip.WeightedMicrosThree | src/04_timedelta.py:76 | three fields are weighted 3600, 60 and 1 |
| RoundTrip.MicrosOfWhole | src/04_timedelta.py:77 | a whole number of seconds is that many million microseconds |
| RoundTrip.ReadUnsigned | src/04_timedelta.py:76 | `float` of a digit string is the number it spells, and the string has no `:` or space |
| RoundTrip.ParseClockThree | src/04_timedelta.py:76 | a clock of three numeric fields is their weighted sum in microseconds |
| RoundTrip.WholeClock | src/04_timedelta.py:76 | a clock of three whole-number fields counts them as hours, minutes and seconds |
| RoundTrip.HoursFieldReads | src/04_timedelta.py:76 | a `-`-prefixed hours field reads as the negative number |
| RoundTrip.SignedClock | src/04_timedelta.py:76 | `[-]a:b:c` reads as signed `a` hours plus unsigned `b` minutes and `c` seconds |
| RoundTrip.CompactClock | src/04_timedelta.py:56 | the clock `strftimedelta` writes reads back as its signed hours plus unsigned minutes and seconds |
| RoundTrip.RereadValid | src/04_timedelta.py:77 | in exact arithmetic, reading back a formatted valid duration never overflows |
| RoundTrip.ParseCompact | src/04_timedelta.py:56 | the text `[-]HH:MM:SS` parses to its signed hours plus unsigned minutes and seconds |
| RoundTrip.ParseFormat | src/04_timedelta.py:46-77 | in exact arithmetic, `strptimedelta(strftimedelta(td))` always succeeds, with the signed-hours reading |
| RoundTrip.FormatParseRoundTrip | src/04_timedelta.py:46-77 | in exact arithmetic, format then parse gives `td` back iff it has no sub-second part and is non-negative or a whole number of hours |
| RoundTrip.RereadIsSelf | src/04_timedelta.py:46-77 | the signed-hours reading equals the duration iff the same condition holds |
| RoundTrip.NegatedRemainder | src/04_timedelta.py:53 | negating a duration keeps "whole number of seconds" unchanged |
| RoundTrip.FormatParseFormat | src/04_timedelta.py:46-77 | in exact arithmetic, format, parse, format reproduces the text iff the duration is non-negative, or negative with whole seconds that are a whole number of hours, at least one |
| RoundTrip.RereadFormat | src/04_timedelta.py:46-77 | formatting the signed-hours reading gives the original text iff that condition holds |
| RoundTrip.SignedHoursKeeps | src/04_timedelta.py:76 | the reading has the written sign and magnitude iff there is no sign or minutes and seconds are zero and hours are not |
| RoundTrip.WholeSecondsOfWhole | src/04_timedelta.py:52-53 | a whole number of seconds truncates to its own magnitude, with its own sign |
| RoundTrip.SecondsValueMicros | src/04_timedelta.py:76-77 | the seconds field of `str(td)` is exactly its seconds and microseconds |
| RoundTrip.SecondsFieldReads | src/04_timedelta.py:76 | `SecondsText`, the seconds field of `str(td)` (`SS` or `SS.ffffff`), reads as the seconds plus the microseconds, and has no `:` or space |
| RoundTrip.WholeSecondsText | src/04_timedelta.py:76 | the same without microseconds |
| RoundTrip.FractionSecondsText | src/04_timedelta.py:76 | the same with microseconds |
| RoundTrip.FractionSecondsField | src/04_timedelta.py:76 | `SS.ffffff` reads as `SS·10^6 + ffffff` millionths |
| RoundTrip.FractionFieldReads | src/04_timedelta.py:76 | `whole.ffffff` reads as the digits of both in millionths |
| RoundTrip.MillionthsValue | src/04_timedelta.py:76 | six fraction digits after the whole digits count millionths |
| RoundTrip.SixFractionDigits | src/04_timedelta.py:76 | the microseconds of `str(td)`, below a million, take exactly six digits |
| RoundTrip.FractionFieldHasNoSeparator | src/04_timedelta.py:76 | `whole.ffffff` has no `:` or space |
| RoundTrip.MicrosAtSix | src/04_timedelta.py:77 | six fraction digits are a whole number of microseconds, with no rounding |
| RoundTrip.ClockReads | src/04_timedelta.py:76 | the clock of `str(td)` has no space and reads as the seconds within the day plus the microseconds |
| RoundTrip.SecondsOfClock | src/04_timedelta.py:76 | hours, minutes and seconds recombine into the seconds they came from |
| RoundTrip.ClockOfParts | src/04_timedelta.py:76 | `H:MM:SS[.ffffff]` reads as its hours, minutes, seconds and microseconds |
| RoundTrip.ParseRender | src/04_timedelta.py:80-85 | `strptimedelta(str(td)) == td` for every timedelta, in exact arithmetic |
| RoundTrip.ParseWithDays | src/04_timedelta.py:72-77 | `D day[s], clock` reads as the clock plus `D` days, and a bare clock reads as itself |
| RoundTrip.ParseDays | src/04_timedelta.py:72-77 | `D word clock` adds `D` days to the clock and skips the word |
| RoundTrip.IntToStringHasNoSpace | src/04_timedelta.py:73 | a day count written by `%d` is a single token |
| SourceCases.FieldsOf | src/04_timedelta.py:82 | a duration of `D` days, `S` seconds below a day and `U` microseconds has exactly those normalised fields |
| SourceCases.ClockOfFields | src/04_timedelta.py:82 | the clock of `str(td)` is the unpadded hours, two-digit minutes and the seconds text |
| SourceCases.ClockMidnight | src/04_timedelta.py:83 | the clock of zero seconds is `0:00:00`, with one hour digit |
| SourceCases.ClockNoon | src/04_timedelta.py:85 | 43200 s and 500 µs is the clock `12:00:00.000500` |
| SourceCases.SecondsWithMicros | src/04_timedelta.py:85 | zero seconds and 500 µs are written `00.000500` |
| SourceCases.MicrosText | src/04_timedelta.py:85 | 500 µs take six zero-padded digits, `000500` |
| SourceCases.ClockSeventeen | src/02_timezones.py:11 | 61200 s is the clock `17:00:00` |
| SourceCases.DayWords | src/04_timedelta.py:83-85 | the day prefix is `1 day, ` and `-1 day, ` for one day either way and `2 days, ` for two |
| SourceCases.OneDay | src/04_timedelta.py:80-83 | `str(timedelta(1))` is `1 day, 0:00:00` |
| SourceCases.MinusOneDay | src/04_timedelta.py:80-84 | `str(timedelta(-1))` is `-1 day, 0:00:00` |
| SourceCases.DayAndAHalf | src/04_timedelta.py:80-85 | `str(timedelta(days=1.5, microseconds=500))` is `1 day, 12:00:00.000500` |
| SourceCases.MinusSevenHours | src/02_timezones.py:11 | minus seven hours is `-1 day, 17:00:00` |
| SourceCases.SourceRoundTrips | src/04_timedelta.py:80-85 | each of those four texts reads back as the duration it was written from |
| TimeDelta.Duration.Days | src/04_timedelta.py:82 | the normalised day count is the floor of the span in days |
| TimeDelta.Duration.Seconds | src/04_timedelta.py:82 | the normalised seconds are below a day |
| TimeDelta.Duration.Microseconds | src/04_timedelta.py:82 | the normalised microseconds are below a second |
| TimeDelta.Normalised | src/04_timedelta.py:82 | the normalised fields add back up to the span; validity is a bound on the days |
| TimeDelta.Clock | src/04_timedelta.py:82 | the clock of `str(td)` is at least `H:MM:SS` and starts with a digit |
| TimeDelta.Render | src/04_timedelta.py:82 | `str(td)` starts with `-` exactly when the span is negative |
| TimeDelta.WithDays | src/04_timedelta.py:82 | no prefix without days; otherwise the text starts with the first character of the `%d` of the days, a `-` exactly for negative days |
| Text.Strip | src/04_timedelta.py:72 | `strip(" ")` leaves a text that neither starts nor ends with a space, and leaves such a text alone |
| Text.StripPadding | src/04_timedelta.py:72 | stripping removes only spaces, some in front and some behind |
| Text.StripUnique | src/04_timedelta.py:72 | the stripped text is the only space-free-ended infix between padding |
| Text.StripPadded | src/04_timedelta.py:72 | extra spaces around a text do not change what strip gives |
| Text.PaddedInfix | src/04_timedelta.py:72 | where the padding and the infix lie in a padded text |
| Text.PaddingAdds | src/04_timedelta.py:72 | padding around padding is one padding |
| Text.LeadingCopiesSpec | src/04_timedelta.py:72 | the leading spaces are counted exactly: that many spaces, then a non-space or the end |
| Text.TrailingCopiesSpec | src/04_timedelta.py:72 | the trailing spaces are counted exactly: a non-space or the start, then that many spaces |
| Text.PaddedOfCopies | src/04_timedelta.py:72 | a text that starts and ends with runs of spaces is its middle padded by those runs |
| Text.AllCopies | src/04_timedelta.py:72 | a text of spaces only is that many spaces |
| Text.RepeatCopies | src/04_timedelta.py:72 | every character of repeated spaces is a space |
| Text.Split | src/04_timedelta.py:72 | `split(sep)` always gives at least one part, even for an empty text |
| Text.SplitParts | src/04_timedelta.py:72 | no part of `split(sep)` holds `sep`, and joining the parts with `sep` gives the text back |
| Text.SplitJoin | src/04_timedelta.py:72 | split undoes join when no part holds the separator |
| Text.SplitNoSeparator | src/04_timedelta.py:72 | a text without the separator is one part |
| Text.SplitAfterPart | src/04_timedelta.py:72 | a separator-free prefix before the separator becomes the first part |
| Text.JoinThree | src/04_timedelta.py:76 | three parts joined are `a:b:c` |
| Text.JoinAvoids | src/04_timedelta.py:72 | joining parts free of a character other than the separator yields a text free of it |
| Text.NatToDigits | src/04_timedelta.py:56 | the numeral is digits only, spells the number and has no leading zero |
| Text.NatToDigitsBelow | src/04_timedelta.py:56 | a number below `10^k` has at most `k` digits |
| Text.ZeroPad | src/04_timedelta.py:56 | `%0wd` is digits only, spells the number and has the padded width |
| Text.Zeros | src/04_timedelta.py:56 | a run of zeros spells 0 |
| Text.DigitsValueAppend | src/04_timedelta.py:76 | the value of concatenated digits is positional |
| Text.DigitChar | src/04_timedelta.py:56 | a digit character spells its value |
| Text.IntToString | src/04_timedelta.py:82 | `%d` starts with `-` exactly for negative numbers |
| Text.ParseInt | src/04_timedelta.py:75 | `int` accepts only an optional sign followed by digits, and negative only after a `-` |
| Text.ParseIntOfIntToString | src/04_timedelta.py:75 | `int` reads back what `%d` writes |
| Decimals.ParseDecimal | src/04_timedelta.py:76 | `float` accepts at most as many fraction digits as the text has characters, and a negative value only after `-` |
| Decimals.ParseDecimalInteger | src/04_timedelta.py:76 | `float` of an optionally signed integer numeral is that whole number |
| Decimals.ParseDecimalFraction | src/04_timedelta.py:76 | `float` of `whole.fraction` is the digits of both in units of the last fraction digit |
| Decimals.AddUnits | src/04_timedelta.py:76-77 | `Add`, the model of the float `+` in the sum and in `s + d * 86400`, is exact: counted in any unit fine enough, it is the two counts added |
| Decimals.Scale | src/04_timedelta.py:76 | the exact product by an integer weight |
| Decimals.UnitsRescale | src/04_timedelta.py:76 | counting in a finer unit multiplies by a power of ten |
| Decimals.RoundHalfEven | src/04_timedelta.py:77 | the nearest integer, a tie going to the even one |
| Decimals.RoundHalfEvenShift | src/04_timedelta.py:77 | shifting by an even whole number shifts the rounded result by it |
| Decimals.DivModUnique | src/04_timedelta.py:54-55 | quotient and remainder are determined by `n = q·d + r`, `0 ≤ r < d` |
| Decimals.ToMicros | src/04_timedelta.py:77 | `timedelta(seconds=x)` is exact up to six fraction digits and rounds to nearest beyond |
| Decimals.ToMicrosAdd | src/04_timedelta.py:77 | conversion of exact sums is additive |
| Decimals.ToMicrosScale | src/04_timedelta.py:77 | conversion of exact products is linear |
| Decimals.ToMicrosAddSeconds | src/04_timedelta.py:77 | in `FromSeconds`, the model of `timedelta(seconds=s + d * 86400)`, adding the days' seconds before rounding equals adding them after |
| Decimals.RoundedAddSeconds | src/04_timedelta.py:77 | the same when there are more than six fraction digits |

## Left out

- Floating point. `td.total_seconds()`, `divmod` and `float` are binary floats in the source. The model computes `strftimedelta`'s divisions exactly on microseconds and reads clock fields as exact decimals. For very long durations, or values whose seconds are not exactly representable in binary, the source's float arithmetic can round where the model does not.
- RoundTrip.ParseFormat, RoundTrip.RereadValid, RoundTrip.FormatParseFormat: hold in exact arithmetic only. In the source, `total_seconds()` is a float division, and for durations within about 7.8 ms below `timedelta.max` it rounds up to 86400000000000.0 s; `strftimedelta` then writes `24000000000:00:00`, and `strptimedelta` raises OverflowError on it (a day count of 1000000000). `timedelta.min` is exact and reads back.
- RoundTrip.ParseRender: holds in exact arithmetic only. In the source, the float sum at src/04_timedelta.py:77 keeps microseconds only while the total stays below about 2^32 seconds: `timedelta(days=100000, microseconds=1)` sums to a float nearer 8640000000.0000019 and reads back with 2 µs.
- Decimals.ParseDecimal: accepts plain decimal notation only: an optional sign, digits and at most one `.`. Exponents, `_` separators, `inf`/`nan`, surrounding whitespace and non-ASCII digits, all of which `float` accepts, read as not-a-number here.
- Text.ParseInt: accepts an optional sign and ASCII digits only. `_` separators, surrounding whitespace and non-ASCII digits, which `int` accepts, read as not-an-integer here. Python 3.11 and later also reject numerals longer than 4300 digits (leading zeros included) with ValueError; the model reads them, so such a day token gives a value or Overflow here rather than BadDayCount.
- Tokens split at the space character only, exactly as `strip(" ")` and `split(" ")` do. Other whitespace is ordinary text.
- `timedelta(seconds=x)` is modelled as rounding the exact value half to even to whole microseconds. Python rounds the binary float, which for a field with more than six fraction digits can land one microsecond away.
- The second assignment of the day count at src/04_timedelta.py:74-75 repeats the one at line 73 and is modelled once.
- The demonstration at src/04_timedelta.py:5-42 is not modelled: it calls the datetime library, the clock and the zoneinfo database. The `print` loops at lines 59-60 and 80-82 are not modelled either; they only print `strftimedelta`, `strptimedelta` and `str(td)` of three durations. Their expected outputs are stated as lemmas instead (`FormatProperties.FormatExamples`, `SourceCases.OneDay`, `SourceCases.MinusOneDay`, `SourceCases.DayAndAHalf`, `SourceCases.SourceRoundTrips`).
- TimeDelta.Render models the `str(td)` output forms the script relies on, but not Python's implementation of `timedelta.__str__`.
- The parse examples are stated for every digit string of the given value, e.g. `ClockForms.ParseTwelveHundred` for `12:00`, rather than for one literal string.
- The other scripts in `src/` (locale, strings, timezones, unix time) are not part of this model; src/02_timezones.py is cited only for the `-1 day, 17:00:00` offset it prints.
