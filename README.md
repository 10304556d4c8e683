# Countdown timer — a Dafny model

The program is a one-page countdown timer (`index.js`). The user chooses a
target instant in six number inputs. Once a second, the page shows the signed
time left as `[-]HH:MM:SS` and draws a gauge of two SVG arcs: one for the
elapsed part of the span from page load to the target, one for the remaining
part. This project models the computations behind that display:

- `wrappers.dfy`, module `Wrappers`: the `Option` type.
- `decimal.dfy`, module `Decimal`: this module covers the JavaScript builtins the core uses on numbers and text:
  - `Number.prototype.toString()` of an integer;
  - `String.prototype.padStart`;
  - `Number(text)`, restricted to an optional '-' followed by decimal digits.
  It proves that printing and then reading a number gives the number back.
- `countdown.dfy`, module `Countdown`: the readout of `TimerTextElement.update`. It covers three things:
  - rounding the difference to whole seconds, ties going up as `Math.round` does;
  - the sign;
  - the hours, minutes and seconds fields.
  A reference reader, `ParseCountdown`, for the `[-]H:MM:SS` format shows that the readout loses nothing.
- `gauge.dfy`, module `Gauge`: the angular part of `TimerGraphElement.update`. It covers:
  - the clamped progress;
  - the angle where the two arcs meet;
  - the large-arc flag of each arc.
  It checks the flags against the definition in section 8.3.8 of SVG 1.1.
  The code divides by `target - start` with no guard. This part is modelled twice:
  - as written, with JavaScript's infinities and NaN;
  - guarded, as the corrected computation (see Findings).
- `tick.dfy`, module `Tick`: the delay before the next refresh. It waits until the next wall-clock second boundary, but never less than 100 ms.
- `calendar.dfy`, module `Calendar`: the month carry of a `Date`'s setters, for in-range arguments, and its effect on `getDate` (see Findings).
- `date_input.dfy`, module `DateInput`:
  - `TimerInputElement` becomes the class `TimerInput`. It holds an array of the six input texts. `SetDate` and `GetDate` loop over the six fields as the source does.
  - A `Date` is modelled as the record of the values its getters return.

Three details of the code's behaviour matter for the contracts:

- `Math.round` rounds a half toward +∞, so -1.5 s shows as `-00:00:01`.
- Each `<path>` is drawn with stroke-width `width * 0.5`, which is 0.1.
- The year is written with `toString()` and is not padded.

## Model

| member | source | states |
|---|---|---|
| Decimal.NatToStringShape | index.js:33 | the text of a natural number is all digits; it starts with '0' only for 0 and is one character exactly below 10 |
| Decimal.IntToString | index.js:33 | `n.toString()`: the text is non-empty; its shape is stated by `IntToStringSign` and `NatToStringShape`, and its reading by `ParseIntToString` |
| Decimal.IntToStringSign | index.js:33 | the text of an integer starts with '-' exactly when the integer is negative |
| Decimal.PadStart | index.js:34 | the padded text has length max(len, width) |
| Decimal.PadStartShape | index.js:34 | the original text is the suffix of the padded text, and the prefix is the fill character |
| Decimal.ParseInt | index.js:42 | `Number(text)` for an optional '-' followed by digits, None (NaN) otherwise; `ParseIntToString` and `ParseIntPadded` show it inverts the writing side |
| Decimal.ParseNatToString | index.js:33 | reading back the text of a natural number gives that number |
| Decimal.ParseDigitsLeadingZero | index.js:34 | a leading '0' does not change the value of a digit string |
| Decimal.ParseIntToString | index.js:33 | `Number(n.toString()) == n` for every integer |
| Decimal.ParseIntPadded | index.js:33-34 | `Number(n.toString().padStart(2, "0")) == n` for every integer, negatives included |
| Countdown.RoundedSeconds | index.js:59 | the result is the whole number of seconds nearest to the difference, with a half second rounded up |
| Countdown.Abs | index.js:61 | the magnitude is the number or its negation |
| Countdown.HoursOf | index.js:62 | `Math.floor(a / 3600)`, the hours field; `Decomposition` shows that the three fields rebuild the magnitude |
| Countdown.MinutesOf | index.js:63 | `Math.floor(a / 60) % 60`, the minutes field; `Decomposition` bounds it below 60 |
| Countdown.SecondsOf | index.js:64 | `a % 60`, the seconds field; `Decomposition` bounds it below 60 |
| Countdown.Pad2 | index.js:62-64 | `n.toString().padStart(2, "0")`; its shape is given by `Pad2Shape` and its reading by `Pad2Value` |
| Countdown.Clock | index.js:62-65 | the unsigned `HH:MM:SS` text; `ClockRoundTrip` reads it back as the magnitude |
| Countdown.Format | index.js:58-65 | the readout `[-]HH:MM:SS`; it is read back exactly by `FormatRoundTrip`, and its sign is given by `FormatSign` |
| Countdown.Decomposition | index.js:62-64 | hours*3600 + minutes*60 + seconds is the magnitude; minutes and seconds are below 60 |
| Countdown.Pad2Shape | index.js:62-64 | each field is at least two digits; a single digit gets exactly one leading '0'; wider numbers are printed in full |
| Countdown.Pad2Value | index.js:62-64 | each field reads back as its value and is exactly two digits below 100 |
| Countdown.FormatSign | index.js:60-65 | the readout starts with '-' exactly when the rounded time left is negative, and otherwise with a digit |
| Countdown.ClockRoundTrip | index.js:61-65 | reading back the unsigned `HH:MM:SS` part gives the magnitude it was made from; hours are never truncated |
| Countdown.FormatRoundTrip | index.js:58-66 | reading back the readout gives the rounded, signed number of seconds left |
| Countdown.FormatEqualInstants | index.js:58-66 | equal instants show `00:00:00` |
| Countdown.FormatHalfSecond | index.js:59-60 | +1.5 s shows `00:00:02` and -1.5 s shows `-00:00:01` |
| Countdown.NoNegativeZero | index.js:59-61 | `-00:00:00` is never shown |
| Countdown.FormatSwap | index.js:59-60 | if the difference is not on a half second, swapping the instants negates the rounded value; a positive readout then gains only a leading '-' |
| Gauge.Divide | index.js:78 | division by a nonzero number is exact; NaN comes exactly from 0/0 |
| Gauge.Min | index.js:79 | `Math.min` is NaN exactly when an argument is NaN; otherwise it is the smaller argument |
| Gauge.Max | index.js:79 | `Math.max` is NaN exactly when an argument is NaN; otherwise it is the larger argument |
| Gauge.ProgressAsWritten | index.js:78-79 | the clamped quotient over JavaScript numbers; `ProgressAgreesWithSource` says when it is NaN and that it equals the guarded progress otherwise |
| Gauge.MiddleDegAsWritten | index.js:82 | the interpolation over JavaScript numbers, with NaN passed through; `DegenerateRangeAsWritten` uses it |
| Gauge.FlagsAsWritten | index.js:91-96 | both large-arc tests over JavaScript numbers, NaN failing them; `DegenerateRangeAsWritten` shows both are 1 for an empty span |
| Gauge.DegenerateRangeAsWritten | index.js:78-96 | as written, start = current = target gives progress NaN and sets both large-arc flags |
| Gauge.Clamp01 | index.js:79 | the result lies in [0, 1]; it is the input when the input is in range, else the nearer bound |
| Gauge.Progress | index.js:78-79 | the guarded progress lies in [0, 1] |
| Gauge.ProgressAgreesWithSource | index.js:78-79 | the progress as written is NaN exactly when the three instants coincide; otherwise it equals the guarded progress |
| Gauge.FlagsAgreeWithSource | index.js:78-96 | unless start, current and target coincide, the large-arc flags as written equal those of the guarded gauge |
| Gauge.ProgressEndpoints | index.js:78-79 | for any non-empty span, progress is 0 at the start and 1 at the target; for a forward span it is also 0 before the start and 1 after the target |
| Gauge.PastTargetShowsNoProgress | index.js:78-82 | a target before the page load gives progress 0 from the load on, so the meeting angle stays at StartDeg |
| Gauge.ProgressHalfway | index.js:78-79 | progress is one half at the midpoint of the span |
| Gauge.ProgressMonotone | index.js:78-79 | progress never decreases as the current instant advances, on a forward or empty span, and on a backward span once the start is reached |
| Gauge.MiddleDegBounds | index.js:80-82 | the meeting angle lies between EndDeg and StartDeg; it is StartDeg at 0 and EndDeg at 1, and strictly decreasing |
| Gauge.MiddleDeg | index.js:80-82 | the interpolation from 254 degrees at progress 0 to -74 at 1; `MiddleDegBounds` gives its range, endpoints and monotonicity |
| Gauge.LargeArcFlag | index.js:91-96 | `Math.abs(to - from) < 180 ? 0 : 1`; `ArcFlagsMatchSweep` shows it is the SVG large-arc flag of the arcs it is used on |
| Gauge.EmptySpanComplete | index.js:78-82 | with the guard, an empty span is complete once reached: progress 1, the meeting angle at EndDeg, the remaining arc empty and not large |
| Gauge.Render | index.js:77-101 | the progress is the guarded progress and the meeting angle its interpolation. The elapsed arc runs from StartDeg to the meeting angle in #E94560; the remaining arc runs from the meeting angle to EndDeg in #0F3460. Both have radius 0.9, stroke width 0.1 and sweep-flag 1 |
| Gauge.SweptAngle | index.js:94-99 | the angle swept in the positive direction lies in [0, 360) |
| Gauge.ArcFlagsMatchSweep | index.js:91-99 | each arc's large-arc flag is 1 exactly when its swept angle is at least 180 degrees; the two sweeps add up to the gauge's 328 degrees |
| Gauge.AtMostOneLargeArc | index.js:91-96 | at most one arc is large; the remaining arc is large iff the meeting angle is at least EndDeg+180; the elapsed arc is large iff it is at most StartDeg-180 |
| Tick.NextTimeout | index.js:125-126 | the delay is at least 100 ms, ends on a second boundary and is below 1100 ms |
| Tick.ShortestAligned | index.js:125-126 | such a delay is the shortest delay that ends on a boundary and keeps the 100 ms margin |
| Tick.NextTickOnBoundary | index.js:125-127 | measured from an epoch instant, the next tick is scheduled for a second boundary, between 100 ms and 1.1 s later |
| DateInput.Set | index.js:44 | a setter sets its own field and leaves every other field and the milliseconds unchanged |
| DateInput.Get | index.js:31 | `date[`get${key}`]()` as a field of the record; `Set` states that a setter sets what the getter then returns |
| DateInput.InputText | index.js:31-34 | the text `setDate` writes for a field; its reading is stated by `InputRoundTrip` and its padding by `InputTextPadding` |
| DateInput.InputValue | index.js:42-43 | the value `getDate` passes to a field's setter, or None for NaN; it inverts `InputText` by `InputRoundTrip` |
| DateInput.InputRoundTrip | index.js:31-34 | reading back a field's input text gives the value it was written from; this holds for the month, which is written +1 and read -1 |
| DateInput.MonthOneBased | index.js:32-33 | the month input shows the one-based month |
| DateInput.InputTextPadding | index.js:33-34 | non-year fields have at least two characters, and single digits get one leading '0'; the year is unpadded |
| DateInput.InputTexts | index.js:29-36 | the six texts `setDate` writes, one per field in input order; `TimerInput.SetDate` ensures the inputs hold them, and `InputValuesOfTexts` reads them back |
| DateInput.SetFields | index.js:41-45 | the first `n` turns of `getDate`'s loop as a fold; `TimerInput.GetDate`'s loop invariant is this fold, and `DateFromTextsFields` states its result |
| DateInput.DateFromTextsFields | index.js:38-47 | with carry-free setters, reading the inputs succeeds iff every text is a number; each field then comes from its own input, and the milliseconds are 0 |
| DateInput.DateFromTexts | index.js:38-47 | `getDate`'s fold of the six setters over the texts, without calendar carry; `DateFromTextsFields` and `SetThenGet` state its result |
| DateInput.SetThenGet | index.js:29-47 | with carry-free setters, `setDate(d)` then `getDate()` gives `d` with its milliseconds zeroed, whatever the clock reads |
| DateInput.DefaultTarget | index.js:22-26 | the initial target: three hours on from `now`, on the hour, without carry into the next day; the constructor's contract states that the inputs hold it |
| DateInput.TimerInput.constructor | index.js:22-27 | the inputs start out holding the target three hours from now, on the hour |
| DateInput.TimerInput.SetDate | index.js:29-36 | afterwards the six inputs hold exactly the texts of the date's six fields |
| DateInput.TimerInput.GetDate | index.js:38-47 | the result is the date the six texts denote, starting from the clock's reading with the milliseconds zeroed, or None when a text is not a number |
| Calendar.DaysInMonth | index.js:44 | month lengths of the Gregorian calendar: 31 days for January, March, May, July, August, October and December; 30 for April, June, September and November; 29 in February of a leap year and 28 otherwise |
| Calendar.Normalize | index.js:44 | a day past the end of its month moves into the next month by the month's length; a valid date is unchanged |
| Calendar.CalendarSet | index.js:44 | a setter with an in-range argument gives a valid date, and the carry-free `Set` when that is already valid |
| Calendar.SetAll | index.js:41-45 | the six setters in turn, with carry, give a valid date |
| Calendar.GetDateAsWritten | index.js:38-46 | `getDate` as written, with carry, from the clock's date; `AsWrittenReadsBackIff` says exactly when it reads the target back |
| Calendar.GetDateFromFirstDay | index.js:38-46 | `getDate` with the day set to 1 before the month; `FromFirstDayRoundTrip` shows it always reads the target back |
| Calendar.MonthCarryAsWritten | index.js:39-45 | as written, on 31 January 2026 inputs showing 15 February are read as 15 March |
| Calendar.AsWrittenEarlyInMonth | index.js:39-45 | as written, every valid target is read back when the clock's day is at most 28 |
| Calendar.AsWrittenReadsBackIff | index.js:39-45 | as written, a valid target is read back iff the day left after `setFullYear` exists in the target month; otherwise the result is in the month after |
| Calendar.NextDay | index.js:23 | the following day is a valid date: the day + 1 within the month, otherwise the 1st of the next month, rolling the year after December |
| Calendar.DefaultTargetCarried | index.js:22-26 | the constructor's target with `setHours` carried: a valid date at hour (h+3) mod 24 with zero minutes, seconds and milliseconds; equal to `DefaultTarget` before 21:00, on the next day from 21:00 |
| Calendar.FromFirstDayRoundTrip | index.js:38-47 | with the day first set to 1, every valid target is read back whatever the clock reads; this equals the carry-free `DateFromTexts` on the texts `setDate` writes |

## Left out

- DOM access is not modelled: finding elements, setting `type`, `textContent` and `innerHTML` (index.js:4-6, 48-51, 55-57, 67-70, 74-76, 103-106). An input is modelled as its text value.
- The `input` listeners and the `onChange` callback (index.js:15-20, 114-117) are not modelled because they are event wiring; they only call the modelled operations.
- The main loop is not modelled because it is scheduling: the `DOMContentLoaded` handler, `setTimeout` (index.js:109-130). Clock readings are parameters.
- The endpoint coordinates are not modelled because they need trigonometry on floating point: `cos`/`sin` (index.js:85-90). Neither is the assembly of the `<path>` markup (index.js:92-101); arcs are kept as angles, flags and colours.
- Gauge.Progress, Gauge.MiddleDeg: numbers are exact reals. IEEE doubles and their rounding are not modelled.
- DateInput.Set: a `Date`'s setters are modelled without calendar normalisation, so an out-of-range field (month 13, day 0) does not carry into the others. The carry of a day past the end of a month is modelled separately, in `Calendar`, for in-range arguments only.
- DateInput.DateFromTextsFields: "each field comes from its own input" holds only for carry-free setters. In the source, `setMonth` on a clock date of the 29th to 31st can carry into the next month before `setDate` runs (see Findings).
- DateInput.SetThenGet: the round trip holds only for carry-free setters. In the source it can fail. It fails exactly when the day left after `setFullYear` is past the target month's last day (`Calendar.AsWrittenReadsBackIff`; an example is `Calendar.MonthCarryAsWritten`). It always holds when the clock's day is at most 28 (`Calendar.AsWrittenEarlyInMonth`).
- DateInput.DefaultTarget: `hours + 3` is not carried, so from 21:00 the target's hours are 24 to 26 on the same day. In the source (index.js:23) the target rolls over to 00 to 02 of the next day. `Calendar.DefaultTargetCarried` states that carried target separately.
- DateInput.TimerInput.constructor: it writes `DefaultTarget`, so from 21:00 the hours input holds 24 to 26 where the source shows 00 to 02 of the next day; the constructor does not use `Calendar.DefaultTargetCarried`.
- Calendar.CalendarSet: only in-range setter arguments on valid dates are modelled (month 0-11, day 1-31, time fields in range). The source's normalisation of arbitrary values, such as a month of 13 or a day of 0, is not modelled.
- Calendar: a `Date`'s fields are local time, and the model takes the local time zone to have no daylight-saving changes. `setHours` on a local time that a DST change skips moves the instant, so `Calendar.FromFirstDayRoundTrip`'s "every valid target is read back" holds only in a zone without DST.
- Decimal.ParseInt: `Number(text)` is modelled only for an optional '-' followed by decimal digits. Other texts count as NaN, and a NaN value makes the whole date invalid. The rest of the grammar is not modelled: whitespace, '+', a decimal point, exponents, hexadecimal. A `type="number"` input holds either the empty text or a decimal number, possibly with a fraction or an exponent such as `1.5` or `1e3`. A cleared field gives 0 in the source but is read as invalid here.
- Countdown: the instants' milliseconds are unbounded integers. The range limit of JavaScript `Date` values is not modelled.

## Findings

| source | as written | input that shows it | evidently intended | confidence | as-written member | corrected member |
|---|---|---|---|---|---|---|
| index.js:78-79 | progress is `(current - start) / (target - start)` with no guard against an empty span | start = current = target (the target set to the load instant within the same millisecond). 0/0 gives NaN, `Math.min`/`Math.max` keep the NaN, and both large-arc flags become 1 | a span of zero length counts as complete, so progress is 1 and only the elapsed arc is drawn | not executed | Gauge.DegenerateRangeAsWritten | Gauge.EmptySpanComplete, Gauge.AtMostOneLargeArc, Gauge.FlagsAgreeWithSource |
| index.js:39-44 | `getDate` starts from the clock's date and calls `setMonth` before `setDate`, so the clock's day applies to the target month first | the clock reads 31 January 2026 and the inputs show 2026-02-15 10:00:00. `setMonth(1)` makes 31 February, which normalises to 3 March, and `setDate(15)` gives 15 March | the date the inputs show, whatever the clock's day, for example by setting the day to 1 before the month | not executed | Calendar.MonthCarryAsWritten | Calendar.FromFirstDayRoundTrip |
