# ClockDisplay in Dafny

A model of `ClockDisplay`, a digital clock with an American-style 12-hour AM/PM display
that runs internally as a 24-hour clock. The clock holds two wrap-around counters
(`NumberDisplay` objects): hours, which wrap at 24, and minutes, which wrap at 60.
`timeTick` advances the minutes and carries into the hours when the minutes roll over
to zero. `setTime` assigns both counters. After every change, `updateDisplay` recomputes
a cached display string of the form `HH:MM token`, and `getTime` returns that string.

Files and modules:

- `number_display.dfy`, module `NumberDisplays`: the counter class `NumberDisplay`
  (limit, value, `Increment`, `SetValue`, `GetValue`). Its source file is not part of
  this model. It is modelled from how `ClockDisplay` uses it: `increment` wraps
  `value` to `(value + 1) % limit`, and `setValue` is modelled for in-range arguments only.
- `clock_time.dfy`, module `ClockTime`: the internal time `Time(hour, minute)`. It holds
  the pure tick `Tick`, its iteration `Ticks`, and the minute of the day. The minute of
  the day is the independent reference: a tick is its successor modulo 1440.
- `clock_format.dfy`, module `ClockFormat`: the display string as a pure function
  `Format` of the time. It also holds the parser `ParseDisplay`, the decoder `DecodeTime`,
  and the corrected formatter for the finding below.
- `clock_display.dfy`, module `Clock`: the class `ClockDisplay`. It keeps the source's
  fields `hours`, `minutes`, `displayString` and `isAM`. The object invariant `Valid()`
  says the cached string equals `Format` of the counters. The module also has small
  client methods for the boundary cases the source documents.

The class comment (`ClockDisplay.java:3-4`) promises an American-style 12-hour clock
that shows both AM and PM, and the ternary at `ClockDisplay.java:101-104` picks one of
two tokens by a boolean. The code itself writes `PM` only at hour 12. For hours 13 to 23
it writes `PM:`, with a trailing colon (`ClockDisplay.java:104`). The class models the
code as written. The plain `AM`/`PM` token is modelled and proved separately as the
corrected display (see "## Findings").

## Model

| member | source | states |
|---|---|---|
| `NumberDisplays.NumberDisplay.constructor` | ClockDisplay.java:28-29 | a counter is created with the given positive limit and value 0 |
| `NumberDisplays.NumberDisplay.GetValue` | ClockDisplay.java:52 | the value read is always below the counter's limit |
| `NumberDisplays.NumberDisplay.Increment` | ClockDisplay.java:51-53 | the value becomes `(value + 1) % limit`; the invariant `0 <= value < limit` is kept |
| `NumberDisplays.NumberDisplay.SetValue` | ClockDisplay.java:64-65 | an in-range argument becomes the value |
| `ClockTime.MinuteOfDay` | ClockDisplay.java:5 | an internal time is a minute of the day in 0..1439 |
| `ClockTime.Tick` | ClockDisplay.java:49-54 | one tick keeps the time in range (hours 0..23, minutes 0..59) |
| `ClockTime.Ticks` | ClockDisplay.java:49-54 | any number of ticks keeps the time in range |
| `ClockTime.MinuteOfDayInjective` | ClockDisplay.java:5 | two valid times are equal exactly when their minutes of the day are equal |
| `ClockTime.TickIsSuccessor` | ClockDisplay.java:49-54 | a tick advances the minute of the day by one, wrapping 1439 (23:59) to 0 (00:00) |
| `ClockTime.TicksAdvance` | ClockDisplay.java:49-56 | `n` ticks advance the minute of the day by `n` modulo 1440 |
| `ClockTime.TicksReturn` | ClockDisplay.java:49-56 | `n` ticks return the clock to its starting time if and only if `n` is a multiple of 1440 |
| `ClockTime.FullDay` | ClockDisplay.java:49-56 | 1440 ticks return every valid time to itself |
| `ClockFormat.Digit` | ClockDisplay.java:107 | a digit 0..9 is written as a decimal digit character that reads back as the same digit |
| `ClockFormat.TwoDigits` | ClockDisplay.java:107 | `%02d` of a value 0..99 is exactly two digit characters that read back as that value |
| `ClockFormat.TwoDigitsUnique` | ClockDisplay.java:107 | two digit characters are determined by the value they write |
| `ClockFormat.DisplayHour` | ClockDisplay.java:91-95 | the displayed hour is in 1..12 and is congruent to the internal hour modulo 12; so 0 shows 12, 1..12 are unchanged and 13..23 show h-12 |
| `ClockFormat.Period` | ClockDisplay.java:97-104 | the token as written: its first two letters are `AM` exactly before noon and `PM` from noon on, and it is the plain token exactly up to hour 12; so 0..11 give `AM`, 12 gives `PM` and 13..23 give `PM:` |
| `ClockFormat.Render` | ClockDisplay.java:107 | `String.format("%02d:%02d %s", …)`: the result is 6 characters plus the token, and parsing it gives back exactly the hour, minute and token it was written from |
| `ClockFormat.Format` | ClockDisplay.java:80-107 | the display string of a valid time is `Render(DisplayHour(h), m, Period(h))`: it parses to the 12-hour hour (1..12), the exact minute and the as-written token, `PM:` included; `DecodeIsInverse` and `FormatInjective` show it determines the time |
| `ClockFormat.ParseDisplay` | ClockDisplay.java:107 | a string that parses has two-digit fields, so its hour and minute are below 100 |
| `ClockFormat.RenderParse` | ClockDisplay.java:107 | every string that parses is the rendering of its parsed fields |
| `ClockFormat.DecodeIsInverse` | ClockDisplay.java:80-107 | decoding a string gives time `t` if and only if `t` is valid and the string is `Format(t)` |
| `ClockFormat.FormatInjective` | ClockDisplay.java:80-107 | two valid times show the same string if and only if they are equal |
| `ClockFormat.CorrectedPeriodWellFormed` | ClockDisplay.java:97-104 | with the corrected token, the period is always exactly `AM` or `PM`, and it is `AM` exactly before noon |
| `ClockFormat.CorrectedFormatRecoversTime` | ClockDisplay.java:91-107 | the corrected display still gives back the exact internal hour and minute |
| `ClockFormat.FormatMatchesCorrected` | ClockDisplay.java:97-104 | the display as written equals the corrected display if and only if the hour is at most 12 |
| `ClockFormat.AfternoonTokenMalformed` | ClockDisplay.java:101-104 | 13:00 shows `01:00 PM:` as written, and `01:00 PM` with the correction |
| `ClockFormat.FormatExamples` | ClockDisplay.java:91-107 | (0,0) shows `12:00 AM`, (0,5) `12:05 AM`, (11,59) `11:59 AM`, (12,0) `12:00 PM`, (23,59) `11:59 PM:` |
| `Clock.ClockDisplay.constructor` | ClockDisplay.java:26-31 | a default clock holds fresh counters at hours 0 and minutes 0, and its cache is up to date |
| `Clock.ClockDisplay.Init` | ClockDisplay.java:38-43 | a clock created with an in-range hour and minute holds exactly that time, and its cache is up to date |
| `Clock.ClockDisplay.TimeTick` | ClockDisplay.java:49-56 | minutes become `(m+1) % 60`; hours become `(h+1) % 24` when the new minute is 0 and are unchanged otherwise; the cache is up to date |
| `Clock.ClockDisplay.SetTime` | ClockDisplay.java:62-67 | an in-range call leaves hours = h and minutes = m, and the cache is up to date |
| `Clock.ClockDisplay.GetTime` | ClockDisplay.java:72-75 | returns the cached string, which is `Format` of the current counters; it changes nothing |
| `Clock.ClockDisplay.UpdateDisplay` | ClockDisplay.java:80-108 | the source's branching on `currentHour` and `isAM` writes exactly `Format(hours, minutes)`; `isAM` becomes `hours < 12` |
| `Clock.DefaultClockShowsMidnight` | ClockDisplay.java:22-31 | a freshly constructed clock shows exactly `12:00 AM` |
| `Clock.TickAtMidnight` | ClockDisplay.java:49-56 | from 23:59 (`11:59 PM:`), one tick gives hours 0 and minutes 0 and shows `12:00 AM` |
| `Clock.GetTimeIsStable` | ClockDisplay.java:72-75 | two reads with no change in between give the same string, equal to `Format` of the state |
| `Clock.SetTimeShows` | ClockDisplay.java:62-75 | after an in-range `setTime(h, m)` the counters hold h and m, and the shown string decodes to exactly (h, m) |

## Left out

- `NumberDisplay.java` is not part of this model. The counter class is modelled from how `ClockDisplay` uses it.
- `NumberDisplays.NumberDisplay.SetValue`: out-of-range arguments are excluded by a precondition. The counter's source is not available, so whether it ignores, clamps or rejects them is unknown.
- `Clock.ClockDisplay.SetTime`: out-of-range arguments are excluded by a precondition for the same reason. The model claims no atomicity and no error handling.
- `Clock.ClockDisplay.Init`: out-of-range arguments are excluded by a precondition for the same reason.
- `String.format` is not modelled as a library call. `%02d` is written out as two-character zero padding of a value in 0..99 (`ClockFormat.TwoDigits`), and the whole format is written out as `ClockFormat.Render`.
- The `isAM` field gets no invariant of its own. It is scratch state derived from the hour, and `UpdateDisplay` states the value it writes.
- The 1440-tick cycle is proved on the pure tick (`ClockTime.FullDay`, `ClockTime.TicksReturn`). `TimeTick`'s postcondition ties each call to that tick. No client loop drives the object through a whole day, because the source has no such loop.
- Java's 32-bit `int` is not modelled. Every value stays below 1440, so no overflow can happen.
- Tick cadence, real time, timezones and concurrency are not modelled. The source has none of them; the caller decides when to call `timeTick`.

## Findings

| source | as written | input that shows it | evidently intended | confidence | as-written member | corrected member |
|---|---|---|---|---|---|---|
| ClockDisplay.java:101-104 | hours 13..23 get the period token `"PM:"`, with a trailing colon | `setTime(13, 0)` shows `01:00 PM:` | `01:00 PM`: every hour from noon on gets `"PM"` | high (not executed) | `ClockFormat.AfternoonTokenMalformed` | `ClockFormat.CorrectedPeriodWellFormed` |

The class `ClockDisplay` keeps the token as written, so that its display matches the code.
`ClockFormat.CorrectedFormat` is the intended display. `ClockFormat.FormatMatchesCorrected`
shows that the two agree at every hour up to 12 and differ at every hour after it.
