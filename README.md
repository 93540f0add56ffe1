# HabitTracker progress graph, modelled in Dafny

The premium progress graph of the HabitTracker app (`app/components/ProgressGraph.js`)
shows one percentage per month, from the start of a selected time range up to the
current month. For each month it walks every calendar day. A day enters the month's
`total` when its weekday is in the habit's `trackingDays` (every day when there is no
schedule) and it is not after today. Among those days, `done` counts the ones whose
`yyyy-MM-dd` key maps to exactly `'completed'` in the habit's completion record. The
month's value is `Math.round(done / total * 100)`, or 0 when `total` is 0. Beside the
chart, the screen shows the last month's value, the rounded average of the series, and
a trend message. The message compares the mean of the last three values with the mean
of the earlier ones, using a margin of 10 points either way.

The project has these files:

- `wrappers.dfy`: the `Option` type, for a result that may be missing.
- `calendar.dfy`: the proleptic Gregorian calendar as JavaScript's `Date` sees it in
  local time. It covers dates, `getDay`, the day step `setDate(getDate() + 1)`,
  `endOfMonth` and date-fns `subMonths`. The weekday comes from a days-since-1970 ordinal
  (the days-from-civil formula). `NextDayNumber` proves that consecutive dates have
  consecutive ordinals, so the weekday advances by one, modulo 7, from each day to the next.
- `keys.dfy`: date-fns `format(d, 'yyyy-MM-dd')`, `parseISO` on that form, and JavaScript
  string order. The string order is what `Object.keys(...).sort()` uses, and `FirstKey`
  picks the first key in it.
- `rounding.dfy`: `Math.round(x / y)` as exact integer half-up rounding.
- `progress.dfy`: `processHabitData`. It covers the range start for each `timeRange`,
  date-fns `eachMonthOfInterval`, the per-month day loop (`CountMonth`), the loop over
  the months (`MonthlyData`), and the facts proved about the counts.
- `stats.dfy`: `trend()`, the current-month figure and the average figure.
- `graph.dfy`: the component as a class. Its fields are the React state `chartData`,
  `loading` and `timeRange`. Its methods are the effect (`Refresh`), `processHabitData`
  and the range buttons. It also defines the view the state selects.

Some behaviour of the code is easy to misread, and the model keeps it as written. The month loop does not check whether the viewed month is the current month: any
day after today is left out of `total`, in any month. A schedule that is present but
empty, or that names no weekday 0..6, counts no day at all; it is not treated as "every
day". `'all'` starts at the first key in string order, whatever that key's status. The
graph never reads the streak figures, so streaks are not part of this model.

Two consequences the proofs make explicit:

- With two or three values the older mean is taken as 0. So for a series with no
  negative values, the trend can only read "improvement" or "stable", never "declined"
  (`ShortSeriesNeverDeclines`).
- date-fns prints the year for `yyyy` as the year of the era. Year 0 therefore gets the
  same key as year 1. The key round trip and injectivity are proved for years 1..9999.

## Model

| member | source | states |
|---|---|---|
| `Calendar.NextDay` | app/components/ProgressGraph.js:82 | the day step yields a valid date after `d` |
| `Calendar.NextDayIsNext` | app/components/ProgressGraph.js:82 | no valid date lies strictly between a date and its next day |
| `Calendar.NextDayNumber` | app/components/ProgressGraph.js:82-83 | consecutive dates have consecutive day ordinals (across month, year and leap-day boundaries) |
| `Calendar.NextDayWeekday` | app/components/ProgressGraph.js:83 | `getDay` of the next day is `getDay` of this day plus one, modulo 7 |
| `Calendar.LastDay` | app/components/ProgressGraph.js:79 | the month's last day is a valid date of that month |
| `Calendar.LastDayIsLast` | app/components/ProgressGraph.js:79 | every date of the month is on or before its last day |
| `Calendar.FirstDay` | app/components/ProgressGraph.js:78 | `startOfMonth`: day 1 of the month |
| `Calendar.Weekday` | app/components/ProgressGraph.js:83 | `getDay` from the day ordinal counted from 1970-01-01, always in 0..6 |
| `Calendar.WeekdayEpoch` | app/components/ProgressGraph.js:83 | anchors the weekday: 1970-01-01 is a Thursday (4) and 2024-01-01 a Monday (1) |
| `Calendar.SubMonths` | app/components/ProgressGraph.js:63-73 | the result is a valid date exactly `n` months earlier by month index, with the day clamped to the target month, and not after the input |
| `Calendar.MonthAt` | app/components/ProgressGraph.js:76 | the month with a given index is a valid month with that index |
| `Calendar.MonthAtIndex` | app/components/ProgressGraph.js:76 | a month is recovered from its index |
| `Calendar.MonthIndexOrder` | app/components/ProgressGraph.js:76 | date order implies month-index order, and a smaller month index implies an earlier date |
| `DateKeys.FormatKey` | app/components/ProgressGraph.js:89 | `format(d, 'yyyy-MM-dd')`: the era year padded to 4 digits, then the month and the day padded to 2, joined by `-`; its meaning is stated by the round-trip, injectivity and order lemmas below |
| `DateKeys.ParseIso` | app/components/ProgressGraph.js:70 | `parseISO` on the `yyyy-MM-dd` form: a valid date of years 0..9999, or none for any other string or a day the month does not have |
| `DateKeys.ParseFormatKey` | app/components/ProgressGraph.js:89 | parsing the `yyyy-MM-dd` key of a date of years 1..9999 returns that date |
| `DateKeys.FormatParsedKey` | app/components/ProgressGraph.js:70 | a key that `parseISO` accepts (year 1 or later) is exactly the key `format` prints for the parsed date |
| `DateKeys.FormatKeyInjective` | app/components/ProgressGraph.js:89 | two dates of years 1..9999 share a key if and only if they are equal |
| `DateKeys.AddLeadingZerosFixed` | app/components/ProgressGraph.js:89 | zero-padding a number of at most `w` digits gives its `w`-digit numeral |
| `DateKeys.KeyOrder` | app/components/ProgressGraph.js:69 | keys sort before each other in string order if and only if their dates are chronologically earlier |
| `DateKeys.LexLess` | app/components/ProgressGraph.js:69 | the order the default `sort()` uses: the first differing character decides, and a proper prefix comes first |
| `DateKeys.LexTrichotomy` | app/components/ProgressGraph.js:69 | string order is total and asymmetric |
| `DateKeys.LexTransitive` | app/components/ProgressGraph.js:69 | string order is transitive |
| `DateKeys.LeastExists` | app/components/ProgressGraph.js:69 | every non-empty key set has a least key in string order |
| `DateKeys.FirstKey` | app/components/ProgressGraph.js:69-70 | the first sorted key is in the set and precedes every other key |
| `Rounding.RoundHalfUp` | app/components/ProgressGraph.js:92 | `Math.round(x / y)` is the integer `r` with `r - 1/2 <= x / y < r + 1/2` |
| `Rounding.RoundBetween` | app/components/ProgressGraph.js:92 | a quotient between `lo` and `hi` rounds to a value between `lo` and `hi` |
| `Progress.CompletionsOf` | app/components/ProgressGraph.js:57 | the habit's record when it has one, otherwise the empty record |
| `Progress.IsTrackingDay` | app/components/ProgressGraph.js:85 | `trackingDays?.includes(weekday) ?? true`: every weekday without a schedule, otherwise the listed ones |
| `Progress.Counted` | app/components/ProgressGraph.js:83-86 | a day enters `total` when its weekday is scheduled and it is not after today |
| `Progress.IsCompleted` | app/components/ProgressGraph.js:89 | the record holds exactly `'completed'` under the day's key |
| `Progress.TotalThrough` | app/components/ProgressGraph.js:80-88 | the number of counted days among days 1..n of the month, built one day at a time like the loop |
| `Progress.DoneThrough` | app/components/ProgressGraph.js:80-90 | the number of counted and completed days among days 1..n of the month |
| `Progress.MonthTotal` | app/components/ProgressGraph.js:80-91 | `total` after the whole month |
| `Progress.MonthDone` | app/components/ProgressGraph.js:80-91 | `done` after the whole month |
| `Progress.Percentage` | app/components/ProgressGraph.js:92 | the rounded percentage lies in 0..100 and is 0 when `total` is 0 |
| `Progress.PercentageRounds` | app/components/ProgressGraph.js:92 | when `total` is positive the percentage is the integer nearest to `100 * done / total`, halves rounded up |
| `Progress.MonthPercent` | app/components/ProgressGraph.js:77-93 | every monthly value lies in 0..100 |
| `Progress.DoneAtMostTotal` | app/components/ProgressGraph.js:84-90 | `done` never exceeds `total` |
| `Progress.TotalIsCountedDays` | app/components/ProgressGraph.js:82-88 | `total` is the number of days of the month that are scheduled and not after today, each counted once |
| `Progress.ArrivedDay` | app/components/ProgressGraph.js:86 | a day of a month is on or before today if and only if its month is earlier, or it is today's month and the day is at most today's |
| `Progress.TotalAtMostArrived` | app/components/ProgressGraph.js:86 | days after today are never counted: `total` is at most the number of days so far not after today |
| `Progress.TotalWithoutSchedule` | app/components/ProgressGraph.js:83-86 | without `trackingDays`, `total` is the number of days not after today: the whole month when it is past, days 1..today (today included) in the current month, 0 in a future month |
| `Progress.FutureMonthIsZero` | app/components/ProgressGraph.js:86-92 | a month after today's month has total 0 and value 0 |
| `Progress.NoScheduledWeekday` | app/components/ProgressGraph.js:83-88 | a schedule naming no weekday 0..6 counts no day |
| `Progress.OnlyCompletedCounts` | app/components/ProgressGraph.js:89 | records that agree on which keys hold exactly `'completed'` give the same `done`; other statuses and missing keys do not count |
| `Progress.NothingCompleted` | app/components/ProgressGraph.js:89-92 | a record in which no value is `'completed'` gives `done` 0 and value 0 |
| `Progress.NoneDone` | app/components/ProgressGraph.js:89 | with no key holding `completed`, `done` stays 0 through every day of the month |
| `Progress.MarkCompleted` | app/components/ProgressGraph.js:89 | marking one counted, not yet completed day `'completed'` raises the month's `done` by exactly one |
| `Progress.CountDay` | app/components/ProgressGraph.js:83-90 | the loop body: `total` grows by one for a counted day, and `done` by one for a counted, completed day |
| `Progress.CountMonth` | app/components/ProgressGraph.js:78-91 | the day loop from `startOfMonth` through `endOfMonth` returns the month's `total` and `done`, with `done <= total` |
| `Progress.RangeStart` | app/components/ProgressGraph.js:61-74 | `'3months'` gives 3 months back and `'1year'` 12 months back; `'all'` gives the parse of the first sorted key, or 6 months back for an empty record; anything else gives 6 months back |
| `Progress.MonthRange` | app/components/ProgressGraph.js:76 | the months with index `lo..hi`, in order |
| `Progress.MonthsOfInterval` | app/components/ProgressGraph.js:76 | every month listed is a valid month |
| `Progress.Reverse` | app/components/ProgressGraph.js:76 | the same list, last entry first; `ReversedSeriesMonths` states what it gives for a start after the end |
| `Progress.MonthlySeries` | app/components/ProgressGraph.js:77-93 | one value per month, each in 0..100 |
| `Progress.MonthlyData` | app/components/ProgressGraph.js:77-93 | the loop over the months returns the series of monthly values |
| `Progress.SeriesMonths` | app/components/ProgressGraph.js:76 | from a start on or before today: exactly one entry per month from the start month through today's month, in chronological order |
| `Progress.ReversedSeriesMonths` | app/components/ProgressGraph.js:76 | from a start after today: one entry per month from the start month down to today's month, latest first |
| `Progress.FixedRangeLength` | app/components/ProgressGraph.js:61-77 | `'3months'` shows 4 values, `'1year'` 13 and the default 7; the last is today's month |
| `Progress.AllStartsAtEarliestKey` | app/components/ProgressGraph.js:68-70 | with `'all'` and well-formed keys, the range starts at the earliest recorded date, of any status, and that date is a key of the record |
| `Progress.LastValueIsTodaysMonth` | app/components/ProgressGraph.js:76-93 | when the range starts on or before today, the last value is today's month's value |
| `Progress.ChartSeries` | app/components/ProgressGraph.js:57-93 | the whole computation: the range start, its months, and one value per month |
| `Stats.Recent` | app/components/ProgressGraph.js:254 | `slice(-3)`: the last `min(3, n)` values |
| `Stats.Older` | app/components/ProgressGraph.js:255 | `slice(0, -3)`: the values before the recent ones, which together with them make up the series |
| `Stats.Sum` | app/components/ProgressGraph.js:256 | `reduce((a, b) => a + b, 0)`, adding the values from the first to the last |
| `Stats.Mean` | app/components/ProgressGraph.js:256-259 | the exact average of a non-empty series |
| `Stats.RecentMean` | app/components/ProgressGraph.js:256 | `avgR`: the mean of the recent values |
| `Stats.OlderMean` | app/components/ProgressGraph.js:257-259 | `avgO`: the mean of the older values, or 0 when there are none |
| `Stats.TrendOf` | app/components/ProgressGraph.js:252-265 | there is no trend message exactly when there are fewer than 2 values |
| `Stats.TrendByMeans` | app/components/ProgressGraph.js:256-264 | "improvement" if and only if the recent mean exceeds the older mean (0 when there are no older values) by more than 10; "declined" if and only if it is not improvement and the recent mean is more than 10 below; "stable" if and only if it is within 10 either way |
| `Stats.CrossMultiply` | app/components/ProgressGraph.js:256-263 | comparing the two means with a margin of 10 is the same as comparing the cross-multiplied sums |
| `Stats.DivideByCount` | app/components/ProgressGraph.js:256-263 | with no older values, comparing the recent mean against ±10 is the same as comparing its sum against ±10 times its count |
| `Stats.TrendMessage` | app/components/ProgressGraph.js:253-264 | the empty text exactly for "no trend" |
| `Stats.SumAtLeast` | app/components/ProgressGraph.js:256 | a sum of values each at least `lo` is at least `lo` times their count |
| `Stats.SumAtMost` | app/components/ProgressGraph.js:521 | a sum of values each at most `hi` is at most `hi` times their count |
| `Stats.ShortSeriesNeverDeclines` | app/components/ProgressGraph.js:254-263 | with two or three non-negative values, the trend is never "declined" |
| `Stats.CurrentMonthValue` | app/components/ProgressGraph.js:498 | the last value of the series, or 0 for an empty one |
| `Stats.AverageValue` | app/components/ProgressGraph.js:520-523 | the average figure is the integer nearest to the mean of the series, with halves rounded up |
| `Stats.AverageWithin` | app/components/ProgressGraph.js:520-523 | the average figure lies within the values' bounds, so in 0..100 for a series of monthly values |
| `Graph.ViewOf` | app/components/ProgressGraph.js:408-559 | while loading, a spinner; then the stats grid with the current-month figure, the average and the trend when there are values, otherwise the empty state |
| `Graph.ComputedView` | app/components/ProgressGraph.js:495-546 | after a computation from a range starting on or before today, the stats grid shows today's month's value as the current month and an average in 0..100 |
| `Graph.ProgressGraph.constructor` | app/components/ProgressGraph.js:41-43 | the initial state: no data, loading, range `'6months'` |
| `Graph.ProgressGraph.SelectTimeRange` | app/components/ProgressGraph.js:373 | a range button sets `timeRange` and changes nothing else |
| `Graph.ProgressGraph.ProcessHabitData` | app/components/ProgressGraph.js:55-97 | `chartData` becomes the series for the habit's record, schedule, range and today; `loading` ends false; `timeRange` is unchanged |
| `Graph.ProgressGraph.Refresh` | app/components/ProgressGraph.js:49-53 | recomputes exactly when the modal is visible, a habit is selected and the habit has a record; otherwise the state is unchanged |

## Left out

- The clock: `new Date()` is the parameter `today`, the local calendar date at the time of
  the call. The time of day is not modelled. A day's local midnight is at or before the
  current instant exactly when its date is on or before today's date, and that is the
  only use the code makes of the time.
- Time zones and daylight-saving transitions: dates are local calendar dates.
- Floating point. `Math.round(done / total * 100)` is modelled as exact half-up rounding.
  With at most 31 days in a month, the only exact half-way quotients are odd eighths, and
  those are exact in binary, so the float path gives the same result. This is argued,
  not proved.
- `Stats.TrendOf`: compares the exact rational means. The JavaScript comparison of
  floating-point means can differ when a mean lies exactly on the ±10 boundary and the
  division is inexact, for example 100/3 against 70/3 + 10.
- `Stats.AverageValue`: exact rational rounding, not the float division.
- `parseISO`: only the calendar-date form `yyyy-MM-dd` is modelled, with date-fns's checks
  of month and day. Any other string is treated as an Invalid Date. That includes the
  other ISO 8601 forms date-fns accepts: reduced precision, week dates, ordinal dates,
  time parts and expanded years.
- `eachMonthOfInterval` follows date-fns 3 and 4. An Invalid Date start gives no months.
  A start after today gives the months from today's month to the start's month, latest
  first. date-fns 2 throws a `RangeError` in both cases instead. The repository's
  date-fns version is not part of this model.
- String order: Dafny characters are Unicode scalar values, while JavaScript compares
  UTF-16 code units. The two orders differ only for keys holding characters outside the
  Basic Multilingual Plane.
- `DateKeys.FormatKeyInjective` and `DateKeys.KeyOrder`: proved for years 1..9999 only.
  Year 0 shares a key with year 1, and years past 9999 print more than four digits.
- `trackingDays` is a sequence of integers. Values of other JavaScript types (such as the
  string `"1"`) are not modelled; `includes` would never match them.
- The chart labels, chart configuration, JSX layout, the export, save and share actions
  (file system, media library, view capture, alerts) and the premium gate: these are UI
  and I/O.
- `app/components/Subscriptions.js`, `utils/iapHelper.js`, `app/components/ColorPickerModal.js`
  and `app/store/useUserStore.js`: in-app purchase and receipt-validation network calls,
  UI, and a persisted store with one boolean. None of them computes anything the graph uses.
