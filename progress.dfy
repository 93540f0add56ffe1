// processHabitData of the progress graph: the start of the selected time
// range, the months from there to today, and for each month the share of its
// scheduled, already-arrived days the completion record marks 'completed'.

module Progress {
  import opened Wrappers
  import opened Calendar
  import opened DateKeys
  import opened Rounding

  /** A habit as the graph sees it: its id and its optional weekday schedule. */
  datatype Habit = Habit(id: string, trackingDays: Option<seq<int>>)

  /** One habit's completion record: date key to status tag. */
  type Completions = map<string, string>

  /** habitData[selectedHabit.id] || {} */
  function CompletionsOf(habitData: map<string, Completions>, id: string): (c: Completions)
    ensures id in habitData ==> c == habitData[id]
    ensures id !in habitData ==> c == map[]
  {
    if id in habitData then habitData[id] else map[]
  }

  /** trackingDays?.includes(weekday) ?? true */
  predicate IsTrackingDay(trackingDays: Option<seq<int>>, weekday: int) {
    match trackingDays
    case None => true
    case Some(days) => weekday in days
  }

  /** A day enters the month's total: it is scheduled and it is not after today. */
  predicate Counted(trackingDays: Option<seq<int>>, d: Date, today: Date)
    requires ValidDate(d)
  {
    IsTrackingDay(trackingDays, Weekday(d)) && DateLe(d, today)
  }

  /** completions[format(d, 'yyyy-MM-dd')] === 'completed' */
  predicate IsCompleted(c: Completions, d: Date)
    requires ValidDate(d)
  {
    FormatKey(d) in c && c[FormatKey(d)] == "completed"
  }

  /** The counted days among days 1..n of month ym. */
  function TotalThrough(t: Option<seq<int>>, ym: YearMonth, today: Date, n: nat): nat
    requires ValidMonth(ym) && n <= DaysInMonth(ym.year, ym.month)
  {
    if n == 0 then 0
    else TotalThrough(t, ym, today, n - 1) + (if Counted(t, Date(ym.year, ym.month, n), today) then 1 else 0)
  }

  /** The counted and completed days among days 1..n of month ym. */
  function DoneThrough(c: Completions, t: Option<seq<int>>, ym: YearMonth, today: Date, n: nat): nat
    requires ValidMonth(ym) && n <= DaysInMonth(ym.year, ym.month)
  {
    if n == 0 then 0
    else
      var d := Date(ym.year, ym.month, n);
      DoneThrough(c, t, ym, today, n - 1) + (if Counted(t, d, today) && IsCompleted(c, d) then 1 else 0)
  }

  function MonthTotal(t: Option<seq<int>>, ym: YearMonth, today: Date): nat
    requires ValidMonth(ym)
  {
    TotalThrough(t, ym, today, DaysInMonth(ym.year, ym.month))
  }

  function MonthDone(c: Completions, t: Option<seq<int>>, ym: YearMonth, today: Date): nat
    requires ValidMonth(ym)
  {
    DoneThrough(c, t, ym, today, DaysInMonth(ym.year, ym.month))
  }

  /** Math.round(total ? (done / total) * 100 : 0) */
  function Percentage(done: nat, total: nat): (r: int)
    requires done <= total
    ensures 0 <= r <= 100
    ensures total == 0 ==> r == 0
  {
    if total == 0 then 0
    else
      MulMonotone(100, done, total);
      RoundBetween(100 * done, total, 0, 100);
      RoundHalfUp(100 * done, total)
  }

  /** A month with counted days gets the percentage nearest to 100 * done / total, halves rounded up. */
  lemma PercentageRounds(done: nat, total: nat)
    requires done <= total && total > 0
    ensures 2 * total * Percentage(done, total) <= 200 * done + total < 2 * total * (Percentage(done, total) + 1)
  {
    var r := RoundHalfUp(100 * done, total);
    assert 2 * total * r <= 2 * (100 * done) + total;
  }

  /** The graph's value for one month. */
  function MonthPercent(c: Completions, t: Option<seq<int>>, ym: YearMonth, today: Date): (r: int)
    requires ValidMonth(ym)
    ensures 0 <= r <= 100
  {
    DoneAtMostTotal(c, t, ym, today, DaysInMonth(ym.year, ym.month));
    Percentage(MonthDone(c, t, ym, today), MonthTotal(t, ym, today))
  }

  // ---------------------------------------------------------------------
  // What the month counts mean

  /** done is only incremented where total is. */
  lemma {:induction false} DoneAtMostTotal(c: Completions, t: Option<seq<int>>, ym: YearMonth, today: Date, n: nat)
    requires ValidMonth(ym) && n <= DaysInMonth(ym.year, ym.month)
    ensures DoneThrough(c, t, ym, today, n) <= TotalThrough(t, ym, today, n)
  {
    if n > 0 {
      DoneAtMostTotal(c, t, ym, today, n - 1);
    }
  }

  /** The scheduled days of month ym, among days 1..n, that are not after today. */
  ghost function CountedDays(t: Option<seq<int>>, ym: YearMonth, today: Date, n: nat): set<int>
    requires ValidMonth(ym) && n <= DaysInMonth(ym.year, ym.month)
  {
    set k | 1 <= k <= n && Counted(t, Date(ym.year, ym.month, k), today)
  }

  /** total counts each scheduled, arrived day exactly once. */
  lemma {:induction false} TotalIsCountedDays(t: Option<seq<int>>, ym: YearMonth, today: Date, n: nat)
    requires ValidMonth(ym) && n <= DaysInMonth(ym.year, ym.month)
    ensures TotalThrough(t, ym, today, n) == |CountedDays(t, ym, today, n)|
  {
    if n > 0 {
      TotalIsCountedDays(t, ym, today, n - 1);
      var prev := CountedDays(t, ym, today, n - 1);
      var now := CountedDays(t, ym, today, n);
      CountedDaysStep(t, ym, today, n);
      assert n !in prev;
    }
  }

  lemma CountedDaysStep(t: Option<seq<int>>, ym: YearMonth, today: Date, n: nat)
    requires ValidMonth(ym) && 1 <= n <= DaysInMonth(ym.year, ym.month)
    ensures CountedDays(t, ym, today, n) ==
      CountedDays(t, ym, today, n - 1) + (if Counted(t, Date(ym.year, ym.month, n), today) then {n} else {})
  {
    var prev := CountedDays(t, ym, today, n - 1);
    var now := CountedDays(t, ym, today, n);
    var added := if Counted(t, Date(ym.year, ym.month, n), today) then {n} else {};
    forall j ensures j in now <==> j in prev + added {
      if 1 <= j <= n - 1 {
        assert j in now <==> Counted(t, Date(ym.year, ym.month, j), today);
        assert j in prev <==> Counted(t, Date(ym.year, ym.month, j), today);
      }
    }
  }

  /** The days among 1..n of month ym that are not after today. */
  function ArrivedDays(ym: YearMonth, today: Date, n: nat): nat
    requires ValidDate(today)
  {
    var ti := MonthIndex(MonthOf(today));
    var mi := MonthIndex(ym);
    if mi < ti then n
    else if mi == ti then Min(n, today.day)
    else 0
  }

  lemma ArrivedDay(ym: YearMonth, today: Date, k: nat)
    requires ValidMonth(ym) && 1 <= k <= DaysInMonth(ym.year, ym.month) && ValidDate(today)
    ensures DateLe(Date(ym.year, ym.month, k), today) <==>
      MonthIndex(ym) < MonthIndex(MonthOf(today)) ||
      (MonthIndex(ym) == MonthIndex(MonthOf(today)) && k <= today.day)
  {
    MonthIndexOrder(Date(ym.year, ym.month, k), today);
    if MonthIndex(ym) == MonthIndex(MonthOf(today)) {
      MonthAtIndex(ym);
      MonthAtIndex(MonthOf(today));
    }
  }

  /** Days after today are never counted. */
  lemma {:induction false} TotalAtMostArrived(t: Option<seq<int>>, ym: YearMonth, today: Date, n: nat)
    requires ValidMonth(ym) && n <= DaysInMonth(ym.year, ym.month) && ValidDate(today)
    ensures TotalThrough(t, ym, today, n) <= ArrivedDays(ym, today, n)
  {
    if n > 0 {
      TotalAtMostArrived(t, ym, today, n - 1);
      ArrivedDay(ym, today, n);
    }
  }

  /** Without a schedule every arrived day of the month is counted, today included. */
  lemma {:induction false} TotalWithoutSchedule(ym: YearMonth, today: Date, n: nat)
    requires ValidMonth(ym) && n <= DaysInMonth(ym.year, ym.month) && ValidDate(today)
    ensures TotalThrough(None, ym, today, n) == ArrivedDays(ym, today, n)
  {
    if n > 0 {
      TotalWithoutSchedule(ym, today, n - 1);
      ArrivedDay(ym, today, n);
    }
  }

  /** A month wholly after today's month has value 0. */
  lemma FutureMonthIsZero(c: Completions, t: Option<seq<int>>, ym: YearMonth, today: Date)
    requires ValidMonth(ym) && ValidDate(today)
    requires MonthIndex(ym) > MonthIndex(MonthOf(today))
    ensures MonthTotal(t, ym, today) == 0
    ensures MonthPercent(c, t, ym, today) == 0
  {
    TotalAtMostArrived(t, ym, today, DaysInMonth(ym.year, ym.month));
  }

  /** A schedule that names no weekday 0..6 counts no day, so every month has value 0. */
  lemma {:induction false} NoScheduledWeekday(t: Option<seq<int>>, ym: YearMonth, today: Date, n: nat)
    requires ValidMonth(ym) && n <= DaysInMonth(ym.year, ym.month)
    requires t.Some? && forall w :: 0 <= w < 7 ==> w !in t.value
    ensures TotalThrough(t, ym, today, n) == 0
  {
    if n > 0 {
      NoScheduledWeekday(t, ym, today, n - 1);
    }
  }

  /**
   * Only the exact status 'completed' counts: two records that agree on
   * which keys hold 'completed' give every month the same done count.
   */
  lemma {:induction false} OnlyCompletedCounts(c1: Completions, c2: Completions, t: Option<seq<int>>, ym: YearMonth, today: Date, n: nat)
    requires ValidMonth(ym) && n <= DaysInMonth(ym.year, ym.month)
    requires forall k :: (k in c1 && c1[k] == "completed") <==> (k in c2 && c2[k] == "completed")
    ensures DoneThrough(c1, t, ym, today, n) == DoneThrough(c2, t, ym, today, n)
  {
    if n > 0 {
      OnlyCompletedCounts(c1, c2, t, ym, today, n - 1);
      var key := FormatKey(Date(ym.year, ym.month, n));
      assert (key in c1 && c1[key] == "completed") <==> (key in c2 && c2[key] == "completed");
    }
  }

  /** A record without any 'completed' value gives every month done count 0. */
  lemma NothingCompleted(c: Completions, t: Option<seq<int>>, ym: YearMonth, today: Date)
    requires ValidMonth(ym)
    requires forall k :: k in c ==> c[k] != "completed"
    ensures MonthDone(c, t, ym, today) == 0
    ensures MonthPercent(c, t, ym, today) == 0
  {
    NoneDone(c, t, ym, today, DaysInMonth(ym.year, ym.month));
    var total := MonthTotal(t, ym, today);
    if total > 0 {
      RoundBetween(0, total, 0, 0);
    }
  }

  lemma {:induction false} NoneDone(c: Completions, t: Option<seq<int>>, ym: YearMonth, today: Date, n: nat)
    requires ValidMonth(ym) && n <= DaysInMonth(ym.year, ym.month)
    requires forall k :: k in c ==> c[k] != "completed"
    ensures DoneThrough(c, t, ym, today, n) == 0
  {
    if n > 0 {
      NoneDone(c, t, ym, today, n - 1);
      assert !IsCompleted(c, Date(ym.year, ym.month, n));
    }
  }

  /**
   * Marking one counted, not yet completed day of the month 'completed'
   * raises the month's done count by exactly one (the other days' keys are
   * different, so they are unaffected).
   */
  lemma {:induction false} MarkCompleted(c: Completions, t: Option<seq<int>>, ym: YearMonth, today: Date, day: int, n: nat)
    requires ValidMonth(ym) && 1 <= ym.year <= 9999 && n <= DaysInMonth(ym.year, ym.month)
    requires 1 <= day <= DaysInMonth(ym.year, ym.month)
    requires Counted(t, Date(ym.year, ym.month, day), today) && !IsCompleted(c, Date(ym.year, ym.month, day))
    ensures DoneThrough(c[FormatKey(Date(ym.year, ym.month, day)) := "completed"], t, ym, today, n) ==
      DoneThrough(c, t, ym, today, n) + (if day <= n then 1 else 0)
  {
    if n > 0 {
      MarkCompleted(c, t, ym, today, day, n - 1);
      FormatKeyInjective(Date(ym.year, ym.month, day), Date(ym.year, ym.month, n));
    }
  }

  // ---------------------------------------------------------------------
  // The day loop of one month

  /** Stepping through a month with NextDay: the next day of the month, or past its last day. */
  lemma NextDayOfMonth(ym: YearMonth, k: int)
    requires ValidMonth(ym) && 1 <= k <= DaysInMonth(ym.year, ym.month)
    ensures k < DaysInMonth(ym.year, ym.month) ==> NextDay(Date(ym.year, ym.month, k)) == Date(ym.year, ym.month, k + 1)
    ensures k == DaysInMonth(ym.year, ym.month) ==> DateLt(LastDay(ym), NextDay(Date(ym.year, ym.month, k)))
  {
  }

  /** The body of the day loop: one day's contribution to total and done. */
  method CountDay(c: Completions, t: Option<seq<int>>, d: Date, today: Date, total0: nat, done0: nat) returns (total: nat, done: nat)
    requires ValidDate(d)
    ensures total == total0 + (if Counted(t, d, today) then 1 else 0)
    ensures done == done0 + (if Counted(t, d, today) && IsCompleted(c, d) then 1 else 0)
  {
    total, done := total0, done0;
    if Counted(t, d, today) {
      total := total + 1;
      if IsCompleted(c, d) {
        done := done + 1;
      }
    }
  }

  /** The for loop over the days of one month, from startOfMonth through endOfMonth. */
  method CountMonth(c: Completions, t: Option<seq<int>>, ym: YearMonth, today: Date) returns (total: nat, done: nat)
    requires ValidMonth(ym)
    ensures total == MonthTotal(t, ym, today)
    ensures done == MonthDone(c, t, ym, today)
    ensures done <= total
  {
    var end := LastDay(ym);
    var dim := end.day;
    total, done := 0, 0;
    var d := FirstDay(ym);
    ghost var k := 1;
    while DateLe(d, end)
      invariant 1 <= k <= dim + 1
      invariant k <= dim ==> d == Date(ym.year, ym.month, k)
      invariant k == dim + 1 ==> DateLt(end, d)
      invariant total == TotalThrough(t, ym, today, k - 1)
      invariant done == DoneThrough(c, t, ym, today, k - 1)
      decreases dim + 1 - k
    {
      total, done := CountDay(c, t, d, today, total, done);
      NextDayOfMonth(ym, k);
      d := NextDay(d);
      k := k + 1;
    }
    DoneAtMostTotal(c, t, ym, today, dim);
  }

  // ---------------------------------------------------------------------
  // The time range and its months

  /**
   * The switch on timeRange: the start of the range, or None when parseISO
   * returns an Invalid Date for the earliest key.
   */
  function RangeStart(timeRange: string, c: Completions, today: Date): (r: Option<Date>)
    requires ValidDate(today)
    ensures timeRange == "3months" ==> r == Some(SubMonths(today, 3))
    ensures timeRange == "1year" ==> r == Some(SubMonths(today, 12))
    ensures timeRange == "all" && c != map[] ==> r == ParseIso(FirstKey(c.Keys))
    ensures timeRange == "all" && c == map[] ==> r == Some(SubMonths(today, 6))
    ensures timeRange !in {"3months", "1year", "all"} ==> r == Some(SubMonths(today, 6))
  {
    match timeRange
    case "3months" => Some(SubMonths(today, 3))
    case "1year" => Some(SubMonths(today, 12))
    case "all" => if |c.Keys| > 0 then ParseIso(FirstKey(c.Keys)) else Some(SubMonths(today, 6))
    case _ => Some(SubMonths(today, 6))
  }

  /** The months with index lo..hi, in increasing order. */
  function MonthRange(lo: int, hi: int): (ms: seq<YearMonth>)
    requires lo <= hi + 1
    ensures |ms| == hi - lo + 1
    ensures forall i :: 0 <= i < |ms| ==> ms[i] == MonthAt(lo + i)
    ensures forall i :: 0 <= i < |ms| ==> ValidMonth(ms[i]) && MonthIndex(ms[i]) == lo + i
  {
    seq(hi - lo + 1, i requires 0 <= i <= hi - lo => MonthAt(lo + i))
  }

  /**
   * date-fns eachMonthOfInterval({start, end: today}): the first days of the
   * months from start's month through today's. If start is after today the
   * same months are returned latest first; an Invalid Date gives none.
   */
  function MonthsOfInterval(start: Option<Date>, today: Date): (ms: seq<YearMonth>)
    requires ValidDate(today)
    requires start.Some? ==> ValidDate(start.value)
    ensures forall i :: 0 <= i < |ms| ==> ValidMonth(ms[i])
  {
    if start.None? then []
    else
      var s := MonthIndex(MonthOf(start.value));
      var e := MonthIndex(MonthOf(today));
      if DateLe(start.value, today) then
        MonthIndexOrder(start.value, today);
        MonthRange(s, e)
      else
        MonthIndexOrder(today, start.value);
        Reverse(MonthRange(e, s))
  }

  function Reverse<T>(s: seq<T>): (r: seq<T>)
    ensures |r| == |s| && forall i :: 0 <= i < |s| ==> r[i] == s[|s| - 1 - i]
  {
    seq(|s|, i requires 0 <= i < |s| => s[|s| - 1 - i])
  }

  /** One value per month: months.map(month => ...). */
  function MonthlySeries(c: Completions, t: Option<seq<int>>, months: seq<YearMonth>, today: Date): (data: seq<int>)
    requires forall i :: 0 <= i < |months| ==> ValidMonth(months[i])
    ensures |data| == |months|
    ensures forall i :: 0 <= i < |data| ==> 0 <= data[i] <= 100
  {
    seq(|months|, i requires 0 <= i < |months| => MonthPercent(c, t, months[i], today))
  }

  /** The chart data processHabitData computes for one habit. */
  function ChartSeries(c: Completions, t: Option<seq<int>>, timeRange: string, today: Date): seq<int>
    requires ValidDate(today)
  {
    MonthlySeries(c, t, MonthsOfInterval(RangeStart(timeRange, c, today), today), today)
  }

  /** The months.map loop, with the day loop inside it. */
  method MonthlyData(c: Completions, t: Option<seq<int>>, months: seq<YearMonth>, today: Date) returns (data: seq<int>)
    requires forall i :: 0 <= i < |months| ==> ValidMonth(months[i])
    ensures data == MonthlySeries(c, t, months, today)
  {
    data := [];
    for i := 0 to |months|
      invariant data == MonthlySeries(c, t, months[..i], today)
    {
      var total, done := CountMonth(c, t, months[i], today);
      data := data + [Percentage(done, total)];
    }
    assert months[..|months|] == months;
  }

  // ---------------------------------------------------------------------
  // Properties of the series

  /** From a start on or before today: one value per month through today's, oldest first. */
  lemma SeriesMonths(start: Date, today: Date)
    requires ValidDate(start) && ValidDate(today) && DateLe(start, today)
    ensures |MonthsOfInterval(Some(start), today)| ==
      MonthIndex(MonthOf(today)) - MonthIndex(MonthOf(start)) + 1
    ensures forall i :: 0 <= i < |MonthsOfInterval(Some(start), today)| ==>
      MonthIndex(MonthsOfInterval(Some(start), today)[i]) == MonthIndex(MonthOf(start)) + i
    ensures MonthsOfInterval(Some(start), today)[0] == MonthOf(start)
    ensures MonthsOfInterval(Some(start), today)[|MonthsOfInterval(Some(start), today)| - 1] == MonthOf(today)
  {
    MonthIndexOrder(start, today);
    var ms := MonthsOfInterval(Some(start), today);
    MonthAtIndex(MonthOf(start));
    MonthAtIndex(MonthOf(today));
    assert ms[0] == MonthAt(MonthIndex(MonthOf(start)));
    assert ms[|ms| - 1] == MonthAt(MonthIndex(MonthOf(today)));
  }

  /**
   * From a start after today: the same months, latest first, from the start's
   * month down to today's.
   */
  lemma ReversedSeriesMonths(start: Date, today: Date)
    requires ValidDate(start) && ValidDate(today) && !DateLe(start, today)
    ensures |MonthsOfInterval(Some(start), today)| ==
      MonthIndex(MonthOf(start)) - MonthIndex(MonthOf(today)) + 1
    ensures forall i :: 0 <= i < |MonthsOfInterval(Some(start), today)| ==>
      MonthIndex(MonthsOfInterval(Some(start), today)[i]) == MonthIndex(MonthOf(start)) - i
    ensures MonthsOfInterval(Some(start), today)[0] == MonthOf(start)
    ensures MonthsOfInterval(Some(start), today)[|MonthsOfInterval(Some(start), today)| - 1] == MonthOf(today)
  {
    MonthIndexOrder(today, start);
    var ms := MonthsOfInterval(Some(start), today);
    var s, e := MonthIndex(MonthOf(start)), MonthIndex(MonthOf(today));
    var fwd := MonthRange(e, s);
    assert ms == Reverse(fwd);
    MonthAtIndex(MonthOf(start));
    MonthAtIndex(MonthOf(today));
    assert ms[0] == fwd[s - e] == MonthAt(s);
    assert ms[|ms| - 1] == fwd[0] == MonthAt(e);
  }

  /** Every fixed range shows today's month last and one value per month of the range. */
  lemma FixedRangeLength(c: Completions, t: Option<seq<int>>, timeRange: string, today: Date)
    requires ValidDate(today)
    requires timeRange != "all" || c == map[]
    ensures |ChartSeries(c, t, timeRange, today)| ==
      (if timeRange == "3months" then 4 else if timeRange == "1year" then 13 else 7)
    ensures ChartSeries(c, t, timeRange, today)[|ChartSeries(c, t, timeRange, today)| - 1] ==
      MonthPercent(c, t, MonthOf(today), today)
  {
    var start := RangeStart(timeRange, c, today);
    assert start.Some? && DateLe(start.value, today);
    SeriesMonths(start.value, today);
  }

  /**
   * With 'all', when every key is a well-formed date key of years 1..9999,
   * the range starts at the earliest recorded date, of any status.
   */
  lemma AllStartsAtEarliestKey(c: Completions, today: Date)
    requires ValidDate(today) && c != map[]
    requires forall k :: k in c ==> ParseIso(k).Some? && ParseIso(k).value.year >= 1
    ensures RangeStart("all", c, today).Some?
    ensures FormatKey(RangeStart("all", c, today).value) in c
    ensures forall k :: k in c ==> DateLe(RangeStart("all", c, today).value, ParseIso(k).value)
  {
    var first := FirstKey(c.Keys);
    var s := ParseIso(first).value;
    FormatParsedKey(first);
    forall k | k in c ensures DateLe(s, ParseIso(k).value) {
      var d := ParseIso(k).value;
      FormatParsedKey(k);
      KeyOrder(d, s);
    }
  }

  /** When the range starts on or before today, the last value is today's month. */
  lemma LastValueIsTodaysMonth(c: Completions, t: Option<seq<int>>, timeRange: string, today: Date)
    requires ValidDate(today)
    requires RangeStart(timeRange, c, today).Some?
    requires DateLe(RangeStart(timeRange, c, today).value, today)
    ensures |ChartSeries(c, t, timeRange, today)| > 0
    ensures ChartSeries(c, t, timeRange, today)[|ChartSeries(c, t, timeRange, today)| - 1] ==
      MonthPercent(c, t, MonthOf(today), today)
  {
    SeriesEndsAtToday(c, t, RangeStart(timeRange, c, today).value, today);
  }

  lemma SeriesEndsAtToday(c: Completions, t: Option<seq<int>>, start: Date, today: Date)
    requires ValidDate(start) && ValidDate(today) && DateLe(start, today)
    ensures |MonthlySeries(c, t, MonthsOfInterval(Some(start), today), today)| > 0
    ensures var data := MonthlySeries(c, t, MonthsOfInterval(Some(start), today), today);
      data[|data| - 1] == MonthPercent(c, t, MonthOf(today), today)
  {
    SeriesMonths(start, today);
  }
}
