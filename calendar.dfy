// The proleptic Gregorian calendar as the JavaScript Date object sees it in
// local time: a local calendar date, its weekday (Date.prototype.getDay), the
// day after it (d.setDate(d.getDate() + 1)) and whole months (date-fns
// startOfMonth, endOfMonth, subMonths).

module Calendar {

  /** A local calendar date; `month` is 1..12 and `day` is 1-based. */
  datatype Date = Date(year: int, month: int, day: int)

  /** A calendar month, as a month of a year. */
  datatype YearMonth = YearMonth(year: int, month: int)

  predicate IsLeapYear(y: int) {
    y % 4 == 0 && (y % 100 != 0 || y % 400 == 0)
  }

  function DaysInMonth(y: int, m: int): (n: int)
    requires 1 <= m <= 12
    ensures 28 <= n <= 31
  {
    if m == 2 then (if IsLeapYear(y) then 29 else 28)
    else if m == 4 || m == 6 || m == 9 || m == 11 then 30
    else 31
  }

  predicate ValidMonth(ym: YearMonth) {
    1 <= ym.month <= 12
  }

  predicate ValidDate(d: Date) {
    1 <= d.month <= 12 && 1 <= d.day <= DaysInMonth(d.year, d.month)
  }

  /** Chronological order of calendar dates. */
  predicate DateLt(a: Date, b: Date) {
    a.year < b.year ||
    (a.year == b.year && (a.month < b.month || (a.month == b.month && a.day < b.day)))
  }

  predicate DateLe(a: Date, b: Date) {
    a == b || DateLt(a, b)
  }

  function MonthOf(d: Date): YearMonth {
    YearMonth(d.year, d.month)
  }

  function FirstDay(ym: YearMonth): Date {
    Date(ym.year, ym.month, 1)
  }

  /** The last day of a month (the date part of date-fns endOfMonth). */
  function LastDay(ym: YearMonth): (d: Date)
    requires ValidMonth(ym)
    ensures ValidDate(d) && MonthOf(d) == ym
  {
    Date(ym.year, ym.month, DaysInMonth(ym.year, ym.month))
  }

  /** Every date of the month is on or before its last day. */
  lemma LastDayIsLast(ym: YearMonth, e: Date)
    requires ValidMonth(ym) && ValidDate(e) && MonthOf(e) == ym
    ensures DateLe(e, LastDay(ym))
  {
  }

  /** The date `setDate(getDate() + 1)` moves to: the immediate successor. */
  function NextDay(d: Date): (r: Date)
    requires ValidDate(d)
    ensures ValidDate(r) && DateLt(d, r)
  {
    if d.day < DaysInMonth(d.year, d.month) then Date(d.year, d.month, d.day + 1)
    else if d.month < 12 then Date(d.year, d.month + 1, 1)
    else Date(d.year + 1, 1, 1)
  }

  /** No valid date lies strictly between a date and the next day. */
  lemma NextDayIsNext(d: Date, e: Date)
    requires ValidDate(d) && ValidDate(e) && DateLt(d, e)
    ensures DateLe(NextDay(d), e)
  {
  }

  /** The day of a March-based year at which month `mp` (0 is March) starts. */
  function MonthOffset(mp: int): int {
    (153 * mp + 2) / 5
  }

  /** The day count of a 400-year era up to the start of year `yoe` of it. */
  function YearOffset(yoe: int): int {
    yoe * 365 + yoe / 4 - yoe / 100
  }

  /** The day count from March 1 of year 0 to March 1 of year `y`. */
  function YearStart(y: int): int {
    var era := y / 400;
    era * 146097 + YearOffset(y - era * 400)
  }

  /**
   * The number of days from 1970-01-01 to `d` (negative before it), by the
   * days-from-civil formula that counts years from March so that the leap
   * day is the last day of a year.
   */
  function DayNumber(d: Date): int
    requires 1 <= d.month <= 12
  {
    MonthStart(d.year, d.month) + d.day - 1
  }

  /** The day number of the first day of month m of year y. */
  function MonthStart(y: int, m: int): int
    requires 1 <= m <= 12
  {
    YearStart(if m <= 2 then y - 1 else y) + MonthOffset((m + 9) % 12) - 719468
  }

  /** Date.prototype.getDay: 0 is Sunday; 1970-01-01 was a Thursday. */
  function Weekday(d: Date): (w: int)
    requires 1 <= d.month <= 12
    ensures 0 <= w < 7
  {
    (DayNumber(d) + 4) % 7
  }

  /** Two known weekdays: 1970-01-01 was a Thursday and 2024-01-01 a Monday. */
  lemma WeekdayEpoch()
    ensures Weekday(Date(1970, 1, 1)) == 4
    ensures Weekday(Date(2024, 1, 1)) == 1
  {
    assert MonthOffset(10) == 306;
    assert YearOffset(369) == 134774;
    assert YearStart(1969) == 4 * 146097 + YearOffset(369) == 719162;
    assert MonthStart(1970, 1) == 0;
    assert YearOffset(23) == 8400;
    assert YearStart(2023) == 5 * 146097 + YearOffset(23) == 738885;
    assert MonthStart(2024, 1) == 19723;
  }

  lemma YearOffsetStep(yoe: int)
    requires 0 <= yoe < 399
    ensures YearOffset(yoe + 1) - YearOffset(yoe) ==
      365 + (if IsLeapYear(yoe + 1) then 1 else 0)
  {
    var a := yoe + 1;
    assert a / 4 - yoe / 4 == (if a % 4 == 0 then 1 else 0);
    assert a / 100 - yoe / 100 == (if a % 100 == 0 then 1 else 0);
    assert a % 400 != 0;
  }

  lemma ShiftMod4(k: int, b: int)
    ensures (4 * k + b) % 4 == b % 4
  {
  }

  lemma ShiftMod100(k: int, b: int)
    ensures (100 * k + b) % 100 == b % 100
  {
  }

  lemma ShiftMod400(k: int, b: int)
    ensures (400 * k + b) % 400 == b % 400
  {
  }

  lemma LeapYearPeriodic(era: int, yoe: int)
    ensures IsLeapYear(era * 400 + yoe) == IsLeapYear(yoe)
  {
    var y := era * 400 + yoe;
    assert y == 4 * (100 * era) + yoe == 100 * (4 * era) + yoe == 400 * era + yoe;
    ShiftMod4(100 * era, yoe);
    ShiftMod100(4 * era, yoe);
    ShiftMod400(era, yoe);
  }

  /** A March-based year `y` has 366 days exactly when the following February has 29. */
  lemma YearStartStep(y: int)
    ensures YearStart(y + 1) == YearStart(y) + 365 + (if IsLeapYear(y + 1) then 1 else 0)
  {
    var era := y / 400;
    var yoe := y - era * 400;
    assert 0 <= yoe < 400;
    assert y + 1 == era * 400 + (yoe + 1);
    LeapYearPeriodic(era, yoe + 1);
    if yoe < 399 {
      assert (y + 1) / 400 == era;
      YearOffsetStep(yoe);
    } else {
      assert y + 1 == (era + 1) * 400 + 0;
      assert (y + 1) / 400 == era + 1;
      assert YearOffset(0) == 0 && YearOffset(399) == 146097 - 366;
      assert IsLeapYear(400);
    }
  }

  /** From the last day of February to March 1, where the March-based year changes. */
  lemma FebruaryToMarch(d: Date)
    requires ValidDate(d) && d.month == 2 && d.day == DaysInMonth(d.year, 2)
    ensures DayNumber(Date(d.year, 3, 1)) == DayNumber(d) + 1
  {
    assert MonthOffset(11) == 337 && MonthOffset(0) == 0;
    YearStartStep(d.year - 1);
  }

  /** From the last day of a month to the first of the next, within one March-based year. */
  lemma MonthToMonth(d: Date)
    requires ValidDate(d) && d.month != 2 && d.month < 12 && d.day == DaysInMonth(d.year, d.month)
    ensures DayNumber(Date(d.year, d.month + 1, 1)) == DayNumber(d) + 1
  {
    var mp := (d.month + 9) % 12;
    assert (d.month + 10) % 12 == mp + 1;
    assert MonthOffset(mp + 1) == MonthOffset(mp) + DaysInMonth(d.year, d.month);
  }

  /** December of year y and January of year y + 1 share the March-based year y. */
  lemma DecemberToJanuary(d: Date)
    requires ValidDate(d) && d.month == 12 && d.day == 31
    ensures DayNumber(Date(d.year + 1, 1, 1)) == DayNumber(d) + 1
  {
    assert MonthOffset(9) == 275 && MonthOffset(10) == 306;
  }

  /** Day numbers of consecutive dates are consecutive. */
  lemma NextDayNumber(d: Date)
    requires ValidDate(d)
    ensures DayNumber(NextDay(d)) == DayNumber(d) + 1
  {
    if d.day < DaysInMonth(d.year, d.month) {
    } else if d.month == 2 {
      FebruaryToMarch(d);
    } else if d.month < 12 {
      MonthToMonth(d);
    } else {
      DecemberToJanuary(d);
    }
  }

  /** Stepping one day advances the weekday by one, modulo 7. */
  lemma NextDayWeekday(d: Date)
    requires ValidDate(d)
    ensures Weekday(NextDay(d)) == (Weekday(d) + 1) % 7
  {
    NextDayNumber(d);
    ModSevenStep(DayNumber(d) + 4);
  }

  lemma ModSevenStep(x: int)
    ensures (x + 1) % 7 == (x % 7 + 1) % 7
  {
  }

  /** Months counted from January of year 0, for month arithmetic. */
  function MonthIndex(ym: YearMonth): int {
    ym.year * 12 + ym.month - 1
  }

  function MonthAt(i: int): (ym: YearMonth)
    ensures ValidMonth(ym) && MonthIndex(ym) == i
  {
    YearMonth(i / 12, i % 12 + 1)
  }

  lemma MonthAtIndex(ym: YearMonth)
    requires ValidMonth(ym)
    ensures MonthAt(MonthIndex(ym)) == ym
  {
    var i := MonthIndex(ym);
    assert i == ym.year * 12 + (ym.month - 1);
    assert i / 12 == ym.year && i % 12 == ym.month - 1;
  }

  /** Months are ordered by their index as dates are ordered by the month they fall in. */
  lemma MonthIndexOrder(a: Date, b: Date)
    requires ValidDate(a) && ValidDate(b)
    ensures DateLe(a, b) ==> MonthIndex(MonthOf(a)) <= MonthIndex(MonthOf(b))
    ensures MonthIndex(MonthOf(a)) < MonthIndex(MonthOf(b)) ==> DateLt(a, b)
  {
  }

  function Min(a: int, b: int): int {
    if a < b then a else b
  }

  /**
   * date-fns subMonths: the same day `n` months earlier, clamped to the
   * last day of the target month (March 31 minus one month is February 28
   * or 29).
   */
  function SubMonths(d: Date, n: nat): (r: Date)
    requires ValidDate(d)
    ensures ValidDate(r)
    ensures MonthIndex(MonthOf(r)) == MonthIndex(MonthOf(d)) - n
    ensures r.day == Min(d.day, DaysInMonth(r.year, r.month))
    ensures DateLe(r, d)
  {
    var ym := MonthAt(MonthIndex(MonthOf(d)) - n);
    var r := Date(ym.year, ym.month, Min(d.day, DaysInMonth(ym.year, ym.month)));
    assert n == 0 ==> ym == MonthOf(d) by {
      if n == 0 { MonthAtIndex(MonthOf(d)); }
    }
    r
  }
}
