/**
 * Calendar dates as the date-fns calls in the calendar component see them:
 * a (year, month, day) view in the proleptic Gregorian calendar, a day count
 * that orders dates the way `<=` on JavaScript dates does, and the helpers
 * the component imports (startOfMonth, endOfMonth, startOfWeek, endOfWeek,
 * addDays, addMonths, getMonth). Time of day is not modelled: every date the
 * component builds is a whole day.
 */
module Dates {

  /** A calendar date; `month` runs 1..12 (date-fns `getMonth` is `month - 1`). */
  datatype Date = Date(year: int, month: int, day: int) {
    predicate Valid() {
      1 <= month <= 12 && 1 <= day <= DaysInMonth(year, month)
    }
  }

  predicate IsLeapYear(y: int) {
    y % 4 == 0 && (y % 100 != 0 || y % 400 == 0)
  }

  function DaysInMonth(y: int, m: int): (n: int)
    requires 1 <= m <= 12
    ensures 28 <= n <= 31
  {
    if m == 2 then (if IsLeapYear(y) then 29 else 28)
    else if m == 4 || m == 6 || m == 9 || m == 11 then 30
    else 31
  }

  function YearLength(y: int): int {
    if IsLeapYear(y) then 366 else 365
  }

  /** Days from 1970-01-01 to January 1st of year y (negative before 1970). */
  function DaysBeforeYear(y: int): int
    decreases if y < 1970 then 1970 - y else y - 1970
  {
    if y == 1970 then 0
    else if y > 1970 then DaysBeforeYear(y - 1) + YearLength(y - 1)
    else DaysBeforeYear(y + 1) - YearLength(y)
  }

  /** Days from January 1st of year y to the first day of month m. */
  function DaysBeforeMonth(y: int, m: int): int
    requires 1 <= m <= 12
  {
    var before :=
      if m <= 6 then
        (if m == 1 then 0 else if m == 2 then 31 else if m == 3 then 59
         else if m == 4 then 90 else if m == 5 then 120 else 151)
      else
        (if m == 7 then 181 else if m == 8 then 212 else if m == 9 then 243
         else if m == 10 then 273 else if m == 11 then 304 else 334);
    before + (if m > 2 && IsLeapYear(y) then 1 else 0)
  }

  /** Days since 1970-01-01; comparing dates with `<=` compares these. */
  function DayNumber(d: Date): int
    requires d.Valid()
  {
    DaysBeforeYear(d.year) + DaysBeforeMonth(d.year, d.month) + d.day - 1
  }

  /** Months since year 0: the ordinal that addMonths moves and the header shows. */
  function MonthIndex(d: Date): int {
    d.year * 12 + d.month - 1
  }

  /** The day number of the first day of the month with ordinal k. */
  function FirstDayNumber(k: int): int {
    DaysBeforeYear(k / 12) + DaysBeforeMonth(k / 12, k % 12 + 1)
  }

  /** Day of the week, 0 = Sunday .. 6 = Saturday (1970-01-01 was a Thursday). */
  function Weekday(d: Date): (w: int)
    requires d.Valid()
    ensures 0 <= w < 7
  {
    (DayNumber(d) + 4) % 7
  }

  function Min(a: int, b: int): int {
    if a <= b then a else b
  }

  // ---------------------------------------------------------------------
  // The calendar's arithmetic: year and month steps.

  /** A year holds as many days as its length says. */
  lemma YearStep(y: int)
    ensures DaysBeforeYear(y + 1) == DaysBeforeYear(y) + YearLength(y)
  {
  }

  /** Leap years among 1..x (extended to x < 1 by floor division). */
  function LeapsThrough(x: int): int {
    x / 4 - x / 100 + x / 400
  }

  /** The leap-year count steps by one exactly at a leap year. */
  lemma LeapStep(y: int)
    ensures LeapsThrough(y) - LeapsThrough(y - 1) == if IsLeapYear(y) then 1 else 0
  {
    Step4(y);
    Step100(y);
    Step400(y);
    Multiples(y);
  }

  lemma Step4(y: int)
    ensures y / 4 - (y - 1) / 4 == if y % 4 == 0 then 1 else 0
  {
    var q, r := y / 4, y % 4;
    var q1, r1 := (y - 1) / 4, (y - 1) % 4;
    assert y == 4 * q + r && 0 <= r < 4;
    assert y - 1 == 4 * q1 + r1 && 0 <= r1 < 4;
  }

  lemma Step100(y: int)
    ensures y / 100 - (y - 1) / 100 == if y % 100 == 0 then 1 else 0
  {
    var q, r := y / 100, y % 100;
    var q1, r1 := (y - 1) / 100, (y - 1) % 100;
    assert y == 100 * q + r && 0 <= r < 100;
    assert y - 1 == 100 * q1 + r1 && 0 <= r1 < 100;
  }

  lemma Step400(y: int)
    ensures y / 400 - (y - 1) / 400 == if y % 400 == 0 then 1 else 0
  {
    var q, r := y / 400, y % 400;
    var q1, r1 := (y - 1) / 400, (y - 1) % 400;
    assert y == 400 * q + r && 0 <= r < 400;
    assert y - 1 == 400 * q1 + r1 && 0 <= r1 < 400;
  }

  /** A multiple of 400 is a multiple of 100, and a multiple of 100 one of 4. */
  lemma Multiples(y: int)
    ensures y % 400 == 0 ==> y % 100 == 0
    ensures y % 100 == 0 ==> y % 4 == 0
  {
    if y % 400 == 0 {
      MultipleOfMultiple(y, 400, 100);
    }
    if y % 100 == 0 {
      MultipleOfMultiple(y, 100, 4);
    }
  }

  /** A multiple of a is a multiple of b when b divides a (for the constants above). */
  lemma MultipleOfMultiple(y: int, a: int, b: int)
    requires (a == 400 && b == 100) || (a == 100 && b == 4)
    requires y % a == 0
    ensures y % b == 0
  {
    var k, q, r := y / a, y / b, y % b;
    assert y == a * k;
    assert y == b * q + r && 0 <= r < b;
    var t := (a / b) * k - q;
    assert r == b * t;
    assert 0 <= t < 1;
  }

  /**
   * The year-by-year count agrees with the closed Gregorian formula:
   * 365 days a year plus one per leap year since 1970.
   */
  lemma {:induction false} DaysBeforeYearClosedForm(y: int)
    ensures DaysBeforeYear(y) == 365 * (y - 1970) + LeapsThrough(y - 1) - LeapsThrough(1969)
    decreases if y < 1970 then 1970 - y else y - 1970
  {
    if y > 1970 {
      DaysBeforeYearClosedForm(y - 1);
      LeapStep(y - 1);
    } else if y < 1970 {
      DaysBeforeYearClosedForm(y + 1);
      LeapStep(y);
    }
  }

  /** The day numbers of 2024-01-01 and 2025-01-01, for the worked examples.
    * The year is a parameter rather than the literal 2024: with a literal the
    * solver unrolls the recursive DaysBeforeYear one year at a time. */
  lemma DaysBefore2024(y: int)
    requires y == 2024
    ensures DaysBeforeYear(y) == 19723 && DaysBeforeYear(y + 1) == 20089
  {
    DaysBeforeYearClosedForm(y);
    assert y - 1 == 2023 && LeapsThrough(2023) == 490;
    assert LeapsThrough(1969) == 477;
    assert YearLength(y) == 366;
  }

  /** Consecutive months are DaysInMonth apart within a year. */
  lemma MonthStep(y: int, m: int)
    requires 1 <= m < 12
    ensures DaysBeforeMonth(y, m + 1) == DaysBeforeMonth(y, m) + DaysInMonth(y, m)
  {
  }

  lemma LastMonthStep(y: int)
    ensures DaysBeforeMonth(y, 12) + DaysInMonth(y, 12) == YearLength(y)
  {
  }

  lemma MonthIndexParts(d: Date)
    requires 1 <= d.month <= 12
    ensures MonthIndex(d) / 12 == d.year && MonthIndex(d) % 12 + 1 == d.month
  {
  }

  /** The day number of a date is its month's first day number plus day - 1. */
  lemma DayNumberFromFirst(d: Date)
    requires d.Valid()
    ensures DayNumber(d) == FirstDayNumber(MonthIndex(d)) + d.day - 1
  {
    MonthIndexParts(d);
  }

  /** The first day of month k + 1 comes DaysInMonth days after that of month k. */
  lemma FirstDayNumberStep(k: int)
    ensures FirstDayNumber(k + 1) == FirstDayNumber(k) + DaysInMonth(k / 12, k % 12 + 1)
  {
    var y, m := k / 12, k % 12 + 1;
    if m < 12 {
      assert (k + 1) / 12 == y && (k + 1) % 12 + 1 == m + 1;
      MonthStep(y, m);
    } else {
      assert (k + 1) / 12 == y + 1 && (k + 1) % 12 + 1 == 1;
      YearStep(y);
      LastMonthStep(y);
    }
  }

  /** Months are 28 to 31 days long. */
  lemma FirstDayNumberGap(k: int)
    ensures FirstDayNumber(k) + 28 <= FirstDayNumber(k + 1) <= FirstDayNumber(k) + 31
  {
    FirstDayNumberStep(k);
  }

  lemma {:induction false} FirstDayNumberMonotone(k1: int, k2: int)
    requires k1 <= k2
    ensures FirstDayNumber(k1) + 28 * (k2 - k1) <= FirstDayNumber(k2)
    decreases k2 - k1
  {
    if k1 < k2 {
      FirstDayNumberMonotone(k1, k2 - 1);
      FirstDayNumberStep(k2 - 1);
    }
  }

  /** A valid date's day number lies within its own month's range. */
  lemma DayNumberInOwnMonth(d: Date)
    requires d.Valid()
    ensures FirstDayNumber(MonthIndex(d)) <= DayNumber(d) < FirstDayNumber(MonthIndex(d) + 1)
  {
    DayNumberFromFirst(d);
    MonthIndexParts(d);
    FirstDayNumberStep(MonthIndex(d));
  }

  /**
   * A valid date lies in month k exactly when its day number falls between
   * the first day of month k and the first day of month k + 1.
   */
  lemma MonthOfDayNumber(d: Date, k: int)
    requires d.Valid()
    ensures MonthIndex(d) == k <==> FirstDayNumber(k) <= DayNumber(d) < FirstDayNumber(k + 1)
  {
    var j := MonthIndex(d);
    DayNumberInOwnMonth(d);
    if j < k {
      FirstDayNumberMonotone(j + 1, k);
    } else if j > k {
      FirstDayNumberMonotone(k + 1, j);
    }
  }

  /** A day less than a week before the 1st of a month lies in the month before. */
  lemma MonthBeforeFirst(first: Date, c: Date)
    requires first.Valid() && first.day == 1 && c.Valid()
    requires DayNumber(first) - 7 <= DayNumber(c) < DayNumber(first)
    ensures MonthIndex(c) == MonthIndex(first) - 1
  {
    var k := MonthIndex(first);
    DayNumberFromFirst(first);
    FirstDayNumberGap(k - 1);
    MonthOfDayNumber(c, k - 1);
  }

  /** A day from the 1st of a month to its last day lies in that month. */
  lemma MonthOfFirstToLast(first: Date, c: Date)
    requires first.Valid() && first.day == 1 && c.Valid()
    requires DayNumber(first) <= DayNumber(c) < DayNumber(first) + DaysInMonth(first.year, first.month)
    ensures MonthIndex(c) == MonthIndex(first)
  {
    var k := MonthIndex(first);
    DayNumberFromFirst(first);
    MonthIndexParts(first);
    FirstDayNumberStep(k);
    MonthOfDayNumber(c, k);
  }

  /** A day less than a week after the last day of a month lies in the month after. */
  lemma MonthAfterLast(first: Date, c: Date)
    requires first.Valid() && first.day == 1 && c.Valid()
    requires DayNumber(first) + DaysInMonth(first.year, first.month) <= DayNumber(c)
    requires DayNumber(c) < DayNumber(first) + DaysInMonth(first.year, first.month) + 7
    ensures MonthIndex(c) == MonthIndex(first) + 1
  {
    var k := MonthIndex(first);
    DayNumberFromFirst(first);
    MonthIndexParts(first);
    FirstDayNumberStep(k);
    FirstDayNumberGap(k + 1);
    MonthOfDayNumber(c, k + 1);
  }

  /** Day numbers tell valid dates apart: the day count is a faithful view. */
  lemma DayNumberInjective(a: Date, b: Date)
    requires a.Valid() && b.Valid()
    requires DayNumber(a) == DayNumber(b)
    ensures a == b
  {
    MonthOfDayNumber(a, MonthIndex(a));
    MonthOfDayNumber(b, MonthIndex(a));
    MonthIndexParts(a);
    MonthIndexParts(b);
    DayNumberFromFirst(a);
    DayNumberFromFirst(b);
  }

  /** Ordering by day number is ordering by (year, month, day). */
  lemma DayNumberOrder(a: Date, b: Date)
    requires a.Valid() && b.Valid()
    ensures DayNumber(a) < DayNumber(b) <==>
      MonthIndex(a) < MonthIndex(b) || (MonthIndex(a) == MonthIndex(b) && a.day < b.day)
  {
    MonthOfDayNumber(a, MonthIndex(a));
    MonthOfDayNumber(b, MonthIndex(b));
    DayNumberFromFirst(a);
    DayNumberFromFirst(b);
    if MonthIndex(a) < MonthIndex(b) {
      FirstDayNumberMonotone(MonthIndex(a) + 1, MonthIndex(b));
    } else if MonthIndex(b) < MonthIndex(a) {
      FirstDayNumberMonotone(MonthIndex(b) + 1, MonthIndex(a));
    }
  }

  // ---------------------------------------------------------------------
  // date-fns helpers.

  /** addDays(d, 1). */
  function NextDay(d: Date): (r: Date)
    requires d.Valid()
    ensures r.Valid()
  {
    if d.day < DaysInMonth(d.year, d.month) then Date(d.year, d.month, d.day + 1)
    else if d.month < 12 then Date(d.year, d.month + 1, 1)
    else Date(d.year + 1, 1, 1)
  }

  /** addDays(d, -1). */
  function PrevDay(d: Date): (r: Date)
    requires d.Valid()
    ensures r.Valid()
  {
    if d.day > 1 then Date(d.year, d.month, d.day - 1)
    else if d.month > 1 then Date(d.year, d.month - 1, DaysInMonth(d.year, d.month - 1))
    else Date(d.year - 1, 12, 31)
  }

  lemma NextDayNumber(d: Date)
    requires d.Valid()
    ensures DayNumber(NextDay(d)) == DayNumber(d) + 1
  {
    DayNumberFromFirst(d);
    DayNumberFromFirst(NextDay(d));
    MonthIndexParts(d);
    FirstDayNumberStep(MonthIndex(d));
  }

  lemma PrevDayNumber(d: Date)
    requires d.Valid()
    ensures DayNumber(PrevDay(d)) == DayNumber(d) - 1
  {
    DayNumberFromFirst(d);
    DayNumberFromFirst(PrevDay(d));
    MonthIndexParts(PrevDay(d));
    FirstDayNumberStep(MonthIndex(PrevDay(d)));
  }

  /** addDays(d, n): n single-day steps forwards or backwards. */
  function AddDays(d: Date, n: int): (r: Date)
    requires d.Valid()
    ensures r.Valid()
    decreases if n < 0 then -n else n
  {
    if n == 0 then d
    else if n > 0 then AddDays(NextDay(d), n - 1)
    else AddDays(PrevDay(d), n + 1)
  }

  /** addDays moves the day count by exactly n. */
  lemma {:induction false} AddDaysNumber(d: Date, n: int)
    requires d.Valid()
    ensures DayNumber(AddDays(d, n)) == DayNumber(d) + n
    decreases if n < 0 then -n else n
  {
    if n > 0 {
      NextDayNumber(d);
      AddDaysNumber(NextDay(d), n - 1);
    } else if n < 0 {
      PrevDayNumber(d);
      AddDaysNumber(PrevDay(d), n + 1);
    }
  }

  function StartOfMonth(d: Date): (r: Date)
    requires d.Valid()
    ensures r.Valid() && MonthIndex(r) == MonthIndex(d) && r.day == 1
  {
    Date(d.year, d.month, 1)
  }

  function EndOfMonth(d: Date): (r: Date)
    requires d.Valid()
    ensures r.Valid() && MonthIndex(r) == MonthIndex(d)
    ensures r.day == DaysInMonth(d.year, d.month)
  {
    Date(d.year, d.month, DaysInMonth(d.year, d.month))
  }

  /** startOfWeek with the default week start, Sunday. */
  function StartOfWeek(d: Date): (r: Date)
    requires d.Valid()
  {
    AddDays(d, -Weekday(d))
  }

  /** endOfWeek with the default week start: the Saturday of d's week. */
  function EndOfWeek(d: Date): (r: Date)
    requires d.Valid()
  {
    AddDays(d, 6 - Weekday(d))
  }

  /** The day i places after the Sunday on or before `first` falls on weekday i mod 7. */
  lemma DayWeekday(first: Date, c: Date, i: int)
    requires first.Valid() && c.Valid()
    requires DayNumber(c) == DayNumber(first) - Weekday(first) + i
    ensures Weekday(c) == i % 7
  {
    var n, m := DayNumber(first), DayNumber(c);
    CellWeekday(n, Weekday(first), m, i);
  }

  /** Going back to the Sunday and then on by i days reaches weekday i mod 7. */
  lemma CellWeekday(n: int, lead: int, m: int, i: int)
    requires lead == (n + 4) % 7 && m == n - lead + i
    ensures (m + 4) % 7 == i % 7
  {
    var q := (n + 4) / 7;
    assert n - lead + 4 == 7 * q;
    assert 7 * q + i == 7 * (q + i / 7) + i % 7;
  }

  /** startOfWeek goes back by the weekday. */
  lemma StartOfWeekNumber(d: Date)
    requires d.Valid()
    ensures DayNumber(StartOfWeek(d)) == DayNumber(d) - Weekday(d)
  {
    AddDaysNumber(d, -Weekday(d));
  }

  /** endOfWeek goes on to weekday 6. */
  lemma EndOfWeekNumber(d: Date)
    requires d.Valid()
    ensures DayNumber(EndOfWeek(d)) == DayNumber(d) + 6 - Weekday(d)
  {
    AddDaysNumber(d, 6 - Weekday(d));
  }

  /** startOfWeek lands on the Sunday at most six days before d. */
  lemma StartOfWeekIsSunday(d: Date)
    requires d.Valid()
    ensures Weekday(StartOfWeek(d)) == 0
    ensures DayNumber(d) - 6 <= DayNumber(StartOfWeek(d)) <= DayNumber(d)
  {
    StartOfWeekNumber(d);
    DayWeekday(d, StartOfWeek(d), 0);
  }

  /** endOfWeek lands on the Saturday at most six days after d. */
  lemma EndOfWeekIsSaturday(d: Date)
    requires d.Valid()
    ensures Weekday(EndOfWeek(d)) == 6
    ensures DayNumber(d) <= DayNumber(EndOfWeek(d)) <= DayNumber(d) + 6
  {
    EndOfWeekNumber(d);
    DayWeekday(d, EndOfWeek(d), 6);
  }

  /**
   * addMonths(d, n): move the month ordinal by n and keep the day of month,
   * clamped to the last day of the target month.
   */
  function AddMonths(d: Date, n: int): (r: Date)
    requires d.Valid()
    ensures r.Valid()
    ensures MonthIndex(r) == MonthIndex(d) + n
    ensures r.day <= d.day
    ensures d.day <= DaysInMonth(r.year, r.month) ==> r.day == d.day
    ensures d.day > DaysInMonth(r.year, r.month) ==> r.day == DaysInMonth(r.year, r.month)
  {
    var k := MonthIndex(d) + n;
    var y, m := k / 12, k % 12 + 1;
    Date(y, m, Min(d.day, DaysInMonth(y, m)))
  }

  /** Shifting by zero months gives back the date itself. */
  lemma AddZeroMonths(d: Date)
    requires d.Valid()
    ensures AddMonths(d, 0) == d
  {
    MonthIndexParts(d);
  }
}
