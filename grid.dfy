/**
 * The month grid of `makeCalendarDays` (src/components/Calendar.tsx): every day
 * from the Sunday starting the week of the month's first day through the
 * Saturday ending the week of the month's last day.
 */
module CalendarGrid {
  import opened Dates

  /** startOfWeek(startOfMonth(p)). */
  function GridStart(p: Date): (r: Date)
    requires p.Valid()
    ensures r.Valid()
  {
    StartOfWeek(StartOfMonth(p))
  }

  /** endOfWeek(endOfMonth(p)). */
  function GridEnd(p: Date): (r: Date)
    requires p.Valid()
    ensures r.Valid()
  {
    EndOfWeek(EndOfMonth(p))
  }

  /** Leading days of the previous month shown before the 1st. */
  function LeadingDays(p: Date): int
    requires p.Valid()
  {
    Weekday(StartOfMonth(p))
  }

  /** Number of cells: leading days, the month, trailing days. */
  function GridLength(p: Date): nat
    requires p.Valid()
  {
    LeadingDays(p) + DaysInMonth(p.year, p.month) + 6 - Weekday(EndOfMonth(p))
  }

  /** The days start, start + 1, ..., start + (n - 1). */
  function DaysFrom(start: Date, n: nat): (days: seq<Date>)
    requires start.Valid()
    ensures |days| == n
    ensures forall i :: 0 <= i < n ==> days[i].Valid()
    decreases n
  {
    if n == 0 then [] else [start] + DaysFrom(NextDay(start), n - 1)
  }

  /** What makeCalendarDays(p) returns. */
  function CalendarDays(p: Date): (days: seq<Date>)
    requires p.Valid()
  {
    DaysFrom(GridStart(p), GridLength(p))
  }

  // ---------------------------------------------------------------------
  // The loop of makeCalendarDays.

  /**
   * makeCalendarDays: push `start` and advance it one day while it is not
   * after the end of the last week.
   */
  method MakeCalendarDays(p: Date) returns (calendarDays: seq<Date>)
    requires p.Valid()
    ensures calendarDays == CalendarDays(p)
  {
    var startDate := GridStart(p);
    var endDate := GridEnd(p);
    GridSpan(p);
    calendarDays := [];
    var start := startDate;
    while DayNumber(start) <= DayNumber(endDate)
      invariant start.Valid()
      invariant DayNumber(start) <= DayNumber(endDate) + 1
      invariant DayNumber(start) == DayNumber(startDate) + |calendarDays|
      invariant start == AddDays(startDate, |calendarDays|)
      invariant calendarDays == DaysFrom(startDate, |calendarDays|)
      decreases DayNumber(endDate) - DayNumber(start)
    {
      DaysFromSnoc(startDate, |calendarDays|);
      AddDaysNext(startDate, |calendarDays|);
      NextDayNumber(start);
      calendarDays := calendarDays + [start];
      start := NextDay(start);
    }
  }

  // ---------------------------------------------------------------------
  // Lemmas about the day sequences.

  /** Cell i of DaysFrom(start, n) is start moved i days. */
  lemma {:induction false} DaysFromAt(start: Date, n: nat, i: nat)
    requires start.Valid() && i < n
    ensures DaysFrom(start, n)[i] == AddDays(start, i)
    decreases n
  {
    if i > 0 {
      DaysFromAt(NextDay(start), n - 1, i - 1);
    }
  }

  /** One more step of the loop appends the next day. */
  lemma {:induction false} DaysFromSnoc(start: Date, n: nat)
    requires start.Valid()
    ensures DaysFrom(start, n + 1) == DaysFrom(start, n) + [AddDays(start, n)]
    decreases n
  {
    if n > 0 {
      DaysFromSnoc(NextDay(start), n - 1);
    }
  }

  /** Moving n + 1 days is moving n days and then one more. */
  lemma {:induction false} AddDaysNext(d: Date, n: nat)
    requires d.Valid()
    ensures AddDays(d, n + 1) == NextDay(AddDays(d, n))
    decreases n
  {
    if n > 0 {
      AddDaysNext(NextDay(d), n - 1);
    }
  }

  /** The cells of DaysFrom are consecutive days. */
  lemma DaysFromNumbers(start: Date, n: nat)
    requires start.Valid()
    ensures forall i :: 0 <= i < n ==> DayNumber(DaysFrom(start, n)[i]) == DayNumber(start) + i
  {
    forall i | 0 <= i < n
      ensures DayNumber(DaysFrom(start, n)[i]) == DayNumber(start) + i
    {
      DaysFromAt(start, n, i);
      AddDaysNumber(start, i);
    }
  }

  /**
   * The grid spans exactly GridLength(p) days, a whole number of weeks
   * between four and six.
   */
  lemma GridSpan(p: Date)
    requires p.Valid()
    ensures DayNumber(GridEnd(p)) == DayNumber(GridStart(p)) + GridLength(p) - 1
    ensures GridLength(p) % 7 == 0 && 28 <= GridLength(p) <= 42
    ensures DayNumber(GridStart(p)) == DayNumber(StartOfMonth(p)) - LeadingDays(p)
  {
    GridLengthWeeks(p);
    StartOfWeekNumber(StartOfMonth(p));
    EndOfWeekNumber(EndOfMonth(p));
  }

  /** The month's own days are consecutive, and the grid holds whole weeks of them. */
  lemma GridLengthWeeks(p: Date)
    requires p.Valid()
    ensures DayNumber(EndOfMonth(p)) == DayNumber(StartOfMonth(p)) + DaysInMonth(p.year, p.month) - 1
    ensures GridLength(p) % 7 == 0 && 28 <= GridLength(p) <= 42
  {
    var first, last := StartOfMonth(p), EndOfMonth(p);
    var len := DaysInMonth(p.year, p.month);
    var n0, n1 := DayNumber(first), DayNumber(last);
    assert n1 == n0 + len - 1 by {
      DayNumberFromFirst(first);
      DayNumberFromFirst(last);
    }
    MonthEndWeekday(n0, n1, len, Weekday(first), Weekday(last), GridLength(p));
  }

  /** Leading days + month + trailing days make whole weeks, four to six of them. */
  lemma MonthEndWeekday(n0: int, n1: int, len: int, w0: int, w1: int, total: int)
    requires 28 <= len <= 31 && n1 == n0 + len - 1
    requires w0 == (n0 + 4) % 7 && w1 == (n1 + 4) % 7
    requires total == w0 + len + 6 - w1
    ensures total % 7 == 0 && 28 <= total <= 42
  {
  }

  // ---------------------------------------------------------------------
  // What the grid is.

  /**
   * The grid runs from startOfWeek(startOfMonth(p)) to endOfWeek(endOfMonth(p))
   * in steps of exactly one day; its length is a whole number of weeks,
   * between four and six.
   */
  lemma GridShape(p: Date)
    requires p.Valid()
    ensures var days := CalendarDays(p);
      && |days| % 7 == 0 && 28 <= |days| <= 42
      && days[0] == StartOfWeek(StartOfMonth(p))
      && days[|days| - 1] == EndOfWeek(EndOfMonth(p))
      && (forall i :: 0 <= i < |days| - 1 ==> days[i + 1] == NextDay(days[i]))
      && (forall i :: 0 <= i < |days| ==> DayNumber(days[i]) == DayNumber(days[0]) + i)
  {
    var days := CalendarDays(p);
    var n := GridLength(p);
    GridSpan(p);
    DaysFromNumbers(GridStart(p), n);
    DayNumberInjective(days[n - 1], GridEnd(p));
    forall i | 0 <= i < n - 1
      ensures days[i + 1] == NextDay(days[i])
    {
      NextDayNumber(days[i]);
      DayNumberInjective(days[i + 1], NextDay(days[i]));
    }
  }

  /** The grid starts on a Sunday and ends on a Saturday. */
  lemma GridWeekAligned(p: Date)
    requires p.Valid()
    ensures Weekday(CalendarDays(p)[0]) == 0
    ensures Weekday(CalendarDays(p)[|CalendarDays(p)| - 1]) == 6
  {
    GridStartsSunday(p);
    GridEndsSaturday(p);
  }

  lemma GridStartsSunday(p: Date)
    requires p.Valid()
    ensures 0 < |CalendarDays(p)| && Weekday(CalendarDays(p)[0]) == 0
  {
    GridLengthWeeks(p);
    GridCellWeekday(p, 0);
    assert 0 % 7 == 0;
  }

  lemma GridEndsSaturday(p: Date)
    requires p.Valid()
    ensures 0 < |CalendarDays(p)| && Weekday(CalendarDays(p)[|CalendarDays(p)| - 1]) == 6
  {
    var n := |CalendarDays(p)|;
    GridLengthWeeks(p);
    LastDayOfWeeks(n);
    GridCellWeekday(p, n - 1);
  }

  lemma LastDayOfWeeks(n: int)
    requires n % 7 == 0 && n >= 7
    ensures (n - 1) % 7 == 6
  {
  }

  /** Cell i of the grid falls on weekday i mod 7. */
  lemma GridCellWeekday(p: Date, i: int)
    requires p.Valid() && 0 <= i < GridLength(p)
    ensures CalendarDays(p)[i].Valid()
    ensures Weekday(CalendarDays(p)[i]) == i % 7
  {
    GridCellNumber(p, i);
    DayWeekday(StartOfMonth(p), CalendarDays(p)[i], i);
  }

  /** The first and the last day of week row j sit at offsets 0 and 6. */
  lemma WeekOffsets(j: int)
    ensures (7 * j) % 7 == 0 && (7 * j + 6) % 7 == 6
  {
  }

  /** Cell i of the grid is the day i places after the grid's Sunday. */
  lemma GridCellNumber(p: Date, i: int)
    requires p.Valid() && 0 <= i < GridLength(p)
    ensures CalendarDays(p)[i].Valid()
    ensures DayNumber(CalendarDays(p)[i]) == DayNumber(StartOfMonth(p)) - LeadingDays(p) + i
  {
    GridSpan(p);
    DaysFromNumbers(GridStart(p), GridLength(p));
  }

  /**
   * Every day of the reference month is in the grid, at index
   * LeadingDays(p) + day - 1.
   */
  lemma GridContainsMonth(p: Date, day: int)
    requires p.Valid() && 1 <= day <= DaysInMonth(p.year, p.month)
    ensures var i := LeadingDays(p) + day - 1;
      0 <= i < |CalendarDays(p)| && CalendarDays(p)[i] == Date(p.year, p.month, day)
  {
    var i := LeadingDays(p) + day - 1;
    var d := Date(p.year, p.month, day);
    GridSpan(p);
    GridCellNumber(p, i);
    DayNumberFromFirst(d);
    DayNumberFromFirst(StartOfMonth(p));
    DayNumberInjective(CalendarDays(p)[i], d);
  }

  /**
   * Which month each cell belongs to: the LeadingDays(p) cells before the 1st
   * are in the previous month, the next DaysInMonth cells in p's month, and
   * the rest in the following month.
   */
  lemma GridCellMonth(p: Date, i: int)
    requires p.Valid() && 0 <= i < GridLength(p)
    ensures var c, lead := CalendarDays(p)[i], LeadingDays(p);
      && (i < lead ==> MonthIndex(c) == MonthIndex(p) - 1)
      && (lead <= i < lead + DaysInMonth(p.year, p.month) ==> MonthIndex(c) == MonthIndex(p))
      && (lead + DaysInMonth(p.year, p.month) <= i ==> MonthIndex(c) == MonthIndex(p) + 1)
  {
    var c, first := CalendarDays(p)[i], StartOfMonth(p);
    var lead, len := LeadingDays(p), DaysInMonth(p.year, p.month);
    GridCellNumber(p, i);
    if i < lead {
      MonthBeforeFirst(first, c);
    } else if i < lead + len {
      MonthOfFirstToLast(first, c);
    } else {
      MonthAfterLast(first, c);
    }
  }

  /**
   * The worked case: March 2024 starts on a Friday and ends on a Sunday, so
   * its grid holds six weeks, from 2024-02-25 through 2024-04-06.
   */
  lemma March2024Grid()
    ensures var days := CalendarDays(Date(2024, 3, 1));
      && |days| == 42
      && days[0] == Date(2024, 2, 25)
      && days[34] == Date(2024, 3, 30)
      && days[41] == Date(2024, 4, 6)
  {
    var p := Date(2024, 3, 1);
    var last := Date(2024, 3, 31);
    DaysBefore2024(2024);
    assert DayNumber(p) == 19783 && Weekday(p) == 5;
    assert DayNumber(last) == 19813 && Weekday(last) == 0;
    assert DayNumber(Date(2024, 2, 25)) == 19778;
    assert DayNumber(Date(2024, 4, 6)) == 19819;
    assert GridLength(p) == 42;
    GridShape(p);
    GridContainsMonth(p, 30);
    AddDaysNumber(p, -5);
    AddDaysNumber(last, 6);
    DayNumberInjective(StartOfWeek(p), Date(2024, 2, 25));
    DayNumberInjective(EndOfWeek(last), Date(2024, 4, 6));
  }
}
