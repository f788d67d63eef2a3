/**
 * One page of the calendar as `renderCalendar` (src/components/Calendar.tsx)
 * lays it out: week rows of cells, each cell carrying its day, the three month
 * flags (the current-month flag decides black or gray text), the selection
 * highlight and the meal-input marker.
 */
module PageRender {
  import opened Wrappers
  import opened Dates
  import opened CalendarGrid
  import opened Weeks
  import opened DayCells

  datatype Cell = Cell(
    day: Date,
    isCurrentMonth: bool,
    isPrevMonth: bool,
    isNextMonth: bool,
    selected: bool,
    marker: Marker)

  /**
   * The day the highlight compares against: the selected date, or, when none
   * is selected, the day `new Date(null)` denotes, 1970-01-01.
   */
  function HighlightedDay(markedDate: Option<Date>): Date {
    if markedDate.None? then Date(1970, 1, 1) else markedDate.value
  }

  /** One cell of a page showing pointDate's month. */
  function RenderCell(day: Date, pointDate: Date, markedDate: Option<Date>,
                      mealInputForMonth: Option<seq<MealRecord>>): (c: Cell)
    ensures c.day == day
    ensures c.isCurrentMonth != (c.isPrevMonth || c.isNextMonth) && !(c.isPrevMonth && c.isNextMonth)
    ensures c.selected <==> markedDate == Some(day) || (markedDate.None? && day == Date(1970, 1, 1))
  {
    Cell(day,
         IsCurrentMonth(day, pointDate), IsPrevMonth(day, pointDate), IsNextMonth(day, pointDate),
         day == HighlightedDay(markedDate),
         DayMarker(mealInputForMonth, day))
  }

  /** Week rows of days rendered as rows of cells for a page showing pointDate's month. */
  function RenderRows(weeks: seq<seq<Date>>, pointDate: Date, markedDate: Option<Date>,
                      mealInputForMonth: Option<seq<MealRecord>>): seq<seq<Cell>>
  {
    seq(|weeks|, j requires 0 <= j < |weeks| =>
      seq(|weeks[j]|, k requires 0 <= k < |weeks[j]| =>
        RenderCell(weeks[j][k], pointDate, markedDate, mealInputForMonth)))
  }

  /** The week rows of the page, every day rendered as a cell. */
  function RenderCalendar(pointDate: Date, markedDate: Option<Date>,
                          mealInputForMonth: Option<seq<MealRecord>>): seq<seq<Cell>>
    requires pointDate.Valid()
  {
    RenderRows(Chunks(CalendarDays(pointDate)), pointDate, markedDate, mealInputForMonth)
  }

  /** Whole weeks of days render as rows of seven cells, one row per week. */
  lemma WholeWeekRows(days: seq<Date>, p: Date, markedDate: Option<Date>,
                      mealInputForMonth: Option<seq<MealRecord>>)
    requires |days| % 7 == 0
    ensures var rows := RenderRows(Chunks(days), p, markedDate, mealInputForMonth);
      && |rows| == |days| / 7
      && (forall j :: 0 <= j < |rows| ==> |rows[j]| == 7)
  {
    ChunksOfWholeWeeks(days);
  }

  /** Cell k of row j renders day 7 * j + k. */
  lemma WholeWeekCell(days: seq<Date>, p: Date, markedDate: Option<Date>,
                      mealInputForMonth: Option<seq<MealRecord>>, j: int, k: int)
    requires |days| % 7 == 0 && 0 <= j < |days| / 7 && 0 <= k < 7
    ensures var rows := RenderRows(Chunks(days), p, markedDate, mealInputForMonth);
      && j < |rows| && k < |rows[j]| && 7 * j + k < |days|
      && rows[j][k] == RenderCell(days[7 * j + k], p, markedDate, mealInputForMonth)
  {
    ChunksOfWholeWeeks(days);
    assert Chunks(days)[j][k] == days[7 * j + k];
  }

  /**
   * A page is four to six rows of seven cells, and cell k of row j renders
   * grid day 7 * j + k.
   */
  lemma RenderCalendarCells(p: Date, markedDate: Option<Date>, mealInputForMonth: Option<seq<MealRecord>>)
    requires p.Valid()
    ensures var rows, days := RenderCalendar(p, markedDate, mealInputForMonth), CalendarDays(p);
      && 4 <= |rows| <= 6 && |days| == 7 * |rows|
      && (forall j :: 0 <= j < |rows| ==> |rows[j]| == 7)
      && (forall j, k :: 0 <= j < |rows| && 0 <= k < 7 ==>
            rows[j][k] == RenderCell(days[7 * j + k], p, markedDate, mealInputForMonth))
  {
    var days := CalendarDays(p);
    var rows := RenderCalendar(p, markedDate, mealInputForMonth);
    GridLengthWeeks(p);
    WholeWeekRows(days, p, markedDate, mealInputForMonth);
    forall j, k | 0 <= j < |rows| && 0 <= k < 7
      ensures rows[j][k] == RenderCell(days[7 * j + k], p, markedDate, mealInputForMonth)
    {
      WholeWeekCell(days, p, markedDate, mealInputForMonth, j, k);
    }
  }

  /**
   * What cell k of row j shows: grid day 7 * j + k, black text exactly on the
   * days of the page's month, the highlight exactly on the selected day, and
   * that day's meal-input marker.
   */
  lemma RenderCalendarLayout(p: Date, markedDate: Option<Date>, mealInputForMonth: Option<seq<MealRecord>>,
                             j: int, k: int)
    requires p.Valid()
    requires 0 <= j < |RenderCalendar(p, markedDate, mealInputForMonth)|
    requires 0 <= k < |RenderCalendar(p, markedDate, mealInputForMonth)[j]|
    ensures var cell, i := RenderCalendar(p, markedDate, mealInputForMonth)[j][k], 7 * j + k;
      && k < 7 && i < |CalendarDays(p)|
      && cell.day == CalendarDays(p)[i]
      && (cell.isCurrentMonth <==> LeadingDays(p) <= i < LeadingDays(p) + DaysInMonth(p.year, p.month))
      && (cell.selected <==> CalendarDays(p)[i] == HighlightedDay(markedDate))
      && cell.marker == DayMarker(mealInputForMonth, CalendarDays(p)[i])
  {
    var days := CalendarDays(p);
    GridLengthWeeks(p);
    WholeWeekRows(days, p, markedDate, mealInputForMonth);
    WholeWeekCell(days, p, markedDate, mealInputForMonth, j, k);
    GridClassification(p, 7 * j + k);
  }

  /** The grid never shows the same day twice. */
  lemma GridDaysDistinct(p: Date, a: int, b: int)
    requires p.Valid() && 0 <= a < |CalendarDays(p)| && 0 <= b < |CalendarDays(p)|
    ensures CalendarDays(p)[a] == CalendarDays(p)[b] <==> a == b
  {
    GridShape(p);
  }

  /** At most one cell of a page is highlighted. */
  lemma AtMostOneHighlight(p: Date, markedDate: Option<Date>, mealInputForMonth: Option<seq<MealRecord>>,
                           j1: int, k1: int, j2: int, k2: int)
    requires p.Valid()
    requires var rows := RenderCalendar(p, markedDate, mealInputForMonth);
      0 <= j1 < |rows| && 0 <= j2 < |rows| && 0 <= k1 < |rows[j1]| && 0 <= k2 < |rows[j2]|
    requires var rows := RenderCalendar(p, markedDate, mealInputForMonth);
      rows[j1][k1].selected && rows[j2][k2].selected
    ensures j1 == j2 && k1 == k2
  {
    SelectedCellDay(p, markedDate, mealInputForMonth, j1, k1);
    SelectedCellDay(p, markedDate, mealInputForMonth, j2, k2);
    SameDayIndex(p, HighlightedDay(markedDate), 7 * j1 + k1, 7 * j2 + k2);
    RowColumn(j1, k1, j2, k2);
  }

  lemma SameDayIndex(p: Date, h: Date, a: int, b: int)
    requires p.Valid() && 0 <= a < |CalendarDays(p)| && 0 <= b < |CalendarDays(p)|
    requires CalendarDays(p)[a] == h && CalendarDays(p)[b] == h
    ensures a == b
  {
    GridDaysDistinct(p, a, b);
  }

  /** A highlighted cell shows the selected day. */
  lemma SelectedCellDay(p: Date, markedDate: Option<Date>, mealInputForMonth: Option<seq<MealRecord>>,
                        j: int, k: int)
    requires p.Valid()
    requires var rows := RenderCalendar(p, markedDate, mealInputForMonth);
      0 <= j < |rows| && 0 <= k < |rows[j]| && rows[j][k].selected
    ensures 0 <= k < 7 && 0 <= 7 * j + k < |CalendarDays(p)|
    ensures CalendarDays(p)[7 * j + k] == HighlightedDay(markedDate)
  {
    RenderCalendarLayout(p, markedDate, mealInputForMonth, j, k);
  }

  lemma RowColumn(j1: int, k1: int, j2: int, k2: int)
    requires 0 <= k1 < 7 && 0 <= k2 < 7 && 7 * j1 + k1 == 7 * j2 + k2
    ensures j1 == j2 && k1 == k2
  {
  }

  /**
   * The selected day of the page's own month is highlighted, in black, in the
   * row j and column k that hold grid cell LeadingDays(p) + day - 1.
   */
  lemma SelectedDayHighlighted(p: Date, day: int, mealInputForMonth: Option<seq<MealRecord>>, j: int, k: int)
    requires p.Valid() && 1 <= day <= DaysInMonth(p.year, p.month)
    requires 0 <= k < 7 && 7 * j + k == LeadingDays(p) + day - 1
    ensures var rows := RenderCalendar(p, Some(Date(p.year, p.month, day)), mealInputForMonth);
      && 0 <= j < |rows| && k < |rows[j]|
      && rows[j][k].day == Date(p.year, p.month, day)
      && rows[j][k].selected && rows[j][k].isCurrentMonth
  {
    var md := Some(Date(p.year, p.month, day));
    GridContainsMonth(p, day);
    RenderCalendarCells(p, md, mealInputForMonth);
    RenderCalendarLayout(p, md, mealInputForMonth, j, k);
  }
}
