/**
 * What each grid cell of `renderCalendar` (src/components/Calendar.tsx) shows:
 * whether it counts as a previous-, current- or next-month day, and which
 * meal-input marker sits under it.
 */
module DayCells {
  import opened Wrappers
  import opened Dates
  import opened CalendarGrid

  // ---------------------------------------------------------------------
  // Month classification: month ordinals only, the year is not looked at.

  /** getMonth(day) === getMonth(pointDate). */
  predicate IsCurrentMonth(day: Date, pointDate: Date) {
    day.month == pointDate.month
  }

  /** getMonth(day) < getMonth(pointDate). */
  predicate IsPrevMonth(day: Date, pointDate: Date) {
    day.month < pointDate.month
  }

  /** getMonth(day) > getMonth(pointDate). */
  predicate IsNextMonth(day: Date, pointDate: Date) {
    day.month > pointDate.month
  }

  /** Exactly one of the three flags holds for any cell. */
  lemma ExactlyOneFlag(day: Date, pointDate: Date)
    ensures IsCurrentMonth(day, pointDate) || IsPrevMonth(day, pointDate) || IsNextMonth(day, pointDate)
    ensures !(IsCurrentMonth(day, pointDate) && IsPrevMonth(day, pointDate))
    ensures !(IsCurrentMonth(day, pointDate) && IsNextMonth(day, pointDate))
    ensures !(IsPrevMonth(day, pointDate) && IsNextMonth(day, pointDate))
  {
  }

  /**
   * The classification of grid cell i, both ways round. The current-month flag
   * picks out exactly the days of p's month. Because only month ordinals are
   * compared, the leading December days of a January page count as "next" and
   * the trailing January days of a December page count as "previous"; in every
   * other month the flags match the cell's place before or after the month.
   */
  lemma GridClassification(p: Date, i: int)
    requires p.Valid() && 0 <= i < |CalendarDays(p)|
    ensures var c, lead, len := CalendarDays(p)[i], LeadingDays(p), DaysInMonth(p.year, p.month);
      && (IsCurrentMonth(c, p) <==> lead <= i < lead + len)
      && (IsCurrentMonth(c, p) <==> c.year == p.year && c.month == p.month)
      && (IsPrevMonth(c, p) <==> (i < lead && p.month != 1) || (lead + len <= i && p.month == 12))
      && (IsNextMonth(c, p) <==> (lead + len <= i && p.month != 12) || (i < lead && p.month == 1))
  {
    var c := CalendarDays(p)[i];
    GridCellMonth(p, i);
    GridCellNumber(p, i);
  }

  /** Within the year, "previous" means before the 1st and "next" after the last day. */
  lemma GridClassificationMidYear(p: Date, i: int)
    requires p.Valid() && 2 <= p.month <= 11 && 0 <= i < |CalendarDays(p)|
    ensures var c := CalendarDays(p)[i];
      && (IsPrevMonth(c, p) <==> c.Valid() && DayNumber(c) < DayNumber(StartOfMonth(p)))
      && (IsNextMonth(c, p) <==> c.Valid() && DayNumber(c) > DayNumber(EndOfMonth(p)))
  {
    GridClassification(p, i);
    GridCellNumber(p, i);
    DayNumberFromFirst(StartOfMonth(p));
    DayNumberFromFirst(EndOfMonth(p));
  }

  /**
   * The December 2024 page: 2025-01-01 is one of its trailing cells and is
   * classified as a previous-month day.
   */
  lemma December2024TrailingJanuary()
    ensures var p := Date(2024, 12, 15);
      && |CalendarDays(p)| == 35
      && CalendarDays(p)[31] == Date(2025, 1, 1)
      && IsPrevMonth(Date(2025, 1, 1), p)
  {
    var p := Date(2024, 12, 15);
    var jan1 := Date(2025, 1, 1);
    DaysBefore2024(2024);
    assert DayNumber(StartOfMonth(p)) == 20058 && LeadingDays(p) == 0;
    assert Weekday(EndOfMonth(p)) == 2 && GridLength(p) == 35;
    assert DayNumber(jan1) == 20089;
    GridCellNumber(p, 31);
    DayNumberInjective(CalendarDays(p)[31], jan1);
  }

  // ---------------------------------------------------------------------
  // Meal-input markers.

  /** One entry of the month's meal data: a day and its input status text. */
  datatype MealRecord = MealRecord(date: Date, status: string)

  /** The marker drawn under a day; NoMarker is the `undefined` the source returns. */
  datatype Marker = White | Orange | Green | NoMarker

  /** makeMealInputMarking: status text to marker. */
  function MealInputMarking(mealDataForDate: Option<MealRecord>): (m: Marker)
    ensures m == White <==> mealDataForDate.None? || mealDataForDate.value.status == "NONE"
    ensures m == Orange <==> mealDataForDate.Some? && mealDataForDate.value.status == "ENTERING"
    ensures m == Green <==> mealDataForDate.Some? && mealDataForDate.value.status == "COMPLETE"
  {
    match mealDataForDate
    case None => White
    case Some(meal) =>
      if meal.status == "NONE" then White
      else if meal.status == "ENTERING" then Orange
      else if meal.status == "COMPLETE" then Green
      else NoMarker
  }

  /** Array `find`: the first record dated `day`, if any. */
  function FindMeal(meals: seq<MealRecord>, day: Date): (r: Option<MealRecord>)
    ensures r.None? <==> forall k :: 0 <= k < |meals| ==> meals[k].date != day
    ensures r.Some? ==> exists k :: 0 <= k < |meals| && meals[k] == r.value && r.value.date == day &&
                          forall j :: 0 <= j < k ==> meals[j].date != day
  {
    if meals == [] then None
    else if meals[0].date == day then Some(meals[0])
    else
      var r := FindMeal(meals[1..], day);
      assert r.Some? ==> exists k :: 0 <= k < |meals[1..]| && meals[1..][k] == r.value && r.value.date == day &&
                          forall j :: 0 <= j < k ==> meals[1..][j].date != day;
      r
  }

  /** The marker of a cell: look the day up in the month's data (`?.find`), then map it. */
  function DayMarker(mealInputForMonth: Option<seq<MealRecord>>, day: Date): (m: Marker)
    ensures mealInputForMonth.None? ==> m == White
    ensures mealInputForMonth.Some? ==>
      (forall k :: 0 <= k < |mealInputForMonth.value| ==> mealInputForMonth.value[k].date != day) ==>
      m == White
  {
    MealInputMarking(if mealInputForMonth.None? then None else FindMeal(mealInputForMonth.value, day))
  }

  /** A day with exactly one record shows that record's marker. */
  lemma DayMarkerOfOnlyRecord(meals: seq<MealRecord>, k: int)
    requires 0 <= k < |meals|
    requires forall j :: 0 <= j < |meals| && j != k ==> meals[j].date != meals[k].date
    ensures DayMarker(Some(meals), meals[k].date) == MealInputMarking(Some(meals[k]))
  {
  }

  /**
   * When the month's data only holds days of p's month, every leading and
   * trailing cell of p's grid gets the white marker.
   */
  lemma AdjacentCellsWhite(p: Date, meals: seq<MealRecord>, i: int)
    requires p.Valid() && 0 <= i < |CalendarDays(p)|
    requires forall j :: 0 <= j < |meals| ==> MonthIndex(meals[j].date) == MonthIndex(p)
    requires i < LeadingDays(p) || LeadingDays(p) + DaysInMonth(p.year, p.month) <= i
    ensures DayMarker(Some(meals), CalendarDays(p)[i]) == White
  {
    GridCellMonth(p, i);
  }
}
