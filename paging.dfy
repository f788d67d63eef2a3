/**
 * The paged scroll controller of the calendar component
 * (src/components/Calendar.tsx) as a state machine: the scroll lock
 * `scrollEnabledRef`, the anchor `prevOffsetX`, the focal `pointDate`, the
 * selected date `markedDate`, and the page the list was last sent to. Offsets
 * and the page width are whole numbers; page i rests at offset i * width.
 */
module Paging {
  import opened Wrappers
  import opened Dates
  import opened CalendarGrid
  import opened DayCells

  const MAX_COUNT_OF_MONTHS: int := 1000
  const INITIAL_INDEX: int := MAX_COUNT_OF_MONTHS / 2

  /** One entry of `monthDataRef`: page `key` shows the month of `date`. */
  datatype Page = Page(key: int, date: Date)

  /** `monthDataRef`: page i holds addMonths(pointDate, i - INITIAL_INDEX). */
  function MonthTable(pointDate: Date): (pages: seq<Page>)
    requires pointDate.Valid()
    ensures |pages| == MAX_COUNT_OF_MONTHS
    ensures forall i :: 0 <= i < |pages| ==> pages[i].key == i && pages[i].date.Valid()
  {
    var pages := seq(MAX_COUNT_OF_MONTHS, i requires 0 <= i < MAX_COUNT_OF_MONTHS =>
      Page(i, AddMonths(pointDate, i - INITIAL_INDEX)));
    assert forall i :: 0 <= i < |pages| ==> pages[i] == Page(i, AddMonths(pointDate, i - INITIAL_INDEX));
    pages
  }

  /** Consecutive pages show consecutive months, and the middle page the starting date. */
  lemma MonthTableMonths(pointDate: Date, i: int)
    requires pointDate.Valid() && 0 <= i < MAX_COUNT_OF_MONTHS
    ensures MonthIndex(MonthTable(pointDate)[i].date) == MonthIndex(pointDate) + i - INITIAL_INDEX
    ensures MonthTable(pointDate)[INITIAL_INDEX].date == pointDate
  {
    assert MonthTable(pointDate)[i].date == AddMonths(pointDate, i - INITIAL_INDEX);
    assert MonthTable(pointDate)[INITIAL_INDEX].date == AddMonths(pointDate, 0);
    AddZeroMonths(pointDate);
  }

  datatype ScrollState = ScrollState(
    scrollEnabled: bool,       // scrollEnabledRef.current
    prevOffsetX: int,          // prevOffsetX.current
    pointDate: Date,           // the focal date (props.pointDate)
    markedDate: Option<Date>,  // the selected date in the markedDate store
    scrollIndex: int)          // the page the list was last scrolled to

  /** After mount: unlocked, resting on the middle page with its offset as anchor. */
  function InitialState(pointDate: Date, markedDate: Option<Date>, width: int): ScrollState {
    ScrollState(true, INITIAL_INDEX * width, pointDate, markedDate, INITIAL_INDEX)
  }

  function Abs(x: int): int {
    if x < 0 then -x else x
  }

  /**
   * handleScroll on a settle event at offsetX: ignored while locked; a move of
   * more than half a page (|offsetX - anchor| > width / 2, i.e. twice the
   * distance exceeds the width) changes the focal month by one and locks;
   * every handled event re-anchors at offsetX.
   */
  function Settle(s: ScrollState, offsetX: int, width: int): (r: ScrollState)
    requires s.pointDate.Valid()
    ensures r.pointDate.Valid()
    ensures -1 <= MonthIndex(r.pointDate) - MonthIndex(s.pointDate) <= 1
    ensures r.pointDate != s.pointDate ==> !r.scrollEnabled
    ensures r.markedDate == s.markedDate && r.scrollIndex == s.scrollIndex
    ensures s.scrollEnabled ==> r.prevOffsetX == offsetX
  {
    if !s.scrollEnabled then s
    else if offsetX < s.prevOffsetX && 2 * Abs(offsetX - s.prevOffsetX) > width then
      s.(scrollEnabled := false, pointDate := AddMonths(s.pointDate, -1), prevOffsetX := offsetX)
    else if offsetX > s.prevOffsetX && 2 * Abs(offsetX - s.prevOffsetX) > width then
      s.(scrollEnabled := false, pointDate := AddMonths(s.pointDate, 1), prevOffsetX := offsetX)
    else s.(prevOffsetX := offsetX)
  }

  /** The pointDate effect: once the focal date has changed, scrolling is handled again. */
  function PointDateChanged(s: ScrollState): (r: ScrollState)
    ensures r.scrollEnabled && r.(scrollEnabled := s.scrollEnabled) == s
  {
    s.(scrollEnabled := true)
  }

  /**
   * handlePress on `day`, drawn on page `pageIndex`: nothing without a mounted
   * list; a focal-month day is selected and focused; an adjacent-month day is
   * selected and focused after scrolling one page back (previous) or on
   * (next) and re-anchoring at that page's offset.
   */
  function Press(s: ScrollState, listMounted: bool, day: Date, isPrevMonth: bool, isNextMonth: bool,
                 pageIndex: int, width: int): (r: ScrollState)
    ensures r.scrollEnabled == s.scrollEnabled
    ensures !listMounted ==> r == s
    ensures listMounted ==> r.pointDate == day && r.markedDate == Some(day)
    ensures listMounted && (isPrevMonth || isNextMonth) ==>
      Abs(r.scrollIndex - pageIndex) == 1 && r.prevOffsetX == r.scrollIndex * width
    ensures !(isPrevMonth || isNextMonth) ==> r.scrollIndex == s.scrollIndex && r.prevOffsetX == s.prevOffsetX
  {
    if !listMounted then s
    else if !isPrevMonth && !isNextMonth then
      s.(pointDate := day, markedDate := Some(day))
    else
      var newPageIndex := if isPrevMonth then pageIndex - 1 else pageIndex + 1;
      s.(scrollIndex := newPageIndex, prevOffsetX := newPageIndex * width,
         pointDate := day, markedDate := Some(day))
  }

  // ---------------------------------------------------------------------
  // Settle events.

  /** While locked, a settle event changes nothing at all. */
  lemma SettleWhileLocked(s: ScrollState, offsetX: int, width: int)
    requires s.pointDate.Valid() && !s.scrollEnabled
    ensures Settle(s, offsetX, width) == s
  {
  }

  /** A settle more than half a page back moves the focal month back by exactly one and locks. */
  lemma SettleBack(s: ScrollState, offsetX: int, width: int)
    requires s.pointDate.Valid() && s.scrollEnabled && width > 0
    requires 2 * (s.prevOffsetX - offsetX) > width
    ensures var r := Settle(s, offsetX, width);
      && r.pointDate == AddMonths(s.pointDate, -1)
      && MonthIndex(r.pointDate) == MonthIndex(s.pointDate) - 1
      && !r.scrollEnabled && r.prevOffsetX == offsetX
      && r.markedDate == s.markedDate && r.scrollIndex == s.scrollIndex
  {
  }

  /** A settle more than half a page on moves the focal month on by exactly one and locks. */
  lemma SettleForward(s: ScrollState, offsetX: int, width: int)
    requires s.pointDate.Valid() && s.scrollEnabled && width > 0
    requires 2 * (offsetX - s.prevOffsetX) > width
    ensures var r := Settle(s, offsetX, width);
      && r.pointDate == AddMonths(s.pointDate, 1)
      && MonthIndex(r.pointDate) == MonthIndex(s.pointDate) + 1
      && !r.scrollEnabled && r.prevOffsetX == offsetX
      && r.markedDate == s.markedDate && r.scrollIndex == s.scrollIndex
  {
  }

  /** A settle within half a page only re-anchors. */
  lemma SettleWithinThreshold(s: ScrollState, offsetX: int, width: int)
    requires s.pointDate.Valid() && s.scrollEnabled
    requires 2 * Abs(offsetX - s.prevOffsetX) <= width
    ensures Settle(s, offsetX, width) == s.(prevOffsetX := offsetX)
  {
  }

  /** Swiping from page i to its neighbour moves the focal month one step that way. */
  lemma SwipeOnePage(s: ScrollState, i: int, width: int)
    requires s.pointDate.Valid() && s.scrollEnabled && width > 0
    requires s.prevOffsetX == i * width
    ensures MonthIndex(Settle(s, (i - 1) * width, width).pointDate) == MonthIndex(s.pointDate) - 1
    ensures MonthIndex(Settle(s, (i + 1) * width, width).pointDate) == MonthIndex(s.pointDate) + 1
  {
    assert (i - 1) * width == i * width - width;
    assert (i + 1) * width == i * width + width;
  }

  /** A run of settle events with no pointDate effect in between. */
  function SettleRun(s: ScrollState, offsets: seq<int>, width: int): (r: ScrollState)
    requires s.pointDate.Valid()
    ensures r.pointDate.Valid()
    decreases |offsets|
  {
    if offsets == [] then s else SettleRun(Settle(s, offsets[0], width), offsets[1..], width)
  }

  /** Once locked, a whole run of settle events changes nothing. */
  lemma {:induction false} LockedRunKeepsState(s: ScrollState, offsets: seq<int>, width: int)
    requires s.pointDate.Valid() && !s.scrollEnabled
    ensures SettleRun(s, offsets, width) == s
    decreases |offsets|
  {
    if offsets != [] {
      LockedRunKeepsState(s, offsets[1..], width);
    }
  }

  /**
   * However many settle events arrive before the pointDate effect unlocks, the
   * focal month moves by at most one, and if it moved the controller is locked.
   */
  lemma {:induction false} AtMostOneMonthPerGesture(s: ScrollState, offsets: seq<int>, width: int)
    requires s.pointDate.Valid()
    ensures var r := SettleRun(s, offsets, width);
      && -1 <= MonthIndex(r.pointDate) - MonthIndex(s.pointDate) <= 1
      && (r.pointDate != s.pointDate ==> !r.scrollEnabled)
    decreases |offsets|
  {
    if offsets != [] {
      var s1 := Settle(s, offsets[0], width);
      if s1.scrollEnabled {
        assert s1.pointDate == s.pointDate;
        AtMostOneMonthPerGesture(s1, offsets[1..], width);
      } else {
        LockedRunKeepsState(s1, offsets[1..], width);
      }
    }
  }

  // ---------------------------------------------------------------------
  // Taps.

  /** Without a mounted list a tap does nothing. */
  lemma PressWithoutList(s: ScrollState, day: Date, isPrevMonth: bool, isNextMonth: bool,
                         pageIndex: int, width: int)
    ensures Press(s, false, day, isPrevMonth, isNextMonth, pageIndex, width) == s
  {
  }

  /** A focal-month day is selected and focused; no scroll, the anchor stays. */
  lemma PressFocalDay(s: ScrollState, day: Date, pageIndex: int, width: int)
    ensures var r := Press(s, true, day, false, false, pageIndex, width);
      && r.pointDate == day && r.markedDate == Some(day)
      && r.scrollIndex == s.scrollIndex && r.prevOffsetX == s.prevOffsetX
      && r.scrollEnabled == s.scrollEnabled
  {
  }

  /**
   * An adjacent-month day scrolls exactly one page back (previous) or on
   * (next), anchors at that page's offset, and is selected and focused.
   */
  lemma PressAdjacentDay(s: ScrollState, day: Date, isPrevMonth: bool, isNextMonth: bool,
                         pageIndex: int, width: int)
    requires isPrevMonth || isNextMonth
    ensures var r := Press(s, true, day, isPrevMonth, isNextMonth, pageIndex, width);
      && r.scrollIndex == (if isPrevMonth then pageIndex - 1 else pageIndex + 1)
      && r.prevOffsetX == r.scrollIndex * width
      && r.pointDate == day && r.markedDate == Some(day)
      && r.scrollEnabled == s.scrollEnabled
  {
  }

  /**
   * The anchor set by a tap is the destination page's resting offset, so the
   * settle event that ends the programmatic scroll leaves the focus alone.
   */
  lemma PressThenLandingSettle(s: ScrollState, day: Date, isPrevMonth: bool, isNextMonth: bool,
                               pageIndex: int, width: int)
    requires day.Valid() && (isPrevMonth || isNextMonth) && width > 0
    ensures var r := Press(s, true, day, isPrevMonth, isNextMonth, pageIndex, width);
      var landed := Settle(r, r.scrollIndex * width, width);
      landed.pointDate == day && landed.scrollEnabled == s.scrollEnabled && landed == r
  {
  }

  /**
   * Tapping a leading or trailing cell of page i scrolls to the page that shows
   * the tapped day's month, except across the year end: a trailing January day
   * of a December page and a leading December day of a January page are
   * classified the wrong way round, so the list scrolls away from the day's
   * month and lands two months off.
   */
  lemma PressAdjacentCell(p0: Date, i: int, j: int, s: ScrollState, width: int)
    requires p0.Valid() && 1 <= i < MAX_COUNT_OF_MONTHS - 1
    requires 0 <= j < |CalendarDays(MonthTable(p0)[i].date)|
    requires var q := MonthTable(p0)[i].date;
      !IsCurrentMonth(CalendarDays(q)[j], q)
    ensures var q := MonthTable(p0)[i].date;
      var c := CalendarDays(q)[j];
      var r := Press(s, true, c, IsPrevMonth(c, q), IsNextMonth(c, q), i, width);
      var wrapped := (q.month == 12 && j >= LeadingDays(q)) || (q.month == 1 && j < LeadingDays(q));
      && 0 <= r.scrollIndex < MAX_COUNT_OF_MONTHS
      && r.pointDate == c
      && (!wrapped ==> MonthIndex(MonthTable(p0)[r.scrollIndex].date) == MonthIndex(c))
      && (wrapped && q.month == 12 ==> MonthIndex(MonthTable(p0)[r.scrollIndex].date) == MonthIndex(c) - 2)
      && (wrapped && q.month == 1 ==> MonthIndex(MonthTable(p0)[r.scrollIndex].date) == MonthIndex(c) + 2)
  {
    var q := MonthTable(p0)[i].date;
    var c := CalendarDays(q)[j];
    GridClassification(q, j);
    GridCellMonth(q, j);
    MonthTableMonths(p0, i);
    MonthTableMonths(p0, i - 1);
    MonthTableMonths(p0, i + 1);
  }
}
