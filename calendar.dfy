/**
 * The `Calendar` component (src/components/Calendar.tsx) as an object: the
 * refs it mutates (`scrollEnabledRef`, `prevOffsetX`, `monthDataRef`), the
 * focal date it sets through `setPointDate`, the selected date it dispatches,
 * the page the list was last sent to, and the `mealInputForMonth` state.
 * Each handler changes the fields exactly as the matching transition of
 * module Paging says.
 */
module CalendarView {
  import opened Wrappers
  import opened Dates
  import opened DayCells
  import opened MealData
  import opened Paging

  class Calendar {
    const contentWidth: int
    const initialPointDate: Date
    const monthData: seq<Page>          // monthDataRef.current
    const store: MealInputStore         // the mealInput slice and the server behind it
    var scrollEnabled: bool             // scrollEnabledRef.current
    var prevOffsetX: int                // prevOffsetX.current
    var pointDate: Date                 // props.pointDate
    var markedDate: Option<Date>        // state.markedDate.date
    var scrollIndex: int                // the page of the last scrollToIndex
    var mealInputForMonth: Option<seq<MealRecord>>

    /** The controller part of the fields, as a value. */
    function State(): ScrollState
      reads this
    {
      ScrollState(scrollEnabled, prevOffsetX, pointDate, markedDate, scrollIndex)
    }

    ghost predicate Valid()
      reads this
    {
      && contentWidth > 0
      && initialPointDate.Valid()
      && pointDate.Valid()
      && monthData == MonthTable(initialPointDate)
    }

    /**
     * Mounting: the page table around the starting date, scrolling enabled, and
     * the anchor at the middle page's offset; nothing loaded yet.
     */
    constructor(pointDate0: Date, markedDate0: Option<Date>, width: int, store0: MealInputStore)
      requires pointDate0.Valid() && width > 0
      ensures Valid()
      ensures State() == InitialState(pointDate0, markedDate0, width)
      ensures monthData == MonthTable(pointDate0) && contentWidth == width && store == store0
      ensures mealInputForMonth == None
    {
      contentWidth := width;
      initialPointDate := pointDate0;
      monthData := MonthTable(pointDate0);
      store := store0;
      scrollEnabled := true;
      prevOffsetX := width * INITIAL_INDEX;
      pointDate := pointDate0;
      markedDate := markedDate0;
      scrollIndex := INITIAL_INDEX;
      mealInputForMonth := None;
    }

    /** handleScroll, called when a swipe's momentum ends at offsetX. */
    method HandleScroll(offsetX: int)
      requires Valid()
      modifies this
      ensures Valid()
      ensures State() == Settle(old(State()), offsetX, contentWidth)
      ensures mealInputForMonth == old(mealInputForMonth)
    {
      if !scrollEnabled {
        return;
      }
      if offsetX < prevOffsetX && 2 * Abs(offsetX - prevOffsetX) > contentWidth {
        scrollEnabled := false;
        pointDate := AddMonths(pointDate, -1);
      } else if offsetX > prevOffsetX && 2 * Abs(offsetX - prevOffsetX) > contentWidth {
        scrollEnabled := false;
        pointDate := AddMonths(pointDate, 1);
      }
      prevOffsetX := offsetX;
    }

    /** handlePress of the page at pageIndex, for a tap on `day` with its month flags. */
    method HandlePress(listMounted: bool, day: Date, isPrevMonth: bool, isNextMonth: bool, pageIndex: int)
      requires Valid() && day.Valid()
      modifies this
      ensures Valid()
      ensures State() == Press(old(State()), listMounted, day, isPrevMonth, isNextMonth, pageIndex, contentWidth)
      ensures mealInputForMonth == old(mealInputForMonth)
    {
      if !listMounted {
        return;
      }
      if !isPrevMonth && !isNextMonth {
        pointDate := day;
        markedDate := Some(day);
      } else {
        var newPageIndex := if isPrevMonth then pageIndex - 1 else pageIndex + 1;
        scrollIndex := newPageIndex;
        prevOffsetX := newPageIndex * contentWidth;
        pointDate := day;
        markedDate := Some(day);
      }
    }

    /**
     * The effect run when the focal date changes: load the focal month's meal
     * data (from the store, or else from the server with the given outcome)
     * into mealInputForMonth, and enable scrolling again.
     */
    method PointDateEffect(outcome: FetchOutcome)
      requires Valid()
      modifies this, store
      ensures Valid()
      ensures State() == PointDateChanged(old(State()))
      ensures MonthKey(pointDate) in old(store.data) ==>
        mealInputForMonth == Some(old(store.data)[MonthKey(pointDate)]) && store.requests == old(store.requests)
      ensures MonthKey(pointDate) !in old(store.data) ==>
        store.requests == old(store.requests) + [MonthKey(pointDate)]
      ensures MonthKey(pointDate) !in old(store.data) ==>
        mealInputForMonth == (if outcome.Fetched? then Some(outcome.monthData) else None)
      ensures mealInputForMonth.Some? ==>
        MonthKey(pointDate) in store.data && mealInputForMonth == Some(store.data[MonthKey(pointDate)])
    ensures store.data ==
        if MonthKey(pointDate) in old(store.data) || outcome.FetchFailed? then old(store.data)
        else old(store.data)[MonthKey(pointDate) := outcome.monthData]
    {
      var currentMonth := MonthKey(pointDate);
      var data := store.CheckAndFetchMealData(currentMonth, outcome);
      mealInputForMonth := data;
      scrollEnabled := true;
    }
  }

  /**
   * A swipe past half a page followed by the effect it triggers: the focal
   * month moves by exactly one in the swipe's direction, scrolling is enabled
   * again, and the loaded data, if any, is the new focal month's.
   */
  method SwipeAndLoad(c: Calendar, offsetX: int, outcome: FetchOutcome)
    requires c.Valid() && c.scrollEnabled
    requires 2 * Abs(offsetX - c.prevOffsetX) > c.contentWidth
    modifies c, c.store
    ensures c.Valid() && c.scrollEnabled && c.prevOffsetX == offsetX
    ensures MonthIndex(c.pointDate) ==
      MonthIndex(old(c.pointDate)) + (if offsetX < old(c.prevOffsetX) then -1 else 1)
    ensures c.mealInputForMonth.Some? ==>
      MonthKey(c.pointDate) in c.store.data && c.mealInputForMonth == Some(c.store.data[MonthKey(c.pointDate)])
    ensures c.markedDate == old(c.markedDate) && c.scrollIndex == old(c.scrollIndex)
    ensures forall m :: m in old(c.store.data) ==> m in c.store.data && c.store.data[m] == old(c.store.data)[m]
  {
    c.HandleScroll(offsetX);
    c.PointDateEffect(outcome);
  }
}
