# Month calendar of the meal tracker, modelled in Dafny

This project models the hand-built month calendar of a React Native meal
tracker. That calendar is `src/components/Calendar.tsx`. The model covers:

- **The month grid.** `makeCalendarDays` lists every day from the Sunday of the
  week holding the 1st through the Saturday of the week holding the last day.
  `renderCalendar` then cuts that list into week rows. Both are modelled in
  `grid.dfy` and `weeks.dfy`.
- **What each cell shows.** Each cell is classified as previous, current or
  next month by comparing month ordinals. It also carries the selection
  highlight and a meal-input marker, which comes from looking the day up in the
  month's records and mapping its status (`makeMealInputMarking`). This is in
  `cells.dfy`, with the whole page in `render.dfy`.
- **The paged scroll controller.** It is built from:
  - the 1000-page month table, where page i shows the month i - 500 away from
    the starting date;
  - the scroll lock and the offset anchor;
  - `handleScroll`, which settles a swipe;
  - `handlePress`, which handles a tap;
  - the `pointDate` effect, which unlocks scrolling and loads the focal month's
    data.

  All of this is in `paging.dfy` as value-level transitions. `calendar.dfy` holds
  a `Calendar` class whose handlers mutate fields exactly as those transitions
  say.
- **Cache-or-fetch.** `checkAndFetchMealData` serves a month from the
  `mealInput` store or asks the server once. It is modelled in `meal_data.dfy`
  as a class over a map, with the server's answer given as a parameter.

Dates are `Date(year, month, day)` values in `dates.dfy`. Each date has a day
count from 1970-01-01, and weekday 0 is Sunday. This matches the date-fns
defaults used by the source (`startOfWeek`, `endOfWeek`, `addDays`,
`addMonths`). Page widths and scroll offsets are integers. The half-page
threshold `|o - a| > w / 2` is stated as `2 * |o - a| > w`, which is exact for
integers.

Behaviour the model proves as the code has it:

- **The month flags ignore the year.** On a December page, the trailing
  January days count as *previous* month. On a January page, the leading
  December days count as *next* month (`DayCells.GridClassification`,
  `DayCells.December2024TrailingJanuary`).
- **A tap on one of those cells scrolls the wrong way.** It moves the list one
  page away from the tapped day's month, so the page reached is two months off
  (`Paging.PressAdjacentCell`). Away from the year end, a tap on an
  adjacent-month cell lands on the page of that day's month.
- **The March 2024 grid has six rows.** March 2024 starts on a Friday and ends
  on a Sunday, so its grid runs from 2024-02-25 through 2024-04-06: 42 cells
  (`CalendarGrid.March2024Grid`). A five-row grid ending on 2024-03-30 would not
  agree with the code.

## Model

| member | source | states |
|---|---|---|
| Dates.AddDaysNumber | src/components/Calendar.tsx:72 | addDays(d, n) moves the day count by exactly n |
| Dates.AddDays | src/components/Calendar.tsx:72 | addDays gives a valid date; AddDaysNumber says it is exactly n days on |
| Dates.DayNumberOrder | src/components/Calendar.tsx:69 | the `start <= endDate` comparison on day counts is calendar order: earlier month, or same month and earlier day |
| Dates.DayNumberInjective | src/components/Calendar.tsx:69 | two valid dates with the same day count are the same date |
| Dates.MonthOfDayNumber | src/components/Calendar.tsx:61-62 | a date lies in month k exactly when its day count is between the first day of month k and the first day of month k + 1 |
| Dates.StartOfMonth | src/components/Calendar.tsx:61 | startOfMonth keeps the month and gives day 1 |
| Dates.EndOfMonth | src/components/Calendar.tsx:62 | endOfMonth keeps the month and gives its last day |
| Dates.StartOfWeekNumber | src/components/Calendar.tsx:63 | startOfWeek goes back exactly as many days as the date's weekday |
| Dates.EndOfWeekNumber | src/components/Calendar.tsx:64 | endOfWeek goes on exactly six days minus the date's weekday |
| Dates.StartOfWeek | src/components/Calendar.tsx:63 | the Sunday on or before the date; StartOfWeekNumber and StartOfWeekIsSunday state its distance and weekday |
| Dates.EndOfWeek | src/components/Calendar.tsx:64 | the Saturday on or after the date; EndOfWeekNumber and EndOfWeekIsSaturday state its distance and weekday |
| Dates.StartOfWeekIsSunday | src/components/Calendar.tsx:63 | startOfWeek is a Sunday at most six days earlier |
| Dates.EndOfWeekIsSaturday | src/components/Calendar.tsx:64 | endOfWeek is a Saturday at most six days later |
| Dates.AddMonths | src/components/Calendar.tsx:282 | addMonths moves the month ordinal by exactly n; it keeps the day of month, or clamps it to the target month's last day |
| Dates.AddZeroMonths | src/components/Calendar.tsx:281-282 | a shift of zero months gives back the date itself |
| CalendarGrid.MakeCalendarDays | src/components/Calendar.tsx:59-76 | the while loop returns exactly the consecutive days from startOfWeek(startOfMonth(p)) for GridLength(p) days |
| CalendarGrid.CalendarDays | src/components/Calendar.tsx:59-76 | the grid the loop builds; GridShape, GridContainsMonth and GridCellMonth state its span, contents and months |
| CalendarGrid.DaysFromSnoc | src/components/Calendar.tsx:71-72 | one more loop step appends the day that is n days after the start |
| CalendarGrid.GridSpan | src/components/Calendar.tsx:61-64 | from startOfWeek(startOfMonth) to endOfWeek(endOfMonth) is a whole number of weeks, 28 to 42 days |
| CalendarGrid.GridShape | src/components/Calendar.tsx:59-76 | the grid starts at startOfWeek(startOfMonth(p)) and ends at endOfWeek(endOfMonth(p)); each cell is the next day of the one before; its length is a multiple of 7 from 28 to 42 |
| CalendarGrid.GridWeekAligned | src/components/Calendar.tsx:63-64 | the grid starts on a Sunday and ends on a Saturday |
| CalendarGrid.GridCellWeekday | src/components/Calendar.tsx:59-76 | cell i of the grid falls on weekday i mod 7, so the columns line up with the Sunday-first header |
| CalendarGrid.GridCellNumber | src/components/Calendar.tsx:59-76 | cell i is the day i places after the Sunday before the 1st |
| CalendarGrid.GridContainsMonth | src/components/Calendar.tsx:59-76 | every day of p's month is in the grid, at index LeadingDays(p) + day - 1 |
| CalendarGrid.GridCellMonth | src/components/Calendar.tsx:59-76 | the leading cells belong to the previous month, the next DaysInMonth cells to p's month, and the rest to the following month |
| CalendarGrid.March2024Grid | src/components/Calendar.tsx:59-76 | the March 2024 grid has 42 cells, from 2024-02-25 through 2024-04-06, and cell 34 is 2024-03-30 |
| Weeks.ChunkWeeks | src/components/Calendar.tsx:89-104 | the forEach builds exactly Chunks(list): rows of seven, plus a kept shorter last row |
| Weeks.Chunks | src/components/Calendar.tsx:89-104 | the rows the forEach builds; ChunksFlatten, ChunksShape and ChunksOfWholeWeeks state that they give back the list, in rows of seven with a shorter last row kept |
| Weeks.ChunksAppend | src/components/Calendar.tsx:102-104 | after whole weeks, a row of one to seven days becomes the last row |
| Weeks.ChunksFlatten | src/components/Calendar.tsx:93-104 | laying the rows end to end gives back the day list exactly |
| Weeks.ChunksShape | src/components/Calendar.tsx:93-104 | every row has one to seven days, and every row but the last has seven |
| Weeks.ChunksOfWholeWeeks | src/components/Calendar.tsx:93-104 | a list of whole weeks gives one row per seven days, and row j is days 7j to 7j + 6 |
| Weeks.GridWeeks | src/components/Calendar.tsx:89-104 | a month grid gives four to six rows of seven, each running Sunday to Saturday |
| DayCells.ExactlyOneFlag | src/components/Calendar.tsx:150-152 | exactly one of isCurrentMonth, isPrevMonth and isNextMonth holds |
| DayCells.IsCurrentMonth | src/components/Calendar.tsx:150 | the day's month of the year equals the page's (year ignored); GridClassification says it holds exactly on the days of p's month |
| DayCells.IsPrevMonth | src/components/Calendar.tsx:151 | the day's month of the year is smaller than the page's; GridClassification says which grid cells it flags, including the December page |
| DayCells.IsNextMonth | src/components/Calendar.tsx:152 | the day's month of the year is larger than the page's; GridClassification says which grid cells it flags, including the January page |
| DayCells.GridClassification | src/components/Calendar.tsx:150-152 | the current flag holds exactly on the days of p's month; the previous and next flags follow position, swapped at the year end for December and January pages |
| DayCells.GridClassificationMidYear | src/components/Calendar.tsx:150-152 | for February to November pages, previous means before the 1st and next means after the last day |
| DayCells.December2024TrailingJanuary | src/components/Calendar.tsx:150-152 | on the December 2024 page, 2025-01-01 is cell 31 and is flagged previous-month |
| DayCells.MealInputMarking | src/components/Calendar.tsx:37-55 | white iff there is no record or its status is NONE; orange iff ENTERING; green iff COMPLETE; otherwise no marker |
| DayCells.FindMeal | src/components/Calendar.tsx:163-165 | none iff no record has the day; otherwise the first record with that day |
| DayCells.DayMarker | src/components/Calendar.tsx:163-165 | without the month's data, or without a record for the day, the cell is white; DayMarkerOfOnlyRecord gives the marker of a day's record |
| DayCells.DayMarkerOfOnlyRecord | src/components/Calendar.tsx:163-165 | a day with exactly one record shows that record's marker |
| DayCells.AdjacentCellsWhite | src/components/Calendar.tsx:40-43 | when the data only holds days of p's month, every leading and trailing cell is white |
| PageRender.RenderCalendarCells | src/components/Calendar.tsx:135-137 | a page is four to six rows of seven cells, and cell (j, k) renders grid day 7j + k |
| PageRender.RenderCalendar | src/components/Calendar.tsx:79-194 | the page of rows; RenderCalendarCells and RenderCalendarLayout state its shape and every cell |
| PageRender.RenderCell | src/components/Calendar.tsx:137-181 | a cell shows its day; exactly one of the three month flags holds; highlighted iff the day is the marked date, or 1970-01-01 while none is marked |
| PageRender.RenderCalendarLayout | src/components/Calendar.tsx:137-165 | cell (j, k): black text exactly on p's month; highlight exactly on the selected day; that day's marker |
| PageRender.GridDaysDistinct | src/components/Calendar.tsx:59-76 | the grid never shows the same day twice |
| PageRender.AtMostOneHighlight | src/components/Calendar.tsx:142-147 | at most one cell of a page is highlighted |
| PageRender.SelectedDayHighlighted | src/components/Calendar.tsx:142-147 | a selected day of p's month is shown in row j, column k, where 7j + k = LeadingDays(p) + day - 1; that cell is highlighted and drawn as current month |
| MealData.MonthKeyIsMonth | src/components/Calendar.tsx:259 | two dates have the same 'yyyy-MM' key iff they lie in the same month |
| MealData.MonthKey | src/components/Calendar.tsx:259 | the 'yyyy-MM' key of a date; MonthKeyIsMonth says equal keys are exactly equal months |
| MealData.MealInputStore.CheckAndFetchMealData | src/components/Calendar.tsx:197-229 | hit: cached records, no request, store unchanged. Miss: one request; success files and returns the records; failure returns none, store unchanged. Cached months are never changed |
| MealData.FetchTwice | src/components/Calendar.tsx:205-228 | once a month has been served, asking again returns the same records with no new request; a cached month is served without any request at all, and an uncached one costs exactly one |
| Paging.MonthTable | src/components/Calendar.tsx:279-284 | 1000 pages, page i keyed i, each a valid date |
| Paging.MonthTableMonths | src/components/Calendar.tsx:243-244 | page i shows the month i - 500 away from the starting date; page 500 is the starting date |
| Paging.Settle | src/components/Calendar.tsx:296-327 | a settle event moves the focal month by at most one, locks when it moves it, keeps the selection and the page index, and while unlocked sets the anchor to the offset |
| Paging.PointDateChanged | src/components/Calendar.tsx:268 | the pointDate effect only re-enables scrolling |
| Paging.SettleWhileLocked | src/components/Calendar.tsx:303-306 | while locked, a settle event changes nothing |
| Paging.SettleBack | src/components/Calendar.tsx:311-315 | more than half a page back: the focal month goes back exactly one, the lock closes, the anchor becomes the offset |
| Paging.SettleForward | src/components/Calendar.tsx:317-320 | more than half a page on: the focal month goes on exactly one, the lock closes, the anchor becomes the offset |
| Paging.SettleWithinThreshold | src/components/Calendar.tsx:321-325 | within half a page, only the anchor moves to the offset |
| Paging.SwipeOnePage | src/components/Calendar.tsx:296-327 | from the anchor of page i, settling on page i - 1 or i + 1 moves the focal month one back or one on |
| Paging.LockedRunKeepsState | src/components/Calendar.tsx:303-306 | once locked, any run of settle events leaves the state unchanged |
| Paging.AtMostOneMonthPerGesture | src/components/Calendar.tsx:296-327 | between two pointDate effects the focal month moves by at most one, and if it moved the controller is locked |
| Paging.PressWithoutList | src/components/Calendar.tsx:108 | without a mounted list a tap changes nothing |
| Paging.Press | src/components/Calendar.tsx:107-129 | a tap never touches the lock; without a list it changes nothing; with one it selects and focuses the day; on an adjacent-month cell it moves one page from the current one and anchors at that page's offset, otherwise page and anchor stay |
| Paging.PressFocalDay | src/components/Calendar.tsx:110-113 | a focal-month tap selects and focuses the day; page, anchor and lock are unchanged |
| Paging.PressAdjacentDay | src/components/Calendar.tsx:114-128 | an adjacent-month tap goes to page i - 1 or i + 1, anchors at that page's offset, and selects and focuses the day |
| Paging.PressThenLandingSettle | src/components/Calendar.tsx:122-124 | the settle event ending the tap's scroll leaves the state as the tap set it |
| Paging.PressAdjacentCell | src/components/Calendar.tsx:115-128 | a tapped leading or trailing cell leads to the page of its month; at the year end it leads two months away instead |
| CalendarView.Calendar.constructor | src/components/Calendar.tsx:240-292 | mount: the page table around the starting date, unlocked, anchor at page 500's offset, no data |
| CalendarView.Calendar.HandleScroll | src/components/Calendar.tsx:296-327 | the fields change exactly as Settle says; the loaded data is untouched |
| CalendarView.Calendar.HandlePress | src/components/Calendar.tsx:107-129 | the fields change exactly as Press says; the loaded data is untouched |
| CalendarView.Calendar.PointDateEffect | src/components/Calendar.tsx:257-269 | unlocks; loads the focal month's records from the store, or from one request; anything loaded is what the store holds for that month; the store gains that month only after a successful request for a month it lacked |
| CalendarView.SwipeAndLoad | src/components/Calendar.tsx:257-327 | a swipe past half a page and its effect: the focal month moves one step that way, scrolling is enabled again, the loaded data is the new month's, the selection and page index stay, and months already in the store keep their records |

## Left out

- JSX, styles and colours: only the facts that decide them are modelled. These are the month flags (gray or black text), the highlight and the marker.
- The weekday header row (`weekMarking`) is fixed text.
- The FlatList itself: `scrollToIndex`, paging physics, and `getItemLayout` and the other tuning props. A tap's scroll is recorded as the target page index. Settle events arrive as offsets given by the caller.
- CalendarView.Calendar.HandlePress: `scrollToIndex` is not guarded by the source. A tap on page 0 or 999 asks for page -1 or 1000, and the model records that index as is.
- The pointDate effect's asynchrony: the effect starts `fetchMealData` before it unlocks scrolling and never awaits it, so the month's data arrives some time after the unlock. The model runs the fetch as one atomic step after the unlock, so late or out-of-order answers for older months are not modelled.
- `AsyncStorage`, the HTTP call and `console` output. The server's answer is the `FetchOutcome` parameter, and each request is logged in `requests`.
- The Redux machinery: `markedDate` and the `mealInput` slice are plain fields. The `mealInputSlice` reducer is not part of this model. It is taken to file the month's records under the month key.
- MealData.MealInputStore.CheckAndFetchMealData: a stored entry that JavaScript treats as falsy triggers a refetch. A response with no entry for the month (`undefined`) also counts as falsy. Neither case is modelled, because stored months always hold a record list.
- With no selected date, the highlight compares against `new Date(null)`, the epoch 1970-01-01; the model takes that day in the UTC calendar (`PageRender.HighlightedDay`).
- Time zones, times of day, ISO strings and `format`: dates are calendar days, and a record's 'yyyy-MM-dd' text is its `Date`.
- Date-fns outside the years and rules of the proleptic Gregorian calendar is not modelled.
- `Dimensions` float widths: the page width and offsets are integers.
- The logout bookkeeping (`navigation`, `hasLoggedOutRef`) is passed through by the source and never used here.
- src/screens/MainScreen.tsx (the animated bottom sheet and its float numerics) is not part of this model.
- src/components/MainScreen.tsx (a static dashboard with an unused helper) is not part of this model.
