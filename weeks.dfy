/**
 * The week rows of `renderCalendar` (src/components/Calendar.tsx): the day list
 * is cut into rows of seven, and a last shorter row, if any, is still kept.
 */
module Weeks {
  import opened Dates
  import opened CalendarGrid

  /** The rows laid end to end. */
  function Flatten<T>(weeks: seq<seq<T>>): seq<T> {
    if weeks == [] then [] else weeks[0] + Flatten(weeks[1..])
  }

  /** Rows of seven, in order; the last row keeps what is left. */
  function Chunks<T>(s: seq<T>): seq<seq<T>>
    decreases |s|
  {
    if |s| == 0 then []
    else if |s| <= 7 then [s]
    else [s[..7]] + Chunks(s[7..])
  }

  /**
   * The row-building loop of renderCalendar: a day joins the current row while
   * it has fewer than seven days, otherwise the row is closed and a new one
   * starts with that day; a non-empty last row is closed at the end.
   */
  method ChunkWeeks<T>(calendarDaysList: seq<T>) returns (weeks: seq<seq<T>>)
    ensures weeks == Chunks(calendarDaysList)
  {
    weeks := [];
    var week: seq<T> := [];
    var i := 0;
    while i < |calendarDaysList|
      invariant 0 <= i <= |calendarDaysList|
      invariant i == 7 * |weeks| + |week|
      invariant i == 0 ==> week == []
      invariant i > 0 ==> 1 <= |week| <= 7
      invariant weeks == Chunks(calendarDaysList[..7 * |weeks|])
      invariant week == calendarDaysList[7 * |weeks|..i]
    {
      var day := calendarDaysList[i];
      if |week| < 7 {
        SliceSnoc(calendarDaysList, 7 * |weeks|, i);
        week := week + [day];
      } else {
        CloseRow(calendarDaysList, |weeks|, week);
        SliceOne(calendarDaysList, i);
        weeks := weeks + [week];
        week := [day];
      }
      i := i + 1;
    }
    if |week| > 0 {
      CloseRow(calendarDaysList, |weeks|, week);
      weeks := weeks + [week];
    }
    assert calendarDaysList[..|calendarDaysList|] == calendarDaysList;
  }

  /** Closing a row of one to seven days after n whole rows. */
  lemma CloseRow<T>(s: seq<T>, n: nat, week: seq<T>)
    requires 1 <= |week| <= 7 && 7 * n + |week| <= |s|
    requires week == s[7 * n..7 * n + |week|]
    ensures Chunks(s[..7 * n]) + [week] == Chunks(s[..7 * n + |week|])
  {
    ChunksAppend(s[..7 * n], week);
    assert s[..7 * n] + week == s[..7 * n + |week|];
  }

  lemma SliceSnoc<T>(s: seq<T>, a: int, i: int)
    requires 0 <= a <= i < |s|
    ensures s[a..i] + [s[i]] == s[a..i + 1]
  {
  }

  lemma SliceOne<T>(s: seq<T>, i: int)
    requires 0 <= i < |s|
    ensures [s[i]] == s[i..i + 1]
  {
  }

  /** After whole weeks, a row of one to seven days becomes its own last row. */
  lemma {:induction false} ChunksAppend<T>(a: seq<T>, b: seq<T>)
    requires |a| % 7 == 0 && 1 <= |b| <= 7
    ensures Chunks(a + b) == Chunks(a) + [b]
    decreases |a|
  {
    if a != [] {
      assert (a + b)[..7] == a[..7];
      assert (a + b)[7..] == a[7..] + b;
      assert Chunks(a + b) == [a[..7]] + Chunks(a[7..] + b);
      ChunksAppend(a[7..], b);
      if |a| == 7 {
        assert a[7..] + b == b && a[..7] == a;
      } else {
        assert Chunks(a) == [a[..7]] + Chunks(a[7..]);
      }
    } else {
      assert a + b == b;
    }
  }

  /** Laying the rows end to end gives back the day list exactly. */
  lemma {:induction false} ChunksFlatten<T>(s: seq<T>)
    ensures Flatten(Chunks(s)) == s
    decreases |s|
  {
    if |s| > 7 {
      ChunksFlatten(s[7..]);
      assert Chunks(s)[1..] == Chunks(s[7..]);
      assert s == s[..7] + s[7..];
    }
  }

  /** Every row has one to seven days, and every row but the last has seven. */
  lemma {:induction false} ChunksShape<T>(s: seq<T>)
    ensures forall j :: 0 <= j < |Chunks(s)| ==> 1 <= |Chunks(s)[j]| <= 7
    ensures forall j :: 0 <= j < |Chunks(s)| - 1 ==> |Chunks(s)[j]| == 7
    decreases |s|
  {
    if |s| > 7 {
      ChunksShape(s[7..]);
      assert forall j :: 1 <= j < |Chunks(s)| ==> Chunks(s)[j] == Chunks(s[7..])[j - 1];
    }
  }

  /** A list of whole weeks is cut into exactly those weeks. */
  lemma {:induction false} ChunksOfWholeWeeks<T>(s: seq<T>)
    requires |s| % 7 == 0
    ensures |Chunks(s)| == |s| / 7
    ensures forall j :: 0 <= j < |s| / 7 ==> Chunks(s)[j] == s[7 * j..7 * j + 7]
    decreases |s|
  {
    if |s| > 7 {
      ChunksOfWholeWeeks(s[7..]);
      forall j | 1 <= j < |s| / 7
        ensures Chunks(s)[j] == s[7 * j..7 * j + 7]
      {
        assert Chunks(s)[j] == Chunks(s[7..])[j - 1];
        assert s[7..][7 * (j - 1)..7 * (j - 1) + 7] == s[7 * j..7 * j + 7];
      }
    }
  }

  /**
   * The rows of a month grid are four to six full weeks, each running from a
   * Sunday to a Saturday.
   */
  lemma GridWeeks(p: Date)
    requires p.Valid()
    ensures var weeks := Chunks(CalendarDays(p));
      && 4 <= |weeks| <= 6
      && (forall j :: 0 <= j < |weeks| ==> |weeks[j]| == 7)
      && (forall j :: 0 <= j < |weeks| ==>
            weeks[j][0].Valid() && Weekday(weeks[j][0]) == 0 &&
            weeks[j][6].Valid() && Weekday(weeks[j][6]) == 6)
  {
    var days := CalendarDays(p);
    GridLengthWeeks(p);
    WholeWeeks(days);
    var weeks: seq<seq<Date>> := Chunks(days);
    forall j | 0 <= j < |weeks|
      ensures weeks[j][0].Valid() && Weekday(weeks[j][0]) == 0
      ensures weeks[j][6].Valid() && Weekday(weeks[j][6]) == 6
    {
      WeekEnds(days, j);
      WeekOffsets(j);
      GridCellWeekday(p, 7 * j);
      GridCellWeekday(p, 7 * j + 6);
    }
  }

  /** Whole weeks of days make rows of seven, one row per week. */
  lemma WholeWeeks<T>(s: seq<T>)
    requires |s| % 7 == 0
    ensures |Chunks(s)| == |s| / 7
    ensures forall j :: 0 <= j < |Chunks(s)| ==> |Chunks(s)[j]| == 7
  {
    ChunksOfWholeWeeks(s);
  }

  /** Row j of whole weeks starts with day 7 * j and ends with day 7 * j + 6. */
  lemma WeekEnds<T>(s: seq<T>, j: int)
    requires |s| % 7 == 0 && 0 <= j < |s| / 7
    ensures 7 * j + 6 < |s| && j < |Chunks(s)| && |Chunks(s)[j]| == 7
    ensures Chunks(s)[j][0] == s[7 * j] && Chunks(s)[j][6] == s[7 * j + 6]
  {
    ChunksOfWholeWeeks(s);
  }
}
