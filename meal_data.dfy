/**
 * `checkAndFetchMealData` (src/components/Calendar.tsx): serve a month's meal
 * data from the `mealInput` store when it is there, otherwise ask the server
 * and file the answer in the store. The store is a map from month keys to the
 * month's records; the server's answer is an outcome given by the caller.
 */
module MealData {
  import opened Wrappers
  import opened Dates
  import opened DayCells

  /** The 'yyyy-MM' month key. */
  datatype YearMonth = YearMonth(year: int, month: int)

  /** format(date, 'yyyy-MM'). */
  function MonthKey(d: Date): YearMonth {
    YearMonth(d.year, d.month)
  }

  /** Two dates share a key exactly when they lie in the same month. */
  lemma MonthKeyIsMonth(d: Date, e: Date)
    requires d.Valid() && e.Valid()
    ensures MonthKey(d) == MonthKey(e) <==> MonthIndex(d) == MonthIndex(e)
  {
  }

  /**
   * What the GET of a month's records yields: the records the response holds
   * for that month, or a failure (network, authorisation).
   */
  datatype FetchOutcome = Fetched(monthData: seq<MealRecord>) | FetchFailed

  /** The `mealInput` slice of the store, and the log of requests sent to the server. */
  class MealInputStore {
    var data: map<YearMonth, seq<MealRecord>>
    var requests: seq<YearMonth>

    constructor()
      ensures data == map[] && requests == []
    {
      data := map[];
      requests := [];
    }

    /**
     * A cached month is returned as is, with no request. On a miss one request
     * is sent: success files the records under the month and returns them,
     * failure returns nothing and leaves the store as it was. Months already
     * in the store are never changed.
     */
    method CheckAndFetchMealData(month: YearMonth, outcome: FetchOutcome)
      returns (r: Option<seq<MealRecord>>)
      modifies this
      ensures month in old(data) ==>
        r == Some(old(data)[month]) && data == old(data) && requests == old(requests)
      ensures month !in old(data) ==> requests == old(requests) + [month]
      ensures month !in old(data) && outcome.Fetched? ==>
        r == Some(outcome.monthData) && data == old(data)[month := outcome.monthData]
      ensures month !in old(data) && outcome.FetchFailed? ==> r == None && data == old(data)
      ensures forall m :: m in old(data) ==> m in data && data[m] == old(data)[m]
    {
      if month !in data {
        requests := requests + [month];
        match outcome
        case Fetched(monthData) =>
          data := data[month := monthData];
          r := Some(monthData);
        case FetchFailed =>
          r := None;
      } else {
        r := Some(data[month]);
      }
    }
  }

  /**
   * Asking twice for a month: once the first call has the data, the second is
   * served from the store, sends nothing and returns the same records.
   */
  method FetchTwice(store: MealInputStore, month: YearMonth, first: FetchOutcome, second: FetchOutcome)
    returns (r1: Option<seq<MealRecord>>, r2: Option<seq<MealRecord>>)
    modifies store
    ensures r1.Some? ==> r2 == r1
    ensures r1.Some? ==> |store.requests| <= |old(store.requests)| + 1
    ensures r1.None? ==> |store.requests| == |old(store.requests)| + 2
    ensures month in old(store.data) ==>
      r1 == Some(old(store.data)[month]) && store.requests == old(store.requests) && store.data == old(store.data)
    ensures month !in old(store.data) && r1.Some? ==> store.requests == old(store.requests) + [month]
  {
    r1 := store.CheckAndFetchMealData(month, first);
    r2 := store.CheckAndFetchMealData(month, second);
  }
}
