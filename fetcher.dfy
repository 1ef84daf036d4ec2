/**
 * `ShabbatTimesFetcher`: turns one month of Hebcal calendar items into Shabbat
 * and Yom Tov intervals with a state machine over the items.
 *
 * The HTTP request and the JSON decoding are not modelled: the fetcher holds the
 * decoded response for every (year, month) it may be asked about.
 */
module Fetching {
  import opened Wrappers
  import opened Times
  import opened Intervals

  const Candles: string := "candles"
  const Havdalah: string := "havdalah"
  const Holiday: string := "holiday"
  const Parashat: string := "parashat"

  /**
   * One entry of Hebcal's `items` list. `date` is the entry's time as parsed by
   * `_parse_time`; only candle-lighting and havdalah entries have it read.
   * `subcat` and `yomtov` are optional keys.
   */
  datatype Item = Item(
    category: string,
    title: string,
    hebrew: string,
    date: Instant,
    subcat: Option<string>,
    yomtov: Option<bool>)

  /** A decoded Hebcal response: an `error` key, or the `items` list. */
  datatype Response = Response(error: Option<string>, items: seq<Item>)

  /** `IsMajorHoliday`: a holiday whose subcategory is major or that is a Yom Tov. */
  predicate IsMajorHoliday(item: Item)
  {
    item.category == Holiday && (item.subcat == Some("major") || item.yomtov == Some(true))
  }

  /**
   * What the state machine carries between items: the candle-lighting times seen
   * since the last havdalah (`cur_interval`), the title and Hebrew title
   * (`cur_title`, `cur_hebrew_title`) and `half_open_start`.
   */
  datatype Pending = Pending(
    candles: seq<Instant>,
    title: string,
    hebrewTitle: string,
    halfOpenStart: bool)

  const Fresh: Pending := Pending([], "", "", false)

  /** The intervals appended so far and the pending state. */
  datatype Scan = Scan(intervals: seq<ShabbatInterval>, cur: Pending)

  const Initial: Scan := Scan([], Fresh)

  /**
   * The title branch of the state machine: no title yet; candles pending, or the
   * item has a `yomtov` key, or it is a parashat; and the item is a major holiday
   * or a parashat.
   */
  predicate TakesTitle(cur: Pending, item: Item)
  {
    cur.title == "" &&
    (cur.candles != [] || item.yomtov.Some? || item.category == Parashat) &&
    (IsMajorHoliday(item) || item.category == Parashat)
  }

  /** The interval a havdalah at `end` closes. */
  function Closed(cur: Pending, end: Instant): ShabbatInterval
  {
    var start := if cur.candles == [] || cur.halfOpenStart then UnknownStart else cur.candles[0];
    ShabbatInterval(start, end, cur.title, cur.hebrewTitle)
  }

  /** One iteration of the loop over the items. */
  function Step(s: Scan, item: Item): Scan
  {
    if item.category == Candles then
      Scan(s.intervals, s.cur.(candles := s.cur.candles + [item.date]))
    else if TakesTitle(s.cur, item) then
      Scan(s.intervals, s.cur.(title := item.title, hebrewTitle := item.hebrew,
                               halfOpenStart := s.cur.halfOpenStart || s.cur.candles == []))
    else if item.category == Havdalah then
      Scan(s.intervals + [Closed(s.cur, item.date)], Fresh)
    else
      s
  }

  /** The state after the items, starting from `s`. */
  function ScanFrom(s: Scan, items: seq<Item>): Scan
    decreases |items|
  {
    if items == [] then s
    else Step(ScanFrom(s, items[..|items| - 1]), items[|items| - 1])
  }

  /** After the loop: candles still pending leave an interval open at the end. */
  function Finish(s: Scan): seq<ShabbatInterval>
  {
    if s.cur.candles != [] then
      s.intervals + [ShabbatInterval(s.cur.candles[0], UnknownEnd, s.cur.title, s.cur.hebrewTitle)]
    else
      s.intervals
  }

  /** The intervals of one month's items. */
  function MonthIntervals(items: seq<Item>): seq<ShabbatInterval>
  {
    Finish(ScanFrom(Initial, items))
  }

  /** What `fetchTimes` returns for a response. */
  function FetchResult(response: Response): (intervals: seq<ShabbatInterval>)
    ensures response.error.Some? ==> intervals == []
  {
    if response.error.Some? then [] else MonthIntervals(response.items)
  }

  class Fetcher {
    /** The decoded Hebcal response for each requested year and month. */
    const hebcal: YearMonth -> Response
    var error: Option<string>

    constructor (hebcal: YearMonth -> Response)
      ensures this.hebcal == hebcal && error == None
    {
      this.hebcal := hebcal;
      error := None;
    }

    /**
     * `fetchTimes`: the month's intervals, or no interval and the response's
     * error message when the response carries one.
     */
    method FetchTimes(year: int, month: int) returns (intervals: seq<ShabbatInterval>)
      modifies this
      ensures error == hebcal(YearMonth(year, month)).error
      ensures intervals == FetchResult(hebcal(YearMonth(year, month)))
    {
      error := None;
      var response := hebcal(YearMonth(year, month));
      intervals := [];
      if response.error.Some? {
        error := response.error;
        return [];
      }

      var curInterval: seq<Instant> := [];
      var curTitle := "";
      var curHebrewTitle := "";
      var halfOpenStart := false;
      var items := response.items;
      for i := 0 to |items|
        invariant ScanFrom(Initial, items[..i]) ==
          Scan(intervals, Pending(curInterval, curTitle, curHebrewTitle, halfOpenStart))
      {
        var item := items[i];
        assert items[..i + 1][..i] == items[..i];
        if item.category == Candles {
          curInterval := curInterval + [item.date];
        } else if curTitle == "" &&
                  (curInterval != [] || item.yomtov.Some? || item.category == Parashat) &&
                  (IsMajorHoliday(item) || item.category == Parashat) {
          curTitle := item.title;
          curHebrewTitle := item.hebrew;
          if curInterval == [] {
            halfOpenStart := true;
          }
        } else if item.category == Havdalah {
          var retDate := item.date;
          if curInterval != [] {
            if halfOpenStart {
              intervals := intervals + [ShabbatInterval(UnknownStart, retDate, curTitle, curHebrewTitle)];
            } else {
              intervals := intervals + [ShabbatInterval(curInterval[0], retDate, curTitle, curHebrewTitle)];
            }
            curInterval := [];
            curTitle := "";
            curHebrewTitle := "";
            halfOpenStart := false;
          } else {
            // Left over from the previous month.
            intervals := intervals + [ShabbatInterval(UnknownStart, retDate, curTitle, curHebrewTitle)];
            curTitle := "";
            curHebrewTitle := "";
            halfOpenStart := false;
          }
        }
      }
      assert items[..|items|] == items;

      if curInterval != [] {
        // Left-over interval, open at the end.
        intervals := intervals + [ShabbatInterval(curInterval[0], UnknownEnd, curTitle, curHebrewTitle)];
      }
    }
  }
}
