/**
 * `ShabbatTimesParser.update`: find the Shabbat or Yom Tov that is in progress
 * or next to come at `now`. It fetches the month of the relevant Friday, moves on
 * a week when that month is already over, completes an interval cut off at the
 * end of the month with the next month and one cut off at the start with the
 * previous month, sorts the intervals by start time and takes the first one that
 * is not over.
 */
module Parsing {
  import opened Wrappers
  import opened Times
  import opened Intervals
  import opened Fetching
  import opened Sorting

  const NoIntervalsError: string := "Could not retrieve intervals."
  const IntervalError: string := "INTERVAL_ERROR"
  const UnknownError: string := "Unknown Error"

  function Last<T>(s: seq<T>): T
    requires s != []
  {
    s[|s| - 1]
  }

  /**
   * Completing the month's last interval, open at the end, with the next month's
   * first interval. It fails when that interval has a known start and is not the
   * adjacent second day of the same Yom Tov. Otherwise the last interval keeps its
   * start, takes the end of the next month's first one, keeps its own titles
   * unless they are empty, and the rest of the next month follows.
   */
  function JoinNextMonth(ivs: seq<ShabbatInterval>, next: seq<ShabbatInterval>): (r: Option<seq<ShabbatInterval>>)
    requires ivs != [] && next != []
    ensures r.None? <==> next[0].startTime != UnknownStart && !IsAdjacentHalfOpen(Last(ivs), next[0])
    ensures r.Some? ==>
      |r.value| == |ivs| + |next| - 1 &&
      (forall k | 0 <= k < |ivs| - 1 :: r.value[k] == ivs[k]) &&
      r.value[|ivs| - 1].startTime == Last(ivs).startTime &&
      r.value[|ivs| - 1].endTime == next[0].endTime &&
      r.value[|ivs| - 1].title == (if Last(ivs).title != "" then Last(ivs).title else next[0].title) &&
      r.value[|ivs| - 1].hebrewTitle ==
        (if Last(ivs).hebrewTitle != "" then Last(ivs).hebrewTitle else next[0].hebrewTitle) &&
      (forall k | 1 <= k < |next| :: r.value[|ivs| - 1 + k] == next[k])
  {
    if next[0].startTime != UnknownStart && !IsAdjacentHalfOpen(Last(ivs), next[0]) then None
    else
      var joined := ShabbatInterval(
        Last(ivs).startTime, next[0].endTime,
        OrElse(Last(ivs).title, next[0].title),
        OrElse(Last(ivs).hebrewTitle, next[0].hebrewTitle));
      Some(ivs[..|ivs| - 1] + [joined] + next[1..])
  }

  /**
   * Completing the month's first interval, open at the start, with the previous
   * month's last interval. It fails unless that one is open at the end. Otherwise
   * the first interval takes the previous one's start, keeps its own end, and
   * takes the previous one's titles unless they are empty; nothing else changes.
   */
  function JoinPreviousMonth(prev: seq<ShabbatInterval>, ivs: seq<ShabbatInterval>): (r: Option<seq<ShabbatInterval>>)
    requires prev != [] && ivs != []
    ensures r.None? <==> Last(prev).endTime != UnknownEnd
    ensures r.Some? ==>
      |r.value| == |ivs| &&
      r.value[0].startTime == Last(prev).startTime &&
      r.value[0].endTime == ivs[0].endTime &&
      r.value[0].title == (if Last(prev).title != "" then Last(prev).title else ivs[0].title) &&
      r.value[0].hebrewTitle ==
        (if Last(prev).hebrewTitle != "" then Last(prev).hebrewTitle else ivs[0].hebrewTitle) &&
      (forall k | 1 <= k < |ivs| :: r.value[k] == ivs[k])
  {
    if Last(prev).endTime != UnknownEnd then None
    else
      var joined := ShabbatInterval(
        Last(prev).startTime, ivs[0].endTime,
        OrElse(Last(prev).title, ivs[0].title),
        OrElse(Last(prev).hebrewTitle, ivs[0].hebrewTitle));
      Some([joined] + ivs[1..])
  }

  /** The interval `update` settles on: not over yet, and upcoming or in progress. */
  predicate Relevant(iv: ShabbatInterval, now: Instant): (r: bool)
    ensures r <==> now < iv.endTime || (now < iv.startTime && now == iv.endTime)
    ensures iv.startTime <= iv.endTime ==> (r <==> now < iv.endTime)
  {
    !(iv.endTime < now) &&
    (iv.startTime > now || (iv.startTime <= now && iv.endTime > now))
  }

  /** Index of the first relevant interval, or `|ivs|` when there is none. */
  function FirstRelevant(ivs: seq<ShabbatInterval>, now: Instant): (k: nat)
    ensures k <= |ivs|
    ensures forall j | 0 <= j < k :: !Relevant(ivs[j], now)
    ensures k < |ivs| ==> Relevant(ivs[k], now)
    decreases |ivs|
  {
    if ivs == [] then 0
    else if Relevant(ivs[0], now) then 0
    else 1 + FirstRelevant(ivs[1..], now)
  }

  /** The interval the selection loop returns: the one at `FirstRelevant`, if any. */
  function SelectionOf(ivs: seq<ShabbatInterval>, now: Instant): (r: Option<ShabbatInterval>)
    ensures r.None? <==> forall j | 0 <= j < |ivs| :: !Relevant(ivs[j], now)
    ensures r.Some? ==> r.value in ivs && Relevant(r.value, now)
  {
    var k := FirstRelevant(ivs, now);
    if k < |ivs| then Some(ivs[k]) else None
  }

  /** The final loop of `update`: the first interval not over that is upcoming or current. */
  method SelectCurrent(ivs: seq<ShabbatInterval>, now: Instant) returns (r: Option<ShabbatInterval>)
    ensures r == SelectionOf(ivs, now)
  {
    for i := 0 to |ivs|
      invariant forall j | 0 <= j < i :: !Relevant(ivs[j], now)
    {
      var interval := ivs[i];
      if interval.endTime < now {
        continue;
      }
      if interval.startTime > now || (interval.startTime <= now && interval.endTime > now) {
        return Some(interval);
      }
    }
    return None;
  }

  /** The intervals gathered so far, the Friday they are based on and the months requested. */
  datatype Progress = Progress(friday: int, intervals: seq<ShabbatInterval>, requests: seq<YearMonth>)

  /** Either the gathered intervals, or the parser's error and the months requested. */
  datatype Assembly =
    | Ready(progress: Progress)
    | Abandoned(error: Option<string>, requests: seq<YearMonth>)

  /** `update` stops early only with a fetch behind it, and proceeds with some intervals. */
  predicate WellFormed(a: Assembly)
  {
    match a
    case Ready(p) => p.intervals != [] && p.requests != []
    case Abandoned(_, requests) => requests != []
  }

  /**
   * `update` computes the relevant Friday and the Saturday after it, and on the
   * month's last Motzei Shabbat the Friday and the Saturday a week later. All of
   * them are dates, so none of that arithmetic raises `OverflowError`, exactly
   * when the Saturday a week after the relevant Friday is not after `datetime.max`.
   */
  predicate WithinDateRange(now: Instant)
  {
    RelevantFriday(DayOf(now)) + 8 <= MaxDay
  }

  /** The months an assembly requested, in order. */
  function Requests(a: Assembly): seq<YearMonth>
  {
    match a
    case Ready(p) => p.requests
    case Abandoned(_, requests) => requests
  }

  /**
   * The month of the relevant Friday, or, when its last interval is already over
   * (after the month's last Shabbat ended), the month of the Friday a week later.
   */
  function FetchWeek(hebcal: YearMonth -> Response, calendar: int -> YearMonth, now: Instant): (a: Assembly)
    requires WithinDateRange(now)
    ensures WellFormed(a)
    ensures var friday := RelevantFriday(DayOf(now));
      var first := FetchResult(hebcal(calendar(friday)));
      var advances := first != [] && Last(first).endTime < now;
      Requests(a) == [calendar(friday)] + (if advances then [calendar(friday + 7)] else []) &&
      (a.Abandoned? && a.error == Some(NoIntervalsError) <==> first == []) &&
      (a.Abandoned? && first != [] ==> a.error == None) &&
      (a.Ready? <==> first != [] && (advances ==> FetchResult(hebcal(calendar(friday + 7))) != [])) &&
      (a.Ready? ==>
        a.progress.friday == (if advances then friday + 7 else friday) &&
        a.progress.intervals == FetchResult(hebcal(calendar(a.progress.friday))))
  {
    var friday := RelevantFriday(DayOf(now));
    var first := FetchResult(hebcal(calendar(friday)));
    if first == [] then Abandoned(Some(NoIntervalsError), [calendar(friday)])
    else if Last(first).endTime < now then
      var later := FetchResult(hebcal(calendar(friday + 7)));
      if later == [] then Abandoned(None, [calendar(friday), calendar(friday + 7)])
      else Ready(Progress(friday + 7, later, [calendar(friday), calendar(friday + 7)]))
    else Ready(Progress(friday, first, [calendar(friday)]))
  }

  /** Completing a last interval that is open at the end. */
  function CompleteEnd(hebcal: YearMonth -> Response, calendar: int -> YearMonth, p: Progress): (a: Assembly)
    requires WellFormed(Ready(p))
    ensures WellFormed(a)
  {
    if Last(p.intervals).endTime != UnknownEnd then Ready(p)
    else
      var request := NextMonth(calendar(p.friday));
      var next := FetchResult(hebcal(request));
      var requests := p.requests + [request];
      if next == [] then Abandoned(None, requests)
      else match JoinNextMonth(p.intervals, next)
        case None => Abandoned(Some(IntervalError), requests)
        case Some(joined) => Ready(Progress(p.friday, joined, requests))
  }

  /** Completing a first interval that is open at the start. */
  function CompleteStart(hebcal: YearMonth -> Response, calendar: int -> YearMonth, p: Progress): (a: Assembly)
    requires WellFormed(Ready(p))
    ensures WellFormed(a)
  {
    if p.intervals[0].startTime != UnknownStart then Ready(p)
    else
      var request := PreviousMonth(calendar(p.friday));
      var prev := FetchResult(hebcal(request));
      var requests := p.requests + [request];
      if prev == [] then Abandoned(None, requests)
      else match JoinPreviousMonth(prev, p.intervals)
        case None => Abandoned(Some(IntervalError), requests)
        case Some(joined) => Ready(Progress(p.friday, joined, requests))
  }

  /** The intervals `update` chooses from, before sorting. */
  function Assemble(hebcal: YearMonth -> Response, calendar: int -> YearMonth, now: Instant): (a: Assembly)
    requires WithinDateRange(now)
    ensures WellFormed(a)
  {
    match FetchWeek(hebcal, calendar, now)
    case Abandoned(e, rq) => Abandoned(e, rq)
    case Ready(p) =>
      match CompleteEnd(hebcal, calendar, p)
      case Abandoned(e, rq) => Abandoned(e, rq)
      case Ready(q) => CompleteStart(hebcal, calendar, q)
  }

  /** The interval `update` returns, the parser's error and the months it requested. */
  datatype Outcome = Outcome(interval: Option<ShabbatInterval>, error: Option<string>, requests: seq<YearMonth>)

  function UpdateOutcome(hebcal: YearMonth -> Response, calendar: int -> YearMonth, now: Instant): (o: Outcome)
    requires WithinDateRange(now)
    ensures o.requests != []
    ensures o.interval.Some? ==> o.error == None
  {
    match Assemble(hebcal, calendar, now)
    case Abandoned(e, rq) => Outcome(None, e, rq)
    case Ready(p) =>
      var chosen := SelectionOf(SortByStart(p.intervals), now);
      Outcome(chosen, if chosen.None? then Some(UnknownError) else None, p.requests)
  }

  class Parser {
    const fetcher: Fetcher
    var error: Option<string>

    constructor (fetcher: Fetcher)
      ensures this.fetcher == fetcher && error == None
    {
      this.fetcher := fetcher;
      error := None;
    }

    /**
     * `update(now)`. `calendar` gives the year and the month of a day index, as
     * `datetime` does. The fetcher's error is that of the last month requested.
     */
    method Update(now: Instant, calendar: int -> YearMonth) returns (r: Option<ShabbatInterval>)
      requires WithinDateRange(now)
      modifies this, fetcher
      ensures var o := UpdateOutcome(fetcher.hebcal, calendar, now);
        r == o.interval && error == o.error &&
        fetcher.error == fetcher.hebcal(Last(o.requests)).error
    {
      error := None;
      var friday, ym, intervals, requests := FetchWeekTimes(now, calendar);
      if intervals == [] {
        return None;
      }
      var completed;
      completed, requests := CompleteEndTimes(ym, intervals, friday, calendar, requests);
      if completed.None? {
        return None;
      }
      intervals := completed.value;
      completed, requests := CompleteStartTimes(ym, intervals, friday, calendar, requests);
      if completed.None? {
        return None;
      }
      intervals := completed.value;

      intervals := SortByStart(intervals);

      r := SelectCurrent(intervals, now);
      if r.None? {
        error := Some(UnknownError);
      }
    }

    /**
     * The first part of `update`: the intervals of the month of the relevant
     * Friday, or, on the month's last Motzei Shabbat, of the Friday a week later.
     * No interval means `update` gives up.
     */
    method FetchWeekTimes(now: Instant, calendar: int -> YearMonth)
      returns (friday: int, ym: YearMonth, intervals: seq<ShabbatInterval>, ghost requests: seq<YearMonth>)
      requires WithinDateRange(now)
      requires error == None
      modifies this, fetcher
      ensures ym == calendar(friday) && requests != []
      ensures fetcher.error == fetcher.hebcal(Last(requests)).error
      ensures FetchWeek(fetcher.hebcal, calendar, now) ==
        if intervals == [] then Abandoned(error, requests)
        else Ready(Progress(friday, intervals, requests))
      ensures intervals != [] ==> error == None
    {
      var today := DayOf(now);
      if Weekday(today) == Saturday {
        // Back up to the Friday in case it is still Shabbat.
        friday := today - 1;
      } else {
        friday := today + (Friday - Weekday(today)) % 7;
      }
      assert friday == RelevantFriday(DayOf(now));
      ghost var week := FetchWeek(fetcher.hebcal, calendar, now);

      ym := calendar(friday);
      intervals := fetcher.FetchTimes(ym.year, ym.month);
      requests := [ym];
      if intervals == [] {
        error := Some(NoIntervalsError);
        assert week == Abandoned(error, requests);
        return;
      }

      // On the month's last Motzei Shabbat, move on to the next week.
      if intervals[|intervals| - 1].endTime < now {
        friday := friday + 7;
        ym := calendar(friday);
        intervals := fetcher.FetchTimes(ym.year, ym.month);
        requests := requests + [ym];
      }
      assert week == if intervals == [] then Abandoned(error, requests) else Ready(Progress(friday, intervals, requests));
    }

    /**
     * The block of `update` for a month whose last interval is open at the end:
     * the next month completes it, or `update` gives up (`None`).
     */
    method CompleteEndTimes(ym: YearMonth, intervals: seq<ShabbatInterval>,
                            ghost friday: int, ghost calendar: int -> YearMonth, ghost requests: seq<YearMonth>)
      returns (completed: Option<seq<ShabbatInterval>>, ghost requestsAfter: seq<YearMonth>)
      requires ym == calendar(friday) && intervals != [] && requests != []
      requires error == None
      requires fetcher.error == fetcher.hebcal(Last(requests)).error
      modifies this, fetcher
      ensures requestsAfter != [] && fetcher.error == fetcher.hebcal(Last(requestsAfter)).error
      ensures CompleteEnd(fetcher.hebcal, calendar, Progress(friday, intervals, requests)) ==
        match completed
        case None => Abandoned(error, requestsAfter)
        case Some(joined) => Ready(Progress(friday, joined, requestsAfter))
      ensures completed.Some? ==> error == None
    {
      requestsAfter := requests;
      completed := Some(intervals);
      if intervals[|intervals| - 1].endTime == UnknownEnd {
        var nextYear := ym.year + (if ym.month == 12 then 1 else 0);
        var nextMonth := (ym.month + 1) % 13;
        assert YearMonth(nextYear, nextMonth) == NextMonth(ym);
        var nextIntervals := fetcher.FetchTimes(nextYear, nextMonth);
        requestsAfter := requests + [YearMonth(nextYear, nextMonth)];
        if nextIntervals == [] {
          return None, requestsAfter;
        }
        if nextIntervals[0].startTime != UnknownStart &&
           !IsAdjacentHalfOpen(intervals[|intervals| - 1], nextIntervals[0]) {
          assert JoinNextMonth(intervals, nextIntervals) == None;
          error := Some(IntervalError);
          return None, requestsAfter;
        }
        var last := intervals[|intervals| - 1];
        var joined := ShabbatInterval(
          last.startTime, nextIntervals[0].endTime,
          OrElse(last.title, nextIntervals[0].title),
          OrElse(last.hebrewTitle, nextIntervals[0].hebrewTitle));
        var result := intervals[..|intervals| - 1] + [joined];
        result := result + nextIntervals[1..];
        assert JoinNextMonth(intervals, nextIntervals) == Some(result);
        completed := Some(result);
      }
    }

    /**
     * The block of `update` for a month whose first interval is open at the start:
     * the previous month completes it, or `update` gives up (`None`).
     */
    method CompleteStartTimes(ym: YearMonth, intervals: seq<ShabbatInterval>,
                              ghost friday: int, ghost calendar: int -> YearMonth, ghost requests: seq<YearMonth>)
      returns (completed: Option<seq<ShabbatInterval>>, ghost requestsAfter: seq<YearMonth>)
      requires ym == calendar(friday) && intervals != [] && requests != []
      requires error == None
      requires fetcher.error == fetcher.hebcal(Last(requests)).error
      modifies this, fetcher
      ensures requestsAfter != [] && fetcher.error == fetcher.hebcal(Last(requestsAfter)).error
      ensures CompleteStart(fetcher.hebcal, calendar, Progress(friday, intervals, requests)) ==
        match completed
        case None => Abandoned(error, requestsAfter)
        case Some(joined) => Ready(Progress(friday, joined, requestsAfter))
      ensures completed.Some? ==> error == None
    {
      requestsAfter := requests;
      completed := Some(intervals);
      if intervals[0].startTime == UnknownStart {
        var year := ym.year;
        var month := ym.month;
        if ym.month == 0 {
          month := 12;
          year := year - 1;
        } else {
          month := month - 1;
        }
        assert YearMonth(year, month) == PreviousMonth(ym);
        var prevIntervals := fetcher.FetchTimes(year, month);
        requestsAfter := requests + [YearMonth(year, month)];
        if prevIntervals == [] {
          return None, requestsAfter;
        }
        if prevIntervals[|prevIntervals| - 1].endTime != UnknownEnd {
          assert JoinPreviousMonth(prevIntervals, intervals) == None;
          error := Some(IntervalError);
          return None, requestsAfter;
        }
        var prev := prevIntervals[|prevIntervals| - 1];
        var joined := ShabbatInterval(
          prev.startTime, intervals[0].endTime,
          OrElse(prev.title, intervals[0].title),
          OrElse(prev.hebrewTitle, intervals[0].hebrewTitle));
        assert JoinPreviousMonth(prevIntervals, intervals) == Some([joined] + intervals[1..]);
        completed := Some([joined] + intervals[1..]);
      }
    }
  }
}
