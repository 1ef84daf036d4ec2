/**
 * What `update` promises about the interval it returns, and how the fetcher's
 * intervals at a month boundary are joined back into one Shabbat or Yom Tov.
 */
module ParsingProperties {
  import opened Wrappers
  import opened Times
  import opened Intervals
  import opened Fetching
  import opened FetchingProperties
  import opened Sorting
  import opened Parsing

  lemma SameElements(a: seq<ShabbatInterval>, b: seq<ShabbatInterval>)
    requires multiset(a) == multiset(b)
    ensures forall x :: x in a <==> x in b
  {
    forall x ensures x in a <==> x in b {
      assert x in a <==> x in multiset(a);
      assert x in b <==> x in multiset(b);
    }
  }

  /**
   * After sorting by start time, `update` returns an interval of the list that is
   * relevant (not over, and upcoming or in progress) and starts no later than any
   * other relevant one, and among the relevant ones starting then it is the first
   * in the order gathered; it returns nothing exactly when no interval is relevant.
   * An interval that ends exactly at `now` and started at or before it is never
   * the one returned.
   */
  lemma SelectionIsEarliestRelevant(ivs: seq<ShabbatInterval>, now: Instant)
    ensures var chosen := SelectionOf(SortByStart(ivs), now);
      (chosen.None? <==> forall j | 0 <= j < |ivs| :: !Relevant(ivs[j], now)) &&
      (chosen.Some? ==>
        chosen.value in ivs &&
        Relevant(chosen.value, now) &&
        !(chosen.value.endTime == now && chosen.value.startTime <= now) &&
        (forall j | 0 <= j < |ivs| && Relevant(ivs[j], now) :: chosen.value.startTime <= ivs[j].startTime) &&
        SelectionOf(StartingAt(ivs, chosen.value.startTime), now) == chosen)
  {
    var s := SortByStart(ivs);
    SameElements(s, ivs);
    FirstRelevantOfSorted(s, ivs, now);
    SelectionBreaksTiesInOrder(ivs, now);
  }

  /**
   * Among the intervals that start at the same time as the first relevant one,
   * that one is also the first relevant.
   */
  lemma {:induction false} SelectionAmongEqualStarts(s: seq<ShabbatInterval>, now: Instant, t: Instant)
    requires SelectionOf(s, now).Some? && SelectionOf(s, now).value.startTime == t
    ensures SelectionOf(StartingAt(s, t), now) == SelectionOf(s, now)
    decreases |s|
  {
    var rest := StartingAt(s[1..], t);
    if Relevant(s[0], now) {
      assert StartingAt(s, t) == [s[0]] + rest;
    } else {
      assert SelectionOf(s[1..], now) == SelectionOf(s, now);
      SelectionAmongEqualStarts(s[1..], now, t);
      if s[0].startTime == t {
        assert StartingAt(s, t) == [s[0]] + rest;
        assert ([s[0]] + rest)[1..] == rest;
      } else {
        assert StartingAt(s, t) == rest;
      }
    }
  }

  /**
   * Ties are broken in the order the intervals were gathered: the interval
   * `update` returns is the first relevant one among the gathered intervals that
   * start when it does.
   */
  lemma SelectionBreaksTiesInOrder(ivs: seq<ShabbatInterval>, now: Instant)
    ensures var chosen := SelectionOf(SortByStart(ivs), now);
      chosen.Some? ==> SelectionOf(StartingAt(ivs, chosen.value.startTime), now) == chosen
  {
    var chosen := SelectionOf(SortByStart(ivs), now);
    if chosen.Some? {
      SelectionAmongEqualStarts(SortByStart(ivs), now, chosen.value.startTime);
      SortIsStable(ivs, chosen.value.startTime);
    }
  }

  lemma FirstRelevantOfSorted(s: seq<ShabbatInterval>, ivs: seq<ShabbatInterval>, now: Instant)
    requires SortedByStart(s)
    requires forall x :: x in s <==> x in ivs
    ensures var k := FirstRelevant(s, now);
      (k == |s| <==> forall j | 0 <= j < |ivs| :: !Relevant(ivs[j], now)) &&
      (k < |s| ==>
        s[k] in ivs &&
        forall j | 0 <= j < |ivs| && Relevant(ivs[j], now) :: s[k].startTime <= ivs[j].startTime)
  {
    var k := FirstRelevant(s, now);
    if k < |s| {
      assert s[k] in s;
      forall j | 0 <= j < |ivs| && Relevant(ivs[j], now)
        ensures s[k].startTime <= ivs[j].startTime
      {
        assert ivs[j] in ivs;
        var m :| 0 <= m < |s| && s[m] == ivs[j];
        assert k <= m;
      }
    } else {
      forall j | 0 <= j < |ivs|
        ensures !Relevant(ivs[j], now)
      {
        assert ivs[j] in ivs;
        var m :| 0 <= m < |s| && s[m] == ivs[j];
      }
    }
  }

  /**
   * `update`'s outcome once the intervals are gathered: the earliest-starting
   * relevant interval, the first in gathered order among equal starts, or no
   * interval and the error "Unknown Error".
   */
  lemma UpdateChoosesEarliestRelevant(hebcal: YearMonth -> Response, calendar: int -> YearMonth, now: Instant)
    requires WithinDateRange(now)
    requires Assemble(hebcal, calendar, now).Ready?
    ensures var ivs := Assemble(hebcal, calendar, now).progress.intervals;
      var o := UpdateOutcome(hebcal, calendar, now);
      (o.interval.None? <==> o.error == Some(UnknownError)) &&
      (o.interval.None? <==> forall j | 0 <= j < |ivs| :: !Relevant(ivs[j], now)) &&
      (o.interval.Some? ==>
        o.interval.value in ivs &&
        Relevant(o.interval.value, now) &&
        (forall j | 0 <= j < |ivs| && Relevant(ivs[j], now) :: o.interval.value.startTime <= ivs[j].startTime) &&
        SelectionOf(StartingAt(ivs, o.interval.value.startTime), now) == o.interval)
  {
    SelectionIsEarliestRelevant(Assemble(hebcal, calendar, now).progress.intervals, now);
  }

  /**
   * When the week's month ends with an interval open at the end and the next
   * month's first interval has a known start that is not the next day, `update`
   * fails with "INTERVAL_ERROR" after requesting that next month.
   */
  lemma UpdateFailsOnUnjoinableNextMonth(hebcal: YearMonth -> Response, calendar: int -> YearMonth, now: Instant)
    requires WithinDateRange(now)
    requires FetchWeek(hebcal, calendar, now).Ready?
    requires var p := FetchWeek(hebcal, calendar, now).progress;
      var next := FetchResult(hebcal(NextMonth(calendar(p.friday))));
      Last(p.intervals).endTime == UnknownEnd && next != [] &&
      next[0].startTime != UnknownStart && !IsAdjacentHalfOpen(Last(p.intervals), next[0])
    ensures var p := FetchWeek(hebcal, calendar, now).progress;
      UpdateOutcome(hebcal, calendar, now) ==
      Outcome(None, Some(IntervalError), p.requests + [NextMonth(calendar(p.friday))])
  {
  }

  /**
   * When the gathered intervals start with one open at the start and the previous
   * month's last interval is not open at the end, `update` fails with
   * "INTERVAL_ERROR" after requesting that previous month.
   */
  lemma UpdateFailsOnUnjoinablePreviousMonth(hebcal: YearMonth -> Response, calendar: int -> YearMonth, now: Instant)
    requires WithinDateRange(now)
    requires FetchWeek(hebcal, calendar, now).Ready?
    requires CompleteEnd(hebcal, calendar, FetchWeek(hebcal, calendar, now).progress).Ready?
    requires var q := CompleteEnd(hebcal, calendar, FetchWeek(hebcal, calendar, now).progress).progress;
      var prev := FetchResult(hebcal(PreviousMonth(calendar(q.friday))));
      q.intervals[0].startTime == UnknownStart && prev != [] && Last(prev).endTime != UnknownEnd
    ensures var q := CompleteEnd(hebcal, calendar, FetchWeek(hebcal, calendar, now).progress).progress;
      UpdateOutcome(hebcal, calendar, now) ==
      Outcome(None, Some(IntervalError), q.requests + [PreviousMonth(calendar(q.friday))])
  {
  }

  /**
   * When the week's month ends with an interval open at the end and the next
   * month yields no interval, `update` returns nothing and sets no error.
   */
  lemma UpdateGivesUpOnEmptyNextMonth(hebcal: YearMonth -> Response, calendar: int -> YearMonth, now: Instant)
    requires WithinDateRange(now)
    requires FetchWeek(hebcal, calendar, now).Ready?
    requires var p := FetchWeek(hebcal, calendar, now).progress;
      Last(p.intervals).endTime == UnknownEnd && FetchResult(hebcal(NextMonth(calendar(p.friday)))) == []
    ensures var p := FetchWeek(hebcal, calendar, now).progress;
      UpdateOutcome(hebcal, calendar, now) == Outcome(None, None, p.requests + [NextMonth(calendar(p.friday))])
  {
  }

  /**
   * When the gathered intervals start with one open at the start and the previous
   * month yields no interval, `update` returns nothing and sets no error.
   */
  lemma UpdateGivesUpOnEmptyPreviousMonth(hebcal: YearMonth -> Response, calendar: int -> YearMonth, now: Instant)
    requires WithinDateRange(now)
    requires FetchWeek(hebcal, calendar, now).Ready?
    requires CompleteEnd(hebcal, calendar, FetchWeek(hebcal, calendar, now).progress).Ready?
    requires var q := CompleteEnd(hebcal, calendar, FetchWeek(hebcal, calendar, now).progress).progress;
      q.intervals[0].startTime == UnknownStart && FetchResult(hebcal(PreviousMonth(calendar(q.friday)))) == []
    ensures var q := CompleteEnd(hebcal, calendar, FetchWeek(hebcal, calendar, now).progress).progress;
      UpdateOutcome(hebcal, calendar, now) == Outcome(None, None, q.requests + [PreviousMonth(calendar(q.friday))])
  {
  }

  /** A month whose items end with candles lit after the last havdalah ends with an interval open at the end. */
  lemma EndsOpen(items: seq<Item>)
    requires CandleTimes(SinceLastHavdalah(items)) != []
    ensures MonthIntervals(items) != []
    ensures Last(MonthIntervals(items)).startTime == CandleTimes(SinceLastHavdalah(items))[0]
    ensures Last(MonthIntervals(items)).endTime == UnknownEnd
  {
    ScanState(items);
  }

  /** A month whose first havdalah comes before any candle lighting starts with an interval open at the start. */
  lemma StartsOpen(seg: seq<Item>, h: Item, post: seq<Item>)
    requires NoHavdalah(seg) && CandleTimes(seg) == [] && h.category == Havdalah
    ensures MonthIntervals(seg + [h] + post) != []
    ensures MonthIntervals(seg + [h] + post)[0].startTime == UnknownStart
    ensures MonthIntervals(seg + [h] + post)[0].endTime == h.date
  {
    var s := ScanFrom(Initial, seg);
    ScanState(seg);
    SinceLastHavdalahOfSegment(seg);
    assert s.cur.candles == [];
    assert s.intervals == [];
    ScanAppend(Initial, seg, [h]);
    assert [h][..0] == [];
    var s2 := Step(s, h);
    assert ScanFrom(Initial, seg + [h]) == s2;
    assert s2.intervals == [Closed(s.cur, h.date)];
    ScanAppend(Initial, seg + [h], post);
    ScanAppendsPerHavdalah(s2, post);
    assert MonthIntervals(seg + [h] + post)[0] == ScanFrom(s2, post).intervals[0] == Closed(s.cur, h.date);
  }

  /**
   * The two halves of a Shabbat or Yom Tov cut by a month boundary, as the
   * fetcher reports them, are joined into one interval from the pending candle
   * lighting of the first month to the first havdalah of the next.
   */
  lemma MonthBoundaryJoins(items: seq<Item>, seg: seq<Item>, h: Item, post: seq<Item>)
    requires CandleTimes(SinceLastHavdalah(items)) != []
    requires NoHavdalah(seg) && CandleTimes(seg) == [] && h.category == Havdalah
    ensures MonthIntervals(items) != [] && MonthIntervals(seg + [h] + post) != []
    ensures var ivs := MonthIntervals(items);
      var joined := JoinNextMonth(ivs, MonthIntervals(seg + [h] + post));
      joined.Some? &&
      joined.value[|ivs| - 1].startTime == CandleTimes(SinceLastHavdalah(items))[0] &&
      joined.value[|ivs| - 1].endTime == h.date
  {
    EndsOpen(items);
    StartsOpen(seg, h, post);
  }

  lemma {:induction false} SinceLastHavdalahOfSegment(seg: seq<Item>)
    requires NoHavdalah(seg)
    ensures SinceLastHavdalah(seg) == seg
    ensures HavdalahCount(seg) == 0
    decreases |seg|
  {
    if seg != [] {
      SinceLastHavdalahOfSegment(seg[..|seg| - 1]);
    }
  }
}
