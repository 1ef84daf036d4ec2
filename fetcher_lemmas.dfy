/**
 * What the fetcher's state machine produces, stated per havdalah: one interval
 * for every havdalah item, closed by it, starting at the first candle lighting
 * since the previous havdalah and titled by the first item eligible for a title;
 * and one more interval, open at the end, exactly when candles are still pending
 * after the last item.
 */
module FetchingProperties {
  import opened Times
  import opened Intervals
  import opened Fetching

  /** Number of havdalah items. */
  function HavdalahCount(items: seq<Item>): nat
    decreases |items|
  {
    if items == [] then 0
    else HavdalahCount(items[..|items| - 1]) + (if items[|items| - 1].category == Havdalah then 1 else 0)
  }

  /** Times of the candle-lighting items, in order. */
  function CandleTimes(items: seq<Item>): seq<Instant>
    decreases |items|
  {
    if items == [] then []
    else CandleTimes(items[..|items| - 1]) + (if items[|items| - 1].category == Candles then [items[|items| - 1].date] else [])
  }

  /** The items after the last havdalah item (all of them when there is none). */
  function SinceLastHavdalah(items: seq<Item>): seq<Item>
    decreases |items|
  {
    if items == [] then []
    else if items[|items| - 1].category == Havdalah then []
    else SinceLastHavdalah(items[..|items| - 1]) + [items[|items| - 1]]
  }

  predicate NoHavdalah(seg: seq<Item>)
  {
    forall k | 0 <= k < |seg| :: seg[k].category != Havdalah
  }

  /** The state machine has just been reset: at the start or after a havdalah. */
  predicate AtBoundary(pre: seq<Item>)
  {
    pre == [] || pre[|pre| - 1].category == Havdalah
  }

  /**
   * Item `k` of a segment would take the title if none was taken yet: it is not a
   * candle lighting, it is a major holiday or a parashat, and candles precede it
   * in the segment or it has a `yomtov` key or it is a parashat.
   */
  predicate Eligible(seg: seq<Item>, k: int)
    requires 0 <= k < |seg|
  {
    seg[k].category != Candles &&
    (IsMajorHoliday(seg[k]) || seg[k].category == Parashat) &&
    (CandleTimes(seg[..k]) != [] || seg[k].yomtov.Some? || seg[k].category == Parashat)
  }

  /** `f` is the first eligible item of the segment, or `f == |seg|` when none is. */
  predicate FirstEligible(seg: seq<Item>, f: int)
  {
    0 <= f <= |seg| &&
    (forall k | 0 <= k < f :: !Eligible(seg, k)) &&
    (f < |seg| ==> Eligible(seg, f))
  }

  /**
   * `i` is the first eligible item with a non-empty title, or `i == |seg|` when
   * there is none. An eligible item with an empty title leaves the title empty,
   * so the state machine goes on taking titles after it.
   */
  predicate TitleSource(seg: seq<Item>, i: int)
  {
    0 <= i <= |seg| &&
    (forall k | 0 <= k < i :: !Eligible(seg, k) || seg[k].title == "") &&
    (i < |seg| ==> Eligible(seg, i) && seg[i].title != "")
  }

  function TitleOf(seg: seq<Item>, i: int): string
    requires 0 <= i <= |seg|
  {
    if i < |seg| then seg[i].title else ""
  }

  /** The Hebrew title of the last eligible item before `n`, or "" when there is none. */
  function LastEligibleHebrew(seg: seq<Item>, n: int): string
    requires 0 <= n <= |seg|
    decreases n
  {
    if n == 0 then ""
    else if Eligible(seg, n - 1) then seg[n - 1].hebrew
    else LastEligibleHebrew(seg, n - 1)
  }

  /**
   * Every item that takes the title overwrites the Hebrew title, so it is that of
   * the title source, or, when no eligible item has a title, of the last
   * eligible item.
   */
  function HebrewTitleOf(seg: seq<Item>, i: int): string
    requires 0 <= i <= |seg|
  {
    if i < |seg| then seg[i].hebrew else LastEligibleHebrew(seg, |seg|)
  }

  function FirstOr(times: seq<Instant>, otherwise: Instant): Instant
  {
    if times == [] then otherwise else times[0]
  }

  lemma {:induction false} ScanAppend(s: Scan, a: seq<Item>, b: seq<Item>)
    ensures ScanFrom(s, a + b) == ScanFrom(ScanFrom(s, a), b)
    decreases |b|
  {
    if b == [] {
      assert a + b == a;
    } else {
      assert (a + b)[..|a + b| - 1] == a + b[..|b| - 1];
      ScanAppend(s, a, b[..|b| - 1]);
    }
  }

  lemma {:induction false} CandleTimesAppend(a: seq<Item>, b: seq<Item>)
    ensures CandleTimes(a + b) == CandleTimes(a) + CandleTimes(b)
    decreases |b|
  {
    if b == [] {
      assert a + b == a;
    } else {
      assert (a + b)[..|a + b| - 1] == a + b[..|b| - 1];
      CandleTimesAppend(a, b[..|b| - 1]);
    }
  }

  /** Items only ever append intervals: one per havdalah, none removed or changed. */
  lemma {:induction false} ScanAppendsPerHavdalah(s: Scan, items: seq<Item>)
    ensures |ScanFrom(s, items).intervals| == |s.intervals| + HavdalahCount(items)
    ensures ScanFrom(s, items).intervals[..|s.intervals|] == s.intervals
    decreases |items|
  {
    if items != [] {
      ScanAppendsPerHavdalah(s, items[..|items| - 1]);
    }
  }

  /**
   * After any prefix of the items, the intervals appended so far are one per
   * havdalah and the pending candle times are those since the last havdalah.
   */
  lemma {:induction false} ScanState(items: seq<Item>)
    ensures |ScanFrom(Initial, items).intervals| == HavdalahCount(items)
    ensures ScanFrom(Initial, items).cur.candles == CandleTimes(SinceLastHavdalah(items))
    decreases |items|
  {
    if items != [] {
      var p := items[..|items| - 1];
      ScanState(p);
      var x := items[|items| - 1];
      if x.category != Havdalah {
        CandleTimesAppend(SinceLastHavdalah(p), [x]);
        assert [x][..0] == [];
      }
    }
  }

  /**
   * `fetchTimes` appends exactly one interval per havdalah item, and one more,
   * open at the end, if and only if candle times are pending after the last item.
   */
  lemma IntervalCount(items: seq<Item>)
    ensures |MonthIntervals(items)| ==
      HavdalahCount(items) + (if CandleTimes(SinceLastHavdalah(items)) != [] then 1 else 0)
  {
    ScanState(items);
  }

  /** The state machine is reset at the start and after every havdalah. */
  lemma ResetAtBoundary(pre: seq<Item>)
    requires AtBoundary(pre)
    ensures ScanFrom(Initial, pre).cur == Fresh
  {
  }

  lemma EligibleInPrefix(seg: seq<Item>, n: int, k: int)
    requires 0 <= k < n <= |seg|
    ensures Eligible(seg[..n], k) == Eligible(seg, k)
  {
    assert seg[..n][..k] == seg[..k];
  }

  lemma {:induction false} LastEligibleHebrewInPrefix(seg: seq<Item>, n: int, m: int)
    requires 0 <= m <= n <= |seg|
    ensures LastEligibleHebrew(seg[..n], m) == LastEligibleHebrew(seg, m)
    decreases m
  {
    if m > 0 {
      EligibleInPrefix(seg, n, m - 1);
      LastEligibleHebrewInPrefix(seg, n, m - 1);
    }
  }

  /**
   * Scanning a segment without havdalah from a reset state: the candle times of
   * the segment are pending, the titles come from the title source, and the
   * interval is open at the start exactly when the first eligible item precedes
   * every candle lighting.
   */
  lemma {:induction false} SegmentState(s: Scan, seg: seq<Item>, f: int, i: int)
    requires s.cur == Fresh
    requires NoHavdalah(seg)
    requires FirstEligible(seg, f)
    requires TitleSource(seg, i)
    ensures ScanFrom(s, seg) == Scan(s.intervals,
      Pending(CandleTimes(seg), TitleOf(seg, i), HebrewTitleOf(seg, i),
              f < |seg| && CandleTimes(seg[..f]) == []))
    decreases |seg|
  {
    if seg != [] {
      var n := |seg|;
      var p, x := seg[..n - 1], seg[n - 1];
      var fp := if f < n - 1 then f else n - 1;
      var ip := if i < n - 1 then i else n - 1;
      PrefixSources(seg, f, i);
      HebrewOfPrefix(seg, i);
      assert NoHavdalah(p);
      SegmentState(s, p, fp, ip);
      var cur := ScanFrom(s, p).cur;
      assert cur.title == (if i < n - 1 then seg[i].title else "");
      assert cur.hebrewTitle == (if i < n - 1 then seg[i].hebrew else LastEligibleHebrew(seg, n - 1));
      assert cur.halfOpenStart == (f < n - 1 && CandleTimes(seg[..f]) == []) by {
        if f < n - 1 {
          assert p[..f] == seg[..f];
        }
      }
      assert ScanFrom(s, seg) == Step(ScanFrom(s, p), x);
      SegmentStep(seg, f, i, s.intervals, ScanFrom(s, p).cur);
    }
  }

  /** The first eligible item and the title source of a segment without its last item. */
  lemma PrefixSources(seg: seq<Item>, f: int, i: int)
    requires seg != []
    requires FirstEligible(seg, f)
    requires TitleSource(seg, i)
    ensures FirstEligible(seg[..|seg| - 1], if f < |seg| - 1 then f else |seg| - 1)
    ensures TitleSource(seg[..|seg| - 1], if i < |seg| - 1 then i else |seg| - 1)
  {
    PrefixFirstEligible(seg, f);
    PrefixTitleSource(seg, i);
  }

  lemma PrefixFirstEligible(seg: seq<Item>, f: int)
    requires seg != [] && FirstEligible(seg, f)
    ensures FirstEligible(seg[..|seg| - 1], if f < |seg| - 1 then f else |seg| - 1)
  {
    var n := |seg|;
    var p := seg[..n - 1];
    var fp := if f < n - 1 then f else n - 1;
    forall k | 0 <= k < fp ensures !Eligible(p, k) {
      EligibleInPrefix(seg, n - 1, k);
    }
    if fp < n - 1 {
      EligibleInPrefix(seg, n - 1, fp);
    }
  }

  lemma PrefixTitleSource(seg: seq<Item>, i: int)
    requires seg != [] && TitleSource(seg, i)
    ensures TitleSource(seg[..|seg| - 1], if i < |seg| - 1 then i else |seg| - 1)
  {
    var n := |seg|;
    var p := seg[..n - 1];
    var ip := if i < n - 1 then i else n - 1;
    forall k | 0 <= k < ip ensures !Eligible(p, k) || p[k].title == "" {
      EligibleInPrefix(seg, n - 1, k);
    }
    if ip < n - 1 {
      EligibleInPrefix(seg, n - 1, ip);
    }
  }

  lemma HebrewOfPrefix(seg: seq<Item>, i: int)
    requires seg != [] && 0 <= i <= |seg|
    ensures HebrewTitleOf(seg[..|seg| - 1], if i < |seg| - 1 then i else |seg| - 1) ==
      if i < |seg| - 1 then seg[i].hebrew else LastEligibleHebrew(seg, |seg| - 1)
  {
    var n := |seg|;
    var p := seg[..n - 1];
    if i < n - 1 {
      assert HebrewTitleOf(p, i) == p[i].hebrew;
    } else {
      assert HebrewTitleOf(p, n - 1) == LastEligibleHebrew(p, n - 1);
      LastEligibleHebrewInPrefix(seg, n - 1, n - 1);
    }
  }

  /** One item of a segment, from the state the items before it leave. */
  lemma SegmentStep(seg: seq<Item>, f: int, i: int, intervals: seq<ShabbatInterval>, cur: Pending)
    requires seg != [] && NoHavdalah(seg)
    requires FirstEligible(seg, f)
    requires TitleSource(seg, i)
    requires cur == Pending(CandleTimes(seg[..|seg| - 1]),
      if i < |seg| - 1 then seg[i].title else "",
      if i < |seg| - 1 then seg[i].hebrew else LastEligibleHebrew(seg, |seg| - 1),
      f < |seg| - 1 && CandleTimes(seg[..f]) == [])
    ensures Step(Scan(intervals, cur), seg[|seg| - 1]) == Scan(intervals,
      Pending(CandleTimes(seg), TitleOf(seg, i), HebrewTitleOf(seg, i),
              f < |seg| && CandleTimes(seg[..f]) == []))
  {
    var x := seg[|seg| - 1];
    if x.category == Candles {
      CandleStep(seg, f, i, intervals, cur);
    } else if TakesTitle(cur, x) {
      TitleStep(seg, f, i, intervals, cur);
    } else {
      OtherStep(seg, f, i, intervals, cur);
    }
  }

  /** An item that does not take the title leaves the title, the Hebrew title and `half_open_start` as they are. */
  lemma CandleStep(seg: seq<Item>, f: int, i: int, intervals: seq<ShabbatInterval>, cur: Pending)
    requires seg != [] && seg[|seg| - 1].category == Candles
    requires FirstEligible(seg, f)
    requires TitleSource(seg, i)
    requires cur == Pending(CandleTimes(seg[..|seg| - 1]),
      if i < |seg| - 1 then seg[i].title else "",
      if i < |seg| - 1 then seg[i].hebrew else LastEligibleHebrew(seg, |seg| - 1),
      f < |seg| - 1 && CandleTimes(seg[..f]) == [])
    ensures Step(Scan(intervals, cur), seg[|seg| - 1]) == Scan(intervals,
      Pending(CandleTimes(seg), TitleOf(seg, i), HebrewTitleOf(seg, i),
              f < |seg| && CandleTimes(seg[..f]) == []))
  {
    var x := seg[|seg| - 1];
    LastCandleTimes(seg);
    assert CandleTimes(seg) == cur.candles + [x.date];
    PassingStep(seg, f, i, cur);
  }

  lemma TitleStep(seg: seq<Item>, f: int, i: int, intervals: seq<ShabbatInterval>, cur: Pending)
    requires seg != [] && seg[|seg| - 1].category != Candles
    requires FirstEligible(seg, f)
    requires TitleSource(seg, i)
    requires cur == Pending(CandleTimes(seg[..|seg| - 1]),
      if i < |seg| - 1 then seg[i].title else "",
      if i < |seg| - 1 then seg[i].hebrew else LastEligibleHebrew(seg, |seg| - 1),
      f < |seg| - 1 && CandleTimes(seg[..f]) == [])
    requires TakesTitle(cur, seg[|seg| - 1])
    ensures Step(Scan(intervals, cur), seg[|seg| - 1]) == Scan(intervals,
      Pending(CandleTimes(seg), TitleOf(seg, i), HebrewTitleOf(seg, i),
              f < |seg| && CandleTimes(seg[..f]) == []))
  {
    var x := seg[|seg| - 1];
    LastCandleTimes(seg);
    assert CandleTimes(seg) == cur.candles;
    TakingStep(seg, f, i, cur);
  }

  lemma OtherStep(seg: seq<Item>, f: int, i: int, intervals: seq<ShabbatInterval>, cur: Pending)
    requires seg != [] && seg[|seg| - 1].category != Candles && seg[|seg| - 1].category != Havdalah
    requires FirstEligible(seg, f)
    requires TitleSource(seg, i)
    requires cur == Pending(CandleTimes(seg[..|seg| - 1]),
      if i < |seg| - 1 then seg[i].title else "",
      if i < |seg| - 1 then seg[i].hebrew else LastEligibleHebrew(seg, |seg| - 1),
      f < |seg| - 1 && CandleTimes(seg[..f]) == [])
    requires !TakesTitle(cur, seg[|seg| - 1])
    ensures Step(Scan(intervals, cur), seg[|seg| - 1]) == Scan(intervals,
      Pending(CandleTimes(seg), TitleOf(seg, i), HebrewTitleOf(seg, i),
              f < |seg| && CandleTimes(seg[..f]) == []))
  {
    LastCandleTimes(seg);
    assert CandleTimes(seg) == cur.candles;
    PassingStep(seg, f, i, cur);
  }

  lemma LastCandleTimes(seg: seq<Item>)
    requires seg != []
    ensures CandleTimes(seg) == CandleTimes(seg[..|seg| - 1]) +
      (if seg[|seg| - 1].category == Candles then [seg[|seg| - 1].date] else [])
  {
  }

  lemma PassingStep(seg: seq<Item>, f: int, i: int, cur: Pending)
    requires seg != []
    requires FirstEligible(seg, f)
    requires TitleSource(seg, i)
    requires cur.candles == CandleTimes(seg[..|seg| - 1])
    requires cur.title == (if i < |seg| - 1 then seg[i].title else "")
    requires cur.hebrewTitle == (if i < |seg| - 1 then seg[i].hebrew else LastEligibleHebrew(seg, |seg| - 1))
    requires cur.halfOpenStart == (f < |seg| - 1 && CandleTimes(seg[..f]) == [])
    requires seg[|seg| - 1].category == Candles || !TakesTitle(cur, seg[|seg| - 1])
    ensures cur.title == TitleOf(seg, i)
    ensures cur.hebrewTitle == HebrewTitleOf(seg, i)
    ensures cur.halfOpenStart == (f < |seg| && CandleTimes(seg[..f]) == [])
  {
    var n := |seg|;
    if i < n - 1 {
      assert Eligible(seg, i);
      assert f <= i;
    } else {
      assert cur.title == "";
      assert !Eligible(seg, n - 1);
      assert i == n && f != n - 1;
      assert LastEligibleHebrew(seg, n) == LastEligibleHebrew(seg, n - 1);
    }
  }

  lemma {:induction false} NoCandlesInPrefix(items: seq<Item>, k: int)
    requires 0 <= k <= |items| && CandleTimes(items) == []
    ensures CandleTimes(items[..k]) == []
  {
    CandleTimesAppend(items[..k], items[k..]);
    assert items[..k] + items[k..] == items;
  }

  lemma TakingStep(seg: seq<Item>, f: int, i: int, cur: Pending)
    requires seg != [] && seg[|seg| - 1].category != Candles
    requires FirstEligible(seg, f)
    requires TitleSource(seg, i)
    requires cur.candles == CandleTimes(seg[..|seg| - 1])
    requires cur.title == (if i < |seg| - 1 then seg[i].title else "")
    requires cur.halfOpenStart == (f < |seg| - 1 && CandleTimes(seg[..f]) == [])
    requires TakesTitle(cur, seg[|seg| - 1])
    ensures seg[|seg| - 1].title == TitleOf(seg, i)
    ensures seg[|seg| - 1].hebrew == HebrewTitleOf(seg, i)
    ensures (cur.halfOpenStart || cur.candles == []) == (f < |seg| && CandleTimes(seg[..f]) == [])
  {
    var n := |seg|;
    assert cur.title == "";
    assert Eligible(seg, n - 1);
    assert n - 1 <= i && f <= n - 1;
    TakenTitles(seg, i);
    TakenStart(seg, f, cur);
  }

  lemma TakenTitles(seg: seq<Item>, i: int)
    requires seg != [] && TitleSource(seg, i) && |seg| - 1 <= i
    requires Eligible(seg, |seg| - 1)
    ensures seg[|seg| - 1].title == TitleOf(seg, i)
    ensures seg[|seg| - 1].hebrew == HebrewTitleOf(seg, i)
  {
    if i == |seg| {
      assert LastEligibleHebrew(seg, |seg|) == seg[|seg| - 1].hebrew;
    }
  }

  lemma TakenStart(seg: seq<Item>, f: int, cur: Pending)
    requires seg != [] && 0 <= f <= |seg| - 1
    requires cur.candles == CandleTimes(seg[..|seg| - 1])
    requires cur.halfOpenStart == (f < |seg| - 1 && CandleTimes(seg[..f]) == [])
    ensures (cur.halfOpenStart || cur.candles == []) == (f < |seg| && CandleTimes(seg[..f]) == [])
  {
    var p := seg[..|seg| - 1];
    if f < |seg| - 1 {
      if CandleTimes(p) == [] {
        NoCandlesInPrefix(p, f);
        assert p[..f] == seg[..f];
      }
    } else {
      assert seg[..f] == p;
    }
  }


  /**
   * The interval that a havdalah closes. `pre` ends at the previous havdalah (or
   * is empty) and `seg` holds the items between the two. The interval is the
   * (`HavdalahCount(pre)`)-th one; it ends at the havdalah time; it starts at the
   * first candle lighting of the segment, unless the first eligible item came
   * before any candle lighting or there was none, in which case the start is
   * unknown; and its titles are those of the title source.
   */
  lemma {:induction false} HavdalahClosesInterval(pre: seq<Item>, seg: seq<Item>, h: Item, post: seq<Item>, f: int, i: int)
    requires AtBoundary(pre)
    requires NoHavdalah(seg)
    requires h.category == Havdalah
    requires FirstEligible(seg, f)
    requires TitleSource(seg, i)
    ensures HavdalahCount(pre) < |MonthIntervals(pre + seg + [h] + post)|
    ensures MonthIntervals(pre + seg + [h] + post)[HavdalahCount(pre)] ==
      ShabbatInterval(FirstOr(CandleTimes(seg[..f]), UnknownStart), h.date,
                      TitleOf(seg, i), HebrewTitleOf(seg, i))
  {
    var s0 := ScanFrom(Initial, pre);
    ResetAtBoundary(pre);
    ScanAppendsPerHavdalah(Initial, pre);
    var s1 := ScanFrom(s0, seg);
    SegmentState(s0, seg, f, i);
    var s2 := Step(s1, h);
    assert s2.intervals == s0.intervals + [Closed(s1.cur, h.date)];
    ClosedBySegment(seg, f, i, s1.cur, h.date);
    ScanAppendsPerHavdalah(s2, post);
    ScanAroundHavdalah(pre, seg, h, post);
    var k := HavdalahCount(pre);
    assert ScanFrom(s2, post).intervals[k] == s2.intervals[k];
  }

  lemma ScanAroundHavdalah(pre: seq<Item>, seg: seq<Item>, h: Item, post: seq<Item>)
    ensures ScanFrom(Initial, pre + seg + [h] + post) ==
      ScanFrom(Step(ScanFrom(ScanFrom(Initial, pre), seg), h), post)
  {
    ScanAppend(Initial, pre + seg + [h], post);
    ScanAppend(Initial, pre + seg, [h]);
    assert [h][..0] == [];
    ScanAppend(Initial, pre, seg);
  }

  /** The interval a havdalah closes after a segment scanned from a reset state. */
  lemma ClosedBySegment(seg: seq<Item>, f: int, i: int, cur: Pending, end: Instant)
    requires FirstEligible(seg, f)
    requires 0 <= i <= |seg|
    requires cur == Pending(CandleTimes(seg), TitleOf(seg, i), HebrewTitleOf(seg, i),
      f < |seg| && CandleTimes(seg[..f]) == [])
    ensures Closed(cur, end) ==
      ShabbatInterval(FirstOr(CandleTimes(seg[..f]), UnknownStart), end, TitleOf(seg, i), HebrewTitleOf(seg, i))
  {
    var before := CandleTimes(seg[..f]);
    if f == |seg| {
      assert seg[..f] == seg;
    } else if before != [] {
      CandleTimesAppend(seg[..f], seg[f..]);
      assert seg[..f] + seg[f..] == seg;
      assert CandleTimes(seg)[0] == before[0];
    }
  }

  /**
   * The interval left open at the end: `seg` holds the items after the last
   * havdalah. There is one more interval than havdalah items exactly when `seg`
   * lights candles, and it then runs from the first of them to the unknown end,
   * titled by the segment's title source.
   */
  lemma {:induction false} TrailingInterval(pre: seq<Item>, seg: seq<Item>, f: int, i: int)
    requires AtBoundary(pre)
    requires NoHavdalah(seg)
    requires FirstEligible(seg, f)
    requires TitleSource(seg, i)
    ensures |MonthIntervals(pre + seg)| ==
      HavdalahCount(pre) + (if CandleTimes(seg) != [] then 1 else 0)
    ensures CandleTimes(seg) != [] ==>
      MonthIntervals(pre + seg)[HavdalahCount(pre)] ==
      ShabbatInterval(CandleTimes(seg)[0], UnknownEnd, TitleOf(seg, i), HebrewTitleOf(seg, i))
  {
    var s0 := ScanFrom(Initial, pre);
    ResetAtBoundary(pre);
    ScanAppendsPerHavdalah(Initial, pre);
    SegmentState(s0, seg, f, i);
    ScanAppend(Initial, pre, seg);
  }
}
