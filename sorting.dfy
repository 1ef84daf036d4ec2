/**
 * `intervals.sort(key=lambda x: x.start_time)`: Python's sort is stable, so the
 * result is the permutation of the list that is ordered by start time and keeps
 * intervals with equal start times in their original order. It is modelled by an
 * insertion sort that places each interval after every earlier one that does not
 * start later.
 */
module Sorting {
  import opened Times
  import opened Intervals

  predicate SortedByStart(s: seq<ShabbatInterval>)
  {
    forall i, j | 0 <= i < j < |s| :: s[i].startTime <= s[j].startTime
  }

  /** `x` placed after the leading intervals of `s` that start no later than it. */
  function InsertByStart(x: ShabbatInterval, s: seq<ShabbatInterval>): (r: seq<ShabbatInterval>)
    ensures multiset(r) == multiset(s) + multiset{x}
    decreases |s|
  {
    if s == [] then [x]
    else if x.startTime < s[0].startTime then [x] + s
    else
      assert s == [s[0]] + s[1..];
      [s[0]] + InsertByStart(x, s[1..])
  }

  /** Every interval of `InsertByStart(x, s)` starts no earlier than a bound of `x` and of `s`. */
  lemma {:induction false} InsertBounded(x: ShabbatInterval, s: seq<ShabbatInterval>, lo: Instant)
    requires lo <= x.startTime
    requires forall k | 0 <= k < |s| :: lo <= s[k].startTime
    ensures forall k | 0 <= k < |InsertByStart(x, s)| :: lo <= InsertByStart(x, s)[k].startTime
    decreases |s|
  {
    if s != [] && s[0].startTime <= x.startTime {
      InsertBounded(x, s[1..], lo);
    }
  }

  lemma {:induction false} InsertSorted(x: ShabbatInterval, s: seq<ShabbatInterval>)
    requires SortedByStart(s)
    ensures SortedByStart(InsertByStart(x, s))
    decreases |s|
  {
    if s != [] && s[0].startTime <= x.startTime {
      InsertSorted(x, s[1..]);
      InsertBounded(x, s[1..], s[0].startTime);
    }
  }

  function SortByStart(s: seq<ShabbatInterval>): (r: seq<ShabbatInterval>)
    ensures SortedByStart(r)
    ensures multiset(r) == multiset(s)
    decreases |s|
  {
    if s == [] then []
    else
      assert s == s[..|s| - 1] + [s[|s| - 1]];
      InsertSorted(s[|s| - 1], SortByStart(s[..|s| - 1]));
      InsertByStart(s[|s| - 1], SortByStart(s[..|s| - 1]))
  }

  /** The intervals of `s` that start at `t`, in order. */
  function StartingAt(s: seq<ShabbatInterval>, t: Instant): seq<ShabbatInterval>
    decreases |s|
  {
    if s == [] then []
    else (if s[0].startTime == t then [s[0]] else []) + StartingAt(s[1..], t)
  }

  lemma {:induction false} StartingAtAppend(a: seq<ShabbatInterval>, b: seq<ShabbatInterval>, t: Instant)
    ensures StartingAt(a + b, t) == StartingAt(a, t) + StartingAt(b, t)
    decreases |a|
  {
    if a == [] {
      assert a + b == b;
    } else {
      assert (a + b)[0] == a[0];
      assert (a + b)[1..] == a[1..] + b;
      var head := if a[0].startTime == t then [a[0]] else [];
      assert StartingAt(a + b, t) == head + StartingAt(a[1..] + b, t);
      assert StartingAt(a, t) == head + StartingAt(a[1..], t);
      StartingAtAppend(a[1..], b, t);
      assert head + (StartingAt(a[1..], t) + StartingAt(b, t)) ==
        (head + StartingAt(a[1..], t)) + StartingAt(b, t);
    }
  }

  lemma {:induction false} NoneStartingBefore(s: seq<ShabbatInterval>, t: Instant)
    requires SortedByStart(s)
    requires s != [] && t < s[0].startTime
    ensures StartingAt(s, t) == []
    decreases |s|
  {
    if |s| > 1 {
      NoneStartingBefore(s[1..], t);
    }
  }

  lemma {:induction false} InsertKeepsTies(x: ShabbatInterval, s: seq<ShabbatInterval>, t: Instant)
    requires SortedByStart(s)
    ensures StartingAt(InsertByStart(x, s), t) ==
      StartingAt(s, t) + (if x.startTime == t then [x] else [])
    decreases |s|
  {
    if s == [] {
    } else if x.startTime < s[0].startTime {
      assert ([x] + s)[1..] == s;
      if x.startTime == t {
        NoneStartingBefore(s, t);
      }
    } else {
      var rest := InsertByStart(x, s[1..]);
      assert ([s[0]] + rest)[1..] == rest;
      InsertKeepsTies(x, s[1..], t);
    }
  }

  /**
   * The sort is stable: for every start time, the intervals starting then keep
   * their relative order.
   */
  lemma {:induction false} SortIsStable(s: seq<ShabbatInterval>, t: Instant)
    ensures StartingAt(SortByStart(s), t) == StartingAt(s, t)
    decreases |s|
  {
    if s != [] {
      var p, x := s[..|s| - 1], s[|s| - 1];
      var sp := SortByStart(p);
      assert s == p + [x];
      assert SortByStart(s) == InsertByStart(x, sp);
      assert StartingAt([x], t) == if x.startTime == t then [x] else [] by {
        assert [x][1..] == [];
      }
      calc {
        StartingAt(SortByStart(s), t);
        { InsertKeepsTies(x, sp, t); }
        StartingAt(sp, t) + StartingAt([x], t);
        { SortIsStable(p, t); }
        StartingAt(p, t) + StartingAt([x], t);
        { StartingAtAppend(p, [x], t); }
        StartingAt(s, t);
      }
    }
  }
}
