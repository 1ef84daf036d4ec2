# Shabbat times: a Dafny model of the interval logic

The Home Assistant `shabbat_times` sensor reports the Shabbat or Yom Tov that is in progress or next to come. It does not compute the times itself. It asks the Hebcal web service for one month of calendar items: candle lightings, havdalot, holidays and weekly Torah portions. This project models and proves the three parts of `homeassistant/components/sensor/shabbat_times.py` that turn those items into an answer:

- `ShabbatTimesFetcher.fetchTimes` is a state machine over the month's items. It builds `ShabbatInterval(start_time, end_time, title, hebrew_title)` records. An interval may be closed `[candles, havdalah]`, open at the start `(UNKNOWN_START, havdalah]` or open at the end `[candles, UNKNOWN_END)`.
- `_IsAdjacentHalfOpenInterval` decides whether an interval open at the end continues into the next month's first interval.
- `ShabbatTimesParser.update` does the following in order:
  - It picks the relevant Friday.
  - It fetches that Friday's month, and moves on a week on the month's last Motzei Shabbat.
  - It completes intervals cut off by the end or the start of the month.
  - It sorts the intervals by start time and returns the first one that is not over.

## Modules and files

- `wrappers.dfy` (`Wrappers`): `Option`, standing for Python's `None` or a value.
- `times.dfy` (`Times`): naive `datetime` values. An instant is a count of microseconds since `datetime.min`. So `UNKNOWN_START` (`datetime.min`) is 0, and `UNKNOWN_END` (`datetime.max`, 9999-12-31 23:59:59.999999) is the greatest instant. `timedelta.days` is floor division by one day. Days are indexed from 0001-01-01, a Monday, so `weekday()` is the day index modulo 7. The file also holds the relevant Friday and the next/previous month arithmetic of `update`.
- `intervals.dfy` (`Intervals`): `ShabbatInterval` and `_IsAdjacentHalfOpenInterval`.
- `fetcher.dfy` (`Fetching`): Hebcal items and responses, the state machine as specification functions (`Step`, `ScanFrom`, `Finish`, `MonthIntervals`), and the `Fetcher` class. `Fetcher.FetchTimes` runs the source's loop and is proved equal to the specification.
- `fetcher_lemmas.dfy` (`FetchingProperties`): what the state machine produces, per havdalah and for the interval left open at the end of the month.
- `sorting.dfy` (`Sorting`): `list.sort(key=start_time)` as a stable insertion sort. It is proved sorted, a permutation of its input, and stable.
- `parser.dfy` (`Parsing`): the joins at the month boundaries, the selection loop, `update` as the specification `UpdateOutcome`, and the `Parser` class. `Parser.Update` is proved to produce that outcome. The source's `update` is one method; here its two completion blocks are the helper methods `CompleteEndTimes` and `CompleteStartTimes`, and its first part is `FetchWeekTimes`.
- `parser_lemmas.dfy` (`ParsingProperties`): what `update` returns, its INTERVAL_ERROR failures, and how two halves of a Shabbat cut by a month boundary are joined.

The month arithmetic follows the code exactly:

- After month `m` comes `(m + 1) % 13`, and the year goes up only after month 12. So December is followed by month 0 of the next year.
- Before month `m` comes `m - 1`. The code turns month 0 into December of the previous year, but a `datetime` month is never 0. So January is preceded by month 0 of the same year.

Both requests go to the fetcher unchanged. What Hebcal answers for month 0 is part of the abstract responses.

Hebrew dates, zmanim and holiday lookups come from Hebcal and are not computed here.

## Model

| member | source | states |
|---|---|---|
| `Times.DayOf` | homeassistant/components/sensor/shabbat_times.py:250 | the day of `now` is the whole number of days before it, so its midnight is at or before `now` and the next midnight after it |
| `Times.WholeDays` | homeassistant/components/sensor/shabbat_times.py:229-230 | `.days` of a difference is the whole number of days `n` with `n` days at or below the difference and `n + 1` days above it |
| `Times.RelevantFriday` | homeassistant/components/sensor/shabbat_times.py:250-257 | the result is always a Friday; on a Saturday it is the day before; otherwise it is the first Friday on or after today, at most six days ahead |
| `Times.Weekday` | homeassistant/components/sensor/shabbat_times.py:251 | `weekday()` of a day index: a number 0 to 6 congruent to the index modulo 7, day 0 (1 January of year 1) being a Monday, so Friday is 4 and Saturday is 5 |
| `Times.NextMonth` | homeassistant/components/sensor/shabbat_times.py:288-290 | months 0 to 11 are followed by the next month of the same year; month 12 is followed by month 0 of the next year; the result is always 0 to 12 |
| `Times.NextAndPreviousMonthAreInverse` | homeassistant/components/sensor/shabbat_times.py:286-328 | for months 0 to 12, the month requested before the one after a month is that month, and the month requested after the one before it is that month too |
| `Times.PreviousMonth` | homeassistant/components/sensor/shabbat_times.py:322-328 | every month but 0 is preceded by the month one less in the same year, so January (1) is preceded by month 0; only month 0 goes back to December of the previous year |
| `Intervals.IsAdjacentHalfOpen` | homeassistant/components/sensor/shabbat_times.py:213-230 | true exactly when the first interval ends at `UNKNOWN_END`, the second's start is known, and the second starts at least one day and less than two days after the first |
| `Fetching.FetchResult` | homeassistant/components/sensor/shabbat_times.py:132-135 | a response carrying `error` yields no interval |
| `Fetching.IsMajorHoliday` | homeassistant/components/sensor/shabbat_times.py:137-141 | the test for a major holiday: a `holiday` item whose `subcat` is `major` or whose `yomtov` is true. It has no contract of its own; `SegmentState` states how it selects titles |
| `Fetching.Step` | homeassistant/components/sensor/shabbat_times.py:150-203 | one iteration of the loop over the items: a candle item adds its time, an eligible item may set the titles and `half_open_start`, and a havdalah item closes an interval and resets the pending state. It has no contract of its own; `ScanAppendsPerHavdalah`, `ScanState`, `SegmentState` and `HavdalahClosesInterval` state what it does |
| `Fetching.Finish` | homeassistant/components/sensor/shabbat_times.py:205-208 | after the loop, pending candles add an interval open at the end. It has no contract of its own; `TrailingInterval` and `IntervalCount` state what it adds |
| `Fetching.MonthIntervals` | homeassistant/components/sensor/shabbat_times.py:143-208 | the intervals of one month's items: the loop from the reset state followed by `Finish`. It has no contract of its own; `Fetcher.FetchTimes` is proved equal to it, and `IntervalCount`, `HavdalahClosesInterval` and `TrailingInterval` state which intervals it holds |
| `Fetching.Fetcher.constructor` | homeassistant/components/sensor/shabbat_times.py:97-103 | a new fetcher has no error |
| `Fetching.Fetcher.FetchTimes` | homeassistant/components/sensor/shabbat_times.py:122-210 | the loop over the items returns exactly the intervals of the state machine's specification; `error` is the response's error message, in which case the result is empty, or `None` when there is none |
| `FetchingProperties.ScanAppendsPerHavdalah` | homeassistant/components/sensor/shabbat_times.py:181-203 | the loop only ever appends: one interval per havdalah item, and earlier intervals are never changed |
| `FetchingProperties.ScanState` | homeassistant/components/sensor/shabbat_times.py:143-203 | after any prefix of the items there is one interval per havdalah, and the pending candle times are those of the candle items since the last havdalah |
| `FetchingProperties.IntervalCount` | homeassistant/components/sensor/shabbat_times.py:181-208 | the month has exactly one interval per havdalah item, plus one more if and only if candles were lit after the last havdalah |
| `FetchingProperties.ResetAtBoundary` | homeassistant/components/sensor/shabbat_times.py:193-203 | at the start and after every havdalah the pending candles, titles and `half_open_start` are all reset |
| `FetchingProperties.SegmentState` | homeassistant/components/sensor/shabbat_times.py:150-180 | between two havdalot, the pending candles are the segment's candle times. An item is eligible for a title when it is not a candle item, is a major holiday or parashat, and is preceded by candles or has `yomtov` or is a parashat. The title is that of the first eligible item with a non-empty title, or empty when there is none. The Hebrew title is that item's, or, when there is none, that of the last eligible item, since every eligible item with an empty title overwrites it. `half_open_start` holds exactly when the first eligible item, whatever its title, came before any candle lighting |
| `FetchingProperties.HavdalahClosesInterval` | homeassistant/components/sensor/shabbat_times.py:150-203 | the interval closed by a havdalah sits at that havdalah's position in the list and ends at its time. It starts at the first candle lighting since the previous havdalah, later candles of a multi-day Yom Tov being ignored. Its start is unknown when there was no candle lighting or when the first eligible item, even one with an empty title, came before every candle lighting. Its titles are those `SegmentState` gives |
| `FetchingProperties.TrailingInterval` | homeassistant/components/sensor/shabbat_times.py:205-208 | candles lit after the last havdalah add exactly one interval. It runs from the first of those candles to `UNKNOWN_END`, with the titles `SegmentState` gives. Without such candles no interval is added |
| `Sorting.InsertByStart` | homeassistant/components/sensor/shabbat_times.py:350 | inserting an interval adds exactly that interval to the multiset of intervals |
| `Sorting.InsertSorted` | homeassistant/components/sensor/shabbat_times.py:350 | inserting into a list sorted by start time keeps it sorted |
| `Sorting.SortByStart` | homeassistant/components/sensor/shabbat_times.py:350 | the sorted list is ordered by start time and is a permutation of the intervals |
| `Sorting.SortIsStable` | homeassistant/components/sensor/shabbat_times.py:350 | intervals with equal start times keep their original relative order, as Python's stable sort does |
| `Parsing.JoinNextMonth` | homeassistant/components/sensor/shabbat_times.py:298-319 | fails exactly when the next month's first interval has a known start and is not adjacent. Otherwise the last interval keeps its start and takes the next month's first end. It keeps its own titles unless they are empty. The earlier intervals are unchanged and the rest of the next month follows in order |
| `Parsing.JoinPreviousMonth` | homeassistant/components/sensor/shabbat_times.py:337-347 | fails exactly when the previous month's last interval is not open at the end. Otherwise the first interval takes that interval's start and keeps its own end. It takes the previous titles unless they are empty, and every other interval is unchanged |
| `Parsing.Relevant` | homeassistant/components/sensor/shabbat_times.py:355-361 | an interval is kept by the loop exactly when it ends after `now`, or ends exactly at `now` while starting after it; for an interval that does not end before it starts, exactly when it has not ended |
| `Parsing.FirstRelevant` | homeassistant/components/sensor/shabbat_times.py:352-365 | the index of the first interval that is not over and is upcoming or in progress; every earlier interval is neither; it is the length of the list when there is none |
| `Parsing.SelectCurrent` | homeassistant/components/sensor/shabbat_times.py:352-365 | the for-loop with its `continue` and early return gives that first relevant interval, or `None` when there is none |
| `Parsing.SelectionOf` | homeassistant/components/sensor/shabbat_times.py:352-365 | nothing is selected exactly when no interval is relevant; a selected interval is one of the list and is relevant |
| `Parsing.FetchWeek` | homeassistant/components/sensor/shabbat_times.py:250-280 | the first request is the month of the relevant Friday. "Could not retrieve intervals." is set exactly when that month yields no interval. The week advances to the next Friday, with a second request for its month, exactly when the first month's last interval ended before `now`. An empty second month gives up with no error. Otherwise it goes on with the intervals of the month of the Friday it settled on |
| `Parsing.CompleteEnd` | homeassistant/components/sensor/shabbat_times.py:286-319 | completing an interval open at the end stops only after a request, and goes on only with a non-empty list of intervals |
| `Parsing.CompleteStart` | homeassistant/components/sensor/shabbat_times.py:321-347 | completing an interval open at the start stops only after a request, and goes on only with a non-empty list of intervals |
| `Parsing.Assemble` | homeassistant/components/sensor/shabbat_times.py:248-347 | the intervals `update` chooses from, or its error, always after at least one request |
| `Parsing.UpdateOutcome` | homeassistant/components/sensor/shabbat_times.py:241-365 | `update` always requests at least one month, and returns an interval only with no error set |
| `Parsing.Parser.constructor` | homeassistant/components/sensor/shabbat_times.py:236-239 | a new parser holds its fetcher and has no error |
| `Parsing.Parser.Update` | homeassistant/components/sensor/shabbat_times.py:241-365 | returns the interval and sets the parser's error as the specification `UpdateOutcome` does. The fetcher's error is that of the last month requested. It is defined on every day on which none of the source's date arithmetic overflows |
| `Parsing.Parser.FetchWeekTimes` | homeassistant/components/sensor/shabbat_times.py:248-280 | computes the relevant Friday. It fetches its month, and that of the next Friday if the month's last interval ended before `now`. It sets "Could not retrieve intervals." only when the first fetch yields nothing |
| `Parsing.Parser.CompleteEndTimes` | homeassistant/components/sensor/shabbat_times.py:286-319 | requests `(month + 1) % 13` for a month ending open, and joins or fails with "INTERVAL_ERROR", or with no error when the next month has no interval |
| `Parsing.Parser.CompleteStartTimes` | homeassistant/components/sensor/shabbat_times.py:321-347 | requests the previous month for a list starting open, and joins or fails with "INTERVAL_ERROR", or with no error when that month has no interval |
| `ParsingProperties.SelectionIsEarliestRelevant` | homeassistant/components/sensor/shabbat_times.py:349-365 | after sorting, the interval returned is one of the list, is not over, and is upcoming or in progress. It starts no later than every other such interval, and is never one that ends exactly at `now` having started by then. Among the qualifying intervals that start when it does, it is the first in the order gathered. Nothing is returned exactly when no interval qualifies |
| `ParsingProperties.SelectionAmongEqualStarts` | homeassistant/components/sensor/shabbat_times.py:352-365 | the first relevant interval of a list is also the first relevant one among the intervals of the list that start when it does |
| `ParsingProperties.SelectionBreaksTiesInOrder` | homeassistant/components/sensor/shabbat_times.py:349-365 | since the sort is stable, the interval returned is the first relevant one, in the order gathered, among the intervals that start when it does |
| `ParsingProperties.FirstRelevantOfSorted` | homeassistant/components/sensor/shabbat_times.py:352-365 | in a list sorted by start time, the first relevant interval starts no later than any relevant interval of the same elements |
| `ParsingProperties.UpdateChoosesEarliestRelevant` | homeassistant/components/sensor/shabbat_times.py:349-365 | once the intervals are gathered, `update` returns the earliest-starting relevant one, the first in the order gathered among those starting then. It fails with "Unknown Error" exactly when none is relevant |
| `ParsingProperties.UpdateFailsOnUnjoinableNextMonth` | homeassistant/components/sensor/shabbat_times.py:303-310 | a month ending open whose next month starts with a known, non-adjacent start makes `update` fail with "INTERVAL_ERROR" |
| `ParsingProperties.UpdateFailsOnUnjoinablePreviousMonth` | homeassistant/components/sensor/shabbat_times.py:337-342 | a list starting open whose previous month does not end open makes `update` fail with "INTERVAL_ERROR" |
| `ParsingProperties.UpdateGivesUpOnEmptyNextMonth` | homeassistant/components/sensor/shabbat_times.py:294-297 | a month ending open whose next month yields no interval makes `update` return nothing, with no error set, after requesting that month |
| `ParsingProperties.UpdateGivesUpOnEmptyPreviousMonth` | homeassistant/components/sensor/shabbat_times.py:332-336 | a list starting open whose previous month yields no interval makes `update` return nothing, with no error set, after requesting that month |
| `ParsingProperties.EndsOpen` | homeassistant/components/sensor/shabbat_times.py:205-208 | a month with candles lit after its last havdalah ends with an interval from the first of them to `UNKNOWN_END` |
| `ParsingProperties.StartsOpen` | homeassistant/components/sensor/shabbat_times.py:197-200 | a month whose first havdalah precedes every candle lighting starts with an interval from `UNKNOWN_START` to that havdalah |
| `ParsingProperties.MonthBoundaryJoins` | homeassistant/components/sensor/shabbat_times.py:74-81 | the two halves of a Shabbat cut by a month boundary are joined into one interval. It runs from the pending candle lighting of the first month to the first havdalah of the next |
| `ParsingProperties.SinceLastHavdalahOfSegment` | homeassistant/components/sensor/shabbat_times.py:181-203 | without a havdalah, no interval is closed and every item counts as pending since the last reset |

## Left out

- The HTTP request, the URL and the JSON decoding of `_fetchHebcalResponse` (lines 105-120) are network I/O. The fetcher instead holds the decoded response for every (year, month).
- `_parse_time` (lines 87-91) is a library date parse. Each item carries its time already parsed; a malformed time string, which would raise, is not modelled.
- Missing JSON keys (which raise `KeyError`) and values of unexpected JSON types are not modelled. An item's `subcat` and `yomtov` are optional, `yomtov` is a boolean, and the other fields are always present.
- The year and month of a date come from Gregorian calendar arithmetic inside `datetime`. They are a parameter (`calendar`) of `Update`; that conversion is not part of this model.
- `Parsing.Parser.Update`: requires the Saturday a week after the relevant Friday to be a date (`Parsing.WithinDateRange`), and so does every specification function and lemma of `update`. The source's `OverflowError` is not modelled. The source raises it on every path from 9999-12-26 on, because `friday` or `saturday` (line 257) is then past `datetime.max`. From 9999-12-19 to 9999-12-25 it raises only when it advances a week (lines 274-275). Those seven days are excluded as well, although the source returns normally on them whenever it does not advance.
- The sensor entity `ShabbatTimes` (lines 372-467) is Home Assistant lifecycle, not interval logic: its state restoration, throttled asynchronous update, `datetime.now()` and attribute publication. `async_setup_platform` and `PLATFORM_SCHEMA` (lines 42-67) are configuration plumbing.
- Logging (`_LOGGER`) and the `assert now` of `update` have no effect on the results.
- The Hebrew calendar, zmanim, holiday and portion lookups exercised by `tests/components/sensor/test_jewish_calendar.py` belong to `homeassistant/components/sensor/jewish_calendar.py`, which is not part of this model.
- The test harness of `tests/components/sensor/test_shabbat_times.py` is not modelled. Only its selection rule (lines 65-72), which is the same as `update`'s, is reflected, in `Parsing.FirstRelevant`.
