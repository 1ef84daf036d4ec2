/**
 * A Shabbat or Yom Tov is an interval from candle lighting to havdalah. When the
 * month's calendar does not contain one of the two, that side is unknown:
 *   [candles, havdalah]          closed
 *   (UnknownStart, havdalah]     open at the start
 *   [candles, UnknownEnd)        open at the end
 */
module Intervals {
  import opened Times

  datatype ShabbatInterval = ShabbatInterval(
    startTime: Instant,
    endTime: Instant,
    title: string,
    hebrewTitle: string)

  /** Python's `a or b` on two strings. */
  function OrElse(a: string, b: string): string
  {
    if a != "" then a else b
  }

  /**
   * `_IsAdjacentHalfOpenInterval`: the first interval is open at the end and the
   * second, whose start is known, begins on the next day (one whole day after the
   * first one's start, counting down to whole days as `timedelta.days` does).
   */
  function IsAdjacentHalfOpen(halfOpen: ShabbatInterval, next: ShabbatInterval): (r: bool)
    ensures r <==>
      halfOpen.endTime == UnknownEnd &&
      next.startTime != UnknownStart &&
      MicrosPerDay <= next.startTime - halfOpen.startTime < 2 * MicrosPerDay
  {
    halfOpen.endTime == UnknownEnd &&
    next.startTime != UnknownStart &&
    WholeDays(halfOpen.startTime, next.startTime) == 1
  }
}
