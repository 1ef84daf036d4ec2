/**
 * Naive `datetime` values, days of the week and the month arithmetic that the
 * Shabbat times parser performs on them.
 *
 * An instant is the number of microseconds elapsed since `datetime.min`
 * (0001-01-01 00:00:00), so `datetime.min` and `datetime.max`, which the sensor
 * uses as the unknown start and the unknown end of an interval, are the least
 * and the greatest instant.
 */
module Times {

  const MicrosPerDay: int := 86_400_000_000

  /** Day index (proleptic Gregorian ordinal minus one) of `datetime.max`. */
  const MaxDay: int := 3_652_058

  /** `datetime.min` */
  const UnknownStart: int := 0

  /** `datetime.max`, that is 9999-12-31 23:59:59.999999 */
  const UnknownEnd: int := (MaxDay + 1) * MicrosPerDay - 1

  type Instant = t: int | UnknownStart <= t <= UnknownEnd

  /** Day index of an instant: the instant of its midnight divided by one day. */
  function DayOf(t: Instant): (d: int)
    ensures 0 <= d <= MaxDay
    ensures d * MicrosPerDay <= t < (d + 1) * MicrosPerDay
  {
    t / MicrosPerDay
  }

  /**
   * `date.weekday()`: Monday is 0 and Sunday is 6. Day 0 (0001-01-01) is a Monday,
   * and Python computes `(toordinal() + 6) % 7`, which is the day index modulo 7.
   */
  function Weekday(d: int): (w: int)
    ensures 0 <= w < 7 && (d - w) % 7 == 0
    ensures d == 0 ==> w == 0
  {
    d % 7
  }

  const Friday: int := 4
  const Saturday: int := 5

  /**
   * `(b - a).days`: whole days of a `timedelta`, rounded toward minus infinity.
   */
  function WholeDays(a: Instant, b: Instant): (n: int)
    ensures n * MicrosPerDay <= b - a < (n + 1) * MicrosPerDay
  {
    (b - a) / MicrosPerDay
  }

  /** The Friday `update` bases its request on, as a day index. */
  function RelevantFriday(today: int): (friday: int)
    requires 0 <= today
    ensures Weekday(friday) == Friday
    ensures Weekday(today) == Saturday ==> friday == today - 1
    ensures Weekday(today) != Saturday ==>
      today <= friday <= today + 6 &&
      forall d :: today <= d < friday ==> Weekday(d) != Friday
  {
    if Weekday(today) == Saturday then today - 1
    else today + (Friday - Weekday(today)) % 7
  }

  /** The year and the month of a date, as `datetime` reports them. */
  datatype YearMonth = YearMonth(year: int, month: int)

  /**
   * The month requested after the one of `ym`: `(month + 1) % 13`, with the year
   * incremented only after month 12. December is followed by month 0 of the next
   * year.
   */
  function NextMonth(ym: YearMonth): (r: YearMonth)
    ensures 0 <= ym.month < 12 ==> r == YearMonth(ym.year, ym.month + 1)
    ensures ym.month == 12 ==> r == YearMonth(ym.year + 1, 0)
    ensures 0 <= r.month <= 12
  {
    YearMonth(ym.year + (if ym.month == 12 then 1 else 0), (ym.month + 1) % 13)
  }

  /**
   * The month requested before the one of `ym`: one less, and month 12 of the
   * previous year only for month 0. A `datetime` month is never 0, so January is
   * preceded by month 0 of the same year.
   */
  function PreviousMonth(ym: YearMonth): (r: YearMonth)
    ensures ym.month != 0 ==> r == YearMonth(ym.year, ym.month - 1)
    ensures ym.month == 1 ==> r == YearMonth(ym.year, 0)
    ensures ym.month == 0 ==> r == YearMonth(ym.year - 1, 12)
  {
    if ym.month == 0 then YearMonth(ym.year - 1, 12)
    else YearMonth(ym.year, ym.month - 1)
  }

  /** The month requested before the one after any month 0 to 12 is that month, and the other way round. */
  lemma NextAndPreviousMonthAreInverse(ym: YearMonth)
    requires 0 <= ym.month <= 12
    ensures PreviousMonth(NextMonth(ym)) == ym
    ensures NextMonth(PreviousMonth(ym)) == ym
  {
  }
}
