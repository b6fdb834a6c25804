/**
 * The calendar value behind std::chrono::year_month_day: a (year, month, day) triple,
 * its ok() check against the proleptic Gregorian calendar, and its ordering.
 */
module Calendar {

  datatype Date = Date(year: int, month: int, day: int)

  predicate IsLeapYear(y: int) {
    y % 4 == 0 && (y % 100 != 0 || y % 400 == 0)
  }

  /** The true length of month m in year y. */
  function LastDayOfMonth(y: int, m: int): int
    requires 1 <= m <= 12
  {
    if m == 2 then (if IsLeapYear(y) then 29 else 28)
    else if m == 4 || m == 6 || m == 9 || m == 11 then 30
    else 31
  }

  /** year_month_day::ok(): the year is representable, the month is 1..12 and the day exists. */
  predicate IsValid(d: Date) {
    -32767 <= d.year <= 32767 && 1 <= d.month <= 12 && 1 <= d.day <= LastDayOfMonth(d.year, d.month)
  }

  /**
   * year_month_day(year(y), month(m), day(d)): month and day keep only the low byte of
   * the unsigned value they are given (an unsigned char), so a negative m or d wraps.
   */
  function MakeDate(y: int, m: int, d: int): Date {
    Date(y, LowByte(m), LowByte(d))
  }

  /** The conversion to unsigned char (two's complement, so Euclidean modulo 256). */
  function LowByte(x: int): int {
    if 0 <= x < 256 then x else x % 256
  }

  /** For the values a two-character digit slot can produce the wrap never makes a date valid. */
  lemma MakeDateWrapHarmless(y: int, m: int, d: int)
    requires -100 < m < 100 && -100 < d < 100
    ensures IsValid(MakeDate(y, m, d)) <==> IsValid(Date(y, m, d))
    ensures IsValid(MakeDate(y, m, d)) ==> MakeDate(y, m, d) == Date(y, m, d)
  {
  }

  /** Comparison of year_month_day: by year, then month, then day. */
  predicate Before(a: Date, b: Date) {
    a.year < b.year || (a.year == b.year && (a.month < b.month || (a.month == b.month && a.day < b.day)))
  }

  /** Before is a strict total order. */
  lemma BeforeIsStrictTotalOrder(a: Date, b: Date, c: Date)
    ensures !Before(a, a)
    ensures Before(a, b) && Before(b, c) ==> Before(a, c)
    ensures a == b || Before(a, b) || Before(b, a)
    ensures !(Before(a, b) && Before(b, a))
  {
  }
}
