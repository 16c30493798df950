/**
 * Calendar dates as the backend and the month generator see them: a
 * proleptic Gregorian (year, month, day) triple, ordered lexicographically,
 * which is the order of Python's `datetime.date`.
 */
module Calendar {

  datatype Date = Date(year: int, month: int, day: int)

  /** `a <= b` on `datetime.date`. */
  predicate OnOrBefore(a: Date, b: Date) {
    || a.year < b.year
    || (a.year == b.year && a.month < b.month)
    || (a.year == b.year && a.month == b.month && a.day <= b.day)
  }

  /** `a < b` on `datetime.date`. */
  predicate Before(a: Date, b: Date) {
    OnOrBefore(a, b) && a != b
  }

  lemma OnOrBeforeIsTotalOrder(a: Date, b: Date, c: Date)
    ensures OnOrBefore(a, a)
    ensures OnOrBefore(a, b) || OnOrBefore(b, a)
    ensures OnOrBefore(a, b) && OnOrBefore(b, a) ==> a == b
    ensures OnOrBefore(a, b) && OnOrBefore(b, c) ==> OnOrBefore(a, c)
  {
  }

  /** Leap years of the proleptic Gregorian calendar (`calendar.isleap`). */
  predicate IsLeapYear(year: int) {
    year % 4 == 0 && (year % 100 != 0 || year % 400 == 0)
  }

  /** The second component of `calendar.monthrange(year, month)`. */
  function DaysInMonth(year: int, month: int): (n: int)
    requires 1 <= month <= 12
    ensures 28 <= n <= 31
    ensures month == 2 <==> n < 30
    ensures month == 2 ==> (n == 29 <==> IsLeapYear(year))
    ensures month in {4, 6, 9, 11} <==> n == 30
  {
    if month == 2 then (if IsLeapYear(year) then 29 else 28)
    else if month in {4, 6, 9, 11} then 30
    else 31
  }

  /** The years `datetime.date` accepts: `MINYEAR` (1) to `MAXYEAR` (9999). */
  predicate ValidYear(year: int) {
    1 <= year <= 9999
  }

  /** A triple `datetime.date(year, month, day)` accepts without raising. */
  predicate ValidDate(d: Date) {
    && ValidYear(d.year)
    && 1 <= d.month <= 12
    && 1 <= d.day <= DaysInMonth(d.year, d.month)
  }
}
