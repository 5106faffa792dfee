/** Civil dates and instants. Every instant in this model is a count of
    milliseconds of Moscow wall-clock time (UTC+3, without daylight saving)
    since 1970-01-01 00:00; day numbers follow Python's `date.toordinal`
    (proleptic Gregorian calendar, 0001-01-01 is day 1). */
module Calendar {

  const MsPerSecond: int := 1000
  const MsPerMinute: int := 60000
  const MsPerHour: int := 3600000
  const MsPerDay: int := 86400000

  /** `date(1970, 1, 1).toordinal()`. */
  const EpochOrdinal: int := 719163

  predicate IsLeap(year: int) {
    year % 4 == 0 && (year % 100 != 0 || year % 400 == 0)
  }

  function DaysInMonth(year: int, month: int): (n: int)
    requires 1 <= month <= 12
    ensures 28 <= n <= 31
    ensures month == 2 ==> (n == 29 <==> IsLeap(year))
  {
    if month == 2 then (if IsLeap(year) then 29 else 28)
    else if month == 4 || month == 6 || month == 9 || month == 11 then 30
    else 31
  }

  /** The dates `datetime` accepts: years 1 to 9999 and a day that exists in
      its month. */
  predicate ValidDate(year: int, month: int, day: int) {
    1 <= year <= 9999 && 1 <= month <= 12 && 1 <= day <= DaysInMonth(year, month)
  }

  /** Python's `_days_before_year`. */
  function DaysBeforeYear(year: int): int
    requires year >= 1
  {
    var y := year - 1;
    y * 365 + y / 4 - y / 100 + y / 400
  }

  /** Days of `year` that come before the first of `month` (month 13 gives
      the length of the year). */
  function DaysBeforeMonth(year: int, month: int): (n: int)
    requires 1 <= month <= 13
    ensures n >= 0
  {
    if month == 1 then 0 else DaysBeforeMonth(year, month - 1) + DaysInMonth(year, month - 1)
  }

  /** The twelve months make up a year of 365 days, or 366 in a leap year. */
  lemma YearLength(year: int)
    ensures DaysBeforeMonth(year, 13) == if IsLeap(year) then 366 else 365
  {
    assert DaysBeforeMonth(year, 2) == 31;
    assert DaysBeforeMonth(year, 3) == 31 + DaysInMonth(year, 2);
    assert DaysBeforeMonth(year, 4) == DaysBeforeMonth(year, 3) + 31;
    assert DaysBeforeMonth(year, 5) == DaysBeforeMonth(year, 4) + 30;
    assert DaysBeforeMonth(year, 6) == DaysBeforeMonth(year, 5) + 31;
    assert DaysBeforeMonth(year, 7) == DaysBeforeMonth(year, 6) + 30;
    assert DaysBeforeMonth(year, 8) == DaysBeforeMonth(year, 7) + 31;
    assert DaysBeforeMonth(year, 9) == DaysBeforeMonth(year, 8) + 31;
    assert DaysBeforeMonth(year, 10) == DaysBeforeMonth(year, 9) + 30;
    assert DaysBeforeMonth(year, 11) == DaysBeforeMonth(year, 10) + 31;
    assert DaysBeforeMonth(year, 12) == DaysBeforeMonth(year, 11) + 30;
    assert DaysBeforeMonth(year, 13) == DaysBeforeMonth(year, 12) + 31;
  }

  /** `date(year, month, day).toordinal()`. */
  function Ordinal(year: int, month: int, day: int): int
    requires ValidDate(year, month, day)
  {
    DaysBeforeYear(year) + DaysBeforeMonth(year, month) + day
  }

  /** The instant of local midnight at the start of a date. */
  function Midnight(year: int, month: int, day: int): int
    requires ValidDate(year, month, day)
  {
    (Ordinal(year, month, day) - EpochOrdinal) * MsPerDay
  }

  /** An instant at local midnight. */
  predicate IsMidnight(t: int) {
    t % MsPerDay == 0
  }

  /** An instant at the last second of a local day (23:59:00.000 plus 59
      seconds). */
  predicate IsLastSecond(t: int) {
    t % MsPerDay == MsPerDay - MsPerSecond
  }

  /** A whole number of days is a local midnight. */
  lemma WholeDays(k: int)
    ensures IsMidnight(k * MsPerDay)
  {
  }

  /** One second before a whole number of days is the last second of a day. */
  lemma WholeDaysLastSecond(k: int)
    ensures IsLastSecond(k * MsPerDay + MsPerDay - MsPerSecond)
  {
  }

  /** Lexicographic order on (month, day) within one year. */
  predicate DayMonthBefore(m1: int, d1: int, m2: int, d2: int) {
    m1 < m2 || (m1 == m2 && d1 < d2)
  }

  lemma {:induction false} DaysBeforeLaterMonth(year: int, m1: int, m2: int)
    requires 1 <= m1 < m2 <= 13
    decreases m2
    ensures DaysBeforeMonth(year, m2) >= DaysBeforeMonth(year, m1) + DaysInMonth(year, m1)
  {
    if m2 > m1 + 1 {
      DaysBeforeLaterMonth(year, m1, m2 - 1);
    }
  }

  /** Within one year, a date that comes earlier in the calendar has an
      earlier midnight, and the same date the same midnight. */
  lemma MidnightMonotone(year: int, m1: int, d1: int, m2: int, d2: int)
    requires ValidDate(year, m1, d1) && ValidDate(year, m2, d2)
    ensures DayMonthBefore(m1, d1, m2, d2) <==> Ordinal(year, m1, d1) < Ordinal(year, m2, d2)
    ensures DayMonthBefore(m1, d1, m2, d2) <==> Midnight(year, m1, d1) < Midnight(year, m2, d2)
    ensures (m1 == m2 && d1 == d2) <==> Midnight(year, m1, d1) == Midnight(year, m2, d2)
  {
    if m1 < m2 {
      DaysBeforeLaterMonth(year, m1, m2);
    } else if m2 < m1 {
      DaysBeforeLaterMonth(year, m2, m1);
    }
  }
}
