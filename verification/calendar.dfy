/** Proleptic Gregorian calendar dates, as built by pd.Timestamp(year, month, day). */
module Calendar {

  datatype Date = Date(year: int, month: int, day: int)

  /** Gregorian leap-year rule. */
  predicate IsLeapYear(y: int) {
    y % 4 == 0 && (y % 100 != 0 || y % 400 == 0)
  }

  function DaysInMonth(y: int, m: int): (n: int)
    requires 1 <= m <= 12
    ensures 28 <= n <= 31
    ensures m == 2 ==> (n == 29 <==> IsLeapYear(y))
    ensures m in {4, 6, 9, 11} ==> n == 30
    ensures m in {1, 3, 5, 7, 8, 10, 12} ==> n == 31
  {
    if m == 2 then (if IsLeapYear(y) then 29 else 28)
    else if m == 4 || m == 6 || m == 9 || m == 11 then 30
    else 31
  }

  /** A date that exists in the calendar: month 1..12, day 1..length of that month. */
  predicate ValidDate(d: Date) {
    1 <= d.month <= 12 && 1 <= d.day <= DaysInMonth(d.year, d.month)
  }

  /** pandas' `is_month_start` for a date without a time of day. */
  predicate IsMonthStart(d: Date) {
    d.day == 1
  }

  /** English abbreviated month names, as strftime("%b") gives them in the C locale. */
  function MonthAbbrev(m: int): (s: string)
    requires 1 <= m <= 12
    ensures |s| == 3
    ensures 'A' <= s[0] <= 'Z' && 'a' <= s[1] <= 'z' && 'a' <= s[2] <= 'z'
  {
    ["Jan", "Feb", "Mar", "Apr", "May", "Jun",
     "Jul", "Aug", "Sep", "Oct", "Nov", "Dec"][m - 1]
  }

  lemma MonthAbbrevInjective(m1: int, m2: int)
    requires 1 <= m1 <= 12 && 1 <= m2 <= 12
    requires MonthAbbrev(m1) == MonthAbbrev(m2)
    ensures m1 == m2
  {
  }

  lemma LeapDayExamples()
    ensures ValidDate(Date(2024, 2, 29))
    ensures !ValidDate(Date(2025, 2, 29))
    ensures !ValidDate(Date(1900, 2, 29)) && ValidDate(Date(2000, 2, 29))
    ensures !ValidDate(Date(2025, 4, 31)) && !ValidDate(Date(2025, 13, 1)) && !ValidDate(Date(2025, 1, 0))
  {
  }
}
