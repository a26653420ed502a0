/** The part of JavaScript's `Date` the stats use: local calendar fields,
    `setMonth`, and comparison of two instants. */
module Calendar {

  /** A local date-time as `Date` exposes it: full year, month 0..11, day of
      the month, milliseconds into the day. */
  datatype DateTime = DateTime(year: int, month: int, day: int, msOfDay: int)

  const MsPerDay: int := 86400000

  predicate IsLeapYear(y: int) {
    y % 4 == 0 && (y % 100 != 0 || y % 400 == 0)
  }

  function DaysInMonth(year: int, month: int): (n: int)
    ensures 28 <= n <= 31
    ensures n == 28 <==> month == 1 && !IsLeapYear(year)
  {
    if month == 1 then (if IsLeapYear(year) then 29 else 28)
    else if month == 3 || month == 5 || month == 8 || month == 10 then 30
    else 31
  }

  /** The values a `Date` object can hold. */
  predicate Valid(d: DateTime) {
    0 <= d.month < 12 && 1 <= d.day <= DaysInMonth(d.year, d.month) && 0 <= d.msOfDay < MsPerDay
  }

  /** `d.setMonth(m)`: months beyond 11 carry into the year; a day of the month
      the target month does not have rolls forward into the next month. */
  function SetMonth(d: DateTime, m: int): (r: DateTime)
    ensures r.msOfDay == d.msOfDay
    ensures 1 <= d.day <= 31 && 0 <= d.msOfDay < MsPerDay ==> Valid(r)
    ensures 1 <= d.day <= 31 ==>
      || (r.year * 12 + r.month == d.year * 12 + m && r.day == d.day)
      || (r.year * 12 + r.month == d.year * 12 + m + 1 && 1 <= r.day <= 3)
  {
    var y := d.year + m / 12;
    var mo := m % 12;
    var len := DaysInMonth(y, mo);
    if d.day <= len then DateTime(y, mo, d.day, d.msOfDay)
    else if mo == 11 then DateTime(y + 1, 0, d.day - len, d.msOfDay)
    else DateTime(y, mo + 1, d.day - len, d.msOfDay)
  }

  /** `a < b` on two valid instants: lexicographic on the calendar fields. */
  predicate Before(a: DateTime, b: DateTime) {
    a.year < b.year
    || (a.year == b.year && (a.month < b.month
    || (a.month == b.month && (a.day < b.day
    || (a.day == b.day && a.msOfDay < b.msOfDay)))))
  }

  /** The bound `threeMonthsFromNow` of the stats: `setMonth(now.getMonth() + 3)`. */
  function ThreeMonthsAfter(now: DateTime): (r: DateTime)
    ensures Valid(now) ==> Valid(r) && Before(now, r)
  {
    SetMonth(now, now.month + 3)
  }

  /** The bound is a valid instant strictly after `now`, so the window is never
      empty; it keeps the time of day; it carries into the next year exactly
      when the month is October or later; and it keeps the day of the month
      unless the target month is too short, in which case it lands on day 1..3
      of the month after. */
  lemma ThreeMonthsAfterSpec(now: DateTime)
    requires Valid(now)
    ensures Valid(ThreeMonthsAfter(now))
    ensures Before(now, ThreeMonthsAfter(now))
    ensures ThreeMonthsAfter(now).msOfDay == now.msOfDay
    ensures ThreeMonthsAfter(now).year == if now.month >= 9 then now.year + 1 else now.year
    ensures now.day <= DaysInMonth(ThreeMonthsAfter(now).year, (now.month + 3) % 12) ==>
              ThreeMonthsAfter(now).day == now.day && ThreeMonthsAfter(now).month == (now.month + 3) % 12
    ensures now.day > DaysInMonth(ThreeMonthsAfter(now).year, (now.month + 3) % 12) ==>
              1 <= ThreeMonthsAfter(now).day <= 3 && ThreeMonthsAfter(now).month == (now.month + 4) % 12
  {
    var m := now.month + 3;
    assert m / 12 == (if now.month >= 9 then 1 else 0);
    assert m % 12 == (if now.month >= 9 then now.month - 9 else now.month + 3);
  }

  /** 30 November rolls past a 28-day February to 2 March, ... */
  lemma RollsIntoMarch()
    ensures ThreeMonthsAfter(DateTime(2025, 10, 30, 0)) == DateTime(2026, 2, 2, 0)
  {
    assert !IsLeapYear(2026);
  }

  /** ... and past a leap-year February to 1 March. */
  lemma RollsIntoMarchLeap()
    ensures ThreeMonthsAfter(DateTime(2027, 10, 30, 0)) == DateTime(2028, 2, 1, 0)
  {
    assert IsLeapYear(2028);
  }
}
