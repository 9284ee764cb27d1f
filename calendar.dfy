/** Calendar days and the proleptic Gregorian calendar.

    A `Day` is a year, month and day of month, which is what a JavaScript `Date`
    at local midnight denotes. Days are numbered consecutively from 1970-01-01
    (day number 0) the way ECMAScript's MakeDay numbers them: the days of the
    years before (DayFromYear), then the days of the months before, then the day
    of the month. Comparing two dates compares their day numbers, as JavaScript
    compares time values.

    The date-fns helpers the application calls (addDays, startOfWeek, endOfWeek,
    startOfMonth, endOfMonth, addMonths, addYears, isSameDay, isSameMonth,
    isSameYear, isAfter, isWithinInterval) are defined on top of it. Weeks start
    on Sunday, the library's default. */
module Calendar {

  /** A year, month (1..12) and day of month (1-based). */
  datatype Date = Date(year: int, month: int, day: int)

  /** A calendar day: a date that exists in the proleptic Gregorian calendar. */
  type Day = d: Date | ValidDate(d) witness Date(1970, 1, 1)

  /** The key of a calendar month: a year and a month (1..12). */
  datatype YearMonth = YearMonth(year: int, month: int)

  predicate IsLeapYear(y: int) {
    y % 4 == 0 && (y % 100 != 0 || y % 400 == 0)
  }

  function DaysInMonth(y: int, m: int): (n: int)
    requires 1 <= m <= 12
    ensures 28 <= n <= 31
    ensures n == 29 <==> m == 2 && IsLeapYear(y)
  {
    if m == 2 then (if IsLeapYear(y) then 29 else 28)
    else if m == 4 || m == 6 || m == 9 || m == 11 then 30
    else 31
  }

  predicate ValidDate(d: Date) {
    1 <= d.month <= 12 && 1 <= d.day <= DaysInMonth(d.year, d.month)
  }

  predicate ValidYearMonth(ym: YearMonth) {
    1 <= ym.month <= 12
  }

  function YearLength(y: int): int {
    if IsLeapYear(y) then 366 else 365
  }

  /** Quotient and remainder are the only ones that fit. */
  lemma DivModUnique(y: int, k: int, q: int, r: int)
    requires 0 < k && y == k * q + r && 0 <= r < k
    ensures y / k == q && y % k == r
  {
    var q1, r1 := y / k, y % k;
    assert k * (q - q1) == r1 - r;
    if q > q1 {
      MulAtLeast(k, q - q1);
    } else if q < q1 {
      MulAtLeast(k, q1 - q);
    }
  }

  lemma MulAtLeast(k: int, t: int)
    requires 0 < k && 1 <= t
    ensures k * t >= k
  {
  }

  // ---------------------------------------------------------------------------
  // Day numbers.

  /** Days from 1970-01-01 to the first of January of year `y` (negative before 1970):
      ECMAScript's DayFromYear. */
  function DaysBeforeYear(y: int): int {
    365 * (y - 1970) + (y - 1969) / 4 - (y - 1901) / 100 + (y - 1601) / 400
  }

  /** Days of a common year before the first of month `m`; 365 for month 13. */
  function CommonDaysBeforeMonth(m: int): int
    requires 1 <= m <= 13
  {
    match m
    case 1 => 0
    case 2 => 31
    case 3 => 59
    case 4 => 90
    case 5 => 120
    case 6 => 151
    case 7 => 181
    case 8 => 212
    case 9 => 243
    case 10 => 273
    case 11 => 304
    case 12 => 334
    case _ => 365
  }

  /** Days of year `y` before the first of month `m`; month 13 stands for the next year. */
  function DaysBeforeMonth(y: int, m: int): int
    requires 1 <= m <= 13
  {
    CommonDaysBeforeMonth(m) + (if m > 2 && IsLeapYear(y) then 1 else 0)
  }

  /** Day number of a date: days since 1970-01-01. */
  function DaysFromCivil(d: Day): int {
    DaysBeforeYear(d.year) + DaysBeforeMonth(d.year, d.month) + d.day - 1
  }

  /** A year is as long as its year length. */
  lemma DaysBeforeNextYear(y: int)
    ensures DaysBeforeYear(y + 1) == DaysBeforeYear(y) + YearLength(y)
  {
    FloorStep(y - 1969, 4, 492);
    FloorStep(y - 1901, 100, 19);
    FloorStep(y - 1601, 400, 4);
  }

  /** Moving `x` up by one moves `x / k` up by one exactly when `x + 1` is a multiple of
      `k`, which for `x + 1 == y - k * c` is when `y` is. */
  lemma FloorStep(x: int, k: int, c: int)
    requires 0 < k
    ensures (x + 1) / k - x / k == if (x + 1 + k * c) % k == 0 then 1 else 0
  {
    var q, r := x / k, x % k;
    if r == k - 1 {
      DivModUnique(x + 1, k, q + 1, 0);
      DivModUnique(x + 1 + k * c, k, q + 1 + c, 0);
    } else {
      DivModUnique(x + 1, k, q, r + 1);
      DivModUnique(x + 1 + k * c, k, q + c, r + 1);
    }
  }

  /** The twelve months fill the year. */
  lemma MonthsFillYear(y: int)
    ensures DaysBeforeMonth(y, 13) == YearLength(y)
  {
  }

  /** Later months of a year start after earlier months end. */
  lemma {:induction false} DaysBeforeMonthMonotonic(y: int, a: int, b: int)
    requires 1 <= a < b <= 13
    ensures DaysBeforeMonth(y, a) + DaysInMonth(y, a) <= DaysBeforeMonth(y, b)
    decreases b
  {
    if a + 1 < b {
      DaysBeforeMonthMonotonic(y, a, b - 1);
    }
  }

  /** Later years start after earlier years end. */
  lemma {:induction false} DaysBeforeYearMonotonic(a: int, b: int)
    requires a < b
    ensures DaysBeforeYear(a) + YearLength(a) <= DaysBeforeYear(b)
    decreases b - a
  {
    DaysBeforeNextYear(a);
    if a + 1 < b {
      DaysBeforeYearMonotonic(a + 1, b);
    }
  }

  /** A date's day number lies within its year and within its month. */
  lemma DayNumberWithin(d: Day)
    ensures DaysBeforeYear(d.year) <= DaysFromCivil(d) < DaysBeforeYear(d.year) + YearLength(d.year)
  {
    MonthsFillYear(d.year);
    DaysBeforeMonthMonotonic(d.year, d.month, 13);
    if d.month > 1 {
      DaysBeforeMonthMonotonic(d.year, 1, d.month);
    }
  }

  /** Different dates have different day numbers. */
  lemma DaysFromCivilInjective(a: Day, b: Day)
    ensures DaysFromCivil(a) == DaysFromCivil(b) <==> a == b
  {
    DayNumberWithin(a);
    DayNumberWithin(b);
    if a.year < b.year {
      DaysBeforeYearMonotonic(a.year, b.year);
    } else if b.year < a.year {
      DaysBeforeYearMonotonic(b.year, a.year);
    } else if a.month < b.month {
      DaysBeforeMonthMonotonic(a.year, a.month, b.month);
    } else if b.month < a.month {
      DaysBeforeMonthMonotonic(a.year, b.month, a.month);
    }
  }

  /** Days of one month are consecutive day numbers. */
  lemma DaysFromCivilInMonth(y: int, m: int, day: int)
    requires 1 <= m <= 12 && 1 <= day <= DaysInMonth(y, m)
    ensures DaysFromCivil(Date(y, m, day)) == DaysFromCivil(Date(y, m, 1)) + day - 1
  {
  }

  /** 1970-01-01 is day 0 and was a Thursday; 2000-03-01 is day 11017; 2024-01-01 was a
      Monday. */
  lemma Epoch()
    ensures DaysFromCivil(Date(1970, 1, 1)) == 0 && Weekday(Date(1970, 1, 1)) == 4
    ensures DaysFromCivil(Date(2000, 3, 1)) == 11017
    ensures Weekday(Date(2024, 1, 1)) == 1
  {
  }

  // ---------------------------------------------------------------------------
  // Moving by days, as `Date.prototype.setDate` does when the day of the month
  // runs past either end of the month.

  /** The day after `d`. */
  function NextDay(d: Day): Day {
    if d.day < DaysInMonth(d.year, d.month) then Date(d.year, d.month, d.day + 1)
    else if d.month < 12 then Date(d.year, d.month + 1, 1)
    else Date(d.year + 1, 1, 1)
  }

  /** The day before `d`. */
  function PrevDay(d: Day): Day {
    if d.day > 1 then Date(d.year, d.month, d.day - 1)
    else if d.month > 1 then Date(d.year, d.month - 1, DaysInMonth(d.year, d.month - 1))
    else Date(d.year - 1, 12, 31)
  }

  /** The next day has the next day number. */
  lemma NextDayNumber(d: Day)
    ensures DaysFromCivil(NextDay(d)) == DaysFromCivil(d) + 1
  {
    if d.day == DaysInMonth(d.year, d.month) && d.month == 12 {
      DaysBeforeNextYear(d.year);
      MonthsFillYear(d.year);
    }
  }

  /** Stepping back a day and forward again returns to the same day. */
  lemma NextOfPrevDay(d: Day)
    ensures NextDay(PrevDay(d)) == d
  {
  }

  /** The previous day has the previous day number. */
  lemma PrevDayNumber(d: Day)
    ensures DaysFromCivil(PrevDay(d)) == DaysFromCivil(d) - 1
  {
    NextOfPrevDay(d);
    NextDayNumber(PrevDay(d));
  }

  /** date-fns addDays: `n` days later (earlier when `n` is negative). */
  function AddDays(d: Day, n: int): Day
    decreases if n < 0 then -n else n
  {
    if n == 0 then d
    else if n > 0 then AddDays(NextDay(d), n - 1)
    else AddDays(PrevDay(d), n + 1)
  }

  /** Adding `n` days adds `n` to the day number. */
  lemma {:induction false} AddDaysNumber(d: Day, n: int)
    ensures DaysFromCivil(AddDays(d, n)) == DaysFromCivil(d) + n
    decreases if n < 0 then -n else n
  {
    if n > 0 {
      NextDayNumber(d);
      AddDaysNumber(NextDay(d), n - 1);
    } else if n < 0 {
      PrevDayNumber(d);
      AddDaysNumber(PrevDay(d), n + 1);
    }
  }

  /** One more day after `k` days is the next day. */
  lemma AddDaysStep(d: Day, k: int)
    ensures AddDays(d, k + 1) == NextDay(AddDays(d, k)) == AddDays(AddDays(d, k), 1)
  {
    AddDaysNumber(d, k + 1);
    AddDaysNumber(d, k);
    NextDayNumber(AddDays(d, k));
    DaysFromCivilInjective(AddDays(d, k + 1), NextDay(AddDays(d, k)));
  }

  /** Adding days in two steps is adding them at once. */
  lemma AddDaysAdd(d: Day, a: int, b: int)
    ensures AddDays(AddDays(d, a), b) == AddDays(d, a + b)
  {
    AddDaysNumber(d, a);
    AddDaysNumber(AddDays(d, a), b);
    AddDaysNumber(d, a + b);
    DaysFromCivilInjective(AddDays(AddDays(d, a), b), AddDays(d, a + b));
  }

  // ---------------------------------------------------------------------------
  // Weekdays and weeks (weeks start on Sunday).

  /** Day of the week (`Date.prototype.getDay`): 0 is Sunday, 6 is Saturday. */
  function Weekday(d: Day): (w: int)
    ensures 0 <= w < 7
  {
    (DaysFromCivil(d) + 4) % 7
  }

  /** `n` days on, the weekday has moved `n` places round the week. */
  lemma WeekdayShift(d: Day, n: int)
    ensures DaysFromCivil(AddDays(d, n)) == DaysFromCivil(d) + n
    ensures Weekday(AddDays(d, n)) == (Weekday(d) + n) % 7
  {
    AddDaysNumber(d, n);
    WeekShift(DaysFromCivil(d), n);
  }

  lemma WeekShift(z: int, n: int)
    ensures (z + n + 4) % 7 == ((z + 4) % 7 + n) % 7
  {
    var q := (z + 4) / 7;
    DivModUnique(z + n + 4, 7, q + ((z + 4) % 7 + n) / 7, ((z + 4) % 7 + n) % 7);
  }

  /** date-fns startOfWeek: the Sunday on or before `d`. */
  function StartOfWeek(d: Day): Day {
    AddDays(d, -Weekday(d))
  }

  /** date-fns endOfWeek: the Saturday on or after `d`. */
  function EndOfWeek(d: Day): Day {
    AddDays(d, 6 - Weekday(d))
  }

  /** The week of `d` starts on a Sunday at most six days before it. */
  lemma StartOfWeekBounds(d: Day)
    ensures Weekday(StartOfWeek(d)) == 0
    ensures DaysFromCivil(StartOfWeek(d)) <= DaysFromCivil(d) < DaysFromCivil(StartOfWeek(d)) + 7
  {
    var w := Weekday(d);
    WeekdayShift(d, -w);
    assert StartOfWeek(d) == AddDays(d, -w);
  }

  /** The week of `d` ends on a Saturday at most six days after it. */
  lemma EndOfWeekBounds(d: Day)
    ensures Weekday(EndOfWeek(d)) == 6
    ensures DaysFromCivil(EndOfWeek(d)) - 7 < DaysFromCivil(d) <= DaysFromCivil(EndOfWeek(d))
  {
    var w := Weekday(d);
    WeekdayShift(d, 6 - w);
    assert EndOfWeek(d) == AddDays(d, 6 - w);
  }

  // ---------------------------------------------------------------------------
  // Months and years.

  /** date-fns isSameDay, isSameMonth and isSameYear. */
  predicate SameMonth(a: Day, b: Day) {
    a.year == b.year && a.month == b.month
  }

  predicate SameYear(a: Day, b: Day) {
    a.year == b.year
  }

  /** Comparison of two dates with `<=`: earlier year, or same year and earlier month, or
      same month and earlier or same day. */
  predicate OnOrBefore(a: Day, b: Day) {
    a.year < b.year || (a.year == b.year && (a.month < b.month || (a.month == b.month && a.day <= b.day)))
  }

  /** date-fns isAfter: strictly later. */
  predicate IsAfter(a: Day, b: Day) {
    !OnOrBefore(a, b)
  }

  /** date-fns isWithinInterval over closed bounds. */
  predicate IsWithin(d: Day, first: Day, last: Day) {
    OnOrBefore(first, d) && OnOrBefore(d, last)
  }

  /** Comparing dates field by field orders them as their day numbers (JavaScript's time
      values) do. */
  lemma OnOrBeforeIsDayOrder(a: Day, b: Day)
    ensures OnOrBefore(a, b) <==> DaysFromCivil(a) <= DaysFromCivil(b)
  {
    DayNumberWithin(a);
    DayNumberWithin(b);
    if a.year < b.year {
      DaysBeforeYearMonotonic(a.year, b.year);
    } else if b.year < a.year {
      DaysBeforeYearMonotonic(b.year, a.year);
    } else if a.month < b.month {
      DaysBeforeMonthMonotonic(a.year, a.month, b.month);
    } else if b.month < a.month {
      DaysBeforeMonthMonotonic(a.year, b.month, a.month);
    }
  }

  /** date-fns startOfMonth: the first day of the month of `d`. */
  function StartOfMonth(d: Day): (s: Day)
    ensures SameMonth(s, d) && s.day == 1
  {
    Date(d.year, d.month, 1)
  }

  /** date-fns endOfMonth: the last day of the month of `d`. */
  function EndOfMonth(d: Day): (e: Day)
    ensures SameMonth(e, d) && NextDay(e).day == 1
  {
    Date(d.year, d.month, DaysInMonth(d.year, d.month))
  }

  /** A month is a run of 28 to 31 consecutive days, from its first day to its last. */
  lemma MonthSpan(d: Day)
    ensures DaysFromCivil(EndOfMonth(d)) - DaysFromCivil(StartOfMonth(d)) + 1 == DaysInMonth(d.year, d.month)
    ensures IsWithin(d, StartOfMonth(d), EndOfMonth(d))
  {
    DaysFromCivilInMonth(d.year, d.month, d.day);
    DaysFromCivilInMonth(d.year, d.month, DaysInMonth(d.year, d.month));
  }

  /** A day is in the month of `d` exactly when it lies between that month's first and last day. */
  lemma SameMonthIffWithin(d: Day, x: Day)
    ensures SameMonth(x, d) <==> IsWithin(x, StartOfMonth(d), EndOfMonth(d))
  {
  }

  /** A month's position on a line of consecutive months. */
  function MonthIndex(ym: YearMonth): int {
    ym.year * 12 + ym.month - 1
  }

  /** The month with a given position on that line. */
  function MonthAt(i: int): (ym: YearMonth)
    ensures ValidYearMonth(ym)
    ensures MonthIndex(ym) == i
  {
    YearMonth(i / 12, i % 12 + 1)
  }

  /** The year and month of a day. */
  function YearMonthOf(d: Day): (ym: YearMonth)
    ensures ValidYearMonth(ym)
  {
    YearMonth(d.year, d.month)
  }

  function Min(a: int, b: int): int {
    if a <= b then a else b
  }

  /** date-fns addMonths: the same day of the month `n` months later (earlier when `n` is
      negative), clamped to the last day of the target month. */
  function AddMonths(d: Day, n: int): Day {
    var target := MonthAt(MonthIndex(YearMonthOf(d)) + n);
    Date(target.year, target.month, Min(d.day, DaysInMonth(target.year, target.month)))
  }

  /** date-fns addYears: `n` years later is `12 * n` months later. */
  function AddYears(d: Day, n: int): Day {
    AddMonths(d, 12 * n)
  }

  /** `AddMonths` moves the month by exactly `n` and keeps the day of the month when the
      target month has it, and otherwise lands on that month's last day. */
  lemma AddMonthsShifts(d: Day, n: int)
    ensures MonthIndex(YearMonthOf(AddMonths(d, n))) == MonthIndex(YearMonthOf(d)) + n
    ensures var r := AddMonths(d, n);
            r.day == d.day || (d.day > r.day && r == EndOfMonth(r))
  {
  }

  /** Going back one month after going forward one returns to the same month. */
  lemma PrevAfterNextMonth(d: Day)
    ensures SameMonth(AddMonths(AddMonths(d, 1), -1), d)
  {
    AddMonthsShifts(d, 1);
    AddMonthsShifts(AddMonths(d, 1), -1);
  }

  /** `AddYears` moves the year by exactly `n` and keeps the month. */
  lemma AddYearsShifts(d: Day, n: int)
    ensures AddYears(d, n).year == d.year + n
    ensures AddYears(d, n).month == d.month
  {
    AddMonthsShifts(d, 12 * n);
  }
}
