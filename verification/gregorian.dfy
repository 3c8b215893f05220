/** The proleptic Gregorian calendar that JavaScript's `Date` implements:
    leap years, month lengths, the numbering of days from 1 January 1970,
    its inverse, and the day of the week. */
module Gregorian {

  /** A calendar day; `month0` counts from 0 (January) as `Date.getMonth()`
      does, `day` from 1 as `Date.getDate()` does. */
  datatype Date = Date(year: int, month0: int, day: int)

  predicate IsLeapYear(y: int) {
    y % 4 == 0 && (y % 100 != 0 || y % 400 == 0)
  }

  function DaysInYear(y: int): int {
    if IsLeapYear(y) then 366 else 365
  }

  /** The length of month `month0` of year `y`. */
  function DaysInMonth(y: int, month0: int): (n: int)
    requires 0 <= month0 < 12
    ensures 28 <= n <= 31
  {
    if month0 == 1 then (if IsLeapYear(y) then 29 else 28)
    else if month0 == 3 || month0 == 5 || month0 == 8 || month0 == 10 then 30
    else 31
  }

  /** A day that exists: a month from 0 to 11 and a day within its length. */
  predicate Valid(d: Date) {
    0 <= d.month0 < 12 && 1 <= d.day <= DaysInMonth(d.year, d.month0)
  }

  /** Days in the months of year `y` before month `month0`, as ECMAScript's
      DayWithinYear table lists them: a common year's running totals plus
      the leap day from March on. */
  function DaysBeforeMonth(y: int, month0: int): (n: int)
    requires 0 <= month0 <= 12
    ensures n >= 0
  {
    var common :=
      if month0 == 0 then 0 else if month0 == 1 then 31 else if month0 == 2 then 59
      else if month0 == 3 then 90 else if month0 == 4 then 120 else if month0 == 5 then 151
      else if month0 == 6 then 181 else if month0 == 7 then 212 else if month0 == 8 then 243
      else if month0 == 9 then 273 else if month0 == 10 then 304 else if month0 == 11 then 334
      else 365;
    common + (if month0 >= 2 && IsLeapYear(y) then 1 else 0)
  }

  /** Each month starts where the previous one ends. */
  lemma MonthStep(y: int, m: int)
    requires 0 <= m < 12
    ensures DaysBeforeMonth(y, m + 1) == DaysBeforeMonth(y, m) + DaysInMonth(y, m)
  {
  }

  /** The twelve months fill the year exactly. */
  lemma MonthsFillYear(y: int)
    ensures DaysBeforeMonth(y, 12) == DaysInYear(y)
  {
  }

  /** Later months start later. */
  lemma DaysBeforeMonthMonotone(y: int, a: int, b: int)
    requires 0 <= a <= b <= 12
    ensures DaysBeforeMonth(y, a) + 28 * (b - a) <= DaysBeforeMonth(y, b)
  {
  }

  /** Day number of 1 January of year `y`, counting 1 January 1970 as day 0:
      ECMAScript's DayFromYear, with `/` rounding towards minus infinity as
      Dafny's Euclidean division does for a positive divisor. */
  function DayFromYear(y: int): int {
    365 * (y - 1970) + (y - 1969) / 4 - (y - 1901) / 100 + (y - 1601) / 400
  }

  /** Consecutive years start `DaysInYear` days apart. */
  lemma YearStep(y: int)
    ensures DayFromYear(y + 1) == DayFromYear(y) + DaysInYear(y)
  {
    FloorStep4(y);
    FloorStep100(y);
    FloorStep400(y);
    if y % 100 == 0 {
      Div100Div4(y);
    }
    if y % 400 == 0 {
      Div400Div100(y);
    }
  }

  lemma Div100Div4(y: int)
    requires y % 100 == 0
    ensures y % 4 == 0
  {
    var k := y / 100;
    assert y == 4 * (25 * k);
  }

  lemma Div400Div100(y: int)
    requires y % 400 == 0
    ensures y % 100 == 0
  {
    var k := y / 400;
    assert y == 100 * (4 * k);
  }

  lemma FloorStep4(y: int)
    ensures (y - 1968) / 4 == (y - 1969) / 4 + (if y % 4 == 0 then 1 else 0)
  {
  }

  lemma FloorStep100(y: int)
    ensures (y - 1900) / 100 == (y - 1901) / 100 + (if y % 100 == 0 then 1 else 0)
  {
  }

  lemma FloorStep400(y: int)
    ensures (y - 1600) / 400 == (y - 1601) / 400 + (if y % 400 == 0 then 1 else 0)
  {
  }

  /** Every year starts between 365 and 366 days per year after an earlier one. */
  lemma {:induction false} YearMonotone(a: int, b: int)
    requires a <= b
    ensures DayFromYear(a) + 365 * (b - a) <= DayFromYear(b) <= DayFromYear(a) + 366 * (b - a)
    decreases b - a
  {
    if a < b {
      YearMonotone(a, b - 1);
      YearStep(b - 1);
    }
  }

  /** The number of `d` counting 1 January 1970 as day 0 (ECMAScript's
      MakeDay for an in-range month). */
  function DayNumber(d: Date): int
    requires 0 <= d.month0 < 12
  {
    DayFromYear(d.year) + DayOfYear(d)
  }

  /** The position of `d` within its year, counting 1 January as 0. */
  function DayOfYear(d: Date): int
    requires 0 <= d.month0 < 12
  {
    DaysBeforeMonth(d.year, d.month0) + d.day - 1
  }

  /** The day of the week of `d`, 0 for Sunday to 6 for Saturday
      (`Date.getDay()`); 1 January 1970 was a Thursday. */
  function Weekday(d: Date): (w: int)
    requires 0 <= d.month0 < 12
    ensures 0 <= w < 7
  {
    (DayNumber(d) + 4) % 7
  }

  // ---------------------------------------------------------------- inverse

  /** The year containing day number `n`, searched upwards from `y`. */
  function YearSearch(n: int, y: int): (r: int)
    requires DayFromYear(y) <= n
    ensures DayFromYear(r) <= n < DayFromYear(r + 1)
    decreases n - DayFromYear(y)
  {
    YearStep(y);
    if n < DayFromYear(y + 1) then y else YearSearch(n, y + 1)
  }

  /** The year containing day number `n`. */
  function YearOfDay(n: int): (y: int)
    ensures DayFromYear(y) <= n < DayFromYear(y + 1)
  {
    var k := (if n < 0 then -n else n) / 365 + 1;
    YearMonotone(1970 - k, 1970);
    YearSearch(n, 1970 - k)
  }

  /** The month of year `y` containing day `doy` of that year, searched
      upwards from `m`. */
  function MonthSearch(y: int, doy: int, m: int): (r: int)
    requires 0 <= m < 12
    requires DaysBeforeMonth(y, m) <= doy < DaysInYear(y)
    ensures m <= r < 12
    ensures DaysBeforeMonth(y, r) <= doy < DaysBeforeMonth(y, r + 1)
    decreases 12 - m
  {
    if doy < DaysBeforeMonth(y, m + 1) then m
    else
      MonthsFillYear(y);
      MonthSearch(y, doy, m + 1)
  }

  /** The calendar day with number `n` (ECMAScript's YearFromTime,
      MonthFromTime and DateFromTime). */
  function FromDayNumber(n: int): (d: Date)
    ensures Valid(d)
    ensures DayNumber(d) == n
  {
    var y := YearOfDay(n);
    YearStep(y);
    var doy := n - DayFromYear(y);
    var m := MonthSearch(y, doy, 0);
    MonthStep(y, m);
    Date(y, m, doy - DaysBeforeMonth(y, m) + 1)
  }

  /** Only one year contains a given day number. */
  lemma YearUnique(n: int, y: int, z: int)
    requires DayFromYear(y) <= n < DayFromYear(y + 1)
    requires DayFromYear(z) <= n < DayFromYear(z + 1)
    ensures y == z
  {
    if y < z {
      YearMonotone(y + 1, z);
    } else if z < y {
      YearMonotone(z + 1, y);
    }
  }

  /** Only one month of a year contains a given day of that year. */
  lemma MonthUnique(y: int, doy: int, m: int, k: int)
    requires 0 <= m < 12 && 0 <= k < 12
    requires DaysBeforeMonth(y, m) <= doy < DaysBeforeMonth(y, m + 1)
    requires DaysBeforeMonth(y, k) <= doy < DaysBeforeMonth(y, k + 1)
    ensures m == k
  {
    if m < k {
      DaysBeforeMonthMonotone(y, m + 1, k);
    } else if k < m {
      DaysBeforeMonthMonotone(y, k + 1, m);
    }
  }

  /** A valid day lies inside its own year and month. */
  lemma DayNumberBounds(d: Date)
    requires Valid(d)
    ensures DayFromYear(d.year) <= DayNumber(d) < DayFromYear(d.year + 1)
  {
    YearStep(d.year);
    MonthsFillYear(d.year);
    MonthStep(d.year, d.month0);
    DaysBeforeMonthMonotone(d.year, d.month0 + 1, 12);
  }

  /** The year of a valid day's number is the day's year. */
  lemma YearOfDayNumber(d: Date)
    requires Valid(d)
    ensures YearOfDay(DayNumber(d)) == d.year
  {
    DayNumberBounds(d);
    YearOfDayIs(DayNumber(d), d.year);
  }

  /** The year containing day number `n` is the one whose days bracket it. */
  lemma YearOfDayIs(n: int, y: int)
    requires DayFromYear(y) <= n < DayFromYear(y + 1)
    ensures YearOfDay(n) == y
  {
    YearUnique(n, y, YearOfDay(n));
  }

  /** A valid day falls within its own month of the year. */
  lemma DayInMonth(d: Date)
    requires Valid(d)
    ensures DaysBeforeMonth(d.year, d.month0) <= DayOfYear(d) < DaysBeforeMonth(d.year, d.month0 + 1)
  {
    MonthStep(d.year, d.month0);
  }

  /** Two different valid days have different numbers. */
  lemma DayNumberInjective(d: Date, e: Date)
    requires Valid(d) && Valid(e)
    requires DayNumber(d) == DayNumber(e)
    ensures d == e
  {
    YearOfDayNumber(d);
    YearOfDayNumber(e);
    SameYearInjective(d, e);
  }

  /** Two valid days of one year at the same position in it are equal. */
  lemma SameYearInjective(d: Date, e: Date)
    requires Valid(d) && Valid(e)
    requires d.year == e.year && DayOfYear(d) == DayOfYear(e)
    ensures d == e
  {
    DayInMonth(d);
    DayInMonth(e);
    MonthUnique(d.year, DayOfYear(d), d.month0, e.month0);
  }

  /** Numbering the days of the calendar is a bijection: a valid day is
      recovered from its number. */
  lemma DayNumberRoundTrip(d: Date)
    requires Valid(d)
    ensures FromDayNumber(DayNumber(d)) == d
  {
    DayNumberInjective(FromDayNumber(DayNumber(d)), d);
  }

  /** Within a month the day of the week advances by one each day, so the
      weekday of day `d` is fixed by the weekday of the 1st. */
  lemma WeekdayInMonth(y: int, month0: int, day: int)
    requires 0 <= month0 < 12
    ensures Weekday(Date(y, month0, day)) == (Weekday(Date(y, month0, 1)) + day - 1) % 7
  {
    var n := DayNumber(Date(y, month0, 1));
    assert DayNumber(Date(y, month0, day)) == n + day - 1;
    ModAdd7(n + 4, day - 1);
  }

  lemma ModAdd7(a: int, b: int)
    ensures (a + b) % 7 == (a % 7 + b) % 7
  {
  }

  /** February 2024 has 29 days and starts on a Thursday,
      February 2023 has 28, and 1 January 1970 was a Thursday. */
  lemma KnownDays()
    ensures DaysInMonth(2024, 1) == 29 && DaysInMonth(2023, 1) == 28
    ensures Weekday(Date(2024, 1, 1)) == 4
    ensures Weekday(Date(1970, 0, 1)) == 4
    ensures !IsLeapYear(1900) && IsLeapYear(2000) && IsLeapYear(0)
  {
  }
}
