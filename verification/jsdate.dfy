/** The part of JavaScript's `Date` the calendar relies on: the
    three-argument constructor `new Date(year, month, day)` read back through
    `getFullYear`, `getMonth`, `getDate` and `getDay`. Times of day, time
    zones and the limits of the time value are not part of this model. */
module JsDate {
  import opened Gregorian

  /** ECMAScript's MakeDay: the day number of day `date` of month `month` of
      `year`, where an out-of-range month carries into the year and an
      out-of-range day carries into neighbouring months. */
  function MakeDay(year: int, month: int, date: int): int {
    var ym := year + month / 12;
    var mn := month % 12;
    DayNumber(Date(ym, mn, 1)) + date - 1
  }

  /** The year the constructor actually uses: `new Date(y, m, d)` reads a
      year from 0 to 99 as 1900 + y. */
  function FullYear(y: int): (r: int)
    ensures 0 <= y <= 99 ==> r == 1900 + y
    ensures !(0 <= y <= 99) ==> r == y
  {
    if 0 <= y <= 99 then 1900 + y else y
  }

  /** The calendar day `d` of month `m` of year `y` with the year taken as
      written, normalising the month and day as `new Date` does. */
  function MakeDate(y: int, m: int, d: int): (r: Date)
    ensures Valid(r)
  {
    FromDayNumber(MakeDay(y, m, d))
  }

  /** `new Date(y, m, d)`, as the constructor behaves: always a day that
      exists, and day `d` of month `m` of the year the constructor uses
      whenever that day exists. */
  function NewDate(y: int, m: int, d: int): (r: Date)
    ensures Valid(r)
    ensures Valid(Date(FullYear(y), m, d)) ==> r == Date(FullYear(y), m, d)
  {
    if Valid(Date(FullYear(y), m, d)) then
      MakeDateValid(FullYear(y), m, d);
      MakeDate(FullYear(y), m, d)
    else
      MakeDate(FullYear(y), m, d)
  }

  /** For an in-range month, MakeDay numbers the day as the calendar does. */
  lemma MakeDayInRange(y: int, m: int, d: int)
    requires 0 <= m < 12
    ensures MakeDay(y, m, d) == DayNumber(Date(y, m, d))
  {
    assert m / 12 == 0 && m % 12 == m;
  }

  /** Twelve months on is the same month of the next year. */
  lemma MakeDayCarry(y: int, m: int, d: int)
    ensures MakeDay(y, m + 12, d) == MakeDay(y + 1, m, d)
  {
    assert (m + 12) / 12 == m / 12 + 1 && (m + 12) % 12 == m % 12;
  }

  /** A day that exists is constructed as itself. */
  lemma MakeDateValid(y: int, m: int, d: int)
    requires Valid(Date(y, m, d))
    ensures MakeDate(y, m, d) == Date(y, m, d)
  {
    MakeDayInRange(y, m, d);
    DayNumberRoundTrip(Date(y, m, d));
  }

  /** The day before the 1st of the following month is the last day of
      month `m`, including across the turn of the year. */
  lemma DayBeforeNextMonth(y: int, m: int)
    requires 0 <= m < 12
    ensures MakeDay(y, m + 1, 0) == DayNumber(Date(y, m, DaysInMonth(y, m)))
  {
    if m == 11 {
      DayBeforeNewYear(y);
    } else {
      MonthStep(y, m);
      MakeDayInRange(y, m + 1, 0);
    }
  }

  /** Day 0 of month 12 is 31 December. */
  lemma DayBeforeNewYear(y: int)
    ensures MakeDay(y, 12, 0) == DayNumber(Date(y, 11, DaysInMonth(y, 11)))
  {
    assert MakeDay(y, 12, 0) == DayFromYear(y + 1) - 1;
    YearStep(y);
    MonthStep(y, 11);
    MonthsFillYear(y);
  }

  /** Every day of a month is constructed as itself. */
  lemma MonthDays(y: int, m: int)
    requires 0 <= m < 12
    ensures forall d :: 1 <= d <= DaysInMonth(y, m) ==> MakeDate(y, m, d) == Date(y, m, d)
  {
    forall d | 1 <= d <= DaysInMonth(y, m)
      ensures MakeDate(y, m, d) == Date(y, m, d)
    {
      MakeDateValid(y, m, d);
    }
  }

  /** Day 0 of the following month is the last day of month `m`, which is
      how `new Date(y, m + 1, 0).getDate()` yields the month's length. */
  lemma DayZeroIsLastDay(y: int, m: int)
    requires 0 <= m < 12
    ensures MakeDate(y, m + 1, 0) == Date(y, m, DaysInMonth(y, m))
  {
    DayBeforeNextMonth(y, m);
    DayNumberRoundTrip(Date(y, m, DaysInMonth(y, m)));
  }

  /** Outside the years 0 to 99 the constructor takes the year as written. */
  lemma NewDateLiteralYear(y: int, m: int, d: int)
    requires !(0 <= y <= 99)
    ensures NewDate(y, m, d) == MakeDate(y, m, d)
  {
  }

  /** Within the years 0 to 99 the constructor lands in the twentieth
      century: a day that exists in both years is moved 1900 years on. */
  lemma NewDateTwoDigitYear(y: int, m: int, d: int)
    requires 0 <= y <= 99
    requires Valid(Date(1900 + y, m, d))
    ensures NewDate(y, m, d) == Date(1900 + y, m, d)
  {
    MakeDateValid(1900 + y, m, d);
  }
}
