/** The month grid the calendar draws: `startPad` empty cells so that the
    1st falls under its weekday, then one cell per day of the month, each
    with its day number, whether it is today and the entries due that day. */
module MonthGrid {
  import opened Gregorian
  import opened JsDate
  import opened Entries

  /** One day of the viewed month: its number and whether it is today. */
  datatype Cell = Cell(day: int, isToday: bool)

  /** The empty cells before the 1st, then the days in order. */
  datatype Grid = Grid(startPad: int, cells: seq<Cell>)

  /** What the component draws for a month: the grid, and `dayEntries`,
      the list of entries of each day, in day order. */
  datatype MonthView = MonthView(grid: Grid, dayEntries: seq<seq<Entry>>)

  /** `isToday(day)`: today's year, month and day of month all equal the
      viewed year, the viewed month and `day`. */
  predicate IsToday(today: Date, viewYear: int, viewMonth: int, day: int) {
    today.year == viewYear && today.month0 == viewMonth && today.day == day
  }

  /** The grid for `viewYear`/`viewMonth` drawn with the days of month
      `viewMonth` of year `dateYear`. */
  function Layout(viewYear: int, viewMonth: int, today: Date, dateYear: int): Grid
    requires 0 <= viewMonth < 12
  {
    var n := DaysInMonth(dateYear, viewMonth);
    Grid(
      Weekday(Date(dateYear, viewMonth, 1)),
      seq(n, i requires 0 <= i < n => Cell(i + 1, IsToday(today, viewYear, viewMonth, i + 1))))
  }

  /** The entries of each day of month `viewMonth` of year `dateYear`. */
  function DayLists(es: seq<Entry>, viewMonth: int, dateYear: int): seq<seq<Entry>>
    requires 0 <= viewMonth < 12
  {
    var n := DaysInMonth(dateYear, viewMonth);
    seq(n, i requires 0 <= i < n => DayEntries(es, Date(dateYear, viewMonth, i + 1)))
  }

  /** The month as the component builds it: its dates come from
      `new Date(viewYear, ...)`, which reads a year from 0 to 99 as
      1900 + viewYear. Each day has its list of entries, the 1st falls in
      one of the seven columns, and outside the years 0 to 99 this is the
      viewed month itself. */
  function BuildAsWritten(es: seq<Entry>, viewYear: int, viewMonth: int, today: Date): (r: MonthView)
    requires 0 <= viewMonth < 12
    ensures |r.dayEntries| == |r.grid.cells|
    ensures 0 <= r.grid.startPad < 7
    ensures !(0 <= viewYear <= 99) ==> r == Build(es, viewYear, viewMonth, today)
  {
    MonthView(Layout(viewYear, viewMonth, today, FullYear(viewYear)), DayLists(es, viewMonth, FullYear(viewYear)))
  }

  /** The viewed month itself, whatever the year. */
  function Build(es: seq<Entry>, viewYear: int, viewMonth: int, today: Date): MonthView
    requires 0 <= viewMonth < 12
  {
    MonthView(Layout(viewYear, viewMonth, today, viewYear), DayLists(es, viewMonth, viewYear))
  }

  /** The grid is what the component computes from JavaScript dates made in
      year `dateYear`: `startPad` is `firstDay.getDay()` and there are
      `lastDay.getDate()` cells. */
  lemma LayoutFromDates(viewYear: int, viewMonth: int, today: Date, dateYear: int)
    requires 0 <= viewMonth < 12
    ensures Layout(viewYear, viewMonth, today, dateYear).startPad == Weekday(MakeDate(dateYear, viewMonth, 1))
    ensures |Layout(viewYear, viewMonth, today, dateYear).cells| == MakeDate(dateYear, viewMonth + 1, 0).day
  {
    MakeDateValid(dateYear, viewMonth, 1);
    DayZeroIsLastDay(dateYear, viewMonth);
  }

  /** `dayEntries` has one list per cell, and list `i` holds the entries due
      on `new Date(dateYear, viewMonth, i + 1)`. */
  lemma DayListsFromDates(es: seq<Entry>, viewMonth: int, dateYear: int)
    requires 0 <= viewMonth < 12
    ensures |DayLists(es, viewMonth, dateYear)| == MakeDate(dateYear, viewMonth + 1, 0).day
    ensures forall i :: 0 <= i < |DayLists(es, viewMonth, dateYear)| ==>
      DayLists(es, viewMonth, dateYear)[i] == DayEntries(es, MakeDate(dateYear, viewMonth, i + 1))
  {
    DayZeroIsLastDay(dateYear, viewMonth);
    var ls := DayLists(es, viewMonth, dateYear);
    forall i | 0 <= i < |ls|
      ensures ls[i] == DayEntries(es, MakeDate(dateYear, viewMonth, i + 1))
    {
      DayListMade(es, viewMonth, dateYear, i);
    }
  }

  lemma DayListMade(es: seq<Entry>, m: int, y: int, i: int)
    requires 0 <= m < 12 && 0 <= i < DaysInMonth(y, m)
    ensures DayLists(es, m, y)[i] == DayEntries(es, MakeDate(y, m, i + 1))
  {
    DayListAt(es, m, y, i);
    SameDay(y, m, i + 1);
  }

  lemma DayListAt(es: seq<Entry>, m: int, y: int, i: int)
    requires 0 <= m < 12 && 0 <= i < DaysInMonth(y, m)
    ensures DayLists(es, m, y)[i] == DayEntries(es, Date(y, m, i + 1))
  {
    var n := DaysInMonth(y, m);
    var f := (k: int) requires 0 <= k < n => DayEntries(es, Date(y, m, k + 1));
    assert DayLists(es, m, y) == seq(n, f);
    assert seq(n, f)[i] == f(i);
  }

  /** Day `d` of a month, constructed, is the same date. */
  lemma SameDay(y: int, m: int, d: int)
    requires 0 <= m < 12 && 1 <= d <= DaysInMonth(y, m)
    ensures MakeDate(y, m, d) == Date(y, m, d)
  {
    MakeDateValid(y, m, d);
  }

  /** The component's month is built from the `new Date(viewYear, ...)`
      values the code creates. */
  lemma AsWrittenFromNewDate(es: seq<Entry>, viewYear: int, viewMonth: int, today: Date)
    requires 0 <= viewMonth < 12
    ensures BuildAsWritten(es, viewYear, viewMonth, today).grid.startPad == Weekday(NewDate(viewYear, viewMonth, 1))
    ensures |BuildAsWritten(es, viewYear, viewMonth, today).grid.cells| == NewDate(viewYear, viewMonth + 1, 0).day
    ensures |BuildAsWritten(es, viewYear, viewMonth, today).dayEntries| == NewDate(viewYear, viewMonth + 1, 0).day
    ensures forall i :: 0 <= i < |BuildAsWritten(es, viewYear, viewMonth, today).dayEntries| ==>
      BuildAsWritten(es, viewYear, viewMonth, today).dayEntries[i] == DayEntries(es, NewDate(viewYear, viewMonth, i + 1))
  {
    LayoutFromDates(viewYear, viewMonth, today, FullYear(viewYear));
    DayListsFromDates(es, viewMonth, FullYear(viewYear));
  }

  /** Each cell shows its own day, and is marked today exactly when today
      is that day of the viewed month. */
  lemma CellsInOrder(es: seq<Entry>, y: int, m: int, today: Date)
    requires 0 <= m < 12
    ensures |Build(es, y, m, today).grid.cells| == DaysInMonth(y, m)
    ensures forall i :: 0 <= i < |Build(es, y, m, today).grid.cells| ==>
      && Build(es, y, m, today).grid.cells[i].day == i + 1
      && (Build(es, y, m, today).grid.cells[i].isToday <==> today == Date(y, m, i + 1))
  {
  }

  /** Cell `i` shows the entries due on its own day. */
  lemma BuildDayEntries(es: seq<Entry>, y: int, m: int, today: Date)
    requires 0 <= m < 12
    ensures |Build(es, y, m, today).dayEntries| == |Build(es, y, m, today).grid.cells|
    ensures forall i :: 0 <= i < |Build(es, y, m, today).dayEntries| ==>
      Build(es, y, m, today).dayEntries[i] == DayEntries(es, Date(y, m, Build(es, y, m, today).grid.cells[i].day))
  {
    CellsInOrder(es, y, m, today);
  }

  /** Drawn after `startPad` empty cells in rows of seven, every day lands
      in the column of its weekday. */
  lemma BuildColumns(es: seq<Entry>, y: int, m: int, today: Date)
    requires 0 <= m < 12
    ensures 0 <= Build(es, y, m, today).grid.startPad < 7
    ensures forall i :: 0 <= i < |Build(es, y, m, today).grid.cells| ==>
      (Build(es, y, m, today).grid.startPad + i) % 7 == Weekday(Date(y, m, Build(es, y, m, today).grid.cells[i].day))
  {
    CellsInOrder(es, y, m, today);
    GridColumns(Build(es, y, m, today).grid, y, m);
  }

  /** A grid padded to the weekday of the 1st whose cells count the days
      up from 1 puts every day in the column of its weekday. */
  lemma GridColumns(g: Grid, y: int, m: int)
    requires 0 <= m < 12
    requires g.startPad == Weekday(Date(y, m, 1))
    requires forall i :: 0 <= i < |g.cells| ==> g.cells[i].day == i + 1
    ensures forall i :: 0 <= i < |g.cells| ==> (g.startPad + i) % 7 == Weekday(Date(y, m, g.cells[i].day))
  {
    forall i | 0 <= i < |g.cells|
      ensures (g.startPad + i) % 7 == Weekday(Date(y, m, g.cells[i].day))
    {
      ColumnOf(y, m, i);
    }
  }

  lemma ColumnOf(y: int, m: int, i: int)
    requires 0 <= m < 12
    ensures (Weekday(Date(y, m, 1)) + i) % 7 == Weekday(Date(y, m, i + 1))
  {
    WeekdayInMonth(y, m, i + 1);
  }

  /** Today is marked in the grid exactly when the viewed month is today's
      month, and then in exactly one cell, the one of today's day. */
  lemma TodayMarkedOnce(es: seq<Entry>, y: int, m: int, today: Date)
    requires 0 <= m < 12
    requires Valid(today)
    ensures (exists i :: 0 <= i < |Build(es, y, m, today).grid.cells| && Build(es, y, m, today).grid.cells[i].isToday)
        <==> today.year == y && today.month0 == m
    ensures forall i, j ::
      (0 <= i < |Build(es, y, m, today).grid.cells| && 0 <= j < |Build(es, y, m, today).grid.cells| &&
       Build(es, y, m, today).grid.cells[i].isToday && Build(es, y, m, today).grid.cells[j].isToday) ==> i == j
  {
    CellsInOrder(es, y, m, today);
    GridToday(Build(es, y, m, today).grid, y, m, today);
  }

  /** A grid of the days of month `m` of year `y` that marks the cell of
      `today` marks it once, and marks nothing when today lies in another
      month. */
  lemma GridToday(g: Grid, y: int, m: int, today: Date)
    requires 0 <= m < 12
    requires Valid(today)
    requires |g.cells| == DaysInMonth(y, m)
    requires forall i :: 0 <= i < |g.cells| ==> (g.cells[i].isToday <==> today == Date(y, m, i + 1))
    ensures (exists i :: 0 <= i < |g.cells| && g.cells[i].isToday) <==> today.year == y && today.month0 == m
    ensures forall i, j :: (0 <= i < |g.cells| && 0 <= j < |g.cells| && g.cells[i].isToday && g.cells[j].isToday) ==> i == j
  {
    if today.year == y && today.month0 == m {
      assert g.cells[today.day - 1].isToday;
    }
  }

  /** February 2024 starts on a Thursday and has 29 cells; February 2023
      has 28. */
  lemma FebruaryGrids(es: seq<Entry>, today: Date)
    ensures Build(es, 2024, 1, today).grid.startPad == 4
    ensures |Build(es, 2024, 1, today).grid.cells| == 29
    ensures |Build(es, 2023, 1, today).grid.cells| == 28
  {
    KnownDays();
  }

  /** In the years 0 to 99 the component draws another year's month:
      February of year 0 has 29 days and starts on a Tuesday, but the
      component draws the 28 days of February 1900, starting on a
      Thursday. */
  lemma AsWrittenYearZero(es: seq<Entry>, today: Date)
    ensures |Build(es, 0, 1, today).grid.cells| == 29
    ensures Build(es, 0, 1, today).grid.startPad == 2
    ensures |BuildAsWritten(es, 0, 1, today).grid.cells| == 28
    ensures BuildAsWritten(es, 0, 1, today).grid.startPad == 4
  {
  }
}
