/** The calendar component's state and its transitions: the viewed year and
    month, which start at today's, the previous and next month buttons, and
    the entry whose details are open. */
module Controller {
  import opened Wrappers
  import opened Gregorian
  import opened Entries
  import opened MonthGrid

  /** The component's state: `viewYear`, `viewMonth` (0 for January) and
      the selected entry, if any. */
  datatype View = View(year: int, month0: int, selected: Option<Entry>)

  /** A view of a month that exists. */
  predicate ValidView(v: View) {
    0 <= v.month0 < 12
  }

  /** Months counted from January of year 0: consecutive months have
      consecutive indices. */
  function MonthIndex(v: View): int {
    v.year * 12 + v.month0
  }

  /** The view of month index `k`, an independent description of where
      navigation leads. */
  function AtIndex(k: int, selected: Option<Entry>): (v: View)
    ensures ValidView(v)
    ensures MonthIndex(v) == k
    ensures v.selected == selected
  {
    View(k / 12, k % 12, selected)
  }

  /** The state on first render: today's year and month, nothing selected. */
  function Initial(today: Date): (v: View)
    ensures v.year == today.year && v.month0 == today.month0
    ensures v.selected.None?
    ensures Valid(today) ==> ValidView(v)
  {
    View(today.year, today.month0, None)
  }

  /** `nextMonth`: December rolls over to January of the next year. */
  function Next(v: View): (r: View)
    ensures r.selected == v.selected
    ensures ValidView(v) ==> ValidView(r) && MonthIndex(r) == MonthIndex(v) + 1
  {
    if v.month0 == 11 then v.(year := v.year + 1, month0 := 0)
    else v.(month0 := v.month0 + 1)
  }

  /** `prevMonth`: January rolls back to December of the previous year. */
  function Prev(v: View): (r: View)
    ensures r.selected == v.selected
    ensures ValidView(v) ==> ValidView(r) && MonthIndex(r) == MonthIndex(v) - 1
  {
    if v.month0 == 0 then v.(year := v.year - 1, month0 := 11)
    else v.(month0 := v.month0 - 1)
  }

  /** Clicking an entry opens its details; the viewed month stays. */
  function Select(v: View, e: Entry): (r: View)
    ensures r.year == v.year && r.month0 == v.month0
    ensures r.selected == Some(e)
  {
    v.(selected := Some(e))
  }

  /** Closing the details; the viewed month stays. */
  function Close(v: View): (r: View)
    ensures r.year == v.year && r.month0 == v.month0
    ensures r.selected.None?
  {
    v.(selected := None)
  }

  /** What the user can do. */
  datatype Action = PrevMonth | NextMonth | Open(entry: Entry) | CloseDetails

  function Step(v: View, a: Action): View {
    match a
    case PrevMonth => Prev(v)
    case NextMonth => Next(v)
    case Open(e) => Select(v, e)
    case CloseDetails => Close(v)
  }

  /** The state after the actions `acts`, first one first. */
  function Run(v: View, acts: seq<Action>): View
    decreases |acts|
  {
    if acts == [] then v else Run(Step(v, acts[0]), acts[1..])
  }

  /** The number of months `acts` moves forward, backward moves counting
      negative. */
  function Shift(acts: seq<Action>): (n: int)
    ensures -|acts| <= n <= |acts|
  {
    if acts == [] then 0
    else (match acts[0] case NextMonth => 1 case PrevMonth => -1 case _ => 0) + Shift(acts[1..])
  }

  /** The screen of the viewed month: the viewed month's grid of the loaded
      entries, with a year from 0 to 99 taken literally. The component
      itself draws `BuildAsWritten`, which agrees with it for every other
      year (`DrawnScreen`). */
  function Screen(es: seq<Entry>, v: View, today: Date): MonthView
    requires ValidView(v)
  {
    Build(es, v.year, v.month0, today)
  }

  // ---------------------------------------------------------------- lemmas

  /** Navigation lands exactly where the month index says. */
  lemma NextPrevAtIndex(v: View)
    requires ValidView(v)
    ensures Next(v) == AtIndex(MonthIndex(v) + 1, v.selected)
    ensures Prev(v) == AtIndex(MonthIndex(v) - 1, v.selected)
  {
    MonthIndexInjective(Next(v), AtIndex(MonthIndex(v) + 1, v.selected));
    MonthIndexInjective(Prev(v), AtIndex(MonthIndex(v) - 1, v.selected));
  }

  /** A valid view is determined by its month index and its selection. */
  lemma MonthIndexInjective(v: View, w: View)
    requires ValidView(v) && ValidView(w)
    requires MonthIndex(v) == MonthIndex(w) && v.selected == w.selected
    ensures v == w
  {
    assert v.year == MonthIndex(v) / 12;
    assert w.year == MonthIndex(w) / 12;
  }

  /** The two buttons undo each other. */
  lemma NextPrevInverse(v: View)
    requires ValidView(v)
    ensures Prev(Next(v)) == v
    ensures Next(Prev(v)) == v
  {
  }

  /** Any actions taken from a valid view keep the month between 0 and 11,
      move the month index by their shift and never change it otherwise. */
  lemma {:induction false} RunKeepsValid(v: View, acts: seq<Action>)
    requires ValidView(v)
    ensures ValidView(Run(v, acts))
    ensures MonthIndex(Run(v, acts)) == MonthIndex(v) + Shift(acts)
    decreases |acts|
  {
    if acts != [] {
      RunKeepsValid(Step(v, acts[0]), acts[1..]);
    }
  }

  /** Every state the component reaches from its first render shows a month
      that exists, `Shift` months away from today's, so never more months
      away than there were actions. */
  lemma Reachable(today: Date, acts: seq<Action>)
    requires Valid(today)
    ensures ValidView(Run(Initial(today), acts))
    ensures MonthIndex(Run(Initial(today), acts)) == today.year * 12 + today.month0 + Shift(acts)
    ensures -|acts| <= MonthIndex(Run(Initial(today), acts)) - (today.year * 12 + today.month0) <= |acts|
  {
    RunKeepsValid(Initial(today), acts);
  }

  /** Twelve presses of the next button show the same month a year later. */
  lemma TwelveNext(v: View)
    requires ValidView(v)
    ensures Run(v, seq(12, i => NextMonth)) == v.(year := v.year + 1)
  {
    var acts := seq(12, i => NextMonth);
    assert Shift(acts) == 12 by {
      ShiftAllNext(12);
    }
    RunKeepsValid(v, acts);
    RunKeepsSelection(v, acts);
    MonthIndexInjective(Run(v, acts), v.(year := v.year + 1));
  }

  lemma {:induction false} ShiftAllNext(n: nat)
    ensures Shift(seq(n, i => NextMonth)) == n
  {
    if n > 0 {
      ShiftAllNext(n - 1);
      assert seq(n, i => NextMonth)[1..] == seq(n - 1, i => NextMonth);
    }
  }

  /** Navigation leaves the selection alone. */
  lemma {:induction false} RunKeepsSelection(v: View, acts: seq<Action>)
    requires forall i :: 0 <= i < |acts| ==> acts[i].PrevMonth? || acts[i].NextMonth?
    ensures Run(v, acts).selected == v.selected
    decreases |acts|
  {
    if acts != [] {
      RunKeepsSelection(Step(v, acts[0]), acts[1..]);
    }
  }

  /** Outside the years 0 to 99 the screen is what the component draws. */
  lemma DrawnScreen(es: seq<Entry>, v: View, today: Date)
    requires ValidView(v)
    requires !(0 <= v.year <= 99)
    ensures Screen(es, v, today) == BuildAsWritten(es, v.year, v.month0, today)
  {
  }

  /** On first render today's cell is marked, and when today's year is not
      between 0 and 99 it is marked in the grid the component draws. */
  lemma TodayOnFirstScreen(es: seq<Entry>, today: Date)
    requires Valid(today)
    ensures today.day - 1 < |Screen(es, Initial(today), today).grid.cells|
    ensures Screen(es, Initial(today), today).grid.cells[today.day - 1].isToday
    ensures !(0 <= today.year <= 99) ==>
      BuildAsWritten(es, today.year, today.month0, today).grid.cells[today.day - 1].isToday
  {
  }
}
