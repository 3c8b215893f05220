/** The calendar's entries and the list shown for one day: the entries whose
    cron expression fires on that day, ordered by the hour of their
    expression, with entries of the same hour kept in query order. */
module Entries {
  import opened Wrappers
  import opened Gregorian
  import opened Cron

  /** Whether an entry is a recurring cron job or a one-off task. */
  datatype Kind = CronJob | Task

  /** One row of the calendar query. Times are milliseconds since the epoch. */
  datatype Entry = Entry(
    id: string,
    creationTime: int,
    title: string,
    description: string,
    schedule: string,
    cronExpr: string,
    enabled: bool,
    kind: Kind,
    nextRunAt: Option<int>,
    lastRunAt: Option<int>,
    agentId: string)

  /** The entries the calendar works on: the query's rows once it has
      answered, and no entries while it is still loading. */
  function Loaded(answer: Option<seq<Entry>>): (es: seq<Entry>)
    ensures answer.None? ==> es == []
    ensures answer.Some? ==> es == answer.value
  {
    answer.GetOr([])
  }

  /** The sort key of an entry: the hour of its cron expression. */
  function Hour(e: Entry): int {
    HourOf(e.cronExpr)
  }

  // ---------------------------------------------------------------- filter

  /** The elements of `s` satisfying `p`, in their order in `s`
      (`Array.prototype.filter`). */
  function Filter(s: seq<Entry>, p: Entry -> bool): (r: seq<Entry>)
    ensures |r| <= |s|
  {
    if s == [] then []
    else if p(s[0]) then [s[0]] + Filter(s[1..], p)
    else Filter(s[1..], p)
  }

  /** Filtering keeps every satisfying element as often as it occurs and
      drops every other one. */
  lemma {:induction false} FilterCount(s: seq<Entry>, p: Entry -> bool, x: Entry)
    ensures multiset(Filter(s, p))[x] == if p(x) then multiset(s)[x] else 0
  {
    if s != [] {
      FilterCount(s[1..], p, x);
      assert s == [s[0]] + s[1..];
    }
  }

  /** An element is kept exactly when it occurs and satisfies `p`. */
  lemma FilterMembers(s: seq<Entry>, p: Entry -> bool)
    ensures forall x :: x in Filter(s, p) <==> x in s && p(x)
  {
    forall x
      ensures x in Filter(s, p) <==> x in s && p(x)
    {
      FilterCount(s, p, x);
      assert x in Filter(s, p) <==> x in multiset(Filter(s, p));
      assert x in s <==> x in multiset(s);
    }
  }

  // ---------------------------------------------------------------- sort

  predicate SortedBy(s: seq<Entry>, key: Entry -> int) {
    forall i, j :: 0 <= i < j < |s| ==> key(s[i]) <= key(s[j])
  }

  /** Whether an entry's key is `h`. */
  function KeyIs(key: Entry -> int, h: int): Entry -> bool {
    e => key(e) == h
  }

  /** Whether an entry satisfies both `p` and `q`. */
  function Both(p: Entry -> bool, q: Entry -> bool): Entry -> bool {
    e => p(e) && q(e)
  }

  /** The entries of `s` whose key is `h`, in order. */
  function WithKey(s: seq<Entry>, key: Entry -> int, h: int): seq<Entry> {
    Filter(s, KeyIs(key, h))
  }

  /** `x` placed before the first element of `s` whose key is not below
      its own. */
  function Insert(x: Entry, s: seq<Entry>, key: Entry -> int): (r: seq<Entry>)
    ensures |r| == |s| + 1
  {
    if s == [] || key(x) <= key(s[0]) then [x] + s
    else [s[0]] + Insert(x, s[1..], key)
  }

  /** A stable sort by `key`, written as an insertion sort: what
      `Array.prototype.sort` does with the comparator
      `(a, b) => key(a) - key(b)`. */
  function SortBy(s: seq<Entry>, key: Entry -> int): (r: seq<Entry>)
    ensures |r| == |s|
  {
    if s == [] then [] else Insert(s[0], SortBy(s[1..], key), key)
  }

  lemma {:induction false} InsertSorted(x: Entry, s: seq<Entry>, key: Entry -> int)
    requires SortedBy(s, key)
    ensures SortedBy(Insert(x, s, key), key)
  {
    if s != [] && key(x) > key(s[0]) {
      InsertSorted(x, s[1..], key);
      var r := Insert(x, s, key);
      assert r == [s[0]] + Insert(x, s[1..], key);
      assert key(r[1]) >= key(s[0]) by {
        InsertFirst(x, s[1..], key);
      }
    }
  }

  /** The first element after an insertion is either the inserted one or
      the old first one. */
  lemma InsertFirst(x: Entry, s: seq<Entry>, key: Entry -> int)
    ensures Insert(x, s, key)[0] == x || (s != [] && Insert(x, s, key)[0] == s[0])
  {
  }

  lemma {:induction false} InsertMultiset(x: Entry, s: seq<Entry>, key: Entry -> int)
    ensures multiset(Insert(x, s, key)) == multiset{x} + multiset(s)
  {
    if s != [] && key(x) > key(s[0]) {
      InsertMultiset(x, s[1..], key);
      assert s == [s[0]] + s[1..];
    }
  }

  /** Inserting `x` puts it in front of every element of its own key, and
      leaves the other keys' order alone. */
  lemma {:induction false} InsertWithKey(x: Entry, s: seq<Entry>, key: Entry -> int, h: int)
    ensures WithKey(Insert(x, s, key), key, h)
         == if key(x) == h then [x] + WithKey(s, key, h) else WithKey(s, key, h)
  {
    if s != [] && key(x) > key(s[0]) {
      InsertWithKey(x, s[1..], key, h);
    }
  }

  /** The sort keeps exactly the elements it was given. */
  lemma SortMembers(s: seq<Entry>, key: Entry -> int)
    ensures forall x :: x in SortBy(s, key) <==> x in s
  {
    SortPermutes(s, key);
    forall x
      ensures x in SortBy(s, key) <==> x in s
    {
      assert x in SortBy(s, key) <==> x in multiset(SortBy(s, key));
      assert x in s <==> x in multiset(s);
    }
  }

  /** The sort puts the entries in key order. */
  lemma {:induction false} SortSorted(s: seq<Entry>, key: Entry -> int)
    ensures SortedBy(SortBy(s, key), key)
  {
    if s != [] {
      SortSorted(s[1..], key);
      InsertSorted(s[0], SortBy(s[1..], key), key);
    }
  }

  /** The sort neither loses nor duplicates an entry. */
  lemma {:induction false} SortPermutes(s: seq<Entry>, key: Entry -> int)
    ensures multiset(SortBy(s, key)) == multiset(s)
  {
    if s != [] {
      SortPermutes(s[1..], key);
      InsertMultiset(s[0], SortBy(s[1..], key), key);
      assert s == [s[0]] + s[1..];
    }
  }

  /** The sort is stable: entries with the same key keep their order. */
  lemma {:induction false} SortStable(s: seq<Entry>, key: Entry -> int, h: int)
    ensures WithKey(SortBy(s, key), key, h) == WithKey(s, key, h)
  {
    if s != [] {
      SortStable(s[1..], key, h);
      InsertWithKey(s[0], SortBy(s[1..], key), key, h);
    }
  }

  // ---------------------------------------------------------------- a day

  /** Whether entry `e` is due on day `d`. */
  function DueOn(d: Date): Entry -> bool
    requires 0 <= d.month0 < 12
  {
    (e: Entry) => Matches(e.cronExpr, d)
  }

  /** The entries shown for day `d`, as `dayEntries` computes them: the
      entries due that day, sorted by the hour of their expression. */
  function DayEntries(es: seq<Entry>, d: Date): (r: seq<Entry>)
    requires 0 <= d.month0 < 12
    ensures |r| <= |es|
    ensures forall e :: e in r <==> e in es && Matches(e.cronExpr, d)
  {
    FilterMembers(es, DueOn(d));
    SortMembers(Filter(es, DueOn(d)), Hour);
    SortBy(Filter(es, DueOn(d)), Hour)
  }

  /** A day's list holds exactly the entries due that day, each as often as
      the query returned it, whether or not it is enabled. */
  lemma DayEntriesContents(es: seq<Entry>, d: Date)
    requires 0 <= d.month0 < 12
    ensures forall e :: multiset(DayEntries(es, d))[e] == if Matches(e.cronExpr, d) then multiset(es)[e] else 0
    ensures forall e :: e in DayEntries(es, d) <==> e in es && Matches(e.cronExpr, d)
  {
    var f := Filter(es, DueOn(d));
    SortPermutes(f, Hour);
    forall e
      ensures multiset(DayEntries(es, d))[e] == if Matches(e.cronExpr, d) then multiset(es)[e] else 0
    {
      FilterCount(es, DueOn(d), e);
    }
  }

  /** A day's list is in hour order. */
  lemma DayEntriesSorted(es: seq<Entry>, d: Date)
    requires 0 <= d.month0 < 12
    ensures SortedBy(DayEntries(es, d), Hour)
  {
    SortSorted(Filter(es, DueOn(d)), Hour);
  }

  /** The entries of any one hour appear in a day's list in the order the
      query returned them: the list's entries of hour `h` are the query's
      entries that are due that day and have hour `h`. */
  lemma DayEntriesStable(es: seq<Entry>, d: Date, h: int)
    requires 0 <= d.month0 < 12
    ensures WithKey(DayEntries(es, d), Hour, h) == Filter(es, Both(DueOn(d), KeyIs(Hour, h)))
  {
    SortStable(Filter(es, DueOn(d)), Hour, h);
    FilterFilter(es, DueOn(d), KeyIs(Hour, h));
  }

  /** Filtering twice is filtering once by both conditions. */
  lemma {:induction false} FilterFilter(s: seq<Entry>, p: Entry -> bool, q: Entry -> bool)
    ensures Filter(Filter(s, p), q) == Filter(s, Both(p, q))
  {
    if s != [] {
      FilterFilter(s[1..], p, q);
    }
  }

  // ---------------------------------------------------------------- enabled

  /** `s` with every entry's `enabled` flag replaced by `flag(e)`. */
  function Reflag(s: seq<Entry>, flag: Entry -> bool): (r: seq<Entry>)
    ensures |r| == |s|
  {
    seq(|s|, i requires 0 <= i < |s| => s[i].(enabled := flag(s[i])))
  }

  /** Switching entries on or off changes neither which entries a day
      shows nor their order: the day list of the re-flagged entries is the
      re-flagged day list. */
  lemma DayEntriesIgnoreEnabled(es: seq<Entry>, flag: Entry -> bool, d: Date)
    requires 0 <= d.month0 < 12
    ensures DayEntries(Reflag(es, flag), d) == Reflag(DayEntries(es, d), flag)
  {
    FilterReflag(es, flag, DueOn(d));
    SortReflag(Filter(es, DueOn(d)), flag, Hour);
  }

  /** Re-flagging a non-empty list re-flags its head and then its tail. */
  lemma ReflagCons(s: seq<Entry>, flag: Entry -> bool)
    requires s != []
    ensures Reflag(s, flag) == [s[0].(enabled := flag(s[0]))] + Reflag(s[1..], flag)
  {
  }

  lemma {:induction false} FilterReflag(s: seq<Entry>, flag: Entry -> bool, p: Entry -> bool)
    requires forall e :: p(e) == p(e.(enabled := flag(e)))
    ensures Filter(Reflag(s, flag), p) == Reflag(Filter(s, p), flag)
  {
    if s != [] {
      FilterReflag(s[1..], flag, p);
      ReflagCons(s, flag);
    }
  }

  lemma {:induction false} InsertReflag(x: Entry, s: seq<Entry>, flag: Entry -> bool, key: Entry -> int)
    requires forall e :: key(e) == key(e.(enabled := flag(e)))
    ensures Insert(x.(enabled := flag(x)), Reflag(s, flag), key) == Reflag(Insert(x, s, key), flag)
  {
    var fx := x.(enabled := flag(x));
    if s != [] && key(x) > key(s[0]) {
      InsertReflag(x, s[1..], flag, key);
      ReflagCons(s, flag);
      var t := Insert(x, s, key);
      assert t == [s[0]] + Insert(x, s[1..], key);
      ReflagCons(t, flag);
      assert t[1..] == Insert(x, s[1..], key);
    } else {
      ReflagCons([x] + s, flag);
      assert ([x] + s)[1..] == s;
      assert key(fx) == key(x);
    }
  }

  lemma {:induction false} SortReflag(s: seq<Entry>, flag: Entry -> bool, key: Entry -> int)
    requires forall e :: key(e) == key(e.(enabled := flag(e)))
    ensures SortBy(Reflag(s, flag), key) == Reflag(SortBy(s, key), flag)
  {
    if s != [] {
      SortReflag(s[1..], flag, key);
      ReflagCons(s, flag);
      InsertReflag(s[0], SortBy(s[1..], key), flag, key);
    }
  }
}
