/** The calendar's day-level reading of five-field cron expressions
    (`minute hour day-of-month month day-of-week`): whether an expression
    fires on a given day, and the hour used to order a day's entries.
    Ranges (`1-5`) and step values (`*` followed by a slash) are not understood by the calendar and
    are read as `parseInt` reads them. */
module Cron {
  import opened Wrappers
  import opened Text
  import opened Gregorian

  /** The fields of an expression: `expr.trim().split(/\s+/)`. */
  function Fields(expr: string): seq<string> {
    SplitSpaces(Trim(expr))
  }

  /** The month field admits month `month0` (counted from 0): `*`, or a field
      that `parseInt` reads as `month0 + 1`. A field `parseInt` cannot read
      admits no month. */
  predicate MonthAccepts(field: string, month0: int) {
    field == "*" || ParseInt(field) == Some(month0 + 1)
  }

  /** The values of a comma-separated day-of-week list, each piece trimmed
      and read by `parseInt`. */
  function DowValues(field: string): seq<Option<int>> {
    var ps := SplitOn(field, ',');
    seq(|ps|, k requires 0 <= k < |ps| => ParseInt(Trim(ps[k])))
  }

  /** The day-of-week field admits weekday `w` (0 for Sunday): `*`, or a
      comma-separated list one of whose pieces reads as `w`. */
  predicate DowAccepts(field: string, w: int) {
    field == "*" || Some(w) in DowValues(field)
  }

  /** The day-of-month field admits day `day`: `*`, or a field that reads as
      `day`. */
  predicate DomAccepts(field: string, day: int) {
    field == "*" || ParseInt(field) == Some(day)
  }

  /** `cronMatchesDate(expr, d)`: the expression has exactly five fields and
      its month, day-of-week and day-of-month fields all admit `d`. The
      minute and hour fields play no part. */
  predicate Matches(expr: string, d: Date): (b: bool)
    requires 0 <= d.month0 < 12
    ensures b ==> |Fields(expr)| == 5
    ensures b && Fields(expr)[3] != "*" ==> ParseInt(Fields(expr)[3]) == Some(d.month0 + 1)
    ensures b && Fields(expr)[4] != "*" ==> Some(Weekday(d)) in DowValues(Fields(expr)[4])
    ensures b && Fields(expr)[2] != "*" ==> ParseInt(Fields(expr)[2]) == Some(d.day)
    ensures |Fields(expr)| == 5 && Fields(expr)[2] == "*" && Fields(expr)[3] == "*" && Fields(expr)[4] == "*" ==> b
  {
    var f := Fields(expr);
    && |f| == 5
    && MonthAccepts(f[3], d.month0)
    && DowAccepts(f[4], Weekday(d))
    && DomAccepts(f[2], d.day)
  }

  /** `getCronHour(expr)`: the hour field read by `parseInt`, or 0 when there
      is no hour field or it does not read as a number. */
  function HourOf(expr: string): (h: int)
    ensures h != 0 ==> |Fields(expr)| >= 2 && ParseInt(Fields(expr)[1]) == Some(h)
    ensures |Fields(expr)| >= 2 && ParseInt(Fields(expr)[1]).Some? ==> h == ParseInt(Fields(expr)[1]).value
  {
    var f := Fields(expr);
    if |f| >= 2 then ParseInt(f[1]).GetOr(0) else 0
  }

  // ---------------------------------------------------------------- reference

  /** A numeric cron field: the wildcard or one number. */
  datatype Field = Any | Value(n: int)

  /** A day-of-week field: the wildcard or a list of weekday numbers. */
  datatype DowField = AnyDay | Days(days: seq<int>)

  /** An expression as the calendar understands it: the minute and hour
      fields as written, the other three as numbers. */
  datatype CronSpec = CronSpec(minute: string, hour: string, dom: Field, month: Field, dow: DowField)

  predicate WellFormed(c: CronSpec) {
    IsWord(c.minute) && IsWord(c.hour) && (c.dow.Days? ==> |c.dow.days| >= 1)
  }

  function FieldText(f: Field): string {
    match f
    case Any => "*"
    case Value(n) => FormatInt(n)
  }

  function Numerals(ns: seq<int>): (r: seq<string>)
    ensures |r| == |ns|
  {
    seq(|ns|, k requires 0 <= k < |ns| => FormatInt(ns[k]))
  }

  function DowText(f: DowField): string {
    match f
    case AnyDay => "*"
    case Days(ds) => JoinWith(Numerals(ds), ',')
  }

  function FieldTexts(c: CronSpec): seq<string> {
    [c.minute, c.hour, FieldText(c.dom), FieldText(c.month), DowText(c.dow)]
  }

  /** The expression written with single spaces between the fields. */
  function Format(c: CronSpec): string {
    JoinWith(FieldTexts(c), ' ')
  }

  /** When the expression fires, stated on the numbers directly. */
  predicate Fires(c: CronSpec, d: Date)
    requires 0 <= d.month0 < 12
  {
    && (c.month.Any? || c.month.n == d.month0 + 1)
    && (c.dow.AnyDay? || Weekday(d) in c.dow.days)
    && (c.dom.Any? || c.dom.n == d.day)
  }

  // ---------------------------------------------------------------- lemmas

  /** Words joined with single spaces split back into the same words. */
  lemma FieldsOfJoin(ws: seq<string>)
    requires |ws| >= 1
    requires forall k :: 0 <= k < |ws| ==> IsWord(ws[k])
    ensures Fields(JoinWith(ws, ' ')) == ws
  {
    TrimJoinSpaces(ws);
    SplitJoinSpaces(ws);
  }

  /** Words separated by any non-empty whitespace runs, with whitespace of
      any length before and after, split back into the same words. */
  lemma FieldsOfGaps(lead: string, ws: seq<string>, gs: seq<string>, trail: string)
    requires |ws| >= 1 && |gs| == |ws| - 1
    requires forall k :: 0 <= k < |ws| ==> IsWord(ws[k])
    requires forall k :: 0 <= k < |gs| ==> IsGap(gs[k])
    requires Blank(lead) && Blank(trail)
    ensures Fields(lead + JoinGaps(ws, gs) + trail) == ws
  {
    JoinGapsTrimmed(ws, gs);
    TrimPadded(lead, JoinGaps(ws, gs), trail);
    SplitJoinGaps(ws, gs);
  }

  /** A number field reads back as its number. */
  lemma ParseNumeral(n: int)
    ensures ParseInt(FormatInt(n)) == Some(n)
  {
    ParseIntFormatted(n, []);
    assert FormatInt(n) + [] == FormatInt(n);
  }

  lemma FieldTextWord(f: Field)
    ensures IsWord(FieldText(f))
    ensures f.Value? ==> FieldText(f) != "*" && ParseInt(FieldText(f)) == Some(f.n)
  {
    if f.Value? {
      FormatIntToken(f.n);
      assert FieldText(f)[0] in FieldText(f);
      ParseNumeral(f.n);
    }
  }

  /** A formatted weekday list reads back as the list: a weekday is among
      the values read exactly when it is in the list. */
  lemma DowValuesOfList(ds: seq<int>)
    requires |ds| >= 1
    ensures |DowValues(JoinWith(Numerals(ds), ','))| == |ds|
    ensures forall w :: Some(w) in DowValues(JoinWith(Numerals(ds), ',')) <==> w in ds
  {
    var ns := Numerals(ds);
    forall k | 0 <= k < |ns|
      ensures ',' !in ns[k]
    {
      FormatIntToken(ds[k]);
    }
    SplitJoinOn(ns, ',');
    var vs := DowValues(JoinWith(ns, ','));
    forall k | 0 <= k < |ns|
      ensures vs[k] == Some(ds[k])
    {
      FormatIntToken(ds[k]);
      TrimmedAlready(ns[k]);
      ParseNumeral(ds[k]);
    }
    forall w
      ensures Some(w) in vs <==> w in ds
    {
      if w in ds {
        var k :| 0 <= k < |ds| && ds[k] == w;
        assert vs[k] == Some(w);
      }
    }
  }

  lemma DowTextWord(f: DowField)
    requires f.Days? ==> |f.days| >= 1
    ensures IsWord(DowText(f))
    ensures f.Days? ==> DowText(f) != "*"
    ensures f.Days? ==> forall w :: Some(w) in DowValues(DowText(f)) <==> w in f.days
  {
    if f.Days? {
      var ns := Numerals(f.days);
      forall k | 0 <= k < |ns|
        ensures IsWord(ns[k])
      {
        FormatIntToken(f.days[k]);
      }
      JoinEnds(ns, ',');
      JoinSpaceFree(ns, ',');
      DowValuesOfList(f.days);
      FormatIntToken(f.days[0]);
      assert DowText(f)[0] == ns[0][0] && ns[0][0] in ns[0];
    }
  }

  /** Joining whitespace-free pieces with a non-space separator gives a
      whitespace-free string. */
  lemma {:induction false} JoinSpaceFree(ps: seq<string>, sep: char)
    requires !IsSpace(sep)
    requires forall k :: 0 <= k < |ps| ==> SpaceFree(ps[k])
    ensures SpaceFree(JoinWith(ps, sep))
    decreases |ps|
  {
    if |ps| > 1 {
      JoinSpaceFree(ps[1..], sep);
    }
  }

  /** A well-formed specification is written as five fields. */
  lemma FieldsOfFormat(c: CronSpec)
    requires WellFormed(c)
    ensures Fields(Format(c)) == FieldTexts(c)
  {
    FieldTextWord(c.dom);
    FieldTextWord(c.month);
    DowTextWord(c.dow);
    FieldsOfJoin(FieldTexts(c));
  }

  /** The calendar's matcher agrees with the reference reading: a written
      expression fires on exactly the days its numbers say. */
  lemma FormatMatches(c: CronSpec, d: Date)
    requires WellFormed(c)
    requires 0 <= d.month0 < 12
    ensures Matches(Format(c), d) <==> Fires(c, d)
  {
    FieldsOfFormat(c);
    FieldTextWord(c.dom);
    FieldTextWord(c.month);
    DowTextWord(c.dow);
  }

  /** `getCronHour` reads a numeral at the head of the hour field: any
      expression whose second field is the numeral of `n`, possibly followed
      by text that `parseInt` stops at, has hour `n`. */
  lemma HourOfNumeral(e: string, n: int, rest: string)
    requires |Fields(e)| >= 2 && Fields(e)[1] == FormatInt(n) + rest
    requires rest == [] || !IsDigit(rest[0])
    requires n == 0 && rest != [] ==> rest[0] != 'x' && rest[0] != 'X'
    ensures HourOf(e) == n
  {
    ParseIntFormatted(n, rest);
  }

  /** An expression with no hour field, or one without a digit, has hour 0. */
  lemma HourOfNoDigits(e: string)
    requires |Fields(e)| >= 2 ==> forall i :: 0 <= i < |Fields(e)[1]| ==> !IsDigit(Fields(e)[1][i])
    ensures HourOf(e) == 0
  {
    if |Fields(e)| >= 2 {
      ParseIntNoDigits(Fields(e)[1]);
    }
  }

  /** The hour field of a written expression is read back when it is a
      numeral, and counts as 0 when it has no digit in it. */
  lemma HourOfFormat(c: CronSpec, h: int)
    requires WellFormed(c)
    requires c.hour == FormatInt(h)
    ensures HourOf(Format(c)) == h
  {
    FieldsOfFormat(c);
    assert Fields(Format(c))[1] == FormatInt(h) + [];
    HourOfNumeral(Format(c), h, []);
  }

  lemma HourOfNoDigitsFormat(c: CronSpec)
    requires WellFormed(c)
    requires forall i :: 0 <= i < |c.hour| ==> !IsDigit(c.hour[i])
    ensures HourOf(Format(c)) == 0
  {
    FieldsOfFormat(c);
    HourOfNoDigits(Format(c));
  }

  /** Only five-field expressions ever match: an expression that splits
      into any other number of fields matches no day. */
  lemma WrongFieldCount(e: string, d: Date)
    requires |Fields(e)| != 5
    requires 0 <= d.month0 < 12
    ensures !Matches(e, d)
  {
  }

  /** For instance, words joined with single spaces split into as many
      fields as there are words, so any number of words other than five
      matches no day. */
  lemma WrongWordCount(ws: seq<string>, d: Date)
    requires |ws| >= 1 && |ws| != 5
    requires forall k :: 0 <= k < |ws| ==> IsWord(ws[k])
    requires 0 <= d.month0 < 12
    ensures |Fields(JoinWith(ws, ' '))| == |ws|
    ensures !Matches(JoinWith(ws, ' '), d)
  {
    FieldsOfJoin(ws);
    WrongFieldCount(JoinWith(ws, ' '), d);
  }

  /** The minute and hour fields do not affect which days match: two
      expressions with as many fields, whose day-of-month, month and
      day-of-week fields agree when there are five, match the same days. */
  lemma MinuteHourIrrelevant(e: string, e2: string, d: Date)
    requires |Fields(e)| == |Fields(e2)|
    requires |Fields(e)| == 5 ==> Fields(e)[2..] == Fields(e2)[2..]
    requires 0 <= d.month0 < 12
    ensures Matches(e, d) == Matches(e2, d)
  {
  }

  /** Written out from a specification, changing only the minute and hour
      leaves the matching days alone. */
  lemma MinuteHourIrrelevantFormat(c: CronSpec, minute: string, hour: string, d: Date)
    requires WellFormed(c) && IsWord(minute) && IsWord(hour)
    requires 0 <= d.month0 < 12
    ensures Matches(Format(c), d) == Matches(Format(c.(minute := minute, hour := hour)), d)
  {
    FormatMatches(c, d);
    FormatMatches(c.(minute := minute, hour := hour), d);
  }

  /** An expression of five fields whose last three are all `*` matches
      every day, whatever its minute and hour and however its fields are
      spaced. */
  lemma StarsMatchEveryDay(e: string, d: Date)
    requires |Fields(e)| == 5
    requires Fields(e)[2] == "*" && Fields(e)[3] == "*" && Fields(e)[4] == "*"
    requires 0 <= d.month0 < 12
    ensures Matches(e, d)
  {
  }

  /** `parseInt` reads only the leading numeral of a field, so a month list
      such as `1,6` admits only its first month, and a bare numeral admits
      its own month. Only after `0` does an `x` change the reading, into a
      hexadecimal prefix. */
  lemma MonthLeadingNumeral(n: int, rest: string, month0: int)
    requires rest == [] || !IsDigit(rest[0])
    requires n == 0 && rest != [] ==> rest[0] != 'x' && rest[0] != 'X'
    ensures MonthAccepts(FormatInt(n) + rest, month0) <==> n == month0 + 1
  {
    ParseIntFormatted(n, rest);
    FormatIntToken(n);
    assert (FormatInt(n) + rest)[0] == FormatInt(n)[0];
  }

  /** A field other than `*` that `parseInt` reads as NaN admits nothing:
      a month or day-of-month field like `JAN` or `L` stops the expression
      from matching any day, and so does a day-of-week field like `MON-FRI`
      none of whose comma-separated pieces reads as a number. */
  lemma UnreadableFieldsNeverMatch(expr: string, d: Date)
    requires 0 <= d.month0 < 12
    requires |Fields(expr)| == 5 ==>
      || (Fields(expr)[3] != "*" && ParseInt(Fields(expr)[3]).None?)
      || (Fields(expr)[2] != "*" && ParseInt(Fields(expr)[2]).None?)
      || (Fields(expr)[4] != "*" && forall v :: v in DowValues(Fields(expr)[4]) ==> v.None?)
    ensures !Matches(expr, d)
  {
  }

  // ---------------------------------------------------------------- examples

  lemma SmallNumerals()
    ensures FormatInt(0) == "0" && FormatInt(1) == "1" && FormatInt(3) == "3"
    ensures FormatInt(5) == "5" && FormatInt(9) == "9" && FormatInt(15) == "15"
    ensures FormatInt(14) == "14" && FormatInt(30) == "30"
  {
    assert FormatNat(15) == FormatNat(1) + [DigitChar(5)];
    assert FormatNat(14) == FormatNat(1) + [DigitChar(4)];
    assert FormatNat(30) == FormatNat(3) + [DigitChar(0)];
  }

  /** Four fields never match, and neither does the empty expression. */
  lemma NoMatchMalformed(e: string, d: Date)
    requires e == "0 9 * *" || e == ""
    requires 0 <= d.month0 < 12
    ensures !Matches(e, d)
  {
    if e == "" {
      assert Fields(e) == [""];
    } else {
      var ws := ["0", "9", "*", "*"];
      assert JoinWith(ws, ' ') == e by {
        assert JoinWith(ws[2..], ' ') == "* *";
      }
      WrongWordCount(ws, d);
    }
  }

  lemma WeekdayListDowText()
    ensures DowText(Days([1, 3, 5])) == "1,3,5"
  {
    SmallNumerals();
    assert Numerals([1, 3, 5]) == ["1", "3", "5"];
    assert JoinWith(["3", "5"], ',') == "3,5";
  }

  lemma WeekdayListText()
    ensures Format(CronSpec("0", "0", Any, Any, Days([1, 3, 5]))) == "0 0 * * 1,3,5"
  {
    var c := CronSpec("0", "0", Any, Any, Days([1, 3, 5]));
    WeekdayListDowText();
    assert FieldTexts(c) == ["0", "0", "*", "*", "1,3,5"];
    WeekdayListJoin(FieldTexts(c));
  }

  lemma WeekdayListJoin(ws: seq<string>)
    requires ws == ["0", "0", "*", "*", "1,3,5"]
    ensures JoinWith(ws, ' ') == "0 0 * * 1,3,5"
  {
    assert JoinWith(ws[2..], ' ') == "* * 1,3,5" by {
      assert JoinWith(ws[3..], ' ') == "* 1,3,5";
    }
  }

  lemma WeekdayListAgrees(e: string, d: Date)
    requires e == "0 0 * * 1,3,5"
    requires 0 <= d.month0 < 12
    ensures Matches(e, d) <==> Fires(CronSpec("0", "0", Any, Any, Days([1, 3, 5])), d)
  {
    FormatMatches(CronSpec("0", "0", Any, Any, Days([1, 3, 5])), d);
    WeekdayListText();
  }

  lemma WeekdayListFires(d: Date)
    requires 0 <= d.month0 < 12
    ensures Fires(CronSpec("0", "0", Any, Any, Days([1, 3, 5])), d) <==> Weekday(d) in {1, 3, 5}
  {
  }

  /** `0 0 * * 1,3,5` fires on Mondays, Wednesdays and Fridays only. */
  lemma WeekdayList(e: string, d: Date)
    requires e == "0 0 * * 1,3,5"
    requires 0 <= d.month0 < 12
    ensures Matches(e, d) <==> Weekday(d) in {1, 3, 5}
  {
    WeekdayListAgrees(e, d);
    WeekdayListFires(d);
  }

  /** `0 9 15 * *` fires on the 15th of every month. */
  lemma DayOfMonthField(e: string, d: Date)
    requires e == "0 9 15 * *"
    requires 0 <= d.month0 < 12
    ensures Matches(e, d) <==> d.day == 15
  {
    var c := CronSpec("0", "9", Value(15), Any, AnyDay);
    DayOfMonthText(c);
    FormatMatches(c, d);
  }

  lemma DayOfMonthText(c: CronSpec)
    requires c == CronSpec("0", "9", Value(15), Any, AnyDay)
    ensures Format(c) == "0 9 15 * *"
  {
    SmallNumerals();
    assert FieldTexts(c) == ["0", "9", "15", "*", "*"];
    assert JoinWith(FieldTexts(c)[2..], ' ') == "15 * *" by {
      assert JoinWith(FieldTexts(c)[3..], ' ') == "* *";
    }
  }

  /** `0 0 * 1,6 *` fires in January only: the month field is read up to
      its comma. */
  lemma MonthListReadsFirst(e: string, d: Date)
    requires e == "0 0 * 1,6 *"
    requires 0 <= d.month0 < 12
    ensures Matches(e, d) <==> d.month0 == 0
  {
    var ws := ["0", "0", "*", "1,6", "*"];
    assert JoinWith(ws, ' ') == e by {
      assert JoinWith(ws[2..], ' ') == "* 1,6 *" by {
        assert JoinWith(ws[3..], ' ') == "1,6 *";
      }
    }
    FieldsOfJoin(ws);
    SmallNumerals();
    MonthLeadingNumeral(1, ",6", d.month0);
    assert FormatInt(1) + ",6" == "1,6";
  }

  /** The hour of `30 14 * * *` is 14. */
  lemma HourOfExample(e: string)
    requires e == "30 14 * * *"
    ensures HourOf(e) == 14
  {
    HourExampleText();
    SmallNumerals();
    HourOfFormat(CronSpec("30", "14", Any, Any, AnyDay), 14);
  }

  lemma HourExampleText()
    ensures Format(CronSpec("30", "14", Any, Any, AnyDay)) == "30 14 * * *"
  {
    var c := CronSpec("30", "14", Any, Any, AnyDay);
    assert FieldTexts(c) == ["30", "14", "*", "*", "*"];
    assert JoinWith(FieldTexts(c)[2..], ' ') == "* * *" by {
      assert JoinWith(FieldTexts(c)[3..], ' ') == "* *";
    }
  }

  /** `bad cron` has an hour field that is not a number, and a one-field
      expression has none: both count as hour 0. */
  lemma HourOfUnreadable(e: string)
    requires e == "bad cron" || e == "30"
    ensures HourOf(e) == 0
  {
    if e == "bad cron" {
      var ws := ["bad", "cron"];
      assert JoinWith(ws, ' ') == e;
      FieldsOfJoin(ws);
      ParseIntNoDigits("cron");
    } else {
      assert JoinWith(["30"], ' ') == e;
      FieldsOfJoin(["30"]);
    }
  }
}
