/** The string primitives the calendar's cron handling is built from, with the
    meaning JavaScript gives them: `String.prototype.trim`, `split(/\s+/)`,
    `split(',')` and the global `parseInt` with no radix argument. */
module Text {
  import opened Wrappers

  /** The characters JavaScript's `trim` removes and the regular-expression
      class `\s` matches: the WhiteSpace and LineTerminator code points. */
  predicate IsSpace(c: char) {
    var n := c as int;
    || 9 <= n <= 13 || n == 0x20 || n == 0xA0 || n == 0x1680
    || 0x2000 <= n <= 0x200A || n == 0x2028 || n == 0x2029 || n == 0x202F
    || n == 0x205F || n == 0x3000 || n == 0xFEFF
  }

  predicate SpaceFree(s: string) {
    forall i :: 0 <= i < |s| ==> !IsSpace(s[i])
  }

  /** A token as `split(/\s+/)` produces it from a trimmed, non-empty string. */
  predicate IsWord(s: string) {
    |s| > 0 && SpaceFree(s)
  }

  /** Neither starts nor ends with whitespace: what `trim` returns. */
  predicate Trimmed(s: string) {
    s == [] || (!IsSpace(s[0]) && !IsSpace(s[|s| - 1]))
  }

  /** `s` with every whitespace character removed: what splitting and trimming
      must leave intact. */
  function Squeeze(s: string): string {
    if s == [] then []
    else if IsSpace(s[0]) then Squeeze(s[1..])
    else [s[0]] + Squeeze(s[1..])
  }

  /** The concatenation of a sequence of strings. */
  function Concat(ss: seq<string>): string {
    if ss == [] then [] else ss[0] + Concat(ss[1..])
  }

  /** The pieces of `ss` joined with one `sep` between neighbours, as
      JavaScript's `Array.prototype.join`. */
  function JoinWith(ss: seq<string>, sep: char): string {
    if ss == [] then []
    else if |ss| == 1 then ss[0]
    else ss[0] + [sep] + JoinWith(ss[1..], sep)
  }

  lemma {:induction false} SqueezeAppend(a: string, b: string)
    ensures Squeeze(a + b) == Squeeze(a) + Squeeze(b)
    decreases |a|
  {
    if a != [] {
      assert (a + b)[1..] == a[1..] + b;
      SqueezeAppend(a[1..], b);
    } else {
      assert a + b == b;
    }
  }

  lemma {:induction false} SqueezeSpaceFree(s: string)
    requires SpaceFree(s)
    ensures Squeeze(s) == s
    decreases |s|
  {
    if s != [] {
      SqueezeSpaceFree(s[1..]);
    }
  }

  // ---------------------------------------------------------------- trim

  /** The number of whitespace characters `s` starts with. */
  function LeadingSpaces(s: string): (k: nat)
    ensures k <= |s|
    ensures forall j :: 0 <= j < k ==> IsSpace(s[j])
    ensures k < |s| ==> !IsSpace(s[k])
  {
    if s == [] || !IsSpace(s[0]) then 0 else 1 + LeadingSpaces(s[1..])
  }

  /** The length of `s` without the whitespace it ends with. */
  function TrailingCut(s: string): (k: nat)
    ensures k <= |s|
    ensures forall j :: k <= j < |s| ==> IsSpace(s[j])
    ensures k > 0 ==> !IsSpace(s[k - 1])
  {
    if s == [] || !IsSpace(s[|s| - 1]) then |s| else TrailingCut(s[..|s| - 1])
  }

  /** `s` without its leading whitespace (JavaScript `trimStart`). */
  function TrimStart(s: string): string {
    s[LeadingSpaces(s)..]
  }

  /** `s` without its trailing whitespace (JavaScript `trimEnd`). */
  function TrimEnd(s: string): string {
    s[..TrailingCut(s)]
  }

  /** JavaScript `trim`. */
  function Trim(s: string): string {
    TrimEnd(TrimStart(s))
  }

  /** Dropping leading whitespace loses no other character. */
  lemma {:induction false} SqueezeDropSpaces(s: string, k: nat)
    requires k <= |s|
    requires forall j :: 0 <= j < k ==> IsSpace(s[j])
    ensures Squeeze(s[k..]) == Squeeze(s)
    decreases k
  {
    if k > 0 {
      SqueezeDropSpaces(s[1..], k - 1);
      assert s[1..][k - 1..] == s[k..];
    }
  }

  /** Dropping trailing whitespace loses no other character. */
  lemma SqueezeTakeSpaces(s: string, k: nat)
    requires k <= |s|
    requires forall j :: k <= j < |s| ==> IsSpace(s[j])
    ensures Squeeze(s[..k]) == Squeeze(s)
  {
    var a, b := s[..k], s[k..];
    assert s == a + b;
    SqueezeAllSpaces(b);
    SqueezeAppend(a, b);
  }

  lemma {:induction false} SqueezeAllSpaces(t: string)
    requires forall j :: 0 <= j < |t| ==> IsSpace(t[j])
    ensures Squeeze(t) == []
    decreases |t|
  {
    if t != [] {
      SqueezeAllSpaces(t[1..]);
    }
  }

  /** What `trim` returns neither starts nor ends with whitespace, keeps
      every other character of the input, and is one stretch of the input
      with nothing but whitespace before and after it. */
  lemma TrimSpec(s: string)
    ensures Trimmed(Trim(s))
    ensures Squeeze(Trim(s)) == Squeeze(s)
    ensures exists i :: Stretch(s, Trim(s), i)
  {
    var t := TrimStart(s);
    SqueezeDropSpaces(s, LeadingSpaces(s));
    SqueezeTakeSpaces(t, TrailingCut(t));
    var r := TrimEnd(t);
    assert r != [] ==> r[0] == t[0];
    TrimStretch(s);
  }

  /** `t` occurs in `s` at index `i`, and `s` has only whitespace before
      and after that occurrence. */
  predicate Stretch(s: string, t: string, i: int) {
    && 0 <= i && i + |t| <= |s| && s[i..i + |t|] == t
    && (forall j :: 0 <= j < i ==> IsSpace(s[j]))
    && (forall j :: i + |t| <= j < |s| ==> IsSpace(s[j]))
  }

  lemma TrimStretch(s: string)
    ensures Stretch(s, Trim(s), LeadingSpaces(s))
  {
    var i := LeadingSpaces(s);
    var t := TrimStart(s);
    var r := TrimEnd(t);
    assert s[i..i + |r|] == r;
    forall j | i + |r| <= j < |s|
      ensures IsSpace(s[j])
    {
      assert s[j] == t[j - i];
    }
  }

  /** A string that neither starts nor ends with whitespace is its own trim. */
  lemma TrimmedAlready(s: string)
    requires Trimmed(s)
    ensures Trim(s) == s
  {
    if s != [] {
      assert LeadingSpaces(s) == 0;
      assert TrimStart(s) == s;
      assert TrailingCut(s) == |s|;
    }
  }

  // ---------------------------------------------------------------- split(/\s+/)

  /** Index of the first whitespace character of `s`, or `|s|` if it has none. */
  function FirstSpace(s: string): (i: nat)
    ensures i <= |s|
    ensures forall j :: 0 <= j < i ==> !IsSpace(s[j])
    ensures i < |s| ==> IsSpace(s[i])
  {
    if s == [] || IsSpace(s[0]) then 0 else 1 + FirstSpace(s[1..])
  }

  lemma FirstSpaceIs(s: string, k: nat)
    requires k <= |s|
    requires forall j :: 0 <= j < k ==> !IsSpace(s[j])
    requires k < |s| ==> IsSpace(s[k])
    ensures FirstSpace(s) == k
  {
  }

  /** JavaScript `s.split(/\s+/)`: the pieces between maximal runs of
      whitespace. A leading (trailing) run yields an empty first (last) piece,
      and the empty string yields the single piece `""`. */
  function SplitSpaces(s: string): (r: seq<string>)
    ensures |r| >= 1
    ensures forall k :: 0 <= k < |r| ==> SpaceFree(r[k])
    decreases |s|
  {
    var i := FirstSpace(s);
    if i == |s| then
      assert s[..i] == s;
      [s]
    else
      [s[..i]] + SplitSpaces(TrimStart(s[i + 1..]))
  }

  /** Splitting on whitespace loses only whitespace: the pieces put back
      together are `s` with its whitespace removed. */
  lemma {:induction false} SplitSpacesKeepsText(s: string)
    ensures Concat(SplitSpaces(s)) == Squeeze(s)
    decreases |s|
  {
    var i := FirstSpace(s);
    if i == |s| {
      SplitSpacesWhole(s);
      SqueezeSpaceFree(s);
      ConcatCons(s, []);
    } else {
      var rest := TrimStart(s[i + 1..]);
      SplitSpacesStep(s);
      ConcatCons(s[..i], SplitSpaces(rest));
      SplitSpacesKeepsText(rest);
      SqueezeAtSpace(s, i);
    }
  }

  /** A string without whitespace is its own single piece. */
  lemma SplitSpacesWhole(s: string)
    requires FirstSpace(s) == |s|
    ensures SplitSpaces(s) == [s]
  {
  }

  /** The first piece ends at the first whitespace character; the rest of
      the pieces come from what follows the whitespace run. */
  lemma SplitSpacesStep(s: string)
    requires FirstSpace(s) < |s|
    ensures SplitSpaces(s) == [s[..FirstSpace(s)]] + SplitSpaces(TrimStart(s[FirstSpace(s) + 1..]))
  {
  }

  lemma ConcatCons(a: string, ss: seq<string>)
    ensures Concat([a] + ss) == a + Concat(ss)
  {
    assert ([a] + ss)[1..] == ss;
  }

  /** Cutting `s` at a whitespace character `s[i]` that follows a
      whitespace-free prefix. */
  lemma SqueezeAtSpace(s: string, i: nat)
    requires i < |s| && IsSpace(s[i]) && SpaceFree(s[..i])
    ensures Squeeze(s) == s[..i] + Squeeze(TrimStart(s[i + 1..]))
  {
    var x := s[i + 1..];
    SqueezeDropSpaces(x, LeadingSpaces(x));
    assert Squeeze([s[i]] + x) == Squeeze(x) by {
      assert ([s[i]] + x)[1..] == x;
    }
    assert s == s[..i] + ([s[i]] + x);
    SqueezeAppend(s[..i], [s[i]] + x);
    SqueezeSpaceFree(s[..i]);
  }

  /** Splitting a string that neither starts nor ends with whitespace (a
      trimmed one, say) yields no empty piece. */
  lemma {:induction false} SplitSpacesNoEmpty(s: string)
    requires s != [] && Trimmed(s)
    ensures [] !in SplitSpaces(s)
    decreases |s|
  {
    var i := FirstSpace(s);
    if i == |s| {
      SplitSpacesWhole(s);
    } else {
      var rest := RestAfterSpace(s, i);
      SplitSpacesNoEmpty(rest);
      NoEmptyStep(s, i, rest);
    }
  }

  lemma NoEmptyStep(s: string, i: nat, rest: string)
    requires 0 < i < |s| && i == FirstSpace(s)
    requires rest == TrimStart(s[i + 1..])
    requires [] !in SplitSpaces(rest)
    ensures [] !in SplitSpaces(s)
  {
    SplitSpacesStep(s);
    assert s[..i] != [];
  }

  /** What follows the first whitespace run of a trimmed string that has
      one is itself trimmed and non-empty. */
  lemma RestAfterSpace(s: string, i: nat) returns (rest: string)
    requires s != [] && Trimmed(s)
    requires i == FirstSpace(s) && i < |s|
    ensures rest == TrimStart(s[i + 1..])
    ensures rest != [] && Trimmed(rest) && |rest| < |s|
    ensures i > 0
  {
    var x := s[i + 1..];
    assert |x| > 0 && x[|x| - 1] == s[|s| - 1];
    var k := LeadingSpaces(x);
    assert k < |x|;
    rest := x[k..];
    assert rest[|rest| - 1] == x[|x| - 1];
  }

  /** A word, one space and a text that starts with no whitespace split into
      the word followed by the pieces of the text. */
  lemma SplitSpacesCons(w: string, tail: string)
    requires IsWord(w)
    requires tail != [] && !IsSpace(tail[0])
    ensures SplitSpaces(w + [' '] + tail) == [w] + SplitSpaces(tail)
  {
    var s := w + [' '] + tail;
    assert s[..|w|] == w;
    FirstSpaceIs(s, |w|);
    SplitSpacesStep(s);
    assert s[|w| + 1..] == tail;
    assert LeadingSpaces(tail) == 0;
  }

  /** Joining whitespace-free, non-empty words with single spaces and splitting
      the result on whitespace gives the words back. */
  lemma {:induction false} SplitJoinSpaces(ws: seq<string>)
    requires |ws| >= 1
    requires forall k :: 0 <= k < |ws| ==> IsWord(ws[k])
    ensures SplitSpaces(JoinWith(ws, ' ')) == ws
    decreases |ws|
  {
    var w := ws[0];
    if |ws| > 1 {
      var tail := JoinWith(ws[1..], ' ');
      JoinEnds(ws[1..], ' ');
      SplitSpacesCons(w, tail);
      SplitJoinSpaces(ws[1..]);
      assert ws == [w] + ws[1..];
    } else {
      FirstSpaceIs(w, |w|);
      SplitSpacesWhole(w);
    }
  }

  /** A join of non-empty pieces starts with the first piece's first
      character and ends with the last piece's last character. */
  lemma {:induction false} JoinEnds(ws: seq<string>, sep: char)
    requires |ws| >= 1
    requires forall k :: 0 <= k < |ws| ==> ws[k] != []
    ensures JoinWith(ws, sep) != []
    ensures JoinWith(ws, sep)[0] == ws[0][0]
    ensures Last(JoinWith(ws, sep)) == Last(ws[|ws| - 1])
    decreases |ws|
  {
    if |ws| > 1 {
      JoinEnds(ws[1..], sep);
    }
  }

  function Last(s: string): char
    requires s != []
  {
    s[|s| - 1]
  }

  /** Trimming a single-space join of words changes nothing. */
  lemma TrimJoinSpaces(ws: seq<string>)
    requires |ws| >= 1
    requires forall k :: 0 <= k < |ws| ==> IsWord(ws[k])
    ensures Trim(JoinWith(ws, ' ')) == JoinWith(ws, ' ')
  {
    JoinEnds(ws, ' ');
    TrimmedAlready(JoinWith(ws, ' '));
  }

  /** Only whitespace (possibly nothing). */
  predicate Blank(s: string) {
    forall j :: 0 <= j < |s| ==> IsSpace(s[j])
  }

  /** A non-empty whitespace run: what `\s+` matches. */
  predicate IsGap(g: string) {
    |g| > 0 && Blank(g)
  }

  /** The pieces `ws` with the run `gs[k]` between `ws[k]` and `ws[k + 1]`. */
  function JoinGaps(ws: seq<string>, gs: seq<string>): string
    requires |ws| >= 1 && |gs| == |ws| - 1
    decreases |ws|
  {
    if |ws| == 1 then ws[0] else ws[0] + gs[0] + JoinGaps(ws[1..], gs[1..])
  }

  /** `LeadingSpaces` is the one count its contract describes. */
  lemma LeadingSpacesIs(s: string, k: nat)
    requires k <= |s| && Blank(s[..k])
    requires k < |s| ==> !IsSpace(s[k])
    ensures LeadingSpaces(s) == k
  {
    assert forall j :: 0 <= j < k ==> s[..k][j] == s[j];
  }

  /** `TrailingCut` is the one length its contract describes. */
  lemma TrailingCutIs(s: string, k: nat)
    requires k <= |s| && Blank(s[k..])
    requires k > 0 ==> !IsSpace(s[k - 1])
    ensures TrailingCut(s) == k
  {
    assert forall j :: k <= j < |s| ==> s[k..][j - k] == s[j];
  }

  /** A whitespace-free piece, a whitespace run of any length and a text that
      does not start with whitespace split into the piece followed by the
      pieces of the text. */
  lemma SplitSpacesRun(w: string, g: string, tail: string)
    requires SpaceFree(w) && IsGap(g)
    requires tail == [] || !IsSpace(tail[0])
    ensures SplitSpaces(w + g + tail) == [w] + SplitSpaces(tail)
  {
    var s := w + g + tail;
    RunPieces(w, g, tail);
    SplitSpacesStep(s);
    TrimStartRun(g[1..], tail);
  }

  /** The first whitespace of `w + g + tail` is the head of the run `g`. */
  lemma RunPieces(w: string, g: string, tail: string)
    requires SpaceFree(w) && IsGap(g)
    ensures FirstSpace(w + g + tail) == |w|
    ensures (w + g + tail)[..|w|] == w
    ensures (w + g + tail)[|w| + 1..] == g[1..] + tail
  {
    var s := w + g + tail;
    assert s[..|w|] == w;
    assert s[|w|] == g[0];
    FirstSpaceIs(s, |w|);
  }

  /** `trimStart` drops a whitespace prefix and nothing after it. */
  lemma TrimStartRun(g: string, tail: string)
    requires Blank(g)
    requires tail == [] || !IsSpace(tail[0])
    ensures TrimStart(g + tail) == tail
  {
    var x := g + tail;
    assert x[..|g|] == g;
    LeadingSpacesIs(x, |g|);
    assert x[|g|..] == tail;
  }

  /** Joining whitespace-free pieces with arbitrary non-empty whitespace runs
      and splitting the result on whitespace gives the pieces back, provided
      only the first and the last piece may be empty (an empty middle piece
      would merge two runs into one). */
  lemma {:induction false} SplitJoinGaps(ws: seq<string>, gs: seq<string>)
    requires |ws| >= 1 && |gs| == |ws| - 1
    requires forall k :: 0 <= k < |ws| ==> SpaceFree(ws[k])
    requires forall k :: 0 < k < |ws| - 1 ==> ws[k] != []
    requires forall k :: 0 <= k < |gs| ==> IsGap(gs[k])
    ensures SplitSpaces(JoinGaps(ws, gs)) == ws
    decreases |ws|
  {
    if |ws| == 1 {
      FirstSpaceIs(ws[0], |ws[0]|);
      SplitSpacesWhole(ws[0]);
    } else {
      var ws', gs' := ws[1..], gs[1..];
      GapsTail(ws, gs);
      var tail := JoinGaps(ws', gs');
      JoinGapsHead(ws', gs');
      SplitSpacesRun(ws[0], gs[0], tail);
      SplitJoinGaps(ws', gs');
      assert ws == [ws[0]] + ws';
    }
  }

  /** What `SplitJoinGaps` asks of its pieces and runs holds for all but the
      first of them. */
  lemma GapsTail(ws: seq<string>, gs: seq<string>)
    requires |ws| >= 2 && |gs| == |ws| - 1
    requires forall k :: 0 <= k < |ws| ==> SpaceFree(ws[k])
    requires forall k :: 0 < k < |ws| - 1 ==> ws[k] != []
    requires forall k :: 0 <= k < |gs| ==> IsGap(gs[k])
    ensures SpaceFree(ws[0]) && IsGap(gs[0])
    ensures forall k :: 0 <= k < |ws| - 1 ==> SpaceFree(ws[1..][k])
    ensures forall k :: 0 < k < |ws| - 2 ==> ws[1..][k] != []
    ensures forall k :: 0 <= k < |gs| - 1 ==> IsGap(gs[1..][k])
    ensures |ws| > 2 ==> ws[1..][0] != []
  {
  }

  /** A gap join whose first piece is whitespace-free, and non-empty when
      more follow, does not start with whitespace. */
  lemma JoinGapsHead(ws: seq<string>, gs: seq<string>)
    requires |ws| >= 1 && |gs| == |ws| - 1
    requires SpaceFree(ws[0]) && (|ws| > 1 ==> ws[0] != [])
    ensures JoinGaps(ws, gs) == [] || !IsSpace(JoinGaps(ws, gs)[0])
  {
    if |ws| > 1 {
      assert JoinGaps(ws, gs)[0] == ws[0][0];
    }
  }

  /** A gap join of words is non-empty and trimmed. */
  lemma {:induction false} JoinGapsTrimmed(ws: seq<string>, gs: seq<string>)
    requires |ws| >= 1 && |gs| == |ws| - 1
    requires forall k :: 0 <= k < |ws| ==> IsWord(ws[k])
    ensures JoinGaps(ws, gs) != [] && Trimmed(JoinGaps(ws, gs))
    decreases |ws|
  {
    if |ws| > 1 {
      var tail := JoinGaps(ws[1..], gs[1..]);
      JoinGapsTrimmed(ws[1..], gs[1..]);
      var s := ws[0] + gs[0] + tail;
      assert s[0] == ws[0][0] && Last(s) == Last(tail);
    }
  }

  /** Trimming a trimmed, non-empty text padded with whitespace on both sides
      gives the text back. */
  lemma TrimPadded(a: string, x: string, b: string)
    requires Blank(a) && Blank(b)
    requires x != [] && Trimmed(x)
    ensures Trim(a + x + b) == x
  {
    var s := a + x + b;
    assert s[..|a|] == a;
    LeadingSpacesIs(s, |a|);
    var t := s[|a|..];
    assert t == x + b;
    assert t[|x|..] == b;
    TrailingCutIs(t, |x|);
    assert t[..|x|] == x;
  }

  // ---------------------------------------------------------------- split(',')

  /** Index of the first occurrence of `c` in `s`, or `|s|` if there is none. */
  function IndexOf(s: string, c: char): (i: nat)
    ensures i <= |s|
    ensures forall j :: 0 <= j < i ==> s[j] != c
    ensures i < |s| ==> s[i] == c
  {
    if s == [] || s[0] == c then 0 else 1 + IndexOf(s[1..], c)
  }

  lemma IndexOfIs(s: string, c: char, k: nat)
    requires k <= |s|
    requires forall j :: 0 <= j < k ==> s[j] != c
    requires k < |s| ==> s[k] == c
    ensures IndexOf(s, c) == k
  {
  }

  /** JavaScript `s.split(sep)` for a one-character separator: the pieces
      between occurrences of `sep`. */
  function SplitOn(s: string, sep: char): (r: seq<string>)
    ensures |r| >= 1
    decreases |s|
  {
    var i := IndexOf(s, sep);
    if i == |s| then [s] else [s[..i]] + SplitOn(s[i + 1..], sep)
  }

  /** The pieces `split` returns contain no separator, and joined with the
      separator they give the input back. */
  lemma {:induction false} SplitOnSpec(s: string, sep: char)
    ensures forall k :: 0 <= k < |SplitOn(s, sep)| ==> sep !in SplitOn(s, sep)[k]
    ensures JoinWith(SplitOn(s, sep), sep) == s
    decreases |s|
  {
    var i := IndexOf(s, sep);
    assert sep !in s[..i];
    if i == |s| {
      assert s[..i] == s;
    } else {
      SplitOnSpec(s[i + 1..], sep);
      var r := SplitOn(s, sep);
      assert r[1..] == SplitOn(s[i + 1..], sep);
      assert s == s[..i] + [sep] + s[i + 1..];
    }
  }

  /** Splitting a join of separator-free pieces gives the pieces back. */
  lemma {:induction false} SplitJoinOn(ps: seq<string>, sep: char)
    requires |ps| >= 1
    requires forall k :: 0 <= k < |ps| ==> sep !in ps[k]
    ensures SplitOn(JoinWith(ps, sep), sep) == ps
    decreases |ps|
  {
    if |ps| == 1 {
      SplitOnWhole(ps[0], sep);
    } else {
      SplitOnCons(ps[0], sep, JoinWith(ps[1..], sep));
      SplitJoinOn(ps[1..], sep);
      assert ps == [ps[0]] + ps[1..];
    }
  }

  /** Text without the separator is its own single piece. */
  lemma SplitOnWhole(s: string, sep: char)
    requires sep !in s
    ensures SplitOn(s, sep) == [s]
  {
    IndexOfIs(s, sep, |s|);
  }

  /** A separator-free piece, the separator and more text split into the
      piece followed by the pieces of the text. */
  lemma SplitOnCons(p: string, sep: char, tail: string)
    requires sep !in p
    ensures SplitOn(p + [sep] + tail, sep) == [p] + SplitOn(tail, sep)
  {
    var s := p + [sep] + tail;
    assert s[..|p|] == p;
    IndexOfIs(s, sep, |p|);
    assert s[|p| + 1..] == tail;
  }

  // ---------------------------------------------------------------- parseInt

  predicate IsDigit(c: char) {
    '0' <= c <= '9'
  }

  /** Whether `c` is a digit of the given radix (10 or 16), in either case. */
  predicate IsRadixDigit(c: char, radix: nat) {
    if radix == 16 then IsDigit(c) || 'a' <= c <= 'f' || 'A' <= c <= 'F'
    else IsDigit(c)
  }

  function DigitValue(c: char, radix: nat): (v: nat)
    requires IsRadixDigit(c, radix)
    ensures v < (if radix == 16 then 16 else 10)
  {
    if IsDigit(c) then (c as int) - ('0' as int)
    else if 'a' <= c <= 'f' then (c as int) - ('a' as int) + 10
    else (c as int) - ('A' as int) + 10
  }

  /** Length of the longest prefix of `s` made of radix digits. */
  function DigitRun(s: string, radix: nat): (n: nat)
    ensures n <= |s|
    ensures forall i :: 0 <= i < n ==> IsRadixDigit(s[i], radix)
  {
    if s == [] || !IsRadixDigit(s[0], radix) then 0 else 1 + DigitRun(s[1..], radix)
  }

  /** The value of a string of radix digits, most significant first. */
  function DigitsValue(s: string, radix: nat): nat
    requires forall i :: 0 <= i < |s| ==> IsRadixDigit(s[i], radix)
  {
    if s == [] then 0
    else DigitsValue(s[..|s| - 1], radix) * radix + DigitValue(s[|s| - 1], radix)
  }

  /** The numeral at the front of `v`, if `v` starts with a radix digit. */
  function ParseDigits(v: string, radix: nat): Option<nat> {
    var n := DigitRun(v, radix);
    if n == 0 then None else Some(DigitsValue(v[..n], radix))
  }

  /** An unsigned numeral: a `0x`/`0X` prefix selects radix 16. */
  function ParseMagnitude(u: string): Option<nat> {
    if |u| >= 2 && u[0] == '0' && (u[1] == 'x' || u[1] == 'X') then
      ParseDigits(u[2..], 16)
    else
      ParseDigits(u, 10)
  }

  /** A numeral with an optional sign in front. */
  function ParseSigned(t: string): Option<int> {
    if t != [] && (t[0] == '-' || t[0] == '+') then
      match ParseMagnitude(t[1..])
      case None => None
      case Some(m) => Some(if t[0] == '-' then -(m as int) else m as int)
    else
      match ParseMagnitude(t)
      case None => None
      case Some(m) => Some(m as int)
  }

  /** JavaScript's global `parseInt(s)` with no radix, `None` standing for
      `NaN`: leading whitespace is skipped, then an optional sign, then a
      `0x`/`0X` prefix selects radix 16, then the longest run of digits is
      read; if that run is empty the answer is `NaN`. The sign of zero is
      lost, as it is for every comparison the calendar makes. */
  function ParseInt(s: string): Option<int> {
    ParseSigned(TrimStart(s))
  }

  // ---------------------------------------------------------------- decimal

  function DigitChar(d: nat): (c: char)
    requires d < 10
    ensures IsDigit(c) && DigitValue(c, 10) == d
  {
    (('0' as int) + d) as char
  }

  /** The decimal numeral of `n` with no leading zero, as JavaScript's
      `String(n)` writes a non-negative integer. */
  function FormatNat(n: nat): (s: string)
    ensures |s| >= 1
    ensures forall i :: 0 <= i < |s| ==> IsDigit(s[i])
    ensures DigitsValue(s, 10) == n
  {
    if n < 10 then [DigitChar(n)]
    else
      var s := FormatNat(n / 10) + [DigitChar(n % 10)];
      assert s[..|s| - 1] == FormatNat(n / 10);
      s
  }

  /** The decimal numeral of `i`, with a `-` in front when it is negative. */
  function FormatInt(i: int): string {
    if i < 0 then "-" + FormatNat(-i) else FormatNat(i)
  }

  /** A decimal numeral is a single whitespace-free token that is already
      trimmed and holds neither a comma nor the wildcard `*`. */
  lemma FormatIntToken(i: int)
    ensures IsWord(FormatInt(i)) && Trimmed(FormatInt(i))
    ensures ',' !in FormatInt(i) && '*' !in FormatInt(i)
  {
    var s := FormatInt(i);
    forall k | 0 <= k < |s|
      ensures !IsSpace(s[k]) && s[k] != ',' && s[k] != '*'
    {
      NumeralChar(s[k]);
    }
  }

  /** A sign or a digit is neither whitespace, nor a comma, nor `*`. */
  lemma NumeralChar(c: char)
    requires c == '-' || IsDigit(c)
    ensures !IsSpace(c) && c != ',' && c != '*'
  {
  }

  /** A digit string followed by something that is not a digit parses to
      the digit string's value. */
  lemma ParseDigitsPrefix(f: string, rest: string)
    requires |f| >= 1 && forall i :: 0 <= i < |f| ==> IsDigit(f[i])
    requires rest == [] || !IsDigit(rest[0])
    ensures ParseDigits(f + rest, 10) == Some(DigitsValue(f, 10))
  {
    DigitRunPrefix(f, rest);
    assert (f + rest)[..|f|] == f;
  }

  lemma {:induction false} DigitRunPrefix(f: string, rest: string)
    requires forall i :: 0 <= i < |f| ==> IsDigit(f[i])
    requires rest == [] || !IsDigit(rest[0])
    ensures DigitRun(f + rest, 10) == |f|
    decreases |f|
  {
    if f != [] {
      assert (f + rest)[1..] == f[1..] + rest;
      DigitRunPrefix(f[1..], rest);
    } else {
      assert f + rest == rest;
    }
  }

  /** The unsigned half of `ParseIntFormatted`. */
  lemma ParseMagnitudeFormatted(m: nat, rest: string)
    requires rest == [] || !IsDigit(rest[0])
    requires m == 0 && rest != [] ==> rest[0] != 'x' && rest[0] != 'X'
    ensures ParseMagnitude(FormatNat(m) + rest) == Some(m)
  {
    var f := FormatNat(m);
    var u := f + rest;
    assert |f| >= 2 ==> u[1] == f[1];
    assert |f| == 1 && u[0] == '0' ==> m == 0;
    ParseDigitsPrefix(f, rest);
  }

  /** `parseInt` reads back what `FormatInt` writes, and stops at the first
      character that cannot continue the numeral: `parseInt("9am")` is 9 and
      `parseInt("1,6")` is 1. A trailing `x` after a lone `0` is the one
      exception, since `0x` starts a hexadecimal numeral. */
  lemma ParseIntFormatted(i: int, rest: string)
    requires rest == [] || !IsDigit(rest[0])
    requires i == 0 && rest != [] ==> rest[0] != 'x' && rest[0] != 'X'
    ensures ParseInt(FormatInt(i) + rest) == Some(i)
  {
    if i < 0 {
      var m: nat := -i;
      ParseMagnitudeFormatted(m, rest);
      var u := FormatNat(m) + rest;
      assert FormatInt(i) + rest == ['-'] + u;
      ParseIntNegative(u, m);
    } else {
      ParseMagnitudeFormatted(i, rest);
      ParseIntUnsigned(FormatNat(i) + rest);
    }
  }

  lemma ParseIntNegative(u: string, m: nat)
    requires ParseMagnitude(u) == Some(m)
    ensures ParseInt(['-'] + u) == Some(-(m as int))
  {
    var s := ['-'] + u;
    assert TrimStart(s) == s;
    assert s[1..] == u;
  }

  lemma ParseIntUnsigned(u: string)
    requires u != [] && IsDigit(u[0])
    ensures ParseInt(u) == match ParseMagnitude(u) case None => None case Some(m) => Some(m as int)
  {
    assert TrimStart(u) == u;
  }

  /** A string with no decimal digit in it does not parse: `parseInt("*")`,
      `parseInt("cron")` and `parseInt("")` are all `NaN`. */
  lemma ParseIntNoDigits(s: string)
    requires forall i :: 0 <= i < |s| ==> !IsDigit(s[i])
    ensures ParseInt(s) == None
  {
    var t := TrimStart(s);
    assert forall j :: 0 <= j < |t| ==> t[j] == s[LeadingSpaces(s) + j];
    MagnitudeNoDigits(t);
    if t != [] {
      assert forall j :: 0 <= j < |t[1..]| ==> t[1..][j] == t[j + 1];
      MagnitudeNoDigits(t[1..]);
    }
  }

  lemma MagnitudeNoDigits(u: string)
    requires forall j :: 0 <= j < |u| ==> !IsDigit(u[j])
    ensures ParseMagnitude(u) == None
  {
    assert u == [] || !IsDigit(u[0]);
  }
}
