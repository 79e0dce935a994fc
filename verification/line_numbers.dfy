/** The line-number fragment of a source page: the pattern `^#?(\d+)(?:-(\d+))?$`
    (`lineNumbersRegex`), the texts the click handler writes into it, and the rule
    by which a fragment decides which line numbers are highlighted
    (`highlightSourceLines`). A page is the set of line ids that have an element;
    a highlighting is the set of ids carrying the `line-highlighted` class. */
module LineNumbers {
  import opened Wrappers
  import opened Decimal

  /** The two capture groups of the pattern, read by `parseInt(_, 10)`. */
  datatype LineMatch = LineMatch(first: nat, second: Option<nat>)

  /** A range of line numbers after the swap that puts the smaller end first. */
  datatype LineRange = LineRange(from: nat, to: nat)

  /** What one highlighting pass leaves behind: the highlighted ids and the id that
      was scrolled into view, if any. */
  datatype Render = Render(lines: set<nat>, scrolledTo: Option<nat>)

  // ---------------------------------------------------------------------------
  // The pattern, stated declaratively

  /** `(\d+)(?:-(\d+))?$` on the text after the optional `#`. */
  predicate BodyForm(b: string) {
    || IsDigits(b)
    || exists k :: 0 < k < |b| && b[k] == '-' && IsDigits(b[..k]) && IsDigits(b[k + 1..])
  }

  /** `^#?(\d+)(?:-(\d+))?$` */
  predicate MatchesLinePattern(s: string) {
    || BodyForm(s)
    || (|s| > 0 && s[0] == '#' && BodyForm(s[1..]))
  }

  // ---------------------------------------------------------------------------
  // The matcher

  /** Position of the first '-' in `s`, or `|s|` when there is none. */
  function DashIndex(s: string): (k: nat)
    ensures k <= |s|
    ensures k < |s| ==> s[k] == '-'
    ensures forall i :: 0 <= i < k ==> s[i] != '-'
  {
    if |s| == 0 then 0
    else if s[0] == '-' then 0
    else 1 + DashIndex(s[1..])
  }

  function MatchBody(b: string): Option<LineMatch> {
    var k := DashIndex(b);
    if k == |b| then
      if IsDigits(b) then Some(LineMatch(ParseDecimal(b), None)) else None
    else if IsDigits(b[..k]) && IsDigits(b[k + 1..]) then
      Some(LineMatch(ParseDecimal(b[..k]), Some(ParseDecimal(b[k + 1..]))))
    else None
  }

  /** `s.match(lineNumbersRegex)`, with the captured groups already converted to numbers.
      It succeeds exactly on the texts the pattern describes. */
  function MatchFragment(s: string): (r: Option<LineMatch>)
    ensures r.Some? <==> MatchesLinePattern(s)
  {
    BodyFormMatched(s);
    if |s| > 0 && s[0] == '#' then
      BodyFormMatched(s[1..]);
      MatchBody(s[1..])
    else
      MatchBody(s)
  }

  /** The matcher on the text after `#` agrees with the declarative pattern. A text
      starting with `#` never has the body form itself. */
  lemma BodyFormMatched(b: string)
    ensures MatchBody(b).Some? <==> BodyForm(b)
    ensures |b| > 0 && b[0] == '#' ==> !BodyForm(b)
  {
    if BodyForm(b) && !IsDigits(b) {
      var j :| 0 < j < |b| && b[j] == '-' && IsDigits(b[..j]) && IsDigits(b[j + 1..]);
      DashAt(b, j);
    }
    if |b| > 0 && b[0] == '#' {
      HashNotBody(b);
    }
  }

  /** In a text of the body form with two numbers, the first '-' is the separator. */
  lemma DashAt(b: string, j: nat)
    requires 0 < j < |b| && b[j] == '-' && IsDigits(b[..j])
    ensures DashIndex(b) == j
  {
  }

  lemma HashNotBody(b: string)
    requires |b| > 0 && b[0] == '#'
    ensures !BodyForm(b)
  {
  }

  /** The swap of `highlightSourceLines`: a single number stands for itself, two numbers
      are ordered so that the smaller comes first. */
  function ToRange(m: LineMatch): (r: LineRange)
    ensures r.from <= r.to
    ensures m.second.None? ==> r.from == m.first && r.to == m.first
    ensures m.second.Some? ==> r.from == Min(m.first, m.second.value)
    ensures m.second.Some? ==> r.to == Max(m.first, m.second.value)
  {
    var from := m.first;
    var to := if m.second.Some? then m.second.value else from;
    if to < from then LineRange(to, from) else LineRange(from, to)
  }

  function Min(a: nat, b: nat): nat {
    if a <= b then a else b
  }

  function Max(a: nat, b: nat): nat {
    if a <= b then b else a
  }

  // ---------------------------------------------------------------------------
  // The texts the click handler writes

  /** `"" + n`: the fragment name for a single line. With or without its `#`, it
      matches the pattern and reads back as `n`. */
  function FormatLine(n: nat): (s: string)
    ensures MatchFragment(s) == Some(LineMatch(n, None))
    ensures MatchFragment("#" + s) == Some(LineMatch(n, None))
  {
    var x := FormatDecimal(n);
    MatchFragmentGroups(x, x);
    ParseFormat(n);
    x
  }

  /** `a + "-" + b`: the fragment name for a range. With or without its `#`, it matches
      the pattern and reads back as `a` then `b`, in the order written. */
  function FormatRange(a: nat, b: nat): (s: string)
    ensures MatchFragment(s) == Some(LineMatch(a, Some(b)))
    ensures MatchFragment("#" + s) == Some(LineMatch(a, Some(b)))
  {
    var x := FormatDecimal(a);
    var y := FormatDecimal(b);
    MatchFragmentGroups(x, y);
    ParseFormat(a);
    ParseFormat(b);
    x + "-" + y
  }

  /** The two groups of any fragment of the pattern's form are read as the numbers
      their digits denote, leading zeros included (`#007` reads as 7). */
  lemma MatchFragmentGroups(x: string, y: string)
    requires IsDigits(x) && IsDigits(y)
    ensures MatchFragment(x) == Some(LineMatch(ParseDecimal(x), None))
    ensures MatchFragment("#" + x) == Some(LineMatch(ParseDecimal(x), None))
    ensures MatchFragment(x + "-" + y) == Some(LineMatch(ParseDecimal(x), Some(ParseDecimal(y))))
    ensures MatchFragment("#" + (x + "-" + y)) == Some(LineMatch(ParseDecimal(x), Some(ParseDecimal(y))))
  {
    var s := x + "-" + y;
    assert s[|x|] == '-';
    assert forall i :: 0 <= i < |x| ==> s[i] == x[i];
    assert DashIndex(s) == |x|;
    assert s[..|x|] == x && s[|x| + 1..] == y;
    assert ("#" + x)[1..] == x;
    assert ("#" + s)[1..] == s;
  }

  /** A single-line fragment, with or without its `#`, matches and yields that line. */
  lemma FormatLineRoundTrip(n: nat)
    ensures MatchFragment(FormatLine(n)) == Some(LineMatch(n, None))
    ensures MatchFragment("#" + FormatLine(n)) == Some(LineMatch(n, None))
    ensures ToRange(LineMatch(n, None)) == LineRange(n, n)
  {
  }

  /** A range fragment, with or without its `#`, matches and yields both numbers in
      the order written; the swap then orders them. */
  lemma FormatRangeRoundTrip(a: nat, b: nat)
    ensures MatchFragment(FormatRange(a, b)) == Some(LineMatch(a, Some(b)))
    ensures MatchFragment("#" + FormatRange(a, b)) == Some(LineMatch(a, Some(b)))
    ensures ToRange(LineMatch(a, Some(b))) == LineRange(Min(a, b), Max(a, b))
  {
  }

  // ---------------------------------------------------------------------------
  // Highlighting

  /** The ids from `a` to `b` inclusive. */
  function Span(a: nat, b: nat): (r: set<nat>)
    ensures forall j :: j in r <==> a <= j <= b
    decreases if a <= b then b - a + 1 else 0
  {
    if a > b then {} else {a} + Span(a + 1, b)
  }

  /** Every id from `i` to `j` has a line element. */
  predicate Unbroken(page: set<nat>, i: nat, j: nat) {
    forall k :: i <= k <= j ==> k in page
  }

  /** The loop of `highlightSourceLines`: mark `i`, `i + 1`, ... up to `to`, stopping at
      the first id that has no element. The result is the unbroken run of existing ids
      starting at `i`, cut off at `to`. */
  function MarkRun(page: set<nat>, i: nat, to: nat): (r: set<nat>)
    ensures forall j :: j in r <==> i <= j <= to && Unbroken(page, i, j)
    decreases if i <= to then to - i + 1 else 0
  {
    if i > to || i !in page then {}
    else {i} + MarkRun(page, i + 1, to)
  }

  /** `highlightSourceLines` applied to the fragment `hash` on a page whose existing line
      ids are `page` and whose highlighted ids are `lines`. */
  function Highlight(page: set<nat>, lines: set<nat>, hash: string): (r: Render)
    ensures !MatchesLinePattern(hash) ==> r == Render(lines, None)
    ensures MatchesLinePattern(hash) ==>
              var range := ToRange(MatchFragment(hash).value);
              && (range.from !in page ==> r == Render(lines, None))
              && (range.from in page ==> r.scrolledTo == Some(range.from))
              && (range.from in page ==>
                    forall j :: j in r.lines <==> range.from <= j <= range.to && Unbroken(page, range.from, j))
  {
    match MatchFragment(hash)
    case None => Render(lines, None)
    case Some(m) =>
      var range := ToRange(m);
      if range.from !in page then Render(lines, None)
      else Render(MarkRun(page, range.from, range.to), Some(range.from))
  }

  /** Applying the same fragment twice gives the same highlighting as applying it once:
      every earlier mark is cleared before the run is marked. */
  lemma HighlightIdempotent(page: set<nat>, lines: set<nat>, hash: string)
    ensures Highlight(page, Highlight(page, lines, hash).lines, hash).lines
         == Highlight(page, lines, hash).lines
  {
  }

  /** Once a fragment has taken effect, what was highlighted before does not matter. */
  lemma HighlightForgetsPrevious(page: set<nat>, lines1: set<nat>, lines2: set<nat>, hash: string)
    requires MatchesLinePattern(hash)
    requires ToRange(MatchFragment(hash).value).from in page
    ensures Highlight(page, lines1, hash) == Highlight(page, lines2, hash)
  {
  }

  /** `"a-b"` and `"b-a"` highlight the same lines. */
  lemma SwapNormalised(page: set<nat>, lines: set<nat>, a: nat, b: nat)
    ensures Highlight(page, lines, "#" + FormatRange(a, b))
         == Highlight(page, lines, "#" + FormatRange(b, a))
  {
    FormatRangeRoundTrip(a, b);
    FormatRangeRoundTrip(b, a);
    var m1 := MatchFragment("#" + FormatRange(a, b));
    var m2 := MatchFragment("#" + FormatRange(b, a));
    assert ToRange(m1.value) == ToRange(m2.value);
  }

  /** When every line of a range exists, the highlighting is exactly that range. */
  lemma HighlightWholeRange(page: set<nat>, lines: set<nat>, a: nat, b: nat)
    requires Unbroken(page, Min(a, b), Max(a, b))
    ensures Highlight(page, lines, "#" + FormatRange(a, b)).lines
         == Span(Min(a, b), Max(a, b))
    ensures Highlight(page, lines, "#" + FormatRange(a, b)).scrolledTo == Some(Min(a, b))
  {
    FormatRangeRoundTrip(a, b);
    var r := Highlight(page, lines, "#" + FormatRange(a, b)).lines;
    forall j: nat | Min(a, b) <= j <= Max(a, b)
      ensures j in r
    {
      assert Unbroken(page, Min(a, b), j);
    }
  }

  /** The fragment `#20-10` on a page with lines 1 to 30 highlights lines 10 to 20 and
      scrolls line 10 into view. */
  lemma ReversedRangeExample(lines: set<nat>)
    ensures Highlight(Span(1, 30), lines, "#20-10") == Render(Span(10, 20), Some(10))
  {
    RangeNameTwentyTen();
    HighlightWholeRange(Span(1, 30), lines, 20, 10);
  }

  lemma RangeNameTwentyTen()
    ensures "#" + FormatRange(20, 10) == "#20-10"
  {
    assert FormatDecimal(20) == "20";
    assert FormatDecimal(10) == "10";
  }
}
