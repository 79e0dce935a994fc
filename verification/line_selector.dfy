/** The click handler of the source page (`handleSourceHighlight` with its
    `set_fragment`), the `hashchange` listener and the highlighting pass at load.
    The one register the handler keeps, `prev_line_id`, is the `anchor`; 0 means
    "no anchor", as it is falsy in the source. */
module LineSelector {
  import opened Wrappers
  import opened Decimal
  import opened LineNumbers

  /** The selector's state: the anchor register, the URL fragment (with its `#`) and the
      highlighted line ids. */
  datatype Selector = Selector(anchor: nat, hash: string, lines: set<nat>)

  /** The highlighting is a contiguous run of line ids that exist on the page. */
  predicate Coherent(page: set<nat>, lines: set<nat>) {
    && lines <= page
    && forall i, j, k :: i in lines && j in lines && i <= k <= j ==> k in lines
  }

  /** `set_fragment(name)`: the fragment becomes `"#" + name` and is highlighted again.
      The scroll position saved and restored around it is not part of the state. */
  function SetFragment(s: Selector, page: set<nat>, name: string): (r: Selector)
    ensures r.anchor == s.anchor && r.hash == "#" + name
    ensures !MatchesLinePattern(r.hash) ==> r.lines == s.lines
    ensures MatchesLinePattern(r.hash) ==> r.lines == Highlight(page, s.lines, r.hash).lines
    ensures Coherent(page, s.lines) ==> Coherent(page, r.lines)
  {
    var hash := "#" + name;
    var r := s.(hash := hash, lines := Highlight(page, s.lines, hash).lines);
    if Coherent(page, s.lines) then
      HighlightCoherent(page, s.lines, hash);
      r
    else r
  }

  /** A click on an element whose id reads as `target` (None: `parseInt` gave NaN),
      with the shift key held or not. */
  function Click(s: Selector, page: set<nat>, target: Option<nat>, shift: bool): (r: Selector)
    ensures target.None? ==> r == s
    ensures target.Some? && (!shift || s.anchor == 0) ==>
              && r.anchor == target.value
              && r.hash == "#" + FormatDecimal(target.value)
              && MatchFragment(r.hash) == Some(LineMatch(target.value, None))
    ensures target.Some? && shift && s.anchor != 0 ==>
              && r.anchor == Min(s.anchor, target.value)
              && r.hash == "#" + FormatDecimal(Min(s.anchor, target.value))
                             + "-" + FormatDecimal(Max(s.anchor, target.value))
              && MatchFragment(r.hash)
                 == Some(LineMatch(Min(s.anchor, target.value), Some(Max(s.anchor, target.value))))
    ensures target.Some? ==> r.lines == Highlight(page, s.lines, r.hash).lines
  {
    match target
    case None => s
    case Some(n) =>
      if shift && s.anchor != 0 then
        var low := Min(s.anchor, n);
        var high := Max(s.anchor, n);
        var name := FormatRange(low, high);
        assert "#" + name == "#" + FormatDecimal(low) + "-" + FormatDecimal(high);
        SetFragment(s.(anchor := low), page, name)
      else
        SetFragment(s.(anchor := n), page, FormatLine(n))
  }

  /** The `hashchange` listener: a fragment that matches the pattern is highlighted; any
      other fragment changes nothing but the fragment itself. */
  function HashChange(s: Selector, page: set<nat>, hash: string): (r: Selector)
    ensures r.anchor == s.anchor && r.hash == hash
    ensures !MatchesLinePattern(hash) ==> r.lines == s.lines
    ensures MatchesLinePattern(hash) ==> r.lines == Highlight(page, s.lines, hash).lines
  {
    if MatchFragment(hash).Some? then s.(hash := hash, lines := Highlight(page, s.lines, hash).lines)
    else s.(hash := hash)
  }

  /** The page as loaded: no anchor, nothing highlighted, then one highlighting pass over
      whatever fragment the URL carries. */
  function Load(page: set<nat>, hash: string): (r: Selector)
    ensures r.anchor == 0 && r.hash == hash
    ensures !MatchesLinePattern(hash) ==> r.lines == {}
    ensures MatchesLinePattern(hash) ==> r.lines == Highlight(page, {}, hash).lines
  {
    Selector(0, hash, Highlight(page, {}, hash).lines)
  }

  /** One highlighting pass keeps the highlighting a contiguous run of existing lines. */
  lemma HighlightCoherent(page: set<nat>, lines: set<nat>, hash: string)
    requires Coherent(page, lines)
    ensures Coherent(page, Highlight(page, lines, hash).lines)
  {
    var r := Highlight(page, lines, hash).lines;
    if MatchFragment(hash).Some? && ToRange(MatchFragment(hash).value).from in page {
      var from := ToRange(MatchFragment(hash).value).from;
      forall i, j, k | i in r && j in r && i <= k <= j
        ensures k in r
      {
        assert Unbroken(page, from, j);
      }
      forall k | k in r
        ensures k in page
      {
        assert Unbroken(page, from, k);
      }
    }
  }

  /** Every event keeps the highlighting a contiguous run of existing lines. */
  lemma {:induction false} EventsKeepCoherent(s: Selector, page: set<nat>, target: Option<nat>, shift: bool, hash: string)
    requires Coherent(page, s.lines)
    ensures Coherent(page, Load(page, hash).lines)
    ensures Coherent(page, Click(s, page, target, shift).lines)
    ensures Coherent(page, HashChange(s, page, hash).lines)
  {
    HighlightCoherent(page, {}, hash);
    HighlightCoherent(page, s.lines, Click(s, page, target, shift).hash);
    HighlightCoherent(page, s.lines, hash);
  }

  /** A plain click on an existing line selects exactly that line. */
  lemma PlainClickSelectsLine(s: Selector, page: set<nat>, n: nat)
    requires n in page
    ensures Click(s, page, Some(n), false) == Selector(n, "#" + FormatLine(n), {n})
  {
    FormatLineRoundTrip(n);
    var r := Click(s, page, Some(n), false);
    assert forall j :: j in r.lines <==> j == n;
  }

  /** A shift-click after an anchor selects the whole range between them, in either
      order, when all its lines exist; the anchor becomes the lower end. */
  lemma ShiftClickSelectsRange(s: Selector, page: set<nat>, n: nat)
    requires s.anchor != 0
    requires Unbroken(page, Min(s.anchor, n), Max(s.anchor, n))
    ensures var r := Click(s, page, Some(n), true);
            && r.anchor == Min(s.anchor, n)
            && r.hash == "#" + FormatRange(Min(s.anchor, n), Max(s.anchor, n))
            && r.lines == Span(Min(s.anchor, n), Max(s.anchor, n))
  {
    var low := Min(s.anchor, n);
    var high := Max(s.anchor, n);
    HighlightWholeRange(page, s.lines, low, high);
  }

  /** Clicking 10 then shift-clicking 4, or clicking 4 then shift-clicking 10, both end
      with lines 4 to 10 selected and the anchor on 4. */
  lemma ShiftClickCommutes(s: Selector, page: set<nat>)
    requires Unbroken(page, 4, 10)
    ensures var a := Click(Click(s, page, Some(10), false), page, Some(4), true);
            var b := Click(Click(s, page, Some(4), false), page, Some(10), true);
            && a == b
            && a.lines == Span(4, 10)
            && a.anchor == 4
  {
    var s10 := Click(s, page, Some(10), false);
    var s4 := Click(s, page, Some(4), false);
    ShiftClickSelectsRange(s10, page, 4);
    ShiftClickSelectsRange(s4, page, 10);
  }

  /** The anchor follows the swap: after a click on 5 and shift-clicks on 8 and then 2,
      the anchor is 2, not 5, so a further shift-click on 8 selects 2 to 8. */
  lemma AnchorMovesOnSwap(s: Selector, page: set<nat>)
    requires Unbroken(page, 2, 8)
    ensures var s1 := Click(s, page, Some(5), false);
            var s2 := Click(s1, page, Some(8), true);
            var s3 := Click(s2, page, Some(2), true);
            var s4 := Click(s3, page, Some(8), true);
            && s2.lines == Span(5, 8) && s2.anchor == 5
            && s3.lines == Span(2, 5) && s3.anchor == 2
            && s4.lines == Span(2, 8) && s4.anchor == 2
  {
    var s1 := Click(s, page, Some(5), false);
    var s2 := Click(s1, page, Some(8), true);
    var s3 := Click(s2, page, Some(2), true);
    ShiftClickSelectsRange(s1, page, 8);
    ShiftClickSelectsRange(s2, page, 2);
    ShiftClickSelectsRange(s3, page, 8);
  }
}
