/** The button that shows and hides the source sidebar (`createSidebarToggle`,
    `toggleSidebar`) and the collapse that follows a file-link click on a narrow
    viewport (`closeSidebarIfMobile`). The `source-sidebar-show` preference is one
    string cell (None: never written); the viewport test is a boolean input and the
    window's vertical scroll offset an opaque integer. */
module SidebarToggle {
  import opened Wrappers

  /** Glyph shown while the sidebar is hidden: activating expands it. */
  const ExpandGlyph: string := ">"
  /** Glyph shown while the sidebar is shown: activating collapses it. */
  const CollapseGlyph: string := "<"

  /** The toggle's state: the button glyph, whether the document root carries the
      `source-sidebar-expanded` class, the stored preference, the scroll offset the
      body is pinned at (None: the body scrolls normally) and `oldScrollPosition`. */
  datatype Toggle = Toggle(
    glyph: string,
    expanded: bool,
    stored: Option<string>,
    pinnedAt: Option<int>,
    savedScroll: int)

  /** A toggle step: the new state and the offset the window is scrolled back to, if any. */
  datatype Toggled = Toggled(state: Toggle, scrollTo: Option<int>)

  /** The glyph `createSidebarToggle` puts on the button for the stored preference. */
  function InitialGlyph(stored: Option<string>): (g: string)
    ensures g == CollapseGlyph <==> stored == Some("true")
    ensures g == ExpandGlyph <==> stored != Some("true")
  {
    if stored == Some("true") then CollapseGlyph else ExpandGlyph
  }

  /** The toggle as the page loads. The root element's class is set before this script
      runs, from the same preference; `expanded` is that class. */
  function LoadToggle(stored: Option<string>, expanded: bool): (t: Toggle)
    ensures t.glyph == CollapseGlyph <==> stored == Some("true")
    ensures t.glyph == ExpandGlyph <==> stored != Some("true")
    ensures t.stored == stored && t.expanded == expanded
    ensures t.pinnedAt.None? && t.savedScroll == 0
  {
    Toggle(InitialGlyph(stored), expanded, stored, None, 0)
  }

  /** Glyph, root class and stored preference agree. */
  predicate Consistent(t: Toggle) {
    && (t.glyph == CollapseGlyph <==> t.expanded)
    && (t.glyph == ExpandGlyph <==> !t.expanded)
    && (t.expanded <==> t.stored == Some("true"))
  }

  /** `toggleSidebar` on a viewport that is narrow or not, with the window at `scrollY`. */
  function ToggleSidebar(t: Toggle, narrow: bool, scrollY: int): (r: Toggled)
    ensures t.glyph == ExpandGlyph ==>
              && r.state.glyph == CollapseGlyph && r.state.expanded
              && r.state.stored == Some("true") && r.scrollTo.None?
    ensures t.glyph != ExpandGlyph ==>
              && r.state.glyph == ExpandGlyph && !r.state.expanded
              && r.state.stored == Some("false")
    ensures narrow && t.glyph == ExpandGlyph ==>
              r.state.pinnedAt == Some(scrollY) && r.state.savedScroll == scrollY
    ensures narrow && t.glyph != ExpandGlyph ==>
              r.state.pinnedAt.None? && r.scrollTo == Some(t.savedScroll)
                && r.state.savedScroll == t.savedScroll
    ensures !narrow ==>
              r.state.pinnedAt == t.pinnedAt && r.state.savedScroll == t.savedScroll
                && r.scrollTo.None?
  {
    if t.glyph == ExpandGlyph then
      var t' := if narrow then t.(savedScroll := scrollY, pinnedAt := Some(scrollY)) else t;
      Toggled(t'.(expanded := true, glyph := CollapseGlyph, stored := Some("true")), None)
    else
      var t' := if narrow then t.(pinnedAt := None) else t;
      var scrollTo := if narrow then Some(t.savedScroll) else None;
      Toggled(t'.(expanded := false, glyph := ExpandGlyph, stored := Some("false")), scrollTo)
  }

  /** `closeSidebarIfMobile`: a narrow viewport stores "false"; nothing else changes. */
  function CloseSidebarIfMobile(t: Toggle, narrow: bool): (r: Toggle)
    ensures narrow ==> r.stored == Some("false")
    ensures !narrow ==> r == t
    ensures r.glyph == t.glyph && r.expanded == t.expanded && r.pinnedAt == t.pinnedAt
    ensures r.savedScroll == t.savedScroll
  {
    if narrow then t.(stored := Some("false")) else t
  }

  /** The toggle loads consistent when the root class agrees with the preference. */
  lemma LoadConsistent(stored: Option<string>)
    ensures Consistent(LoadToggle(stored, stored == Some("true")))
  {
  }

  /** Any toggle step leaves glyph, class and preference in agreement, whatever the
      state before. */
  lemma ToggleConsistent(t: Toggle, narrow: bool, scrollY: int)
    ensures Consistent(ToggleSidebar(t, narrow, scrollY).state)
  {
  }

  /** Two toggles bring back the glyph, the class and the stored preference of a
      consistent state whose preference has been written. */
  lemma ToggleTwice(t: Toggle, narrow1: bool, y1: int, narrow2: bool, y2: int)
    requires Consistent(t)
    requires t.stored == Some("true") || t.stored == Some("false")
    ensures var r := ToggleSidebar(ToggleSidebar(t, narrow1, y1).state, narrow2, y2).state;
            r.glyph == t.glyph && r.expanded == t.expanded && r.stored == t.stored
  {
  }

  /** On a narrow viewport, opening and then closing the sidebar unpins the body and
      scrolls back to the offset the window had when it was opened. */
  lemma OpenCloseRestoresScroll(t: Toggle, y1: int, y2: int)
    requires t.glyph == ExpandGlyph
    ensures var shown := ToggleSidebar(t, true, y1);
            var hidden := ToggleSidebar(shown.state, true, y2);
            && shown.state.pinnedAt == Some(y1)
            && hidden.state.pinnedAt.None?
            && hidden.scrollTo == Some(y1)
  {
  }
}
