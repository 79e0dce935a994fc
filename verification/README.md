# rustdoc source-page navigation, modelled in Dafny

This project models the navigation script of rustdoc's source-code pages
(`src/librustdoc/html/static/js/source-script.js`) once the DOM calls are taken out.
Four pieces remain, and each is a pure function over immutable data:

- **Line-number fragments** (`decimal.dfy`, `line_numbers.dfy`). The pattern
  `^#?(\d+)(?:-(\d+))?$` is written as a matcher. A declarative predicate for the
  same language is proved equal to it. The swap puts the smaller number first. The
  fragment names the click handler writes (`n`, `a-b`) are proved to read back as the
  numbers written. Highlighting is a function from the old set of highlighted ids to
  the new one. It is given the set of line ids that have an element on the page.
- **The click handler** (`line_selector.dfy`). It keeps one register, `prev_line_id`
  (here `anchor`, where 0 means no anchor). A click updates the register and the URL
  fragment, then highlights again. The file also covers the `hashchange` listener and
  the highlighting pass at load.
- **The sidebar toggle** (`sidebar_toggle.dfy`). It is a two-state machine over the
  button glyph (`>` / `<`), the root class, and the stored `source-sidebar-show`
  string. On narrow viewports it pins the body at a scroll offset.
- **The file tree** (`source_tree.dfy`). `createDirEntry` and `createSourceSidebar`
  are one recursive walk. It returns a tree of entries (`open`) and file links
  (`href`, `selected`) together with the `hasFoundFile` flag. That flag is threaded
  through siblings and across the index's roots.

Three behaviours of the code are easy to miss, and the model keeps them as written:

- **Anchor after a shift-click.** The swap at lines 208-212 writes the lower line into
  `prev_line_id`. So after a click on 5, a shift-click on 8 and a shift-click on 2, the
  anchor is 2, and a further shift-click on 8 selects 2-8
  (`LineSelector.AnchorMovesOnSwap`).
- **Directories opened after the match.** Once a file has matched, `hasFoundFile` goes
  into every later `createDirEntry` call as `true` and comes back `true` (lines 36-38),
  so every directory visited after the match that has at least one subdirectory is
  opened. The exact rule is in `SourceTree.BuildDirMeetsReference`, and
  `SourceTree.LaterSiblingOpened` shows a case.
- **Root name in links.** A file link's path includes the root's name, because line 27
  runs for roots too. For example, file `lib` in directory `a` of root `root` links to
  `<rootPath>src/root/a/lib.html`.

Inputs that the source reads from its environment are parameters here:

- the page's address, `location.href`;
- the documentation root, already resolved to an absolute URL. The page carries
  `data-root-path` as a relative path such as `../../`, and the `href` read back at
  line 53 is the link resolved against the document. The model compares the plain
  concatenation, so `rootPath` must be the resolved root;
- the index, `sourcesIndex`, as a sequence of (key, directory) pairs in `Object.keys`
  order;
- the set of line ids present on the page;
- the stored preference (`None` when never written);
- the viewport test, as a boolean;
- the window's scroll offset, as an opaque integer.

## Model

| member | source | states |
|---|---|---|
| Decimal.ParseFormat | src/librustdoc/html/static/js/source-script.js:150-154 | `parseInt` applied to the decimal text of any line number gives back that number |
| Decimal.FormatParse | src/librustdoc/html/static/js/source-script.js:214-218 | a numeral without leading zeros is exactly the text printed for its value, so each line number has one printed form |
| Decimal.ParseDecimal | src/librustdoc/html/static/js/source-script.js:150-153 | `parseInt` ignores leading zeros: a numeral starting with `0` has the value of the rest |
| Decimal.FormatDecimal | src/librustdoc/html/static/js/source-script.js:214-218 | a line number is printed as a numeral without leading zeros, containing neither `-` nor `#` |
| LineNumbers.MatchFragment | src/librustdoc/html/static/js/source-script.js:141 | the matcher accepts a fragment exactly when it is an optional `#`, ASCII digits, and optionally `-` and more digits |
| LineNumbers.MatchFragmentGroups | src/librustdoc/html/static/js/source-script.js:141-154 | for all digit strings `x` and `y`, `x`, `#x`, `x-y` and `#x-y` match, and the groups are read as the values of `x` and `y`, leading zeros included |
| LineNumbers.FormatLine | src/librustdoc/html/static/js/source-script.js:218 | the name written for a single line matches the pattern, with or without `#`, and its group reads back as that line |
| LineNumbers.FormatRange | src/librustdoc/html/static/js/source-script.js:214 | the name written for a range matches the pattern, with or without `#`, and its groups read back as the two lines in the order written |
| LineNumbers.ToRange | src/librustdoc/html/static/js/source-script.js:150-159 | the range is ordered `from <= to`; one number gives `from == to`; two numbers give their minimum and maximum |
| LineNumbers.FormatLineRoundTrip | src/librustdoc/html/static/js/source-script.js:218 | the fragment written for a plain click on `n` matches, with or without `#`, and yields the range `(n, n)` |
| LineNumbers.FormatRangeRoundTrip | src/librustdoc/html/static/js/source-script.js:214 | the fragment `a-b` matches, with or without `#`, and yields `a` then `b`, ordered by the swap to `(min, max)` |
| LineNumbers.MarkRun | src/librustdoc/html/static/js/source-script.js:173-179 | the marking loop marks exactly the ids `j <= to` such that every id from the start up to `j` exists on the page |
| LineNumbers.Highlight | src/librustdoc/html/static/js/source-script.js:143-180 | a fragment that does not match, or whose `from` line is missing, leaves the highlighting as it was and scrolls nowhere; otherwise it scrolls to `from`, and the highlighted set is exactly the unbroken run of existing ids from `from` up to `to` |
| LineNumbers.HighlightIdempotent | src/librustdoc/html/static/js/source-script.js:168-179 | highlighting the same fragment twice gives the same set as once |
| LineNumbers.HighlightForgetsPrevious | src/librustdoc/html/static/js/source-script.js:168-172 | once a fragment takes effect, the result does not depend on what was highlighted before |
| LineNumbers.SwapNormalised | src/librustdoc/html/static/js/source-script.js:155-159 | `a-b` and `b-a` give the same highlighting and the same scroll target |
| LineNumbers.HighlightWholeRange | src/librustdoc/html/static/js/source-script.js:160-179 | when every line from `min(a,b)` to `max(a,b)` exists, fragment `a-b` highlights exactly those lines and scrolls to the lower one |
| LineNumbers.ReversedRangeExample | src/librustdoc/html/static/js/source-script.js:150-179 | `#20-10` on a page with lines 1 to 30 highlights lines 10 to 20 and scrolls to line 10 |
| LineSelector.SetFragment | src/librustdoc/html/static/js/source-script.js:185-196 | the fragment becomes `#name` and the anchor is kept; a name that does not match leaves the highlighting alone, one that matches highlights it; a gap-free run of existing lines stays one |
| LineSelector.Click | src/librustdoc/html/static/js/source-script.js:198-220 | an id that is not a number changes nothing; a plain click, or a shift-click with anchor 0, sets the anchor to `n` and writes exactly `"#" + n` (the printed decimal), which reads back as `n`; a shift-click with anchor `p != 0` sets the anchor to `min(p,n)` and writes exactly `"#" + min(p,n) + "-" + max(p,n)`, which reads back as `(min(p,n), max(p,n))`; every click on a numeric id highlights the new fragment |
| LineSelector.HashChange | src/librustdoc/html/static/js/source-script.js:223-228 | a fragment change never touches the anchor; a fragment that does not match leaves the highlighting unchanged, and one that matches is highlighted over the previous highlighting |
| LineSelector.Load | src/librustdoc/html/static/js/source-script.js:234 | at load the anchor is 0; a fragment that does not match highlights nothing, and one that matches is highlighted starting from nothing |
| LineSelector.EventsKeepCoherent | src/librustdoc/html/static/js/source-script.js:168-179 | after the load pass, any click and any fragment change, the highlighted ids exist on the page and have no gaps |
| LineSelector.PlainClickSelectsLine | src/librustdoc/html/static/js/source-script.js:215-218 | a plain click on an existing line `n` gives anchor `n`, fragment `#n` and exactly line `n` highlighted |
| LineSelector.ShiftClickSelectsRange | src/librustdoc/html/static/js/source-script.js:206-214 | a shift-click on `n` with anchor `p != 0`, with all lines in between present, highlights exactly `min(p,n)..max(p,n)`, writes `#min-max` and leaves the anchor at `min(p,n)` |
| LineSelector.ShiftClickCommutes | src/librustdoc/html/static/js/source-script.js:206-218 | click 10 then shift-click 4, and click 4 then shift-click 10, end in the same state: lines 4 to 10 highlighted, anchor 4 |
| LineSelector.AnchorMovesOnSwap | src/librustdoc/html/static/js/source-script.js:208-212 | click 5, shift-click 8, shift-click 2 and shift-click 8 select 5-8, then 2-5, then 2-8, because the swap moved the anchor to 2 |
| SidebarToggle.InitialGlyph | src/librustdoc/html/static/js/source-script.js:99-103 | the button shows `<` exactly when the stored preference is `"true"`, and `>` otherwise |
| SidebarToggle.ToggleSidebar | src/librustdoc/html/static/js/source-script.js:66-91 | from `>` the sidebar expands, shows `<` and stores `"true"`; from any other glyph it collapses, shows `>` and stores `"false"`; on narrow viewports, opening pins the body at the current offset and closing unpins it and scrolls back to the saved offset; on wide viewports the scroll state is untouched |
| SidebarToggle.ToggleConsistent | src/librustdoc/html/static/js/source-script.js:68-90 | after any toggle, the glyph, the root class and the stored preference agree |
| SidebarToggle.ToggleTwice | src/librustdoc/html/static/js/source-script.js:68-90 | two toggles restore the glyph, the class and the stored preference |
| SidebarToggle.OpenCloseRestoresScroll | src/librustdoc/html/static/js/source-script.js:69-86 | on a narrow viewport, opening then closing scrolls back to the offset held when the sidebar was opened |
| SidebarToggle.LoadToggle | src/librustdoc/html/static/js/source-script.js:93-108 | the button at load shows `<` exactly when the stored preference is `"true"` and `>` otherwise; the toggle keeps that preference and the root class it is given, with the body not pinned and no saved offset |
| SidebarToggle.LoadConsistent | src/librustdoc/html/static/js/source-script.js:93-108 | the toggle at load agrees with the stored preference |
| SidebarToggle.CloseSidebarIfMobile | src/librustdoc/html/static/js/source-script.js:15-19 | a narrow viewport stores `"false"` and a wide one changes nothing; glyph, class and scroll state are never touched |
| SourceTree.StripFragment | src/librustdoc/html/static/js/source-script.js:52 | the compared address is the longest prefix of the location that has no `#` |
| SourceTree.BuildDir | src/librustdoc/html/static/js/source-script.js:21-64 | an entry has the directory's name and one child entry and one link per subdirectory and file; a true incoming flag is returned true |
| SourceTree.BuildFiles | src/librustdoc/html/static/js/source-script.js:46-60 | each file gets a link with its name and the address `rootPath + "src/" + path + name + ".html"`; once the flag is set, no link is selected; the parent is opened exactly when some link is selected, every selected link's address is the page's, and the flag comes out set exactly when it came in set or a link was selected |
| SourceTree.BuildDirMeetsReference | src/librustdoc/html/static/js/source-script.js:21-64 | the links under an entry carry the pre-order addresses of its subtree, and a link is selected exactly when the flag came in false and it is the first address equal to the page's; the returned flag is the incoming flag or a match in the subtree; the entry is open exactly when the flag came in false and the subtree holds a match, or the flag came in true and the directory has a subdirectory |
| SourceTree.BuildSubdirs | src/librustdoc/html/static/js/source-script.js:34-41 | one entry per subdirectory, with the same names in the same order, and a flag that is set stays set |
| SourceTree.BuildSubdirsMeetsReference | src/librustdoc/html/static/js/source-script.js:34-41 | the subdirectory loop yields the concatenated pre-order addresses with first-match selection; some call returns true exactly when the flag came in true and there is a subdirectory, or the flag came in false and a match lies below |
| SourceTree.BuildRoots | src/librustdoc/html/static/js/source-script.js:127-131 | one entry per root, named by its key, and a flag that is set stays set |
| SourceTree.CreateSourceSidebar | src/librustdoc/html/static/js/source-script.js:112-139 | the sidebar's button shows `<` exactly when the preference is `"true"`, has one entry per root named by its key, and focuses only a selected link |
| SourceTree.BuildFilesMeetsReference | src/librustdoc/html/static/js/source-script.js:46-60 | the file loop selects the first file whose address equals the page's, and only when the flag came in false; the flag comes out set exactly when it came in set or such a file exists |
| SourceTree.BuildRootsMeetsReference | src/librustdoc/html/static/js/source-script.js:127-131 | across roots in key order, addresses concatenate, and the flag carried from one root to the next selects the first match of the whole index |
| SourceTree.FirstSelected | src/librustdoc/html/static/js/source-script.js:135-138 | a link gets focus exactly when some link is selected, and it is a selected link |
| SourceTree.CreateSourceSidebarSelectsFirstMatch | src/librustdoc/html/static/js/source-script.js:112-139 | every link's href is its file's reference address; a link is selected exactly when its address equals the location without fragment and no earlier link's does; at most one link is selected; focus goes to a link exactly when some address matches, and that link's href is the location without fragment |
| SourceTree.NestedFileSelected | src/librustdoc/html/static/js/source-script.js:21-64 | for root `root` with directory `a` holding `lib` and the file `main`, on the page of `root/a/lib` with any fragment, both directories open, `lib` is selected and focused, and `main` is not |
| SourceTree.LaterSiblingOpened | src/librustdoc/html/static/js/source-script.js:34-41 | after the match, a later sibling that has a subdirectory is opened although no match lies below it; its subdirectory and a later sibling without subdirectories stay closed |

## Left out

- DOM construction (`createElement`, `appendChild`, class names, `innerText` of the
  summary and title) and event wiring (`addEventListener`, `onclick`). Their results
  appear as returned data, not as effects.
- `history.replaceState` versus `location.replace` (lines 188-193). Both are modelled
  as one step that sets the fragment and then highlights. Which one runs depends on a
  browser capability check outside this file.
- The scroll position saved and restored around a fragment update (lines 186-187 and
  195). It leaves the selector's state unchanged. The pixel values of `body.style.top`
  are represented only by the pinned offset.
- LineSelector.HashChange: does not return the line scrolled into view (lines 164-167).
  Unlike a click, a fragment change keeps that scroll. `LineNumbers.Highlight` states
  which line it is.
- LineSelector.Load: does not return the line scrolled into view at load (lines 164-167
  reached from line 234), for the same reason.
- Resolving a link's `href` against the document (dot segments, percent-encoding and the
  like). The model compares the location with the concatenated address, so a relative
  `data-root-path` is modelled only after it has been resolved to an absolute root.
- `getCurrentValue` and `updateLocalStorage`. Here they are one optional string cell.
- `parseInt` details. JavaScript numbers lose precision on very long digit strings,
  while the model uses unbounded naturals. For a click target, `parseInt` also accepts
  leading signs, spaces and trailing junk in the element id. Here a click target is
  already a number or nothing.
- The `source-sidebar-expanded` class at page load is set by a script outside this file.
  `SidebarToggle.LoadToggle` takes it as an input.
- The focus call itself (`selected_elem.focus()`). The model only names which link
  receives focus.
- `compiler/rustc_builtin_macros/src/deriving/cmp/ord.rs` is not part of this model. It
  is a compiler macro expander with no connection to this script.
