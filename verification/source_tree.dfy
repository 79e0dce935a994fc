/** The source-file sidebar (`createDirEntry`, `createSourceSidebar`): the nested index
    of directories and files becomes a tree of disclosure entries and file links. The
    depth-first walk threads one flag, `hasFoundFile`, through siblings and across
    roots; the first file link whose address equals the page's address (fragment
    removed) is marked selected and opens its directory. */
module SourceTree {
  import opened Wrappers
  import SidebarToggle

  /** One node of the index: a directory name, its subdirectories and its file names
      (without extension), in the order the index lists them. */
  datatype Dir = Dir(name: string, dirs: seq<Dir>, files: seq<string>)

  /** A file link: its text, its target and whether it carries the `selected` class. */
  datatype FileLink = FileLink(text: string, href: string, selected: bool)

  /** A `details.dir-entry`: its summary text, whether it is open, the entries of its
      `folders` div and the links of its `files` div. */
  datatype DirEntry = DirEntry(name: string, open: bool, dirs: seq<DirEntry>, files: seq<FileLink>)

  /** The sidebar built for one page: the toggle's glyph, the root entries in key order
      and the link that receives focus, if any. */
  datatype SourceSidebar = SourceSidebar(toggle: string, entries: seq<DirEntry>, focus: Option<FileLink>)

  /** The addresses the walk compares against: the documentation root and the page's
      address with its fragment removed. */
  datatype Page = Page(rootPath: string, current: string)

  // ---------------------------------------------------------------------------
  // Addresses

  /** `url.split("#")[0]`: the text before the first `#`. */
  function StripFragment(url: string): (r: string)
    ensures r <= url
    ensures '#' !in r
    ensures |r| < |url| ==> url[|r|] == '#'
  {
    if |url| == 0 || url[0] == '#' then []
    else [url[0]] + StripFragment(url[1..])
  }

  /** The link target of file `file` in the directory whose accumulated path is `path`
      (every ancestor name followed by "/"). */
  function Href(rootPath: string, path: string, file: string): string {
    rootPath + "src/" + path + file + ".html"
  }

  // ---------------------------------------------------------------------------
  // The walk

  /** `createDirEntry(d, parent, parentPath, found)`: the entry for `d` and the flag it
      returns. */
  function BuildDir(page: Page, d: Dir, parentPath: string, found: bool): (r: (DirEntry, bool))
    ensures r.0.name == d.name && |r.0.dirs| == |d.dirs| && |r.0.files| == |d.files|
    ensures found ==> r.1
    decreases d
  {
    var path := parentPath + d.name + "/";
    var (dirs, dirsOpen, found1) := BuildSubdirs(page, d.dirs, path, found);
    var (files, filesOpen, found2) := BuildFiles(page, d.files, path, found1);
    (DirEntry(d.name, dirsOpen || filesOpen, dirs, files), found2)
  }

  /** The loop over `elem.dirs`: the entries, whether some call returned true (which
      opens the parent) and the flag afterwards. */
  function BuildSubdirs(page: Page, ds: seq<Dir>, path: string, found: bool): (r: (seq<DirEntry>, bool, bool))
    ensures |r.0| == |ds|
    ensures forall i :: 0 <= i < |ds| ==> r.0[i].name == ds[i].name
    ensures found ==> r.2
    decreases ds
  {
    if |ds| == 0 then ([], false, found)
    else
      var (e, returned) := BuildDir(page, ds[0], path, found);
      var found' := if returned then true else found;
      var (rest, restOpen, found'') := BuildSubdirs(page, ds[1..], path, found');
      ([e] + rest, returned || restOpen, found'')
  }

  /** The loop over `elem.files`: the links, whether one of them was selected (which
      opens the parent) and the flag afterwards. */
  function BuildFiles(page: Page, fs: seq<string>, path: string, found: bool): (r: (seq<FileLink>, bool, bool))
    ensures |r.0| == |fs|
    ensures forall i :: 0 <= i < |fs| ==> r.0[i].text == fs[i] && r.0[i].href == Href(page.rootPath, path, fs[i])
    ensures found ==> r.2 && !r.1
    ensures found ==> forall i :: 0 <= i < |fs| ==> !r.0[i].selected
    ensures r.1 <==> exists i :: 0 <= i < |fs| && r.0[i].selected
    ensures r.2 <==> found || r.1
    ensures forall i :: 0 <= i < |fs| && r.0[i].selected ==> r.0[i].href == page.current
    decreases |fs|
  {
    if |fs| == 0 then ([], false, found)
    else
      var href := Href(page.rootPath, path, fs[0]);
      var hit := !found && page.current == href;
      var (rest, restOpen, found') := BuildFiles(page, fs[1..], path, if hit then true else found);
      ([FileLink(fs[0], href, hit)] + rest, hit || restOpen, found')
  }

  /** The `Object.keys(sourcesIndex).forEach` loop: each root named by its key, with an
      empty accumulated path, the flag carried from one root to the next. */
  function BuildRoots(page: Page, index: seq<(string, Dir)>, found: bool): (r: (seq<DirEntry>, bool))
    ensures |r.0| == |index|
    ensures forall i :: 0 <= i < |index| ==> r.0[i].name == index[i].0
    ensures found ==> r.1
    decreases |index|
  {
    if |index| == 0 then ([], found)
    else
      var (key, d) := index[0];
      var (e, found') := BuildDir(page, Dir(key, d.dirs, d.files), "", found);
      var (rest, found'') := BuildRoots(page, index[1..], found');
      ([e] + rest, found'')
  }

  /** `createSourceSidebar` on a page at `location` whose documentation root is
      `rootPath`, with stored sidebar preference `stored` and index `index` (in key
      order). */
  function CreateSourceSidebar(rootPath: string, location: string, stored: Option<string>,
                               index: seq<(string, Dir)>): (sb: SourceSidebar)
    ensures sb.toggle == SidebarToggle.CollapseGlyph <==> stored == Some("true")
    ensures |sb.entries| == |index|
    ensures forall i :: 0 <= i < |index| ==> sb.entries[i].name == index[i].0
    ensures sb.focus.Some? ==> sb.focus.value.selected
  {
    var page := Page(rootPath, StripFragment(location));
    var (entries, _) := BuildRoots(page, index, false);
    SourceSidebar(SidebarToggle.InitialGlyph(stored), entries, FirstSelected(RootsLinks(entries)))
  }

  // ---------------------------------------------------------------------------
  // Reading the built tree in document order

  /** The file links under an entry in document (pre-order) order: the subdirectories'
      links, then the entry's own. */
  function Links(e: DirEntry): seq<FileLink>
    decreases e
  {
    RootsLinks(e.dirs) + e.files
  }

  function RootsLinks(es: seq<DirEntry>): seq<FileLink>
    decreases es
  {
    if |es| == 0 then [] else Links(es[0]) + RootsLinks(es[1..])
  }

  /** `getElementsByClassName("selected")[0]`: the first selected link. */
  function FirstSelected(ls: seq<FileLink>): (r: Option<FileLink>)
    ensures r.Some? <==> exists i :: 0 <= i < |ls| && ls[i].selected
    ensures r.Some? ==> r.value.selected && r.value in ls
  {
    if |ls| == 0 then None
    else if ls[0].selected then Some(ls[0])
    else
      var r := FirstSelected(ls[1..]);
      assert forall i :: 0 < i < |ls| ==> ls[i] == ls[1..][i - 1];
      r
  }

  function HrefsOf(ls: seq<FileLink>): (h: seq<string>)
    ensures |h| == |ls|
    ensures forall i :: 0 <= i < |ls| ==> h[i] == ls[i].href
  {
    seq(|ls|, i requires 0 <= i < |ls| => ls[i].href)
  }

  function MarksOf(ls: seq<FileLink>): (m: seq<bool>)
    ensures |m| == |ls|
    ensures forall i :: 0 <= i < |ls| ==> m[i] == ls[i].selected
  {
    seq(|ls|, i requires 0 <= i < |ls| => ls[i].selected)
  }

  // ---------------------------------------------------------------------------
  // The reference: every file's address in pre-order, and first-match marking

  /** Every file address under `d` in pre-order, given the accumulated path of its
      parent. */
  function Hrefs(rootPath: string, d: Dir, parentPath: string): seq<string>
    decreases d
  {
    var path := parentPath + d.name + "/";
    SubdirHrefs(rootPath, d.dirs, path) + FileHrefs(rootPath, path, d.files)
  }

  function SubdirHrefs(rootPath: string, ds: seq<Dir>, path: string): seq<string>
    decreases ds
  {
    if |ds| == 0 then [] else Hrefs(rootPath, ds[0], path) + SubdirHrefs(rootPath, ds[1..], path)
  }

  function FileHrefs(rootPath: string, path: string, fs: seq<string>): (h: seq<string>)
    ensures |h| == |fs|
    ensures forall i :: 0 <= i < |fs| ==> h[i] == Href(rootPath, path, fs[i])
  {
    seq(|fs|, i requires 0 <= i < |fs| => Href(rootPath, path, fs[i]))
  }

  /** Every file address of the index in pre-order, roots in key order. */
  function IndexHrefs(rootPath: string, index: seq<(string, Dir)>): seq<string>
    decreases |index|
  {
    if |index| == 0 then []
    else
      var (key, d) := index[0];
      Hrefs(rootPath, Dir(key, d.dirs, d.files), "") + IndexHrefs(rootPath, index[1..])
  }

  /** Position `i` is marked when no match was found before the walk started, its
      address is `w`, and no earlier address is. */
  function Marks(h: seq<string>, w: string, found: bool): (m: seq<bool>)
    ensures |m| == |h|
  {
    if |h| == 0 then [] else [!found && h[0] == w] + Marks(h[1..], w, found || h[0] == w)
  }

  /** Marking a concatenation marks the second part as if the first part's match had
      already been found. */
  lemma {:induction false} MarksAppend(a: seq<string>, b: seq<string>, w: string, found: bool)
    ensures Marks(a + b, w, found) == Marks(a, w, found) + Marks(b, w, found || w in a)
  {
    if |a| > 0 {
      assert (a + b)[0] == a[0];
      assert (a + b)[1..] == a[1..] + b;
      assert w in a <==> a[0] == w || w in a[1..];
      MarksAppend(a[1..], b, w, found || a[0] == w);
    } else {
      assert a + b == b;
    }
  }

  /** The marked positions are exactly the first occurrence of `w`, and only when the
      walk started without a match. */
  lemma {:induction false} MarksFirstMatch(h: seq<string>, w: string, found: bool, i: nat)
    requires i < |h|
    ensures Marks(h, w, found)[i] <==> !found && h[i] == w && w !in h[..i]
  {
    if i > 0 {
      MarksFirstMatch(h[1..], w, found || h[0] == w, i - 1);
      assert h[..i] == [h[0]] + h[1..][..i - 1];
    }
  }

  /** At most one position is marked. */
  lemma MarksUnique(h: seq<string>, w: string, found: bool, i: nat, j: nat)
    requires i < |h| && j < |h|
    requires Marks(h, w, found)[i] && Marks(h, w, found)[j]
    ensures i == j
  {
    MarksFirstMatch(h, w, found, i);
    MarksFirstMatch(h, w, found, j);
  }

  /** Some position is marked exactly when the walk started without a match and `w`
      occurs. */
  lemma {:induction false} MarksSome(h: seq<string>, w: string, found: bool)
    ensures (exists i :: 0 <= i < |h| && Marks(h, w, found)[i]) <==> !found && w in h
  {
    if |h| > 0 {
      var rest := Marks(h[1..], w, found || h[0] == w);
      MarksSome(h[1..], w, found || h[0] == w);
      var m := Marks(h, w, found);
      assert m == [!found && h[0] == w] + rest;
      if exists i :: 0 <= i < |h| && m[i] {
        var i :| 0 <= i < |h| && m[i];
        MarksFirstMatch(h, w, found, i);
      }
      if !found && w in h {
        if h[0] == w {
          assert m[0];
        } else {
          assert w in h[1..];
          var k :| 0 <= k < |rest| && rest[k];
          assert m[k + 1];
        }
      }
    }
  }

  // ---------------------------------------------------------------------------
  // What the walk builds

  /** `createDirEntry` against the reference: the links under the entry have exactly the
      pre-order addresses, the selected ones are the first match when none was found
      before, the returned flag is the incoming flag or a match in the subtree, and the
      entry is open exactly when (a) the incoming flag was false and the subtree holds
      a match, or (b) the incoming flag was true and the directory has a subdirectory:
      a true flag flows into every subdirectory call and comes back true. */
  lemma {:induction false} BuildDirMeetsReference(page: Page, d: Dir, parentPath: string, found: bool)
    ensures var (e, found') := BuildDir(page, d, parentPath, found);
            var h := Hrefs(page.rootPath, d, parentPath);
            && HrefsOf(Links(e)) == h
            && MarksOf(Links(e)) == Marks(h, page.current, found)
            && found' == (found || page.current in h)
            && e.name == d.name
            && (e.open <==> if found then |d.dirs| > 0 else page.current in h)
    decreases d, 1
  {
    var path := parentPath + d.name + "/";
    var (dirs, dirsOpen, found1) := BuildSubdirs(page, d.dirs, path, found);
    var (files, filesOpen, found2) := BuildFiles(page, d.files, path, found1);
    var h1 := SubdirHrefs(page.rootPath, d.dirs, path);
    var h2 := FileHrefs(page.rootPath, path, d.files);
    BuildSubdirsMeetsReference(page, d.dirs, path, found);
    BuildFilesMeetsReference(page, d.files, path, found1);
    MarksAppend(h1, h2, page.current, found);
    LinksAppend(RootsLinks(dirs), files);
  }

  lemma {:induction false} BuildSubdirsMeetsReference(page: Page, ds: seq<Dir>, path: string, found: bool)
    ensures var (es, anyReturned, found') := BuildSubdirs(page, ds, path, found);
            var h := SubdirHrefs(page.rootPath, ds, path);
            && HrefsOf(RootsLinks(es)) == h
            && MarksOf(RootsLinks(es)) == Marks(h, page.current, found)
            && found' == (found || page.current in h)
            && (anyReturned <==> if found then |ds| > 0 else page.current in h)
    decreases ds, 0
  {
    if |ds| > 0 {
      var (e, returned) := BuildDir(page, ds[0], path, found);
      var found1 := if returned then true else found;
      var (rest, restOpen, found2) := BuildSubdirs(page, ds[1..], path, found1);
      var h1 := Hrefs(page.rootPath, ds[0], path);
      var h2 := SubdirHrefs(page.rootPath, ds[1..], path);
      BuildDirMeetsReference(page, ds[0], path, found);
      BuildSubdirsMeetsReference(page, ds[1..], path, found1);
      MarksAppend(h1, h2, page.current, found);
      LinksAppend(Links(e), RootsLinks(rest));
      assert RootsLinks([e] + rest) == Links(e) + RootsLinks(rest) by {
        assert ([e] + rest)[1..] == rest;
      }
    }
  }

  lemma {:induction false} BuildFilesMeetsReference(page: Page, fs: seq<string>, path: string, found: bool)
    ensures var (ls, anyHit, found') := BuildFiles(page, fs, path, found);
            var h := FileHrefs(page.rootPath, path, fs);
            && HrefsOf(ls) == h
            && MarksOf(ls) == Marks(h, page.current, found)
            && found' == (found || page.current in h)
            && (anyHit <==> !found && page.current in h)
    decreases |fs|
  {
    if |fs| > 0 {
      var href := Href(page.rootPath, path, fs[0]);
      var hit := !found && page.current == href;
      var found1 := if hit then true else found;
      var (ls, anyHit, found') := BuildFiles(page, fs, path, found);
      var rest := BuildFiles(page, fs[1..], path, found1).0;
      var h := FileHrefs(page.rootPath, path, fs);
      BuildFilesMeetsReference(page, fs[1..], path, found1);
      assert ls == [FileLink(fs[0], href, hit)] + rest;
      assert h[1..] == FileHrefs(page.rootPath, path, fs[1..]);
      assert page.current in h <==> page.current == href || page.current in h[1..];
      LinksAppend([FileLink(fs[0], href, hit)], rest);
      assert MarksOf([FileLink(fs[0], href, hit)]) == [hit];
    }
  }

  lemma {:induction false} BuildRootsMeetsReference(page: Page, index: seq<(string, Dir)>, found: bool)
    ensures var (es, found') := BuildRoots(page, index, found);
            var h := IndexHrefs(page.rootPath, index);
            && HrefsOf(RootsLinks(es)) == h
            && MarksOf(RootsLinks(es)) == Marks(h, page.current, found)
            && found' == (found || page.current in h)
    decreases |index|
  {
    if |index| > 0 {
      var (key, d) := index[0];
      var root := Dir(key, d.dirs, d.files);
      var (e, found1) := BuildDir(page, root, "", found);
      var (rest, found2) := BuildRoots(page, index[1..], found1);
      var h1 := Hrefs(page.rootPath, root, "");
      var h2 := IndexHrefs(page.rootPath, index[1..]);
      BuildDirMeetsReference(page, root, "", found);
      BuildRootsMeetsReference(page, index[1..], found1);
      MarksAppend(h1, h2, page.current, found);
      LinksAppend(Links(e), RootsLinks(rest));
      assert RootsLinks([e] + rest) == Links(e) + RootsLinks(rest) by {
        assert ([e] + rest)[1..] == rest;
      }
    }
  }

  /** Addresses and marks of concatenated link lists concatenate. */
  lemma LinksAppend(a: seq<FileLink>, b: seq<FileLink>)
    ensures HrefsOf(a + b) == HrefsOf(a) + HrefsOf(b)
    ensures MarksOf(a + b) == MarksOf(a) + MarksOf(b)
  {
  }

  /** The whole sidebar: the links are the index's files in pre-order with the reference
      addresses; a link is selected exactly when it is the first whose address equals the
      page's address without its fragment; so at most one link is selected, and focus
      goes to a selected link exactly when some address matches. */
  lemma CreateSourceSidebarSelectsFirstMatch(rootPath: string, location: string,
                                             stored: Option<string>, index: seq<(string, Dir)>)
    ensures var sb := CreateSourceSidebar(rootPath, location, stored, index);
            var ls := RootsLinks(sb.entries);
            var h := IndexHrefs(rootPath, index);
            var w := StripFragment(location);
            && |ls| == |h|
            && (forall i :: 0 <= i < |ls| ==> ls[i].href == h[i])
            && (forall i :: 0 <= i < |ls| ==> (ls[i].selected <==> h[i] == w && w !in h[..i]))
            && (forall i, j :: 0 <= i < |ls| && 0 <= j < |ls| && ls[i].selected && ls[j].selected ==> i == j)
            && (sb.focus.Some? <==> w in h)
            && (sb.focus.Some? ==> sb.focus.value.selected && sb.focus.value.href == w)
  {
    var page := Page(rootPath, StripFragment(location));
    var w := page.current;
    var (entries, _) := BuildRoots(page, index, false);
    var ls := RootsLinks(entries);
    var h := IndexHrefs(rootPath, index);
    BuildRootsMeetsReference(page, index, false);
    assert forall i :: 0 <= i < |ls| ==> ls[i].href == h[i] by {
      assert HrefsOf(ls) == h;
    }
    forall i | 0 <= i < |ls|
      ensures ls[i].selected <==> h[i] == w && w !in h[..i]
    {
      assert MarksOf(ls)[i] == ls[i].selected;
      MarksFirstMatch(h, w, false, i);
    }
    forall i, j | 0 <= i < |ls| && 0 <= j < |ls| && ls[i].selected && ls[j].selected
      ensures i == j
    {
      assert MarksOf(ls)[i] && MarksOf(ls)[j];
      MarksUnique(h, w, false, i, j);
    }
    MarksSome(h, w, false);
    if exists i :: 0 <= i < |h| && Marks(h, w, false)[i] {
      var i :| 0 <= i < |h| && Marks(h, w, false)[i];
      assert MarksOf(ls)[i];
    }
  }

  // ---------------------------------------------------------------------------
  // Two walks worked out

  /** A root `root` holding directory `a` with file `lib`, and file `main`, on the page
      of `a/lib` (with any fragment): both directories open, `lib` is selected and
      focused, `main` is not. */
  lemma NestedFileSelected(rootPath: string, root: string, a: string, lib: string, main: string, fragment: string)
    requires '#' !in Href(rootPath, root + "/" + a + "/", lib)
    ensures var index := [(root, Dir(root, [Dir(a, [], [lib])], [main]))];
            var url := Href(rootPath, root + "/" + a + "/", lib);
            var sb := CreateSourceSidebar(rootPath, url + "#" + fragment, None, index);
            && |sb.entries| == 1
            && sb.entries[0].open
            && sb.entries[0].dirs == [DirEntry(a, true, [], [FileLink(lib, url, true)])]
            && sb.entries[0].files == [FileLink(main, Href(rootPath, root + "/", main), false)]
            && sb.focus == Some(FileLink(lib, url, true))
            && sb.toggle == SidebarToggle.ExpandGlyph
  {
    var index := [(root, Dir(root, [Dir(a, [], [lib])], [main]))];
    var url := Href(rootPath, root + "/" + a + "/", lib);
    StripBeforeHash(url, fragment);
    var page := Page(rootPath, url);
    var libLink := FileLink(lib, url, true);
    var mainLink := FileLink(main, Href(rootPath, root + "/", main), false);
    var da := Dir(a, [], [lib]);
    var dr := Dir(root, [da], [main]);
    assert "" + root + "/" == root + "/";

    var fa := BuildFiles(page, da.files, root + "/" + a + "/", false);
    assert fa.0 == [libLink] && fa.1 && fa.2 by {
      assert da.files[1..] == [];
      assert page.current == Href(page.rootPath, root + "/" + a + "/", da.files[0]);
    }
    var ea := DirEntry(a, true, [], [libLink]);
    assert BuildDir(page, da, root + "/", false).0 == ea;
    assert BuildDir(page, da, root + "/", false).1;
    var sr := BuildSubdirs(page, dr.dirs, root + "/", false);
    assert sr.0 == [ea] && sr.1 && sr.2 by {
      assert dr.dirs[1..] == [];
    }
    var fr := BuildFiles(page, dr.files, root + "/", true);
    assert fr.0 == [mainLink] && !fr.1 by {
      assert dr.files[1..] == [];
    }
    var er := DirEntry(root, true, [ea], [mainLink]);
    assert BuildDir(page, dr, "", false).0 == er;
    assert BuildRoots(page, index, false).0 == [er] by {
      assert index[1..] == [];
    }
    assert RootsLinks([ea]) == [libLink];
    assert RootsLinks([er]) == [libLink, mainLink];
  }

  /** Once the match has been found, a later sibling directory that has a subdirectory is
      opened too, though no match lies under it; a later directory without
      subdirectories stays closed. */
  lemma LaterSiblingOpened(rootPath: string, r: string, a: string, b: string, c: string, d: string,
                           lib: string, x: string, y: string)
    requires '#' !in Href(rootPath, r + "/" + a + "/", lib)
    ensures var index := [(r, Dir(r, [Dir(a, [], [lib]), Dir(b, [Dir(c, [], [x])], []), Dir(d, [], [y])], []))];
            var sb := CreateSourceSidebar(rootPath, Href(rootPath, r + "/" + a + "/", lib), None, index);
            && |sb.entries| == 1 && |sb.entries[0].dirs| == 3 && |sb.entries[0].dirs[0].files| == 1
            && |sb.entries[0].dirs[1].dirs| == 1
            && sb.entries[0].dirs[0].open
            && sb.entries[0].dirs[0].files[0].selected
            && sb.entries[0].dirs[1].open
            && !sb.entries[0].dirs[1].dirs[0].open
            && !sb.entries[0].dirs[2].open
  {
    var da := Dir(a, [], [lib]);
    var dc := Dir(c, [], [x]);
    var db := Dir(b, [dc], []);
    var dd := Dir(d, [], [y]);
    var dr := Dir(r, [da, db, dd], []);
    var index := [(r, dr)];
    var url := Href(rootPath, r + "/" + a + "/", lib);
    StripBeforeHash(url, "");
    var page := Page(rootPath, url);
    var path := r + "/";
    assert "" + r + "/" == path;

    var ea := BuildDir(page, da, path, false);
    assert ea.0.open && ea.0.files[0].selected && ea.1 by {
      var sa := BuildSubdirs(page, da.dirs, path + a + "/", false);
      assert !sa.1 && !sa.2;
      var fs := BuildFiles(page, da.files, path + a + "/", false);
      assert da.files[1..] == [];
      assert page.current == Href(page.rootPath, path + a + "/", da.files[0]);
      assert fs.0[0].selected && fs.1 && fs.2;
    }

    var eb := BuildDir(page, db, path, true);
    assert eb.0.open && !eb.0.dirs[0].open by {
      BuildDirMeetsReference(page, db, path, true);
      BuildDirMeetsReference(page, dc, path + b + "/", true);
      SubdirsHead(page, db.dirs, path + b + "/", true);
    }

    var ed := BuildDir(page, dd, path, true);
    assert !ed.0.open by {
      BuildDirMeetsReference(page, dd, path, true);
    }

    var subs := BuildSubdirs(page, dr.dirs, path, false);
    SubdirsHead(page, dr.dirs, path, false);
    SubdirsHead(page, dr.dirs[1..], path, true);
    SubdirsHead(page, dr.dirs[1..][1..], path, true);
    assert subs.0[..3] == [ea.0, eb.0, ed.0];
    assert index[1..] == [];
    assert BuildRoots(page, index, false).0[0].dirs == subs.0;
  }

  /** The first entry built for a non-empty list of subdirectories is that of its head,
      and the rest are built with the flag the head returned. */
  lemma SubdirsHead(page: Page, ds: seq<Dir>, path: string, found: bool)
    requires |ds| > 0
    ensures var (e, returned) := BuildDir(page, ds[0], path, found);
            var es := BuildSubdirs(page, ds, path, found).0;
            && es[0] == e
            && es[1..] == BuildSubdirs(page, ds[1..], path, found || returned).0
  {
  }

  /** Stripping the fragment keeps everything before the first `#`. */
  lemma {:induction false} StripBeforeHash(url: string, fragment: string)
    requires '#' !in url
    ensures StripFragment(url + "#" + fragment) == url
    ensures StripFragment(url) == url
  {
    if |url| > 0 {
      assert (url + "#" + fragment)[1..] == url[1..] + "#" + fragment;
      StripBeforeHash(url[1..], fragment);
    }
  }
}
