/**
 A build that fails at its last rename, the manifest's, and the next one.
 */
module FailedBuilds {
  import opened Options
  import opened FileTree
  import opened Promotion
  import opened NestedPromotion
  import opened FileSystem
  import opened Pruning
  import opened Manifest
  import opened ManagedSubtrees
  import opened Strings
  import opened Builds

  /** The pages of a failed build are live but in no manifest.  The next successful
      build clears them away exactly when each of them lies at or below one of its own
      roots, or where pruning by the manifest before the failure goes. */
  lemma AfterRefusedManifest(t: Tree, stg: string, prev: Pages, pages: Pages, ever: set<Path>, c: Choices, u: Tree,
                             t': Tree, stg': string, next: Pages, c': Choices, v: Tree)
    requires Shows(t, prev, ever) && StagedBuild(t, stg, pages)
    requires Unfinished(t, stg, pages.Keys, c, u) && LuckyOrder(pages, c.steps)
    requires KeepsPages(u, ever + pages.Keys, t') && StagedBuild(t', stg', next)
    requires PromotedStaging(t', stg', next.Keys, c', v) && LuckyOrder(next, c'.steps)
    ensures Shows(v, next, ever + pages.Keys + next.Keys)
       <==> forall r :: r in pages ==> Covered(next.Keys, r) || !Spared(next.Keys, prev.Keys, r)
  {
    ShowsFacts(t, prev, ever);
    UnfinishedLeaves(t, stg, pages, c, u);
    SameManifest(t, u);
    SameManifest(u, t');
    BuildLeaves(t', stg', next, c', v);
    hide *;
    var all := ever + pages.Keys + next.Keys;
    forall r | r in all ensures PagePath(r) && At(v, Index(r)) == AfterBoth(prev, pages, next, r) {
      IndexAfterBoth(t, prev, pages, ever, u, t', next, r);
    }
    ShowsIffCleared(v, prev, pages, next, all);
  }

  /** The index file at `r` after both builds. */
  ghost function AfterBoth(prev: Pages, pages: Pages, next: Pages, r: Path): Option<Node> {
    if r in next then Some(File(next[r]))
    else if r in pages && !Covered(next.Keys, r) && Spared(next.Keys, prev.Keys, r) then Some(File(pages[r]))
    else None
  }

  lemma ShowsIffCleared(v: Tree, prev: Pages, pages: Pages, next: Pages, all: set<Path>)
    requires WellFormed(v) && ManifestRoots(v) == next.Keys && pages.Keys + next.Keys <= all
    requires forall r :: r in all ==> PagePath(r) && At(v, Index(r)) == AfterBoth(prev, pages, next, r)
    ensures Shows(v, next, all) <==> forall r :: r in pages ==> Covered(next.Keys, r) || !Spared(next.Keys, prev.Keys, r)
  {
    hide PagePath, ManifestRoots, Index, Spared, WellFormed, Covered;
    forall r | r in next ensures Covered(next.Keys, r) { RootCovered(next.Keys, r); }
    forall r | r in all
      ensures (At(v, Index(r)) == if r in next then Some(File(next[r])) else None)
         <==> (r in pages ==> Covered(next.Keys, r) || !Spared(next.Keys, prev.Keys, r))
    {
      assert r in next ==> Covered(next.Keys, r);
    }
  }

  lemma RootCovered(d: set<Path>, r: Path)
    requires r in d
    ensures Covered(d, r)
  {
  }

  lemma IndexAfterBoth(t: Tree, prev: Pages, pages: Pages, ever: set<Path>, u: Tree, t': Tree, next: Pages, r: Path)
    requires Shows(t, prev, ever) && ManifestRoots(t') == prev.Keys && KeepsPages(u, ever + pages.Keys, t')
    requires forall x :: PagePath(x) ==> At(u, Index(x)) == IndexAfter(t, pages, x)
    requires r in ever + pages.Keys + next.Keys
    ensures PagePath(r)
    ensures IndexAfter(t', next, r) == AfterBoth(prev, pages, next, r)
  {
    hide PagePath, ManifestRoots, Index, Spared, Covered, WellFormed;
    assert PagePath(r);
    if r !in next {
      IndexOverShown(t, prev, pages, ever, r);
    }
  }

  lemma SameManifest(t: Tree, u: Tree)
    requires At(u, [MANIFEST]) == At(t, [MANIFEST])
    ensures ManifestRoots(u) == ManifestRoots(t) && (ListsPages(t) ==> ListsPages(u))
  {
  }

  // ---------------------------------------------------------------------------
  // A ghost page
  // ---------------------------------------------------------------------------

  /** Neither live nor staged is there any managed subtree or top-level file. */
  ghost predicate OnlyPages(t: Tree, stg: string) {
    && (forall sub | sub in SUBTREES :: At(t, [sub]) == None && At(t, Staged(stg, [sub])) == None)
    && forall name | name in TOP_FILES :: At(t, Staged(stg, [name])) == None
  }

  lemma {:induction false} NothingToSwap(t: Tree, stg: string, bks: seq<string>, n: nat)
    requires OnlyPages(t, stg) && n <= |SUBTREES| && n <= |bks|
    requires forall bk | bk in bks :: FreshName(t, stg, bk) && bk != MANIFEST
    ensures SwapAll(t, stg, bks, n) == Done(t) && FreshBackups(t, stg, bks, n)
  {
    if n > 0 {
      NothingToSwap(t, stg, bks, n - 1);
      assert SUBTREES[n - 1] in SUBTREES && bks[n - 1] in bks;
    }
  }

  lemma {:induction false} NoFilesToPromote(t: Tree, stg: string, n: nat)
    requires OnlyPages(t, stg) && n <= |TOP_FILES|
    ensures PromoteTopFiles(t, stg, n) == Done(t)
  {
    if n > 0 {
      NoFilesToPromote(t, stg, n - 1);
      assert TOP_FILES[n - 1] in TOP_FILES;
    }
  }

  /** An empty site with one page staged, at `[a]`. */
  function OneStaged(stg: string, a: string, text: string): Tree {
    map[[] := Dir, [stg] := Dir, [stg, a] := Dir, [stg, a, "index.html"] := File(text), [stg, MANIFEST] := File(a + "\n")]
  }

  function OnePage(a: string, text: string): (pages: Pages)
    requires PagePath([a])
  {
    map[[a] := text]
  }

  const NO_PAGES: Pages := map[]

  predicate GoodNames(stg: string, a: string, bk: string) {
    Hidden(stg) && stg != MANIFEST && PagePath([a]) && Hidden(bk) && bk != stg && bk != MANIFEST
  }

  function BuildOf(a: string, bk: string, steps: seq<Step>): Choices {
    Choices([bk, bk, bk, bk], steps, [])
  }

  lemma OneStagedAt(stg: string, a: string, text: string, p: Path)
    requires stg != MANIFEST && a != MANIFEST
    ensures var t := OneStaged(stg, a, text);
      && At(t, []) == Some(Dir) && (p != [] && p[0] != stg ==> At(t, p) == None)
      && (|p| > 2 && p in t ==> p == [stg, a, "index.html"])
      && (|p| == 2 && p in t ==> p == [stg, a] || p == [stg, MANIFEST])
      && At(t, [stg, a, "index.html"]) == Some(File(text)) && At(t, [stg, MANIFEST]) == Some(File(a + "\n"))
  {
  }

  lemma OneHangs(stg: string, a: string, text: string)
    requires stg != MANIFEST && a != MANIFEST
    ensures WellFormed(OneStaged(stg, a, text))
  {
    var t := OneStaged(stg, a, text);
    forall p, q: Path | p <= q && p != q && q in t ensures DirExists(t, p) {
      assert p == q[..|p|];
      assert |p| == 0 ==> p == [];
      assert |p| == 1 ==> p == [q[0]];
      assert |p| == 2 ==> p == [q[0], q[1]];
    }
  }

  lemma OneManifest(a: string, text: string)
    requires PagePath([a])
    ensures IsManifestOf(a + "\n", OnePage(a, text).Keys)
  {
    hide PagePath;
    var roots := OnePage(a, text).Keys;
    var names := set r | r in roots :: Slash(r);
    assert Slash([a]) == a;
    assert [a] in roots && names == {a};
    assert SortedLines([a], {a});
    assert Text([a]) == a + "\n";
  }

  lemma NameOfPage(a: string)
    requires PagePath([a])
    ensures PageHead(a) && !Hidden(a) && a != MANIFEST
  {
    PageHasHead([a]);
    assert [a][0] == a;
    HiddenIsNoPage(MANIFEST);
  }

  lemma OneIsStaged(stg: string, a: string, text: string, bk: string)
    requires GoodNames(stg, a, bk)
    ensures StagedBuild(OneStaged(stg, a, text), stg, OnePage(a, text))
  {
    var t, pages := OneStaged(stg, a, text), OnePage(a, text);
    hide IsManifestOf, OneStaged, WellFormed;
    NameOfPage(a);
    OneHangs(stg, a, text);
    OneManifest(a, text);
    forall r: Path | PagePath(r)
      ensures At(t, Staged(stg, Index(r))) == if r in pages then Some(File(pages[r])) else None
    {
      OneIndexStaged(stg, a, text, r);
    }
    OneStagedAt(stg, a, text, []);
    assert Staged(stg, [MANIFEST]) == [stg, MANIFEST];
  }

  lemma OneIndexStaged(stg: string, a: string, text: string, r: Path)
    requires stg != MANIFEST && a != MANIFEST && r != []
    ensures At(OneStaged(stg, a, text), Staged(stg, Index(r))) == if r == [a] then Some(File(text)) else None
  {
    hide OneStaged;
    var p := Staged(stg, Index(r));
    assert p == [stg] + r + ["index.html"];
    OneStagedAt(stg, a, text, p);
    if p == [stg, a, "index.html"] { assert r == p[1..2] == [a]; }
  }

  lemma TopFilesAreNoPages(name: string)
    requires name in TOP_FILES
    ensures !PageHead(name) && name != MANIFEST
  {
    assert TopFileName(name) by { assert name[|name| - 4] == '.' || name[|name| - 5] == '.'; }
    TopFileIsNoPage(name);
  }

  lemma OneHasOnlyPages(stg: string, a: string, text: string)
    requires Hidden(stg) && stg != MANIFEST && PagePath([a])
    ensures OnlyPages(OneStaged(stg, a, text), stg)
  {
    var t := OneStaged(stg, a, text);
    NameOfPage(a);
    hide OneStaged, PagePath;
    forall sub | sub in SUBTREES ensures At(t, [sub]) == None && At(t, Staged(stg, [sub])) == None {
      assert sub in MANAGED && !Hidden(sub);
      OneStagedAt(stg, a, text, [sub]);
      OneStagedAt(stg, a, text, [stg, sub]);
      assert Staged(stg, [sub]) == [stg, sub] && [stg, sub][1] == sub;
    }
    forall name | name in TOP_FILES ensures At(t, Staged(stg, [name])) == None {
      TopFilesAreNoPages(name);
      OneStagedAt(stg, a, text, [stg, name]);
      assert Staged(stg, [name]) == [stg, name] && [stg, name][1] == name;
    }
  }

  /** Nothing is in the way of the first build. */
  lemma OneMayRun(stg: string, a: string, text: string, bk: string)
    requires GoodNames(stg, a, bk)
    ensures var t := OneStaged(stg, a, text);
      && Shows(t, NO_PAGES, {}) && ClearWay(t, OnePage(a, text).Keys) && FreshName(t, stg, bk)
  {
    var t := OneStaged(stg, a, text);
    NameOfPage(a);
    OneHangs(stg, a, text);
    hide OneStaged, WellFormed, PageHead, PagePath;
    OneStagedAt(stg, a, text, [MANIFEST]);
    forall q: Path | [bk] <= q ensures At(t, q) == None {
      OneStagedAt(stg, a, text, q);
      assert q[0] == bk;
    }
    forall q: Path | q <= [a] ensures FreeOrDir(At(t, q)) {
      OneStagedAt(stg, a, text, q);
      if q != [] { assert q[0] == a; }
    }
  }

  lemma OneIsLegal(t: Tree, stg: string, a: string, text: string, bk: string)
    requires PagePath([a]) && FreshName(t, stg, bk)
    ensures var active, steps := OnePage(a, text).Keys, [Step([a], [], bk)];
      DeepestFirst(active, steps) && KidsAncestorsFirst(steps) && LegalRun(t, stg, active, steps, 0)
  {
    hide PromoteOne, FreshName, PagePath;
    var active, steps := OnePage(a, text).Keys, [Step([a], [], bk)];
    assert active == {[a]};
    assert Roots(steps) == [[a]];
    assert Enumerates([], ActiveKids(WithDirs(t, Parent([a])), [a], active));
    assert LegalStep(t, stg, active, steps[0]);
  }

  /** A run of `promoteStaging` over nothing but pages. */
  lemma OnlyPagesRun(t: Tree, stg: string, active: set<Path>, a: string, bk: string, steps: seq<Step>)
    requires OnlyPages(t, stg) && FreshName(t, stg, bk) && bk != MANIFEST && ManifestRoots(t) == {}
    requires DeepestFirst(active, steps) && LegalRun(t, stg, active, steps, 0) && Promote(t, stg, steps, 0).Done?
    ensures Unfinished(t, stg, active, BuildOf(a, bk, steps), Promote(t, stg, steps, 0).tree)
  {
    hide OnlyPages, FreshName, DeepestFirst, LegalRun, Promote, ManifestRoots, SwapAll, PromoteTopFiles, FreshBackups;
    var c := BuildOf(a, bk, steps);
    NothingToSwap(t, stg, c.bks, |SUBTREES|);
    NoFilesToPromote(t, stg, |TOP_FILES|);
    assert Enumerates(c.stale, {});
  }

  lemma NothingListed(t: Tree)
    requires Shows(t, NO_PAGES, {})
    ensures ManifestRoots(t) == {}
  {
  }

  /** The tree in which the first build is refused its manifest: the page is live. */
  lemma OneIsLive(stg: string, a: string, text: string, bk: string) returns (u: Tree)
    requires GoodNames(stg, a, bk)
    ensures Unfinished(OneStaged(stg, a, text), stg, OnePage(a, text).Keys, BuildOf(a, bk, [Step([a], [], bk)]), u)
    ensures Promoted(OneStaged(stg, a, text), stg, OnePage(a, text).Keys, {}, u)
  {
    hide DeepestFirst, LegalRun, Promote, ClearWay, StagedPages, OnlyPages, FreshName, Promoted, StagedBuild, Unfinished,
      KidsAncestorsFirst, ManifestRoots, Shows, OneStaged, PagePath;
    var t, active, steps := OneStaged(stg, a, text), OnePage(a, text).Keys, [Step([a], [], bk)];
    OneIsStaged(stg, a, text, bk);
    OneHasOnlyPages(stg, a, text);
    OneMayRun(stg, a, text, bk);
    NothingListed(t);
    OneIsLegal(t, stg, a, text, bk);
    StagedBuildMeansStagedPages(t, stg, OnePage(a, text));
    AncestorsFirstPromotes(t, stg, active, steps);
    OnlyPagesRun(t, stg, active, a, bk, steps);
    u := Promote(t, stg, steps, 0).tree;
  }

  /** Nothing has come up but the page. */
  lemma OnlyThePageIsNew(stg: string, a: string, text: string, u: Tree, p: Path)
    requires PagePath([a]) && Promoted(OneStaged(stg, a, text), stg, OnePage(a, text).Keys, {}, u)
    requires Hidden(stg) && stg != MANIFEST && p != [] && p[0] != a && p[0] != stg
    ensures At(u, p) == None
  {
    var active := OnePage(a, text).Keys;
    NameOfPage(a);
    OneStagedAt(stg, a, text, p);
    hide OneStaged, PagePath;
    assert !Covered(active, p) && !Above(active, p) && !Covered({}, p);
    assert !([stg] <= p);
  }

  lemma NothingIsStaged(stg: string, a: string, text: string, u: Tree, r: Path)
    requires PagePath([a]) && Promoted(OneStaged(stg, a, text), stg, OnePage(a, text).Keys, {}, u)
    requires stg != MANIFEST && r != []
    ensures At(u, Staged(stg, Index(r))) == None
  {
    NameOfPage(a);
    OneIndexStaged(stg, a, text, r);
    hide OneStaged, PagePath;
    assert r == [a] ==> [a] <= Index(r) && [a] in OnePage(a, text).Keys;
  }

  lemma StillOnlyPages(stg: string, a: string, text: string, u: Tree)
    requires PagePath([a]) && Promoted(OneStaged(stg, a, text), stg, OnePage(a, text).Keys, {}, u)
    requires Hidden(stg) && stg != MANIFEST
    ensures OnlyPages(u, stg)
  {
    NameOfPage(a);
    OneHasOnlyPages(stg, a, text);
    hide PagePath, PageHead, OneStaged;
    forall sub | sub in SUBTREES ensures At(u, [sub]) == None && At(u, Staged(stg, [sub])) == None {
      assert sub in MANAGED && !Hidden(sub) && sub != a;
      OnlyThePageIsNew(stg, a, text, u, [sub]);
    }
    forall name | name in TOP_FILES ensures At(u, Staged(stg, [name])) == None {}
  }

  /** Rewriting a file keeps the tree together. */
  lemma RewrittenHangs(t: Tree, p: Path, text: string)
    requires WellFormed(t) && p in t && t[p].File?
    ensures WellFormed(t[p := File(text)])
  {
    var u := t[p := File(text)];
    forall a, q: Path | a <= q && a != q && q in u ensures DirExists(u, a) { AboveIsDir(t, a, q); }
  }

  lemma PageIsKept(stg: string, a: string, u: Tree, t': Tree)
    requires PagePath([a]) && Hidden(stg) && stg != MANIFEST && WellFormed(u) && [stg, MANIFEST] in u && u[[stg, MANIFEST]].File?
    requires t' == u[[stg, MANIFEST] := File("")]
    ensures KeepsPages(u, {[a]}, t')
  {
    hide WellFormed, PagePath;
    RewrittenHangs(u, [stg, MANIFEST], "");
    NameOfPage(a);
    assert Index([a])[0] == a;
  }

  lemma NoneStaged(stg: string, a: string, text: string, u: Tree, t': Tree, r: Path)
    requires PagePath([a]) && Promoted(OneStaged(stg, a, text), stg, OnePage(a, text).Keys, {}, u)
    requires stg != MANIFEST && t' == u[[stg, MANIFEST] := File("")] && r != []
    ensures At(t', Staged(stg, Index(r))) == None
  {
    hide Promoted, OneStaged, PagePath;
    NothingIsStaged(stg, a, text, u, r);
    assert |Staged(stg, Index(r))| > 2;
  }

  /** The next build, of no pages, is staged. */
  lemma NoneIsStaged(stg: string, a: string, text: string, u: Tree, t': Tree)
    requires PagePath([a]) && Promoted(OneStaged(stg, a, text), stg, OnePage(a, text).Keys, {}, u)
    requires Hidden(stg) && stg != MANIFEST && WellFormed(t') && t' == u[[stg, MANIFEST] := File("")]
    ensures StagedBuild(t', stg, NO_PAGES)
  {
    hide Promoted, OneStaged, WellFormed, PagePath, IsManifestOf, OnePage, Index;
    assert Staged(stg, [MANIFEST]) == [stg, MANIFEST];
    EmptyManifest();
    assert NO_PAGES.Keys == {};
    forall r: Path | PagePath(r) ensures At(t', Staged(stg, Index(r))) == None {
      NotEmpty(r);
      NoneStaged(stg, a, text, u, t', r);
    }
  }

  lemma NotEmpty(r: Path)
    requires PagePath(r)
    ensures r != []
  {
  }

  lemma EmptyManifest()
    ensures IsManifestOf("", {})
  {
    var names := set r: Path | r in {} :: Slash(r);
    assert names == {} && SortedLines([], names) && Text([]) == "";
  }

  lemma NextMayRun(stg: string, a: string, text: string, bk: string, u: Tree, t': Tree)
    requires GoodNames(stg, a, bk) && Promoted(OneStaged(stg, a, text), stg, OnePage(a, text).Keys, {}, u)
    requires t' == u[[stg, MANIFEST] := File("")]
    ensures OnlyPages(t', stg) && FreshName(t', stg, bk) && At(t', [MANIFEST]) == None
  {
    NameOfPage(a);
    hide PagePath, PageHead, OneStaged, Promoted, OnlyPages;
    StillOnlyPages(stg, a, text, u);
    RewrittenOnlyPages(u, stg, t');
    OnlyThePageIsNew(stg, a, text, u, [MANIFEST]);
    forall q: Path | [bk] <= q ensures At(t', q) == None {
      assert q[0] == bk;
      OnlyThePageIsNew(stg, a, text, u, q);
    }
  }

  lemma RewrittenOnlyPages(u: Tree, stg: string, t': Tree)
    requires OnlyPages(u, stg) && t' == u[[stg, MANIFEST] := File("")]
    ensures OnlyPages(t', stg)
  {
    forall sub | sub in SUBTREES ensures At(t', [sub]) == None && At(t', Staged(stg, [sub])) == None {
      assert sub in MANAGED && !Hidden(sub) && Staged(stg, [sub])[1] == sub;
    }
    forall name | name in TOP_FILES ensures At(t', Staged(stg, [name])) == None {
      TopFilesAreNoPages(name);
      assert Staged(stg, [name])[1] == name;
    }
  }

  lemma NextRuns(t: Tree, stg: string, a: string, bk: string) returns (v: Tree)
    requires OnlyPages(t, stg) && FreshName(t, stg, bk) && bk != MANIFEST && At(t, [MANIFEST]) == None && stg != MANIFEST
    requires StagedBuild(t, stg, NO_PAGES)
    ensures ManifestRoots(t) == {} && PromotedStaging(t, stg, NO_PAGES.Keys, BuildOf(a, bk, []), v)
  {
    hide OnlyPages, FreshName, Unfinished;
    assert Roots([]) == [];
    OnlyPagesRun(t, stg, {}, a, bk, []);
    var text := StagedManifest(t, stg, NO_PAGES);
    assert Parent([MANIFEST]) == [];
    v := PromoteFile(t, stg, MANIFEST).tree;
    assert Unfinished(t, stg, {}, BuildOf(a, bk, []), t);
    assert NO_PAGES.Keys == {};
  }

  /** The first build and what it leaves. */
  lemma FirstBuild(stg: string, a: string, text: string, bk: string) returns (u: Tree)
    requires GoodNames(stg, a, bk)
    ensures var t, page, steps := OneStaged(stg, a, text), OnePage(a, text), [Step([a], [], bk)];
      && Shows(t, NO_PAGES, {}) && StagedBuild(t, stg, page)
      && Unfinished(t, stg, page.Keys, BuildOf(a, bk, steps), u) && LuckyOrder(page, steps)
      && Promoted(t, stg, page.Keys, {}, u)
      && forall r :: PagePath(r) ==> At(u, Index(r)) == IndexAfter(t, page, r)
    ensures WellFormed(u) && At(u, [stg, MANIFEST]) == Some(File(a + "\n"))
  {
    hide OneStaged, Unfinished, StagedBuild, PagePath, Promoted, ManifestRoots, Shows, Index, WellFormed, IndexAfter, OnePage;
    var t, page, steps := OneStaged(stg, a, text), OnePage(a, text), [Step([a], [], bk)];
    OneIsStaged(stg, a, text, bk);
    OneMayRun(stg, a, text, bk);
    NothingListed(t);
    u := OneIsLive(stg, a, text, bk);
    UnfinishedLeaves(t, stg, page, BuildOf(a, bk, steps), u);
    assert Staged(stg, [MANIFEST]) == [stg, MANIFEST];
    OneStagedAt(stg, a, text, []) by { NameOfPage(a); }
  }

  /** The failing input: whatever the names, a site's first build puts its page live
      and is refused the manifest; the page is dropped; the next build succeeds, its
      manifest is empty, and the page is still there. */
  lemma GhostStays(stg: string, a: string, text: string, bk: string) returns (u: Tree, t': Tree, v: Tree)
    requires GoodNames(stg, a, bk)
    ensures var t, page, steps := OneStaged(stg, a, text), OnePage(a, text), [Step([a], [], bk)];
      && Shows(t, NO_PAGES, {}) && StagedBuild(t, stg, page)
      && Unfinished(t, stg, page.Keys, BuildOf(a, bk, steps), u) && LuckyOrder(page, steps)
    ensures KeepsPages(u, {[a]}, t') && StagedBuild(t', stg, NO_PAGES)
    ensures PromotedStaging(t', stg, NO_PAGES.Keys, BuildOf(a, bk, []), v) && LuckyOrder(NO_PAGES, [])
    ensures At(v, Index([a])) == Some(File(text)) && ManifestRoots(v) == {}
  {
    hide OneStaged, Unfinished, StagedBuild, KeepsPages, PromotedStaging, PagePath, Promoted, ManifestRoots, Shows, Index,
      WellFormed, IndexAfter, OnlyPages, FreshName, OnePage;
    u := FirstBuild(stg, a, text, bk);
    t' := u[[stg, MANIFEST] := File("")];
    PageIsKept(stg, a, u, t');
    KeptHangs(u, {[a]}, t');
    NoneIsStaged(stg, a, text, u, t');
    NextMayRun(stg, a, text, bk, u, t');
    v := NextRuns(t', stg, a, bk);
    BuildLeaves(t', stg, NO_PAGES, BuildOf(a, bk, []), v);
    PageStays(OneStaged(stg, a, text), u, t', a, text, v);
  }

  lemma KeptHangs(t: Tree, ever: set<Path>, u: Tree)
    requires KeepsPages(t, ever, u)
    ensures WellFormed(u)
  {
  }

  lemma PageStays(t: Tree, u: Tree, t': Tree, a: string, text: string, v: Tree)
    requires PagePath([a]) && KeepsPages(u, {[a]}, t') && ManifestRoots(t') == {}
    requires forall r :: PagePath(r) ==> At(u, Index(r)) == IndexAfter(t, OnePage(a, text), r)
    requires forall r :: PagePath(r) ==> At(v, Index(r)) == IndexAfter(t', NO_PAGES, r)
    ensures At(v, Index([a])) == Some(File(text))
  {
    hide PagePath, Index, WellFormed, ManifestRoots;
    assert !Covered(NO_PAGES.Keys, [a]) && Spared(NO_PAGES.Keys, {}, [a]);
    assert At(v, Index([a])) == IndexAfter(t', NO_PAGES, [a]);
    assert At(u, Index([a])) == IndexAfter(t, OnePage(a, text), [a]);
  }
}
