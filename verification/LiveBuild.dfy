/**
 What goes live besides the pages: after a build every top-level file and every managed
 subtree is the staged one.
 */
module LiveBuild {
  import opened Options
  import opened FileTree
  import opened Promotion
  import opened NestedPromotion
  import opened FileSystem
  import opened PromotionMethods
  import opened Pruning
  import opened ManagedSubtrees
  import opened Builds

  // ---------------------------------------------------------------------------
  // Top-level files
  // ---------------------------------------------------------------------------

  /** The files a build puts at the top of the site. */
  const SITE_FILES: set<string> :=
    {"index.html", "style.css", "rss.xml", "atom.xml", "llms.txt", "llms-full.txt", "sitemap.xml", "robots.txt"}

  /** Something stands where a staged file has to go: a directory, or anything at all
      if what is staged is a directory. */
  ghost predicate InTheWay(t: Tree, stg: string, f: string) {
    var staged, live := At(t, [stg, f]), At(t, [f]);
    staged.Some? && live.Some? && !(staged.value.File? && live.value.File?)
  }

  /** `u` is `t` with all that was staged at `names` live and no longer staged. */
  ghost predicate WentLive(t: Tree, stg: string, names: set<string>, u: Tree) {
    && (forall f: string, x: Path {:trigger At(u, [f] + x)} :: f in names ==>
          At(u, [f] + x) == if At(t, [stg, f]).Some? then At(t, [stg, f] + x) else At(t, [f] + x))
    && (forall f: string, x: Path {:trigger At(u, [stg, f] + x)} :: f in names ==> At(u, [stg, f] + x) == None)
    && (forall p: Path {:trigger At(u, p)} :: Elsewhere(stg, names, p) ==> At(u, p) == At(t, p))
  }

  /** Neither at one of `names` nor where it is staged. */
  predicate Elsewhere(stg: string, names: set<string>, p: Path) {
    p == [] || (p[0] !in names && (p[0] == stg && |p| > 1 ==> p[1] !in names))
  }

  ghost function Files(n: nat): set<string>
    requires n <= |TOP_FILES|
  {
    set i | 0 <= i < n :: TOP_FILES[i]
  }

  lemma AllTopFiles(f: string)
    ensures f in Files(|TOP_FILES|) <==> f in SITE_FILES
    ensures f in SITE_FILES ==> !Hidden(f) && !PageHead(f)
  {
    var all := TOP_FILES;
    assert all[0] == "index.html" && all[1] == "style.css" && all[2] == "rss.xml" && all[3] == "atom.xml";
    assert all[4] == "llms.txt" && all[5] == "llms-full.txt" && all[6] == "sitemap.xml" && all[7] == "robots.txt";
    if f in SITE_FILES {
      assert f[|f| - 4] == '.' || f[|f| - 5] == '.';
      assert !SlugSegment(f);
    }
  }

  lemma FilesGrow(n: nat)
    requires n < |TOP_FILES|
    ensures Files(n + 1) == Files(n) + {TOP_FILES[n]} && TOP_FILES[n] !in Files(n)
    ensures forall f :: f in Files(n + 1) ==> !Hidden(f)
  {
    var all := TOP_FILES;
    assert all[0] == "index.html" && all[1] == "style.css" && all[2] == "rss.xml" && all[3] == "atom.xml";
    assert all[4] == "llms.txt" && all[5] == "llms-full.txt" && all[6] == "sitemap.xml" && all[7] == "robots.txt";
  }

  lemma NothingWentLive(t: Tree, stg: string)
    ensures WentLive(t, stg, {}, t)
  {
  }

  lemma NothingBelow(t: Tree, p: Path, x: Path)
    requires WellFormed(t) && p !in t
    ensures At(t, p + x) == None
  {
    if x == [] {
      assert p + x == p;
    } else if p + x in t {
      AboveIsDir(t, p, p + x);
    }
  }

  /** A file that is not staged: nothing to do. */
  lemma NotStaged(t: Tree, stg: string, names: set<string>, u: Tree, f: string)
    requires WellFormed(u) && Hidden(stg) && !Hidden(f) && f !in names && stg !in names && WentLive(t, stg, names, u)
    requires [stg, f] !in u && [stg, f] !in t
    ensures WentLive(t, stg, names + {f}, u)
  {
    forall x: Path ensures At(u, [f] + x) == At(t, [f] + x) {
      assert Elsewhere(stg, names, [f] + x);
    }
    forall x: Path ensures At(u, [stg, f] + x) == None {
      NothingBelow(u, [stg, f], x);
    }
  }

  /** A file that is staged moves. */
  lemma StagedMoves(t: Tree, stg: string, names: set<string>, u: Tree, f: string)
    requires Hidden(stg) && !Hidden(f) && f !in names && stg !in names && WentLive(t, stg, names, u)
    requires [stg, f] in t
    ensures WentLive(t, stg, names + {f}, Moved(u, [stg, f], [f]))
  {
    var v := Moved(u, [stg, f], [f]);
    forall g: string, x: Path | g in names + {f}
      ensures At(v, [g] + x) == if At(t, [stg, g]).Some? then At(t, [stg, g] + x) else At(t, [g] + x)
      ensures At(v, [stg, g] + x) == None
    {
      MovedAt(u, [stg, f], [f], [g] + x);
      MovedAt(u, [stg, f], [f], [stg, g] + x);
      if g == f {
        assert ([f] + x)[1..] == x && [f] <= [f] + x && [stg, f] <= [stg, f] + x;
        assert Elsewhere(stg, names, [stg, f] + x);
        assert ([stg, f] + x)[0] == stg;
      } else {
        assert ([g] + x)[0] == g && ([stg, g] + x)[0] == stg && ([stg, g] + x)[1] == g;
        assert At(u, [g] + x) == if At(t, [stg, g]).Some? then At(t, [stg, g] + x) else At(t, [g] + x);
      }
    }
    forall p: Path | Elsewhere(stg, names + {f}, p) ensures At(v, p) == At(t, p) {
      MovedAt(u, [stg, f], [f], p);
      assert Elsewhere(stg, names, p);
    }
  }

  lemma OneGoesLive(t: Tree, stg: string, names: set<string>, u: Tree, f: string)
    requires WellFormed(u) && Hidden(stg) && !Hidden(f) && f !in names && stg !in names && WentLive(t, stg, names, u)
    ensures PromoteFile(u, stg, f).Done? <==> !InTheWay(t, stg, f)
    ensures PromoteFile(u, stg, f).Done? ==>
              WellFormed(PromoteFile(u, stg, f).tree) && WentLive(t, stg, names + {f}, PromoteFile(u, stg, f).tree)
  {
    assert Staged(stg, [f]) == [stg, f] && Parent([f]) == [];
    assert Elsewhere(stg, names, [stg, f]) && Elsewhere(stg, names, [f]);
    assert At(u, [stg, f]) == At(t, [stg, f]) && At(u, [f]) == At(t, [f]);
    hide WentLive, WellFormed;
    if [stg, f] !in t {
      NotStaged(t, stg, names, u, f);
    } else {
      assert DirExists(u, []) by { RootIsDir(u); }
      if CanRename(u, [stg, f], [f]) { MovedWellFormed(u, [stg, f], [f]); }
      StagedMoves(t, stg, names, u, f);
    }
  }

  lemma RootIsDir(t: Tree)
    requires WellFormed(t)
    ensures DirExists(t, [])
  {
  }

  lemma {:induction false} FirstFilesGoLive(t: Tree, stg: string, n: nat)
    requires WellFormed(t) && Hidden(stg) && n <= |TOP_FILES|
    ensures PromoteTopFiles(t, stg, n).Done? <==> forall f :: f in Files(n) ==> !InTheWay(t, stg, f)
    ensures PromoteTopFiles(t, stg, n).Done? ==>
              WellFormed(PromoteTopFiles(t, stg, n).tree) && WentLive(t, stg, Files(n), PromoteTopFiles(t, stg, n).tree)
  {
    hide WentLive, InTheWay, PromoteFile, WellFormed;
    if n == 0 {
      assert Files(0) == {};
      NothingWentLive(t, stg);
    } else {
      FirstFilesGoLive(t, stg, n - 1);
      FilesGrow(n - 1);
      hide Files;
      if PromoteTopFiles(t, stg, n - 1).Done? {
        OneGoesLive(t, stg, Files(n - 1), PromoteTopFiles(t, stg, n - 1).tree, TOP_FILES[n - 1]);
      }
    }
  }

  lemma {:induction false} FailedStays(t: Tree, stg: string, n: nat, m: nat)
    requires n <= m <= |TOP_FILES| && PromoteTopFiles(t, stg, n).Failed?
    ensures PromoteTopFiles(t, stg, m).Failed?
    decreases m
  {
    if n < m { FailedStays(t, stg, n, m - 1); }
  }

  /** The eight top-level files: promoting them fails exactly when a staged one has
      something in its way; otherwise every staged one, with whatever is below it, is
      live and no longer staged, and nothing else has changed. */
  lemma TopFilesGoLive(t: Tree, stg: string)
    requires WellFormed(t) && Hidden(stg)
    ensures PromoteTopFiles(t, stg, |TOP_FILES|).Done? <==> forall f :: f in SITE_FILES ==> !InTheWay(t, stg, f)
    ensures PromoteTopFiles(t, stg, |TOP_FILES|).Done? ==>
              WentLive(t, stg, SITE_FILES, PromoteTopFiles(t, stg, |TOP_FILES|).tree)
  {
    hide WentLive, InTheWay, Files, PromoteTopFiles;
    forall f { AllTopFiles(f); }
    FirstFilesGoLive(t, stg, |TOP_FILES|);
    assert Files(|TOP_FILES|) == SITE_FILES;
  }

  // ---------------------------------------------------------------------------
  // Managed subtrees
  // ---------------------------------------------------------------------------

  /** One swap, path by path. */
  lemma SwapAt(t: Tree, stg: string, sub: string, bk: string, q: Path)
    requires WellFormed(t) && Hidden(stg) && !Hidden(sub) && FreshName(t, stg, bk) && SwapSubtree(t, stg, sub, bk).Done?
    ensures At(SwapSubtree(t, stg, sub, bk).tree, q) ==
              if DirExists(t, [stg, sub]) then
                if [sub] <= q then At(t, [stg, sub] + q[1..]) else if [stg, sub] <= q then None else At(t, q)
              else if DirExists(t, [sub]) && [sub] <= q then None else At(t, q)
  {
    var staged := Staged(stg, [sub]);
    assert staged == [stg, sub];
    if !DirExists(t, staged) {
      RemovedAt(t, [sub], q);
    } else {
      var t2 := SetAside(t, [sub], bk);
      var t3 := Moved(t2, staged, [sub]);
      MovedAt(t2, staged, [sub], q);
      if [sub] <= q { assert q[0] == sub && (staged + q[1..])[0] == stg; }
      if [stg, sub] <= q { assert q[0] == stg; }
      if DirExists(t, [sub]) {
        RemovedAt(t3, [bk], q);
        SetAsideAt(t, stg, [sub], bk, q);
        SetAsideAt(t, stg, [sub], bk, staged + if [sub] <= q then q[1..] else []);
        if BackupDir(bk) <= q { assert q[0] == bk && [bk] <= q; }
        if [bk] <= q { assert q[0] == bk; }
      }
    }
  }

  lemma SwapSucceeds(t: Tree, stg: string, sub: string, bk: string)
    requires WellFormed(t) && Hidden(stg) && !Hidden(sub) && FreshName(t, stg, bk)
    ensures SwapSubtree(t, stg, sub, bk).Done? <==> !(DirExists(t, [stg, sub]) && At(t, [sub]).Some? && !DirExists(t, [sub]))
  {
    assert Staged(stg, [sub]) == [stg, sub] && Parent([sub]) == [];
    if DirExists(t, [stg, sub]) && DirExists(t, [sub]) { StagedCanGoIn(t, stg, sub, bk); }
    RootIsDir(t);
  }

  /** `u` is `t` with the subtrees at `subs` swapped: the staged one live where there is
      one, and none where there is none. */
  ghost predicate Swapped(t: Tree, stg: string, subs: set<string>, u: Tree) {
    && (forall d: string, x: Path {:trigger At(u, [d] + x)} :: d in subs ==>
          At(u, [d] + x) == if DirExists(t, [stg, d]) then At(t, [stg, d] + x)
                            else if DirExists(t, [d]) then None else At(t, [d] + x))
    && (forall d: string, x: Path {:trigger At(u, [stg, d] + x)} :: d in subs ==>
          At(u, [stg, d] + x) == if DirExists(t, [stg, d]) then None else At(t, [stg, d] + x))
    && (forall p: Path {:trigger At(u, p)} :: Elsewhere(stg, subs, p) ==> At(u, p) == At(t, p))
  }

  ghost function Subtrees(n: nat): set<string>
    requires n <= |SUBTREES|
  {
    set i | 0 <= i < n :: SUBTREES[i]
  }

  const SITE_TREES: set<string> := {"entry", "category", "tag", "archive"}

  lemma SubtreesGrow(n: nat)
    requires n < |SUBTREES|
    ensures Subtrees(n + 1) == Subtrees(n) + {SUBTREES[n]} && SUBTREES[n] !in Subtrees(n)
    ensures forall d :: d in Subtrees(n + 1) ==> !Hidden(d)
  {
    var all := SUBTREES;
    assert all[0] == "entry" && all[1] == "category" && all[2] == "tag" && all[3] == "archive";
  }

  lemma NextSubtree(n: nat)
    requires n < |SUBTREES|
    ensures Subtrees(n + 1) == Subtrees(n) + {SUBTREES[n]} && SUBTREES[n] in SITE_TREES && !Hidden(SUBTREES[n])
  {
    SubtreesGrow(n);
    AllSubtrees();
  }

  lemma AllSubtrees()
    ensures Subtrees(|SUBTREES|) == SITE_TREES
  {
    var all := SUBTREES;
    assert all[0] == "entry" && all[1] == "category" && all[2] == "tag" && all[3] == "archive";
  }

  lemma NothingSwapped(t: Tree, stg: string)
    ensures Swapped(t, stg, {}, t)
  {
  }

  lemma OneSwapped(t: Tree, stg: string, subs: set<string>, u: Tree, sub: string, bk: string)
    requires WellFormed(u) && Hidden(stg) && !Hidden(sub) && sub !in subs && stg !in subs && Swapped(t, stg, subs, u)
    requires FreshName(u, stg, bk) && SwapSubtree(u, stg, sub, bk).Done?
    ensures Swapped(t, stg, subs + {sub}, SwapSubtree(u, stg, sub, bk).tree)
  {
    hide SwapSubtree, WellFormed, FreshName;
    var v := SwapSubtree(u, stg, sub, bk).tree;
    assert Elsewhere(stg, subs, [stg, sub]) && Elsewhere(stg, subs, [sub]);
    forall d: string, x: Path | d in subs + {sub}
      ensures At(v, [d] + x) == if DirExists(t, [stg, d]) then At(t, [stg, d] + x)
                                else if DirExists(t, [d]) then None else At(t, [d] + x)
      ensures At(v, [stg, d] + x) == if DirExists(t, [stg, d]) then None else At(t, [stg, d] + x)
    {
      SwapAt(u, stg, sub, bk, [d] + x);
      SwapAt(u, stg, sub, bk, [stg, d] + x);
      assert ([d] + x)[1..] == x && ([d] + x)[0] == d && ([stg, d] + x)[0] == stg && ([stg, d] + x)[1] == d;
      if d == sub {
        assert Elsewhere(stg, subs, [stg, d] + x) && Elsewhere(stg, subs, [d] + x);
      } else {
        assert At(u, [d] + x) == if DirExists(t, [stg, d]) then At(t, [stg, d] + x)
                                 else if DirExists(t, [d]) then None else At(t, [d] + x);
      }
    }
    forall p: Path | Elsewhere(stg, subs + {sub}, p) ensures At(v, p) == At(t, p) {
      SwapAt(u, stg, sub, bk, p);
      assert Elsewhere(stg, subs, p);
    }
  }

  lemma SetAsideHangs(t: Tree, stg: string, sub: string, bk: string)
    requires WellFormed(t) && Hidden(stg) && !Hidden(sub) && FreshName(t, stg, bk) && DirExists(t, [sub])
    ensures WellFormed(SetAside(t, [sub], bk))
  {
    assert At(t, [bk]) == None;
    NewDirWellFormed(t, bk);
    CanSetAside(t, stg, [sub], bk);
    MovedWellFormed(t[[bk] := Dir], [sub], BackupDir(bk));
  }

  lemma SwapHangs(t: Tree, stg: string, sub: string, bk: string)
    requires WellFormed(t) && Hidden(stg) && !Hidden(sub) && FreshName(t, stg, bk) && SwapSubtree(t, stg, sub, bk).Done?
    ensures WellFormed(SwapSubtree(t, stg, sub, bk).tree)
  {
    var staged := Staged(stg, [sub]);
    if !DirExists(t, staged) {
      RemovedWellFormed(t, [sub]);
    } else {
      if DirExists(t, [sub]) { SetAsideHangs(t, stg, sub, bk); }
      var t2 := SetAside(t, [sub], bk);
      hide SetAside, WellFormed;
      MovedWellFormed(t2, staged, [sub]);
      RemovedWellFormed(Moved(t2, staged, [sub]), [bk]);
    }
  }

  lemma {:induction false} FirstSubtreesSwapped(t: Tree, stg: string, bks: seq<string>, n: nat)
    requires WellFormed(t) && Hidden(stg) && n <= |SUBTREES| && n <= |bks|
    requires FreshBackups(t, stg, bks, n) && SwapAll(t, stg, bks, n).Done?
    ensures WellFormed(SwapAll(t, stg, bks, n).tree) && Swapped(t, stg, Subtrees(n), SwapAll(t, stg, bks, n).tree)
  {
    hide Swapped, SwapSubtree, WellFormed, FreshName;
    if n == 0 {
      assert Subtrees(0) == {};
      NothingSwapped(t, stg);
    } else {
      var u := SwapAll(t, stg, bks, n - 1).tree;
      FirstSubtreesSwapped(t, stg, bks, n - 1);
      SubtreesGrow(n - 1);
      hide Subtrees;
      OneSwapped(t, stg, Subtrees(n - 1), u, SUBTREES[n - 1], bks[n - 1]);
      SwapHangs(u, stg, SUBTREES[n - 1], bks[n - 1]);
    }
  }

  /** After swapping, all four managed subtrees are the staged ones. */
  lemma SubtreesGoLive(t: Tree, stg: string, bks: seq<string>)
    requires WellFormed(t) && Hidden(stg) && |bks| == |SUBTREES|
    requires FreshBackups(t, stg, bks, |SUBTREES|) && SwapAll(t, stg, bks, |SUBTREES|).Done?
    ensures Swapped(t, stg, SITE_TREES, SwapAll(t, stg, bks, |SUBTREES|).tree)
  {
    FirstSubtreesSwapped(t, stg, bks, |SUBTREES|);
    AllSubtrees();
  }

  // ---------------------------------------------------------------------------
  // The whole build
  // ---------------------------------------------------------------------------

  /** Promoting and pruning page roots, and the manifest, leave what is at no page's
      place alone. */
  lemma OtherPathsKept(t: Tree, stg: string, active: set<Path>, prev: set<Path>, t3: Tree, t4: Tree, v: Tree, p: Path)
    requires Promoted(t, stg, active, {}, t3) && Pruned(t3, active, prev, t4) && PromoteFile(t4, stg, MANIFEST) == Done(v)
    requires (forall r :: r in active + prev ==> PagePath(r)) && Hidden(stg)
    requires p != [] && !PageHead(p[0]) && !Hidden(p[0])
    ensures At(v, p) == At(t, p)
  {
    forall r | r in active || r in prev ensures !(r <= p) && !(p <= r) && !(p <= Index(r)) && !(Index(r) <= p) {
      assert r in active + prev;
      PageHasHead(r);
      if r <= p { HeadOf(r, p); }
      if p <= r { HeadOf(p, r); }
      if Index(r) <= p { HeadOf(Index(r), p); }
      if p <= Index(r) { HeadOf(p, Index(r)); }
    }
    hide PagePath, PageHead;
    assert !Covered(active, p) && !Above(active, p) && !Covered({}, p) && !([stg] <= p);
    assert At(t3, p) == At(t, p);
    assert !Doomed(t3, active, prev, p);
    MovedAt(t4, Staged(stg, [MANIFEST]), [MANIFEST], p);
    assert Hidden(MANIFEST) && Staged(stg, [MANIFEST])[0] == stg;
  }

  /** The two parts before the pages, together. */
  lemma TreesAndFiles(t: Tree, stg: string, t1: Tree, t2: Tree)
    requires Hidden(stg) && Swapped(t, stg, SITE_TREES, t1) && WentLive(t1, stg, SITE_FILES, t2)
    ensures forall d: string, x: Path {:trigger At(t2, [d] + x)} :: d in SITE_TREES ==>
              At(t2, [d] + x) == if DirExists(t, [stg, d]) then At(t, [stg, d] + x)
                                 else if DirExists(t, [d]) then None else At(t, [d] + x)
    ensures forall f: string, x: Path {:trigger At(t2, [f] + x)} :: f in SITE_FILES ==>
              At(t2, [f] + x) == if At(t, [stg, f]).Some? then At(t, [stg, f] + x) else At(t, [f] + x)
  {
    Apart(stg);
    hide SITE_TREES, SITE_FILES;
    forall d: string, x: Path | d in SITE_TREES
      ensures At(t2, [d] + x) == if DirExists(t, [stg, d]) then At(t, [stg, d] + x)
                                 else if DirExists(t, [d]) then None else At(t, [d] + x)
    {
      assert ([d] + x)[0] == d && d !in SITE_FILES;
      assert Elsewhere(stg, SITE_FILES, [d] + x);
      assert At(t1, [d] + x) == if DirExists(t, [stg, d]) then At(t, [stg, d] + x)
                                else if DirExists(t, [d]) then None else At(t, [d] + x);
    }
    forall f: string, x: Path | f in SITE_FILES
      ensures At(t2, [f] + x) == if At(t, [stg, f]).Some? then At(t, [stg, f] + x) else At(t, [f] + x)
    {
      assert ([stg, f] + x)[0] == stg && ([stg, f] + x)[1] == f && ([f] + x)[0] == f && f !in SITE_TREES;
      assert Elsewhere(stg, SITE_TREES, [stg, f] + x) && Elsewhere(stg, SITE_TREES, [f] + x) && Elsewhere(stg, SITE_TREES, [stg, f]);
    }
  }

  lemma Apart(stg: string)
    requires Hidden(stg)
    ensures stg !in SITE_TREES && stg !in SITE_FILES
    ensures (forall f :: f in SITE_FILES ==> f !in SITE_TREES) && forall d :: d in SITE_TREES ==> d !in SITE_FILES
  {
  }

  lemma NoPagePlace(name: string)
    requires name in SITE_TREES || name in SITE_FILES
    ensures !PageHead(name) && !Hidden(name)
  {
    if name in SITE_FILES { AllTopFiles(name); }
  }

  /** The tree before the page roots, and that what is at no page's place stays as it
      was there. */
  lemma PartsGoLive(t: Tree, stg: string, pages: Pages, c: Choices, v: Tree) returns (t2: Tree)
    requires StagedBuild(t, stg, pages) && ListsPages(t)
    requires PromotedStaging(t, stg, pages.Keys, c, v) && LuckyOrder(pages, c.steps)
    ensures forall d: string, x: Path {:trigger At(t2, [d] + x)} :: d in SITE_TREES ==>
              At(t2, [d] + x) == if DirExists(t, [stg, d]) then At(t, [stg, d] + x)
                                 else if DirExists(t, [d]) then None else At(t, [d] + x)
    ensures forall f: string, x: Path {:trigger At(t2, [f] + x)} :: f in SITE_FILES ==>
              At(t2, [f] + x) == if At(t, [stg, f]).Some? then At(t, [stg, f] + x) else At(t, [f] + x)
    ensures forall p: Path {:trigger At(v, p)} :: p != [] && !PageHead(p[0]) && !Hidden(p[0]) ==> At(v, p) == At(t2, p)
  {
    hide StagedPages, SamePages, DeepestFirst, LegalRun, Promoted, Pruned, PagePath, PageHead, WellFormed, ManifestRoots, ClearWay,
      Promote, Prune, Enumerates, Unfinished, Swapped, WentLive, SwapAll, PromoteTopFiles, FreshBackups, PromoteFile, Hidden;
    var u :| Unfinished(t, stg, pages.Keys, c, u) && PromoteFile(u, stg, MANIFEST) == Done(v);
    var t1;
    t1, t2 := BeforePages(t, stg, pages, c, u);
    SamePagesFacts(t, stg, pages, t2);
    SubtreesGoLive(t, stg, c.bks);
    TopFilesGoLive(t1, stg);
    TreesAndFiles(t, stg, t1, t2);
    StagedBuildMeansStagedPages(t2, stg, pages);
    AncestorsFirstPromotes(t2, stg, pages.Keys, c.steps);
    var t3 := Promote(t2, stg, c.steps, 0).tree;
    PromotedWellFormed(t2, stg, pages.Keys, t3);
    PrunedPages(t3, pages.Keys, ManifestRoots(t), c.stale);
    forall p: Path | p != [] && !PageHead(p[0]) && !Hidden(p[0]) ensures At(v, p) == At(t2, p) {
      OtherPathsKept(t2, stg, pages.Keys, ManifestRoots(t), t3, u, v, p);
    }
  }

  lemma ManifestIsStaged(t: Tree, stg: string, pages: Pages, c: Choices, v: Tree)
    requires StagedBuild(t, stg, pages) && ListsPages(t)
    requires PromotedStaging(t, stg, pages.Keys, c, v) && LuckyOrder(pages, c.steps)
    ensures At(v, [MANIFEST]) == At(t, Staged(stg, [MANIFEST]))
  {
    hide Unfinished, PromoteFile, WellFormed, IsManifestOf, StagedBuild, PagePath, IndexAfter, LuckyOrder, ListsPages;
    var u :| Unfinished(t, stg, pages.Keys, c, u) && PromoteFile(u, stg, MANIFEST) == Done(v);
    UnfinishedLeaves(t, stg, pages, c, u);
    var text := StagedManifest(t, stg, pages);
    ManifestGoesLive(u, stg, text, v);
  }

  /** After a successful build every managed subtree and every top-level file that was
      staged is live; a subtree that was not staged is gone, a file that was not stays;
      and the manifest is the staged one. */
  lemma BuildGoesLive(t: Tree, stg: string, pages: Pages, c: Choices, v: Tree)
    requires StagedBuild(t, stg, pages) && ListsPages(t)
    requires PromotedStaging(t, stg, pages.Keys, c, v) && LuckyOrder(pages, c.steps)
    ensures forall d: string, x: Path {:trigger At(v, [d] + x)} :: d in SITE_TREES ==>
              At(v, [d] + x) == if DirExists(t, [stg, d]) then At(t, [stg, d] + x)
                                else if DirExists(t, [d]) then None else At(t, [d] + x)
    ensures forall f: string, x: Path {:trigger At(v, [f] + x)} :: f in SITE_FILES ==>
              At(v, [f] + x) == if At(t, [stg, f]).Some? then At(t, [stg, f] + x) else At(t, [f] + x)
    ensures At(v, [".sb-pages-manifest"]) == At(t, [stg, ".sb-pages-manifest"])
  {
    assert MANIFEST == ".sb-pages-manifest";
    hide *;
    var t2 := PartsGoLive(t, stg, pages, c, v);
    forall d: string, x: Path | d in SITE_TREES || d in SITE_FILES ensures At(v, [d] + x) == At(t2, [d] + x) {
      NoPagePlace(d);
      assert ([d] + x)[0] == d;
    }
    ManifestIsStaged(t, stg, pages, c, v);
    assert [stg, MANIFEST] == Staged(stg, [MANIFEST]) by { StagedIs(stg, MANIFEST); }
  }

  lemma StagedIs(stg: string, name: string)
    ensures Staged(stg, [name]) == [stg, name]
  {
  }

  // ---------------------------------------------------------------------------
  // When a build succeeds
  // ---------------------------------------------------------------------------

  /** A staged subtree with a file where it has to go. */
  ghost predicate TreeBlocked(t: Tree, stg: string, d: string) {
    DirExists(t, [stg, d]) && At(t, [d]).Some? && !DirExists(t, [d])
  }

  /** A page that has to go while its root stays, and whose file is a directory with
      something in it. */
  ghost predicate IndexBlocked(t: Tree, active: set<Path>, r: Path) {
    && !Covered(active, r) && HasActiveDescendant(r, active)
    && DirExists(t, Index(r)) && exists q :: q in t && Index(r) <= q && q != Index(r)
  }

  /** Nothing that is live keeps the build from going live. */
  ghost predicate NothingInTheWay(t: Tree, stg: string, active: set<Path>) {
    && !DirExists(t, [".sb-pages-manifest"])
    && (forall d :: d in SITE_TREES ==> !TreeBlocked(t, stg, d))
    && (forall f :: f in SITE_FILES ==> !InTheWay(t, stg, f))
    && ClearWay(t, active)
    && forall r :: r in ManifestRoots(t) ==> !IndexBlocked(t, active, r)
  }

  lemma SwapSucceedsFrom(t: Tree, stg: string, subs: set<string>, u: Tree, sub: string, bk: string)
    requires WellFormed(u) && Hidden(stg) && !Hidden(sub) && sub !in subs && stg !in subs && Swapped(t, stg, subs, u)
    requires FreshName(u, stg, bk)
    ensures SwapSubtree(u, stg, sub, bk).Done? <==> !TreeBlocked(t, stg, sub)
  {
    assert Elsewhere(stg, subs, [stg, sub]) && Elsewhere(stg, subs, [sub]);
    SwapSucceeds(u, stg, sub, bk);
    hide SwapSubtree, WellFormed, FreshName;
    assert At(u, [stg, sub]) == At(t, [stg, sub]) && At(u, [sub]) == At(t, [sub]);
  }

  /** After the first `n` swaps, whether the next one succeeds. */
  lemma NextSwapSucceeds(t: Tree, stg: string, bks: seq<string>, n: nat, bk: string)
    requires WellFormed(t) && Hidden(stg) && n < |SUBTREES| && n <= |bks|
    requires FreshBackups(t, stg, bks, n) && SwapAll(t, stg, bks, n).Done?
    requires FreshName(SwapAll(t, stg, bks, n).tree, stg, bk)
    ensures SwapSubtree(SwapAll(t, stg, bks, n).tree, stg, SUBTREES[n], bk).Done? <==> !TreeBlocked(t, stg, SUBTREES[n])
  {
    hide Swapped, SwapSubtree, WellFormed, FreshName, SwapAll, FreshBackups, TreeBlocked;
    FirstSubtreesSwapped(t, stg, bks, n);
    SubtreesGrow(n);
    hide Subtrees;
    SwapSucceedsFrom(t, stg, Subtrees(n), SwapAll(t, stg, bks, n).tree, SUBTREES[n], bk);
  }

  lemma SameInTheWay(t: Tree, stg: string, t1: Tree)
    requires Hidden(stg) && Swapped(t, stg, SITE_TREES, t1)
    ensures forall f :: f in SITE_FILES ==> (InTheWay(t1, stg, f) <==> InTheWay(t, stg, f))
  {
    Apart(stg);
    hide SITE_TREES, SITE_FILES;
    forall f | f in SITE_FILES ensures InTheWay(t1, stg, f) <==> InTheWay(t, stg, f) {
      assert Elsewhere(stg, SITE_TREES, [stg, f]) && Elsewhere(stg, SITE_TREES, [f]);
    }
  }

  lemma SameClearWay(t: Tree, stg: string, t2: Tree, active: set<Path>)
    requires WellFormed(t) && SamePages(t, stg, t2) && forall r :: r in active ==> PagePath(r)
    ensures ClearWay(t2, active) <==> ClearWay(t, active)
  {
    RootIsDir(t);
    RootIsDir(t2);
    forall r | r in active ensures ClearPath(t2, r) <==> ClearPath(t, r) {
      PageHasHead(r);
      forall q: Path | q <= r ensures At(t2, q) == At(t, q) {
        if q != [] { HeadOf(r, q); }
      }
    }
  }

  /** No page lies below another one's file. */
  lemma NotBelowIndex(active: set<Path>, r: Path, p: Path)
    requires (forall a :: a in active ==> PagePath(a)) && Index(r) <= p
    ensures Covered(active, p) <==> Covered(active, r)
    ensures !Above(active, p)
  {
    forall a | a in active && a <= p ensures a <= r {
      PrefixComparable(a, Index(r), p);
      PageHasNoIndexSegment(a, r);
      IndexFacts(a, r);
    }
    forall a | a in active && a <= r ensures a <= p {
      PrefixTransitive(a, r, Index(r));
      PrefixTransitive(a, Index(r), p);
    }
    forall a | a in active && p <= a ensures false {
      PrefixTransitive(Index(r), p, a);
      PageHasNoIndexSegment(a, r);
    }
  }

  /** What blocks pruning after promotion is what was in the way before. */
  lemma SameBlockedIndex(t: Tree, stg: string, pages: Pages, t3: Tree, r: Path)
    requires StagedBuild(t, stg, pages) && Promoted(t, stg, pages.Keys, {}, t3) && PagePath(r) && WellFormed(t3)
    ensures BlockedIndex(t3, pages.Keys, r) <==> IndexBlocked(t, pages.Keys, r)
  {
    var active, i := pages.Keys, Index(r);
    PageHasHead(r);
    PromotedIndex(t, stg, pages, t3, r);
    hide StagedBuild, PagePath, PageHead, IsManifestOf;
    forall p: Path | i <= p && !Covered(active, r) ensures At(t3, p) == At(t, p) {
      NotBelowIndex(active, r, p);
      HeadOf(i, p);
      assert !Covered({}, p) && !([stg] <= p);
    }
    if At(t3, i).Some? { AboveIsDir(t3, r, i); }
    assert r in active ==> Covered(active, r);
    assert BlockedIndex(t3, active, r) ==> !Covered(active, r);
    if !Covered(active, r) {
      assert At(t3, i) == At(t, i);
      assert i in t <==> i in t3;
      forall q: Path | i <= q ensures q in t <==> q in t3 { assert At(t3, q) == At(t, q); }
    }
  }

  /** The pages go live exactly when no file is in the way of a root and no directory in
      the way of pruning. */
  lemma PagesSucceedIff(t: Tree, stg: string, pages: Pages, t2: Tree, steps: seq<Step>, stale: seq<Path>, ok: bool, t4: Tree)
    requires WellFormed(t) && StagedBuild(t2, stg, pages) && SamePages(t, stg, t2) && ListsPages(t) && NoThreeDeep(pages.Keys)
    requires DeepestFirst(pages.Keys, steps) && LegalRun(t2, stg, pages.Keys, steps, 0)
    requires Distinct(stale) && (forall r :: r in stale ==> r in ManifestRoots(t)) && (ok ==> Enumerates(stale, ManifestRoots(t)))
    requires Promote(t2, stg, steps, 0).Failed? ==> !ok
    requires Promote(t2, stg, steps, 0).Done? ==> Prune(Promote(t2, stg, steps, 0).tree, pages.Keys, stale, 0) == Result(ok, t4)
    ensures ok <==> ClearWay(t, pages.Keys) && forall r :: r in ManifestRoots(t) ==> !IndexBlocked(t, pages.Keys, r)
    ensures ok ==> At(t4, [MANIFEST]) == At(t, [MANIFEST]) && At(t4, Staged(stg, [MANIFEST])) == At(t2, Staged(stg, [MANIFEST]))
    ensures ok ==> WellFormed(t4)
  {
    hide StagedBuild, StagedPages, SamePages, DeepestFirst, LegalRun, Promoted, Pruned, WellFormed, ManifestRoots, ClearWay,
      Promote, Prune, IndexBlocked, BlockedIndex, PagePath;
    var active := pages.Keys;
    SamePagesFacts(t, stg, pages, t2);
    StagedBuildMeansStagedPages(t2, stg, pages);
    SameClearWay(t, stg, t2, active);
    AncestorsFirstPromotes(t2, stg, active, steps);
    if Promote(t2, stg, steps, 0).Done? {
      var t3 := Promote(t2, stg, steps, 0).tree;
      PromotedWellFormed(t2, stg, active, t3);
      PruneAll(t3, active, stale);
      forall r | r in ManifestRoots(t) ensures BlockedIndex(t3, active, r) <==> IndexBlocked(t, active, r) {
        SameBlockedIndex(t2, stg, pages, t3, r);
        SameIndexBlocked(t, stg, t2, active, r);
      }
      if ok {
        PrunedPages(t3, active, ManifestRoots(t), stale);
        ManifestsUntouched(t2, stg, active, ManifestRoots(t), t3, t4);
      }
    }
  }

  lemma SameIndexBlocked(t: Tree, stg: string, t2: Tree, active: set<Path>, r: Path)
    requires SamePages(t, stg, t2) && PagePath(r)
    ensures IndexBlocked(t2, active, r) <==> IndexBlocked(t, active, r)
  {
    PageHasHead(r);
    hide PagePath, PageHead;
    forall q: Path | Index(r) <= q ensures At(t2, q) == At(t, q) && (q in t2 <==> q in t) {
      HeadOf(Index(r), q);
      assert PageHead(q[0]);
    }
  }

  /** And then the manifest goes live, if the old one is not a directory. */
  lemma ManifestSucceeds(t: Tree, stg: string, pages: Pages, t2: Tree, t4: Tree)
    requires StagedBuild(t2, stg, pages) && WellFormed(t4) && !DirExists(t, [MANIFEST])
    requires At(t4, [MANIFEST]) == At(t, [MANIFEST]) && At(t4, Staged(stg, [MANIFEST])) == At(t2, Staged(stg, [MANIFEST]))
    ensures PromoteFile(t4, stg, MANIFEST).Done?
  {
    var text := StagedManifest(t2, stg, pages);
    RootIsDir(t4);
    assert Parent([MANIFEST]) == [];
  }

  /** With its pages staged, roots nested at most two deep and a manifest that lists
      pages, a build succeeds exactly when nothing that is live is in the way. */
  ghost predicate SucceedsIff(t: Tree, stg: string, active: set<Path>, ok: bool) {
    forall pages: Pages {:trigger StagedBuild(t, stg, pages)} ::
      pages.Keys == active && StagedBuild(t, stg, pages) && ListsPages(t) && NoThreeDeep(active) ==>
        (ok <==> NothingInTheWay(t, stg, active))
  }

  lemma FailsBeforePages(t: Tree, stg: string, active: set<Path>, t1: Tree)
    requires Hidden(stg)
    requires || DirExists(t, [MANIFEST]) || (exists d :: d in SITE_TREES && TreeBlocked(t, stg, d))
             || (Swapped(t, stg, SITE_TREES, t1) && exists f :: f in SITE_FILES && InTheWay(t1, stg, f))
    ensures SucceedsIff(t, stg, active, false)
  {
    hide StagedBuild, ListsPages, NoThreeDeep, TreeBlocked, InTheWay, ClearWay, IndexBlocked, Swapped;
    if Swapped(t, stg, SITE_TREES, t1) { SameInTheWay(t, stg, t1); }
    assert !NothingInTheWay(t, stg, active);
  }

  /** Subtrees and files went live, from `t` to `t2`. */
  ghost predicate FilesAreLive(t: Tree, stg: string, bks: seq<string>, t1: Tree, t2: Tree) {
    && |bks| == |SUBTREES| && FreshBackups(t, stg, bks, |SUBTREES|) && SwapAll(t, stg, bks, |SUBTREES|) == Done(t1)
    && PromoteTopFiles(t1, stg, |TOP_FILES|) == Done(t2)
  }

  /** Page roots were promoted and pruned from `t2` to `t4`, or as far as that went. */
  ghost predicate PagesRun(t: Tree, stg: string, active: set<Path>, t2: Tree, steps: seq<Step>, stale: seq<Path>, ok: bool, t4: Tree) {
    && DeepestFirst(active, steps) && LegalRun(t2, stg, active, steps, 0)
    && Distinct(stale) && (forall r :: r in stale ==> r in ManifestRoots(t)) && (ok ==> Enumerates(stale, ManifestRoots(t)))
    && match Promote(t2, stg, steps, 0)
       case Failed(_) => !ok
       case Done(t3) => Prune(t3, active, stale, 0) == Result(ok, t4)
  }

  lemma PagesRunSucceedsIff(t: Tree, stg: string, pages: Pages, t2: Tree, steps: seq<Step>, stale: seq<Path>, ok: bool, t4: Tree)
    requires WellFormed(t) && StagedBuild(t2, stg, pages) && SamePages(t, stg, t2) && ListsPages(t) && NoThreeDeep(pages.Keys)
    requires PagesRun(t, stg, pages.Keys, t2, steps, stale, ok, t4)
    ensures ok <==> ClearWay(t, pages.Keys) && forall r :: r in ManifestRoots(t) ==> !IndexBlocked(t, pages.Keys, r)
    ensures ok && !DirExists(t, [MANIFEST]) ==> PromoteFile(t4, stg, MANIFEST).Done?
  {
    hide StagedBuild, SamePages, WellFormed, ListsPages, NoThreeDeep, DeepestFirst, LegalRun, Distinct, Enumerates, ManifestRoots,
      Promote, Prune, ClearWay, IndexBlocked, PromoteFile;
    PagesSucceedIff(t, stg, pages, t2, steps, stale, ok, t4);
    if ok && !DirExists(t, [MANIFEST]) { ManifestSucceeds(t, stg, pages, t2, t4); }
  }

  lemma ThesePagesDecide(t: Tree, stg: string, pages: Pages, bks: seq<string>, t1: Tree, t2: Tree, steps: seq<Step>,
                         stale: seq<Path>, ok: bool, t4: Tree)
    requires StagedBuild(t, stg, pages) && ListsPages(t) && NoThreeDeep(pages.Keys) && !DirExists(t, [MANIFEST])
    requires (forall d :: d in SITE_TREES ==> !TreeBlocked(t, stg, d)) && (forall f :: f in SITE_FILES ==> !InTheWay(t, stg, f))
    requires FilesAreLive(t, stg, bks, t1, t2) && PagesRun(t, stg, pages.Keys, t2, steps, stale, ok, t4)
    ensures ok <==> NothingInTheWay(t, stg, pages.Keys)
    ensures ok ==> PromoteFile(t4, stg, MANIFEST).Done?
  {
    assert MANIFEST == ".sb-pages-manifest" && WellFormed(t);
    hide StagedBuild, SamePages, WellFormed, ManifestRoots, ClearWay, IndexBlocked, ListsPages, NoThreeDeep, TreeBlocked, InTheWay,
      PromoteFile, FilesAreLive, PagesRun;
    hide SITE_TREES, SITE_FILES, MANIFEST;
    StagedPagesKept(t, stg, pages, bks, t1, t2);
    PagesRunSucceedsIff(t, stg, pages, t2, steps, stale, ok, t4);
  }

  /** The rest of a build, once the subtrees and the files are live. */
  lemma PagesDecide(t: Tree, stg: string, active: set<Path>, bks: seq<string>, t1: Tree, t2: Tree, steps: seq<Step>,
                    stale: seq<Path>, ok: bool, t4: Tree)
    requires WellFormed(t) && Hidden(stg) && !DirExists(t, [MANIFEST]) && (forall d :: d in SITE_TREES ==> !TreeBlocked(t, stg, d))
    requires forall f :: f in SITE_FILES ==> !InTheWay(t1, stg, f)
    requires FilesAreLive(t, stg, bks, t1, t2) && PagesRun(t, stg, active, t2, steps, stale, ok, t4)
    ensures !ok ==> SucceedsIff(t, stg, active, false)
    ensures ok && PromoteFile(t4, stg, MANIFEST).Done? ==> SucceedsIff(t, stg, active, true)
    ensures ok && PromoteFile(t4, stg, MANIFEST).Failed? ==> SucceedsIff(t, stg, active, false)
  {
    SameInTheWayAfter(t, stg, bks, t1, t2);
    hide StagedBuild, ListsPages, NothingInTheWay, NoThreeDeep, TreeBlocked, InTheWay, PromoteFile, FilesAreLive, PagesRun;
    hide SITE_TREES, SITE_FILES, MANIFEST;
    forall pages: Pages | pages.Keys == active && StagedBuild(t, stg, pages) && ListsPages(t) && NoThreeDeep(active)
      ensures ok <==> NothingInTheWay(t, stg, active)
      ensures ok ==> PromoteFile(t4, stg, MANIFEST).Done?
    {
      ThesePagesDecide(t, stg, pages, bks, t1, t2, steps, stale, ok, t4);
    }
  }

  lemma SameInTheWayAfter(t: Tree, stg: string, bks: seq<string>, t1: Tree, t2: Tree)
    requires WellFormed(t) && Hidden(stg) && FilesAreLive(t, stg, bks, t1, t2)
    ensures forall f :: f in SITE_FILES ==> (InTheWay(t1, stg, f) <==> InTheWay(t, stg, f))
  {
    hide WellFormed, SwapAll, PromoteTopFiles, FreshBackups, Swapped, InTheWay;
    SubtreesGoLive(t, stg, bks);
    SameInTheWay(t, stg, t1);
  }

  lemma StagedPagesKept(t: Tree, stg: string, pages: Pages, bks: seq<string>, t1: Tree, t2: Tree)
    requires StagedBuild(t, stg, pages) && FilesAreLive(t, stg, bks, t1, t2)
    ensures SamePages(t, stg, t2) && StagedBuild(t2, stg, pages)
  {
    hide SamePages, FreshBackups, PagePath, SwapAll, PromoteTopFiles, IsManifestOf;
    assert WellFormed(t) && Hidden(stg) && stg != MANIFEST;
    hide StagedBuild, WellFormed;
    SwapAllKeepsPages(t, stg, bks, |SUBTREES|);
    SamePagesHangs(t, stg, t1);
    TopFilesKeepPages(t1, stg, |TOP_FILES|);
    SamePagesTransitive(t, stg, t1, t2);
    StagedBuildKept(t, stg, pages, t2);
  }
}
