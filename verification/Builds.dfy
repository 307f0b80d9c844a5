/**
 Whole builds and runs of builds: what `promoteStaging` leaves of the flat pages,
 whatever pages came and went before.
 */
module Builds {
  import opened Options
  import opened FileTree
  import opened Promotion
  import opened NestedPromotion
  import opened FileSystem
  import opened Pruning
  import opened Manifest
  import opened Strings
  import opened PromotionMethods
  import opened ManagedSubtrees

  const SUBTREES: seq<string> := ["entry", "category", "tag", "archive"]

  const TOP_FILES: seq<string> :=
    ["index.html", "style.css", "rss.xml", "atom.xml", "llms.txt", "llms-full.txt", "sitemap.xml", "robots.txt"]

  const MANIFEST := ".sb-pages-manifest"

  // ---------------------------------------------------------------------------
  // The steps of promoteStaging
  // ---------------------------------------------------------------------------

  /** The first `n` managed subtrees, one after the other. */
  function SwapAll(t: Tree, stg: string, bks: seq<string>, n: nat): Outcome
    requires n <= |SUBTREES| && n <= |bks|
  {
    if n == 0 then Done(t)
    else
      match SwapAll(t, stg, bks, n - 1)
      case Failed(u) => Failed(u)
      case Done(u) => SwapSubtree(u, stg, SUBTREES[n - 1], bks[n - 1])
  }

  /** A staged file replaces the live one; one that is not staged is skipped. */
  function PromoteFile(t: Tree, stg: string, name: string): Outcome {
    var staged := Staged(stg, [name]);
    if staged !in t then Done(t)
    else if CanRename(t, staged, [name]) then Done(Moved(t, staged, [name]))
    else Failed(t)
  }

  function PromoteTopFiles(t: Tree, stg: string, n: nat): Outcome
    requires n <= |TOP_FILES|
  {
    if n == 0 then Done(t)
    else
      match PromoteTopFiles(t, stg, n - 1)
      case Failed(u) => Failed(u)
      case Done(u) => PromoteFile(u, stg, TOP_FILES[n - 1])
  }

  /** The choices one run of `promoteStaging` leaves open. */
  datatype Choices = Choices(bks: seq<string>, steps: seq<Step>, stale: seq<Path>)

  /** Every backup directory was new when it was made. */
  ghost predicate FreshBackups(t: Tree, stg: string, bks: seq<string>, n: nat)
    requires n <= |SUBTREES| && n <= |bks|
  {
    n > 0 ==>
      && FreshBackups(t, stg, bks, n - 1)
      && match SwapAll(t, stg, bks, n - 1)
         case Failed(_) => true
         case Done(u) => FreshName(u, stg, bks[n - 1]) && bks[n - 1] != MANIFEST
  }

  /** `promoteStaging` from `t` up to the last rename: subtrees, files, page roots,
      pruning.  Only the orders the program may meet are allowed. */
  ghost predicate Unfinished(t: Tree, stg: string, active: set<Path>, c: Choices, u: Tree) {
    && |c.bks| == |SUBTREES| && FreshBackups(t, stg, c.bks, |SUBTREES|)
    && SwapAll(t, stg, c.bks, |SUBTREES|).Done?
    && var t1 := SwapAll(t, stg, c.bks, |SUBTREES|).tree;
    && PromoteTopFiles(t1, stg, |TOP_FILES|).Done?
    && var t2 := PromoteTopFiles(t1, stg, |TOP_FILES|).tree;
    && DeepestFirst(active, c.steps) && LegalRun(t2, stg, active, c.steps, 0)
    && Promote(t2, stg, c.steps, 0).Done?
    && var t3 := Promote(t2, stg, c.steps, 0).tree;
    && Enumerates(c.stale, ManifestRoots(t)) && Prune(t3, active, c.stale, 0) == Done(u)
  }

  /** A successful `promoteStaging`: the manifest goes live as well. */
  ghost predicate PromotedStaging(t: Tree, stg: string, active: set<Path>, c: Choices, v: Tree) {
    exists u :: Unfinished(t, stg, active, c, u) && PromoteFile(u, stg, MANIFEST) == Done(v)
  }

  /** The roots the live manifest lists; none when there is no manifest. */
  function ManifestRoots(t: Tree): set<Path> {
    match At(t, [MANIFEST])
    case Some(File(text)) => set l | l in Read(text) :: Split(l, '/')
    case _ => {}
  }

  ghost predicate IsManifestOf(text: string, roots: set<Path>) {
    IsManifest(text, set r | r in roots :: Slash(r))
  }

  // ---------------------------------------------------------------------------
  // The manifest reads back as the pages it was written for
  // ---------------------------------------------------------------------------

  predicate SlugChar(c: char) {
    'a' <= c <= 'z' || '0' <= c <= '9' || c == '-' || c == '/'
  }

  lemma {:induction false} SlashChars(p: seq<string>)
    requires p != [] && forall i | 0 <= i < |p| :: SlugSegment(p[i])
    ensures Slash(p) != "" && forall c :: c in Slash(p) ==> SlugChar(c)
  {
    assert SlugSegment(p[0]);
    if |p| > 1 {
      SlashChars(p[1..]);
    }
  }

  lemma PageIsClean(p: Path)
    requires PagePath(p)
    ensures Clean(Slash(p))
  {
    SlashChars(p);
    var s := Slash(p);
    assert s[0] in s && s[|s| - 1] in s;
    TrimmedStays(s);
  }

  lemma SlashesSplitBack(roots: set<Path>, names: set<string>)
    requires forall r :: r in roots ==> PagePath(r)
    requires names == set r | r in roots :: Slash(r)
    ensures (set l | l in names :: Split(l, '/')) == roots
  {
    hide Split, Slash, SlugSegment, PagePath;
    var got := set l | l in names :: Split(l, '/');
    forall r ensures r in got <==> r in roots {
      if r in roots {
        SlashReadsBack(r);
        assert Slash(r) in names;
      }
      if l :| l in names && r == Split(l, '/') {
        var q :| q in roots && l == Slash(q);
        SlashReadsBack(q);
      }
    }
  }

  lemma ManifestReadsPages(text: string, roots: set<Path>)
    requires IsManifestOf(text, roots) && forall r :: r in roots ==> PagePath(r)
    ensures (set l | l in Read(text) :: Split(l, '/')) == roots
  {
    hide PagePath, Split, Slash, Read, Text, Clean;
    var names := set r | r in roots :: Slash(r);
    var lines :| SortedLines(lines, names) && text == Text(lines);
    forall l | l in lines ensures Clean(l) {
      var r :| r in roots && l == Slash(r);
      PageIsClean(r);
    }
    CleanReadsBack(lines);
    assert Read(text) == names;
    SlashesSplitBack(roots, names);
  }

  // ---------------------------------------------------------------------------
  // What the other parts of a build leave alone
  // ---------------------------------------------------------------------------

  predicate PageHead(name: string) {
    SlugSegment(name) && name !in MANAGED
  }

  ghost predicate SameLivePages(t: Tree, u: Tree) {
    && (forall p: Path {:trigger At(u, p)} :: p != [] && (PageHead(p[0]) || p == [MANIFEST]) ==> At(u, p) == At(t, p))
    && WellFormed(u)
  }

  /** Also the staged ones. */
  ghost predicate SamePages(t: Tree, stg: string, u: Tree) {
    && SameLivePages(t, u)
    && forall p: Path {:trigger At(u, Staged(stg, p))} ::
         p != [] && (PageHead(p[0]) || p == [MANIFEST]) ==> At(u, Staged(stg, p)) == At(t, Staged(stg, p))
  }

  lemma RemovedOtherPages(t: Tree, stg: string, d: Path)
    requires WellFormed(t) && d != [] && !PageHead(d[0]) && d[0] != MANIFEST && d[0] != stg && stg != MANIFEST
    requires Hidden(stg)
    ensures SamePages(t, stg, Removed(t, d))
  {
    RemovedWellFormed(t, d);
    forall p: Path | p != [] && (PageHead(p[0]) || p == [MANIFEST]) ensures At(Removed(t, d), p) == At(t, p) {
      RemovedAt(t, d, p);
      if d <= p { HeadOf(d, p); }
    }
    forall p: Path | p != [] && (PageHead(p[0]) || p == [MANIFEST])
      ensures At(Removed(t, d), Staged(stg, p)) == At(t, Staged(stg, p))
    {
      RemovedAt(t, d, Staged(stg, p));
      if d <= Staged(stg, p) { HeadOf(d, Staged(stg, p)); }
    }
  }

  /** A move between hidden, managed or top-level-file places. */
  ghost predicate Elsewhere(stg: string, s: Path) {
    && s != [] && !PageHead(s[0]) && s[0] != MANIFEST
    && (s[0] == stg ==> |s| > 1 && !PageHead(s[1]) && s[1] != MANIFEST)
  }

  lemma ElsewhereIsNotAbove(stg: string, s: Path, p: Path)
    requires Elsewhere(stg, s) && Hidden(stg) && p != [] && (PageHead(p[0]) || p == [MANIFEST])
    ensures !(s <= p) && !(s <= Staged(stg, p))
  {
    if s <= p { HeadOf(s, p); }
    if s <= Staged(stg, p) {
      HeadOf(s, Staged(stg, p));
    }
  }

  lemma MovedOtherPages(t: Tree, stg: string, s: Path, d: Path)
    requires WellFormed(t) && CanRename(t, s, d) && Hidden(stg)
    requires Elsewhere(stg, s) && Elsewhere(stg, d)
    ensures SamePages(t, stg, Moved(t, s, d))
  {
    MovedWellFormed(t, s, d);
    forall p: Path | p != [] && (PageHead(p[0]) || p == [MANIFEST])
      ensures At(Moved(t, s, d), p) == At(t, p) && At(Moved(t, s, d), Staged(stg, p)) == At(t, Staged(stg, p))
    {
      MovedAt(t, s, d, p);
      MovedAt(t, s, d, Staged(stg, p));
      ElsewhereIsNotAbove(stg, s, p);
      ElsewhereIsNotAbove(stg, d, p);
    }
  }

  lemma SamePagesTransitive(t: Tree, stg: string, u: Tree, v: Tree)
    requires SamePages(t, stg, u) && SamePages(u, stg, v)
    ensures SamePages(t, stg, v)
  {
    forall p: Path | p != [] && (PageHead(p[0]) || p == [MANIFEST]) ensures At(v, p) == At(t, p) {
      assert At(u, p) == At(t, p);
    }
    forall p: Path | p != [] && (PageHead(p[0]) || p == [MANIFEST])
      ensures At(v, Staged(stg, p)) == At(t, Staged(stg, p))
    {
      assert At(u, Staged(stg, p)) == At(t, Staged(stg, p));
    }
  }

  lemma HiddenIsNoPage(name: string)
    requires Hidden(name)
    ensures !PageHead(name)
  {
  }

  lemma SetAsidePages(t: Tree, stg: string, sub: string, bk: string)
    requires WellFormed(t) && sub in MANAGED && FreshName(t, stg, bk) && bk != MANIFEST
    ensures SamePages(t, stg, SetAside(t, [sub], bk))
  {
    HiddenIsNoPage(bk);
    if DirExists(t, [sub]) {
      NewDirWellFormed(t, bk) by { assert At(t, [bk]) == None; }
      var w := t[[bk] := Dir];
      assert SamePages(t, stg, w) by {
        forall p: Path | p == [bk] ensures p[0] == bk {}
        forall p: Path ensures Staged(stg, p) != [bk] { assert Staged(stg, p)[0] == stg; }
      }
      CanSetAside(t, stg, [sub], bk);
      MovedOtherPages(w, stg, [sub], BackupDir(bk));
      SamePagesTransitive(t, stg, w, SetAside(t, [sub], bk));
    }
  }

  lemma SwapKeepsPages(t: Tree, stg: string, sub: string, bk: string)
    requires WellFormed(t) && sub in MANAGED && FreshName(t, stg, bk) && bk != MANIFEST && stg != MANIFEST
    requires SwapSubtree(t, stg, sub, bk).Done?
    ensures SamePages(t, stg, SwapSubtree(t, stg, sub, bk).tree)
  {
    var v := SwapSubtree(t, stg, sub, bk).tree;
    var staged := Staged(stg, [sub]);
    if !DirExists(t, staged) {
      if DirExists(t, [sub]) { RemovedOtherPages(t, stg, [sub]); }
    } else {
      SetAsidePages(t, stg, sub, bk);
      var t2 := SetAside(t, [sub], bk);
      HiddenIsNoPage(stg);
      assert staged[0] == stg && staged[1] == sub;
      MovedOtherPages(t2, stg, staged, [sub]);
      var t3 := Moved(t2, staged, [sub]);
      SamePagesTransitive(t, stg, t2, t3);
      if DirExists(t, [sub]) {
        HiddenIsNoPage(bk);
        RemovedOtherPages(t3, stg, [bk]);
        SamePagesTransitive(t, stg, t3, v);
      }
    }
  }

  lemma {:induction false} SwapAllKeepsPages(t: Tree, stg: string, bks: seq<string>, n: nat)
    requires n <= |SUBTREES| && n <= |bks| && WellFormed(t) && stg != MANIFEST
    requires FreshBackups(t, stg, bks, n) && SwapAll(t, stg, bks, n).Done?
    ensures SamePages(t, stg, SwapAll(t, stg, bks, n).tree)
  {
    if n > 0 {
      var u := SwapAll(t, stg, bks, n - 1).tree;
      SwapAllKeepsPages(t, stg, bks, n - 1);
      SwapKeepsPages(u, stg, SUBTREES[n - 1], bks[n - 1]);
      SamePagesTransitive(t, stg, u, SwapAll(t, stg, bks, n).tree);
    }
  }

  predicate TopFileName(name: string) {
    name != "" && !Hidden(name) && '.' in name
  }

  lemma TopFileIsNoPage(name: string)
    requires TopFileName(name)
    ensures !PageHead(name) && name != MANIFEST
  {
    var i :| 0 <= i < |name| && name[i] == '.';
    assert !SlugSegment(name);
  }

  lemma {:induction false} TopFilesKeepPages(t: Tree, stg: string, n: nat)
    requires n <= |TOP_FILES| && WellFormed(t) && Hidden(stg) && stg != MANIFEST
    requires PromoteTopFiles(t, stg, n).Done?
    ensures SamePages(t, stg, PromoteTopFiles(t, stg, n).tree)
  {
    if n > 0 {
      var name := TOP_FILES[n - 1];
      var u := PromoteTopFiles(t, stg, n - 1).tree;
      TopFilesKeepPages(t, stg, n - 1);
      assert TopFileName(name) by { assert name[if n == 1 then 5 else |name| - 4] == '.'; }
      FileKeepsPages(u, stg, name);
      SamePagesTransitive(t, stg, u, PromoteTopFiles(t, stg, n).tree);
    }
  }

  lemma FileKeepsPages(t: Tree, stg: string, name: string)
    requires WellFormed(t) && Hidden(stg) && stg != MANIFEST && TopFileName(name) && PromoteFile(t, stg, name).Done?
    ensures SamePages(t, stg, PromoteFile(t, stg, name).tree)
  {
    TopFileIsNoPage(name);
    HiddenIsNoPage(stg);
    if Staged(stg, [name]) in t {
      assert Staged(stg, [name])[0] == stg && Staged(stg, [name])[1] == name;
      MovedOtherPages(t, stg, Staged(stg, [name]), [name]);
    }
  }

  // ---------------------------------------------------------------------------
  // One build
  // ---------------------------------------------------------------------------

  type Pages = m: map<Path, string> | forall r :: r in m ==> PagePath(r)

  /** What the page writers leave in the staging directory: each page's index file
      and nothing at any other page's place, and the manifest of their roots. */
  ghost predicate StagedBuild(t: Tree, stg: string, pages: Pages) {
    && WellFormed(t) && Hidden(stg) && stg != MANIFEST
    && (forall r: Path {:trigger At(t, Staged(stg, Index(r)))} :: PagePath(r) ==>
          At(t, Staged(stg, Index(r))) == if r in pages then Some(File(pages[r])) else None)
    && exists text :: At(t, Staged(stg, [MANIFEST])) == Some(File(text)) && IsManifestOf(text, pages.Keys)
  }

  /** The live tree shows `pages` and nothing at any other root of `ever`. */
  ghost predicate Shows(t: Tree, pages: Pages, ever: set<Path>) {
    && WellFormed(t) && pages.Keys <= ever && (forall r :: r in ever ==> PagePath(r))
    && (forall r {:trigger At(t, Index(r))} :: r in ever ==> At(t, Index(r)) == if r in pages then Some(File(pages[r])) else None)
    && ManifestRoots(t) == pages.Keys
  }

  /** The restore orders of this build lose nothing. */
  ghost predicate LuckyOrder(pages: Pages, steps: seq<Step>) {
    NoThreeDeep(pages.Keys) || KidsAncestorsFirst(steps)
  }

  lemma PageHasHead(r: Path)
    requires PagePath(r)
    ensures RootPath(r) && PageHead(r[0]) && Index(r)[0] == r[0]
  {
    assert SlugSegment(r[0]);
  }

  lemma StagedBuildMeansStagedPages(t: Tree, stg: string, pages: Pages)
    requires StagedBuild(t, stg, pages)
    ensures StagedPages(t, stg, pages.Keys)
  {
    forall r | r in pages.Keys ensures RootPath(r) && DirExists(t, Staged(stg, r)) {
      PageHasHead(r);
      assert At(t, Staged(stg, Index(r))).Some?;
      StagedPrefix(stg, r, Index(r));
      AboveIsDir(t, Staged(stg, r), Staged(stg, Index(r)));
    }
  }

  lemma StagedBuildKept(t: Tree, stg: string, pages: Pages, u: Tree)
    requires StagedBuild(t, stg, pages) && SamePages(t, stg, u)
    ensures StagedBuild(u, stg, pages)
  {
    forall r: Path | PagePath(r)
      ensures At(u, Staged(stg, Index(r))) == if r in pages then Some(File(pages[r])) else None
    {
      PageHasHead(r);
      assert Index(r) != [];
    }
    var text :| At(t, Staged(stg, [MANIFEST])) == Some(File(text)) && IsManifestOf(text, pages.Keys);
    assert At(u, Staged(stg, [MANIFEST])) == Some(File(text));
  }

  /** Between builds the manifest and the index files at the roots `ever` built stay;
      anything else may change. */
  ghost predicate KeepsPages(t: Tree, ever: set<Path>, u: Tree) {
    && WellFormed(u) && At(u, [MANIFEST]) == At(t, [MANIFEST])
    && forall r {:trigger At(u, Index(r))} :: r in ever ==> At(u, Index(r)) == At(t, Index(r))
  }

  lemma ShowsKept(t: Tree, pages: Pages, ever: set<Path>, u: Tree)
    requires Shows(t, pages, ever) && KeepsPages(t, ever, u)
    ensures Shows(u, pages, ever)
  {
    forall r | r in ever ensures At(u, Index(r)) == if r in pages then Some(File(pages[r])) else None {
      assert At(u, Index(r)) == At(t, Index(r));
    }
  }

  lemma NoPageBelowIndex(pages: Pages, r: Path)
    ensures !Above(pages.Keys, Index(r))
    ensures Covered(pages.Keys, Index(r)) <==> Covered(pages.Keys, r)
  {
    forall a | a in pages.Keys && a <= Index(r) ensures a <= r { IndexFacts(a, r); }
    forall a | a in pages.Keys && Index(r) <= a ensures false { IndexFacts(a, r); PageHasNoIndexSegment(a, r); }
    forall a | a in pages.Keys && a <= r ensures a <= Index(r) { PrefixTransitive(a, r, Index(r)); }
  }

  /** What promotion makes of the index file at `r`. */
  lemma IndexPlace(t: Tree, stg: string, pages: Pages, u: Tree, r: Path)
    requires Promoted(t, stg, pages.Keys, {}, u) && PagePath(r) && Hidden(stg)
    ensures At(u, Index(r)) == if Covered(pages.Keys, r) then At(t, Staged(stg, Index(r))) else At(t, Index(r))
  {
    var p := Index(r);
    PageHasHead(r);
    assert !([stg] <= p) && !Covered({}, p);
    hide PagePath, PageHead;
    NoPageBelowIndex(pages, r);
  }

  /** After promotion: new pages in place, and of the others those below a new root
      gone. */
  lemma PromotedIndex(t: Tree, stg: string, pages: Pages, u: Tree, r: Path)
    requires StagedBuild(t, stg, pages) && Promoted(t, stg, pages.Keys, {}, u) && PagePath(r)
    ensures At(u, Index(r)) == if r in pages then Some(File(pages[r])) else if Covered(pages.Keys, r) then None else At(t, Index(r))
  {
    assert Hidden(stg) && At(t, Staged(stg, Index(r))) == if r in pages then Some(File(pages[r])) else None;
    hide StagedBuild, Promoted, PagePath, Index;
    IndexPlace(t, stg, pages, u, r);
    assert r in pages.Keys ==> Covered(pages.Keys, r);
  }

  /** Pruning has no reason to take the page at `r`: it is not at an old root, nor
      below one that goes whole. */
  ghost predicate Spared(active: set<Path>, prev: set<Path>, r: Path) {
    forall s :: s in prev && s !in active ==> if HasActiveDescendant(s, active) then s != r else !(s <= r)
  }

  lemma PrunedIndex(t: Tree, active: set<Path>, prev: set<Path>, u: Tree, r: Path)
    requires WellFormed(t) && (forall x :: x in prev ==> PagePath(x)) && Pruned(t, active, prev, u)
    ensures At(u, Index(r)) == if Spared(active, prev, r) then At(t, Index(r)) else None
  {
    if Spared(active, prev, r) {
      forall s | s in prev && DoomedBy(t, active, s, Index(r)) ensures false {
        IndexFacts(s, r);
      }
    } else if At(t, Index(r)) != None {
      var s :| s in prev && s !in active && if HasActiveDescendant(s, active) then s == r else s <= r;
      PrefixTransitive(s, r, Index(r));
      AboveIsDir(t, s, Index(r));
      assert DoomedBy(t, active, s, Index(r));
      assert Doomed(t, active, prev, Index(r));
    }
  }

  /** What a build makes of the index file at `r`: its own page, nothing below its own
      roots and where pruning goes, and otherwise whatever was there. */
  ghost function IndexAfter(t: Tree, pages: Pages, r: Path): Option<Node> {
    if r in pages then Some(File(pages[r]))
    else if Covered(pages.Keys, r) || !Spared(pages.Keys, ManifestRoots(t), r) then None
    else At(t, Index(r))
  }

  /** The promotion neither reads nor writes hidden files of the live tree, nor the
      staged manifest. */
  lemma ManifestsUntouched(t: Tree, stg: string, active: set<Path>, prev: set<Path>, u: Tree, v: Tree)
    requires Promoted(t, stg, active, {}, u) && Pruned(u, active, prev, v) && Hidden(stg) && stg != MANIFEST
    requires forall r :: r in active + prev ==> PagePath(r)
    ensures At(v, Staged(stg, [MANIFEST])) == At(t, Staged(stg, [MANIFEST]))
    ensures At(v, [MANIFEST]) == At(t, [MANIFEST])
  {
    forall r | r in active + prev ensures RootPath(r) { PageHasHead(r); }
    var m, sm := [MANIFEST], Staged(stg, [MANIFEST]);
    BackupIsUncovered(active, MANIFEST, m);
    assert !Covered({}, m);
    assert sm[0] == stg;
    forall r, p | r in prev && DoomedBy(u, active, r, p) && (p == m || p == sm) ensures false {
      assert r in active + prev;
      if r <= p { HeadOf(r, p); } else { HeadOf(r, Index(r)); }
    }
  }

  lemma ManifestGoesLive(t: Tree, stg: string, text: string, v: Tree)
    requires WellFormed(t) && Hidden(stg) && stg != MANIFEST && At(t, Staged(stg, [MANIFEST])) == Some(File(text))
    requires PromoteFile(t, stg, MANIFEST) == Done(v)
    ensures WellFormed(v) && At(v, [MANIFEST]) == Some(File(text))
    ensures forall p: Path :: p != [] && PageHead(p[0]) ==> At(v, p) == At(t, p)
  {
    var s := Staged(stg, [MANIFEST]);
    MovedWellFormed(t, s, [MANIFEST]);
    MovedAt(t, s, [MANIFEST], [MANIFEST]);
    assert s + [MANIFEST][1..] == s;
    forall p: Path | p != [] && PageHead(p[0]) ensures At(v, p) == At(t, p) {
      MovedAt(t, s, [MANIFEST], p);
      HiddenIsNoPage(stg);
      HiddenIsNoPage(MANIFEST);
      assert s[0] == stg;
    }
  }

  /** Pruned trees are well formed. */
  lemma {:induction false} PruneWellFormed(t: Tree, active: set<Path>, stale: seq<Path>, n: nat)
    requires WellFormed(t) && n <= |stale| && (forall r :: r in stale ==> PagePath(r))
    requires Prune(t, active, stale, n).Done?
    ensures WellFormed(Prune(t, active, stale, n).tree)
    decreases |stale| - n
  {
    if n < |stale| {
      var r := stale[n];
      assert r in stale;
      RemovedWellFormed(t, r);
      RemovedWellFormed(t, Index(r));
      PruneWellFormed(PruneOne(t, active, r).tree, active, stale, n + 1);
    }
  }

  /** A promoted tree hangs together, since the live and the staged one did. */
  lemma PromotedWellFormed(t: Tree, stg: string, active: set<Path>, u: Tree)
    requires WellFormed(t) && StagedPages(t, stg, active) && Promoted(t, stg, active, {}, u)
    ensures WellFormed(u)
  {
    RootStays(t, stg, active, u);
    forall p, q: Path | p <= q && p != q && q in u ensures DirExists(u, p) {
      if [stg] <= q {
        StagedPartHangs(t, stg, active, u, p, q);
      } else {
        LivePartHangs(t, stg, active, u, p, q);
      }
    }
  }

  lemma RootStays(t: Tree, stg: string, active: set<Path>, u: Tree)
    requires WellFormed(t) && StagedPages(t, stg, active) && Promoted(t, stg, active, {}, u)
    ensures DirExists(u, [])
  {
    assert !Covered(active, []) && !Covered({}, []);
  }

  lemma StagedPartHangs(t: Tree, stg: string, active: set<Path>, u: Tree, p: Path, q: Path)
    requires WellFormed(t) && StagedPages(t, stg, active) && Promoted(t, stg, active, {}, u)
    requires [stg] <= q && p <= q && p != q && q in u
    ensures DirExists(u, p)
  {
    var y := q[1..];
    assert q == Staged(stg, y);
    assert !Covered(active, y) && q in t by { assert At(u, Staged(stg, y)).Some?; }
    if p == [] {
      RootStays(t, stg, active, u);
    } else {
      var x := p[1..];
      assert p == Staged(stg, x) by { HeadOf(q, p); }
      StagedPrefix(stg, x, y);
      assert !Covered(active, x) by {
        forall a | a in active && a <= x ensures false { PrefixTransitive(a, x, y); }
      }
      AboveIsDir(t, p, q);
      assert At(u, Staged(stg, x)) == At(t, Staged(stg, x));
    }
  }

  lemma LivePartHangs(t: Tree, stg: string, active: set<Path>, u: Tree, p: Path, q: Path)
    requires WellFormed(t) && StagedPages(t, stg, active) && Promoted(t, stg, active, {}, u)
    requires !([stg] <= q) && p <= q && p != q && q in u
    ensures DirExists(u, p)
  {
    assert At(u, q).Some?;
    assert !Covered({}, q) && !Covered({}, p);
    if [stg] <= p { PrefixTransitive([stg], p, q); }
    if Covered(active, p) {
      var a :| a in active && a <= p;
      PrefixTransitive(a, p, q);
      assert Covered(active, q);
      StagedPrefix(stg, p, q);
      AboveIsDir(t, Staged(stg, p), Staged(stg, q));
    } else if Covered(active, q) {
      var a :| a in active && a <= q;
      PrefixComparable(a, p, q);
      assert Above(active, p);
    } else if Above(active, q) {
      var a :| a in active && q <= a && q != a;
      PrefixTransitive(p, q, a);
      assert Above(active, p) by { assert |p| < |a|; }
    } else {
      AboveIsDir(t, p, q);
    }
  }

  ghost predicate ListsPages(t: Tree) {
    forall r :: r in ManifestRoots(t) ==> PagePath(r)
  }

  lemma PrunedPages(t: Tree, active: set<Path>, prev: set<Path>, stale: seq<Path>)
    requires WellFormed(t) && Enumerates(stale, prev) && Prune(t, active, stale, 0).Done?
    requires forall x :: x in prev ==> PagePath(x)
    ensures WellFormed(Prune(t, active, stale, 0).tree)
    ensures Pruned(t, active, prev, Prune(t, active, stale, 0).tree)
  {
    forall x | x in stale ensures PagePath(x) { assert x in prev; }
    PruneAll(t, active, stale);
    PruneWellFormed(t, active, stale, 0);
    assert Elements(stale) == prev;
  }

  /** Everything before the page roots. */
  lemma BeforePages(t: Tree, stg: string, pages: Pages, c: Choices, u: Tree) returns (t1: Tree, t2: Tree)
    requires StagedBuild(t, stg, pages) && Unfinished(t, stg, pages.Keys, c, u)
    ensures |c.bks| == |SUBTREES| && FreshBackups(t, stg, c.bks, |SUBTREES|) && SwapAll(t, stg, c.bks, |SUBTREES|) == Done(t1)
    ensures WellFormed(t1) && PromoteTopFiles(t1, stg, |TOP_FILES|) == Done(t2)
    ensures SamePages(t, stg, t2) && StagedBuild(t2, stg, pages)
    ensures DeepestFirst(pages.Keys, c.steps) && LegalRun(t2, stg, pages.Keys, c.steps, 0)
    ensures Promote(t2, stg, c.steps, 0).Done?
    ensures Enumerates(c.stale, ManifestRoots(t))
    ensures Prune(Promote(t2, stg, c.steps, 0).tree, pages.Keys, c.stale, 0) == Done(u)
  {
    hide SamePages, FreshBackups, DeepestFirst, LegalRun, PagePath, ManifestRoots, SwapAll, PromoteTopFiles, Promote, Prune,
      Enumerates, PromoteFile, IsManifestOf;
    assert WellFormed(t) && Hidden(stg) && stg != MANIFEST;
    hide StagedBuild, WellFormed;
    SwapAllKeepsPages(t, stg, c.bks, |SUBTREES|);
    t1 := SwapAll(t, stg, c.bks, |SUBTREES|).tree;
    SamePagesHangs(t, stg, t1);
    TopFilesKeepPages(t1, stg, |TOP_FILES|);
    t2 := PromoteTopFiles(t1, stg, |TOP_FILES|).tree;
    SamePagesTransitive(t, stg, t1, t2);
    StagedBuildKept(t, stg, pages, t2);
  }

  lemma SamePagesHangs(t: Tree, stg: string, u: Tree)
    requires SamePages(t, stg, u)
    ensures WellFormed(u)
  {
  }

  lemma SamePagesFacts(t: Tree, stg: string, pages: Pages, u: Tree)
    requires SamePages(t, stg, u) && StagedBuild(u, stg, pages)
    ensures WellFormed(u) && Hidden(stg) && stg != MANIFEST && ManifestRoots(u) == ManifestRoots(t)
    ensures At(u, [MANIFEST]) == At(t, [MANIFEST]) && At(u, Staged(stg, [MANIFEST])) == At(t, Staged(stg, [MANIFEST]))
  {
    assert At(u, [MANIFEST]) == At(t, [MANIFEST]);
  }

  lemma SameIndex(t: Tree, stg: string, pages: Pages, u: Tree, r: Path)
    requires SamePages(t, stg, u) && PagePath(r)
    ensures IndexAfter(u, pages, r) == IndexAfter(t, pages, r) && ManifestRoots(u) == ManifestRoots(t)
  {
    PageHasHead(r);
    assert At(u, [MANIFEST]) == At(t, [MANIFEST]);
  }

  /** Promotion and pruning together. */
  lemma IndexAfterPruning(t: Tree, stg: string, pages: Pages, t3: Tree, t4: Tree, r: Path)
    requires StagedBuild(t, stg, pages) && ListsPages(t) && Promoted(t, stg, pages.Keys, {}, t3)
    requires WellFormed(t3) && Pruned(t3, pages.Keys, ManifestRoots(t), t4) && PagePath(r)
    ensures At(t4, Index(r)) == IndexAfter(t, pages, r)
  {
    hide StagedBuild, Promoted, Pruned, PagePath, ManifestRoots, HasActiveDescendant;
    PromotedIndex(t, stg, pages, t3, r);
    PrunedIndex(t3, pages.Keys, ManifestRoots(t), t4, r);
    if r in pages { ActiveIsSpared(pages.Keys, ManifestRoots(t), r); }
  }

  lemma ActiveIsSpared(active: set<Path>, prev: set<Path>, r: Path)
    requires r in active
    ensures Spared(active, prev, r)
  {
    forall s | s in prev && s !in active && s <= r ensures HasActiveDescendant(s, active) {}
  }

  /** A build up to the last rename, from any tree whose manifest lists pages: every
      index file is the one told by the tree before, and the old manifest still stands. */
  lemma UnfinishedLeaves(t: Tree, stg: string, pages: Pages, c: Choices, u: Tree)
    requires StagedBuild(t, stg, pages) && ListsPages(t)
    requires Unfinished(t, stg, pages.Keys, c, u) && LuckyOrder(pages, c.steps)
    ensures WellFormed(u) && At(u, [MANIFEST]) == At(t, [MANIFEST])
    ensures At(u, Staged(stg, [MANIFEST])) == At(t, Staged(stg, [MANIFEST]))
    ensures forall r :: PagePath(r) ==> At(u, Index(r)) == IndexAfter(t, pages, r)
  {
    hide StagedBuild, StagedPages, SamePages, DeepestFirst, LegalRun, Promoted, Pruned, PagePath, WellFormed, ManifestRoots,
      ClearWay, Promote, Prune, Enumerates, IndexAfter, Unfinished;
    var t1, t2 := BeforePages(t, stg, pages, c, u);
    var active, prev := pages.Keys, ManifestRoots(t);
    SamePagesFacts(t, stg, pages, t2);
    StagedBuildMeansStagedPages(t2, stg, pages);
    AncestorsFirstPromotes(t2, stg, active, c.steps);
    var t3 := Promote(t2, stg, c.steps, 0).tree;
    PromotedWellFormed(t2, stg, active, t3);
    PrunedPages(t3, active, prev, c.stale);
    ManifestsUntouched(t2, stg, active, prev, t3, u);
    forall r | PagePath(r) ensures At(u, Index(r)) == IndexAfter(t, pages, r) {
      IndexAfterPruning(t2, stg, pages, t3, u, r);
      SameIndex(t, stg, pages, t2, r);
    }
  }

  /** One successful build over any tree whose manifest lists pages, whatever index
      files lie about in it. */
  lemma BuildLeaves(t: Tree, stg: string, pages: Pages, c: Choices, v: Tree)
    requires StagedBuild(t, stg, pages) && ListsPages(t)
    requires PromotedStaging(t, stg, pages.Keys, c, v) && LuckyOrder(pages, c.steps)
    ensures WellFormed(v) && ManifestRoots(v) == pages.Keys
    ensures forall r :: PagePath(r) ==> At(v, Index(r)) == IndexAfter(t, pages, r)
  {
    hide PagePath, WellFormed, ManifestRoots, IndexAfter, Unfinished, PromoteFile, IsManifestOf, LuckyOrder, Index, StagedBuild, ListsPages;
    var u :| Unfinished(t, stg, pages.Keys, c, u) && PromoteFile(u, stg, MANIFEST) == Done(v);
    UnfinishedLeaves(t, stg, pages, c, u);
    var text := StagedManifest(t, stg, pages);
    ManifestGoesLive(u, stg, text, v);
    ManifestReadsPages(text, pages.Keys);
    RootsOfManifest(v, text);
    forall r | PagePath(r) ensures At(v, Index(r)) == IndexAfter(t, pages, r) {
      PageIndexStays(u, v, r);
    }
  }

  lemma StagedManifest(t: Tree, stg: string, pages: Pages) returns (text: string)
    requires StagedBuild(t, stg, pages)
    ensures WellFormed(t) && Hidden(stg) && stg != MANIFEST
    ensures At(t, Staged(stg, [MANIFEST])) == Some(File(text)) && IsManifestOf(text, pages.Keys)
  {
    text :| At(t, Staged(stg, [MANIFEST])) == Some(File(text)) && IsManifestOf(text, pages.Keys);
  }

  lemma PageIndexStays(t: Tree, u: Tree, r: Path)
    requires PagePath(r) && forall p: Path :: p != [] && PageHead(p[0]) ==> At(u, p) == At(t, p)
    ensures At(u, Index(r)) == At(t, Index(r))
  {
    PageHasHead(r);
    assert Index(r) != [];
  }

  lemma RootsOfManifest(t: Tree, text: string)
    requires At(t, [MANIFEST]) == Some(File(text))
    ensures ManifestRoots(t) == set l | l in Read(text) :: Split(l, '/')
  {
  }

  /** What that is over a tree that shows the last build's pages. */
  lemma IndexOverShown(t: Tree, prev: Pages, pages: Pages, ever: set<Path>, r: Path)
    requires Shows(t, prev, ever) && r in ever + pages.Keys
    ensures IndexAfter(t, pages, r) == if r in pages then Some(File(pages[r])) else None
  {
    if r !in pages && At(t, Index(r)) != None {
      assert r in prev;
      assert !Spared(pages.Keys, ManifestRoots(t), r);
    }
  }

  lemma ShowsFacts(t: Tree, prev: Pages, ever: set<Path>)
    requires Shows(t, prev, ever)
    ensures ListsPages(t) && WellFormed(t) && ManifestRoots(t) == prev.Keys && (forall r :: r in ever ==> PagePath(r))
  {
  }

  /** One build over any earlier run of builds: the live tree shows exactly its pages. */
  lemma BuildShowsItsPages(t: Tree, stg: string, prev: Pages, pages: Pages, ever: set<Path>, c: Choices, v: Tree)
    requires StagedBuild(t, stg, pages) && Shows(t, prev, ever)
    requires PromotedStaging(t, stg, pages.Keys, c, v) && LuckyOrder(pages, c.steps)
    ensures Shows(v, pages, ever + pages.Keys)
  {
    hide StagedBuild, PromotedStaging, LuckyOrder, PagePath, IndexAfter, ManifestRoots, Index, WellFormed, Shows;
    ShowsFacts(t, prev, ever);
    BuildLeaves(t, stg, pages, c, v);
    forall r | r in ever + pages.Keys
      ensures PagePath(r) && At(v, Index(r)) == if r in pages then Some(File(pages[r])) else None
    {
      IndexOverShown(t, prev, pages, ever, r);
    }
    NowShows(v, pages, ever + pages.Keys);
  }

  lemma NowShows(t: Tree, pages: Pages, ever: set<Path>)
    requires WellFormed(t) && pages.Keys <= ever && ManifestRoots(t) == pages.Keys
    requires forall r :: r in ever ==> PagePath(r)
    requires forall r {:trigger At(t, Index(r))} :: r in ever ==> At(t, Index(r)) == if r in pages then Some(File(pages[r])) else None
    ensures Shows(t, pages, ever)
  {
  }

  /** From any tree, a successful build leaves no page but its own exactly when every
      other index file lies below one of its roots or where pruning goes. */
  lemma NoGhostsIff(t: Tree, stg: string, pages: Pages, c: Choices, v: Tree)
    requires StagedBuild(t, stg, pages) && ListsPages(t)
    requires PromotedStaging(t, stg, pages.Keys, c, v) && LuckyOrder(pages, c.steps)
    ensures (forall r {:trigger At(v, Index(r))} :: PagePath(r) && r !in pages ==> At(v, Index(r)) == None)
       <==> forall r {:trigger At(t, Index(r))} :: PagePath(r) && r !in pages && At(t, Index(r)) != None ==>
              Covered(pages.Keys, r) || !Spared(pages.Keys, ManifestRoots(t), r)
  {
    BuildLeaves(t, stg, pages, c, v);
    hide StagedBuild, PromotedStaging, LuckyOrder, PagePath, ManifestRoots, Index, Spared, Covered;
    forall r | PagePath(r) ensures At(v, Index(r)) == IndexAfter(t, pages, r) {}
    forall r | PagePath(r) && r !in pages
      ensures At(v, Index(r)) == None <==> At(t, Index(r)) != None ==> Covered(pages.Keys, r) || !Spared(pages.Keys, ManifestRoots(t), r)
    {}
  }

  // ---------------------------------------------------------------------------
  // Runs of builds
  // ---------------------------------------------------------------------------

  /** One successful build: `staged` is the live tree with the staging directory
      written, `promoted` the tree `promoteStaging` leaves. */
  datatype Build = Build(pages: Pages, stg: string, staged: Tree, choices: Choices, promoted: Tree)

  /** Builds follow each other.  `ever` are the roots built so far; before staging and
      after promotion anything may happen to the tree but to the manifest and to the
      index files at those roots. */
  ghost predicate History(t: Tree, ever: set<Path>, builds: seq<Build>, end: Tree)
    decreases |builds|
  {
    if builds == [] then KeepsPages(t, ever, end)
    else
      var b := builds[0];
      && KeepsPages(t, ever, b.staged) && StagedBuild(b.staged, b.stg, b.pages)
      && PromotedStaging(b.staged, b.stg, b.pages.Keys, b.choices, b.promoted)
      && LuckyOrder(b.pages, b.choices.steps)
      && History(b.promoted, ever + b.pages.Keys, builds[1..], end)
  }

  ghost function Ever(builds: seq<Build>): set<Path> {
    if builds == [] then {} else builds[0].pages.Keys + Ever(builds[1..])
  }

  lemma {:induction false} HistoryShowsLast(t: Tree, prev: Pages, ever: set<Path>, builds: seq<Build>, end: Tree)
    requires Shows(t, prev, ever) && History(t, ever, builds, end)
    ensures Shows(end, if builds == [] then prev else builds[|builds| - 1].pages, ever + Ever(builds))
    decreases |builds|
  {
    hide Shows, KeepsPages, StagedBuild, PromotedStaging, LuckyOrder, PagePath;
    if builds == [] {
      ShowsKept(t, prev, ever, end);
      assert ever + Ever(builds) == ever;
    } else {
      var b := builds[0];
      ShowsKept(t, prev, ever, b.staged);
      BuildShowsItsPages(b.staged, b.stg, prev, b.pages, ever, b.choices, b.promoted);
      HistoryShowsLast(b.promoted, b.pages, ever + b.pages.Keys, builds[1..], end);
      assert ever + b.pages.Keys + Ever(builds[1..]) == ever + Ever(builds);
    }
  }

  /** No ghost pages: after any run of successful builds over a tree without a
      manifest, the index files at all the roots ever built are exactly the last
      build's, and the manifest lists exactly its roots. */
  lemma NoGhostPages(t: Tree, builds: seq<Build>, end: Tree)
    requires WellFormed(t) && [MANIFEST] !in t && builds != [] && History(t, {}, builds, end)
    ensures var last := builds[|builds| - 1].pages;
      && (forall r :: r in Ever(builds) ==> At(end, Index(r)) == if r in last then Some(File(last[r])) else None)
      && ManifestRoots(end) == last.Keys
  {
    hide History, PagePath, Read;
    var none: Pages := map[];
    assert Shows(t, none, {}) by { assert At(t, [MANIFEST]) == None; }
    HistoryShowsLast(t, none, {}, builds, end);
    assert {} + Ever(builds) == Ever(builds);
  }
}
