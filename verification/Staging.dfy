/**
 `promoteStaging` itself: subtrees, top-level files, page roots, manifest, each step
 stopping at the first refusal.
 */
module Staging {
  import opened Options
  import opened FileTree
  import opened Promotion
  import opened NestedPromotion
  import opened FileSystem
  import opened Pruning
  import opened Manifest
  import opened Strings
  import opened PromotionMethods
  import opened ManagedSubtrees
  import opened Builds
  import opened LiveBuild

  lemma {:induction false} EarlierSwaps(t: Tree, stg: string, bks: seq<string>, more: string, n: nat)
    requires n <= |SUBTREES| && n <= |bks|
    ensures SwapAll(t, stg, bks + [more], n) == SwapAll(t, stg, bks, n)
    ensures FreshBackups(t, stg, bks + [more], n) == FreshBackups(t, stg, bks, n)
  {
    hide SwapSubtree, FreshName;
    if n > 0 {
      EarlierSwaps(t, stg, bks, more, n - 1);
      assert (bks + [more])[n - 1] == bks[n - 1];
    }
  }

  lemma BackupIsNoManifest(bk: string)
    requires BACKUP_PREFIX <= bk
    ensures bk != MANIFEST
  {
    assert bk[4] == 'b';
  }

  lemma KeepsJoins(t: Tree, r: set<Path>, stg: string, u: Tree, s: set<Path>, v: Tree)
    requires Keeps(t, r, stg, u) && Keeps(u, s, stg, v)
    ensures Keeps(t, r + s, stg, v)
  {
    forall p: Path | p in t && !Covered(r + s, p) && !([stg] <= p) ensures At(v, p) == At(t, p) {
      assert !Covered(r, p) && !Covered(s, p);
      assert At(u, p) == At(t, p);
    }
  }

  function Names(names: seq<string>): set<Path> {
    set n | n in names :: [n]
  }

  lemma NamesOf(names: seq<string>, n: nat)
    requires n < |names|
    ensures Names(names[..n + 1]) == Names(names[..n]) + {[names[n]]}
  {
    assert names[..n + 1] == names[..n] + [names[n]];
    forall p ensures p in Names(names[..n + 1]) <==> p in Names(names[..n]) + {[names[n]]} {
      if p in Names(names[..n]) { var m :| m in names[..n] && p == [m]; assert m in names[..n + 1]; }
    }
  }

  /** The first `n` subtrees are swapped. */
  ghost predicate FirstSwapped(t: Tree, stg: string, bks: seq<string>, n: nat, u: Tree) {
    && n == |bks| <= |SUBTREES| && FreshBackups(t, stg, bks, n) && SwapAll(t, stg, bks, n) == Done(u)
    && forall d :: d in Subtrees(n) ==> !TreeBlocked(t, stg, d)
  }

  /** One more subtree swapped, or found blocked. */
  lemma OneMoreSwap(t: Tree, stg: string, bks: seq<string>, n: nat, u: Tree, bk: string, ok: bool, v: Tree)
    requires WellFormed(t) && Hidden(stg) && n < |SUBTREES| && FirstSwapped(t, stg, bks, n, u)
    requires FreshName(u, stg, bk) && BACKUP_PREFIX <= bk && SwapSubtree(u, stg, SUBTREES[n], bk) == Result(ok, v)
    ensures ok ==> FirstSwapped(t, stg, bks + [bk], n + 1, v)
    ensures !ok ==> exists d :: d in SITE_TREES && TreeBlocked(t, stg, d)
  {
    hide SwapSubtree, FreshName, TreeBlocked, Subtrees, WellFormed;
    NextSubtree(n);
    NextSwapSucceeds(t, stg, bks, n, bk);
    EarlierSwaps(t, stg, bks, bk, n);
    BackupIsNoManifest(bk);
    assert (bks + [bk])[n] == bk;
  }

  lemma AllSwapped(t: Tree, stg: string, bks: seq<string>, u: Tree)
    requires WellFormed(t) && Hidden(stg) && FirstSwapped(t, stg, bks, |SUBTREES|, u)
    ensures |bks| == |SUBTREES| && FreshBackups(t, stg, bks, |SUBTREES|) && SwapAll(t, stg, bks, |SUBTREES|) == Done(u)
    ensures Swapped(t, stg, SITE_TREES, u) && forall d :: d in SITE_TREES ==> !TreeBlocked(t, stg, d)
  {
    hide Swapped, TreeBlocked, WellFormed, FreshBackups, SwapAll;
    AllSubtrees();
    SubtreesGoLive(t, stg, bks);
  }

  lemma NoneSwapped(t: Tree, stg: string)
    ensures FirstSwapped(t, stg, [], 0, t)
  {
  }

  method PromoteSubtrees(fs: Disk, stg: string) returns (ok: bool, ghost bks: seq<string>)
    requires fs.Valid() && Hidden(stg)
    modifies fs
    ensures fs.Valid() && fs.faults >= old(fs.faults)
    ensures Keeps(old(fs.tree), Names(SUBTREES), stg, fs.tree)
    // without a refusal it fails exactly when a file is in the way of a staged subtree, and
    // otherwise all four are the staged ones and nothing else has changed
    ensures fs.faults == old(fs.faults) ==> (ok <==> forall d :: d in SITE_TREES ==> !TreeBlocked(old(fs.tree), stg, d))
    ensures ok && fs.faults == old(fs.faults) ==> Swapped(old(fs.tree), stg, SITE_TREES, fs.tree)
    ensures ok && fs.faults == old(fs.faults) ==>
              |bks| == |SUBTREES| && FreshBackups(old(fs.tree), stg, bks, |SUBTREES|)
              && SwapAll(old(fs.tree), stg, bks, |SUBTREES|) == Done(fs.tree)
  {
    hide Keeps, SwapSubtree, FreshName, SwapAll, FreshBackups, SwapOutcome, Shrunk, TreeBlocked, Swapped, Names, FirstSwapped;
    ok, bks := true, [];
    ghost var t := fs.tree;
    NoneSwapped(t, stg);
    NothingKept(t, stg);
    var n := 0;
    while n < |SUBTREES|
      invariant fs.Valid() && n <= |SUBTREES| && fs.faults >= old(fs.faults)
      invariant Keeps(t, Names(SUBTREES[..n]), stg, fs.tree)
      invariant fs.faults == old(fs.faults) ==> FirstSwapped(t, stg, bks, n, fs.tree)
    {
      ghost var u, before := fs.tree, bks;
      ghost var bk, undoRefused;
      NextSubtree(n);
      ok, bk, undoRefused := PromoteManagedSubtree(fs, stg, SUBTREES[n]);
      if fs.faults == old(fs.faults) { OneMoreSwap(t, stg, before, n, u, bk, ok, fs.tree); }
      KeepsJoins(t, Names(SUBTREES[..n]), stg, u, {[SUBTREES[n]]}, fs.tree);
      NamesOf(SUBTREES, n);
      if !ok {
        NamesGrow(SUBTREES, n + 1);
        KeepsMore(t, Names(SUBTREES[..n + 1]), Names(SUBTREES), stg, fs.tree);
        return;
      }
      bks := bks + [bk];
      n := n + 1;
    }
    assert SUBTREES[..n] == SUBTREES;
    if fs.faults == old(fs.faults) { AllSwapped(t, stg, bks, fs.tree); }
  }

  lemma NothingKept(t: Tree, stg: string)
    ensures Keeps(t, Names(SUBTREES[..0]), stg, t)
  {
  }

  lemma NamesGrow(names: seq<string>, n: nat)
    requires n <= |names|
    ensures Names(names[..n]) <= Names(names)
  {
    forall p | p in Names(names[..n]) ensures p in Names(names) { var m :| m in names[..n] && p == [m]; }
  }

  lemma KeepsMore(t: Tree, r: set<Path>, s: set<Path>, stg: string, u: Tree)
    requires Keeps(t, r, stg, u) && r <= s
    ensures Keeps(t, s, stg, u)
  {
    forall p: Path | p in t && !Covered(s, p) ensures !Covered(r, p) {}
  }

  /** Renames a staged file into place, if there is one. */
  method PromoteOneFile(fs: Disk, stg: string, name: string) returns (ok: bool)
    requires fs.Valid() && Hidden(stg)
    modifies fs
    ensures fs.Valid() && fs.faults >= old(fs.faults)
    ensures Keeps(old(fs.tree), {[name]}, stg, fs.tree)
    ensures fs.faults == old(fs.faults) ==> PromoteFile(old(fs.tree), stg, name) == Result(ok, fs.tree)
    ensures !ok ==> fs.tree == old(fs.tree)
  {
    var staged := Staged(stg, [name]);
    if staged !in fs.tree {
      return true;
    }
    ghost var t := fs.tree;
    assert Keeps(t, {[name]}, stg, t) && [stg] <= staged && Covered({[name]}, [name]);
    ok := fs.Rename(staged, [name]);
    MovedKeeps(t, {[name]}, stg, t, staged, [name]);
  }

  method PromoteTopLevelFiles(fs: Disk, stg: string) returns (ok: bool)
    requires fs.Valid() && Hidden(stg)
    modifies fs
    ensures fs.Valid() && fs.faults >= old(fs.faults)
    ensures Keeps(old(fs.tree), Names(TOP_FILES), stg, fs.tree)
    // without a refusal it fails exactly when something is in the way of a staged file,
    // and otherwise all that were staged are live
    ensures fs.faults == old(fs.faults) ==> (ok <==> forall f :: f in SITE_FILES ==> !InTheWay(old(fs.tree), stg, f))
    ensures ok && fs.faults == old(fs.faults) ==> WentLive(old(fs.tree), stg, SITE_FILES, fs.tree)
    ensures ok && fs.faults == old(fs.faults) ==> PromoteTopFiles(old(fs.tree), stg, |TOP_FILES|) == Done(fs.tree)
  {
    ok := true;
    ghost var t := fs.tree;
    var n := 0;
    while n < |TOP_FILES|
      invariant fs.Valid() && n <= |TOP_FILES| && fs.faults >= old(fs.faults)
      invariant Keeps(t, Names(TOP_FILES[..n]), stg, fs.tree)
      invariant fs.faults == old(fs.faults) ==> PromoteTopFiles(t, stg, n) == Done(fs.tree)
    {
      hide Keeps, PromoteFile, WentLive, InTheWay;
      ghost var u := fs.tree;
      ok := PromoteOneFile(fs, stg, TOP_FILES[n]);
      KeepsJoins(t, Names(TOP_FILES[..n]), stg, u, {[TOP_FILES[n]]}, fs.tree);
      NamesOf(TOP_FILES, n);
      if !ok {
        NamesGrow(TOP_FILES, n + 1);
        KeepsMore(t, Names(TOP_FILES[..n + 1]), Names(TOP_FILES), stg, fs.tree);
        if fs.faults == old(fs.faults) { FailedStays(t, stg, n + 1, |TOP_FILES|); }
        TopFilesGoLive(t, stg);
        return;
      }
      n := n + 1;
    }
    assert TOP_FILES[..n] == TOP_FILES;
    TopFilesGoLive(t, stg);
  }

  /** The roots the live manifest lists; refused when it cannot be read. */
  method OldRoots(fs: Disk) returns (ok: bool, roots: set<Path>)
    requires fs.Valid()
    ensures ok <==> !DirExists(fs.tree, [".sb-pages-manifest"])
    ensures ok ==> roots == ManifestRoots(fs.tree)
  {
    if [MANIFEST] !in fs.tree {
      return true, {};
    }
    if fs.tree[[MANIFEST]].Dir? {
      return false, {};
    }
    var lines := ReadPagesManifest(fs.tree[[MANIFEST]].data);
    roots := set l | l in lines :: Split(l, '/');
    ok := true;
  }

  /** Everything a build may touch outside the staging directory. */
  function Touched(active: set<Path>, oldRoots: set<Path>): set<Path> {
    Names(SUBTREES) + Names(TOP_FILES) + (active + oldRoots) + {[MANIFEST]}
  }

  /** Whatever is refused, nothing but the managed subtrees, the top-level files, the
      active and the old roots and the manifest is harmed; without a refusal the
      tree is what `PromotedStaging` says of some run, and when only the last rename
      is refused, what `Unfinished` says. */
  method PromoteStaging(fs: Disk, stg: string, active: set<Path>) returns (ok: bool, ghost c: Choices, ghost atManifest: bool)
    requires fs.Valid() && Hidden(stg) && forall r :: r in active + ManifestRoots(fs.tree) ==> RootPath(r)
    modifies fs
    ensures fs.Valid() && fs.faults >= old(fs.faults)
    ensures Keeps(old(fs.tree), Touched(active, ManifestRoots(old(fs.tree))), stg, fs.tree)
    ensures ok && fs.faults == old(fs.faults) ==> PromotedStaging(old(fs.tree), stg, active, c, fs.tree)
    ensures fs.faults == old(fs.faults) ==> SucceedsIff(old(fs.tree), stg, active, ok)
    ensures !ok && atManifest && fs.faults == old(fs.faults) + 1 && CanRename(fs.tree, Staged(stg, [MANIFEST]), [MANIFEST]) ==>
              Unfinished(old(fs.tree), stg, active, c, fs.tree)
  {
    hide Keeps, ManifestRoots, SucceedsIff, NothingInTheWay, TreeBlocked, InTheWay, Swapped, WentLive, FreshBackups, SwapAll, PromoteTopFiles,
      LegalRun, DeepestFirst, Promote, Prune, Enumerates, Distinct, WellFormed;
    assert MANIFEST == ".sb-pages-manifest";
    ghost var t := fs.tree;
    ghost var all := Touched(active, ManifestRoots(t));
    c, atManifest := Choices([], [], []), false;
    SameKeeps(t, {}, stg);
    KeepsMore(t, {}, all, stg, t);
    var oldRoots;
    ok, oldRoots := OldRoots(fs);
    if !ok {
      FailsBeforePages(t, stg, active, t);
      return;
    }
    ghost var bks, steps, stale;
    ok, bks := PromoteSubtrees(fs, stg);
    KeepsMore(t, Names(SUBTREES), all, stg, fs.tree);
    if !ok {
      if fs.faults == old(fs.faults) { FailsBeforePages(t, stg, active, t); }
      return;
    }
    ghost var t1 := fs.tree;
    ok := PromoteTopLevelFiles(fs, stg);
    KeepsJoins(t, Names(SUBTREES), stg, t1, Names(TOP_FILES), fs.tree);
    KeepsMore(t, Names(SUBTREES) + Names(TOP_FILES), all, stg, fs.tree);
    if !ok {
      if fs.faults == old(fs.faults) { FailsBeforePages(t, stg, active, t1); }
      return;
    }
    ghost var t2 := fs.tree;
    ok, steps, stale := PromoteExtraDirs(fs, stg, active, oldRoots);
    KeepsJoins(t, Names(SUBTREES) + Names(TOP_FILES), stg, t2, active + oldRoots, fs.tree);
    KeepsMore(t, Names(SUBTREES) + Names(TOP_FILES) + (active + oldRoots), all, stg, fs.tree);
    ghost var t4 := fs.tree;
    if fs.faults == old(fs.faults) { PagesDecide(t, stg, active, bks, t1, t2, steps, stale, ok, t4); }
    if !ok { return; }
    atManifest := true;
    ok := PromoteOneFile(fs, stg, MANIFEST);
    KeepsJoins(t, Names(SUBTREES) + Names(TOP_FILES) + (active + oldRoots), stg, t4, {[MANIFEST]}, fs.tree);
    c := Choices(bks, steps, stale);
  }

  lemma SameKeeps(t: Tree, r: set<Path>, stg: string)
    ensures Keeps(t, r, stg, t)
  {
  }
}
