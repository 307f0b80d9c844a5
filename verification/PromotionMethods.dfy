/**
 The promotion as the program runs it: loops of file-system calls, any of which
 may be refused.  Without a fault each method does what its specification
 function says; with faults, nothing outside the roots in hand is harmed.
 */
module PromotionMethods {
  import opened Options
  import opened FileTree
  import opened Promotion
  import opened NestedPromotion
  import opened FileSystem
  import opened Pruning

  // ---------------------------------------------------------------------------
  // What a faulty run may touch
  // ---------------------------------------------------------------------------

  /** Everything present in `t` outside the staging directory and the subtrees at
      `roots` is still there, unchanged, in `u`. */
  ghost predicate Keeps(t: Tree, roots: set<Path>, stg: string, u: Tree) {
    forall p: Path {:trigger At(u, p)} :: p in t && !Covered(roots, p) && !([stg] <= p) ==> At(u, p) == At(t, p)
  }

  /** A subtree a run over `roots` may rearrange: one of theirs, a staged one, or
      one under a name not yet in use. */
  ghost predicate Loose(t: Tree, roots: set<Path>, stg: string, x: Path) {
    Covered(roots, x) || [stg] <= x || (x != [] && forall p: Path {:trigger p in t} :: [x[0]] <= p ==> p !in t)
  }

  lemma LooseBelow(t: Tree, roots: set<Path>, stg: string, x: Path, p: Path)
    requires Loose(t, roots, stg, x) && x <= p
    ensures p !in t || Covered(roots, p) || [stg] <= p
  {
    if Covered(roots, x) {
      var r :| r in roots && r <= x;
      PrefixTransitive(r, x, p);
    } else if [stg] <= x {
      PrefixTransitive([stg], x, p);
    } else {
      assert [x[0]] <= x;
      PrefixTransitive([x[0]], x, p);
    }
  }

  lemma MovedKeeps(t: Tree, roots: set<Path>, stg: string, u: Tree, s: Path, d: Path)
    requires Keeps(t, roots, stg, u) && Loose(t, roots, stg, s) && Loose(t, roots, stg, d)
    ensures Keeps(t, roots, stg, Moved(u, s, d))
  {
    forall p: Path | p in t && !Covered(roots, p) && !([stg] <= p) ensures At(Moved(u, s, d), p) == At(t, p) {
      MovedAt(u, s, d, p);
      if s <= p { LooseBelow(t, roots, stg, s, p); }
      if d <= p { LooseBelow(t, roots, stg, d, p); }
    }
  }

  lemma ShrunkKeeps(t: Tree, roots: set<Path>, stg: string, u: Tree, d: Path, v: Tree)
    requires Keeps(t, roots, stg, u) && Loose(t, roots, stg, d) && Shrunk(u, d, v)
    ensures Keeps(t, roots, stg, v)
  {
    forall p: Path | p in t && !Covered(roots, p) && !([stg] <= p) ensures At(v, p) == At(t, p) {
      if d <= p { LooseBelow(t, roots, stg, d, p); }
      assert At(u, p) == At(t, p);
    }
  }

  lemma MoreDirsKeeps(t: Tree, roots: set<Path>, stg: string, u: Tree, d: Path, v: Tree)
    requires Keeps(t, roots, stg, u) && MoreDirs(u, d, v)
    ensures Keeps(t, roots, stg, v)
  {
    forall p: Path | p in t && !Covered(roots, p) && !([stg] <= p) ensures At(v, p) == At(t, p) {
      assert At(u, p) == At(t, p);
    }
  }

  lemma RemovedShrinks(t: Tree, d: Path)
    ensures Shrunk(t, d, Removed(t, d))
  {
    forall p: Path ensures At(Removed(t, d), p) == At(t, p) || (d <= p && At(Removed(t, d), p) == None) {
      RemovedAt(t, d, p);
    }
  }

  lemma LooseNames(t: Tree, roots: set<Path>, stg: string, root: Path, bk: string)
    requires root in roots && FreshName(t, stg, bk)
    ensures forall q: Path :: root <= q ==> Loose(t, roots, stg, q)
    ensures forall q: Path :: [bk] <= q ==> Loose(t, roots, stg, q)
    ensures forall q: Path :: [stg] <= q ==> Loose(t, roots, stg, q)
  {
    forall q: Path | [bk] <= q ensures Loose(t, roots, stg, q) {
      assert q[0] == bk;
      forall p: Path | p in t ensures !([bk] <= p) {
        assert At(t, p) != None;
      }
    }
    forall q: Path | root <= q ensures Loose(t, roots, stg, q) {
      assert Covered(roots, q);
    }
  }

  lemma BelowBackup(bk: string, root: Path, q: Path)
    ensures [bk] <= Backup(bk, root, q) && [bk] <= BackupDir(bk)
  {
  }

  // ---------------------------------------------------------------------------
  // restorePreservedChildren, activeChildrenOf
  // ---------------------------------------------------------------------------

  function Result(ok: bool, t: Tree): Outcome {
    if ok then Done(t) else Failed(t)
  }

  method RestorePreservedChildren(fs: Disk, ghost t0: Tree, ghost roots: set<Path>, ghost stg: string,
                                  bk: string, root: Path, children: seq<Path>) returns (ok: bool)
    requires fs.Valid() && Keeps(t0, roots, stg, fs.tree) && (children == [] || FreshName(t0, stg, bk))
    requires root in roots && forall c :: c in children ==> root <= c && c != root
    modifies fs
    ensures fs.Valid() && Keeps(t0, roots, stg, fs.tree) && fs.faults >= old(fs.faults)
    ensures fs.faults == old(fs.faults) ==> Restore(old(fs.tree), bk, root, children) == Result(ok, fs.tree)
  {
    if children == [] { return true; }
    LooseNames(t0, roots, stg, root, bk);
    for i := 0 to |children|
      invariant fs.Valid() && Keeps(t0, roots, stg, fs.tree) && fs.faults >= old(fs.faults)
      invariant fs.faults == old(fs.faults) ==>
                  Restore(old(fs.tree), bk, root, children) == Restore(fs.tree, bk, root, children[i..])
    {
      var child := children[i];
      assert child in children;
      ghost var before := fs.tree;
      ghost var faults := fs.faults;
      assert children[i..][0] == child && children[i..][1..] == children[i + 1..];
      var backupChild := Backup(bk, root, child);
      BelowBackup(bk, root, child);
      if DirExists(fs.tree, backupChild) {
        ok := fs.MkdirAll(Parent(child));
        MoreDirsKeeps(t0, roots, stg, before, Parent(child), fs.tree);
        if !ok { return; }
        ghost var w := fs.tree;
        var _ := fs.RemoveAll(child);
        ShrunkKeeps(t0, roots, stg, w, child, fs.tree);
        ghost var v := fs.tree;
        ok := fs.Rename(backupChild, child);
        MovedKeeps(t0, roots, stg, v, backupChild, child);
        if !ok { return; }
      }
      assert fs.faults == faults ==> RestoreOne(before, bk, root, child) == Done(fs.tree);
    }
    ok := true;
  }

  method ActiveChildrenOf(fs: Disk, root: Path, active: set<Path>) returns (out: seq<Path>)
    ensures Enumerates(out, ActiveKids(fs.tree, root, active))
  {
    out := [];
    var rest := active;
    while rest != {}
      invariant rest <= active
      invariant Enumerates(out, ActiveKids(fs.tree, root, active - rest))
      decreases |rest|
    {
      var child :| child in rest;
      if child != root && root <= child && DirExists(fs.tree, child) {
        assert child !in out;
        out := out + [child];
      }
      rest := rest - {child};
    }
    assert active - rest == active;
  }

  // ---------------------------------------------------------------------------
  // promoteOneExtraDir
  // ---------------------------------------------------------------------------

  lemma {:induction false} LongerThanAll(s: set<Path>) returns (n: nat)
    ensures forall p :: p in s && p != [] ==> |p[0]| < n
    decreases |s|
  {
    n := 0;
    if s != {} {
      var p :| p in s;
      n := LongerThanAll(s - {p});
      assert forall q :: q in s ==> q == p || q in s - {p};
      if p != [] && |p[0]| >= n { n := |p[0]| + 1; }
    }
  }

  lemma SomeFreshName(t: Tree, stg: string) returns (bk: string)
    requires Hidden(stg)
    ensures FreshName(t, stg, bk) && BACKUP_PREFIX <= bk
  {
    var n := LongerThanAll(t.Keys + {[stg]});
    bk := BACKUP_PREFIX + seq(n + 1, i => '.');
    forall q: Path | [bk] <= q ensures At(t, q) == None {
      assert q[0] == bk;
    }
    assert [stg] in t.Keys + {[stg]} && [stg][0] == stg;
  }

  lemma FreshStaysLoose(t0: Tree, roots: set<Path>, stg: string, t1: Tree, bk: string)
    requires FreshName(t1, stg, bk) && Keeps(t0, roots, stg, t1)
    requires forall r :: r in roots ==> RootPath(r)
    ensures FreshName(t0, stg, bk)
  {
    forall q: Path | [bk] <= q ensures At(t0, q) == None {
      assert q[0] == bk;
      forall r | r in roots && r <= q ensures false { HeadOf(r, q); }
      assert At(t1, q) == None;
    }
  }

  lemma CanSetAside(t: Tree, stg: string, root: Path, bk: string)
    requires WellFormed(t) && RootPath(root) && FreshName(t, stg, bk)
    ensures DirExists(t, root) ==> CanRename(t[[bk] := Dir], root, BackupDir(bk))
  {
    assert At(t, BackupDir(bk)) == None by { assert [bk] <= BackupDir(bk); }
    assert Parent(BackupDir(bk)) == [bk];
    if root <= BackupDir(bk) { HeadOf(root, BackupDir(bk)); }
  }

  /** The undo rename finds its place free. */
  lemma CanUndo(t: Tree, stg: string, root: Path, bk: string)
    requires WellFormed(t) && RootPath(root) && FreshName(t, stg, bk) && CanMkdirAll(t, Parent(root))
    requires DirExists(t, root)
    ensures CanRename(SetAside(WithDirs(t, Parent(root)), root, bk), BackupDir(bk), root)
  {
    PreparedAt(t, stg, root, bk, BackupDir(bk));
    PreparedAt(t, stg, root, bk, root);
    PreparedAt(t, stg, root, bk, Parent(root));
    assert Parent(root) == root[..|root| - 1];
    if Parent(root) in t { AboveIsDir(t, Parent(root), root); }
    if BackupDir(bk) <= root || root <= BackupDir(bk) { HeadOf(root, BackupDir(bk)); }
    assert root + BackupDir(bk)[2..] == root;
  }

  /** `u` is `t` but for a temporary directory left behind. */
  ghost predicate OnlyTemporary(t: Tree, stg: string, u: Tree) {
    forall p: Path {:trigger At(u, p)} ::
      At(u, p) == At(t, p) || (p != [] && Hidden(p[0]) && p[0] != stg && At(t, p) == None)
  }

  /** The backup half: `root`, an existing directory, goes into a new hidden one. */
  method SetRootAside(fs: Disk, ghost t0: Tree, ghost roots: set<Path>, stg: string, root: Path)
    returns (ok: bool, backupDir: string)
    requires fs.Valid() && Hidden(stg) && Keeps(t0, roots, stg, fs.tree)
    requires root in roots && (forall r :: r in roots ==> RootPath(r)) && DirExists(fs.tree, root)
    modifies fs
    ensures fs.Valid() && Keeps(t0, roots, stg, fs.tree) && fs.faults >= old(fs.faults)
    ensures !ok ==> fs.faults > old(fs.faults) && OnlyTemporary(old(fs.tree), stg, fs.tree)
    ensures ok ==> fs.faults == old(fs.faults)
    ensures ok ==> FreshName(old(fs.tree), stg, backupDir) && FreshName(t0, stg, backupDir) && BACKUP_PREFIX <= backupDir
    ensures ok ==> fs.tree == SetAside(old(fs.tree), root, backupDir)
  {
    ghost var t1 := fs.tree;
    ok, backupDir := fs.MkdirTemp(stg);
    if !ok { return; }
    FreshStaysLoose(t0, roots, stg, t1, backupDir);
    LooseNames(t0, roots, stg, root, backupDir);
    NewNameKeeps(t0, roots, stg, t1, backupDir);
    ghost var made := fs.tree;
    ok := fs.Rename(root, BackupDir(backupDir));
    BelowBackup(backupDir, root, root);
    MovedKeeps(t0, roots, stg, made, root, BackupDir(backupDir));
    CanSetAside(t1, stg, root, backupDir);
    if !ok {
      var _ := fs.RemoveAll([backupDir]);
      ShrunkKeeps(t0, roots, stg, made, [backupDir], fs.tree);
      forall p: Path | At(fs.tree, p) != At(t1, p)
        ensures p != [] && Hidden(p[0]) && p[0] != stg && At(t1, p) == None
      {
        assert p == [backupDir] || At(made, p) == At(t1, p);
        assert [backupDir] <= p;
        assert p[0] == backupDir;
      }
    }
  }

  /** Without a fault: one legal step, as `PromoteOne` takes it. */
  method PromoteOneExtraDir(fs: Disk, ghost t0: Tree, ghost roots: set<Path>, stg: string,
                            root: Path, active: set<Path>) returns (ok: bool, ghost step: Step)
    requires fs.Valid() && Hidden(stg) && Keeps(t0, roots, stg, fs.tree)
    requires root in active && active <= roots && forall r :: r in roots ==> RootPath(r)
    modifies fs
    ensures fs.Valid() && Keeps(t0, roots, stg, fs.tree) && fs.faults >= old(fs.faults)
    ensures step.root == root
    ensures fs.faults == old(fs.faults) ==>
              LegalStep(old(fs.tree), stg, active, step) && PromoteOne(old(fs.tree), stg, step) == Result(ok, fs.tree)
  {
    ghost var t := fs.tree;
    ghost var spare := SomeFreshName(t, stg);
    ghost var kids := ActiveKids(WithDirs(t, Parent(root)), root, active);
    ByDepthSorts(kids);
    step := Step(root, ByDepth(kids), spare);
    ok := fs.MkdirAll(Parent(root));
    MoreDirsKeeps(t0, roots, stg, t, Parent(root), fs.tree);
    if !ok { return; }
    FreshUnderDirs(t, stg, root, spare);
    ghost var t1 := fs.tree;
    var childrenToPreserve := ActiveChildrenOf(fs, root, active);
    step := step.(kids := childrenToPreserve);
    var finalExists := DirExists(fs.tree, root);
    var backupDir := "";
    if finalExists {
      ok, backupDir := SetRootAside(fs, t0, roots, stg, root);
      if !ok { return; }
      FreshBefore(t, stg, root, backupDir);
      step := step.(bk := backupDir);
    } else {
      NoChildrenWithoutRoot(t1, root, active, childrenToPreserve);
      FreshStaysLoose(t0, roots, stg, t1, spare);
    }
    ok := PutRootInPlace(fs, t0, roots, stg, t, step, finalExists, backupDir, root, childrenToPreserve);
  }

  /** The other half: the staged root goes in, or the old one comes back. */
  method PutRootInPlace(fs: Disk, ghost t0: Tree, ghost roots: set<Path>, stg: string, ghost t: Tree, ghost step: Step,
                        finalExists: bool, backupDir: string, root: Path, children: seq<Path>) returns (ok: bool)
    requires fs.Valid() && Hidden(stg) && Keeps(t0, roots, stg, fs.tree) && WellFormed(t)
    requires root in roots && RootPath(root)
    requires step.root == root && step.kids == children && forall c :: c in children ==> root <= c && c != root
    requires FreshName(t, stg, step.bk) && FreshName(t0, stg, step.bk)
    requires if finalExists then step.bk == backupDir else children == []
    requires CanMkdirAll(t, Parent(root)) && finalExists == DirExists(WithDirs(t, Parent(root)), root)
    requires fs.tree == SetAside(WithDirs(t, Parent(root)), root, step.bk)
    modifies fs
    ensures fs.Valid() && Keeps(t0, roots, stg, fs.tree) && fs.faults >= old(fs.faults)
    ensures fs.faults == old(fs.faults) ==> PromoteOne(t, stg, step) == Result(ok, fs.tree)
  {
    ghost var t2 := fs.tree;
    LooseNames(t0, roots, stg, root, step.bk);
    assert [stg] <= Staged(stg, root);
    ok := fs.Rename(Staged(stg, root), root);
    MovedKeeps(t0, roots, stg, t2, Staged(stg, root), root);
    if !ok {
      if finalExists {
        PreparedAt(t, stg, root, backupDir, root);
        CanUndo(t, stg, root, backupDir);
        BelowBackup(backupDir, root, root);
        var _ := fs.Rename(BackupDir(backupDir), root);
        MovedKeeps(t0, roots, stg, t2, BackupDir(backupDir), root);
      }
      return;
    }
    ok := RestorePreservedChildren(fs, t0, roots, stg, backupDir, root, children);
    if ok && finalExists {
      ghost var v := fs.tree;
      var _ := fs.RemoveAll([backupDir]);
      ShrunkKeeps(t0, roots, stg, v, [backupDir], fs.tree);
    }
  }

  lemma NoChildrenWithoutRoot(t: Tree, root: Path, active: set<Path>, kids: seq<Path>)
    requires WellFormed(t) && !DirExists(t, root) && Enumerates(kids, ActiveKids(t, root, active))
    ensures kids == []
  {
    assert kids == [] || kids[0] in kids;
    forall k | k in kids ensures false {
      AboveIsDir(t, root, k);
    }
  }

  lemma FreshUnderDirs(t: Tree, stg: string, root: Path, bk: string)
    requires FreshName(t, stg, bk) && RootPath(root)
    ensures FreshName(WithDirs(t, Parent(root)), stg, bk)
  {
    assert Parent(root) == root[..|root| - 1];
    forall q: Path | [bk] <= q ensures At(WithDirs(t, Parent(root)), q) == None {
      WithDirsAt(t, Parent(root), q);
      assert q[0] == bk;
      if q <= Parent(root) {
        PrefixTransitive(q, Parent(root), root);
        HeadOf(root, q);
      }
    }
  }

  lemma FreshBefore(t: Tree, stg: string, root: Path, bk: string)
    requires FreshName(WithDirs(t, Parent(root)), stg, bk)
    ensures FreshName(t, stg, bk)
  {
    forall q: Path | [bk] <= q ensures At(t, q) == None {
      WithDirsAt(t, Parent(root), q);
    }
  }

  lemma NewNameKeeps(t0: Tree, roots: set<Path>, stg: string, t: Tree, bk: string)
    requires Keeps(t0, roots, stg, t) && FreshName(t0, stg, bk)
    ensures Keeps(t0, roots, stg, t[[bk] := Dir])
  {
    assert At(t0, [bk]) == None;
    forall p: Path | p in t0 && !Covered(roots, p) && !([stg] <= p) ensures At(t[[bk] := Dir], p) == At(t0, p) {
      assert At(t, p) == At(t0, p);
    }
  }

  // ---------------------------------------------------------------------------
  // promoteExtraDirs, pruneStaleRoots
  // ---------------------------------------------------------------------------

  lemma {:induction false} HasDeepest(s: set<Path>) returns (m: Path)
    requires s != {}
    ensures m in s && forall x :: x in s ==> |x| <= |m|
    decreases |s|
  {
    m :| m in s;
    if s != {m} {
      var k := HasDeepest(s - {m});
      assert forall x :: x in s ==> x == m || x in s - {m};
      if |k| > |m| { m := k; }
    }
  }

  /** Any order the unstable sort of the map's keys may give. */
  method RootsByDepth(active: set<Path>) returns (roots: seq<Path>)
    ensures Enumerates(roots, active) && Descending(roots)
  {
    roots := [];
    var rest := active;
    while rest != {}
      invariant rest <= active && Enumerates(roots, active - rest) && Descending(roots)
      invariant forall x, y | x in rest && y in roots :: |x| <= |y|
      decreases |rest|
    {
      ghost var deepest := HasDeepest(rest);
      var m :| m in rest && forall x | x in rest :: |x| <= |m|;
      AppendShallower(roots, m);
      Append(roots, active - rest, m);
      rest := rest - {m};
      roots := roots + [m];
      assert active - rest == active - (rest + {m}) + {m};
    }
    assert active - rest == active;
  }

  ghost predicate Descending(s: seq<Path>) {
    forall i, j | 0 <= i < j < |s| :: |s[j]| <= |s[i]|
  }

  lemma AppendShallower(s: seq<Path>, m: Path)
    requires Descending(s) && forall y :: y in s ==> |m| <= |y|
    ensures Descending(s + [m])
  {
    forall i | 0 <= i < |s| ensures |m| <= |s[i]| { assert s[i] in s; }
  }

  lemma Append(s: seq<Path>, q: set<Path>, m: Path)
    requires Enumerates(s, q) && m !in q
    ensures Enumerates(s + [m], q + {m})
  {
    forall i | 0 <= i < |s| ensures s[i] != m { assert s[i] in s; }
  }

  lemma PromoteOnlyOne(t: Tree, stg: string, steps: seq<Step>, n: nat)
    requires n + 1 == |steps|
    ensures Promote(t, stg, steps, n) == PromoteOne(t, stg, steps[n])
  {
    var o := PromoteOne(t, stg, steps[n]);
    assert Promote(o.tree, stg, steps, n + 1) == Done(o.tree);
  }

  lemma PromoteMoreStep(t: Tree, stg: string, steps: seq<Step>, n: nat, step: Step, u: Tree, v: Outcome)
    requires n < |steps| && PromoteOne(t, stg, steps[n]) == Done(u)
    requires Promote(u, stg, steps + [step], n + 1) == v
    ensures Promote(t, stg, steps + [step], n) == v
  {
    assert (steps + [step])[n] == steps[n];
  }

  lemma {:induction false} PromoteMore(t: Tree, stg: string, steps: seq<Step>, n: nat, step: Step)
    requires n <= |steps| && Promote(t, stg, steps, n).Done?
    ensures Promote(t, stg, steps + [step], n) == PromoteOne(Promote(t, stg, steps, n).tree, stg, step)
    decreases |steps| - n
  {
    if n == |steps| {
      PromoteOnlyOne(t, stg, steps + [step], n);
    } else {
      var u := PromoteOne(t, stg, steps[n]).tree;
      PromoteMore(u, stg, steps, n + 1, step);
      PromoteMoreStep(t, stg, steps, n, step, u, Promote(u, stg, steps + [step], n + 1));
    }
  }

  lemma {:induction false} LegalMore(t: Tree, stg: string, active: set<Path>, steps: seq<Step>, n: nat, step: Step)
    requires n <= |steps| && LegalRun(t, stg, active, steps, n) && Promote(t, stg, steps, n).Done?
    requires LegalStep(Promote(t, stg, steps, n).tree, stg, active, step)
    ensures LegalRun(t, stg, active, steps + [step], n)
    decreases |steps| - n
  {
    if n < |steps| {
      assert (steps + [step])[n] == steps[n];
      LegalMore(PromoteOne(t, stg, steps[n]).tree, stg, active, steps, n + 1, step);
    } else {
      assert (steps + [step])[n] == step;
    }
  }

  lemma RootsJoin(a: seq<Step>, b: seq<Step>)
    ensures Roots(a + b) == Roots(a) + Roots(b)
  {
  }

  lemma AllTheRoots(active: set<Path>, roots: seq<Path>, steps: seq<Step>)
    requires Enumerates(roots, active) && Descending(roots) && Roots(steps) == roots
    ensures DeepestFirst(active, steps)
  {
  }

  /** Steps for roots that are not reached any more. */
  ghost function Unreached(roots: seq<Path>): (steps: seq<Step>)
    ensures Roots(steps) == roots
  {
    seq(|roots|, i requires 0 <= i < |roots| => Step(roots[i], [], ""))
  }

  lemma {:induction false} FailedRunIsPadded(t: Tree, stg: string, active: set<Path>, steps: seq<Step>, n: nat, more: seq<Step>)
    requires n <= |steps| && LegalRun(t, stg, active, steps, n) && Promote(t, stg, steps, n).Failed?
    ensures LegalRun(t, stg, active, steps + more, n) && Promote(t, stg, steps + more, n) == Promote(t, stg, steps, n)
    decreases |steps| - n
  {
    hide LegalStep, PromoteOne;
    assert (steps + more)[n] == steps[n];
    if PromoteOne(t, stg, steps[n]).Done? {
      FailedRunIsPadded(PromoteOne(t, stg, steps[n]).tree, stg, active, steps, n + 1, more);
    }
  }

  /** The promotion half: a legal run over the roots, deepest first, cut short by
      the first failure. */
  method PromoteRoots(fs: Disk, ghost t0: Tree, ghost roots: set<Path>, stg: string, active: set<Path>)
    returns (ok: bool, ghost steps: seq<Step>)
    requires fs.Valid() && Hidden(stg) && Keeps(t0, roots, stg, fs.tree)
    requires active <= roots && forall r :: r in roots ==> RootPath(r)
    modifies fs
    ensures fs.Valid() && Keeps(t0, roots, stg, fs.tree) && fs.faults >= old(fs.faults)
    ensures fs.faults == old(fs.faults) ==>
              && LegalRun(old(fs.tree), stg, active, steps, 0)
              && Promote(old(fs.tree), stg, steps, 0) == Result(ok, fs.tree)
    ensures DeepestFirst(active, steps)
  {
    var rootsByDepth := RootsByDepth(active);
    steps := [];
    for i := 0 to |rootsByDepth|
      invariant fs.Valid() && Keeps(t0, roots, stg, fs.tree) && fs.faults >= old(fs.faults)
      invariant Roots(steps) == rootsByDepth[..i]
      invariant fs.faults == old(fs.faults) ==>
                  && LegalRun(old(fs.tree), stg, active, steps, 0)
                  && Promote(old(fs.tree), stg, steps, 0) == Done(fs.tree)
    {
      var root := rootsByDepth[i];
      assert root in rootsByDepth;
      hide LegalRun, LegalStep, Promote, PromoteOne, Keeps, DeepestFirst, Descending;
      ghost var step;
      ghost var faults := fs.faults;
      ok, step := PromoteOneExtraDir(fs, t0, roots, stg, root, active);
      if fs.faults == old(fs.faults) {
        PromoteMore(old(fs.tree), stg, steps, 0, step);
        LegalMore(old(fs.tree), stg, active, steps, 0, step);
      }
      steps := steps + [step];
      assert Roots(steps) == rootsByDepth[..i + 1];
      if !ok {
        ghost var missed := Unreached(rootsByDepth[i + 1..]);
        RootsJoin(steps, missed);
        AllTheRoots(active, rootsByDepth, steps + missed);
        if fs.faults == old(fs.faults) { FailedRunIsPadded(old(fs.tree), stg, active, steps, 0, missed); }
        steps := steps + missed;
        return;
      }
    }
    assert rootsByDepth[..|rootsByDepth|] == rootsByDepth;
    ok := true;
  }

  lemma {:induction false} PruneMore(t: Tree, active: set<Path>, stale: seq<Path>, n: nat, r: Path)
    requires n <= |stale| && Prune(t, active, stale, n).Done?
    ensures Prune(t, active, stale + [r], n) == PruneOne(Prune(t, active, stale, n).tree, active, r)
    decreases |stale| - n
  {
    if n < |stale| {
      assert (stale + [r])[n] == stale[n];
      PruneMore(PruneOne(t, active, stale[n]).tree, active, stale, n + 1, r);
    } else {
      assert (stale + [r])[n] == r;
      if PruneOne(t, active, r).Done? {
        assert Prune(PruneOne(t, active, r).tree, active, stale + [r], n + 1) == PruneOne(t, active, r);
      }
    }
  }

  method PruneStaleRoots(fs: Disk, ghost t0: Tree, ghost roots: set<Path>, ghost stg: string,
                         active: set<Path>, oldRoots: set<Path>) returns (ok: bool, ghost stale: seq<Path>)
    requires fs.Valid() && Keeps(t0, roots, stg, fs.tree)
    requires oldRoots <= roots && forall r :: r in roots ==> RootPath(r)
    modifies fs
    ensures fs.Valid() && Keeps(t0, roots, stg, fs.tree) && fs.faults >= old(fs.faults)
    ensures fs.faults == old(fs.faults) ==> Prune(old(fs.tree), active, stale, 0) == Result(ok, fs.tree)
    ensures Distinct(stale) && (forall r :: r in stale ==> r in oldRoots) && (ok ==> Enumerates(stale, oldRoots))
  {
    stale := [];
    var rest := oldRoots;
    while rest != {}
      invariant fs.Valid() && Keeps(t0, roots, stg, fs.tree) && fs.faults >= old(fs.faults)
      invariant rest <= oldRoots && Enumerates(stale, oldRoots - rest)
      invariant fs.faults == old(fs.faults) ==> Prune(old(fs.tree), active, stale, 0) == Done(fs.tree)
      decreases |rest|
    {
      var root :| root in rest;
      rest := rest - {root};
      if fs.faults == old(fs.faults) { PruneMore(old(fs.tree), active, stale, 0, root); }
      assert root !in stale;
      stale := stale + [root];
      assert Covered(roots, root);
      assert root in roots;
      ghost var before := fs.tree;
      assert Covered(roots, Index(root));
      if root !in active && DirExists(fs.tree, root) {
        if HasActiveDescendant(root, active) {
          var r := fs.Remove(Index(root));
          RemovedShrinks(before, Index(root));
          ShrunkKeeps(t0, roots, stg, before, Index(root), if r.Gone? then fs.tree else before);
          if r.Refused? { return false, stale; }
        } else {
          ok := fs.RemoveAll(root);
          ShrunkKeeps(t0, roots, stg, before, root, fs.tree);
          if !ok { return; }
        }
      }
    }
    assert oldRoots - rest == oldRoots;
    ok := true;
  }

  /** Whatever is refused, nothing outside the active and the stale roots is
      harmed; without a fault the run is a legal one followed by a pruning. */
  method PromoteExtraDirs(fs: Disk, stg: string, active: set<Path>, oldRoots: set<Path>)
    returns (ok: bool, ghost steps: seq<Step>, ghost stale: seq<Path>)
    requires fs.Valid() && Hidden(stg) && forall r :: r in active + oldRoots ==> RootPath(r)
    modifies fs
    ensures fs.Valid() && fs.faults >= old(fs.faults)
    ensures Keeps(old(fs.tree), active + oldRoots, stg, fs.tree)
    ensures DeepestFirst(active, steps) && Distinct(stale)
    ensures (forall r :: r in stale ==> r in oldRoots) && (ok ==> Enumerates(stale, oldRoots))
    ensures fs.faults == old(fs.faults) ==>
              && LegalRun(old(fs.tree), stg, active, steps, 0)
              && match Promote(old(fs.tree), stg, steps, 0)
                 case Failed(u) => !ok && fs.tree == u
                 case Done(u) => Prune(u, active, stale, 0) == Result(ok, fs.tree)
  {
    stale := [];
    ok, steps := PromoteRoots(fs, fs.tree, active + oldRoots, stg, active);
    if !ok { return; }
    ok, stale := PruneStaleRoots(fs, old(fs.tree), active + oldRoots, stg, active, oldRoots);
  }
}
