/**
 The whole of `promoteExtraDirs` up to pruning, for every order in which the map
 iterations may yield the active children: when it succeeds, when the result is
 exactly the staged tree, and what an unlucky order loses.
 */
module NestedPromotion {
  import opened Options
  import opened FileTree
  import opened Promotion

  // ---------------------------------------------------------------------------
  // Restoring in any order
  // ---------------------------------------------------------------------------

  predicate FreeOrDir(o: Option<Node>) {
    o == None || o == Some(Dir)
  }

  /** No file stands where a child, or a directory above a child, must go. */
  ghost predicate Unobstructed(t: Tree, bk: string, root: Path, all: set<Path>) {
    && RootPath(root) && Hidden(bk)
    && (forall q: Path :: q <= root ==> DirExists(t, q))
    && (forall c :: c in all ==> root <= c && root != c)
    && (forall c, q: Path :: c in all && root <= q && q <= c ==> FreeOrDir(At(t, q)))
    && (forall c, q: Path :: c in all && root <= q && q <= c ==> FreeOrDir(At(t, Backup(bk, root, q))))
  }

  /** `t'` is `t` after the backup of `c` was moved back. */
  ghost predicate MovedBack(t: Tree, bk: string, root: Path, c: Path, t': Tree) {
    && (forall q: Path {:trigger At(t', q)} :: c <= q ==> At(t', q) == At(t, Backup(bk, root, q)))
    && (forall q: Path {:trigger At(t', Backup(bk, root, q))} :: root <= q ==>
          At(t', Backup(bk, root, q)) == if c <= q then None else At(t, Backup(bk, root, q)))
    && (forall q: Path {:trigger At(t', q)} :: !(c <= q) && !(BackupDir(bk) <= q) ==>
          At(t', q) == if q <= c && q !in t then Some(Dir) else At(t, q))
  }

  lemma AboveKidIsFree(t: Tree, bk: string, root: Path, all: set<Path>, c: Path, q: Path)
    requires Unobstructed(t, bk, root, all) && c in all && q <= c
    ensures FreeOrDir(At(t, q))
  {
    if !(root <= q) {
      PrefixComparable(q, root, c);
      assert DirExists(t, q);
    }
  }

  lemma RestoreEffect(t: Tree, bk: string, root: Path, all: set<Path>, c: Path)
    requires Unobstructed(t, bk, root, all) && c in all
    requires DirExists(t, Backup(bk, root, c))
    ensures RestoreOne(t, bk, root, c).Done?
    ensures MovedBack(t, bk, root, c, RestoreOne(t, bk, root, c).tree)
  {
    var b := Backup(bk, root, c);
    HeadOf(root, c);
    assert Parent(c) == c[..|c| - 1];
    forall i | 0 <= i <= |Parent(c)| ensures Parent(c)[..i] !in t || t[Parent(c)[..i]].Dir? {
      var q := Parent(c)[..i];
      assert q == c[..i];
      AboveKidIsFree(t, bk, root, all, c, q);
    }
    var w := WithDirs(t, Parent(c));
    var v := Removed(w, c);
    forall q: Path ensures At(v, q) ==
      if c <= q then None else if q <= c && q !in t then Some(Dir) else At(t, q)
    {
      RemovedAt(w, c, q);
      WithDirsAt(t, Parent(c), q);
      if q <= c && !(c <= q) {
        assert q == c[..|q|] == Parent(c)[..|q|];
      }
      if q <= Parent(c) { PrefixTransitive(q, Parent(c), c); }
    }
    assert At(v, Parent(c)) == Some(Dir) by {
      AboveKidIsFree(t, bk, root, all, c, Parent(c));
    }
    assert At(v, c) == None;
    assert b[0] == bk;
    assert At(v, b) == Some(Dir);
    assert CanRename(v, b, c);
    MovedBackAfterRename(t, bk, root, c, v);
  }

  lemma MovedBackAfterRename(t: Tree, bk: string, root: Path, c: Path, v: Tree)
    requires RootPath(root) && Hidden(bk) && root <= c
    requires forall q: Path :: At(v, q) == if c <= q then None else if q <= c && q !in t then Some(Dir) else At(t, q)
    ensures MovedBack(t, bk, root, c, Moved(v, Backup(bk, root, c), c))
  {
    var b := Backup(bk, root, c);
    var t' := Moved(v, b, c);
    HeadOf(root, c);
    forall q: Path | c <= q ensures At(t', q) == At(t, Backup(bk, root, q)) && root <= q {
      MovedAt(v, b, c, q);
      PrefixTransitive(root, c, q);
      BackupPrefix(bk, root, c, q);
      var b' := Backup(bk, root, q);
      assert b'[0] == bk;
      if b' <= c { HeadOf(c, b'); }
    }
    forall q: Path | root <= q
      ensures At(t', Backup(bk, root, q)) == if c <= q then None else At(t, Backup(bk, root, q))
    {
      var b' := Backup(bk, root, q);
      MovedAt(v, b, c, b');
      BackupPrefix(bk, root, c, q);
      assert b'[0] == bk;
      if b' <= c { HeadOf(c, b'); }
    }
    forall q: Path | !(c <= q) && !(BackupDir(bk) <= q)
      ensures At(t', q) == if q <= c && q !in t then Some(Dir) else At(t, q)
    {
      MovedAt(v, b, c, q);
      if b <= q { PrefixTransitive(BackupDir(bk), b, q); }
    }
  }

  lemma StaysUnobstructed(t: Tree, bk: string, root: Path, all: set<Path>, c: Path, t': Tree)
    requires Unobstructed(t, bk, root, all) && c in all && MovedBack(t, bk, root, c, t')
    ensures Unobstructed(t', bk, root, all)
  {
    assert !(c <= root) by {
      if c <= root { PrefixAntisymmetric(c, root); }
    }
    forall q: Path | q <= root ensures DirExists(t', q) {
      if q != [] { HeadOf(root, q); }
      if c <= q { PrefixTransitive(c, q, root); }
      assert DirExists(t, q);
    }
    forall e, q: Path | e in all && root <= q && q <= e
      ensures FreeOrDir(At(t', q)) && FreeOrDir(At(t', Backup(bk, root, q)))
    {
      HeadOf(root, q);
      assert FreeOrDir(At(t, q)) && FreeOrDir(At(t, Backup(bk, root, q)));
    }
  }

  lemma {:induction false} RestoresInAnyOrder(t: Tree, bk: string, root: Path, all: set<Path>, kids: seq<Path>)
    requires Unobstructed(t, bk, root, all) && Elements(kids) <= all
    ensures Restore(t, bk, root, kids).Done?
    ensures var t' := Restore(t, bk, root, kids).tree;
      && Unobstructed(t', bk, root, all)
      && forall q: Path :: !(root <= q) && !(BackupDir(bk) <= q) ==> At(t', q) == At(t, q)
    decreases |kids|
  {
    if kids != [] {
      var c := kids[0];
      assert c in Elements(kids);
      var t1 := t;
      if DirExists(t, Backup(bk, root, c)) {
        RestoreEffect(t, bk, root, all, c);
        t1 := RestoreOne(t, bk, root, c).tree;
        StaysUnobstructed(t, bk, root, all, c, t1);
        forall q: Path | !(root <= q) && !(BackupDir(bk) <= q) ensures At(t1, q) == At(t, q) {
          if c <= q { PrefixTransitive(root, c, q); }
          if q <= c {
            PrefixComparable(q, root, c);
            assert DirExists(t, q);
          }
        }
      }
      assert Elements(kids[1..]) <= Elements(kids);
      RestoresInAnyOrder(t1, bk, root, all, kids[1..]);
    }
  }

  /** Nothing is left of the subtree at `c`, neither live nor set aside. */
  ghost predicate Gone(t: Tree, bk: string, root: Path, c: Path) {
    && (forall q: Path {:trigger At(t, q)} :: c <= q ==> At(t, q) == None)
    && (forall q: Path {:trigger At(t, Backup(bk, root, q))} :: c <= q ==> At(t, Backup(bk, root, q)) == None)
  }

  lemma {:induction false} GoneForGood(t: Tree, bk: string, root: Path, all: set<Path>, kids: seq<Path>, c: Path)
    requires Unobstructed(t, bk, root, all) && Elements(kids) <= all && c in all
    requires Gone(t, bk, root, c)
    ensures Restore(t, bk, root, kids).Done? && Gone(Restore(t, bk, root, kids).tree, bk, root, c)
    decreases |kids|
  {
    if kids != [] {
      var e := kids[0];
      assert e in Elements(kids);
      var t1 := t;
      if DirExists(t, Backup(bk, root, e)) {
        assert !(c <= e);
        RestoreEffect(t, bk, root, all, e);
        t1 := RestoreOne(t, bk, root, e).tree;
        StaysUnobstructed(t, bk, root, all, e, t1);
        GoneAfterOther(t, bk, root, c, e, t1);
      }
      assert Elements(kids[1..]) <= Elements(kids);
      GoneForGood(t1, bk, root, all, kids[1..], c);
    }
  }

  lemma GoneAfterOther(t: Tree, bk: string, root: Path, c: Path, e: Path, t': Tree)
    requires RootPath(root) && Hidden(bk) && root <= c && root <= e && !(c <= e)
    requires Gone(t, bk, root, c) && MovedBack(t, bk, root, e, t')
    ensures Gone(t', bk, root, c)
  {
    forall q: Path | c <= q ensures At(t', q) == None && At(t', Backup(bk, root, q)) == None {
      PrefixTransitive(root, c, q);
      HeadOf(root, q);
      if q <= e { PrefixTransitive(c, q, e); }
    }
  }

  lemma TwoRestores(u: Tree, bk: string, root: Path, all: set<Path>, b: Path, c: Path) returns (t2: Tree)
    requires Unobstructed(u, bk, root, all) && b in all && c in all
    requires b <= c && b != c
    requires DirExists(u, Backup(bk, root, b)) && DirExists(u, Backup(bk, root, c))
    ensures var s1 := RestoreOne(u, bk, root, c);
      s1.Done? && RestoreOne(s1.tree, bk, root, b) == Done(t2)
    ensures Unobstructed(t2, bk, root, all) && Gone(t2, bk, root, c)
  {
    RestoreEffect(u, bk, root, all, c);
    var t1 := RestoreOne(u, bk, root, c).tree;
    StaysUnobstructed(u, bk, root, all, c, t1);
    assert !(c <= b) by { if c <= b { PrefixAntisymmetric(b, c); } }
    RestoreEffect(t1, bk, root, all, b);
    t2 := RestoreOne(t1, bk, root, b).tree;
    StaysUnobstructed(t1, bk, root, all, b, t2);
    forall q: Path | c <= q ensures At(t2, q) == None && At(t2, Backup(bk, root, q)) == None {
      PrefixTransitive(b, c, q);
    }
  }

  lemma RestoreTwice(u: Tree, bk: string, root: Path, rest: seq<Path>, b: Path, c: Path)
    requires var s1 := RestoreOne(u, bk, root, c);
      s1.Done? && RestoreOne(s1.tree, bk, root, b).Done?
    ensures Restore(u, bk, root, [c, b] + rest)
         == Restore(RestoreOne(RestoreOne(u, bk, root, c).tree, bk, root, b).tree, bk, root, rest)
  {
    var kids := [c, b] + rest;
    assert kids[1..] == [b] + rest && kids[1..][1..] == rest;
  }

  /** Restoring a page before a page above it: the second restore clears the
      first one's place and brings back a copy that no longer holds it. */
  lemma DescendantFirstLoses(u: Tree, bk: string, root: Path, all: set<Path>, rest: seq<Path>, b: Path, c: Path)
    requires Unobstructed(u, bk, root, all) && b in all && c in all && Elements(rest) <= all
    requires b <= c && b != c
    requires DirExists(u, Backup(bk, root, b)) && DirExists(u, Backup(bk, root, c))
    ensures Restore(u, bk, root, [c, b] + rest).Done?
    ensures Gone(Restore(u, bk, root, [c, b] + rest).tree, bk, root, c)
  {
    var t2 := TwoRestores(u, bk, root, all, b, c);
    GoneForGood(t2, bk, root, all, rest, c);
    RestoreTwice(u, bk, root, rest, b, c);
  }

  // ---------------------------------------------------------------------------
  // Whole runs
  // ---------------------------------------------------------------------------

  function Roots(steps: seq<Step>): seq<Path> {
    seq(|steps|, i requires 0 <= i < |steps| => steps[i].root)
  }

  /** The steps take the active roots once each, deepest first. */
  ghost predicate DeepestFirst(active: set<Path>, steps: seq<Step>) {
    && Enumerates(Roots(steps), active)
    && forall i, j | 0 <= i < j < |steps| :: |Roots(steps)[j]| <= |Roots(steps)[i]|
  }

  /** Every step is one the program may take in the state it starts from. */
  ghost predicate LegalRun(t: Tree, stg: string, active: set<Path>, steps: seq<Step>, n: nat)
    requires n <= |steps|
    decreases |steps| - n
  {
    n < |steps| ==>
      && LegalStep(t, stg, active, steps[n])
      && match PromoteOne(t, stg, steps[n])
         case Failed(_) => true
         case Done(u) => LegalRun(u, stg, active, steps, n + 1)
  }

  /** What a build hands over: every active root has a staged directory. */
  ghost predicate StagedPages(t0: Tree, stg: string, active: set<Path>) {
    && WellFormed(t0) && Hidden(stg)
    && forall r :: r in active ==> RootPath(r) && DirExists(t0, Staged(stg, r))
  }

  /** No live file occupies a root or a directory above it. */
  ghost predicate ClearPath(t: Tree, root: Path) {
    forall q: Path :: q <= root ==> FreeOrDir(At(t, q))
  }

  ghost predicate ClearWay(t0: Tree, active: set<Path>) {
    forall r :: r in active ==> ClearPath(t0, r)
  }

  ghost predicate NoThreeDeep(active: set<Path>) {
    forall a, b, c :: a in active && b in active && c in active && a <= b && b <= c ==> a == b || b == c
  }

  ghost function KidsBelow(active: set<Path>, root: Path): set<Path> {
    set c | c in active && c != root && root <= c
  }

  ghost predicate Apart(holes: set<Path>, root: Path) {
    forall h :: h in holes ==> RootPath(h) && !(h <= root) && !(root <= h)
  }

  lemma KidsAreDone(active: set<Path>, steps: seq<Step>, n: nat)
    requires DeepestFirst(active, steps) && n < |steps|
    ensures var d := Elements(Roots(steps)[..n]); var root := steps[n].root;
      && d <= active && root in active && root !in d
      && (forall c :: c in d ==> !(c <= root))
      && KidsBelow(active, root) <= d
      && (forall c :: c in d && root <= c ==> c in KidsBelow(active, root))
      && Elements(Roots(steps)[..n + 1]) == d + {root}
      && Roots(steps)[..n + 1] == Roots(steps)[..n] + [root]
  {
    var roots := Roots(steps);
    var root := steps[n].root;
    assert roots[n] == root && root in roots;
    forall c | c in roots[..n] ensures c in active && c != root && !(c <= root) {
      var i :| 0 <= i < n && roots[i] == c;
      assert |roots[n]| <= |roots[i]|;
      assert c <= root && |c| == |root| ==> c == root;
      assert c in roots;
      assert |roots[n]| <= |roots[i]|;
    }
    forall c | c in KidsBelow(active, root) ensures c in roots[..n] {
      assert c in roots;
      var i :| 0 <= i < |roots| && roots[i] == c;
      assert root == c[..|root|];
      assert i < n;
      assert roots[..n][i] == c;
    }
    assert roots[..n + 1] == roots[..n] + [root];
  }

  lemma FreshAfter(t0: Tree, stg: string, d: set<Path>, holes: set<Path>, t: Tree, bk: string)
    requires Promoted(t0, stg, d, holes, t) && FreshName(t0, stg, bk)
    requires (forall c :: c in d ==> RootPath(c)) && (forall h :: h in holes ==> RootPath(h))
    ensures FreshName(t, stg, bk)
  {
    forall p: Path | [bk] <= p ensures At(t, p) == None {
      BackupIsUncovered(d, bk, p);
      BackupIsUncovered(holes, bk, p);
      assert p[0] == bk;
    }
  }

  /** Every child of the root is on disk when its turn comes. */
  lemma KidsOnDisk(t0: Tree, stg: string, active: set<Path>, holes: set<Path>, steps: seq<Step>, n: nat, t: Tree)
    requires StagedPages(t0, stg, active) && DeepestFirst(active, steps) && n < |steps|
    requires Promoted(t0, stg, Elements(Roots(steps)[..n]), holes, t) && Apart(holes, steps[n].root)
    ensures ActiveKids(WithDirs(t, Parent(steps[n].root)), steps[n].root, active) == KidsBelow(active, steps[n].root)
  {
    var root := steps[n].root;
    var d := Elements(Roots(steps)[..n]);
    KidsAreDone(active, steps, n);
    forall c | c in KidsBelow(active, root) ensures DirExists(WithDirs(t, Parent(root)), c) {
      assert Covered(d, c);
      HeadOf(root, c);
      assert !Covered(holes, c) by {
        forall h | h in holes && h <= c ensures false { PrefixComparable(h, root, c); }
      }
      assert At(t, c) == At(t0, Staged(stg, c));
      WithDirsAt(t, Parent(root), c);
    }
  }

  lemma NextFits(t0: Tree, stg: string, active: set<Path>, holes: set<Path>, steps: seq<Step>, n: nat, t: Tree)
    requires StagedPages(t0, stg, active) && DeepestFirst(active, steps) && n < |steps|
    requires Promoted(t0, stg, Elements(Roots(steps)[..n]), holes, t) && Apart(holes, steps[n].root)
    requires Enumerates(steps[n].kids, KidsBelow(active, steps[n].root)) && FreshName(t, stg, steps[n].bk)
    ensures Fits(t0, stg, Elements(Roots(steps)[..n]), holes, t, steps[n])
  {
    KidsAreDone(active, steps, n);
  }

  lemma StepUnobstructed(t0: Tree, stg: string, d: set<Path>, holes: set<Path>, t: Tree, step: Step, u: Tree)
    requires Fits(t0, stg, d, holes, t, step)
    requires InPlace(t, stg, step.root, step.bk, true, u)
    ensures Unobstructed(u, step.bk, step.root, Elements(step.kids))
  {
    var root, bk, all := step.root, step.bk, Elements(step.kids);
    assert !Covered(d, root);
    forall q: Path | q <= root ensures DirExists(u, q) {
      if q == root { assert At(u, q) == At(t, Staged(stg, q)) == At(t0, Staged(stg, q)); }
    }
    forall c | c in all ensures root <= c && root != c {}
    forall c, q: Path | c in all && root <= q && q <= c
      ensures FreeOrDir(At(u, q)) && FreeOrDir(At(u, Backup(bk, root, q)))
    {
      BetweenFree(t0, stg, d, holes, t, step, u, c, q);
    }
  }

  lemma BetweenFree(t0: Tree, stg: string, d: set<Path>, holes: set<Path>, t: Tree, step: Step, u: Tree, c: Path, q: Path)
    requires Fits(t0, stg, d, holes, t, step) && c in step.kids && step.root <= q && q <= c
    requires InPlace(t, stg, step.root, step.bk, true, u)
    ensures FreeOrDir(At(u, q)) && FreeOrDir(At(u, Backup(step.bk, step.root, q)))
  {
    StagedPrefix(stg, q, c);
    assert DirExists(t0, Staged(stg, c));
    assert DirExists(t0, Staged(stg, q));
    HeadOf(step.root, q);
    OutsideHoles(t0, stg, d, holes, t, step, q);
    assert Covered(d, q) || Above(d, q) by {
      assert c in d;
      if q != c { assert Above(d, q); } else { assert Covered(d, q); }
    }
  }

  /** A step fails exactly when a live file is in its way. */
  lemma StepSucceeds(t0: Tree, stg: string, d: set<Path>, holes: set<Path>, t: Tree, step: Step)
    requires Fits(t0, stg, d, holes, t, step)
    ensures PromoteOne(t, stg, step).Done? <==> ClearPath(t, step.root)
  {
    var Step(root, kids, bk) := step;
    var t2 := SetAside(WithDirs(t, Parent(root)), root, bk);
    var u := Moved(t2, Staged(stg, root), root);
    assert Parent(root) == root[..|root| - 1];
    PreparedAt(t, stg, root, bk, root);
    PreparedAt(t, stg, root, bk, Staged(stg, root));
    PreparedAt(t, stg, root, bk, Parent(root));
    assert Staged(stg, root)[0] == stg;
    assert !(Staged(stg, root) <= root) && !(root <= Staged(stg, root));
    assert !Covered(d, root);
    assert At(t, Staged(stg, root)) == At(t0, Staged(stg, root));
    if CanMkdirAll(t, Parent(root)) {
      forall q: Path | q <= root && q != root ensures FreeOrDir(At(t, q)) {
        assert q == root[..|q|] == Parent(root)[..|q|];
      }
      PutInPlace(t, stg, root, bk);
      if FreeOrDir(At(t, root)) {
        assert CanRename(t2, Staged(stg, root), root);
        if DirExists(t, root) {
          StepUnobstructed(t0, stg, d, holes, t, step, u);
          RestoresInAnyOrder(u, bk, root, Elements(kids), kids);
        } else {
          NoKidsWithoutRoot(t0, stg, d, holes, t, step);
        }
      }
    } else {
      var i :| 0 <= i <= |Parent(root)| && Parent(root)[..i] in t && t[Parent(root)[..i]].File?;
      assert Parent(root)[..i] == root[..i] <= root;
      assert !FreeOrDir(At(t, root[..i]));
    }
  }

  /** After any step, whatever its order: everything outside its root is as it
      should be, and what is left under the root is the hole. */
  lemma StepElsewhere(t0: Tree, stg: string, d: set<Path>, holes: set<Path>, t: Tree, step: Step)
    requires Fits(t0, stg, d, holes, t, step) && DirExists(t, step.root)
    requires PromoteOne(t, stg, step).Done?
    ensures Promoted(t0, stg, d + {step.root}, holes + {step.root}, PromoteOne(t, stg, step).tree)
  {
    var Step(root, kids, bk) := step;
    PutInPlace(t, stg, root, bk);
    PreparedAt(t, stg, root, bk, root);
    var u := Moved(SetAside(WithDirs(t, Parent(root)), root, bk), Staged(stg, root), root);
    StepUnobstructed(t0, stg, d, holes, t, step, u);
    RestoresInAnyOrder(u, bk, root, Elements(kids), kids);
    var v := Restore(u, bk, root, kids).tree;
    var t' := Removed(v, [bk]);
    forall p: Path | !([stg] <= p) && !Covered(holes + {root}, p)
      ensures At(t', p) == if Covered(d + {root}, p) then At(t0, Staged(stg, p))
                           else if Above(d + {root}, p) then Some(Dir) else At(t0, p)
    {
      RemovedAt(v, [bk], p);
      CoveredMore(holes, root, p);
      CoveredMore(d, root, p);
      AboveMore(d, root, p);
      OutsideAfterStep(t0, stg, d, holes, t, step, u, v, p);
    }
    forall p: Path | [stg] <= p ensures At(t', p) == At(u, p) {
      RemovedAt(v, [bk], p);
      assert p[0] == stg;
      if root <= p { HeadOf(root, p); }
    }
    StagedAfterStep(t0, stg, d, holes, t, step, u, t');
  }

  lemma OutsideAfterStep(t0: Tree, stg: string, d: set<Path>, holes: set<Path>, t: Tree, step: Step, u: Tree, v: Tree, p: Path)
    requires Fits(t0, stg, d, holes, t, step) && InPlace(t, stg, step.root, step.bk, true, u)
    requires !(BackupDir(step.bk) <= p) ==> At(v, p) == At(u, p)
    requires !([stg] <= p) && !Covered(holes, p) && !(step.root <= p)
    ensures (if [step.bk] <= p then None else At(v, p)) ==
            if Covered(d, p) then At(t0, Staged(stg, p))
            else if Above(d, p) || (p <= step.root && p != step.root) then Some(Dir) else At(t0, p)
  {
    var root, bk := step.root, step.bk;
    if [bk] <= p {
      assert p[0] == bk;
      BackupIsUncovered(d, bk, p);
      assert At(t, p) == None;
      if p <= root { HeadOf(root, p); }
    } else {
      if BackupDir(bk) <= p { PrefixTransitive([bk], BackupDir(bk), p); }
      if Staged(stg, root) <= p { PrefixTransitive([stg], Staged(stg, root), p); }
      if p <= root {
        forall c | c in d && c <= p ensures false { PrefixTransitive(c, p, root); }
      }
    }
  }

  // ---------------------------------------------------------------------------
  // Ancestors-first runs
  // ---------------------------------------------------------------------------

  ghost predicate KidsAncestorsFirst(steps: seq<Step>) {
    forall s :: s in steps ==> AncestorsFirst(s.kids)
  }

  /** Every order is ancestors first when the roots are nested at most two deep. */
  lemma FlatKidsAncestorsFirst(active: set<Path>, root: Path, kids: seq<Path>)
    requires NoThreeDeep(active) && root in active && Enumerates(kids, KidsBelow(active, root))
    ensures AncestorsFirst(kids)
  {
    forall i, j | 0 <= i < j < |kids| ensures !(kids[j] <= kids[i]) {
      assert kids[i] in kids && kids[j] in kids;
    }
  }

  lemma StillClear(t0: Tree, stg: string, active: set<Path>, holes: set<Path>, steps: seq<Step>, n: nat, t: Tree)
    requires StagedPages(t0, stg, active) && DeepestFirst(active, steps) && n < |steps|
    requires Promoted(t0, stg, Elements(Roots(steps)[..n]), holes, t) && Apart(holes, steps[n].root)
    requires ClearPath(t0, steps[n].root)
    ensures ClearPath(t, steps[n].root)
  {
    var root := steps[n].root;
    var d := Elements(Roots(steps)[..n]);
    KidsAreDone(active, steps, n);
    forall q: Path | q <= root ensures FreeOrDir(At(t, q)) {
      if q != [] { HeadOf(root, q); }
      assert !Covered(d, q) by {
        forall c | c in d && c <= q ensures false { PrefixTransitive(c, q, root); }
      }
      assert !Covered(holes, q) by {
        forall h | h in holes && h <= q ensures false { PrefixTransitive(h, q, root); }
      }
    }
  }

  /** One step of a run whose restore order is ancestors first. */
  lemma NextStep(t0: Tree, stg: string, active: set<Path>, holes: set<Path>, steps: seq<Step>, n: nat, t: Tree)
    requires StagedPages(t0, stg, active) && ClearWay(t0, active)
    requires DeepestFirst(active, steps) && n < |steps|
    requires Promoted(t0, stg, Elements(Roots(steps)[..n]), holes, t) && Apart(holes, steps[n].root)
    requires Enumerates(steps[n].kids, KidsBelow(active, steps[n].root)) && FreshName(t, stg, steps[n].bk)
    ensures PromoteOne(t, stg, steps[n]).Done?
    ensures AncestorsFirst(steps[n].kids) ==>
              Promoted(t0, stg, Elements(Roots(steps)[..n + 1]), holes, PromoteOne(t, stg, steps[n]).tree)
  {
    var d := Elements(Roots(steps)[..n]);
    KidsAreDone(active, steps, n);
    NextFits(t0, stg, active, holes, steps, n, t);
    StillClear(t0, stg, active, holes, steps, n, t);
    StepSucceeds(t0, stg, d, holes, t, steps[n]);
    if AncestorsFirst(steps[n].kids) {
      StepPromotes(t0, stg, d, holes, t, steps[n]);
    }
  }

  lemma WasClear(t0: Tree, stg: string, active: set<Path>, steps: seq<Step>, n: nat, t: Tree)
    requires StagedPages(t0, stg, active) && DeepestFirst(active, steps) && n < |steps|
    requires Promoted(t0, stg, Elements(Roots(steps)[..n]), {}, t)
    requires forall r :: r in Roots(steps)[..n] ==> ClearPath(t0, r)
    requires ClearPath(t, steps[n].root)
    ensures ClearPath(t0, steps[n].root)
  {
    var root := steps[n].root;
    var d := Elements(Roots(steps)[..n]);
    KidsAreDone(active, steps, n);
    forall q: Path | q <= root ensures FreeOrDir(At(t0, q)) {
      if q != [] { HeadOf(root, q); }
      assert !Covered({}, q);
      assert !Covered(d, q) by {
        forall c | c in d && c <= q ensures false { PrefixTransitive(c, q, root); }
      }
      assert FreeOrDir(At(t, q));
      if Above(d, q) {
        var c :| c in d && q <= c && q != c;
        assert ClearPath(t0, c);
      }
    }
  }

  lemma {:induction false} RunPromotes(t0: Tree, stg: string, active: set<Path>, steps: seq<Step>, n: nat, t: Tree)
    requires StagedPages(t0, stg, active)
    requires DeepestFirst(active, steps) && n <= |steps|
    requires NoThreeDeep(active) || KidsAncestorsFirst(steps)
    requires forall r :: r in Roots(steps)[..n] ==> ClearPath(t0, r)
    requires Promoted(t0, stg, Elements(Roots(steps)[..n]), {}, t)
    requires LegalRun(t, stg, active, steps, n)
    ensures Promote(t, stg, steps, n).Done? <==> ClearWay(t0, active)
    ensures Promote(t, stg, steps, n).Done? ==> Promoted(t0, stg, active, {}, Promote(t, stg, steps, n).tree)
    decreases |steps| - n
  {
    assert Elements(Roots(steps)) == active;
    if n == |steps| {
      assert Roots(steps)[..n] == Roots(steps);
      forall r | r in active ensures ClearPath(t0, r) { assert r in Roots(steps); }
    } else {
      var root, d := steps[n].root, Elements(Roots(steps)[..n]);
      KidsAreDone(active, steps, n);
      KidsOnDisk(t0, stg, active, {}, steps, n, t);
      NextFits(t0, stg, active, {}, steps, n, t);
      StepSucceeds(t0, stg, d, {}, t, steps[n]);
      if PromoteOne(t, stg, steps[n]).Done? {
        WasClear(t0, stg, active, steps, n, t);
        if NoThreeDeep(active) { FlatKidsAncestorsFirst(active, root, steps[n].kids); }
        StepPromotes(t0, stg, d, {}, t, steps[n]);
        RunPromotes(t0, stg, active, steps, n + 1, PromoteOne(t, stg, steps[n]).tree);
      } else if ClearWay(t0, active) {
        StillClear(t0, stg, active, {}, steps, n, t);
      }
    }
  }

  lemma NothingPromotedYet(t0: Tree, stg: string)
    ensures Promoted(t0, stg, {}, {}, t0)
  {
    forall p: Path ensures !Covered({}, p) && !Above({}, p) {}
  }

  /** With ancestors restored first, whatever the nesting, and in any order when
      no three roots are nested in each other: the run succeeds
      exactly when no live file is in the way, and then the live tree is the
      staged one at every root and untouched elsewhere. */
  lemma AncestorsFirstPromotes(t0: Tree, stg: string, active: set<Path>, steps: seq<Step>)
    requires StagedPages(t0, stg, active)
    requires DeepestFirst(active, steps) && LegalRun(t0, stg, active, steps, 0)
    requires NoThreeDeep(active) || KidsAncestorsFirst(steps)
    ensures Promote(t0, stg, steps, 0).Done? <==> ClearWay(t0, active)
    ensures Promote(t0, stg, steps, 0).Done? ==> Promoted(t0, stg, active, {}, Promote(t0, stg, steps, 0).tree)
  {
    NothingPromotedYet(t0, stg);
    assert Roots(steps)[..0] == [];
    assert Elements(Roots(steps)[..0]) == {};
    RunPromotes(t0, stg, active, steps, 0, t0);
  }

  // ---------------------------------------------------------------------------
  // Schedules
  // ---------------------------------------------------------------------------

  ghost predicate IsShallowest(m: Path, s: set<Path>) {
    m in s && forall x :: x in s ==> |m| <= |x|
  }

  lemma {:induction false} HasShallowest(s: set<Path>) returns (m: Path)
    requires s != {}
    ensures IsShallowest(m, s)
    decreases |s|
  {
    m :| m in s;
    if s != {m} {
      var k := HasShallowest(s - {m});
      assert forall x :: x in s ==> x == m || x in s - {m};
      if |k| < |m| { m := k; }
    }
  }

  lemma ShallowestExists(s: set<Path>)
    requires s != {}
    ensures exists m :: IsShallowest(m, s)
  {
    var m := HasShallowest(s);
  }

  ghost function Shallowest(s: set<Path>): (m: Path)
    requires s != {}
    ensures IsShallowest(m, s)
  {
    ShallowestExists(s);
    var m :| IsShallowest(m, s);
    m
  }

  ghost function ByDepth(s: set<Path>): seq<Path> {
    if s == {} then [] else [Shallowest(s)] + ByDepth(s - {Shallowest(s)})
  }

  ghost predicate ByLength(r: seq<Path>) {
    forall i, j | 0 <= i < j < |r| :: |r[i]| <= |r[j]|
  }

  lemma {:induction false} ByDepthEnumerates(s: set<Path>)
    ensures Enumerates(ByDepth(s), s) && ByLength(ByDepth(s))
    decreases |s|
  {
    if s != {} {
      var m := Shallowest(s);
      ByDepthEnumerates(s - {m});
      Prepend(m, ByDepth(s - {m}), s);
    }
  }

  lemma Prepend(m: Path, rest: seq<Path>, s: set<Path>)
    requires IsShallowest(m, s) && Enumerates(rest, s - {m}) && ByLength(rest)
    ensures Enumerates([m] + rest, s) && ByLength([m] + rest)
  {
    var r := [m] + rest;
    forall p ensures p in r <==> p in s {
      assert p in r <==> p == m || p in rest;
    }
    forall i, j | 0 <= i < j < |r| ensures r[i] != r[j] && |r[i]| <= |r[j]| {
      assert r[j] == rest[j - 1] && rest[j - 1] in rest;
      if i > 0 { assert r[i] == rest[i - 1]; }
    }
  }

  lemma ByDepthSorts(s: set<Path>)
    ensures Enumerates(ByDepth(s), s) && ByLength(ByDepth(s)) && AncestorsFirst(ByDepth(s))
  {
    ByDepthEnumerates(s);
    var r := ByDepth(s);
    forall i, j | 0 <= i < j < |r| ensures !(r[j] <= r[i]) {
      assert |r[i]| <= |r[j]| && r[i] != r[j];
    }
  }

  /** Deepest roots first, every root's children ancestors first, but for those
      of `odd`, which come as `oddKids`. */
  ghost function Schedule(active: set<Path>, bk: string, odd: Path, oddKids: seq<Path>): seq<Step> {
    var up := ByDepth(active);
    seq(|up|, i requires 0 <= i < |up| =>
      var r := up[|up| - 1 - i];
      Step(r, if r == odd then oddKids else ByDepth(KidsBelow(active, r)), bk))
  }

  lemma ScheduleIsDeepestFirst(active: set<Path>, bk: string, odd: Path, oddKids: seq<Path>)
    ensures DeepestFirst(active, Schedule(active, bk, odd, oddKids))
  {
    hide ByDepth, KidsBelow, AncestorsFirst;
    var up := ByDepth(active);
    var roots := Roots(Schedule(active, bk, odd, oddKids));
    ByDepthSorts(active);
    forall i | 0 <= i < |roots| ensures roots[i] == up[|up| - 1 - i] {}
    forall p ensures p in roots <==> p in active {
      if p in up {
        var i :| 0 <= i < |up| && up[i] == p;
        assert roots[|up| - 1 - i] == p;
      }
    }
  }

  // ---------------------------------------------------------------------------
  // The unlucky run
  // ---------------------------------------------------------------------------

  /** A step leaves alone what is neither under its root nor above it. */
  lemma StepFrame(t0: Tree, stg: string, d: set<Path>, holes: set<Path>, t: Tree, step: Step, p: Path)
    requires Fits(t0, stg, d, holes, t, step) && PromoteOne(t, stg, step).Done?
    requires !(step.root <= p) && !(p <= step.root) && !([stg] <= p) && !([step.bk] <= p)
    ensures At(PromoteOne(t, stg, step).tree, p) == At(t, p)
  {
    var Step(root, kids, bk) := step;
    PutInPlace(t, stg, root, bk);
    PreparedAt(t, stg, root, bk, root);
    var u := Moved(SetAside(WithDirs(t, Parent(root)), root, bk), Staged(stg, root), root);
    if Staged(stg, root) <= p { PrefixTransitive([stg], Staged(stg, root), p); }
    if DirExists(t, root) {
      StepUnobstructed(t0, stg, d, holes, t, step, u);
      RestoresInAnyOrder(u, bk, root, Elements(kids), kids);
      if BackupDir(bk) <= p { PrefixTransitive([bk], BackupDir(bk), p); }
      RemovedAt(Restore(u, bk, root, kids).tree, [bk], p);
    } else {
      NoKidsWithoutRoot(t0, stg, d, holes, t, step);
    }
  }

  /** The step of a root with `b` and `c` nested below it, `c` restored first. */
  lemma OddStepLoses(t0: Tree, stg: string, d: set<Path>, t: Tree, step: Step, b: Path, c: Path, rest: seq<Path>)
    requires Fits(t0, stg, d, {}, t, step) && DirExists(t, step.root)
    requires step.kids == [c, b] + rest && b <= c && b != c
    requires PromoteOne(t, stg, step).Done?
    ensures At(PromoteOne(t, stg, step).tree, c) == None
  {
    var Step(root, kids, bk) := step;
    PutInPlace(t, stg, root, bk);
    PreparedAt(t, stg, root, bk, root);
    var u := Moved(SetAside(WithDirs(t, Parent(root)), root, bk), Staged(stg, root), root);
    assert kids[0] == c && kids[1] == b;
    StepUnobstructed(t0, stg, d, {}, t, step, u);
    KidSetAside(t0, stg, d, {}, t, step, u, b);
    KidSetAside(t0, stg, d, {}, t, step, u, c);
    assert Elements(rest) <= Elements(kids) by {
      forall p | p in rest ensures p in kids {}
    }
    DescendantFirstLoses(u, bk, root, Elements(kids), rest, b, c);
    RemovedAt(Restore(u, bk, root, kids).tree, [bk], c);
  }

  /** The facts about the unlucky schedule used at every step. */
  ghost predicate OddSchedule(t0: Tree, stg: string, active: set<Path>, steps: seq<Step>, a: Path, b: Path, c: Path, rest: seq<Path>) {
    && StagedPages(t0, stg, active) && ClearWay(t0, active) && DeepestFirst(active, steps)
    && a in active && b in active && c in active && a <= b && a != b && b <= c && b != c
    && (forall r :: r in active && r <= a ==> r == a)
    && (forall s :: s in steps ==> FreshName(t0, stg, s.bk) && Enumerates(s.kids, KidsBelow(active, s.root)))
    && (forall s :: s in steps && s.root != a ==> AncestorsFirst(s.kids))
    && (forall s :: s in steps && s.root == a ==> s.kids == [c, b] + rest)
  }

  lemma OddScheduleFacts(t0: Tree, stg: string, active: set<Path>, steps: seq<Step>, a: Path, b: Path, c: Path, rest: seq<Path>)
    requires OddSchedule(t0, stg, active, steps, a, b, c, rest)
    ensures DeepestFirst(active, steps) && a in active && b <= c && b != c
  {
  }

  lemma ElementsAreRoots(active: set<Path>, steps: seq<Step>, n: nat)
    requires DeepestFirst(active, steps) && n <= |steps|
    ensures Elements(Roots(steps)[..n]) <= active
  {
    forall r | r in Roots(steps)[..n] ensures r in active { assert r in Roots(steps); }
  }

  /** A step after the loss. */
  lemma LostStep(t0: Tree, stg: string, active: set<Path>, steps: seq<Step>, n: nat, t: Tree,
                 a: Path, b: Path, c: Path, rest: seq<Path>)
    requires OddSchedule(t0, stg, active, steps, a, b, c, rest) && n < |steps|
    requires a in Roots(steps)[..n]
    requires Promoted(t0, stg, Elements(Roots(steps)[..n]), {a}, t)
    ensures LegalStep(t, stg, active, steps[n]) && PromoteOne(t, stg, steps[n]).Done?
    ensures Promoted(t0, stg, Elements(Roots(steps)[..n + 1]), {a}, PromoteOne(t, stg, steps[n]).tree)
    ensures At(PromoteOne(t, stg, steps[n]).tree, c) == At(t, c)
    ensures a in Roots(steps)[..n + 1]
  {
    var step, d := steps[n], Elements(Roots(steps)[..n]);
    assert step in steps;
    KidsAreDone(active, steps, n);
    ElementsAreRoots(active, steps, n);
    assert Apart({a}, step.root) by {
      assert !(a <= step.root);
      assert step.root <= a ==> step.root == a;
    }
    FreshAfter(t0, stg, d, {a}, t, step.bk);
    KidsOnDisk(t0, stg, active, {a}, steps, n, t);
    NextStep(t0, stg, active, {a}, steps, n, t);
    NextFits(t0, stg, active, {a}, steps, n, t);
    LostPlaceApart(stg, step, a, c);
    StepFrame(t0, stg, d, {a}, t, step, c);
  }

  /** After the loss the run goes on, successfully, and the page stays lost. */
  lemma {:induction false} LossStays(t0: Tree, stg: string, active: set<Path>, steps: seq<Step>, n: nat, t: Tree,
                                     a: Path, b: Path, c: Path, rest: seq<Path>)
    requires OddSchedule(t0, stg, active, steps, a, b, c, rest) && n <= |steps|
    requires a in Roots(steps)[..n]
    requires Promoted(t0, stg, Elements(Roots(steps)[..n]), {a}, t) && At(t, c) == None
    ensures LegalRun(t, stg, active, steps, n)
    ensures Promote(t, stg, steps, n).Done? && At(Promote(t, stg, steps, n).tree, c) == None
    decreases |steps| - n
  {
    hide OddSchedule, Promoted, LegalStep, PromoteOne, DeepestFirst, Enumerates, StagedPages;
    if n < |steps| {
      var step := steps[n];
      LostStep(t0, stg, active, steps, n, t, a, b, c, rest);
      LossStays(t0, stg, active, steps, n + 1, PromoteOne(t, stg, step).tree, a, b, c, rest);
    }
  }

  lemma LostPlaceApart(stg: string, step: Step, a: Path, c: Path)
    requires RootPath(a) && a <= c && Apart({a}, step.root) && Hidden(stg) && Hidden(step.bk)
    ensures !(step.root <= c) && !(c <= step.root) && !([stg] <= c) && !([step.bk] <= c)
  {
    assert a in {a};
    HeadOf(a, c);
    if step.root <= c { PrefixComparable(a, step.root, c); }
    if c <= step.root { PrefixTransitive(a, c, step.root); }
  }

  lemma StillToCome(active: set<Path>, steps: seq<Step>, n: nat, a: Path)
    requires DeepestFirst(active, steps) && n <= |steps| && a in active && a !in Roots(steps)[..n]
    ensures n < |steps|
  {
    assert a in Roots(steps);
    assert Roots(steps)[..|steps|] == Roots(steps);
  }

  lemma OddStep(t0: Tree, stg: string, active: set<Path>, d: set<Path>, t: Tree, step: Step, b: Path, c: Path, rest: seq<Path>)
    requires Fits(t0, stg, d, {}, t, step) && PromoteOne(t, stg, step).Done?
    requires step.kids == [c, b] + rest && b <= c && b != c
    ensures At(PromoteOne(t, stg, step).tree, c) == None
    ensures Promoted(t0, stg, d + {step.root}, {step.root}, PromoteOne(t, stg, step).tree)
  {
    var a := step.root;
    assert step.kids[1] == b && b in d && a <= b && !(b <= a);
    assert Above(d, a) && !Covered(d, a) && !Covered({}, a);
    HeadOf(a, a);
    OddStepLoses(t0, stg, d, t, step, b, c, rest);
    StepElsewhere(t0, stg, d, {}, t, step);
    assert {} + {a} == {a};
  }

  lemma OddNext(t0: Tree, stg: string, active: set<Path>, steps: seq<Step>, n: nat, t: Tree,
                a: Path, b: Path, c: Path, rest: seq<Path>)
    requires OddSchedule(t0, stg, active, steps, a, b, c, rest) && n < |steps|
    requires Promoted(t0, stg, Elements(Roots(steps)[..n]), {}, t)
    ensures var step, d := steps[n], Elements(Roots(steps)[..n]);
      && LegalStep(t, stg, active, step) && PromoteOne(t, stg, step).Done?
      && Fits(t0, stg, d, {}, t, step) && Elements(Roots(steps)[..n + 1]) == d + {step.root}
      && Roots(steps)[..n + 1] == Roots(steps)[..n] + [step.root]
      && (step.root != a ==> Promoted(t0, stg, Elements(Roots(steps)[..n + 1]), {}, PromoteOne(t, stg, step).tree))
      && (step.root == a ==> step.kids == [c, b] + rest)
  {
    var step, d := steps[n], Elements(Roots(steps)[..n]);
    assert step in steps;
    KidsAreDone(active, steps, n);
    ElementsAreRoots(active, steps, n);
    FreshAfter(t0, stg, d, {}, t, step.bk);
    KidsOnDisk(t0, stg, active, {}, steps, n, t);
    NextStep(t0, stg, active, {}, steps, n, t);
    NextFits(t0, stg, active, {}, steps, n, t);
  }

  lemma {:induction false} OddRunLoses(t0: Tree, stg: string, active: set<Path>, steps: seq<Step>, n: nat, t: Tree,
                                       a: Path, b: Path, c: Path, rest: seq<Path>)
    requires OddSchedule(t0, stg, active, steps, a, b, c, rest) && n < |steps|
    requires a !in Roots(steps)[..n]
    requires Promoted(t0, stg, Elements(Roots(steps)[..n]), {}, t)
    ensures LegalRun(t, stg, active, steps, n)
    ensures Promote(t, stg, steps, n).Done? && At(Promote(t, stg, steps, n).tree, c) == None
    decreases |steps| - n
  {
    hide OddSchedule, Promoted, LegalStep, Fits, DeepestFirst, Enumerates, PromoteOne;
    var step := steps[n];
    OddScheduleFacts(t0, stg, active, steps, a, b, c, rest);
    OddNext(t0, stg, active, steps, n, t, a, b, c, rest);
    if step.root == a {
      OddStep(t0, stg, active, Elements(Roots(steps)[..n]), t, step, b, c, rest);
      LossStays(t0, stg, active, steps, n + 1, PromoteOne(t, stg, step).tree, a, b, c, rest);
    } else {
      StillToCome(active, steps, n + 1, a);
      OddRunLoses(t0, stg, active, steps, n + 1, PromoteOne(t, stg, step).tree, a, b, c, rest);
    }
  }

  lemma TopOfChain(active: set<Path>, a: Path) returns (top: Path)
    requires a in active
    ensures top in active && top <= a && forall r :: r in active && r <= top ==> r == top
  {
    var above := set r | r in active && r <= a;
    assert a in above;
    top := Shallowest(above);
    forall r | r in active && r <= top ensures r == top {
      PrefixTransitive(r, top, a);
      assert r in above;
    }
  }

  /** A chain of three that starts at a root with none above it. */
  lemma FindChain(active: set<Path>) returns (a: Path, b: Path, c: Path)
    requires !NoThreeDeep(active)
    ensures a in active && b in active && c in active && a <= b && a != b && b <= c && b != c
    ensures forall r :: r in active && r <= a ==> r == a
  {
    var a0;
    a0, b, c :| a0 in active && b in active && c in active && a0 <= b && b <= c && a0 != b && b != c;
    a := TopOfChain(active, a0);
    PrefixTransitive(a, a0, b);
    if a == b { PrefixAntisymmetric(a0, b); }
  }

  lemma OddKids(below: set<Path>, b: Path, c: Path)
    requires b in below && c in below && b != c
    ensures Enumerates([c, b] + ByDepth(below - {b, c}), below)
  {
    var rest := ByDepth(below - {b, c});
    ByDepthSorts(below - {b, c});
    forall p ensures p in [c, b] + rest <==> p in below {}
  }

  lemma ScheduleIsOdd(t0: Tree, stg: string, active: set<Path>, bk: string, a: Path, b: Path, c: Path)
    requires StagedPages(t0, stg, active) && ClearWay(t0, active) && FreshName(t0, stg, bk)
    requires a in active && b in active && c in active && a <= b && a != b && b <= c && b != c
    requires forall r :: r in active && r <= a ==> r == a
    ensures var rest := ByDepth(KidsBelow(active, a) - {b, c});
      OddSchedule(t0, stg, active, Schedule(active, bk, a, [c, b] + rest), a, b, c, rest)
  {
    var below := KidsBelow(active, a);
    var rest := ByDepth(below - {b, c});
    var steps := Schedule(active, bk, a, [c, b] + rest);
    PrefixTransitive(a, b, c);
    assert a != c by { if a == c { PrefixAntisymmetric(b, c); } }
    ScheduleIsDeepestFirst(active, bk, a, [c, b] + rest);
    OddKids(below, b, c);
    forall s | s in steps
      ensures FreshName(t0, stg, s.bk) && Enumerates(s.kids, KidsBelow(active, s.root))
      ensures s.root == a ==> s.kids == [c, b] + rest
      ensures s.root != a ==> AncestorsFirst(s.kids)
    {
      ByDepthSorts(KidsBelow(active, s.root));
    }
  }

  /** Three roots nested in each other: some order the map iteration may take
      runs to a successful end with the deepest page gone. */
  lemma ThreeDeepMayLose(t0: Tree, stg: string, active: set<Path>, bk: string) returns (steps: seq<Step>, lost: Path)
    requires StagedPages(t0, stg, active) && ClearWay(t0, active) && FreshName(t0, stg, bk)
    requires !NoThreeDeep(active)
    ensures DeepestFirst(active, steps) && LegalRun(t0, stg, active, steps, 0)
    ensures Promote(t0, stg, steps, 0).Done?
    ensures lost in active && At(Promote(t0, stg, steps, 0).tree, lost) == None
  {
    var a, b, c := FindChain(active);
    var rest := ByDepth(KidsBelow(active, a) - {b, c});
    steps, lost := Schedule(active, bk, a, [c, b] + rest), c;
    ScheduleIsOdd(t0, stg, active, bk, a, b, c);
    NothingPromotedYet(t0, stg);
    assert Roots(steps)[..0] == [] && Elements(Roots(steps)[..0]) == {};
    StillToCome(active, steps, 0, a);
    OddRunLoses(t0, stg, active, steps, 0, t0, a, b, c, rest);
  }

  /** Whether the result depends on luck: the staged pages come through in every
      order the map iterations may take if and only if no three active roots are
      nested in each other. */
  lemma EveryOrderPromotesIff(t0: Tree, stg: string, active: set<Path>, bk: string)
    requires StagedPages(t0, stg, active) && ClearWay(t0, active) && FreshName(t0, stg, bk)
    ensures (forall steps :: DeepestFirst(active, steps) && LegalRun(t0, stg, active, steps, 0)
                ==> Promote(t0, stg, steps, 0).Done? && Promoted(t0, stg, active, {}, Promote(t0, stg, steps, 0).tree))
       <==> NoThreeDeep(active)
  {
    if NoThreeDeep(active) {
      forall steps | DeepestFirst(active, steps) && LegalRun(t0, stg, active, steps, 0)
        ensures Promote(t0, stg, steps, 0).Done? && Promoted(t0, stg, active, {}, Promote(t0, stg, steps, 0).tree)
      {
        AncestorsFirstPromotes(t0, stg, active, steps);
      }
    } else {
      var steps, lost := ThreeDeepMayLose(t0, stg, active, bk);
      var t := Promote(t0, stg, steps, 0).tree;
      assert Covered(active, lost) && !Covered({}, lost);
      assert RootPath(lost) && DirExists(t0, Staged(stg, lost));
      assert !Promoted(t0, stg, active, {}, t) by {
        assert At(t, lost) == None;
      }
    }
  }

  // ---------------------------------------------------------------------------
  // A lucky run
  // ---------------------------------------------------------------------------

  ghost predicate EvenSchedule(t0: Tree, stg: string, active: set<Path>, steps: seq<Step>) {
    && StagedPages(t0, stg, active) && ClearWay(t0, active) && DeepestFirst(active, steps)
    && (forall s :: s in steps ==> FreshName(t0, stg, s.bk) && Enumerates(s.kids, KidsBelow(active, s.root)))
    && KidsAncestorsFirst(steps)
  }

  lemma EvenStep(t0: Tree, stg: string, active: set<Path>, steps: seq<Step>, n: nat, t: Tree)
    requires EvenSchedule(t0, stg, active, steps) && n < |steps|
    requires Promoted(t0, stg, Elements(Roots(steps)[..n]), {}, t)
    ensures LegalStep(t, stg, active, steps[n])
    ensures PromoteOne(t, stg, steps[n]).Done?
    ensures Promoted(t0, stg, Elements(Roots(steps)[..n + 1]), {}, PromoteOne(t, stg, steps[n]).tree)
  {
    var step, d := steps[n], Elements(Roots(steps)[..n]);
    assert step in steps;
    KidsAreDone(active, steps, n);
    ElementsAreRoots(active, steps, n);
    FreshAfter(t0, stg, d, {}, t, step.bk);
    KidsOnDisk(t0, stg, active, {}, steps, n, t);
    NextStep(t0, stg, active, {}, steps, n, t);
  }

  lemma {:induction false} EvenRun(t0: Tree, stg: string, active: set<Path>, steps: seq<Step>, n: nat, t: Tree)
    requires EvenSchedule(t0, stg, active, steps) && n <= |steps|
    requires Promoted(t0, stg, Elements(Roots(steps)[..n]), {}, t)
    ensures LegalRun(t, stg, active, steps, n)
    decreases |steps| - n
  {
    hide EvenSchedule, Promoted, LegalStep, PromoteOne;
    if n < |steps| {
      EvenStep(t0, stg, active, steps, n, t);
      EvenRun(t0, stg, active, steps, n + 1, PromoteOne(t, stg, steps[n]).tree);
    }
  }

  /** However deep the nesting, some order the map iterations may take promotes every
      page: restoring ancestors first is always possible. */
  lemma SomeOrderPromotes(t0: Tree, stg: string, active: set<Path>, bk: string) returns (steps: seq<Step>)
    requires StagedPages(t0, stg, active) && ClearWay(t0, active) && FreshName(t0, stg, bk)
    ensures DeepestFirst(active, steps) && LegalRun(t0, stg, active, steps, 0) && KidsAncestorsFirst(steps)
    ensures Promote(t0, stg, steps, 0).Done? && Promoted(t0, stg, active, {}, Promote(t0, stg, steps, 0).tree)
  {
    steps := Schedule(active, bk, [], []);
    ScheduleIsDeepestFirst(active, bk, [], []);
    forall s | s in steps
      ensures FreshName(t0, stg, s.bk) && Enumerates(s.kids, KidsBelow(active, s.root)) && AncestorsFirst(s.kids)
    {
      assert s.root in Roots(steps) by { var i :| 0 <= i < |steps| && steps[i] == s; assert Roots(steps)[i] == s.root; }
      assert RootPath(s.root);
      ByDepthSorts(KidsBelow(active, s.root));
    }
    NothingPromotedYet(t0, stg);
    assert Roots(steps)[..0] == [] && Elements(Roots(steps)[..0]) == {};
    EvenRun(t0, stg, active, steps, 0, t0);
    AncestorsFirstPromotes(t0, stg, active, steps);
  }
}
