/**
 Promotion of flat-page roots: what `promoteExtraDirs` and its helpers do to the
 output directory when no file-system call is refused by the environment.  A
 call can still be refused by what is already in the tree, and then the run
 ends as it does in the program.

 The staging directory and the backup directories are hidden directories of the
 output directory itself, so a rename never leaves the tree modelled here.
 */
module Promotion {
  import opened Options
  import opened FileTree

  datatype Outcome = Done(tree: Tree) | Failed(tree: Tree)

  /** One iteration of `promoteExtraDirs`: the root, the order in which the map
      iteration yields its active children, and the temporary name chosen. */
  datatype Step = Step(root: Path, kids: seq<Path>, bk: string)

  predicate Hidden(name: string) {
    name != "" && name[0] == '.'
  }

  predicate RootPath(p: Path) {
    p != [] && !Hidden(p[0])
  }

  function Staged(stg: string, p: Path): Path {
    [stg] + p
  }

  function BackupDir(bk: string): Path {
    [bk, "dir"]
  }

  /** Where the live path `q` of `root` sits while `root` is set aside. */
  function Backup(bk: string, root: Path, q: Path): Path {
    BackupDir(bk) + if |root| <= |q| then q[|root|..] else []
  }

  function RestoreOne(t: Tree, bk: string, root: Path, kid: Path): Outcome {
    var b := Backup(bk, root, kid);
    if !DirExists(t, b) then Done(t)
    else if !CanMkdirAll(t, Parent(kid)) then Failed(t)
    else
      var u := Removed(WithDirs(t, Parent(kid)), kid);
      if CanRename(u, b, kid) then Done(Moved(u, b, kid)) else Failed(u)
  }

  function Restore(t: Tree, bk: string, root: Path, kids: seq<Path>): Outcome
    decreases |kids|
  {
    if kids == [] then Done(t)
    else
      match RestoreOne(t, bk, root, kids[0])
      case Failed(u) => Failed(u)
      case Done(u) => Restore(u, bk, root, kids[1..])
  }

  function SetAside(t: Tree, root: Path, bk: string): Tree {
    if DirExists(t, root) then Moved(t[[bk] := Dir], root, BackupDir(bk)) else t
  }

  function PromoteOne(t: Tree, stg: string, step: Step): Outcome {
    var Step(root, kids, bk) := step;
    if !CanMkdirAll(t, Parent(root)) then Failed(t)
    else
      var t1 := WithDirs(t, Parent(root));
      var had := DirExists(t1, root);
      var t2 := SetAside(t1, root, bk);
      if !CanRename(t2, Staged(stg, root), root) then
        Failed(if had then Moved(t2, BackupDir(bk), root) else t2)
      else
        match Restore(Moved(t2, Staged(stg, root), root), bk, root, kids)
        case Failed(u) => Failed(u)
        case Done(u) => Done(if had then Removed(u, [bk]) else u)
  }

  /** The steps from the `n`-th on. */
  function Promote(t: Tree, stg: string, steps: seq<Step>, n: nat): Outcome
    requires n <= |steps|
    decreases |steps| - n
  {
    if n == |steps| then Done(t)
    else
      match PromoteOne(t, stg, steps[n])
      case Failed(u) => Failed(u)
      case Done(u) => Promote(u, stg, steps, n + 1)
  }

  ghost predicate Distinct(s: seq<Path>) {
    forall i, j | 0 <= i < j < |s| :: s[i] != s[j]
  }

  /** No path comes after a path below it. */
  ghost predicate AncestorsFirst(s: seq<Path>) {
    forall i, j | 0 <= i < j < |s| :: !(s[j] <= s[i])
  }

  ghost predicate Enumerates(s: seq<Path>, q: set<Path>) {
    Distinct(s) && forall p :: p in s <==> p in q
  }

  /** The active children `activeChildrenOf` finds on disk. */
  function ActiveKids(t: Tree, root: Path, active: set<Path>): set<Path> {
    set c | c in active && c != root && root <= c && DirExists(t, c)
  }

  /** `step` is one the program may take from `t`. */
  ghost predicate LegalStep(t: Tree, stg: string, active: set<Path>, step: Step) {
    && step.root in active
    && Enumerates(step.kids, ActiveKids(WithDirs(t, Parent(step.root)), step.root, active))
    && FreshName(t, stg, step.bk)
  }

  ghost predicate Covered(d: set<Path>, p: Path) {
    exists r :: r in d && r <= p
  }

  ghost predicate Above(d: set<Path>, p: Path) {
    exists r :: r in d && p <= r && p != r
  }

  /** `t` is `t0` with every subtree at a root of `d` replaced by its staged copy,
      and nothing else changed but directories made above those roots; nothing
      is said of the live subtrees at `holes`. */
  ghost predicate Promoted(t0: Tree, stg: string, d: set<Path>, holes: set<Path>, t: Tree) {
    && (forall p: Path {:trigger At(t, p)} :: !([stg] <= p) && !Covered(holes, p) ==>
          At(t, p) == if Covered(d, p) then At(t0, Staged(stg, p))
                      else if Above(d, p) then Some(Dir) else At(t0, p))
    && (forall p: Path {:trigger At(t, Staged(stg, p))} :: At(t, Staged(stg, p)) == if Covered(d, p) then None else At(t0, Staged(stg, p)))
  }

  // ---------------------------------------------------------------------------
  // Restoring the children
  // ---------------------------------------------------------------------------

  ghost function Elements(s: seq<Path>): set<Path> {
    set p | p in s
  }

  /** `t` is `u` with the subtrees at `r` moved back from the backup. */
  ghost predicate Restored(u: Tree, bk: string, root: Path, r: set<Path>, t: Tree) {
    && (forall q: Path {:trigger At(t, q)} :: root <= q ==> At(t, q) == if Covered(r, q) then At(u, Backup(bk, root, q)) else At(u, q))
    && (forall q: Path {:trigger At(t, Backup(bk, root, q))} :: root <= q ==>
          At(t, Backup(bk, root, q)) == if Covered(r, q) then None else At(u, Backup(bk, root, q)))
    && (forall p: Path {:trigger At(t, p)} :: !(root <= p) && !(BackupDir(bk) <= p) ==> At(t, p) == At(u, p))
  }

  /** The state right after `root` has been renamed into place. */
  ghost predicate ReadyToRestore(u: Tree, bk: string, root: Path, all: set<Path>) {
    && RootPath(root) && Hidden(bk)
    && (forall q: Path :: q <= root ==> DirExists(u, q))
    && (forall c :: c in all ==> root <= c && root != c && DirExists(u, Backup(bk, root, c)))
    && (forall c, q: Path :: c in all && c <= q ==> At(u, q) == None)
    && (forall c, q: Path :: c in all && root <= q && q <= c && !Covered(all, q) ==> DirExists(u, q))
  }

  lemma BackupPrefix(bk: string, root: Path, c: Path, q: Path)
    requires root <= c && root <= q
    ensures Backup(bk, root, c) <= Backup(bk, root, q) <==> c <= q
    ensures c <= q ==> Backup(bk, root, c) + q[|c|..] == Backup(bk, root, q)
  {
    var b, b' := Backup(bk, root, c), Backup(bk, root, q);
    if c <= q {
      assert c == q[..|c|];
      assert b == b'[..|b|];
    }
    if b <= b' {
      assert b == b'[..|b|];
      assert c[|root|..] == b[2..] == b'[2..][..|c| - |root|] == q[|root|..][..|c| - |root|];
      assert c == root + c[|root|..];
      assert q == root + q[|root|..];
      assert c == q[..|c|];
    }
  }

  lemma CoveredMore(d: set<Path>, c: Path, p: Path)
    ensures Covered(d + {c}, p) <==> Covered(d, p) || c <= p
  {
    if Covered(d + {c}, p) && !(c <= p) {
      var r :| r in d + {c} && r <= p;
      assert r in d;
    }
    if c <= p {
      assert c in d + {c};
    }
    if Covered(d, p) {
      var r :| r in d && r <= p;
      assert r in d + {c};
    }
  }

  lemma AboveKidIsDir(u: Tree, t: Tree, bk: string, root: Path, all: set<Path>, r: set<Path>, c: Path, q: Path)
    requires ReadyToRestore(u, bk, root, all) && r <= all && c in all
    requires Restored(u, bk, root, r, t)
    requires forall d :: d in all && d <= c && d != c ==> d in r
    requires !Covered(r, c)
    requires q <= c && q != c
    ensures DirExists(t, q)
  {
    if root <= q {
      forall d | d in all && d <= q ensures false {
        PrefixTransitive(d, q, c);
      }
      assert !Covered(all, q) && !Covered(r, q);
      assert DirExists(u, q);
    } else {
      PrefixComparable(q, root, c);
      assert DirExists(u, q);
      assert q != [] ==> q[0] == root[0] by { assert q == root[..|q|]; }
    }
  }

  lemma RestoreOneKid(u: Tree, t: Tree, bk: string, root: Path, all: set<Path>, r: set<Path>, c: Path)
    requires ReadyToRestore(u, bk, root, all) && r <= all && c in all
    requires Restored(u, bk, root, r, t)
    requires forall d :: d in r ==> !(c <= d)
    requires forall d :: d in all && d <= c && d != c ==> d in r
    ensures RestoreOne(t, bk, root, c).Done? && Restored(u, bk, root, r + {c}, RestoreOne(t, bk, root, c).tree)
  {
    var b := Backup(bk, root, c);
    if Covered(r, c) {
      assert At(t, b) == None;
      forall q: Path ensures Covered(r + {c}, q) <==> Covered(r, q) {
        CoveredMore(r, c, q);
        if c <= q {
          var d :| d in r && d <= c;
          PrefixTransitive(d, c, q);
        }
      }
    } else {
      assert DirExists(t, b);
      forall q: Path | q <= c && q != c ensures DirExists(t, q) {
        AboveKidIsDir(u, t, bk, root, all, r, c, q);
      }
      var w := WithDirs(t, Parent(c));
      forall q: Path ensures At(w, q) == At(t, q) {
        WithDirsAt(t, Parent(c), q);
        if q <= Parent(c) {
          assert Parent(c) == c[..|c| - 1];
          PrefixTransitive(q, Parent(c), c);
          assert DirExists(t, q);
        }
      }
      SameTree(w, t);
      forall q: Path | c <= q ensures At(t, q) == None {
        PrefixTransitive(root, c, q);
        if Covered(r, q) {
          var d :| d in r && d <= q;
          PrefixComparable(c, d, q);
        }
      }
      var v := Removed(w, c);
      forall q: Path ensures At(v, q) == At(t, q) {
        RemovedAt(w, c, q);
      }
      SameTree(v, t);
      assert c !in t by { assert At(t, c) == None; }
      assert CanMkdirAll(t, Parent(c)) by {
        forall i | 0 <= i <= |Parent(c)| ensures Parent(c)[..i] !in t || t[Parent(c)[..i]].Dir? {
          assert Parent(c)[..i] == c[..i];
          assert DirExists(t, c[..i]);
        }
      }
      assert DirExists(t, Parent(c)) by { assert Parent(c) == c[..|c| - 1]; }
      assert c[0] == root[0];
      assert CanRename(t, b, c);
      RestoredAfterMove(u, t, bk, root, all, r, c);
    }
  }

  lemma RestoredAfterMove(u: Tree, t: Tree, bk: string, root: Path, all: set<Path>, r: set<Path>, c: Path)
    requires ReadyToRestore(u, bk, root, all) && c in all
    requires Restored(u, bk, root, r, t)
    requires forall d :: d in r ==> !(c <= d)
    requires !Covered(r, c)
    ensures Restored(u, bk, root, r + {c}, Moved(t, Backup(bk, root, c), c))
  {
    var b := Backup(bk, root, c);
    var t' := Moved(t, b, c);
    forall q: Path | root <= q
      ensures At(t', q) == if Covered(r + {c}, q) then At(u, Backup(bk, root, q)) else At(u, q)
    {
      MovedAt(t, b, c, q);
      CoveredMore(r, c, q);
      assert q[0] == root[0];
      if c <= q {
        BackupPrefix(bk, root, c, q);
        if Covered(r, q) {
          var d :| d in r && d <= q;
          PrefixComparable(c, d, q);
          assert false;
        }
      }
    }
    forall q: Path | root <= q
      ensures At(t', Backup(bk, root, q)) == if Covered(r + {c}, q) then None else At(u, Backup(bk, root, q))
    {
      MovedAt(t, b, c, Backup(bk, root, q));
      CoveredMore(r, c, q);
      BackupPrefix(bk, root, c, q);
      assert Backup(bk, root, q)[0] == bk && c[0] == root[0];
    }
    forall p: Path | !(root <= p) && !(BackupDir(bk) <= p) ensures At(t', p) == At(u, p) {
      MovedAt(t, b, c, p);
      if c <= p { PrefixTransitive(root, c, p); }
      if b <= p { PrefixTransitive(BackupDir(bk), b, p); }
    }
  }

  lemma KidsSoFar(kids: seq<Path>, n: nat)
    requires n < |kids| && Distinct(kids) && AncestorsFirst(kids)
    ensures var r, all := Elements(kids[..n]), Elements(kids);
      && r <= all && kids[n] in all
      && Elements(kids[..n + 1]) == r + {kids[n]}
      && (forall d :: d in r ==> !(kids[n] <= d))
      && (forall d :: d in all && d <= kids[n] && d != kids[n] ==> d in r)
  {
    var c := kids[n];
    var r := Elements(kids[..n]);
    forall d | d in r ensures !(c <= d) && d in Elements(kids) {
      var i :| 0 <= i < n && kids[i] == d;
    }
    forall d | d in Elements(kids) && d <= c && d != c ensures d in r {
      var i :| 0 <= i < |kids| && kids[i] == d;
      assert i <= n;
      assert kids[..n][i] == d;
    }
    assert kids[..n + 1] == kids[..n] + [c];
  }

  lemma RestoreUnfold(t: Tree, bk: string, root: Path, kids: seq<Path>, n: nat)
    requires n < |kids| && RestoreOne(t, bk, root, kids[n]).Done?
    ensures Restore(t, bk, root, kids[n..]) == Restore(RestoreOne(t, bk, root, kids[n]).tree, bk, root, kids[n + 1..])
  {
    assert kids[n..][1..] == kids[n + 1..];
  }

  lemma {:induction false} RestoreAll(u: Tree, t: Tree, bk: string, root: Path, kids: seq<Path>, n: nat)
    requires n <= |kids| && Distinct(kids) && AncestorsFirst(kids)
    requires ReadyToRestore(u, bk, root, Elements(kids))
    requires Restored(u, bk, root, Elements(kids[..n]), t)
    ensures Restore(t, bk, root, kids[n..]).Done?
    ensures Restored(u, bk, root, Elements(kids), Restore(t, bk, root, kids[n..]).tree)
    decreases |kids| - n
  {
    if n == |kids| {
      assert kids[..n] == kids && kids[n..] == [];
    } else {
      KidsSoFar(kids, n);
      RestoreOneKid(u, t, bk, root, Elements(kids), Elements(kids[..n]), kids[n]);
      RestoreUnfold(t, bk, root, kids, n);
      RestoreAll(u, RestoreOne(t, bk, root, kids[n]).tree, bk, root, kids, n + 1);
    }
  }

  // ---------------------------------------------------------------------------
  // One root
  // ---------------------------------------------------------------------------

  ghost predicate FreshName(t: Tree, stg: string, bk: string) {
    Hidden(bk) && Hidden(stg) && bk != stg && forall q: Path {:trigger At(t, q)} :: [bk] <= q ==> At(t, q) == None
  }

  /** `u` is `t` after `root` was set aside (when it existed) and its staged copy
      renamed into place. */
  ghost predicate InPlace(t: Tree, stg: string, root: Path, bk: string, had: bool, u: Tree) {
    && (forall q: Path {:trigger At(u, q)} :: root <= q ==> At(u, q) == At(t, Staged(stg, q)))
    && (forall q: Path {:trigger At(u, Staged(stg, q))} :: root <= q ==> At(u, Staged(stg, q)) == None)
    && (forall q: Path {:trigger At(u, q)} :: q <= root && q != root ==> At(u, q) == Some(Dir))
    && (forall q: Path {:trigger At(u, Backup(bk, root, q))} :: root <= q ==> At(u, Backup(bk, root, q)) == if had then At(t, q) else None)
    && (forall q: Path {:trigger At(u, q)} ::
          !(root <= q) && !(q <= root) && !(Staged(stg, root) <= q) && !([bk] <= q) ==> At(u, q) == At(t, q))
    && (!had ==> forall q: Path {:trigger At(u, q)} :: [bk] <= q ==> At(u, q) == None)
  }

  lemma StagedPrefix(stg: string, root: Path, q: Path)
    ensures Staged(stg, root) <= Staged(stg, q) <==> root <= q
    ensures root <= q ==> Staged(stg, root) + q[|root|..] == Staged(stg, q)
  {
    if root <= q {
      assert root == q[..|root|];
      assert Staged(stg, root) == Staged(stg, q)[..|root| + 1];
    }
    if Staged(stg, root) <= Staged(stg, q) {
      assert Staged(stg, root) == Staged(stg, q)[..|root| + 1];
      assert root == Staged(stg, root)[1..] == Staged(stg, q)[1..][..|root|];
      assert Staged(stg, q)[1..] == q;
    }
  }

  lemma HeadOf(root: Path, q: Path)
    requires root != [] && (root <= q || (q <= root && q != []))
    ensures q[0] == root[0]
  {
    if q <= root { assert q == root[..|q|]; }
  }

  lemma SetAsideAt(t: Tree, stg: string, root: Path, bk: string, q: Path)
    requires RootPath(root) && FreshName(t, stg, bk) && DirExists(t, root)
    ensures At(SetAside(t, root, bk), q) ==
            if BackupDir(bk) <= q then At(t, root + q[2..]) else if root <= q then None
            else if q == [bk] then Some(Dir) else At(t, q)
  {
    var w := t[[bk] := Dir];
    MovedAt(w, root, BackupDir(bk), q);
    if BackupDir(bk) <= q {
      HeadOf(root, root + q[2..]);
    }
    if root <= q { HeadOf(root, q); }
  }

  lemma PreparedAt(t: Tree, stg: string, root: Path, bk: string, q: Path)
    requires RootPath(root) && FreshName(t, stg, bk)
    ensures var t1 := WithDirs(t, Parent(root)); var had := DirExists(t1, root);
      && had == DirExists(t, root)
      && At(SetAside(t1, root, bk), q) ==
         if q <= root && q != root then (if q in t then At(t, q) else Some(Dir))
         else if had && BackupDir(bk) <= q then At(t, root + q[2..])
         else if had && root <= q then None
         else if had && q == [bk] then Some(Dir) else At(t, q)
  {
    var t1 := WithDirs(t, Parent(root));
    assert Parent(root) == root[..|root| - 1];
    forall q: Path
      ensures At(t1, q) == if q <= root && q != root && q !in t then Some(Dir) else At(t, q)
    {
      WithDirsAt(t, Parent(root), q);
      if q <= Parent(root) {
        PrefixTransitive(q, Parent(root), root);
      }
    }
    assert FreshName(t1, stg, bk) by {
      forall q: Path | [bk] <= q ensures At(t1, q) == None {
        if q <= root { HeadOf(root, q); }
      }
    }
    if DirExists(t1, root) {
      SetAsideAt(t1, stg, root, bk, q);
      if BackupDir(bk) <= q {
        if q <= root { HeadOf(root, q); }
        SuffixOf(root, q[2..]);
      }
      if q == [bk] && q <= root { HeadOf(root, q); }
    }
  }

  lemma InPlaceAt(t: Tree, stg: string, root: Path, bk: string, q: Path)
    requires RootPath(root) && FreshName(t, stg, bk)
    requires CanMkdirAll(t, Parent(root))
    ensures var t1 := WithDirs(t, Parent(root)); var had := DirExists(t, root);
      At(Moved(SetAside(t1, root, bk), Staged(stg, root), root), q) ==
         if root <= q then At(t, Staged(stg, q))
         else if Staged(stg, root) <= q then None
         else if q <= root then Some(Dir)
         else if had && BackupDir(bk) <= q then At(t, root + q[2..])
         else if had && q == [bk] then Some(Dir) else At(t, q)
  {
    var t2 := SetAside(WithDirs(t, Parent(root)), root, bk);
    MovedAt(t2, Staged(stg, root), root, q);
    if root <= q {
      StagedPrefix(stg, root, q);
      PreparedAt(t, stg, root, bk, Staged(stg, q));
      assert Staged(stg, q)[0] == stg;
      if Staged(stg, q) <= root { HeadOf(root, Staged(stg, q)); }
      if root <= Staged(stg, q) { HeadOf(root, Staged(stg, q)); }
    } else {
      PreparedAt(t, stg, root, bk, q);
      if q <= root {
        assert q == root[..|q|];
        assert Parent(root)[..|q|] == q;
        if Staged(stg, root) <= q { HeadOf(root, q); }
      }
    }
  }

  lemma PutInPlace(t: Tree, stg: string, root: Path, bk: string)
    requires RootPath(root) && FreshName(t, stg, bk)
    requires CanMkdirAll(t, Parent(root))
    ensures InPlace(t, stg, root, bk, DirExists(t, root),
                    Moved(SetAside(WithDirs(t, Parent(root)), root, bk), Staged(stg, root), root))
  {
    var u := Moved(SetAside(WithDirs(t, Parent(root)), root, bk), Staged(stg, root), root);
    forall q: Path ensures At(u, q) ==
         if root <= q then At(t, Staged(stg, q))
         else if Staged(stg, root) <= q then None
         else if q <= root then Some(Dir)
         else if DirExists(t, root) && BackupDir(bk) <= q then At(t, root + q[2..])
         else if DirExists(t, root) && q == [bk] then Some(Dir) else At(t, q)
    {
      InPlaceAt(t, stg, root, bk, q);
    }
    forall q: Path | root <= q ensures At(u, Staged(stg, q)) == None {
      StagedPrefix(stg, root, q);
      if root <= Staged(stg, q) { HeadOf(root, Staged(stg, q)); }
    }
    forall q: Path | q <= root && q != root ensures At(u, q) == Some(Dir) {
      if q != [] { HeadOf(root, q); }
    }
    forall q: Path | root <= q ensures At(u, Backup(bk, root, q)) == if DirExists(t, root) then At(t, q) else None {
      var b := Backup(bk, root, q);
      assert b[0] == bk && b[2..] == q[|root|..] && [bk] <= b && BackupDir(bk) <= b;
      Rejoin(root, q);
      if root <= b || b <= root { HeadOf(root, b); }
    }
    forall q: Path | !(root <= q) && !(q <= root) && !(Staged(stg, root) <= q) && !([bk] <= q)
      ensures At(u, q) == At(t, q)
    {
      if BackupDir(bk) <= q { PrefixTransitive([bk], BackupDir(bk), q); }
    }
    forall q: Path | [bk] <= q && !DirExists(t, root) ensures At(u, q) == None {
      if root <= q || q <= root { HeadOf(root, q); }
      assert q[0] == bk;
    }
  }

  /** `step` comes after the roots `d`, deepest first. */
  ghost predicate Fits(t0: Tree, stg: string, d: set<Path>, holes: set<Path>, t: Tree, step: Step) {
    && WellFormed(t0) && Promoted(t0, stg, d, holes, t)
    && RootPath(step.root) && DirExists(t0, Staged(stg, step.root))
    && FreshName(t, stg, step.bk)
    && (forall h :: h in holes ==> RootPath(h) && !(h <= step.root) && !(step.root <= h))
    && (forall c :: c in d ==> RootPath(c) && DirExists(t0, Staged(stg, c)) && !(c <= step.root))
    && (forall c :: c in step.kids <==> c in d && step.root <= c)
  }

  lemma OutsideHoles(t0: Tree, stg: string, d: set<Path>, holes: set<Path>, t: Tree, step: Step, p: Path)
    requires Fits(t0, stg, d, holes, t, step) && (step.root <= p || p <= step.root)
    ensures !Covered(holes, p)
  {
    forall h | h in holes && h <= p ensures false {
      if step.root <= p { PrefixComparable(h, step.root, p); } else { PrefixTransitive(h, p, step.root); }
    }
  }

  lemma KidSetAside(t0: Tree, stg: string, d: set<Path>, holes: set<Path>, t: Tree, step: Step, u: Tree, c: Path)
    requires Fits(t0, stg, d, holes, t, step) && c in step.kids
    requires InPlace(t, stg, step.root, step.bk, true, u)
    ensures DirExists(u, Backup(step.bk, step.root, c))
  {
    assert Covered(d, c);
    OutsideHoles(t0, stg, d, holes, t, step, c);
    HeadOf(step.root, c);
  }

  lemma KidNotYetThere(t0: Tree, stg: string, d: set<Path>, holes: set<Path>, t: Tree, step: Step, u: Tree, c: Path, q: Path)
    requires Fits(t0, stg, d, holes, t, step) && c in step.kids && c <= q
    requires InPlace(t, stg, step.root, step.bk, true, u)
    ensures At(u, q) == None
  {
    PrefixTransitive(step.root, c, q);
    assert Covered(d, q);
  }

  lemma BetweenIsDir(t0: Tree, stg: string, d: set<Path>, holes: set<Path>, t: Tree, step: Step, u: Tree, c: Path, q: Path)
    requires Fits(t0, stg, d, holes, t, step) && (c in step.kids || c == step.root)
    requires InPlace(t, stg, step.root, step.bk, true, u)
    requires step.root <= q && q <= c && !Covered(Elements(step.kids), q)
    ensures DirExists(u, q)
  {
    assert !Covered(d, q) by {
      forall e | e in d && e <= q ensures e in Elements(step.kids) {
        PrefixComparable(e, step.root, q);
      }
    }
    StagedPrefix(stg, q, c);
    assert DirExists(t0, Staged(stg, c));
    assert DirExists(t0, Staged(stg, q));
  }

  /** What the restore needs, read off the promotion so far. */
  lemma StepReady(t0: Tree, stg: string, d: set<Path>, holes: set<Path>, t: Tree, step: Step, u: Tree)
    requires Fits(t0, stg, d, holes, t, step)
    requires InPlace(t, stg, step.root, step.bk, true, u)
    ensures ReadyToRestore(u, step.bk, step.root, Elements(step.kids))
  {
    var root, bk, all := step.root, step.bk, Elements(step.kids);
    forall q: Path | q <= root ensures DirExists(u, q) {
      if q == root {
        forall e | e in all && e <= q ensures false {}
        BetweenIsDir(t0, stg, d, holes, t, step, u, root, q);
      }
    }
    forall c | c in all ensures root <= c && root != c && DirExists(u, Backup(bk, root, c)) {
      KidSetAside(t0, stg, d, holes, t, step, u, c);
    }
    forall c, q: Path | c in all && c <= q ensures At(u, q) == None {
      KidNotYetThere(t0, stg, d, holes, t, step, u, c, q);
    }
    forall c, q: Path | c in all && root <= q && q <= c && !Covered(all, q) ensures DirExists(u, q) {
      BetweenIsDir(t0, stg, d, holes, t, step, u, c, q);
    }
  }

  lemma RestoreFromStart(u: Tree, bk: string, root: Path, kids: seq<Path>)
    requires ReadyToRestore(u, bk, root, Elements(kids)) && Distinct(kids) && AncestorsFirst(kids)
    ensures Restore(u, bk, root, kids).Done?
    ensures Restored(u, bk, root, Elements(kids), Restore(u, bk, root, kids).tree)
  {
    NothingRestoredYet(u, bk, root);
    assert kids[..0] == [] && kids[0..] == kids;
    RestoreAll(u, u, bk, root, kids, 0);
  }

  lemma StepPromotes(t0: Tree, stg: string, d: set<Path>, holes: set<Path>, t: Tree, step: Step)
    requires Fits(t0, stg, d, holes, t, step) && PromoteOne(t, stg, step).Done?
    requires Distinct(step.kids) && AncestorsFirst(step.kids)
    ensures Promoted(t0, stg, d + {step.root}, holes, PromoteOne(t, stg, step).tree)
  {
    var Step(root, kids, bk) := step;
    PutInPlace(t, stg, root, bk);
    PreparedAt(t, stg, root, bk, root);
    var u := Moved(SetAside(WithDirs(t, Parent(root)), root, bk), Staged(stg, root), root);
    if DirExists(t, root) {
      StepReady(t0, stg, d, holes, t, step, u);
      RestoreFromStart(u, bk, root, kids);
      StepDone(t0, stg, d, holes, t, step, u, Restore(u, bk, root, kids).tree);
    } else {
      NoKidsWithoutRoot(t0, stg, d, holes, t, step);
      StepDoneFresh(t0, stg, d, holes, t, step, u);
    }
  }

  lemma NoKidsWithoutRoot(t0: Tree, stg: string, d: set<Path>, holes: set<Path>, t: Tree, step: Step)
    requires Fits(t0, stg, d, holes, t, step) && !DirExists(t, step.root)
    ensures step.kids == [] && forall c :: c in d ==> !(step.root <= c)
  {
    assert step.kids == [] || step.kids[0] in step.kids;
    assert !Covered(d, step.root);
    OutsideHoles(t0, stg, d, holes, t, step, step.root);
    forall c | c in d && step.root <= c ensures false {
      assert Above(d, step.root);
      HeadOf(step.root, step.root);
    }
  }

  lemma NothingRestoredYet(u: Tree, bk: string, root: Path)
    ensures Restored(u, bk, root, Elements([]), u)
  {
    forall q: Path ensures !Covered(Elements([]), q) {}
  }

  lemma AboveMore(d: set<Path>, c: Path, p: Path)
    ensures Above(d + {c}, p) <==> Above(d, p) || (p <= c && p != c)
  {
    if Above(d + {c}, p) && !(p <= c && p != c) {
      var r :| r in d + {c} && p <= r && p != r;
      assert r in d;
    }
    if p <= c && p != c {
      assert c in d + {c};
    }
    if Above(d, p) {
      var r :| r in d && p <= r && p != r;
      assert r in d + {c};
    }
  }

  lemma StepDoneFresh(t0: Tree, stg: string, d: set<Path>, holes: set<Path>, t: Tree, step: Step, u: Tree)
    requires Fits(t0, stg, d, holes, t, step)
    requires forall c :: c in d ==> !(step.root <= c)
    requires InPlace(t, stg, step.root, step.bk, false, u)
    ensures Promoted(t0, stg, d + {step.root}, holes, u)
  {
    var root, bk := step.root, step.bk;
    forall p: Path | !([stg] <= p) && !Covered(holes, p)
      ensures At(u, p) == if Covered(d + {root}, p) then At(t0, Staged(stg, p))
                          else if Above(d + {root}, p) then Some(Dir) else At(t0, p)
    {
      CoveredMore(d, root, p);
      AboveMore(d, root, p);
      if Staged(stg, root) <= p { PrefixTransitive([stg], Staged(stg, root), p); }
      if root <= p || p <= root { OutsideHoles(t0, stg, d, holes, t, step, p); }
      if root <= p {
        forall c | c in d && c <= p ensures false { PrefixComparable(c, root, p); }
        assert !Covered(d, p);
      } else if p <= root {
        forall c | c in d && c <= p ensures false { PrefixTransitive(c, p, root); }
      } else if [bk] <= p {
        assert At(t, p) == None;
      }
    }
    StagedAfterStep(t0, stg, d, holes, t, step, u, u);
  }

  lemma StagedAfterStep(t0: Tree, stg: string, d: set<Path>, holes: set<Path>, t: Tree, step: Step, u: Tree, v: Tree)
    requires Promoted(t0, stg, d, holes, t) && RootPath(step.root) && FreshName(t, stg, step.bk)
    requires exists had :: InPlace(t, stg, step.root, step.bk, had, u)
    requires forall p: Path :: [stg] <= p ==> At(v, p) == At(u, p)
    ensures forall p: Path :: At(v, Staged(stg, p)) == if Covered(d + {step.root}, p) then None else At(t0, Staged(stg, p))
  {
    var root := step.root;
    forall p: Path
      ensures At(v, Staged(stg, p)) == if Covered(d + {root}, p) then None else At(t0, Staged(stg, p))
    {
      CoveredMore(d, root, p);
      StagedPrefix(stg, root, p);
      var q := Staged(stg, p);
      assert [stg] <= q && q[0] == stg;
      if root <= q || q <= root { HeadOf(root, q); }
    }
  }

  lemma StepDone(t0: Tree, stg: string, d: set<Path>, holes: set<Path>, t: Tree, step: Step, u: Tree, v: Tree)
    requires Fits(t0, stg, d, holes, t, step)
    requires InPlace(t, stg, step.root, step.bk, true, u)
    requires Restored(u, step.bk, step.root, Elements(step.kids), v)
    ensures Promoted(t0, stg, d + {step.root}, holes, Removed(v, [step.bk]))
  {
    var root, bk, all := step.root, step.bk, Elements(step.kids);
    var t' := Removed(v, [bk]);
    forall p: Path | !([stg] <= p) && !Covered(holes, p)
      ensures At(t', p) == if Covered(d + {root}, p) then At(t0, Staged(stg, p))
                           else if Above(d + {root}, p) then Some(Dir) else At(t0, p)
    {
      RemovedAt(v, [bk], p);
      CoveredMore(d, root, p);
      AboveMore(d, root, p);
      if [bk] <= p {
        assert p[0] == bk;
        BackupIsUncovered(d + {root}, bk, p);
        BackupIsUncovered(d, bk, p);
        assert At(t, p) == None;
      } else if root <= p {
        LiveAfterRestore(t0, stg, d, holes, t, step, u, v, p);
      } else {
        if BackupDir(bk) <= p { PrefixTransitive([bk], BackupDir(bk), p); }
        if Staged(stg, root) <= p { PrefixTransitive([stg], Staged(stg, root), p); }
        if p <= root {
          forall c | c in d && c <= p ensures false { PrefixTransitive(c, p, root); }
        }
      }
    }
    forall p: Path | [stg] <= p ensures At(t', p) == At(u, p) {
      RemovedAt(v, [bk], p);
      assert p[0] == stg;
      if root <= p { HeadOf(root, p); }
    }
    StagedAfterStep(t0, stg, d, holes, t, step, u, t');
  }

  lemma BackupIsUncovered(d: set<Path>, bk: string, p: Path)
    requires Hidden(bk) && [bk] <= p && forall c :: c in d ==> RootPath(c)
    ensures !Covered(d, p) && !Above(d, p)
  {
    forall c | c in d && (c <= p || p <= c) ensures false {
      HeadOf(c, p);
    }
  }

  lemma LiveAfterRestore(t0: Tree, stg: string, d: set<Path>, holes: set<Path>, t: Tree, step: Step, u: Tree, v: Tree, p: Path)
    requires Fits(t0, stg, d, holes, t, step)
    requires InPlace(t, stg, step.root, step.bk, true, u)
    requires Restored(u, step.bk, step.root, Elements(step.kids), v)
    requires step.root <= p
    ensures At(v, p) == At(t0, Staged(stg, p))
  {
    var root, bk, all := step.root, step.bk, Elements(step.kids);
    HeadOf(root, p);
    OutsideHoles(t0, stg, d, holes, t, step, p);
    assert !([stg] <= p);
    assert Covered(all, p) <==> Covered(d, p) by {
      forall c | c in d && c <= p ensures c in all { PrefixComparable(c, root, p); }
    }
  }
}
