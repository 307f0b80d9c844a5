/**
 `pruneStaleRoots`: removing what the previous build's manifest lists and this
 build no longer has.
 */
module Pruning {
  import opened Options
  import opened FileTree
  import opened Promotion
  import opened FileSystem

  function Index(root: Path): Path {
    root + ["index.html"]
  }

  /** A page's segments: what the slug check lets through. */
  predicate SlugSegment(seg: string) {
    seg != "" && forall i | 0 <= i < |seg| :: 'a' <= seg[i] <= 'z' || '0' <= seg[i] <= '9' || seg[i] == '-'
  }

  const MANAGED: set<string> := {"entry", "category", "tag", "archive"}

  predicate PagePath(p: Path) {
    p != [] && p[0] !in MANAGED && forall i | 0 <= i < |p| :: SlugSegment(p[i])
  }

  predicate HasActiveDescendant(root: Path, active: set<Path>) {
    exists a | a in active :: root <= a && a != root
  }

  function PruneOne(t: Tree, active: set<Path>, root: Path): Outcome {
    if root in active || !DirExists(t, root) then Done(t)
    else if HasActiveDescendant(root, active) then
      if Index(root) !in t then Done(t)
      else if EmptyOrFile(t, Index(root)) then Done(Removed(t, Index(root)))
      else Failed(t)
    else Done(Removed(t, root))
  }

  function Prune(t: Tree, active: set<Path>, stale: seq<Path>, n: nat): Outcome
    requires n <= |stale|
    decreases |stale| - n
  {
    if n == |stale| then Done(t)
    else
      match PruneOne(t, active, stale[n])
      case Failed(u) => Failed(u)
      case Done(u) => Prune(u, active, stale, n + 1)
  }

  /** `p` goes because of the stale root `r`. */
  ghost predicate DoomedBy(t0: Tree, active: set<Path>, r: Path, p: Path) {
    r !in active && DirExists(t0, r) && if HasActiveDescendant(r, active) then p == Index(r) else r <= p
  }

  ghost predicate Doomed(t0: Tree, active: set<Path>, d: set<Path>, p: Path) {
    exists r :: r in d && DoomedBy(t0, active, r, p)
  }

  ghost predicate Pruned(t0: Tree, active: set<Path>, d: set<Path>, t: Tree) {
    forall p: Path {:trigger At(t, p)} :: At(t, p) == if Doomed(t0, active, d, p) then None else At(t0, p)
  }

  /** What makes pruning fail: a directory with something in it where a stale
      root that must survive has its page. */
  ghost predicate BlockedIndex(t0: Tree, active: set<Path>, r: Path) {
    && r !in active && DirExists(t0, r) && HasActiveDescendant(r, active)
    && Index(r) in t0 && !EmptyOrFile(t0, Index(r))
  }

  lemma PageHasNoIndexSegment(p: Path, r: Path)
    requires PagePath(p)
    ensures !(Index(r) <= p)
  {
    assert "index.html"[5] == '.';
    assert !SlugSegment("index.html") && Index(r)[|r|] == "index.html";
  }

  lemma IndexFacts(x: Path, r: Path)
    ensures Index(x) == Index(r) ==> x == r
    ensures x <= Index(r) && x != Index(r) ==> x <= r
    ensures PagePath(x) ==> x != Index(r) && !(Index(r) <= x)
  {
    if Index(x) == Index(r) {
      assert x == Index(x)[..|Index(x)| - 1] == Index(r)[..|Index(r)| - 1] == r;
    }
    if x <= Index(r) && x != Index(r) {
      assert x == Index(r)[..|x|] == r[..|x|];
    }
    if PagePath(x) { PageHasNoIndexSegment(x, r); }
  }

  lemma DoomedMore(t0: Tree, active: set<Path>, d: set<Path>, r: Path, p: Path)
    ensures Doomed(t0, active, d + {r}, p) <==> Doomed(t0, active, d, p) || DoomedBy(t0, active, r, p)
  {
    if Doomed(t0, active, d, p) {
      var x :| x in d && DoomedBy(t0, active, x, p);
      assert x in d + {r};
    }
    if DoomedBy(t0, active, r, p) {
      assert r in d + {r};
    }
  }

  lemma DescendantsAbove(r: Path, r': Path, active: set<Path>)
    requires r' <= r && HasActiveDescendant(r, active) && r' !in active
    ensures HasActiveDescendant(r', active)
  {
    var a :| a in active && r <= a && a != r;
    PrefixTransitive(r', r, a);
  }

  /** A stale root that is gone already took everything below it with it. */
  lemma GoneAlready(t0: Tree, active: set<Path>, d: set<Path>, r: Path, p: Path)
    requires PagePath(r) && r !in active && Doomed(t0, active, d, r) && DirExists(t0, r)
    requires DoomedBy(t0, active, r, p)
    ensures Doomed(t0, active, d, p)
  {
    var x :| x in d && DoomedBy(t0, active, x, r);
    PageHasNoIndexSegment(r, x);
    if HasActiveDescendant(r, active) {
      DescendantsAbove(r, x, active);
    } else {
      PrefixTransitive(x, r, p);
    }
  }

  /** A page a surviving stale root has is untouched by the others. */
  lemma IndexUntouched(t0: Tree, active: set<Path>, d: set<Path>, r: Path, p: Path)
    requires (forall x :: x in d ==> PagePath(x)) && r !in d && r !in active && HasActiveDescendant(r, active)
    requires Index(r) <= p && p in t0
    requires p == Index(r) || WellFormed(t0)
    ensures !Doomed(t0, active, d, p)
  {
    forall x | x in d && DoomedBy(t0, active, x, p) ensures false {
      IndexFacts(x, r);
      if HasActiveDescendant(x, active) {
        PrefixComparable(Index(r), Index(x), p);
      } else {
        PrefixComparable(x, Index(r), p);
        DescendantsAbove(r, x, active);
      }
    }
  }

  lemma PruneOneStep(t0: Tree, active: set<Path>, d: set<Path>, t: Tree, r: Path)
    requires WellFormed(t0) && Pruned(t0, active, d, t)
    requires PagePath(r) && r !in d && forall x :: x in d ==> PagePath(x)
    ensures PruneOne(t, active, r).Done? <==> !BlockedIndex(t0, active, r)
    ensures PruneOne(t, active, r).Done? ==> Pruned(t0, active, d + {r}, PruneOne(t, active, r).tree)
  {
    var o := PruneOne(t, active, r);
    if r in active || !DirExists(t0, r) {
      assert At(t, r) == Some(Dir) ==> At(t0, r) == Some(Dir);
      forall p: Path ensures Doomed(t0, active, d + {r}, p) <==> Doomed(t0, active, d, p) {
        DoomedMore(t0, active, d, r, p);
      }
    } else if Doomed(t0, active, d, r) {
      assert At(t, r) == None;
      assert !HasActiveDescendant(r, active) by {
        var x :| x in d && DoomedBy(t0, active, x, r);
        PageHasNoIndexSegment(r, x);
        if HasActiveDescendant(r, active) { DescendantsAbove(r, x, active); }
      }
      forall p: Path ensures Doomed(t0, active, d + {r}, p) <==> Doomed(t0, active, d, p) {
        DoomedMore(t0, active, d, r, p);
        if DoomedBy(t0, active, r, p) { GoneAlready(t0, active, d, r, p); }
      }
    } else {
      assert DirExists(t, r);
      if HasActiveDescendant(r, active) {
        SurvivorStep(t0, active, d, t, r);
      } else {
        forall p: Path ensures At(o.tree, p) == if Doomed(t0, active, d + {r}, p) then None else At(t0, p) {
          RemovedAt(t, r, p);
          DoomedMore(t0, active, d, r, p);
        }
      }
    }
  }

  lemma SurvivorStep(t0: Tree, active: set<Path>, d: set<Path>, t: Tree, r: Path)
    requires WellFormed(t0) && Pruned(t0, active, d, t)
    requires PagePath(r) && r !in d && forall x :: x in d ==> PagePath(x)
    requires r !in active && DirExists(t0, r) && DirExists(t, r) && HasActiveDescendant(r, active)
    ensures PruneOne(t, active, r).Done? <==> !BlockedIndex(t0, active, r)
    ensures PruneOne(t, active, r).Done? ==> Pruned(t0, active, d + {r}, PruneOne(t, active, r).tree)
  {
    var i := Index(r);
    forall p: Path | i <= p && p in t0 ensures p in t && t[p] == t0[p] {
      IndexUntouched(t0, active, d, r, p);
      assert At(t, p) == At(t0, p);
    }
    forall p: Path | p in t ensures p in t0 {
      assert At(t, p) == At(t0, p);
    }
    assert (i in t <==> i in t0) && (i in t ==> (EmptyOrFile(t, i) <==> EmptyOrFile(t0, i)));
    var o := PruneOne(t, active, r);
    if o.Done? {
      forall p: Path ensures At(o.tree, p) == if Doomed(t0, active, d + {r}, p) then None else At(t0, p) {
        RemovedAt(t, i, p);
        DoomedMore(t0, active, d, r, p);
        if i <= p && p != i && i in t && p in t {
          assert t0[i].Dir? by { AboveIsDir(t0, i, p); }
          assert EmptyOrFile(t, i);
        }
      }
    }
  }

  /** Pruning in any order: it fails exactly when some surviving stale root's
      page cannot be removed, and otherwise removes exactly the doomed paths. */
  lemma {:induction false} PruneRemovesDoomed(t0: Tree, active: set<Path>, stale: seq<Path>, n: nat, t: Tree)
    requires WellFormed(t0) && n <= |stale| && Distinct(stale) && forall x :: x in stale ==> PagePath(x)
    requires Pruned(t0, active, Elements(stale[..n]), t)
    requires forall r :: r in stale[..n] ==> !BlockedIndex(t0, active, r)
    ensures Prune(t, active, stale, n).Done? <==> forall r :: r in stale ==> !BlockedIndex(t0, active, r)
    ensures Prune(t, active, stale, n).Done? ==> Pruned(t0, active, Elements(stale), Prune(t, active, stale, n).tree)
    decreases |stale| - n
  {
    if n == |stale| {
      assert stale[..n] == stale;
    } else {
      var r := stale[n];
      assert r in stale;
      assert stale[..n + 1] == stale[..n] + [r];
      assert Elements(stale[..n + 1]) == Elements(stale[..n]) + {r};
      PruneOneStep(t0, active, Elements(stale[..n]), t, r);
      if PruneOne(t, active, r).Done? {
        PruneRemovesDoomed(t0, active, stale, n + 1, PruneOne(t, active, r).tree);
      }
    }
  }

  lemma PruneAll(t0: Tree, active: set<Path>, stale: seq<Path>)
    requires WellFormed(t0) && Distinct(stale) && forall x :: x in stale ==> PagePath(x)
    ensures Prune(t0, active, stale, 0).Done? <==> forall r :: r in stale ==> !BlockedIndex(t0, active, r)
    ensures Prune(t0, active, stale, 0).Done? ==> Pruned(t0, active, Elements(stale), Prune(t0, active, stale, 0).tree)
  {
    assert stale[..0] == [];
    forall p: Path ensures !Doomed(t0, active, Elements([]), p) {}
    PruneRemovesDoomed(t0, active, stale, 0, t0);
  }

  /** The order in which the old manifest's roots come up makes no difference. */
  lemma PruneOrderIrrelevant(t0: Tree, active: set<Path>, s: seq<Path>, s': seq<Path>)
    requires WellFormed(t0) && Distinct(s) && Distinct(s') && (forall x :: x in s ==> PagePath(x))
    requires forall x :: x in s <==> x in s'
    ensures Prune(t0, active, s, 0).Done? <==> Prune(t0, active, s', 0).Done?
    ensures Prune(t0, active, s, 0).Done? ==> Prune(t0, active, s, 0) == Prune(t0, active, s', 0)
  {
    PruneAll(t0, active, s);
    PruneAll(t0, active, s');
    if Prune(t0, active, s, 0).Done? {
      assert Elements(s) == Elements(s');
      var u, u' := Prune(t0, active, s, 0).tree, Prune(t0, active, s', 0).tree;
      forall p: Path ensures At(u, p) == At(u', p) {}
      SameTree(u, u');
    }
  }

  /** No active page is ever doomed. */
  lemma ActivePageSurvives(t0: Tree, active: set<Path>, d: set<Path>, a: Path)
    requires a in active && PagePath(a) && forall x :: x in d ==> PagePath(x)
    ensures !Doomed(t0, active, d, Index(a)) && !Doomed(t0, active, d, a)
  {
    forall r, p: Path | r in d && DoomedBy(t0, active, r, p) && (p == Index(a) || p == a) ensures false {
      IndexFacts(r, a);
      PageHasNoIndexSegment(a, r);
    }
  }
}
