/**
 Parent candidates of a category (`filterParents`): the fixpoint of its descendants,
 and why choosing among the rest keeps the category tree a tree.
 */
module Categories {
  datatype Category = Category(id: int, parent: int)

  /** `d` is `self` or lies below it, `n` steps at most. */
  ghost predicate Below(all: seq<Category>, self: int, d: int, n: nat)
    decreases n
  {
    d == self || (n > 0 && exists c :: c in all && c.id == d && Below(all, self, c.parent, n - 1))
  }

  ghost predicate Descendant(all: seq<Category>, self: int, d: int) {
    exists n: nat :: Below(all, self, d, n)
  }

  /** The categories that are neither `self` nor below it, in order. */
  ghost function Candidates(all: seq<Category>, self: int): seq<Category> {
    CandidatesAmong(all, self, |all|)
  }

  ghost function CandidatesAmong(all: seq<Category>, self: int, n: nat): seq<Category>
    requires n <= |all|
  {
    if n == 0 then []
    else CandidatesAmong(all, self, n - 1) + if Descendant(all, self, all[n - 1].id) then [] else [all[n - 1]]
  }

  ghost predicate Closed(all: seq<Category>, desc: set<int>) {
    forall c :: c in all && c.parent in desc ==> c.id in desc
  }

  lemma {:induction false} ClosedHasAll(all: seq<Category>, self: int, desc: set<int>, d: int, n: nat)
    requires self in desc && Closed(all, desc) && Below(all, self, d, n)
    ensures d in desc
    decreases n
  {
    if d != self {
      var c :| c in all && c.id == d && Below(all, self, c.parent, n - 1);
      ClosedHasAll(all, self, desc, c.parent, n - 1);
    }
  }

  lemma ChildIsBelow(all: seq<Category>, self: int, c: Category)
    requires c in all && Descendant(all, self, c.parent)
    ensures Descendant(all, self, c.id)
  {
    var n: nat :| Below(all, self, c.parent, n);
    assert Below(all, self, c.id, n + 1);
  }

  lemma ClosureIsExact(all: seq<Category>, self: int, desc: set<int>)
    requires self in desc && Closed(all, desc) && forall d :: d in desc ==> Descendant(all, self, d)
    ensures forall d :: d in desc <==> Descendant(all, self, d)
  {
    forall d | Descendant(all, self, d) ensures d in desc {
      var n: nat :| Below(all, self, d, n);
      ClosedHasAll(all, self, desc, d, n);
    }
  }

  /** All of `desc` are the edited category or below it. */
  ghost predicate AllBelow(all: seq<Category>, self: int, ids: set<int>, desc: set<int>) {
    self in desc && desc <= ids + {self} && forall d :: d in desc ==> Descendant(all, self, d)
  }

  lemma SelfIsBelow(all: seq<Category>, self: int, ids: set<int>)
    ensures AllBelow(all, self, ids, {self})
  {
    assert Below(all, self, self, 0);
  }

  lemma OneMoreBelow(all: seq<Category>, self: int, ids: set<int>, before: set<int>, desc: set<int>, c: Category)
    requires AllBelow(all, self, ids, desc) && c in all && c.parent in desc && c.id in ids && c.id !in desc && before <= desc
    ensures AllBelow(all, self, ids, desc + {c.id}) && |before| < |desc + {c.id}| <= |ids + {self}|
  {
    ChildIsBelow(all, self, c);
    Larger(before, desc, c.id);
    SubsetSize(desc + {c.id}, ids + {self});
  }

  /** The code's two loops. */
  method FilterParents(all: seq<Category>, self: int) returns (out: seq<Category>)
    ensures out == if self == 0 then all else Candidates(all, self)
  {
    if self == 0 {
      return all;
    }
    hide Descendant, Closed, AllBelow;
    var desc := {self};
    ghost var ids := set c | c in all :: c.id;
    SelfIsBelow(all, self, ids);
    SubsetSize(desc, ids + {self});
    var changed := true;
    while changed
      invariant AllBelow(all, self, ids, desc) && |desc| <= |ids + {self}|
      invariant !changed ==> Closed(all, desc)
      decreases |ids + {self}| - |desc|, changed
    {
      changed := false;
      ghost var before := desc;
      var i := 0;
      while i < |all|
        invariant i <= |all| && before <= desc && AllBelow(all, self, ids, desc) && |desc| <= |ids + {self}|
        invariant !changed ==> desc == before && forall k | 0 <= k < i :: all[k].parent in desc ==> all[k].id in desc
        invariant changed ==> |before| < |desc|
      {
        var c := all[i];
        if c.parent in desc && c.id !in desc {
          OneMoreBelow(all, self, ids, before, desc, c);
          desc := desc + {c.id};
          changed := true;
        }
        i := i + 1;
      }
      if !changed { IsClosed(all, desc); }
    }
    ClosureIsTheRest(all, self, ids, desc);
    out := [];
    var i := 0;
    while i < |all|
      invariant i <= |all| && out == CandidatesAmong(all, self, i)
    {
      if all[i].id !in desc {
        out := out + [all[i]];
      }
      i := i + 1;
    }
  }

  lemma ClosureIsTheRest(all: seq<Category>, self: int, ids: set<int>, desc: set<int>)
    requires AllBelow(all, self, ids, desc) && Closed(all, desc)
    ensures forall d :: d in desc <==> Descendant(all, self, d)
  {
    ClosureIsExact(all, self, desc);
  }

  lemma IsClosed(all: seq<Category>, desc: set<int>)
    requires forall k | 0 <= k < |all| :: all[k].parent in desc ==> all[k].id in desc
    ensures Closed(all, desc)
  {
  }

  lemma Larger(before: set<int>, desc: set<int>, x: int)
    requires before <= desc && x !in desc
    ensures |before| < |desc + {x}|
  {
    SubsetSize(before, desc);
  }

  lemma SubsetSize(a: set<int>, b: set<int>)
    requires a <= b
    ensures |a| <= |b|
  {
    assert b == a + (b - a);
  }

  // ---------------------------------------------------------------------------
  // No cycles
  // ---------------------------------------------------------------------------

  lemma {:induction false} CandidatesIff(all: seq<Category>, self: int, n: nat)
    requires n <= |all|
    ensures forall c :: c in CandidatesAmong(all, self, n) <==> c in all[..n] && !Descendant(all, self, c.id)
  {
    if n > 0 {
      CandidatesIff(all, self, n - 1);
      assert all[..n] == all[..n - 1] + [all[n - 1]];
    }
  }

  /** The candidates stand in the order of the table: `places` says where each of them
      is, and leaves out exactly the category itself and those below it. */
  ghost predicate InTableOrder(all: seq<Category>, self: int, n: nat, out: seq<Category>, places: seq<nat>)
    requires n <= |all|
  {
    && |places| == |out| && (forall k | 0 <= k < |places| :: places[k] < n && out[k] == all[places[k]])
    && (forall k, l | 0 <= k < l < |places| :: places[k] < places[l])
    && forall i: nat | i < n :: i in places <==> !Descendant(all, self, all[i].id)
  }

  lemma OneMoreInOrder(all: seq<Category>, self: int, n: nat, out: seq<Category>, places: seq<nat>)
    requires n < |all| && InTableOrder(all, self, n, out, places)
    ensures Descendant(all, self, all[n].id) ==> InTableOrder(all, self, n + 1, out, places)
    ensures !Descendant(all, self, all[n].id) ==> InTableOrder(all, self, n + 1, out + [all[n]], places + [n])
  {
    hide Descendant;
    var more := places + [n];
    assert n !in places;
    forall i: nat ensures i in more <==> i in places || i == n {}
  }

  lemma {:induction false} CandidatesInOrder(all: seq<Category>, self: int, n: nat) returns (places: seq<nat>)
    requires n <= |all|
    ensures InTableOrder(all, self, n, CandidatesAmong(all, self, n), places)
  {
    hide Descendant, InTableOrder;
    if n == 0 {
      places := [];
      assert InTableOrder(all, self, 0, [], []) by { NothingInOrder(all, self); }
    } else {
      places := CandidatesInOrder(all, self, n - 1);
      var out := CandidatesAmong(all, self, n - 1);
      OneMoreInOrder(all, self, n - 1, out, places);
      assert out + [] == out;
      if !Descendant(all, self, all[n - 1].id) { places := places + [n - 1]; }
    }
  }

  lemma NothingInOrder(all: seq<Category>, self: int)
    ensures InTableOrder(all, self, 0, [], [])
  {
  }

  /** Following parents from every category ends after finitely many steps. */
  ghost predicate Ends(all: seq<Category>, id: int, n: nat)
    decreases n
  {
    (forall c :: c in all ==> c.id != id) || (n > 0 && forall c :: c in all && c.id == id ==> Ends(all, c.parent, n - 1))
  }

  ghost predicate Acyclic(all: seq<Category>) {
    forall c :: c in all ==> exists n: nat :: Ends(all, c.id, n)
  }

  /** The table after category `self` was given the parent `parent`. */
  function Reparented(all: seq<Category>, self: int, parent: int): seq<Category> {
    seq(|all|, i requires 0 <= i < |all| => if all[i].id == self then Category(self, parent) else all[i])
  }

  lemma {:induction false} EndsLater(all: seq<Category>, id: int, n: nat, m: nat)
    requires Ends(all, id, n) && n <= m
    ensures Ends(all, id, m)
    decreases n
  {
    if exists c :: c in all && c.id == id {
      forall c | c in all && c.id == id ensures Ends(all, c.parent, m - 1) { EndsLater(all, c.parent, n - 1, m - 1); }
    }
  }

  lemma AfterReparenting(all: seq<Category>, self: int, parent: int)
    ensures forall c :: c in Reparented(all, self, parent) ==> if c.id == self then c.parent == parent else c in all
    ensures forall c :: c in all && c.id != self ==> c in Reparented(all, self, parent)
    ensures (exists c :: c in all && c.id == self) ==> Category(self, parent) in Reparented(all, self, parent)
  {
    var new' := Reparented(all, self, parent);
    forall c | c in all && c.id != self ensures c in new' {
      var i :| 0 <= i < |all| && all[i] == c;
      assert new'[i] == c;
    }
    if exists c :: c in all && c.id == self {
      var i :| 0 <= i < |all| && all[i].id == self;
      assert new'[i] == Category(self, parent);
    }
  }

  /** Above a category that is not below `self` nothing has changed. */
  lemma {:induction false} EndsOutside(all: seq<Category>, self: int, parent: int, id: int, n: nat)
    requires Ends(all, id, n) && !Descendant(all, self, id)
    ensures Ends(Reparented(all, self, parent), id, n)
    decreases n
  {
    var new' := Reparented(all, self, parent);
    AfterReparenting(all, self, parent);
    assert Below(all, self, self, 0);
    forall c | c in new' && c.id == id ensures c in all && n > 0 && Ends(new', c.parent, n - 1) {
      assert c in all;
      if Descendant(all, self, c.parent) { ChildIsBelow(all, self, c); }
      EndsOutside(all, self, parent, c.parent, n - 1);
    }
  }

  /** And below it every path now goes on from the new parent. */
  lemma {:induction false} EndsInside(all: seq<Category>, self: int, parent: int, id: int, m: nat, n: nat)
    requires Ends(all, id, m) && Ends(Reparented(all, self, parent), parent, n)
    ensures Ends(Reparented(all, self, parent), id, m + n + 1)
    decreases m
  {
    var new' := Reparented(all, self, parent);
    AfterReparenting(all, self, parent);
    forall c | c in new' && c.id == id ensures Ends(new', c.parent, m + n) {
      if id == self {
        EndsLater(new', parent, n, m + n);
      } else {
        EndsInside(all, self, parent, c.parent, m - 1, n);
      }
    }
  }

  /** A path up to `self` survives, since `self` is only its end. */
  lemma {:induction false} BelowStays(all: seq<Category>, self: int, parent: int, d: int, n: nat)
    requires Below(all, self, d, n)
    ensures Below(Reparented(all, self, parent), self, d, n)
    decreases n
  {
    if d != self {
      var c :| c in all && c.id == d && Below(all, self, c.parent, n - 1);
      AfterReparenting(all, self, parent);
      BelowStays(all, self, parent, c.parent, n - 1);
    }
  }

  lemma {:induction false} EndsAbove(all: seq<Category>, self: int, d: int, k: nat, n: nat)
    requires Below(all, self, d, k) && Ends(all, d, n)
    ensures Ends(all, self, n)
    decreases k
  {
    if d != self {
      var c :| c in all && c.id == d && Below(all, self, c.parent, k - 1);
      EndsAbove(all, self, c.parent, k - 1, n - 1);
      EndsLater(all, self, n - 1, n);
    }
  }

  /** Below itself, a category has no end above it. */
  lemma {:induction false} NeverEnds(all: seq<Category>, self: int, parent: int, k: nat, n: nat)
    requires Below(all, self, parent, k) && exists c :: c in all && c.id == self
    ensures !Ends(Reparented(all, self, parent), self, n)
    decreases n
  {
    var new' := Reparented(all, self, parent);
    AfterReparenting(all, self, parent);
    BelowStays(all, self, parent, parent, k);
    if n > 0 {
      NeverEnds(all, self, parent, k, n - 1);
      if Ends(new', parent, n - 1) {
        EndsAbove(new', self, parent, k, n - 1);
      }
    }
  }

  /** Giving an existing category a parent keeps the tree free of cycles exactly when
      the parent is not the category itself or below it: what `filterParents` leaves
      out is what must be left out, and no more. */
  lemma ReparentingIff(all: seq<Category>, self: int, parent: int)
    requires Acyclic(all) && exists c :: c in all && c.id == self
    ensures Acyclic(Reparented(all, self, parent)) <==> !Descendant(all, self, parent)
  {
    var new' := Reparented(all, self, parent);
    AfterReparenting(all, self, parent);
    if Descendant(all, self, parent) {
      var k: nat :| Below(all, self, parent, k);
      assert Category(self, parent) in new';
      forall n: nat ensures !Ends(new', self, n) { NeverEnds(all, self, parent, k, n); }
    } else {
      var n := EndOf(all, parent);
      EndsOutside(all, self, parent, parent, n);
      forall c | c in new' ensures exists m: nat :: Ends(new', c.id, m) {
        var m := EndOf(all, c.id);
        EndsInside(all, self, parent, c.id, m, n);
      }
    }
  }

  lemma EndOf(all: seq<Category>, id: int) returns (n: nat)
    requires Acyclic(all)
    ensures Ends(all, id, n)
  {
    if c :| c in all && c.id == id {
      n :| Ends(all, id, n);
    } else {
      n := 0;
    }
  }

  /** So every offered candidate, and no parent at all, is a safe choice. */
  lemma CandidatesAreSafe(all: seq<Category>, self: int, parent: int)
    requires Acyclic(all) && self != 0 && forall c :: c in all ==> c.id != 0
    requires exists c :: c in all && c.id == self
    requires parent == 0 || exists c :: c in Candidates(all, self) && c.id == parent
    ensures Acyclic(Reparented(all, self, parent))
  {
    CandidatesIff(all, self, |all|);
    forall n: nat ensures !Below(all, self, 0, n) {}
    ReparentingIff(all, self, parent);
  }
}
