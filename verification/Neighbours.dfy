/**
 The neighbour index of the static rebuild (`buildVisibleIndex`, `adjacentFromIndex`)
 against the order on (posted_at, id) it stands for.
 */
module Neighbours {
  import opened Options

  datatype Entry = Entry(id: int, posted: int, category: int)

  datatype Category = Category(hidden: bool)

  predicate Visible(cats: map<int, Category>, e: Entry) {
    !(e.category in cats && cats[e.category].hidden)
  }

  /** `a` is older than `b`: earlier, or as early with a smaller id. */
  predicate Older(a: Entry, b: Entry) {
    a.posted < b.posted || (a.posted == b.posted && a.id < b.id)
  }

  // ---------------------------------------------------------------------------
  // The index
  // ---------------------------------------------------------------------------

  predicate NewestFirst(s: seq<Entry>) {
    forall i, j | 0 <= i < j < |s| :: !Older(s[i], s[j])
  }

  ghost predicate IsIndex(all: seq<Entry>, cats: map<int, Category>, visible: seq<Entry>, idx: map<int, nat>) {
    && NewestFirst(visible)
    && (forall e :: e in visible <==> e in all && Visible(cats, e))
    && (forall e :: e in visible ==> multiset(visible)[e] == multiset(all)[e])
    && (forall i | 0 <= i < |visible| :: visible[i].id in idx)
    && forall id :: id in idx ==> idx[id] < |visible| && visible[idx[id]].id == id
  }

  lemma InsertedIsSorted(s: seq<Entry>, e: Entry, i: nat)
    requires NewestFirst(s) && i <= |s|
    requires forall k | 0 <= k < i :: !Older(s[k], e)
    requires forall k | i <= k < |s| :: !Older(e, s[k])
    ensures NewestFirst(s[..i] + [e] + s[i..])
  {
  }

  lemma InsertedIsThere(s: seq<Entry>, n: nat, r: seq<Entry>, i: nat)
    requires n < |s| && i <= |r| && multiset(r) == multiset(s[..n])
    ensures multiset(r[..i] + [s[n]] + r[i..]) == multiset(s[..n + 1])
  {
    assert s[..n + 1] == s[..n] + [s[n]];
    assert r == r[..i] + r[i..];
  }

  /** A stable sort, newest first. */
  method SortNewestFirst(s: seq<Entry>) returns (r: seq<Entry>)
    ensures NewestFirst(r) && multiset(r) == multiset(s)
  {
    r := [];
    var n := 0;
    while n < |s|
      invariant n <= |s| && NewestFirst(r) && multiset(r) == multiset(s[..n])
    {
      var e := s[n];
      var i: nat := |r|;
      while i > 0 && Older(r[i - 1], e)
        invariant i <= |r| && forall k | i <= k < |r| :: Older(r[k], e)
      {
        i := i - 1;
      }
      InsertedIsSorted(r, e, i);
      InsertedIsThere(s, n, r, i);
      r := r[..i] + [e] + r[i..];
      n := n + 1;
    }
    assert s[..n] == s;
  }

  method BuildVisibleIndex(all: seq<Entry>, cats: map<int, Category>) returns (visible: seq<Entry>, idx: map<int, nat>)
    ensures IsIndex(all, cats, visible, idx)
  {
    var kept: seq<Entry> := [];
    var n := 0;
    while n < |all|
      invariant n <= |all|
      invariant forall e :: e in kept <==> e in all[..n] && Visible(cats, e)
      invariant forall e :: Visible(cats, e) ==> multiset(kept)[e] == multiset(all[..n])[e]
    {
      assert all[..n + 1] == all[..n] + [all[n]];
      if Visible(cats, all[n]) {
        kept := kept + [all[n]];
      }
      n := n + 1;
    }
    assert all[..n] == all;
    visible := SortNewestFirst(kept);
    idx := map[];
    forall e ensures e in visible <==> e in kept {
      assert e in visible <==> e in multiset(visible);
      assert e in kept <==> e in multiset(kept);
    }
    var i: nat := 0;
    while i < |visible|
      invariant i <= |visible|
      invariant forall k | 0 <= k < i :: visible[k].id in idx
      invariant forall id :: id in idx ==> idx[id] < |visible| && visible[idx[id]].id == id
    {
      idx := idx[visible[i].id := i];
      i := i + 1;
    }
  }

  // ---------------------------------------------------------------------------
  // The neighbours
  // ---------------------------------------------------------------------------

  function Prev(visible: seq<Entry>, idx: map<int, nat>, e: Entry, hidden: bool): Option<Entry> {
    if hidden || e.id !in idx || idx[e.id] + 1 >= |visible| then None else Some(visible[idx[e.id] + 1])
  }

  function Next(visible: seq<Entry>, idx: map<int, nat>, e: Entry, hidden: bool): Option<Entry> {
    if hidden || e.id !in idx || idx[e.id] == 0 || idx[e.id] > |visible| then None else Some(visible[idx[e.id] - 1])
  }

  /** `hidden`: the entry's category is known and hidden. */
  method AdjacentFromIndex(visible: seq<Entry>, idx: map<int, nat>, e: Entry, hidden: bool)
    returns (prev: Option<Entry>, next: Option<Entry>)
    requires forall id :: id in idx ==> idx[id] < |visible|
    ensures prev == Prev(visible, idx, e, hidden) && next == Next(visible, idx, e, hidden)
  {
    if hidden {
      return None, None;
    }
    if e.id !in idx {
      return None, None;
    }
    var i := idx[e.id];
    prev, next := None, None;
    if i + 1 < |visible| {
      prev := Some(visible[i + 1]);
    }
    if i > 0 {
      next := Some(visible[i - 1]);
    }
  }

  ghost predicate UniqueIds(all: seq<Entry>) {
    forall i, j | 0 <= i < j < |all| :: all[i].id != all[j].id
  }

  /** The newest visible entry older than `e`. */
  ghost predicate NearestOlder(all: seq<Entry>, cats: map<int, Category>, e: Entry, p: Entry) {
    && p in all && Visible(cats, p) && Older(p, e)
    && forall q :: q in all && Visible(cats, q) && Older(q, e) ==> q == p || Older(q, p)
  }

  /** The oldest visible entry newer than `e`. */
  ghost predicate NearestNewer(all: seq<Entry>, cats: map<int, Category>, e: Entry, p: Entry) {
    && p in all && Visible(cats, p) && Older(e, p)
    && forall q :: q in all && Visible(cats, q) && Older(e, q) ==> q == p || Older(p, q)
  }

  lemma SameIdSameEntry(all: seq<Entry>, a: Entry, b: Entry)
    requires UniqueIds(all) && a in all && b in all && a.id == b.id
    ensures a == b && multiset(all)[a] == 1
  {
    var i :| 0 <= i < |all| && all[i] == a;
    var j :| 0 <= j < |all| && all[j] == b;
    assert all == all[..i] + [a] + all[i + 1..];
    assert a !in all[..i] && a !in all[i + 1..];
  }

  /** With unique ids the index is strictly sorted, and finds the entry itself. */
  lemma IndexPlaces(all: seq<Entry>, cats: map<int, Category>, visible: seq<Entry>, idx: map<int, nat>, i: nat, j: nat)
    requires IsIndex(all, cats, visible, idx) && UniqueIds(all) && i < |visible| && j < |visible|
    ensures i < j ==> Older(visible[j], visible[i])
    ensures idx[visible[i].id] == i
  {
    assert visible[i] in visible && visible[j] in visible;
    if i < j {
      assert !Older(visible[i], visible[j]);
      NoTwice(all, cats, visible, idx, i, j);
    }
    var k := idx[visible[i].id];
    assert visible[k] in visible && visible[k].id == visible[i].id;
    SameIdSameEntry(all, visible[k], visible[i]);
    if k < i { NoTwice(all, cats, visible, idx, k, i); }
    if i < k { NoTwice(all, cats, visible, idx, i, k); }
  }

  lemma NoTwice(all: seq<Entry>, cats: map<int, Category>, visible: seq<Entry>, idx: map<int, nat>, i: nat, j: nat)
    requires IsIndex(all, cats, visible, idx) && UniqueIds(all) && i < j < |visible|
    ensures visible[i].id != visible[j].id
  {
    var a, b := visible[i], visible[j];
    assert a in visible && b in visible;
    if a.id == b.id {
      SameIdSameEntry(all, a, b);
      CountedTwice(visible, i, j);
    }
  }

  lemma CountedTwice(s: seq<Entry>, i: nat, j: nat)
    requires i < j < |s| && s[i] == s[j]
    ensures multiset(s)[s[i]] >= 2
  {
    assert s == s[..i] + [s[i]] + s[i + 1..j] + [s[i]] + s[j + 1..];
  }

  /** The neighbours of a visible entry are its nearest ones in the order. */
  lemma NeighboursAreNearest(all: seq<Entry>, cats: map<int, Category>, visible: seq<Entry>, idx: map<int, nat>, e: Entry)
    requires IsIndex(all, cats, visible, idx) && UniqueIds(all) && e in all && Visible(cats, e)
    ensures forall p :: Prev(visible, idx, e, false) == Some(p) <==> NearestOlder(all, cats, e, p)
    ensures forall p :: Next(visible, idx, e, false) == Some(p) <==> NearestNewer(all, cats, e, p)
  {
    hide IsIndex, UniqueIds, StrictlySorted, NearestOlder, NearestNewer, Visible, Older, Prev, Next;
    var i := PlaceOf(all, cats, visible, idx, e);
    forall p
      ensures Prev(visible, idx, e, false) == Some(p) <==> NearestOlder(all, cats, e, p)
      ensures Next(visible, idx, e, false) == Some(p) <==> NearestNewer(all, cats, e, p)
    {
      NextDoor(visible, idx, e, i, p);
      PrevIsNearest(all, cats, visible, i, p);
      NextIsNearest(all, cats, visible, i, p);
    }
  }

  lemma NextDoor(visible: seq<Entry>, idx: map<int, nat>, e: Entry, i: nat, p: Entry)
    requires i < |visible| && e.id in idx && idx[e.id] == i
    ensures Prev(visible, idx, e, false) == Some(p) <==> i + 1 < |visible| && p == visible[i + 1]
    ensures Next(visible, idx, e, false) == Some(p) <==> 0 < i && p == visible[i - 1]
  {
  }

  lemma PlaceOf(all: seq<Entry>, cats: map<int, Category>, visible: seq<Entry>, idx: map<int, nat>, e: Entry) returns (i: nat)
    requires IsIndex(all, cats, visible, idx) && UniqueIds(all) && e in all && Visible(cats, e)
    ensures i < |visible| && visible[i] == e && e.id in idx && idx[e.id] == i && StrictlySorted(visible)
    ensures forall x :: x in visible <==> x in all && Visible(cats, x)
  {
    assert e in visible;
    i :| 0 <= i < |visible| && visible[i] == e;
    IndexPlaces(all, cats, visible, idx, i, i);
    IndexIsStrict(all, cats, visible, idx);
  }

  ghost predicate StrictlySorted(s: seq<Entry>) {
    forall j, k | 0 <= j < k < |s| :: Older(s[k], s[j])
  }

  lemma IndexIsStrict(all: seq<Entry>, cats: map<int, Category>, visible: seq<Entry>, idx: map<int, nat>)
    requires IsIndex(all, cats, visible, idx) && UniqueIds(all)
    ensures StrictlySorted(visible)
  {
    forall j: nat, k: nat | j < k < |visible| ensures Older(visible[k], visible[j]) {
      IndexPlaces(all, cats, visible, idx, j, k);
    }
  }

  lemma PlaceByAge(s: seq<Entry>, i: nat, k: nat)
    requires StrictlySorted(s) && i < |s| && k < |s|
    ensures Older(s[k], s[i]) <==> i < k
    ensures s[k] == s[i] <==> k == i
  {
  }

  lemma PrevIsNearest(all: seq<Entry>, cats: map<int, Category>, visible: seq<Entry>, i: nat, p: Entry)
    requires StrictlySorted(visible) && i < |visible|
    requires forall e :: e in visible <==> e in all && Visible(cats, e)
    ensures (i + 1 < |visible| && p == visible[i + 1]) <==> NearestOlder(all, cats, visible[i], p)
  {
    hide StrictlySorted, Older, Visible;
    if i + 1 < |visible| && p == visible[i + 1] {
      assert p in visible;
      PlaceByAge(visible, i, i + 1);
      forall q | q in all && Visible(cats, q) && Older(q, visible[i]) ensures q == p || Older(q, p) {
        var k :| 0 <= k < |visible| && visible[k] == q;
        PlaceByAge(visible, i, k);
        PlaceByAge(visible, i + 1, k);
      }
    }
    if NearestOlder(all, cats, visible[i], p) {
      var k :| 0 <= k < |visible| && visible[k] == p;
      PlaceByAge(visible, i, k);
      assert visible[i + 1] in visible;
      PlaceByAge(visible, i, i + 1);
      PlaceByAge(visible, k, i + 1);
    }
  }

  lemma NextIsNearest(all: seq<Entry>, cats: map<int, Category>, visible: seq<Entry>, i: nat, p: Entry)
    requires StrictlySorted(visible) && i < |visible|
    requires forall e :: e in visible <==> e in all && Visible(cats, e)
    ensures (i > 0 && p == visible[i - 1]) <==> NearestNewer(all, cats, visible[i], p)
  {
    hide StrictlySorted, Older, Visible;
    if i > 0 && p == visible[i - 1] {
      assert p in visible;
      PlaceByAge(visible, i - 1, i);
      forall q | q in all && Visible(cats, q) && Older(visible[i], q) ensures q == p || Older(p, q) {
        var k :| 0 <= k < |visible| && visible[k] == q;
        PlaceByAge(visible, k, i);
        PlaceByAge(visible, k, i - 1);
      }
    }
    if NearestNewer(all, cats, visible[i], p) {
      var k :| 0 <= k < |visible| && visible[k] == p;
      PlaceByAge(visible, k, i);
      assert visible[i - 1] in visible;
      PlaceByAge(visible, i - 1, i);
      PlaceByAge(visible, i - 1, k);
    }
  }

  /** A hidden entry has no neighbours, whatever the caller knows of its category. */
  lemma HiddenHasNone(all: seq<Entry>, cats: map<int, Category>, visible: seq<Entry>, idx: map<int, nat>, e: Entry, hidden: bool)
    requires IsIndex(all, cats, visible, idx) && UniqueIds(all) && e in all && !Visible(cats, e)
    ensures Prev(visible, idx, e, hidden) == None && Next(visible, idx, e, hidden) == None
  {
    if e.id in idx {
      var v := visible[idx[e.id]];
      assert v in visible;
      SameIdSameEntry(all, v, e);
    }
  }

  /** Going back and forth: `p` is before `e` exactly when `e` is after `p`. */
  lemma PrevUndoesNext(all: seq<Entry>, cats: map<int, Category>, visible: seq<Entry>, idx: map<int, nat>, e: Entry, p: Entry)
    requires IsIndex(all, cats, visible, idx) && UniqueIds(all) && e in all && p in all
    ensures Prev(visible, idx, e, !Visible(cats, e)) == Some(p) <==> Next(visible, idx, p, !Visible(cats, p)) == Some(e)
  {
    if Visible(cats, e) && Visible(cats, p) {
      assert e in visible && p in visible;
      var i :| 0 <= i < |visible| && visible[i] == e;
      var j :| 0 <= j < |visible| && visible[j] == p;
      IndexPlaces(all, cats, visible, idx, i, j);
      IndexPlaces(all, cats, visible, idx, j, i);
      forall k: nat | k < |visible| ensures idx[visible[k].id] == k { IndexPlaces(all, cats, visible, idx, k, k); }
    } else {
      forall q | q in visible ensures Visible(cats, q) {}
    }
  }
}
