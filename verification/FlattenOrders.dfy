/**
 When the order of visiting a map shows in the flat payload (`flatten.go`).
 */
module FlattenOrders {
  import opened Options
  import opened Flatten

  // ---------------------------------------------------------------------------
  // Items of an array never share a key
  // ---------------------------------------------------------------------------

  predicate IsDigit(c: char) {
    '0' <= c <= '9'
  }

  lemma {:induction false} ItoaIsDigits(n: nat)
    ensures Itoa(n) != "" && forall i | 0 <= i < |Itoa(n)| :: IsDigit(Itoa(n)[i])
  {
    if n >= 10 { ItoaIsDigits(n / 10); }
  }

  /** Below a key only that key itself and what continues it with an underscore. */
  ghost predicate Below(prefix: string, k: string) {
    k == prefix || prefix + "_" <= k
  }

  lemma {:induction false} KeyIsBelow(prefix: string, pos: Position)
    requires prefix != ""
    ensures Below(prefix, KeyOf(prefix, pos))
    decreases |pos|
  {
    if pos != [] {
      var next := JoinKey(prefix, pos[0]);
      KeyIsBelow(next, pos[1..]);
      BelowTransitive(prefix, pos[0], KeyOf(next, pos[1..]));
    }
  }

  lemma BelowTransitive(prefix: string, x: string, k: string)
    requires Below(prefix + "_" + x, k)
    ensures prefix + "_" <= k
  {
    assert prefix + "_" <= prefix + "_" + x;
    if prefix + "_" + x + "_" <= k {
      assert k[..|prefix| + 1] == (prefix + "_" + x + "_")[..|prefix| + 1] == prefix + "_";
    }
  }

  lemma BelowStarts(a: string, k: string)
    requires Below(a, k)
    ensures |a| <= |k| && k[..|a|] == a
  {
    if a != k { assert (a + "_")[..|a|] == a; }
  }

  lemma JoinedTail(prefix: string, x: string, y: string)
    requires JoinKey(prefix, x) == JoinKey(prefix, y)
    ensures x == y
  {
    if prefix != "" {
      assert (prefix + "_" + x)[|prefix| + 1..] == x && (prefix + "_" + y)[|prefix| + 1..] == y;
    }
  }

  lemma ItemKeysDiffer(prefix: string, i: nat, j: nat, k: string)
    requires Below(JoinKey(prefix, Itoa(i)), k) && Below(JoinKey(prefix, Itoa(j)), k)
    ensures i == j
  {
    var a, b := JoinKey(prefix, Itoa(i)), JoinKey(prefix, Itoa(j));
    ItoaIsDigits(i);
    ItoaIsDigits(j);
    hide Itoa, Below, JoinKey;
    if |a| == |b| {
      BelowStarts(a, k);
      BelowStarts(b, k);
      JoinedTail(prefix, Itoa(i), Itoa(j));
      ItoaIsInjective(i, j);
    } else if |a| < |b| {
      KeyEndsOnce(prefix, i, j, k);
    } else {
      KeyEndsOnce(prefix, j, i, k);
    }
  }

  lemma BelowShorter(a: string, k: string)
    ensures Below(a, k) && |a| < |k| ==> k[|a|] == '_'
  {
    assert (a + "_")[|a|] == '_';
  }

  lemma BelowLonger(b: string, k: string, i: nat)
    requires i < |b|
    ensures Below(b, k) ==> |b| <= |k| && k[i] == b[i]
  {
    assert (b + "_")[i] == b[i];
  }

  lemma ItemKeyEnds(prefix: string, i: nat, j: nat)
    requires |JoinKey(prefix, Itoa(i))| < |JoinKey(prefix, Itoa(j))|
    ensures IsDigit(JoinKey(prefix, Itoa(j))[|JoinKey(prefix, Itoa(i))|])
  {
    ItoaIsDigits(j);
    hide Itoa;
    var a, b := JoinKey(prefix, Itoa(i)), JoinKey(prefix, Itoa(j));
    var from := |b| - |Itoa(j)|;
    assert b[from..] == Itoa(j) && from == |a| - |Itoa(i)|;
    assert b[|a|] == Itoa(j)[|a| - from];
  }

  lemma KeyEndsOnce(prefix: string, i: nat, j: nat, k: string)
    requires |JoinKey(prefix, Itoa(i))| < |JoinKey(prefix, Itoa(j))|
    requires Below(JoinKey(prefix, Itoa(i)), k)
    ensures !Below(JoinKey(prefix, Itoa(j)), k)
  {
    hide Itoa, JoinKey, Below;
    var a, b := JoinKey(prefix, Itoa(i)), JoinKey(prefix, Itoa(j));
    ItemKeyEnds(prefix, i, j);
    BelowLonger(b, k, |a|);
    BelowShorter(a, k);
  }

  lemma HasIsBelow(prefix: string, node: Json, k: string, v: Scalar)
    requires prefix != "" && Has(prefix, node, k, v)
    ensures Below(prefix, k)
  {
    var pos :| IsLeaf(node, pos, v) && KeyOf(prefix, pos) == k;
    KeyIsBelow(prefix, pos);
  }

  /** Visiting an item leaves the keys of the others alone. */
  lemma OtherItem(prefix: string, node: Json, i: nat, j: nat, k: string, mid: map<string, Scalar>, out: map<string, Scalar>)
    requires node.Array? && i < |node.items| && j < |node.items| && i != j
    requires Below(JoinKey(prefix, Itoa(i)), k) && k in mid
    requires Visited(JoinKey(prefix, Itoa(j)), node.items[j], mid, out)
    ensures k in out && out[k] == mid[k]
  {
    hide Visited, Below, Has;
    var key, item := JoinKey(prefix, Itoa(j)), node.items[j];
    ItoaIsDigits(j);
    VisitedIsWritten(key, item, mid, out);
    if v :| Has(key, item, k, v) {
      HasIsBelow(key, item, k, v);
      ItemKeysDiffer(prefix, i, j, k);
    }
  }

  // ---------------------------------------------------------------------------
  // Some visit leaves any given value
  // ---------------------------------------------------------------------------

  /** There is a visit. */
  lemma {:induction false} SomeVisit(prefix: string, node: Json, was: map<string, Scalar>) returns (out: map<string, Scalar>)
    ensures Visited(prefix, node, was, out)
    decreases node, 1, 0
  {
    match node
    case Leaf(v) => out := if prefix == "" then was else was[prefix := v];
    case Object(fields) =>
      var kids;
      kids, out := SomeFields(prefix, node, fields.Keys, was);
      FieldsInOrder(node, kids);
    case Array(items) =>
      var kids: Kids;
      kids, out := SomeItems(prefix, node, |items|, was);
      ItemsInOrder(node, kids);
  }

  /** Of some fields of an object. */
  lemma {:induction false} SomeFields(prefix: string, node: Json, keys: set<string>, was: map<string, Scalar>)
    returns (kids: Kids, out: map<string, Scalar>)
    requires node.Object? && keys <= node.fields.Keys
    ensures KidsOf(node, kids) && KeysOf(kids) == keys && VisitedKids(prefix, node, kids, was, out)
    decreases node, 0, |keys|
  {
    if keys == {} {
      kids, out := [], was;
      assert KeysOf(kids) == {};
    } else {
      hide Visited, VisitedKids, KidsOf, KeysOf;
      var key :| key in keys;
      var before, mid := SomeFields(prefix, node, keys - {key}, was);
      out := SomeVisit(JoinKey(prefix, key), node.fields[key], mid);
      OneMoreKid(prefix, node, before, key, node.fields[key], was, mid, out);
      kids := before + [(key, node.fields[key])];
    }
  }

  ghost predicate FirstItems(node: Json, kids: Kids, n: nat)
    requires node.Array?
  {
    |kids| == n <= |node.items| && KidsOf(node, kids) && forall i | 0 <= i < n :: kids[i] == (Itoa(i), node.items[i])
  }

  /** Of the first items of an array. */
  lemma {:induction false} SomeItems(prefix: string, node: Json, n: nat, was: map<string, Scalar>)
    returns (kids: Kids, out: map<string, Scalar>)
    requires node.Array? && n <= |node.items|
    ensures FirstItems(node, kids, n) && VisitedKids(prefix, node, kids, was, out)
    decreases node, 0, n
  {
    if n == 0 {
      kids, out := [], was;
    } else {
      var before, mid := SomeItems(prefix, node, n - 1, was);
      out := SomeVisit(JoinKey(prefix, Itoa(n - 1)), node.items[n - 1], mid);
      kids := OneMoreItem(prefix, node, before, was, mid, out);
    }
  }

  lemma OneMoreItem(prefix: string, node: Json, before: Kids, was: map<string, Scalar>, mid: map<string, Scalar>,
                    out: map<string, Scalar>) returns (kids: Kids)
    requires node.Array? && |before| < |node.items| && FirstItems(node, before, |before|) && VisitedKids(prefix, node, before, was, mid)
    requires Visited(JoinKey(prefix, Itoa(|before|)), node.items[|before|], mid, out)
    ensures FirstItems(node, kids, |before| + 1) && VisitedKids(prefix, node, kids, was, out)
  {
    hide Visited, VisitedKids, KidsOf, KeysOf, Itoa;
    var n := |before|;
    NewItem(node, before);
    OneMoreKid(prefix, node, before, Itoa(n), node.items[n], was, mid, out);
    kids := before + [(Itoa(n), node.items[n])];
  }

  /** The value of any leaf may be the one that stays at its key. */
  lemma {:induction false} AnyMayStay(prefix: string, node: Json, was: map<string, Scalar>, pos: Position, v: Scalar)
    returns (out: map<string, Scalar>)
    requires IsLeaf(node, pos, v) && KeyOf(prefix, pos) != ""
    ensures Visited(prefix, node, was, out) && KeyOf(prefix, pos) in out && out[KeyOf(prefix, pos)] == v
    decreases |pos|, 1
  {
    match node
    case Leaf(_) => out := was[prefix := v];
    case Object(fields) => out := AnyFieldMayStay(prefix, node, was, pos, v);
    case Array(items) =>
      var i: nat :| i < |items| && pos[0] == Itoa(i) && IsLeaf(items[i], pos[1..], v);
      out := AnyItemMayStay(prefix, node, was, pos, v, i);
  }

  /** Its field comes last. */
  lemma {:induction false} AnyFieldMayStay(prefix: string, node: Json, was: map<string, Scalar>, pos: Position, v: Scalar)
    returns (out: map<string, Scalar>)
    requires node.Object? && IsLeaf(node, pos, v) && KeyOf(prefix, pos) != ""
    ensures Visited(prefix, node, was, out) && KeyOf(prefix, pos) in out && out[KeyOf(prefix, pos)] == v
    decreases |pos|, 0
  {
    var key, child := pos[0], node.fields[pos[0]];
    assert IsLeaf(child, pos[1..], v) && KeyOf(prefix, pos) == KeyOf(JoinKey(prefix, key), pos[1..]) && IsChild(node, key, child);
    hide Visited, VisitedKids, KidsOf, KeysOf, InOrder, IsLeaf, KeyOf, IsChild;
    var kids, mid := SomeFields(prefix, node, node.fields.Keys - {key}, was);
    out := AnyMayStay(JoinKey(prefix, key), child, mid, pos[1..], v);
    OneMoreKid(prefix, node, kids, key, child, was, mid, out);
    var all := kids + [(key, child)];
    FieldsInOrder(node, all);
    AllVisited(prefix, node, all, was, out);
  }

  /** The items behind its own write other keys. */
  lemma {:induction false} AnyItemMayStay(prefix: string, node: Json, was: map<string, Scalar>, pos: Position, v: Scalar, i: nat)
    returns (out: map<string, Scalar>)
    requires node.Array? && i < |node.items| && pos != [] && pos[0] == Itoa(i) && IsLeaf(node.items[i], pos[1..], v)
    requires KeyOf(prefix, pos) != ""
    ensures Visited(prefix, node, was, out) && KeyOf(prefix, pos) in out && out[KeyOf(prefix, pos)] == v
    decreases |pos|, 0
  {
    var key, item, k := JoinKey(prefix, Itoa(i)), node.items[i], KeyOf(prefix, pos);
    assert k == KeyOf(key, pos[1..]);
    ItoaIsDigits(i);
    KeyIsBelow(key, pos[1..]);
    hide Visited, VisitedKids, KidsOf, KeysOf, InOrder, IsLeaf, KeyOf, IsChild, Itoa, Below;
    var kids, mid := SomeItems(prefix, node, i, was);
    var next := AnyMayStay(key, item, mid, pos[1..], v);
    kids := OneMoreItem(prefix, node, kids, was, mid, next);
    kids, out := TheOtherItems(prefix, node, i, k, kids, was, next);
    ItemsInOrder(node, kids);
    AllVisited(prefix, node, kids, was, out);
  }

  lemma {:induction false} TheOtherItems(prefix: string, node: Json, i: nat, k: string, before: Kids, was: map<string, Scalar>,
                                         mid: map<string, Scalar>) returns (kids: Kids, out: map<string, Scalar>)
    requires node.Array? && i < |before| <= |node.items| && FirstItems(node, before, |before|)
    requires VisitedKids(prefix, node, before, was, mid) && Below(JoinKey(prefix, Itoa(i)), k) && k in mid
    ensures FirstItems(node, kids, |node.items|) && VisitedKids(prefix, node, kids, was, out)
    ensures k in out && out[k] == mid[k]
    decreases |node.items| - |before|
  {
    hide Visited, VisitedKids, KidsOf, KeysOf, Below;
    if |before| == |node.items| {
      kids, out := before, mid;
    } else {
      var n := |before|;
      var next := SomeVisit(JoinKey(prefix, Itoa(n)), node.items[n], mid);
      OtherItem(prefix, node, i, n, k, mid, next);
      kids := OneMoreItem(prefix, node, before, was, mid, next);
      kids, out := TheOtherItems(prefix, node, i, k, kids, was, next);
    }
  }

  // ---------------------------------------------------------------------------
  // When the order matters
  // ---------------------------------------------------------------------------

  /** No key has leaves with different values. */
  ghost predicate OneValueAKey(node: Json) {
    forall k, v, w :: Has("", node, k, v) && Has("", node, k, w) ==> v == w
  }

  /** Two values at one key: two visits that differ. */
  lemma OrderShows(node: Json, k: string, v: Scalar, w: Scalar) returns (one: map<string, Scalar>, other: map<string, Scalar>)
    requires Has("", node, k, v) && Has("", node, k, w) && v != w
    ensures Visited("", node, map[], one) && Visited("", node, map[], other) && one != other
  {
    hide Visited, IsLeaf, KeyOf;
    var p :| IsLeaf(node, p, v) && KeyOf("", p) == k;
    var q :| IsLeaf(node, q, w) && KeyOf("", q) == k;
    one := AnyMayStay("", node, map[], p, v);
    other := AnyMayStay("", node, map[], q, w);
    assert one[k] != other[k];
  }

  ghost predicate OneResult(node: Json) {
    forall one, other :: Visited("", node, map[], one) && Visited("", node, map[], other) ==> one == other
  }

  /** All visits give the same map if and only if leaves that share a key share their
      value. */
  lemma OrderMattersIff(node: Json)
    ensures OneResult(node) <==> OneValueAKey(node)
  {
    hide IsLeaf, KeyOf, Written, Has;
    if OneValueAKey(node) {
      forall one, other | Visited("", node, map[], one) && Visited("", node, map[], other) ensures one == other {
        VisitedIsWritten("", node, map[], one);
        VisitedIsWritten("", node, map[], other);
        SameWritten(node, one, other);
      }
    } else {
      var k, v, w :| Has("", node, k, v) && Has("", node, k, w) && v != w;
      var one, other := OrderShows(node, k, v, w);
    }
  }

  lemma SameWritten(node: Json, one: map<string, Scalar>, other: map<string, Scalar>)
    requires OneValueAKey(node) && Written("", node, map[], one) && Written("", node, map[], other)
    ensures one == other
  {
    hide Has;
    forall k | k in one ensures k in other && other[k] == one[k] {
      assert Has("", node, k, one[k]);
    }
    forall k | k in other ensures k in one {
      assert Has("", node, k, other[k]);
    }
  }

  /** Two fields whose joined names run into the same key: two visits, two values. */
  lemma ClashingKeys() returns (one: map<string, Scalar>, other: map<string, Scalar>)
    ensures var node := Object(map["a" := Object(map["b_c" := Leaf(Number(1))]), "a_b" := Object(map["c" := Leaf(Number(2))])]);
      && Visited("", node, map[], one) && Visited("", node, map[], other)
      && "a_b_c" in one && one["a_b_c"] == Number(1) && "a_b_c" in other && other["a_b_c"] == Number(2)
  {
    var a, b := Object(map["b_c" := Leaf(Number(1))]), Object(map["c" := Leaf(Number(2))]);
    var node := Object(map["a" := a, "a_b" := b]);
    var p, q := ["a", "b_c"], ["a_b", "c"];
    assert p[1..] == ["b_c"] && p[1..][1..] == [] && q[1..] == ["c"] && q[1..][1..] == [];
    assert IsLeaf(a, ["b_c"], Number(1)) && IsLeaf(b, ["c"], Number(2));
    assert IsLeaf(node, p, Number(1)) && IsLeaf(node, q, Number(2));
    KeyOfTwo("a", "b_c");
    KeyOfTwo("a_b", "c");
    assert "a" + "_" + "b_c" == "a_b_c" && "a_b" + "_" + "c" == "a_b_c";
    one := AnyMayStay("", node, map[], p, Number(1));
    other := AnyMayStay("", node, map[], q, Number(2));
  }
}
