/**
 Flattening webhook payloads (`flatten.go`) to one level of underscore-joined keys, in
 whatever order a map is visited.
 */
module Flatten {
  import opened Options

  datatype Scalar = Text(s: string) | Number(n: int) | Boolean(b: bool) | Null

  datatype Json = Leaf(value: Scalar) | Object(fields: map<string, Json>) | Array(items: seq<Json>)

  function Digit(d: nat): char
    requires d < 10
  {
    "0123456789"[d]
  }

  /** strconv.Itoa for indices. */
  function Itoa(n: nat): string {
    if n < 10 then [Digit(n)] else Itoa(n / 10) + [Digit(n % 10)]
  }

  lemma {:induction false} ItoaIsInjective(m: nat, n: nat)
    requires Itoa(m) == Itoa(n)
    ensures m == n
    decreases m
  {
    var s, t := Itoa(m), Itoa(n);
    assert s[|s| - 1] == Digit(m % 10) && t[|t| - 1] == Digit(n % 10);
    assert m % 10 == n % 10;
    if m >= 10 && n >= 10 {
      assert s[..|s| - 1] == Itoa(m / 10) && t[..|t| - 1] == Itoa(n / 10);
      ItoaIsInjective(m / 10, n / 10);
    }
  }

  // ---------------------------------------------------------------------------
  // Numerals
  // ---------------------------------------------------------------------------

  predicate AllDigits(d: string) {
    forall i | 0 <= i < |d| :: '0' <= d[i] <= '9'
  }

  /** The number decimal digits stand for, the most significant first. */
  function NumberOf(d: string): nat
    requires AllDigits(d)
  {
    if d == "" then 0 else 10 * NumberOf(d[..|d| - 1]) + (d[|d| - 1] as int - '0' as int)
  }

  /** `d` is the decimal numeral of `n`. */
  predicate IsNumeral(d: string, n: nat) {
    d != "" && AllDigits(d) && (|d| > 1 ==> d[0] != '0') && NumberOf(d) == n
  }

  lemma {:induction false} ItoaIsNumeral(n: nat)
    ensures IsNumeral(Itoa(n), n) && (n > 0 ==> Itoa(n)[0] != '0')
  {
    if n >= 10 {
      var d := Itoa(n);
      ItoaIsNumeral(n / 10);
      assert d[..|d| - 1] == Itoa(n / 10);
    }
  }

  lemma {:induction false} NumberIsPositive(d: string)
    requires d != "" && AllDigits(d) && d[0] != '0'
    ensures NumberOf(d) > 0
  {
    if |d| > 1 { NumberIsPositive(d[..|d| - 1]); }
  }

  lemma DivideByTen(q: nat, x: nat)
    requires x < 10
    ensures (10 * q + x) / 10 == q && (10 * q + x) % 10 == x
  {
  }

  lemma DigitIs(c: char)
    requires '0' <= c <= '9'
    ensures Digit(c as int - '0' as int) == c
  {
  }

  /** A number has one numeral. */
  lemma {:induction false} NumeralIsItoa(d: string, n: nat)
    requires IsNumeral(d, n)
    ensures d == Itoa(n)
  {
    hide Digit;
    var before, last := d[..|d| - 1], d[|d| - 1];
    assert d == before + [last];
    DigitIs(last);
    DivideByTen(NumberOf(before), last as int - '0' as int);
    if |d| > 1 {
      NumberIsPositive(before);
      NumeralIsItoa(before, n / 10);
    } else {
      assert before == "" && NumberOf("") == 0;
    }
  }

  function JoinKey(prefix: string, leaf: string): string {
    if prefix == "" then leaf else prefix + "_" + leaf
  }

  // ---------------------------------------------------------------------------
  // Leaves and their keys
  // ---------------------------------------------------------------------------

  /** Where a leaf is: the field names and indices on the way to it. */
  type Position = seq<string>

  ghost predicate IsLeaf(node: Json, pos: Position, v: Scalar)
    decreases |pos|
  {
    match node
    case Leaf(w) => pos == [] && w == v
    case Object(fields) => pos != [] && pos[0] in fields && IsLeaf(fields[pos[0]], pos[1..], v)
    case Array(items) => pos != [] && exists i :: 0 <= i < |items| && pos[0] == Itoa(i) && IsLeaf(items[i], pos[1..], v)
  }

  function KeyOf(prefix: string, pos: Position): string
    decreases |pos|
  {
    if pos == [] then prefix else KeyOf(JoinKey(prefix, pos[0]), pos[1..])
  }

  /** Some leaf with value `v` has the key `k`. */
  ghost predicate Has(prefix: string, node: Json, k: string, v: Scalar) {
    k != "" && exists pos :: IsLeaf(node, pos, v) && KeyOf(prefix, pos) == k
  }

  /** `out` is `was` with the leaves written into it: at every key of a leaf the value
      of one such leaf, everything else as it was. */
  ghost predicate Written(prefix: string, node: Json, was: map<string, Scalar>, out: map<string, Scalar>) {
    forall k {:trigger k in out} ::
      if exists v :: Has(prefix, node, k, v) then k in out && Has(prefix, node, k, out[k])
      else (k in out <==> k in was) && (k in was ==> out[k] == was[k])
  }

  ghost predicate IsChild(node: Json, key: string, child: Json) {
    match node
    case Leaf(_) => false
    case Object(fields) => key in fields && fields[key] == child
    case Array(items) => exists i :: 0 <= i < |items| && key == Itoa(i) && items[i] == child
  }

  /** The keys of a node are those of its children. */
  lemma HasIffChildHas(prefix: string, node: Json, k: string, v: Scalar)
    requires !node.Leaf?
    ensures Has(prefix, node, k, v) <==> exists key, child :: IsChild(node, key, child) && Has(JoinKey(prefix, key), child, k, v)
  {
    if Has(prefix, node, k, v) {
      var pos :| IsLeaf(node, pos, v) && KeyOf(prefix, pos) == k;
      var child;
      if node.Object? {
        child := node.fields[pos[0]];
      } else {
        var i :| 0 <= i < |node.items| && pos[0] == Itoa(i) && IsLeaf(node.items[i], pos[1..], v);
        child := node.items[i];
      }
      assert IsLeaf(child, pos[1..], v) && KeyOf(JoinKey(prefix, pos[0]), pos[1..]) == k;
      assert IsChild(node, pos[0], child) && Has(JoinKey(prefix, pos[0]), child, k, v);
    }
    if key, child :| IsChild(node, key, child) && Has(JoinKey(prefix, key), child, k, v) {
      var pos :| IsLeaf(child, pos, v) && KeyOf(JoinKey(prefix, key), pos) == k;
      var whole := [key] + pos;
      assert whole[1..] == pos && whole[0] == key;
      if node.Array? {
        var i :| 0 <= i < |node.items| && key == Itoa(i) && node.items[i] == child;
        assert whole[0] == Itoa(i) && IsLeaf(node.items[i], whole[1..], v);
      }
      assert IsLeaf(node, whole, v) && KeyOf(prefix, whole) == k;
    }
  }

  /** The same, of the children visited so far. */
  ghost predicate WrittenFrom(prefix: string, node: Json, keys: set<string>, was: map<string, Scalar>, out: map<string, Scalar>) {
    forall k {:trigger k in out} ::
      if exists key, child, v :: key in keys && IsChild(node, key, child) && Has(JoinKey(prefix, key), child, k, v)
      then k in out && exists key, child :: key in keys && IsChild(node, key, child) && Has(JoinKey(prefix, key), child, k, out[k])
      else (k in out <==> k in was) && (k in was ==> out[k] == was[k])
  }

  lemma WrittenOneMore(prefix: string, node: Json, keys: set<string>, key: string, child: Json,
                       was: map<string, Scalar>, mid: map<string, Scalar>, out: map<string, Scalar>)
    requires WrittenFrom(prefix, node, keys, was, mid) && IsChild(node, key, child)
    requires forall other :: IsChild(node, key, other) ==> other == child
    requires Written(JoinKey(prefix, key), child, mid, out)
    ensures WrittenFrom(prefix, node, keys + {key}, was, out)
  {
    hide Has, IsChild, JoinKey;
    forall k
      ensures if exists q, c, v :: q in keys + {key} && IsChild(node, q, c) && Has(JoinKey(prefix, q), c, k, v)
              then k in out && exists q, c :: q in keys + {key} && IsChild(node, q, c) && Has(JoinKey(prefix, q), c, k, out[k])
              else (k in out <==> k in was) && (k in was ==> out[k] == was[k])
    {
      assert k in mid || k !in mid;
      assert k in out || k !in out;
    }
  }

  lemma AllWritten(prefix: string, node: Json, keys: set<string>, was: map<string, Scalar>, out: map<string, Scalar>)
    requires !node.Leaf? && WrittenFrom(prefix, node, keys, was, out) && forall key, child :: IsChild(node, key, child) ==> key in keys
    ensures Written(prefix, node, was, out)
  {
    hide Has, IsChild, JoinKey;
    forall k
      ensures if exists v :: Has(prefix, node, k, v) then k in out && Has(prefix, node, k, out[k])
              else (k in out <==> k in was) && (k in was ==> out[k] == was[k])
    {
      forall v { HasIffChildHas(prefix, node, k, v); }
    }
  }

  lemma NothingWritten(prefix: string, node: Json, was: map<string, Scalar>)
    ensures WrittenFrom(prefix, node, {}, was, was)
  {
  }

  lemma SameIndex(items: seq<Json>, i: nat, other: Json)
    requires i < |items| && IsChild(Array(items), Itoa(i), other)
    ensures other == items[i]
  {
    var j :| 0 <= j < |items| && Itoa(i) == Itoa(j) && items[j] == other;
    ItoaIsInjective(i, j);
  }

  lemma LeafHas(prefix: string, w: Scalar, k: string, v: Scalar)
    ensures Has(prefix, Leaf(w), k, v) <==> k != "" && k == prefix && v == w
  {
    if k != "" && k == prefix && v == w { assert IsLeaf(Leaf(w), [], v) && KeyOf(prefix, []) == k; }
  }

  lemma LeafWritten(prefix: string, v: Scalar, was: map<string, Scalar>)
    ensures Written(prefix, Leaf(v), was, if prefix == "" then was else was[prefix := v])
  {
    var out := if prefix == "" then was else was[prefix := v];
    forall k
      ensures if exists w :: Has(prefix, Leaf(v), k, w) then k in out && Has(prefix, Leaf(v), k, out[k])
              else (k in out <==> k in was) && (k in was ==> out[k] == was[k])
    {
      LeafHas(prefix, v, k, v);
      if w :| Has(prefix, Leaf(v), k, w) { LeafHas(prefix, v, k, w); }
    }
  }

  /** The map every call writes into. */
  class Sink {
    var out: map<string, Scalar>

    constructor ()
      ensures out == map[]
    {
      out := map[];
    }
  }

  // ---------------------------------------------------------------------------
  // Visits
  // ---------------------------------------------------------------------------

  type Kids = seq<(string, Json)>

  ghost predicate KidsOf(node: Json, kids: Kids) {
    && (forall i | 0 <= i < |kids| :: IsChild(node, kids[i].0, kids[i].1))
    && forall i, j | 0 <= i < j < |kids| :: kids[i].0 != kids[j].0
  }

  /** All children in an order they may be visited in: fields in any, items in theirs. */
  ghost predicate InOrder(node: Json, kids: Kids) {
    && KidsOf(node, kids)
    && (forall key, child :: IsChild(node, key, child) ==> (key, child) in kids)
    && (node.Array? ==> forall i | 0 <= i < |kids| :: kids[i].0 == Itoa(i))
  }

  /** Some visit of `node` makes `out` of `was`. */
  ghost predicate Visited(prefix: string, node: Json, was: map<string, Scalar>, out: map<string, Scalar>)
    decreases node, 1, 0
  {
    if node.Leaf? then out == if prefix == "" then was else was[prefix := node.value]
    else exists kids :: InOrder(node, kids) && VisitedKids(prefix, node, kids, was, out)
  }

  ghost predicate VisitedKids(prefix: string, node: Json, kids: Kids, was: map<string, Scalar>, out: map<string, Scalar>)
    requires KidsOf(node, kids)
    decreases node, 0, |kids|
  {
    if kids == [] then out == was
    else
      var last, before := kids[|kids| - 1], kids[..|kids| - 1];
      exists mid :: VisitedKids(prefix, node, before, was, mid) && Visited(JoinKey(prefix, last.0), last.1, mid, out)
  }

  ghost function KeysOf(kids: Kids): set<string> {
    set i | 0 <= i < |kids| :: kids[i].0
  }

  lemma OnlyChild(node: Json, key: string, child: Json, other: Json)
    requires IsChild(node, key, child) && IsChild(node, key, other)
    ensures child == other
  {
    if node.Array? {
      var i :| 0 <= i < |node.items| && key == Itoa(i) && node.items[i] == child;
      SameIndex(node.items, i, other);
    }
  }

  lemma OneMoreKid(prefix: string, node: Json, kids: Kids, key: string, child: Json,
                   was: map<string, Scalar>, mid: map<string, Scalar>, out: map<string, Scalar>)
    requires KidsOf(node, kids) && VisitedKids(prefix, node, kids, was, mid)
    requires IsChild(node, key, child) && key !in KeysOf(kids) && Visited(JoinKey(prefix, key), child, mid, out)
    ensures KidsOf(node, kids + [(key, child)]) && VisitedKids(prefix, node, kids + [(key, child)], was, out)
    ensures KeysOf(kids + [(key, child)]) == KeysOf(kids) + {key}
  {
    hide Visited, IsChild;
    var more := kids + [(key, child)];
    KeysOfLast(more);
    assert more[..|more| - 1] == kids && more[|kids|] == (key, child);
    KidsWithOneMore(node, kids, key, child);
    hide KidsOf, KeysOf;
  }

  lemma KidsWithOneMore(node: Json, kids: Kids, key: string, child: Json)
    requires KidsOf(node, kids) && IsChild(node, key, child) && key !in KeysOf(kids)
    ensures KidsOf(node, kids + [(key, child)])
  {
    hide IsChild;
    forall i | 0 <= i < |kids| ensures kids[i].0 in KeysOf(kids) {}
  }

  lemma NoKids(prefix: string, node: Json, was: map<string, Scalar>)
    ensures KidsOf(node, []) && KeysOf([]) == {} && VisitedKids(prefix, node, [], was, was)
  {
  }

  lemma AllVisited(prefix: string, node: Json, kids: Kids, was: map<string, Scalar>, out: map<string, Scalar>)
    requires InOrder(node, kids) && VisitedKids(prefix, node, kids, was, out) && !node.Leaf?
    ensures Visited(prefix, node, was, out)
  {
  }

  /** Whatever the order, every key of a leaf gets the value of such a leaf. */
  lemma {:induction false} VisitedIsWritten(prefix: string, node: Json, was: map<string, Scalar>, out: map<string, Scalar>)
    requires Visited(prefix, node, was, out)
    ensures Written(prefix, node, was, out)
    decreases node, 1, 0
  {
    hide Written, WrittenFrom, Has;
    if node.Leaf? {
      LeafWritten(prefix, node.value, was);
    } else {
      var kids :| InOrder(node, kids) && VisitedKids(prefix, node, kids, was, out);
      VisitedKidsAreWritten(prefix, node, kids, was, out);
      forall key, child | IsChild(node, key, child) ensures key in KeysOf(kids) {
        assert (key, child) in kids;
        var i :| 0 <= i < |kids| && kids[i] == (key, child);
      }
      hide IsChild;
      AllWritten(prefix, node, KeysOf(kids), was, out);
    }
  }

  lemma {:induction false} VisitedKidsAreWritten(prefix: string, node: Json, kids: Kids, was: map<string, Scalar>, out: map<string, Scalar>)
    requires KidsOf(node, kids) && VisitedKids(prefix, node, kids, was, out)
    ensures WrittenFrom(prefix, node, KeysOf(kids), was, out)
    decreases node, 0, |kids|
  {
    hide Written, WrittenFrom, Has;
    if kids == [] {
      assert KeysOf(kids) == {};
      NothingWritten(prefix, node, was);
    } else {
      var last, before := kids[|kids| - 1], kids[..|kids| - 1];
      var mid :| VisitedKids(prefix, node, before, was, mid) && Visited(JoinKey(prefix, last.0), last.1, mid, out);
      VisitedKidsAreWritten(prefix, node, before, was, mid);
      assert IsChild(node, last.0, last.1);
      VisitedIsWritten(JoinKey(prefix, last.0), last.1, mid, out);
      forall other | IsChild(node, last.0, other) ensures other == last.1 { OnlyChild(node, last.0, last.1, other); }
      WrittenOneMore(prefix, node, KeysOf(before), last.0, last.1, was, mid, out);
      assert KeysOf(kids) == KeysOf(before) + {last.0} by { KeysOfLast(kids); }
    }
  }

  lemma KeysOfLast(kids: Kids)
    requires kids != []
    ensures KeysOf(kids) == KeysOf(kids[..|kids| - 1]) + {kids[|kids| - 1].0}
  {
    var before := kids[..|kids| - 1];
    forall k | k in KeysOf(before) ensures k in KeysOf(kids) { var i :| 0 <= i < |before| && before[i].0 == k; assert kids[i].0 == k; }
    forall k | k in KeysOf(kids) ensures k in KeysOf(before) + {kids[|kids| - 1].0} {
      var i :| 0 <= i < |kids| && kids[i].0 == k;
      if i < |before| { assert before[i].0 == k; }
    }
  }

  lemma FieldsInOrder(node: Json, kids: Kids)
    requires node.Object? && KidsOf(node, kids) && KeysOf(kids) == node.fields.Keys
    ensures InOrder(node, kids)
  {
    forall key, child | IsChild(node, key, child) ensures (key, child) in kids {
      var i :| 0 <= i < |kids| && kids[i].0 == key;
      assert IsChild(node, kids[i].0, kids[i].1);
      OnlyChild(node, key, child, kids[i].1);
      assert kids[i] == (key, child);
    }
  }

  lemma ItemsInOrder(node: Json, kids: Kids)
    requires node.Array? && KidsOf(node, kids) && |kids| == |node.items|
    requires forall i | 0 <= i < |kids| :: kids[i] == (Itoa(i), node.items[i])
    ensures InOrder(node, kids)
  {
    forall key, child | IsChild(node, key, child) ensures (key, child) in kids {
      var i :| 0 <= i < |node.items| && key == Itoa(i) && node.items[i] == child;
      assert kids[i] == (key, child);
    }
  }

  lemma NewItem(node: Json, kids: Kids)
    requires node.Array? && |kids| < |node.items| && forall i | 0 <= i < |kids| :: kids[i].0 == Itoa(i)
    ensures IsChild(node, Itoa(|kids|), node.items[|kids|]) && Itoa(|kids|) !in KeysOf(kids)
  {
    if Itoa(|kids|) in KeysOf(kids) {
      var i :| 0 <= i < |kids| && kids[i].0 == Itoa(|kids|);
      ItoaIsInjective(i, |kids|);
    }
  }

  method FlattenFields(prefix: string, node: Json, sink: Sink)
    requires node.Object?
    modifies sink
    ensures Visited(prefix, node, old(sink.out), sink.out)
    decreases node, 0
  {
    hide Visited, VisitedKids, KidsOf, KeysOf, InOrder;
    ghost var was := sink.out;
    ghost var kids: Kids := [];
    NoKids(prefix, node, was);
    var todo := node.fields.Keys;
    while todo != {}
      invariant todo + KeysOf(kids) == node.fields.Keys && todo !! KeysOf(kids)
      invariant KidsOf(node, kids) && VisitedKids(prefix, node, kids, was, sink.out)
      decreases |todo|
    {
      var k :| k in todo;
      ghost var mid := sink.out;
      FlattenInto(JoinKey(prefix, k), node.fields[k], sink);
      OneMoreKid(prefix, node, kids, k, node.fields[k], was, mid, sink.out);
      todo := todo - {k};
      kids := kids + [(k, node.fields[k])];
    }
    FieldsInOrder(node, kids);
    AllVisited(prefix, node, kids, was, sink.out);
  }

  method FlattenItems(prefix: string, node: Json, sink: Sink)
    requires node.Array?
    modifies sink
    ensures Visited(prefix, node, old(sink.out), sink.out)
    decreases node, 0
  {
    hide Visited, VisitedKids, KidsOf, KeysOf, InOrder, Itoa, IsChild;
    ghost var was := sink.out;
    ghost var kids: Kids := [];
    NoKids(prefix, node, was);
    var i := 0;
    while i < |node.items|
      invariant i == |kids| <= |node.items| && forall j | 0 <= j < i :: kids[j] == (Itoa(j), node.items[j])
      invariant KidsOf(node, kids) && VisitedKids(prefix, node, kids, was, sink.out)
    {
      ghost var mid := sink.out;
      FlattenInto(JoinKey(prefix, Itoa(i)), node.items[i], sink);
      NewItem(node, kids);
      OneMoreKid(prefix, node, kids, Itoa(i), node.items[i], was, mid, sink.out);
      kids := kids + [(Itoa(i), node.items[i])];
      i := i + 1;
    }
    ItemsInOrder(node, kids);
    AllVisited(prefix, node, kids, was, sink.out);
  }

  method FlattenInto(prefix: string, node: Json, sink: Sink)
    modifies sink
    ensures Visited(prefix, node, old(sink.out), sink.out)
    decreases node
  {
    match node
    case Object(fields) =>
      FlattenFields(prefix, node, sink);
    case Array(items) =>
      FlattenItems(prefix, node, sink);
    case Leaf(v) =>
      if prefix == "" {
        return;
      }
      sink.out := sink.out[prefix := v];
  }

  // ---------------------------------------------------------------------------
  // Distinct keys: nothing is lost, and the order of visiting does not matter
  // ---------------------------------------------------------------------------

  /** No two leaves share a key, and none has the empty one. */
  ghost predicate DistinctKeys(node: Json) {
    && (forall p, v :: IsLeaf(node, p, v) ==> KeyOf("", p) != "")
    && forall p, v, q, w :: IsLeaf(node, p, v) && IsLeaf(node, q, w) && KeyOf("", p) == KeyOf("", q) ==> p == q
  }

  lemma {:induction false} OneLeafAPosition(node: Json, pos: Position, v: Scalar, w: Scalar)
    requires IsLeaf(node, pos, v) && IsLeaf(node, pos, w)
    ensures v == w
    decreases |pos|
  {
    match node
    case Leaf(_) =>
    case Object(fields) => OneLeafAPosition(fields[pos[0]], pos[1..], v, w);
    case Array(items) =>
      var i :| 0 <= i < |items| && pos[0] == Itoa(i) && IsLeaf(items[i], pos[1..], v);
      var j :| 0 <= j < |items| && pos[0] == Itoa(j) && IsLeaf(items[j], pos[1..], w);
      ItoaIsInjective(i, j);
      OneLeafAPosition(items[i], pos[1..], v, w);
  }

  /** With distinct keys the result has exactly one key for every leaf, with its value. */
  lemma FlatIsExact(node: Json, out: map<string, Scalar>)
    requires DistinctKeys(node) && Written("", node, map[], out)
    ensures forall p, v :: IsLeaf(node, p, v) ==> KeyOf("", p) in out && out[KeyOf("", p)] == v
    ensures forall k :: k in out ==> Has("", node, k, out[k])
  {
    forall p, v | IsLeaf(node, p, v) ensures KeyOf("", p) in out && out[KeyOf("", p)] == v {
      var k := KeyOf("", p);
      assert Has("", node, k, v);
      assert k in out && Has("", node, k, out[k]);
      var q :| IsLeaf(node, q, out[k]) && KeyOf("", q) == k;
      OneLeafAPosition(node, p, v, out[k]);
    }
    forall k | k in out ensures Has("", node, k, out[k]) {}
  }

  /** So any two visits, in whatever order, give the same map. */
  lemma OrderDoesNotMatter(node: Json, one: map<string, Scalar>, other: map<string, Scalar>)
    requires DistinctKeys(node) && Visited("", node, map[], one) && Visited("", node, map[], other)
    ensures one == other
  {
    hide Written, Visited, DistinctKeys, IsLeaf, KeyOf;
    VisitedIsWritten("", node, map[], one);
    VisitedIsWritten("", node, map[], other);
    FlatIsExact(node, one);
    FlatIsExact(node, other);
    forall k | k in one ensures k in other && other[k] == one[k] {
      assert Has("", node, k, one[k]);
    }
    forall k | k in other ensures k in one {
      assert Has("", node, k, other[k]);
    }
  }

  lemma KeyOfTwo(a: string, b: string)
    requires a != ""
    ensures KeyOf("", [a, b]) == a + "_" + b
  {
    assert [a, b][1..] == [b] && [b][1..] == [];
    assert KeyOf("", [a, b]) == KeyOf(a, [b]) && KeyOf(a, [b]) == KeyOf(a + "_" + b, []);
  }

  lemma KeyOfThree(a: string, b: string, c: string)
    requires a != ""
    ensures KeyOf("", [a, b, c]) == a + "_" + b + "_" + c
  {
    assert [a, b, c][1..] == [b, c] && [b, c][1..] == [c] && [c][1..] == [];
    var ab := a + "_" + b;
    assert KeyOf("", [a, b, c]) == KeyOf(a, [b, c]) && KeyOf(a, [b, c]) == KeyOf(ab, [c]);
    assert KeyOf(ab, [c]) == KeyOf(ab + "_" + c, []);
  }
}
