/**
 `findRubies`: the reading pass over the whole line, then the emphasis pass over
 what it left; and what callers may rely on in the result.
 */
module RubyMatches {
  import opened Options
  import opened RubyScanner

  /** The readings from the `k`th on, each preceded by the emphasis found between it
      and `prev`. */
  ghost function Woven(s: string, readings: seq<Match>, k: nat, prev: nat): seq<Match>
    requires k <= |readings| && forall m :: m in readings ==> m.start <= |s|
    decreases |readings| - k
  {
    if k == |readings| then LeftmostEmphasis(s, prev, |s|)
    else
      LeftmostEmphasis(s, prev, readings[k].start) + [readings[k]] + Woven(s, readings, k + 1, readings[k].stop)
  }

  /** Sorted, disjoint, not empty, and within `from` and `to`. */
  predicate InOrder(ms: seq<Match>, from: nat, to: nat) {
    && from <= to
    && (forall m :: m in ms ==> from <= m.start < m.stop <= to)
    && forall i, j | 0 <= i < j < |ms| :: ms[i].stop <= ms[j].start
  }

  lemma InOrderJoin(a: seq<Match>, b: seq<Match>, from: nat, mid: nat, to: nat)
    requires InOrder(a, from, mid) && InOrder(b, mid, to)
    ensures InOrder(a + b, from, to)
  {
    var c := a + b;
    forall i, j | 0 <= i < j < |c| ensures c[i].stop <= c[j].start {
      assert c[i] in a || c[i] in b;
      assert j < |a| ==> c[i] == a[i] && c[j] == a[j];
      assert i >= |a| ==> c[i] == b[i - |a|] && c[j] == b[j - |a|];
      if i < |a| <= j { assert c[i] == a[i] && c[j] == b[j - |a|]; }
    }
  }

  lemma {:induction false} LeftmostInOrder(reading: Reading, s: string, from: nat)
    requires IsReading(reading) && from <= |s|
    ensures InOrder(Leftmost(reading, s, from), from, |s|)
    ensures forall m :: m in Leftmost(reading, s, from) ==> IsRuby(reading, s, m)
    decreases |s| - from
  {
    if from < |s| {
      match RubyAt(reading, s, from)
      case None =>
        LeftmostInOrder(reading, s, from + 1);
      case Some(m) =>
        RubyEnds(reading, s, m);
        LeftmostInOrder(reading, s, m.stop);
        InOrderJoin([m], Leftmost(reading, s, m.stop), from, m.stop, |s|);
    }
  }

  lemma {:induction false} EmphasisInOrder(s: string, from: nat, to: nat)
    requires from <= to <= |s|
    ensures InOrder(LeftmostEmphasis(s, from, to), from, to)
    ensures forall m :: m in LeftmostEmphasis(s, from, to) ==> IsEmphasis(s, to, m)
    decreases |s| - from
  {
    if from < to {
      match EmphasisAt(s, to, from)
      case None =>
        EmphasisInOrder(s, from + 1, to);
      case Some(m) =>
        EmphasisInOrder(s, m.stop, to);
        InOrderJoin([m], LeftmostEmphasis(s, m.stop, to), from, m.stop, to);
    }
  }

  lemma {:induction false} WovenInOrder(reading: Reading, s: string, readings: seq<Match>, k: nat, prev: nat)
    requires k <= |readings| && InOrder(readings, 0, |s|) && prev <= |s|
    requires forall j :: k <= j < |readings| ==> prev <= readings[j].start
    ensures InOrder(Woven(s, readings, k, prev), prev, |s|)
    ensures forall m :: m in Woven(s, readings, k, prev) ==> m in readings || IsEmphasis(s, |s|, m)
    ensures forall j :: k <= j < |readings| ==> readings[j] in Woven(s, readings, k, prev)
    decreases |readings| - k
  {
    if k == |readings| {
      EmphasisInOrder(s, prev, |s|);
    } else {
      var m := readings[k];
      assert m in readings;
      var gap, rest := LeftmostEmphasis(s, prev, m.start), Woven(s, readings, k + 1, m.stop);
      EmphasisInOrder(s, prev, m.start);
      WovenInOrder(reading, s, readings, k + 1, m.stop);
      InOrderJoin(gap, [m], prev, m.start, m.stop);
      InOrderJoin(gap + [m], rest, prev, m.stop, |s|);
    }
  }

  predicate Overlap(m: Match, n: Match) {
    m.start < n.stop && n.start < m.stop
  }

  /** No reading was missed for any reason but another one in its way. */
  lemma {:induction false} LeftmostIsMaximal(reading: Reading, s: string, from: nat, n: Match)
    requires IsReading(reading) && from <= n.start && IsRuby(reading, s, n)
    ensures exists m :: m in Leftmost(reading, s, from) && Overlap(m, n)
    decreases |s| - from
  {
    RubyEnds(reading, s, n);
    match RubyAt(reading, s, from)
    case None =>
      assert n.start != from;
      LeftmostIsMaximal(reading, s, from + 1, n);
    case Some(m) =>
      RubyEnds(reading, s, m);
      if n.start < m.stop {
        assert m in Leftmost(reading, s, from) && Overlap(m, n);
      } else {
        LeftmostIsMaximal(reading, s, m.stop, n);
      }
  }

  lemma {:induction false} EmphasisIsMaximal(s: string, from: nat, to: nat, n: Match)
    requires to <= |s| && from <= n.start && IsEmphasis(s, to, n)
    ensures exists m :: m in LeftmostEmphasis(s, from, to) && Overlap(m, n)
    decreases |s| - from
  {
    match EmphasisAt(s, to, from)
    case None =>
      assert n.start != from;
      EmphasisIsMaximal(s, from + 1, to, n);
    case Some(m) =>
      if n.start < m.stop {
        assert m in LeftmostEmphasis(s, from, to) && Overlap(m, n);
      } else {
        EmphasisIsMaximal(s, m.stop, to, n);
      }
  }

  lemma {:induction false} WovenIsMaximal(s: string, readings: seq<Match>, k: nat, prev: nat, n: Match)
    requires k <= |readings| && InOrder(readings, 0, |s|)
    requires prev <= n.start && IsEmphasis(s, |s|, n)
    ensures exists m :: m in Woven(s, readings, k, prev) && Overlap(m, n)
    decreases |readings| - k
  {
    if k == |readings| {
      EmphasisIsMaximal(s, prev, |s|, n);
    } else {
      var r := readings[k];
      assert r in readings;
      var gap, rest := LeftmostEmphasis(s, prev, r.start), Woven(s, readings, k + 1, r.stop);
      assert Woven(s, readings, k, prev) == gap + [r] + rest;
      if n.stop <= r.start {
        EmphasisIsMaximal(s, prev, r.start, n);
        var m :| m in gap && Overlap(m, n);
        assert m in Woven(s, readings, k, prev);
      } else if r.stop <= n.start {
        WovenIsMaximal(s, readings, k + 1, r.stop, n);
        var m :| m in rest && Overlap(m, n);
        assert m in Woven(s, readings, k, prev);
      } else {
        assert r in Woven(s, readings, k, prev) && Overlap(r, n);
      }
    }
  }

  ghost function Rubies(reading: Reading, s: string): seq<Match>
    requires IsReading(reading)
  {
    LeftmostInOrder(reading, s, 0);
    Woven(s, Leftmost(reading, s, 0), 0, 0)
  }

  /** What `findRubies` finds: sorted, disjoint matches within the line, all the
      readings of the first pass among them, the rest emphasis; and nothing that
      could still match is clear of all of them. */
  lemma RubiesAreRight(reading: Reading, s: string)
    requires IsReading(reading)
    ensures InOrder(Rubies(reading, s), 0, |s|)
    ensures forall m :: m in Rubies(reading, s) ==> m in Leftmost(reading, s, 0) || IsEmphasis(s, |s|, m)
    ensures forall m :: m in Leftmost(reading, s, 0) ==> m in Rubies(reading, s)
    ensures forall n :: IsRuby(reading, s, n) || IsEmphasis(s, |s|, n) ==>
              exists m :: m in Rubies(reading, s) && Overlap(m, n)
  {
    var readings := Leftmost(reading, s, 0);
    LeftmostInOrder(reading, s, 0);
    WovenInOrder(reading, s, readings, 0, 0);
    forall n | IsRuby(reading, s, n) || IsEmphasis(s, |s|, n)
      ensures exists m :: m in Rubies(reading, s) && Overlap(m, n)
    {
      if IsRuby(reading, s, n) {
        LeftmostIsMaximal(reading, s, 0, n);
        var m :| m in readings && Overlap(m, n);
        assert m in Rubies(reading, s);
      } else {
        WovenIsMaximal(s, readings, 0, 0, n);
      }
    }
  }

  method FindRubies(reading: Reading, s: string) returns (out: seq<Match>)
    requires IsReading(reading)
    ensures out == Rubies(reading, s)
  {
    out := [];
    var prev: nat := 0;
    var readings := FindReadings(reading, s);
    LeftmostInOrder(reading, s, 0);
    var k := 0;
    while k < |readings|
      invariant k <= |readings| && prev <= |s|
      invariant out + Woven(s, readings, k, prev) == Rubies(reading, s)
    {
      var m := readings[k];
      assert m in readings;
      var gap := FindEmphasis(s, prev, m.start);
      out := out + gap;
      out := out + [m];
      prev := m.stop;
      k := k + 1;
    }
    var gap := FindEmphasis(s, prev, |s|);
    out := out + gap;
  }
}
