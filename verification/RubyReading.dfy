/**
 The reading pattern of the matcher: the regular expression `rubyReading`, clause by
 clause, and the one end it can match up to.
 */
module RubyReading {
  import opened Options
  import opened RubyScanner
  import opened RubyMatches

  /** `[^《》\r\n]` */
  predicate Plain(c: char) {
    c != OPEN && InBrackets(c)
  }

  /** `[^》\r\n]` */
  predicate InBrackets(c: char) {
    c != CLOSE && c != '\r' && c != '\n'
  }

  predicate PlainRun(s: string, i: nat, j: nat) {
    i <= j <= |s| && forall k | i <= k < j :: Plain(s[k])
  }

  /** `《[^》\r\n]*》` */
  predicate Pair(s: string, i: nat, j: nat) {
    && i + 2 <= j <= |s| && s[i] == OPEN && s[j - 1] == CLOSE
    && forall k | i < k < j - 1 :: InBrackets(s[k])
  }

  /** `(?:《[^》\r\n]*》[^《》\r\n]*)*` */
  ghost predicate PairsThenPlain(s: string, i: nat, j: nat)
    decreases |s| - i
  {
    || i == j
    || exists k: nat, l: nat :: i < k <= l <= j <= |s| && Pair(s, i, k) && PlainRun(s, k, l) && PairsThenPlain(s, l, j)
  }

  /** `(?:[^《》\r\n]+《[^》\r\n]*》)*` */
  ghost predicate PlainThenPairs(s: string, i: nat, j: nat)
    decreases |s| - i
  {
    || i == j
    || exists k: nat, l: nat :: i < k < l <= j <= |s| && PlainRun(s, i, k) && Pair(s, k, l) && PlainThenPairs(s, l, j)
  }

  /** The first alternative, which starts with plain text. */
  ghost predicate StartsPlain(s: string, i: nat, j: nat) {
    exists k: nat :: i < k && PlainRun(s, i, k) && PairsThenPlain(s, k, j)
  }

  /** The second alternative, which starts with a bracketed pair. */
  ghost predicate StartsPaired(s: string, i: nat, j: nat) {
    exists k: nat, l: nat :: Pair(s, i, k) && PlainThenPairs(s, k, l) && PlainRun(s, l, j)
  }

  /** The whole pattern, anchored at `i`, matches up to `j`. */
  ghost predicate Spelled(s: string, i: nat, j: nat) {
    i < j <= |s| && (StartsPlain(s, i, j - 1) || StartsPaired(s, i, j - 1)) && s[j - 1] == CLOSE
  }

  // ---------------------------------------------------------------------------
  // The end of a match
  // ---------------------------------------------------------------------------

  function PlainEnd(s: string, i: nat): (j: nat)
    requires i <= |s|
    ensures PlainRun(s, i, j) && (j < |s| ==> !Plain(s[j]))
    decreases |s| - i
  {
    if i < |s| && Plain(s[i]) then PlainEnd(s, i + 1) else i
  }

  function BracketEnd(s: string, i: nat): (j: nat)
    requires i <= |s|
    ensures i <= j <= |s| && (forall k | i <= k < j :: InBrackets(s[k])) && (j < |s| ==> !InBrackets(s[j]))
    decreases |s| - i
  {
    if i < |s| && InBrackets(s[i]) then BracketEnd(s, i + 1) else i
  }

  /** The end of the pair that starts at `i`. */
  function PairEnd(s: string, i: nat): (r: Option<nat>)
    requires i <= |s|
    ensures r.Some? <==> exists j: nat :: Pair(s, i, j)
    ensures r.Some? ==> Pair(s, i, r.value)
  {
    if i < |s| && s[i] == OPEN then
      var j := BracketEnd(s, i + 1);
      if j < |s| && s[j] == CLOSE then
        assert Pair(s, i, j + 1);
        Some(j + 1)
      else None
    else None
  }

  lemma PairIsUnique(s: string, i: nat, j: nat, k: nat)
    requires Pair(s, i, j) && Pair(s, i, k)
    ensures j == k
  {
  }

  /** The rest of the match once inside the first alternative, or (`strict`) the
      second, where two pairs never touch. */
  function Tail(s: string, i: nat, strict: bool): (r: Option<nat>)
    requires i <= |s|
    ensures r.Some? ==> i < r.value <= |s| && s[r.value - 1] == CLOSE
    decreases |s| - i
  {
    var j := PlainEnd(s, i);
    if j < |s| && s[j] == CLOSE then Some(j + 1)
    else if strict && j == i then None
    else
      match PairEnd(s, j)
      case None => None
      case Some(k) => Tail(s, k, strict)
  }

  /** Where the pattern, anchored at `p`, ends its match. */
  function PluginReading(s: string, p: nat): (r: Option<nat>)
    ensures r.Some? ==> p < r.value <= |s| && s[r.value - 1] == CLOSE
  {
    if p >= |s| then None
    else if Plain(s[p]) then Tail(s, p, false)
    else
      match PairEnd(s, p)
      case None => None
      case Some(k) => Tail(s, k, true)
  }

  lemma PlainEndIsUnique(s: string, i: nat, j: nat)
    requires PlainRun(s, i, j) && j < |s| && !Plain(s[j])
    ensures PlainEnd(s, i) == j
  {
  }

  ghost predicate LooseTail(s: string, i: nat, j: nat) {
    i < j <= |s| && s[j - 1] == CLOSE && exists l: nat :: PlainRun(s, i, l) && PairsThenPlain(s, l, j - 1)
  }

  ghost predicate StrictTail(s: string, i: nat, j: nat) {
    i < j <= |s| && s[j - 1] == CLOSE && exists l: nat :: PlainThenPairs(s, i, l) && PlainRun(s, l, j - 1)
  }

  lemma {:induction false} TailIsLoose(s: string, i: nat, j: nat)
    requires i <= |s| && Tail(s, i, false) == Some(j)
    ensures LooseTail(s, i, j)
    decreases |s| - i
  {
    var e := PlainEnd(s, i);
    if s[e] != CLOSE {
      var k := PairEnd(s, e).value;
      TailIsLoose(s, k, j);
      var l: nat :| PlainRun(s, k, l) && PairsThenPlain(s, l, j - 1);
      assert Pair(s, e, k) && PairsThenPlain(s, e, j - 1);
    }
    assert PlainRun(s, i, e) && PairsThenPlain(s, e, j - 1);
  }

  lemma {:induction false} LooseIsTail(s: string, i: nat, l: nat, j: nat)
    requires i < j <= |s| && s[j - 1] == CLOSE && PlainRun(s, i, l) && PairsThenPlain(s, l, j - 1)
    ensures Tail(s, i, false) == Some(j)
    decreases |s| - i
  {
    PlainEndIsUnique(s, i, l);
    if l != j - 1 {
      var k: nat, m: nat :| l < k <= m <= j - 1 <= |s| && Pair(s, l, k) && PlainRun(s, k, m) && PairsThenPlain(s, m, j - 1);
      PairIsUnique(s, l, k, PairEnd(s, l).value);
      LooseIsTail(s, k, m, j);
    }
  }

  lemma {:induction false} TailIsStrict(s: string, i: nat, j: nat)
    requires i <= |s| && Tail(s, i, true) == Some(j)
    ensures StrictTail(s, i, j)
    decreases |s| - i
  {
    var e := PlainEnd(s, i);
    if s[e] == CLOSE {
      assert PlainThenPairs(s, i, i) && PlainRun(s, i, j - 1);
    } else {
      var k := PairEnd(s, e).value;
      TailIsStrict(s, k, j);
      var l: nat :| PlainThenPairs(s, k, l) && PlainRun(s, l, j - 1);
      assert PlainRun(s, i, e) && Pair(s, e, k) && PlainThenPairs(s, i, l) by { PlainThenPairsGrows(s, k, l); }
    }
  }

  lemma PlainThenPairsGrows(s: string, i: nat, j: nat)
    requires PlainThenPairs(s, i, j)
    ensures i <= j
  {
  }

  lemma {:induction false} StrictIsTail(s: string, i: nat, l: nat, j: nat)
    requires i < j <= |s| && s[j - 1] == CLOSE && PlainThenPairs(s, i, l) && PlainRun(s, l, j - 1)
    ensures Tail(s, i, true) == Some(j)
    decreases |s| - i
  {
    if l == i {
      PlainEndIsUnique(s, i, j - 1);
    } else {
      var k: nat, m: nat :| i < k < m <= l <= |s| && PlainRun(s, i, k) && Pair(s, k, m) && PlainThenPairs(s, m, l);
      PlainEndIsUnique(s, i, k);
      PairIsUnique(s, k, m, PairEnd(s, k).value);
      StrictIsTail(s, m, l, j);
    }
  }

  lemma ReadingSpelled(s: string, p: nat, q: nat)
    requires PluginReading(s, p) == Some(q)
    ensures Spelled(s, p, q)
  {
    if Plain(s[p]) {
      TailIsLoose(s, p, q);
      var l: nat :| PlainRun(s, p, l) && PairsThenPlain(s, l, q - 1);
      assert l != p;
      assert StartsPlain(s, p, q - 1);
    } else {
      var k := PairEnd(s, p).value;
      TailIsStrict(s, k, q);
      var l: nat :| PlainThenPairs(s, k, l) && PlainRun(s, l, q - 1);
      assert StartsPaired(s, p, q - 1);
    }
  }

  lemma SpelledIsRead(s: string, p: nat, q: nat)
    requires Spelled(s, p, q)
    ensures PluginReading(s, p) == Some(q)
  {
    if StartsPlain(s, p, q - 1) {
      var k: nat :| p < k && PlainRun(s, p, k) && PairsThenPlain(s, k, q - 1);
      LooseIsTail(s, p, k, q);
    } else {
      var k: nat, l: nat :| Pair(s, p, k) && PlainThenPairs(s, k, l) && PlainRun(s, l, q - 1);
      PlainThenPairsGrows(s, k, l);
      PairIsUnique(s, p, k, PairEnd(s, p).value);
      StrictIsTail(s, k, l, q);
    }
  }

  /** The pattern matches from `p` up to `q` exactly when `q` is the end the scan
      computes, so at most one end exists and the order in which a regular-expression
      engine tries them cannot matter. */
  lemma ReadingIsThePattern(s: string, p: nat, q: nat)
    ensures PluginReading(s, p) == Some(q) <==> Spelled(s, p, q)
  {
    if PluginReading(s, p) == Some(q) { ReadingSpelled(s, p, q); }
    if Spelled(s, p, q) { SpelledIsRead(s, p, q); }
  }

  lemma PluginReadingIsReading()
    ensures IsReading(PluginReading)
  {
  }

  lemma DoubledIsOnePair(base: string, inner: string, s: string, b: nat)
    requires base != "" && (forall c :: c in base ==> c != OPEN && !IsBar(c))
    requires forall c :: c in inner ==> InBrackets(c)
    requires s == [WIDE_BAR] + base + [OPEN, OPEN] + inner + [CLOSE, CLOSE] && b == 1 + |base|
    ensures s[0] == WIDE_BAR && s[b] == OPEN && b < |s| && Spelled(s, b + 1, |s|) && BaseText(s, 1, b)
  {
    assert s[b] == OPEN && s[b + 1] == OPEN && s[|s| - 2] == CLOSE && s[|s| - 1] == CLOSE;
    assert Pair(s, b + 1, |s| - 1) by {
      forall k | b + 1 < k < |s| - 2 ensures InBrackets(s[k]) {
        assert s[k] == inner[k - b - 2] && inner[k - b - 2] in inner;
      }
    }
    assert PlainThenPairs(s, |s| - 1, |s| - 1) && PlainRun(s, |s| - 1, |s| - 1);
    assert StartsPaired(s, b + 1, |s| - 1);
    forall k | 1 <= k < b ensures s[k] == base[k - 1] && s[k] in base {}
  }

  /** Why readings go first: behind a bar and a base, doubled brackets are one reading
      in brackets, not emphasis. */
  lemma DoubledBracketsAfterBase(base: string, inner: string)
    requires base != "" && (forall c :: c in base ==> c != OPEN && !IsBar(c))
    requires forall c :: c in inner ==> InBrackets(c)
    ensures IsReading(PluginReading)
    ensures var s, b := [WIDE_BAR] + base + [OPEN, OPEN] + inner + [CLOSE, CLOSE], 1 + |base|;
      Rubies(PluginReading, s) == [Match(0, |s|, 1, b, b + 1, |s| - 1, false)]
  {
    PluginReadingIsReading();
    var s, b := [WIDE_BAR] + base + [OPEN, OPEN] + inner + [CLOSE, CLOSE], 1 + |base|;
    var m := Match(0, |s|, 1, b, b + 1, |s| - 1, false);
    DoubledIsOnePair(base, inner, s, b);
    hide PluginReading, Spelled;
    ReadingIsThePattern(s, b + 1, |s|);
    assert IsExplicit(PluginReading, s, m);
    RubyAtStart(PluginReading, s, m);
    assert Leftmost(PluginReading, s, 0) == [m];
    assert Woven(s, [m], 1, |s|) == [];
    assert LeftmostEmphasis(s, 0, 0) == [];
  }

  lemma KanaIsRead(word: string, kana: string, s: string, b: nat)
    requires kana != "" && forall i | 0 <= i < |kana| :: kana[i] !in {'\U{300A}', '\U{300B}', '\r', '\n'}
    requires s == word + ['\U{300A}'] + kana + ['\U{300B}'] && b == |word|
    ensures b < |s| && s[b] == OPEN && s[b + 1] != OPEN && Spelled(s, b + 1, |s|)
  {
    assert s[b] == OPEN && s[b + 1] == kana[0] && s[|s| - 1] == CLOSE;
    forall k | b + 1 <= k < |s| - 1 ensures Plain(s[k]) { assert s[k] == kana[k - b - 1]; }
    assert PlainRun(s, b + 1, |s| - 1);
    assert PairsThenPlain(s, |s| - 1, |s| - 1);
    assert StartsPlain(s, b + 1, |s| - 1);
  }

  /** A word of kanji with its kana in brackets is one match, without any bar. */
  lemma KanjiWithReading(word: string, kana: string)
    requires word != "" && forall i | 0 <= i < |word| :: '\U{4E00}' <= word[i] <= '\U{9FA0}'
    requires kana != "" && forall i | 0 <= i < |kana| :: kana[i] !in {'\U{300A}', '\U{300B}', '\r', '\n'}
    ensures IsReading(PluginReading)
    ensures var s, b := word + ['\U{300A}'] + kana + ['\U{300B}'], |word|;
      Rubies(PluginReading, s) == [Match(0, |s|, 0, b, b + 1, |s| - 1, false)]
  {
    PluginReadingIsReading();
    var s, b := word + ['\U{300A}'] + kana + ['\U{300B}'], |word|;
    var m := Match(0, |s|, 0, b, b + 1, |s| - 1, false);
    KanaIsRead(word, kana, s, b);
    hide PluginReading, Spelled;
    ReadingIsThePattern(s, b + 1, |s|);
    forall k | 0 <= k < b ensures IsKanji(s[k]) { assert s[k] == word[k]; }
    assert IsKanjiRuby(PluginReading, s, m);
    RubyAtStart(PluginReading, s, m);
    assert Leftmost(PluginReading, s, 0) == [m];
    assert Woven(s, [m], 1, |s|) == [];
    assert LeftmostEmphasis(s, 0, 0) == [];
  }
}
