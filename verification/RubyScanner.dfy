/**
 The ruby-notation matcher of `internal/format/ruby.go`: the one-pass scanner with
 its `opener` and `lastEnd` against a matcher that tries every start in turn.
 Text is a sequence of code points; the reading pattern is a parameter.
 */
module RubyScanner {
  import opened Options

  const OPEN := '\U{300A}'
  const CLOSE := '\U{300B}'
  const WIDE_BAR := '\U{FF5C}'
  const BAR := '|'

  /** Offsets into the text of one run. */
  datatype Match = Match(start: nat, stop: nat, baseStart: nat, baseStop: nat,
                         rubyStart: nat, rubyStop: nat, emphasis: bool)

  /** Where the reading that starts at an offset ends, its closing bracket included. */
  type Reading = (string, nat) -> Option<nat>

  ghost predicate IsReading(reading: Reading) {
    forall s: string, p: nat :: p <= |s| && reading(s, p).Some? ==>
      p < reading(s, p).value <= |s| && s[reading(s, p).value - 1] == CLOSE
  }

  predicate IsKanji(c: char) {
    '\U{4E00}' <= c <= '\U{9FA0}' || c in {'\U{3005}', '\U{4EDD}', '\U{3006}', '\U{3007}', '\U{30F6}'}
  }

  predicate IsBar(c: char) {
    c == BAR || c == WIDE_BAR
  }

  predicate IsJSSpace(c: char) {
    || c in {'\t', '\n', '\U{0B}', '\U{0C}', '\r', ' ', '\U{A0}', '\U{1680}'}
    || '\U{2000}' <= c <= '\U{200A}'
    || c in {'\U{2028}', '\U{2029}', '\U{202F}', '\U{205F}', '\U{3000}', '\U{FEFF}'}
  }

  /** The number of backslashes right before `i`. */
  function Backslashes(s: string, i: nat): nat
    requires i <= |s|
  {
    if i > 0 && s[i - 1] == '\\' then 1 + Backslashes(s, i - 1) else 0
  }

  /** A bar that opens an explicit base. */
  predicate ValidBar(s: string, i: nat)
    requires i < |s|
  {
    || s[i] == WIDE_BAR
    || (s[i] == BAR && Backslashes(s, i) % 2 == 0 && i + 1 < |s| && !IsJSSpace(s[i + 1]))
  }

  // ---------------------------------------------------------------------------
  // What a match is
  // ---------------------------------------------------------------------------

  /** What may stand in an explicit base. */
  predicate BaseText(s: string, from: nat, to: nat)
    requires to <= |s|
  {
    forall i | from <= i < to :: s[i] != OPEN && !IsBar(s[i])
  }

  predicate KanjiRun(s: string, from: nat, to: nat)
    requires to <= |s|
  {
    forall i | from <= i < to :: IsKanji(s[i])
  }

  ghost predicate HasReading(reading: Reading, s: string, m: Match) {
    && m.baseStop < |s| && s[m.baseStop] == OPEN && m.rubyStart == m.baseStop + 1
    && reading(s, m.rubyStart) == Some(m.stop) && m.stop == m.rubyStop + 1
    && !m.emphasis
  }

  ghost predicate IsExplicit(reading: Reading, s: string, m: Match) {
    && HasReading(reading, s, m)
    && m.baseStart == m.start + 1 < m.baseStop
    && ValidBar(s, m.start) && BaseText(s, m.baseStart, m.baseStop)
  }

  ghost predicate IsKanjiRuby(reading: Reading, s: string, m: Match) {
    && HasReading(reading, s, m)
    && m.baseStart == m.start < m.baseStop && KanjiRun(s, m.start, m.baseStop)
    && (m.rubyStart < |s| ==> s[m.rubyStart] != OPEN)
  }

  ghost predicate IsRuby(reading: Reading, s: string, m: Match) {
    IsExplicit(reading, s, m) || IsKanjiRuby(reading, s, m)
  }

  /** A match at `p`, if there is one. */
  ghost function RubyAt(reading: Reading, s: string, p: nat): Option<Match> {
    if m: Match :| IsRuby(reading, s, m) && m.start == p then Some(m) else None
  }

  /** Trying every start from `from` on, and going on behind each match found. */
  ghost function Leftmost(reading: Reading, s: string, from: nat): seq<Match>
    requires IsReading(reading)
    decreases |s| - from
  {
    if from >= |s| then []
    else
      match RubyAt(reading, s, from)
      case None => Leftmost(reading, s, from + 1)
      case Some(m) => RubyEnds(reading, s, m); [m] + Leftmost(reading, s, m.stop)
  }

  lemma RubyEnds(reading: Reading, s: string, m: Match)
    requires IsReading(reading) && IsRuby(reading, s, m)
    ensures m.start <= m.baseStart < m.baseStop < m.rubyStart <= m.rubyStop < m.stop <= |s|
    ensures s[m.rubyStop] == CLOSE
  {
  }

  /** A start has at most one match: its base runs up to the next opening bracket. */
  lemma RubyIsUnique(reading: Reading, s: string, m: Match, n: Match)
    requires IsRuby(reading, s, m) && IsRuby(reading, s, n) && m.start == n.start
    ensures m == n
  {
    assert IsKanji(s[m.start]) || IsBar(s[m.start]);
    assert IsExplicit(reading, s, m) <==> IsExplicit(reading, s, n);
  }

  /** Starts without a match are passed over. */
  lemma {:induction false} LeftmostSkips(reading: Reading, s: string, from: nat, to: nat)
    requires IsReading(reading) && from <= to <= |s|
    requires forall m :: IsRuby(reading, s, m) && from <= m.start ==> to <= m.start
    ensures Leftmost(reading, s, from) == Leftmost(reading, s, to)
    decreases |s| - from
  {
    if from < to {
      LeftmostSkips(reading, s, from + 1, to);
    }
  }

  // ---------------------------------------------------------------------------
  // The scanner
  // ---------------------------------------------------------------------------

  lemma RubyAtStart(reading: Reading, s: string, m: Match)
    requires IsRuby(reading, s, m)
    ensures RubyAt(reading, s, m.start) == Some(m)
  {
    var n := RubyAt(reading, s, m.start).value;
    RubyIsUnique(reading, s, m, n);
  }

  method CountBackslashes(s: string, i: nat) returns (n: nat)
    requires i <= |s|
    ensures n == Backslashes(s, i)
  {
    n := 0;
    var j: int := i - 1;
    while j >= 0 && s[j] == '\\'
      invariant -1 <= j < i && n + Backslashes(s, j + 1) == Backslashes(s, i)
    {
      n, j := n + 1, j - 1;
    }
  }

  /** The scanner's memory: the last bar since `lastEnd` that a base ending at `i`
      could start from. */
  ghost predicate OpenBar(s: string, lastEnd: nat, i: nat, opener: Option<nat>)
    requires i <= |s|
  {
    forall p :: lastEnd <= p < i && ValidBar(s, p) && BaseText(s, p + 1, i) <==> opener == Some(p)
  }

  /** Every match from `from` on is decided by an opening bracket at or after `i`. */
  ghost predicate AllOpenFrom(reading: Reading, s: string, from: nat, i: nat) {
    forall m :: IsRuby(reading, s, m) && from <= m.start ==> i <= m.baseStop
  }

  /** The match decided by the opening bracket at `open`, in the scanner's order of
      tests. */
  method MatchRuby(reading: Reading, s: string, open: nat, lastEnd: nat, opener: Option<nat>) returns (found: Option<Match>)
    requires IsReading(reading) && lastEnd <= open < |s| && s[open] == OPEN
    requires OpenBar(s, lastEnd, open, opener) && AllOpenFrom(reading, s, lastEnd, open)
    ensures found.Some? ==> IsRuby(reading, s, found.value) && lastEnd <= found.value.start
    ensures found.Some? ==> forall m :: IsRuby(reading, s, m) && lastEnd <= m.start ==> found.value.start <= m.start
    ensures found == None ==> AllOpenFrom(reading, s, lastEnd, open + 1)
  {
    var rubyStart := open + 1;
    var loc := reading(s, rubyStart);
    if loc == None { return None; }
    if opener.Some? {
      if opener.value + 1 == open { return None; }
      return Some(Match(opener.value, loc.value, opener.value + 1, open, rubyStart, loc.value - 1, false));
    }
    if rubyStart < |s| && s[rubyStart] == OPEN { return None; }
    var baseStart := open;
    while baseStart > lastEnd && IsKanji(s[baseStart - 1])
      invariant lastEnd <= baseStart <= open && KanjiRun(s, baseStart, open)
    {
      baseStart := baseStart - 1;
    }
    if baseStart == open { return None; }
    found := Some(Match(baseStart, loc.value, baseStart, open, rubyStart, loc.value - 1, false));
  }

  lemma NoneLeft(reading: Reading, s: string, from: nat)
    requires IsReading(reading) && from <= |s| && AllOpenFrom(reading, s, from, |s|)
    ensures Leftmost(reading, s, from) == []
  {
    forall m | IsRuby(reading, s, m) && from <= m.start ensures false {}
    LeftmostSkips(reading, s, from, |s|);
  }

  /** What one character does to the scanner's memory, short of a match. */
  function NextOpener(s: string, i: nat, opener: Option<nat>): Option<nat>
    requires i < |s|
  {
    if s[i] == OPEN then None
    else if !IsBar(s[i]) then opener
    else if ValidBar(s, i) then Some(i) else None
  }

  lemma OpenBarNext(s: string, lastEnd: nat, i: nat, opener: Option<nat>)
    requires lastEnd <= i < |s| && OpenBar(s, lastEnd, i, opener)
    ensures OpenBar(s, lastEnd, i + 1, NextOpener(s, i, opener))
  {
    hide Backslashes, IsJSSpace;
    forall p | lastEnd <= p < i + 1
      ensures ValidBar(s, p) && BaseText(s, p + 1, i + 1) <==> NextOpener(s, i, opener) == Some(p)
    {
      if p < i {
        assert BaseText(s, p + 1, i + 1) <==> BaseText(s, p + 1, i) && s[i] != OPEN && !IsBar(s[i]);
      }
    }
  }

  lemma OnlyBracketsDecide(reading: Reading, s: string, from: nat, i: nat)
    requires i < |s| && s[i] != OPEN && AllOpenFrom(reading, s, from, i)
    ensures AllOpenFrom(reading, s, from, i + 1)
  {
  }

  /** Going on behind a match. */
  lemma MatchTaken(reading: Reading, s: string, out: seq<Match>, from: nat, m: Match)
    requires IsReading(reading) && IsRuby(reading, s, m) && from <= m.start
    requires forall n :: IsRuby(reading, s, n) && from <= n.start ==> m.start <= n.start
    ensures m.start < m.stop <= |s| && out + Leftmost(reading, s, from) == (out + [m]) + Leftmost(reading, s, m.stop)
    ensures OpenBar(s, m.stop, m.stop, None) && AllOpenFrom(reading, s, m.stop, m.stop)
  {
    RubyEnds(reading, s, m);
    LeftmostSkips(reading, s, from, m.start);
    RubyAtStart(reading, s, m);
  }

  method FindReadings(reading: Reading, s: string) returns (out: seq<Match>)
    requires IsReading(reading)
    ensures out == Leftmost(reading, s, 0)
  {
    out := [];
    var lastEnd: nat, i: nat := 0, 0;
    var opener: Option<nat> := None;
    while i < |s|
      invariant lastEnd <= i <= |s|
      invariant out + Leftmost(reading, s, lastEnd) == Leftmost(reading, s, 0)
      invariant OpenBar(s, lastEnd, i, opener) && AllOpenFrom(reading, s, lastEnd, i)
    {
      hide OpenBar, AllOpenFrom, IsRuby, IsReading, Leftmost, Backslashes, IsJSSpace;
      OpenBarNext(s, lastEnd, i, opener);
      var c := s[i];
      if c == WIDE_BAR {
        opener := Some(i);
      } else if c == BAR {
        var n := CountBackslashes(s, i);
        if n % 2 == 1 || i + 1 >= |s| || IsJSSpace(s[i + 1]) {
          opener := None;
        } else {
          opener := Some(i);
        }
      } else if c == OPEN {
        var found := MatchRuby(reading, s, i, lastEnd, opener);
        if found.Some? {
          var m := found.value;
          MatchTaken(reading, s, out, lastEnd, m);
          out := out + [m];
          i, lastEnd, opener := m.stop, m.stop, None;
          continue;
        }
        opener := None;
      }
      if c != OPEN { OnlyBracketsDecide(reading, s, lastEnd, i); }
      i := i + 1;
    }
    NoneLeft(reading, s, lastEnd);
  }

  // ---------------------------------------------------------------------------
  // Emphasis
  // ---------------------------------------------------------------------------

  /** A bracketed run for emphasis dots within the text before `to`. */
  ghost predicate IsEmphasis(s: string, to: nat, m: Match)
    requires to <= |s|
  {
    && m.start + 2 == m.baseStart < m.baseStop && m.baseStop + 2 == m.stop <= to
    && s[m.start] == OPEN && s[m.start + 1] == OPEN
    && s[m.baseStop] == CLOSE && s[m.baseStop + 1] == CLOSE
    && (forall i | m.baseStart <= i < m.baseStop :: s[i] != CLOSE)
    && m.rubyStart == m.rubyStop == 0 && m.emphasis
  }

  ghost function EmphasisAt(s: string, to: nat, p: nat): Option<Match>
    requires to <= |s|
  {
    if m: Match :| IsEmphasis(s, to, m) && m.start == p then Some(m) else None
  }

  ghost function LeftmostEmphasis(s: string, from: nat, to: nat): seq<Match>
    requires to <= |s|
    decreases |s| - from
  {
    if from >= to then []
    else
      match EmphasisAt(s, to, from)
      case None => LeftmostEmphasis(s, from + 1, to)
      case Some(m) => [m] + LeftmostEmphasis(s, m.stop, to)
  }

  lemma EmphasisIsUnique(s: string, to: nat, m: Match, n: Match)
    requires to <= |s| && IsEmphasis(s, to, m) && IsEmphasis(s, to, n) && m.start == n.start
    ensures m == n
  {
  }

  lemma {:induction false} EmphasisSkips(s: string, from: nat, next: nat, to: nat)
    requires from <= next && to <= |s|
    requires forall m :: IsEmphasis(s, to, m) && from <= m.start ==> next <= m.start
    ensures LeftmostEmphasis(s, from, to) == LeftmostEmphasis(s, next, to)
    decreases next
  {
    if from < next {
      EmphasisSkips(s, from, next - 1, to);
      assert EmphasisAt(s, to, next - 1) == None;
    }
  }

  predicate Occurs(s: string, i: nat, sub: string) {
    i + |sub| <= |s| && s[i..i + |sub|] == sub
  }

  ghost predicate FirstAt(s: string, from: nat, sub: string, r: int) {
    && (r == -1 || (from <= r && Occurs(s, r, sub)))
    && forall j: nat {:trigger Occurs(s, j, sub)} :: from <= j && (j < r || r == -1) ==> !Occurs(s, j, sub)
  }

  lemma FirstFits(s: string, from: nat, sub: string, r: int)
    requires FirstAt(s, from, sub, r)
    ensures r == -1 || (from <= r <= |s| - |sub| && Occurs(s, r, sub))
  {
  }

  /** The first occurrence of `sub` in `s` from `from` on, or -1. */
  method IndexFrom(s: string, from: nat, sub: string) returns (r: int)
    ensures FirstAt(s, from, sub, r)
  {
    var i: nat := from;
    while i + |sub| <= |s|
      invariant from <= i && forall j: nat {:trigger Occurs(s, j, sub)} | from <= j < i :: !Occurs(s, j, sub)
    {
      if s[i..i + |sub|] == sub { return i; }
      i := i + 1;
    }
    return -1;
  }

  ghost predicate StartsFrom(s: string, to: nat, from: nat, next: int)
    requires to <= |s|
  {
    forall m :: IsEmphasis(s, to, m) && from <= m.start ==> 0 <= next <= m.start
  }

  /** Matches start no earlier than the first doubled opening bracket. */
  lemma EmphasisOpens(s: string, from: nat, to: nat, open: int)
    requires to <= |s| && FirstAt(s[..to], from, [OPEN, OPEN], open)
    ensures StartsFrom(s, to, from, open)
  {
    forall m | IsEmphasis(s, to, m) && from <= m.start ensures 0 <= open <= m.start {
      assert Occurs(s[..to], m.start, [OPEN, OPEN]);
    }
  }

  /** `out` and what is still to be found from `i` on make up `all`. */
  ghost predicate Found(s: string, to: nat, out: seq<Match>, i: nat, all: seq<Match>)
    requires to <= |s|
  {
    out + LeftmostEmphasis(s, i, to) == all
  }

  lemma EmphasisTaken(s: string, to: nat, out: seq<Match>, from: nat, m: Match, all: seq<Match>)
    requires to <= |s| && IsEmphasis(s, to, m) && from <= m.start && StartsFrom(s, to, from, m.start)
    requires Found(s, to, out, from, all)
    ensures Found(s, to, out + [m], m.stop, all)
  {
    EmphasisSkips(s, from, m.start, to);
    EmphasisIsUnique(s, to, m, EmphasisAt(s, to, m.start).value);
  }

  lemma NoEmphasisLeft(s: string, from: nat, to: nat, out: seq<Match>, all: seq<Match>)
    requires to <= |s| && (StartsFrom(s, to, from, -1) || from >= to) && Found(s, to, out, from, all)
    ensures out == all
  {
    if from < to {
      EmphasisSkips(s, from, to, to);
    }
  }

  /** The scanner's test: the first closing bracket, at `end`, comes after a body and
      is doubled. */
  predicate EndsWell(text: string, open: nat, end: int) {
    end > open + 2 && Occurs(text, end + 1, [CLOSE])
  }

  /** Whether the doubled bracket at `open` starts a match, decided as the code does. */
  lemma EmphasisDecided(s: string, to: nat, open: nat, end: int)
    requires to <= |s| && Occurs(s[..to], open, [OPEN, OPEN]) && FirstAt(s[..to], open + 2, [CLOSE], end)
    ensures EndsWell(s[..to], open, end) ==> end >= 0 && IsEmphasis(s, to, Match(open, end + 2, open + 2, end, 0, 0, true))
    ensures !EndsWell(s[..to], open, end) ==> EmphasisAt(s, to, open) == None
  {
    var text := s[..to];
    TwoOccur(text, open, OPEN);
    FirstIs(text, open + 2, CLOSE, end);
    OneOccurs(text, if end >= 0 then end + 1 else 0, CLOSE);
    hide EmphasisAt, Occurs, FirstAt;
    if EndsWell(text, open, end) {
      forall i: nat | open + 2 <= i < end ensures s[i] != CLOSE { assert text[i] != CLOSE; }
    }
    forall n | IsEmphasis(s, to, n) && n.start == open ensures EndsWell(text, open, end) {
      assert text[n.baseStop] == CLOSE && text[n.baseStop + 1] == CLOSE;
    }
    NoneAt(s, to, open);
  }

  /** The first place of a character. */
  lemma FirstIs(s: string, from: nat, c: char, r: int)
    requires FirstAt(s, from, [c], r)
    ensures r == -1 || (from <= r < |s| && s[r] == c)
    ensures forall j: nat :: from <= j < |s| && (j < r || r == -1) ==> s[j] != c
  {
    hide Occurs;
    if r >= 0 { OneOccurs(s, r, c); }
    forall j: nat | from <= j < |s| && (j < r || r == -1) ensures s[j] != c { OneOccurs(s, j, c); }
  }

  lemma OneOccurs(s: string, i: nat, c: char)
    ensures Occurs(s, i, [c]) <==> i < |s| && s[i] == c
  {
  }

  lemma TwoOccur(s: string, i: nat, c: char)
    requires Occurs(s, i, [c, c])
    ensures i + 2 <= |s| && s[i] == c && s[i + 1] == c
  {
    assert s[i..i + 2][0] == c && s[i..i + 2][1] == c;
  }

  lemma NoneAt(s: string, to: nat, p: nat)
    requires to <= |s|
    ensures EmphasisAt(s, to, p) == None <==> forall n :: IsEmphasis(s, to, n) ==> n.start != p
  {
  }

  /** The doubled bracket at `open` starts no match. */
  lemma NotHere(s: string, from: nat, to: nat, open: nat, out: seq<Match>, all: seq<Match>)
    requires to <= |s| && from <= open < to && StartsFrom(s, to, from, open) && EmphasisAt(s, to, open) == None
    requires Found(s, to, out, from, all)
    ensures Found(s, to, out, open + 1, all)
  {
    EmphasisSkips(s, from, open, to);
  }

  method FindEmphasis(s: string, from: nat, to: nat) returns (out: seq<Match>)
    requires to <= |s|
    ensures out == LeftmostEmphasis(s, from, to)
  {
    out := [];
    var text := s[..to];
    var i: nat := from;
    ghost var all := LeftmostEmphasis(s, from, to);
    assert Found(s, to, out, i, all);
    hide Found, LeftmostEmphasis, EmphasisAt, IsEmphasis, Occurs, FirstAt, StartsFrom;
    while i < to
      invariant Found(s, to, out, i, all)
      decreases |s| - i
    {
      hide EndsWell;
      var open := IndexFrom(text, i, [OPEN, OPEN]);
      FirstFits(text, i, [OPEN, OPEN], open);
      EmphasisOpens(s, i, to, open);
      if open < 0 {
        NoEmphasisLeft(s, i, to, out, all);
        return;
      }
      var bodyStart: nat := open + 2;
      var end := IndexFrom(text, bodyStart, [CLOSE]);
      EmphasisDecided(s, to, open, end);
      if !EndsWell(text, open, end) {
        NotHere(s, i, to, open, out, all);
        i := open + 1;
        continue;
      }
      var m := Match(open, end + 2, bodyStart, end, 0, 0, true);
      EmphasisTaken(s, to, out, i, m, all);
      out := out + [m];
      i := end + 2;
    }
    NoEmphasisLeft(s, i, to, out, all);
  }
}
