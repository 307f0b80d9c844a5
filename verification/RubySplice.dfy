/**
 `rewriteTextRun` and the loop around it: splicing ruby nodes into the children of an
 inline parent, and that nothing the children spelled is lost.
 */
module RubySplice {
  import opened Options
  import opened RubyScanner
  import opened RubyMatches

  /** A child of an inline parent.  Text is a segment of the source, perhaps with the
      line break it ends in; what is neither text nor ruby stays opaque. */
  datatype Inline =
    | Text(start: nat, stop: nat, raw: bool, soft: bool, hard: bool)
    | Ruby(baseStart: nat, baseStop: nat, rubyStart: nat, rubyStop: nat, emphasis: bool)
    | Other(id: nat)
  {
    predicate Breaks() { Text? && (soft || hard) }

    predicate Plain() { Text? && !raw }
  }

  /** Text segments lie within the source. */
  predicate Fits(source: string, nodes: seq<Inline>) {
    forall n :: n in nodes && n.Text? ==> n.start <= n.stop <= |source|
  }

  // ---------------------------------------------------------------------------
  // Runs
  // ---------------------------------------------------------------------------

  /** The next sibling continues the run. */
  predicate Continues(a: Inline, b: Inline) {
    a.Plain() && !a.Breaks() && b.Plain() && b.start == a.stop
  }

  /** The end of the run of text that node `i` is in. */
  function RunEnd(nodes: seq<Inline>, i: nat): (e: nat)
    requires i < |nodes|
    ensures i < e <= |nodes|
    decreases |nodes| - i
  {
    if i + 1 < |nodes| && Continues(nodes[i], nodes[i + 1]) then RunEnd(nodes, i + 1) else i + 1
  }

  function RubyNode(start: nat, m: Match): Inline {
    Ruby(start + m.baseStart, start + m.baseStop, start + m.rubyStart, start + m.rubyStop, m.emphasis)
  }

  /** The text between two matches, if any. */
  function Gap(pos: nat, to: nat): seq<Inline> {
    if pos < to then [Text(pos, to, false, false, false)] else []
  }

  /** What follows the last match: text or just the line break. */
  function Rest(pos: nat, last: Inline): seq<Inline>
    requires last.Text?
  {
    if pos < last.stop || last.Breaks() then [Text(pos, last.stop, false, last.soft, last.hard)] else []
  }

  /** The nodes that replace a run, from match `k` and position `pos` on. */
  function Pieces(start: nat, ms: seq<Match>, k: nat, pos: nat, last: Inline): seq<Inline>
    requires k <= |ms| && last.Text?
    decreases |ms| - k
  {
    if k == |ms| then Rest(pos, last)
    else Gap(pos, start + ms[k].start) + [RubyNode(start, ms[k])] + Pieces(start, ms, k + 1, start + ms[k].stop, last)
  }

  ghost predicate IsRun(source: string, run: seq<Inline>) {
    && run != [] && Fits(source, run) && (forall n :: n in run ==> n.Plain())
    && forall i | 0 <= i < |run| - 1 :: Continues(run[i], run[i + 1])
  }

  lemma {:induction false} RunSpan(source: string, run: seq<Inline>, i: nat)
    requires IsRun(source, run) && i < |run|
    ensures run[0].Text? && run[i].Text?
    ensures run[0].start <= run[i].stop <= |source|
  {
    assert run[i] in run && run[0] in run;
    if i > 0 {
      RunSpan(source, run, i - 1);
      assert Continues(run[i - 1], run[i]);
    }
  }

  ghost function NewRun(reading: Reading, source: string, run: seq<Inline>): seq<Inline>
    requires IsReading(reading) && IsRun(source, run)
  {
    var last := run[|run| - 1];
    RunSpan(source, run, |run| - 1);
    assert last in run;
    var ms := Rubies(reading, source[run[0].start..last.stop]);
    if ms == [] then run else Pieces(run[0].start, ms, 0, run[0].start, last)
  }

  lemma {:induction false} RunIsRun(source: string, nodes: seq<Inline>, i: nat)
    requires i < |nodes| && Fits(source, nodes) && nodes[i].Plain()
    ensures IsRun(source, nodes[i..RunEnd(nodes, i)])
    decreases |nodes| - i
  {
    var e := RunEnd(nodes, i);
    if e > i + 1 {
      RunIsRun(source, nodes, i + 1);
      assert nodes[i..e] == [nodes[i]] + nodes[i + 1..e];
    }
  }

  /** The length of the run the nodes start with, or of the one node. */
  function FrontLength(nodes: seq<Inline>): (e: nat)
    requires nodes != []
    ensures 0 < e <= |nodes|
  {
    if nodes[0].Plain() then RunEnd(nodes, 0) else 1
  }

  /** What one step of the walk puts in its place. */
  ghost function Front(reading: Reading, source: string, nodes: seq<Inline>): seq<Inline>
    requires IsReading(reading) && nodes != [] && Fits(source, nodes)
  {
    if nodes[0].Plain() then
      RunIsRun(source, nodes, 0);
      NewRun(reading, source, nodes[0..RunEnd(nodes, 0)])
    else [nodes[0]]
  }

  /** All children after that step, taken at child `first`. */
  ghost function SplicedFront(reading: Reading, source: string, nodes: seq<Inline>, first: nat): seq<Inline>
    requires IsReading(reading) && first < |nodes| && Fits(source, nodes[first..])
  {
    Spliced(nodes, first, FrontLength(nodes[first..]), Front(reading, source, nodes[first..]))
  }

  lemma TailFits(source: string, nodes: seq<Inline>, e: nat)
    requires Fits(source, nodes) && e <= |nodes|
    ensures Fits(source, nodes[e..])
  {
  }

  /** The children after the whole walk over them. */
  ghost function Rewritten(reading: Reading, source: string, nodes: seq<Inline>): seq<Inline>
    requires IsReading(reading) && Fits(source, nodes)
    decreases |nodes|
  {
    if nodes == [] then []
    else
      var e := FrontLength(nodes);
      TailFits(source, nodes, e);
      Front(reading, source, nodes) + Rewritten(reading, source, nodes[e..])
  }

  // ---------------------------------------------------------------------------
  // What nodes spell
  // ---------------------------------------------------------------------------

  /** The source as a reader sees it: characters, line breaks, and nodes whose inside
      is not looked at. */
  datatype Token = Ch(c: char) | Break(soft: bool, hard: bool) | Opaque(node: Inline)

  function Chars(text: string): seq<Token> {
    seq(|text|, i requires 0 <= i < |text| => Ch(text[i]))
  }

  function BreakOf(n: Inline): seq<Token> {
    if n.Breaks() then [Break(n.soft, n.hard)] else []
  }

  predicate Within(source: string, n: Inline) {
    match n
    case Text(start, stop, _, _, _) => start <= stop <= |source|
    case Ruby(a, b, c, d, _) => a <= b <= |source| && c <= d <= |source|
    case Other(_) => true
  }

  /** `ts` is what node `n` was written as.  A ruby node may have been written with
      or without a bar. */
  ghost predicate Spells(source: string, n: Inline, ts: seq<Token>) {
    Within(source, n) &&
    match n
    case Text(start, stop, raw, _, _) => ts == if raw then [Opaque(n)] else Chars(source[start..stop]) + BreakOf(n)
    case Ruby(a, b, c, d, emphasis) =>
      || ts == [Opaque(n)]
      || (emphasis && ts == Chars([OPEN, OPEN] + source[a..b] + [CLOSE, CLOSE]))
      || (!emphasis && exists bar :: WrittenWithBar(bar) && ts == Chars(bar + source[a..b] + [OPEN] + source[c..d] + [CLOSE]))
    case Other(_) => ts == [Opaque(n)]
  }

  predicate WrittenWithBar(bar: string) {
    bar in {"", [BAR], [WIDE_BAR]}
  }

  ghost predicate AllSpell(source: string, nodes: seq<Inline>, ts: seq<Token>) {
    if nodes == [] then ts == []
    else exists k: nat :: k <= |ts| && Spells(source, nodes[0], ts[..k]) && AllSpell(source, nodes[1..], ts[k..])
  }

  lemma SpellsFirst(source: string, n: Inline, rest: seq<Inline>, x: seq<Token>, y: seq<Token>)
    requires Spells(source, n, x) && AllSpell(source, rest, y)
    ensures AllSpell(source, [n] + rest, x + y)
  {
    hide Spells;
    var nodes, ts := [n] + rest, x + y;
    assert nodes[1..] == rest && ts[..|x|] == x && ts[|x|..] == y;
  }

  lemma ConsJoin<T>(a: seq<T>, b: seq<T>)
    requires a != []
    ensures [a[0]] + (a[1..] + b) == a + b
    ensures (a + b)[0] == a[0] && (a + b)[1..] == a[1..] + b
  {
  }

  lemma CutJoin<T>(a: seq<T>, b: seq<T>, k: nat)
    requires k <= |a|
    ensures a[..k] + (a[k..] + b) == a + b
  {
  }

  lemma CutTwice<T>(a: seq<T>, h: nat, j: nat)
    requires h <= |a| && j <= |a| - h
    ensures a[..h + j][..h] == a[..h] && a[..h + j][h..] == a[h..][..j] && a[h..][j..] == a[h + j..]
  {
  }

  function Placed<T>(a: seq<T>, b: seq<T>, c: seq<T>): seq<T> {
    a + b + c
  }

  lemma PlaceBehind<T>(a: seq<T>, b: seq<T>, c: seq<T>, d: seq<T>)
    ensures var all := Placed(a, b, c); var at := |a| + |b|;
      at <= |all| && all[..at] + d + all[at..] == Placed(a, b + d, c)
  {
    var all, at := a + b + c, |a| + |b|;
    assert all[..at] == a + b && all[at..] == c;
  }

  lemma NothingPlaced<T>(a: seq<T>, at: nat)
    requires at <= |a|
    ensures Placed(a[..at], [], a[at..]) == a
  {
  }

  lemma PlacedSize<T>(a: seq<T>, b: seq<T>, c: seq<T>)
    ensures |Placed(a, b, c)| == |a| + |b| + |c|
  {
  }

  lemma RestIs(pos: nat, last: Inline)
    requires last.Text?
    ensures Rest(pos, last) == if pos < last.stop || last.Breaks() then [Text(pos, last.stop, false, last.soft, last.hard)] else []
  {
  }

  /** `a` with the `n` elements from `first` on replaced by `b`. */
  function Spliced<T>(a: seq<T>, first: nat, n: nat, b: seq<T>): seq<T>
    requires first + n <= |a|
  {
    a[..first] + b + a[first + n..]
  }

  lemma SplicedSame<T>(a: seq<T>, first: nat, n: nat)
    requires first + n <= |a|
    ensures Spliced(a, first, n, a[first..][..n]) == a
  {
    assert a == a[..first] + a[first..][..n] + a[first + n..];
  }

  lemma RunBehind<T>(a: seq<T>, first: nat, n: nat, b: seq<T>)
    requires first + n <= |a|
    ensures var c := Placed(a[..first], b, a[first..]);
      first + |b| + n <= |c| && Spliced(c, first + |b|, n, []) == Spliced(a, first, n, b)
  {
    var c, at := a[..first] + b + a[first..], first + |b|;
    assert c[..at] == a[..first] + b && c[at + n..] == a[first + n..];
  }

  lemma CutOnce<T>(a: seq<T>, k: nat)
    requires k <= |a|
    ensures a[..k] + a[k..] == a
  {
  }

  lemma {:induction false} AllSpellJoin(source: string, a: seq<Inline>, b: seq<Inline>, ta: seq<Token>, tb: seq<Token>)
    requires AllSpell(source, a, ta) && AllSpell(source, b, tb)
    ensures AllSpell(source, a + b, ta + tb)
    decreases |a|
  {
    hide Spells;
    if a == [] {
      assert a + b == b && ta + tb == tb;
    } else {
      var k: nat :| k <= |ta| && Spells(source, a[0], ta[..k]) && AllSpell(source, a[1..], ta[k..]);
      hide AllSpell;
      AllSpellJoin(source, a[1..], b, ta[k..], tb);
      SpellsFirst(source, a[0], a[1..] + b, ta[..k], ta[k..] + tb);
      ConsJoin(a, b);
      CutJoin(ta, tb, k);
    }
  }

  lemma {:induction false} AllSpellSplit(source: string, a: seq<Inline>, b: seq<Inline>, ts: seq<Token>) returns (k: nat)
    requires AllSpell(source, a + b, ts)
    ensures k <= |ts| && AllSpell(source, a, ts[..k]) && AllSpell(source, b, ts[k..])
    decreases |a|
  {
    hide Spells;
    if a == [] {
      assert a + b == b && ts[0..] == ts;
      k := 0;
    } else {
      ConsJoin(a, b);
      var h: nat :| h <= |ts| && Spells(source, a[0], ts[..h]) && AllSpell(source, a[1..] + b, ts[h..]);
      var j := AllSpellSplit(source, a[1..], b, ts[h..]);
      k := h + j;
      CutTwice(ts, h, j);
    }
  }

  lemma OneSpells(source: string, n: Inline, ts: seq<Token>)
    requires Spells(source, n, ts)
    ensures AllSpell(source, [n], ts)
  {
    assert ts[..|ts|] == ts && ts[|ts|..] == [];
    assert AllSpell(source, [n][1..], ts[|ts|..]);
  }

  lemma CharsJoin(a: string, b: string)
    ensures Chars(a + b) == Chars(a) + Chars(b)
  {
  }

  lemma SourceJoin(source: string, a: nat, b: nat, c: nat)
    requires a <= b <= c <= |source|
    ensures Chars(source[a..b]) + Chars(source[b..c]) == Chars(source[a..c])
  {
    assert source[a..b] + source[b..c] == source[a..c];
    CharsJoin(source[a..b], source[b..c]);
  }

  // ---------------------------------------------------------------------------
  // The pieces of a run spell the run
  // ---------------------------------------------------------------------------

  lemma ReadingSpells(reading: Reading, source: string, start: nat, stop: nat, m: Match)
    requires IsReading(reading) && start <= stop <= |source| && IsRuby(reading, source[start..stop], m)
    ensures m.start < m.stop <= stop - start
    ensures Spells(source, RubyNode(start, m), Chars(source[start + m.start..start + m.stop]))
  {
    hide Chars, KanjiRun, BaseText, ValidBar, WrittenWithBar, Spells;
    var line := source[start..stop];
    RubyEnds(reading, line, m);
    BarBeforeBase(reading, line, m);
    ReadingCuts(line, m);
    var bar := line[m.start..m.baseStart];
    SubLine(source, start, stop, m.start, m.stop);
    SubLine(source, start, stop, m.baseStart, m.baseStop);
    SubLine(source, start, stop, m.rubyStart, m.rubyStop);
    SpelledWithBar(source, RubyNode(start, m), bar);
  }

  lemma SpelledWithBar(source: string, n: Inline, bar: string)
    requires n.Ruby? && Within(source, n) && !n.emphasis && WrittenWithBar(bar)
    ensures Spells(source, n, Chars(bar + source[n.baseStart..n.baseStop] + [OPEN] + source[n.rubyStart..n.rubyStop] + [CLOSE]))
  {
  }

  lemma SubLine(source: string, start: nat, stop: nat, a: nat, b: nat)
    requires start <= stop <= |source| && a <= b <= stop - start
    ensures source[start..stop][a..b] == source[start + a..start + b]
  {
    var x, y := source[start..stop][a..b], source[start + a..start + b];
    forall i | 0 <= i < b - a ensures x[i] == y[i] {}
  }

  lemma ReadingCuts(line: string, m: Match)
    requires m.start <= m.baseStart <= m.baseStop < m.rubyStart <= m.rubyStop < m.stop <= |line|
    requires m.rubyStart == m.baseStop + 1 && m.stop == m.rubyStop + 1 && line[m.baseStop] == OPEN && line[m.rubyStop] == CLOSE
    ensures line[m.start..m.stop] ==
              line[m.start..m.baseStart] + line[m.baseStart..m.baseStop] + [OPEN] + line[m.rubyStart..m.rubyStop] + [CLOSE]
  {
  }

  lemma BarBeforeBase(reading: Reading, line: string, m: Match)
    requires IsReading(reading) && IsRuby(reading, line, m)
    ensures m.start <= m.baseStart <= |line| && WrittenWithBar(line[m.start..m.baseStart])
  {
    RubyEnds(reading, line, m);
    var bar := line[m.start..m.baseStart];
    if IsExplicit(reading, line, m) {
      assert bar == [line[m.start]];
      assert bar == [BAR] || bar == [WIDE_BAR];
      assert WrittenWithBar(bar);
    } else {
      assert bar == "";
      assert WrittenWithBar(bar);
    }
  }

  lemma EmphasisSpells(source: string, start: nat, stop: nat, m: Match)
    requires start <= stop <= |source| && IsEmphasis(source[start..stop], stop - start, m)
    ensures m.start < m.stop <= stop - start
    ensures Spells(source, RubyNode(start, m), Chars(source[start + m.start..start + m.stop]))
  {
    var line := source[start..stop];
    SubLine(source, start, stop, m.start, m.stop);
    SubLine(source, start, stop, m.baseStart, m.baseStop);
    EmphasisCuts(line, m);
    hide Chars, IsEmphasis;
  }

  lemma EmphasisCuts(line: string, m: Match)
    requires IsEmphasis(line, |line|, m)
    ensures m.emphasis && line[m.start..m.stop] == [OPEN, OPEN] + line[m.baseStart..m.baseStop] + [CLOSE, CLOSE]
  {
  }

  /** A match is spelled by its ruby node. */
  lemma RubySpells(reading: Reading, source: string, start: nat, stop: nat, m: Match)
    requires IsReading(reading) && start <= stop <= |source|
    requires var line := source[start..stop]; IsRuby(reading, line, m) || IsEmphasis(line, |line|, m)
    ensures m.start < m.stop <= stop - start
    ensures AllSpell(source, [RubyNode(start, m)], Chars(source[start + m.start..start + m.stop]))
  {
    hide Chars, Spells, AllSpell, IsRuby, IsEmphasis;
    if IsRuby(reading, source[start..stop], m) {
      ReadingSpells(reading, source, start, stop, m);
    } else {
      EmphasisSpells(source, start, stop, m);
    }
    OneSpells(source, RubyNode(start, m), Chars(source[start + m.start..start + m.stop]));
  }

  lemma GapSpells(source: string, pos: nat, to: nat)
    requires pos <= to <= |source|
    ensures AllSpell(source, Gap(pos, to), Chars(source[pos..to]))
  {
    if pos < to {
      var n := Text(pos, to, false, false, false);
      assert Chars(source[pos..to]) + BreakOf(n) == Chars(source[pos..to]);
      OneSpells(source, n, Chars(source[pos..to]));
    }
  }

  lemma RestSpells(source: string, pos: nat, last: Inline)
    requires last.Plain() && pos <= last.stop <= |source|
    ensures AllSpell(source, Rest(pos, last), Chars(source[pos..last.stop]) + BreakOf(last))
  {
    if pos < last.stop || last.Breaks() {
      OneSpells(source, Text(pos, last.stop, false, last.soft, last.hard), Chars(source[pos..last.stop]) + BreakOf(last));
    }
  }

  ghost predicate MatchesOf(reading: Reading, line: string, ms: seq<Match>) {
    InOrder(ms, 0, |line|) && forall m :: m in ms ==> IsRuby(reading, line, m) || IsEmphasis(line, |line|, m)
  }

  lemma {:induction false} PiecesSpell(reading: Reading, source: string, start: nat, ms: seq<Match>, k: nat, pos: nat, last: Inline)
    requires IsReading(reading) && last.Plain() && start <= pos <= last.stop <= |source| && k <= |ms|
    requires MatchesOf(reading, source[start..last.stop], ms)
    requires forall j :: k <= j < |ms| ==> pos <= start + ms[j].start
    ensures AllSpell(source, Pieces(start, ms, k, pos, last), Chars(source[pos..last.stop]) + BreakOf(last))
    decreases |ms| - k
  {
    hide AllSpell, Chars, BreakOf, MatchesOf, Pieces, IsRuby, IsEmphasis, IsReading, Rest, Gap;
    PiecesStep(start, ms, k, pos, last);
    if k == |ms| {
      RestSpells(source, pos, last);
    } else {
      var m := ms[k];
      MatchAmong(reading, source[start..last.stop], ms, k);
      var a, b := start + m.start, start + m.stop;
      GapSpells(source, pos, a);
      RubySpells(reading, source, start, last.stop, m);
      PiecesSpell(reading, source, start, ms, k + 1, b, last);
      PiecesJoin(source, Gap(pos, a), [RubyNode(start, m)], Pieces(start, ms, k + 1, b, last), pos, a, b, last);
    }
  }

  lemma MatchAmong(reading: Reading, line: string, ms: seq<Match>, k: nat)
    requires MatchesOf(reading, line, ms) && k < |ms|
    ensures ms[k].start < ms[k].stop <= |line| && (IsRuby(reading, line, ms[k]) || IsEmphasis(line, |line|, ms[k]))
    ensures forall j :: k < j < |ms| ==> ms[k].stop <= ms[j].start
  {
    assert ms[k] in ms;
  }

  lemma PiecesStep(start: nat, ms: seq<Match>, k: nat, pos: nat, last: Inline)
    requires k <= |ms| && last.Text?
    ensures Pieces(start, ms, k, pos, last) ==
              if k == |ms| then Rest(pos, last) else
              Gap(pos, start + ms[k].start) + [RubyNode(start, ms[k])] + Pieces(start, ms, k + 1, start + ms[k].stop, last)
  {
  }

  lemma PiecesJoin(source: string, gap: seq<Inline>, ruby: seq<Inline>, rest: seq<Inline>, pos: nat, a: nat, b: nat, last: Inline)
    requires last.Plain() && pos <= a <= b <= last.stop <= |source|
    requires AllSpell(source, gap, Chars(source[pos..a])) && AllSpell(source, ruby, Chars(source[a..b]))
    requires AllSpell(source, rest, Chars(source[b..last.stop]) + BreakOf(last))
    ensures AllSpell(source, gap + ruby + rest, Chars(source[pos..last.stop]) + BreakOf(last))
  {
    hide AllSpell, Chars, BreakOf;
    var tail := Chars(source[b..last.stop]) + BreakOf(last);
    AllSpellJoin(source, gap, ruby, Chars(source[pos..a]), Chars(source[a..b]));
    SourceJoin(source, pos, a, b);
    AllSpellJoin(source, gap + ruby, rest, Chars(source[pos..b]), tail);
    SourceJoin(source, pos, b, last.stop);
    assert Chars(source[pos..b]) + tail == Chars(source[pos..last.stop]) + BreakOf(last);
  }

  lemma RunTail(source: string, run: seq<Inline>)
    requires IsRun(source, run) && |run| > 1
    ensures IsRun(source, run[1..]) && Continues(run[0], run[1]) && run[1..][0] == run[1]
    ensures run[1..][|run| - 2] == run[|run| - 1]
  {
    var r := run[1..];
    forall i | 0 <= i < |r| - 1 ensures Continues(r[i], r[i + 1]) {
      assert Continues(run[i + 1], run[i + 2]);
    }
  }

  lemma PlainSpellsOnly(source: string, n: Inline, ts: seq<Token>)
    requires n.Plain() && Spells(source, n, ts)
    ensures n.start <= n.stop <= |source| && ts == Chars(source[n.start..n.stop]) + BreakOf(n)
  {
  }

  /** What a run of plain text spells is fixed: its source and its last line break. */
  lemma {:induction false} RunSpellsOnly(source: string, run: seq<Inline>, ts: seq<Token>)
    requires IsRun(source, run) && AllSpell(source, run, ts)
    ensures run[0].Text? && run[|run| - 1].Text? && run[0].start <= run[|run| - 1].stop <= |source|
    ensures ts == Chars(source[run[0].start..run[|run| - 1].stop]) + BreakOf(run[|run| - 1])
    decreases |run|
  {
    hide Spells, Chars;
    RunSpan(source, run, |run| - 1);
    var n := run[0];
    assert n in run;
    var k: nat :| k <= |ts| && Spells(source, n, ts[..k]) && AllSpell(source, run[1..], ts[k..]);
    PlainSpellsOnly(source, n, ts[..k]);
    CutOnce(ts, k);
    if |run| > 1 {
      hide AllSpell;
      RunTail(source, run);
      RunSpellsOnly(source, run[1..], ts[k..]);
      SourceJoin(source, n.start, n.stop, run[|run| - 1].stop);
    }
  }

  lemma RubiesMatch(reading: Reading, line: string)
    requires IsReading(reading)
    ensures MatchesOf(reading, line, Rubies(reading, line))
  {
    RubiesAreRight(reading, line);
    LeftmostInOrder(reading, line, 0);
  }

  lemma NewRunSpells(reading: Reading, source: string, run: seq<Inline>, ts: seq<Token>)
    requires IsReading(reading) && IsRun(source, run) && AllSpell(source, run, ts)
    ensures AllSpell(source, NewRun(reading, source, run), ts)
  {
    RunSpellsOnly(source, run, ts);
    var last := run[|run| - 1];
    assert last in run;
    var ms := Rubies(reading, source[run[0].start..last.stop]);
    if ms != [] {
      RubiesMatch(reading, source[run[0].start..last.stop]);
      PiecesSpell(reading, source, run[0].start, ms, 0, run[0].start, last);
    }
  }

  lemma FrontSpells(reading: Reading, source: string, nodes: seq<Inline>, ts: seq<Token>)
    requires IsReading(reading) && nodes != [] && Fits(source, nodes)
    requires AllSpell(source, nodes[..FrontLength(nodes)], ts)
    ensures AllSpell(source, Front(reading, source, nodes), ts)
  {
    hide AllSpell, NewRun, IsRun, RunEnd;
    if nodes[0].Plain() {
      RunIsRun(source, nodes, 0);
      NewRunSpells(reading, source, nodes[0..FrontLength(nodes)], ts);
    } else {
      assert nodes[..1] == [nodes[0]];
    }
  }

  /** The walk is lossless: whatever the children spelled (characters, line breaks
      and opaque nodes, in order), they still spell. */
  lemma {:induction false} RewritingIsLossless(reading: Reading, source: string, nodes: seq<Inline>, ts: seq<Token>)
    requires IsReading(reading) && Fits(source, nodes) && AllSpell(source, nodes, ts)
    ensures AllSpell(source, Rewritten(reading, source, nodes), ts)
    decreases |nodes|
  {
    if nodes != [] {
      hide FrontLength, Front, AllSpell;
      var e := FrontLength(nodes);
      TailFits(source, nodes, e);
      CutOnce(nodes, e);
      var k := AllSpellSplit(source, nodes[..e], nodes[e..], ts);
      RewritingIsLossless(reading, source, nodes[e..], ts[k..]);
      FrontSpells(reading, source, nodes, ts[..k]);
      CutOnce(ts, k);
      AllSpellJoin(source, Front(reading, source, nodes), Rewritten(reading, source, nodes[e..]), ts[..k], ts[k..]);
    }
  }

  // ---------------------------------------------------------------------------
  // What a run becomes
  // ---------------------------------------------------------------------------

  /** The ruby nodes among `nodes`, in order. */
  function RubiesAmong(nodes: seq<Inline>): seq<Inline> {
    if nodes == [] then [] else (if nodes[0].Ruby? then [nodes[0]] else []) + RubiesAmong(nodes[1..])
  }

  /** Some text node shows the character of the source at `p`. */
  predicate InText(nodes: seq<Inline>, p: nat) {
    exists n :: n in nodes && n.Text? && n.start <= p < n.stop
  }

  /** A match of the line that starts at `start` covers the character at `p`. */
  predicate InMatch(start: nat, ms: seq<Match>, k: nat, p: nat) {
    exists j :: k <= j < |ms| && start + ms[j].start <= p < start + ms[j].stop
  }

  /** Where a node begins and ends in the source. */
  function From(n: Inline): nat {
    match n
    case Text(start, _, _, _, _) => start
    case Ruby(baseStart, _, _, _, _) => baseStart
    case Other(_) => 0
  }

  function UpTo(n: Inline): nat {
    match n
    case Text(_, stop, _, _, _) => stop
    case Ruby(_, baseStop, _, _, _) => baseStop
    case Other(_) => 0
  }

  predicate InSourceOrder(nodes: seq<Inline>) {
    forall i, j | 0 <= i < j < |nodes| :: UpTo(nodes[i]) <= From(nodes[j])
  }

  /** No text node is raw, or empty but for a line break, or next to another one, and
      only the last one breaks. */
  predicate OneBreak(nodes: seq<Inline>, last: Inline) {
    && (forall n :: n in nodes ==> !n.Other?)
    && (forall n :: n in nodes && n.Text? ==> !n.raw && (n.start < n.stop || n.Breaks()))
    && (forall i | 0 <= i < |nodes| - 1 :: !nodes[i].Breaks() && !(nodes[i].Text? && nodes[i + 1].Text?))
    && (last.Breaks() ==> nodes != [] && nodes[|nodes| - 1].Text?)
    && (nodes != [] && nodes[|nodes| - 1].Text? && last.Text? ==>
          nodes[|nodes| - 1].soft == last.soft && nodes[|nodes| - 1].hard == last.hard)
  }

  /** One ruby node per match from `k` on, with its base and its reading. */
  ghost predicate RubiesFrom(start: nat, ms: seq<Match>, k: nat, rubies: seq<Inline>) {
    && k <= |ms| && |rubies| == |ms| - k
    && forall j | k <= j < |ms| :: rubies[j - k] ==
         Ruby(start + ms[j].baseStart, start + ms[j].baseStop, start + ms[j].rubyStart, start + ms[j].rubyStop, ms[j].emphasis)
  }

  /** A run without a match stays as it is.  Any other becomes one ruby node per match,
      in order, each with the base and the reading of its match, and text nodes that
      show exactly the characters outside the matches, all in the order of the source;
      the last text node keeps the run's line break. */
  ghost predicate Replaces(reading: Reading, source: string, run: seq<Inline>, nodes: seq<Inline>)
    requires IsReading(reading) && IsRun(source, run)
  {
    RunSpan(source, run, |run| - 1);
    var start, last := run[0].start, run[|run| - 1];
    var ms := Rubies(reading, source[start..last.stop]);
    if ms == [] then nodes == run
    else
      && RubiesFrom(start, ms, 0, RubiesAmong(nodes))
      && (forall p: nat {:trigger InText(nodes, p)} :: InText(nodes, p) <==> start <= p < last.stop && !InMatch(start, ms, 0, p))
      && InSourceOrder(nodes) && OneBreak(nodes, last)
  }

  /** The first `e` nodes are a run, and the next node, if any, is not part of it. */
  predicate IsWholeRun(nodes: seq<Inline>, e: nat) {
    && 0 < e <= |nodes| && (forall i | 0 <= i < e :: nodes[i].Plain())
    && (forall i | 0 <= i < e - 1 :: Continues(nodes[i], nodes[i + 1]))
    && (e < |nodes| ==> !Continues(nodes[e - 1], nodes[e]))
  }

  lemma WholeRunIsRun(source: string, nodes: seq<Inline>, e: nat)
    requires Fits(source, nodes) && IsWholeRun(nodes, e)
    ensures IsRun(source, nodes[..e])
  {
    hide Continues;
    forall n | n in nodes[..e] ensures n.Plain() && n in nodes {}
  }

  /** One step of the walk, at child `first`: a whole run is replaced, anything else
      stays, and so do the siblings before and behind. */
  ghost predicate RunReplaced(reading: Reading, source: string, nodes: seq<Inline>, first: nat, to: seq<Inline>, after: nat)
    requires IsReading(reading) && first < |nodes| && Fits(source, nodes[first..])
  {
    if !nodes[first].Plain() then to == nodes && after == first + 1
    else
      exists e: nat ::
        && IsWholeRun(nodes[first..], e) && first <= after <= |to|
        && to[..first] == nodes[..first] && to[after..] == nodes[first..][e..]
        && (WholeRunIsRun(source, nodes[first..], e); Replaces(reading, source, nodes[first..][..e], to[first..after]))
  }

  /** `to` is what the walk makes of `nodes`: whole runs are replaced one after the
      other, everything else stays. */
  ghost predicate Walked(reading: Reading, source: string, nodes: seq<Inline>, to: seq<Inline>)
    requires IsReading(reading) && Fits(source, nodes)
    decreases |nodes|
  {
    if nodes == [] then to == []
    else if !nodes[0].Plain() then to != [] && to[0] == nodes[0] && Walked(reading, source, nodes[1..], to[1..])
    else
      exists e: nat, f: nat ::
        && IsWholeRun(nodes, e) && f <= |to|
        && (WholeRunIsRun(source, nodes, e); Replaces(reading, source, nodes[..e], to[..f]))
        && Walked(reading, source, nodes[e..], to[f..])
  }

  lemma NewRunIs(reading: Reading, source: string, run: seq<Inline>)
    requires IsReading(reading) && IsRun(source, run)
    ensures var last := run[|run| - 1];
      && last.Text? && run[0].Text? && run[0].start <= last.stop <= |source|
      && var ms := Rubies(reading, source[run[0].start..last.stop]);
         NewRun(reading, source, run) == if ms == [] then run else Pieces(run[0].start, ms, 0, run[0].start, last)
  {
    hide Rubies, Pieces, IsReading;
    RunSpan(source, run, |run| - 1);
    assert run[0] in run && run[|run| - 1] in run;
  }

  // ---------------------------------------------------------------------------
  // The pieces are what a run becomes
  // ---------------------------------------------------------------------------

  /** The matches from `k` on lie behind `pos`, one behind the other, each with its base
      inside. */
  ghost predicate LieBehind(start: nat, ms: seq<Match>, k: nat, pos: nat, stop: nat) {
    && k <= |ms| && start <= pos <= stop
    && (forall j | k <= j < |ms| :: pos <= start + ms[j].start && start + ms[j].stop <= stop)
    && (forall j | k <= j < |ms| :: ms[j].start <= ms[j].baseStart <= ms[j].baseStop <= ms[j].stop)
    && forall i, j | k <= i < j < |ms| :: ms[i].stop <= ms[j].start
  }

  lemma NextLieBehind(start: nat, ms: seq<Match>, k: nat, pos: nat, stop: nat)
    requires LieBehind(start, ms, k, pos, stop) && k < |ms|
    ensures LieBehind(start, ms, k + 1, start + ms[k].stop, stop)
    ensures pos <= start + ms[k].start <= start + ms[k].baseStart <= start + ms[k].baseStop <= start + ms[k].stop <= stop
  {
  }

  lemma {:induction false} RubiesJoin(a: seq<Inline>, b: seq<Inline>)
    ensures RubiesAmong(a + b) == RubiesAmong(a) + RubiesAmong(b)
  {
    if a == [] {
      assert a + b == b;
    } else {
      assert (a + b)[1..] == a[1..] + b;
      RubiesJoin(a[1..], b);
    }
  }

  lemma NoRubies(pos: nat, to: nat, last: Inline)
    requires last.Text?
    ensures RubiesAmong(Gap(pos, to)) == [] && RubiesAmong(Rest(pos, last)) == []
  {
  }

  lemma OneMoreRuby(start: nat, ms: seq<Match>, k: nat, more: seq<Inline>)
    requires k < |ms| && RubiesFrom(start, ms, k + 1, more)
    ensures RubiesFrom(start, ms, k, [RubyNode(start, ms[k])] + more)
  {
    var rubies := [RubyNode(start, ms[k])] + more;
    forall j {:trigger ms[j]} | k < j < |ms| ensures rubies[j - k] == more[j - (k + 1)] {}
  }

  lemma RubiesOfPieces(gap: seq<Inline>, n: Inline, more: seq<Inline>)
    requires n.Ruby? && RubiesAmong(gap) == []
    ensures RubiesAmong(gap + [n] + more) == [n] + RubiesAmong(more)
  {
    RubiesJoin(gap, [n]);
    RubiesJoin(gap + [n], more);
    assert [n][1..] == [];
  }

  lemma {:induction false} PiecesHaveRubies(start: nat, ms: seq<Match>, k: nat, pos: nat, last: Inline)
    requires k <= |ms| && last.Text?
    ensures RubiesFrom(start, ms, k, RubiesAmong(Pieces(start, ms, k, pos, last)))
    decreases |ms| - k
  {
    hide Pieces, Gap, Rest, RubiesAmong;
    PiecesStep(start, ms, k, pos, last);
    if k == |ms| {
      NoRubies(pos, 0, last);
    } else {
      var b := start + ms[k].stop;
      PiecesHaveRubies(start, ms, k + 1, b, last);
      NoRubies(pos, start + ms[k].start, last);
      RubiesOfPieces(Gap(pos, start + ms[k].start), RubyNode(start, ms[k]), Pieces(start, ms, k + 1, b, last));
      OneMoreRuby(start, ms, k, RubiesAmong(Pieces(start, ms, k + 1, b, last)));
    }
  }

  lemma InTextJoins(a: seq<Inline>, b: seq<Inline>, p: nat)
    ensures InText(a + b, p) <==> InText(a, p) || InText(b, p)
  {
    forall n | n in a || n in b ensures n in a + b {}
  }

  lemma InGap(pos: nat, to: nat, p: nat)
    ensures InText(Gap(pos, to), p) <==> pos <= p < to
  {
    var n := Text(pos, to, false, false, false);
    assert pos < to ==> n in Gap(pos, to);
  }

  lemma InRest(pos: nat, last: Inline, p: nat)
    requires last.Text?
    ensures InText(Rest(pos, last), p) <==> pos <= p < last.stop
  {
    var n := Text(pos, last.stop, false, last.soft, last.hard);
    assert pos < last.stop ==> n in Rest(pos, last);
  }

  lemma InMatchStep(start: nat, ms: seq<Match>, k: nat, p: nat)
    requires k < |ms|
    ensures InMatch(start, ms, k, p) <==> start + ms[k].start <= p < start + ms[k].stop || InMatch(start, ms, k + 1, p)
  {
  }

  lemma NotYetInMatch(start: nat, ms: seq<Match>, k: nat, pos: nat, stop: nat, p: nat)
    requires LieBehind(start, ms, k, pos, stop) && p < pos
    ensures !InMatch(start, ms, k, p)
  {
  }

  lemma {:induction false} PiecesShowTheRest(start: nat, ms: seq<Match>, k: nat, pos: nat, last: Inline, p: nat)
    requires last.Text? && k <= |ms| && LieBehind(start, ms, k, pos, last.stop)
    ensures InText(Pieces(start, ms, k, pos, last), p) <==> pos <= p < last.stop && !InMatch(start, ms, k, p)
    decreases |ms| - k
  {
    hide Pieces, Gap, Rest, LieBehind, InText, InMatch;
    PiecesStep(start, ms, k, pos, last);
    if k == |ms| {
      InRest(pos, last, p);
      NoMatchLeft(start, ms, p);
    } else {
      var a, b := start + ms[k].start, start + ms[k].stop;
      NextLieBehind(start, ms, k, pos, last.stop);
      PiecesShowTheRest(start, ms, k + 1, b, last, p);
      InGap(pos, a, p);
      RubyShowsNoText(RubyNode(start, ms[k]), p);
      InTextJoins(Gap(pos, a), [RubyNode(start, ms[k])], p);
      InTextJoins(Gap(pos, a) + [RubyNode(start, ms[k])], Pieces(start, ms, k + 1, b, last), p);
      InMatchStep(start, ms, k, p);
      if p < b { NotYetInMatch(start, ms, k + 1, b, last.stop, p); }
    }
  }

  lemma NoMatchLeft(start: nat, ms: seq<Match>, p: nat)
    ensures !InMatch(start, ms, |ms|, p)
  {
  }

  lemma RubyShowsNoText(n: Inline, p: nat)
    requires n.Ruby?
    ensures !InText([n], p)
  {
  }

  /** All nodes lie behind `pos`, in order. */
  predicate Behind(nodes: seq<Inline>, pos: nat) {
    InSourceOrder(nodes) && forall n :: n in nodes ==> pos <= From(n) <= UpTo(n)
  }

  lemma FrontBehind(gap: seq<Inline>, n: Inline, more: seq<Inline>, pos: nat, a: nat, b: nat)
    requires pos <= a <= From(n) <= UpTo(n) <= b && gap == Gap(pos, a) && Behind(more, b)
    ensures Behind(gap + [n] + more, pos)
  {
    var all := gap + [n] + more;
    forall i, j | 0 <= i < j < |all| ensures UpTo(all[i]) <= From(all[j]) {
      if j > |gap| { assert all[j] == more[j - |gap| - 1] && all[j] in more; }
      if i > |gap| { assert all[i] == more[i - |gap| - 1]; }
    }
    forall x | x in all ensures pos <= From(x) <= UpTo(x) {}
  }

  lemma {:induction false} PiecesInOrder(start: nat, ms: seq<Match>, k: nat, pos: nat, last: Inline)
    requires last.Text? && k <= |ms| && LieBehind(start, ms, k, pos, last.stop)
    ensures Behind(Pieces(start, ms, k, pos, last), pos)
    decreases |ms| - k
  {
    hide Pieces, Gap, LieBehind, Behind;
    PiecesStep(start, ms, k, pos, last);
    if k == |ms| {
      RestBehind(start, ms, k, pos, last);
    } else {
      var a, b := start + ms[k].start, start + ms[k].stop;
      NextLieBehind(start, ms, k, pos, last.stop);
      PiecesInOrder(start, ms, k + 1, b, last);
      FrontBehind(Gap(pos, a), RubyNode(start, ms[k]), Pieces(start, ms, k + 1, b, last), pos, a, b);
    }
  }

  lemma RestBehind(start: nat, ms: seq<Match>, k: nat, pos: nat, last: Inline)
    requires last.Text? && LieBehind(start, ms, k, pos, last.stop)
    ensures Behind(Rest(pos, last), pos)
  {
  }

  lemma {:induction false} PiecesBreakOnce(start: nat, ms: seq<Match>, k: nat, pos: nat, last: Inline)
    requires last.Text? && !last.raw && k <= |ms|
    ensures OneBreak(Pieces(start, ms, k, pos, last), last)
    decreases |ms| - k
  {
    hide Pieces, Gap, OneBreak;
    PiecesStep(start, ms, k, pos, last);
    if k == |ms| {
      RestBreaksOnce(pos, last);
    } else {
      var a, b := start + ms[k].start, start + ms[k].stop;
      PiecesBreakOnce(start, ms, k + 1, b, last);
      FrontBreaksOnce(Gap(pos, a), RubyNode(start, ms[k]), Pieces(start, ms, k + 1, b, last), pos, a, last);
    }
  }

  lemma RestBreaksOnce(pos: nat, last: Inline)
    requires last.Text?
    ensures OneBreak(Rest(pos, last), last)
  {
  }

  lemma FrontBreaksOnce(gap: seq<Inline>, n: Inline, more: seq<Inline>, pos: nat, a: nat, last: Inline)
    requires n.Ruby? && gap == Gap(pos, a) && OneBreak(more, last)
    ensures OneBreak(gap + [n] + more, last)
  {
    var all := gap + [n] + more;
    forall i | |gap| < i < |all| ensures all[i] == more[i - |gap| - 1] {}
    forall i | 0 <= i < |all| - 1 ensures !all[i].Breaks() && !(all[i].Text? && all[i + 1].Text?) {
      if i > |gap| { assert !more[i - |gap| - 1].Breaks(); }
    }
    if more == [] { assert all[|all| - 1] == n; } else { assert all[|all| - 1] == more[|more| - 1]; }
  }

  lemma RubiesLieBehind(reading: Reading, source: string, start: nat, stop: nat)
    requires IsReading(reading) && start <= stop <= |source|
    ensures LieBehind(start, Rubies(reading, source[start..stop]), 0, start, stop)
  {
    var line := source[start..stop];
    var ms := Rubies(reading, line);
    RubiesMatch(reading, line);
    hide Rubies;
    forall j: nat | j < |ms|
      ensures ms[j].start <= ms[j].baseStart <= ms[j].baseStop <= ms[j].stop <= |line|
      ensures forall i :: j < i < |ms| ==> ms[j].stop <= ms[i].start
    {
      MatchAmong(reading, line, ms, j);
      hide MatchesOf, IsRuby;
      if IsRuby(reading, line, ms[j]) { RubyEnds(reading, line, ms[j]); }
    }
  }

  lemma PiecesReplace(start: nat, ms: seq<Match>, last: Inline)
    requires last.Text? && !last.raw && LieBehind(start, ms, 0, start, last.stop)
    ensures var nodes := Pieces(start, ms, 0, start, last);
      && RubiesFrom(start, ms, 0, RubiesAmong(nodes))
      && (forall p: nat {:trigger InText(nodes, p)} :: InText(nodes, p) <==> start <= p < last.stop && !InMatch(start, ms, 0, p))
      && InSourceOrder(nodes) && OneBreak(nodes, last)
  {
    var nodes := Pieces(start, ms, 0, start, last);
    hide Pieces, RubiesAmong, RubiesFrom, InText, InMatch, LieBehind, OneBreak, InSourceOrder;
    PiecesHaveRubies(start, ms, 0, start, last);
    forall p: nat ensures InText(nodes, p) <==> start <= p < last.stop && !InMatch(start, ms, 0, p) {
      PiecesShowTheRest(start, ms, 0, start, last, p);
    }
    PiecesInOrder(start, ms, 0, start, last);
    PiecesBreakOnce(start, ms, 0, start, last);
  }

  lemma LastIsPlain(source: string, run: seq<Inline>)
    requires IsRun(source, run)
    ensures var last := run[|run| - 1]; last.Text? && !last.raw && run[0].Text? && run[0].start <= last.stop <= |source|
  {
    RunSpan(source, run, |run| - 1);
    assert run[|run| - 1] in run;
  }

  /** What a run becomes, told without how. */
  lemma NewRunReplaces(reading: Reading, source: string, run: seq<Inline>)
    requires IsReading(reading) && IsRun(source, run)
    ensures Replaces(reading, source, run, NewRun(reading, source, run))
  {
    hide Rubies, NewRun, Pieces, RubiesAmong, InText, InMatch, LieBehind, OneBreak, IsReading, InSourceOrder;
    LastIsPlain(source, run);
    NewRunIs(reading, source, run);
    var start, last := run[0].start, run[|run| - 1];
    var ms := Rubies(reading, source[start..last.stop]);
    if ms != [] {
      RubiesLieBehind(reading, source, start, last.stop);
      PiecesReplace(start, ms, last);
    }
  }

  lemma {:induction false} RunEndIsWhole(nodes: seq<Inline>, i: nat)
    requires i < |nodes| && nodes[i].Plain()
    ensures IsWholeRun(nodes[i..], RunEnd(nodes, i) - i)
    decreases |nodes| - i
  {
    var e, tail := RunEnd(nodes, i), nodes[i..];
    if i + 1 < |nodes| && Continues(nodes[i], nodes[i + 1]) {
      RunEndIsWhole(nodes, i + 1);
      var next := nodes[i + 1..];
      forall j | 0 <= j < |next| ensures next[j] == tail[j + 1] {}
      forall j | 0 <= j < e - i - 1 ensures Continues(tail[j], tail[j + 1]) {
        if j > 0 { assert Continues(next[j - 1], next[j]); }
      }
      forall j | 0 < j < e - i ensures tail[j].Plain() { assert next[j - 1].Plain(); }
      if e < |nodes| { assert tail[e - i - 1] == next[e - i - 2] && tail[e - i] == next[e - i - 1]; }
    }
  }

  lemma SplicedParts<T>(a: seq<T>, first: nat, e: nat, b: seq<T>)
    requires first <= |a| && e <= |a[first..]|
    ensures var to := Spliced(a, first, e, b);
      && first + |b| <= |to| && to[..first] == a[..first] && to[first..first + |b|] == b && to[first + |b|..] == a[first..][e..]
  {
    var to := a[..first] + b + a[first + e..];
    assert a[first..][e..] == a[first + e..];
    assert to[first..first + |b|] == b && to[first + |b|..] == a[first + e..] && to[..first] == a[..first];
  }

  lemma FrontIsTold(reading: Reading, source: string, tail: seq<Inline>)
    requires IsReading(reading) && tail != [] && Fits(source, tail) && tail[0].Plain()
    ensures IsWholeRun(tail, FrontLength(tail)) && IsRun(source, tail[..FrontLength(tail)])
    ensures Replaces(reading, source, tail[..FrontLength(tail)], Front(reading, source, tail))
  {
    var e := FrontLength(tail);
    RunEndIsWhole(tail, 0);
    assert tail[0..] == tail && tail[0..e] == tail[..e];
    hide Replaces, NewRun, RunEnd, IsWholeRun, IsReading;
    WholeRunIsRun(source, tail, e);
    NewRunReplaces(reading, source, tail[..e]);
  }

  /** The step computed is the step told. */
  lemma StepReplaces(reading: Reading, source: string, nodes: seq<Inline>, first: nat, to: seq<Inline>, after: nat)
    requires IsReading(reading) && first < |nodes| && Fits(source, nodes[first..])
    requires StepTaken(reading, source, nodes, first, to, after)
    ensures RunReplaced(reading, source, nodes, first, to, after)
  {
    hide Replaces, NewRun, RunEnd, IsWholeRun, IsReading, Fits, Spliced, IsRun;
    var tail := nodes[first..];
    var e, front := FrontLength(tail), Front(reading, source, tail);
    SplicedParts(nodes, first, e, front);
    if tail[0].Plain() {
      hide Front, FrontLength;
      FrontIsTold(reading, source, tail);
    } else {
      SplicedSame(nodes, first, 1);
      assert tail[..1] == [tail[0]];
    }
  }

  /** The whole walk, run by run. */
  lemma {:induction false} RewrittenIsWalked(reading: Reading, source: string, nodes: seq<Inline>)
    requires IsReading(reading) && Fits(source, nodes)
    ensures Walked(reading, source, nodes, Rewritten(reading, source, nodes))
    decreases |nodes|
  {
    hide Replaces, NewRun, RunEnd, IsWholeRun, IsReading;
    if nodes != [] {
      var e, to := FrontLength(nodes), Rewritten(reading, source, nodes);
      TailFits(source, nodes, e);
      RewrittenIsWalked(reading, source, nodes[e..]);
      var front, more := Front(reading, source, nodes), Rewritten(reading, source, nodes[e..]);
      assert to == front + more && to[..|front|] == front && to[|front|..] == more;
      if nodes[0].Plain() {
        RunEndIsWhole(nodes, 0);
        assert nodes[0..] == nodes && nodes[0..e] == nodes[..e];
        WholeRunIsRun(source, nodes, e);
        NewRunReplaces(reading, source, nodes[..e]);
      }
    }
  }

  // ---------------------------------------------------------------------------
  // The code that does it
  // ---------------------------------------------------------------------------

  lemma PiecesGrow(start: nat, ms: seq<Match>, k: nat, pos: nat, last: Inline, done: seq<Inline>)
    requires k < |ms| && last.Text?
    ensures done + Pieces(start, ms, k, pos, last) ==
              done + (Gap(pos, start + ms[k].start) + [RubyNode(start, ms[k])])
              + Pieces(start, ms, k + 1, start + ms[k].stop, last)
  {
    hide Gap, RubyNode, Rest;
    PiecesStep(start, ms, k, pos, last);
  }

  /** The step of the walk as it is computed. */
  ghost predicate StepTaken(reading: Reading, source: string, nodes: seq<Inline>, first: nat, to: seq<Inline>, after: nat)
    requires IsReading(reading) && first < |nodes| && Fits(source, nodes[first..])
  {
    to == SplicedFront(reading, source, nodes, first) && after == first + |Front(reading, source, nodes[first..])|
  }

  lemma LoneSplice(reading: Reading, source: string, nodes: seq<Inline>, first: nat)
    requires IsReading(reading) && first < |nodes| && Fits(source, nodes[first..]) && !nodes[first].Plain()
    ensures StepTaken(reading, source, nodes, first, nodes, first + 1)
  {
    SplicedSame(nodes, first, 1);
    assert nodes[first..][..1] == [nodes[first]];
  }

  lemma RunSplice(reading: Reading, source: string, nodes: seq<Inline>, first: nat, run: seq<Inline>)
    requires IsReading(reading) && first < |nodes| && Fits(source, nodes[first..]) && nodes[first].Plain()
    requires run == nodes[first..][..FrontLength(nodes[first..])] && IsRun(source, run)
    ensures first + |run| <= |nodes|
    ensures StepTaken(reading, source, nodes, first, Spliced(nodes, first, |run|, NewRun(reading, source, run)),
                      first + |NewRun(reading, source, run)|)
    ensures Spliced(nodes, first, |run|, run) == nodes
  {
    hide IsRun, Fits, NewRun, RunEnd, IsReading;
    SplicedSame(nodes, first, |run|);
    assert nodes[first..][0..|run|] == run;
  }

  /** An inline parent, whose child list the transformer edits in place. */
  class Parent {
    var children: seq<Inline>

    constructor (nodes: seq<Inline>)
      ensures children == nodes
    {
      children := nodes;
    }

    method InsertBefore(at: nat, node: Inline)
      requires at <= |children|
      modifies this
      ensures children == old(children[..at]) + [node] + old(children[at..])
    {
      children := children[..at] + [node] + children[at..];
    }

    method RemoveChild(at: nat)
      requires at < |children|
      modifies this
      ensures children == old(children[..at]) + old(children[at + 1..])
    {
      children := children[..at] + children[at + 1..];
    }

    /** Inserts one match and the text before it. */
    method InsertMatch(at: nat, pos: nat, start: nat, m: Match) returns (after: nat)
      requires at <= |children|
      modifies this
      ensures var piece := Gap(pos, start + m.start) + [RubyNode(start, m)];
        after == at + |piece| && children == old(children[..at]) + piece + old(children[at..])
    {
      after := at;
      if start + m.start > pos {
        InsertBefore(after, Text(pos, start + m.start, false, false, false));
        after := after + 1;
      }
      InsertBefore(after, RubyNode(start, m));
      after := after + 1;
    }

    /** Inserts the pieces of a run before it, one by one. */
    method InsertPieces(start: nat, ms: seq<Match>, first: nat, last: Inline) returns (at: nat)
      requires first <= |children| && last.Text?
      modifies this
      ensures at == first + |Pieces(start, ms, 0, start, last)|
      ensures children == Placed(old(children[..first]), Pieces(start, ms, 0, start, last), old(children[first..]))
    {
      at := first;
      var pos: nat, k: nat := start, 0;
      ghost var all, before, behind := Pieces(start, ms, 0, start, last), children[..first], children[first..];
      ghost var done: seq<Inline> := [];
      NothingPlaced(children, first);
      assert all == done + all;
      hide Gap, RubyNode, Rest, Placed;
      while k < |ms|
        invariant k <= |ms| && at == first + |done|
        invariant all == done + Pieces(start, ms, k, pos, last)
        invariant children == Placed(before, done, behind)
      {
        hide Pieces;
        ghost var piece := Gap(pos, start + ms[k].start) + [RubyNode(start, ms[k])];
        PlaceBehind(before, done, behind, piece);
        PiecesGrow(start, ms, k, pos, last, done);
        at := InsertMatch(at, pos, start, ms[k]);
        done := done + piece;
        pos, k := start + ms[k].stop, k + 1;
      }
      PlaceBehind(before, done, behind, Rest(pos, last));
      PlacedSize(before, done, behind);
      RestIs(pos, last);
      if pos < last.stop || last.Breaks() {
        InsertBefore(at, Text(pos, last.stop, false, last.soft, last.hard));
        at := at + 1;
      }
    }

    /** Removes the `n` children from `at` on. */
    method RemoveRun(at: nat, n: nat)
      requires at + n <= |children|
      modifies this
      ensures children == Spliced(old(children), at, n, [])
    {
      var k := 0;
      ghost var before := children;
      while k < n
        invariant k <= n && children == before[..at] + before[at + k..]
      {
        RemoveChild(at);
        k := k + 1;
      }
    }

    /** The run of text nodes that starts at child `first`. */
    method CollectRun(source: string, first: nat) returns (run: seq<Inline>)
      requires first < |children| && Fits(source, children[first..]) && children[first].Plain()
      ensures run == children[first..][..FrontLength(children[first..])] && IsRun(source, run)
    {
      var end := first + 1;
      ghost var tail := children[first..];
      while end < |children| && Continues(children[end - 1], children[end])
        invariant first < end <= |children| && RunEnd(tail, end - 1 - first) == RunEnd(tail, 0)
      {
        assert children[end - 1] == tail[end - 1 - first] && children[end] == tail[end - first];
        end := end + 1;
      }
      assert RunEnd(tail, 0) == end - first;
      RunIsRun(source, tail, 0);
      run := children[first..end];
      assert tail[0..end - first] == run == tail[..end - first];
    }

    /** Rewrites the run that starts at child `first`, and returns the place of the
        sibling behind it.  The other siblings stay. */
    method RewriteTextRun(reading: Reading, source: string, first: nat) returns (after: nat)
      requires IsReading(reading) && first < |children| && Fits(source, children[first..])
      modifies this
      ensures RunReplaced(reading, source, old(children), first, children, after)
      ensures StepTaken(reading, source, old(children), first, children, after)
    {
      hide Pieces, RunEnd, Fits, IsRun, Rubies, Spliced, Placed, IsReading, FrontLength, NewRun, RunReplaced, StepTaken;
      ghost var nodes := children;
      after := SpliceRun(reading, source, first);
      StepReplaces(reading, source, nodes, first, children, after);
    }

    method SpliceRun(reading: Reading, source: string, first: nat) returns (after: nat)
      requires IsReading(reading) && first < |children| && Fits(source, children[first..])
      modifies this
      ensures StepTaken(reading, source, old(children), first, children, after)
    {
      ghost var nodes := children;
      hide Pieces, RunEnd, Fits, IsRun, Rubies, Spliced, Placed, IsReading, FrontLength, NewRun, StepTaken;
      if !children[first].Plain() {
        LoneSplice(reading, source, nodes, first);
        return first + 1;
      }
      var run := CollectRun(source, first);
      RunSplice(reading, source, nodes, first, run);
      var last := run[|run| - 1];
      RunSpan(source, run, |run| - 1);
      var ms := FindRubies(reading, source[run[0].start..last.stop]);
      NewRunIs(reading, source, run);
      if |ms| == 0 {
        return first + |run|;
      }
      after := InsertPieces(run[0].start, ms, first, last);
      RunBehind(nodes, first, |run|, NewRun(reading, source, run));
      RemoveRun(after, |run|);
    }

    /** The walk over the children of one node. */
    method RewriteChildren(reading: Reading, source: string)
      requires IsReading(reading) && Fits(source, children)
      modifies this
      ensures Walked(reading, source, old(children), children)
      ensures children == Rewritten(reading, source, old(children))
    {
      RewrittenIsWalked(reading, source, children);
      var c: nat := 0;
      ghost var done, rest := [], children;
      ghost var all := Rewritten(reading, source, rest);
      assert children == [] + rest && all == [] + all;
      while c < |children|
        invariant c == |done| && children == done + rest && Fits(source, rest)
        invariant all == done + Rewritten(reading, source, rest)
        decreases |rest|
      {
        hide Front, FrontLength, Fits, IsReading, Spliced, RunReplaced, Walked;
        ghost var front, e := Front(reading, source, rest), FrontLength(rest);
        SplicedBehind(done, rest, e, front);
        TailFits(source, rest, e);
        c := RewriteTextRun(reading, source, c);
        Associate(done, front, Rewritten(reading, source, rest[e..]));
        done, rest := done + front, rest[e..];
      }
    }
  }

  lemma SplicedBehind<T>(done: seq<T>, rest: seq<T>, e: nat, front: seq<T>)
    requires e <= |rest|
    ensures (done + rest)[|done|..] == rest
    ensures Spliced(done + rest, |done|, e, front) == done + front + rest[e..]
  {
    var all := done + rest;
    assert all[..|done|] == done && all[|done| + e..] == rest[e..];
  }

  lemma Associate<T>(a: seq<T>, b: seq<T>, c: seq<T>)
    ensures a + (b + c) == a + b + c
  {
  }
}
