/**
 The pages manifest: one root a line, sorted, and the slash form of a root.
 */
module Manifest {
  import opened FileTree
  import opened Promotion
  import opened Pruning
  import opened Strings

  // ---------------------------------------------------------------------------
  // writePagesManifest, readPagesManifest
  // ---------------------------------------------------------------------------

  function Text(lines: seq<string>): string {
    if lines == [] then "" else Join(lines, '\n') + "\n"
  }

  function Read(text: string): set<string> {
    set l | l in Split(text, '\n') && TrimSpace(l) != "" :: TrimSpace(l)
  }

  /** A root the manifest can carry. */
  predicate Clean(root: string) {
    root != "" && '\n' !in root && TrimSpace(root) == root
  }

  lemma {:induction false} JoinThenBreak(lines: seq<string>)
    requires lines != []
    ensures Join(lines, '\n') + "\n" == Join(lines + [""], '\n')
  {
    if |lines| > 1 {
      JoinThenBreak(lines[1..]);
      assert (lines + [""])[1..] == lines[1..] + [""];
    } else {
      assert (lines + [""])[1..] == [""];
    }
  }

  lemma CleanReadsBack(lines: seq<string>)
    requires forall l :: l in lines ==> Clean(l)
    ensures Read(Text(lines)) == set l | l in lines
  {
    if lines == [] {
      assert Split("", '\n') == [""];
      assert TrimSpace("") == "";
    } else {
      JoinThenBreak(lines);
      SplitJoin(lines + [""], '\n');
      assert TrimSpace("") == "";
      var parts := Split(Text(lines), '\n');
      forall l ensures l in Read(Text(lines)) <==> l in lines {
        if l in lines { assert l in parts && TrimSpace(l) == l; }
      }
    }
  }

  lemma ReadIsClean(text: string)
    ensures forall r :: r in Read(text) ==> Clean(r)
  {
    SplitPartsHaveNoSep(text, '\n');
    forall r | r in Read(text) ensures Clean(r) {
      var l :| l in Split(text, '\n') && TrimSpace(l) != "" && r == TrimSpace(l);
      TrimShape(l);
      TrimmedStays(r);
    }
  }

  /** Reading undoes writing exactly for the roots a line can carry. */
  lemma ManifestRoundTrip(lines: seq<string>)
    ensures Read(Text(lines)) == (set l | l in lines) <==> forall l :: l in lines ==> Clean(l)
  {
    if forall l :: l in lines ==> Clean(l) {
      CleanReadsBack(lines);
    } else {
      ReadIsClean(Text(lines));
      var l :| l in lines && !Clean(l);
      assert l in set l | l in lines;
    }
  }

  // ---------------------------------------------------------------------------
  // Roots in slash form
  // ---------------------------------------------------------------------------

  function Slash(p: Path): string {
    Join(p, '/')
  }

  function Count(s: string, c: char): nat {
    if s == "" then 0 else (if s[0] == c then 1 else 0) + Count(s[1..], c)
  }

  lemma PageSegmentsHaveNoSlash(p: Path)
    requires PagePath(p)
    ensures forall seg :: seg in p ==> '/' !in seg && '\n' !in seg && seg != ""
  {
    forall seg | seg in p ensures '/' !in seg && '\n' !in seg && seg != "" {
      var i :| 0 <= i < |p| && p[i] == seg;
      assert SlugSegment(p[i]);
    }
  }

  lemma SlashReadsBack(p: Path)
    requires PagePath(p)
    ensures Split(Slash(p), '/') == p
  {
    PageSegmentsHaveNoSlash(p);
    SplitJoin(p, '/');
  }

  lemma {:induction false} JoinAppend(r: seq<string>, x: seq<string>, sep: char)
    requires r != [] && x != []
    ensures Join(r + x, sep) == Join(r, sep) + [sep] + Join(x, sep)
  {
    if |r| == 1 {
      assert (r + x)[1..] == x;
    } else {
      JoinAppend(r[1..], x, sep);
      assert (r + x)[1..] == r[1..] + x;
    }
  }

  /** The program's test on strings is the prefix test on segments, and its
      slice the rest of the segments. */
  lemma SlashPrefix(r: Path, c: Path)
    requires PagePath(r) && PagePath(c)
    ensures Slash(r) + "/" <= Slash(c) <==> r <= c && r != c
    ensures r <= c && r != c ==> Slash(c)[|Slash(r)| + 1..] == Slash(c[|r|..])
  {
    if r <= c && r != c {
      var x := c[|r|..];
      assert c == r + x;
      JoinAppend(r, x, '/');
      assert Slash(c) == Slash(r) + "/" + Slash(x);
    }
    if Slash(r) + "/" <= Slash(c) {
      var rest := Slash(c)[|Slash(r)| + 1..];
      assert Slash(c) == Slash(r) + ['/'] + rest;
      SplitAppend(Slash(r), rest, '/');
      SlashReadsBack(r);
      SlashReadsBack(c);
      assert c == r + Split(rest, '/');
    }
  }

  lemma {:induction false} CountAppend(a: string, b: string, c: char)
    ensures Count(a + b, c) == Count(a, c) + Count(b, c)
  {
    if a == "" {
      assert a + b == b;
    } else {
      assert (a + b)[1..] == a[1..] + b;
      CountAppend(a[1..], b, c);
    }
  }

  lemma {:induction false} CountNone(a: string, c: char)
    requires c !in a
    ensures Count(a, c) == 0
  {
    if a != "" {
      CountNone(a[1..], c);
    }
  }

  /** The depth the program sorts by is the number of segments. */
  lemma {:induction false} SlashDepth(p: seq<string>)
    requires p != [] && forall seg :: seg in p ==> '/' !in seg
    ensures Count(Slash(p), '/') + 1 == |p|
  {
    CountNone(p[0], '/');
    if |p| > 1 {
      SlashDepth(p[1..]);
      assert Slash(p) == p[0] + (['/'] + Slash(p[1..]));
      CountAppend(p[0], ['/'] + Slash(p[1..]), '/');
      assert (['/'] + Slash(p[1..]))[1..] == Slash(p[1..]);
    }
  }

  // ---------------------------------------------------------------------------
  // Sorting the lines
  // ---------------------------------------------------------------------------

  predicate Less(a: string, b: string) {
    b != "" && (a == "" || a[0] < b[0] || (a[0] == b[0] && Less(a[1..], b[1..])))
  }

  lemma {:induction false} LessTotal(a: string, b: string)
    ensures a == b || Less(a, b) || Less(b, a)
    ensures !(Less(a, b) && Less(b, a)) && (a == b ==> !Less(a, b))
  {
    if a != "" && b != "" && a[0] == b[0] {
      LessTotal(a[1..], b[1..]);
      assert a == [a[0]] + a[1..] && b == [b[0]] + b[1..];
    }
  }

  lemma {:induction false} LessTransitive(a: string, b: string, c: string)
    requires Less(a, b) && Less(b, c)
    ensures Less(a, c)
  {
    if a != "" && a[0] == b[0] && b[0] == c[0] {
      LessTransitive(a[1..], b[1..], c[1..]);
    }
  }

  ghost predicate Sorted(lines: seq<string>) {
    forall i, j | 0 <= i < j < |lines| :: Less(lines[i], lines[j])
  }

  ghost predicate SortedLines(lines: seq<string>, roots: set<string>) {
    Sorted(lines) && forall l :: l in lines <==> l in roots
  }

  /** The file depends on the set of roots alone. */
  lemma {:induction false} SortedUnique(a: seq<string>, b: seq<string>, roots: set<string>)
    requires SortedLines(a, roots) && SortedLines(b, roots)
    ensures a == b
  {
    assert (a == [] || a[0] in a) && (b == [] || b[0] in b);
    if a != [] {
      assert b != [] by { assert a[0] in b; }
      assert a[0] == b[0] by {
        assert b[0] in b;
        var i :| 0 <= i < |b| && b[i] == a[0];
        var j :| 0 <= j < |a| && a[j] == b[0];
        LessTotal(a[0], b[0]);
      }
      TailSorted(a, roots);
      TailSorted(b, roots);
      SortedUnique(a[1..], b[1..], roots - {a[0]});
      assert a == [a[0]] + a[1..] && b == [b[0]] + b[1..];
    }
  }

  lemma TailSorted(a: seq<string>, roots: set<string>)
    requires SortedLines(a, roots) && a != []
    ensures SortedLines(a[1..], roots - {a[0]})
  {
    forall l ensures l in a[1..] <==> l in roots - {a[0]} {
      if l in a[1..] {
        var i :| 0 <= i < |a| - 1 && a[1..][i] == l;
        assert a[i + 1] == l && l in a;
        LessTotal(a[0], l);
      }
      if l in roots && l != a[0] {
        assert l in a;
        var i :| 0 <= i < |a| && a[i] == l;
        assert a[1..][i - 1] == l;
      }
    }
  }

  /** Inserts a new line where it belongs. */
  method Insert(lines: seq<string>, l: string) returns (out: seq<string>)
    requires Sorted(lines) && l !in lines
    ensures Sorted(out) && forall x :: x in out <==> x in lines || x == l
  {
    var i := 0;
    while i < |lines| && Less(lines[i], l)
      invariant 0 <= i <= |lines|
      invariant forall j | 0 <= j < i :: Less(lines[j], l)
    {
      i := i + 1;
    }
    out := lines[..i] + [l] + lines[i..];
    if i < |lines| { LessTotal(lines[i], l); }
    forall a, b | 0 <= a < b < |out| ensures Less(out[a], out[b]) {
      if i < b && a == i && b > i + 1 { LessTransitive(l, lines[i], lines[b - 1]); }
    }
    assert lines == lines[..i] + lines[i..];
  }

  ghost predicate IsManifest(text: string, roots: set<string>) {
    exists lines :: SortedLines(lines, roots) && text == Text(lines)
  }

  /** `writePagesManifest`: whatever order the map yields its keys in, the text is
      that of the sorted lines. */
  method WritePagesManifest(roots: set<string>) returns (text: string)
    ensures IsManifest(text, roots)
  {
    if roots == {} {
      assert SortedLines([], roots) && Text([]) == "";
      return "";
    }
    var lines: seq<string> := [];
    var rest := roots;
    while rest != {}
      invariant rest <= roots && SortedLines(lines, roots - rest)
      decreases |rest|
    {
      var r :| r in rest;
      rest := rest - {r};
      lines := Insert(lines, r);
    }
    assert roots - rest == roots;
    text := Join(lines, '\n') + "\n";
    assert lines != [] && text == Text(lines) by { var r :| r in roots; }
  }

  /** `readPagesManifest` on the text of an existing file. */
  method ReadPagesManifest(text: string) returns (roots: set<string>)
    ensures roots == Read(text)
  {
    var lines := Split(text, '\n');
    roots := {};
    for i := 0 to |lines|
      invariant roots == set l | l in lines[..i] && TrimSpace(l) != "" :: TrimSpace(l)
    {
      var line := TrimSpace(lines[i]);
      if line != "" {
        roots := roots + {line};
      }
      assert lines[..i + 1] == lines[..i] + [lines[i]];
    }
    assert lines[..|lines|] == lines;
  }
}
