/**
 SB2 record files (`readSB2Records`, `decodeSB2Escapes`) and the two-pass category
 import (`importSB2Categories`) of `internal/importer/sb2.go`.
 */
module Sb2 {
  import opened Strings

  // ---------------------------------------------------------------------------
  // Escapes
  // ---------------------------------------------------------------------------

  /** How SB2 writes a character of a field. */
  function EscapeChar(c: char): string {
    if c == '\\' then "\\\\" else if c == '\t' then "\\t" else if c == '\n' then "\\n" else [c]
  }

  function Escape(field: string): string {
    if field == "" then "" else EscapeChar(field[0]) + Escape(field[1..])
  }

  function Unescaped(next: char): char {
    if next == 't' then '\t' else if next == 'n' then '\n' else next
  }

  function Decode(s: string): string {
    if s == "" then ""
    else if s[0] != '\\' || |s| == 1 then [s[0]] + Decode(s[1..])
    else [Unescaped(s[1])] + Decode(s[2..])
  }

  lemma {:induction false} NoEscapesStay(s: string)
    requires '\\' !in s
    ensures Decode(s) == s
  {
    if s != "" {
      assert s[0] in s;
      NoEscapesStay(s[1..]);
    }
  }

  /** One step of the loop: a character as it is, or an escape. */
  lemma DecodeStep(s: string, i: nat, out: string)
    requires i < |s|
    ensures s[i] != '\\' || i + 1 == |s| ==> out + Decode(s[i..]) == out + [s[i]] + Decode(s[i + 1..])
    ensures s[i] == '\\' && i + 1 < |s| ==> out + Decode(s[i..]) == out + [Unescaped(s[i + 1])] + Decode(s[i + 2..])
  {
    var t := s[i..];
    assert t[1..] == s[i + 1..];
    if i + 1 < |s| { assert t[2..] == s[i + 2..]; }
  }

  method DecodeEscapes(s: string) returns (out: string)
    ensures out == Decode(s)
  {
    if '\\' !in s {
      NoEscapesStay(s);
      return s;
    }
    hide Decode;
    out := "";
    var i := 0;
    assert s[0..] == s && Decode(s) == "" + Decode(s);
    while i < |s|
      invariant i <= |s| && Decode(s) == out + Decode(s[i..])
    {
      DecodeStep(s, i, out);
      var c := s[i];
      if c != '\\' || i + 1 >= |s| {
        out := out + [c];
        i := i + 1;
        continue;
      }
      var next := s[i + 1];
      if next == 't' {
        out := out + "\t";
      } else if next == 'n' {
        out := out + "\n";
      } else {
        out := out + [next];
      }
      i := i + 2;
    }
    NoEscapesStay("");
    assert s[i..] == "";
  }

  /** What a backslash means: before t a tab, before n a newline, before anything else
      just that, and at the end itself. */
  lemma EscapesMean(c: char, s: string)
    ensures Decode("\\" + [c] + s) == [if c == 't' then '\t' else if c == 'n' then '\n' else c] + Decode(s)
    ensures c != '\\' ==> Decode([c] + s) == [c] + Decode(s)
    ensures Decode("\\") == "\\" && Decode("") == ""
  {
    var escaped, plain := "\\" + [c] + s, [c] + s;
    assert escaped[2..] == s && escaped[1] == c && plain[1..] == s;
    assert "\\"[1..] == "";
  }

  lemma {:induction false} EscapeReadsBack(field: string)
    ensures Decode(Escape(field)) == field
  {
    if field != "" {
      var c, rest := field[0], Escape(field[1..]);
      EscapeReadsBack(field[1..]);
      var s := EscapeChar(c) + rest;
      if c in {'\\', '\t', '\n'} { assert s[2..] == rest; } else { assert s[1..] == rest; }
    }
  }

  lemma {:induction false} EscapeHasNoSeparators(field: string)
    ensures '\t' !in Escape(field) && '\n' !in Escape(field)
  {
    if field != "" { EscapeHasNoSeparators(field[1..]); }
  }

  // ---------------------------------------------------------------------------
  // Records
  // ---------------------------------------------------------------------------

  type Record = seq<string>

  /** bufio.ScanLines but for the carriage returns: no line behind a final newline. */
  function Lines(text: string): seq<string> {
    var parts := Split(text, '\n');
    if parts[|parts| - 1] == "" then parts[..|parts| - 1] else parts
  }

  function TrimReturns(s: string): string {
    if s != "" && s[|s| - 1] == '\r' then TrimReturns(s[..|s| - 1]) else s
  }

  function RecordOf(line: string): Record {
    var fields := Split(line, '\t');
    seq(|fields|, i requires 0 <= i < |fields| => Decode(fields[i]))
  }

  /** The records of the first `n` lines; blank lines have none. */
  function RecordsOf(lines: seq<string>, n: nat): seq<Record>
    requires n <= |lines|
  {
    if n == 0 then []
    else RecordsOf(lines, n - 1) + if TrimReturns(lines[n - 1]) == "" then [] else [RecordOf(TrimReturns(lines[n - 1]))]
  }

  function Records(text: string): seq<Record> {
    RecordsOf(Lines(text), |Lines(text)|)
  }

  method ReadRecords(text: string) returns (out: seq<Record>)
    ensures out == Records(text)
  {
    out := [];
    var lines := Lines(text);
    var n := 0;
    while n < |lines|
      invariant n <= |lines| && out == RecordsOf(lines, n)
    {
      var line := TrimReturns(lines[n]);
      n := n + 1;
      if line == "" {
        continue;
      }
      var fields := Split(line, '\t');
      ghost var raw := fields;
      var i := 0;
      while i < |fields|
        invariant i <= |fields| == |raw|
        invariant forall k | 0 <= k < i :: fields[k] == Decode(raw[k])
        invariant forall k | i <= k < |raw| :: fields[k] == raw[k]
      {
        var f := DecodeEscapes(fields[i]);
        fields := fields[i := f];
        i := i + 1;
      }
      assert fields == RecordOf(line);
      out := out + [fields];
    }
  }

  // ---------------------------------------------------------------------------
  // Printed records read back
  // ---------------------------------------------------------------------------

  /** A tab after every field. */
  function PrintRecord(r: Record): string {
    if r == [] then "" else Escape(r[0]) + "\t" + PrintRecord(r[1..])
  }

  function PrintRecords(rs: seq<Record>): string {
    if rs == [] then "" else PrintRecord(rs[0]) + "\n" + PrintRecords(rs[1..])
  }

  function Escapes(r: Record): seq<string> {
    seq(|r|, i requires 0 <= i < |r| => Escape(r[i]))
  }

  lemma NothingSplits(sep: char)
    ensures Split("", sep) == [""]
  {
  }

  lemma {:induction false} PrintedRecordSplits(r: Record)
    ensures Split(PrintRecord(r), '\t') == Escapes(r) + [""]
    ensures '\n' !in PrintRecord(r)
  {
    hide Escape, Split;
    if r != [] {
      var f, rest := Escape(r[0]), PrintRecord(r[1..]);
      PrintedRecordSplits(r[1..]);
      EscapeHasNoSeparators(r[0]);
      SplitWhole(f, '\t');
      SplitAppend(f, rest, '\t');
      assert Escapes(r) == [f] + Escapes(r[1..]);
      assert [f] + (Escapes(r[1..]) + [""]) == Escapes(r) + [""];
    } else {
      assert Escapes(r) + [""] == [""];
      NothingSplits('\t');
    }
  }

  /** The trailing tab becomes one empty field; being a tab, it keeps carriage returns
      in the last field from being taken for the line's end. */
  lemma PrintedRecordReadsBack(r: Record)
    requires r != []
    ensures TrimReturns(PrintRecord(r)) == PrintRecord(r) != "" && RecordOf(PrintRecord(r)) == r + [""]
  {
    PrintedRecordSplits(r);
    var fields := Split(PrintRecord(r), '\t');
    forall i | 0 <= i < |r| ensures Decode(fields[i]) == r[i] { EscapeReadsBack(r[i]); }
    assert fields[|r|] == "";
    PrintedEndsInTab(r);
  }

  lemma {:induction false} PrintedEndsInTab(r: Record)
    requires r != []
    ensures var s := PrintRecord(r); s != "" && s[|s| - 1] == '\t'
  {
    if |r| > 1 { PrintedEndsInTab(r[1..]); }
  }

  function PrintedLines(rs: seq<Record>): seq<string> {
    seq(|rs|, i requires 0 <= i < |rs| => PrintRecord(rs[i]))
  }

  lemma {:induction false} PrintedSplits(rs: seq<Record>)
    ensures Split(PrintRecords(rs), '\n') == PrintedLines(rs) + [""]
  {
    hide PrintRecord, Split;
    if rs != [] {
      var line, rest := PrintRecord(rs[0]), PrintRecords(rs[1..]);
      PrintedSplits(rs[1..]);
      PrintedRecordSplits(rs[0]);
      SplitWhole(line, '\n');
      SplitAppend(line, rest, '\n');
      assert PrintedLines(rs) == [line] + PrintedLines(rs[1..]);
      assert [line] + (PrintedLines(rs[1..]) + [""]) == PrintedLines(rs) + [""];
    } else {
      assert PrintedLines(rs) + [""] == [""];
      NothingSplits('\n');
    }
  }

  /** What is read back: the records that have a field, each with an empty one more. */
  function ReadBack(rs: seq<Record>, n: nat): seq<Record>
    requires n <= |rs|
  {
    if n == 0 then [] else ReadBack(rs, n - 1) + if rs[n - 1] == [] then [] else [rs[n - 1] + [""]]
  }

  lemma NothingPrinted()
    ensures PrintRecord([]) == "" && TrimReturns("") == ""
  {
  }

  lemma {:induction false} PrintedLinesReadBack(rs: seq<Record>, n: nat)
    requires n <= |rs|
    ensures RecordsOf(PrintedLines(rs), n) == ReadBack(rs, n)
  {
    hide PrintRecord, RecordOf, TrimReturns;
    if n > 0 {
      assert PrintRecord([]) == "" && TrimReturns("") == "" by { NothingPrinted(); }
      PrintedLinesReadBack(rs, n - 1);
      if rs[n - 1] != [] { PrintedRecordReadsBack(rs[n - 1]); }
    }
  }

  /** Any records, over any characters, survive printing and reading but for an empty
      field more; records without fields are the only ones lost. */
  lemma PrintedRecordsReadBack(rs: seq<Record>)
    ensures Records(PrintRecords(rs)) == ReadBack(rs, |rs|)
    ensures (forall r :: r in rs ==> r != []) ==>
              |Records(PrintRecords(rs))| == |rs| && forall i | 0 <= i < |rs| :: Records(PrintRecords(rs))[i] == rs[i] + [""]
  {
    PrintedSplits(rs);
    var lines := Lines(PrintRecords(rs));
    assert (PrintedLines(rs) + [""])[..|rs|] == PrintedLines(rs);
    PrintedLinesReadBack(rs, |rs|);
    if forall r :: r in rs ==> r != [] { NoneLost(rs, |rs|); }
  }

  /** The records with carriage returns, if any, at the end of each line. */
  function PrintedWith(rs: seq<Record>, ends: seq<string>): string
    requires |ends| == |rs|
  {
    if rs == [] then "" else PrintRecord(rs[0]) + ends[0] + "\n" + PrintedWith(rs[1..], ends[1..])
  }

  function LinesWith(rs: seq<Record>, ends: seq<string>): seq<string>
    requires |ends| == |rs|
  {
    seq(|rs|, i requires 0 <= i < |rs| => PrintRecord(rs[i]) + ends[i])
  }

  predicate AllReturns(s: string) {
    forall i | 0 <= i < |s| :: s[i] == '\r'
  }

  lemma {:induction false} WithSplits(rs: seq<Record>, ends: seq<string>)
    requires |ends| == |rs| && forall i | 0 <= i < |ends| :: AllReturns(ends[i])
    ensures Split(PrintedWith(rs, ends), '\n') == LinesWith(rs, ends) + [""]
  {
    hide PrintRecord, Split;
    if rs != [] {
      var line, rest := PrintRecord(rs[0]) + ends[0], PrintedWith(rs[1..], ends[1..]);
      WithSplits(rs[1..], ends[1..]);
      PrintedRecordSplits(rs[0]);
      assert '\n' !in ends[0] by { assert AllReturns(ends[0]); }
      SplitWhole(line, '\n');
      SplitAppend(line, rest, '\n');
      assert LinesWith(rs, ends) == [line] + LinesWith(rs[1..], ends[1..]);
      assert [line] + (LinesWith(rs[1..], ends[1..]) + [""]) == LinesWith(rs, ends) + [""];
    } else {
      assert LinesWith(rs, ends) + [""] == [""];
      NothingSplits('\n');
    }
  }

  lemma {:induction false} ReturnsTrimmed(s: string, end: string)
    requires AllReturns(end)
    ensures TrimReturns(s + end) == TrimReturns(s)
  {
    if end == "" {
      assert s + end == s;
    } else {
      assert (s + end)[..|s + end| - 1] == s + end[..|end| - 1];
      ReturnsTrimmed(s, end[..|end| - 1]);
    }
  }

  lemma {:induction false} LinesWithReadBack(rs: seq<Record>, ends: seq<string>, n: nat)
    requires |ends| == |rs| && n <= |rs| && forall i | 0 <= i < |ends| :: AllReturns(ends[i])
    ensures RecordsOf(LinesWith(rs, ends), n) == ReadBack(rs, n)
  {
    hide PrintRecord, RecordOf, TrimReturns, AllReturns;
    if n > 0 {
      assert PrintRecord([]) == "" && TrimReturns("") == "" by { NothingPrinted(); }
      LinesWithReadBack(rs, ends, n - 1);
      ReturnsTrimmed(PrintRecord(rs[n - 1]), ends[n - 1]);
      if rs[n - 1] != [] { PrintedRecordReadsBack(rs[n - 1]); }
    }
  }

  /** Carriage returns at the ends of the lines make no difference. */
  lemma ReturnsMakeNoDifference(rs: seq<Record>, ends: seq<string>)
    requires |ends| == |rs| && forall i | 0 <= i < |ends| :: AllReturns(ends[i])
    ensures Records(PrintedWith(rs, ends)) == Records(PrintRecords(rs))
  {
    WithSplits(rs, ends);
    var lines := Lines(PrintedWith(rs, ends));
    assert (LinesWith(rs, ends) + [""])[..|rs|] == LinesWith(rs, ends);
    LinesWithReadBack(rs, ends, |rs|);
    PrintedRecordsReadBack(rs);
  }

  lemma {:induction false} NoneLost(rs: seq<Record>, n: nat)
    requires n <= |rs| && forall r :: r in rs ==> r != []
    ensures |ReadBack(rs, n)| == n && forall i | 0 <= i < n :: ReadBack(rs, n)[i] == rs[i] + [""]
  {
    if n > 0 {
      NoneLost(rs, n - 1);
      assert rs[n - 1] in rs;
    }
  }

  // ---------------------------------------------------------------------------
  // Categories: parents by remapped id
  // ---------------------------------------------------------------------------

  /** A legacy category; its parent column may be blank. */
  datatype Category = Category(id: int, hasParent: bool, main: int)

  datatype Row = Row(legacyId: int, parent: int)

  /** The last of the first `n` categories with this id; `n` if there is none. */
  function LastWith(cats: seq<Category>, n: nat, id: int): (i: nat)
    requires n <= |cats|
    ensures i <= n && (i < n ==> cats[i].id == id) && forall k | i < k < n :: cats[k].id != id
    ensures i == n ==> forall k | 0 <= k < n :: cats[k].id != id
  {
    if n == 0 then 0
    else if cats[n - 1].id == id then n - 1
    else
      var i := LastWith(cats, n - 1, id);
      if i == n - 1 then n else i
  }

  /** The row id of the parent of category `i`, where row `k` has the id `first + k`;
      0 for none. */
  function NewParent(cats: seq<Category>, first: int, i: nat): int
    requires i < |cats|
  {
    var j := LastWith(cats, |cats|, cats[i].main);
    if cats[i].hasParent && j < |cats| then first + j else 0
  }

  ghost predicate Fixed(cats: seq<Category>, first: int, fixups: seq<nat>, k: nat, rows: seq<Row>)
    requires k <= |fixups|
  {
    && |rows| == |cats|
    && forall i | 0 <= i < |cats| :: rows[i] == Row(cats[i].id, if i in fixups[..k] then NewParent(cats, first, i) else 0)
  }

  /** The categories, in order, that have a parent column. */
  ghost predicate AllFixups(cats: seq<Category>, n: nat, fixups: seq<nat>)
    requires n <= |cats|
  {
    forall i: nat {:trigger i in fixups} :: i in fixups <==> i < n && cats[i].hasParent
  }

  ghost predicate Mapped(cats: seq<Category>, first: int, n: nat, idMap: map<int, int>)
    requires n <= |cats|
  {
    forall id {:trigger id in idMap} ::
      (id in idMap <==> LastWith(cats, n, id) < n) && (id in idMap ==> idMap[id] == first + LastWith(cats, n, id))
  }

  lemma MapOneMore(cats: seq<Category>, first: int, n: nat, idMap: map<int, int>)
    requires n < |cats| && Mapped(cats, first, n, idMap)
    ensures Mapped(cats, first, n + 1, idMap[cats[n].id := first + n])
  {
  }

  lemma NothingMapped(cats: seq<Category>, first: int)
    ensures Mapped(cats, first, 0, map[]) && AllFixups(cats, 0, [])
  {
  }

  lemma FixupOneMore(cats: seq<Category>, n: nat, fixups: seq<nat>)
    requires n < |cats| && AllFixups(cats, n, fixups)
    ensures AllFixups(cats, n + 1, if cats[n].hasParent then fixups + [n] else fixups)
  {
  }

  lemma FixupsHaveParents(cats: seq<Category>, fixups: seq<nat>, k: nat)
    requires AllFixups(cats, |cats|, fixups) && k < |fixups|
    ensures fixups[k] < |cats| && cats[fixups[k]].hasParent
  {
    assert fixups[k] in fixups;
  }

  lemma NothingFixed(cats: seq<Category>, first: int, fixups: seq<nat>, rows: seq<Row>)
    requires |rows| == |cats| && forall i | 0 <= i < |cats| :: rows[i] == Row(cats[i].id, 0)
    ensures Fixed(cats, first, fixups, 0, rows)
  {
  }

  lemma FixOne(cats: seq<Category>, first: int, fixups: seq<nat>, k: nat, rows: seq<Row>, parent: int)
    requires k < |fixups| && Fixed(cats, first, fixups, k, rows) && fixups[k] < |cats|
    requires parent == NewParent(cats, first, fixups[k])
    ensures Fixed(cats, first, fixups, k + 1, rows[fixups[k] := Row(cats[fixups[k]].id, parent)])
  {
    assert fixups[..k + 1] == fixups[..k] + [fixups[k]];
  }

  lemma FixNone(cats: seq<Category>, first: int, fixups: seq<nat>, k: nat, rows: seq<Row>)
    requires k < |fixups| && Fixed(cats, first, fixups, k, rows) && fixups[k] < |cats|
    requires NewParent(cats, first, fixups[k]) == 0
    ensures Fixed(cats, first, fixups, k + 1, rows)
  {
    assert fixups[..k + 1] == fixups[..k] + [fixups[k]];
  }

  /** First all rows without parents, then the parents, so that a parent may come
      behind its child.  Row `k` gets the id `first + k`. */
  method ImportCategories(cats: seq<Category>, first: int) returns (rows: seq<Row>, idMap: map<int, int>)
    ensures |rows| == |cats|
    ensures forall i | 0 <= i < |cats| :: rows[i] == Row(cats[i].id, NewParent(cats, first, i))
    ensures Mapped(cats, first, |cats|, idMap)
  {
    hide Fixed, LastWith, Mapped, NewParent, AllFixups;
    rows, idMap := [], map[];
    var fixups: seq<nat> := [];
    NothingMapped(cats, first);
    var n: nat := 0;
    while n < |cats|
      invariant n <= |cats| && |rows| == n
      invariant forall i | 0 <= i < n :: rows[i] == Row(cats[i].id, 0)
      invariant Mapped(cats, first, n, idMap) && AllFixups(cats, n, fixups)
    {
      var c := cats[n];
      rows := rows + [Row(c.id, 0)];
      MapOneMore(cats, first, n, idMap);
      idMap := idMap[c.id := first + n];
      FixupOneMore(cats, n, fixups);
      if c.hasParent {
        fixups := fixups + [n];
      }
      n := n + 1;
    }
    NothingFixed(cats, first, fixups, rows);
    var k := 0;
    while k < |fixups|
      invariant k <= |fixups| && Fixed(cats, first, fixups, k, rows)
    {
      var i := fixups[k];
      FixupsHaveParents(cats, fixups, k);
      ParentMapped(cats, first, idMap, i);
      if cats[i].main !in idMap {
        FixNone(cats, first, fixups, k, rows);
      } else {
        FixOne(cats, first, fixups, k, rows, idMap[cats[i].main]);
        FixedRow(cats, first, fixups, k, rows, i);
        rows := rows[i := rows[i].(parent := idMap[cats[i].main])];
      }
      k := k + 1;
    }
    AllFixed(cats, first, fixups, rows);
  }

  lemma ParentMapped(cats: seq<Category>, first: int, idMap: map<int, int>, i: nat)
    requires Mapped(cats, first, |cats|, idMap) && i < |cats| && cats[i].hasParent
    ensures NewParent(cats, first, i) == if cats[i].main in idMap then idMap[cats[i].main] else 0
  {
    hide LastWith;
  }

  lemma AllFixed(cats: seq<Category>, first: int, fixups: seq<nat>, rows: seq<Row>)
    requires Fixed(cats, first, fixups, |fixups|, rows) && AllFixups(cats, |cats|, fixups)
    ensures |rows| == |cats| && forall i | 0 <= i < |cats| :: rows[i] == Row(cats[i].id, NewParent(cats, first, i))
  {
    hide LastWith;
    assert fixups[..|fixups|] == fixups;
  }

  lemma FixedRow(cats: seq<Category>, first: int, fixups: seq<nat>, k: nat, rows: seq<Row>, i: nat)
    requires k <= |fixups| && Fixed(cats, first, fixups, k, rows) && i < |cats|
    ensures |rows| == |cats| && rows[i].legacyId == cats[i].id
  {
  }

  predicate UniqueIds(cats: seq<Category>) {
    forall a, b | 0 <= a < b < |cats| :: cats[a].id != cats[b].id
  }

  predicate LegacyParent(cats: seq<Category>, i: nat, j: nat)
    requires i < |cats| && j < |cats|
  {
    cats[i].hasParent && cats[i].main == cats[j].id
  }

  predicate RowParent(rows: seq<Row>, first: int, i: nat, j: nat)
    requires i < |rows|
  {
    rows[i].parent == first + j
  }

  /** With unique legacy ids, one row is the parent of another exactly when its category
      was. */
  lemma ParentIsKept(cats: seq<Category>, first: int, rows: seq<Row>, i: nat, j: nat)
    requires first > 0 && i < |cats| && j < |cats| && UniqueIds(cats) && |rows| == |cats|
    requires rows[i] == Row(cats[i].id, NewParent(cats, first, i))
    ensures RowParent(rows, first, i, j) <==> LegacyParent(cats, i, j)
  {
  }

  /** Category `j` is `n` levels above category `i` in the imported file. */
  ghost predicate LegacyAbove(cats: seq<Category>, i: nat, j: nat, n: nat)
    requires i < |cats| && j < |cats|
    decreases n
  {
    if n == 0 then i == j
    else exists k: nat :: k < |cats| && LegacyParent(cats, i, k) && LegacyAbove(cats, k, j, n - 1)
  }

  /** Row `j` is `n` levels above row `i`. */
  ghost predicate RowAbove(rows: seq<Row>, first: int, i: nat, j: nat, n: nat)
    requires i < |rows| && j < |rows|
    decreases n
  {
    if n == 0 then i == j
    else exists k: nat :: k < |rows| && RowParent(rows, first, i, k) && RowAbove(rows, first, k, j, n - 1)
  }

  /** So the whole tree comes over: every ancestor of a category, and its distance, is
      kept, and nothing becomes an ancestor that was none, in whatever order the
      categories come. */
  lemma {:induction false} TreeIsKept(cats: seq<Category>, first: int, rows: seq<Row>, i: nat, j: nat, n: nat)
    requires first > 0 && i < |cats| && j < |cats| && UniqueIds(cats) && |rows| == |cats|
    requires forall x | 0 <= x < |cats| :: rows[x] == Row(cats[x].id, NewParent(cats, first, x))
    ensures RowAbove(rows, first, i, j, n) <==> LegacyAbove(cats, i, j, n)
    decreases n
  {
    hide NewParent, UniqueIds, LegacyParent, RowParent;
    if n > 0 {
      forall k: nat | k < |cats|
        ensures RowParent(rows, first, i, k) <==> LegacyParent(cats, i, k)
        ensures RowAbove(rows, first, k, j, n - 1) <==> LegacyAbove(cats, k, j, n - 1)
      {
        ParentIsKept(cats, first, rows, i, k);
        TreeIsKept(cats, first, rows, k, j, n - 1);
      }
    }
  }
}
