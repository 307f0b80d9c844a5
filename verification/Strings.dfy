/**
 The string functions of Go's standard library that several parts rely on.
 */
module Strings {
  function Split(s: string, sep: char): (parts: seq<string>)
    ensures |parts| > 0
  {
    if s == "" then [""]
    else Put(s[0], Split(s[1..], sep), sep)
  }

  function Join(parts: seq<string>, sep: char): string {
    if parts == [] then ""
    else if |parts| == 1 then parts[0]
    else parts[0] + [sep] + Join(parts[1..], sep)
  }

  lemma {:induction false} SplitAppend(a: string, b: string, sep: char)
    ensures Split(a + [sep] + b, sep) == Split(a, sep) + Split(b, sep)
  {
    var s := a + [sep] + b;
    if a == "" {
      assert s == [sep] + b && s[1..] == b;
    } else {
      assert s[0] == a[0] && s[1..] == a[1..] + [sep] + b;
      SplitAppend(a[1..], b, sep);
      PutAppend(a[0], Split(a[1..], sep), Split(b, sep), sep);
    }
  }

  /** One more character in front of split parts. */
  function Put(c: char, rest: seq<string>, sep: char): seq<string>
    requires rest != []
  {
    if c == sep then [""] + rest else [[c] + rest[0]] + rest[1..]
  }

  lemma PutAppend(c: char, rest: seq<string>, more: seq<string>, sep: char)
    requires rest != []
    ensures Put(c, rest + more, sep) == Put(c, rest, sep) + more
  {
    assert (rest + more)[1..] == rest[1..] + more;
  }

  lemma {:induction false} SplitWhole(a: string, sep: char)
    requires sep !in a
    ensures Split(a, sep) == [a]
  {
    if a != "" {
      assert a[0] in a && a == [a[0]] + a[1..];
      SplitWhole(a[1..], sep);
    }
  }

  lemma {:induction false} SplitJoin(parts: seq<string>, sep: char)
    requires parts != [] && forall a :: a in parts ==> sep !in a
    ensures Split(Join(parts, sep), sep) == parts
  {
    assert parts[0] in parts;
    SplitWhole(parts[0], sep);
    if |parts| > 1 {
      SplitJoin(parts[1..], sep);
      SplitCons(parts[0], Join(parts[1..], sep), parts[1..], sep);
      assert parts == [parts[0]] + parts[1..];
    }
  }

  lemma SplitCons(a: string, b: string, parts: seq<string>, sep: char)
    requires Split(a, sep) == [a] && Split(b, sep) == parts
    ensures Split(a + [sep] + b, sep) == [a] + parts
  {
    SplitAppend(a, b, sep);
  }

  lemma {:induction false} SplitPartsHaveNoSep(s: string, sep: char)
    ensures forall a :: a in Split(s, sep) ==> sep !in a
  {
    if s != "" {
      SplitPartsHaveNoSep(s[1..], sep);
      var rest := Split(s[1..], sep);
      assert rest[0] in rest;
    }
  }

  /** Go's unicode.IsSpace. */
  predicate IsSpace(c: char) {
    || '\t' <= c <= '\r' || c == ' ' || c == '\U{85}' || c == '\U{A0}' || c == '\U{1680}'
    || '\U{2000}' <= c <= '\U{200A}' || c == '\U{2028}' || c == '\U{2029}' || c == '\U{202F}'
    || c == '\U{205F}' || c == '\U{3000}'
  }

  function TrimLeft(s: string): string {
    if s != "" && IsSpace(s[0]) then TrimLeft(s[1..]) else s
  }

  function TrimRight(s: string): string {
    if s != "" && IsSpace(s[|s| - 1]) then TrimRight(s[..|s| - 1]) else s
  }

  function TrimSpace(s: string): string {
    TrimRight(TrimLeft(s))
  }

  lemma {:induction false} TrimRightShape(s: string)
    ensures var r := TrimRight(s); r <= s && (r == "" || !IsSpace(r[|r| - 1]))
  {
    if s != "" && IsSpace(s[|s| - 1]) {
      TrimRightShape(s[..|s| - 1]);
    }
  }

  lemma {:induction false} TrimLeftShape(s: string)
    ensures var r := TrimLeft(s); r == "" || !IsSpace(r[0])
    ensures forall c :: c in TrimLeft(s) ==> c in s
  {
    if s != "" && IsSpace(s[0]) {
      TrimLeftShape(s[1..]);
    }
  }

  lemma TrimShape(s: string)
    ensures var r := TrimSpace(s);
      && (r == "" || (!IsSpace(r[0]) && !IsSpace(r[|r| - 1])))
      && (forall c :: c in r ==> c in s)
  {
    TrimLeftShape(s);
    TrimRightShape(TrimLeft(s));
  }

  lemma TrimmedStays(s: string)
    requires s == "" || (!IsSpace(s[0]) && !IsSpace(s[|s| - 1]))
    ensures TrimSpace(s) == s
  {
  }
}
