/**
 How an inline tag may be written, and that the sanitizer reads every such spelling and
 nothing else.
 */
module TagSpelling {
  import opened Options
  import opened CharacterReferences
  import opened InlineHtml
  import Strings

  /** An attribute as it is written: its key in lower case, and its value, if any,
      before character references are decoded. */
  datatype Written = Written(key: string, value: Option<string>)

  // ---------------------------------------------------------------------------
  // The grammar
  // ---------------------------------------------------------------------------

  /** `low` is `s` with its ASCII letters in lower case. */
  predicate InLowerCase(s: string, low: string) {
    && |low| == |s|
    && forall i | 0 <= i < |s| ::
         if 'A' <= s[i] <= 'Z' then low[i] as int == s[i] as int + 32 else low[i] == s[i]
  }

  predicate IsSpace(c: char) {
    c in {' ', '\t', '\n', '\r', '\U{0B}', '\U{0C}'}
  }

  predicate AllSpace(s: string) {
    forall i | 0 <= i < |s| :: IsSpace(s[i])
  }

  predicate IsLetter(c: char) {
    'a' <= c <= 'z' || 'A' <= c <= 'Z'
  }

  /** What can go on a tag name, and an attribute name, once begun. */
  predicate InTagName(c: char) {
    IsLetter(c) || '0' <= c <= '9' || c == '-'
  }

  predicate InAttrName(c: char) {
    IsLetter(c) || '0' <= c <= '9' || c in {'_', ':', '.', '-'}
  }

  predicate IsTagName(s: string) {
    s != "" && IsLetter(s[0]) && forall i | 0 <= i < |s| :: InTagName(s[i])
  }

  predicate IsAttrName(s: string) {
    s != "" && (IsLetter(s[0]) || s[0] in {'_', ':'}) && forall i | 0 <= i < |s| :: InAttrName(s[i])
  }

  /** A character no unquoted value has. */
  predicate EndsValue(c: char) {
    IsSpace(c) || c in {'"', '\'', '=', '<', '>', '`'}
  }

  /** `w`, followed by `rest`, is the value `v`: in double quotes, in single quotes, or
      without. */
  predicate ValueWritten(w: string, v: string, rest: string) {
    || (w == "\"" + v + "\"" && '"' !in v)
    || (w == "'" + v + "'" && '\'' !in v)
    || (w == v && v != "" && (forall i | 0 <= i < |v| :: !EndsValue(v[i])) && (rest != "" ==> EndsValue(rest[0])))
  }

  /** After spaces comes an equals sign. */
  predicate EqualsNext(s: string) {
    exists k: nat :: k < |s| && s[k] == '=' && AllSpace(s[..k])
  }

  /** `w`, followed by `rest`, is the attribute `a`, with spaces around its `=`. */
  ghost predicate AttrWritten(w: string, a: Written, rest: string) {
    exists name: string :: IsAttrName(name) && InLowerCase(name, a.key) &&
      match a.value
      case None => w == name && (rest != "" ==> !InAttrName(rest[0])) && !EqualsNext(rest)
      case Some(v) =>
        exists before: string, behind: string, q: string ::
          AllSpace(before) && AllSpace(behind) && w == name + before + "=" + behind + q && ValueWritten(q, v, rest)
  }

  /** `s` is the attributes `attrs`, with spaces before each and behind the last. */
  ghost predicate AttrsWritten(s: string, attrs: seq<Written>)
    decreases |attrs|
  {
    if attrs == [] then AllSpace(s)
    else
      exists space: string, w: string, rest: string ::
        AllSpace(space) && s == space + w + rest && AttrWritten(w, attrs[0], rest) && AttrsWritten(rest, attrs[1..])
  }

  /** `raw` is an opening tag with this name and these attributes. */
  ghost predicate OpenWritten(raw: string, name: string, attrs: seq<Written>) {
    exists n: string, rest: string ::
      && raw == "<" + n + rest + ">" && IsTagName(n) && InLowerCase(n, name)
      && (rest != "" ==> !InTagName(rest[0])) && AttrsWritten(rest, attrs)
  }

  /** `raw` is a closing tag with this name. */
  ghost predicate CloseWritten(raw: string, name: string) {
    exists n: string, space: string ::
      raw == "</" + n + space + ">" && IsTagName(n) && InLowerCase(n, name) && AllSpace(space)
  }

  // ---------------------------------------------------------------------------
  // What is read
  // ---------------------------------------------------------------------------

  /** The attribute with its value decoded; empty without one. */
  ghost function Decoded(env: Env, a: Written): Attr
    requires Good(env.entities)
  {
    Attr(a.key, match a.value case None => "" case Some(v) => AttrDecode(env.entities, v))
  }

  ghost function AllDecoded(env: Env, attrs: seq<Written>): seq<Attr>
    requires Good(env.entities)
  {
    if attrs == [] then [] else [Decoded(env, attrs[0])] + AllDecoded(env, attrs[1..])
  }

  lemma LowerIs(s: string, low: string)
    ensures InLowerCase(s, low) <==> Lower(s) == low
  {
  }

  lemma SpaceIs(c: char)
    ensures HtmlSpace(c) <==> IsSpace(c)
  {
  }

  lemma {:induction false} TrimLeftIs(space: string, s: string)
    requires AllSpace(space) && (s != "" ==> !IsSpace(s[0]))
    ensures TrimLeft(space + s) == s
  {
    if space == "" {
      assert space + s == s;
      if s != "" { SpaceIs(s[0]); }
    } else {
      assert (space + s)[1..] == space[1..] + s && (space + s)[0] == space[0];
      SpaceIs(space[0]);
      TrimLeftIs(space[1..], s);
    }
  }

  lemma {:induction false} TrimLeftCuts(s: string) returns (space: string)
    ensures AllSpace(space) && s == space + TrimLeft(s)
    ensures TrimLeft(s) != "" ==> !IsSpace(TrimLeft(s)[0])
  {
    if s != "" && HtmlSpace(s[0]) {
      var more := TrimLeftCuts(s[1..]);
      SpaceIs(s[0]);
      space := [s[0]] + more;
      assert s == [s[0]] + s[1..];
    } else {
      space := "";
      assert s == "" + s;
      if s != "" { SpaceIs(s[0]); }
    }
  }

  lemma {:induction false} TagNameEndIs(n: string, rest: string, i: nat)
    requires i <= |n| && (forall k | i <= k < |n| :: TagNameChar(k, n[k])) && (rest != "" ==> !TagNameChar(|n|, rest[0]))
    ensures TagNameEnd(n + rest, i) == |n|
    decreases |n| - i
  {
    if i < |n| { TagNameEndIs(n, rest, i + 1); }
  }

  lemma {:induction false} AttrNameEndIs(n: string, rest: string, i: nat)
    requires i <= |n| && (forall k | i <= k < |n| :: AttrNameChar(k, n[k])) && (rest != "" ==> !AttrNameChar(|n|, rest[0]))
    ensures AttrNameEnd(n + rest, i) == |n|
    decreases |n| - i
  {
    if i < |n| { AttrNameEndIs(n, rest, i + 1); }
  }

  lemma {:induction false} AttrNameCut(s: string, i: nat)
    requires i <= |s|
    ensures forall k | i <= k < AttrNameEnd(s, i) :: AttrNameChar(k, s[k])
    ensures AttrNameEnd(s, i) < |s| ==> !AttrNameChar(AttrNameEnd(s, i), s[AttrNameEnd(s, i)])
    decreases |s| - i
  {
    if i < |s| && AttrNameChar(i, s[i]) { AttrNameCut(s, i + 1); }
  }

  lemma {:induction false} TagNameCut(s: string, i: nat)
    requires i <= |s|
    ensures forall k | i <= k < TagNameEnd(s, i) :: TagNameChar(k, s[k])
    ensures TagNameEnd(s, i) < |s| ==> !TagNameChar(TagNameEnd(s, i), s[TagNameEnd(s, i)])
    decreases |s| - i
  {
    if i < |s| && TagNameChar(i, s[i]) { TagNameCut(s, i + 1); }
  }

  lemma StopsAreEnds(c: char)
    ensures c in UNQUOTED_STOPS <==> EndsValue(c)
  {
  }

  lemma {:induction false} IndexIs(s: string, rest: string, stops: set<char>)
    requires (forall i | 0 <= i < |s| :: s[i] !in stops) && (rest != "" ==> rest[0] in stops)
    ensures IndexAny(s + rest, stops) == |s|
  {
    if s == "" {
      assert s + rest == rest;
    } else {
      assert (s + rest)[1..] == s[1..] + rest;
      IndexIs(s[1..], rest, stops);
    }
  }

  lemma QuotedIs(quote: char, v: string, rest: string)
    requires quote in {'"', '\''} && quote !in v
    ensures ValueOf([quote] + v + [quote] + rest) == Some((v, rest))
  {
    var s := [quote] + v + [quote] + rest;
    assert s[1..] == v + ([quote] + rest);
    IndexIs(v, [quote] + rest, {quote});
    assert s[1..1 + |v|] == v && s[2 + |v|..] == rest;
  }

  lemma ValueIs(w: string, v: string, rest: string)
    requires ValueWritten(w, v, rest)
    ensures ValueOf(w + rest) == Some((v, rest)) && w != "" && !IsSpace(w[0])
  {
    hide ValueOf, EndsValue;
    if w == "\"" + v + "\"" && '"' !in v {
      QuotedIs('"', v, rest);
    } else if w == "'" + v + "'" && '\'' !in v {
      QuotedIs('\'', v, rest);
    } else {
      UnquotedIs(v, rest);
    }
  }

  lemma UnquotedIs(v: string, rest: string)
    requires v != "" && (forall i | 0 <= i < |v| :: !EndsValue(v[i])) && (rest != "" ==> EndsValue(rest[0]))
    ensures ValueOf(v + rest) == Some((v, rest)) && !IsSpace(v[0])
  {
    forall c { StopsAreEnds(c); }
    assert !EndsValue(v[0]);
    IndexIs(v, rest, UNQUOTED_STOPS);
    assert (v + rest)[..|v|] == v && (v + rest)[|v|..] == rest;
  }

  lemma ValueCut(s: string, v: string, rest: string) returns (w: string)
    requires ValueOf(s) == Some((v, rest))
    ensures s == w + rest && ValueWritten(w, v, rest)
  {
    if s[0] in {'"', '\''} {
      var end := IndexAny(s[1..], {s[0]});
      w := s[..2 + end];
      assert w == [s[0]] + v + [s[0]];
      forall i | 0 <= i < |v| ensures v[i] != s[0] { assert v[i] == s[1..][i]; }
    } else {
      w := v;
      forall c { StopsAreEnds(c); }
      hide UNQUOTED_STOPS, EndsValue;
      var end := IndexAny(s, UNQUOTED_STOPS);
      forall i | 0 <= i < |v| ensures !EndsValue(v[i]) { assert v[i] == s[i]; }
    }
  }

  // ---------------------------------------------------------------------------
  // Attributes
  // ---------------------------------------------------------------------------

  lemma AttrNameIs(name: string, rest: string)
    requires IsAttrName(name) && (rest != "" ==> !InAttrName(rest[0]))
    ensures AttrNameEnd(name + rest, 0) == |name|
    ensures !IsSpace(name[0]) && name[0] != '/' && name[0] != '='
  {
    forall k | 0 <= k < |name| ensures AttrNameChar(k, name[k]) { assert InAttrName(name[k]); }
    AttrNameEndIs(name, rest, 0);
  }

  lemma NoEqualsFollows(rest: string)
    requires !EqualsNext(rest)
    ensures TrimLeft(rest) == "" || TrimLeft(rest)[0] != '='
  {
    var space := TrimLeftCuts(rest);
    var t := TrimLeft(rest);
    if t != "" { assert rest[..|space|] == space && rest[|space|] == t[0]; }
  }

  lemma BareAttrIs(env: Env, name: string, a: Written, rest: string)
    requires Good(env.entities) && IsAttrName(name) && InLowerCase(name, a.key) && a.value == None
    requires (rest != "" ==> !InAttrName(rest[0])) && !EqualsNext(rest)
    ensures AttrOf(env, name + rest) == Some((Decoded(env, a), rest))
  {
    hide Good, ValueOf, EqualsNext, AttrNameEnd, InAttrName, IsAttrName;
    var s := name + rest;
    AttrNameIs(name, rest) by { assert IsAttrName(name); }
    LowerIs(name, a.key);
    NoEqualsFollows(rest);
    assert s[|name|..] == rest && s[..|name|] == name;
    assert name != "" by { NotEmptyName(name); }
  }

  lemma NotEmptyName(name: string)
    requires IsAttrName(name)
    ensures name != ""
  {
  }

  lemma ValuedAttrIs(env: Env, name: string, a: Written, before: string, behind: string, q: string, v: string, rest: string)
    requires Good(env.entities) && IsAttrName(name) && InLowerCase(name, a.key) && a.value == Some(v)
    requires AllSpace(before) && AllSpace(behind) && ValueWritten(q, v, rest)
    ensures AttrOf(env, name + before + "=" + behind + q + rest) == Some((Decoded(env, a), rest))
  {
    hide Good, ValueOf, AttrNameEnd, IsAttrName, ValueWritten, TrimLeft, InAttrName, InLowerCase, AttrDecode;
    var tail := "=" + behind + q + rest;
    var s := name + before + "=" + behind + q + rest;
    assert s == name + (before + tail);
    SpaceOrEqualsEndsName(before, tail);
    NotEmptyName(name);
    AttrNameIs(name, before + tail);
    LowerIs(name, a.key);
    assert s[|name|..] == before + tail && s[..|name|] == name;
    assert !IsSpace(tail[0]);
    TrimLeftIs(before, tail);
    assert tail[1..] == behind + (q + rest);
    ValueIs(q, v, rest);
    TrimLeftIs(behind, q + rest);
  }

  lemma SpaceOrEqualsEndsName(before: string, tail: string)
    requires AllSpace(before) && tail != "" && tail[0] == '='
    ensures !InAttrName((before + tail)[0])
  {
    if before != "" { assert IsSpace(before[0]); }
  }

  lemma AttrIs(env: Env, w: string, a: Written, rest: string)
    requires Good(env.entities) && AttrWritten(w, a, rest)
    ensures AttrOf(env, w + rest) == Some((Decoded(env, a), rest))
    ensures w != "" && !IsSpace(w[0]) && w[0] != '/'
  {
    hide Good, AttrOf, Decoded, ValueWritten, EqualsNext, AllSpace, InLowerCase, IsSpace;
    match a.value
    case None =>
      var name: string :| IsAttrName(name) && InLowerCase(name, a.key) && w == name && (rest != "" ==> !InAttrName(rest[0])) && !EqualsNext(rest);
      AttrNameIs(name, rest);
      BareAttrIs(env, name, a, rest);
    case Some(v) =>
      var name: string, before: string, behind: string, q: string :|
        IsAttrName(name) && InLowerCase(name, a.key)
        && AllSpace(before) && AllSpace(behind) && w == name + before + "=" + behind + q && ValueWritten(q, v, rest);
      AttrNameIs(name, "");
      ValuedAttrIs(env, name, a, before, behind, q, v, rest);
      assert w[0] == name[0];
  }

  lemma EqualsFollows(rest: string)
    requires EqualsNext(rest)
    ensures TrimLeft(rest) != "" && TrimLeft(rest)[0] == '='
  {
    var k: nat :| k < |rest| && rest[k] == '=' && AllSpace(rest[..k]);
    assert rest == rest[..k] + rest[k..];
    TrimLeftIs(rest[..k], rest[k..]);
  }

  lemma AttrNameFound(s: string) returns (name: string)
    requires AttrNameEnd(s, 0) > 0
    ensures var k := AttrNameEnd(s, 0); name == s[..k] && IsAttrName(name) && (k < |s| ==> !InAttrName(s[k]))
  {
    AttrNameCut(s, 0);
    name := s[..AttrNameEnd(s, 0)];
    assert AttrNameChar(0, s[0]);
    forall i | 0 <= i < |name| ensures InAttrName(name[i]) { assert AttrNameChar(i, s[i]); }
  }

  lemma AttrCut(env: Env, s: string) returns (w: string, a: Written)
    requires Good(env.entities) && AttrOf(env, s).Some?
    ensures var (x, rest) := AttrOf(env, s).value; s == w + rest && AttrWritten(w, a, rest) && Decoded(env, a) == x
  {
    hide Good, ValueOf, AttrNameEnd, IsAttrName, ValueWritten, InAttrName, InLowerCase, AttrDecode, EqualsNext, TrimLeft;
    var k := AttrNameEnd(s, 0);
    var (x, rest) := AttrOf(env, s).value;
    var name := AttrNameFound(s);
    LowerIs(name, Lower(name));
    var t := TrimLeft(s[k..]);
    if t != "" && t[0] == '=' {
      var before := TrimLeftCuts(s[k..]);
      var behind := TrimLeftCuts(t[1..]);
      var v := ValueOf(TrimLeft(t[1..])).value.0;
      var q := ValueCut(TrimLeft(t[1..]), v, rest);
      w, a := name + before + "=" + behind + q, Written(Lower(name), Some(v));
      assert t == "=" + t[1..];
      assert s == name + s[k..] == name + (before + ("=" + (behind + (q + rest))));
    } else {
      w, a := name, Written(Lower(name), None);
      assert s == name + s[k..] && rest == s[k..];
      if EqualsNext(rest) { EqualsFollows(rest); }
    }
  }

  lemma {:induction false} AttrsAre(env: Env, s: string, attrs: seq<Written>)
    requires Good(env.entities) && AttrsWritten(s, attrs)
    ensures AttrsOf(env, s) == Some(AllDecoded(env, attrs))
    decreases |attrs|
  {
    hide Good, AttrOf, Decoded, AttrWritten, AllSpace, IsSpace;
    if attrs == [] {
      TrimLeftIs(s, "");
      assert s + "" == s;
    } else {
      var space: string, w: string, rest: string :|
        AllSpace(space) && s == space + w + rest && AttrWritten(w, attrs[0], rest) && AttrsWritten(rest, attrs[1..]);
      AttrIs(env, w, attrs[0], rest);
      assert s == space + (w + rest) && (w + rest)[0] == w[0];
      TrimLeftIs(space, w + rest);
      AttrsAre(env, rest, attrs[1..]);
    }
  }

  lemma {:induction false} AttrsCut(env: Env, s: string) returns (attrs: seq<Written>)
    requires Good(env.entities) && AttrsOf(env, s).Some?
    ensures AttrsWritten(s, attrs) && AttrsOf(env, s) == Some(AllDecoded(env, attrs))
    decreases |s|
  {
    hide Good, AttrOf, Decoded, AttrWritten, AllSpace, IsSpace;
    var t := TrimLeft(s);
    var space := TrimLeftCuts(s);
    if t == "" {
      attrs := [];
      assert s == space;
    } else {
      var (x, rest) := AttrOf(env, t).value;
      var w, a := AttrCut(env, t);
      var more := AttrsCut(env, rest);
      attrs := [a] + more;
      assert attrs[1..] == more && s == space + w + rest;
    }
  }

  // ---------------------------------------------------------------------------
  // Tags
  // ---------------------------------------------------------------------------

  lemma TagNameIs(n: string, rest: string)
    requires IsTagName(n) && (rest != "" ==> !InTagName(rest[0]))
    ensures TagNameEnd(n + rest, 0) == |n| && n[0] != '/'
  {
    forall k | 0 <= k < |n| ensures TagNameChar(k, n[k]) { assert InTagName(n[k]); }
    TagNameEndIs(n, rest, 0);
  }

  lemma TagNameFound(s: string) returns (n: string)
    requires TagNameEnd(s, 0) > 0
    ensures var k := TagNameEnd(s, 0); n == s[..k] && IsTagName(n) && (k < |s| ==> !InTagName(s[k]))
  {
    TagNameCut(s, 0);
    n := s[..TagNameEnd(s, 0)];
    assert TagNameChar(0, s[0]);
    forall i | 0 <= i < |n| ensures InTagName(n[i]) { assert TagNameChar(i, s[i]); }
  }

  /** What the sanitizer makes of an opening tag that is written this way: the name and
      the keys in lower case, the values decoded. */
  lemma OpenIsRead(env: Env, raw: string, name: string, attrs: seq<Written>)
    requires Good(env.entities) && OpenWritten(raw, name, attrs)
    ensures Sanitized(env, raw) == if name !in ALLOWED then None else
              var read := AllDecoded(env, attrs); Some(Open(name, Kept(env, ALLOWED[name], read, |read|)))
  {
    hide Good, AttrsOf, ALLOWED, Kept, AttrsWritten, IsTagName, InTagName, InLowerCase, TagNameEnd, Lower, AllDecoded, InAngles;
    var n: string, rest: string :|
      raw == "<" + n + rest + ">" && IsTagName(n) && InLowerCase(n, name) && (rest != "" ==> !InTagName(rest[0])) && AttrsWritten(rest, attrs);
    var body := n + rest;
    InsideAngles(body);
    assert raw == "<" + body + ">";
    NameIsNotEmpty(n);
    TagNameIs(n, rest);
    LowerIs(n, name);
    AttrsAre(env, rest, attrs);
    assert body[..|n|] == n && body[|n|..] == rest && body[0] == n[0];
  }

  lemma NameIsNotEmpty(n: string)
    requires IsTagName(n)
    ensures n != ""
  {
  }

  lemma CloseIsRead(env: Env, raw: string, name: string)
    requires Good(env.entities) && CloseWritten(raw, name)
    ensures Sanitized(env, raw) == if name in ALLOWED then Some(Close(name)) else None
  {
    hide Good, AttrsOf, ALLOWED, Kept, IsTagName, InTagName, InLowerCase, TagNameEnd, Lower, InAngles, TrimLeft, AllSpace;
    var n: string, space: string :| raw == "</" + n + space + ">" && IsTagName(n) && InLowerCase(n, name) && AllSpace(space);
    var body := "/" + (n + space);
    InsideAngles(body);
    assert raw == "<" + body + ">";
    SpaceEndsName(space);
    TagNameIs(n, space);
    LowerIs(n, name);
    assert space + "" == space;
    TrimLeftIs(space, "");
    assert body[1..] == n + space && (n + space)[..|n|] == n && (n + space)[|n|..] == space;
  }

  lemma SpaceEndsName(space: string)
    requires AllSpace(space)
    ensures space != "" ==> !InTagName(space[0])
  {
    if space != "" { assert IsSpace(space[0]); }
  }

  lemma SanitizedParts(env: Env, raw: string)
    requires Good(env.entities) && Sanitized(env, raw).Some?
    ensures |raw| >= 2 && raw[0] == '<' && raw[|raw| - 1] == '>'
    ensures var body := raw[1..|raw| - 1];
      match Sanitized(env, raw).value
      case Close(name) =>
        body != "" && body[0] == '/' && name in ALLOWED
        && (var k := TagNameEnd(body[1..], 0); name == Lower(body[1..][..k]) && TrimLeft(body[1..][k..]) == "")
      case Open(name, _) =>
        name in ALLOWED && (var k := TagNameEnd(body, 0); name == Lower(body[..k]) && AttrsOf(env, body[k..]).Some?)
  {
    hide Good, AttrsOf, ALLOWED, Kept, TagNameEnd, Lower, TrimLeft;
  }

  lemma AllowedIsNotEmpty(s: string)
    requires Lower(s) in ALLOWED
    ensures s != ""
  {
    AllowedNames(Lower(s));
  }

  lemma ClosingIsWritten(raw: string, tail: string, name: string)
    requires raw == ['<'] + (['/'] + tail) + ['>'] && name in ALLOWED
    requires var k := TagNameEnd(tail, 0); name == Lower(tail[..k]) && TrimLeft(tail[k..]) == ""
    ensures CloseWritten(raw, name)
  {
    hide ALLOWED, IsTagName, InTagName, InLowerCase, TagNameEnd, Lower, TrimLeft, AllSpace;
    var k := TagNameEnd(tail, 0);
    AllowedIsNotEmpty(tail[..k]);
    var n := TagNameFound(tail);
    LowerIs(n, name);
    var space := TrimLeftCuts(tail[k..]);
    assert space + "" == space && tail == n + space;
    assert raw == "</" + n + space + ">";
  }

  lemma OpeningIsWritten(env: Env, raw: string, body: string, name: string) returns (attrs: seq<Written>)
    requires Good(env.entities) && raw == ['<'] + body + ['>'] && name in ALLOWED
    requires var k := TagNameEnd(body, 0); name == Lower(body[..k]) && AttrsOf(env, body[k..]).Some?
    ensures OpenWritten(raw, name, attrs)
  {
    hide Good, AttrsOf, ALLOWED, AttrsWritten, IsTagName, InTagName, InLowerCase, TagNameEnd, Lower;
    var k := TagNameEnd(body, 0);
    AllowedIsNotEmpty(body[..k]);
    var n := TagNameFound(body);
    LowerIs(n, name);
    attrs := AttrsCut(env, body[k..]);
    assert body == n + body[k..];
    assert raw == "<" + n + body[k..] + ">";
  }

  /** Every tag the sanitizer prints was written as one. */
  lemma ReadIsWritten(env: Env, raw: string) returns (attrs: seq<Written>)
    requires Good(env.entities) && Sanitized(env, raw).Some?
    ensures match Sanitized(env, raw).value
      case Close(name) => name in ALLOWED && CloseWritten(raw, name)
      case Open(name, _) => name in ALLOWED && OpenWritten(raw, name, attrs)
  {
    hide Good, AttrsOf, ALLOWED, TagNameEnd, Lower, Sanitized, TrimLeft, OpenWritten, CloseWritten;
    SanitizedParts(env, raw);
    var body := raw[1..|raw| - 1];
    assert raw == ['<'] + body + ['>'];
    attrs := [];
    match Sanitized(env, raw).value
    case Close(name) =>
      assert body == ['/'] + body[1..];
      ClosingIsWritten(raw, body[1..], name);
    case Open(name, _) =>
      attrs := OpeningIsWritten(env, raw, body, name);
  }

  // ---------------------------------------------------------------------------
  // The allowlist
  // ---------------------------------------------------------------------------

  predicate AllowedName(name: string) {
    name in {"q", "cite", "abbr", "dfn", "kbd", "sub", "sup", "mark", "ins", "del"}
  }

  predicate AllowedText(name: string, key: string) {
    (name, key) in {("abbr", "title"), ("dfn", "title"), ("ins", "datetime"), ("del", "datetime")}
  }

  predicate AllowedUrl(name: string, key: string) {
    (name, key) in {("q", "cite"), ("ins", "cite"), ("del", "cite")}
  }

  lemma AllowedIs(name: string, key: string)
    ensures name in ALLOWED <==> AllowedName(name)
    ensures name in ALLOWED && key in ALLOWED[name] <==> AllowedText(name, key) || AllowedUrl(name, key)
    ensures name in ALLOWED && key in ALLOWED[name] ==> (ALLOWED[name][key] == AttrHttpUrl <==> AllowedUrl(name, key))
    ensures !(AllowedText(name, key) && AllowedUrl(name, key))
  {
  }

  ghost function DecodedValue(env: Env, a: Written): string
    requires Good(env.entities)
  {
    match a.value case None => "" case Some(v) => AttrDecode(env.entities, v)
  }

  /** An attribute that is kept: the first with its key, allowed on this tag, and with an
      absolute URL where one is wanted. */
  ghost predicate IsKept(env: Env, name: string, attrs: seq<Written>, i: nat)
    requires Good(env.entities) && i < |attrs|
  {
    && (forall j | 0 <= j < i :: attrs[j].key != attrs[i].key)
    && (AllowedText(name, attrs[i].key)
        || (AllowedUrl(name, attrs[i].key) && env.isHttpUrl(Strings.TrimSpace(DecodedValue(env, attrs[i])))))
  }

  /** What is printed of it. */
  ghost function KeptAttr(env: Env, name: string, a: Written): Attr
    requires Good(env.entities)
  {
    Attr(a.key, if AllowedUrl(name, a.key) then Strings.TrimSpace(DecodedValue(env, a)) else DecodedValue(env, a))
  }

  /** `kept` are the attributes to be kept among the first `n`, in order: `places` says
      where each of them is written. */
  ghost predicate KeptFrom(env: Env, name: string, attrs: seq<Written>, n: nat, kept: seq<Attr>, places: seq<nat>)
    requires Good(env.entities) && n <= |attrs|
  {
    && |places| == |kept| && (forall k | 0 <= k < |places| :: places[k] < n)
    && (forall k, l | 0 <= k < l < |places| :: places[k] < places[l])
    && (forall i: nat | i < n :: i in places <==> IsKept(env, name, attrs, i))
    && forall k | 0 <= k < |kept| :: kept[k] == KeptAttr(env, name, attrs[places[k]])
  }

  lemma {:induction false} DecodedAt(env: Env, attrs: seq<Written>, i: nat)
    requires Good(env.entities) && i < |attrs|
    ensures |AllDecoded(env, attrs)| == |attrs| && AllDecoded(env, attrs)[i] == Decoded(env, attrs[i])
  {
    if i > 0 {
      DecodedAt(env, attrs[1..], i - 1);
    } else {
      DecodedLength(env, attrs);
    }
  }

  lemma {:induction false} DecodedLength(env: Env, attrs: seq<Written>)
    requires Good(env.entities)
    ensures |AllDecoded(env, attrs)| == |attrs|
  {
    if attrs != [] { DecodedLength(env, attrs[1..]); }
  }

  lemma KeptStep(env: Env, name: string, attrs: seq<Written>, i: nat)
    requires Good(env.entities) && name in ALLOWED && i < |attrs|
    ensures var read := AllDecoded(env, attrs);
      && |read| == |attrs|
      && (FirstOfKey(read, i) && Admitted(env, ALLOWED[name], read[i]) <==> IsKept(env, name, attrs, i))
      && (IsKept(env, name, attrs, i) ==> Cleaned(ALLOWED[name], read[i]) == KeptAttr(env, name, attrs[i]))
  {
    hide Good, ALLOWED, AllDecoded, AllowedText, AllowedUrl;
    AllowedIs(name, attrs[i].key);
    DecodedAt(env, attrs, i);
    var read := AllDecoded(env, attrs);
    if FirstOfKey(read, i) {
      forall j | 0 <= j < i ensures attrs[j].key != attrs[i].key {
        DecodedAt(env, attrs, j);
        assert read[j].key != read[i].key;
      }
    }
    forall j | 0 <= j < i ensures read[j].key == attrs[j].key { DecodedAt(env, attrs, j); }
  }

  lemma {:induction false} KeptPlaces(env: Env, name: string, attrs: seq<Written>, n: nat) returns (places: seq<nat>)
    requires Good(env.entities) && name in ALLOWED && n <= |attrs|
    ensures |AllDecoded(env, attrs)| == |attrs|
    ensures KeptFrom(env, name, attrs, n, Kept(env, ALLOWED[name], AllDecoded(env, attrs), n), places)
  {
    hide Good, ALLOWED, AllDecoded, IsKept, KeptAttr, Admitted, FirstOfKey, Cleaned;
    DecodedLength(env, attrs);
    if n == 0 {
      places := [];
    } else {
      places := KeptPlaces(env, name, attrs, n - 1);
      KeptStep(env, name, attrs, n - 1);
      if IsKept(env, name, attrs, n - 1) { places := places + [n - 1]; }
    }
  }

  // ---------------------------------------------------------------------------
  // The sanitizer
  // ---------------------------------------------------------------------------

  /** Every spelling of an allowed opening tag, whatever its letter case, spaces and
      quotes, is sanitized to its name and its kept attributes in lower case. */
  lemma OpenIsSanitized(env: Env, raw: string, name: string, attrs: seq<Written>)
    returns (kept: seq<Attr>, places: seq<nat>)
    requires Good(env.entities) && OpenWritten(raw, name, attrs) && AllowedName(name)
    ensures Sanitized(env, raw) == Some(Open(name, kept)) && KeptFrom(env, name, attrs, |attrs|, kept, places)
  {
    hide Good, OpenWritten, ALLOWED, Kept, AllDecoded, KeptFrom, AllowedName;
    AllowedIs(name, "");
    OpenIsRead(env, raw, name, attrs);
    places := KeptPlaces(env, name, attrs, |attrs|);
    kept := Kept(env, ALLOWED[name], AllDecoded(env, attrs), |attrs|);
  }

  lemma CloseIsSanitized(env: Env, raw: string, name: string)
    requires Good(env.entities) && CloseWritten(raw, name) && AllowedName(name)
    ensures Sanitized(env, raw) == Some(Close(name))
  {
    hide CloseWritten, ALLOWED, AllowedName;
    AllowedIs(name, "");
    CloseIsRead(env, raw, name);
  }

  /** A tag is printed if and only if it is written as an allowed one. */
  lemma SanitizedIff(env: Env, raw: string)
    requires Good(env.entities)
    ensures Sanitized(env, raw).Some? <==>
              exists name :: AllowedName(name) && (CloseWritten(raw, name) || exists attrs :: OpenWritten(raw, name, attrs))
  {
    hide Good, CloseWritten, OpenWritten, ALLOWED, AllowedName, Sanitized;
    if Sanitized(env, raw).Some? {
      var attrs := ReadIsWritten(env, raw);
      AllowedIs(Sanitized(env, raw).value.name, "");
    }
    if name :| AllowedName(name) && (CloseWritten(raw, name) || exists attrs :: OpenWritten(raw, name, attrs)) {
      if CloseWritten(raw, name) {
        CloseIsSanitized(env, raw, name);
      } else {
        var attrs :| OpenWritten(raw, name, attrs);
        var kept, places := OpenIsSanitized(env, raw, name, attrs);
      }
    }
  }
}
