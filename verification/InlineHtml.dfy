/**
 The inline-HTML allowlist of `internal/format/inlinehtml.go`: one raw tag is scanned
 and printed anew from what was allowed of it.
 */
module InlineHtml {
  import opened Options
  import opened CharacterReferences
  import Strings

  datatype AttrKind = AttrText | AttrHttpUrl

  const CITE: map<string, AttrKind> := map["cite" := AttrHttpUrl]
  const TITLE: map<string, AttrKind> := map["title" := AttrText]
  const EDIT: map<string, AttrKind> := map["cite" := AttrHttpUrl, "datetime" := AttrText]

  const ALLOWED: map<string, map<string, AttrKind>> := map[
    "q" := CITE, "cite" := map[], "abbr" := TITLE, "dfn" := TITLE, "kbd" := map[],
    "sub" := map[], "sup" := map[], "mark" := map[], "ins" := EDIT, "del" := EDIT
  ]

  /** The tables the sanitizer relies on: character references, and what counts as an
      absolute http(s) URL. */
  datatype Env = Env(entities: Entities, isHttpUrl: string -> bool)

  datatype Attr = Attr(key: string, value: string)

  datatype Tag = Open(name: string, attrs: seq<Attr>) | Close(name: string)

  // ---------------------------------------------------------------------------
  // Scanners
  // ---------------------------------------------------------------------------

  predicate Letter(c: char) {
    'a' <= c <= 'z' || 'A' <= c <= 'Z'
  }

  predicate Digit(c: char) {
    '0' <= c <= '9'
  }

  predicate HtmlSpace(c: char) {
    c == ' ' || '\t' <= c <= '\r'
  }

  function LowerChar(c: char): char {
    if 'A' <= c <= 'Z' then (c as int + 32) as char else c
  }

  function Lower(s: string): string {
    seq(|s|, i requires 0 <= i < |s| => LowerChar(s[i]))
  }

  function TrimLeft(s: string): (r: string)
    ensures |r| <= |s| && (r != "" ==> !HtmlSpace(r[0]))
  {
    if s != "" && HtmlSpace(s[0]) then TrimLeft(s[1..]) else s
  }

  /** What may stand at place `i` of a tag name. */
  predicate TagNameChar(i: nat, c: char) {
    Letter(c) || (i > 0 && (Digit(c) || c == '-'))
  }

  function TagNameEnd(s: string, i: nat): (e: nat)
    requires i <= |s|
    ensures i <= e <= |s|
    decreases |s| - i
  {
    if i < |s| && TagNameChar(i, s[i]) then TagNameEnd(s, i + 1) else i
  }

  predicate AttrNameChar(i: nat, c: char) {
    Letter(c) || c == '_' || c == ':' || (i > 0 && (Digit(c) || c == '.' || c == '-'))
  }

  function AttrNameEnd(s: string, i: nat): (e: nat)
    requires i <= |s|
    ensures i <= e <= |s|
    decreases |s| - i
  {
    if i < |s| && AttrNameChar(i, s[i]) then AttrNameEnd(s, i + 1) else i
  }

  /** The first place of one of `stops`; the length if there is none. */
  function IndexAny(s: string, stops: set<char>): (i: nat)
    ensures i <= |s| && (i < |s| ==> s[i] in stops) && forall k | 0 <= k < i :: s[k] !in stops
  {
    if s == "" || s[0] in stops then 0 else 1 + IndexAny(s[1..], stops)
  }

  const UNQUOTED_STOPS: set<char> :=
    {' ', '\t', '\n', '\r', '\U{0C}', '\U{0B}', '"', '\'', '=', '<', '>', '`'}

  /** A value and what follows it. */
  function ValueOf(s: string): (r: Option<(string, string)>)
    ensures r.Some? ==> |r.value.1| < |s|
  {
    if s == "" then None
    else if s[0] in {'"', '\''} then
      var end := IndexAny(s[1..], {s[0]});
      if end == |s| - 1 then None else Some((s[1..1 + end], s[2 + end..]))
    else
      var end := IndexAny(s, UNQUOTED_STOPS);
      if end == 0 then None else Some((s[..end], s[end..]))
  }

  /** One attribute, its key in lower case and its value decoded, and what follows. */
  ghost function AttrOf(env: Env, s: string): (r: Option<(Attr, string)>)
    requires Good(env.entities)
    ensures r.Some? ==> |r.value.1| < |s|
  {
    var k := AttrNameEnd(s, 0);
    if k == 0 then None
    else
      var t := TrimLeft(s[k..]);
      if t != "" && t[0] == '=' then
        match ValueOf(TrimLeft(t[1..]))
        case None => None
        case Some((raw, rest)) => Some((Attr(Lower(s[..k]), AttrDecode(env.entities, raw)), rest))
      else Some((Attr(Lower(s[..k]), ""), s[k..]))
  }

  /** All attributes of a tag, in order; none when the tag is to be omitted. */
  ghost function AttrsOf(env: Env, s: string): Option<seq<Attr>>
    requires Good(env.entities)
    decreases |s|
  {
    var t := TrimLeft(s);
    if t == "" then Some([])
    else if t == "/" then None
    else
      match AttrOf(env, t)
      case None => None
      case Some((a, rest)) =>
        match AttrsOf(env, rest)
        case None => None
        case Some(more) => Some([a] + more)
  }

  // ---------------------------------------------------------------------------
  // What is kept
  // ---------------------------------------------------------------------------

  function Cleaned(allowed: map<string, AttrKind>, a: Attr): Attr {
    if a.key in allowed && allowed[a.key] == AttrHttpUrl then Attr(a.key, Strings.TrimSpace(a.value)) else a
  }

  predicate Admitted(env: Env, allowed: map<string, AttrKind>, a: Attr) {
    a.key in allowed && (allowed[a.key] == AttrHttpUrl ==> env.isHttpUrl(Strings.TrimSpace(a.value)))
  }

  predicate FirstOfKey(attrs: seq<Attr>, i: nat)
    requires i < |attrs|
  {
    forall j | 0 <= j < i :: attrs[j].key != attrs[i].key
  }

  /** Of the first `n` attributes: those that are the first with their key, allowed and
      valid. */
  function Kept(env: Env, allowed: map<string, AttrKind>, attrs: seq<Attr>, n: nat): seq<Attr>
    requires n <= |attrs|
  {
    if n == 0 then []
    else
      var a := attrs[n - 1];
      Kept(env, allowed, attrs, n - 1) +
      if FirstOfKey(attrs, n - 1) && Admitted(env, allowed, a) then [Cleaned(allowed, a)] else []
  }

  predicate InAngles(raw: string) {
    |raw| >= 2 && raw[0] == '<' && raw[|raw| - 1] == '>'
  }

  /** The tag that is printed for `raw`, if any. */
  ghost function Sanitized(env: Env, raw: string): Option<Tag>
    requires Good(env.entities)
  {
    if !InAngles(raw) then None
    else
      var body := raw[1..|raw| - 1];
      if body != "" && body[0] == '/' then
        var rest := body[1..];
        var k := TagNameEnd(rest, 0);
        if Lower(rest[..k]) in ALLOWED && TrimLeft(rest[k..]) == "" then Some(Close(Lower(rest[..k]))) else None
      else
        var k := TagNameEnd(body, 0);
        var name := Lower(body[..k]);
        if name !in ALLOWED then None
        else
          match AttrsOf(env, body[k..])
          case None => None
          case Some(attrs) => Some(Open(name, Kept(env, ALLOWED[name], attrs, |attrs|)))
  }

  // ---------------------------------------------------------------------------
  // Printing
  // ---------------------------------------------------------------------------

  function EscapeChar(c: char): string {
    if c == '&' then "&amp;" else if c == '\'' then "&#39;" else if c == '<' then "&lt;"
    else if c == '>' then "&gt;" else if c == '"' then "&#34;" else [c]
  }

  /** html.EscapeString */
  function Escape(s: string): string {
    if s == "" then "" else EscapeChar(s[0]) + Escape(s[1..])
  }

  function PrintAttr(a: Attr): string {
    " " + a.key + "=\"" + Escape(a.value) + "\""
  }

  function PrintAttrs(attrs: seq<Attr>): string {
    if attrs == [] then "" else PrintAttr(attrs[0]) + PrintAttrs(attrs[1..])
  }

  function Print(tag: Tag): string {
    match tag
    case Open(name, attrs) => "<" + name + PrintAttrs(attrs) + ">"
    case Close(name) => "</" + name + ">"
  }

  // ---------------------------------------------------------------------------
  // Escaping and decoding
  // ---------------------------------------------------------------------------

  lemma {:induction false} EscapedIsSafe(s: string)
    ensures forall c :: c in Escape(s) ==> c !in {'<', '>', '"', '\''}
  {
    if s != "" {
      EscapedIsSafe(s[1..]);
    }
  }

  lemma EscapedCharDecodes(e: Entities, c: char, rest: string)
    requires Good(e)
    ensures AttrDecode(e, EscapeChar(c) + rest) == [c] + AttrDecode(e, rest)
  {
    var s := EscapeChar(c) + rest;
    if c in {'"', '\''} {
      NumberDecoded(e, s);
      assert s[5..] == rest;
    } else if c in {'&', '<', '>'} {
      var name := if c == '&' then "amp;" else if c == '<' then "lt;" else "gt;";
      assert EscapeChar(c) == "&" + name && e.named[name] == [c];
      NamedCharDecodes(e, name, rest);
    } else {
      assert s[1..] == rest;
    }
  }

  lemma NamedCharDecodes(e: Entities, name: string, rest: string)
    requires Good(e) && name in {"amp;", "lt;", "gt;"}
    ensures AttrDecode(e, "&" + name + rest) == e.named[name] + AttrDecode(e, rest)
  {
    hide GoodNumeric, AttrDecode, Longest;
    var t := name + rest;
    assert "&" + name + rest == "&" + t;
    NameDecoded(e, t);
    KnownNameFound(e, name, rest);
  }

  lemma KnownNameFound(e: Entities, name: string, rest: string)
    requires Good(e) && name in {"amp;", "lt;", "gt;"}
    ensures var t := name + rest;
      Longest(e.named, t, |t|) == |name| && t[..|name|] == name && t[|name|..] == rest && name in e.named
  {
    hide GoodNumeric, Longest;
    var t := name + rest;
    var run, next := name[..|name| - 1], ";" + rest;
    assert t == run + next && RunThen(t, run, next);
    RunThenLength(t, run, next);
    assert t[..|name|] == name && t[|name|..] == rest;
    FoundIsLongest(e.named, t);
  }

  /** A printed value reads back as the value it was printed for. */
  lemma {:induction false} EscapeReadsBack(e: Entities, s: string)
    requires Good(e)
    ensures AttrDecode(e, Escape(s)) == s
  {
    hide Good, EscapeChar, AttrDecode;
    if s != "" {
      EscapeReadsBack(e, s[1..]);
      EscapedCharDecodes(e, s[0], Escape(s[1..]));
    } else {
      EmptyDecodes(e);
    }
  }

  lemma EmptyDecodes(e: Entities)
    requires Good(e)
    ensures AttrDecode(e, "") == ""
  {
  }

  // ---------------------------------------------------------------------------
  // Canonical tags
  // ---------------------------------------------------------------------------

  predicate LowerLetters(s: string) {
    s != "" && forall i | 0 <= i < |s| :: 'a' <= s[i] <= 'z'
  }

  lemma AllowedNames(name: string)
    requires name in ALLOWED
    ensures LowerLetters(name)
  {
  }

  lemma AllowedKeys(name: string, key: string)
    requires name in ALLOWED && key in ALLOWED[name]
    ensures LowerLetters(key)
  {
    assert key in {"cite", "title", "datetime"};
  }

  predicate DistinctKeys(attrs: seq<Attr>) {
    forall i, j | 0 <= i < j < |attrs| :: attrs[i].key != attrs[j].key
  }

  /** A tag as the sanitizer prints it: an allowed name, allowed attributes, each once,
      URLs trimmed and checked. */
  predicate Canonical(env: Env, tag: Tag) {
    && tag.name in ALLOWED
    && (tag.Open? ==>
          && DistinctKeys(tag.attrs)
          && forall a :: a in tag.attrs ==>
               Admitted(env, ALLOWED[tag.name], a) && Cleaned(ALLOWED[tag.name], a) == a)
  }

  lemma TrimTwice(s: string)
    ensures Strings.TrimSpace(Strings.TrimSpace(s)) == Strings.TrimSpace(s)
  {
    Strings.TrimShape(s);
    Strings.TrimmedStays(Strings.TrimSpace(s));
  }

  lemma CleanedIsClean(env: Env, allowed: map<string, AttrKind>, a: Attr)
    requires Admitted(env, allowed, a)
    ensures var c := Cleaned(allowed, a); c.key == a.key && Admitted(env, allowed, c) && Cleaned(allowed, c) == c
  {
    TrimTwice(a.value);
  }

  /** What is kept: exactly the first attribute of each key, when it is allowed and
      valid; a later duplicate never takes the place of an invalid first one. */
  lemma {:induction false} KeptIff(env: Env, allowed: map<string, AttrKind>, attrs: seq<Attr>, n: nat)
    requires n <= |attrs|
    ensures forall c :: c in Kept(env, allowed, attrs, n) <==>
              exists i :: 0 <= i < n && FirstOfKey(attrs, i) && Admitted(env, allowed, attrs[i]) && c == Cleaned(allowed, attrs[i])
  {
    if n > 0 {
      KeptIff(env, allowed, attrs, n - 1);
    }
  }

  lemma {:induction false} KeptIsCanonical(env: Env, allowed: map<string, AttrKind>, attrs: seq<Attr>, n: nat)
    requires n <= |attrs|
    ensures DistinctKeys(Kept(env, allowed, attrs, n))
    ensures forall c :: c in Kept(env, allowed, attrs, n) ==> Admitted(env, allowed, c) && Cleaned(allowed, c) == c
    ensures forall c :: c in Kept(env, allowed, attrs, n) ==> exists i :: 0 <= i < n && attrs[i].key == c.key
  {
    if n > 0 {
      KeptIsCanonical(env, allowed, attrs, n - 1);
      var before, a := Kept(env, allowed, attrs, n - 1), attrs[n - 1];
      if FirstOfKey(attrs, n - 1) && Admitted(env, allowed, a) {
        CleanedIsClean(env, allowed, a);
        forall i | 0 <= i < |before| ensures before[i].key != a.key { assert before[i] in before; }
      }
    }
  }

  /** Every tag that is printed is canonical. */
  lemma SanitizedIsCanonical(env: Env, raw: string)
    requires Good(env.entities) && Sanitized(env, raw).Some?
    ensures Canonical(env, Sanitized(env, raw).value)
  {
    hide Good, AttrsOf;
    var tag := Sanitized(env, raw).value;
    if tag.Open? {
      var body := raw[1..|raw| - 1];
      var attrs := AttrsOf(env, body[TagNameEnd(body, 0)..]).value;
      KeptIsCanonical(env, ALLOWED[tag.name], attrs, |attrs|);
    }
  }

  lemma {:induction false} KeptKeepsAll(env: Env, allowed: map<string, AttrKind>, attrs: seq<Attr>, n: nat)
    requires n <= |attrs| && DistinctKeys(attrs)
    requires forall a :: a in attrs ==> Admitted(env, allowed, a) && Cleaned(allowed, a) == a
    ensures Kept(env, allowed, attrs, n) == attrs[..n]
  {
    if n > 0 {
      KeptKeepsAll(env, allowed, attrs, n - 1);
      assert attrs[n - 1] in attrs && FirstOfKey(attrs, n - 1);
    }
  }

  // ---------------------------------------------------------------------------
  // Printed tags read back
  // ---------------------------------------------------------------------------

  lemma LowerStays(s: string)
    requires LowerLetters(s)
    ensures Lower(s) == s
  {
  }

  lemma {:induction false} TagNameStops(name: string, rest: string, i: nat)
    requires LowerLetters(name) && i <= |name| && (rest == "" || (!Letter(rest[0]) && !Digit(rest[0]) && rest[0] != '-'))
    ensures TagNameEnd(name + rest, i) == |name|
    decreases |name| - i
  {
    if i < |name| { TagNameStops(name, rest, i + 1); }
  }

  lemma {:induction false} AttrNameStops(name: string, rest: string, i: nat)
    requires LowerLetters(name) && i <= |name| && rest != "" && rest[0] == '='
    ensures AttrNameEnd(name + rest, i) == |name|
    decreases |name| - i
  {
    if i < |name| { AttrNameStops(name, rest, i + 1); }
  }

  lemma {:induction false} IndexFound(s: string, rest: string, stops: set<char>)
    requires (forall i | 0 <= i < |s| :: s[i] !in stops) && rest != "" && rest[0] in stops
    ensures IndexAny(s + rest, stops) == |s|
  {
    if s != "" {
      assert (s + rest)[1..] == s[1..] + rest;
      IndexFound(s[1..], rest, stops);
    } else {
      assert s + rest == rest;
    }
  }

  lemma QuotedReadsBack(esc: string, rest: string)
    requires '"' !in esc
    ensures ValueOf("\"" + esc + "\"" + rest) == Some((esc, rest))
  {
    var s := "\"" + esc + "\"" + rest;
    assert s[1..] == esc + ("\"" + rest);
    IndexFound(esc, "\"" + rest, {'"'});
    assert s[1..1 + |esc|] == esc && s[2 + |esc|..] == rest;
  }

  lemma PrintedAttrReadsBack(env: Env, a: Attr, rest: string)
    requires Good(env.entities) && LowerLetters(a.key)
    ensures var s := PrintAttr(a) + rest;
      && TrimLeft(s) == s[1..] && |s| > 2
      && AttrOf(env, s[1..]) == Some((a, rest))
  {
    hide Good, AttrDecode, ValueOf, Escape, AttrNameEnd, Lower;
    var esc := Escape(a.value);
    var q := "\"" + esc + "\"" + rest;
    var s, t := PrintAttr(a) + rest, a.key + ("=" + q);
    PrintedAttrParts(a, rest);
    AttrNameStops(a.key, "=" + q, 0);
    assert t[|a.key|..] == "=" + q && t[..|a.key|] == a.key;
    assert TrimLeft("=" + q) == "=" + q && ("=" + q)[1..] == q && TrimLeft(q) == q;
    EscapedIsSafe(a.value);
    QuotedReadsBack(esc, rest);
    EscapeReadsBack(env.entities, a.value);
    LowerStays(a.key);
  }

  lemma PrintedAttrParts(a: Attr, rest: string)
    requires LowerLetters(a.key)
    ensures var s, t := PrintAttr(a) + rest, a.key + ("=" + ("\"" + Escape(a.value) + "\"" + rest));
      |s| > 2 && s[1..] == t && TrimLeft(s) == t
  {
    hide Escape;
    var s, t := PrintAttr(a) + rest, a.key + ("=" + ("\"" + Escape(a.value) + "\"" + rest));
    assert s == " " + t && s[1..] == t;
    assert TrimLeft(t) == t;
  }

  lemma {:induction false} PrintedAttrsReadBack(env: Env, attrs: seq<Attr>)
    requires Good(env.entities) && forall a :: a in attrs ==> LowerLetters(a.key)
    ensures AttrsOf(env, PrintAttrs(attrs)) == Some(attrs)
    decreases |attrs|
  {
    hide Good;
    if attrs != [] {
      hide AttrOf, PrintAttr;
      var a, rest := attrs[0], PrintAttrs(attrs[1..]);
      assert a in attrs;
      PrintedAttrsReadBack(env, attrs[1..]);
      PrintedAttrReadsBack(env, a, rest);
      assert [a] + attrs[1..] == attrs;
    }
  }

  lemma InsideAngles(inner: string)
    ensures var s := "<" + inner + ">"; InAngles(s) && s[1..|s| - 1] == inner
  {
  }

  /** What is printed between the angle brackets. */
  function PrintInside(tag: Tag): string {
    match tag
    case Open(name, attrs) => name + PrintAttrs(attrs)
    case Close(name) => "/" + name
  }

  lemma PrintedInAngles(tag: Tag)
    ensures InAngles(Print(tag)) && Print(tag)[1..|Print(tag)| - 1] == PrintInside(tag)
  {
    hide PrintAttrs, InAngles;
    InsideAngles(PrintInside(tag));
    match tag
    case Open(name, attrs) => assert "<" + name + PrintAttrs(attrs) + ">" == "<" + (name + PrintAttrs(attrs)) + ">";
    case Close(name) => assert "</" + name + ">" == "<" + ("/" + name) + ">";
  }

  lemma SanitizedClose(env: Env, raw: string, name: string)
    requires Good(env.entities) && InAngles(raw) && raw[1..|raw| - 1] == "/" + name
    requires TagNameEnd(name, 0) == |name| && name in ALLOWED && Lower(name) == name
    ensures Sanitized(env, raw) == Some(Close(name))
  {
    hide Good, AttrsOf, TagNameEnd, Lower, InAngles;
    var body := "/" + name;
    assert body[1..] == name && name[..|name|] == name && name[|name|..] == "";
  }

  lemma SanitizedOpen(env: Env, raw: string, name: string, rest: string, attrs: seq<Attr>)
    requires Good(env.entities) && InAngles(raw) && raw[1..|raw| - 1] == name + rest
    requires TagNameEnd(name + rest, 0) == |name| && name in ALLOWED && Lower(name) == name && LowerLetters(name)
    requires AttrsOf(env, rest) == Some(attrs)
    ensures Sanitized(env, raw) == Some(Open(name, Kept(env, ALLOWED[name], attrs, |attrs|)))
  {
    hide Good, AttrsOf, TagNameEnd, Lower, InAngles, Kept;
    var body := name + rest;
    assert body[0] == name[0] && body[..|name|] == name && body[|name|..] == rest;
  }

  lemma PrintedAttrsStart(attrs: seq<Attr>)
    ensures var rest := PrintAttrs(attrs); rest == "" || rest[0] == ' '
  {
    if attrs != [] { assert PrintAttr(attrs[0])[0] == ' '; }
  }

  /** A canonical tag is printed and read back unchanged. */
  lemma CanonicalReadsBack(env: Env, tag: Tag)
    requires Good(env.entities) && Canonical(env, tag)
    ensures Sanitized(env, Print(tag)) == Some(tag)
  {
    hide Good, AttrsOf, Sanitized, InAngles, TagNameEnd, Lower, LowerLetters, PrintAttrs, Print, Kept, Admitted, Cleaned;
    PrintedInAngles(tag);
    AllowedNames(tag.name);
    LowerStays(tag.name);
    match tag
    case Close(name) =>
      TagNameStops(name, "", 0);
      assert name + "" == name;
      SanitizedClose(env, Print(tag), name);
    case Open(name, attrs) =>
      PrintedAttrsStart(attrs);
      TagNameStops(name, PrintAttrs(attrs), 0);
      forall a | a in attrs ensures LowerLetters(a.key) { AdmittedKey(env, name, a); }
      PrintedAttrsReadBack(env, attrs);
      SanitizedOpen(env, Print(tag), name, PrintAttrs(attrs), attrs);
      KeptKeepsAll(env, ALLOWED[name], attrs, |attrs|);
      assert attrs[..|attrs|] == attrs;
  }

  lemma AdmittedKey(env: Env, name: string, a: Attr)
    requires name in ALLOWED && Admitted(env, ALLOWED[name], a)
    ensures LowerLetters(a.key)
  {
    AllowedKeys(name, a.key);
  }

  /** Sanitizing is idempotent: what it prints for a tag it prints again. */
  lemma SanitizingIsIdempotent(env: Env, raw: string)
    requires Good(env.entities) && Sanitized(env, raw).Some?
    ensures Sanitized(env, Print(Sanitized(env, raw).value)) == Sanitized(env, raw)
  {
    SanitizedIsCanonical(env, raw);
    CanonicalReadsBack(env, Sanitized(env, raw).value);
  }

  /** No angle brackets inside. */
  predicate NoAngles(s: string) {
    forall c :: c in s ==> c != '<' && c != '>'
  }

  lemma LettersHaveNoAngles(s: string)
    requires LowerLetters(s)
    ensures NoAngles(s)
  {
  }

  lemma PrintedAttrHasNoAngles(a: Attr)
    requires LowerLetters(a.key)
    ensures NoAngles(PrintAttr(a))
  {
    EscapedIsSafe(a.value);
    LettersHaveNoAngles(a.key);
    hide Escape, LowerLetters;
  }

  lemma {:induction false} PrintedAttrsHaveNoAngles(attrs: seq<Attr>)
    requires forall a :: a in attrs ==> LowerLetters(a.key)
    ensures NoAngles(PrintAttrs(attrs))
  {
    if attrs != [] {
      assert attrs[0] in attrs;
      PrintedAttrsHaveNoAngles(attrs[1..]);
      PrintedAttrHasNoAngles(attrs[0]);
      hide PrintAttr;
    }
  }

  /** What is printed is one tag: its only angle brackets are the ones around it. */
  lemma PrintedIsOneTag(env: Env, tag: Tag)
    requires Canonical(env, tag)
    ensures InAngles(Print(tag)) && NoAngles(Print(tag)[1..|Print(tag)| - 1])
  {
    PrintedInAngles(tag);
    AllowedNames(tag.name);
    hide PrintAttrs, Print, InAngles, LowerLetters, Admitted, Cleaned;
    LettersHaveNoAngles(tag.name);
    if tag.Open? {
      forall a | a in tag.attrs ensures LowerLetters(a.key) { AdmittedKey(env, tag.name, a); }
      PrintedAttrsHaveNoAngles(tag.attrs);
    }
  }

  // ---------------------------------------------------------------------------
  // The code
  // ---------------------------------------------------------------------------

  method ScanTagName(s: string) returns (name: string, rest: string)
    ensures name == Lower(s[..TagNameEnd(s, 0)]) && rest == s[TagNameEnd(s, 0)..]
  {
    var i := 0;
    while i < |s| && (Letter(s[i]) || (i > 0 && (Digit(s[i]) || s[i] == '-')))
      invariant i <= |s| && TagNameEnd(s, i) == TagNameEnd(s, 0)
    {
      i := i + 1;
    }
    return Lower(s[..i]), s[i..];
  }

  method ScanAttrName(s: string) returns (name: string, rest: string)
    ensures name == s[..AttrNameEnd(s, 0)] && rest == s[AttrNameEnd(s, 0)..]
  {
    var i := 0;
    while i < |s|
      invariant i <= |s| && AttrNameEnd(s, i) == AttrNameEnd(s, 0)
    {
      var c := s[i];
      if Letter(c) || c == '_' || c == ':' || (i > 0 && (Digit(c) || c == '.' || c == '-')) {
        i := i + 1;
        continue;
      }
      break;
    }
    return s[..i], s[i..];
  }

  method ScanAttrValue(s: string) returns (value: string, rest: string, ok: bool)
    ensures ok <==> ValueOf(s).Some?
    ensures ok ==> ValueOf(s) == Some((value, rest))
  {
    if s == "" {
      return "", "", false;
    }
    var q := s[0];
    if q == '"' || q == '\'' {
      var end := IndexAny(s[1..], {q});
      if end == |s[1..]| {
        return "", "", false;
      }
      return s[1..1 + end], s[2 + end..], true;
    }
    var end := IndexAny(s, UNQUOTED_STOPS);
    if end == 0 {
      return "", "", false;
    }
    return s[..end], s[end..], true;
  }

  method ScanAttr(env: Env, s: string) returns (a: Attr, rest: string, ok: bool)
    requires Good(env.entities)
    ensures ok <==> AttrOf(env, s).Some?
    ensures ok ==> AttrOf(env, s) == Some((a, rest))
  {
    hide Good, ValueOf;
    var name, behind := ScanAttrName(s);
    if name == "" {
      return Attr("", ""), "", false;
    }
    var value := "";
    rest := behind;
    var t := TrimLeft(rest);
    if t != "" && t[0] == '=' {
      var raw;
      raw, rest, ok := ScanAttrValue(TrimLeft(t[1..]));
      if !ok {
        return Attr("", ""), "", false;
      }
      value := UnescapeAttrValue(env.entities, raw);
    }
    return Attr(Lower(name), value), rest, true;
  }

  method SanitizeClosingTag(body: string) returns (out: Option<string>)
    ensures var k := TagNameEnd(body, 0); var name := Lower(body[..k]);
      out == if name in ALLOWED && TrimLeft(body[k..]) == "" then Some(Print(Close(name))) else None
  {
    var name, rest := ScanTagName(body);
    if name !in ALLOWED || TrimLeft(rest) != "" {
      return None;
    }
    return Some("</" + name + ">");
  }

  /** The attributes scanned so far, and what remains, make up the whole. */
  ghost predicate ScannedSoFar(env: Env, all: Option<seq<Attr>>, done: seq<Attr>, rest: string)
    requires Good(env.entities)
  {
    all == match AttrsOf(env, rest)
           case None => None
           case Some(more) => Some(done + more)
  }

  ghost predicate SeenKeys(seen: set<string>, done: seq<Attr>) {
    forall k :: k in seen <==> exists i :: 0 <= i < |done| && done[i].key == k
  }

  lemma {:induction false} PrintJoins(a: seq<Attr>, b: seq<Attr>)
    ensures PrintAttrs(a + b) == PrintAttrs(a) + PrintAttrs(b)
  {
    if a == [] {
      assert a + b == b;
    } else {
      assert (a + b)[1..] == a[1..] + b;
      PrintJoins(a[1..], b);
    }
  }

  lemma {:induction false} KeptOfPrefix(env: Env, allowed: map<string, AttrKind>, attrs: seq<Attr>, more: seq<Attr>, n: nat)
    requires n <= |attrs|
    ensures Kept(env, allowed, attrs + more, n) == Kept(env, allowed, attrs, n)
  {
    if n > 0 {
      KeptOfPrefix(env, allowed, attrs, more, n - 1);
      forall j | 0 <= j < n ensures (attrs + more)[j] == attrs[j] {}
    }
  }

  lemma ScannedNext(env: Env, all: Option<seq<Attr>>, done: seq<Attr>, t: string, a: Attr, rest: string)
    requires Good(env.entities) && ScannedSoFar(env, all, done, t) && t != "" && !HtmlSpace(t[0]) && t != "/"
    requires AttrOf(env, t) == Some((a, rest))
    ensures ScannedSoFar(env, all, done + [a], rest)
  {
    hide Good, AttrOf;
    assert TrimLeft(t) == t;
    if AttrsOf(env, rest).Some? {
      assert done + ([a] + AttrsOf(env, rest).value) == (done + [a]) + AttrsOf(env, rest).value;
    }
  }

  lemma SeenNext(seen: set<string>, done: seq<Attr>, a: Attr)
    requires SeenKeys(seen, done)
    ensures SeenKeys(seen + {a.key}, done + [a])
    ensures FirstOfKey(done + [a], |done|) <==> a.key !in seen
  {
    var now := done + [a];
    assert forall i | 0 <= i < |done| :: now[i] == done[i];
    assert now[|done|] == a;
    forall k ensures k in seen + {a.key} <==> exists i :: 0 <= i < |now| && now[i].key == k {
      if k in seen { var i :| 0 <= i < |done| && done[i].key == k; assert now[i].key == k; }
    }
  }

  lemma KeptNext(env: Env, allowed: map<string, AttrKind>, seen: set<string>, done: seq<Attr>, a: Attr)
    requires SeenKeys(seen, done)
    ensures PrintAttrs(Kept(env, allowed, done + [a], |done| + 1)) ==
              PrintAttrs(Kept(env, allowed, done, |done|)) +
              if a.key !in seen && Admitted(env, allowed, a) then PrintAttr(Cleaned(allowed, a)) else ""
  {
    hide Admitted, Cleaned, PrintAttr, SeenKeys, FirstOfKey;
    SeenNext(seen, done, a);
    KeptOfPrefix(env, allowed, done, [a], |done|);
    var before, c := Kept(env, allowed, done, |done|), Cleaned(allowed, a);
    PrintJoins(before, [c]);
    assert PrintAttrs([c]) == PrintAttr(c) + PrintAttrs([]);
    assert before + [] == before;
  }

  /** Where the loop stands. */
  ghost predicate Progress(env: Env, allowed: map<string, AttrKind>, all: Option<seq<Attr>>, done: seq<Attr>,
                           seen: set<string>, rest: string, start: string, text: string)
    requires Good(env.entities)
  {
    && ScannedSoFar(env, all, done, rest) && SeenKeys(seen, done)
    && text == start + PrintAttrs(Kept(env, allowed, done, |done|))
  }

  lemma ProgressStart(env: Env, allowed: map<string, AttrKind>, rest: string, start: string)
    requires Good(env.entities)
    ensures Progress(env, allowed, AttrsOf(env, rest), [], {}, rest, start, start)
  {
    hide Good, AttrsOf;
    if AttrsOf(env, rest).Some? { assert [] + AttrsOf(env, rest).value == AttrsOf(env, rest).value; }
    assert start + PrintAttrs([]) == start;
  }

  lemma ProgressTrimmed(env: Env, allowed: map<string, AttrKind>, all: Option<seq<Attr>>, done: seq<Attr>,
                        seen: set<string>, rest: string, start: string, text: string)
    requires Good(env.entities) && Progress(env, allowed, all, done, seen, rest, start, text)
    ensures Progress(env, allowed, all, done, seen, TrimLeft(rest), start, text)
    ensures TrimLeft(rest) == "" ==> all == Some(done)
    ensures TrimLeft(rest) == "/" ==> all == None
  {
    hide Good, AttrOf, SeenKeys;
    TrimLeftTwice(rest);
    assert done + [] == done;
  }

  /** One more attribute. */
  lemma ProgressMade(env: Env, allowed: map<string, AttrKind>, all: Option<seq<Attr>>, done: seq<Attr>,
                     seen: set<string>, t: string, start: string, text: string, a: Attr, rest: string)
    requires Good(env.entities) && Progress(env, allowed, all, done, seen, t, start, text)
    requires t != "" && !HtmlSpace(t[0]) && t != "/" && AttrOf(env, t) == Some((a, rest))
    ensures Progress(env, allowed, all, done + [a], seen + {a.key}, rest, start,
                     text + if a.key !in seen && Admitted(env, allowed, a) then PrintAttr(Cleaned(allowed, a)) else "")
  {
    hide Good, AttrOf, Admitted, Cleaned, PrintAttr, SeenKeys, ScannedSoFar, Kept;
    ScannedNext(env, all, done, t, a, rest);
    SeenNext(seen, done, a);
    KeptNext(env, allowed, seen, done, a);
    assert |done + [a]| == |done| + 1;
  }

  lemma ProgressStopped(env: Env, allowed: map<string, AttrKind>, all: Option<seq<Attr>>, done: seq<Attr>,
                        seen: set<string>, t: string, start: string, text: string)
    requires Good(env.entities) && Progress(env, allowed, all, done, seen, t, start, text)
    requires t != "" && !HtmlSpace(t[0]) && AttrOf(env, t) == None
    ensures all == None
  {
    hide Good, AttrOf, SeenKeys;
    assert TrimLeft(t) == t;
  }

  lemma ProgressDone(env: Env, name: string, all: Option<seq<Attr>>, done: seq<Attr>, seen: set<string>, rest: string, text: string)
    requires Good(env.entities) && name in ALLOWED && all == Some(done)
    requires Progress(env, ALLOWED[name], all, done, seen, rest, "<" + name, text)
    ensures text + ">" == Print(Open(name, Kept(env, ALLOWED[name], done, |done|)))
  {
  }

  method SanitizeInlineTag(env: Env, raw: string) returns (out: Option<string>)
    requires Good(env.entities)
    ensures out == match Sanitized(env, raw)
                   case None => None
                   case Some(tag) => Some(Print(tag))
  {
    hide Good, ALLOWED, AttrOf, AttrsOf, Admitted, Cleaned, PrintAttr, Kept, Progress, Print;
    if !("<" <= raw) || |raw| == 1 || raw[|raw| - 1] != '>' {
      return None;
    }
    var body := raw[1..|raw| - 1];
    if body != "" && body[0] == '/' {
      out := SanitizeClosingTag(body[1..]);
      return;
    }
    var name, rest := ScanTagName(body);
    if name !in ALLOWED {
      return None;
    }
    var allowed := ALLOWED[name];
    var text := "<" + name;
    var seen: set<string> := {};
    ghost var all, done := AttrsOf(env, rest), [];
    ProgressStart(env, allowed, rest, text);
    while true
      invariant Progress(env, allowed, all, done, seen, rest, "<" + name, text)
      invariant Sanitized(env, raw) == match all { case None => None case Some(x) => Some(Open(name, Kept(env, allowed, x, |x|))) }
      decreases |rest|
    {
      ProgressTrimmed(env, allowed, all, done, seen, rest, "<" + name, text);
      rest := TrimLeft(rest);
      if rest == "" {
        break;
      }
      if rest == "/" {
        return None;
      }
      var a, behind, ok := ScanAttr(env, rest);
      if !ok {
        ProgressStopped(env, allowed, all, done, seen, rest, "<" + name, text);
        return None;
      }
      ProgressMade(env, allowed, all, done, seen, rest, "<" + name, text, a, behind);
      done, rest := done + [a], behind;
      text, seen := WriteAttr(env, allowed, text, seen, a);
    }
    ProgressDone(env, name, all, done, seen, rest, text);
    return Some(text + ">");
  }

  lemma {:induction false} TrimLeftTwice(s: string)
    ensures TrimLeft(TrimLeft(s)) == TrimLeft(s)
  {
    if s != "" && HtmlSpace(s[0]) { TrimLeftTwice(s[1..]); }
  }

  /** Writes one scanned attribute unless it is a duplicate, not allowed or invalid. */
  method WriteAttr(env: Env, allowed: map<string, AttrKind>, text: string, seen: set<string>, a: Attr)
    returns (text': string, seen': set<string>)
    ensures seen' == seen + {a.key}
    ensures text' == text + if a.key !in seen && Admitted(env, allowed, a) then PrintAttr(Cleaned(allowed, a)) else ""
  {
    hide Escape;
    if a.key in seen {
      assert text + "" == text && seen + {a.key} == seen;
      return text, seen;
    }
    text', seen' := text, seen + {a.key};
    if a.key !in allowed {
      return;
    }
    var value := a.value;
    if allowed[a.key] == AttrHttpUrl {
      value := Strings.TrimSpace(value);
      if !env.isHttpUrl(value) {
        return;
      }
    }
    text' := text + (" " + a.key + "=\"" + Escape(value) + "\"");
  }
}
