/**
 Character references in attribute values (`unescapeAttrValue`): a decoder for text
 content, fed with some of its ampersands protected, against the attribute rule of the
 WHATWG HTML Standard, section 13.2.5.73.
 */
module CharacterReferences {
  import opened Options

  predicate Alnum(c: char) {
    'a' <= c <= 'z' || 'A' <= c <= 'Z' || '0' <= c <= '9'
  }

  /** The table of named references (keys without the ampersand, with the semicolon
      if they have one), and the decoder of a numeric reference: from a text that
      starts with it to what it means and how long it is. */
  datatype Entities = Entities(named: map<string, string>, numeric: string -> Option<(string, nat)>)

  predicate Legacy(name: string) {
    name != "" && name[|name| - 1] != ';'
  }

  predicate NameShape(name: string) {
    && |name| >= 2
    && (forall i | 0 <= i < |name| - 1 :: Alnum(name[i]))
    && (Alnum(name[|name| - 1]) || name[|name| - 1] == ';')
  }

  ghost predicate GoodNames(named: map<string, string>) {
    && (forall k {:trigger named[k]} {:trigger k in named} :: k in named ==> NameShape(k) && 1 <= |named[k]| <= 2)
    && (forall k {:trigger Legacy(k)} :: k in named && Legacy(k) ==>
          && |k| <= 6 && k + ";" in named && named[k + ";"] == named[k]
          && !Alnum(named[k][|named[k]| - 1]))
    && "amp;" in named && named["amp;"] == "&" && "lt;" in named && named["lt;"] == "<"
    && "gt;" in named && named["gt;"] == ">"
  }

  /** The text up to the next ampersand after the first character. */
  function Head(s: string): string {
    if |s| <= 1 || s[1] == '&' then s[..if s == "" then 0 else 1] else [s[0]] + Head(s[1..])
  }

  /** Two texts that no numeric reference can tell apart. */
  predicate SameHead(s: string, t: string) {
    Head(s) == Head(t) && (Head(s) == s <==> Head(t) == t)
  }

  /** A numeric reference is decided by the text up to the next ampersand. */
  ghost predicate GoodNumeric(numeric: string -> Option<(string, nat)>) {
    && (forall s {:trigger numeric(s)} :: numeric(s).Some? ==> 2 <= numeric(s).value.1 <= |Head(s)|)
    && (forall s, t {:trigger numeric(s), numeric(t)} :: SameHead(s, t) ==> numeric(s) == numeric(t))
    && (forall t :: numeric("&#34;" + t) == Some(("\"", 5)))
    && (forall t :: numeric("&#39;" + t) == Some(("'", 5)))
  }

  ghost predicate Good(e: Entities) {
    GoodNames(e.named) && GoodNumeric(e.numeric)
  }

  // ---------------------------------------------------------------------------
  // Attribute context, as the standard has it
  // ---------------------------------------------------------------------------

  /** The length of the longest name, of `k` characters at most, that `s` starts with;
      0 for none. */
  function Longest(named: map<string, string>, s: string, k: nat): (r: nat)
    requires k <= |s|
    ensures r <= k
  {
    if k == 0 || s[..k] in named then k else Longest(named, s, k - 1)
  }

  /** A name matched without a semicolon stays as it is before `=` and alphanumerics. */
  predicate LeftAlone(s: string, k: nat)
    requires 0 < k <= |s|
  {
    s[k - 1] != ';' && k < |s| && (s[k] == '=' || Alnum(s[k]))
  }

  ghost function AttrDecode(e: Entities, s: string): string
    requires Good(e)
    decreases |s|
  {
    if s == "" then ""
    else if s[0] != '&' then [s[0]] + AttrDecode(e, s[1..])
    else if |s| > 1 && s[1] == '#' then
      HeadShape(s);
      match e.numeric(s)
      case None => "&" + AttrDecode(e, s[1..])
      case Some((v, k)) => v + AttrDecode(e, s[k..])
    else
      var t := s[1..];
      var k := Longest(e.named, t, |t|);
      LongestIsName(e.named, t, |t|);
      if k == 0 then "&" + AttrDecode(e, t)
      else if LeftAlone(t, k) then ("&" + t[..k]) + AttrDecode(e, t[k..])
      else e.named[t[..k]] + AttrDecode(e, t[k..])
  }

  lemma {:induction false} LongestIsName(named: map<string, string>, s: string, k: nat)
    requires k <= |s|
    ensures var r := Longest(named, s, k); r > 0 ==> s[..r] in named
  {
    if !(k == 0 || s[..k] in named) { LongestIsName(named, s, k - 1); }
  }

  lemma {:induction false} HeadShape(s: string)
    ensures var h := Head(s); h <= s && (|h| < |s| ==> s[|h|] == '&') && '&' !in h[if s == "" then 0 else 1..]
    ensures s != "" ==> |Head(s)| > 0
    decreases |s|
  {
    if |s| > 1 && s[1] != '&' {
      HeadShape(s[1..]);
      var h := Head(s[1..]);
      assert h[0] == s[1];
      assert h == [s[1]] + h[1..];
    }
  }

  // ---------------------------------------------------------------------------
  // Text context, as html.UnescapeString has it
  // ---------------------------------------------------------------------------

  function RunLength(s: string): (n: nat)
    ensures n <= |s| && (forall i | 0 <= i < n :: Alnum(s[i])) && (n < |s| ==> !Alnum(s[n]))
  {
    if s != "" && Alnum(s[0]) then 1 + RunLength(s[1..]) else 0
  }

  /** The text that may hold a name: alphanumerics and a semicolon behind them. */
  function NameLength(s: string): (m: nat)
    ensures m <= |s|
  {
    var n := RunLength(s);
    if n < |s| && s[n] == ';' then n + 1 else n
  }

  /** The length of the longest name of 2 to `j` characters that `s` starts with; 0 for
      none. */
  function LongestPrefix(named: map<string, string>, s: string, j: nat): (r: nat)
    requires j <= |s|
    ensures r <= j
  {
    if j <= 1 then 0 else if s[..j] in named then j else LongestPrefix(named, s, j - 1)
  }

  /** The length of the name the decoder settles on: all of that text, or else a
      prefix of at most 6 characters; 0 for none. */
  function NameFound(named: map<string, string>, s: string): (r: nat)
    ensures r <= |s| && (r > 0 ==> s[..r] in named)
  {
    var m := NameLength(s);
    if m > 0 && s[..m] in named then m
    else
      var j := if m == 0 then 0 else if m - 1 > 6 then 6 else m - 1;
      PrefixIsName(named, s, j);
      LongestPrefix(named, s, j)
  }

  function TextDecode(e: Entities, s: string): string
    requires Good(e)
    decreases |s|
  {
    if s == "" then ""
    else if s[0] != '&' || |s| == 1 then [s[0]] + TextDecode(e, s[1..])
    else if s[1] == '#' then
      HeadShape(s);
      match e.numeric(s)
      case None => "&" + TextDecode(e, s[1..])
      case Some((v, k)) => v + TextDecode(e, s[k..])
    else
      var t := s[1..];
      var k, m := NameFound(e.named, t), NameLength(t);
      if k > 0 then e.named[t[..k]] + TextDecode(e, t[k..])
      else ("&" + t[..m]) + TextDecode(e, t[m..])
  }

  lemma {:induction false} PrefixIsName(named: map<string, string>, s: string, j: nat)
    requires j <= |s|
    ensures var r := LongestPrefix(named, s, j); r > 0 ==> s[..r] in named
  {
    if j > 1 && s[..j] !in named { PrefixIsName(named, s, j - 1); }
  }

  // ---------------------------------------------------------------------------
  // Both look for the longest name
  // ---------------------------------------------------------------------------

  lemma {:induction false} LongestIsLongest(named: map<string, string>, s: string, k: nat, j: nat)
    requires 0 < j <= k <= |s| && s[..j] in named
    ensures j <= Longest(named, s, k)
  {
    if s[..k] !in named { LongestIsLongest(named, s, k - 1, j); }
  }

  lemma {:induction false} PrefixIsLongest(named: map<string, string>, s: string, k: nat, j: nat)
    requires 1 < j <= k <= |s| && s[..j] in named
    ensures j <= LongestPrefix(named, s, k)
  {
    if s[..k] !in named { PrefixIsLongest(named, s, k - 1, j); }
  }

  /** No name is longer than the alphanumerics and a semicolon behind them. */
  lemma NamesFit(named: map<string, string>, s: string, k: nat)
    requires GoodNames(named) && k <= |s| && s[..k] in named
    ensures 2 <= k <= NameLength(s)
  {
    assert NameShape(s[..k]);
    forall i | 0 <= i < k - 1 ensures Alnum(s[i]) { assert Alnum(s[..k][i]); }
    assert s[..k][k - 1] == s[k - 1];
  }

  /** A name shorter than that has no semicolon. */
  lemma ShorterIsLegacy(named: map<string, string>, s: string, k: nat)
    requires GoodNames(named) && k < NameLength(s) && s[..k] in named
    ensures Legacy(s[..k]) && 2 <= k <= 6 && Alnum(s[k - 1])
  {
    NamesFit(named, s, k);
    assert k - 1 < RunLength(s) && Alnum(s[k - 1]);
    assert s[..k][k - 1] == s[k - 1];
    assert Legacy(s[..k]);
  }

  /** What the text decoder's two look-ups find is the longest name. */
  lemma FoundIsLongest(named: map<string, string>, s: string)
    requires GoodNames(named)
    ensures NameFound(named, s) == Longest(named, s, |s|)
  {
    hide GoodNames, NameLength;
    var m, r, f := NameLength(s), Longest(named, s, |s|), NameFound(named, s);
    LongestIsName(named, s, |s|);
    if f > 0 { LongestIsLongest(named, s, |s|, f); }
    if r > 0 {
      NamesFit(named, s, r);
      if r < m {
        ShorterIsLegacy(named, s, r);
        PrefixIsLongest(named, s, if m - 1 > 6 then 6 else m - 1, r);
      }
    }
  }

  /** The text decoder decodes the longest name, whatever follows. */
  lemma TextDecodesLongest(e: Entities, s: string)
    requires Good(e) && |s| > 1 && s[0] == '&' && s[1] != '#'
    ensures var k := Longest(e.named, s[1..], |s| - 1);
      && (k > 0 ==> s[1..][..k] in e.named)
      && TextDecode(e, s) == if k > 0 then e.named[s[1..][..k]] + TextDecode(e, s[1..][k..]) else "&" + TextDecode(e, s[1..])
  {
    hide GoodNames, GoodNumeric, Longest, NameLength, NameFound;
    var t := s[1..];
    var k, m := NameFound(e.named, t), NameLength(t);
    FoundIsLongest(e.named, t);
    LongestIsName(e.named, t, |t|);
    if k == 0 {
      PlainNameLength(t);
      PlainDecodes(e, t[..m], t[m..]);
      PlainCopied(t, m, TextDecode(e, t[m..]));
    }
  }

  lemma PlainCopied(t: string, m: nat, rest: string)
    requires m <= |t|
    ensures t[..m] + t[m..] == t && ("&" + t[..m]) + rest == "&" + (t[..m] + rest)
  {
  }

  lemma PlainNameLength(s: string)
    ensures '&' !in s[..NameLength(s)]
  {
  }

  lemma {:induction false} PlainDecodes(e: Entities, x: string, y: string)
    requires Good(e) && '&' !in x
    ensures TextDecode(e, x + y) == x + TextDecode(e, y)
  {
    if x == "" {
      assert x + y == y;
    } else {
      assert x[0] in x;
      assert (x + y)[1..] == x[1..] + y;
      PlainDecodes(e, x[1..], y);
    }
  }

  // ---------------------------------------------------------------------------
  // Protecting ampersands
  // ---------------------------------------------------------------------------

  /** `refStaysLiteral`: decided from what the text decoder makes of the name. */
  predicate RefStaysLiteral(e: Entities, name: string, next: string)
    requires Good(e) && name != ""
  {
    var ref := "&" + name;
    var decoded := TextDecode(e, ref);
    if |next| > 0 && next[0] == ';' && TextDecode(e, ref + ";") != decoded + ";" then false
    else if decoded == ref then false
    else
      decoded != "" && (Alnum(decoded[|decoded| - 1]) || (|next| > 0 && next[0] == '='))
  }

  /** The text with the ampersands doubled that the text decoder must not see. */
  ghost function Protected(e: Entities, s: string): string
    requires Good(e)
  {
    if s == "" then ""
    else if s[0] != '&' then [s[0]] + Protected(e, s[1..])
    else
      var n := RunLength(s[1..]);
      (if n > 0 && RefStaysLiteral(e, s[1..][..n], s[1..][n..]) then "&amp;" else "&") + Protected(e, s[1..])
  }

  // ---------------------------------------------------------------------------
  // Deciding a reference from what the text decoder makes of its name
  // ---------------------------------------------------------------------------

  /** `s` starts with the alphanumerics `run`, and no more of them. */
  predicate RunThen(s: string, run: string, next: string) {
    s == run + next && (forall c :: c in run ==> Alnum(c)) && (next == "" || !Alnum(next[0]))
  }

  predicate Semicolon(next: string) {
    next != "" && next[0] == ';'
  }

  lemma {:induction false} RunThenLength(s: string, run: string, next: string)
    requires RunThen(s, run, next)
    ensures RunLength(s) == |run|
    ensures NameLength(s) == |run| + if Semicolon(next) then 1 else 0
  {
    if run != "" {
      assert run[0] in run && s[1..] == run[1..] + next;
      RunThenLength(s[1..], run[1..], next);
    } else {
      assert s == next;
    }
  }

  lemma {:induction false} PrefixLocal(named: map<string, string>, s: string, t: string, j: nat)
    requires j <= |s| && j <= |t| && s[..j] == t[..j]
    ensures LongestPrefix(named, s, j) == LongestPrefix(named, t, j)
  {
    if j > 1 {
      assert s[..j - 1] == s[..j][..j - 1] && t[..j - 1] == t[..j][..j - 1];
      PrefixLocal(named, s, t, j - 1);
    }
  }

  /** The longest name depends on the run and on whether a semicolon follows it. */
  lemma LongestLocal(named: map<string, string>, s: string, t: string, run: string, next: string, other: string)
    requires GoodNames(named) && RunThen(s, run, next) && RunThen(t, run, other) && (Semicolon(next) <==> Semicolon(other))
    ensures Longest(named, s, |s|) == Longest(named, t, |t|)
    ensures var k := Longest(named, s, |s|); k <= |run| + (if Semicolon(next) then 1 else 0) && s[..k] == t[..k]
  {
    hide GoodNames, Longest, LongestPrefix, NameLength;
    RunThenLength(s, run, next);
    RunThenLength(t, run, other);
    FoundIsLongest(named, s);
    FoundIsLongest(named, t);
    var m, k := NameLength(s), Longest(named, s, |s|);
    CommonStart(s, t, run, next, other);
    var j := if m == 0 then 0 else if m - 1 > 6 then 6 else m - 1;
    TakeLess(s, t, m, j);
    PrefixLocal(named, s, t, j);
    NameFoundFits(named, s);
    TakeLess(s, t, m, k);
  }

  lemma NameFoundFits(named: map<string, string>, s: string)
    ensures NameFound(named, s) <= NameLength(s)
  {
  }

  lemma CommonStart(s: string, t: string, run: string, next: string, other: string)
    requires s == run + next && t == run + other && (Semicolon(next) <==> Semicolon(other))
    ensures var m := |run| + if Semicolon(next) then 1 else 0; m <= |s| && m <= |t| && s[..m] == t[..m]
  {
  }

  lemma TakeLess(s: string, t: string, m: nat, k: nat)
    requires k <= m <= |s| && m <= |t| && s[..m] == t[..m]
    ensures s[..k] == t[..k]
  {
    assert s[..m][..k] == s[..k] && t[..m][..k] == t[..k];
  }

  /** The decoder on a lone name: its longest legacy prefix is decoded. */
  lemma NameDecodes(e: Entities, name: string, semi: string)
    requires Good(e) && name != "" && RunThen(name + semi, name, semi) && semi in {"", ";"}
    ensures var t := name + semi; var k := Longest(e.named, t, |t|);
      && (k > 0 ==> t[..k] in e.named)
      && TextDecode(e, "&" + t) == if k > 0 then e.named[t[..k]] + t[k..] else "&" + t
  {
    hide GoodNames, GoodNumeric, Longest, TextDecode;
    var t := name + semi;
    var s, k := "&" + t, Longest(e.named, t, |t|);
    assert name[0] in name && t[0] == name[0];
    assert s[1..] == t;
    TextDecodesLongest(e, s);
    LongestIsName(e.named, t, |t|);
    NameIsPlain(name, semi, k);
    PlainAlone(e, t[k..]);
    PlainAlone(e, t);
  }

  lemma NameIsPlain(name: string, semi: string, k: nat)
    requires (forall c :: c in name ==> Alnum(c)) && semi in {"", ";"} && k <= |name + semi|
    ensures '&' !in name + semi && '&' !in (name + semi)[k..]
  {
    assert '&' !in semi;
  }

  lemma PlainAlone(e: Entities, x: string)
    requires Good(e) && '&' !in x
    ensures TextDecode(e, x) == x
  {
    PlainDecodes(e, x, "");
    assert x + "" == x;
  }

  lemma {:induction false} LongestOnPrefix(named: map<string, string>, s: string, x: string, j: nat)
    requires j <= |s|
    ensures Longest(named, s + x, j) == Longest(named, s, j)
  {
    assert (s + x)[..j] == s[..j];
    if j > 0 { LongestOnPrefix(named, s, x, j - 1); }
  }

  predicate Name(name: string) {
    name != "" && forall c :: c in name ==> Alnum(c)
  }

  /** Values are short: decoding never gives back what it decoded. */
  lemma ValueSizes(e: Entities, name: string, k: nat)
    requires Good(e) && Name(name) && k == Longest(e.named, name, |name|)
    ensures k > 0 ==> 2 <= k && name[..k] in e.named && 1 <= |e.named[name[..k]]| <= 2
    ensures name + ";" in e.named ==> 1 <= |e.named[name + ";"]| <= 2
    ensures k == |name| && name + ";" in e.named ==> e.named[name + ";"] == e.named[name[..k]]
    ensures k == |name| ==> name + ";" in e.named && !Alnum(e.named[name[..k]][|e.named[name[..k]]| - 1])
  {
    LongestIsName(e.named, name, |name|);
    if k > 0 { NamesFit(e.named, name, k); }
    assert name[..|name|] == name && name[|name| - 1] in name && Legacy(name);
  }

  lemma LoneDecodes(e: Entities, name: string)
    requires Good(e) && Name(name)
    ensures var k := Longest(e.named, name, |name|);
      && (k > 0 ==> name[..k] in e.named)
      && TextDecode(e, "&" + name) == if k > 0 then e.named[name[..k]] + name[k..] else "&" + name
  {
    assert name + "" == name;
    NameDecodes(e, name, "");
  }

  /** What decoding a lone name tells about its longest legacy prefix. */
  lemma DecodedName(e: Entities, name: string)
    requires Good(e) && Name(name)
    ensures var k, decoded := Longest(e.named, name, |name|), TextDecode(e, "&" + name);
      && decoded != "" && (k == 0 <==> decoded == "&" + name)
      && (k > 0 ==> (Alnum(decoded[|decoded| - 1]) <==> k < |name|))
  {
    hide GoodNames, GoodNumeric, TextDecode, Longest;
    var k := Longest(e.named, name, |name|);
    LoneDecodes(e, name);
    ValueSizes(e, name, k);
    if k > 0 { LastOf(e.named[name[..k]], name, k); }
  }

  lemma LastOf(v: string, name: string, k: nat)
    requires Name(name) && k <= |name| && v != ""
    ensures var d := v + name[k..]; |d| == |v| + |name| - k && if k < |name| then Alnum(d[|d| - 1]) else d == v
  {
    assert name[|name| - 1] in name;
  }

  /** And what decoding it with a semicolon tells about the complete name. */
  lemma DecodedComplete(e: Entities, name: string)
    requires Good(e) && Name(name)
    ensures var t := name + ";";
      && (t in e.named <==> Longest(e.named, t, |t|) == |t|)
      && (t in e.named <==> TextDecode(e, "&" + t) != TextDecode(e, "&" + name) + ";")
      && (t !in e.named ==> Longest(e.named, t, |t|) == Longest(e.named, name, |name|))
  {
    hide GoodNames, GoodNumeric, TextDecode, Longest;
    var t := name + ";";
    if t in e.named {
      CompleteDecodes(e, name);
    } else {
      IncompleteDecodes(e, name);
    }
  }

  lemma CompleteDecodes(e: Entities, name: string)
    requires Good(e) && Name(name) && name + ";" in e.named
    ensures var t := name + ";";
      Longest(e.named, t, |t|) == |t| && TextDecode(e, "&" + t) != TextDecode(e, "&" + name) + ";"
  {
    var t, k := name + ";", Longest(e.named, name, |name|);
    assert t[..|t|] == t;
    hide GoodNames, GoodNumeric, TextDecode;
    LoneDecodes(e, name);
    NameDecodes(e, name, ";");
    ValueSizes(e, name, k);
    assert |TextDecode(e, "&" + t)| == |e.named[t]|;
  }

  lemma IncompleteDecodes(e: Entities, name: string)
    requires Good(e) && Name(name) && name + ";" !in e.named
    ensures var t := name + ";";
      && Longest(e.named, t, |t|) == Longest(e.named, name, |name|) < |t|
      && TextDecode(e, "&" + t) == TextDecode(e, "&" + name) + ";"
  {
    var t, k := name + ";", Longest(e.named, name, |name|);
    assert t[..|t|] == t;
    LongestOnPrefix(e.named, name, ";", |name|);
    assert Longest(e.named, t, |t|) == k;
    hide GoodNames, GoodNumeric, TextDecode, Longest;
    LoneDecodes(e, name);
    NameDecodes(e, name, ";");
    AppendLast(name, k, if k > 0 then e.named[name[..k]] else "");
  }

  lemma AppendLast(name: string, k: nat, v: string)
    requires k <= |name|
    ensures var t := name + ";"; t[..k] == name[..k] && v + t[k..] == v + name[k..] + ";" && "&" + t == "&" + name + ";"
  {
  }

  /** `refStaysLiteral` says what the attribute rule of the standard says. */
  lemma RefStaysLiteralIff(e: Entities, s: string, name: string, next: string)
    requires Good(e) && Name(name) && RunThen(s, name, next)
    ensures var k := Longest(e.named, s, |s|); RefStaysLiteral(e, name, next) <==> k > 0 && LeftAlone(s, k)
  {
    hide GoodNames, GoodNumeric, Longest, TextDecode;
    var k := Longest(e.named, s, |s|);
    DecodedName(e, name);
    DecodedComplete(e, name);
    var ref := "&" + name;
    assert name + "" == name && ref + ";" == "&" + (name + ";");
    if Semicolon(next) {
      LongestLocal(e.named, s, name + ";", name, next, ";");
    } else {
      LongestLocal(e.named, s, name, name, next, "");
    }
    forall i | 0 <= i < |name| ensures s[i] == name[i] && Alnum(name[i]) { assert name[i] in name; }
    if |next| > 0 { assert s[|name|] == next[0]; }
  }

  // ---------------------------------------------------------------------------
  // Protecting and decoding is decoding in attribute context
  // ---------------------------------------------------------------------------

  lemma {:induction false} ProtectedPlain(e: Entities, x: string, y: string)
    requires Good(e) && '&' !in x
    ensures Protected(e, x + y) == x + Protected(e, y)
  {
    if x == "" {
      assert x + y == y;
    } else {
      assert x[0] in x && (x + y)[1..] == x[1..] + y;
      ProtectedPlain(e, x[1..], y);
    }
  }

  lemma {:induction false} AttrPlain(e: Entities, x: string, y: string)
    requires Good(e) && '&' !in x
    ensures AttrDecode(e, x + y) == x + AttrDecode(e, y)
  {
    hide GoodNames, GoodNumeric, Longest;
    if x == "" {
      assert x + y == y;
    } else {
      assert x[0] in x && (x + y)[1..] == x[1..] + y;
      AttrPlain(e, x[1..], y);
    }
  }

  lemma ProtectedFirst(e: Entities, s: string)
    requires Good(e)
    ensures s == "" <==> Protected(e, s) == ""
    ensures s != "" ==> Protected(e, s)[0] == s[0]
  {
  }

  lemma AmpDecodes(e: Entities, x: string)
    requires Good(e)
    ensures TextDecode(e, "&amp;" + x) == "&" + TextDecode(e, x)
  {
    var s := "&amp;" + x;
    var t := s[1..];
    assert t == "amp" + (";" + x);
    assert RunThen(t, "amp", ";" + x);
    RunThenLength(t, "amp", ";" + x);
    assert t[..4] == "amp;" && t[4..] == x;
  }

  /** The run of alphanumerics a text starts with, and what follows. */
  lemma RunOf(s: string)
    ensures var n := RunLength(s); RunThen(s, s[..n], s[n..])
  {
    var n := RunLength(s);
    assert s == s[..n] + s[n..];
  }

  /** One ampersand the text decoder may see: it decodes what the attribute rule
      decodes there. */
  lemma SeenReference(e: Entities, s: string)
    requires Good(e) && s != ""
    requires s[0] != '#' && RunLength(s) > 0 ==> !RefStaysLiteral(e, s[..RunLength(s)], s[RunLength(s)..])
    requires s[0] != '#'
    ensures var k, p := Longest(e.named, s, |s|), Protected(e, s);
      && (k > 0 ==> s[..k] in e.named && !LeftAlone(s, k))
      && TextDecode(e, "&" + p) == if k > 0 then e.named[s[..k]] + TextDecode(e, Protected(e, s[k..])) else "&" + TextDecode(e, p)
  {
    hide GoodNames, GoodNumeric, TextDecode, Longest, RefStaysLiteral, Protected;
    var n, p, k := RunLength(s), Protected(e, s), Longest(e.named, s, |s|);
    var run, next := s[..n], s[n..];
    RunOf(s);
    NoAmpersand(run);
    ProtectedPlain(e, run, next);
    ProtectedFirst(e, s);
    ProtectedFirst(e, next);
    assert RunThen(p, run, Protected(e, next));
    LongestLocal(e.named, s, p, run, next, Protected(e, next));
    LongestIsName(e.named, s, |s|);
    assert ("&" + p)[1..] == p;
    TextDecodesLongest(e, "&" + p);
    if n > 0 {
      RefStaysLiteralIff(e, s, run, next);
    } else {
      NoRunNoName(e, s);
    }
    if k > 0 { PrefixProtected(e, s, k, n); }
  }

  lemma NoRunNoName(e: Entities, s: string)
    requires Good(e) && RunLength(s) == 0
    ensures Longest(e.named, s, |s|) == 0
  {
    var k := Longest(e.named, s, |s|);
    LongestIsName(e.named, s, |s|);
    if k > 0 { NamesFit(e.named, s, k); }
  }

  lemma NoAmpersand(run: string)
    requires forall c :: c in run ==> Alnum(c)
    ensures '&' !in run
  {
  }

  lemma PrefixProtected(e: Entities, s: string, k: nat, n: nat)
    requires Good(e) && n == RunLength(s) && k <= |s| && k <= n + (if Semicolon(s[n..]) then 1 else 0)
    ensures k <= |Protected(e, s)| && Protected(e, s)[k..] == Protected(e, s[k..]) && '&' !in s[..k]
  {
    assert s == s[..k] + s[k..];
    ProtectedPlain(e, s[..k], s[k..]);
  }

  /** Protecting leaves the text before the next ampersand as it is. */
  lemma ProtectedHead(e: Entities, s: string)
    requires Good(e) && |s| > 1 && s[0] == '&' && s[1] != '&'
    ensures var h, p := Head(s), "&" + Protected(e, s[1..]);
      && 1 <= |h| <= |s| && s == h + s[|h|..] && p == h + Protected(e, s[|h|..]) && SameHead(s, p) && '&' !in h[1..]
  {
    hide GoodNames, GoodNumeric, Protected;
    var h := Head(s);
    HeadShape(s);
    var t, u := h[1..], s[|h|..];
    assert s[1..] == t + u && h == "&" + t;
    ProtectedPlain(e, t, u);
    ProtectedFirst(e, u);
    HeadIs(s, h, u);
    HeadIs("&" + Protected(e, s[1..]), h, Protected(e, u));
  }

  /** The numeric case: the decoder sees the same reference. */
  lemma SeenNumber(e: Entities, s: string)
    requires Good(e) && |s| > 1 && s[0] == '&' && s[1] == '#'
    ensures var p := "&" + Protected(e, s[1..]);
      && e.numeric(p) == e.numeric(s)
      && (e.numeric(s).Some? ==>
            && 2 <= e.numeric(s).value.1 <= |s| && e.numeric(s).value.1 <= |p|
            && p[e.numeric(s).value.1..] == Protected(e, s[e.numeric(s).value.1..]))
  {
    hide GoodNames, Protected, Head;
    ProtectedHead(e, s);
    var h, p := Head(s), "&" + Protected(e, s[1..]);
    assert e.numeric(p) == e.numeric(s);
    if e.numeric(s).Some? {
      CutHead(e, s, h, s[|h|..], p, e.numeric(s).value.1);
    }
  }

  lemma CutHead(e: Entities, s: string, h: string, u: string, p: string, k: nat)
    requires Good(e) && s == h + u && p == h + Protected(e, u) && 1 <= k <= |h| && '&' !in h[1..]
    ensures p[k..] == Protected(e, s[k..])
  {
    hide GoodNames, GoodNumeric, Protected;
    assert s[k..] == h[k..] + u && p[k..] == h[k..] + Protected(e, u);
    assert forall c :: c in h[k..] ==> c in h[1..] by {
      forall c | c in h[k..] ensures c in h[1..] {
        var i :| 0 <= i < |h| - k && h[k..][i] == c;
        assert h[1..][i + k - 1] == c;
      }
    }
    ProtectedPlain(e, h[k..], u);
  }

  lemma {:induction false} HeadIs(s: string, h: string, u: string)
    requires s == h + u && h != "" && '&' !in h[1..] && (u == "" || u[0] == '&')
    ensures Head(s) == h && (Head(s) == s <==> u == "")
    decreases |h|
  {
    if |h| > 1 {
      assert h[1] in h[1..] && s[1..] == h[1..] + u;
      HeadIs(s[1..], h[1..], u);
    }
  }

  ghost predicate Agrees(e: Entities, s: string)
    requires Good(e)
  {
    TextDecode(e, Protected(e, s)) == AttrDecode(e, s)
  }

  lemma NumberAgrees(e: Entities, s: string)
    requires Good(e) && |s| > 1 && s[0] == '&' && s[1] == '#'
    requires Agrees(e, s[1..])
    requires e.numeric(s).Some? ==> e.numeric(s).value.1 <= |s| && Agrees(e, s[e.numeric(s).value.1..])
    ensures Agrees(e, s)
  {
    hide GoodNames, GoodNumeric, AttrDecode, TextDecode, Protected;
    SeenNumber(e, s);
    assert "&" + s[1..] == s;
    ProtectedFirst(e, s[1..]);
    var p := Protected(e, s[1..]);
    assert ("&" + p)[1..] == p;
    ProtectedNumber(e, s[1..]);
    NumberDecoded(e, s);
    NumberDecoded(e, "&" + p);
  }

  lemma ProtectedNumber(e: Entities, s: string)
    requires Good(e) && s != "" && s[0] == '#'
    ensures Protected(e, "&" + s) == "&" + Protected(e, s)
  {
    hide GoodNames, GoodNumeric, RefStaysLiteral;
    assert ("&" + s)[1..] == s && RunLength(s) == 0;
  }

  /** Both decoders on a numeric reference. */
  lemma NumberDecoded(e: Entities, s: string)
    requires Good(e) && |s| > 1 && s[0] == '&' && s[1] == '#'
    ensures e.numeric(s).Some? ==> 2 <= e.numeric(s).value.1 <= |s|
    ensures AttrDecode(e, s) == if e.numeric(s) == None then "&" + AttrDecode(e, s[1..])
                                else e.numeric(s).value.0 + AttrDecode(e, s[e.numeric(s).value.1..])
    ensures TextDecode(e, s) == if e.numeric(s) == None then "&" + TextDecode(e, s[1..])
                                else e.numeric(s).value.0 + TextDecode(e, s[e.numeric(s).value.1..])
  {
    HeadShape(s);
  }

  /** The attribute decoder on a reference by name. */
  lemma NameDecoded(e: Entities, s: string)
    requires Good(e) && s != "" && s[0] != '#'
    ensures var k := Longest(e.named, s, |s|);
      && (k > 0 ==> s[..k] in e.named)
      && AttrDecode(e, "&" + s) ==
           if k == 0 then "&" + AttrDecode(e, s)
           else if LeftAlone(s, k) then ("&" + s[..k]) + AttrDecode(e, s[k..])
           else e.named[s[..k]] + AttrDecode(e, s[k..])
  {
    hide GoodNames, GoodNumeric, Longest, LeftAlone;
    LongestIsName(e.named, s, |s|);
    assert ("&" + s)[1..] == s;
  }

  /** A reference by name that the attribute rule leaves alone. */
  lemma ProtectedReferenceAgrees(e: Entities, s: string)
    requires Good(e) && s != "" && s[0] != '#' && RunLength(s) > 0
    requires RefStaysLiteral(e, s[..RunLength(s)], s[RunLength(s)..]) && Agrees(e, s)
    ensures Agrees(e, "&" + s)
  {
    hide GoodNames, GoodNumeric, TextDecode, Longest, RefStaysLiteral, NameLength;
    var n := RunLength(s);
    assert ("&" + s)[1..] == s;
    RunOf(s);
    RefStaysLiteralIff(e, s, s[..n], s[n..]);
    hide Protected;
    ProtectedStep(e, s);
    AmpDecodes(e, Protected(e, s));
    LeftAloneDecodes(e, s);
  }

  lemma ProtectedStep(e: Entities, s: string)
    requires Good(e)
    ensures var n := RunLength(s);
      Protected(e, "&" + s) == (if n > 0 && RefStaysLiteral(e, s[..n], s[n..]) then "&amp;" else "&") + Protected(e, s)
  {
    assert ("&" + s)[1..] == s;
  }

  lemma LeftAloneDecodes(e: Entities, s: string)
    requires Good(e) && s != "" && s[0] != '#'
    requires var k := Longest(e.named, s, |s|); k > 0 && LeftAlone(s, k)
    ensures AttrDecode(e, "&" + s) == "&" + AttrDecode(e, s)
  {
    hide GoodNames, GoodNumeric, Longest, NameLength, AttrDecode;
    var k := Longest(e.named, s, |s|);
    NameDecoded(e, s);
    LeftAloneIsPlain(e, s, k);
    var x, y := s[..k], s[k..];
    assert x + y == s;
    AttrPlain(e, x, y);
    assert ("&" + x) + AttrDecode(e, y) == "&" + (x + AttrDecode(e, y));
  }

  lemma LeftAloneIsPlain(e: Entities, s: string, k: nat)
    requires Good(e) && 0 < k <= |s| && s[..k] in e.named
    ensures '&' !in s[..k]
  {
    NamesFit(e.named, s, k);
  }

  /** Any other reference by name, and an ampersand that starts none. */
  lemma SeenReferenceAgrees(e: Entities, s: string)
    requires Good(e) && s != "" && s[0] != '#'
    requires RunLength(s) > 0 ==> !RefStaysLiteral(e, s[..RunLength(s)], s[RunLength(s)..])
    requires Agrees(e, s) && var k := Longest(e.named, s, |s|); Agrees(e, s[k..])
    ensures Agrees(e, "&" + s)
  {
    hide GoodNames, GoodNumeric, TextDecode, Longest, RefStaysLiteral, Protected, AttrDecode;
    SeenReference(e, s);
    ProtectedStep(e, s);
    NameDecoded(e, s);
  }

  lemma NothingAgrees(e: Entities)
    requires Good(e)
    ensures Agrees(e, "")
  {
  }

  lemma CharAgrees(e: Entities, s: string)
    requires Good(e) && s != "" && s[0] != '&' && Agrees(e, s[1..])
    ensures Agrees(e, s)
  {
    hide GoodNames, GoodNumeric, Longest;
    var p := Protected(e, s[1..]);
    assert Protected(e, s) == [s[0]] + p;
    PlainDecodes(e, [s[0]], p);
  }

  lemma AmpersandAgrees(e: Entities, s: string)
    requires Good(e) && s == "&"
    ensures Agrees(e, s)
  {
    assert RunLength(s[1..]) == 0;
  }

  lemma {:induction false} AllAgree(e: Entities, s: string)
    requires Good(e)
    ensures Agrees(e, s)
    decreases |s|
  {
    hide Good, Longest, RefStaysLiteral, Agrees;
    if s == "" {
      NothingAgrees(e);
    } else if s == "&" {
      AmpersandAgrees(e, s);
    } else {
      var t := s[1..];
      AllAgree(e, t);
      if s[0] != '&' {
        CharAgrees(e, s);
      } else if t[0] == '#' {
        NumberDecoded(e, s);
        if e.numeric(s).Some? { AllAgree(e, s[e.numeric(s).value.1..]); }
        NumberAgrees(e, s);
      } else {
        assert s == "&" + t;
        var n := RunLength(t);
        if n > 0 && RefStaysLiteral(e, t[..n], t[n..]) {
          ProtectedReferenceAgrees(e, t);
        } else {
          AllAgree(e, t[Longest(e.named, t, |t|)..]);
          SeenReferenceAgrees(e, t);
        }
      }
    }
  }

  /** `unescapeAttrValue` decodes as an HTML parser does in an attribute. */
  lemma ProtectedDecodes(e: Entities, s: string)
    requires Good(e)
    ensures TextDecode(e, Protected(e, s)) == AttrDecode(e, s)
  {
    AllAgree(e, s);
  }

  // ---------------------------------------------------------------------------
  // The code
  // ---------------------------------------------------------------------------

  method IndexByte(s: string, c: char) returns (i: int)
    ensures i == -1 ==> c !in s
    ensures i != -1 ==> 0 <= i < |s| && s[i] == c && c !in s[..i]
  {
    i := 0;
    while i < |s|
      invariant 0 <= i <= |s| && c !in s[..i]
    {
      if s[i] == c { return; }
      i := i + 1;
    }
    i := -1;
  }

  method ScanRun(s: string) returns (n: nat)
    ensures n == RunLength(s)
  {
    n := 0;
    while n < |s| && Alnum(s[n])
      invariant n <= |s| && RunLength(s) == n + RunLength(s[n..])
    {
      assert s[n..][1..] == s[n + 1..];
      n := n + 1;
    }
  }

  lemma ProtectedUpTo(e: Entities, prot: string, rest: string, i: nat)
    requires Good(e) && i < |rest| && rest[i] == '&' && '&' !in rest[..i]
    ensures var t := rest[i + 1..]; var n := RunLength(t);
      prot + Protected(e, rest) ==
        prot + rest[..i] + (if n > 0 && RefStaysLiteral(e, t[..n], t[n..]) then "&amp;" else "&") + Protected(e, t)
  {
    hide GoodNames, GoodNumeric, RefStaysLiteral, Protected;
    var t := rest[i + 1..];
    assert rest == rest[..i] + ("&" + t);
    ProtectedPlain(e, rest[..i], "&" + t);
    ProtectedStep(e, t);
    var n := RunLength(t);
    var amp := if n > 0 && RefStaysLiteral(e, t[..n], t[n..]) then "&amp;" else "&";
    FourParts(prot, rest[..i], amp, Protected(e, t));
  }

  lemma FourParts(a: string, b: string, c: string, d: string)
    ensures a + (b + (c + d)) == a + b + c + d
  {
  }

  /** One ampersand at a time, then the text decoder over the whole. */
  method UnescapeAttrValue(e: Entities, s: string) returns (r: string)
    requires Good(e)
    ensures r == AttrDecode(e, s)
  {
    hide GoodNames, GoodNumeric, RefStaysLiteral, Protected, TextDecode, AttrDecode;
    var prot, rest := "", s;
    ghost var all := Protected(e, s);
    assert all == "" + Protected(e, s);
    while true
      invariant all == prot + Protected(e, rest)
      decreases |rest|
    {
      var i := IndexByte(rest, '&');
      if i < 0 {
        LastProtected(e, rest);
        prot := prot + rest;
        break;
      }
      ProtectedUpTo(e, prot, rest, i);
      prot := prot + rest[..i];
      rest := rest[i + 1..];
      var n := ScanRun(rest);
      if n > 0 && RefStaysLiteral(e, rest[..n], rest[n..]) {
        prot := prot + "&amp;";
      } else {
        prot := prot + "&";
      }
    }
    ProtectedDecodes(e, s);
    r := TextDecode(e, prot);
  }

  lemma LastProtected(e: Entities, s: string)
    requires Good(e) && '&' !in s
    ensures Protected(e, s) == s
  {
    ProtectedPlain(e, s, "");
    assert s + "" == s;
  }

  // ---------------------------------------------------------------------------
  // The assumptions about tables can be met
  // ---------------------------------------------------------------------------

  const FEW_NAMES: map<string, string> :=
    map["amp;" := "&", "amp" := "&", "lt;" := "<", "gt;" := ">"]

  function QuotesOnly(s: string): Option<(string, nat)> {
    var h := Head(s);
    if "&#34;" <= h then Some(("\"", 5)) else if "&#39;" <= h then Some(("'", 5)) else None
  }

  lemma {:induction false} HeadKeeps(x: string, t: string)
    requires x != "" && '&' !in x[1..]
    ensures x <= Head(x + t)
    decreases |x|
  {
    var s := x + t;
    HeadShape(s);
    if |x| > 1 {
      assert x[1] in x[1..] && s[1] == x[1];
      assert s[1..] == x[1..] + t;
      assert forall c :: c in x[1..][1..] ==> c in x[1..];
      HeadKeeps(x[1..], t);
    }
  }

  lemma QuotesOnlyIsGood()
    ensures GoodNumeric(QuotesOnly)
  {
    forall t: string ensures QuotesOnly("&#34;" + t) == Some(("\"", 5)) && QuotesOnly("&#39;" + t) == Some(("'", 5)) {
      HeadKeeps("&#34;", t);
      HeadKeeps("&#39;", t);
      assert Head("&#39;" + t)[3] == '9';
    }
  }

  lemma FewShapes(k: string)
    requires k in FEW_NAMES
    ensures NameShape(k) && |FEW_NAMES[k]| == 1 && (Legacy(k) ==> k == "amp")
  {
    assert k == "amp;" || k == "amp" || k == "lt;" || k == "gt;";
  }

  lemma FewNamesAreGood()
    ensures GoodNames(FEW_NAMES)
  {
    assert "amp" + ";" == "amp;";
    forall k | k in FEW_NAMES
      ensures NameShape(k) && |FEW_NAMES[k]| == 1 && (Legacy(k) ==> k == "amp")
    {
      FewShapes(k);
    }
    hide NameShape, Legacy;
    assert FEW_NAMES["amp"] == "&" && !Alnum('&');
  }

  lemma SuchTablesExist()
    ensures Good(Entities(FEW_NAMES, QuotesOnly))
  {
    hide GoodNames, GoodNumeric;
    QuotesOnlyIsGood();
    FewNamesAreGood();
  }
}
