/**
 JSONC as it is written, piece by piece, and what stripping makes of the pieces.
 */
module JsoncPieces {
  import opened Jsonc

  /** A character of code, a string literal, or a comment; a literal or a block comment
      may lack its end, at the end of the text. */
  datatype Piece =
    | Plain(c: char)
    | Literal(body: string, closed: bool)
    | LineComment(body: string)
    | BlockComment(body: string, closed: bool)

  function Spell(p: Piece): string {
    match p
    case Plain(c) => [c]
    case Literal(body, closed) => "\"" + body + if closed then "\"" else ""
    case LineComment(body) => "//" + body
    case BlockComment(body, closed) => "/*" + body + if closed then "*/" else ""
  }

  /** Characters and escapes, without a quote outside escapes. */
  predicate LiteralBody(body: string) {
    || body == ""
    || (body[0] != '"' && body[0] != '\\' && LiteralBody(body[1..]))
    || (|body| > 1 && body[0] == '\\' && LiteralBody(body[2..]))
  }

  /** In `w` no comment end starts among the first `n` characters. */
  predicate NoEndIn(w: string, n: nat) {
    forall i | 0 <= i < n && i + 1 < |w| :: !(w[i] == '*' && w[i + 1] == '/')
  }

  /** `p` may stand in front of `rest`. */
  predicate MayPrecede(p: Piece, rest: string) {
    match p
    case Plain(c) => c != '"' && !(c == '/' && rest != "" && (rest[0] == '/' || rest[0] == '*'))
    case Literal(body, closed) =>
      if closed then LiteralBody(body)
      else rest == "" && (LiteralBody(body) || (body != "" && body[|body| - 1] == '\\' && LiteralBody(body[..|body| - 1])))
    case LineComment(body) => '\n' !in body && (rest == "" || rest[0] == '\n')
    case BlockComment(body, closed) =>
      if closed then NoEndIn(body + "*/", |body|) else rest == "" && NoEndIn(body, |body|)
  }

  /** `s` is written as these pieces. */
  ghost predicate Written(s: string, ps: seq<Piece>)
    decreases |ps|
  {
    if ps == [] then s == ""
    else exists rest: string :: s == Spell(ps[0]) + rest && MayPrecede(ps[0], rest) && Written(rest, ps[1..])
  }

  /** The pieces but for the comments, to the letter. */
  function Kept(ps: seq<Piece>): string {
    if ps == [] then "" else (if ps[0].Plain? || ps[0].Literal? then Spell(ps[0]) else "") + Kept(ps[1..])
  }

  // ---------------------------------------------------------------------------
  // Piece by piece
  // ---------------------------------------------------------------------------

  /** What is left of a text that starts in state `st`. */
  function After(s: string, st: State): string {
    Text(Left(s, st))
  }

  lemma AfterStep(s: string, st: State)
    requires s != ""
    ensures var w := Width(s, st);
      After(s, st) == (if Keeps(Part(s, st)) then s[..w] else "") + After(s[w..], Next(s, st))
  {
    LeftStep(s, st);
    var w := Width(s, st);
    TextMark(s[..w], Part(s, st), Left(s[w..], Next(s, st)));
    assert [] + Left(s[w..], Next(s, st)) == Left(s[w..], Next(s, st));
  }

  lemma AfterNothing(st: State)
    ensures After("", st) == ""
  {
  }

  lemma PlainStays(c: char, rest: string)
    requires MayPrecede(Plain(c), rest)
    ensures After([c] + rest, Code) == [c] + After(rest, Code)
  {
    var s := [c] + rest;
    AfterStep(s, Code);
    StartsWithPair(s);
    hide Starts, After;
    assert s[..1] == [c] && s[1..] == rest;
  }

  lemma CharStays(c: char, rest: string)
    requires c != '"' && (c == '\\' ==> rest == "")
    ensures After([c] + rest, Str) == [c] + After(rest, Str)
  {
    var s := [c] + rest;
    AfterStep(s, Str);
    hide After;
    assert s[..1] == [c] && s[1..] == rest;
  }

  lemma EscapeStays(c: char, rest: string)
    ensures After(['\\', c] + rest, Str) == ['\\', c] + After(rest, Str)
  {
    var s := ['\\', c] + rest;
    AfterStep(s, Str);
    hide After;
    assert s[..2] == ['\\', c] && s[2..] == rest;
  }

  lemma QuoteCloses(rest: string)
    ensures After("\"" + rest, Str) == "\"" + After(rest, Code)
  {
    var s := "\"" + rest;
    AfterStep(s, Str);
    hide After;
    assert s[..1] == "\"" && s[1..] == rest;
  }

  lemma {:induction false} LiteralStays(body: string, rest: string)
    requires LiteralBody(body)
    ensures After(body + rest, Str) == body + After(rest, Str)
    decreases |body|
  {
    hide After;
    if body == "" {
      assert body + rest == rest;
    } else if body[0] != '\\' {
      LiteralStays(body[1..], rest);
      CharStays(body[0], body[1..] + rest);
      assert body + rest == [body[0]] + (body[1..] + rest);
    } else {
      LiteralStays(body[2..], rest);
      EscapeStays(body[1], body[2..] + rest);
      assert body + rest == ['\\', body[1]] + (body[2..] + rest);
    }
  }

  lemma QuoteOpens(rest: string)
    ensures After("\"" + rest, Code) == "\"" + After(rest, Str)
  {
    var s := "\"" + rest;
    AfterStep(s, Code);
    StartsWithPair(s);
    hide Starts, After;
    assert s[..1] == "\"" && s[1..] == rest;
  }

  lemma {:induction false} LineGoes(body: string, rest: string)
    requires '\n' !in body && (rest == "" || rest[0] == '\n')
    ensures After(body + rest, Line) == After(rest, Code)
  {
    var s := body + rest;
    if body == "" {
      assert s == rest;
      AfterNothing(Line);
      AfterNothing(Code);
      if rest != "" {
        AfterStep(rest, Line);
        AfterStep(rest, Code);
        StartsWithPair(rest);
        hide Starts, After;
      }
    } else {
      assert s[1..] == body[1..] + rest && s[0] == body[0] && body[0] in body;
      AfterStep(s, Line);
      LineGoes(body[1..], rest);
      hide After;
    }
  }

  lemma CommentGoes(s: string)
    ensures After("//" + s, Code) == After(s, Line)
    ensures After("/*" + s, Code) == After(s, Block)
  {
    AfterStep("//" + s, Code);
    AfterStep("/*" + s, Code);
    StartsWithPair("//" + s);
    StartsWithPair("/*" + s);
    hide Starts, After;
    assert ("//" + s)[2..] == s && ("/*" + s)[2..] == s;
  }

  lemma NoEndBehind(w: string, n: nat)
    requires NoEndIn(w, n) && n > 0 && w != ""
    ensures NoEndIn(w[1..], n - 1)
  {
    forall i | 0 <= i < n - 1 && i + 1 < |w[1..]| ensures !(w[1..][i] == '*' && w[1..][i + 1] == '/') {
      assert !(w[i + 1] == '*' && w[i + 2] == '/');
    }
  }

  lemma {:induction false} BlockGoes(body: string, rest: string)
    requires NoEndIn(body + "*/", |body|)
    ensures After(body + "*/" + rest, Block) == After(rest, Code)
  {
    var s := body + "*/" + rest;
    AfterStep(s, Block);
    StartsWithPair(s);
    hide Starts, After;
    if body == "" {
      assert s == "*/" + rest && s[2..] == rest;
    } else {
      var w := body + "*/";
      assert s[0] == w[0] && s[1] == w[1] && !(w[0] == '*' && w[1] == '/');
      assert s[1..] == body[1..] + "*/" + rest;
      assert w[1..] == body[1..] + "*/";
      NoEndBehind(w, |body|);
      hide NoEndIn;
      BlockGoes(body[1..], rest);
    }
  }

  lemma {:induction false} OpenBlockGoes(body: string)
    requires NoEndIn(body, |body|)
    ensures After(body, Block) == ""
  {
    AfterNothing(Block);
    if body != "" {
      AfterStep(body, Block);
      StartsWithPair(body);
      NoEndBehind(body, |body|);
      hide Starts, After, NoEndIn;
      OpenBlockGoes(body[1..]);
    }
  }

  lemma PieceStays(p: Piece, rest: string)
    requires MayPrecede(p, rest) && (p.Plain? || p.Literal?)
    ensures After(Spell(p) + rest, Code) == Spell(p) + After(rest, Code)
  {
    hide After, LiteralBody;
    match p
    case Plain(c) => PlainStays(c, rest);
    case Literal(body, closed) =>
      if closed {
        QuoteOpens(body + ("\"" + rest));
        LiteralStays(body, "\"" + rest);
        QuoteCloses(rest);
        assert Spell(p) + rest == "\"" + (body + ("\"" + rest));
      } else {
        OpenLiteralStays(body);
        AfterNothing(Code);
        QuoteOpens(body);
        assert Spell(p) + rest == "\"" + body;
      }
  }

  /** A literal without its end, perhaps in the middle of an escape. */
  lemma OpenLiteralStays(body: string)
    requires MayPrecede(Literal(body, false), "")
    ensures After(body, Str) == body
  {
    hide After, LiteralBody;
    AfterNothing(Str);
    if LiteralBody(body) {
      LiteralStays(body, "");
      assert body + "" == body;
    } else {
      var before := body[..|body| - 1];
      LiteralStays(before, "\\");
      CharStays('\\', "");
      assert before + "\\" == body && ['\\'] + "" == "\\";
    }
  }

  lemma PieceGoes(p: Piece, rest: string)
    requires MayPrecede(p, rest) && (p.LineComment? || p.BlockComment?)
    ensures After(Spell(p) + rest, Code) == After(rest, Code)
  {
    hide After, NoEndIn;
    match p
    case LineComment(body) =>
      CommentGoes(body + rest);
      LineGoes(body, rest);
      assert Spell(p) + rest == "//" + (body + rest);
    case BlockComment(body, closed) =>
      if closed {
        CommentGoes(body + "*/" + rest);
        BlockGoes(body, rest);
        assert Spell(p) + rest == "/*" + (body + "*/" + rest);
      } else {
        CommentGoes(body);
        OpenBlockGoes(body);
        AfterNothing(Code);
        assert Spell(p) + rest == "/*" + body;
      }
  }

  /** Whatever the text, stripping keeps its code and its literals to the letter, in
      order, and drops its comments. */
  lemma {:induction false} StrippedIsKept(s: string, ps: seq<Piece>)
    requires Written(s, ps)
    ensures Stripped(s) == Kept(ps)
    decreases |ps|
  {
    StrippedIsAfter(s);
    hide After, Stripped, Spell, MayPrecede;
    if ps == [] {
      AfterNothing(Code);
    } else {
      var rest: string :| s == Spell(ps[0]) + rest && MayPrecede(ps[0], rest) && Written(rest, ps[1..]);
      StrippedIsKept(rest, ps[1..]);
      StrippedIsAfter(rest);
      if ps[0].Plain? || ps[0].Literal? { PieceStays(ps[0], rest); } else { PieceGoes(ps[0], rest); }
    }
  }

  lemma StrippedIsAfter(s: string)
    ensures Stripped(s) == After(s, Code)
  {
  }

  // ---------------------------------------------------------------------------
  // Every text is written in pieces
  // ---------------------------------------------------------------------------

  /** A literal up to its end, or to the end of the text. */
  lemma {:induction false} CutLiteral(s: string) returns (body: string, closed: bool, rest: string)
    ensures s == body + (if closed then "\"" else "") + rest && MayPrecede(Literal(body, closed), rest)
    decreases |s|
  {
    if s == "" {
      body, closed, rest := "", false, "";
    } else if s[0] == '"' {
      body, closed, rest := "", true, s[1..];
    } else if s[0] == '\\' && |s| == 1 {
      body, closed, rest := s, false, "";
      assert s[..0] == "";
    } else {
      var n := if s[0] == '\\' then 2 else 1;
      var more;
      more, closed, rest := CutLiteral(s[n..]);
      body := s[..n] + more;
      assert body[n..] == more && s == s[..n] + s[n..];
      LongerLiteral(s[..n], more, closed, rest);
    }
  }

  lemma LongerLiteral(front: string, more: string, closed: bool, rest: string)
    requires MayPrecede(Literal(more, closed), rest)
    requires (|front| == 1 && front[0] != '"' && front[0] != '\\') || (|front| == 2 && front[0] == '\\')
    ensures MayPrecede(Literal(front + more, closed), rest)
  {
    var body := front + more;
    assert body[|front|..] == more;
    if !closed && !LiteralBody(more) {
      assert body[..|body| - 1][|front|..] == more[..|more| - 1];
    }
  }

  lemma {:induction false} CutLine(s: string) returns (body: string, rest: string)
    ensures s == body + rest && MayPrecede(LineComment(body), rest)
  {
    if s == "" || s[0] == '\n' {
      body, rest := "", s;
    } else {
      var more;
      more, rest := CutLine(s[1..]);
      body := [s[0]] + more;
      assert s == [s[0]] + s[1..];
    }
  }

  lemma {:induction false} CutBlock(s: string) returns (body: string, closed: bool, rest: string)
    ensures s == body + (if closed then "*/" else "") + rest && MayPrecede(BlockComment(body, closed), rest)
  {
    if s == "" {
      body, closed, rest := "", false, "";
    } else if |s| > 1 && s[0] == '*' && s[1] == '/' {
      body, closed, rest := "", true, s[2..];
    } else {
      var more;
      more, closed, rest := CutBlock(s[1..]);
      body := [s[0]] + more;
      assert s == [s[0]] + s[1..];
      LongerBlock(s, more, closed, rest);
    }
  }

  lemma LongerBlock(s: string, more: string, closed: bool, rest: string)
    requires s != "" && s[1..] == more + (if closed then "*/" else "") + rest && MayPrecede(BlockComment(more, closed), rest)
    requires !(|s| > 1 && s[0] == '*' && s[1] == '/')
    ensures MayPrecede(BlockComment([s[0]] + more, closed), rest)
  {
    var body := [s[0]] + more;
    var w, v := body + (if closed then "*/" else ""), more + (if closed then "*/" else "");
    assert w[1..] == v && (|w| > 1 ==> w[1] == s[1]);
    forall i | 0 <= i < |body| && i + 1 < |w| ensures !(w[i] == '*' && w[i + 1] == '/') {
      if i > 0 { assert w[i] == v[i - 1] && w[i + 1] == v[i]; }
    }
    assert closed ==> w == body + "*/" && v == more + "*/";
    assert !closed ==> w == body && v == more;
  }

  lemma {:induction false} SomePieces(s: string) returns (ps: seq<Piece>)
    ensures Written(s, ps)
    decreases |s|
  {
    hide MayPrecede;
    if s == "" {
      ps := [];
    } else {
      var p, rest := FirstPiece(s);
      var more := SomePieces(rest);
      ps := [p] + more;
      assert ps[1..] == more;
    }
  }

  lemma FirstPiece(s: string) returns (p: Piece, rest: string)
    requires s != ""
    ensures s == Spell(p) + rest && MayPrecede(p, rest) && |rest| < |s|
  {
    hide MayPrecede;
    if s[0] == '"' {
      var body, closed;
      body, closed, rest := CutLiteral(s[1..]);
      p := Literal(body, closed);
    } else if |s| > 1 && s[0] == '/' && s[1] == '/' {
      var body;
      body, rest := CutLine(s[2..]);
      p := LineComment(body);
    } else if |s| > 1 && s[0] == '/' && s[1] == '*' {
      var body, closed;
      body, closed, rest := CutBlock(s[2..]);
      p := BlockComment(body, closed);
    } else {
      p, rest := Plain(s[0]), s[1..];
      assert MayPrecede(p, rest) by { PlainMayStand(s); }
    }
  }

  lemma PlainMayStand(s: string)
    requires s != "" && s[0] != '"' && !(|s| > 1 && s[0] == '/' && (s[1] == '/' || s[1] == '*'))
    ensures MayPrecede(Plain(s[0]), s[1..])
  {
  }
}
