/**
 The JSONC comment stripper of `ai_compose_prompts.go`: its index loops against a
 lexer that says of every character whether it is code, in a string or in a comment.
 */
module Jsonc {

  datatype State = Code | Str | Line | Block

  /** A character and what it is part of; a string's quotes are part of it, the newline
      behind a line comment is code. */
  datatype Labelled = L(c: char, part: State)

  predicate Starts(s: string, x: string) {
    x <= s
  }

  /** The text starts with a comment opener, an escape or a comment end. */
  predicate Pair(s: string, st: State) {
    match st
    case Code => Starts(s, "//") || Starts(s, "/*")
    case Str => |s| > 1 && s[0] == '\\'
    case Line => false
    case Block => Starts(s, "*/")
  }

  function Width(s: string, st: State): (w: nat)
    requires s != ""
    ensures 1 <= w <= |s|
  {
    if Pair(s, st) then 2 else 1
  }

  /** What the first characters are part of. */
  function Part(s: string, st: State): State
    requires s != ""
  {
    match st
    case Code => if s[0] == '"' then Str else if Starts(s, "//") then Line else if Starts(s, "/*") then Block else Code
    case Line => if s[0] == '\n' then Code else Line
    case _ => st
  }

  /** And what comes behind them. */
  function Next(s: string, st: State): State
    requires s != ""
  {
    match st
    case Str => if s[0] == '"' then Code else Str
    case Block => if Starts(s, "*/") then Code else Block
    case _ => Part(s, st)
  }

  function Mark(s: string, part: State): seq<Labelled> {
    seq(|s|, i requires 0 <= i < |s| => L(s[i], part))
  }

  function Lex(s: string, st: State): (r: seq<Labelled>)
    ensures |r| == |s|
    decreases |s|
  {
    if s == "" then []
    else
      var w := Width(s, st);
      Mark(s[..w], Part(s, st)) + Lex(s[w..], Next(s, st))
  }

  predicate Keeps(st: State) {
    st == Code || st == Str
  }

  function OutsideComments(ls: seq<Labelled>): seq<Labelled> {
    if ls == [] then [] else (if Keeps(ls[0].part) then [ls[0]] else []) + OutsideComments(ls[1..])
  }

  function Text(ls: seq<Labelled>): string {
    seq(|ls|, i requires 0 <= i < |ls| => ls[i].c)
  }

  /** The text without its comments. */
  function Stripped(s: string): string {
    Text(OutsideComments(Lex(s, Code)))
  }

  // ---------------------------------------------------------------------------
  // Lexing what is left
  // ---------------------------------------------------------------------------

  lemma {:induction false} OutsideJoins(a: seq<Labelled>, b: seq<Labelled>)
    ensures OutsideComments(a + b) == OutsideComments(a) + OutsideComments(b)
  {
    if a == [] {
      assert a + b == b;
    } else {
      assert (a + b)[0] == a[0] && (a + b)[1..] == a[1..] + b;
      OutsideJoins(a[1..], b);
      hide Keeps;
      Associate(if Keeps(a[0].part) then [a[0]] else [], OutsideComments(a[1..]), OutsideComments(b));
    }
  }

  lemma Associate(a: seq<Labelled>, b: seq<Labelled>, c: seq<Labelled>)
    ensures a + (b + c) == a + b + c
  {
  }

  lemma {:induction false} OutsideMark(s: string, part: State)
    ensures OutsideComments(Mark(s, part)) == if Keeps(part) then Mark(s, part) else []
  {
    if s != "" {
      assert Mark(s, part)[1..] == Mark(s[1..], part);
      OutsideMark(s[1..], part);
      assert Mark(s, part) == [L(s[0], part)] + Mark(s[1..], part);
    }
  }

  /** What is left of a text that starts in state `st`. */
  function Left(s: string, st: State): seq<Labelled> {
    OutsideComments(Lex(s, st))
  }

  lemma LeftStep(s: string, st: State)
    requires s != ""
    ensures var w, p := Width(s, st), Part(s, st);
      Left(s, st) == (if Keeps(p) then Mark(s[..w], p) else []) + Left(s[w..], Next(s, st))
  {
    var w, p := Width(s, st), Part(s, st);
    OutsideJoins(Mark(s[..w], p), Lex(s[w..], Next(s, st)));
    OutsideMark(s[..w], p);
  }

  lemma TextMark(s: string, part: State, more: seq<Labelled>)
    ensures Text(Mark(s, part) + more) == s + Text(more)
  {
  }

  /** Where lexing goes on when a comment is gone. */
  function Resume(st: State): State {
    if Keeps(st) then st else Code
  }

  /** Taking out comments never moves a slash or star up to a slash that is code: a
      comment behind it would have made that slash part of an opener. */
  lemma NoOpenerLeft(s: string)
    requires s == "" || (s[0] != '/' && s[0] != '*')
    ensures var t := Text(Left(s, Code)); t == "" || (t[0] != '/' && t[0] != '*')
  {
    if s != "" {
      LeftStep(s, Code);
      TextMark(s[..1], Part(s, Code), Left(s[1..], Next(s, Code)));
    }
  }

  /** Lexing the stripped text finds in it the very characters that were left, each
      part of what it was part of before. */
  lemma {:induction false} LexOfStripped(s: string, st: State)
    ensures Lex(Text(Left(s, st)), Resume(st)) == Left(s, st)
    decreases |s|
  {
    hide Width, Part, Next, Lex, Mark, Text, Left;
    if s == "" {
      NothingLeft(st);
    } else {
      var w, p, next := Width(s, st), Part(s, st), Next(s, st);
      var more := Left(s[w..], next);
      LeftStep(s, st);
      LexOfStripped(s[w..], next);
      if Keeps(p) {
        TextMark(s[..w], p, more);
        var t := s[..w] + Text(more);
        assert t[w..] == Text(more) && t[..w] == s[..w];
        KeptStep(s, st);
        LexStep(t, Resume(st));
      } else {
        SkippedStep(s, st);
        assert [] + more == more;
      }
    }
  }

  lemma LexStep(s: string, st: State)
    requires s != ""
    ensures var w := Width(s, st); Lex(s, st) == Mark(s[..w], Part(s, st)) + Lex(s[w..], Next(s, st))
  {
  }

  lemma NothingLeft(st: State)
    ensures Left("", st) == [] && Text([]) == "" && Lex("", st) == []
  {
  }

  /** Kept characters are lexed in front of what is left as they were. */
  lemma KeptStep(s: string, st: State)
    requires s != "" && Keeps(Part(s, st))
    ensures var w := Width(s, st);
      var t := s[..w] + Text(Left(s[w..], Next(s, st)));
      && Width(t, Resume(st)) == w && Part(t, Resume(st)) == Part(s, st)
      && Next(t, Resume(st)) == Resume(Next(s, st))
  {
    hide Left, Text, Starts;
    var w := Width(s, st);
    var more := Text(Left(s[w..], Next(s, st)));
    var t := s[..w] + more;
    assert t[0] == s[0] && (w == 2 ==> t[1] == s[1]) && t[w..] == more && (w == 1 && |t| > 1 ==> t[1] == more[0]);
    StartsWithPair(s);
    StartsWithPair(t);
    if st == Code && Part(s, st) == Code && s[0] == '/' { NoOpenerLeft(s[1..]); }
    if |s| == w {
      assert s[w..] == "";
      NothingLeft(Next(s, st));
    }
  }

  lemma StartsWithPair(s: string)
    ensures Starts(s, "//") <==> |s| > 1 && s[0] == '/' && s[1] == '/'
    ensures Starts(s, "/*") <==> |s| > 1 && s[0] == '/' && s[1] == '*'
    ensures Starts(s, "*/") <==> |s| > 1 && s[0] == '*' && s[1] == '/'
  {
  }

  /** Where a comment is left out, lexing goes on as behind it. */
  lemma SkippedStep(s: string, st: State)
    requires s != "" && !Keeps(Part(s, st))
    ensures Resume(st) == Resume(Next(s, st))
  {
  }

  lemma {:induction false} AllOutside(ls: seq<Labelled>)
    ensures OutsideComments(ls) == ls <==> forall x :: x in ls ==> Keeps(x.part)
    ensures forall x :: x in OutsideComments(ls) <==> x in ls && Keeps(x.part)
    ensures |OutsideComments(ls)| <= |ls|
  {
    if ls != [] {
      AllOutside(ls[1..]);
      assert ls == [ls[0]] + ls[1..];
    }
  }

  /** Stripping twice is stripping once. */
  lemma StrippingIsIdempotent(s: string)
    ensures Stripped(Stripped(s)) == Stripped(s)
  {
    LexOfStripped(s, Code);
    AllOutside(Lex(s, Code));
    AllOutside(Left(s, Code));
  }

  function InStrings(ls: seq<Labelled>): seq<Labelled> {
    if ls == [] then [] else (if ls[0].part == Str then [ls[0]] else []) + InStrings(ls[1..])
  }

  lemma {:induction false} StringsAreOutside(ls: seq<Labelled>)
    ensures InStrings(OutsideComments(ls)) == InStrings(ls)
  {
    if ls != [] {
      StringsAreOutside(ls[1..]);
      var rest := OutsideComments(ls[1..]);
      assert ([ls[0]] + rest)[1..] == rest && [] + rest == rest;
    }
  }

  /** The string literals of the stripped text are those of the text, to the letter. */
  lemma StringsAreCopied(s: string)
    ensures Text(InStrings(Lex(Stripped(s), Code))) == Text(InStrings(Lex(s, Code)))
  {
    LexOfStripped(s, Code);
    StringsAreOutside(Lex(s, Code));
  }

  lemma {:induction false} LexKeepsText(s: string, st: State)
    ensures Text(Lex(s, st)) == s
    decreases |s|
  {
    hide Width, Part, Next, Text, Mark, Lex;
    if s == "" {
      NothingLeft(st);
    } else {
      var w := Width(s, st);
      LexStep(s, st);
      LexKeepsText(s[w..], Next(s, st));
      TextMark(s[..w], Part(s, st), Lex(s[w..], Next(s, st)));
      assert s[..w] + s[w..] == s;
    }
  }

  /** The text stays as it is exactly when it has no comment. */
  lemma UnchangedIff(s: string)
    ensures Stripped(s) == s <==> forall x :: x in Lex(s, Code) ==> Keeps(x.part)
  {
    LexKeepsText(s, Code);
    AllOutside(Lex(s, Code));
    LexOfStripped(s, Code);
  }

  function Newlines(ls: seq<Labelled>): nat {
    if ls == [] then 0 else (if ls[0].c == '\n' && ls[0].part != Block then 1 else 0) + Newlines(ls[1..])
  }

  lemma {:induction false} NewlinesJoin(a: seq<Labelled>, b: seq<Labelled>)
    ensures Newlines(a + b) == Newlines(a) + Newlines(b)
  {
    if a == [] {
      assert a + b == b;
    } else {
      assert (a + b)[1..] == a[1..] + b;
      NewlinesJoin(a[1..], b);
    }
  }

  lemma NewlinesOfStep(s: string, st: State)
    requires s != ""
    ensures var m, p := Mark(s[..Width(s, st)], Part(s, st)), Part(s, st); !Keeps(p) ==> Newlines(m) == 0
  {
    var m := Mark(s[..Width(s, st)], Part(s, st));
    assert |m| == 2 ==> Newlines(m) == (if m[0].c == '\n' && m[0].part != Block then 1 else 0) + Newlines(m[1..]);
  }

  /** No line number shifts but by newlines inside block comments. */
  lemma {:induction false} NewlinesAreKept(s: string, st: State)
    ensures Newlines(Left(s, st)) == Newlines(Lex(s, st))
    decreases |s|
  {
    if s != "" {
      var w, p, next := Width(s, st), Part(s, st), Next(s, st);
      LeftStep(s, st);
      NewlinesAreKept(s[w..], next);
      NewlinesOfStep(s, st);
      NewlinesJoin(Mark(s[..w], p), Left(s[w..], next));
      NewlinesJoin(Mark(s[..w], p), Lex(s[w..], next));
      assert [] + Left(s[w..], next) == Left(s[w..], next);
    }
  }

  // ---------------------------------------------------------------------------
  // The code
  // ---------------------------------------------------------------------------

  /** What `out` will be once the rest from `i` on is done. */
  function Ahead(s: string, i: nat, st: State, out: string): string
    requires i <= |s|
  {
    out + Text(Left(s[i..], st))
  }

  lemma AheadStep(s: string, i: nat, st: State, out: string)
    requires i < |s|
    ensures var t := s[i..]; var w, p, next := Width(t, st), Part(t, st), Next(t, st);
      i + w <= |s| && Ahead(s, i, st, out) == Ahead(s, i + w, next, if Keeps(p) then out + s[i..i + w] else out)
  {
    var t := s[i..];
    var w, p, next := Width(t, st), Part(t, st), Next(t, st);
    LeftStep(t, st);
    assert t[w..] == s[i + w..] && t[..w] == s[i..i + w];
    if Keeps(p) {
      TextMark(t[..w], p, Left(t[w..], next));
      assert out + (s[i..i + w] + Text(Left(s[i + w..], next))) == (out + s[i..i + w]) + Text(Left(s[i + w..], next));
    } else {
      assert [] + Left(t[w..], next) == Left(t[w..], next);
    }
  }

  /** Inside a comment nothing is put out. */
  lemma CommentStep(s: string, i: nat, st: State, out: string)
    requires i < |s| && (st == Line || st == Block)
    requires st == Line ==> s[i] != '\n'
    requires st == Block ==> !(i + 1 < |s| && s[i] == '*' && s[i + 1] == '/')
    ensures Ahead(s, i, st, out) == Ahead(s, i + 1, st, out)
  {
    hide Ahead;
    AheadStep(s, i, st, out);
  }

  lemma CommentEnds(s: string, i: nat, out: string)
    requires i + 1 < |s| && s[i] == '*' && s[i + 1] == '/'
    ensures Ahead(s, i, Block, out) == Ahead(s, i + 2, Code, out)
  {
    hide Ahead;
    AheadStep(s, i, Block, out);
  }

  lemma NothingAhead(s: string, st: State, out: string)
    ensures Ahead(s, |s|, st, out) == out
  {
    assert Text(Left("", st)) == "";
    assert out + "" == out;
  }

  lemma LineEnds(s: string, i: nat, out: string)
    requires i <= |s| && (i < |s| ==> s[i] == '\n')
    ensures Ahead(s, i, Line, out) == Ahead(s, i, Code, out)
  {
    if i == |s| {
      NothingAhead(s, Line, out);
      NothingAhead(s, Code, out);
    } else {
      hide Ahead;
      AheadStep(s, i, Line, out);
      AheadStep(s, i, Code, out);
    }
  }

  lemma CommentOpens(s: string, i: nat, out: string)
    requires i + 1 < |s| && s[i] == '/'
    ensures s[i + 1] == '/' ==> Ahead(s, i, Code, out) == Ahead(s, i, Line, out)
    ensures s[i + 1] == '*' ==> Ahead(s, i, Code, out) == Ahead(s, i + 2, Block, out)
  {
    hide Ahead;
    AheadStep(s, i, Code, out);
    if s[i + 1] == '/' {
      CommentStep(s, i, Line, out);
      CommentStep(s, i + 1, Line, out);
    }
  }

  /** One character of code, or of a string outside escapes. */
  lemma CharStep(s: string, i: nat, st: State, out: string)
    requires i < |s| && Keeps(st) && !Pair(s[i..], st)
    ensures Ahead(s, i, st, out) ==
              Ahead(s, i + 1, if s[i] == '"' then if st == Code then Str else Code else st, out + [s[i]])
  {
    hide Ahead;
    AheadStep(s, i, st, out);
    assert s[i..i + 1] == [s[i]];
  }

  lemma EscapeStep(s: string, i: nat, out: string)
    requires i + 1 < |s| && s[i] == '\\'
    ensures Ahead(s, i, Str, out) == Ahead(s, i + 2, Str, out + [s[i]] + [s[i + 1]])
  {
    hide Ahead;
    AheadStep(s, i, Str, out);
    assert out + s[i..i + 2] == out + [s[i]] + [s[i + 1]];
  }

  method CopyString(s: string, i0: nat, out0: string) returns (i: nat, out: string)
    requires i0 < |s| && s[i0] == '"'
    ensures i0 < i <= |s| && Ahead(s, i, Code, out) == Ahead(s, i0, Code, out0)
  {
    hide Ahead;
    CharStep(s, i0, Code, out0);
    i, out := i0 + 1, out0 + [s[i0]];
    while i < |s|
      invariant i0 < i <= |s| && Ahead(s, i, Str, out) == Ahead(s, i0, Code, out0)
    {
      var c := s[i];
      if c == '\\' && i + 1 < |s| { EscapeStep(s, i, out); } else { CharStep(s, i, Str, out); }
      out := out + [c];
      i := i + 1;
      if c == '\\' && i < |s| {
        out := out + [s[i]];
        i := i + 1;
        continue;
      }
      if c == '"' {
        return;
      }
    }
    NothingAhead(s, Str, out);
    NothingAhead(s, Code, out);
  }

  method SkipLineComment(s: string, i0: nat, out: string) returns (i: nat)
    requires i0 + 1 < |s| && s[i0] == '/' && s[i0 + 1] == '/'
    ensures i0 < i <= |s| && Ahead(s, i, Code, out) == Ahead(s, i0, Code, out)
  {
    hide Ahead;
    CommentOpens(s, i0, out);
    i := i0;
    while i < |s| && s[i] != '\n'
      invariant i0 <= i <= |s| && Ahead(s, i, Line, out) == Ahead(s, i0, Code, out)
    {
      CommentStep(s, i, Line, out);
      i := i + 1;
    }
    LineEnds(s, i, out);
  }

  method SkipBlockComment(s: string, i0: nat, out: string) returns (i: nat)
    requires i0 <= |s|
    ensures i0 <= i <= |s| && Ahead(s, i, Code, out) == Ahead(s, i0, Block, out)
  {
    hide Ahead;
    i := i0;
    while i + 1 < |s| && (s[i] != '*' || s[i + 1] != '/')
      invariant i0 <= i <= |s| && Ahead(s, i, Block, out) == Ahead(s, i0, Block, out)
    {
      CommentStep(s, i, Block, out);
      i := i + 1;
    }
    if i + 1 < |s| {
      CommentEnds(s, i, out);
      return i + 2;
    }
    if i < |s| { CommentStep(s, i, Block, out); }
    NothingAhead(s, Block, out);
    NothingAhead(s, Code, out);
    return |s|;
  }

  method StripComments(s: string) returns (out: string)
    ensures out == Stripped(s)
  {
    out := "";
    var i: nat := 0;
    assert s[0..] == s;
    while i < |s|
      invariant i <= |s| && Ahead(s, i, Code, out) == Stripped(s)
    {
      hide Ahead, Stripped;
      var c := s[i];
      if c == '"' {
        i, out := CopyString(s, i, out);
        continue;
      }
      if c == '/' && i + 1 < |s| {
        CommentOpens(s, i, out);
        if s[i + 1] == '/' {
          i := SkipLineComment(s, i, out);
          continue;
        }
        if s[i + 1] == '*' {
          i := SkipBlockComment(s, i + 2, out);
          continue;
        }
      }
      CharStep(s, i, Code, out);
      out := out + [c];
      i := i + 1;
    }
    NothingAhead(s, Code, out);
  }
}
