// How a source text is put together of code, string literals and comments, and what stripping makes of it.

module SourceTexts {
  import opened Sequences
  import opened CommentTokens

  const SLASHES: string := ['/', '/']
  const OPEN: string := ['/', '*']
  const CLOSE: string := ['*', '/']
  const QUOTE: string := ['"']

  // The body of a line comment ends before the line does; a block comment ends at the first terminator.
  datatype Segment = Code(text: string) | Literal(body: string) | LineComment(text: string) | BlockComment(text: string)

  /** A literal or a block comment may be left open at the end of the text. */
  datatype Source = End | OpenLiteral(body: string) | OpenComment(text: string) | Then(first: Segment, rest: Source)

  // ---------------------------------------------------------------------------------------------
  // The grammar

  predicate IsCode(t: string)
  {
    && '"' !in t
    && forall i | 0 <= i < |t| - 1 :: t[i] == '/' ==> t[i + 1] != '/' && t[i + 1] != '*'
  }

  /** Plain characters and escaped ones. */
  predicate IsBody(b: string)
  {
    b == "" || (if b[0] == '\\' then |b| > 1 && IsBody(b[2..]) else b[0] != '"' && IsBody(b[1..]))
  }

  /** The text may end in the middle of an escape. */
  predicate IsOpenBody(b: string)
  {
    IsBody(b) || (b != "" && b[|b| - 1] == '\\' && IsBody(b[..|b| - 1]))
  }

  predicate HasNoClose(t: string)
  {
    forall i | 0 <= i < |t| - 1 :: t[i] == '*' ==> t[i + 1] != '/'
  }

  predicate IsSegment(g: Segment)
  {
    match g
    case Code(t) => IsCode(t)
    case Literal(b) => IsBody(b)
    case LineComment(t) => '\n' !in t
    case BlockComment(t) => HasNoClose(t)
  }

  /** A slash at the end of code opens no comment with what comes next; a line comment reaches to the end of its line. */
  predicate MayFollow(g: Segment, next: string)
  {
    match g
    case Code(t) => t != "" && t[|t| - 1] == '/' && next != "" ==> next[0] != '/' && next[0] != '*'
    case LineComment(_) => next != "" ==> next[0] == '\n'
    case _ => true
  }

  function SegmentText(g: Segment): string
  {
    match g
    case Code(t) => t
    case Literal(b) => QUOTE + (b + QUOTE)
    case LineComment(t) => SLASHES + t
    case BlockComment(t) => OPEN + (t + CLOSE)
  }

  function TextOf(s: Source): string
  {
    match s
    case End => ""
    case OpenLiteral(b) => QUOTE + b
    case OpenComment(t) => OPEN + t
    case Then(g, rest) => SegmentText(g) + TextOf(rest)
  }

  predicate IsSource(s: Source)
  {
    match s
    case End => true
    case OpenLiteral(b) => IsOpenBody(b)
    case OpenComment(t) => HasNoClose(t)
    case Then(g, rest) => IsSegment(g) && MayFollow(g, TextOf(rest)) && IsSource(rest)
  }

  // ---------------------------------------------------------------------------------------------
  // What is left of it

  /** Spaces for everything but the line feeds. */
  function Spaces(t: string): (r: string)
    ensures |r| == |t|
  {
    seq(|t|, i requires 0 <= i < |t| => if t[i] == '\n' then '\n' else ' ')
  }

  function Kept(s: Source): string
  {
    match s
    case End => ""
    case OpenLiteral(_) => TextOf(s)
    case OpenComment(_) => Spaces(TextOf(s))
    case Then(g, rest) =>
      (if g.LineComment? || g.BlockComment? then Spaces(SegmentText(g)) else SegmentText(g)) + Kept(rest)
  }

  /** Which positions lie in a comment. */
  function Marks(s: Source): (m: seq<bool>)
    ensures |m| == |TextOf(s)|
  {
    match s
    case End => []
    case OpenLiteral(_) => seq(|TextOf(s)|, i => false)
    case OpenComment(_) => seq(|TextOf(s)|, i => true)
    case Then(g, rest) => seq(|SegmentText(g)|, i => g.LineComment? || g.BlockComment?) + Marks(rest)
  }

  lemma {:induction false} KeptIsMarked(s: Source)
    ensures |Kept(s)| == |TextOf(s)|
    ensures forall i | 0 <= i < |TextOf(s)| ::
              Kept(s)[i] == if Marks(s)[i] && TextOf(s)[i] != '\n' then ' ' else TextOf(s)[i]
  {
    if s.Then? {
      KeptIsMarked(s.rest);
    }
  }

  lemma SpacesAreBlanks(t: string)
    ensures Spaces(t) == Blanks(t)
  {
  }

  lemma {:induction false} CodePasses(t: string, rest: string)
    requires IsCode(t) && MayFollow(Code(t), rest)
    ensures Strip(t + rest, false) == t + Strip(rest, false)
  {
    if t == "" {
      assert t + rest == rest;
    } else {
      var u := t[1..];
      assert t == [t[0]] + u;
      assert u + rest != "" ==> (u + rest)[0] == if |t| > 1 then t[1] else rest[0];
      CodeGoesOn(t);
      CodePasses(u, rest);
      Associative([t[0]], u, rest);
      CodeCharacter(t[0], u + rest);
      Associative([t[0]], u, Strip(rest, false));
    }
  }

  lemma CodeCharacter(c: char, rest: string)
    requires c != '"' && (c == '/' && rest != "" ==> rest[0] != '/' && rest[0] != '*')
    ensures Strip([c] + rest, false) == [c] + Strip(rest, false)
  {
    assert ([c] + rest)[..1] == [c] && ([c] + rest)[1..] == rest;
  }

  lemma CodeGoesOn(t: string)
    requires IsCode(t) && t != ""
    ensures IsCode(t[1..]) && t[0] != '"'
    ensures |t| > 1 ==> t[1..][|t[1..]| - 1] == t[|t| - 1]
  {
    var u := t[1..];
    forall i | 0 <= i < |u| - 1 && u[i] == '/' ensures u[i + 1] != '/' && u[i + 1] != '*' {
      assert t[i + 1] == '/' && t[i + 2] == u[i + 1];
    }
  }

  lemma {:induction false} BodyPasses(b: string, rest: string)
    requires IsBody(b)
    ensures Strip(b + rest, true) == b + Strip(rest, true)
    decreases |b|
  {
    if b == "" {
      assert b + rest == rest;
    } else {
      var n := if b[0] == '\\' then 2 else 1;
      var s := b + rest;
      assert s[..n] == b[..n] && s[n..] == b[n..] + rest;
      BodyPasses(b[n..], rest);
      Associative(b[..n], b[n..], Strip(rest, true));
      assert b[..n] + b[n..] == b;
    }
  }

  /** A string literal is copied whole, escapes and comment marks in it too. */
  lemma LiteralStays(b: string, rest: string)
    requires IsBody(b)
    ensures Strip(QUOTE + (b + QUOTE) + rest, false) == QUOTE + (b + QUOTE) + Strip(rest, false)
  {
    var tail := b + (QUOTE + rest);
    Associative(QUOTE, b + QUOTE, rest);
    Associative(b, QUOTE, rest);
    PlainCharacter('"', tail, false);
    BodyPasses(b, QUOTE + rest);
    PlainCharacter('"', rest, true);
    Associative(b, QUOTE, Strip(rest, false));
    Associative(QUOTE, b + QUOTE, Strip(rest, false));
  }

  lemma OpenLiteralStays(b: string)
    requires IsOpenBody(b)
    ensures Strip(QUOTE + b, false) == QUOTE + b
  {
    PlainCharacter('"', b, false);
    var n := if IsBody(b) then |b| else |b| - 1;
    assert b == b[..n] + b[n..] && b[..|b|] == b;
    BodyPasses(b[..n], b[n..]);
    if n < |b| {
      assert b[n..] == ['\\'];
      LoneBackslash();
    }
  }

  lemma LoneBackslash()
    ensures Strip(['\\'], true) == ['\\']
  {
    assert ['\\'][..1] == ['\\'] && ['\\'][1..] == [];
  }

  lemma {:induction false} LineEndOf(t: string, rest: string)
    requires '\n' !in t && (rest != "" ==> rest[0] == '\n')
    ensures LineEnd(t + rest) == |t|
  {
    if t == "" {
      assert t + rest == rest;
    } else {
      assert (t + rest)[1..] == t[1..] + rest;
      LineEndOf(t[1..], rest);
    }
  }

  lemma {:induction false} BlockEndOf(t: string, rest: string)
    requires HasNoClose(t)
    ensures BlockEnd(t + (CLOSE + rest)) == |t| + 2
  {
    var s := t + (CLOSE + rest);
    if t == "" {
      assert s == CLOSE + rest;
    } else {
      assert s[1..] == t[1..] + (CLOSE + rest);
      assert s[1] == if |t| > 1 then t[1] else '*';
      NoCloseGoesOn(t);
      BlockEndOf(t[1..], rest);
    }
  }

  lemma NoCloseGoesOn(t: string)
    requires HasNoClose(t) && t != ""
    ensures HasNoClose(t[1..])
  {
    var u := t[1..];
    forall i | 0 <= i < |u| - 1 && u[i] == '*' ensures u[i + 1] != '/' {
      assert t[i + 1] == '*' && t[i + 2] == u[i + 1];
    }
  }

  lemma {:induction false} NoBlockEnd(t: string)
    requires HasNoClose(t)
    ensures BlockEnd(t) == |t|
  {
    if t != "" {
      NoCloseGoesOn(t);
      NoBlockEnd(t[1..]);
    }
  }

  /** A comment of `n` characters at the front is blanked, and the text after it is stripped on its own. */
  lemma CommentGoes(comment: string, rest: string)
    requires comment != "" && Next(comment + rest, false) == Comment(|comment|)
    ensures Strip(comment + rest, false) == Spaces(comment) + Strip(rest, false)
  {
    assert (comment + rest)[..|comment|] == comment && (comment + rest)[|comment|..] == rest;
    SpacesAreBlanks(comment);
  }

  /** A line comment is blanked up to the line feed, which stays. */
  lemma LineCommentGoes(t: string, rest: string)
    requires '\n' !in t && (rest != "" ==> rest[0] == '\n')
    ensures Strip(SLASHES + t + rest, false) == Spaces(SLASHES + t) + Strip(rest, false)
  {
    LineEndOf(SLASHES + t, rest);
    CommentGoes(SLASHES + t, rest);
  }

  /** A block comment is blanked up to its first terminator. */
  lemma BlockCommentGoes(t: string, rest: string)
    requires HasNoClose(t)
    ensures Strip(OPEN + (t + CLOSE) + rest, false) == Spaces(OPEN + (t + CLOSE)) + Strip(rest, false)
  {
    var s := OPEN + (t + CLOSE) + rest;
    Associative(OPEN, t + CLOSE, rest);
    Associative(t, CLOSE, rest);
    assert s[2..] == t + (CLOSE + rest);
    BlockEndOf(t, rest);
    CommentGoes(OPEN + (t + CLOSE), rest);
  }

  /** A block comment without a terminator is blanked to the end of the text. */
  lemma OpenCommentGoes(t: string)
    requires HasNoClose(t)
    ensures Strip(OPEN + t, false) == Spaces(OPEN + t)
  {
    assert (OPEN + t)[2..] == t && OPEN + t + "" == OPEN + t;
    NoBlockEnd(t);
    CommentGoes(OPEN + t, "");
  }

  /** Stripping blanks the comments of a source text and keeps the rest of it as it is. */
  lemma {:induction false} StripKeepsTheRest(s: Source)
    requires IsSource(s)
    ensures Strip(TextOf(s), false) == Kept(s)
  {
    match s {
      case End =>
      case OpenLiteral(b) => OpenLiteralStays(b);
      case OpenComment(t) => OpenCommentGoes(t);
      case Then(g, rest) =>
        StripKeepsTheRest(rest);
        match g {
          case Code(t) => CodePasses(t, TextOf(rest));
          case Literal(b) => LiteralStays(b, TextOf(rest));
          case LineComment(t) => LineCommentGoes(t, TextOf(rest));
          case BlockComment(t) => BlockCommentGoes(t, TextOf(rest));
        }
    }
  }

  /** Position by position: comments are blanked but for their line feeds, and everything else stands where it stood. */
  lemma StripKeepsPositions(s: Source)
    requires IsSource(s)
    ensures |Strip(TextOf(s), false)| == |TextOf(s)|
    ensures forall i | 0 <= i < |TextOf(s)| ::
              Strip(TextOf(s), false)[i] == if Marks(s)[i] && TextOf(s)[i] != '\n' then ' ' else TextOf(s)[i]
  {
    StripKeepsTheRest(s);
    KeptIsMarked(s);
  }

  // ---------------------------------------------------------------------------------------------
  // Every text is a source text

  datatype Quoted = Quoted(body: string, rest: string) | Unquoted

  /** Where a literal ends: at the first quote that is not escaped, if there is one. */
  lemma {:induction false} BodyEnds(s: string) returns (q: Quoted)
    ensures q.Quoted? ==> IsBody(q.body) && s == q.body + (QUOTE + q.rest)
    ensures q.Unquoted? ==> IsOpenBody(s)
    decreases |s|
  {
    if s == "" {
      q := Unquoted;
    } else if s[0] == '"' {
      q := Quoted("", s[1..]);
      assert s == "" + (QUOTE + s[1..]);
    } else if s == ['\\'] {
      q := Unquoted;
      assert s[..0] == "";
    } else {
      var n := if s[0] == '\\' then 2 else 1;
      q := BodyEnds(s[n..]);
      q := LongerBody(s, n, q);
    }
  }

  lemma LongerBody(s: string, n: nat, q: Quoted) returns (r: Quoted)
    requires s != "" && s[0] != '"' && n == (if s[0] == '\\' then 2 else 1) <= |s|
    requires q.Quoted? ==> IsBody(q.body) && s[n..] == q.body + (QUOTE + q.rest)
    requires q.Unquoted? ==> IsOpenBody(s[n..])
    ensures r.Quoted? ==> IsBody(r.body) && s == r.body + (QUOTE + r.rest)
    ensures r.Unquoted? ==> IsOpenBody(s)
  {
    assert s == s[..n] + s[n..];
    if q.Quoted? {
      var b := s[..n] + q.body;
      assert b[n..] == q.body && b[0] == s[0];
      Associative(s[..n], q.body, QUOTE + q.rest);
      r := Quoted(b, q.rest);
    } else {
      r := Unquoted;
      if !IsBody(s[n..]) {
        assert s[..|s| - 1][n..] == s[n..][..|s| - n - 1];
      }
    }
  }

  lemma BlockTail(s: string) returns (t: string, rest: string, closed: bool)
    ensures HasNoClose(t) && s == if closed then t + (CLOSE + rest) else t
    ensures |rest| <= |s|
  {
    if i :| 0 <= i < |s| - 1 && s[i] == '*' && s[i + 1] == '/' && HasNoClose(s[..i]) {
      t, rest, closed := s[..i], s[i + 2..], true;
      assert s[i..] == CLOSE + rest;
      assert s == s[..i] + s[i..];
    } else {
      FirstClose(s, |s|);
      t, rest, closed := s, "", false;
    }
  }

  lemma {:induction false} FirstClose(s: string, n: nat)
    requires n <= |s|
    requires forall i | 0 <= i < |s| - 1 && s[i] == '*' && s[i + 1] == '/' :: !HasNoClose(s[..i])
    ensures forall i | 0 <= i < n - 1 :: s[i] == '*' ==> s[i + 1] != '/'
  {
    if n > 0 {
      FirstClose(s, n - 1);
      if n > 1 {
        assert HasNoClose(s[..n - 2]);
      }
    }
  }

  lemma LineTail(s: string) returns (t: string, rest: string)
    ensures '\n' !in t && s == t + rest && (rest != "" ==> rest[0] == '\n')
  {
    t, rest := s[..LineEnd(s)], s[LineEnd(s)..];
  }

  /** There is no text that the grammar leaves out. */
  lemma {:induction false} EveryTextIsSource(s: string) returns (src: Source)
    ensures IsSource(src) && TextOf(src) == s
    decreases |s|
  {
    if s == "" {
      src := End;
    } else if s[0] == '"' {
      src := LiteralAtFront(s);
    } else if |s| > 1 && s[0] == '/' && s[1] == '/' {
      var t, rest := LineTail(s[2..]);
      assert s == SLASHES + s[2..];
      Associative(SLASHES, t, rest);
      var more := EveryTextIsSource(rest);
      src := Then(LineComment(t), more);
    } else if |s| > 1 && s[0] == '/' && s[1] == '*' {
      src := CommentAtFront(s);
    } else {
      var more := EveryTextIsSource(s[1..]);
      src := Then(Code(s[..1]), more);
      assert s == s[..1] + s[1..];
    }
  }

  lemma {:induction false} LiteralAtFront(s: string) returns (src: Source)
    requires s != "" && s[0] == '"'
    ensures IsSource(src) && TextOf(src) == s
    decreases |s|, 0
  {
    assert s == QUOTE + s[1..];
    var q := BodyEnds(s[1..]);
    if q.Quoted? {
      Associative(q.body, QUOTE, q.rest);
      Associative(QUOTE, q.body + QUOTE, q.rest);
      var more := EveryTextIsSource(q.rest);
      src := Then(Literal(q.body), more);
    } else {
      src := OpenLiteral(s[1..]);
    }
  }

  lemma {:induction false} CommentAtFront(s: string) returns (src: Source)
    requires |s| > 1 && s[0] == '/' && s[1] == '*'
    ensures IsSource(src) && TextOf(src) == s
    decreases |s|, 0
  {
    assert s == OPEN + s[2..];
    var t, rest, closed := BlockTail(s[2..]);
    if closed {
      Associative(t, CLOSE, rest);
      Associative(OPEN, t + CLOSE, rest);
      var more := EveryTextIsSource(rest);
      src := Then(BlockComment(t), more);
    } else {
      src := OpenComment(s[2..]);
    }
  }
}
