// Stripping comments token by token: what stands at the front of a text, and what is left of it.

module CommentTokens {
  import opened Sequences

  const NEWLINE := '\n'

  /** The first line feed of `s`, or its end. */
  function LineEnd(s: string): (n: nat)
    ensures n <= |s| && (n < |s| ==> s[n] == NEWLINE) && forall i | 0 <= i < n :: s[i] != NEWLINE
  {
    if s == [] || s[0] == NEWLINE then 0 else 1 + LineEnd(s[1..])
  }

  // The end of the first block-comment terminator of `s`, or the end of `s`.
  function BlockEnd(s: string): (n: nat)
    ensures n <= |s| && (s != [] ==> n > 0)
  {
    if |s| < 2 then |s| else if s[0] == '*' && s[1] == '/' then 2 else 1 + BlockEnd(s[1..])
  }

  function Blank(c: char): char { if c == NEWLINE then NEWLINE else ' ' }

  function Blanks(s: string): (r: string)
    ensures |r| == |s| && forall i | 0 <= i < |s| :: r[i] == Blank(s[i])
  {
    seq(|s|, i requires 0 <= i < |s| => Blank(s[i]))
  }

  /** What stands at the front of a source text: how long it is, and whether it is a comment. */
  datatype Token = Text(length: nat, inString: bool) | Comment(length: nat)

  /** The next token, and the mode after it, from the mode `inString`. */
  function Next(s: string, inString: bool): (t: Token)
    requires s != []
    ensures 0 < t.length <= |s|
  {
    if inString then
      if s[0] == '\\' && |s| > 1 then Text(2, true) else Text(1, s[0] != '"')
    else if s[0] == '"' then Text(1, true)
    else if s[0] == '/' && |s| > 1 && s[1] == '/' then Comment(LineEnd(s))
    else if s[0] == '/' && |s| > 1 && s[1] == '*' then Comment(2 + BlockEnd(s[2..]))
    else Text(1, false)
  }

  /** The stripped text, token by token. */
  function Strip(s: string, inString: bool): (r: string)
    ensures |r| == |s|
    decreases |s|
  {
    if s == [] then []
    else
      match Next(s, inString)
      case Text(n, mode) => s[..n] + Strip(s[n..], mode)
      case Comment(n) => Blanks(s[..n]) + Strip(s[n..], false)
  }

  /** No character moves: each stays, or becomes a blank if it is no line feed. */
  lemma {:induction false} StripOnlyBlanks(s: string, inString: bool)
    ensures forall i | 0 <= i < |s| ::
              Strip(s, inString)[i] == s[i] || (Strip(s, inString)[i] == ' ' && s[i] != NEWLINE)
    decreases |s|
  {
    if s != [] {
      var t := Next(s, inString);
      var n, mode := t.length, if t.Text? then t.inString else false;
      StripOnlyBlanks(s[n..], mode);
      forall i | 0 <= i < |s|
        ensures Strip(s, inString)[i] == s[i] || (Strip(s, inString)[i] == ' ' && s[i] != NEWLINE)
      {
        assert i >= n ==> s[i] == s[n..][i - n] && Strip(s, inString)[i] == Strip(s[n..], mode)[i - n];
      }
    }
  }

  /** Blanks are no tokens of their own: they pass through unchanged. */
  lemma {:induction false} BlanksPass(b: string, rest: string)
    requires forall i | 0 <= i < |b| :: b[i] == ' ' || b[i] == NEWLINE
    ensures Strip(b + rest, false) == b + Strip(rest, false)
  {
    if b == [] {
      assert b + rest == rest;
    } else {
      assert (b + rest)[..1] == [b[0]] && (b + rest)[1..] == b[1..] + rest;
      BlanksPass(b[1..], rest);
      Associative([b[0]], b[1..], Strip(rest, false));
      assert [b[0]] + b[1..] == b;
    }
  }

  /** Outside a string, the first character of a stripped text is the original one or a blank. */
  lemma FirstOfStripped(s: string)
    requires s != []
    ensures Strip(s, false)[0] == s[0] || Strip(s, false)[0] == ' '
  {
  }

  /** There is nothing left to strip. */
  lemma {:induction false} StripIsIdempotent(s: string, inString: bool)
    ensures Strip(Strip(s, inString), inString) == Strip(s, inString)
    decreases |s|
  {
    if s != [] {
      match Next(s, inString) {
        case Comment(n) =>
          StripIsIdempotent(s[n..], false);
          BlanksPass(Blanks(s[..n]), Strip(s[n..], false));
        case Text(n, mode) =>
          StripIsIdempotent(s[n..], mode);
          TextStays(s, inString, n, mode);
      }
    }
  }

  lemma TextStays(s: string, inString: bool, n: nat, mode: bool)
    requires s != [] && Next(s, inString) == Text(n, mode)
    ensures Strip(s[..n] + Strip(s[n..], mode), inString) == s[..n] + Strip(Strip(s[n..], mode), mode)
  {
    var rest := Strip(s[n..], mode);
    var t := s[..n] + rest;
    if !inString && s[0] == '/' && |s| > 1 {
      FirstOfStripped(s[1..]);
    }
    assert Next(t, inString) == Text(n, mode);
    assert t[..n] == s[..n] && t[n..] == rest;
  }

  lemma PlainCharacter(c: char, rest: string, inString: bool)
    requires c != '/' && c != '\\'
    ensures Strip([c] + rest, inString) == [c] + Strip(rest, if c == '"' then !inString else inString)
  {
    assert ([c] + rest)[..1] == [c] && ([c] + rest)[1..] == rest;
  }

  /** A double quote in a character literal opens a string: what follows is copied until the next one. */
  lemma QuoteLiteralOpensString(rest: string)
    ensures Strip("'" + ("\"" + ("'" + rest)), false) == "'" + ("\"" + ("'" + Strip(rest, true)))
  {
    PlainCharacter('\'', "\"" + ("'" + rest), false);
    PlainCharacter('"', "'" + rest, false);
    PlainCharacter('\'', rest, true);
  }

  /** A comment after such a literal is not stripped. */
  lemma CommentAfterQuoteLiteralStays(comment: string)
    requires forall i | 0 <= i < |comment| :: comment[i] != '"' && comment[i] != '\\'
    ensures var line := "'" + ("\"" + ("'" + ("//" + comment))); Strip(line, false) == line
  {
    QuoteLiteralOpensString("//" + comment);
    MarkedStays("//", comment);
  }

  lemma MarkedStays(mark: string, comment: string)
    requires forall i | 0 <= i < |mark| :: mark[i] != '"' && mark[i] != '\\'
    requires forall i | 0 <= i < |comment| :: comment[i] != '"' && comment[i] != '\\'
    ensures Strip(mark + comment, true) == mark + comment
  {
    QuotelessStays(mark + comment);
  }

  lemma {:induction false} QuotelessStays(s: string)
    requires forall i | 0 <= i < |s| :: s[i] != '"' && s[i] != '\\'
    ensures Strip(s, true) == s
  {
    if s != [] {
      QuotelessStays(s[1..]);
      assert s == s[..1] + s[1..];
    }
  }
}
