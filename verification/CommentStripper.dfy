// The comment stripper of the schema extractor: comments become blanks, and nothing else moves.

module CommentStripper {
  import opened Sequences
  import opened CommentTokens
  import opened SourceTexts

  // One token of the loop, which has written `out` and stands at `i`.

  lemma StripOne(out: string, src: string, i: nat, inStr: bool, mode: bool)
    requires i < |src| && Next(src[i..], inStr) == Text(1, mode)
    ensures out + [src[i]] + Strip(src[i + 1..], mode) == out + Strip(src[i..], inStr)
  {
    SliceOfRest(src, i, i + 1);
    assert src[i..i + 1] == [src[i]];
    Associative(out, [src[i]], Strip(src[i + 1..], mode));
  }

  lemma StripTwo(out: string, src: string, i: nat)
    requires i + 1 < |src| && Next(src[i..], true) == Text(2, true)
    ensures out + [src[i]] + [src[i + 1]] + Strip(src[i + 2..], true) == out + Strip(src[i..], true)
  {
    SliceOfRest(src, i, i + 2);
    assert src[i..i + 2] == [src[i]] + [src[i + 1]];
    Associative(out, [src[i]], [src[i + 1]]);
    Associative(out, [src[i]] + [src[i + 1]], Strip(src[i + 2..], true));
  }

  lemma StripBlanks(out: string, src: string, i: nat, j: nat)
    requires i < j <= |src| && Next(src[i..], false) == Comment(j - i)
    ensures out + Blanks(src[i..j]) + Strip(src[j..], false) == out + Strip(src[i..], false)
  {
    SliceOfRest(src, i, j);
    Associative(out, Blanks(src[i..j]), Strip(src[j..], false));
  }

  /** `strip_comments` */
  method StripComments(src: string) returns (out: string)
    ensures out == Strip(src, false)
    ensures forall text | IsSource(text) && TextOf(text) == src :: out == Kept(text)
  {
    forall text | IsSource(text) && TextOf(text) == src ensures Strip(src, false) == Kept(text) {
      StripKeepsTheRest(text);
    }
    out := [];
    var i, n := 0, |src|;
    var inStr := false;
    assert src[0..] == src;
    while i < n
      invariant i <= n && out + Strip(src[i..], inStr) == Strip(src, false)
    {
      var c := src[i];
      if inStr {
        if c == '\\' && i + 1 < n {
          StripTwo(out, src, i);
          out := out + [c];
          out := out + [src[i + 1]];
          i := i + 2;
        } else {
          StripOne(out, src, i, true, c != '"');
          out := out + [c];
          inStr := c != '"';
          i := i + 1;
        }
      } else if c == '"' {
        StripOne(out, src, i, false, true);
        inStr := true;
        out := out + [c];
        i := i + 1;
      } else if c == '/' && i + 1 < n && src[i + 1] == '/' {
        ghost var start, before := i, out;
        out, i := BlankLine(out, src, i);
        StripBlanks(before, src, start, i);
      } else if c == '/' && i + 1 < n && src[i + 1] == '*' {
        var j := FindClose(src, i + 2);
        assert src[i..][2..] == src[i + 2..];
        StripBlanks(out, src, i, j);
        out := out + Blanks(src[i..j]);
        i := j;
      } else {
        StripOne(out, src, i, false, false);
        out := out + [c];
        i := i + 1;
      }
    }
  }

  /** Blank a line comment up to the end of its line. */
  method BlankLine(out: string, src: string, start: nat) returns (longer: string, i: nat)
    requires start < |src|
    ensures i == start + LineEnd(src[start..])
    ensures longer == out + Blanks(src[start..i])
  {
    longer, i := out, start;
    ghost var end := start + LineEnd(src[start..]);
    while i < |src| && src[i] != NEWLINE
      invariant start <= i <= end
      invariant longer == out + Blanks(src[start..i])
    {
      assert i < end by {
        assert end < |src| ==> src[start..][end - start] == src[end];
      }
      assert src[i] == src[start..][i - start];
      longer := longer + [' '];
      i := i + 1;
    }
  }

  // `src.find` of the block-comment terminator, moved past the match; the end of the text if there is none.
  method FindClose(src: string, from: nat) returns (j: nat)
    requires from <= |src|
    ensures j == from + BlockEnd(src[from..])
  {
    j := from;
    while j + 1 < |src| && !(src[j] == '*' && src[j + 1] == '/')
      invariant from <= j <= |src|
      invariant from + BlockEnd(src[from..]) == j + BlockEnd(src[j..])
    {
      assert src[j..][1..] == src[j + 1..];
      j := j + 1;
    }
    j := if j + 1 < |src| then j + 2 else |src|;
  }
}
