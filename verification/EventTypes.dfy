// The event-type token of a frame: an event's own, or the normalized name of an exception.

module EventTypes {
  import opened Bytes
  import opened Wrappers
  import opened FrameHeaders

  const APPLICATION_JSON := Ascii("application/json")
  const EVENT := Ascii("event")
  const EXCEPTION := Ascii("exception")

  predicate Delimiter(b: Byte) { b == 0x23 || b == 0x2F } // '#' '/'

  function LowercaseFirst(s: Bytes): Bytes
  {
    if s != [] && 0x41 <= s[0] <= 0x5A then [s[0] + 0x20] + s[1..] else s
  }

  /** The longest delimiter-free suffix: the first item of `rsplit`. */
  function LastItem(s: Bytes): Bytes
  {
    if s == [] || Delimiter(s[|s| - 1]) then [] else LastItem(s[..|s| - 1]) + [s[|s| - 1]]
  }

  /** `s.rsplit(['#', '/']).find(|t| !t.is_empty())` */
  function LastNonEmptyItem(s: Bytes): Option<Bytes>
  {
    if s == [] then None
    else if Delimiter(s[|s| - 1]) then LastNonEmptyItem(s[..|s| - 1])
    else Some(LastItem(s))
  }

  function BareName(s: Bytes): Bytes
  {
    match LastNonEmptyItem(s) case Some(t) => t case None => s
  }

  function Normalize(exceptionType: Bytes): Bytes { LowercaseFirst(BareName(exceptionType)) }

  ghost predicate DelimiterFree(s: Bytes) { forall i | 0 <= i < |s| :: !Delimiter(s[i]) }
  ghost predicate AllDelimiters(s: Bytes) { forall i | 0 <= i < |s| :: Delimiter(s[i]) }

  lemma {:induction false} LastItemIsMaximal(s: Bytes) returns (before: Bytes)
    ensures s == before + LastItem(s) && DelimiterFree(LastItem(s))
    ensures before == [] || Delimiter(before[|before| - 1])
  {
    if s == [] || Delimiter(s[|s| - 1]) {
      before := s;
    } else {
      before := LastItemIsMaximal(s[..|s| - 1]);
      assert s == s[..|s| - 1] + [s[|s| - 1]];
    }
  }

  lemma {:induction false} OnlyDelimitersHaveNoItem(s: Bytes)
    ensures LastNonEmptyItem(s) == None <==> AllDelimiters(s)
  {
    if s != [] && Delimiter(s[|s| - 1]) {
      OnlyDelimitersHaveNoItem(s[..|s| - 1]);
    }
  }

  /** The bare name is the text between the last delimiter before it and the trailing delimiters. */
  lemma {:induction false} BareNameIsLastToken(s: Bytes) returns (before: Bytes, after: Bytes)
    requires !AllDelimiters(s)
    ensures s == before + BareName(s) + after
    ensures BareName(s) != [] && DelimiterFree(BareName(s))
    ensures AllDelimiters(after) && (before == [] || Delimiter(before[|before| - 1]))
  {
    OnlyDelimitersHaveNoItem(s);
    var front, last := s[..|s| - 1], s[|s| - 1];
    assert s == front + [last];
    if Delimiter(last) {
      OnlyDelimitersHaveNoItem(front);
      before, after := BareNameIsLastToken(front);
      after := after + [last];
    } else {
      before := LastItemIsMaximal(s);
      after := [];
    }
  }

  lemma {:induction false} DelimiterFreeIsBare(s: Bytes)
    requires DelimiterFree(s)
    ensures BareName(s) == s && LastItem(s) == s
  {
    if s != [] {
      DelimiterFreeIsBare(s[..|s| - 1]);
    }
  }

  lemma {:induction false} LastItemOf(before: Bytes, name: Bytes)
    requires DelimiterFree(name) && (before == [] || Delimiter(before[|before| - 1]))
    ensures LastItem(before + name) == name
  {
    if name == [] {
      assert before + name == before;
    } else {
      var front := name[..|name| - 1];
      assert (before + name)[..|before| + |front|] == before + front;
      LastItemOf(before, front);
    }
  }

  lemma {:induction false} BareNameOf(before: Bytes, name: Bytes, after: Bytes)
    requires DelimiterFree(name) && name != [] && AllDelimiters(after)
    requires before == [] || Delimiter(before[|before| - 1])
    ensures LastNonEmptyItem(before + name + after) == Some(name)
  {
    if after == [] {
      assert before + name + after == before + name;
      LastItemOf(before, name);
    } else {
      var front := after[..|after| - 1];
      assert (before + name + after)[..|before| + |name| + |front|] == before + name + front;
      BareNameOf(before, name, front);
    }
  }

  /**
   * The token of an exception: the text between the last `#` or `/` before it and those after it, with its first
   * letter lowered.
   */
  lemma TokenOfException(before: Bytes, name: Bytes, after: Bytes)
    requires name != [] && forall i | 0 <= i < |name| :: name[i] != 0x23 && name[i] != 0x2F
    requires forall i | 0 <= i < |after| :: after[i] == 0x23 || after[i] == 0x2F
    requires before == [] || before[|before| - 1] == 0x23 || before[|before| - 1] == 0x2F
    ensures var token := Normalize(before + name + after);
            && |token| == |name| && token[1..] == name[1..]
            && token[0] as int == if 0x41 <= name[0] <= 0x5A then name[0] as int + 32 else name[0] as int
  {
    BareNameOf(before, name, after);
  }

  /** A name with nothing but delimiters is its own token. */
  lemma TokenOfDelimiters(s: Bytes)
    requires forall i | 0 <= i < |s| :: s[i] == 0x23 || s[i] == 0x2F
    ensures Normalize(s) == s
  {
    OnlyDelimitersHaveNoItem(s);
  }

  /** A name that has been normalized once is left alone by a second pass. */
  lemma NormalizeIsIdempotent(s: Bytes)
    ensures Normalize(Normalize(s)) == Normalize(s)
  {
    OnlyDelimitersHaveNoItem(s);
    if AllDelimiters(s) {
      assert Normalize(s) == s;
    } else {
      var before, after := BareNameIsLastToken(s);
      DelimiterFreeIsBare(LowercaseFirst(BareName(s)));
    }
  }

  /** The event-type token of a frame, from the headers found in it. */
  function EventTypeOf(found: Found): Bytes
  {
    if found.messageType == Some(EXCEPTION) && found.exceptionType.Some? then Normalize(found.exceptionType.value)
    else match found.eventType case Some(t) => t case None => []
  }

  method EventTypeForFrame(headers: Bytes) returns (eventType: Bytes)
    ensures eventType == EventTypeOf(Summary(ReadBlock(headers).0))
    ensures var hs := ReadBlock(headers).0;
            if LastText(hs, MESSAGE_TYPE) == Some(EXCEPTION) && LastText(hs, EXCEPTION_TYPE).Some?
            then eventType == Normalize(LastText(hs, EXCEPTION_TYPE).value)
            else if LastText(hs, EVENT_TYPE).Some? then eventType == LastText(hs, EVENT_TYPE).value
            else eventType == []
  {
    var found := ParseFrameHeaders(headers);
    eventType := EventTypeOf(found);
  }
}
