// The header block of an AWS event-stream frame: its grammar, its printer, and the tolerant scanner
// that picks three framing headers out of it.

module FrameHeaders {
  import opened Bytes
  import opened Sequences
  import opened Wrappers

  const TYPE_BYTES: Byte := 6
  const TYPE_STRING: Byte := 7

  const EVENT_TYPE := Ascii(":event-type")
  const CONTENT_TYPE := Ascii(":content-type")
  const MESSAGE_TYPE := Ascii(":message-type")
  const EXCEPTION_TYPE := Ascii(":exception-type")

  /** One header. `value` holds the value bytes, without the length prefix of types 6 and 7. */
  datatype Header = Header(name: Bytes, valueType: Byte, value: Bytes)

  predicate Variable(valueType: Byte) { valueType == TYPE_BYTES || valueType == TYPE_STRING }

  /** The width of a value that carries no length prefix; None for the other type bytes. */
  function FixedWidth(valueType: Byte): Option<nat>
  {
    match valueType
    case 0 => Some(0)  // bool true
    case 1 => Some(0)  // bool false
    case 2 => Some(1)  // byte
    case 3 => Some(2)  // short
    case 4 => Some(4)  // int
    case 5 => Some(8)  // long
    case 8 => Some(8)  // timestamp
    case 9 => Some(16) // uuid
    case _ => None
  }

  /** The ten value types of the format, each with a value of its own width. */
  ghost predicate WellFormed(h: Header)
  {
    && |h.name| <= 0xFF
    && if Variable(h.valueType) then |h.value| <= 0xFFFF else FixedWidth(h.valueType) == Some(|h.value|)
  }

  ghost function Encode(h: Header): (s: Bytes)
    requires WellFormed(h)
    ensures |s| >= 2
  {
    [|h.name|] + h.name + [h.valueType] + LengthPrefix(h) + h.value
  }

  ghost function LengthPrefix(h: Header): Bytes
    requires WellFormed(h)
  {
    if Variable(h.valueType) then BigEndian16(|h.value|) else []
  }

  /** The ten value types on the wire, by their type bytes and widths. */
  lemma WireForm(h: Header)
    requires WellFormed(h)
    ensures var s, n := Encode(h), |h.name|;
            && s[0] as int == n <= 255 && s[1..1 + n] == h.name && s[1 + n] == h.valueType
            && (h.valueType in {6, 7} ==> |s| == 4 + n + |h.value| && Number(s[2 + n..4 + n]) == |h.value| <= 65535 && s[4 + n..] == h.value)
            && (h.valueType !in {6, 7} ==> |s| == 2 + n + |h.value| && s[2 + n..] == h.value)
            && (h.valueType in {0, 1} ==> |h.value| == 0) && (h.valueType == 2 ==> |h.value| == 1)
            && (h.valueType == 3 ==> |h.value| == 2) && (h.valueType == 4 ==> |h.value| == 4)
            && (h.valueType in {5, 8} ==> |h.value| == 8) && (h.valueType == 9 ==> |h.value| == 16)
            && h.valueType <= 9
  {
    var n := |h.name|;
    assert Encode(h)[1..1 + n] == h.name;
    if Variable(h.valueType) {
      assert Encode(h)[2 + n..4 + n] == LengthPrefix(h) && Encode(h)[4 + n..] == h.value;
    } else {
      assert Encode(h)[2 + n..] == h.value;
    }
  }

  /** And every value of such a type and width is one. */
  lemma EveryTypeHasHeaders(name: Bytes, valueType: Byte, value: Bytes)
    requires |name| <= 255 && valueType <= 9
    requires match valueType
             case 6 => |value| <= 65535 case 7 => |value| <= 65535
             case 2 => |value| == 1 case 3 => |value| == 2 case 4 => |value| == 4
             case 5 => |value| == 8 case 8 => |value| == 8 case 9 => |value| == 16
             case _ => value == []
    ensures WellFormed(Header(name, valueType, value))
  {
  }

  lemma EncodeThen(h: Header, rest: Bytes)
    requires WellFormed(h)
    ensures Encode(h) + rest == [|h.name|] + (h.name + ([h.valueType] + (LengthPrefix(h) + (h.value + rest))))
  {
  }

  ghost predicate AllWellFormed(hs: seq<Header>) { forall h | h in hs :: WellFormed(h) }

  ghost function EncodeAll(hs: seq<Header>): Bytes
    requires AllWellFormed(hs)
  {
    if hs == [] then [] else Encode(hs[0]) + EncodeAll(hs[1..])
  }

  lemma {:induction false} EncodeAllAppend(a: seq<Header>, b: seq<Header>)
    requires AllWellFormed(a) && AllWellFormed(b)
    ensures AllWellFormed(a + b)
    ensures EncodeAll(a + b) == EncodeAll(a) + EncodeAll(b)
  {
    if a == [] {
      assert a + b == b;
    } else {
      EncodeAllAppend(a[1..], b);
      assert (a + b)[1..] == a[1..] + b;
    }
  }

  // ---------------------------------------------------------------------------------------------
  // What a byte string says, independently of any scanner: `block` is the encoding of `hs` followed
  // by a `tail` no header is a prefix of.

  /** No complete header stands at the front of `s`. */
  ghost predicate Stuck(s: Bytes)
  {
    forall h: Header, rest: Bytes | WellFormed(h) :: Encode(h) + rest != s
  }

  ghost predicate Reads(block: Bytes, hs: seq<Header>, tail: Bytes)
  {
    AllWellFormed(hs) && block == EncodeAll(hs) + tail && Stuck(tail)
  }

  /** The last value recorded under `name`: the last bytes/string value of that name that is UTF-8. */
  ghost function LastText(hs: seq<Header>, name: Bytes): Option<Bytes>
  {
    if hs == [] then None
    else
      var h := hs[|hs| - 1];
      if h.name == name && Variable(h.valueType) && ValidUtf8(h.value) then Some(h.value)
      else LastText(hs[..|hs| - 1], name)
  }

  /** `FrameHeaders` */
  datatype Found = Found(eventType: Option<Bytes>, messageType: Option<Bytes>, exceptionType: Option<Bytes>)

  ghost function Summary(hs: seq<Header>): Found
  {
    Found(LastText(hs, EVENT_TYPE), LastText(hs, MESSAGE_TYPE), LastText(hs, EXCEPTION_TYPE))
  }

  /** The grammar is prefix-free: a byte string starts with at most one header. */
  lemma {:induction false} EncodeIsPrefixFree(a: Header, b: Header, s: Bytes, t: Bytes)
    requires WellFormed(a) && WellFormed(b)
    requires Encode(a) + s == Encode(b) + t
    ensures a == b && s == t
  {
    EncodeThen(a, s);
    EncodeThen(b, t);
    var restA, restB := LengthPrefix(a) + (a.value + s), LengthPrefix(b) + (b.value + t);
    SplitEqual([|a.name|], a.name + ([a.valueType] + restA), [|b.name|], b.name + ([b.valueType] + restB));
    SplitEqual(a.name, [a.valueType] + restA, b.name, [b.valueType] + restB);
    SplitEqual([a.valueType], restA, [b.valueType], restB);
    SplitEqual(LengthPrefix(a), a.value + s, LengthPrefix(b), b.value + t);
    SplitEqual(a.value, s, b.value, t);
  }

  lemma FirstHeader(block: Bytes, hs: seq<Header>, tail: Bytes)
    requires AllWellFormed(hs) && block == EncodeAll(hs) + tail
    ensures hs == [] ==> block == tail
    ensures hs != [] ==> block == Encode(hs[0]) + (EncodeAll(hs[1..]) + tail) && !Stuck(block)
  {
    if hs != [] {
      assert block == Encode(hs[0]) + (EncodeAll(hs[1..]) + tail);
    }
  }

  /** Printer and parser are inverse: a block reads as one list of headers and one tail only. */
  lemma {:induction false} ReadingIsUnique(block: Bytes, a: seq<Header>, s: Bytes, b: seq<Header>, t: Bytes)
    requires Reads(block, a, s) && Reads(block, b, t)
    ensures a == b && s == t
    decreases |a|
  {
    FirstHeader(block, a, s);
    FirstHeader(block, b, t);
    if a != [] {
      EncodeIsPrefixFree(a[0], b[0], EncodeAll(a[1..]) + s, EncodeAll(b[1..]) + t);
      ReadingIsUnique(EncodeAll(a[1..]) + s, a[1..], s, b[1..], t);
    }
  }

  lemma EncodeAllCons(h: Header, hs: seq<Header>, tail: Bytes)
    requires WellFormed(h) && AllWellFormed(hs)
    ensures EncodeAll([h] + hs) + tail == Encode(h) + (EncodeAll(hs) + tail)
  {
    assert ([h] + hs)[1..] == hs;
  }

  /** The one reading of `block`. */
  ghost function ReadBlock(block: Bytes): (r: (seq<Header>, Bytes))
    ensures Reads(block, r.0, r.1)
    decreases |block|
  {
    if Stuck(block) then
      assert block == EncodeAll([]) + block;
      ([], block)
    else
      var h: Header, rest: Bytes :| WellFormed(h) && Encode(h) + rest == block;
      var (hs, tail) := ReadBlock(rest);
      EncodeAllCons(h, hs, tail);
      ([h] + hs, tail)
  }

  /** A fixed-width header inserted at any header boundary changes nothing that is found. */
  lemma {:induction false} FixedWidthHeaderIsTransparent(a: seq<Header>, f: Header, b: seq<Header>, name: Bytes)
    requires !Variable(f.valueType)
    ensures LastText(a + [f] + b, name) == LastText(a + b, name)
  {
    if b == [] {
      assert (a + [f] + b)[..|a|] == a && a + b == a;
    } else {
      var k := |b| - 1;
      assert (a + [f] + b)[..|a| + 1 + k] == a + [f] + b[..k];
      assert (a + b)[..|a| + k] == a + b[..k];
      FixedWidthHeaderIsTransparent(a, f, b[..k], name);
    }
  }

  lemma LastTextSnoc(hs: seq<Header>, h: Header, name: Bytes)
    ensures LastText(hs + [h], name)
         == if h.name == name && Variable(h.valueType) && ValidUtf8(h.value) then Some(h.value) else LastText(hs, name)
  {
    assert (hs + [h])[..|hs|] == hs;
  }

  // ---------------------------------------------------------------------------------------------

  /** The lengths written at the front of `s` fit inside it. */
  ghost predicate Fits(s: Bytes)
  {
    && |s| >= 2
    && var p: nat := 2 + s[0] as int;
    && |s| >= p
    && var ty := s[p - 1];
    && if Variable(ty) then |s| >= p + 2 && |s| >= p + 2 + Number(s[p..p + 2])
       else FixedWidth(ty).Some? && |s| >= p + FixedWidth(ty).value
  }

  lemma PrintedHeaderFits(h: Header, rest: Bytes)
    requires WellFormed(h)
    ensures Fits(Encode(h) + rest)
  {
    var s := Encode(h) + rest;
    var p: nat := 2 + |h.name|;
    assert s[p - 1] == h.valueType;
    if Variable(h.valueType) {
      assert s[p..p + 2] == BigEndian16(|h.value|);
    }
  }

  lemma StuckHere(s: Bytes)
    requires !Fits(s)
    ensures Stuck(s)
  {
    forall h: Header, rest: Bytes | WellFormed(h) ensures Encode(h) + rest != s {
      PrintedHeaderFits(h, rest);
    }
  }

  /** A well-formed block reads as exactly the headers it was printed from. */
  lemma {:induction false} PrintedBlockReads(hs: seq<Header>)
    requires AllWellFormed(hs)
    ensures ReadBlock(EncodeAll(hs)) == (hs, [])
  {
    var block := EncodeAll(hs);
    assert block + [] == block;
    StuckHere([]);
    ReadingIsUnique(block, hs, [], ReadBlock(block).0, ReadBlock(block).1);
  }

  lemma FrontHeader(s: Bytes, h: Header, p: nat)
    requires Fits(s)
    requires 2 + s[0] as int <= p <= |s|
    requires h.name == s[1..1 + s[0] as int] && h.valueType == s[1 + s[0] as int]
    requires
      var q: nat := 2 + s[0] as int;
      if Variable(h.valueType) then p == q + 2 + Number(s[q..q + 2]) && h.value == s[q + 2..p]
      else p == q + FixedWidth(h.valueType).value && h.value == s[q..p]
    ensures WellFormed(h) && Encode(h) == s[..p]
  {
    var q: nat := 2 + s[0] as int;
    Glue(s, 1, q - 1);
    Glue(s, q - 1, q);
    Glue(s, q, p - |h.value|);
    Glue(s, p - |h.value|, p);
    if Variable(h.valueType) {
      BigEndianOfNumber(s[q..q + 2]);
    }
  }

  /**
   * Scan a header block, whatever its bytes: every complete header up to the first position where
   * none stands is read, and what is found is the last text of each recognized name among them.
   */
  method ParseFrameHeaders(block: Bytes) returns (found: Found)
    ensures found == Summary(ReadBlock(block).0)
  {
    var h := block;
    found := Found(None, None, None);
    ghost var hs := [];
    while h != []
      invariant AllWellFormed(hs)
      invariant block == EncodeAll(hs) + h
      invariant found == Summary(hs)
      decreases |h|
    {
      var nameLen: nat := h[0];
      if |h| < 1 + nameLen + 1 {
        StuckHere(h);
        break;
      }
      var name := h[1..1 + nameLen];
      var valueType := h[1 + nameLen];
      var p: nat := 1 + nameLen + 1;
      var value: Option<Bytes>;
      ghost var raw: Bytes;
      if Variable(valueType) {
        if |h| < p + 2 {
          StuckHere(h);
          break;
        }
        var vlen: nat := Number(h[p..p + 2]);
        p := p + 2;
        if |h| < p + vlen {
          StuckHere(h);
          break;
        }
        value := Some(h[p..p + vlen]);
        raw := h[p..p + vlen];
        p := p + vlen;
      } else {
        match FixedWidth(valueType)
        case Some(w) =>
          if |h| < p + w {
            StuckHere(h);
            break;
          }
          raw := h[p..p + w];
          p := p + w;
          value := None;
        case None =>
          StuckHere(h);
          break;
      }
      if value.Some? && ValidUtf8(value.value) {
        if name == EVENT_TYPE {
          found := found.(eventType := value);
        } else if name == MESSAGE_TYPE {
          found := found.(messageType := value);
        } else if name == EXCEPTION_TYPE {
          found := found.(exceptionType := value);
        }
      }
      ghost var header := Header(name, valueType, raw);
      FrontHeader(h, header, p);
      AppendHeader(block, hs, header, h, p);
      hs := hs + [header];
      h := h[p..];
    }
    if h == [] {
      StuckHere(h);
    }
    ReadingIsUnique(block, hs, h, ReadBlock(block).0, ReadBlock(block).1);
  }

  lemma AppendHeader(block: Bytes, hs: seq<Header>, header: Header, h: Bytes, p: nat)
    requires AllWellFormed(hs) && WellFormed(header)
    requires block == EncodeAll(hs) + h
    requires p <= |h| && Encode(header) == h[..p]
    ensures AllWellFormed(hs + [header])
    ensures block == EncodeAll(hs + [header]) + h[p..]
    ensures forall name :: LastText(hs + [header], name) == (
              if header.name == name && Variable(header.valueType) && ValidUtf8(header.value) then Some(header.value)
              else LastText(hs, name))
  {
    EncodeAllAppend(hs, [header]);
    assert EncodeAll([header]) == Encode(header) + [];
    assert h == h[..p] + h[p..];
    forall name { LastTextSnoc(hs, header, name); }
  }
}
