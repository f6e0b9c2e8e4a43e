// The frame codec: an incremental decoder over a growing buffer.
//
//   [total_len u32][headers_len u32][prelude_crc u32][headers][payload][message_crc u32]

module FrameCodec {
  import opened Bytes
  import opened Sequences
  import opened Wrappers
  import opened FrameHeaders
  import opened EventTypes

  const PRELUDE_LEN := 12
  const CRC_BYTES := 4
  const MIN_FRAME_BYTES := 16
  const MAX_FRAME_BYTES := 16 * 1024 * 1024

  /** A `Vec<u8>` that is passed by mutable reference. */
  class ByteVec {
    var bytes: Bytes

    constructor (bytes: Bytes)
      ensures this.bytes == bytes
    {
      this.bytes := bytes;
    }
  }

  /** The checksum is a parameter of the codec: nothing here depends on which one it is. */
  type Checksum = Bytes -> U32

  // ---------------------------------------------------------------------------------------------
  // Decoding, one frame at a time

  /** A frame as cut from the stream: its header block and its payload. */
  datatype Frame = Frame(headers: Bytes, payload: Bytes)

  /** A frame as handed to the reader. */
  datatype Event = Event(eventType: Bytes, payload: Bytes)

  ghost function EventOf(f: Frame): Event
  {
    Event(EventTypeOf(Summary(ReadBlock(f.headers).0)), f.payload)
  }

  ghost function EventsOf(fs: seq<Frame>): seq<Event>
  {
    seq(|fs|, i requires 0 <= i < |fs| => EventOf(fs[i]))
  }

  datatype Status = Ok | MalformedPrelude

  /** What stands at the front of the buffer. */
  datatype Front = Partial | Malformed | Complete(total: nat, headers: nat)

  function FrontOf(s: Bytes): (r: Front)
    ensures r.Complete? ==> MIN_FRAME_BYTES <= r.total <= |s| && r.headers <= r.total - MIN_FRAME_BYTES
    ensures r.Partial? ==> |s| < MAX_FRAME_BYTES
  {
    if |s| < PRELUDE_LEN then Partial
    else
      var total, headers := Number(s[..4]), Number(s[4..8]);
      if !(MIN_FRAME_BYTES <= total <= MAX_FRAME_BYTES) || headers > total - MIN_FRAME_BYTES then Malformed
      else if |s| < total then Partial
      else Complete(total, headers)
  }

  function FrameOf(s: Bytes, total: nat, headers: nat): Frame
    requires MIN_FRAME_BYTES <= total <= |s| && headers <= total - MIN_FRAME_BYTES
  {
    Frame(s[PRELUDE_LEN..PRELUDE_LEN + headers], s[PRELUDE_LEN + headers..total - CRC_BYTES])
  }

  /** Frames cut off the front of a stream, and their bytes as they stood there. */
  datatype Cut = Cut(frames: seq<Frame>, verbatim: Bytes)

  /** What was cut off a stream, why the cutting stopped, and what is left from there on. */
  datatype Drained = Drained(cut: Cut, status: Status, rest: Bytes)

  ghost function Join(p: Cut, q: Cut): Cut
  {
    Cut(p.frames + q.frames, p.verbatim + q.verbatim)
  }

  /** The result `d` of draining what stands after `cut`. */
  ghost function After(cut: Cut, d: Drained): Drained
  {
    Drained(Join(cut, d.cut), d.status, d.rest)
  }

  lemma AfterTwice(a: Cut, b: Cut, d: Drained)
    ensures After(a, After(b, d)) == After(Join(a, b), d)
  {
    Associative(a.frames, b.frames, d.cut.frames);
    Associative(a.verbatim, b.verbatim, d.cut.verbatim);
  }

  lemma AfterNone(d: Drained)
    ensures After(Cut([], []), d) == d
  {
    assert [] + d.cut.frames == d.cut.frames && [] + d.cut.verbatim == d.cut.verbatim;
  }

  lemma JoinNone(p: Cut)
    ensures Join(p, Cut([], [])) == p
  {
    assert p.frames + [] == p.frames && p.verbatim + [] == p.verbatim;
  }

  /** The decoder as one that removes one frame from the front of the stream at a time. */
  ghost function Drain(s: Bytes): Drained
    decreases |s|
  {
    match FrontOf(s)
    case Partial => Drained(Cut([], []), Ok, s)
    case Malformed => Drained(Cut([], []), MalformedPrelude, s)
    case Complete(total, headers) => After(Cut([FrameOf(s, total, headers)], s[..total]), Drain(s[total..]))
  }

  /** Nothing is lost, and what a healthy stream leaves is the beginning of one frame. */
  lemma {:induction false} DrainKeepsEveryByte(s: Bytes)
    ensures Drain(s).cut.verbatim + Drain(s).rest == s
    ensures Drain(s).status == Ok ==> FrontOf(Drain(s).rest) == Partial
    decreases |s|
  {
    var front := FrontOf(s);
    if front.Complete? {
      var head, tail := s[..front.total], s[front.total..];
      DrainKeepsEveryByte(tail);
      assert head + tail == s;
      Associative(head, Drain(tail).cut.verbatim, Drain(tail).rest);
    } else {
      assert [] + s == s;
    }
  }

  // ---------------------------------------------------------------------------------------------
  // The same by the bytes alone

  /** One whole frame, by the two lengths in its prelude. */
  ghost predicate WholeFrame(p: Bytes)
  {
    16 <= |p| <= 0x100_0000 && Number(p[..4]) == |p| && Number(p[4..8]) <= |p| - 16
  }

  /** A prelude that no frame has: a total length out of range, or a header block that does not fit. */
  ghost predicate BadPrelude(s: Bytes)
  {
    |s| >= 12 && (Number(s[..4]) < 16 || Number(s[..4]) > 0x100_0000 || Number(s[4..8]) > Number(s[..4]) - 16)
  }

  /** The beginning of a frame, as far as it can be told. */
  ghost predicate Unfinished(s: Bytes)
  {
    |s| < 12 || (!BadPrelude(s) && |s| < Number(s[..4]))
  }

  ghost function Joined(pieces: seq<Bytes>): Bytes
  {
    if pieces == [] then [] else pieces[0] + Joined(pieces[1..])
  }

  /** The stream is whole frames, and then a bad prelude or the beginning of a frame. */
  ghost predicate CutsInto(s: Bytes, pieces: seq<Bytes>, rest: Bytes, status: Status)
  {
    && s == Joined(pieces) + rest
    && (forall i | 0 <= i < |pieces| :: WholeFrame(pieces[i]))
    && (if status == Ok then Unfinished(rest) else BadPrelude(rest))
  }

  /** What a whole frame announces: its token, and what stands between its headers and its checksum. */
  ghost function Announces(p: Bytes): Event
    requires WholeFrame(p)
  {
    var h := 12 + Number(p[4..8]);
    Event(EventTypeOf(Summary(ReadBlock(p[12..h]).0)), p[h..|p| - 4])
  }

  lemma FrontByBytes(s: Bytes)
    ensures FrontOf(s).Malformed? <==> BadPrelude(s)
    ensures FrontOf(s).Partial? <==> Unfinished(s)
    ensures FrontOf(s).Complete? ==>
              var p := s[..FrontOf(s).total];
              WholeFrame(p) && EventOf(FrameOf(s, FrontOf(s).total, FrontOf(s).headers)) == Announces(p)
  {
    if FrontOf(s).Complete? {
      var total, h := FrontOf(s).total, 12 + FrontOf(s).headers;
      var p := s[..total];
      assert p[..4] == s[..4] && p[4..8] == s[4..8] && p[12..h] == s[12..h] && p[h..total - 4] == s[h..total - 4];
    }
  }

  lemma OneMorePiece(head: Bytes, tail: Bytes, more: seq<Bytes>, rest: Bytes, status: Status)
    requires WholeFrame(head) && CutsInto(tail, more, rest, status)
    ensures CutsInto(head + tail, [head] + more, rest, status)
    ensures Joined([head] + more) == head + Joined(more)
  {
    assert ([head] + more)[1..] == more;
    Associative(head, Joined(more), rest);
  }

  /** Draining cuts a stream as its bytes say. */
  lemma {:induction false} DrainCuts(s: Bytes) returns (pieces: seq<Bytes>)
    ensures CutsInto(s, pieces, Drain(s).rest, Drain(s).status)
    ensures Drain(s).cut.verbatim == Joined(pieces)
    ensures |Drain(s).cut.frames| == |pieces|
    ensures forall i | 0 <= i < |pieces| :: EventOf(Drain(s).cut.frames[i]) == Announces(pieces[i])
    decreases |s|
  {
    FrontByBytes(s);
    if FrontOf(s).Complete? {
      var head, tail := s[..FrontOf(s).total], s[FrontOf(s).total..];
      var more := DrainCuts(tail);
      pieces := [head] + more;
      assert s == head + tail;
      OneMorePiece(head, tail, more, Drain(tail).rest, Drain(tail).status);
    } else {
      pieces := [];
      assert [] + s == s;
    }
  }

  lemma FirstPiece(s: Bytes, pieces: seq<Bytes>, rest: Bytes, status: Status)
    requires CutsInto(s, pieces, rest, status)
    ensures pieces == [] ==> s == rest && (if status == Ok then Unfinished(s) else BadPrelude(s))
    ensures pieces != [] ==>
              && |s| >= |pieces[0]| == Number(s[..4]) && !BadPrelude(s) && !Unfinished(s)
              && s == pieces[0] + (Joined(pieces[1..]) + rest)
              && CutsInto(Joined(pieces[1..]) + rest, pieces[1..], rest, status)
  {
    if pieces != [] {
      Associative(pieces[0], Joined(pieces[1..]), rest);
      assert s[..4] == pieces[0][..4] && s[4..8] == pieces[0][4..8];
    }
  }

  /** There is one way to cut a stream. */
  lemma {:induction false} CutsAreUnique(s: Bytes, p: seq<Bytes>, x: Bytes, a: Status, q: seq<Bytes>, y: Bytes, b: Status)
    requires CutsInto(s, p, x, a) && CutsInto(s, q, y, b)
    ensures p == q && x == y && a == b
    decreases |p|
  {
    FirstPiece(s, p, x, a);
    FirstPiece(s, q, y, b);
    if p != [] {
      SplitEqual(p[0], Joined(p[1..]) + x, q[0], Joined(q[1..]) + y);
      CutsAreUnique(Joined(p[1..]) + x, p[1..], x, a, q[1..], y, b);
      assert p == [p[0]] + p[1..] && q == [q[0]] + q[1..];
    }
  }

  /** The stream is cut into pieces, one an event; what is left is kept, unless the stream is malformed. */
  ghost predicate Decodes(s: Bytes, out: seq<Event>, consumed: Bytes, status: Status, left: Bytes)
  {
    exists pieces, rest ::
      && CutsInto(s, pieces, rest, status) && consumed == Joined(pieces)
      && |out| == |pieces| && (forall i | 0 <= i < |pieces| :: out[i] == Announces(pieces[i]))
      && left == if status == Ok then rest else []
  }

  lemma DrainDecodes(s: Bytes)
    ensures var d := Drain(s);
            Decodes(s, EventsOf(d.cut.frames), d.cut.verbatim, d.status, if d.status == Ok then d.rest else [])
    ensures BadPrelude(s) ==> EventsOf(Drain(s).cut.frames) == [] && Drain(s).status == MalformedPrelude
  {
    var pieces := DrainCuts(s);
    FrontByBytes(s);
    assert CutsInto(s, pieces, Drain(s).rest, Drain(s).status);
  }

  lemma CutOne(cut: Cut, rem: Bytes, total: nat, headers: nat)
    requires FrontOf(rem) == Complete(total, headers)
    ensures var one := Cut([FrameOf(rem, total, headers)], rem[..total]);
            After(Join(cut, one), Drain(rem[total..])) == After(cut, Drain(rem))
  {
    AfterTwice(cut, Cut([FrameOf(rem, total, headers)], rem[..total]), Drain(rem[total..]));
  }

  lemma CutEnd(cut: Cut, rem: Bytes)
    requires !FrontOf(rem).Complete?
    ensures After(cut, Drain(rem)) == Drained(cut, if FrontOf(rem).Malformed? then MalformedPrelude else Ok, rem)
  {
    JoinNone(cut);
  }

  lemma EventsOfSnoc(fs: seq<Frame>, frame: Frame)
    ensures EventsOf(fs + [frame]) == EventsOf(fs) + [EventOf(frame)]
  {
  }

  /** Read the frame at the front of `rem`, and hand its bytes to the sink. */
  method ReadFrame(rem: Bytes, total: nat, headers: nat, sink: ByteVec?, ghost before: Bytes, ghost cut: Cut)
    returns (event: Event, ghost longer: Cut)
    requires FrontOf(rem) == Complete(total, headers)
    requires sink != null ==> sink.bytes == before + cut.verbatim
    modifies sink
    ensures EventsOf(longer.frames) == EventsOf(cut.frames) + [event]
    ensures |longer.verbatim| == |cut.verbatim| + total
    ensures After(longer, Drain(rem[total..])) == After(cut, Drain(rem))
    ensures sink != null ==> sink.bytes == before + longer.verbatim
  {
    var frame := FrameOf(rem, total, headers);
    var eventType := EventTypeForFrame(frame.headers);
    event := Event(eventType, frame.payload);
    longer := Join(cut, Cut([frame], rem[..total]));
    EventsOfSnoc(cut.frames, frame);
    CutOne(cut, rem, total, headers);
    if sink != null {
      sink.bytes := sink.bytes + rem[..total];
      Associative(before, cut.verbatim, rem[..total]);
    }
  }

  /** `drain_frames_checked`: one pass with a position, and one edit of the buffer at its end. */
  method DrainFramesChecked(buf: ByteVec, sink: ByteVec?) returns (out: seq<Event>, status: Status, pos: nat)
    requires sink != buf
    modifies buf, sink
    ensures var d := Drain(old(buf.bytes));
            && out == EventsOf(d.cut.frames) && status == d.status && pos == |d.cut.verbatim|
            && buf.bytes == (if status == Ok then d.rest else [])
            && (sink != null ==> sink.bytes == old(sink.bytes) + d.cut.verbatim)
    ensures exists consumed ::
              && Decodes(old(buf.bytes), out, consumed, status, buf.bytes)
              && pos == |consumed| && (sink != null ==> sink.bytes == old(sink.bytes) + consumed)
    ensures BadPrelude(old(buf.bytes)) ==> out == [] && status == MalformedPrelude && buf.bytes == []
  {
    out, pos := [], 0;
    ghost var all, cut := buf.bytes, Cut([], []);
    AfterNone(Drain(all));
    ghost var before := if sink == null then [] else sink.bytes;
    var rem := buf.bytes;
    var front := FrontOf(rem);
    while front.Complete?
      invariant front == FrontOf(rem) && pos == |cut.verbatim|
      invariant After(cut, Drain(rem)) == Drain(all)
      invariant out == EventsOf(cut.frames)
      invariant sink != null ==> sink.bytes == before + cut.verbatim
      decreases |rem|
      modifies sink
    {
      var event;
      event, cut := ReadFrame(rem, front.total, front.headers, sink, before, cut);
      out := out + [event];
      pos := pos + front.total;
      rem := rem[front.total..];
      front := FrontOf(rem);
    }
    CutEnd(cut, rem);
    status := if front.Malformed? then MalformedPrelude else Ok;
    EditBuffer(buf, status, pos);
    DrainDecodes(all);
  }

  /** The one edit: drop the consumed prefix, or everything when the stream is unrecoverable. */
  method EditBuffer(buf: ByteVec, status: Status, pos: nat)
    requires pos == |Drain(buf.bytes).cut.verbatim|
    modifies buf
    ensures buf.bytes == if status == Ok then Drain(old(buf.bytes)).rest else []
  {
    DrainKeepsEveryByte(buf.bytes);
    match status
    case Ok => buf.bytes := buf.bytes[pos..];
    case MalformedPrelude => buf.bytes := [];
  }

  // ---------------------------------------------------------------------------------------------
  // Longer streams

  lemma FrontAppend(a: Bytes, b: Bytes)
    requires !FrontOf(a).Partial?
    ensures FrontOf(a + b) == FrontOf(a)
    ensures FrontOf(a).Complete? ==>
              var (total, headers) := (FrontOf(a).total, FrontOf(a).headers);
              && (a + b)[total..] == a[total..] + b && (a + b)[..total] == a[..total]
              && FrameOf(a + b, total, headers) == FrameOf(a, total, headers)
  {
    assert (a + b)[..4] == a[..4] && (a + b)[4..8] == a[4..8];
    if FrontOf(a).Complete? {
      var total, h := FrontOf(a).total, PRELUDE_LEN + FrontOf(a).headers;
      assert (a + b)[PRELUDE_LEN..h] == a[PRELUDE_LEN..h];
      assert (a + b)[h..total - CRC_BYTES] == a[h..total - CRC_BYTES];
    }
  }

  /** More bytes after a drained stream only add frames, unless the stream is already malformed. */
  lemma {:induction false} DrainAppend(a: Bytes, b: Bytes)
    ensures var d := Drain(a);
            Drain(a + b) == if d.status == Ok then After(d.cut, Drain(d.rest + b)) else d.(rest := d.rest + b)
    decreases |a|
  {
    match FrontOf(a) {
      case Partial =>
        AfterNone(Drain(a + b));
      case Malformed =>
        FrontAppend(a, b);
      case Complete(total, headers) =>
        FrontAppend(a, b);
        var tail := a[total..];
        DrainAppend(tail, b);
        if Drain(tail).status == Ok {
          AfterTwice(Cut([FrameOf(a, total, headers)], a[..total]), Drain(tail).cut, Drain(Drain(tail).rest + b));
        }
    }
  }
}
