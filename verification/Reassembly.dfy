// The reassembler that feeds chunks of a stream to the frame codec.

module Reassembly {
  import opened Bytes
  import opened EventTypes
  import opened FrameCodec

  /** The reassembler's state: what it buffers, and whether it has given the stream up. */
  datatype Feeder = Feeder(buf: Bytes, aborted: bool)

  ghost function Feed(st: Feeder, chunk: Bytes): (Feeder, Cut)
  {
    if st.aborted then (st, Cut([], []))
    else
      var d := Drain(st.buf + chunk);
      var kept := if d.status == Ok then d.rest else [];
      (if d.status == MalformedPrelude || |kept| > MAX_FRAME_BYTES then Feeder([], true) else Feeder(kept, false), d.cut)
  }

  ghost function FeedAll(chunks: seq<Bytes>): (Feeder, Cut)
  {
    if chunks == [] then (Feeder([], false), Cut([], []))
    else
      var (st, p) := FeedAll(chunks[..|chunks| - 1]);
      var (next, q) := Feed(st, chunks[|chunks| - 1]);
      (next, Join(p, q))
  }

  ghost function Concat(chunks: seq<Bytes>): Bytes
  {
    if chunks == [] then [] else Concat(chunks[..|chunks| - 1]) + chunks[|chunks| - 1]
  }

  /** The reassembler is where one pass over a stream, ending in `d`, leads. */
  ghost predicate Agrees(st: Feeder, p: Cut, d: Drained)
  {
    && p == d.cut
    && (st.aborted <==> d.status == MalformedPrelude)
    && (!st.aborted ==> st.buf == d.rest && |st.buf| < MAX_FRAME_BYTES)
  }

  lemma FeedAgrees(st: Feeder, p: Cut, whole: Bytes, chunk: Bytes)
    requires Agrees(st, p, Drain(whole))
    ensures var (next, q) := Feed(st, chunk);
            Agrees(next, Join(p, q), Drain(whole + chunk))
  {
    DrainAppend(whole, chunk);
    if st.aborted {
      JoinNone(p);
    } else {
      DrainKeepsEveryByte(st.buf + chunk);
    }
  }

  /**
   * However a stream is cut into chunks, the frames, the forwarded bytes and the verdict are those of
   * one pass over the whole stream. The stream is given up only when it is malformed -- never for the
   * size of its buffer, which stays below the cap of one frame.
   */
  lemma {:induction false} ChunkingInvariance(chunks: seq<Bytes>)
    ensures Agrees(FeedAll(chunks).0, FeedAll(chunks).1, Drain(Concat(chunks)))
  {
    if chunks != [] {
      var init := chunks[..|chunks| - 1];
      ChunkingInvariance(init);
      FeedAgrees(FeedAll(init).0, FeedAll(init).1, Concat(init), chunks[|chunks| - 1]);
    }
  }

  /** The reassembler that owns the buffer (the binary same-protocol path of `StreamTranslate::feed`). */
  class StreamTranslate {
    const buf: ByteVec
    var aborted: bool

    constructor ()
      ensures fresh(buf) && State() == Feeder([], false)
    {
      buf := new ByteVec([]);
      aborted := false;
    }

    ghost function State(): Feeder
      reads this, buf
    {
      Feeder(buf.bytes, aborted)
    }

    method FeedChunk(chunk: Bytes) returns (events: seq<Event>, verbatim: Bytes)
      modifies this, buf
      ensures State() == Feed(old(State()), chunk).0
      ensures var cut := Feed(old(State()), chunk).1; events == EventsOf(cut.frames) && verbatim == cut.verbatim
      ensures !old(aborted) && BadPrelude(old(buf.bytes) + chunk) ==> events == [] && verbatim == [] && aborted && buf.bytes == []
    {
      if aborted {
        return [], [];
      }
      buf.bytes := buf.bytes + chunk;
      var out := new ByteVec([]);
      var status, pos;
      events, status, pos := DrainFramesChecked(buf, out);
      verbatim := out.bytes;
      if status == MalformedPrelude || |buf.bytes| > MAX_FRAME_BYTES {
        aborted := true;
        buf.bytes := [];
      }
    }
  }
}
