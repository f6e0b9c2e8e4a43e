// The frame encoder, and the round trip through the decoder.

module FrameEncoder {
  import opened Bytes
  import opened Sequences
  import opened Wrappers
  import opened FrameHeaders
  import opened EventTypes
  import opened FrameCodec
  import opened Reassembly

  /** What the gateway sends: an event, or a modeled exception with its JSON body already rendered. */
  datatype Outgoing = Plain(eventType: Str, payload: Bytes) | Failure(exceptionType: Str, payload: Bytes)
  {
    function Name(): Bytes
    {
      match this case Plain(t, _) => t case Failure(t, _) => t
    }
  }

  ghost function Text(name: Bytes, value: Bytes): Header { Header(name, TYPE_STRING, value) }

  ghost function HeadersOf(m: Outgoing): (hs: seq<Header>)
    requires |m.Name()| <= 0xFFFF
    ensures AllWellFormed(hs)
  {
    match m
    case Plain(t, _) => [Text(EVENT_TYPE, t), Text(CONTENT_TYPE, APPLICATION_JSON), Text(MESSAGE_TYPE, EVENT)]
    case Failure(t, _) => [Text(EXCEPTION_TYPE, t), Text(CONTENT_TYPE, APPLICATION_JSON), Text(MESSAGE_TYPE, EXCEPTION)]
  }

  /** The messages that fit: a type name of a u16 length, and a frame within the cap. */
  ghost predicate Encodable(m: Outgoing)
  {
    |m.Name()| <= 0xFFFF && MIN_FRAME_BYTES + |EncodeAll(HeadersOf(m))| + |m.payload| <= MAX_FRAME_BYTES
  }

  /** The layout of one frame: true lengths, and each checksum over the bytes it covers. */
  ghost predicate IsFrame(crc: Checksum, f: Bytes, headers: Bytes, payload: Bytes)
  {
    var h, n := PRELUDE_LEN + |headers|, |f| - CRC_BYTES;
    && |f| == MIN_FRAME_BYTES + |headers| + |payload|
    && Number(f[..4]) == |f| && Number(f[4..8]) == |headers|
    && Number(f[8..PRELUDE_LEN]) == crc(f[..8])
    && f[PRELUDE_LEN..h] == headers && f[h..n] == payload
    && Number(f[n..]) == crc(f[..n])
  }

  /** What one call emits: one frame, or nothing at all for a message that does not fit. */
  ghost predicate Emitted(crc: Checksum, m: Outgoing, f: Bytes)
  {
    if Encodable(m) then IsFrame(crc, f, EncodeAll(HeadersOf(m)), m.payload) && |f| <= MAX_FRAME_BYTES else f == []
  }

  lemma HeaderLength(name: Bytes, value: Bytes)
    requires |name| <= 0xFF && |value| <= 0xFFFF
    ensures |Encode(Text(name, value))| == 4 + |name| + |value|
  {
  }

  /** What fits, in bytes: the fixed parts of a frame take 86, or 94 for an exception. */
  lemma EncodableExactly(m: Outgoing)
    ensures Encodable(m) <==>
            && |m.Name()| <= 65535
            && (if m.Plain? then 86 else 94) + |m.Name()| + |m.payload| <= 16_777_216
  {
    if |m.Name()| <= 0xFFFF {
      var hs := HeadersOf(m);
      assert hs == [hs[0], hs[1], hs[2]];
      ThreeHeaders([], hs[0], hs[1], hs[2]);
      HeaderLength(hs[0].name, hs[0].value);
      HeaderLength(hs[1].name, hs[1].value);
      HeaderLength(hs[2].name, hs[2].value);
    }
  }

  method FrameOpen() returns (frame: ByteVec)
    ensures fresh(frame) && |frame.bytes| == PRELUDE_LEN && forall i | 0 <= i < PRELUDE_LEN :: frame.bytes[i] == 0
  {
    frame := new ByteVec([0, 0, 0, 0, 0, 0, 0, 0, 0, 0, 0, 0]);
  }

  /** Append one string header, or nothing when a length does not fit its prefix. */
  method PushStringHeader(headers: ByteVec, name: Bytes, value: Bytes) returns (ok: bool)
    modifies headers
    ensures ok <==> |name| <= 0xFF && |value| <= 0xFFFF
    ensures headers.bytes == old(headers.bytes) + if ok then Encode(Text(name, value)) else []
  {
    if |name| > 0xFF || |value| > 0xFFFF {
      return false;
    }
    ghost var before := headers.bytes;
    headers.bytes := headers.bytes + [|name|];
    headers.bytes := headers.bytes + name;
    headers.bytes := headers.bytes + [TYPE_STRING];
    headers.bytes := headers.bytes + BigEndian16(|value|);
    headers.bytes := headers.bytes + value;
    AppendHeaderParts(before, Text(name, value));
    ok := true;
  }

  lemma AppendHeaderParts(before: Bytes, h: Header)
    requires WellFormed(h) && Variable(h.valueType)
    ensures before + [|h.name|] + h.name + [h.valueType] + BigEndian16(|h.value|) + h.value == before + Encode(h)
  {
  }

  lemma ThreeHeaders(before: Bytes, a: Header, b: Header, c: Header)
    requires AllWellFormed([a, b, c])
    ensures before + Encode(a) + Encode(b) + Encode(c) == before + EncodeAll([a, b, c])
  {
    assert [a, b, c][1..] == [b, c] && [b, c][1..] == [c] && [c][1..] == [];
    assert EncodeAll([c]) == Encode(c) + [];
    Associative(before, Encode(a), Encode(b) + Encode(c));
    Associative(before + Encode(a), Encode(b), Encode(c));
  }

  /** Fill in the prelude, append the payload and the message checksum. */
  method FrameClose(crc: Checksum, buffer: ByteVec, payload: Bytes, ghost headers: Bytes) returns (r: Bytes)
    requires |buffer.bytes| >= PRELUDE_LEN && buffer.bytes[PRELUDE_LEN..] == headers
    modifies buffer
    ensures if MIN_FRAME_BYTES + |headers| + |payload| > MAX_FRAME_BYTES then r == []
            else IsFrame(crc, r, headers, payload)
  {
    var headersLen := |buffer.bytes| - PRELUDE_LEN;
    var totalLen := PRELUDE_LEN + headersLen + |payload| + CRC_BYTES;
    if totalLen > MAX_FRAME_BYTES {
      return [];
    }
    var frame := buffer.bytes;
    frame := BigEndian32(totalLen) + frame[4..];
    frame := frame[..4] + BigEndian32(headersLen) + frame[8..];
    ghost var lengths := frame[..8];
    frame := frame[..8] + BigEndian32(crc(frame[..8])) + frame[12..];
    assert frame[..8] == lengths;
    assert frame[PRELUDE_LEN..] == headers;
    frame := frame + payload;
    assert frame[..8] == lengths;
    buffer.bytes := frame + BigEndian32(crc(frame));
    r := buffer.bytes;
    PreludeHolds(crc, frame, r, totalLen, headersLen, headers, payload);
  }

  lemma PreludeHolds(crc: Checksum, frame: Bytes, r: Bytes, totalLen: nat, headersLen: nat, headers: Bytes, payload: Bytes)
    requires |headers| == headersLen && totalLen == MIN_FRAME_BYTES + headersLen + |payload| <= MAX_FRAME_BYTES
    requires |frame| == totalLen - CRC_BYTES && r == frame + BigEndian32(crc(frame))
    requires frame[..4] == BigEndian32(totalLen) && frame[4..8] == BigEndian32(headersLen)
    requires frame[8..PRELUDE_LEN] == BigEndian32(crc(frame[..8]))
    requires frame[PRELUDE_LEN..] == headers + payload
    ensures IsFrame(crc, r, headers, payload)
  {
    var h := PRELUDE_LEN + headersLen;
    assert r[..4] == frame[..4] && r[4..8] == frame[4..8] && r[8..PRELUDE_LEN] == frame[8..PRELUDE_LEN] && r[..8] == frame[..8];
    assert r[PRELUDE_LEN..h] == (headers + payload)[..headersLen];
    assert r[h..|frame|] == (headers + payload)[headersLen..];
    assert r[|frame|..] == BigEndian32(crc(frame)) && r[..|frame|] == frame;
  }

  /** The three pushes of an encoder, each only if those before it succeeded. */
  method PushHeaders(frame: ByteVec, typeName: Bytes, typeValue: Bytes, messageType: Bytes) returns (ok: bool)
    requires |typeName| <= 0xFF && |messageType| <= 0xFFFF
    modifies frame
    ensures ok <==> |typeValue| <= 0xFFFF
    ensures ok ==> frame.bytes == old(frame.bytes)
                    + EncodeAll([Text(typeName, typeValue), Text(CONTENT_TYPE, APPLICATION_JSON), Text(MESSAGE_TYPE, messageType)])
  {
    ghost var before := frame.bytes;
    ok := PushStringHeader(frame, typeName, typeValue);
    if ok {
      ok := PushStringHeader(frame, CONTENT_TYPE, APPLICATION_JSON);
    }
    if ok {
      ok := PushStringHeader(frame, MESSAGE_TYPE, messageType);
    }
    if ok {
      ThreeHeaders(before, Text(typeName, typeValue), Text(CONTENT_TYPE, APPLICATION_JSON), Text(MESSAGE_TYPE, messageType));
    }
  }

  /** `encode_frame` and `encode_exception_frame`, which differ in two header literals. */
  method EncodeFrame(crc: Checksum, m: Outgoing) returns (r: Bytes)
    ensures Emitted(crc, m, r)
  {
    var frame := FrameOpen();
    ghost var prelude := frame.bytes;
    var ok;
    match m {
      case Plain(eventType, _) => ok := PushHeaders(frame, EVENT_TYPE, eventType, EVENT);
      case Failure(exceptionType, _) => ok := PushHeaders(frame, EXCEPTION_TYPE, exceptionType, EXCEPTION);
    }
    if !ok {
      return [];
    }
    ghost var block := EncodeAll(HeadersOf(m));
    assert frame.bytes == prelude + block;
    r := FrameClose(crc, frame, m.payload, block);
  }

  // ---------------------------------------------------------------------------------------------
  // Round trip

  /** The event-type token a message is announced under on the other side. */
  ghost function TokenOf(m: Outgoing): Bytes
  {
    match m case Plain(t, _) => t case Failure(t, _) => Normalize(t)
  }

  ghost function Announced(ms: seq<Outgoing>): seq<Event>
  {
    if ms == [] then []
    else
      var m := ms[|ms| - 1];
      Announced(ms[..|ms| - 1]) + if Encodable(m) then [Event(TokenOf(m), m.payload)] else []
  }

  ghost function Pick(a: Header, c: Header, name: Bytes): Option<Bytes>
  {
    if c.name == name then Some(c.value) else if a.name == name then Some(a.value) else None
  }

  lemma LastOfThree(a: Header, b: Header, c: Header, name: Bytes)
    requires Variable(a.valueType) && ValidUtf8(a.value) && Variable(c.valueType) && ValidUtf8(c.value)
    requires b.name != name
    ensures LastText([a, b, c], name) == Pick(a, c, name)
  {
    assert [a, b, c] == [] + [a] + [b] + [c];
    LastTextSnoc([], a, name);
    LastTextSnoc([] + [a], b, name);
    LastTextSnoc([] + [a] + [b], c, name);
  }

  lemma NamesDiffer()
    ensures CONTENT_TYPE != EVENT_TYPE && CONTENT_TYPE != MESSAGE_TYPE && CONTENT_TYPE != EXCEPTION_TYPE
    ensures EVENT_TYPE != MESSAGE_TYPE && EVENT_TYPE != EXCEPTION_TYPE && MESSAGE_TYPE != EXCEPTION_TYPE
    ensures EVENT != EXCEPTION
  {
    assert CONTENT_TYPE[1] != MESSAGE_TYPE[1];
  }

  lemma TokenIsFound(typeName: Bytes, t: Str, messageType: Str)
    requires |t| <= 0xFFFF && |messageType| <= 0xFFFF
    ensures var found := Summary([Text(typeName, t), Text(CONTENT_TYPE, APPLICATION_JSON), Text(MESSAGE_TYPE, messageType)]);
            && found.messageType == Some(messageType)
            && (typeName == EVENT_TYPE ==> found.eventType == Some(t) && found.exceptionType == None)
            && (typeName == EXCEPTION_TYPE ==> found.exceptionType == Some(t))
  {
    NamesDiffer();
    var a, b, c := Text(typeName, t), Text(CONTENT_TYPE, APPLICATION_JSON), Text(MESSAGE_TYPE, messageType);
    LastOfThree(a, b, c, EVENT_TYPE);
    LastOfThree(a, b, c, MESSAGE_TYPE);
    LastOfThree(a, b, c, EXCEPTION_TYPE);
  }

  lemma HeadersAreFound(m: Outgoing)
    requires |m.Name()| <= 0xFFFF
    ensures EventTypeOf(Summary(HeadersOf(m))) == TokenOf(m)
  {
    AsciiIsUtf8(EVENT);
    AsciiIsUtf8(EXCEPTION);
    NamesDiffer();
    match m
    case Plain(t, _) => TokenIsFound(EVENT_TYPE, t, EVENT);
    case Failure(t, _) => TokenIsFound(EXCEPTION_TYPE, t, EXCEPTION);
  }

  /** The header block of an emitted frame, and its payload, by its own lengths. */
  lemma EmittedFrameParts(crc: Checksum, m: Outgoing, f: Bytes)
    requires Encodable(m) && Emitted(crc, m, f)
    ensures 12 + Number(f[4..8]) <= |f| - 4
    ensures f[12..12 + Number(f[4..8])] == EncodeAll(HeadersOf(m)) && f[12 + Number(f[4..8])..|f| - 4] == m.payload
  {
  }

  /** That block reads as three string headers, which say what the message is. */
  lemma EmittedFrameSays(m: Outgoing)
    requires Encodable(m)
    ensures ReadBlock(EncodeAll(HeadersOf(m))).0 ==
            match m
            case Plain(t, _) =>
              [Header(EVENT_TYPE, 7, t), Header(CONTENT_TYPE, 7, APPLICATION_JSON), Header(MESSAGE_TYPE, 7, EVENT)]
            case Failure(t, _) =>
              [Header(EXCEPTION_TYPE, 7, t), Header(CONTENT_TYPE, 7, APPLICATION_JSON), Header(MESSAGE_TYPE, 7, EXCEPTION)]
  {
    PrintedBlockReads(HeadersOf(m));
  }

  /** Whatever follows it, a frame is cut off whole. */
  lemma FrameIsDrained(crc: Checksum, m: Outgoing, f: Bytes)
    requires Encodable(m) && Emitted(crc, m, f)
    ensures exists frame: Frame ::
              && Drain(f) == Drained(Cut([frame], f), Ok, [])
              && EventOf(frame) == Event(TokenOf(m), m.payload)
  {
    var block := EncodeAll(HeadersOf(m));
    var frame := Frame(block, m.payload);
    assert FrontOf(f) == Complete(|f|, |block|);
    assert FrameOf(f, |f|, |block|) == frame;
    assert f[|f|..] == [] && f[..|f|] == f;
    assert FrontOf([]) == Partial;
    assert Drain(f) == After(Cut([frame], f), Drain([]));
    JoinNone(Cut([frame], f));
    PrintedBlockReads(HeadersOf(m));
    HeadersAreFound(m);
    assert EventOf(frame) == Event(TokenOf(m), m.payload);
  }

  /**
   * Draining everything that was emitted gives back, in order, the messages that were encodable, each
   * under its own name (exceptions under the normalized one), with nothing left over.
   */
  lemma {:induction false} RoundTrip(crc: Checksum, ms: seq<Outgoing>, fs: seq<Bytes>)
    requires |fs| == |ms| && forall i | 0 <= i < |ms| :: Emitted(crc, ms[i], fs[i])
    ensures var d := Drain(Concat(fs));
            d.status == Ok && d.rest == [] && EventsOf(d.cut.frames) == Announced(ms)
  {
    if ms != [] {
      var n := |ms| - 1;
      RoundTrip(crc, ms[..n], fs[..n]);
      var d := Drain(Concat(fs[..n]));
      DrainAppend(Concat(fs[..n]), fs[n]);
      assert [] + fs[n] == fs[n];
      if Encodable(ms[n]) {
        FrameIsDrained(crc, ms[n], fs[n]);
        var frame: Frame :| Drain(fs[n]) == Drained(Cut([frame], fs[n]), Ok, []) && EventOf(frame) == Event(TokenOf(ms[n]), ms[n].payload);
        EventsOfSnoc(d.cut.frames, frame);
      } else {
        JoinNone(d.cut);
      }
    }
  }
}
