/** What the framing guarantees: lossless, independent of how the stream is cut, and guarded by its checksum. */
module CodecProperties {
  import opened Bytes
  import opened Codec
  import opened Sequences
  import Adler32

  // Cutting the stream.

  lemma SlicesOfAppend(a: Bytes, b: Bytes, end: nat)
    requires HEADER_LEN <= end <= |a|
    ensures (a + b)[..HEADER_LEN] == a[..HEADER_LEN]
    ensures (a + b)[HEADER_LEN..end] == a[HEADER_LEN..end]
    ensures (a + b)[end..] == a[end..] + b
  {
  }

  lemma StoppedAtOnce(reg: Registry, a: Bytes)
    requires Decode(reg, a).messages == []
    ensures Decode(reg, a).rest == a
  {
  }

  /** Decoding a longer stream goes on where decoding its beginning stopped. */
  lemma {:induction false} DecodeContinues(reg: Registry, a: Bytes, b: Bytes)
    ensures Decode(reg, a + b) == Prepend(Decode(reg, a).messages, Decode(reg, Decode(reg, a).rest + b))
    decreases |a|
  {
    hide ParseBody, AsInt32;
    if Decode(reg, a).messages == [] {
      StoppedAtOnce(reg, a);
    } else {
      var end := HEADER_LEN + AsInt32(a[..4]);
      SlicesOfAppend(a, b, end);
      DecodeContinues(reg, a[end..], b);
      var m := Decode(reg, a).messages[0];
      AppendAssociative([m], Decode(reg, a[end..]).messages, Decode(reg, Decode(reg, a).rest + b).messages);
    }
  }

  /** Once a frame fails, nothing after it is ever delivered: the bytes pile up behind it. */
  lemma ErrorIsAbsorbing(reg: Registry, a: Bytes, b: Bytes)
    requires Decode(reg, a).stop.Error?
    ensures var d := Decode(reg, a);
            Decode(reg, a + b) == Decoded(d.messages, d.rest + b, d.stop)
  {
    DecodeContinues(reg, a, b);
    FailedHeadStays(reg, a, b);
  }

  lemma {:induction false} FailedHeadStays(reg: Registry, a: Bytes, b: Bytes)
    requires Decode(reg, a).stop.Error?
    ensures var d := Decode(reg, a);
            Decode(reg, d.rest + b) == Decoded([], d.rest + b, d.stop)
    decreases |a|
  {
    hide ParseBody, AsInt32;
    if Decode(reg, a).messages != [] {
      FailedHeadStays(reg, a[HEADER_LEN + AsInt32(a[..4])..], b);
    } else {
      SlicesOfAppend(a, b, HEADER_LEN);
      var len := AsInt32(a[..4]);
      if MIN_MESSAGE_LEN <= len <= MAX_MESSAGE_LEN {
        SlicesOfAppend(a, b, HEADER_LEN + len);
      }
    }
  }

  /** Successive reads: each appends a chunk to what was left and decodes; the deliveries add up. */
  function Receive(reg: Registry, buffered: Bytes, chunks: seq<Bytes>): Decoded
    decreases |chunks|
  {
    if chunks == [] then Decode(reg, buffered)
    else
      var d := Decode(reg, buffered + chunks[0]);
      Prepend(d.messages, Receive(reg, d.rest, chunks[1..]))
  }

  function Concat(chunks: seq<Bytes>): Bytes {
    if chunks == [] then [] else chunks[0] + Concat(chunks[1..])
  }

  /** However the bytes are cut into reads, the deliveries, the leftover and the error are the same. */
  lemma {:induction false} ChunkingDoesNotMatter(reg: Registry, buffered: Bytes, chunks: seq<Bytes>)
    ensures Receive(reg, buffered, chunks) == Decode(reg, buffered + Concat(chunks))
    decreases |chunks|
  {
    hide Decode;
    if chunks == [] {
      assert buffered + Concat(chunks) == buffered;
    } else {
      var d := Decode(reg, buffered + chunks[0]);
      ChunkingDoesNotMatter(reg, d.rest, chunks[1..]);
      DecodeContinues(reg, buffered + chunks[0], Concat(chunks[1..]));
      AppendAssociative(buffered, chunks[0], Concat(chunks[1..]));
    }
  }

  /** The length field of the frame at the head is refused exactly when it is below 10 or above 64 MiB. */
  lemma HeadIsRefusedIff(reg: Registry, bytes: Bytes)
    ensures |bytes| < 14 ==> Decode(reg, bytes) == Decoded([], bytes, NeedMore)
    ensures |bytes| >= 14 ==>
              var len := AsInt32(bytes[..4]);
              && (Decode(reg, bytes) == Decoded([], bytes, Error(InvalidLength)) <==> len < 10 || len > 67108864)
              && (10 <= len <= 67108864 && |bytes| < len + 4 ==> Decode(reg, bytes) == Decoded([], bytes, NeedMore))
  {
    hide AsInt32;
    if |bytes| >= 14 {
      var len := AsInt32(bytes[..4]);
      if 10 <= len <= 67108864 && |bytes| >= len + 4 {
        ParseBodyIs(reg, bytes[4..4 + len]);
      }
    }
  }

  // Round trip.

  /** What a message needs to get through: a registered, non-empty type name, parsable data, and a frame that fits. */
  predicate Deliverable(reg: Registry, m: WireMessage) {
    m.typeName != [] && m.typeName in reg.names && reg.accepts(m.typeName, m.data) && |Body(m)| <= MAX_MESSAGE_LEN
  }

  lemma FrameParts(m: WireMessage, rest: Bytes)
    ensures var bytes, end := Frame(m) + rest, HEADER_LEN + |Body(m)|;
            && bytes[..4] == BigEndian(|Body(m)|, 4)
            && bytes[HEADER_LEN..end] == Body(m) && bytes[end..] == rest
  {
    hide Body, BigEndian;
    AppendAssociative(BigEndian(|Body(m)|, 4), Body(m), rest);
    TakeDropAppend(BigEndian(|Body(m)|, 4), Body(m) + rest);
    TakeDropAppend(Frame(m), rest);
  }

  /** Parsing what was encoded gives the message back, or the error that says what is wrong with it. */
  lemma ParseUndoesEncode(reg: Registry, m: WireMessage)
    requires |Body(m)| < 0x8000_0000 && |Body(m)| >= MIN_MESSAGE_LEN
    ensures ParseBody(reg, Body(m))
         == if m.typeName == [] then Failed(InvalidNameLen)
            else if m.typeName !in reg.names then Failed(UnknownMessageType)
            else if !reg.accepts(m.typeName, m.data) then Failed(ParseError)
            else Delivered(m)
  {
    hide Body, Trailer, AsInt32, BigEndian;
    BodyParts(m);
    AsInt32OfSmall(|m.typeName| + 1);
  }

  /** The error a message that is not deliverable ends in. */
  function Rejection(reg: Registry, m: WireMessage): ErrorCode {
    if |Body(m)| > MAX_MESSAGE_LEN || |Body(m)| < MIN_MESSAGE_LEN then InvalidLength
    else if m.typeName == [] then InvalidNameLen
    else if m.typeName !in reg.names then UnknownMessageType
    else ParseError
  }

  function AfterFrame(reg: Registry, m: WireMessage, rest: Bytes): Decoded {
    var bytes := Frame(m) + rest;
    if Deliverable(reg, m) then Prepend([m], Decode(reg, rest))
    else if |bytes| < MIN_MESSAGE_LEN + HEADER_LEN then Decoded([], bytes, NeedMore)
    else Decoded([], bytes, Error(Rejection(reg, m)))
  }

  /**
   * A frame at the head of a stream is delivered exactly when its message is deliverable, and decoding then
   * goes on behind it; otherwise nothing is delivered, no byte is taken off, and the error says why (a frame
   * too short to be looked at waits for more bytes first).
   */
  lemma FrameIsDeliveredIff(reg: Registry, m: WireMessage, rest: Bytes)
    requires |Body(m)| < 0x8000_0000
    ensures Decode(reg, Frame(m) + rest) == AfterFrame(reg, m, rest)
  {
    hide Body, AsInt32, BigEndian, ParseBody;
    FrameParts(m, rest);
    BodyParts(m);
    AsInt32OfSmall(|Body(m)|);
    if |Body(m)| >= MIN_MESSAGE_LEN {
      ParseUndoesEncode(reg, m);
    }
  }

  function Frames(ms: seq<WireMessage>): seq<Bytes> {
    if ms == [] then [] else [Frame(ms[0])] + Frames(ms[1..])
  }

  /** A stream of frames is delivered as exactly the list that was sent, with nothing left over. */
  lemma {:induction false} StreamRoundTrip(reg: Registry, ms: seq<WireMessage>)
    requires forall m :: m in ms ==> Deliverable(reg, m)
    ensures Decode(reg, Concat(Frames(ms))) == Decoded(ms, [], NeedMore)
  {
    hide Frame, Deliverable;
    if ms != [] {
      assert ms == [ms[0]] + ms[1..] && ms[0] in ms;
      StreamRoundTrip(reg, ms[1..]);
      DeliverableIsSmall(reg, ms[0]);
      FrameIsDeliveredIff(reg, ms[0], Concat(Frames(ms[1..])));
      assert Frames(ms)[0] == Frame(ms[0]) && Frames(ms)[1..] == Frames(ms[1..]);
    }
  }

  lemma DeliverableIsSmall(reg: Registry, m: WireMessage)
    requires Deliverable(reg, m)
    ensures |Body(m)| < 0x8000_0000
  {
  }

  // The checksum.

  /** Contents whose trailing checksum matches. */
  predicate Intact(body: Bytes) {
    |body| >= MIN_MESSAGE_LEN && body[|body| - HEADER_LEN..] == Trailer(body[..|body| - HEADER_LEN])
  }

  lemma TrailerInjective(a: Bytes, b: Bytes)
    requires Trailer(a) == Trailer(b)
    ensures Adler32.Checksum(a) == Adler32.Checksum(b)
  {
    hide Adler32.Checksum, BigEndian, FromBigEndian, Pow256;
    PowerOfFour();
    Adler32.ChecksumIsClosedForm(a);
    Adler32.ChecksumIsClosedForm(b);
    BigEndianRoundTrip(Adler32.Checksum(a), 4);
    BigEndianRoundTrip(Adler32.Checksum(b), 4);
  }

  /** Changing any one byte after the length field of an intact frame is reported as a checksum error. */
  lemma ChangedByteIsDetected(reg: Registry, body: Bytes, i: nat, y: Byte)
    requires Intact(body) && i < |body| && y != body[i]
    ensures ParseBody(reg, body[i := y]) == Failed(CheckSumError)
  {
    hide Trailer, Adler32.Checksum;
    var n, bad := |body| - HEADER_LEN, body[i := y];
    if i < n {
      assert bad[n..] == body[n..];
      assert bad[..n] == body[..n][i := y];
      Adler32.OneByteChangesChecksum(body[..n], i, y);
      if bad[n..] == Trailer(bad[..n]) {
        TrailerInjective(bad[..n], body[..n]);
      }
    } else {
      assert bad[..n] == body[..n];
      assert bad[n..][i - n] == y && body[n..][i - n] == body[i];
    }
  }

  /** Swapping two adjacent, different bytes of the checksummed part is reported as a checksum error. */
  lemma SwappedBytesAreDetected(reg: Registry, body: Bytes, i: nat)
    requires Intact(body) && i + 1 < |body| - HEADER_LEN && body[i] != body[i + 1]
    ensures ParseBody(reg, body[i := body[i + 1]][i + 1 := body[i]]) == Failed(CheckSumError)
  {
    hide Trailer, Adler32.Checksum;
    var n, bad := |body| - HEADER_LEN, body[i := body[i + 1]][i + 1 := body[i]];
    assert bad[n..] == body[n..];
    assert bad[..n] == body[..n][i := body[..n][i + 1]][i + 1 := body[..n][i]];
    Adler32.SwapChangesChecksum(body[..n], i);
    if bad[n..] == Trailer(bad[..n]) {
      TrailerInjective(bad[..n], body[..n]);
    }
  }

  /** On a connection, a frame damaged in one byte stops the stream for good, whatever follows it. */
  lemma DamagedFrameStopsStream(reg: Registry, m: WireMessage, i: nat, y: Byte, rest: Bytes)
    requires Deliverable(reg, m) && i < |Body(m)| && y != Body(m)[i]
    ensures var bad := BigEndian(|Body(m)|, 4) + Body(m)[i := y] + rest;
            Decode(reg, bad) == Decoded([], bad, Error(CheckSumError))
  {
    hide Body, AsInt32, BigEndian, ParseBody, Trailer;
    var body, header := Body(m)[i := y], BigEndian(|Body(m)|, 4);
    BodyParts(m);
    DeliverableIsSmall(reg, m);
    AsInt32OfSmall(|Body(m)|);
    ChangedByteIsDetected(reg, Body(m), i, y);
    AppendAssociative(header, body, rest);
    TakeDropAppend(header, body + rest);
    var bad := header + body + rest;
    assert bad[HEADER_LEN..HEADER_LEN + |body|] == body;
  }
}
