/** Framing of protobuf messages on a connection (`common/codec.cc`). */
module Codec {
  import opened Bytes
  import opened Sequences
  import Adler32

  const HEADER_LEN := 4
  const MIN_MESSAGE_LEN := 2 * HEADER_LEN + 2
  const MAX_MESSAGE_LEN := 64 * 1024 * 1024

  type Int32 = x: int | -0x8000_0000 <= x < 0x8000_0000

  datatype ErrorCode =
    | InvalidLength | CheckSumError | InvalidNameLen | UnknownMessageType | ParseError

  /** A message: the name of its type and its serialized fields. */
  datatype WireMessage = WireMessage(typeName: Bytes, data: Bytes)

  /** The generated message types, and which byte strings parse as which type. */
  datatype Registry = Registry(names: set<Bytes>, accepts: (Bytes, Bytes) -> bool)

  /** The four bytes as a signed 32-bit number in network order. */
  function AsInt32(bs: Bytes): (n: Int32)
    requires |bs| == 4
  {
    PowerOfFour();
    var n := FromBigEndian(bs);
    if n >= 0x8000_0000 then n - 0x1_0000_0000 else n
  }

  lemma PowerOfFour()
    ensures Pow256(4) == 0x1_0000_0000
  {
    assert Pow256(2) == 0x1_0000;
  }

  /** The first byte is the most significant, and its top bit the sign. */
  lemma AsInt32Is(a: Byte, b: Byte, c: Byte, d: Byte)
    ensures AsInt32([a, b, c, d])
         == a * 0x100_0000 + b * 0x1_0000 + c * 0x100 + d - if a >= 128 then 0x1_0000_0000 else 0
  {
    FourBytes(a, b, c, d);
  }

  lemma AsInt32OfSmall(n: nat)
    requires n < 0x8000_0000
    ensures AsInt32(BigEndian(n, 4)) == n
  {
    hide Pow256, FromBigEndian, BigEndian;
    PowerOfFour();
    BigEndianRoundTrip(n, 4);
  }

  lemma AsInt32Injective(a: Bytes, b: Bytes)
    requires |a| == |b| == 4 && AsInt32(a) == AsInt32(b)
    ensures a == b
  {
    hide FromBigEndian;
    FromBigEndianInjective(a, b);
  }

  // The contents of a frame after its length field.

  function Checksummed(m: WireMessage): Bytes {
    BigEndian(|m.typeName| + 1, 4) + (m.typeName + [0] + m.data)
  }

  function Trailer(checksummed: Bytes): (t: Bytes)
    ensures |t| == 4
  {
    BigEndian(Adler32.Checksum(checksummed), 4)
  }

  /** The number of section 8.2 of RFC 1950. */
  function Adler(data: Bytes): nat {
    var n := |data|;
    (n + Adler32.WeightedSum(data, n)) % 65521 * 65536 + (1 + Adler32.Sum(data, n)) % 65521
  }

  /** The trailer is the checksum, most significant byte first, and nothing else reads as the checksum. */
  lemma TrailerIsAdler(data: Bytes, t: Bytes)
    requires |t| == 4
    ensures t == Trailer(data) <==> FromBigEndian(t) == Adler(data)
  {
    hide BigEndian, FromBigEndian, Adler32.Checksum;
    PowerOfFour();
    Adler32.ChecksumIsClosedForm(data);
    BigEndianRoundTrip(Adler32.Checksum(data), 4);
    if FromBigEndian(t) == Adler(data) {
      FromBigEndianInjective(t, Trailer(data));
    }
  }

  function Body(m: WireMessage): Bytes {
    Checksummed(m) + Trailer(Checksummed(m))
  }

  function Frame(m: WireMessage): Bytes {
    BigEndian(|Body(m)|, 4) + Body(m)
  }

  datatype Outcome = Delivered(message: WireMessage) | Failed(error: ErrorCode)

  /** What the decoder makes of the contents of one frame. */
  function ParseBody(reg: Registry, body: Bytes): Outcome
    requires |body| >= MIN_MESSAGE_LEN
  {
    var n := |body| - HEADER_LEN;
    if body[n..] != Trailer(body[..n]) then Failed(CheckSumError)
    else
      var nameLen := AsInt32(body[..4]);
      if nameLen < 2 || nameLen > n - HEADER_LEN then Failed(InvalidNameLen)
      else
        var typeName := body[HEADER_LEN..HEADER_LEN + nameLen - 1];
        var data := body[HEADER_LEN + nameLen..n];
        if typeName !in reg.names then Failed(UnknownMessageType)
        else if !reg.accepts(typeName, data) then Failed(ParseError)
        else Delivered(WireMessage(typeName, data))
  }

  datatype Stop = NeedMore | Error(code: ErrorCode)

  /** Messages taken off a stream, the bytes left in the buffer, and why decoding stopped. */
  datatype Decoded = Decoded(messages: seq<WireMessage>, rest: Bytes, stop: Stop)

  function Prepend(messages: seq<WireMessage>, d: Decoded): Decoded {
    d.(messages := messages + d.messages)
  }

  function Decode(reg: Registry, bytes: Bytes): Decoded
    decreases |bytes|
  {
    if |bytes| < MIN_MESSAGE_LEN + HEADER_LEN then Decoded([], bytes, NeedMore)
    else
      var len := AsInt32(bytes[..4]);
      if len > MAX_MESSAGE_LEN || len < MIN_MESSAGE_LEN then Decoded([], bytes, Error(InvalidLength))
      else if |bytes| < len + HEADER_LEN then Decoded([], bytes, NeedMore)
      else
        match ParseBody(reg, bytes[HEADER_LEN..HEADER_LEN + len])
        case Failed(e) => Decoded([], bytes, Error(e))
        case Delivered(m) => Prepend([m], Decode(reg, bytes[HEADER_LEN + len..]))
  }

  // The code.

  /** muduo's buffer, as the readable bytes. */
  class Buffer {
    var bytes: Bytes

    constructor ()
      ensures bytes == []
    {
      bytes := [];
    }

    method Append(data: Bytes)
      modifies this
      ensures bytes == old(bytes) + data
    {
      bytes := bytes + data;
    }

    /** Writes the low 32 bits in network order. */
    method AppendInt32(n: nat)
      modifies this
      ensures bytes == old(bytes) + BigEndian(n, 4)
    {
      bytes := bytes + BigEndian(n, 4);
    }

    method PrependBytes(data: Bytes)
      modifies this
      ensures bytes == data + old(bytes)
    {
      bytes := data + bytes;
    }

    method Retrieve(n: nat)
      requires n <= |bytes|
      modifies this
      ensures bytes == old(bytes)[n..]
    {
      bytes := bytes[n..];
    }
  }

  /**
   * The parts of a frame, told by their positions: two lengths, the name and a zero byte, the data, and the
   * checksum of everything between the first length and the last four bytes. The lengths are read back as long
   * as they fit 32 bits.
   */
  predicate IsFrameOf(bytes: Bytes, m: WireMessage) {
    var size := |bytes|;
    var nameEnd := 8 + |m.typeName|;
    && size == nameEnd + 1 + |m.data| + 4
    && (size - 4 < 0x1_0000_0000 ==>
          FromBigEndian(bytes[..4]) == size - 4 && FromBigEndian(bytes[4..8]) == |m.typeName| + 1)
    && bytes[8..nameEnd] == m.typeName && bytes[nameEnd] == 0
    && bytes[nameEnd + 1..size - 4] == m.data
    && FromBigEndian(bytes[size - 4..]) == Adler(bytes[4..size - 4])
  }

  lemma BodyParts(m: WireMessage)
    ensures var body, nameLen := Body(m), |m.typeName| + 1;
            var n := |body| - HEADER_LEN;
            && n == HEADER_LEN + nameLen + |m.data|
            && body[n..] == Trailer(body[..n])
            && body[..4] == BigEndian(nameLen, 4)
            && body[HEADER_LEN..HEADER_LEN + nameLen - 1] == m.typeName
            && body[HEADER_LEN + nameLen - 1] == 0
            && body[HEADER_LEN + nameLen..n] == m.data
  {
    hide Trailer, BigEndian;
    var checksummed, name := Checksummed(m), m.typeName + [0];
    TakeDropAppend(checksummed, Trailer(checksummed));
    TakeDropAppend(BigEndian(|name|, 4), name + m.data);
    TakeDropAppend(name, m.data);
    var body, n := Body(m), |checksummed|;
    assert body[..n][..4] == body[..4];
    assert body[4..n] == checksummed[4..] == name + m.data;
    assert body[4 + |name|..n] == body[4..n][|name|..];
    assert body[4..4 + |m.typeName|] == body[4..n][..|name|][..|m.typeName|];
    assert body[4 + |m.typeName|] == body[4..n][|m.typeName|];
  }

  lemma ShiftedSlice(head: Bytes, body: Bytes, i: nat, j: nat)
    requires |head| == 4 && i <= j <= |body|
    ensures (head + body)[4 + i..4 + j] == body[i..j]
  {
  }

  lemma ShiftedEnds(head: Bytes, body: Bytes, i: nat)
    requires |head| == 4 && i < |body|
    ensures (head + body)[..4] == head
    ensures (head + body)[4 + i] == body[i]
    ensures (head + body)[4 + i..] == body[i..]
  {
  }

  lemma FrameIs(m: WireMessage)
    ensures IsFrameOf(Frame(m), m)
  {
    hide Body, Trailer, BigEndian, FromBigEndian, Adler, Pow256;
    var head, body, nameLen := BigEndian(|Body(m)|, 4), Body(m), |m.typeName| + 1;
    var bytes := head + body;
    var n, size := |body| - 4, |bytes|;
    BodyParts(m);
    ShiftedSlice(head, body, 4, 3 + nameLen);
    assert bytes[8..8 + |m.typeName|] == m.typeName;
    ShiftedSlice(head, body, 4 + nameLen, n);
    assert bytes[9 + |m.typeName|..size - 4] == m.data;
    ShiftedEnds(head, body, 3 + nameLen);
    assert bytes[8 + |m.typeName|] == 0;
    ShiftedSlice(head, body, 0, n);
    ShiftedEnds(head, body, n);
    TrailerIsAdler(body[..n], body[n..]);
    assert bytes[4..size - 4] == body[0..n] == body[..n] && bytes[size - 4..] == body[n..];
    assert FromBigEndian(bytes[size - 4..]) == Adler(bytes[4..size - 4]);
    ShiftedSlice(head, body, 0, 4);
    assert bytes[..4] == head && bytes[4..8] == body[0..4] == body[..4];
    LengthsReadBack(|body|, nameLen);
  }

  lemma LengthsReadBack(size: nat, nameLen: nat)
    requires nameLen < size
    ensures size < 0x1_0000_0000 ==>
              FromBigEndian(BigEndian(size, 4)) == size && FromBigEndian(BigEndian(nameLen, 4)) == nameLen
  {
    hide FromBigEndian, BigEndian, Pow256;
    PowerOfFour();
    if size < 0x1_0000_0000 {
      BigEndianRoundTrip(size, 4);
      BigEndianRoundTrip(nameLen, 4);
    }
  }

  /** When a frame's contents pass the checksum, what they say, and when they are refused. */
  predicate IsOutcomeOf(reg: Registry, body: Bytes, r: Outcome)
    requires |body| >= 10
  {
    var n := |body| - 4;
    var nameLen := AsInt32(body[..4]);
    var summed := FromBigEndian(body[n..]) == Adler(body[..n]);
    var named := 2 <= nameLen <= |body| - 8;
    && (r == Failed(CheckSumError) <==> !summed)
    && (r == Failed(InvalidNameLen) <==> summed && !named)
    && (summed && named ==>
          var m := WireMessage(body[4..4 + nameLen - 1], body[4 + nameLen..n]);
          && (r == Failed(UnknownMessageType) <==> m.typeName !in reg.names)
          && (r == Failed(ParseError) <==> m.typeName in reg.names && !reg.accepts(m.typeName, m.data))
          && (r.Delivered? <==> m.typeName in reg.names && reg.accepts(m.typeName, m.data))
          && (r.Delivered? ==> r.message == m))
  }

  lemma ParseBodyIs(reg: Registry, body: Bytes)
    requires |body| >= 10
    ensures IsOutcomeOf(reg, body, ParseBody(reg, body))
  {
    hide Trailer, FromBigEndian, Adler, AsInt32;
    TrailerIsAdler(body[..|body| - 4], body[|body| - 4..]);
  }

  method FillEmptyBuffer(buf: Buffer, message: WireMessage)
    requires buf.bytes == []
    modifies buf
    ensures buf.bytes == Frame(message)
    ensures IsFrameOf(buf.bytes, message)
  {
    hide Adler32.Checksum, BigEndian, IsFrameOf;
    FrameIs(message);
    var nameLen := |message.typeName| + 1;
    buf.AppendInt32(nameLen);
    buf.Append(message.typeName + [0]);
    buf.Append(message.data);
    AppendAssociative(BigEndian(nameLen, 4), message.typeName + [0], message.data);
    assert buf.bytes == Checksummed(message);
    buf.AppendInt32(Adler32.Checksum(buf.bytes));
    buf.PrependBytes(BigEndian(|buf.bytes|, 4));
  }

  method Parse(reg: Registry, buf: Bytes, len: nat) returns (r: Outcome)
    requires MIN_MESSAGE_LEN <= len <= |buf|
    ensures r == ParseBody(reg, buf[..len])
    ensures IsOutcomeOf(reg, buf[..len], r)
  {
    hide Adler32.Checksum, BigEndian, FromBigEndian, Pow256, IsOutcomeOf;
    ParseBodyIs(reg, buf[..len]);
    var n := len - HEADER_LEN;
    var expected := AsInt32(buf[n..len]);
    var checksum := AsInt32(Trailer(buf[..n]));
    assert buf[..len][n..] == buf[n..len] && buf[..len][..n] == buf[..n] && buf[..len][..4] == buf[..4];
    if checksum == expected {
      AsInt32Injective(buf[n..len], Trailer(buf[..n]));
      var nameLen := AsInt32(buf[..4]);
      if nameLen >= 2 && nameLen <= len - 2 * HEADER_LEN {
        var typeName := buf[HEADER_LEN..HEADER_LEN + nameLen - 1];
        assert typeName == buf[..len][HEADER_LEN..HEADER_LEN + nameLen - 1];
        if typeName in reg.names {
          var dataLen := len - nameLen - 2 * HEADER_LEN;
          var start := HEADER_LEN + nameLen;
          var data := buf[start..start + dataLen];
          assert data == buf[..len][start..n];
          if reg.accepts(typeName, data) {
            r := Delivered(WireMessage(typeName, data));
          } else {
            r := Failed(ParseError);
          }
        } else {
          r := Failed(UnknownMessageType);
        }
      } else {
        r := Failed(InvalidNameLen);
      }
    } else {
      r := Failed(CheckSumError);
    }
  }

  /** Takes every complete message off the buffer; stops at the first frame it cannot take. */
  method OnMessage(reg: Registry, buf: Buffer) returns (messages: seq<WireMessage>, stop: Stop)
    modifies buf
    ensures Decoded(messages, buf.bytes, stop) == Decode(reg, old(buf.bytes))
  {
    hide ParseBody;
    messages, stop := [], NeedMore;
    while |buf.bytes| >= MIN_MESSAGE_LEN + HEADER_LEN
      invariant stop == NeedMore
      invariant Prepend(messages, Decode(reg, buf.bytes)) == Decode(reg, old(buf.bytes))
      decreases |buf.bytes|
    {
      var len := AsInt32(buf.bytes[..4]);
      if len > MAX_MESSAGE_LEN || len < MIN_MESSAGE_LEN {
        stop := Error(InvalidLength);
        break;
      } else if |buf.bytes| >= len + HEADER_LEN {
        var r := Parse(reg, buf.bytes[HEADER_LEN..], len);
        assert buf.bytes[HEADER_LEN..][..len] == buf.bytes[HEADER_LEN..HEADER_LEN + len];
        match r {
          case Delivered(m) =>
            AppendAssociative(messages, [m], Decode(reg, buf.bytes[HEADER_LEN + len..]).messages);
            messages := messages + [m];
            buf.Retrieve(HEADER_LEN + len);
          case Failed(e) =>
            stop := Error(e);
            break;
        }
      } else {
        break;
      }
    }
  }
}
