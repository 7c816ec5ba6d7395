/** The stored payload of a message and its protobuf encoding (`common/msg.proto`). */
module Payload {
  import opened Bytes
  import Sequences

  type Int32 = x: int | -0x8000_0000 <= x < 0x8000_0000

  // DeliveryMode is an open enum: any int32 can arrive on the wire.
  const UNDURABLE: Int32 := 1
  const DURABLE: Int32 := 2

  // The two values of the validity flag, "0" and "1".
  const INVALID: Bytes := [48]
  const VALID: Bytes := [49]

  datatype Properties = Properties(id: Bytes, mode: Int32, routingKey: Bytes)

  datatype Payload = Payload(properties: Properties, body: Bytes, valid: Bytes) {
    function Id(): Bytes { properties.id }

    predicate IsDurable() { properties.mode == DURABLE }

    /** What loading the file keeps: every record whose flag is not "0". */
    predicate IsLive() { valid != INVALID }

    function Invalidated(): Payload { this.(valid := INVALID) }
  }

  const NoProperties := Properties([], 0, [])
  const EmptyPayload := Payload(NoProperties, [], [])

  // Field keys: field number * 8 + wire type.
  const ID_KEY: Byte := 0x0A
  const MODE_KEY: Byte := 0x10
  const ROUTING_KEY_KEY: Byte := 0x1A
  const PROPERTIES_KEY: Byte := 0x0A
  const BODY_KEY: Byte := 0x12
  const VALID_KEY: Byte := 0x1A

  function Delimited(key: Byte, data: Bytes): Bytes {
    [key] + Varint(|data|) + data
  }

  /** A proto3 string field: absent when it holds the default value. */
  function StringField(key: Byte, data: Bytes): Bytes {
    if data == [] then [] else Delimited(key, data)
  }

  /** Negative enum values are sign-extended to 64 bits. */
  function ModeBits(mode: Int32): nat {
    if mode < 0 then mode + 0x1_0000_0000_0000_0000 else mode
  }

  function ModeOfBits(bits: nat): Int32 {
    var low := ToUint32(bits);
    if low >= 0x8000_0000 then low - 0x1_0000_0000 else low
  }

  function ModeField(mode: Int32): Bytes {
    if mode == 0 then [] else [MODE_KEY] + Varint(ModeBits(mode))
  }

  function SerializeProperties(p: Properties): Bytes {
    StringField(ID_KEY, p.id) + (ModeField(p.mode) + StringField(ROUTING_KEY_KEY, p.routingKey))
  }

  function Serialize(p: Payload): Bytes {
    Delimited(PROPERTIES_KEY, SerializeProperties(p.properties))
    + (StringField(BODY_KEY, p.body) + StringField(VALID_KEY, p.valid))
  }

  /**
   * The encoding field by field, with the field numbers of `common/msg.proto`: a key is the number times 8,
   * plus 2 for a length-delimited field and 0 for a varint, and a field with the default value is absent.
   */
  lemma WireFormat(p: Payload)
    ensures var q := p.properties;
            var id := if q.id == [] then [] else [1 * 8 + 2] + Varint(|q.id|) + q.id;
            var mode := if q.mode == 0 then []
                        else [2 * 8] + Varint(if q.mode < 0 then q.mode + 0x1_0000_0000_0000_0000 else q.mode);
            var key := if q.routingKey == [] then [] else [3 * 8 + 2] + Varint(|q.routingKey|) + q.routingKey;
            var body := if p.body == [] then [] else [2 * 8 + 2] + Varint(|p.body|) + p.body;
            var valid := if p.valid == [] then [] else [3 * 8 + 2] + Varint(|p.valid|) + p.valid;
            var properties := id + (mode + key);
            Serialize(p) == [1 * 8 + 2] + Varint(|properties|) + properties + (body + valid)
  {
    hide Varint;
  }

  datatype TakeResult = TakeFailed | Took(data: Bytes, rest: Bytes)

  /** Reads a length and that many bytes. */
  function TakeDelimited(bs: Bytes): (r: TakeResult)
    ensures r.Took? ==> |r.rest| < |bs|
  {
    match ReadVarint(bs)
    case NoVarint => TakeFailed
    case GotVarint(n, rest) => if n <= |rest| then Took(rest[..n], rest[n..]) else TakeFailed
  }

  datatype Parsed<T> = Malformed | Parsed(value: T)

  /** Fields may come in any order; a later one replaces an earlier one. */
  function ParseProperties(bs: Bytes, acc: Properties): Parsed<Properties>
    decreases |bs|
  {
    if bs == [] then Parsed(acc)
    else if bs[0] == MODE_KEY then
      match ReadVarint(bs[1..])
      case NoVarint => Malformed
      case GotVarint(bits, rest) => ParseProperties(rest, acc.(mode := ModeOfBits(bits)))
    else if bs[0] == ID_KEY || bs[0] == ROUTING_KEY_KEY then
      match TakeDelimited(bs[1..])
      case TakeFailed => Malformed
      case Took(data, rest) =>
        ParseProperties(rest, if bs[0] == ID_KEY then acc.(id := data) else acc.(routingKey := data))
    else Malformed
  }

  /** A repeated sub-message field is merged into the earlier one. */
  function ParsePayload(bs: Bytes, acc: Payload): Parsed<Payload>
    decreases |bs|
  {
    if bs == [] then Parsed(acc)
    else
      match TakeDelimited(bs[1..])
      case TakeFailed => Malformed
      case Took(data, rest) =>
        if bs[0] == PROPERTIES_KEY then
          match ParseProperties(data, acc.properties)
          case Malformed => Malformed
          case Parsed(p) => ParsePayload(rest, acc.(properties := p))
        else if bs[0] == BODY_KEY then ParsePayload(rest, acc.(body := data))
        else if bs[0] == VALID_KEY then ParsePayload(rest, acc.(valid := data))
        else Malformed
  }

  function Parse(bs: Bytes): Parsed<Payload> {
    ParsePayload(bs, EmptyPayload)
  }

  lemma TakeDelimitedUndoes(data: Bytes, rest: Bytes)
    ensures TakeDelimited(Varint(|data|) + data + rest) == Took(data, rest)
  {
    Sequences.AppendAssociative(Varint(|data|), data, rest);
    VarintRoundTrip(|data|, data + rest);
    Sequences.TakeDropAppend(data, rest);
  }

  /** A field that is present starts with its key, and its contents can be taken off again. */
  lemma StringFieldTaken(key: Byte, data: Bytes, rest: Bytes)
    requires data != []
    ensures var bs := StringField(key, data) + rest;
            bs != [] && bs[0] == key && TakeDelimited(bs[1..]) == Took(data, rest)
  {
    DropKey(key, Varint(|data|), data, rest);
    TakeDelimitedUndoes(data, rest);
  }

  lemma DropKey(key: Byte, length: Bytes, data: Bytes, rest: Bytes)
    ensures ([key] + length + data + rest)[1..] == length + data + rest
  {
  }

  lemma ModeBitsRoundTrip(mode: Int32)
    ensures ModeOfBits(ModeBits(mode)) == mode
  {
  }

  lemma ModeFieldParses(mode: Int32, rest: Bytes, acc: Properties)
    requires acc.mode == 0
    ensures ParseProperties(ModeField(mode) + rest, acc) == ParseProperties(rest, acc.(mode := mode))
  {
    if mode == 0 {
      assert ModeField(mode) + rest == rest;
    } else {
      Sequences.AppendAssociative([MODE_KEY], Varint(ModeBits(mode)), rest);
      Sequences.TakeDropAppend([MODE_KEY], Varint(ModeBits(mode)) + rest);
      VarintRoundTrip(ModeBits(mode), rest);
      ModeBitsRoundTrip(mode);
    }
  }

  lemma PropertiesStringParses(key: Byte, data: Bytes, rest: Bytes, acc: Properties)
    requires key == ID_KEY || key == ROUTING_KEY_KEY
    requires (if key == ID_KEY then acc.id else acc.routingKey) == []
    ensures ParseProperties(StringField(key, data) + rest, acc)
         == ParseProperties(rest, if key == ID_KEY then acc.(id := data) else acc.(routingKey := data))
  {
    var bs := StringField(key, data) + rest;
    if data == [] {
      assert bs == rest;
    } else {
      StringFieldTaken(key, data, rest);
    }
  }

  lemma PropertiesRoundTrip(p: Properties)
    ensures ParseProperties(SerializeProperties(p), NoProperties) == Parsed(p)
  {
    var tail := StringField(ROUTING_KEY_KEY, p.routingKey);
    PropertiesStringParses(ID_KEY, p.id, ModeField(p.mode) + tail, NoProperties);
    var acc := NoProperties.(id := p.id);
    ModeFieldParses(p.mode, tail, acc);
    acc := acc.(mode := p.mode);
    assert tail == tail + [];
    PropertiesStringParses(ROUTING_KEY_KEY, p.routingKey, [], acc);
  }

  lemma PayloadStringParses(key: Byte, data: Bytes, rest: Bytes, acc: Payload)
    requires key == BODY_KEY || key == VALID_KEY
    requires (if key == BODY_KEY then acc.body else acc.valid) == []
    ensures ParsePayload(StringField(key, data) + rest, acc)
         == ParsePayload(rest, if key == BODY_KEY then acc.(body := data) else acc.(valid := data))
  {
    var bs := StringField(key, data) + rest;
    if data == [] {
      assert bs == rest;
    } else {
      StringFieldTaken(key, data, rest);
    }
  }

  lemma PayloadTailParses(p: Payload)
    ensures ParsePayload(StringField(BODY_KEY, p.body) + StringField(VALID_KEY, p.valid),
                         EmptyPayload.(properties := p.properties))
         == Parsed(p)
  {
    hide StringField, ParsePayload;
    var acc := EmptyPayload.(properties := p.properties);
    var valid := StringField(VALID_KEY, p.valid);
    PayloadStringParses(BODY_KEY, p.body, valid, acc);
    assert valid == valid + [];
    PayloadStringParses(VALID_KEY, p.valid, [], acc.(body := p.body));
    NothingLeft(p);
  }

  lemma NothingLeft(p: Payload)
    ensures ParsePayload([], p) == Parsed(p)
  {
  }

  /** Parsing undoes serializing, for every payload. */
  lemma ParseUndoesSerialize(p: Payload)
    ensures Parse(Serialize(p)) == Parsed(p)
  {
    hide SerializeProperties, StringField, ParseProperties, Varint, ReadVarint;
    var props := SerializeProperties(p.properties);
    var rest := StringField(BODY_KEY, p.body) + StringField(VALID_KEY, p.valid);
    DropKey(PROPERTIES_KEY, Varint(|props|), props, rest);
    TakeDelimitedUndoes(props, rest);
    PropertiesRoundTrip(p.properties);
    PayloadTailParses(p);
  }

  /** Acknowledging rewrites the record in place: the flag "0" takes exactly the room of "1". */
  lemma FlipKeepsLength(p: Payload)
    requires p.valid == VALID
    ensures |Serialize(p.Invalidated())| == |Serialize(p)|
  {
  }
}
