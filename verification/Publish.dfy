/**
 PUBLISH (MQTT v5.0, section 3.3; rust-mqtt/src/packet/v5/publish_packet.rs).
 */
module Publishes {
  import opened Base
  import opened VarInt
  import opened Types
  import opened Lists
  import opened Properties
  import opened BuffWriters
  import opened BuffReaders
  import opened Packets

  datatype Publish = Publish(
    fixedHeader: byte,
    remainLen: u32,
    topicName: EncodedString,
    packetIdentifier: u16,
    propertyLen: u32,
    properties: seq<Property>,
    message: Option<Slice>)

  const NEW_PUBLISH := Publish(0x30, 0, NO_STRING, 1, 0, [], None)

  /** The packet that `send_message` builds. */
  function Outgoing(topic: seq<byte>, message: Slice, q: QualityOfService, retain: bool, identifier: u16): Publish {
    var header := OrQos(0x30, q);
    NEW_PUBLISH.(
      fixedHeader := if retain then SetBit(header, 1) else header,
      topicName := FromText(topic),
      packetIdentifier := identifier,
      message := Some(message))
  }

  function IdentifierBytes(p: Publish): seq<byte> {
    if QosBits(p.fixedHeader) != 0 then BE16(p.packetIdentifier) else []
  }

  /** The remaining length as `encode` adds it up. */
  function Remaining(p: Publish): (n: nat)
    requires p.message.Some? && p.propertyLen <= MAX_ENCODABLE
    ensures n < U32_MOD
  {
    VbiWidth(p.propertyLen);
    p.propertyLen + |Vbi(p.propertyLen)| + |p.message.value| + p.topicName.len + 2
      + if QosBits(p.fixedHeader) != 0 then 2 else 0
  }

  /** Topic, identifier and properties (section 3.3.2). */
  function VariableHeader(p: Publish): seq<byte> {
    StringBytes(p.topicName) + IdentifierBytes(p) + Vbi(p.propertyLen) + PropsBytes(p.properties)
  }

  /** Everything after the remaining length. */
  function Body(p: Publish): seq<byte>
    requires p.message.Some?
  {
    VariableHeader(p) + p.message.value
  }

  function Bytes(p: Publish): seq<byte>
    requires p.message.Some? && p.propertyLen <= MAX_ENCODABLE
  {
    [p.fixedHeader] + Vbi(Remaining(p)) + Body(p)
  }

  /** Nothing in the packet makes `encode` fail before it runs out of buffer. */
  ghost predicate Encodable(p: Publish) {
    && p.propertyLen <= MAX_ENCODABLE && p.message.Some? && Remaining(p) <= MAX_ENCODABLE
    && StringCovered(p.topicName) && All(Writable, p.properties)
  }

  /** The announced property length is the real one, and so is every declared length. */
  ghost predicate Sound(p: Publish) {
    && Encodable(p) && ExactString(p.topicName) && All(Exact, p.properties)
    && p.propertyLen == |PropsBytes(p.properties)|
  }

  /** Everything `decode` reads before the message, and where the message starts. */
  function HeadAt(s: seq<byte>, pos: nat, prior: Publish, cap: nat): (r: Read<Publish>)
    ensures r.Ok? ==> r.value.1 <= |s| && r.value.0.remainLen <= MAX_ENCODABLE
  {
    var ((header, remaining), q) :- HeaderAt(s, pos);
    if TypeOf(header) != PublishType then Err(PacketTypeMismatch)
    else
      var (topic, q) :- StringAt(s, q);
      var (identifier, q) :- if QosBits(header) != 0 then U16At(s, q) else Ok((prior.packetIdentifier, q));
      var ((propertyLen, properties), q) :- PropsAt(s, q);
      Ok((Publish(header, remaining, topic, identifier, propertyLen, Keep(prior.properties + properties, cap),
          prior.message), q))
  }

  /** `decode` from position `pos`, into a packet whose fields are `prior`. */
  function DecodeAt(s: Slice, pos: nat, prior: Publish, cap: nat): (r: Result<Publish, BufferError>)
    ensures r.Ok? ==> r.value.message.Some?
  {
    var (p, q) :- HeadAt(s, pos, prior, cap);
    var message :- MessageAt(s, q, AssumedEnd(p.remainLen));
    Ok(p.(message := Some(message)))
  }

  // ---------------------------------------------------------------- the theorems

  /** Conservation: the remaining length that was added up is the number of bytes that follow it. */
  lemma IsFrame(p: Publish)
    requires Encodable(p) && p.propertyLen == |PropsBytes(p.properties)|
    ensures Remaining(p) == |Body(p)| && Bytes(p) == Frame(p.fixedHeader, Body(p))
  {
    hide Vbi, StringBytes, PropsBytes, QosBits, BE16, Writable, ValidUtf8;
  }

  /** What `decode` gives back: everything, with properties beyond the vector's capacity dropped. */
  function Received(p: Publish, cap: nat): Publish
    requires p.message.Some? && p.propertyLen <= MAX_ENCODABLE
  {
    p.(remainLen := Remaining(p),
       packetIdentifier := if QosBits(p.fixedHeader) != 0 then p.packetIdentifier else 1,
       properties := Keep(p.properties, cap))
  }

  /** Where the property block lies. */
  function BlockStart(p: Publish): nat
    requires p.message.Some?
  {
    1 + |Vbi(|Body(p)|)| + |StringBytes(p.topicName)| + |IdentifierBytes(p)|
  }

  /** Up to the property block everything is read back, binary data or not. */
  lemma HeadUpToBlock(s: seq<byte>, p: Publish, cap: nat)
    requires Sound(p) && TypeOf(p.fixedHeader) == PublishType && At(s, 0, Bytes(p))
    ensures At(s, BlockStart(p), Vbi(p.propertyLen))
        && At(s, BlockStart(p) + |Vbi(p.propertyLen)|, PropsBytes(p.properties))
    ensures BlockStart(p) + |Vbi(p.propertyLen)| + |PropsBytes(p.properties)| == |Bytes(p)| - |p.message.value|
    ensures HeadAt(s, 0, NEW_PUBLISH, cap) == match PropsAt(s, BlockStart(p))
              case Ok(((n, ps), e)) => Ok((Received(p, cap).(propertyLen := n, properties := Keep([] + ps, cap),
                  message := None), e))
              case Err(e) => Err(e)
              case Panic => Panic
  {
    hide Vbi, VbiAt, StringBytes, StringAt, PropsBytes, PropsAt, Exact, U16At, HeaderAt, TypeOf, QosBits, FrameLen,
         BE16, Remaining;
    IsFrame(p);
    FrameHasItsLength(s, p.fixedHeader, Body(p));
    var q0 := 1 + |Vbi(|Body(p)|)|;
    var a, b, c, d, e := StringBytes(p.topicName), IdentifierBytes(p), Vbi(p.propertyLen), PropsBytes(p.properties),
        p.message.value;
    AtSplit(s, q0, VariableHeader(p), e);
    AtSplit(s, q0, a + b + c, d);
    AtSplit(s, q0, a + b, c);
    AtSplit(s, q0, a, b);
    StringRoundTrip(s, q0, p.topicName);
    if QosBits(p.fixedHeader) != 0 {
      U16RoundTrip(s, q0 + |a|, p.packetIdentifier);
    }
  }

  /** And so is the block, if its list is read all the same; the cursor is short of the message by the unread data. */
  lemma HeadReads(s: seq<byte>, p: Publish, cap: nat)
    requires Sound(p) && TypeOf(p.fixedHeader) == PublishType && Recoverable(p.properties)
    requires At(s, 0, Bytes(p))
    ensures |p.message.value| + Total(Unread, p.properties) <= |Bytes(p)|
    ensures HeadAt(s, 0, NEW_PUBLISH, cap)
        == Ok((Received(p, cap).(message := None), |Bytes(p)| - |p.message.value| - Total(Unread, p.properties)))
  {
    hide HeadAt, BlockStart, Bytes, Body, VariableHeader, PropsBytes, PropsAt, Unread, Exact, TypeOf, Vbi, Remaining,
         QosBits, Recoverable;
    HeadUpToBlock(s, p, cap);
    RecoverableReads(s, BlockStart(p), p.properties);
    assert [] + p.properties == p.properties;
  }

  /** Round trip, whatever follows the packet in the reader's view, unless binary properties are left unread. */
  lemma RoundTrip(s: Slice, p: Publish, cap: nat)
    requires Sound(p) && TypeOf(p.fixedHeader) == PublishType && Total(Unread, p.properties) == 0
    requires At(s, 0, Bytes(p))
    ensures DecodeAt(s, 0, NEW_PUBLISH, cap) == Ok(Received(p, cap))
  {
    hide DecodeAt, Bytes, PropsBytes, TypeOf, Remaining, Keep, Unread, Exact;
    MessageTakesData(s, p, cap);
    var block := PropsBytes(p.properties);
    assert block[|block|..] + p.message.value == p.message.value;
  }

  /**
   What the application gets when it does not come back whole: for a list that is read all the same, as one whose
   last property is its only binary one, everything is right but the message, and that is silently the unread data
   followed by the real message.
   */
  lemma MessageTakesData(s: Slice, p: Publish, cap: nat)
    requires Sound(p) && TypeOf(p.fixedHeader) == PublishType && Recoverable(p.properties)
    requires At(s, 0, Bytes(p))
    ensures var block, unread := PropsBytes(p.properties), Total(Unread, p.properties);
            && unread <= |block| && |p.message.value| + unread <= |Bytes(p)| <= |s|
            && var message := s[|Bytes(p)| - |p.message.value| - unread..|Bytes(p)|];
               && message == block[|block| - unread..] + p.message.value
               && DecodeAt(s, 0, NEW_PUBLISH, cap) == Ok(Received(p, cap).(message := Some(message)))
  {
    hide HeadAt, Vbi, PropsBytes, Body, QosBits, TypeOf, Remaining, Keep, Unread, Exact, Recoverable;
    HeadReads(s, p, cap);
    IsFrame(p);
    FrameHasItsLength(s, p.fixedHeader, Body(p));
    var start := |Bytes(p)| - |p.message.value| - Total(Unread, p.properties);
    assert MessageAt(s, start, AssumedEnd(|Body(p)|)) == Ok(s[start..|Bytes(p)|]);
    UnreadFits(p);
    BlockThenMessage(s, p, Total(Unread, p.properties));
  }

  lemma UnreadFits(p: Publish)
    requires Recoverable(p.properties) && Sound(p)
    ensures Total(Unread, p.properties) <= |PropsBytes(p.properties)|
  {
    hide Vbi, PropsBytes, Unread, Exact, Recoverable;
    var n := |PropsBytes(p.properties)|;
    var s := Vbi(n) + PropsBytes(p.properties);
    AtWhole(s);
    AtSplit(s, 0, Vbi(n), PropsBytes(p.properties));
    RecoverableReads(s, 0, p.properties);
  }

  /** The last k bytes of the property block, and the message behind them. */
  lemma BlockThenMessage(s: seq<byte>, p: Publish, k: nat)
    requires Sound(p) && At(s, 0, Bytes(p)) && k <= |PropsBytes(p.properties)|
    ensures |p.message.value| + k <= |Bytes(p)|
    ensures var block, end := PropsBytes(p.properties), |Bytes(p)|;
            s[end - |p.message.value| - k..end] == block[|block| - k..] + p.message.value
  {
    hide Vbi, StringBytes, PropsBytes, QosBits, BE16, Remaining, Exact, Writable;
    var block, m := PropsBytes(p.properties), p.message.value;
    var front := StringBytes(p.topicName) + IdentifierBytes(p) + Vbi(p.propertyLen);
    var head := [p.fixedHeader] + Vbi(Remaining(p)) + front;
    assert block + m == block[..|block| - k] + (block[|block| - k..] + m);
    assert Bytes(p) == head + (block + m);
    AtSplit(s, 0, head, block + m);
    AtSplit(s, |head|, block[..|block| - k], block[|block| - k..] + m);
  }

  /** With the only binary property last, the message begins with its data. */
  lemma LastBinaryInMessage(s: Slice, p: Publish, before: seq<Property>, x: Property, cap: nat)
    requires Sound(p) && TypeOf(p.fixedHeader) == PublishType && At(s, 0, Bytes(p))
    requires p.properties == before + [x] && All(ReadByCode, before) && IsBinary(x)
    ensures DecodeAt(s, 0, NEW_PUBLISH, cap).Ok?
    ensures var r := DecodeAt(s, 0, NEW_PUBLISH, cap).value;
            && r == Received(p, cap).(message := r.message)
            && r.message.value == x.binaryValue.bin + p.message.value
  {
    hide DecodeAt, Bytes, PropertyBytes, QosBits, TypeOf, Remaining, Keep, Unread, Exact;
    AllSnoc(Exact, before, x);
    LastBinaryIsRecoverable(before, x);
    MessageTakesData(s, p, cap);
    assert before + [x] + [] == before + [x];
    OneBinaryParts(before, x, []);
    BinaryTail(x);
    var block, bin := PropsBytes(p.properties), x.binaryValue.bin;
    assert block == PropsBytes(before) + PropertyBytes(x);
    assert block[|block| - |bin|..] == PropertyBytes(x)[3..];
  }

  /**
   With room for its properties, a packet comes back whole if and only if it carries no (non-empty) binary
   property: after one the code reads the rest of the packet from the wrong place.
   */
  lemma RoundTripExactly(s: Slice, p: Publish, cap: nat)
    requires Sound(p) && TypeOf(p.fixedHeader) == PublishType && |p.properties| <= cap
    requires At(s, 0, Bytes(p))
    ensures DecodeAt(s, 0, NEW_PUBLISH, cap) == Ok(Received(p, cap)) <==> Total(Unread, p.properties) == 0
  {
    hide DecodeAt, HeadAt, BlockStart, Bytes, Body, PropsBytes, Unread, Exact, TypeOf, Vbi, VbiAt, PropsLoop, Remaining;
    if Total(Unread, p.properties) == 0 {
      RoundTrip(s, p, cap);
    } else if DecodeAt(s, 0, NEW_PUBLISH, cap) == Ok(Received(p, cap)) {
      var start := BlockStart(p);
      HeadUpToBlock(s, p, cap);
      VbiAtRoundTrip(s, start, p.propertyLen);
      MessageEndsPacket(s, p, cap);
      var ((n, ps), e) := PropsAt(s, start).value;
      assert [] + ps == ps;
      assert Keep(p.properties, cap) == p.properties;
      Properties.RoundTripExactly(s, start + |Vbi(p.propertyLen)|, p.properties, cap);
    }
  }

  /** The message ends where the packet does, so its length says where the properties ended. */
  lemma MessageEndsPacket(s: Slice, p: Publish, cap: nat)
    requires Sound(p) && At(s, 0, Bytes(p)) && DecodeAt(s, 0, NEW_PUBLISH, cap) == Ok(Received(p, cap))
    ensures HeadAt(s, 0, NEW_PUBLISH, cap).Ok?
    ensures var (head, q) := HeadAt(s, 0, NEW_PUBLISH, cap).value;
            q == |Bytes(p)| - |p.message.value| && head.properties == Keep(p.properties, cap)
  {
    hide HeadAt, Vbi, Body, Remaining, QosBits;
    IsFrame(p);
    FrameHasItsLength(s, p.fixedHeader, Body(p));
  }

  /**
   The message of a framed packet is everything after the properties if and only if the sender encoded the
   remaining length without redundant bytes; otherwise its end is cut off, or the code panics.
   */
  lemma MessageExactly(s: Slice, prior: Publish, cap: nat)
    requires HeadAt(s, 0, prior, cap).Ok? && FrameLen(s) == Ok(|s|)
    ensures var (p, q) := HeadAt(s, 0, prior, cap).value;
            DecodeAt(s, 0, prior, cap) == Ok(p.(message := Some(s[q..])))
            <==> VbiAt(s, 1).value.1 == 2 || s[VbiAt(s, 1).value.1 - 1] != 0
  {
    hide PropsAt, StringAt, Vbi, TypeOf, QosBits, U16At, VbiAt;
    AssumedEndExactly(s);
    var (p, q) := HeadAt(s, 0, prior, cap).value;
    var end := AssumedEnd(p.remainLen);
    if q <= end < |s| {
      assert |s[q..end]| < |s[q..]|;
    } else if end == |s| {
      assert s[q..end] == s[q..];
    }
  }

  // ---------------------------------------------------------------- the standard's reader

  datatype Publication = Publication(
    dup: bool,
    qos: nat,
    retain: bool,
    topic: EncodedString,
    identifier: Option<u16>,
    properties: seq<Property>,
    message: seq<byte>)

  /**
   A PUBLISH as section 3.3 reads it: DUP, QoS and RETAIN are bits 3, 2 to 1 and 0 of the first byte; the identifier
   is there for QoS 1 and 2; the message is what the packet's length leaves after the properties.
   */
  function StdPublishAt(s: seq<byte>): Read<Publication> {
    var ((h, remaining), q) :- HeaderAt(s, 0);
    var end := q + remaining;
    if h / 16 != 3 || h / 2 % 4 == 3 || end > |s| then Err(DecodingError)
    else
      var (topic, q) :- StringAt(s, q);
      var (identifier, q) :- StdIdentifierAt(s, q, h / 2 % 4 > 0);
      var (properties, q) :- StdPropsAt(s, q);
      if q > end then Err(DecodingError)
      else
        Ok((Publication(h / 8 % 2 == 1, h / 2 % 4, h % 2 == 1, topic, identifier, properties, s[q..end]), end))
  }

  function StdIdentifierAt(s: seq<byte>, pos: nat, present: bool): Read<Option<u16>> {
    if !present then Ok((None, pos))
    else
      var (identifier, q) :- U16At(s, pos);
      Ok((Some(identifier), q))
  }

  /** What the packet means. */
  function PublicationOf(p: Publish): Publication
    requires p.message.Some?
  {
    var h := p.fixedHeader;
    Publication(
      h / 8 % 2 == 1, h / 2 % 4, h % 2 == 1, p.topicName,
      if h / 2 % 4 > 0 then Some(p.packetIdentifier) else None, p.properties, p.message.value)
  }

  /** A standard reader recovers every field, binary properties included, and ends exactly at the packet's end. */
  lemma ReadByStandard(s: seq<byte>, p: Publish)
    requires Sound(p) && p.fixedHeader / 16 == 3 && p.fixedHeader / 2 % 4 != 3
    requires At(s, 0, Bytes(p))
    ensures StdPublishAt(s) == Ok((PublicationOf(p), |Bytes(p)|))
  {
    hide Vbi, VbiAt, StringBytes, StringAt, PropsBytes, StdPropsAt, Exact, U16At, HeaderAt, BE16, Remaining;
    IsFrame(p);
    FrameHasItsLength(s, p.fixedHeader, Body(p));
    var q0 := 1 + |Vbi(|Body(p)|)|;
    var a, b, c, d := StringBytes(p.topicName), IdentifierBytes(p), Vbi(p.propertyLen), PropsBytes(p.properties);
    var e := p.message.value;
    AtSplit(s, q0, VariableHeader(p), e);
    AtSplit(s, q0, a + b + c, d);
    AtSplit(s, q0, a + b, c);
    AtSplit(s, q0, a, b);
    StringRoundTrip(s, q0, p.topicName);
    if p.fixedHeader / 2 % 4 > 0 {
      U16RoundTrip(s, q0 + |a|, p.packetIdentifier);
    }
    StdPropsRoundTrip(s, q0 + |a| + |b|, p.properties);
  }

  /**
   What a standard server reads from the message a client sends: not a duplicate, the level and the retain bit that
   were asked for, and the topic and the message themselves.
   */
  lemma OutgoingReadByStandard(
    s: seq<byte>, topic: seq<byte>, message: Slice, q: QualityOfService, retain: bool, identifier: u16
  )
    requires var p := Outgoing(topic, message, q, retain, identifier); Encodable(p) && At(s, 0, Bytes(p))
    requires |topic| < U16_MOD && ValidUtf8(topic)
    ensures var p := Outgoing(topic, message, q, retain, identifier);
            StdPublishAt(s) == Ok((
              Publication(false, QosLevel(q), retain || q.Invalid?, FromText(topic),
                          if QosLevel(q) > 0 then Some(identifier) else None, [], message),
              |Bytes(p)|))
  {
    hide Bytes, Body, Remaining, StdPublishAt, ValidUtf8;
    var p := Outgoing(topic, message, q, retain, identifier);
    OutgoingHeaderBits(topic, message, q, retain, identifier);
    assert PropsBytes([]) == [];
    ReadByStandard(s, p);
  }

  /** The first byte of an outgoing message: type 3, the level in bits 2 and 1, the retain flag in bit 0. */
  lemma OutgoingHeaderBits(topic: seq<byte>, message: Slice, q: QualityOfService, retain: bool, identifier: u16)
    ensures var h := Outgoing(topic, message, q, retain, identifier).fixedHeader;
            h == 0x30 + 2 * QosLevel(q) + if retain || q.Invalid? then 1 else 0
  {
  }

  // ---------------------------------------------------------------- the code

  class PublishPacket {
    const maxProperties: nat
    var fixedHeader: byte
    var remainLen: u32
    var topicName: EncodedString
    var packetIdentifier: u16
    var propertyLen: u32
    var properties: seq<Property>
    var message: Option<Slice>

    ghost function Value(): Publish
      reads this
    {
      Publish(fixedHeader, remainLen, topicName, packetIdentifier, propertyLen, properties, message)
    }

    ghost predicate Valid()
      reads this
    {
      |properties| <= maxProperties
    }

    constructor (maxProperties: nat)
      ensures Valid() && Value() == NEW_PUBLISH && this.maxProperties == maxProperties
    {
      this.maxProperties := maxProperties;
      fixedHeader, remainLen, topicName, packetIdentifier := 0x30, 0, NO_STRING, 1;
      propertyLen, properties, message := 0, [], None;
    }

    method AddTopicName(topic: seq<byte>)
      modifies this
      ensures Value() == old(Value()).(topicName := FromText(topic))
    {
      topicName := EncodedString(topic, |topic| % U16_MOD);
    }

    method AddMessage(message: Slice)
      modifies this
      ensures Value() == old(Value()).(message := Some(message))
    {
      this.message := Some(message);
    }

    method AddQos(q: QualityOfService)
      modifies this
      ensures Value() == old(Value()).(fixedHeader := OrQos(old(fixedHeader), q))
    {
      fixedHeader := OrQos(fixedHeader, q);
    }

    method AddRetain(retain: bool)
      modifies this
      ensures Value() == old(Value()).(fixedHeader := if retain then SetBit(old(fixedHeader), 1) else old(fixedHeader))
    {
      if retain {
        fixedHeader := SetBit(fixedHeader, 1);
      }
    }

    method AddIdentifier(identifier: u16)
      modifies this
      ensures Value() == old(Value()).(packetIdentifier := identifier)
    {
      packetIdentifier := identifier;
    }

    method WriteVariableHeader(writer: BuffWriter) returns (r: Result<(), BufferError>)
      requires writer.Valid() && propertyLen <= MAX_ENCODABLE
      modifies writer, writer.buffer
      ensures StringCovered(topicName) && All(Writable, properties) ==> writer.Appended(VariableHeader(Value()), r)
      ensures !(StringCovered(topicName) && All(Writable, properties)) ==> writer.Valid() && !r.Ok?
    {
      hide Vbi, StringBytes, PropsBytes, QosBits, BE16, Writable, StringCovered;
      var _ :- writer.WriteStringRef(topicName);
      if QosBits(fixedHeader) != 0 {
        var _ :- writer.WriteU16(packetIdentifier);
      }
      assert StringCovered(topicName) ==>
          writer.written == old(writer.written) + (StringBytes(topicName) + IdentifierBytes(Value()));
      var _ :- writer.WriteVariableByteInt(propertyLen);
      r := writer.WriteProperties(properties);
    }

    method WriteBody(writer: BuffWriter) returns (r: Result<(), BufferError>)
      requires writer.Valid() && propertyLen <= MAX_ENCODABLE && message.Some?
      modifies writer, writer.buffer
      ensures StringCovered(topicName) && All(Writable, properties) ==> writer.Appended(Body(Value()), r)
      ensures !(StringCovered(topicName) && All(Writable, properties)) ==> writer.Valid() && !r.Ok?
    {
      hide VariableHeader, Writable, StringCovered;
      var _ :- WriteVariableHeader(writer);
      assert message.value[..|message.value|] == message.value;
      r := writer.InsertRef(|message.value|, message.value);
    }

    /** The sums in front of the first write. */
    method RemainingLen() returns (r: Result<nat, BufferError>)
      ensures propertyLen > MAX_ENCODABLE ==> r == Err(EncodingError)
      ensures propertyLen <= MAX_ENCODABLE && message.None? ==> r == Panic
      ensures propertyLen <= MAX_ENCODABLE && message.Some? ==> r == Ok(Remaining(Value()))
    {
      hide Vbi, QosBits;
      var propertyLenEnc :- VarInt.Encode(propertyLen);
      PaddedLen(propertyLen);
      var propertyLenLen := VarInt.Len(propertyLenEnc);
      if message.None? {
        return Panic;
      }
      var remaining: nat := propertyLen + propertyLenLen.value + |message.value| + topicName.len + 2;
      if QosBits(fixedHeader) != 0 {
        remaining := remaining + 2;
      }
      return Ok(remaining);
    }

    /** Succeeds exactly when the packet is encodable and fits, and then the buffer starts with its bytes. */
    method Encode(buffer: array<byte>, bufferLen: nat) returns (r: Result<nat, BufferError>)
      requires bufferLen <= buffer.Length
      modifies buffer
      ensures r.Ok? <==> Encodable(Value()) && |Bytes(Value())| <= bufferLen
      ensures r.Ok? ==> r.value == |Bytes(Value())| && buffer[..r.value] == Bytes(Value())
      ensures Encodable(Value()) && !r.Ok? ==> r == Err(InsufficientBufferSize)
      ensures propertyLen > MAX_ENCODABLE ==> r == Err(EncodingError)
      ensures propertyLen <= MAX_ENCODABLE && message.None? ==> r == Panic
      ensures r.Panic? ==> message.None? || !StringCovered(topicName) || !All(Writable, properties)
    {
      hide Vbi, Body, QosBits, Writable, StringCovered, Remaining;
      var writer := new BuffWriter(buffer, bufferLen);
      var remaining :- RemainingLen();
      var _ :- writer.WriteU8(fixedHeader);
      var _ :- writer.WriteVariableByteInt(remaining);
      var _ :- WriteBody(writer);
      return Ok(writer.position);
    }

    method DecodeHead(reader: BuffReader) returns (r: Result<(), BufferError>)
      requires reader.Valid() && Valid()
      modifies this, reader`position
      ensures match HeadAt(reader.View(), old(reader.position), old(Value()), maxProperties)
              case Ok(h) => r == Ok(()) && Value() == h.0 && Valid() && reader.position == h.1 && reader.Valid()
              case Err(e) => r == Err(e)
              case Panic => r == Panic
    {
      hide TypeOf, QosBits, U16At, StringAt, PropsAt, HeaderAt, Keep;
      var kind, header, remaining := DecodeFixedHeader(reader);
      fixedHeader, remainLen := header, remaining;
      if !kind.Ok? {
        return kind.PropagateFailure();
      }
      if kind.value != PublishType {
        return Err(PacketTypeMismatch);
      }
      topicName :- reader.ReadString();
      if QosBits(fixedHeader) != 0 {
        packetIdentifier :- reader.ReadU16();
      }
      r, propertyLen, properties := reader.DecodeProperties(properties, maxProperties);
    }

    method Decode(reader: BuffReader) returns (r: Result<(), BufferError>)
      requires reader.Valid() && Valid()
      modifies this, reader`position
      ensures match DecodeAt(reader.View(), old(reader.position), old(Value()), maxProperties)
              case Ok(p) => r == Ok(()) && Value() == p && Valid()
              case Err(e) => r == Err(e)
              case Panic => r == Panic
    {
      hide HeadAt, Vbi;
      var _ :- DecodeHead(reader);
      var lengthEnc := VarInt.Encode(remainLen);
      PaddedLen(remainLen);
      var lengthLen := VarInt.Len(lengthEnc.value);
      var payload :- reader.ReadMessage(lengthLen.value + 1 + remainLen);
      message := Some(payload);
      return Ok(());
    }
  }
}
