/**
 The client (rust-mqtt/src/client/raw_client.rs and client.rs): a request is encoded into `buffer` and sent,
 the next packet is received into the same buffer and decoded, a PUBACK is encoded into `recv_buffer`.
 */
module Clients {
  import opened Base
  import opened VarInt
  import opened Types
  import opened Lists
  import opened Properties
  import opened BuffReaders
  import opened Packets
  import opened Acks
  import opened Framing
  import P = Publishes
  import opened Rng

  datatype Event =
    | ConnackEvent
    | PubackEvent(identifier: u16)
    | SubackEvent(identifier: u16)
    | UnsubackEvent(identifier: u16)
    | PingrespEvent
    | Message(topic: seq<byte>, payload: seq<byte>)
    | DisconnectEvent(reason: ReasonCode)

  /** What one packet makes the client do: report an event, and perhaps send bytes first. */
  datatype Reaction = Reaction(event: Event, reply: Option<seq<byte>>)

  type Reacted = Result<Reaction, ReasonCode>

  /** Only an application message makes the client send something. */
  predicate OnlyMessagesReply(r: Reacted) {
    r.Ok? && r.value.reply.Some? ==> r.value.event.Message?
  }

  /** Every decoding error is reported as `BuffError`. */
  function Lift<T>(r: Result<T, BufferError>): Result<T, ReasonCode> {
    match r
    case Ok(v) => Ok(v)
    case Err(_) => Err(BuffError)
    case Panic => Panic
  }

  function OnConnack(packet: Slice, maxProperties: nat): (r: Reacted)
    ensures r.Ok? ==> r.value.reply.None?
  {
    var p :- Lift(ConnackAt(packet, 0, NEW_CONNACK, maxProperties));
    if p.connectReasonCode != 0 then Err(FromByte(p.connectReasonCode)) else Ok(Reaction(ConnackEvent, None))
  }

  function OnPuback(packet: Slice, maxProperties: nat): (r: Reacted)
    ensures r.Ok? ==> r.value.reply.None?
  {
    var p :- Lift(PubackAt(packet, 0, NEW_PUBACK, maxProperties));
    if p.reasonCode != 0 then Err(FromByte(p.reasonCode)) else Ok(Reaction(PubackEvent(p.packetIdentifier), None))
  }

  /** The first code that is not the requested quality of service. */
  function FirstOther(codes: seq<byte>, granted: byte): Option<byte> {
    if codes == [] then None else if codes[0] != granted then Some(codes[0]) else FirstOther(codes[1..], granted)
  }

  function OnSuback(packet: Slice, maxProperties: nat, maxTopics: nat, q: QualityOfService): (r: Reacted)
    ensures r.Ok? ==> r.value.reply.None?
  {
    var p :- Lift(SubackAt(packet, 0, NEW_SUBACK, maxProperties, maxTopics));
    match FirstOther(p.reasonCodes, QosByte(q) / 2)
    case Some(code) => Err(FromByte(code))
    case None => Ok(Reaction(SubackEvent(p.packetIdentifier), None))
  }

  function OnUnsuback(packet: Slice, maxProperties: nat): (r: Reacted)
    ensures r.Ok? ==> r.value.reply.None?
  {
    var p :- Lift(UnsubackAt(packet, 0, NEW_UNSUBACK, maxProperties, 1));
    Ok(Reaction(UnsubackEvent(p.packetIdentifier), None))
  }

  function OnPingresp(packet: Slice): (r: Reacted)
    ensures r.Ok? ==> r.value.reply.None?
  {
    var _ :- Lift(PingrespAt(packet, 0));
    Ok(Reaction(PingrespEvent, None))
  }

  function OnDisconnect(packet: Slice): (r: Reacted)
    ensures r.Ok? ==> r.value.reply.None?
  {
    var p :- Lift(DisconnectAt(packet, 0, NEW_DISCONNECT, 5));
    Ok(Reaction(DisconnectEvent(FromByte(p.disconnectReason)), None))
  }

  function AckFor(identifier: u16): Puback {
    NEW_PUBACK.(packetIdentifier := identifier)
  }

  /** PUBLISH packets are decoded with room for five properties. */
  function OnPublish(packet: Slice, ackRoom: nat): (r: Reacted)
    ensures OnlyMessagesReply(r)
  {
    var p :- Lift(P.DecodeAt(packet, 0, P.NEW_PUBLISH, 5));
    var message := Message(p.topicName.text, p.message.value);
    if QosBits(p.fixedHeader) != QosByte(QoS1) then Ok(Reaction(message, None))
    else if |PubackBytes(AckFor(p.packetIdentifier))| > ackRoom then Err(BuffError)
    else Ok(Reaction(message, Some(PubackBytes(AckFor(p.packetIdentifier)))))
  }

  /** `poll` on a received packet. */
  function React(packet: Slice, maxProperties: nat, maxTopics: nat, q: QualityOfService, ackRoom: nat): (r: Reacted)
    ensures OnlyMessagesReply(r)
  {
    if packet == [] then Err(BuffError)
    else match TypeOf(packet[0])
      case ConnackType => OnConnack(packet, maxProperties)
      case PubackType => OnPuback(packet, maxProperties)
      case SubackType => OnSuback(packet, maxProperties, maxTopics, q)
      case UnsubackType => OnUnsuback(packet, maxProperties)
      case PingrespType => OnPingresp(packet)
      case PublishType => OnPublish(packet, ackRoom)
      case DisconnectType => OnDisconnect(packet)
      case PubrecType => Err(ImplementationSpecificError)
      case PubrelType => Err(ImplementationSpecificError)
      case PubcompType => Err(ImplementationSpecificError)
      case AuthType => Err(ImplementationSpecificError)
      case _ => Err(ProtocolError)
  }

  /** What the sizes and the configuration of a client are to `poll`. */
  datatype Limits = Limits(bufferLen: nat, recvLen: nat, ackRoom: nat, maxProperties: nat, q: QualityOfService)

  /** `poll` on what the connection has still to deliver. */
  function Polled(incoming: seq<ReadEvent>, limits: Limits, maxTopics: nat): (r: Reacted)
    requires limits.bufferLen < SLICE_LIMIT
    ensures OnlyMessagesReply(r)
  {
    match Receive(incoming, limits.bufferLen, limits.recvLen).0
    case Ok(packet) => React(packet, limits.maxProperties, maxTopics, limits.q, limits.ackRoom)
    case Err(e) => Err(e)
    case Panic => Panic
  }

  // ---------------------------------------------------------------- the theorems

  /** The PUBACK of section 3.4 for a message: its identifier, reason code 0, and no properties. */
  function Ack(identifier: u16): seq<byte> {
    [0x40, 4, identifier / 0x100, identifier % 0x100, 0, 0]
  }

  lemma AckBytes(identifier: u16)
    ensures PubackSound(AckFor(identifier)) && PubackBytes(AckFor(identifier)) == Ack(identifier)
  {
    var p := AckFor(identifier);
    assert Vbi(0) == [0] && Vbi(4) == [4];
    assert PubackBody(p) == BE16(identifier) + [0, 0];
  }

  /**
   What `poll` does with a packet, by the upper half of its first byte (section 2.1.2): six types are decoded,
   messages too; the rest of the handshakes is not implemented; what only a client sends is a protocol error.
   */
  lemma ReactByType(packet: Slice, limits: Limits, maxTopics: nat)
    requires packet != []
    ensures var r := React(packet, limits.maxProperties, maxTopics, limits.q, limits.ackRoom);
            var kind := packet[0] / 16;
            && (kind == 2 ==> r == OnConnack(packet, limits.maxProperties))
            && (kind == 3 ==> r == OnPublish(packet, limits.ackRoom))
            && (kind == 4 ==> r == OnPuback(packet, limits.maxProperties))
            && (kind == 9 ==> r == OnSuback(packet, limits.maxProperties, maxTopics, limits.q))
            && (kind == 11 ==> r == OnUnsuback(packet, limits.maxProperties))
            && (kind == 13 ==> r == OnPingresp(packet))
            && (kind == 14 ==> r == OnDisconnect(packet))
            && (kind in {5, 6, 7, 15} ==> r == Err(ImplementationSpecificError))
            && (kind in {0, 1, 8, 10, 12} ==> r == Err(ProtocolError))
  {
    hide OnConnack, OnPublish, OnPuback, OnSuback, OnUnsuback, OnPingresp, OnDisconnect;
  }

  /** A packet is decoded as a message only if its first byte says so, and that byte is kept. */
  lemma DecodedHeader(packet: Slice)
    requires P.DecodeAt(packet, 0, P.NEW_PUBLISH, 5).Ok?
    ensures packet != [] && P.DecodeAt(packet, 0, P.NEW_PUBLISH, 5).value.fixedHeader == packet[0]
  {
    hide PropsAt, VbiAt, TypeOf, QosBits, StringAt, U16At;
  }

  /**
   Section 4.3.2, as a receiver: `poll` answers a message if and only if its first byte says QoS 1, and what it
   sends then is the PUBACK with the identifier of that message and reason code 0.
   */
  lemma AnswersQos1(packet: Slice, limits: Limits, maxTopics: nat, cap: nat)
    requires packet != [] && packet[0] / 16 == 3
    requires React(packet, limits.maxProperties, maxTopics, limits.q, limits.ackRoom).Ok?
    ensures P.DecodeAt(packet, 0, P.NEW_PUBLISH, 5).Ok?
    ensures var p := P.DecodeAt(packet, 0, P.NEW_PUBLISH, 5).value;
            var reaction := React(packet, limits.maxProperties, maxTopics, limits.q, limits.ackRoom).value;
            && reaction.event == Message(p.topicName.text, p.message.value)
            && reaction.reply == (if packet[0] / 2 % 4 == 1 then Some(Ack(p.packetIdentifier)) else None)
            && (reaction.reply.Some? ==>
                  var ack := PubackAt(reaction.reply.value, 0, NEW_PUBACK, cap);
                  ack.Ok? && ack.value.packetIdentifier == p.packetIdentifier && ack.value.reasonCode == 0)
  {
    hide React, P.DecodeAt, PubackAt, PubackSound, PubackBytes, TypeOf;
    ReactByType(packet, limits, maxTopics);
    var p := P.DecodeAt(packet, 0, P.NEW_PUBLISH, 5).value;
    DecodedHeader(packet);
    AckBytes(p.packetIdentifier);
    AtWhole(Ack(p.packetIdentifier));
    PubackTypeOf();
    PubackRoundTrip(Ack(p.packetIdentifier), AckFor(p.packetIdentifier), cap);
  }

  lemma PubackTypeOf()
    ensures TypeOf(0x40) == PubackType
  {
  }

  /** The header of an outgoing message: always PUBLISH; an invalid quality of service goes out as QoS 1. */
  lemma OutgoingHeader(topic: seq<byte>, message: Slice, q: QualityOfService, retain: bool, identifier: u16)
    ensures var h := P.Outgoing(topic, message, q, retain, identifier).fixedHeader;
            && TypeOf(h) == PublishType && h / 16 == 3
            && h / 2 % 4 == QosLevel(q)
            && (h % 2 == 1 <==> retain || q.Invalid?)
  {
  }

  lemma OutgoingSound(topic: seq<byte>, message: Slice, q: QualityOfService, retain: bool, identifier: u16)
    requires P.Encodable(P.Outgoing(topic, message, q, retain, identifier)) && |topic| < U16_MOD && ValidUtf8(topic)
    ensures P.Sound(P.Outgoing(topic, message, q, retain, identifier))
  {
  }

  /**
   `poll` on a message whose property list is read completely: topic and payload are reported, with unread binary
   data in front of the payload, and QoS 1 is answered.
   */
  lemma MessageReported(packet: Slice, p: P.Publish, limits: Limits, maxTopics: nat)
    requires P.Sound(p) && p.fixedHeader / 16 == 3 && packet == P.Bytes(p) && limits.ackRoom >= 6
    requires Recoverable(p.properties)
    ensures var block, unread := PropsBytes(p.properties), Total(Unread, p.properties);
            && unread <= |block|
            && React(packet, limits.maxProperties, maxTopics, limits.q, limits.ackRoom)
               == Ok(Reaction(
                    Message(p.topicName.text, block[|block| - unread..] + p.message.value),
                    if p.fixedHeader / 2 % 4 == 1 then Some(Ack(p.packetIdentifier)) else None))
  {
    hide React, P.DecodeAt, P.Bytes, TypeOf, PubackBytes, PubackSound, Recoverable, PropsBytes, Unread, Keep;
    PublishTypeOf(p.fixedHeader);
    AtWhole(packet);
    P.MessageTakesData(packet, p, 5);
    DecodedHeader(packet);
    ReactByType(packet, limits, maxTopics);
    AckBytes(P.DecodeAt(packet, 0, P.NEW_PUBLISH, 5).value.packetIdentifier);
  }

  lemma PublishTypeOf(h: byte)
    ensures h / 16 == 3 <==> TypeOf(h) == PublishType
  {
  }

  /**
   From one client's `send_message` to another's `poll`: the packet that was encoded is received as the same
   topic and message, and at QoS 1 answered, if and only if the length of the topic fits in a u16.
   */
  lemma MessageDelivered(
    topic: seq<byte>, message: Slice, q: QualityOfService, retain: bool, identifier: u16, limits: Limits,
    maxTopics: nat, packet: Slice
  )
    requires var p := P.Outgoing(topic, message, q, retain, identifier); P.Encodable(p) && packet == P.Bytes(p)
    requires ValidUtf8(topic) && limits.ackRoom >= 6
    ensures React(packet, limits.maxProperties, maxTopics, limits.q, limits.ackRoom)
            == Ok(Reaction(Message(topic, message), if QosLevel(q) == 1 then Some(Ack(identifier)) else None))
            <==> |topic| < U16_MOD
  {
    hide React, P.Encodable, P.Bytes, TypeOf, OrQos, ValidUtf8;
    if |topic| < U16_MOD {
      ShortTopicDelivered(topic, message, q, retain, identifier, limits, maxTopics, packet);
    } else if React(packet, limits.maxProperties, maxTopics, limits.q, limits.ackRoom).Ok? {
      ReportedTopicIsShort(packet, limits, maxTopics);
    }
  }

  lemma ShortTopicDelivered(
    topic: seq<byte>, message: Slice, q: QualityOfService, retain: bool, identifier: u16, limits: Limits,
    maxTopics: nat, packet: Slice
  )
    requires var p := P.Outgoing(topic, message, q, retain, identifier); P.Encodable(p) && packet == P.Bytes(p)
    requires ValidUtf8(topic) && limits.ackRoom >= 6 && |topic| < U16_MOD
    ensures React(packet, limits.maxProperties, maxTopics, limits.q, limits.ackRoom)
            == Ok(Reaction(Message(topic, message), if QosLevel(q) == 1 then Some(Ack(identifier)) else None))
  {
    hide React, P.Remaining, P.Body, TypeOf, OrQos, ValidUtf8, Recoverable;
    var p := P.Outgoing(topic, message, q, retain, identifier);
    OutgoingHeader(topic, message, q, retain, identifier);
    OutgoingSound(topic, message, q, retain, identifier);
    NothingIsRecoverable();
    MessageReported(packet, p, limits, maxTopics);
    assert p.properties == [] && [] + message == message;
  }

  /** No report has a topic of 65536 bytes or more. */
  lemma ReportedTopicIsShort(packet: Slice, limits: Limits, maxTopics: nat)
    ensures var r := React(packet, limits.maxProperties, maxTopics, limits.q, limits.ackRoom);
            r.Ok? && r.value.event.Message? ==> |r.value.event.topic| < U16_MOD
  {
    hide ConnackAt, PubackAt, SubackAt, UnsubackAt, PingrespAt, DisconnectAt, P.DecodeAt, TypeOf, PubackBytes, QosBits;
    if P.DecodeAt(packet, 0, P.NEW_PUBLISH, 5).Ok? {
      DecodedTopic(packet);
    }
  }

  lemma NothingIsRecoverable()
    ensures Recoverable([]) && PropsBytes([]) == [] && Total(Unread, []) == 0
  {
  }

  lemma DecodedTopic(packet: Slice)
    requires P.DecodeAt(packet, 0, P.NEW_PUBLISH, 5).Ok?
    ensures |P.DecodeAt(packet, 0, P.NEW_PUBLISH, 5).value.topicName.text| < U16_MOD
  {
    hide PropsAt, HeaderAt, TypeOf, QosBits;
  }

  /** Any message with a readable property list, through any split of the stream into reads, into `poll`. */
  lemma MessageUnderstood(
    script: seq<ReadEvent>, p: P.Publish, tail: seq<byte>, limits: Limits, maxTopics: nat
  )
    requires P.Sound(p) && p.fixedHeader / 16 == 3 && limits.ackRoom >= 6 && Recoverable(p.properties)
    requires Clean(script) && Stream(script) == P.Bytes(p) + tail
    requires |P.Bytes(p)| <= limits.bufferLen < SLICE_LIMIT && 2 * |P.Bytes(p)| <= limits.recvLen
    ensures var block, unread := PropsBytes(p.properties), Total(Unread, p.properties);
            && unread <= |block|
            && Polled(script, limits, maxTopics)
               == Ok(Reaction(
                    Message(p.topicName.text, block[|block| - unread..] + p.message.value),
                    if p.fixedHeader / 2 % 4 == 1 then Some(Ack(p.packetIdentifier)) else None))
  {
    hide Polled, React, Stream, Clean, P.Body, P.Remaining, Recoverable, PropsBytes, Unread, FrameLen, NeedOf;
    P.IsFrame(p);
    var frame := P.Bytes(p);
    AtWhole(frame);
    FrameHasItsLength(frame, p.fixedHeader, P.Body(p));
    NeedOfFrame(frame);
    AnswerArrives(script, frame, tail, limits, maxTopics);
    MessageReported(frame, p, limits, maxTopics);
  }

  /** The whole way: what one client sends is what the other's `poll` reports and, at QoS 1, answers. */
  lemma DeliveredThroughStream(
    topic: seq<byte>, message: Slice, q: QualityOfService, retain: bool, identifier: u16,
    script: seq<ReadEvent>, tail: seq<byte>, limits: Limits, maxTopics: nat
  )
    requires var p := P.Outgoing(topic, message, q, retain, identifier);
             && P.Encodable(p) && |topic| < U16_MOD && ValidUtf8(topic) && limits.ackRoom >= 6
             && Clean(script) && Stream(script) == P.Bytes(p) + tail
             && |P.Bytes(p)| <= limits.bufferLen < SLICE_LIMIT && 2 * |P.Bytes(p)| <= limits.recvLen
    ensures Polled(script, limits, maxTopics)
            == Ok(Reaction(Message(topic, message), if QosLevel(q) == 1 then Some(Ack(identifier)) else None))
    ensures var rest := Receive(script, limits.bufferLen, limits.recvLen).1;
            Clean(rest) && Stream(rest) == tail
  {
    hide Polled, Receive, Stream, Clean, P.Body, P.Remaining, ValidUtf8, TypeOf, OrQos, Recoverable, FrameLen, NeedOf;
    var p := P.Outgoing(topic, message, q, retain, identifier);
    OutgoingSound(topic, message, q, retain, identifier);
    OutgoingHeader(topic, message, q, retain, identifier);
    NothingIsRecoverable();
    MessageUnderstood(script, p, tail, limits, maxTopics);
    assert p.properties == [] && [] + message == message;
    P.IsFrame(p);
    var frame := P.Bytes(p);
    AtWhole(frame);
    FrameHasItsLength(frame, p.fixedHeader, P.Body(p));
    NeedOfFrame(frame);
    FrameLenPrefix(frame, tail);
    ReceivesFirstPacket(script, |frame|, limits.bufferLen, limits.recvLen);
    assert (frame + tail)[|frame|..] == tail;
  }

  lemma NeedOfFrame(frame: seq<byte>)
    requires FrameLen(frame) == Ok(|frame|)
    ensures NeedOf(frame) <= 2 * |frame|
  {
  }

  /** A message whose only binary property is its last is reported with that property's data in front of it. */
  lemma BinaryDataInMessage(
    packet: Slice, p: P.Publish, before: seq<Property>, x: Property, limits: Limits, maxTopics: nat
  )
    requires P.Sound(p) && p.fixedHeader / 16 == 3 && packet == P.Bytes(p) && limits.ackRoom >= 6
    requires p.properties == before + [x] && All(ReadByCode, before) && IsBinary(x)
    ensures var r := React(packet, limits.maxProperties, maxTopics, limits.q, limits.ackRoom);
            && r.Ok?
            && r.value.event == Message(p.topicName.text, x.binaryValue.bin + p.message.value)
  {
    hide React, P.DecodeAt, P.Bytes, TypeOf, PubackBytes, Exact, Unread, Recoverable;
    AtWhole(packet);
    PublishTypeOf(p.fixedHeader);
    P.LastBinaryInMessage(packet, p, before, x, 5);
    AllSnoc(Exact, before, x);
    LastBinaryIsRecoverable(before, x);
    MessageReported(packet, p, limits, maxTopics);
    DecodedHeader(packet);
    ReactByType(packet, limits, maxTopics);
  }

  lemma {:induction false} NoOtherMeansAll(codes: seq<byte>, granted: byte)
    ensures FirstOther(codes, granted).None? <==> forall i :: 0 <= i < |codes| ==> codes[i] == granted
  {
    if codes != [] {
      NoOtherMeansAll(codes[1..], granted);
      assert forall i :: 1 <= i < |codes| ==> codes[i] == codes[1..][i - 1];
      assert forall i :: 0 <= i < |codes| - 1 ==> codes[1..][i] == codes[i + 1];
    }
  }

  /** Each of `n` topics has a code, and it is the requested quality of service. */
  ghost predicate Granted(codes: seq<byte>, n: nat, granted: byte) {
    |codes| == n && forall i :: 0 <= i < n ==> codes[i] == granted
  }

  /** The codes of a framed SUBACK that the client looks at: those up to the end it assumes, as far as there is room. */
  function LookedAt(packet: seq<byte>, maxProperties: nat, maxTopics: nat): seq<byte>
    requires SubackHeadAt(packet, 0, NEW_SUBACK, maxProperties).Ok? && FrameLen(packet) == Ok(|packet|)
  {
    SubackCodesExactly(packet, maxProperties, maxTopics);
    var (p, q) := SubackHeadAt(packet, 0, NEW_SUBACK, maxProperties).value;
    Keep(packet[q..][..CodesSeen(p.remainLen, q)], maxTopics)
  }

  /**
   A framed SUBACK is reported as success if and only if every code the client looks at is the requested quality
   of service; they are a prefix of the codes on the wire.
   */
  lemma SubackExactly(packet: Slice, maxProperties: nat, maxTopics: nat, q: QualityOfService)
    requires SubackHeadAt(packet, 0, NEW_SUBACK, maxProperties).Ok? && FrameLen(packet) == Ok(|packet|)
    ensures var (p, e) := SubackHeadAt(packet, 0, NEW_SUBACK, maxProperties).value;
            var seen := LookedAt(packet, maxProperties, maxTopics);
            && seen <= packet[e..]
            && (OnSuback(packet, maxProperties, maxTopics, q) == Ok(Reaction(SubackEvent(p.packetIdentifier), None))
                <==> forall i :: 0 <= i < |seen| ==> seen[i] == QosLevel(q))
  {
    hide SubackAt, SubackHeadAt, CodesSeen;
    SubackCodesExactly(packet, maxProperties, maxTopics);
    QosIsLevel(q);
    NoOtherMeansAll(LookedAt(packet, maxProperties, maxTopics), QosLevel(q));
  }

  /**
   What a reported success is worth. It means that each of the n topics was granted exactly the requested quality
   of service if and only if exactly n codes arrived and those the client did not look at say the same. It looks
   at all of them if the server encoded the remaining length without redundant bytes; then every topic is granted
   exactly if success is reported and n codes arrived.
   */
  lemma SubackGrantsExactly(packet: Slice, maxProperties: nat, maxTopics: nat, n: nat, q: QualityOfService)
    requires SubackHeadAt(packet, 0, NEW_SUBACK, maxProperties).Ok? && FrameLen(packet) == Ok(|packet|)
    requires n <= maxTopics
    ensures var (p, e) := SubackHeadAt(packet, 0, NEW_SUBACK, maxProperties).value;
            var codes, seen, granted := packet[e..], LookedAt(packet, maxProperties, maxTopics), QosLevel(q);
            var success := OnSuback(packet, maxProperties, maxTopics, q)
                == Ok(Reaction(SubackEvent(p.packetIdentifier), None));
            var width := VbiAt(packet, 1).value.1;
            && (success ==> (Granted(codes, n, granted)
                             <==> |codes| == n && forall i :: |seen| <= i < n ==> codes[i] == granted))
            && (width == 2 || packet[width - 1] != 0 ==> (success && |codes| == n <==> Granted(codes, n, granted)))
  {
    hide SubackAt, SubackHeadAt, CodesSeen, OnSuback, VbiAt, FrameLen;
    SubackExactly(packet, maxProperties, maxTopics, q);
    SubackCodesExactly(packet, maxProperties, maxTopics);
    var (p, e) := SubackHeadAt(packet, 0, NEW_SUBACK, maxProperties).value;
    var codes, seen := packet[e..], LookedAt(packet, maxProperties, maxTopics);
    assert forall i :: 0 <= i < |seen| ==> seen[i] == codes[i];
    if |codes| == n && e + CodesSeen(p.remainLen, e) == |packet| {
      assert seen == codes;
    }
  }

  /** Two answers that are reported as success although no topic is granted: no code at all, and a padded length. */
  lemma SubackMisreported(identifier: u16, maxProperties: nat, maxTopics: nat, q: QualityOfService)
    ensures OnSuback([0x90, 3] + BE16(identifier) + [0], maxProperties, maxTopics, q)
            == Ok(Reaction(SubackEvent(identifier), None))
    ensures OnSuback([0x90, 0x84, 0] + BE16(identifier) + [0, 0x80], maxProperties, maxTopics, q)
            == Ok(Reaction(SubackEvent(identifier), None))
  {
    hide BE16, SubackAt;
    NoCodes(identifier, maxProperties, maxTopics);
    PaddedLength(identifier, maxProperties, maxTopics);
  }

  lemma NoCodes(identifier: u16, maxProperties: nat, maxTopics: nat)
    ensures var p := SubackAt([0x90, 3] + BE16(identifier) + [0], 0, NEW_SUBACK, maxProperties, maxTopics);
            p.Ok? && p.value.packetIdentifier == identifier && p.value.reasonCodes == []
  {
    hide BE16, TypeOf, U16At;
    SubackTypeOf();
    var s := [0x90, 3] + BE16(identifier) + [0];
    assert Scan(s, 1, 0) == Ok(1) && VbiValue(s[1..2]) == 3 by { assert s[1..2] == [3] && [3][1..] == []; }
    assert At(s, 2, BE16(identifier));
    U16RoundTrip(s, 2, identifier);
    assert Scan(s, 4, 0) == Ok(1) && VbiValue(s[4..5]) == 0 by { assert s[4..5] == [0] && [0][1..] == []; }
    assert Vbi(3) == [3];
  }

  lemma PaddedLength(identifier: u16, maxProperties: nat, maxTopics: nat)
    ensures var p := SubackAt([0x90, 0x84, 0] + BE16(identifier) + [0, 0x80], 0, NEW_SUBACK, maxProperties, maxTopics);
            p.Ok? && p.value.packetIdentifier == identifier && p.value.reasonCodes == []
  {
    hide BE16, TypeOf, U16At;
    SubackTypeOf();
    var s := [0x90, 0x84, 0] + BE16(identifier) + [0, 0x80];
    assert Scan(s, 1, 0) == Scan(s, 1, 1) == Ok(2);
    assert VbiValue(s[1..3]) == 4 by {
      assert s[1..3] == [0x84, 0] && [0x84, 0][1..] == [0] && [0][1..] == [];
      assert VbiValue([0]) == 0;
    }
    assert At(s, 3, BE16(identifier));
    U16RoundTrip(s, 3, identifier);
    assert Scan(s, 5, 0) == Ok(1) && VbiValue(s[5..6]) == 0 by { assert s[5..6] == [0] && [0][1..] == []; }
    assert Vbi(4) == [4];
  }

  lemma SubackTypeOf()
    ensures TypeOf(0x90) == SubackType
  {
  }

  /**
   The codes of an UNSUBACK are not looked at, it only has to hold one. For an answer with one code the report
   therefore agrees with that code if and only if the code is a success (below 0x80).
   */
  lemma UnsubackIgnoresCode(
    packet: Slice, identifier: u16, properties: seq<Property>, codes: seq<byte>, maxProperties: nat
  )
    requires All(Exact, properties) && Total(Unread, properties) == 0
    requires |UnsubackBody(identifier, properties, codes)| <= MAX_ENCODABLE
    requires packet == Frame(0xB0, UnsubackBody(identifier, properties, codes))
    ensures OnUnsuback(packet, maxProperties)
            == if codes != [] then Ok(Reaction(UnsubackEvent(identifier), None)) else Err(BuffError)
    ensures |codes| == 1 ==>
              ((OnUnsuback(packet, maxProperties).Ok? <==> codes[0] < 0x80) <==> codes[0] < 0x80)
  {
    hide UnsubackAt, UnsubackBody, TypeOf, Exact, Unread, Vbi;
    UnsubackTypeOf();
    UnsubackReads(packet, 0xB0, identifier, properties, codes, maxProperties, 1);
  }

  lemma UnsubackTypeOf()
    ensures TypeOf(0xB0) == UnsubackType
  {
  }

  /** The one packet that `poll` reports as an accepted connection is a CONNACK with reason code 0. */
  lemma ConnackExactly(packet: Slice, limits: Limits, maxTopics: nat)
    ensures React(packet, limits.maxProperties, maxTopics, limits.q, limits.ackRoom) == Ok(Reaction(ConnackEvent, None))
            <==> (&& packet != [] && TypeOf(packet[0]) == ConnackType
                  && var p := ConnackAt(packet, 0, NEW_CONNACK, limits.maxProperties);
                     p.Ok? && p.value.connectReasonCode == 0)
  {
    hide ConnackAt, PubackAt, SubackAt, UnsubackAt, PingrespAt, DisconnectAt, P.DecodeAt, TypeOf, PubackBytes, QosBits;
  }

  /**
   Section 4.3.2, as a sender: the one packet that `poll` reports as the acknowledgement of `identifier` is a
   PUBACK with that identifier and reason code 0.
   */
  lemma PubackExactly(packet: Slice, limits: Limits, maxTopics: nat, identifier: u16)
    ensures React(packet, limits.maxProperties, maxTopics, limits.q, limits.ackRoom)
              == Ok(Reaction(PubackEvent(identifier), None))
            <==> (&& packet != [] && TypeOf(packet[0]) == PubackType
                  && var p := PubackAt(packet, 0, NEW_PUBACK, limits.maxProperties);
                     p.Ok? && p.value.packetIdentifier == identifier && p.value.reasonCode == 0)
  {
    hide ConnackAt, PubackAt, SubackAt, UnsubackAt, PingrespAt, DisconnectAt, P.DecodeAt, TypeOf, PubackBytes, QosBits;
  }

  /**
   The exchange of section 4.3.3 for QoS 2 is not carried on: its packets are answered by an error, and the only
   packet the client sends in answer to any packet is a PUBACK.
   */
  lemma Qos2NotCarriedOn(packet: Slice, limits: Limits, maxTopics: nat)
    ensures var r := React(packet, limits.maxProperties, maxTopics, limits.q, limits.ackRoom);
            && (packet != [] && TypeOf(packet[0]) in {PubrecType, PubrelType, PubcompType} ==>
                  r == Err(ImplementationSpecificError))
            && (r.Ok? && r.value.reply.Some? ==>
                  r.value.reply.value != [] && TypeOf(r.value.reply.value[0]) == PubackType)
  {
    hide ConnackAt, PubackAt, SubackAt, UnsubackAt, PingrespAt, DisconnectAt, P.DecodeAt, TypeOf, PubackBytes, QosBits,
         PubackSound;
    if packet != [] && TypeOf(packet[0]) == PublishType && P.DecodeAt(packet, 0, P.NEW_PUBLISH, 5).Ok? {
      AckBytes(P.DecodeAt(packet, 0, P.NEW_PUBLISH, 5).value.packetIdentifier);
      PubackTypeOf();
    }
  }

  // ---------------------------------------------------------------- a standard server's answers, under every split

  /** The answer is what `poll` reacts to, however the stream is split. */
  lemma AnswerArrives(script: seq<ReadEvent>, frame: Slice, tail: seq<byte>, limits: Limits, maxTopics: nat)
    requires Clean(script) && Stream(script) == frame + tail && FrameLen(frame) == Ok(|frame|)
    requires |frame| <= limits.bufferLen < SLICE_LIMIT && NeedOf(frame) <= limits.recvLen
    ensures Polled(script, limits, maxTopics)
            == React(frame, limits.maxProperties, maxTopics, limits.q, limits.ackRoom)
  {
    hide Receive, React, Stream, Clean, FrameLen, NeedOf;
    FrameLenPrefix(frame, tail);
    ReceivesFirstPacket(script, |frame|, limits.bufferLen, limits.recvLen);
    assert (frame + tail)[..|frame|] == frame;
  }

  /**
   A CONNACK with properties the code can read is reported as an accepted connection if and only if its reason code
   is 0, and as that reason otherwise. AuthenticationData may be the last of the properties.
   */
  lemma ConnackUnderstood(
    script: seq<ReadEvent>, limits: Limits, maxTopics: nat, flags: byte, code: byte, properties: seq<Property>,
    tail: seq<byte>
  )
    requires Recoverable(properties)
    requires var body := ConnackBody(flags, code, properties);
             && |body| <= MAX_ENCODABLE && Clean(script) && Stream(script) == Frame(0x20, body) + tail
             && |Frame(0x20, body)| <= limits.bufferLen < SLICE_LIMIT && 2 * |Frame(0x20, body)| <= limits.recvLen
    ensures Polled(script, limits, maxTopics)
            == if code == 0 then Ok(Reaction(ConnackEvent, None)) else Err(FromByte(code))
  {
    hide Polled, Stream, Clean, ConnackBody, ConnackAt, Recoverable, FrameLen, NeedOf, TypeOf, Vbi;
    var body := ConnackBody(flags, code, properties);
    var frame := Frame(0x20, body);
    AtWhole(frame);
    FrameHasItsLength(frame, 0x20, body);
    NeedOfFrame(frame);
    AnswerArrives(script, frame, tail, limits, maxTopics);
    ConnackTypeOf();
    ConnackReads(frame, 0x20, flags, code, properties, limits.maxProperties);
  }

  /**
   Whatever follows the reason code, a refusal is never reported as an accepted connection, nor the reverse: the
   report is the acceptance only for code 0, that code only for another one, and otherwise that the packet could
   not be read.
   */
  lemma ConnackNeverMisreported(
    script: seq<ReadEvent>, limits: Limits, maxTopics: nat, flags: byte, code: byte, rest: seq<byte>, tail: seq<byte>
  )
    requires var body := [flags] + [code] + rest;
             && |body| <= MAX_ENCODABLE && Clean(script) && Stream(script) == Frame(0x20, body) + tail
             && |Frame(0x20, body)| <= limits.bufferLen < SLICE_LIMIT && 2 * |Frame(0x20, body)| <= limits.recvLen
    ensures var r := Polled(script, limits, maxTopics);
            || r == (if code == 0 then Ok(Reaction(ConnackEvent, None)) else Err(FromByte(code)))
            || r == Err(BuffError)
            || r == Panic
  {
    hide Polled, Stream, Clean, ConnackAt, FrameLen, NeedOf, TypeOf, Vbi, PropsAt;
    var body := [flags] + [code] + rest;
    var frame := Frame(0x20, body);
    AtWhole(frame);
    FrameHasItsLength(frame, 0x20, body);
    NeedOfFrame(frame);
    AnswerArrives(script, frame, tail, limits, maxTopics);
    ConnackTypeOf();
    ConnackSaysSo(frame, 0x20, flags, code, rest, NEW_CONNACK, limits.maxProperties);
  }

  /**
   An accepted connection that is reported as an unreadable packet: AuthenticationData in front of the
   AuthenticationMethod it belongs to, as section 3.2 allows.
   */
  lemma AuthenticationMisread(maxProperties: nat)
    ensures var data := AuthenticationData(BinaryData([0xFF], 1));
            var name := AuthenticationMethod(EncodedString([0x41], 1));
            && All(Exact, [data, name])
            && Frame(0x20, ConnackBody(0, 0, [data, name])) == [0x20, 11, 0, 0, 8, 0x16, 0, 1, 0xFF, 0x15, 0, 1, 0x41]
            && OnConnack(Frame(0x20, ConnackBody(0, 0, [data, name])), maxProperties) == Err(BuffError)
  {
    hide ConnackAt, Vbi, TypeOf, PropsAt, Exact, PropertyBytes, Frame, ConnackBody;
    var data := AuthenticationData(BinaryData([0xFF], 1));
    var name := AuthenticationMethod(EncodedString([0x41], 1));
    TwoAuthenticationProperties(data, name);
    MisreadFrame([data, name]);
    var frame := Frame(0x20, ConnackBody(0, 0, [data, name]));
    AtWhole(frame);
    ConnackTypeOf();
    ConnackBlock(frame, 0x20, 0, 0, [data, name], maxProperties);
    MisreadBlock(frame);
  }

  lemma MisreadFrame(ps: seq<Property>)
    requires PropsBytes(ps) == [0x16, 0, 1, 0xFF, 0x15, 0, 1, 0x41]
    ensures |ConnackBody(0, 0, ps)| == 11 && |Vbi(11)| == 1
    ensures Frame(0x20, ConnackBody(0, 0, ps)) == [0x20, 11, 0, 0, 8, 0x16, 0, 1, 0xFF, 0x15, 0, 1, 0x41]
  {
    hide Vbi, PropsBytes;
    SmallVbi();
  }

  lemma SmallVbi()
    ensures Vbi(8) == [8] && Vbi(11) == [11]
  {
  }

  lemma TwoAuthenticationProperties(data: Property, name: Property)
    requires data == AuthenticationData(BinaryData([0xFF], 1)) && name == AuthenticationMethod(EncodedString([0x41], 1))
    ensures All(Exact, [data, name]) && Exact(data) && Unread(data) == 1 && EncodedLen(data) == 3
    ensures PropertyBytes(data) == [0x16, 0, 1, 0xFF]
    ensures PropsBytes([data, name]) == [0x16, 0, 1, 0xFF, 0x15, 0, 1, 0x41]
  {
    var ps := [data, name];
    assert ps[1..] == [name] && ps[1..][1..] == [];
    assert [0x41][1..] == [];
    assert Wire(PayloadOf(data)) == [0, 1, 0xFF] && Wire(PayloadOf(name)) == [0, 1, 0x41];
    assert PropertyBytes(data) == [0x16, 0, 1, 0xFF] && PropertyBytes(name) == [0x15, 0, 1, 0x41];
    assert PropsBytes([name]) == [0x15, 0, 1, 0x41] + PropsBytes([]);
    assert ValidUtf8([0x41]) && |Wire(PayloadOf(data))| < U16_MOD && |Wire(PayloadOf(name))| < U16_MOD;
    assert Exact(data) && Exact(name) && All(Exact, [name]);
  }

  lemma MisreadBlock(s: seq<byte>)
    requires s == [0x20, 11, 0, 0, 8, 0x16, 0, 1, 0xFF, 0x15, 0, 1, 0x41]
    ensures PropsAt(s, 4) == Err(IdNotFound)
  {
    hide PropertyAt, EncodedLen, PropertyBytes, Exact, Unread, VbiAt, Vbi, PropsLoop;
    var data := AuthenticationData(BinaryData([0xFF], 1));
    var name := AuthenticationMethod(EncodedString([0x41], 1));
    TwoAuthenticationProperties(data, name);
    SmallVbi();
    assert At(s, 4, Vbi(8));
    VbiAtRoundTrip(s, 4, 8);
    assert At(s, 5, PropertyBytes(data));
    PropertyRoundTrip(s, 5, data);
    UnknownProperty(s, 8);
    PropsStep(s, 5, 0, 8);
    PropsStep(s, 8, 4, 8);
  }

  lemma UnknownProperty(s: seq<byte>, pos: nat)
    requires pos < |s| && s[pos] == 0xFF
    ensures PropertyAt(s, pos) == Err(IdNotFound)
  {
  }

  lemma ConnackTypeOf()
    ensures TypeOf(0x20) == ConnackType
  {
  }

  /** The three forms of a PUBACK in section 3.4.2: without reason code, without properties, or with both. */
  datatype PubackForm = Short | WithReason(reason: byte) | Long(reason: byte, properties: seq<Property>)

  function FormBody(identifier: u16, form: PubackForm): seq<byte> {
    match form
    case Short => BE16(identifier)
    case WithReason(reason) => BE16(identifier) + [reason]
    case Long(reason, properties) => PubackBody(LongPuback(identifier, reason, properties))
  }

  function LongPuback(identifier: u16, reason: byte, properties: seq<Property>): Puback {
    NEW_PUBACK.(packetIdentifier := identifier, reasonCode := reason,
                propertyLen := |PropsBytes(properties)| % U32_MOD, properties := properties)
  }

  function FormReason(form: PubackForm): byte {
    match form
    case Short => 0
    case WithReason(reason) => reason
    case Long(reason, _) => reason
  }

  ghost predicate ProperForm(form: PubackForm) {
    form.Long? ==>
      && All(Exact, form.properties) && Total(Unread, form.properties) == 0
      && |PropsBytes(form.properties)| + 7 <= MAX_ENCODABLE
  }

  lemma PubackFormReads(s: seq<byte>, identifier: u16, form: PubackForm, cap: nat)
    requires ProperForm(form) && s == Frame(0x40, FormBody(identifier, form))
    ensures |FormBody(identifier, form)| <= MAX_ENCODABLE
    ensures var p := PubackAt(s, 0, NEW_PUBACK, cap);
            p.Ok? && p.value.packetIdentifier == identifier && p.value.reasonCode == FormReason(form)
  {
    hide Vbi, PubackAt, PropsBytes, Exact, Unread, BE16, TypeOf;
    AtWhole(s);
    PubackTypeOf();
    match form {
      case Short => PubackShortForms(s, 0x40, identifier, 0, cap);
      case WithReason(reason) => PubackShortForms(s, 0x40, identifier, reason, cap);
      case Long(reason, properties) =>
        var p := LongPuback(identifier, reason, properties);
        AllWritable(properties);
        VbiWidth(p.propertyLen);
        PubackIsFrame(p);
        PubackRoundTrip(s, p, cap);
    }
  }

  /**
   A PUBACK of section 3.4, in any of its forms, is reported as the acknowledgement if and only if its reason is 0.
   */
  lemma PubackUnderstood(
    script: seq<ReadEvent>, limits: Limits, maxTopics: nat, identifier: u16, form: PubackForm, tail: seq<byte>
  )
    requires ProperForm(form)
    requires var frame := Frame(0x40, FormBody(identifier, form));
             && Clean(script) && Stream(script) == frame + tail
             && |frame| <= limits.bufferLen < SLICE_LIMIT && 2 * |frame| <= limits.recvLen
    ensures Polled(script, limits, maxTopics) == Ok(Reaction(PubackEvent(identifier), None)) <==> FormReason(form) == 0
  {
    hide Polled, Stream, Clean, FormBody, PubackAt, React, FrameLen, NeedOf, TypeOf, Vbi, ProperForm;
    var body := FormBody(identifier, form);
    var frame := Frame(0x40, body);
    PubackFormReads(frame, identifier, form, limits.maxProperties);
    AtWhole(frame);
    FrameHasItsLength(frame, 0x40, body);
    NeedOfFrame(frame);
    AnswerArrives(script, frame, tail, limits, maxTopics);
    PubackTypeOf();
    PubackExactly(frame, limits, maxTopics, identifier);
  }

  /**
   The answer of a standard server to a subscription of n topics: every topic is granted the requested quality of
   service if and only if `poll` reports success and n codes arrived.
   */
  lemma SubackUnderstood(
    script: seq<ReadEvent>, limits: Limits, maxTopics: nat, n: nat, identifier: u16, properties: seq<Property>,
    codes: seq<byte>, tail: seq<byte>
  )
    requires All(Exact, properties) && Total(Unread, properties) == 0 && n <= maxTopics
    requires var body := SubackBody(identifier, properties, codes);
             && |body| <= MAX_ENCODABLE && Clean(script) && Stream(script) == Frame(0x90, body) + tail
             && |Frame(0x90, body)| <= limits.bufferLen < SLICE_LIMIT && 2 * |Frame(0x90, body)| <= limits.recvLen
    ensures Polled(script, limits, maxTopics) == Ok(Reaction(SubackEvent(identifier), None)) && |codes| == n
            <==> Granted(codes, n, QosLevel(limits.q))
  {
    hide Polled, Stream, Clean, SubackBody, SubackAt, Exact, Unread, FrameLen, NeedOf, TypeOf, Vbi;
    var body := SubackBody(identifier, properties, codes);
    var frame := Frame(0x90, body);
    AtWhole(frame);
    FrameHasItsLength(frame, 0x90, body);
    NeedOfFrame(frame);
    AnswerArrives(script, frame, tail, limits, maxTopics);
    SubackTypeOf();
    SubackReads(frame, 0x90, identifier, properties, codes, limits.maxProperties, maxTopics);
    QosIsLevel(limits.q);
    NoOtherMeansAll(Keep(codes, maxTopics), QosLevel(limits.q));
    if |codes| == n {
      assert Keep(codes, maxTopics) == codes;
    }
  }

  /** An UNSUBACK of section 3.11 is reported if and only if it holds a code. */
  lemma UnsubackUnderstood(
    script: seq<ReadEvent>, limits: Limits, maxTopics: nat, identifier: u16, properties: seq<Property>,
    codes: seq<byte>, tail: seq<byte>
  )
    requires All(Exact, properties) && Total(Unread, properties) == 0
    requires var body := UnsubackBody(identifier, properties, codes);
             && |body| <= MAX_ENCODABLE && Clean(script) && Stream(script) == Frame(0xB0, body) + tail
             && |Frame(0xB0, body)| <= limits.bufferLen < SLICE_LIMIT && 2 * |Frame(0xB0, body)| <= limits.recvLen
    ensures Polled(script, limits, maxTopics)
            == if codes != [] then Ok(Reaction(UnsubackEvent(identifier), None)) else Err(BuffError)
  {
    hide Polled, React, OnUnsuback, Stream, Clean, UnsubackBody, Exact, Unread, FrameLen, NeedOf, TypeOf, Vbi;
    var body := UnsubackBody(identifier, properties, codes);
    var frame := Frame(0xB0, body);
    AtWhole(frame);
    FrameHasItsLength(frame, 0xB0, body);
    NeedOfFrame(frame);
    AnswerArrives(script, frame, tail, limits, maxTopics);
    ReactByType(frame, limits, maxTopics);
    UnsubackIgnoresCode(frame, identifier, properties, codes, limits.maxProperties);
  }

  /** A PINGRESP of section 3.13 is the two bytes D0 00, and no other packet of that type is one. */
  lemma PingrespUnderstood(script: seq<ReadEvent>, limits: Limits, maxTopics: nat, tail: seq<byte>)
    requires Clean(script) && Stream(script) == [0xD0, 0x00] + tail
    requires 2 <= limits.bufferLen < SLICE_LIMIT && limits.recvLen >= 4
    ensures Polled(script, limits, maxTopics) == Ok(Reaction(PingrespEvent, None))
  {
    hide Polled, React, OnPingresp, Stream, Clean, FrameLen, NeedOf, Vbi;
    OneByteLength(0);
    var frame := [0xD0, 0x00];
    assert frame == Frame(0xD0, []);
    AtWhole(frame);
    FrameHasItsLength(frame, 0xD0, []);
    NeedOfFrame(frame);
    AnswerArrives(script, frame, tail, limits, maxTopics);
    ReactByType(frame, limits, maxTopics);
    PingrespExactly(frame, 0xD0, []);
  }

  lemma OneByteLength(n: nat)
    requires n < 128
    ensures Vbi(n) == [n]
  {
  }

  lemma PingrespExactly(packet: Slice, header: byte, body: seq<byte>)
    requires header / 16 == 13 && |body| <= MAX_ENCODABLE && packet == Frame(header, body)
    ensures OnPingresp(packet) == Ok(Reaction(PingrespEvent, None)) <==> body == []
  {
    hide Vbi, VbiAt, HeaderAt;
    AtWhole(packet);
    FrameHasItsLength(packet, header, body);
  }

  /** A DISCONNECT of section 3.14 is reported with its reason code; without one the reason is 0. */
  lemma DisconnectUnderstood(
    script: seq<ReadEvent>, limits: Limits, maxTopics: nat, reason: Option<byte>, properties: seq<Property>,
    tail: seq<byte>
  )
    requires Recoverable(properties) && |PropsBytes(properties)| + 5 <= MAX_ENCODABLE
    requires var block := Vbi(|PropsBytes(properties)|) + PropsBytes(properties);
             var frame := Frame(0xE0, if reason.Some? then [reason.value] + block else []);
             && Clean(script) && Stream(script) == frame + tail
             && |frame| <= limits.bufferLen < SLICE_LIMIT && 2 * |frame| <= limits.recvLen
    ensures Polled(script, limits, maxTopics)
            == Ok(Reaction(DisconnectEvent(FromByte(if reason.Some? then reason.value else 0)), None))
  {
    hide Polled, React, Stream, Clean, Recoverable, PropsBytes, FrameLen, NeedOf, Vbi, VbiAt, PropsAt, HeaderAt, TypeOf;
    var n := |PropsBytes(properties)|;
    VbiWidth(n);
    var block := Vbi(n) + PropsBytes(properties);
    var body := if reason.Some? then [reason.value] + block else [];
    var frame := Frame(0xE0, body);
    AtWhole(frame);
    FrameHasItsLength(frame, 0xE0, body);
    NeedOfFrame(frame);
    AnswerArrives(script, frame, tail, limits, maxTopics);
    ReactByType(frame, limits, maxTopics);
    DisconnectTypeOf();
    if reason.Some? {
      var q := 1 + |Vbi(|body|)|;
      AtSplit(frame, q, [reason.value], block);
      AtSplit(frame, q + 1, Vbi(n), PropsBytes(properties));
      U8RoundTrip(frame, q, reason.value);
      RecoverableReads(frame, q + 1, properties);
    }
  }

  lemma DisconnectTypeOf()
    ensures TypeOf(0xE0) == DisconnectType
  {
  }
}
