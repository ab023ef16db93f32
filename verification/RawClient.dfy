/**
 The client's methods, step by step (rust-mqtt/src/client/raw_client.rs and client.rs). Each is tied to the
 reactions and packets of `Clients`.
 */
module RawClient {
  import opened Base
  import opened VarInt
  import opened Types
  import opened Lists
  import opened Properties
  import opened BuffReaders
  import opened Packets
  import opened Acks
  import opened Framing
  import opened Clients
  import opened Rng
  import P = Publishes
  import S = Subscriptions
  import C = Connects

  /** The parts of `ClientConfig` the client reads. */
  datatype Config = Config(
    maxSubscribeQos: QualityOfService,
    keepAlive: u16,
    username: Option<EncodedString>,
    password: Option<BinaryData>,
    properties: seq<Property>,
    maxPacketSize: u32,
    will: Option<(EncodedString, BinaryData, bool)>,
    clientId: EncodedString)

  /** `add_max_packet_size_as_prop`, on every connect. */
  function WithPacketSize(config: Config, cap: nat): Config {
    config.(properties := Push(config.properties, MaximumPacketSize(config.maxPacketSize), cap))
  }

  function ConnectFlags(config: Config): byte {
    var f0: byte := 0x02;
    var f1 := if config.username.Some? then SetBit(f0, C.USERNAME_FLAG) else f0;
    var f2 := if config.password.Some? then SetBit(f1, C.PASSWORD_FLAG) else f1;
    if config.will.None? then f2
    else if config.will.value.2 then SetBit(SetBit(f2, C.WILL_FLAG), C.WILL_RETAIN_FLAG)
    else SetBit(f2, C.WILL_FLAG)
  }

  /** A CONNECT packet with the client's identity filled in. */
  function Identified(c: C.Connect, config: Config): C.Connect {
    c.(
      username := if config.username.Some? then config.username.value else NO_STRING,
      password := if config.password.Some? then config.password.value else NO_BINARY,
      willTopic := if config.will.Some? then config.will.value.0 else NO_STRING,
      willPayload := if config.will.Some? then config.will.value.1 else NO_BINARY,
      connectFlags := ConnectFlags(config),
      clientId := config.clientId)
  }

  /** The CONNECT packet `connect_to_broker` sends. */
  function ConnectFor(config: Config, cap: nat): C.Connect {
    var allowed := Filter(ConnectProperty, config.properties);
    Identified(
      C.NEW_CONNECT.(
        keepAlive := config.keepAlive,
        properties := Keep(allowed, cap),
        propertyLen := Total(AnnouncedLen, allowed) % U32_MOD),
      config)
  }

  /** The two acknowledge the same kind of request. */
  predicate SameKind(a: Event, b: Event) {
    || (a.PubackEvent? && b.PubackEvent?)
    || (a.SubackEvent? && b.SubackEvent?)
    || (a.UnsubackEvent? && b.UnsubackEvent?)
  }

  /**
   What has been sent, and what the caller gets, when a request was out and the packet that came next was reacted
   to. Only the wanted event is success; a message instead of it is acknowledged, if that write succeeds, and lost.
   */
  ghost predicate Exchanged(
    before: seq<seq<byte>>, request: seq<byte>, wanted: Event, answer: Reacted, up: bool,
    now: seq<seq<byte>>, r: Result<(), ReasonCode>
  ) {
    match answer
    case Panic => now == before + [request] && r == Panic
    case Err(e) => now == before + [request] && r == Err(e)
    case Ok(a) =>
      if a.reply.Some? && up then
        now == before + [request] + [a.reply.value] && r == Err(ImplementationSpecificError)
      else
        && now == before + [request]
        && r == if a.reply.Some? then Err(NetworkError)
                else if a.event == wanted then Ok(())
                else if a.event.DisconnectEvent? then Err(a.event.reason)
                else if SameKind(a.event, wanted) then Err(PacketIdentifierNotFound)
                else Err(ImplementationSpecificError)
  }

  /** So the caller gets success exactly for the wanted event. */
  lemma SuccessExactly(
    before: seq<seq<byte>>, request: seq<byte>, wanted: Event, answer: Reacted, up: bool,
    now: seq<seq<byte>>, r: Result<(), ReasonCode>
  )
    requires Exchanged(before, request, wanted, answer, up, now, r)
    requires OnlyMessagesReply(answer) && !wanted.Message?
    ensures r.Ok? <==> answer == Ok(Reaction(wanted, None))
    ensures r.Panic? <==> answer.Panic?
  {
  }

  class RawMqttClient {
    var connection: Connection?
    const buffer: array<byte>
    const bufferLen: nat
    const recvBuffer: array<byte>
    const recvBufferLen: nat
    const maxProperties: nat
    const rng: CountingRng
    var config: Config

    ghost predicate Valid()
      reads this
    {
      && bufferLen <= buffer.Length < SLICE_LIMIT
      && recvBufferLen <= recvBuffer.Length
      && buffer != recvBuffer
      && |config.properties| <= maxProperties
    }

    constructor (
      connection: Connection, buffer: array<byte>, bufferLen: nat, recvBuffer: array<byte>, recvBufferLen: nat,
      maxProperties: nat, rng: CountingRng, config: Config
    )
      requires bufferLen <= buffer.Length < SLICE_LIMIT && recvBufferLen <= recvBuffer.Length && buffer != recvBuffer
      requires |config.properties| <= maxProperties
      ensures Valid() && this.connection == connection && this.rng == rng && this.config == config
      ensures this.buffer == buffer && this.recvBuffer == recvBuffer && this.maxProperties == maxProperties
      ensures this.bufferLen == bufferLen && this.recvBufferLen == recvBufferLen
    {
      this.connection, this.maxProperties, this.rng, this.config := connection, maxProperties, rng, config;
      this.buffer, this.bufferLen := buffer, bufferLen;
      this.recvBuffer, this.recvBufferLen := recvBuffer, recvBufferLen;
    }

    ghost function Limits(): Clients.Limits
      reads this
    {
      Clients.Limits(bufferLen, recvBuffer.Length, recvBufferLen, maxProperties, config.maxSubscribeQos)
    }

    /** If there is a packet at the front of `incoming`, it is in the buffer and the connection continues behind it. */
    ghost predicate Holds(incoming: seq<ReadEvent>)
      requires Valid() && connection != null
      reads this, buffer, connection
    {
      var (packet, rest) := Receive(incoming, bufferLen, recvBuffer.Length);
      packet.Ok? ==> connection.incoming == rest && packet.value <= buffer[..]
    }

    /** `r` and what was sent are what `reaction` says; a reply may be lost to a failing write. */
    twostate predicate Reacts(conn: Connection, new reaction: Reacted, new r: Result<Event, ReasonCode>)
      reads conn
    {
      if reaction.Ok? && reaction.value.reply.Some? then
        && conn.outgoing == Later(old(conn.outgoing))
        && if Up(old(conn.outgoing)) then
             r == Ok(reaction.value.event) && conn.sent == old(conn.sent) + [reaction.value.reply.value]
           else r == Err(NetworkError) && conn.sent == old(conn.sent)
      else
        && r == Reported(reaction)
        && conn.sent == old(conn.sent) && conn.outgoing == old(conn.outgoing)
    }

    method PollPublish(read: nat, conn: Connection) returns (r: Result<Event, ReasonCode>)
      requires Valid() && read <= bufferLen
      modifies recvBuffer, conn`sent, conn`outgoing
      ensures Reacts(conn, OnPublish(buffer[..read], recvBufferLen), r)
      ensures buffer[..read] == old(buffer[..read])
    {
      hide P.DecodeAt, QosBits;
      var packet := new P.PublishPacket(5);
      var reader := new BuffReader(buffer, read);
      var decoded := packet.Decode(reader);
      if !decoded.Ok? {
        return Lift(decoded.PropagateFailure());
      }
      if QosBits(packet.fixedHeader) == QosByte(QoS1) {
        var puback := new PubackPacket(maxProperties);
        puback.packetIdentifier := packet.packetIdentifier;
        puback.reasonCode := 0;
        AckBytes(packet.packetIdentifier);
        assert puback.Value() == AckFor(packet.packetIdentifier);
        var n := puback.Encode(recvBuffer, recvBufferLen);
        if !n.Ok? {
          return Err(BuffError);
        }
        var _ :- conn.Send(recvBuffer[..n.value]);
      }
      return Ok(Message(packet.topicName.text, packet.message.value));
    }

    method PollConnack(read: nat) returns (r: Result<Event, ReasonCode>)
      requires Valid() && read <= bufferLen
      ensures r == Reported(OnConnack(buffer[..read], maxProperties))
    {
      hide ConnackAt;
      var packet := new ConnackPacket(maxProperties);
      var reader := new BuffReader(buffer, read);
      var decoded := packet.Decode(reader);
      if !decoded.Ok? {
        return Lift(decoded.PropagateFailure());
      }
      return if packet.connectReasonCode != 0 then Err(FromByte(packet.connectReasonCode)) else Ok(ConnackEvent);
    }

    method PollPuback(read: nat) returns (r: Result<Event, ReasonCode>)
      requires Valid() && read <= bufferLen
      ensures r == Reported(OnPuback(buffer[..read], maxProperties))
    {
      hide PubackAt;
      var packet := new PubackPacket(maxProperties);
      var reader := new BuffReader(buffer, read);
      var decoded := packet.Decode(reader);
      if !decoded.Ok? {
        return Lift(decoded.PropagateFailure());
      }
      return if packet.reasonCode != 0 then Err(FromByte(packet.reasonCode))
          else Ok(PubackEvent(packet.packetIdentifier));
    }

    method PollSuback(read: nat, maxTopics: nat) returns (r: Result<Event, ReasonCode>)
      requires Valid() && read <= bufferLen
      ensures r == Reported(OnSuback(buffer[..read], maxProperties, maxTopics, config.maxSubscribeQos))
    {
      hide SubackAt;
      var packet := new SubackPacket(maxTopics, maxProperties);
      var reader := new BuffReader(buffer, read);
      var decoded := packet.Decode(reader);
      if !decoded.Ok? {
        return Lift(decoded.PropagateFailure());
      }
      var reasons := packet.reasonCodes;
      for i := 0 to |reasons|
        invariant FirstOther(reasons, QosByte(config.maxSubscribeQos) / 2)
            == FirstOther(reasons[i..], QosByte(config.maxSubscribeQos) / 2)
      {
        assert reasons[i..][1..] == reasons[i + 1..];
        if reasons[i] != QosByte(config.maxSubscribeQos) / 2 {
          return Err(FromByte(reasons[i]));
        }
      }
      return Ok(SubackEvent(packet.packetIdentifier));
    }

    method PollUnsuback(read: nat) returns (r: Result<Event, ReasonCode>)
      requires Valid() && read <= bufferLen
      ensures r == Reported(OnUnsuback(buffer[..read], maxProperties))
    {
      hide UnsubackAt;
      var packet := new UnsubackPacket(1, maxProperties);
      var reader := new BuffReader(buffer, read);
      var decoded := packet.Decode(reader);
      if !decoded.Ok? {
        return Lift(decoded.PropagateFailure());
      }
      return Ok(UnsubackEvent(packet.packetIdentifier));
    }

    method PollPingresp(read: nat) returns (r: Result<Event, ReasonCode>)
      requires Valid() && read <= bufferLen
      ensures r == Reported(OnPingresp(buffer[..read]))
    {
      hide PingrespAt;
      var reader := new BuffReader(buffer, read);
      var decoded := DecodePingresp(reader);
      if !decoded.Ok? {
        return Lift(decoded.PropagateFailure());
      }
      return Ok(PingrespEvent);
    }

    method PollDisconnect(read: nat) returns (r: Result<Event, ReasonCode>)
      requires Valid() && read <= bufferLen
      ensures r == Reported(OnDisconnect(buffer[..read]))
    {
      hide DisconnectAt;
      var packet := new DisconnectPacket(5);
      var reader := new BuffReader(buffer, read);
      var decoded := packet.Decode(reader);
      if !decoded.Ok? {
        return Lift(decoded.PropagateFailure());
      }
      return Ok(DisconnectEvent(FromByte(packet.disconnectReason)));
    }

    /** The `match` of `poll` on the first byte of the packet in `buffer[..read]`. */
    method Dispatch(read: nat, maxTopics: nat, conn: Connection) returns (r: Result<Event, ReasonCode>)
      requires Valid() && read <= bufferLen
      modifies recvBuffer, conn`sent, conn`outgoing
      ensures Reacts(conn, React(buffer[..read], maxProperties, maxTopics, config.maxSubscribeQos, recvBufferLen), r)
      ensures buffer[..read] == old(buffer[..read])
    {
      hide OnConnack, OnPuback, OnSuback, OnUnsuback, OnPingresp, OnPublish, OnDisconnect, TypeOf;
      var reader := new BuffReader(buffer, read);
      var first := reader.PeekU8();
      if !first.Ok? {
        return Err(BuffError);
      }
      match TypeOf(first.value)
      case ConnackType => r := PollConnack(read);
      case PubackType => r := PollPuback(read);
      case SubackType => r := PollSuback(read, maxTopics);
      case UnsubackType => r := PollUnsuback(read);
      case PingrespType => r := PollPingresp(read);
      case PublishType => r := PollPublish(read, conn);
      case DisconnectType => r := PollDisconnect(read);
      case PubrecType => r := Err(ImplementationSpecificError);
      case PubrelType => r := Err(ImplementationSpecificError);
      case PubcompType => r := Err(ImplementationSpecificError);
      case AuthType => r := Err(ImplementationSpecificError);
      case _ => r := Err(ProtocolError);
    }

    /**
     `poll`: the next packet of the stream is received and reacted to. The packet is still in `buffer`
     afterwards, so the topic and payload that are returned are its bytes, whatever was sent in reply.
     */
    method Poll(maxTopics: nat) returns (r: Result<Event, ReasonCode>)
      requires Valid()
      modifies buffer, recvBuffer, connection
      ensures connection == null ==> r == Err(NetworkError)
      ensures connection != null ==> Holds(old(connection.incoming))
      ensures connection != null ==> Reacts(connection, Polled(old(connection.incoming), Limits(), maxTopics), r)
    {
      hide Receive, React;
      if connection == null {
        return Err(NetworkError);
      }
      var read :- ReceivePacket(buffer, bufferLen, recvBuffer, connection);
      r := Dispatch(read, maxTopics, connection);
    }

    /** An encoded request in the buffer is sent; an encoding error is reported as `BuffError`. */
    method SendRequest(n: Result<nat, BufferError>, conn: Connection) returns (r: Result<(), ReasonCode>)
      requires n.Ok? ==> n.value <= buffer.Length
      modifies conn`sent, conn`outgoing
      ensures n.Panic? <==> r.Panic?
      ensures !n.Ok? ==> conn.sent == old(conn.sent) && conn.outgoing == old(conn.outgoing)
      ensures n.Err? ==> r == Err(BuffError)
      ensures n.Ok? ==> conn.outgoing == Later(old(conn.outgoing))
      ensures n.Ok? ==>
                if Up(old(conn.outgoing)) then r == Ok(()) && conn.sent == old(conn.sent) + [buffer[..n.value]]
                else r == Err(NetworkError) && conn.sent == old(conn.sent)
    {
      if n.Panic? {
        return Panic;
      }
      if n.Err? {
        return Err(BuffError);
      }
      r := conn.Send(buffer[..n.value]);
    }

    /** `send_message_v5`: draws an identifier, encodes the packet and sends it. */
    method SendMessageV5(topic: seq<byte>, message: Slice, q: QualityOfService, retain: bool, conn: Connection)
      returns (r: Result<u16, ReasonCode>)
      requires Valid() && conn == connection
      modifies rng, buffer, conn`sent, conn`outgoing
      ensures rng.value == Step(old(rng.value))
      ensures var p := P.Outgoing(topic, message, q, retain, Step(old(rng.value)));
              var fits := P.Encodable(p) && |P.Bytes(p)| <= bufferLen;
              && (!fits ==> r == Err(BuffError))
              && (fits && !Up(old(conn.outgoing)) ==> r == Err(NetworkError))
              && (fits && Up(old(conn.outgoing)) ==>
                    && r == Ok(Step(old(rng.value))) && conn.sent == old(conn.sent) + [P.Bytes(p)]
                    && conn.outgoing == Later(old(conn.outgoing)))
              && (!r.Ok? ==> conn.sent == old(conn.sent))
    {
      hide P.Body, P.Remaining, OrQos;
      var identifier := rng.NextIdentifier();
      var packet := new P.PublishPacket(maxProperties);
      packet.AddTopicName(topic);
      packet.AddQos(q);
      packet.AddIdentifier(identifier);
      packet.AddMessage(message);
      packet.AddRetain(retain);
      assert packet.Value() == P.Outgoing(topic, message, q, retain, identifier);
      MessageEncodes(topic, message, q, retain, identifier);
      var n := packet.Encode(buffer, bufferLen);
      var _ :- SendRequest(n, conn);
      return Ok(identifier);
    }

    /**
     `send_message`: at QoS 1, once the request is out, success means that the next packet of the stream is
     the PUBACK for the identifier just drawn, and nothing else means it.
     */
    method SendMessage(
      topic: seq<byte>, message: Slice, q: QualityOfService, retain: bool
    ) returns (r: Result<(), ReasonCode>)
      requires Valid()
      modifies rng, buffer, recvBuffer, connection
      ensures connection == null ==> r == Err(NetworkError)
      ensures connection != null ==>
                var identifier := Step(old(rng.value));
                var p := P.Outgoing(topic, message, q, retain, identifier);
                var fits := P.Encodable(p) && |P.Bytes(p)| <= bufferLen;
                var out := fits && Up(old(connection.outgoing));
                && (!fits ==> r == Err(BuffError) && connection.sent == old(connection.sent))
                && (fits && !out ==> r == Err(NetworkError) && connection.sent == old(connection.sent))
                && (out && q != QoS1 ==> r == Ok(()) && connection.sent == old(connection.sent) + [P.Bytes(p)])
                && (out && q == QoS1 ==>
                      var answer, up := Polled(old(connection.incoming), Limits(), 0),
                          Up(Later(old(connection.outgoing)));
                      Exchanged(old(connection.sent), P.Bytes(p), PubackEvent(identifier), answer, up,
                          connection.sent, r))
    {
      hide Polled, P.Encodable, P.Bytes, P.Outgoing, Receive, Up, Later;
      if connection == null {
        return Err(NetworkError);
      }
      var identifier :- SendMessageV5(topic, message, q, retain, connection);
      if q == QoS1 {
        var event :- Poll(0);
        match event
        case PubackEvent(ack) => return if ack == identifier then Ok(()) else Err(PacketIdentifierNotFound);
        case DisconnectEvent(reason) => return Err(reason);
        case _ => return Err(ImplementationSpecificError);
      }
      return Ok(());
    }

    /** `subscribe_to_topics_v5` (and `unsubscribe_from_topic_v5`, for one topic): `cap` is the vector's capacity. */
    method SendSubscription(sub: bool, topics: seq<seq<byte>>, cap: nat, q: QualityOfService, conn: Connection)
      returns (r: Result<u16, ReasonCode>)
      requires Valid() && conn == connection && |topics| <= cap
      modifies rng, buffer, conn`sent, conn`outgoing
      ensures rng.value == Step(old(rng.value))
      ensures var p := S.For(sub, Step(old(rng.value)), topics, q);
              var fits := S.Encodable(sub, p) && |S.Bytes(sub, p)| <= bufferLen;
              && (r.Panic? <==> |topics| % U16_MOD == 0)
              && (!fits && |topics| % U16_MOD != 0 ==> r == Err(BuffError))
              && (fits && !Up(old(conn.outgoing)) ==> r == Err(NetworkError))
              && (fits && Up(old(conn.outgoing)) ==>
                    && r == Ok(Step(old(rng.value))) && conn.sent == old(conn.sent) + [S.Bytes(sub, p)]
                    && conn.outgoing == Later(old(conn.outgoing)))
              && (!r.Ok? ==> conn.sent == old(conn.sent))
    {
      hide S.Body, S.FilterLen, Total, FilterCovered, S.Remaining;
      var identifier := rng.NextIdentifier();
      var packet := new S.SubscriptionPacket(sub, cap, maxProperties);
      packet.packetIdentifier := identifier;
      assert S.FiltersFor(sub, topics[..0], q) == [];
      for i := 0 to |topics|
        invariant packet.Value() == S.For(sub, identifier, topics[..i], q)
        invariant conn.sent == old(conn.sent) && conn.outgoing == old(conn.outgoing) && rng.value == identifier
      {
        S.AddedOne(sub, cap, identifier, topics, i, q);
        packet.AddNewFilter(topics[i], q);
      }
      assert topics[..|topics|] == topics;
      S.FiltersCovered(sub, topics, q);
      S.EmptyRequestPanics(sub, identifier, topics, q);
      var n := packet.Encode(buffer, bufferLen);
      var _ :- SendRequest(n, conn);
      return Ok(identifier);
    }

    /**
     `subscribe_to_topics`: once the request is out, success means that the next packet is reported as a SUBACK
     for its identifier; `Clients.SubackGrantsExactly` says what that is worth for the topics. An empty list of
     topics panics.
     */
    method SubscribeToTopics(topics: seq<seq<byte>>, cap: nat) returns (r: Result<(), ReasonCode>)
      requires Valid() && |topics| <= cap
      modifies rng, buffer, recvBuffer, connection
      ensures connection == null ==> r == Err(NetworkError)
      ensures connection != null ==>
                var identifier := Step(old(rng.value));
                var p := S.For(true, identifier, topics, config.maxSubscribeQos);
                var fits := S.Encodable(true, p) && |S.Bytes(true, p)| <= bufferLen;
                var out := fits && Up(old(connection.outgoing));
                && (|topics| % U16_MOD == 0 ==> r == Panic)
                && (!fits && |topics| % U16_MOD != 0 ==> r == Err(BuffError))
                && (fits && !out ==> r == Err(NetworkError))
                && (!out ==> connection.sent == old(connection.sent))
                && (out ==>
                      var answer, up := Polled(old(connection.incoming), Limits(), cap),
                          Up(Later(old(connection.outgoing)));
                      Exchanged(old(connection.sent), S.Bytes(true, p), SubackEvent(identifier), answer, up,
                          connection.sent, r))
    {
      hide Polled, S.Encodable, S.Bytes, S.For, Receive, Up, Later;
      if connection == null {
        return Err(NetworkError);
      }
      var identifier :- SendSubscription(true, topics, cap, config.maxSubscribeQos, connection);
      var event :- Poll(cap);
      match event
      case SubackEvent(ack) => return if ack == identifier then Ok(()) else Err(PacketIdentifierNotFound);
      case DisconnectEvent(reason) => return Err(reason);
      case _ => return Err(ImplementationSpecificError);
    }

    /** `unsubscribe_from_topic`. */
    method UnsubscribeFromTopic(topic: seq<byte>) returns (r: Result<(), ReasonCode>)
      requires Valid()
      modifies rng, buffer, recvBuffer, connection
      ensures connection == null ==> r == Err(NetworkError)
      ensures connection != null ==>
                var identifier := Step(old(rng.value));
                var p := S.For(false, identifier, [topic], QoS0);
                var fits := S.Encodable(false, p) && |S.Bytes(false, p)| <= bufferLen;
                var out := fits && Up(old(connection.outgoing));
                && (!fits ==> r == Err(BuffError))
                && (fits && !out ==> r == Err(NetworkError))
                && (!out ==> connection.sent == old(connection.sent))
                && (out ==>
                      var answer, up := Polled(old(connection.incoming), Limits(), 0),
                          Up(Later(old(connection.outgoing)));
                      Exchanged(old(connection.sent), S.Bytes(false, p), UnsubackEvent(identifier), answer, up,
                          connection.sent, r))
    {
      hide Polled, S.Encodable, S.Bytes, S.For, Receive, Up, Later;
      if connection == null {
        return Err(NetworkError);
      }
      var identifier :- SendSubscription(false, [topic], 1, QoS0, connection);
      var event :- Poll(0);
      match event
      case UnsubackEvent(ack) => return if ack == identifier then Ok(()) else Err(PacketIdentifierNotFound);
      case DisconnectEvent(reason) => return Err(reason);
      case _ => return Err(ImplementationSpecificError);
    }

    /** User name, password, will and client identifier, each with its flag. */
    method AddIdentity(packet: C.ConnectPacket)
      requires packet.connectFlags == 0x02 && packet.username == NO_STRING && packet.password == NO_BINARY
      requires packet.willTopic == NO_STRING && packet.willPayload == NO_BINARY
      modifies packet
      ensures packet.Value() == Identified(old(packet.Value()), config)
    {
      hide SetBit;
      ghost var c0, f0: byte := packet.Value(), 0x02;
      if config.username.Some? {
        packet.AddUsername(config.username.value);
      }
      ghost var f1 := if config.username.Some? then SetBit(f0, C.USERNAME_FLAG) else f0;
      ghost var c1 := c0.(username := if config.username.Some? then config.username.value else NO_STRING,
          connectFlags := f1);
      assert packet.Value() == c1;
      if config.password.Some? {
        packet.AddPassword(config.password.value);
      }
      ghost var f2 := if config.password.Some? then SetBit(f1, C.PASSWORD_FLAG) else f1;
      ghost var c2 := c1.(password := if config.password.Some? then config.password.value else NO_BINARY,
          connectFlags := f2);
      assert packet.Value() == c2;
      if config.will.Some? {
        packet.AddWill(config.will.value.0, config.will.value.1, config.will.value.2);
      }
      assert packet.Value() == c2.(
        willTopic := if config.will.Some? then config.will.value.0 else NO_STRING,
        willPayload := if config.will.Some? then config.will.value.1 else NO_BINARY,
        connectFlags := ConnectFlags(config));
      packet.AddClientId(config.clientId);
    }

    method BuildConnect() returns (packet: C.ConnectPacket)
      requires Valid()
      ensures fresh(packet) && packet.Value() == ConnectFor(config, maxProperties)
    {
      hide EncodedLen, ConnectFlags, Filter, Keep, ConnectProperty, Identified, Total;
      packet := new C.ConnectPacket(maxProperties, 0);
      packet.keepAlive := config.keepAlive;
      ConnectMeasurable(config.properties);
      var added;
      added, packet.properties := AddProperties(ConnectProperty, packet.properties, maxProperties, config.properties);
      assert [] + Filter(ConnectProperty, config.properties) == Filter(ConnectProperty, config.properties);
      packet.propertyLen := added.value;
      AddIdentity(packet);
    }

    /** `connect_to_broker_v5`: the packet for the configuration, whose properties it extends first. */
    method SendConnect(conn: Connection) returns (r: Result<(), ReasonCode>)
      requires Valid() && conn == connection
      modifies this`config, buffer, conn`sent, conn`outgoing
      ensures Valid() && config == WithPacketSize(old(config), maxProperties)
      ensures var c := ConnectFor(config, maxProperties);
              var fits := C.Encodable(c) && |C.Bytes(c)| <= bufferLen;
              && (!fits ==>
                    (r == Err(BuffError) || (r == Panic && !(All(Writable, c.properties) && C.PayloadEncodable(c)))))
              && (fits && !Up(old(conn.outgoing)) ==> r == Err(NetworkError))
              && (fits && Up(old(conn.outgoing)) ==>
                    && r == Ok(()) && conn.sent == old(conn.sent) + [C.Bytes(c)]
                    && conn.outgoing == Later(old(conn.outgoing)))
              && (!r.Ok? ==> conn.sent == old(conn.sent))
    {
      hide C.Remaining, C.Body, ConnectFor, C.Encodable;
      config := WithPacketSize(config, maxProperties);
      var packet := BuildConnect();
      var n := packet.Encode(buffer, bufferLen);
      r := SendRequest(n, conn);
    }

    /** `connect_to_broker`: success means a CONNACK with reason code 0, and nothing else. */
    method ConnectToBroker() returns (r: Result<(), ReasonCode>)
      requires Valid()
      modifies this`config, buffer, recvBuffer, connection
      ensures connection == null ==> r == Err(NetworkError) && config == old(config)
      ensures connection != null ==>
                var c := ConnectFor(config, maxProperties);
                var fits := C.Encodable(c) && |C.Bytes(c)| <= bufferLen;
                var out := fits && Up(old(connection.outgoing));
                && config == WithPacketSize(old(config), maxProperties)
                && (!fits ==>
                      (r == Err(BuffError) || (r == Panic && !(All(Writable, c.properties) && C.PayloadEncodable(c)))))
                && (fits && !out ==> r == Err(NetworkError))
                && (!out ==> connection.sent == old(connection.sent))
                && (out ==>
                      var answer, up := Polled(old(connection.incoming), Limits(), 0),
                          Up(Later(old(connection.outgoing)));
                      Exchanged(old(connection.sent), C.Bytes(c), ConnackEvent, answer, up, connection.sent, r))
    {
      hide Polled, C.Encodable, C.Bytes, ConnectFor, Receive, WithPacketSize, Up, Later;
      if connection == null {
        return Err(NetworkError);
      }
      var _ :- SendConnect(connection);
      var event :- Poll(0);
      match event
      case ConnackEvent => return Ok(());
      case DisconnectEvent(reason) => return Err(reason);
      case _ => return Err(ImplementationSpecificError);
    }

    /** `disconnect_v5`: the connection is dropped whether the packet could be sent or not. */
    method Disconnect() returns (r: Result<(), ReasonCode>)
      requires Valid()
      modifies this`connection, buffer, connection
      ensures connection == null
      ensures old(connection) == null ==> r == Err(NetworkError)
      ensures old(connection) != null ==>
                && (bufferLen < 4 ==> r == Err(BuffError) && old(connection).sent == old(connection.sent))
                && (bufferLen >= 4 ==> r == Ok(()))
                && (bufferLen >= 4 ==>
                      old(connection).sent
                      == old(connection.sent) + if Up(old(connection.outgoing)) then [[0xE0, 2, 0, 0]] else [])
    {
      if connection == null {
        return Err(NetworkError);
      }
      var packet := new DisconnectPacket(maxProperties);
      GoodbyeBytes();
      var n := packet.Encode(buffer, bufferLen);
      if n.Err? {
        connection := null;
        return Err(BuffError);
      }
      var _ := connection.Send(buffer[..n.value]);
      connection := null;
      return Ok(());
    }
  }

  lemma GoodbyeBytes()
    ensures DisconnectBytes(0xE0, 0, 0, []) == [0xE0, 2, 0, 0] && DisconnectEncodable(0, [])
  {
  }

  /** No property a CONNECT may carry makes `encoded_len` panic. */
  lemma {:induction false} ConnectMeasurable(properties: seq<Property>)
    ensures All(Measurable, Filter(ConnectProperty, properties))
  {
    if properties != [] {
      ConnectMeasurable(properties[1..]);
      var rest := Filter(ConnectProperty, properties[1..]);
      if ConnectProperty(properties[0]) {
        assert ([properties[0]] + rest)[1..] == rest;
      } else {
        assert [] + rest == rest;
      }
    }
  }

  /** The flags say exactly which parts of the configuration are there. */
  lemma FlagsMean(config: Config)
    ensures var f := ConnectFlags(config);
            && (f / 128 == 1 <==> config.username.Some?)
            && (f / 64 % 2 == 1 <==> config.password.Some?)
            && (f / 32 % 2 == 1 <==> config.will.Some? && config.will.value.2)
            && f / 8 % 4 == 0
            && (f / 4 % 2 == 1 <==> config.will.Some?)
            && f / 2 % 2 == 1 && f % 2 == 0
  {
    var f := ConnectFlags(config);
    if config.username.Some? {
      if config.password.Some? {
        assert f == 194 || f == 198 || f == 230;
      } else {
        assert f == 130 || f == 134 || f == 166;
      }
    } else if config.password.Some? {
      assert f == 66 || f == 70 || f == 102;
    } else {
      assert f == 2 || f == 6 || f == 38;
    }
  }

  lemma FlagsAreValid(config: Config)
    ensures var f := ConnectFlags(config);
            && C.ValidFlags(f) && C.IsCleanStart(f) && C.WillQos(f) == 0
            && (C.HasUsername(f) <==> config.username.Some?) && (C.HasPassword(f) <==> config.password.Some?)
            && (C.HasWill(f) <==> config.will.Some?)
            && (C.HasWillRetain(f) <==> config.will.Some? && config.will.value.2)
            && (HasBit(f, C.USERNAME_FLAG) <==> config.username.Some?)
            && (HasBit(f, C.PASSWORD_FLAG) <==> config.password.Some?)
            && (HasBit(f, C.WILL_FLAG) <==> config.will.Some?)
  {
    hide ConnectFlags, HasBit;
    FlagsMean(config);
    C.FlagBits(ConnectFlags(config));
  }

  /** Texts and data of a configuration are as long as they say. */
  ghost predicate Proper(config: Config) {
    && All(Exact, config.properties) && ExactString(config.clientId)
    && (config.username.Some? ==> ExactString(config.username.value))
    && (config.password.Some? ==> ExactBinary(config.password.value))
    && (config.will.Some? ==> ExactString(config.will.value.0) && ExactBinary(config.will.value.1))
  }

  function SessionFor(config: Config): C.Session {
    C.Session(
      true, config.keepAlive, Filter(ConnectProperty, config.properties), config.clientId,
      if config.will.Some? then Some(C.Will(config.will.value.2, 0, [], config.will.value.0, config.will.value.1))
          else None,
      config.username, config.password)
  }

  lemma {:induction false} FilterExact(properties: seq<Property>)
    requires All(Exact, properties)
    ensures All(Exact, Filter(ConnectProperty, properties)) && |Filter(ConnectProperty, properties)| <= |properties|
  {
    if properties != [] {
      FilterExact(properties[1..]);
      var rest := Filter(ConnectProperty, properties[1..]);
      assert ([properties[0]] + rest)[1..] == rest && [] + rest == rest;
    }
  }

  /** What a standard server reads from the client's CONNECT: exactly the session its configuration describes. */
  lemma ConnectReadByStandard(config: Config, cap: nat, s: seq<byte>)
    requires Proper(config) && |config.properties| <= cap && C.Encodable(ConnectFor(config, cap))
    requires |PropsBytes(Filter(ConnectProperty, config.properties))| < U32_MOD
    requires At(s, 0, C.Bytes(ConnectFor(config, cap)))
    ensures C.StdConnectAt(s) == Ok((SessionFor(config), |C.Bytes(ConnectFor(config, cap))|))
  {
    hide EncodedLen, Exact, ExactString, ExactBinary, SetBit, C.StdConnectAt, C.Remaining, C.Body, PropertyBytes,
         ConnectProperty, HasBit, ConnectFlags, C.WillQos, C.ValidFlags, C.HasUsername,
         C.HasPassword, C.HasWill, C.HasWillRetain, C.IsCleanStart;
    var c := ConnectFor(config, cap);
    var allowed := Filter(ConnectProperty, config.properties);
    FilterExact(config.properties);
    AnnouncedIsBytes(allowed);
    assert allowed[..|allowed|] == allowed;
    assert PropsBytes([]) == [];
    FlagsAreValid(config);
    C.ReadByStandard(s, c);
  }

  /**
   Which properties a server gets: those of the configuration whose identifier Table 2-4 lists for CONNECT, each as
   often as it is there. The packet size of the configuration is one of them, if there was room for it.
   */
  lemma PropertiesAnnounced(config: Config, cap: nat, p: Property)
    requires !p.Reserved?
    ensures var announced := SessionFor(config).properties;
            multiset(announced)[p] ==
              if PropertyBytes(p)[0] in {0x11, 0x15, 0x16, 0x17, 0x19, 0x21, 0x22, 0x26, 0x27}
              then multiset(config.properties)[p] else 0
    ensures |config.properties| < cap ==>
              MaximumPacketSize(config.maxPacketSize) in SessionFor(WithPacketSize(config, cap)).properties
    ensures |config.properties| >= cap ==> WithPacketSize(config, cap) == config
  {
    hide PropertyBytes, ConnectProperty;
    ConnectTable(p);
    FilterMeans(ConnectProperty, config.properties, p);
    var size := MaximumPacketSize(config.maxPacketSize);
    ConnectTable(size);
    LongProperties(config.maxPacketSize);
    var extended := WithPacketSize(config, cap).properties;
    FilterMeans(ConnectProperty, extended, size);
    if |config.properties| < cap {
      assert extended[|config.properties|] == size && size in extended;
      assert multiset(extended)[size] > 0;
      assert size in multiset(Filter(ConnectProperty, extended));
    }
  }

  /** The CONNECT of a configuration with nothing but a short client identifier, byte by byte. */
  lemma PlainConnectBytes(config: Config, cap: nat)
    requires config.properties == [] && config.username.None? && config.password.None? && config.will.None?
    requires |config.clientId.text| == config.clientId.len < 100
    ensures var id := config.clientId;
            C.Measured(ConnectFor(config, cap))
            && C.Bytes(ConnectFor(config, cap)) ==
                 [0x10, 13 + id.len] + [0, 4, 0x4D, 0x51, 0x54, 0x54] + [5] + [0x02] + BE16(config.keepAlive) + [0]
                 + [0, id.len] + id.text
  {
    hide BE16, Vbi;
    var c := ConnectFor(config, cap);
    assert c.properties == [] && c.propertyLen == 0;
    C.NameBytes();
    S.ShortLength(config.clientId.len);
    S.OneByteLength(0);
    S.OneByteLength(13 + config.clientId.len);
    assert config.clientId.text[..config.clientId.len] == config.clientId.text;
  }

  /** What the setters of `ClientConfig` are given: texts and data of any length. */
  datatype Setup = Setup(
    maxSubscribeQos: QualityOfService,
    keepAlive: u16,
    username: Option<seq<byte>>,
    password: Option<seq<byte>>,
    properties: seq<Property>,
    maxPacketSize: u32,
    will: Option<(seq<byte>, seq<byte>, bool)>,
    clientId: seq<byte>)

  /** The configuration they leave: every length is cut to 16 bits. */
  function Configured(setup: Setup): Config {
    Config(
      setup.maxSubscribeQos, setup.keepAlive,
      if setup.username.Some? then Some(FromText(setup.username.value)) else None,
      if setup.password.Some? then Some(FromData(setup.password.value)) else None,
      setup.properties, setup.maxPacketSize,
      if setup.will.Some?
        then Some((FromText(setup.will.value.0), FromData(setup.will.value.1), setup.will.value.2)) else None,
      FromText(setup.clientId))
  }

  /** A `&str` is well-formed UTF-8. */
  ghost predicate Utf8Texts(setup: Setup) {
    && ValidUtf8(setup.clientId)
    && (setup.username.Some? ==> ValidUtf8(setup.username.value))
    && (setup.will.Some? ==> ValidUtf8(setup.will.value.0))
  }

  predicate ShortTexts(setup: Setup) {
    && |setup.clientId| < U16_MOD
    && (setup.username.Some? ==> |setup.username.value| < U16_MOD)
    && (setup.password.Some? ==> |setup.password.value| < U16_MOD)
    && (setup.will.Some? ==> |setup.will.value.0| < U16_MOD && |setup.will.value.1| < U16_MOD)
  }

  /**
   From the caller's texts to the server: a standard server reads from the client's CONNECT exactly the session
   that was set up if and only if every text and datum is shorter than 65536 bytes, and the properties take fewer
   than 2^32.
   */
  lemma ConnectReadExactly(setup: Setup, cap: nat, s: seq<byte>)
    requires All(Exact, setup.properties) && Utf8Texts(setup) && |setup.properties| <= cap
    requires C.Encodable(ConnectFor(Configured(setup), cap)) && At(s, 0, C.Bytes(ConnectFor(Configured(setup), cap)))
    ensures var config := Configured(setup);
            C.StdConnectAt(s) == Ok((SessionFor(config), |C.Bytes(ConnectFor(config, cap))|))
            <==> ShortTexts(setup) && |PropsBytes(Filter(ConnectProperty, setup.properties))| < U32_MOD
  {
    hide EncodedLen, Exact, ValidUtf8, C.StdConnectAt, C.Remaining, C.PayloadEncodable, C.Bytes, PropertyBytes,
         ConnectProperty, ConnectFlags, ConnectFor;
    var config := Configured(setup);
    if ShortTexts(setup) && |PropsBytes(Filter(ConnectProperty, setup.properties))| < U32_MOD {
      ConnectReadByStandard(config, cap, s);
    } else if C.StdConnectAt(s) == Ok((SessionFor(config), |C.Bytes(ConnectFor(config, cap))|)) {
      C.SessionIsExact(s);
      PropertiesMeasured(config, cap, s);
      assert false;
    }
  }

  lemma PropertiesMeasured(config: Config, cap: nat, s: seq<byte>)
    requires All(Exact, config.properties) && |config.properties| <= cap
    requires C.Encodable(ConnectFor(config, cap)) && At(s, 0, C.Bytes(ConnectFor(config, cap)))
    requires C.StdConnectAt(s).Ok? && C.StdConnectAt(s).value.1 == |C.Bytes(ConnectFor(config, cap))|
    ensures |PropsBytes(Filter(ConnectProperty, config.properties))| < U32_MOD
  {
    hide EncodedLen, Exact, C.StdConnectAt, PropertyBytes, ConnectProperty, ConnectFlags, C.Bytes, C.Encodable;
    var c := ConnectFor(config, cap);
    var allowed := Filter(ConnectProperty, config.properties);
    FilterExact(config.properties);
    assert allowed[..|allowed|] == allowed;
    FlagsAreValid(config);
    assert PropsBytes([]) == [];
    C.EndIsMeasured(s, c);
  }

  /** What the client sends on its own account: never the PUBREL that would finish a QoS 2 message (section 4.3.3). */
  lemma NeverSendsPubrel(
    topic: seq<byte>, message: Slice, q: QualityOfService, retain: bool, identifier: u16, sub: bool,
    topics: seq<seq<byte>>, config: Config, cap: nat
  )
    ensures var p := P.Outgoing(topic, message, q, retain, identifier);
            P.Encodable(p) ==> TypeOf(P.Bytes(p)[0]) == PublishType
    ensures var p := S.For(sub, identifier, topics, q);
            S.Encodable(sub, p) ==> TypeOf(S.Bytes(sub, p)[0]) in {SubscribeType, UnsubscribeType}
    ensures var c := ConnectFor(config, cap);
            C.Encodable(c) ==> TypeOf(C.Bytes(c)[0]) == ConnectType
    ensures TypeOf(DisconnectBytes(0xE0, 0, 0, [])[0]) == DisconnectType
  {
    hide Vbi, P.Body, P.Remaining, S.Body, S.Remaining, C.Body, C.Remaining, OrQos, AnnouncedLen, Filter;
    OutgoingHeader(topic, message, q, retain, identifier);
    GoodbyeBytes();
  }

  /** Encoding a message never panics. */
  lemma MessageEncodes(topic: seq<byte>, message: Slice, q: QualityOfService, retain: bool, identifier: u16)
    ensures var p := P.Outgoing(topic, message, q, retain, identifier);
            P.Encodable(p) <==> P.Remaining(p) <= MAX_ENCODABLE
  {
    hide P.Remaining, OrQos;
  }

  function Reported(reaction: Reacted): Result<Event, ReasonCode> {
    match reaction
    case Ok(a) => Ok(a.event)
    case Err(e) => Err(e)
    case Panic => Panic
  }
}
