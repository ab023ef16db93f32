/**
 CONNECT (MQTT v5.0, section 3.1; rust-mqtt/src/packet/v5/connect_packet.rs).
 */
module Connects {
  import opened Base
  import opened VarInt
  import opened Types
  import opened Lists
  import opened Properties
  import opened BuffWriters
  import opened Packets

  const USERNAME_FLAG := 128
  const PASSWORD_FLAG := 64
  const WILL_RETAIN_FLAG := 32
  const WILL_FLAG := 4
  const CLEAN_START_FLAG := 2

  datatype Connect = Connect(
    fixedHeader: byte,
    remainLen: u32,
    protocolNameLen: u16,
    protocolName: u32,
    protocolVersion: byte,
    connectFlags: byte,
    keepAlive: u16,
    propertyLen: u32,
    properties: seq<Property>,
    clientId: EncodedString,
    willPropertyLen: u32,
    willProperties: seq<Property>,
    willTopic: EncodedString,
    willPayload: BinaryData,
    username: EncodedString,
    password: BinaryData)

  const NEW_CONNECT :=
    Connect(0x10, 0, 4, 0x4d515454, 5, 0x02, 180, 0, [], NO_STRING, 0, [], NO_STRING, NO_BINARY, NO_STRING, NO_BINARY)

  // ---------------------------------------------------------------- on the wire

  function WillBytes(c: Connect): seq<byte> {
    Vbi(c.willPropertyLen) + PropsBytes(c.willProperties) + StringBytes(c.willTopic) + BinaryBytes(c.willPayload)
  }

  /** Section 3.1.2. */
  function VariableHeader(c: Connect): seq<byte> {
    ProtocolFields(c) + Vbi(c.propertyLen) + PropsBytes(c.properties)
  }

  function ProtocolFields(c: Connect): seq<byte> {
    BE16(c.protocolNameLen) + BE32(c.protocolName) + [c.protocolVersion] + [c.connectFlags] + BE16(c.keepAlive)
  }

  function WillPart(c: Connect): seq<byte> {
    if HasBit(c.connectFlags, WILL_FLAG) then WillBytes(c) else []
  }

  function UsernamePart(c: Connect): seq<byte> {
    if HasBit(c.connectFlags, USERNAME_FLAG) then StringBytes(c.username) else []
  }

  function PasswordPart(c: Connect): seq<byte> {
    if HasBit(c.connectFlags, PASSWORD_FLAG) then BinaryBytes(c.password) else []
  }

  /** Section 3.1.3: which fields are there is up to the flags. */
  function PayloadFields(c: Connect): seq<byte> {
    StringBytes(c.clientId) + WillPart(c) + UsernamePart(c) + PasswordPart(c)
  }

  /** The remaining length as `encode` adds it up, flag by flag. */
  function Remaining(c: Connect): (n: nat)
    requires c.propertyLen <= MAX_ENCODABLE
    requires HasBit(c.connectFlags, WILL_FLAG) ==> c.willPropertyLen <= MAX_ENCODABLE
    ensures n < U32_MOD
  {
    VbiWidth(c.propertyLen);
    if HasBit(c.connectFlags, WILL_FLAG) then VbiWidth(c.willPropertyLen);
      Common(c) + |Vbi(c.willPropertyLen)| + c.willPropertyLen + c.willTopic.len + 2 + c.willPayload.len + 2
          + Credentials(c)
    else Common(c) + Credentials(c)
  }

  function Common(c: Connect): nat {
    c.propertyLen + |Vbi(c.propertyLen)| + 10 + c.clientId.len + 2
  }

  function Credentials(c: Connect): nat {
    (if HasBit(c.connectFlags, USERNAME_FLAG) then c.username.len + 2 else 0)
    + if HasBit(c.connectFlags, PASSWORD_FLAG) then c.password.len + 2 else 0
  }

  function Body(c: Connect): seq<byte> {
    VariableHeader(c) + PayloadFields(c)
  }

  ghost predicate Measured(c: Connect) {
    c.propertyLen <= MAX_ENCODABLE && (HasBit(c.connectFlags, WILL_FLAG) ==> c.willPropertyLen <= MAX_ENCODABLE)
  }

  function Bytes(c: Connect): seq<byte>
    requires Measured(c)
  {
    [c.fixedHeader] + Vbi(Remaining(c)) + Body(c)
  }

  ghost predicate WillEncodable(c: Connect) {
    HasBit(c.connectFlags, WILL_FLAG) ==>
      All(Writable, c.willProperties) && StringCovered(c.willTopic) && BinaryCovered(c.willPayload)
  }

  ghost predicate PayloadEncodable(c: Connect) {
    && StringCovered(c.clientId) && WillEncodable(c)
    && (HasBit(c.connectFlags, USERNAME_FLAG) ==> StringCovered(c.username))
    && (HasBit(c.connectFlags, PASSWORD_FLAG) ==> BinaryCovered(c.password))
  }

  ghost predicate Encodable(c: Connect) {
    Measured(c) && Remaining(c) <= MAX_ENCODABLE && All(Writable, c.properties) && PayloadEncodable(c)
  }

  /** Declared lengths are the real ones, and the flags are those of a version 5 client without a will QoS. */
  ghost predicate Sound(c: Connect) {
    && Encodable(c)
    && c.fixedHeader == 0x10 && c.protocolNameLen == 4 && c.protocolName == 0x4d515454 && c.protocolVersion == 5
    && ValidFlags(c.connectFlags)
    && All(Exact, c.properties) && c.propertyLen == |PropsBytes(c.properties)| && ExactString(c.clientId)
    && SoundWill(c)
    && (HasBit(c.connectFlags, USERNAME_FLAG) ==> ExactString(c.username))
    && (HasBit(c.connectFlags, PASSWORD_FLAG) ==> ExactBinary(c.password))
  }

  ghost predicate SoundWill(c: Connect) {
    HasBit(c.connectFlags, WILL_FLAG) ==>
      && All(Exact, c.willProperties) && c.willPropertyLen == |PropsBytes(c.willProperties)| <= MAX_ENCODABLE
      && ExactString(c.willTopic) && ExactBinary(c.willPayload)
  }

  // ---------------------------------------------------------------- the standard's reader

  datatype Will = Will(retain: bool, qos: nat, properties: seq<Property>, topic: EncodedString, payload: BinaryData)

  datatype Session = Session(
    cleanStart: bool,
    keepAlive: u16,
    properties: seq<Property>,
    clientId: EncodedString,
    will: Option<Will>,
    username: Option<EncodedString>,
    password: Option<BinaryData>)

  // The connect flags, as section 3.1.2.3 numbers their bits; `FlagBits` compares them with the code's masks.

  predicate HasUsername(flags: byte) {
    flags / 128 == 1
  }

  predicate HasPassword(flags: byte) {
    flags / 64 % 2 == 1
  }

  predicate HasWillRetain(flags: byte) {
    flags / 32 % 2 == 1
  }

  function WillQos(flags: byte): nat {
    flags / 8 % 4
  }

  predicate HasWill(flags: byte) {
    flags / 4 % 2 == 1
  }

  predicate IsCleanStart(flags: byte) {
    flags / 2 % 2 == 1
  }

  /** Section 3.1.2.3 to 3.1.2.9: bit 0 is reserved, a will QoS of 3 is malformed, no will means no will options. */
  predicate ValidFlags(flags: byte) {
    && flags % 2 == 0
    && WillQos(flags) < 3
    && (!HasWill(flags) ==> WillQos(flags) == 0 && !HasWillRetain(flags))
  }

  function WillAt(s: seq<byte>, pos: nat, flags: byte): Read<Option<Will>> {
    if !HasWill(flags) then Ok((None, pos))
    else
      var (properties, q) :- StdPropsAt(s, pos);
      var (topic, q) :- StringAt(s, q);
      var (payload, q) :- BinaryAt(s, q);
      Ok((Some(Will(HasWillRetain(flags), WillQos(flags), properties, topic, payload)), q))
  }

  function UsernameAt(s: seq<byte>, pos: nat, flags: byte): Read<Option<EncodedString>> {
    if !HasUsername(flags) then Ok((None, pos))
    else
      var (u, q) :- StringAt(s, pos);
      Ok((Some(u), q))
  }

  function PasswordAt(s: seq<byte>, pos: nat, flags: byte): Read<Option<BinaryData>> {
    if !HasPassword(flags) then Ok((None, pos))
    else
      var (u, q) :- BinaryAt(s, pos);
      Ok((Some(u), q))
  }

  /** The payload after the client identifier and the rest, in the standard's order. */
  function PayloadFieldsAt(
    s: seq<byte>, pos: nat, flags: byte, keepAlive: u16, properties: seq<Property>
  ): Read<Session> {
    var (clientId, q) :- StringAt(s, pos);
    var (will, q) :- WillAt(s, q, flags);
    var (username, q) :- UsernameAt(s, q, flags);
    var (password, q) :- PasswordAt(s, q, flags);
    Ok((Session(IsCleanStart(flags), keepAlive, properties, clientId, will, username, password), q))
  }

  /** Name, version, flags, keep alive and properties. */
  function VariableHeaderAt(s: seq<byte>, pos: nat): Read<(byte, u16, seq<Property>)> {
    var (nameLen, q) :- U16At(s, pos);
    var (name, q) :- U32At(s, q);
    var (version, q) :- U8At(s, q);
    var (flags, q) :- U8At(s, q);
    var (keepAlive, q) :- U16At(s, q);
    var (properties, q) :- StdPropsAt(s, q);
    if nameLen == 4 && name == 0x4d515454 && version == 5 && ValidFlags(flags)
        then Ok(((flags, keepAlive, properties), q))
    else Err(DecodingError)
  }

  /** A CONNECT packet as section 3.1 reads it; it must end where its remaining length says. */
  function StdConnectAt(s: seq<byte>): Read<Session> {
    var (h, q) :- HeaderAt(s, 0);
    var end := q + h.1;
    var (v, q) :- VariableHeaderAt(s, q);
    var (session, q) :- PayloadFieldsAt(s, q, v.0, v.1, v.2);
    if h.0 == 0x10 && q == end then Ok((session, end)) else Err(DecodingError)
  }

  /** What the packet means. */
  function SessionOf(c: Connect): Session {
    var flags := c.connectFlags;
    Session(
      IsCleanStart(flags), c.keepAlive, c.properties, c.clientId,
      if HasWill(flags)
        then Some(
          Will(HasWillRetain(flags), WillQos(flags), c.willProperties, c.willTopic, c.willPayload))
        else None,
      if HasUsername(flags) then Some(c.username) else None,
      if HasPassword(flags) then Some(c.password) else None)
  }

  /** The masks of the code test the bits of the standard. */
  lemma FlagBits(flags: byte)
    ensures HasBit(flags, USERNAME_FLAG) <==> HasUsername(flags)
    ensures HasBit(flags, PASSWORD_FLAG) <==> HasPassword(flags)
    ensures HasBit(flags, WILL_RETAIN_FLAG) <==> HasWillRetain(flags)
    ensures HasBit(flags, WILL_FLAG) <==> HasWill(flags)
    ensures HasBit(flags, CLEAN_START_FLAG) <==> IsCleanStart(flags)
  {
  }

  // ---------------------------------------------------------------- the theorems

  /** Conservation, for every combination of flags. */
  lemma IsFrame(c: Connect)
    requires Encodable(c) && c.propertyLen == |PropsBytes(c.properties)|
    requires HasBit(c.connectFlags, WILL_FLAG) ==> c.willPropertyLen == |PropsBytes(c.willProperties)|
    ensures Remaining(c) == |Body(c)| && Bytes(c) == Frame(c.fixedHeader, Body(c))
  {
    hide Vbi, PropsBytes, StringBytes, BinaryBytes, HasBit, BE16, BE32, Writable;
  }

  lemma VariableHeaderReads(s: seq<byte>, pos: nat, c: Connect)
    requires Sound(c) && At(s, pos, VariableHeader(c))
    ensures VariableHeaderAt(s, pos) == Ok(((c.connectFlags, c.keepAlive, c.properties), pos + |VariableHeader(c)|))
  {
    hide Vbi, PropsBytes, BE16, BE32, HasBit, U16At, U32At, U8At, StdPropsAt, ValidFlags, Remaining, PayloadEncodable,
         SoundWill, Exact, Writable;
    var p0, p1, p2, p3 := BE16(c.protocolNameLen), BE32(c.protocolName), [c.protocolVersion], [c.connectFlags];
    var p4, p5, p6 := BE16(c.keepAlive), Vbi(c.propertyLen), PropsBytes(c.properties);
    AtSplit(s, pos, p0 + p1 + p2 + p3 + p4 + p5, p6);
    AtSplit(s, pos, p0 + p1 + p2 + p3 + p4, p5);
    AtSplit(s, pos, p0 + p1 + p2 + p3, p4);
    AtSplit(s, pos, p0 + p1 + p2, p3);
    AtSplit(s, pos, p0 + p1, p2);
    AtSplit(s, pos, p0, p1);
    U16RoundTrip(s, pos, c.protocolNameLen);
    U32RoundTrip(s, pos + 2, c.protocolName);
    U8RoundTrip(s, pos + 6, c.protocolVersion);
    U8RoundTrip(s, pos + 7, c.connectFlags);
    U16RoundTrip(s, pos + 8, c.keepAlive);
    StdPropsRoundTrip(s, pos + 10, c.properties);
  }

  lemma WillReads(s: seq<byte>, pos: nat, c: Connect)
    requires SoundWill(c) && At(s, pos, WillPart(c))
    ensures WillAt(s, pos, c.connectFlags) == Ok((SessionOf(c).will, pos + |WillPart(c)|))
  {
    hide HasUsername, HasPassword, HasWillRetain, HasWill, IsCleanStart, WillQos, Vbi, PropsBytes, StringBytes,
        BinaryBytes, HasBit, StringAt, BinaryAt, StdPropsAt, Exact, ExactString,
         ExactBinary;
    FlagBits(c.connectFlags);
    if HasBit(c.connectFlags, WILL_FLAG) {
      var p0, p1, p2, p3 := Vbi(c.willPropertyLen), PropsBytes(c.willProperties), StringBytes(c.willTopic),
          BinaryBytes(c.willPayload);
      AtSplit(s, pos, p0 + p1 + p2, p3);
      AtSplit(s, pos, p0 + p1, p2);
      AtSplit(s, pos, p0, p1);
      StdPropsRoundTrip(s, pos, c.willProperties);
      StringRoundTrip(s, pos + |p0| + |p1|, c.willTopic);
      BinaryRoundTrip(s, pos + |p0| + |p1| + |p2|, c.willPayload);
    }
  }

  lemma PayloadReads(s: seq<byte>, pos: nat, c: Connect)
    requires Sound(c) && At(s, pos, PayloadFields(c))
    ensures PayloadFieldsAt(s, pos, c.connectFlags, c.keepAlive, c.properties)
        == Ok((SessionOf(c), pos + |PayloadFields(c)|))
  {
    hide HasUsername, HasPassword, HasWillRetain, HasWill, IsCleanStart, WillQos, StringBytes, BinaryBytes, HasBit,
        StringAt, BinaryAt, WillAt, WillPart, Exact, ExactString, ExactBinary,
         Remaining, SoundWill, PropsBytes, ValidFlags;
    FlagBits(c.connectFlags);
    var p0, p1, p2, p3 := StringBytes(c.clientId), WillPart(c), UsernamePart(c), PasswordPart(c);
    AtSplit(s, pos, p0 + p1 + p2, p3);
    AtSplit(s, pos, p0 + p1, p2);
    AtSplit(s, pos, p0, p1);
    StringRoundTrip(s, pos, c.clientId);
    WillReads(s, pos + |p0|, c);
    if HasBit(c.connectFlags, USERNAME_FLAG) {
      StringRoundTrip(s, pos + |p0| + |p1|, c.username);
    }
    if HasBit(c.connectFlags, PASSWORD_FLAG) {
      BinaryRoundTrip(s, pos + |p0| + |p1| + |p2|, c.password);
    }
  }

  /** For every flag combination a standard reader recovers every field and ends exactly at the end of the packet. */
  lemma ReadByStandard(s: seq<byte>, c: Connect)
    requires Sound(c) && At(s, 0, Bytes(c))
    ensures StdConnectAt(s) == Ok((SessionOf(c), |Bytes(c)|))
  {
    hide Vbi, VariableHeader, PayloadFields, VariableHeaderAt, PayloadFieldsAt, HeaderAt, SessionOf, Remaining,
         PropsBytes, PayloadEncodable, HasBit, ValidFlags;
    IsFrame(c);
    FrameHasItsLength(s, c.fixedHeader, Body(c));
    var q := 1 + |Vbi(|Body(c)|)|;
    AtSplit(s, q, VariableHeader(c), PayloadFields(c));
    VariableHeaderReads(s, q, c);
    PayloadReads(s, q + |VariableHeader(c)|, c);
  }

  /** Every text and datum of a session that was read is as long as it says. */
  lemma SessionIsExact(s: seq<byte>)
    requires StdConnectAt(s).Ok?
    ensures var session := StdConnectAt(s).value.0;
            && ExactString(session.clientId)
            && (session.username.Some? ==> ExactString(session.username.value))
            && (session.password.Some? ==> ExactBinary(session.password.value))
            && (session.will.Some? ==> ExactString(session.will.value.topic) && ExactBinary(session.will.value.payload))
  {
    hide StringAt, BinaryAt, StdPropsAt, HeaderAt, VariableHeaderAt, HasBit;
  }

  /** A packet that a standard reader finds to end where its bytes end announced its real property length. */
  lemma EndIsMeasured(s: seq<byte>, c: Connect)
    requires Encodable(c) && At(s, 0, Bytes(c)) && StdConnectAt(s).Ok? && StdConnectAt(s).value.1 == |Bytes(c)|
    requires HasBit(c.connectFlags, WILL_FLAG) ==> c.willPropertyLen == |PropsBytes(c.willProperties)|
    ensures c.propertyLen == |PropsBytes(c.properties)|
  {
    hide Vbi, VbiAt, PropsBytes, StringBytes, BinaryBytes, HasBit, BE16, BE32, Writable, VariableHeaderAt,
         PayloadFieldsAt;
    var n := Remaining(c);
    AtSplit(s, 0, [c.fixedHeader] + Vbi(n), Body(c));
    AtSplit(s, 0, [c.fixedHeader], Vbi(n));
    U8RoundTrip(s, 0, c.fixedHeader);
    VbiAtRoundTrip(s, 1, n);
    assert n == |Body(c)|;
    BodyLength(c);
  }

  lemma BodyLength(c: Connect)
    requires Encodable(c)
    requires HasBit(c.connectFlags, WILL_FLAG) ==> c.willPropertyLen == |PropsBytes(c.willProperties)|
    ensures |Body(c)| - |PropsBytes(c.properties)| == Remaining(c) - c.propertyLen
  {
    hide Vbi, PropsBytes, StringBytes, BinaryBytes, HasBit, BE16, BE32, Writable;
  }

  // ---------------------------------------------------------------- the code

  /** `clean`: a packet that announces one property of three bytes. */
  function CleanConnect(cap: nat): Connect {
    NEW_CONNECT.(keepAlive := 60, propertyLen := 3, properties := Push([], ReceiveMaximum(20), cap))
  }

  /** The announced length of a `clean` packet is right exactly if its vector has room for the property. */
  lemma CleanIsSoundExactly(cap: nat)
    ensures Sound(CleanConnect(cap)) <==> cap >= 1
  {
    hide Vbi;
    var c := CleanConnect(cap);
    OneReceiveMaximum();
    assert c.properties == if cap >= 1 then [ReceiveMaximum(20)] else [];
  }

  lemma NameBytes()
    ensures BE16(4) == [0, 4] && BE32(0x4d515454) == [0x4D, 0x51, 0x54, 0x54]
  {
  }

  lemma OneReceiveMaximum()
    ensures var ps := [ReceiveMaximum(20)]; |PropsBytes(ps)| == 3 && All(Exact, ps) && All(Writable, ps)
    ensures PropsBytes([]) == [] && |Vbi(3)| == 1
  {
    var p := ReceiveMaximum(20);
    assert PayloadOf(p) == PWord(20);
    assert PropsBytes([p]) == PropertyBytes(p) + PropsBytes([p][1..]);
    assert All(Exact, [p][1..]) && All(Writable, [p][1..]);
  }

  class ConnectPacket {
    const maxProperties: nat
    const maxWillProperties: nat
    var fixedHeader: byte
    var remainLen: u32
    var protocolNameLen: u16
    var protocolName: u32
    var protocolVersion: byte
    var connectFlags: byte
    var keepAlive: u16
    var propertyLen: u32
    var properties: seq<Property>
    var clientId: EncodedString
    var willPropertyLen: u32
    var willProperties: seq<Property>
    var willTopic: EncodedString
    var willPayload: BinaryData
    var username: EncodedString
    var password: BinaryData

    ghost function Value(): Connect
      reads this
    {
      Connect(fixedHeader, remainLen, protocolNameLen, protocolName, protocolVersion, connectFlags, keepAlive,
              propertyLen, properties, clientId, willPropertyLen, willProperties, willTopic, willPayload,
              username, password)
    }

    constructor (maxProperties: nat, maxWillProperties: nat)
      ensures Value() == NEW_CONNECT
      ensures this.maxProperties == maxProperties && this.maxWillProperties == maxWillProperties
    {
      this.maxProperties, this.maxWillProperties := maxProperties, maxWillProperties;
      fixedHeader, remainLen, protocolNameLen, protocolName, protocolVersion := 0x10, 0, 4, 0x4d515454, 5;
      connectFlags, keepAlive, propertyLen, properties, clientId := 0x02, 180, 0, [], NO_STRING;
      willPropertyLen, willProperties, willTopic, willPayload := 0, [], NO_STRING, NO_BINARY;
      username, password := NO_STRING, NO_BINARY;
    }

    constructor Clean(maxProperties: nat, maxWillProperties: nat)
      ensures Value() == CleanConnect(maxProperties)
      ensures this.maxProperties == maxProperties && this.maxWillProperties == maxWillProperties
    {
      this.maxProperties, this.maxWillProperties := maxProperties, maxWillProperties;
      fixedHeader, remainLen, protocolNameLen, protocolName, protocolVersion := 0x10, 0, 4, 0x4d515454, 5;
      connectFlags, keepAlive, propertyLen, clientId := 0x02, 60, 3, NO_STRING;
      properties := Push([], ReceiveMaximum(20), maxProperties);
      willPropertyLen, willProperties, willTopic, willPayload := 0, [], NO_STRING, NO_BINARY;
      username, password := NO_STRING, NO_BINARY;
    }

    method AddUsername(username: EncodedString)
      modifies this
      ensures Value() == old(Value()).(username := username, connectFlags := SetBit(old(connectFlags), USERNAME_FLAG))
    {
      this.username := username;
      connectFlags := SetBit(connectFlags, USERNAME_FLAG);
    }

    method AddPassword(password: BinaryData)
      modifies this
      ensures Value() == old(Value()).(password := password, connectFlags := SetBit(old(connectFlags), PASSWORD_FLAG))
    {
      this.password := password;
      connectFlags := SetBit(connectFlags, PASSWORD_FLAG);
    }

    method AddWill(topic: EncodedString, payload: BinaryData, retain: bool)
      modifies this
      ensures var flags := SetBit(old(connectFlags), WILL_FLAG);
              Value() == old(Value()).(willTopic := topic, willPayload := payload,
                                       connectFlags := if retain then SetBit(flags, WILL_RETAIN_FLAG) else flags)
    {
      willTopic, willPayload := topic, payload;
      connectFlags := SetBit(connectFlags, WILL_FLAG);
      if retain {
        connectFlags := SetBit(connectFlags, WILL_RETAIN_FLAG);
      }
    }

    method AddClientId(id: EncodedString)
      modifies this
      ensures Value() == old(Value()).(clientId := id)
    {
      clientId := id;
    }

    method WriteProtocol(writer: BuffWriter) returns (r: Result<(), BufferError>)
      requires writer.Valid()
      modifies writer, writer.buffer
      ensures writer.Appended(ProtocolFields(Value()), r)
    {
      hide BE16, BE32;
      var _ :- writer.WriteU16(protocolNameLen);
      var _ :- writer.WriteU32(protocolName);
      var _ :- writer.WriteU8(protocolVersion);
      var _ :- writer.WriteU8(connectFlags);
      r := writer.WriteU16(keepAlive);
    }

    method WriteVariableHeader(writer: BuffWriter) returns (r: Result<(), BufferError>)
      requires writer.Valid() && propertyLen <= MAX_ENCODABLE
      modifies writer, writer.buffer
      ensures All(Writable, properties) ==> writer.Appended(VariableHeader(Value()), r)
      ensures !All(Writable, properties) ==> writer.Valid() && !r.Ok?
    {
      hide Vbi, PropsBytes, ProtocolFields, Writable;
      var _ :- WriteProtocol(writer);
      var _ :- writer.WriteVariableByteInt(propertyLen);
      r := writer.WriteProperties(properties);
    }

    method WriteWill(writer: BuffWriter) returns (r: Result<(), BufferError>)
      requires writer.Valid() && Measured(Value())
      modifies writer, writer.buffer
      ensures WillEncodable(Value()) ==> writer.Appended(WillPart(Value()), r)
      ensures !WillEncodable(Value()) ==> writer.Valid() && !r.Ok?
    {
      hide Vbi, PropsBytes, StringBytes, BinaryBytes, Writable, HasBit, StringCovered, BinaryCovered, All, Flat;
      if !HasBit(connectFlags, WILL_FLAG) {
        assert writer.written + [] == writer.written;
        return Ok(());
      }
      var _ :- writer.WriteVariableByteInt(willPropertyLen);
      var _ :- writer.WriteProperties(willProperties);
      var _ :- writer.WriteStringRef(willTopic);
      r := writer.WriteBinaryRef(willPayload);
    }

    method WriteUsername(writer: BuffWriter) returns (r: Result<(), BufferError>)
      requires writer.Valid()
      modifies writer, writer.buffer
      ensures (HasBit(connectFlags, USERNAME_FLAG) ==> StringCovered(username))
          ==> writer.Appended(UsernamePart(Value()), r)
      ensures !(HasBit(connectFlags, USERNAME_FLAG) ==> StringCovered(username)) ==> writer.Valid() && !r.Ok?
    {
      hide StringBytes, HasBit, StringCovered;
      if HasBit(connectFlags, USERNAME_FLAG) {
        r := writer.WriteStringRef(username);
        return;
      }
      assert writer.written + [] == writer.written;
      return Ok(());
    }

    method WritePassword(writer: BuffWriter) returns (r: Result<(), BufferError>)
      requires writer.Valid()
      modifies writer, writer.buffer
      ensures (HasBit(connectFlags, PASSWORD_FLAG) ==> BinaryCovered(password))
          ==> writer.Appended(PasswordPart(Value()), r)
      ensures !(HasBit(connectFlags, PASSWORD_FLAG) ==> BinaryCovered(password)) ==> writer.Valid() && !r.Ok?
    {
      hide BinaryBytes, HasBit, BinaryCovered;
      if HasBit(connectFlags, PASSWORD_FLAG) {
        r := writer.WriteBinaryRef(password);
        return;
      }
      assert writer.written + [] == writer.written;
      return Ok(());
    }

    method WritePayload(writer: BuffWriter) returns (r: Result<(), BufferError>)
      requires writer.Valid() && Measured(Value())
      modifies writer, writer.buffer
      ensures PayloadEncodable(Value()) ==> writer.Appended(PayloadFields(Value()), r)
      ensures !PayloadEncodable(Value()) ==> writer.Valid() && !r.Ok?
    {
      hide StringBytes, HasBit, StringCovered, BinaryCovered, WillEncodable, WillPart, UsernamePart, PasswordPart;
      var _ :- writer.WriteStringRef(clientId);
      var _ :- WriteWill(writer);
      var _ :- WriteUsername(writer);
      r := WritePassword(writer);
    }

    method WriteBody(writer: BuffWriter) returns (r: Result<(), BufferError>)
      requires writer.Valid() && Measured(Value())
      modifies writer, writer.buffer
      ensures All(Writable, properties) && PayloadEncodable(Value()) ==> writer.Appended(Body(Value()), r)
      ensures !(All(Writable, properties) && PayloadEncodable(Value())) ==> writer.Valid() && !r.Ok?
    {
      hide VariableHeader, PayloadFields, Writable, PayloadEncodable, HasBit;
      var _ :- WriteVariableHeader(writer);
      r := WritePayload(writer);
    }

    /** The sums in front of the first write. */
    method RemainingLen() returns (r: Result<nat, BufferError>)
      ensures !Measured(Value()) ==> r == Err(EncodingError)
      ensures Measured(Value()) ==> r == Ok(Remaining(Value()))
    {
      hide Vbi, HasBit;
      var propertyLenEnc :- VarInt.Encode(propertyLen);
      PaddedLen(propertyLen);
      var propertyLenLen := VarInt.Len(propertyLenEnc);
      var remaining: nat := propertyLen + propertyLenLen.value + 10 + clientId.len + 2;
      if HasBit(connectFlags, WILL_FLAG) {
        var willLenEnc :- VarInt.Encode(willPropertyLen);
        PaddedLen(willPropertyLen);
        var willLenLen := VarInt.Len(willLenEnc);
        remaining := remaining + willLenLen.value + willPropertyLen + willTopic.len + 2 + willPayload.len + 2;
      }
      if HasBit(connectFlags, USERNAME_FLAG) {
        remaining := remaining + username.len + 2;
      }
      if HasBit(connectFlags, PASSWORD_FLAG) {
        remaining := remaining + password.len + 2;
      }
      return Ok(remaining);
    }

    method Encode(buffer: array<byte>, bufferLen: nat) returns (r: Result<nat, BufferError>)
      requires bufferLen <= buffer.Length
      modifies buffer
      ensures r.Ok? <==> Encodable(Value()) && |Bytes(Value())| <= bufferLen
      ensures r.Ok? ==> r.value == |Bytes(Value())| && buffer[..r.value] == Bytes(Value())
      ensures Encodable(Value()) && !r.Ok? ==> r == Err(InsufficientBufferSize)
      ensures !Measured(Value()) ==> r == Err(EncodingError)
      ensures r.Panic? ==> !All(Writable, properties) || !PayloadEncodable(Value())
    {
      hide Vbi, Body, Remaining, Writable, PayloadEncodable, HasBit;
      var writer := new BuffWriter(buffer, bufferLen);
      var remaining :- RemainingLen();
      var _ :- writer.WriteU8(fixedHeader);
      var _ :- writer.WriteVariableByteInt(remaining);
      var _ :- WriteBody(writer);
      return Ok(writer.position);
    }
  }
}
