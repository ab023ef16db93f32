/**
 The packets a server answers with (MQTT v5.0, sections 3.2, 3.4, 3.9, 3.11, 3.13, 3.14), as the client
 decodes them, and the PUBACK the client sends itself.
 */
module Acks {
  import opened Base
  import opened VarInt
  import opened Types
  import opened Lists
  import opened Properties
  import opened BuffWriters
  import opened BuffReaders
  import opened Packets

  /** The fixed header of a packet that must be of the given type. */
  function HeaderOf(s: seq<byte>, pos: nat, kind: PacketType, mismatch: BufferError): (r: Read<(byte, u32)>)
    ensures r.Ok? ==> r.value.0.1 <= MAX_ENCODABLE && r.value.1 <= |s|
  {
    var (h, q) :- HeaderAt(s, pos);
    if TypeOf(h.0) != kind then Err(mismatch) else Ok((h, q))
  }

  method ExpectHeader(reader: BuffReader, kind: PacketType, mismatch: BufferError)
    returns (r: Result<(), BufferError>, fixedHeader: byte, remainLen: u32)
    requires reader.Valid()
    modifies reader`position
    ensures match HeaderOf(reader.View(), old(reader.position), kind, mismatch)
            case Ok(h) =>
              && r == Ok(()) && fixedHeader == h.0.0 && remainLen == h.0.1
              && reader.position == h.1 && reader.Valid()
            case Err(e) => r == Err(e)
            case Panic => r == Panic
  {
    hide TypeOf, HeaderAt;
    var found;
    found, fixedHeader, remainLen := DecodeFixedHeader(reader);
    if !found.Ok? {
      return found.PropagateFailure(), fixedHeader, remainLen;
    }
    if found.value != kind {
      return Err(mismatch), fixedHeader, remainLen;
    }
    return Ok(()), fixedHeader, remainLen;
  }

  // ---------------------------------------------------------------- PUBACK

  datatype Puback = Puback(
    fixedHeader: byte,
    remainLen: u32,
    packetIdentifier: u16,
    reasonCode: byte,
    propertyLen: u32,
    properties: seq<Property>)

  const NEW_PUBACK := Puback(0x40, 0, 0, 0, 0, [])

  lemma {:induction false} AllWritable(ps: seq<Property>)
    requires All(Exact, ps)
    ensures All(Writable, ps)
  {
    if ps != [] {
      AllWritable(ps[1..]);
    }
  }

  function PubackBody(p: Puback): seq<byte> {
    BE16(p.packetIdentifier) + [p.reasonCode] + Vbi(p.propertyLen) + PropsBytes(p.properties)
  }

  /** The remaining length as `encode` adds it up. */
  function PubackRemaining(p: Puback): (n: nat)
    requires p.propertyLen <= MAX_ENCODABLE
    ensures n < U32_MOD
  {
    VbiWidth(p.propertyLen);
    p.propertyLen + |Vbi(p.propertyLen)| + 3
  }

  function PubackBytes(p: Puback): seq<byte>
    requires p.propertyLen <= MAX_ENCODABLE
  {
    [p.fixedHeader] + Vbi(PubackRemaining(p)) + PubackBody(p)
  }

  ghost predicate PubackEncodable(p: Puback) {
    p.propertyLen <= MAX_ENCODABLE && PubackRemaining(p) <= MAX_ENCODABLE && All(Writable, p.properties)
  }

  ghost predicate PubackSound(p: Puback) {
    PubackEncodable(p) && All(Exact, p.properties) && p.propertyLen == |PropsBytes(p.properties)|
  }

  /** A remaining length of 2 omits the reason code, one below 4 the property length (section 3.4.2). */
  function PubackAt(s: seq<byte>, pos: nat, prior: Puback, cap: nat): Result<Puback, BufferError> {
    var ((header, remaining), q) :- HeaderOf(s, pos, PubackType, PacketTypeMismatch);
    var (identifier, q) :- U16At(s, q);
    var (reason, q) :- if remaining != 2 then U8At(s, q) else Ok((prior.reasonCode, q));
    if remaining < 4 then Ok(Puback(header, remaining, identifier, reason, 0, prior.properties))
    else
      var ((propertyLen, properties), q) :- PropsAt(s, q);
      Ok(Puback(header, remaining, identifier, reason, propertyLen, Keep(prior.properties + properties, cap)))
  }

  lemma PubackIsFrame(p: Puback)
    requires PubackSound(p)
    ensures PubackBytes(p) == Frame(p.fixedHeader, PubackBody(p)) && |PubackBody(p)| == PubackRemaining(p) >= 4
  {
    hide Vbi, PropsBytes;
  }

  /** An encoded PUBACK is decoded to what it was. */
  lemma PubackRoundTrip(s: seq<byte>, p: Puback, cap: nat)
    requires PubackSound(p) && TypeOf(p.fixedHeader) == PubackType && Total(Unread, p.properties) == 0
    requires At(s, 0, PubackBytes(p))
    ensures PubackAt(s, 0, NEW_PUBACK, cap)
        == Ok(p.(remainLen := PubackRemaining(p), properties := Keep(p.properties, cap)))
  {
    hide Vbi, VbiAt, PropsBytes, PropsAt, Unread, Exact, U16At, U8At, HeaderAt, TypeOf, BE16;
    PubackIsFrame(p);
    FrameHasItsLength(s, p.fixedHeader, PubackBody(p));
    var q := 1 + |Vbi(|PubackBody(p)|)|;
    var a, b, c, d := BE16(p.packetIdentifier), [p.reasonCode], Vbi(p.propertyLen), PropsBytes(p.properties);
    AtSplit(s, q, a + b + c, d);
    AtSplit(s, q, a + b, c);
    AtSplit(s, q, a, b);
    U16RoundTrip(s, q, p.packetIdentifier);
    U8RoundTrip(s, q + 2, p.reasonCode);
    PropsRoundTrip(s, q + 3, p.properties);
    assert [] + p.properties == p.properties;
  }

  /** The short forms of section 3.4.2: a missing reason code means success, missing properties mean none. */
  lemma PubackShortForms(s: seq<byte>, header: byte, identifier: u16, reason: byte, cap: nat)
    requires TypeOf(header) == PubackType
    ensures At(s, 0, Frame(header, BE16(identifier))) ==>
              PubackAt(s, 0, NEW_PUBACK, cap) == Ok(Puback(header, 2, identifier, 0, 0, []))
    ensures At(s, 0, Frame(header, BE16(identifier) + [reason])) ==>
              PubackAt(s, 0, NEW_PUBACK, cap) == Ok(Puback(header, 3, identifier, reason, 0, []))
  {
    hide Vbi, VbiAt, PropsAt, U16At, U8At, HeaderAt, TypeOf, BE16;
    if At(s, 0, Frame(header, BE16(identifier))) {
      FrameHasItsLength(s, header, BE16(identifier));
      U16RoundTrip(s, 1 + |Vbi(2)|, identifier);
    }
    if At(s, 0, Frame(header, BE16(identifier) + [reason])) {
      FrameHasItsLength(s, header, BE16(identifier) + [reason]);
      AtSplit(s, 1 + |Vbi(3)|, BE16(identifier), [reason]);
      U16RoundTrip(s, 1 + |Vbi(3)|, identifier);
      U8RoundTrip(s, 3 + |Vbi(3)|, reason);
    }
  }

  class PubackPacket {
    const maxProperties: nat
    var fixedHeader: byte
    var remainLen: u32
    var packetIdentifier: u16
    var reasonCode: byte
    var propertyLen: u32
    var properties: seq<Property>

    ghost function Value(): Puback
      reads this
    {
      Puback(fixedHeader, remainLen, packetIdentifier, reasonCode, propertyLen, properties)
    }

    ghost predicate Valid()
      reads this
    {
      |properties| <= maxProperties
    }

    constructor (maxProperties: nat)
      ensures Valid() && Value() == NEW_PUBACK && this.maxProperties == maxProperties
    {
      this.maxProperties := maxProperties;
      fixedHeader, remainLen, packetIdentifier, reasonCode, propertyLen, properties := 0x40, 0, 0, 0, 0, [];
    }

    method WriteBody(writer: BuffWriter) returns (r: Result<(), BufferError>)
      requires writer.Valid() && propertyLen <= MAX_ENCODABLE
      modifies writer, writer.buffer
      ensures All(Writable, properties) ==> writer.Appended(PubackBody(Value()), r)
      ensures !All(Writable, properties) ==> writer.Valid() && !r.Ok?
    {
      hide Vbi, PropsBytes, BE16, Writable;
      var _ :- writer.WriteU16(packetIdentifier);
      var _ :- writer.WriteU8(reasonCode);
      var _ :- writer.WriteVariableByteInt(propertyLen);
      r := writer.WriteProperties(properties);
    }

    method Encode(buffer: array<byte>, bufferLen: nat) returns (r: Result<nat, BufferError>)
      requires bufferLen <= buffer.Length
      modifies buffer
      ensures r.Ok? <==> PubackEncodable(Value()) && |PubackBytes(Value())| <= bufferLen
      ensures r.Ok? ==> r.value == |PubackBytes(Value())| && buffer[..r.value] == PubackBytes(Value())
      ensures PubackEncodable(Value()) && !r.Ok? ==> r == Err(InsufficientBufferSize)
    {
      hide Vbi, PubackBody, Writable;
      var writer := new BuffWriter(buffer, bufferLen);
      var propertyLenEnc :- VarInt.Encode(propertyLen);
      PaddedLen(propertyLen);
      var propertyLenLen := VarInt.Len(propertyLenEnc);
      var remaining: nat := propertyLen + propertyLenLen.value + 3;
      var _ :- writer.WriteU8(fixedHeader);
      var _ :- writer.WriteVariableByteInt(remaining);
      var _ :- WriteBody(writer);
      return Ok(writer.position);
    }

    method Decode(reader: BuffReader) returns (r: Result<(), BufferError>)
      requires reader.Valid() && Valid()
      modifies this, reader`position
      ensures match PubackAt(reader.View(), old(reader.position), old(Value()), maxProperties)
              case Ok(p) => r == Ok(()) && Value() == p && Valid()
              case Err(e) => r == Err(e)
              case Panic => r == Panic
    {
      hide HeaderOf, U16At, U8At, PropsAt, Keep;
      r, fixedHeader, remainLen := ExpectHeader(reader, PubackType, PacketTypeMismatch);
      if !r.Ok? {
        return;
      }
      packetIdentifier :- reader.ReadU16();
      if remainLen != 2 {
        reasonCode :- reader.ReadU8();
      }
      if remainLen < 4 {
        propertyLen := 0;
        return Ok(());
      }
      r, propertyLen, properties := reader.DecodeProperties(properties, maxProperties);
    }
  }

  // ---------------------------------------------------------------- SUBACK

  datatype Suback = Suback(
    fixedHeader: byte,
    remainLen: u32,
    packetIdentifier: u16,
    propertyLen: u32,
    properties: seq<Property>,
    reasonCodes: seq<byte>)

  const NEW_SUBACK := Suback(0x90, 0, 0, 0, [], [])

  /** The reason codes are all the bytes up to the packet end. */
  function ReasonsAt(s: seq<byte>, pos: nat, max: nat): Result<seq<byte>, BufferError>
    requires pos <= |s|
  {
    if pos >= max then Ok([])
    else if max <= |s| then Ok(s[pos..max])
    else Err(InsufficientBufferSize)
  }

  function SubackHeadAt(s: seq<byte>, pos: nat, prior: Suback, cap: nat): (r: Read<Suback>)
    ensures r.Ok? ==> r.value.1 <= |s| && r.value.0.remainLen <= MAX_ENCODABLE
    ensures r.Ok? ==> r.value.0.reasonCodes == prior.reasonCodes
  {
    var ((header, remaining), q) :- HeaderOf(s, pos, SubackType, PacketTypeMismatch);
    var (identifier, q) :- U16At(s, q);
    var ((propertyLen, properties), q) :- PropsAt(s, q);
    Ok((Suback(header, remaining, identifier, propertyLen, Keep(prior.properties + properties, cap),
        prior.reasonCodes), q))
  }

  function SubackAt(s: seq<byte>, pos: nat, prior: Suback, cap: nat, maxReasons: nat): Result<Suback, BufferError> {
    var (p, q) :- SubackHeadAt(s, pos, prior, cap);
    var codes :- ReasonsAt(s, q, AssumedEnd(p.remainLen));
    Ok(p.(reasonCodes := Keep(prior.reasonCodes + codes, maxReasons)))
  }

  function SubackBody(identifier: u16, properties: seq<Property>, codes: seq<byte>): seq<byte> {
    BE16(identifier) + Vbi(|PropsBytes(properties)|) + PropsBytes(properties) + codes
  }

  /** A SUBACK as section 3.9 lays it out is read completely: its identifier, and every code there is room for. */
  lemma SubackReads(
    s: seq<byte>, header: byte, identifier: u16, properties: seq<Property>, codes: seq<byte>, cap: nat,
    maxReasons: nat
  )
    requires TypeOf(header) == SubackType && All(Exact, properties) && Total(Unread, properties) == 0
    requires |SubackBody(identifier, properties, codes)| <= MAX_ENCODABLE
    requires At(s, 0, Frame(header, SubackBody(identifier, properties, codes)))
    ensures SubackAt(s, 0, NEW_SUBACK, cap, maxReasons) == Ok(Suback(
      header, |SubackBody(identifier, properties, codes)|, identifier, |PropsBytes(properties)|,
          Keep(properties, cap), Keep(codes, maxReasons)))
  {
    hide Vbi, VbiAt, PropsBytes, PropsAt, Unread, Exact, U16At, HeaderAt, TypeOf, BE16, SubackBody, Frame;
    var body := SubackBody(identifier, properties, codes);
    AcknowledgementLies(s, header, identifier, properties, codes);
    assert [] + properties == properties && [] + codes == codes;
    var start := |Frame(header, body)| - |codes|;
    if codes != [] {
      assert s[start..AssumedEnd(|body|)] == codes;
    }
  }

  /** Where the parts of a SUBACK or an UNSUBACK lie. */
  lemma AcknowledgementLies(
    s: seq<byte>, header: byte, identifier: u16, properties: seq<Property>, codes: seq<byte>
  )
    requires All(Exact, properties) && Total(Unread, properties) == 0
    requires |SubackBody(identifier, properties, codes)| <= MAX_ENCODABLE
    requires At(s, 0, Frame(header, SubackBody(identifier, properties, codes)))
    ensures var body := SubackBody(identifier, properties, codes);
            var q, start := 1 + |Vbi(|body|)|, |Frame(header, body)| - |codes|;
            && HeaderAt(s, 0) == Ok(((header, |body|), q)) && AssumedEnd(|body|) == |Frame(header, body)|
            && U16At(s, q) == Ok((identifier, q + 2))
            && PropsAt(s, q + 2) == Ok(((|PropsBytes(properties)|, properties), start))
            && start >= 0 && At(s, start, codes)
  {
    hide Vbi, VbiAt, PropsBytes, PropsAt, Unread, Exact, U16At, HeaderAt, BE16;
    var body := SubackBody(identifier, properties, codes);
    FrameHasItsLength(s, header, body);
    var q := 1 + |Vbi(|body|)|;
    var a, b, c := BE16(identifier), Vbi(|PropsBytes(properties)|), PropsBytes(properties);
    AtSplit(s, q, a + b + c, codes);
    AtSplit(s, q, a + b, c);
    AtSplit(s, q, a, b);
    U16RoundTrip(s, q, identifier);
    PropsRoundTrip(s, q + 2, properties);
  }

  /** Where the reason codes of a packet end for `read_reason_codes`, counted from its start `q`. */
  function CodesSeen(remainLen: u32, q: nat): nat {
    if AssumedEnd(remainLen) <= q then 0 else AssumedEnd(remainLen) - q
  }

  /**
   On any framed SUBACK the codes read are a prefix of the codes on the wire. They are all of them if and only if
   there are none, or the remaining length was encoded without redundant bytes.
   */
  lemma SubackCodesExactly(s: seq<byte>, cap: nat, maxReasons: nat)
    requires SubackHeadAt(s, 0, NEW_SUBACK, cap).Ok? && FrameLen(s) == Ok(|s|)
    ensures var (p, q) := SubackHeadAt(s, 0, NEW_SUBACK, cap).value;
            var seen := CodesSeen(p.remainLen, q);
            && q + seen <= |s|
            && SubackAt(s, 0, NEW_SUBACK, cap, maxReasons) == Ok(p.(reasonCodes := Keep(s[q..][..seen], maxReasons)))
            && (q + seen == |s| <==> q == |s| || VbiAt(s, 1).value.1 == 2 || s[VbiAt(s, 1).value.1 - 1] != 0)
            && (|s| - q <= maxReasons ==>
                  (SubackAt(s, 0, NEW_SUBACK, cap, maxReasons) == Ok(p.(reasonCodes := s[q..]))
                   <==> q == |s| || VbiAt(s, 1).value.1 == 2 || s[VbiAt(s, 1).value.1 - 1] != 0))
  {
    hide PropsAt, Vbi, TypeOf, U16At, VbiAt;
    AssumedEndExactly(s);
    var (p, q) := SubackHeadAt(s, 0, NEW_SUBACK, cap).value;
    var seen := CodesSeen(p.remainLen, q);
    var codes := s[q..][..seen];
    if seen > 0 {
      assert s[q..AssumedEnd(p.remainLen)] == codes;
    }
    assert ReasonsAt(s, q, AssumedEnd(p.remainLen)) == Ok(codes);
    assert [] + codes == codes;
    if |s| - q <= maxReasons {
      assert Keep(codes, maxReasons) == codes;
      assert q + seen == |s| ==> codes == s[q..];
      assert q + seen < |s| ==> |codes| < |s[q..]|;
    }
  }

  class SubackPacket {
    const maxReasons: nat
    const maxProperties: nat
    var fixedHeader: byte
    var remainLen: u32
    var packetIdentifier: u16
    var propertyLen: u32
    var properties: seq<Property>
    var reasonCodes: seq<byte>

    ghost function Value(): Suback
      reads this
    {
      Suback(fixedHeader, remainLen, packetIdentifier, propertyLen, properties, reasonCodes)
    }

    ghost predicate Valid()
      reads this
    {
      |properties| <= maxProperties && |reasonCodes| <= maxReasons
    }

    constructor (maxReasons: nat, maxProperties: nat)
      ensures Valid() && Value() == NEW_SUBACK && this.maxReasons == maxReasons && this.maxProperties == maxProperties
    {
      this.maxReasons, this.maxProperties := maxReasons, maxProperties;
      fixedHeader, remainLen, packetIdentifier, propertyLen, properties, reasonCodes := 0x90, 0, 0, 0, [], [];
    }

    /** Reads one code after the other until the cursor is at the packet end; it cannot step over it. */
    method ReadReasonCodes(reader: BuffReader) returns (r: Result<(), BufferError>)
      requires reader.Valid() && Valid() && remainLen <= MAX_ENCODABLE
      modifies this`reasonCodes, reader`position
      ensures Valid()
      ensures match ReasonsAt(reader.View(), old(reader.position), AssumedEnd(remainLen))
              case Ok(codes) => r == Ok(()) && reasonCodes == Keep(old(reasonCodes) + codes, maxReasons)
              case Err(e) => r == Err(e)
              case Panic => r == Panic
    {
      hide Vbi;
      var lengthEnc := VarInt.Encode(remainLen);
      PaddedLen(remainLen);
      var lengthLen := VarInt.Len(lengthEnc.value);
      var max := remainLen + lengthLen.value + 1;
      assert reasonCodes + [] == reasonCodes;
      if reader.position >= max {
        return Ok(());
      }
      ghost var s, start := reader.View(), reader.position;
      while true
        invariant reader.Valid() && start <= reader.position < max
        invariant reasonCodes == Keep(old(reasonCodes) + s[start..reader.position], maxReasons)
        decreases max - reader.position
      {
        ghost var here := reader.position;
        var code := reader.ReadU8();
        if !code.Ok? {
          return code.PropagateFailure();
        }
        assert s[start..here + 1] == s[start..here] + [s[here]];
        PushKept(old(reasonCodes), s[start..here], s[here], maxReasons);
        reasonCodes := Push(reasonCodes, code.value, maxReasons);
        if reader.position == max {
          break;
        }
      }
      return Ok(());
    }

    method DecodeHead(reader: BuffReader) returns (r: Result<(), BufferError>)
      requires reader.Valid() && Valid()
      modifies this, reader`position
      ensures match SubackHeadAt(reader.View(), old(reader.position), old(Value()), maxProperties)
              case Ok(h) => r == Ok(()) && Value() == h.0 && Valid() && reader.position == h.1 && reader.Valid()
              case Err(e) => r == Err(e)
              case Panic => r == Panic
    {
      hide HeaderOf, U16At, PropsAt, Keep;
      r, fixedHeader, remainLen := ExpectHeader(reader, SubackType, PacketTypeMismatch);
      if !r.Ok? {
        return;
      }
      packetIdentifier :- reader.ReadU16();
      r, propertyLen, properties := reader.DecodeProperties(properties, maxProperties);
    }

    method Decode(reader: BuffReader) returns (r: Result<(), BufferError>)
      requires reader.Valid() && Valid()
      modifies this, reader`position
      ensures match SubackAt(reader.View(), old(reader.position), old(Value()), maxProperties, maxReasons)
              case Ok(p) => r == Ok(()) && Value() == p && Valid()
              case Err(e) => r == Err(e)
              case Panic => r == Panic
    {
      hide SubackHeadAt, AssumedEnd, ReasonsAt, Keep;
      var _ :- DecodeHead(reader);
      r := ReadReasonCodes(reader);
    }
  }

  // ---------------------------------------------------------------- CONNACK

  datatype Connack = Connack(
    fixedHeader: byte,
    remainLen: u32,
    ackFlags: byte,
    connectReasonCode: byte,
    propertyLen: u32,
    properties: seq<Property>)

  const NEW_CONNACK := Connack(0x20, 0, 0, 0, 0, [])

  function ConnackAt(s: seq<byte>, pos: nat, prior: Connack, cap: nat): Result<Connack, BufferError> {
    var ((header, remaining), q) :- HeaderOf(s, pos, ConnackType, PacketTypeMismatch);
    var (flags, q) :- U8At(s, q);
    var (code, q) :- U8At(s, q);
    var ((propertyLen, properties), q) :- PropsAt(s, q);
    Ok(Connack(header, remaining, flags, code, propertyLen, Keep(prior.properties + properties, cap)))
  }

  function ConnackBody(flags: byte, code: byte, properties: seq<Property>): seq<byte> {
    [flags] + [code] + Vbi(|PropsBytes(properties)|) + PropsBytes(properties)
  }

  /** What a CONNACK of section 3.2 is decoded to when it is read completely. */
  function WholeConnack(header: byte, flags: byte, code: byte, properties: seq<Property>, cap: nat): Connack
    requires |ConnackBody(flags, code, properties)| <= MAX_ENCODABLE
  {
    Connack(header, |ConnackBody(flags, code, properties)|, flags, code, |PropsBytes(properties)|,
            Keep(properties, cap))
  }

  /** Flags and reason code are read in front of the properties: whatever they are, these two are never mistaken. */
  lemma ConnackSaysSo(s: seq<byte>, header: byte, flags: byte, code: byte, rest: seq<byte>, prior: Connack, cap: nat)
    requires TypeOf(header) == ConnackType && 2 + |rest| <= MAX_ENCODABLE
    requires At(s, 0, Frame(header, [flags] + [code] + rest))
    ensures var body := [flags] + [code] + rest;
            var q := 3 + |Vbi(|body|)|;
            && At(s, q, rest)
            && ConnackAt(s, 0, prior, cap) == match PropsAt(s, q)
               case Ok(((n, ps), e)) => Ok(Connack(header, |body|, flags, code, n, Keep(prior.properties + ps, cap)))
               case Err(e) => Err(e)
               case Panic => Panic
  {
    hide Vbi, VbiAt, PropsAt, U8At, HeaderAt, TypeOf;
    var body := [flags] + [code] + rest;
    FrameHasItsLength(s, header, body);
    var q := 1 + |Vbi(|body|)|;
    AtSplit(s, q, [flags] + [code], rest);
    AtSplit(s, q, [flags], [code]);
    U8RoundTrip(s, q, flags);
    U8RoundTrip(s, q + 1, code);
  }

  /** The property block as the rest of the packet. */
  lemma ConnackBlock(s: seq<byte>, header: byte, flags: byte, code: byte, properties: seq<Property>, cap: nat)
    requires TypeOf(header) == ConnackType && |ConnackBody(flags, code, properties)| <= MAX_ENCODABLE
    requires At(s, 0, Frame(header, ConnackBody(flags, code, properties)))
    ensures var n := |PropsBytes(properties)|;
            var q := 3 + |Vbi(|ConnackBody(flags, code, properties)|)|;
            && At(s, q, Vbi(n)) && At(s, q + |Vbi(n)|, PropsBytes(properties))
            && ConnackAt(s, 0, NEW_CONNACK, cap) == match PropsAt(s, q)
               case Ok(((k, ps), e)) =>
                 Ok(Connack(header, |ConnackBody(flags, code, properties)|, flags, code, k, Keep(ps, cap)))
               case Err(e) => Err(e)
               case Panic => Panic
  {
    hide Vbi, VbiAt, PropsAt, PropsBytes, TypeOf, ConnackAt;
    var b, c := Vbi(|PropsBytes(properties)|), PropsBytes(properties);
    assert ConnackBody(flags, code, properties) == [flags] + [code] + (b + c);
    ConnackSaysSo(s, header, flags, code, b + c, NEW_CONNACK, cap);
    var q := 3 + |Vbi(|ConnackBody(flags, code, properties)|)|;
    AtSplit(s, q, b, c);
    if PropsAt(s, q).Ok? {
      assert [] + PropsAt(s, q).value.0.1 == PropsAt(s, q).value.0.1;
    }
  }

  /**
   A CONNACK as section 3.2 lays it out, with properties the code can read, is read completely: flags, reason code,
   and every property there is room for. AuthenticationData may be the last of them.
   */
  lemma ConnackReads(s: seq<byte>, header: byte, flags: byte, code: byte, properties: seq<Property>, cap: nat)
    requires TypeOf(header) == ConnackType && Recoverable(properties)
    requires |ConnackBody(flags, code, properties)| <= MAX_ENCODABLE
    requires At(s, 0, Frame(header, ConnackBody(flags, code, properties)))
    ensures ConnackAt(s, 0, NEW_CONNACK, cap) == Ok(WholeConnack(header, flags, code, properties, cap))
  {
    hide Vbi, VbiAt, PropsAt, PropsBytes, TypeOf, ConnackAt, Recoverable;
    ConnackBlock(s, header, flags, code, properties, cap);
    RecoverableReads(s, 3 + |Vbi(|ConnackBody(flags, code, properties)|)|, properties);
  }

  /**
   Exactly when a CONNACK with one binary property is read completely, with room for its properties: when the data
   and what follows it begin with the properties that follow.
   */
  lemma ConnackReadsExactly(
    s: seq<byte>, header: byte, flags: byte, code: byte, before: seq<Property>, x: Property, after: seq<Property>,
    cap: nat
  )
    requires TypeOf(header) == ConnackType
    requires OneBinary(before, x, after) && All(NoSubscriptionIdentifier, after)
    requires var ps := before + [x] + after;
             && |ps| <= cap && |ConnackBody(flags, code, ps)| <= MAX_ENCODABLE
             && At(s, 0, Frame(header, ConnackBody(flags, code, ps)))
    ensures var ps := before + [x] + after;
            ConnackAt(s, 0, NEW_CONNACK, cap) == Ok(WholeConnack(header, flags, code, ps, cap)) <==> Repeats(x, after)
  {
    hide Vbi, VbiAt, PropsBytes, PropsLoop, TypeOf, ConnackAt, Exact, Repeats, OneBinary;
    var ps := before + [x] + after;
    var n := |PropsBytes(ps)|;
    var q := 3 + |Vbi(|ConnackBody(flags, code, ps)|)|;
    ConnackBlock(s, header, flags, code, ps, cap);
    VbiAtRoundTrip(s, q, n);
    NotEmptyBlock(before, x, after);
    assert Keep(ps, cap) == ps;
    OneBinaryExactly(s, q + |Vbi(n)|, before, x, after, cap);
  }

  lemma NotEmptyBlock(before: seq<Property>, x: Property, after: seq<Property>)
    requires OneBinary(before, x, after)
    ensures |PropsBytes(before + [x] + after)| > 0
  {
    OneBinaryParts(before, x, after);
  }

  class ConnackPacket {
    const maxProperties: nat
    var fixedHeader: byte
    var remainLen: u32
    var ackFlags: byte
    var connectReasonCode: byte
    var propertyLen: u32
    var properties: seq<Property>

    ghost function Value(): Connack
      reads this
    {
      Connack(fixedHeader, remainLen, ackFlags, connectReasonCode, propertyLen, properties)
    }

    constructor (maxProperties: nat)
      ensures Value() == NEW_CONNACK && this.maxProperties == maxProperties
    {
      this.maxProperties := maxProperties;
      fixedHeader, remainLen, ackFlags, connectReasonCode, propertyLen, properties := 0x20, 0, 0, 0, 0, [];
    }

    method Decode(reader: BuffReader) returns (r: Result<(), BufferError>)
      requires reader.Valid() && |properties| <= maxProperties
      modifies this, reader`position
      ensures match ConnackAt(reader.View(), old(reader.position), old(Value()), maxProperties)
              case Ok(p) => r == Ok(()) && Value() == p
              case Err(e) => r == Err(e)
              case Panic => r == Panic
    {
      hide HeaderOf, U8At, PropsAt, Keep;
      r, fixedHeader, remainLen := ExpectHeader(reader, ConnackType, PacketTypeMismatch);
      if !r.Ok? {
        return;
      }
      ackFlags :- reader.ReadU8();
      connectReasonCode :- reader.ReadU8();
      r, propertyLen, properties := reader.DecodeProperties(properties, maxProperties);
    }
  }

  // ---------------------------------------------------------------- UNSUBACK

  /** Exactly `count` codes are read, wherever the packet ends; the codes are not looked at. */
  function CodesAt(s: seq<byte>, pos: nat, count: nat): Result<seq<byte>, BufferError>
    requires pos <= |s|
  {
    if count >= 1 && pos + count <= |s| then Ok(s[pos..pos + count]) else Err(InsufficientBufferSize)
  }

  datatype Unsuback = Unsuback(
    fixedHeader: byte,
    remainLen: u32,
    packetIdentifier: u16,
    propertyLen: u32,
    properties: seq<Property>,
    reasonCodes: seq<byte>)

  const NEW_UNSUBACK := Unsuback(0xB0, 0, 0, 0, [], [])

  function UnsubackAt(
    s: seq<byte>, pos: nat, prior: Unsuback, cap: nat, maxReasons: nat
  ): Result<Unsuback, BufferError> {
    var ((header, remaining), q) :- HeaderOf(s, pos, UnsubackType, PacketTypeMismatch);
    var (identifier, q) :- U16At(s, q);
    var ((propertyLen, properties), q) :- PropsAt(s, q);
    var codes :- CodesAt(s, q, maxReasons);
    Ok(Unsuback(header, remaining, identifier, propertyLen, Keep(prior.properties + properties, cap), codes))
  }

  /** SUBACK and UNSUBACK have the same layout (section 3.11). */
  function UnsubackBody(identifier: u16, properties: seq<Property>, codes: seq<byte>): seq<byte> {
    SubackBody(identifier, properties, codes)
  }

  /**
   An UNSUBACK as section 3.11 lays it out is read if and only if it holds at least as many codes as the reader
   counts to; the codes beyond that number are left alone.
   */
  lemma UnsubackReads(
    s: seq<byte>, header: byte, identifier: u16, properties: seq<Property>, codes: seq<byte>, cap: nat, maxReasons: nat
  )
    requires TypeOf(header) == UnsubackType && All(Exact, properties) && Total(Unread, properties) == 0
    requires |UnsubackBody(identifier, properties, codes)| <= MAX_ENCODABLE
    requires s == Frame(header, UnsubackBody(identifier, properties, codes))
    ensures UnsubackAt(s, 0, NEW_UNSUBACK, cap, maxReasons) ==
      if 1 <= maxReasons <= |codes| then
        Ok(Unsuback(header, |UnsubackBody(identifier, properties, codes)|, identifier, |PropsBytes(properties)|,
                    Keep(properties, cap), codes[..maxReasons]))
      else Err(InsufficientBufferSize)
  {
    hide Vbi, VbiAt, PropsBytes, PropsAt, Unread, Exact, U16At, HeaderAt, TypeOf, BE16, SubackBody, Frame;
    AtWhole(s);
    AcknowledgementLies(s, header, identifier, properties, codes);
    assert [] + properties == properties;
    var start := |s| - |codes|;
    assert s[start..start + |codes|] == codes;
    if 1 <= maxReasons <= |codes| {
      assert s[start..start + maxReasons] == codes[..maxReasons];
    }
  }

  class UnsubackPacket {
    const maxReasons: nat
    const maxProperties: nat
    var fixedHeader: byte
    var remainLen: u32
    var packetIdentifier: u16
    var propertyLen: u32
    var properties: seq<Property>
    var reasonCodes: seq<byte>

    ghost function Value(): Unsuback
      reads this
    {
      Unsuback(fixedHeader, remainLen, packetIdentifier, propertyLen, properties, reasonCodes)
    }

    constructor (maxReasons: nat, maxProperties: nat)
      ensures Value() == NEW_UNSUBACK && this.maxReasons == maxReasons && this.maxProperties == maxProperties
    {
      this.maxReasons, this.maxProperties := maxReasons, maxProperties;
      fixedHeader, remainLen, packetIdentifier, propertyLen, properties, reasonCodes := 0xB0, 0, 0, 0, [], [];
    }

    /** Counts to `maxReasons`; with room for none it reads until the view ends. */
    method ReadReasonCodes(reader: BuffReader) returns (r: Result<(), BufferError>)
      requires reader.Valid() && reasonCodes == []
      modifies this`reasonCodes, reader`position
      ensures match CodesAt(reader.View(), old(reader.position), maxReasons)
              case Ok(codes) => r == Ok(()) && reasonCodes == codes
              case Err(e) => r == Err(e)
              case Panic => r == Panic
    {
      var i := 0;
      ghost var s, start := reader.View(), reader.position;
      while true
        invariant reader.Valid() && reader.position == start + i
        invariant maxReasons == 0 || i < maxReasons
        invariant maxReasons != 0 ==> reasonCodes == s[start..start + i]
        decreases reader.len - reader.position
      {
        ghost var here := reader.position;
        var code := reader.ReadU8();
        if !code.Ok? {
          return code.PropagateFailure();
        }
        assert s[start..here + 1] == s[start..here] + [s[here]];
        reasonCodes := Push(reasonCodes, code.value, maxReasons);
        i := i + 1;
        if i == maxReasons {
          break;
        }
      }
      return Ok(());
    }

    method Decode(reader: BuffReader) returns (r: Result<(), BufferError>)
      requires reader.Valid() && |properties| <= maxProperties && reasonCodes == []
      modifies this, reader`position
      ensures match UnsubackAt(reader.View(), old(reader.position), old(Value()), maxProperties, maxReasons)
              case Ok(p) => r == Ok(()) && Value() == p
              case Err(e) => r == Err(e)
              case Panic => r == Panic
    {
      hide HeaderOf, U16At, PropsAt, Keep, CodesAt;
      r, fixedHeader, remainLen := ExpectHeader(reader, UnsubackType, PacketTypeMismatch);
      if !r.Ok? {
        return;
      }
      packetIdentifier :- reader.ReadU16();
      r, propertyLen, properties := reader.DecodeProperties(properties, maxProperties);
      if !r.Ok? {
        return;
      }
      r := ReadReasonCodes(reader);
    }
  }

  // ---------------------------------------------------------------- PINGRESP, DISCONNECT

  function PingrespAt(s: seq<byte>, pos: nat): Result<(), BufferError> {
    var (h, _) :- HeaderOf(s, pos, PingrespType, PacketTypeMismatch);
    if h.1 != 0 then Err(PacketTypeMismatch) else Ok(())
  }

  method DecodePingresp(reader: BuffReader) returns (r: Result<(), BufferError>)
    requires reader.Valid()
    modifies reader`position
    ensures r == PingrespAt(reader.View(), old(reader.position))
  {
    hide HeaderOf;
    var header, remaining;
    r, header, remaining := ExpectHeader(reader, PingrespType, PacketTypeMismatch);
    if r.Ok? && remaining != 0 {
      return Err(PacketTypeMismatch);
    }
  }

  function DisconnectBody(reason: byte, propertyLen: nat, properties: seq<Property>): seq<byte> {
    [reason] + Vbi(propertyLen) + PropsBytes(properties)
  }

  /** The remaining length as `encode` adds it up. */
  function DisconnectBytes(header: byte, reason: byte, propertyLen: u32, properties: seq<Property>): seq<byte> {
    [header] + Vbi(1 + propertyLen + |Vbi(propertyLen)|) + DisconnectBody(reason, propertyLen, properties)
  }

  lemma DisconnectIsFrame(header: byte, reason: byte, properties: seq<Property>)
    requires |PropsBytes(properties)| <= MAX_ENCODABLE
    ensures var n := |PropsBytes(properties)|;
            DisconnectBytes(header, reason, n, properties) == Frame(header, DisconnectBody(reason, n, properties))
  {
    hide Vbi, PropsBytes;
  }

  ghost predicate DisconnectEncodable(propertyLen: u32, properties: seq<Property>) {
    propertyLen <= MAX_ENCODABLE && 1 + propertyLen + |Vbi(propertyLen)| <= MAX_ENCODABLE && All(Writable, properties)
  }

  datatype Disconnect = Disconnect(
    fixedHeader: byte,
    remainLen: u32,
    disconnectReason: byte,
    propertyLen: u32,
    properties: seq<Property>)

  const NEW_DISCONNECT := Disconnect(0xE0, 5, 0, 0, [])

  function DisconnectAt(s: seq<byte>, pos: nat, prior: Disconnect, cap: nat): Result<Disconnect, BufferError> {
    var ((header, remaining), q) :- HeaderOf(s, pos, DisconnectType, WrongPacketToDecode);
    if remaining == 0 then
      Ok(prior.(fixedHeader := header, remainLen := remaining, disconnectReason := 0))
    else
      var (reason, q) :- U8At(s, q);
      var ((propertyLen, properties), q) :- PropsAt(s, q);
      Ok(Disconnect(header, remaining, reason, propertyLen, Keep(prior.properties + properties, cap)))
  }

  class DisconnectPacket {
    const maxProperties: nat
    var fixedHeader: byte
    var remainLen: u32
    var disconnectReason: byte
    var propertyLen: u32
    var properties: seq<Property>

    ghost function Value(): Disconnect
      reads this
    {
      Disconnect(fixedHeader, remainLen, disconnectReason, propertyLen, properties)
    }

    constructor (maxProperties: nat)
      ensures Value() == NEW_DISCONNECT && this.maxProperties == maxProperties
    {
      this.maxProperties := maxProperties;
      fixedHeader, remainLen, disconnectReason, propertyLen, properties := 0xE0, 5, 0, 0, [];
    }

    method WriteBody(writer: BuffWriter) returns (r: Result<(), BufferError>)
      requires writer.Valid() && propertyLen <= MAX_ENCODABLE
      modifies writer, writer.buffer
      ensures All(Writable, properties)
          ==> writer.Appended(DisconnectBody(disconnectReason, propertyLen, properties), r)
      ensures !All(Writable, properties) ==> writer.Valid() && !r.Ok?
    {
      hide Vbi, PropsBytes, Writable;
      var _ :- writer.WriteU8(disconnectReason);
      var _ :- writer.WriteVariableByteInt(propertyLen);
      r := writer.WriteProperties(properties);
    }

    method Encode(buffer: array<byte>, bufferLen: nat) returns (r: Result<nat, BufferError>)
      requires bufferLen <= buffer.Length
      modifies buffer
      ensures var bytes := DisconnectBytes(fixedHeader, disconnectReason, propertyLen, properties);
              && (r.Ok? <==> DisconnectEncodable(propertyLen, properties) && |bytes| <= bufferLen)
              && (r.Ok? ==> r.value == |bytes| && buffer[..r.value] == bytes)
              && (DisconnectEncodable(propertyLen, properties) && !r.Ok? ==> r == Err(InsufficientBufferSize))
    {
      hide Vbi, DisconnectBody, Writable;
      var writer := new BuffWriter(buffer, bufferLen);
      var _ :- writer.WriteU8(fixedHeader);
      var propertyLenEnc :- VarInt.Encode(propertyLen);
      PaddedLen(propertyLen);
      var propertyLenLen := VarInt.Len(propertyLenEnc);
      var remaining: nat := 1 + propertyLen + propertyLenLen.value;
      var _ :- writer.WriteVariableByteInt(remaining);
      var _ :- WriteBody(writer);
      return Ok(writer.position);
    }

    method Decode(reader: BuffReader) returns (r: Result<(), BufferError>)
      requires reader.Valid() && |properties| <= maxProperties
      modifies this, reader`position
      ensures match DisconnectAt(reader.View(), old(reader.position), old(Value()), maxProperties)
              case Ok(p) => r == Ok(()) && Value() == p
              case Err(e) => r == Err(e)
              case Panic => r == Panic
    {
      hide HeaderOf, U8At, PropsAt, Keep;
      r, fixedHeader, remainLen := ExpectHeader(reader, DisconnectType, WrongPacketToDecode);
      if !r.Ok? {
        return;
      }
      if remainLen == 0 {
        disconnectReason := 0;
        return Ok(());
      }
      disconnectReason :- reader.ReadU8();
      r, propertyLen, properties := reader.DecodeProperties(properties, maxProperties);
    }
  }

  /**
   Section 3.14.2 lets a server leave the property length out after the reason code. The code accepts a
   DISCONNECT with a reason code if and only if the property block follows it.
   */
  lemma DisconnectNeedsProperties(
    s: seq<byte>, header: byte, reason: byte, properties: seq<Property>, withBlock: bool, cap: nat
  )
    requires TypeOf(header) == DisconnectType && All(Exact, properties) && Total(Unread, properties) == 0
    requires |PropsBytes(properties)| + 5 <= MAX_ENCODABLE
    requires var block := Vbi(|PropsBytes(properties)|) + PropsBytes(properties);
             s == Frame(header, [reason] + if withBlock then block else [])
    ensures DisconnectAt(s, 0, NEW_DISCONNECT, cap).Ok? <==> withBlock
    ensures withBlock ==>
              && DisconnectAt(s, 0, NEW_DISCONNECT, cap).value.disconnectReason == reason
              && DisconnectAt(s, 0, NEW_DISCONNECT, cap).value.properties == Keep(properties, cap)
    ensures !withBlock ==> DisconnectAt(s, 0, NEW_DISCONNECT, cap) == Err(InsufficientBufferSize)
  {
    hide Vbi, VbiAt, U8At, HeaderAt, TypeOf, PropsBytes, PropsAt;
    assert [] + properties == properties;
    var n := |PropsBytes(properties)|;
    VbiWidth(n);
    var rest := if withBlock then Vbi(n) + PropsBytes(properties) else [];
    AtWhole(s);
    FrameHasItsLength(s, header, [reason] + rest);
    var q := 1 + |Vbi(1 + |rest|)|;
    AtSplit(s, q, [reason], rest);
    U8RoundTrip(s, q, reason);
    if withBlock {
      AtSplit(s, q + 1, Vbi(n), PropsBytes(properties));
      PropsRoundTrip(s, q + 1, properties);
    } else {
      PropsAtEnd(s, q + 1);
    }
  }

  lemma PropsAtEnd(s: seq<byte>, pos: nat)
    requires pos >= |s|
    ensures PropsAt(s, pos) == Err(InsufficientBufferSize)
  {
  }
}
