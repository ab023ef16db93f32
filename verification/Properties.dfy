/**
 The 27 properties of MQTT v5.0, section 2.2.2.2: identifiers, payloads, lengths, and the two ways of
 reading a property list, the standard's and the code's.
 */
module Properties {
  import opened Base
  import opened VarInt
  import opened Types
  import opened Lists

  datatype Property =
    | PayloadFormat(byteValue: byte)
    | MessageExpiryInterval(longValue: u32)
    | ContentType(stringValue: EncodedString)
    | ResponseTopic(stringValue: EncodedString)
    | CorrelationData(binaryValue: BinaryData)
    | SubscriptionIdentifier(varValue: u32)
    | SessionExpiryInterval(longValue: u32)
    | AssignedClientIdentifier(stringValue: EncodedString)
    | ServerKeepAlive(wordValue: u16)
    | AuthenticationMethod(stringValue: EncodedString)
    | AuthenticationData(binaryValue: BinaryData)
    | RequestProblemInformation(byteValue: byte)
    | WillDelayInterval(longValue: u32)
    | RequestResponseInformation(byteValue: byte)
    | ResponseInformation(stringValue: EncodedString)
    | ServerReference(stringValue: EncodedString)
    | ReasonString(stringValue: EncodedString)
    | ReceiveMaximum(wordValue: u16)
    | TopicAliasMaximum(wordValue: u16)
    | TopicAlias(wordValue: u16)
    | MaximumQoS(byteValue: byte)
    | RetainAvailable(byteValue: byte)
    | UserProperty(pairValue: StringPair)
    | MaximumPacketSize(longValue: u32)
    | WildcardSubscriptionAvailable(byteValue: byte)
    | SubscriptionIdentifierAvailable(byteValue: byte)
    | SharedSubscriptionAvailable(byteValue: byte)
    | Reserved

  datatype Payload =
    | PByte(byteValue: byte)
    | PWord(wordValue: u16)
    | PLong(longValue: u32)
    | PVar(varValue: u32)
    | PString(stringValue: EncodedString)
    | PBinary(binaryValue: BinaryData)
    | PPair(pairValue: StringPair)

  datatype Shape = ByteShape | WordShape | LongShape | VarShape | StringShape | BinaryShape | PairShape | NoShape

  function PropertyId(p: Property): byte {
    match p
    case PayloadFormat(_) => 0x01
    case MessageExpiryInterval(_) => 0x02
    case ContentType(_) => 0x03
    case ResponseTopic(_) => 0x08
    case CorrelationData(_) => 0x09
    case SubscriptionIdentifier(_) => 0x0B
    case SessionExpiryInterval(_) => 0x11
    case AssignedClientIdentifier(_) => 0x12
    case ServerKeepAlive(_) => 0x13
    case AuthenticationMethod(_) => 0x15
    case AuthenticationData(_) => 0x16
    case RequestProblemInformation(_) => 0x17
    case WillDelayInterval(_) => 0x18
    case RequestResponseInformation(_) => 0x19
    case ResponseInformation(_) => 0x1A
    case ServerReference(_) => 0x1C
    case ReasonString(_) => 0x1F
    case ReceiveMaximum(_) => 0x21
    case TopicAliasMaximum(_) => 0x22
    case TopicAlias(_) => 0x23
    case MaximumQoS(_) => 0x24
    case RetainAvailable(_) => 0x25
    case UserProperty(_) => 0x26
    case MaximumPacketSize(_) => 0x27
    case WildcardSubscriptionAvailable(_) => 0x28
    case SubscriptionIdentifierAvailable(_) => 0x29
    case SharedSubscriptionAvailable(_) => 0x2A
    case Reserved => 0x00
  }

  function PayloadOf(p: Property): Payload
    requires !p.Reserved?
  {
    match p
    case PayloadFormat(u) => PByte(u)
    case MessageExpiryInterval(u) => PLong(u)
    case ContentType(u) => PString(u)
    case ResponseTopic(u) => PString(u)
    case CorrelationData(u) => PBinary(u)
    case SubscriptionIdentifier(u) => PVar(u)
    case SessionExpiryInterval(u) => PLong(u)
    case AssignedClientIdentifier(u) => PString(u)
    case ServerKeepAlive(u) => PWord(u)
    case AuthenticationMethod(u) => PString(u)
    case AuthenticationData(u) => PBinary(u)
    case RequestProblemInformation(u) => PByte(u)
    case WillDelayInterval(u) => PLong(u)
    case RequestResponseInformation(u) => PByte(u)
    case ResponseInformation(u) => PString(u)
    case ServerReference(u) => PString(u)
    case ReasonString(u) => PString(u)
    case ReceiveMaximum(u) => PWord(u)
    case TopicAliasMaximum(u) => PWord(u)
    case TopicAlias(u) => PWord(u)
    case MaximumQoS(u) => PByte(u)
    case RetainAvailable(u) => PByte(u)
    case UserProperty(u) => PPair(u)
    case MaximumPacketSize(u) => PLong(u)
    case WildcardSubscriptionAvailable(u) => PByte(u)
    case SubscriptionIdentifierAvailable(u) => PByte(u)
    case SharedSubscriptionAvailable(u) => PByte(u)
  }

  /** The payload an identifier announces; `NoShape` for an identifier the standard does not define. */
  function ShapeOf(id: byte): Shape {
    match id
    case 0x01 => ByteShape
    case 0x02 => LongShape
    case 0x03 => StringShape
    case 0x08 => StringShape
    case 0x09 => BinaryShape
    case 0x0B => VarShape
    case 0x11 => LongShape
    case 0x12 => StringShape
    case 0x13 => WordShape
    case 0x15 => StringShape
    case 0x16 => BinaryShape
    case 0x17 => ByteShape
    case 0x18 => LongShape
    case 0x19 => ByteShape
    case 0x1A => StringShape
    case 0x1C => StringShape
    case 0x1F => StringShape
    case 0x21 => WordShape
    case 0x22 => WordShape
    case 0x23 => WordShape
    case 0x24 => ByteShape
    case 0x25 => ByteShape
    case 0x26 => PairShape
    case 0x27 => LongShape
    case 0x28 => ByteShape
    case 0x29 => ByteShape
    case 0x2A => ByteShape
    case _ => NoShape
  }

  predicate Fits(shape: Shape, v: Payload) {
    match shape
    case ByteShape => v.PByte?
    case WordShape => v.PWord?
    case LongShape => v.PLong?
    case VarShape => v.PVar?
    case StringShape => v.PString?
    case BinaryShape => v.PBinary?
    case PairShape => v.PPair?
    case NoShape => false
  }

  function Build(id: byte, v: Payload): (p: Property)
    requires Fits(ShapeOf(id), v)
    ensures !p.Reserved? && PayloadOf(p) == v
  {
    match id
    case 0x01 => PayloadFormat(v.byteValue)
    case 0x02 => MessageExpiryInterval(v.longValue)
    case 0x03 => ContentType(v.stringValue)
    case 0x08 => ResponseTopic(v.stringValue)
    case 0x09 => CorrelationData(v.binaryValue)
    case 0x0B => SubscriptionIdentifier(v.varValue)
    case 0x11 => SessionExpiryInterval(v.longValue)
    case 0x12 => AssignedClientIdentifier(v.stringValue)
    case 0x13 => ServerKeepAlive(v.wordValue)
    case 0x15 => AuthenticationMethod(v.stringValue)
    case 0x16 => AuthenticationData(v.binaryValue)
    case 0x17 => RequestProblemInformation(v.byteValue)
    case 0x18 => WillDelayInterval(v.longValue)
    case 0x19 => RequestResponseInformation(v.byteValue)
    case 0x1A => ResponseInformation(v.stringValue)
    case 0x1C => ServerReference(v.stringValue)
    case 0x1F => ReasonString(v.stringValue)
    case 0x21 => ReceiveMaximum(v.wordValue)
    case 0x22 => TopicAliasMaximum(v.wordValue)
    case 0x23 => TopicAlias(v.wordValue)
    case 0x24 => MaximumQoS(v.byteValue)
    case 0x25 => RetainAvailable(v.byteValue)
    case 0x26 => UserProperty(v.pairValue)
    case 0x27 => MaximumPacketSize(v.longValue)
    case 0x28 => WildcardSubscriptionAvailable(v.byteValue)
    case 0x29 => SubscriptionIdentifierAvailable(v.byteValue)
    case _ => SharedSubscriptionAvailable(v.byteValue)
  }

  // ---------------------------------------------------------------- lengths and bytes

  /** The payload can be written: its texts are as long as declared, its integer encodable. */
  predicate CoveredPayload(v: Payload) {
    match v
    case PVar(u) => u <= MAX_ENCODABLE
    case PString(u) => StringCovered(u)
    case PBinary(u) => BinaryCovered(u)
    case PPair(u) => StringCovered(u.name) && StringCovered(u.value)
    case _ => true
  }

  /** Declared lengths are the real ones and the payload is measurable in a u16. */
  predicate ExactPayload(v: Payload) {
    CoveredPayload(v) && |Wire(v)| < U16_MOD && match v
      case PString(u) => ExactString(u)
      case PBinary(u) => ExactBinary(u)
      case PPair(u) => ExactPair(u)
      case _ => true
  }

  function WireLen(v: Payload): (n: nat)
    ensures n < U16_MOD
  {
    match v
    case PByte(_) => 1
    case PWord(_) => 2
    case PLong(_) => 4
    case PVar(u) => |Vbi(u)| % U16_MOD
    case PString(u) => StringLen(u)
    case PBinary(u) => BinaryLen(u)
    case PPair(u) => PairLen(u)
  }

  function Wire(v: Payload): seq<byte> {
    match v
    case PByte(u) => [u]
    case PWord(u) => BE16(u)
    case PLong(u) => BE32(u)
    case PVar(u) => Vbi(u)
    case PString(u) => StringBytes(u)
    case PBinary(u) => BinaryBytes(u)
    case PPair(u) => PairBytes(u)
  }

  predicate Writable(p: Property) {
    !p.Reserved? && CoveredPayload(PayloadOf(p))
  }

  predicate Exact(p: Property) {
    !p.Reserved? && ExactPayload(PayloadOf(p))
  }

  /** `Property::encoded_len`, in u16 (it panics for a subscription identifier that cannot be encoded). */
  function EncodedLen(p: Property): (n: nat)
    ensures n < U16_MOD
  {
    if p.Reserved? then 0 else WireLen(PayloadOf(p))
  }

  predicate Measurable(p: Property) {
    p.SubscriptionIdentifier? ==> p.varValue <= MAX_ENCODABLE
  }

  function PropertyBytes(p: Property): seq<byte> {
    [PropertyId(p)] + if p.Reserved? then [] else Wire(PayloadOf(p))
  }

  function PropsBytes(ps: seq<Property>): seq<byte> {
    Flat(PropertyBytes, ps)
  }

  /** What `encoded_len` reports is the number of payload bytes written, modulo 65536. */
  lemma EncodedLenIsPayload(v: Payload)
    requires CoveredPayload(v)
    ensures WireLen(v) == |Wire(v)| % U16_MOD
  {
    hide Vbi, StringBytes, BinaryBytes, PairBytes, PairLen, ValidUtf8;
    match v {
      case PVar(u) => VbiWidth(u);
      case PPair(u) => PairMod(u);
      case _ =>
    }
  }

  lemma PairMod(p: StringPair)
    ensures PairLen(p) == (4 + p.name.len + p.value.len) % U16_MOD
  {
  }

  // Table 2-4 of section 2.2.2.2: every property on the wire, its identifier and its payload.

  /** One byte. */
  lemma ByteProperties(b: byte)
    ensures PropertyBytes(PayloadFormat(b)) == [0x01] + [b]
    ensures PropertyBytes(RequestProblemInformation(b)) == [0x17] + [b]
    ensures PropertyBytes(RequestResponseInformation(b)) == [0x19] + [b]
    ensures PropertyBytes(MaximumQoS(b)) == [0x24] + [b]
  {
    hide BE16, BE32, Vbi, StringBytes, BinaryBytes, PairBytes;
  }

  /** One byte that says whether something is available. */
  lemma AvailableProperties(b: byte)
    ensures PropertyBytes(RetainAvailable(b)) == [0x25] + [b]
    ensures PropertyBytes(WildcardSubscriptionAvailable(b)) == [0x28] + [b]
    ensures PropertyBytes(SubscriptionIdentifierAvailable(b)) == [0x29] + [b]
    ensures PropertyBytes(SharedSubscriptionAvailable(b)) == [0x2A] + [b]
  {
    hide BE16, BE32, Vbi, StringBytes, BinaryBytes, PairBytes;
  }

  /** Two bytes. */
  lemma WordProperties(w: u16)
    ensures PropertyBytes(ServerKeepAlive(w)) == [0x13] + BE16(w)
    ensures PropertyBytes(ReceiveMaximum(w)) == [0x21] + BE16(w)
    ensures PropertyBytes(TopicAliasMaximum(w)) == [0x22] + BE16(w)
    ensures PropertyBytes(TopicAlias(w)) == [0x23] + BE16(w)
  {
    hide BE16, BE32, Vbi, StringBytes, BinaryBytes, PairBytes;
  }

  /** Four bytes. */
  lemma LongProperties(l: u32)
    ensures PropertyBytes(MessageExpiryInterval(l)) == [0x02] + BE32(l)
    ensures PropertyBytes(SessionExpiryInterval(l)) == [0x11] + BE32(l)
    ensures PropertyBytes(WillDelayInterval(l)) == [0x18] + BE32(l)
    ensures PropertyBytes(MaximumPacketSize(l)) == [0x27] + BE32(l)
  {
    hide BE16, BE32, Vbi, StringBytes, BinaryBytes, PairBytes;
  }

  /** A string. */
  lemma TextProperties(e: EncodedString)
    ensures PropertyBytes(ContentType(e)) == [0x03] + StringBytes(e)
    ensures PropertyBytes(ResponseTopic(e)) == [0x08] + StringBytes(e)
    ensures PropertyBytes(AssignedClientIdentifier(e)) == [0x12] + StringBytes(e)
    ensures PropertyBytes(AuthenticationMethod(e)) == [0x15] + StringBytes(e)
    ensures PropertyBytes(ResponseInformation(e)) == [0x1A] + StringBytes(e)
    ensures PropertyBytes(ServerReference(e)) == [0x1C] + StringBytes(e)
    ensures PropertyBytes(ReasonString(e)) == [0x1F] + StringBytes(e)
  {
    hide BE16, BE32, Vbi, StringBytes, BinaryBytes, PairBytes;
  }

  /** A variable byte integer, binary data, and a string pair. */
  lemma OtherProperties(v: u32, d: BinaryData, p: StringPair)
    ensures PropertyBytes(CorrelationData(d)) == [0x09] + BinaryBytes(d)
    ensures PropertyBytes(SubscriptionIdentifier(v)) == [0x0B] + Vbi(v)
    ensures PropertyBytes(AuthenticationData(d)) == [0x16] + BinaryBytes(d)
    ensures PropertyBytes(UserProperty(p)) == [0x26] + PairBytes(p)
  {
    hide BE16, BE32, Vbi, StringBytes, BinaryBytes, PairBytes;
  }

  /** And no other identifier is known. */
  lemma KnownIdentifiers(id: byte)
    ensures ShapeOf(id) != NoShape <==>
              || 0x01 <= id <= 0x03 || id in {0x08, 0x09, 0x0B} || 0x11 <= id <= 0x13 || 0x15 <= id <= 0x1A
              || id in {0x1C, 0x1F} || 0x21 <= id <= 0x2A
  {
  }

  // ---------------------------------------------------------------- which packet takes which property

  predicate ConnectProperty(p: Property) {
    || p.SessionExpiryInterval? || p.ReceiveMaximum? || p.MaximumPacketSize? || p.TopicAliasMaximum?
    || p.RequestResponseInformation? || p.RequestProblemInformation? || p.UserProperty?
    || p.AuthenticationMethod? || p.AuthenticationData?
  }

  /** The same table, by identifier: the properties a CONNECT may carry. */
  lemma ConnectTable(p: Property)
    ensures !p.Reserved? ==>
              (ConnectProperty(p) <==>
                 PropertyBytes(p)[0] in {0x11, 0x15, 0x16, 0x17, 0x19, 0x21, 0x22, 0x26, 0x27})
    ensures p.Reserved? ==> !ConnectProperty(p)
  {
  }

  // ---------------------------------------------------------------- reading one property

  function PayloadAt(shape: Shape, s: seq<byte>, pos: nat): (r: Read<Payload>)
    requires shape != NoShape
    ensures r.Ok? ==> Fits(shape, r.value.0) && pos + 1 <= r.value.1 <= |s|
    ensures r.Ok? && shape == BinaryShape ==> r.value.1 == pos + 2 + r.value.0.binaryValue.len
    ensures r.Ok? && r.value.0.PVar? ==> r.value.0.varValue <= MAX_ENCODABLE
  {
    match shape
    case ByteShape => var (u, e) :- U8At(s, pos); Ok((PByte(u), e))
    case WordShape => var (u, e) :- U16At(s, pos); Ok((PWord(u), e))
    case LongShape => var (u, e) :- U32At(s, pos); Ok((PLong(u), e))
    case VarShape => var (u, e) :- VbiAt(s, pos); Ok((PVar(u), e))
    case StringShape => var (u, e) :- StringAt(s, pos); Ok((PString(u), e))
    case BinaryShape => var (u, e) :- BinaryAt(s, pos); Ok((PBinary(u), e))
    case PairShape => var (u, e) :- PairAt(s, pos); Ok((PPair(u), e))
  }

  /** A property as the standard reads it. */
  function StdPropertyAt(s: seq<byte>, pos: nat): (r: Read<Property>)
    ensures r.Ok? ==> Measurable(r.value.0) && pos + 2 + Unread(r.value.0) <= r.value.1 <= |s|
  {
    if pos >= |s| then Err(InsufficientBufferSize)
    else if ShapeOf(s[pos]) == NoShape then Err(IdNotFound)
    else match PayloadAt(ShapeOf(s[pos]), s, pos + 1)
      case Ok(read) => Ok((Build(s[pos], read.0), read.1))
      case Err(e) => Err(e)
      case Panic => Panic
  }

  predicate IsBinary(p: Property) {
    p.CorrelationData? || p.AuthenticationData?
  }

  /** `read_binary` leaves the cursor in front of the data it returns. */
  function Unread(p: Property): nat {
    if IsBinary(p) then p.binaryValue.len else 0
  }

  /** `Property::decode`. */
  function PropertyAt(s: seq<byte>, pos: nat): (r: Read<Property>)
    ensures r.Ok? ==> Measurable(r.value.0) && pos + 2 <= r.value.1 <= |s|
  {
    match StdPropertyAt(s, pos)
    case Ok(read) => Ok((read.0, read.1 - Unread(read.0)))
    case Err(e) => Err(e)
    case Panic => Panic
  }

  lemma BuildUnread(id: byte, v: Payload)
    requires Fits(ShapeOf(id), v)
    ensures Unread(Build(id, v)) == if v.PBinary? then v.binaryValue.len else 0
  {
  }

  lemma BuildInverts(p: Property)
    requires !p.Reserved?
    ensures Fits(ShapeOf(PropertyId(p)), PayloadOf(p)) && Build(PropertyId(p), PayloadOf(p)) == p
  {
  }

  lemma PayloadRoundTrip(shape: Shape, s: seq<byte>, pos: nat, v: Payload)
    requires Fits(shape, v) && ExactPayload(v) && At(s, pos, Wire(v))
    ensures PayloadAt(shape, s, pos) == Ok((v, pos + |Wire(v)|))
  {
    match v {
      case PByte(u) => U8RoundTrip(s, pos, u);
      case PWord(u) => U16RoundTrip(s, pos, u);
      case PLong(u) => U32RoundTrip(s, pos, u);
      case PVar(u) => VbiAtRoundTrip(s, pos, u);
      case PString(u) => StringRoundTrip(s, pos, u);
      case PBinary(u) => BinaryRoundTrip(s, pos, u);
      case PPair(u) => PairRoundTrip(s, pos, u);
    }
  }

  /** One property written is read back; the code's cursor stops short by the unread binary data. */
  lemma PropertyRoundTrip(s: seq<byte>, pos: nat, p: Property)
    requires Exact(p) && At(s, pos, PropertyBytes(p))
    ensures StdPropertyAt(s, pos) == Ok((p, pos + |PropertyBytes(p)|))
    ensures PropertyAt(s, pos) == Ok((p, pos + |PropertyBytes(p)| - Unread(p)))
  {
    AtSplit(s, pos, [PropertyId(p)], Wire(PayloadOf(p)));
    U8RoundTrip(s, pos, PropertyId(p));
    BuildInverts(p);
    PayloadRoundTrip(ShapeOf(PropertyId(p)), s, pos + 1, PayloadOf(p));
  }

  /**
   Conversely a payload that was read occupies its encoded length, except that an integer with
   redundant bytes occupies more than `encoded_len` says.
   */
  lemma PayloadSpan(shape: Shape, s: seq<byte>, pos: nat)
    requires shape != NoShape && |s| < U16_MOD && PayloadAt(shape, s, pos).Ok?
    ensures var (v, e) := PayloadAt(shape, s, pos).value;
            WireLen(v) <= e - pos && (!v.PVar? ==> WireLen(v) == e - pos)
  {
    hide VbiAt, StringAt, BinaryAt, PairAt, PairLen;
    match shape {
      case VarShape => VarSpan(s, pos);
      case PairShape => PairSpan(PairAt(s, pos).value.0, PairAt(s, pos).value.1 - pos);
      case _ =>
    }
  }

  lemma VarSpan(s: seq<byte>, pos: nat)
    requires VbiAt(s, pos).Ok?
    ensures |Vbi(VbiAt(s, pos).value.0)| <= VbiAt(s, pos).value.1 - pos
  {
    var k := Scan(s, pos, 0).value;
    ScanTerminates(s, pos, 0);
    MinimalExactly(s[pos..pos + k]);
  }

  lemma PairSpan(p: StringPair, n: nat)
    requires n == 4 + p.name.len + p.value.len < U16_MOD
    ensures PairLen(p) == n
  {
  }

  lemma PropertySpan(s: seq<byte>, pos: nat)
    requires PropertyAt(s, pos).Ok? && |s| < U16_MOD
    ensures var (p, e) := PropertyAt(s, pos).value;
            && pos + 1 + EncodedLen(p) <= e + Unread(p)
            && (!p.SubscriptionIdentifier? ==> pos + 1 + EncodedLen(p) == e + Unread(p))
  {
    PayloadSpan(ShapeOf(s[pos]), s, pos + 1);
  }

  // ---------------------------------------------------------------- reading a property list

  lemma PropertyProgress(s: seq<byte>)
    ensures Progress(PropertyAt, s) && Progress(StdPropertyAt, s)
  {
  }

  /** The loop of `decode_properties`. */
  function PropsLoop(s: seq<byte>, pos: nat, x: u32, target: u32): (r: Read<seq<Property>>)
    ensures r.Ok? ==> pos < r.value.1 <= |s|
  {
    PropertyProgress(s);
    SumLoop(PropertyAt, EncodedLen, s, pos, x, target)
  }

  /** One turn of the loop. */
  lemma PropsStep(s: seq<byte>, pos: nat, x: u32, target: u32)
    ensures PropsLoop(s, pos, x, target) == match PropertyAt(s, pos)
      case Err(e) => Err(e)
      case Panic => Panic
      case Ok(read) =>
        var x' := (x + EncodedLen(read.0) + 1) % U32_MOD;
        if x' == target then Ok(([read.0], read.1)) else Prepend([read.0], PropsLoop(s, read.1, x', target))
  {
    hide PropertyAt, EncodedLen;
  }

  /** `decode_properties`: the announced length, all properties read, and the cursor. */
  function PropsAt(s: seq<byte>, pos: nat): (r: Read<(u32, seq<Property>)>)
    ensures r.Ok? ==> pos < r.value.1 <= |s| && r.value.0.0 <= MAX_ENCODABLE
  {
    var (n, q) :- VbiAt(s, pos);
    if n == 0 then Ok(((0, []), q))
    else
      var (ps, e) :- PropsLoop(s, q, 0, n);
      Ok(((n, ps), e))
  }

  /** The property block as the standard reads it: properties up to the end of the block. */
  function StdPropsAt(s: seq<byte>, pos: nat): (r: Read<seq<Property>>)
    ensures r.Ok? ==> pos < r.value.1
  {
    var (n, q) :- VbiAt(s, pos);
    PropertyProgress(s);
    var ps :- ReadTo(StdPropertyAt, s, q, q + n);
    Ok((ps, q + n))
  }

  predicate ReadByCode(p: Property) {
    Exact(p) && Unread(p) == 0
  }

  predicate NoSubscriptionIdentifier(p: Property) {
    !p.SubscriptionIdentifier?
  }

  lemma StdPropertyInverts(s: seq<byte>)
    ensures Inverts(StdPropertyAt, PropertyBytes, Exact, s)
  {
    hide StdPropertyAt, PropertyBytes, Exact;
    forall pos: nat, p: Property | Exact(p) && At(s, pos, PropertyBytes(p))
      ensures StdPropertyAt(s, pos) == Ok((p, pos + |PropertyBytes(p)|))
    {
      PropertyRoundTrip(s, pos, p);
    }
  }

  lemma PropertyInverts(s: seq<byte>)
    ensures Inverts(PropertyAt, PropertyBytes, ReadByCode, s)
  {
    hide StdPropertyAt, PropertyAt, PropertyBytes, Exact, Unread;
    forall pos: nat, p: Property | ReadByCode(p) && At(s, pos, PropertyBytes(p))
      ensures PropertyAt(s, pos) == Ok((p, pos + |PropertyBytes(p)|))
    {
      PropertyRoundTrip(s, pos, p);
    }
  }

  /** The announced length of exact properties is the number of bytes they are written as. */
  lemma {:induction false} PropsLength(ps: seq<Property>)
    requires All(Exact, ps)
    ensures |PropsBytes(ps)| == Total(EncodedLen, ps) + |ps|
  {
    hide Wire, WireLen, PayloadOf;
    if ps != [] {
      PropsLength(ps[1..]);
      EncodedLenIsPayload(PayloadOf(ps[0]));
    }
  }

  /** What is written is what the standard reads, binary data included. */
  lemma StdPropsRoundTrip(s: seq<byte>, pos: nat, ps: seq<Property>)
    requires All(Exact, ps) && |PropsBytes(ps)| <= MAX_ENCODABLE
    requires At(s, pos, Vbi(|PropsBytes(ps)|)) && At(s, pos + |Vbi(|PropsBytes(ps)|)|, PropsBytes(ps))
    ensures StdPropsAt(s, pos) == Ok((ps, pos + |Vbi(|PropsBytes(ps)|)| + |PropsBytes(ps)|))
  {
    hide StdPropertyAt, PropertyAt, PropertyBytes, EncodedLen, Unread, Exact;
    var n := |PropsBytes(ps)|;
    var q := pos + |Vbi(n)|;
    VbiAtRoundTrip(s, pos, n);
    PropertyProgress(s);
    StdPropertyInverts(s);
    WrittenIsLaid(StdPropertyAt, PropertyBytes, Exact, s, q, ps);
    ReadToFindsLaid(StdPropertyAt, s, q, ps, q + n);
  }

  lemma {:induction false} AllReadByCode(ps: seq<Property>)
    requires All(Exact, ps) && Total(Unread, ps) == 0
    ensures All(ReadByCode, ps)
  {
    if ps != [] {
      AllReadByCode(ps[1..]);
    }
  }

  lemma LoopRoundTrip(s: seq<byte>, pos: nat, ps: seq<Property>)
    requires All(Exact, ps) && ps != [] && At(s, pos, PropsBytes(ps)) && Total(Unread, ps) == 0
    requires |PropsBytes(ps)| <= MAX_ENCODABLE
    ensures PropsLoop(s, pos, 0, |PropsBytes(ps)|) == Ok((ps, pos + |PropsBytes(ps)|))
  {
    hide StdPropertyAt, PropertyAt, PropertyBytes, EncodedLen, Unread, Exact;
    AllReadByCode(ps);
    PropsLength(ps);
    PropertyProgress(s);
    PropertyInverts(s);
    WrittenIsLaid(PropertyAt, PropertyBytes, ReadByCode, s, pos, ps);
    SumLoopFindsLaid(PropertyAt, EncodedLen, s, pos, 0, ps, pos + |PropsBytes(ps)|);
  }

  /** The code reads back the property block it wrote, if no binary data is in it. */
  lemma PropsRoundTrip(s: seq<byte>, pos: nat, ps: seq<Property>)
    requires All(Exact, ps) && |PropsBytes(ps)| <= MAX_ENCODABLE && Total(Unread, ps) == 0
    requires At(s, pos, Vbi(|PropsBytes(ps)|)) && At(s, pos + |Vbi(|PropsBytes(ps)|)|, PropsBytes(ps))
    ensures PropsAt(s, pos) == Ok(((|PropsBytes(ps)|, ps), pos + |Vbi(|PropsBytes(ps)|)| + |PropsBytes(ps)|))
  {
    hide StdPropertyAt, PropertyAt, PropertyBytes, EncodedLen, Unread, Exact;
    VbiAtRoundTrip(s, pos, |PropsBytes(ps)|);
    PropsLength(ps);
    if ps != [] {
      LoopRoundTrip(s, pos + |Vbi(|PropsBytes(ps)|)|, ps);
    }
  }

  /** The loop of `decode_properties` with an accumulator that cannot wrap. */
  function PropsCount(s: seq<byte>, pos: nat, target: nat): Read<seq<Property>> {
    PropertyProgress(s);
    CountLoop(PropertyAt, EncodedLen, s, pos, 0, target)
  }

  /** On any reader of at most 65535 bytes the accumulator never wraps, whether the run succeeds or fails. */
  lemma LoopNeverWraps(s: seq<byte>, pos: nat, target: u32)
    requires |s| < U16_MOD
    ensures PropsLoop(s, pos, 0, target) == PropsCount(s, pos, target)
  {
    hide StdPropertyAt, PropertyAt, EncodedLen;
    PropertyProgress(s);
    forall p: nat | PropertyAt(s, p).Ok?
      ensures EncodedLen(PropertyAt(s, p).value.0) + 1 <= 0x8000 * (PropertyAt(s, p).value.1 - p)
    {
    }
    SumLoopNeverWraps(PropertyAt, EncodedLen, s, pos, 0, target, 0x8000);
  }

  /**
   So what a successful run reads reports sizes that add up to the announced length, and the cursor stops short
   of the end of the block by the binary data left unread (only an integer with redundant bytes moves it further).
   */
  lemma LoopConserves(s: seq<byte>, pos: nat, target: u32)
    requires |s| < U16_MOD && PropsLoop(s, pos, 0, target).Ok?
    ensures var (ps, end) := PropsLoop(s, pos, 0, target).value;
            && target == Total(EncodedLen, ps) + |ps|
            && pos + target <= end + Total(Unread, ps)
            && (All(NoSubscriptionIdentifier, ps) ==> pos + target == end + Total(Unread, ps))
  {
    hide StdPropertyAt, PropertyAt, PropertyBytes, EncodedLen, Unread, Exact;
    PropertyProgress(s);
    LoopNeverWraps(s, pos, target);
    CountLoopConserves(PropertyAt, EncodedLen, s, pos, 0, target);
    SumLoopIsLaid(PropertyAt, EncodedLen, s, pos, 0, target);
    var (ps, end) := PropsLoop(s, pos, 0, target).value;
    forall p: nat | PropertyAt(s, p).Ok?
      ensures var (item, q) := PropertyAt(s, p).value;
              && p + 1 + EncodedLen(item) <= q + Unread(item)
              && (NoSubscriptionIdentifier(item) ==> p + 1 + EncodedLen(item) == q + Unread(item))
    {
      PropertySpan(s, p);
    }
    LaidSpan(PropertyAt, EncodedLen, Unread, NoSubscriptionIdentifier, s, pos, ps, end);
  }

  /** A value that was read is as long as its own encoding, unless it is an integer with redundant bytes. */
  lemma PayloadSize(shape: Shape, s: seq<byte>, pos: nat)
    requires shape != NoShape && PayloadAt(shape, s, pos).Ok?
    ensures var (v, e) := PayloadAt(shape, s, pos).value;
            !v.PVar? ==> e == pos + |Wire(v)|
  {
    hide VbiAt, StringAt, BinaryAt, PairAt, ValidUtf8;
  }

  lemma FieldContinues(s: seq<byte>, pos: nat, i: nat)
    requires VbiAt(s, pos).Ok? && pos <= i < VbiAt(s, pos).value.1 - 1
    ensures s[i] >= 128
  {
  }

  /**
   A cursor that is behind the place where a property was written cannot catch up by reading that same
   property: only an integer with redundant bytes could, and it would have to span an identifier.
   */
  lemma StaysBehind(s: seq<byte>, c: nat, g: nat, p: Property)
    requires Exact(p) && At(s, g, PropertyBytes(p)) && c <= g
    requires PropertyAt(s, c).Ok? && PropertyAt(s, c).value.0 == p
    ensures PropertyAt(s, c).value.1 <= g + |PropertyBytes(p)|
    ensures c < g || Unread(p) > 0 ==> PropertyAt(s, c).value.1 < g + |PropertyBytes(p)|
  {
    hide Wire, Exact, ShapeOf, PropertyId;
    if c == g {
      PropertyRoundTrip(s, g, p);
    } else if p.SubscriptionIdentifier? {
      IdentifierAhead(s, c, g, p);
    } else {
      PayloadSize(ShapeOf(s[c]), s, c + 1);
    }
  }

  lemma IdentifierAhead(s: seq<byte>, c: nat, g: nat, p: Property)
    requires p.SubscriptionIdentifier? && At(s, g, PropertyBytes(p)) && c < g
    requires PropertyAt(s, c).Ok? && PropertyAt(s, c).value.0 == p
    ensures PropertyAt(s, c).value.1 < g + |PropertyBytes(p)|
  {
    hide Vbi, VbiAt;
    var end := PropertyAt(s, c).value.1;
    assert s[g] == s[g..g + |PropertyBytes(p)|][0] == 0x0B;
    assert ShapeOf(s[c]) == VarShape;
    assert end == VbiAt(s, c + 1).value.1;
    if end >= g + |PropertyBytes(p)| {
      FieldContinues(s, c + 1, g);
      assert false;
    }
  }

  /** So a list that is read back with all its items ends where it was written only if no data was left unread. */
  lemma {:induction false} NeverCatchesUp(s: seq<byte>, c: nat, g: nat, ps: seq<Property>, end: nat)
    requires All(Exact, ps) && At(s, g, PropsBytes(ps)) && c <= g && Laid(PropertyAt, s, c, ps, end)
    ensures end <= g + |PropsBytes(ps)|
    ensures c < g || Total(Unread, ps) > 0 ==> end < g + |PropsBytes(ps)|
    decreases |ps|
  {
    hide PropertyAt, PropertyBytes, Unread, Exact;
    if ps != [] {
      AtSplit(s, g, PropertyBytes(ps[0]), PropsBytes(ps[1..]));
      StaysBehind(s, c, g, ps[0]);
      NeverCatchesUp(s, PropertyAt(s, c).value.1, g + |PropertyBytes(ps[0])|, ps[1..], end);
    }
  }

  /** A list that the loop returns as far as there is room, and there is room for all of it, is what it read. */
  lemma KeptIsLaid(s: seq<byte>, pos: nat, ps: seq<Property>, cap: nat)
    requires All(Exact, ps) && 1 <= |ps| <= cap && |PropsBytes(ps)| <= MAX_ENCODABLE
    requires PropsLoop(s, pos, 0, |PropsBytes(ps)|).Ok?
    requires Keep(PropsLoop(s, pos, 0, |PropsBytes(ps)|).value.0, cap) == ps
    ensures Laid(PropertyAt, s, pos, ps, PropsLoop(s, pos, 0, |PropsBytes(ps)|).value.1)
  {
    hide PropertyAt, StdPropertyAt, PropertyBytes, EncodedLen, Exact, Laid, SumLoop, Total;
    PropertyProgress(s);
    PropsLength(ps);
    SumLoopStops(PropertyAt, EncodedLen, s, pos, 0, ps);
    SumLoopIsLaid(PropertyAt, EncodedLen, s, pos, 0, |PropsBytes(ps)|);
  }

  /**
   Exactly when a written list comes back: the code's loop, into a vector with room for the list, returns it
   with the cursor at the end of the block if and only if the list holds no (non-empty) binary data.
   */
  lemma RoundTripExactly(s: seq<byte>, pos: nat, ps: seq<Property>, cap: nat)
    requires All(Exact, ps) && 1 <= |ps| <= cap && |PropsBytes(ps)| <= MAX_ENCODABLE
    requires At(s, pos, PropsBytes(ps))
    ensures var read := PropsLoop(s, pos, 0, |PropsBytes(ps)|);
            (read.Ok? && Keep(read.value.0, cap) == ps && read.value.1 == pos + |PropsBytes(ps)|)
            <==> Total(Unread, ps) == 0
  {
    hide StdPropertyAt, PropertyAt, PropertyBytes, EncodedLen, Unread, Exact;
    var n := |PropsBytes(ps)|;
    var read := PropsLoop(s, pos, 0, n);
    if Total(Unread, ps) == 0 {
      LoopRoundTrip(s, pos, ps);
    } else if read.Ok? && Keep(read.value.0, cap) == ps {
      KeptIsLaid(s, pos, ps, cap);
      NeverCatchesUp(s, pos, pos, ps, read.value.1);
    }
  }

  // ---------------------------------------------------------------- lists that are read all the same

  lemma BuildHasId(id: byte, v: Payload)
    requires Fits(ShapeOf(id), v)
    ensures PropertyId(Build(id, v)) == id
  {
  }

  lemma PayloadLies(shape: Shape, s: seq<byte>, pos: nat)
    requires shape != NoShape && PayloadAt(shape, s, pos).Ok?
    ensures var v := PayloadAt(shape, s, pos).value.0;
            !v.PVar? ==> At(s, pos, Wire(v))
  {
    hide VbiAt, U16At, U32At, StringAt, BinaryAt, PairAt, StringBytes, BinaryBytes, PairBytes, BE16, BE32, ValidUtf8;
    match shape {
      case ByteShape =>
      case WordShape => U16Lies(s, pos);
      case LongShape => U32Lies(s, pos);
      case VarShape =>
      case StringShape => StringLies(s, pos);
      case BinaryShape => BinaryLies(s, pos);
      case PairShape => PairLies(s, pos);
    }
  }

  /**
   Conversely to the round trip: a property that was read lies there as it would be written, unless it is an integer.
   */
  lemma PropertyLies(s: seq<byte>, pos: nat)
    requires PropertyAt(s, pos).Ok? && !PropertyAt(s, pos).value.0.SubscriptionIdentifier?
    ensures At(s, pos, PropertyBytes(PropertyAt(s, pos).value.0))
  {
    hide PayloadAt, ShapeOf, Wire, PropertyId, PayloadOf;
    var id := s[pos];
    var v := PayloadAt(ShapeOf(id), s, pos + 1).value.0;
    BuildHasId(id, v);
    PayloadLies(ShapeOf(id), s, pos + 1);
    OnlyIdentifiersVary(id, v);
    AtSplit(s, pos, [id], Wire(v));
  }

  lemma OnlyIdentifiersVary(id: byte, v: Payload)
    requires Fits(ShapeOf(id), v)
    ensures v.PVar? <==> Build(id, v).SubscriptionIdentifier?
    ensures PayloadOf(Build(id, v)) == v
  {
  }

  /** What the loop reads without leaving data behind lies there as it would be written. */
  lemma {:induction false} LaidIsWritten(s: seq<byte>, pos: nat, ps: seq<Property>, end: nat)
    requires Laid(PropertyAt, s, pos, ps, end) && pos <= |s|
    requires All(ReadByCode, ps) && All(NoSubscriptionIdentifier, ps)
    ensures At(s, pos, PropsBytes(ps))
    decreases |ps|
  {
    hide PropertyAt, PropertyBytes, Unread, Exact;
    if ps != [] {
      PropertyLies(s, pos);
      PropertyRoundTrip(s, pos, ps[0]);
      var q := PropertyAt(s, pos).value.1;
      PropertyProgress(s);
      LaidIsWritten(s, q, ps[1..], end);
      AtSplit(s, pos, PropertyBytes(ps[0]), PropsBytes(ps[1..]));
    }
  }

  /** `x` is the only property of the list that carries binary data. */
  ghost predicate OneBinary(before: seq<Property>, x: Property, after: seq<Property>) {
    All(ReadByCode, before) && Exact(x) && IsBinary(x) && All(ReadByCode, after)
  }

  /** The cursor is left in front of the data of `x`, and what lies there happens to read like the rest of the list. */
  ghost predicate Repeats(x: Property, after: seq<Property>)
    requires IsBinary(x)
  {
    PropsBytes(after) <= x.binaryValue.bin + PropsBytes(after)
  }

  lemma BinaryTail(x: Property)
    requires Exact(x) && IsBinary(x)
    ensures |PropertyBytes(x)| == 3 + |x.binaryValue.bin| && Unread(x) == |x.binaryValue.bin|
    ensures PropertyBytes(x)[3..] == x.binaryValue.bin
  {
  }

  lemma OneBinaryParts(before: seq<Property>, x: Property, after: seq<Property>)
    requires OneBinary(before, x, after)
    ensures var ps := before + [x] + after;
            && All(Exact, ps) && Total(Unread, ps) == Unread(x)
            && PropsBytes(ps) == PropsBytes(before) + PropertyBytes(x) + PropsBytes(after)
  {
    hide PropertyBytes, Exact;
    var one := [x];
    FlatAppend(PropertyBytes, before + one, after);
    FlatSnoc(PropertyBytes, before, x);
    TotalAppend(Unread, before + one, after);
    TotalSnoc(Unread, before, x);
    AllAppend(Exact, before + one, after);
    AllSnoc(Exact, before, x);
    ReadByCodeAll(before);
    ReadByCodeAll(after);
  }

  lemma {:induction false} ReadByCodeAll(ps: seq<Property>)
    requires All(ReadByCode, ps)
    ensures All(Exact, ps) && Total(Unread, ps) == 0
  {
    hide Exact, Unread;
    if ps != [] {
      ReadByCodeAll(ps[1..]);
    }
  }

  /** Up to and including the binary property the list is read; the cursor is then in front of its data. */
  lemma ReadUpToBinary(s: seq<byte>, pos: nat, before: seq<Property>, x: Property, after: seq<Property>)
    requires OneBinary(before, x, after) && At(s, pos, PropsBytes(before + [x] + after))
    ensures var c := pos + |PropsBytes(before)| + 3;
            && Laid(PropertyAt, s, pos, before + [x], c)
            && At(s, c, x.binaryValue.bin + PropsBytes(after))
  {
    hide PropertyAt, StdPropertyAt, PropertyBytes, Unread, Exact;
    OneBinaryParts(before, x, after);
    BinaryTail(x);
    var g, head := pos + |PropsBytes(before)|, PropertyBytes(x)[..3];
    AtSplit(s, pos, PropsBytes(before) + PropertyBytes(x), PropsBytes(after));
    AtSplit(s, pos, PropsBytes(before), PropertyBytes(x));
    PropertyInverts(s);
    WrittenIsLaid(PropertyAt, PropertyBytes, ReadByCode, s, pos, before);
    PropertyRoundTrip(s, g, x);
    assert [x][1..] == [];
    LaidAppend(PropertyAt, s, pos, before, g, [x], g + 3);
    assert PropertyBytes(x) == head + x.binaryValue.bin;
    AtSplit(s, g, head, x.binaryValue.bin);
    AtSplit(s, g + 3, x.binaryValue.bin, PropsBytes(after));
  }

  /** Then the rest is read too, if the data in front of the cursor repeats it. */
  lemma OneBinaryReads(s: seq<byte>, pos: nat, before: seq<Property>, x: Property, after: seq<Property>)
    requires OneBinary(before, x, after) && Repeats(x, after)
    requires var ps := before + [x] + after; |PropsBytes(ps)| <= MAX_ENCODABLE && At(s, pos, PropsBytes(ps))
    ensures var ps := before + [x] + after;
            PropsLoop(s, pos, 0, |PropsBytes(ps)|) == Ok((ps, pos + |PropsBytes(ps)| - Total(Unread, ps)))
  {
    hide PropertyAt, StdPropertyAt, PropertyBytes, EncodedLen, Unread, Exact;
    var ps := before + [x] + after;
    var c := pos + |PropsBytes(before)| + 3;
    OneBinaryParts(before, x, after);
    BinaryTail(x);
    ReadUpToBinary(s, pos, before, x, after);
    var there, rest := x.binaryValue.bin + PropsBytes(after), PropsBytes(after);
    assert there == rest + there[|rest|..];
    AtSplit(s, c, rest, there[|rest|..]);
    PropertyInverts(s);
    WrittenIsLaid(PropertyAt, PropertyBytes, ReadByCode, s, c, after);
    LaidAppend(PropertyAt, s, pos, before + [x], c, after, c + |rest|);
    PropsLength(ps);
    PropertyProgress(s);
    SumLoopFindsLaid(PropertyAt, EncodedLen, s, pos, 0, ps, c + |rest|);
  }

  /**
   Exactly when a list with one binary property is read back, though the cursor falls behind: the loop returns it,
   into a vector with room for it, if and only if the data and what follows it begin with the properties that
   follow. They do when none follow.
   */
  lemma OneBinaryExactly(s: seq<byte>, pos: nat, before: seq<Property>, x: Property, after: seq<Property>, cap: nat)
    requires OneBinary(before, x, after) && All(NoSubscriptionIdentifier, after)
    requires var ps := before + [x] + after;
             |ps| <= cap && |PropsBytes(ps)| <= MAX_ENCODABLE && At(s, pos, PropsBytes(ps))
    ensures var ps := before + [x] + after;
            var read := PropsLoop(s, pos, 0, |PropsBytes(ps)|);
            (read.Ok? && Keep(read.value.0, cap) == ps) <==> Repeats(x, after)
  {
    hide PropertyAt, StdPropertyAt, PropertyBytes, EncodedLen, Unread, Exact;
    var ps := before + [x] + after;
    var n := |PropsBytes(ps)|;
    var read := PropsLoop(s, pos, 0, n);
    if Repeats(x, after) {
      OneBinaryReads(s, pos, before, x, after);
    } else if read.Ok? && Keep(read.value.0, cap) == ps {
      OneBinaryParts(before, x, after);
      KeptIsLaid(s, pos, ps, cap);
      LaidRepeats(s, pos, before, x, after, read.value.1);
    }
  }

  lemma LaidRepeats(s: seq<byte>, pos: nat, before: seq<Property>, x: Property, after: seq<Property>, end: nat)
    requires OneBinary(before, x, after) && All(NoSubscriptionIdentifier, after)
    requires At(s, pos, PropsBytes(before + [x] + after)) && Laid(PropertyAt, s, pos, before + [x] + after, end)
    ensures Repeats(x, after)
  {
    hide PropertyAt, StdPropertyAt, PropertyBytes, EncodedLen, Unread, Exact, Laid, All;
    var c := pos + |PropsBytes(before)| + 3;
    ReadUpToBinary(s, pos, before, x, after);
    LaidAppend(PropertyAt, s, pos, before + [x], c, after, end);
    LaidIsWritten(s, c, after, end);
    PrefixOfBoth(s, c, PropsBytes(after), x.binaryValue.bin + PropsBytes(after));
  }

  lemma PrefixOfBoth(s: seq<byte>, pos: nat, a: seq<byte>, b: seq<byte>)
    requires At(s, pos, a) && At(s, pos, b) && |a| <= |b|
    ensures a <= b
  {
    assert s[pos..pos + |b|][..|a|] == s[pos..pos + |a|];
  }

  /** Lists the code reads completely: without binary data, or with one such property in front of a repetition. */
  ghost predicate Recoverable(ps: seq<Property>) {
    || (All(Exact, ps) && Total(Unread, ps) == 0)
    || exists before, x, after :: OneBinary(before, x, after) && ps == before + [x] + after && Repeats(x, after)
  }

  /** They are read completely, and the cursor is short of the end of the block by the data left unread. */
  lemma RecoverableReads(s: seq<byte>, pos: nat, ps: seq<Property>)
    requires Recoverable(ps) && |PropsBytes(ps)| <= MAX_ENCODABLE
    requires At(s, pos, Vbi(|PropsBytes(ps)|)) && At(s, pos + |Vbi(|PropsBytes(ps)|)|, PropsBytes(ps))
    ensures All(Exact, ps) && Total(Unread, ps) <= |PropsBytes(ps)|
    ensures PropsAt(s, pos) == Ok((
      (|PropsBytes(ps)|, ps), pos + |Vbi(|PropsBytes(ps)|)| + |PropsBytes(ps)| - Total(Unread, ps)))
  {
    hide PropertyAt, StdPropertyAt, PropertyBytes, EncodedLen, Unread, Exact, Vbi, VbiAt, PropsLoop;
    if All(Exact, ps) && Total(Unread, ps) == 0 {
      PropsRoundTrip(s, pos, ps);
    } else {
      var before, x, after :| OneBinary(before, x, after) && ps == before + [x] + after && Repeats(x, after);
      OneBinaryParts(before, x, after);
      BinaryTail(x);
      VbiAtRoundTrip(s, pos, |PropsBytes(ps)|);
      OneBinaryReads(s, pos + |Vbi(|PropsBytes(ps)|)|, before, x, after);
    }
  }

  /** One binary property behind all others is such a list. */
  lemma LastBinaryIsRecoverable(before: seq<Property>, x: Property)
    requires All(ReadByCode, before) && Exact(x) && IsBinary(x)
    ensures Recoverable(before + [x])
  {
    hide Exact, Unread, PropertyBytes;
    assert OneBinary(before, x, []) && before + [x] == before + [x] + [];
    assert PropsBytes([]) <= x.binaryValue.bin + PropsBytes([]);
  }
}
