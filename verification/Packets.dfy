/**
 What all packets share: the fixed header (MQTT v5.0, section 2.1), frames, and the properties a packet
 takes over from a configuration.
 */
module Packets {
  import opened Base
  import opened VarInt
  import opened Types
  import opened Lists
  import opened Properties
  import opened BuffReaders

  datatype PacketType =
    | ReservedType | ConnectType | ConnackType | PublishType | PubackType | PubrecType | PubrelType | PubcompType
    | SubscribeType | SubackType | UnsubscribeType | UnsubackType | PingreqType | PingrespType | DisconnectType
    | AuthType

  /** The upper four bits decide. */
  function TypeOf(header: byte): PacketType {
    match header / 0x10
    case 0x1 => ConnectType
    case 0x2 => ConnackType
    case 0x3 => PublishType
    case 0x4 => PubackType
    case 0x5 => PubrecType
    case 0x6 => PubrelType
    case 0x7 => PubcompType
    case 0x8 => SubscribeType
    case 0x9 => SubackType
    case 0xA => UnsubscribeType
    case 0xB => UnsubackType
    case 0xC => PingreqType
    case 0xD => PingrespType
    case 0xE => DisconnectType
    case 0xF => AuthType
    case _ => ReservedType
  }

  /** Table 2-1 of section 2.1.2, for every value of the four flag bits. */
  lemma TypeTable(flags: nat)
    requires flags < 16
    ensures TypeOf(0x00 + flags) == ReservedType && TypeOf(0x10 + flags) == ConnectType
    ensures TypeOf(0x20 + flags) == ConnackType && TypeOf(0x30 + flags) == PublishType
    ensures TypeOf(0x40 + flags) == PubackType && TypeOf(0x50 + flags) == PubrecType
    ensures TypeOf(0x60 + flags) == PubrelType && TypeOf(0x70 + flags) == PubcompType
    ensures TypeOf(0x80 + flags) == SubscribeType && TypeOf(0x90 + flags) == SubackType
    ensures TypeOf(0xA0 + flags) == UnsubscribeType && TypeOf(0xB0 + flags) == UnsubackType
    ensures TypeOf(0xC0 + flags) == PingreqType && TypeOf(0xD0 + flags) == PingrespType
    ensures TypeOf(0xE0 + flags) == DisconnectType && TypeOf(0xF0 + flags) == AuthType
  {
  }

  // ---------------------------------------------------------------- quality of service

  datatype QualityOfService = QoS0 | QoS1 | QoS2 | Invalid

  function QosByte(q: QualityOfService): byte {
    match q
    case QoS0 => 0
    case QoS1 => 2
    case QoS2 => 4
    case Invalid => 3
  }

  /** The level of section 4.3; the value the code calls invalid goes out as level 1. */
  function QosLevel(q: QualityOfService): byte {
    match q
    case QoS0 => 0
    case QoS1 => 1
    case QoS2 => 2
    case Invalid => 1
  }

  lemma QosIsLevel(q: QualityOfService)
    ensures QosByte(q) / 2 == QosLevel(q)
    ensures OrQos(0x30, q) == 0x30 + 2 * QosLevel(q) + if q.Invalid? then 1 else 0
  {
  }

  /** `header & 0x06`. */
  function QosBits(header: byte): byte {
    header / 2 % 4 * 2
  }

  /** `header | qos`, for the four bytes a quality of service can be. */
  function OrQos(header: byte, q: QualityOfService): byte {
    match q
    case QoS0 => header
    case QoS1 => SetBit(header, 2)
    case QoS2 => SetBit(header, 4)
    case Invalid => SetBit(SetBit(header, 1), 2)
  }

  // ---------------------------------------------------------------- frames

  /** A packet on the wire: the first byte, the length of the rest, the rest. */
  function Frame(header: byte, body: seq<byte>): seq<byte> {
    [header] + Vbi(|body|) + body
  }

  /** How long the packet at the start of a stream is, as its own remaining length says. */
  function FrameLen(stream: seq<byte>): Result<nat, BufferError> {
    var (n, q) :- VbiAt(stream, 1);
    Ok(q + n)
  }

  /** `decode_fixed_header`. */
  function HeaderAt(s: seq<byte>, pos: nat): (r: Read<(byte, u32)>)
    ensures r.Ok? ==> r.value.0.1 <= MAX_ENCODABLE && pos + 1 < r.value.1 <= |s|
  {
    var (header, q) :- U8At(s, pos);
    var (n, e) :- VbiAt(s, q);
    Ok(((header, n), e))
  }

  /** The packet end that PUBLISH and SUBACK compute: the remaining length is assumed to be minimally encoded. */
  function AssumedEnd(remainLen: u32): nat {
    |Vbi(remainLen)| + 1 + remainLen
  }

  lemma FrameHasItsLength(stream: seq<byte>, header: byte, body: seq<byte>)
    requires |body| <= MAX_ENCODABLE && At(stream, 0, Frame(header, body))
    ensures FrameLen(stream) == Ok(|Frame(header, body)|)
    ensures HeaderAt(stream, 0) == Ok(((header, |body|), 1 + |Vbi(|body|)|))
    ensures AssumedEnd(|body|) == |Frame(header, body)|
    ensures At(stream, 1 + |Vbi(|body|)|, body)
  {
    hide Vbi, VbiAt;
    AtSplit(stream, 0, [header] + Vbi(|body|), body);
    AtSplit(stream, 0, [header], Vbi(|body|));
    U8RoundTrip(stream, 0, header);
    VbiAtRoundTrip(stream, 1, |body|);
  }

  /** The assumed end is the packet's real end exactly when the remaining length is minimally encoded. */
  lemma AssumedEndExactly(stream: seq<byte>)
    requires FrameLen(stream).Ok?
    ensures var (n, q) := VbiAt(stream, 1).value;
            && AssumedEnd(n) <= FrameLen(stream).value
            && (AssumedEnd(n) == FrameLen(stream).value <==> q == 2 || stream[q - 1] != 0)
  {
    var k := Scan(stream, 1, 0).value;
    ScanTerminates(stream, 1, 0);
    MinimalExactly(stream[1..1 + k]);
    assert stream[1..1 + k][k - 1] == stream[k];
  }

  method DecodeFixedHeader(reader: BuffReader)
    returns (r: Result<PacketType, BufferError>, fixedHeader: byte, remainLen: u32)
    requires reader.Valid()
    modifies reader`position
    ensures match HeaderAt(reader.View(), old(reader.position))
            case Ok(h) => r == Ok(TypeOf(h.0.0)) && fixedHeader == h.0.0 && remainLen == h.0.1
                          && reader.position == h.1 && reader.Valid()
            case Err(e) => r == Err(e)
            case Panic => r == Panic
  {
    hide TypeOf, VbiAt;
    fixedHeader, remainLen := 0, 0;
    var first := reader.ReadU8();
    if !first.Ok? {
      return first.PropagateFailure(), 0, 0;
    }
    fixedHeader := first.value;
    var n := reader.ReadVariableByteInt();
    if !n.Ok? {
      return n.PropagateFailure(), fixedHeader, 0;
    }
    remainLen := n.value;
    return Ok(TypeOf(fixedHeader)), fixedHeader, remainLen;
  }

  // ---------------------------------------------------------------- properties taken over

  function Filter<T>(allowed: T -> bool, items: seq<T>): seq<T> {
    if items == [] then []
    else (if allowed(items[0]) then [items[0]] else []) + Filter(allowed, items[1..])
  }

  lemma {:induction false} FilterSnoc<T>(allowed: T -> bool, items: seq<T>, item: T)
    ensures Filter(allowed, items + [item]) == Filter(allowed, items) + if allowed(item) then [item] else []
  {
    if items == [] {
      assert [item][1..] == [];
    } else {
      FilterSnoc(allowed, items[1..], item);
      assert (items + [item])[1..] == items[1..] + [item];
    }
  }

  /** What is taken over: exactly the allowed items, each as often as it occurs, in their order. */
  lemma {:induction false} FilterMeans<T>(allowed: T -> bool, items: seq<T>, x: T)
    ensures multiset(Filter(allowed, items))[x] == if allowed(x) then multiset(items)[x] else 0
    ensures forall a, b :: items == a + b ==> Filter(allowed, items) == Filter(allowed, a) + Filter(allowed, b)
  {
    forall a, b | items == a + b ensures Filter(allowed, items) == Filter(allowed, a) + Filter(allowed, b) {
      FilterAppend(allowed, a, b);
    }
    if items != [] {
      FilterMeans(allowed, items[1..], x);
      assert items == [items[0]] + items[1..];
      var first := if allowed(items[0]) then [items[0]] else [];
      assert multiset(Filter(allowed, items)) == multiset(first) + multiset(Filter(allowed, items[1..]));
    }
  }

  function AnnouncedLen(p: Property): nat {
    EncodedLen(p) + 1
  }

  /**
   `add_properties`: allowed properties are pushed, and the sum of their lengths returned, whether the
   push found room or not. `encoded_len` panics for an identifier that cannot be encoded.
   */
  method AddProperties(allowed: Property -> bool, prior: seq<Property>, cap: nat, properties: seq<Property>)
    returns (r: Result<u32, BufferError>, kept: seq<Property>)
    requires |prior| <= cap
    ensures r.Ok? ==> All(Measurable, Filter(allowed, properties))
    ensures r.Ok? ==> r.value == Total(AnnouncedLen, Filter(allowed, properties)) % U32_MOD
    ensures r.Ok? ==> kept == Keep(prior + Filter(allowed, properties), cap)
    ensures !r.Ok? ==> r == Panic && !All(Measurable, Filter(allowed, properties))
  {
    hide EncodedLen, Measurable, Keep, Push;
    kept := prior;
    assert Keep(prior, cap) == prior by { KeepAll(prior, cap); }
    var res: u32 := 0;
    ghost var taken := [];
    assert prior + [] == prior;
    for i := 0 to |properties|
      invariant taken == Filter(allowed, properties[..i]) && All(Measurable, taken)
      invariant kept == Keep(prior + taken, cap)
      invariant res == Total(AnnouncedLen, taken) % U32_MOD
    {
      var p := properties[i];
      assert properties[..i + 1] == properties[..i] + [p];
      FilterSnoc(allowed, properties[..i], p);
      if allowed(p) {
        AllSnoc(Measurable, taken, p);
        if !Measurable(p) {
          assert properties == properties[..i + 1] + properties[i + 1..];
          FilterAppend(allowed, properties[..i + 1], properties[i + 1..]);
          NotAllAppend(taken + [p], Filter(allowed, properties[i + 1..]));
          return Panic, kept;
        }
        PushKept(prior, taken, p, cap);
        TotalSnoc(AnnouncedLen, taken, p);
        kept := Push(kept, p, cap);
        AddMod(Total(AnnouncedLen, taken), AnnouncedLen(p));
        res := (res + EncodedLen(p) + 1) % U32_MOD;
        taken := taken + [p];
      } else {
        assert taken + [] == taken;
      }
    }
    assert properties[..|properties|] == properties;
    return Ok(res), kept;
  }

  lemma {:induction false} FilterAppend<T>(allowed: T -> bool, a: seq<T>, b: seq<T>)
    ensures Filter(allowed, a + b) == Filter(allowed, a) + Filter(allowed, b)
  {
    if a == [] {
      assert a + b == b;
    } else {
      FilterAppend(allowed, a[1..], b);
      assert (a + b)[1..] == a[1..] + b;
      var first := if allowed(a[0]) then [a[0]] else [];
      assert Filter(allowed, a + b) == first + (Filter(allowed, a[1..]) + Filter(allowed, b));
    }
  }

  lemma AddMod(a: nat, b: nat)
    ensures (a % U32_MOD + b) % U32_MOD == (a + b) % U32_MOD
  {
  }

  lemma KeepAll<T>(v: seq<T>, cap: nat)
    requires |v| <= cap
    ensures Keep(v, cap) == v
  {
  }

  lemma NotAllAppend(a: seq<Property>, b: seq<Property>)
    requires !All(Measurable, a)
    ensures !All(Measurable, a + b)
  {
    assert (a + b)[..|a|] == a;
    if All(Measurable, a + b) {
      AllPrefix(Measurable, a + b, |a|);
    }
  }

  lemma {:induction false} AnnouncedIsBytes(ps: seq<Property>)
    requires All(Exact, ps)
    ensures Total(AnnouncedLen, ps) == |PropsBytes(ps)|
  {
    hide EncodedLen;
    PropsLength(ps);
    if ps != [] {
      PropsLength(ps[1..]);
      AnnouncedIsBytes(ps[1..]);
    }
  }

  lemma {:induction false} LongerList(ps: seq<Property>, n: nat)
    requires n <= |ps|
    ensures |PropsBytes(ps)| >= |PropsBytes(ps[..n])| + (|ps| - n)
  {
    hide PropertyBytes;
    FlatAppend(PropertyBytes, ps[..n], ps[n..]);
    assert ps == ps[..n] + ps[n..];
    FlatAtLeast(ps[n..]);
  }

  lemma {:induction false} FlatAtLeast(ps: seq<Property>)
    ensures |PropsBytes(ps)| >= |ps|
  {
    if ps != [] {
      FlatAtLeast(ps[1..]);
    }
  }

  /**
   The returned length is the number of property bytes the packet will write if and only if all allowed
   properties found room: dropped ones are counted but never written.
   */
  lemma AddedLengthExactly(allowed: Property -> bool, cap: nat, properties: seq<Property>)
    requires All(Exact, Filter(allowed, properties)) && |PropsBytes(Filter(allowed, properties))| < U32_MOD
    ensures (Total(AnnouncedLen, Filter(allowed, properties)) % U32_MOD
             == |PropsBytes(Keep(Filter(allowed, properties), cap))|)
            <==> |Filter(allowed, properties)| <= cap
  {
    var taken := Filter(allowed, properties);
    AnnouncedIsBytes(taken);
    LongerList(taken, Min(|taken|, cap));
    if |taken| <= cap {
      assert taken[..|taken|] == taken;
    }
  }
}
