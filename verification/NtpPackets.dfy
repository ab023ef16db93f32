/**
 SNTP packets on the wire and the answer to a request (sntpc/src/types.rs and `process_response` in
 sntpc/src/lib.rs; RFC 4330, section 4). The target is little endian: a packet is read with `from_le_bytes`
 and its fields are then swapped in place.
 */
module NtpPackets {
  import opened Base
  import opened NtpTime

  // ---------------------------------------------------------------- byte order

  function Pow256(n: nat): nat {
    if n == 0 then 1 else 256 * Pow256(n - 1)
  }

  function FromLE(bs: seq<byte>): nat {
    if bs == [] then 0 else bs[0] + 256 * FromLE(bs[1..])
  }

  function ToLE(v: nat, n: nat): (bs: seq<byte>)
    ensures |bs| == n
  {
    if n == 0 then [] else [v % 256] + ToLE(v / 256, n - 1)
  }

  function Reversed(bs: seq<byte>): (r: seq<byte>)
    ensures |r| == |bs|
  {
    if bs == [] then [] else Reversed(bs[1..]) + [bs[0]]
  }

  function ToBE(v: nat, n: nat): (bs: seq<byte>)
    ensures |bs| == n
  {
    Reversed(ToLE(v, n))
  }

  /** `to_be` on a little-endian machine: the bytes of an n-byte integer swapped. */
  function Swapped(v: nat, n: nat): nat {
    FromLE(ToBE(v, n))
  }

  lemma {:induction false} FromLEBound(bs: seq<byte>)
    ensures FromLE(bs) < Pow256(|bs|)
  {
    if bs != [] {
      FromLEBound(bs[1..]);
    }
  }

  lemma {:induction false} FromToLE(v: nat, n: nat)
    requires v < Pow256(n)
    ensures FromLE(ToLE(v, n)) == v
  {
    if n > 0 {
      FromToLE(v / 256, n - 1);
      assert ToLE(v, n)[1..] == ToLE(v / 256, n - 1);
    }
  }

  lemma LowDigit(low: byte, v: nat)
    ensures (low + 256 * v) % 256 == low && (low + 256 * v) / 256 == v
  {
  }

  lemma {:induction false} ToFromLE(bs: seq<byte>)
    ensures ToLE(FromLE(bs), |bs|) == bs
  {
    if bs != [] {
      ToFromLE(bs[1..]);
      assert bs == [bs[0]] + bs[1..];
      LowDigit(bs[0], FromLE(bs[1..]));
    }
  }

  lemma {:induction false} ReversedAppend(a: seq<byte>, b: seq<byte>)
    ensures Reversed(a + b) == Reversed(b) + Reversed(a)
  {
    if a == [] {
      assert [] + b == b;
    } else {
      ReversedAppend(a[1..], b);
      assert (a + b)[1..] == a[1..] + b;
    }
  }

  lemma {:induction false} ReversedTwice(bs: seq<byte>)
    ensures Reversed(Reversed(bs)) == bs
  {
    if bs != [] {
      ReversedAppend(Reversed(bs[1..]), [bs[0]]);
      ReversedTwice(bs[1..]);
      assert [bs[0]][1..] == [];
      assert Reversed([bs[0]]) == [bs[0]];
      assert bs == [bs[0]] + bs[1..];
    }
  }

  /** Reading little endian and swapping is reading big endian. */
  lemma SwapReadsBE(bs: seq<byte>)
    ensures Swapped(FromLE(bs), |bs|) == FromLE(Reversed(bs))
  {
    ToFromLE(bs);
  }

  /** An integer written big endian comes back from the little-endian read and the swap. */
  lemma FieldRoundTrip(v: nat, n: nat)
    requires v < Pow256(n)
    ensures Swapped(FromLE(ToBE(v, n)), n) == v
  {
    SwapReadsBE(ToBE(v, n));
    ReversedTwice(ToLE(v, n));
    FromToLE(v, n);
  }

  lemma Pow256Values()
    ensures Pow256(4) == U32_MOD && Pow256(8) == U64_MOD
  {
    assert Pow256(1) == 256 && Pow256(2) == 65536 && Pow256(3) == 16777216;
    assert Pow256(5) == 256 * Pow256(4) && Pow256(6) == 256 * Pow256(5) && Pow256(7) == 256 * Pow256(6);
  }

  // ---------------------------------------------------------------- packets

  datatype Packet = Packet(
    liVnMode: byte,
    stratum: byte,
    poll: byte,
    precision: byte,
    rootDelay: u32,
    rootDispersion: u32,
    refId: u32,
    refTimestamp: u64,
    originTimestamp: u64,
    recvTimestamp: u64,
    txTimestamp: u64)

  type Raw = s: seq<byte> | |s| == 48 witness ToLE(0, 48)

  function Read32(bs: seq<byte>): u32
    requires |bs| == 4
  {
    FromLEBound(bs);
    Pow256Values();
    FromLE(bs)
  }

  function Read64(bs: seq<byte>): u64
    requires |bs| == 8
  {
    FromLEBound(bs);
    Pow256Values();
    FromLE(bs)
  }

  function Swap32(v: u32): u32 {
    Read32(ToBE(v, 4))
  }

  function Swap64(v: u64): u64 {
    Read64(ToBE(v, 8))
  }

  /** `RawNtpPacket::from`: the fields in order, big endian. */
  function Serialised(p: Packet): Raw {
    var head := [p.liVnMode, p.stratum, p.poll, p.precision]
                + ToBE(p.rootDelay, 4) + ToBE(p.rootDispersion, 4) + ToBE(p.refId, 4);
    head + ToBE(p.refTimestamp, 8) + ToBE(p.originTimestamp, 8) + ToBE(p.recvTimestamp, 8) + ToBE(p.txTimestamp, 8)
  }

  /** `NtpPacket::from`: every field little endian. */
  function Loaded(raw: Raw): Packet {
    Packet(raw[0], raw[1], raw[2], raw[3],
           Read32(raw[4..8]), Read32(raw[8..12]), Read32(raw[12..16]),
           Read64(raw[16..24]), Read64(raw[24..32]), Read64(raw[32..40]), Read64(raw[40..48]))
  }

  /** `convert_from_network`. */
  function FromNetwork(p: Packet): Packet {
    p.(rootDelay := Swap32(p.rootDelay), rootDispersion := Swap32(p.rootDispersion), refId := Swap32(p.refId),
       refTimestamp := Swap64(p.refTimestamp), originTimestamp := Swap64(p.originTimestamp),
       recvTimestamp := Swap64(p.recvTimestamp), txTimestamp := Swap64(p.txTimestamp))
  }

  lemma Swap32RoundTrip(v: u32)
    ensures Swap32(Read32(ToBE(v, 4))) == v
  {
    Pow256Values();
    FieldRoundTrip(v, 4);
  }

  lemma Swap64RoundTrip(v: u64)
    ensures Swap64(Read64(ToBE(v, 8))) == v
  {
    Pow256Values();
    FieldRoundTrip(v, 8);
  }

  lemma Slices(p: Packet)
    ensures var raw := Serialised(p);
            && raw[4..8] == ToBE(p.rootDelay, 4) && raw[8..12] == ToBE(p.rootDispersion, 4)
            && raw[12..16] == ToBE(p.refId, 4)
            && raw[16..24] == ToBE(p.refTimestamp, 8) && raw[24..32] == ToBE(p.originTimestamp, 8)
            && raw[32..40] == ToBE(p.recvTimestamp, 8) && raw[40..48] == ToBE(p.txTimestamp, 8)
  {
    hide ToBE;
  }

  /** A packet that is serialised, sent, loaded and converted is the packet it was. */
  lemma PacketRoundTrip(p: Packet)
    ensures FromNetwork(Loaded(Serialised(p))) == p
  {
    hide ToBE, Read32, Read64, Swap32, Swap64;
    Slices(p);
    Swap32RoundTrip(p.rootDelay);
    Swap32RoundTrip(p.rootDispersion);
    Swap32RoundTrip(p.refId);
    Swap64RoundTrip(p.refTimestamp);
    Swap64RoundTrip(p.originTimestamp);
    Swap64RoundTrip(p.recvTimestamp);
    Swap64RoundTrip(p.txTimestamp);
  }

  // ---------------------------------------------------------------- answers

  datatype Error =
    | IncorrectOriginTimestamp
    | IncorrectMode
    | IncorrectLeapIndicator
    | IncorrectResponseVersion
    | IncorrectStratumHeaders

  datatype NtpResult = NtpResult(
    seconds: u32, secondsFraction: u32, roundtrip: nat, offset: int, stratum: byte, precision: byte)

  datatype Request = Request(originateTimestamp: u64, version: byte)

  function Mode(b: byte): byte { b % 8 }

  function Version(b: byte): byte { b / 8 % 8 }

  function Leap(b: byte): byte { b / 64 }

  /** The result for an accepted packet. */
  function ResultFor(p: Packet, recvTimestamp: u64): NtpResult {
    var (sec, fraction) := Normalised(UnixSeconds(p.txTimestamp), p.txTimestamp % U32_MOD);
    NtpResult(
      sec, fraction,
      Roundtrip(p.originTimestamp, p.recvTimestamp, p.txTimestamp, recvTimestamp, Microseconds),
      Offset(p.originTimestamp, p.recvTimestamp, p.txTimestamp, recvTimestamp, Microseconds),
      p.stratum, p.precision)
  }

  /** The request of `NtpPacket::new` as it is remembered: client mode, version 4. */
  function RequestAt(timestamp: u64): Request {
    Request(timestamp, 35)
  }

  /** What the code lets pass as the answer to a request. */
  ghost predicate PassesChecks(request: Request, p: Packet) {
    && p.originTimestamp == request.originateTimestamp
    && (Mode(p.liVnMode) == 4 || Mode(p.liVnMode) == 5)
    && Version(p.liVnMode) == Version(request.version)
    && p.stratum != 0
  }

  /**
   The reply a unicast server sends, field by field as the table in section 5 of RFC 4330 has it: the version is
   the request's, the mode is 4, the stratum at most 15, the originate timestamp is the request's transmit
   timestamp, and the transmit timestamp is not zero. Every leap indicator is possible; the rest is ignored.
   */
  ghost predicate UnicastReply(request: Request, p: Packet) {
    && 0 <= p.liVnMode / 64 <= 3
    && p.liVnMode / 8 % 8 == request.version / 8 % 8
    && p.liVnMode % 8 == 4
    && 0 <= p.stratum <= 15
    && p.originTimestamp == request.originateTimestamp
    && p.txTimestamp != 0
  }

  /** Stratum 0 is a kiss-o'-death message (section 8), which a client must not take the time from. */
  ghost predicate KissOfDeath(p: Packet) {
    p.stratum == 0
  }

  /**
   The code's checks against the RFC. No reply the RFC describes is refused unless it is a kiss-o'-death message,
   and those all are; but a packet that passes is such a reply if and only if, beyond the checks, its mode is
   not broadcast, its stratum is at most 15 and its transmit timestamp is not zero.
   */
  lemma ChecksExactly(request: Request, p: Packet)
    ensures UnicastReply(request, p) ==> (PassesChecks(request, p) <==> !KissOfDeath(p))
    ensures PassesChecks(request, p) ==>
              (UnicastReply(request, p) <==> p.liVnMode % 8 != 5 && p.stratum <= 15 && p.txTimestamp != 0)
  {
  }

  /** Three packets that pass although section 5 rules them out: each breaks one of the conditions left unchecked. */
  lemma ChecksLetThrough(request: Request, p: Packet)
    requires PassesChecks(request, p) && UnicastReply(request, p)
    ensures var broadcast := p.(liVnMode := p.liVnMode + 1);
            PassesChecks(request, broadcast) && !UnicastReply(request, broadcast)
    ensures PassesChecks(request, p.(stratum := 255)) && !UnicastReply(request, p.(stratum := 255))
    ensures PassesChecks(request, p.(txTimestamp := 0)) && !UnicastReply(request, p.(txTimestamp := 0))
  {
    var b: byte := p.liVnMode + 1;
    assert Mode(b) == 5 && Version(b) == Version(p.liVnMode);
  }

  /**
   The fields of the first byte (RFC 4330, section 4): two bits of leap indicator, three of version, three of mode.
   */
  lemma FirstByte(li: nat, vn: nat, mode: nat)
    requires li < 4 && vn < 8 && mode < 8
    ensures var b: byte := 64 * li + 8 * vn + mode;
            Leap(b) == li && Version(b) == vn && Mode(b) == mode
    ensures RequestAt(0).version == 64 * 0 + 8 * 4 + 3
  {
  }

  class NtpPacket {
    var liVnMode: byte
    var stratum: byte
    var poll: byte
    var precision: byte
    var rootDelay: u32
    var rootDispersion: u32
    var refId: u32
    var refTimestamp: u64
    var originTimestamp: u64
    var recvTimestamp: u64
    var txTimestamp: u64

    ghost function Value(): Packet
      reads this
    {
      Packet(liVnMode, stratum, poll, precision, rootDelay, rootDispersion, refId,
             refTimestamp, originTimestamp, recvTimestamp, txTimestamp)
    }

    constructor Load(raw: Raw)
      ensures Value() == Loaded(raw)
    {
      liVnMode, stratum, poll, precision := raw[0], raw[1], raw[2], raw[3];
      rootDelay, rootDispersion, refId := Read32(raw[4..8]), Read32(raw[8..12]), Read32(raw[12..16]);
      refTimestamp, originTimestamp := Read64(raw[16..24]), Read64(raw[24..32]);
      recvTimestamp, txTimestamp := Read64(raw[32..40]), Read64(raw[40..48]);
    }

    method ConvertFromNetwork()
      modifies this
      ensures Value() == FromNetwork(old(Value()))
    {
      hide Swap32, Swap64;
      rootDelay := Swap32(rootDelay);
      rootDispersion := Swap32(rootDispersion);
      refId := Swap32(refId);
      refTimestamp := Swap64(refTimestamp);
      originTimestamp := Swap64(originTimestamp);
      recvTimestamp := Swap64(recvTimestamp);
      txTimestamp := Swap64(txTimestamp);
    }

    /** Fills a zeroed buffer of 48 bytes field by field. */
    method Serialise() returns (raw: array<byte>)
      ensures fresh(raw) && raw[..] == Serialised(Value())
    {
      hide ToBE;
      raw := new byte[48](_ => 0);
      raw[0], raw[1], raw[2], raw[3] := liVnMode, stratum, poll, precision;
      ghost var head := [liVnMode, stratum, poll, precision];
      assert raw[..4] == head;
      CopyInto(raw, 4, ToBE(rootDelay, 4));
      CopyInto(raw, 8, ToBE(rootDispersion, 4));
      CopyInto(raw, 12, ToBE(refId, 4));
      CopyInto(raw, 16, ToBE(refTimestamp, 8));
      CopyInto(raw, 24, ToBE(originTimestamp, 8));
      CopyInto(raw, 32, ToBE(recvTimestamp, 8));
      CopyInto(raw, 40, ToBE(txTimestamp, 8));
      assert raw[..] == raw[..48];
    }
  }

  /** `copy_from_slice` behind a prefix that is already filled. */
  method CopyInto(raw: array<byte>, at: nat, bs: seq<byte>)
    requires at + |bs| <= raw.Length
    modifies raw
    ensures raw[..at + |bs|] == old(raw[..at]) + bs
  {
    forall i | 0 <= i < |bs| {
      raw[at + i] := bs[i];
    }
  }

  /** `process_response`: an answer is accepted exactly if it passes the checks; the checks come in this order. */
  method ProcessResponse(request: Request, raw: Raw, recvTimestamp: u64) returns (r: Result<NtpResult, Error>)
    ensures var p := FromNetwork(Loaded(raw));
            && (r.Ok? <==> PassesChecks(request, p))
            && (r.Ok? ==> r.value == ResultFor(p, recvTimestamp))
            && (p.originTimestamp != request.originateTimestamp ==> r == Err(IncorrectOriginTimestamp))
            && (r == Err(IncorrectMode) <==>
                  p.originTimestamp == request.originateTimestamp && p.liVnMode % 8 !in {4, 5})
            && (r == Err(IncorrectResponseVersion) <==>
                  && p.originTimestamp == request.originateTimestamp && p.liVnMode % 8 in {4, 5}
                  && p.liVnMode / 8 % 8 != request.version / 8 % 8)
            && (r == Err(IncorrectStratumHeaders) <==>
                  && p.originTimestamp == request.originateTimestamp && p.liVnMode % 8 in {4, 5}
                  && p.liVnMode / 8 % 8 == request.version / 8 % 8 && p.stratum == 0)
            && r != Err(IncorrectLeapIndicator)
            && (UnicastReply(request, p) ==> (r.Ok? <==> !KissOfDeath(p)))
            && (r.Ok? ==>
                  (UnicastReply(request, p) <==> p.liVnMode % 8 != 5 && p.stratum <= 15 && p.txTimestamp != 0))
  {
    hide FromNetwork, Loaded, Roundtrip, Offset, UnixSeconds;
    var packet := new NtpPacket.Load(raw);
    packet.ConvertFromNetwork();
    if request.originateTimestamp != packet.originTimestamp {
      return Err(IncorrectOriginTimestamp);
    }
    var mode, li, respVersion := Mode(packet.liVnMode), Leap(packet.liVnMode), Version(packet.liVnMode);
    var reqVersion := Version(request.version);
    if mode != 4 && mode != 5 {
      return Err(IncorrectMode);
    }
    if li > 3 {
      return Err(IncorrectLeapIndicator);
    }
    if reqVersion != respVersion {
      return Err(IncorrectResponseVersion);
    }
    if packet.stratum == 0 {
      return Err(IncorrectStratumHeaders);
    }
    var t1, t2, t3, t4 := packet.originTimestamp, packet.recvTimestamp, packet.txTimestamp, recvTimestamp;
    var roundtrip := Roundtrip(t1, t2, t3, t4, Microseconds);
    var offset := Offset(t1, t2, t3, t4, Microseconds);
    var sec, fraction := UnixSeconds(packet.txTimestamp), packet.txTimestamp % U32_MOD;
    return Ok(NtpResult(
      (sec + fraction / FRAC_MAX) % U32_MOD, fraction % FRAC_MAX, roundtrip, offset, packet.stratum, packet.precision));
  }

  /**
   The whole exchange: a server whose clock is `d` ahead stamps the request after a delay `a` and its answer
   travels for `b`. The answer it serialises is accepted; the reported round trip is a + b and the reported
   offset differs from d by at most half of it, in microseconds and up to their rounding.
   */
  lemma HonestAnswer(t1: u64, p: Packet, t4: u64, d: int, a: nat, b: nat)
    requires Exchange(t1, p.recvTimestamp, p.txTimestamp, t4, d, a, b)
    requires Abs(d + a) < 0x4000_0000_0000_0000 && Abs(d - b) < 0x4000_0000_0000_0000
    requires UnicastReply(RequestAt(t1), p) && !KissOfDeath(p)
    ensures var received := FromNetwork(Loaded(Serialised(p)));
            var result := ResultFor(received, t4);
            && PassesChecks(RequestAt(t1), received)
            && result.stratum == p.stratum && result.precision == p.precision
            && result.roundtrip == Duration(a + b, Microseconds)
            && Abs(2 * (result.offset * U32_MOD - d * 1000000)) <= 1000000 * (a + b + 1) + 2 * U32_MOD
  {
    hide FromNetwork, Loaded, Serialised, Duration, Theta, Delta, Exchange, Offset, UnixSeconds, Normalised;
    PacketRoundTrip(p);
    OffsetBound(t1, p.recvTimestamp, p.txTimestamp, t4, d, a, b);
    ReportedOffsetBound(t1, p.recvTimestamp, p.txTimestamp, t4, d, a, b, Microseconds);
  }

  /**
   And the time it reports is the time the server sent it: the seconds exactly, in every NTP era, and the
   microseconds exactly if they are a multiple of a fifth of a second, else one less.
   */
  lemma HonestTime(p: Packet, t4: u64, sec: u64, m: u32)
    requires m < 1000000 && sec + 2208988800 < U64_MOD && p.txTimestamp == Timestamp(sec, m)
    ensures var result := ResultFor(FromNetwork(Loaded(Serialised(p))), t4);
            && result.seconds == sec % 0x1_0000_0000
            && FractionTo(result.secondsFraction, 1000000) == if m % 200000 == 0 then m else m - 1
  {
    hide FromNetwork, Loaded, Serialised, Roundtrip, Offset, UnixSeconds, Normalised, Timestamp, FractionTo;
    PacketRoundTrip(p);
    TimestampRoundTrip(sec, m);
  }

  /** What the answer says is what came from the wire, field by field. */
  lemma ResultFields(p: Packet, t4: u64)
    ensures var result := ResultFor(p, t4);
            && (p.txTimestamp % U32_MOD != 0xFFFF_FFFF ==> result.secondsFraction == p.txTimestamp % U32_MOD)
            && result.roundtrip == Duration(Delta(p.originTimestamp, p.recvTimestamp, p.txTimestamp, t4), Microseconds)
            && result.stratum == p.stratum && result.precision == p.precision
  {
    hide Duration, Delta, Theta, UnixSeconds;
  }

  /** The bytes of a packet (RFC 4330, section 4): every field in its place, most significant byte first. */
  lemma WireLayout(p: Packet)
    ensures var raw := Serialised(p);
            && raw[0] == p.liVnMode && raw[1] == p.stratum && raw[2] == p.poll && raw[3] == p.precision
            && BigEndianValue(raw[4..8]) == p.rootDelay && BigEndianValue(raw[8..12]) == p.rootDispersion
            && BigEndianValue(raw[12..16]) == p.refId && BigEndianValue(raw[16..24]) == p.refTimestamp
            && BigEndianValue(raw[24..32]) == p.originTimestamp && BigEndianValue(raw[32..40]) == p.recvTimestamp
            && BigEndianValue(raw[40..48]) == p.txTimestamp
  {
    hide ToBE, BigEndianValue;
    Slices(p);
    Pow256Values();
    BigEndianOf(p.rootDelay, 4);
    BigEndianOf(p.rootDispersion, 4);
    BigEndianOf(p.refId, 4);
    BigEndianOf(p.refTimestamp, 8);
    BigEndianOf(p.originTimestamp, 8);
    BigEndianOf(p.recvTimestamp, 8);
    BigEndianOf(p.txTimestamp, 8);
  }

  function BigEndianValue(bs: seq<byte>): nat {
    if bs == [] then 0 else 256 * BigEndianValue(bs[..|bs| - 1]) + bs[|bs| - 1]
  }

  lemma BigEndianOf(v: nat, n: nat)
    requires v < Pow256(n)
    ensures BigEndianValue(ToBE(v, n)) == v
  {
    BigEndianReversed(ToLE(v, n));
    FromToLE(v, n);
  }

  lemma {:induction false} BigEndianReversed(bs: seq<byte>)
    ensures BigEndianValue(Reversed(bs)) == FromLE(bs)
  {
    if bs != [] {
      BigEndianReversed(bs[1..]);
      var r := Reversed(bs);
      assert r[..|r| - 1] == Reversed(bs[1..]) && r[|r| - 1] == bs[0];
    }
  }
}
