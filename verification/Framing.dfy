/**
 Cutting the byte stream of a connection into packets (rust-mqtt/src/client/raw_client.rs, `receive_packet`,
 and rust-mqtt/src/network/mod.rs).

 A connection is a script of what its reads will meet: segments of bytes, in the sizes in which they happen to
 arrive, and faults. A read takes what fits from the first segment; an empty segment is a read of zero bytes, which
 is all that a closed connection delivers. Behind the end of a script reads fail; statements about a stream that
 stops early say what follows it.
 */
module Framing {
  import opened Base
  import opened VarInt
  import opened BuffWriters
  import opened Packets

  datatype ReasonCode =
    | NetworkError
    | BuffError
    | ProtocolError
    | ImplementationSpecificError
    | PacketIdentifierNotFound
    | FromByte(code: byte)

  datatype ReadEvent = Segment(bytes: seq<byte>) | Fault

  function Weight(script: seq<ReadEvent>): nat {
    if script == [] then 0
    else (if script[0].Fault? then 1 else 1 + |script[0].bytes|) + Weight(script[1..])
  }

  /** One read into `cap` bytes, and what remains to be read. */
  function Deliver(script: seq<ReadEvent>, cap: nat): (r: (Result<seq<byte>, ReasonCode>, seq<ReadEvent>))
    requires cap >= 1
    ensures r.0.Ok? ==> |r.0.value| <= cap && Weight(r.1) < Weight(script)
    ensures !r.0.Panic?
  {
    if script == [] then (Err(NetworkError), script)
    else match script[0]
      case Fault => (Err(NetworkError), script[1..])
      case Segment(bs) =>
        if |bs| <= cap then (Ok(bs), script[1..])
        else
          assert ([Segment(bs[cap..])] + script[1..])[1..] == script[1..];
          (Ok(bs[..cap]), [Segment(bs[cap..])] + script[1..])
  }

  // ---------------------------------------------------------------- what receive_packet does

  /**
   The first loop: one byte at a time until a length field is complete. `got` has been written so far;
   slicing `recv_buffer` out of range panics.
   */
  function HeaderLoop(script: seq<ReadEvent>, got: seq<byte>, bufLen: nat, recvLen: nat)
    : (r: (Result<(Vbi4, seq<byte>), ReasonCode>, seq<ReadEvent>))
    ensures r.0.Ok? ==> |r.0.value.1| <= bufLen
    decreases Weight(script)
  {
    if |got| + 1 > recvLen then (Panic, script)
    else
      var (read, rest) := Deliver(script, 1);
      if !read.Ok? then (Err(read.error), rest)
      else if read.value == [] then (Err(NetworkError), rest)
      else if |got| + 1 > bufLen then (Err(BuffError), rest)
      else
        var now := got + read.value;
        if |now| > 1 && RemLen(now).Ok? then (Ok((RemLen(now).value, now)), rest)
        else if |now| > 1 && |now| >= 5 then (Err(NetworkError), rest)
        else HeaderLoop(rest, now, bufLen, recvLen)
  }

  /**
   The second loop: `target` bytes of body, of which `i` are there. The copy out of `recv_buffer` is sliced
   from the current position to that position plus all body bytes so far, although only the last `len` of
   them are new.
   */
  function BodyLoop(script: seq<ReadEvent>, got: seq<byte>, i: nat, target: nat, bufLen: nat, recvLen: nat)
    : (r: (Result<seq<byte>, ReasonCode>, seq<ReadEvent>))
    requires i <= target
    ensures r.0.Ok? && |got| <= bufLen ==> |r.0.value| <= bufLen
    decreases Weight(script)
  {
    if i == target then (Ok(got), script)
    else if |got| + (target - i) > recvLen then (Panic, script)
    else
      var (read, rest) := Deliver(script, target - i);
      if !read.Ok? then (Err(read.error), rest)
      else
        var j := i + |read.value|;
        if |got| + j > recvLen then (Panic, rest)
        else if |got| + |read.value| > bufLen then (Err(BuffError), rest)
        else BodyLoop(rest, got + read.value, j, target, bufLen, recvLen)
  }

  function Receive(script: seq<ReadEvent>, bufLen: nat, recvLen: nat)
    : (r: (Result<seq<byte>, ReasonCode>, seq<ReadEvent>))
    ensures r.0.Ok? ==> |r.0.value| <= bufLen
  {
    var (header, rest) := HeaderLoop(script, [], bufLen, recvLen);
    match header
    case Err(e) => (Err(e), rest)
    case Panic => (Panic, rest)
    case Ok(h) =>
      match Scan(h.0, 0, 0)
      case Ok(k) => BodyLoop(rest, h.1, 0, VbiValue(h.0[..k]), bufLen, recvLen)
      case Err(_) => (Err(BuffError), rest)
      case Panic => (Panic, rest)
  }

  // ---------------------------------------------------------------- the stream behind a script

  /** Only segments, none of them empty: the peer is alive and every read brings something. */
  predicate Clean(script: seq<ReadEvent>) {
    script == [] || (script[0].Segment? && script[0].bytes != [] && Clean(script[1..]))
  }

  function Stream(script: seq<ReadEvent>): seq<byte> {
    if script == [] then []
    else (if script[0].Segment? then script[0].bytes else []) + Stream(script[1..])
  }

  lemma DeliverClean(script: seq<ReadEvent>, cap: nat)
    requires Clean(script) && Stream(script) != [] && cap >= 1
    ensures var (read, rest) := Deliver(script, cap);
            && read.Ok? && 1 <= |read.value| && Clean(rest)
            && Stream(script) == read.value + Stream(rest)
  {
    hide Weight, Clean, Stream;
    CleanStep(script);
    var bs, more := script[0].bytes, script[1..];
    if |bs| > cap {
      var rest := [Segment(bs[cap..])] + more;
      assert rest[1..] == more;
      CleanStep(rest);
      assert bs[..cap] + (bs[cap..] + Stream(more)) == bs + Stream(more);
    }
  }

  lemma CleanStep(script: seq<ReadEvent>)
    ensures script == [] ==> Stream(script) == []
    ensures script != [] ==>
              && (Clean(script) <==> script[0].Segment? && script[0].bytes != [] && Clean(script[1..]))
              && (script[0].Segment? ==> Stream(script) == script[0].bytes + Stream(script[1..]))
  {
    hide Weight;
  }

  // ---------------------------------------------------------------- framing is exact

  /** The receive buffer that every split of a packet into reads needs: the body counts twice. */
  function ReceiveNeed(headerLen: nat, bodyLen: nat): nat {
    if bodyLen == 0 then headerLen else headerLen + 2 * bodyLen - 1
  }

  function NeedOf(frame: seq<byte>): nat
    requires FrameLen(frame).Ok?
  {
    var (n, q) := VbiAt(frame, 1).value;
    ReceiveNeed(q, n)
  }

  lemma {:induction false} HeaderLoopFrames(
    script: seq<ReadEvent>, got: seq<byte>, full: seq<byte>, bufLen: nat, recvLen: nat
  )
    requires Clean(script) && full == got + Stream(script)
    requires Scan(full, 1, 0).Ok? && |got| < 1 + Scan(full, 1, 0).value
    requires 1 + Scan(full, 1, 0).value <= bufLen && 1 + Scan(full, 1, 0).value <= recvLen
    ensures var k := Scan(full, 1, 0).value;
            var (header, rest) := HeaderLoop(script, got, bufLen, recvLen);
            && header == Ok((Pad4(full[1..1 + k]), full[..1 + k]))
            && Clean(rest) && full == full[..1 + k] + Stream(rest)
    decreases Weight(script)
  {
    var k := Scan(full, 1, 0).value;
    DeliverClean(script, 1);
    var (read, rest) := Deliver(script, 1);
    var now := got + read.value;
    assert full == now + Stream(rest);
    assert full[..|now|] == now;
    if |now| > 1 {
      ScanOnPrefix(full, |now|, 1, 0);
      assert now[1..] == full[1..|now|];
    }
    if |now| < 1 + k {
      HeaderLoopFrames(rest, now, full, bufLen, recvLen);
    } else {
      assert now[1..1 + k] == full[1..1 + k];
    }
  }

  lemma {:induction false} BodyLoopFrames(
    script: seq<ReadEvent>, got: seq<byte>, full: seq<byte>, i: nat, target: nat, bufLen: nat, recvLen: nat
  )
    requires Clean(script) && full == got + Stream(script)
    requires i <= target && |got| + (target - i) <= |full| && |got| + (target - i) <= bufLen
    requires i <= |got| && ReceiveNeed(|got| - i, target) <= recvLen
    ensures var n := |got| + (target - i);
            var (packet, rest) := BodyLoop(script, got, i, target, bufLen, recvLen);
            packet == Ok(full[..n]) && Clean(rest) && full == full[..n] + Stream(rest)
    decreases Weight(script)
  {
    hide Clean, Stream, Deliver;
    if i == target {
      assert full[..|got|] == got;
    } else {
      DeliverClean(script, target - i);
      var (read, rest) := Deliver(script, target - i);
      assert got + (read.value + Stream(rest)) == got + read.value + Stream(rest);
      BodyLoopFrames(rest, got + read.value, full, i + |read.value|, target, bufLen, recvLen);
    }
  }

  lemma HeaderOf(full: seq<byte>, n: nat)
    requires FrameLen(full) == Ok(n)
    ensures VbiAt(full, 1).Ok?
    ensures var q := VbiAt(full, 1).value.1;
            && 2 <= q <= |full| && q <= n
            && Scan(full, 1, 0) == Ok(q - 1)
            && VbiValue(full[1..q]) == n - q
            && NeedOf(full) == ReceiveNeed(q, n - q) >= q
  {
  }

  lemma AfterHeader(script: seq<ReadEvent>, n: nat, bufLen: nat, recvLen: nat)
    requires Clean(script) && FrameLen(Stream(script)) == Ok(n)
    requires VbiAt(Stream(script), 1).value.1 <= bufLen && VbiAt(Stream(script), 1).value.1 <= recvLen
    ensures var full := Stream(script);
            var q := VbiAt(full, 1).value.1;
            var rest := HeaderLoop(script, [], bufLen, recvLen).1;
            && Receive(script, bufLen, recvLen) == BodyLoop(rest, full[..q], 0, n - q, bufLen, recvLen)
            && Clean(rest) && full == full[..q] + Stream(rest)
  {
    hide Clean, Stream, Scan, HeaderLoop, BodyLoop;
    var full := Stream(script);
    HeaderOf(full, n);
    assert full == [] + Stream(script);
    HeaderLoopFrames(script, [], full, bufLen, recvLen);
    PaddedScan(full, 1);
  }

  /**
   Framing: however the stream is split into reads, `receive_packet` returns exactly the first packet and
   leaves exactly the rest of the stream unread.
   */
  lemma ReceivesFirstPacket(script: seq<ReadEvent>, n: nat, bufLen: nat, recvLen: nat)
    requires Clean(script) && FrameLen(Stream(script)) == Ok(n) && n <= |Stream(script)|
    requires n <= bufLen && NeedOf(Stream(script)) <= recvLen
    ensures var (packet, rest) := Receive(script, bufLen, recvLen);
            packet == Ok(Stream(script)[..n]) && Clean(rest) && Stream(rest) == Stream(script)[n..]
  {
    hide Clean, Stream, Scan, VbiAt, HeaderLoop, BodyLoop, Receive;
    var full := Stream(script);
    HeaderOf(full, n);
    AfterHeader(script, n, bufLen, recvLen);
    var q := VbiAt(full, 1).value.1;
    var rest := HeaderLoop(script, [], bufLen, recvLen).1;
    BodyLoopFrames(rest, full[..q], full, 0, n - q, bufLen, recvLen);
  }

  /** The frame of a packet does not depend on what follows it. */
  lemma FrameLenPrefix(frame: seq<byte>, rest: seq<byte>)
    requires FrameLen(frame).Ok?
    ensures FrameLen(frame + rest) == FrameLen(frame) && NeedOf(frame + rest) == NeedOf(frame)
  {
    var s := frame + rest;
    assert s[..|frame|] == frame;
    ScanOnPrefix(s, |frame|, 1, 0);
    var k := Scan(frame, 1, 0).value;
    assert s[1..1 + k] == frame[1..1 + k];
  }

  ghost predicate Receivable(frames: seq<seq<byte>>, bufLen: nat, recvLen: nat) {
    frames == [] || (
      && FrameLen(frames[0]) == Ok(|frames[0]|) && |frames[0]| <= bufLen && NeedOf(frames[0]) <= recvLen
      && Receivable(frames[1..], bufLen, recvLen))
  }

  function Concat(frames: seq<seq<byte>>): seq<byte> {
    if frames == [] then [] else frames[0] + Concat(frames[1..])
  }

  /** `count` calls of `receive_packet` in a row. */
  function ReceiveMany(
    script: seq<ReadEvent>, count: nat, bufLen: nat, recvLen: nat
  ): (seq<Result<seq<byte>, ReasonCode>>, seq<ReadEvent>)
    decreases count
  {
    if count == 0 then ([], script)
    else
      var (packet, rest) := Receive(script, bufLen, recvLen);
      var (packets, end) := ReceiveMany(rest, count - 1, bufLen, recvLen);
      ([packet] + packets, end)
  }

  function Oks(frames: seq<seq<byte>>): seq<Result<seq<byte>, ReasonCode>> {
    if frames == [] then [] else [Ok(frames[0])] + Oks(frames[1..])
  }

  /** For every list of packets and every split of their concatenation: the calls return those packets, in order. */
  lemma {:induction false} ReceivesAllPackets(
    script: seq<ReadEvent>, frames: seq<seq<byte>>, tail: seq<byte>, bufLen: nat, recvLen: nat
  )
    requires Clean(script) && Receivable(frames, bufLen, recvLen) && Stream(script) == Concat(frames) + tail
    ensures var (packets, rest) := ReceiveMany(script, |frames|, bufLen, recvLen);
            packets == Oks(frames) && Clean(rest) && Stream(rest) == tail
    decreases |frames|
  {
    if frames == [] {
      assert [] + tail == tail;
    } else {
      var f := frames[0];
      var others := Concat(frames[1..]) + tail;
      assert Stream(script) == f + others;
      FrameLenPrefix(f, others);
      ReceivesFirstPacket(script, |f|, bufLen, recvLen);
      assert Stream(script)[..|f|] == f && Stream(script)[|f|..] == others;
      ReceivesAllPackets(Receive(script, bufLen, recvLen).1, frames[1..], tail, bufLen, recvLen);
    }
  }

  // ---------------------------------------------------------------- how large the receive buffer must be

  /** The header loop takes its bytes out of the first segment if they are all there. */
  lemma {:induction false} HeaderFromOneSegment(
    a: seq<byte>, more: seq<ReadEvent>, got: seq<byte>, full: seq<byte>, bufLen: nat, recvLen: nat
  )
    requires Scan(full, 1, 0).Ok? && |got| < 1 + Scan(full, 1, 0).value < |got| + |a|
    requires full == got + a + Stream(more)
    requires 1 + Scan(full, 1, 0).value <= bufLen
    ensures var k := Scan(full, 1, 0).value;
            if recvLen < 1 + k then HeaderLoop([Segment(a)] + more, got, bufLen, recvLen).0 == Panic
            else HeaderLoop([Segment(a)] + more, got, bufLen, recvLen)
                 == (Ok((Pad4(full[1..1 + k]), full[..1 + k])), [Segment(a[1 + k - |got|..])] + more)
    decreases |a|
  {
    hide Stream, Pad4, Clean;
    var k := Scan(full, 1, 0).value;
    var script := [Segment(a)] + more;
    assert script[1..] == more;
    var now := got + a[..1];
    assert full == now + a[1..] + Stream(more) && full[..|now|] == now;
    assert Deliver(script, 1) == (Ok(a[..1]), [Segment(a[1..])] + more);
    if |now| > 1 {
      ScanOnPrefix(full, |now|, 1, 0);
    }
    if |now| < 1 + k {
      HeaderFromOneSegment(a[1..], more, now, full, bufLen, recvLen);
      assert a[1..][1 + k - |now|..] == a[1 + k - |got|..];
    } else {
      assert now[1..1 + k] == full[1..1 + k];
    }
  }

  /**
   A split that makes the sliced-twice body run out of a buffer smaller than `ReceiveNeed`: all but the last byte,
   then it.
   */
  function WorstSplit(frame: seq<byte>): seq<ReadEvent>
    requires FrameLen(frame) == Ok(|frame|)
  {
    var (n, q) := VbiAt(frame, 1).value;
    if n <= 1 then [Segment(frame)] else [Segment(frame[..|frame| - 1]), Segment(frame[|frame| - 1..])]
  }

  lemma WorstSplitIsClean(frame: seq<byte>)
    requires FrameLen(frame) == Ok(|frame|)
    ensures Clean(WorstSplit(frame)) && Stream(WorstSplit(frame)) == frame
  {
    var w := WorstSplit(frame);
    if |w| == 1 {
      assert w[1..] == [] && frame + [] == frame;
    } else {
      assert w[1..] == [Segment(frame[|frame| - 1..])] && w[1..][1..] == [];
      assert Stream(w[1..]) == frame[|frame| - 1..] + [];
      assert frame[..|frame| - 1] + frame[|frame| - 1..] == frame;
    }
  }

  lemma OneSegment(bs: seq<byte>)
    ensures Stream([Segment(bs)]) == bs
  {
  }

  lemma WorstSplitFails(frame: seq<byte>, bufLen: nat, recvLen: nat)
    requires FrameLen(frame) == Ok(|frame|) && |frame| <= bufLen && recvLen < NeedOf(frame)
    ensures Receive(WorstSplit(frame), bufLen, recvLen).0 == Panic
  {
    hide Scan, Stream, Clean, Deliver, HeaderLoop;
    var (target, hdr) := VbiAt(frame, 1).value;
    var w := WorstSplit(frame);
    PaddedScan(frame, 1);
    WorstSplitIsClean(frame);
    if target == 0 {
      HeaderTooLong(w, [], frame, bufLen, recvLen);
    } else if recvLen < hdr {
      HeaderTooLong(w, [], frame, bufLen, recvLen);
    } else if target == 1 {
      assert frame == [] + Stream(w);
      HeaderLoopFrames(w, [], frame, bufLen, recvLen);
    } else {
      var a, last := frame[..|frame| - 1], [Segment(frame[|frame| - 1..])];
      assert w == [Segment(a)] + last;
      OneSegment(frame[|frame| - 1..]);
      assert frame == [] + a + Stream(last);
      HeaderFromOneSegment(a, last, [], frame, bufLen, recvLen);
      BodyOfTwo(frame, hdr, target, bufLen, recvLen);
    }
  }

  lemma BodyOfTwo(frame: seq<byte>, hdr: nat, target: nat, bufLen: nat, recvLen: nat)
    requires target >= 2 && |frame| == hdr + target <= bufLen && recvLen < hdr + 2 * target - 1
    ensures BodyLoop([Segment(frame[..|frame| - 1][hdr..])] + [Segment(frame[|frame| - 1..])], frame[..hdr], 0,
        target, bufLen, recvLen).0 == Panic
  {
  }

  lemma {:induction false} HeaderTooLong(
    script: seq<ReadEvent>, got: seq<byte>, full: seq<byte>, bufLen: nat, recvLen: nat
  )
    requires Clean(script) && full == got + Stream(script)
    requires Scan(full, 1, 0).Ok? && |got| <= recvLen < 1 + Scan(full, 1, 0).value <= bufLen
    ensures HeaderLoop(script, got, bufLen, recvLen).0 == Panic
    decreases Weight(script)
  {
    if |got| + 1 <= recvLen {
      DeliverClean(script, 1);
      var (read, rest) := Deliver(script, 1);
      var now := got + read.value;
      assert full == now + Stream(rest) && full[..|now|] == now;
      if |now| > 1 {
        ScanOnPrefix(full, |now|, 1, 0);
      }
      HeaderTooLong(rest, now, full, bufLen, recvLen);
    }
  }

  /**
   Exactly how large the receive buffer has to be: a packet is received under every split into reads if and
   only if `recv_buffer` holds the header and, but for one byte, twice the body.
   */
  lemma EverySplitExactly(frame: seq<byte>, bufLen: nat, recvLen: nat)
    requires FrameLen(frame) == Ok(|frame|) && |frame| <= bufLen
    ensures (forall script ::
              Clean(script) && Stream(script) == frame ==> Receive(script, bufLen, recvLen).0 == Ok(frame))
            <==> NeedOf(frame) <= recvLen
  {
    if NeedOf(frame) <= recvLen {
      forall script | Clean(script) && Stream(script) == frame ensures Receive(script, bufLen, recvLen).0 == Ok(frame) {
        ReceivesFirstPacket(script, |frame|, bufLen, recvLen);
        assert frame[..|frame|] == frame;
      }
    } else {
      WorstSplitIsClean(frame);
      WorstSplitFails(frame, bufLen, recvLen);
    }
  }

  // ---------------------------------------------------------------- what follows a live stretch of the stream

  lemma DeliverAppend(script: seq<ReadEvent>, tail: seq<ReadEvent>, cap: nat)
    requires script != [] && cap >= 1
    ensures Deliver(script + tail, cap) == (Deliver(script, cap).0, Deliver(script, cap).1 + tail)
  {
    hide Weight;
    assert (script + tail)[1..] == script[1..] + tail;
    if script[0].Segment? && |script[0].bytes| > cap {
      var cut := [Segment(script[0].bytes[cap..])];
      assert cut + (script[1..] + tail) == cut + script[1..] + tail;
    }
  }

  lemma StreamEnds(script: seq<ReadEvent>)
    requires Clean(script)
    ensures Stream(script) == [] <==> script == []
  {
  }

  /** A loop that runs out of the stretch goes on with whatever follows; one that ends in it leaves that alone. */
  lemma {:induction false} HeaderExtends(
    script: seq<ReadEvent>, tail: seq<ReadEvent>, got: seq<byte>, bufLen: nat, recvLen: nat
  )
    requires Clean(script)
    ensures var (header, rest) := HeaderLoop(script, got, bufLen, recvLen);
            HeaderLoop(script + tail, got, bufLen, recvLen) ==
              if header == Err(NetworkError) then HeaderLoop(tail, got + Stream(script), bufLen, recvLen)
              else (header, rest + tail)
    decreases Weight(script)
  {
    hide Clean, Stream, Deliver, RemLen;
    StreamEnds(script);
    if script == [] {
      assert [] + tail == tail && got + [] == got;
      assert Deliver([], 1).0 == Err(NetworkError) by { NothingArrives([], 1); }
    } else if |got| + 1 <= recvLen {
      DeliverClean(script, 1);
      DeliverAppend(script, tail, 1);
      var (read, rest) := Deliver(script, 1);
      var now := got + read.value;
      assert got + (read.value + Stream(rest)) == now + Stream(rest);
      if |now| >= 5 {
        FifthByteEndsHeader(now);
      }
      HeaderExtends(rest, tail, now, bufLen, recvLen);
    }
  }

  lemma {:induction false} BodyExtends(
    script: seq<ReadEvent>, tail: seq<ReadEvent>, got: seq<byte>, i: nat, target: nat, bufLen: nat, recvLen: nat
  )
    requires Clean(script) && i <= target
    ensures var (packet, rest) := BodyLoop(script, got, i, target, bufLen, recvLen);
            if packet == Err(NetworkError) then
              && i + |Stream(script)| <= target
              && BodyLoop(script + tail, got, i, target, bufLen, recvLen)
                 == BodyLoop(tail, got + Stream(script), i + |Stream(script)|, target, bufLen, recvLen)
            else BodyLoop(script + tail, got, i, target, bufLen, recvLen) == (packet, rest + tail)
    decreases Weight(script)
  {
    hide Clean, Stream, Deliver, BodyLoop;
    BodyStep(script, got, i, target, bufLen, recvLen);
    BodyStep(script + tail, got, i, target, bufLen, recvLen);
    StreamEnds(script);
    if script == [] {
      assert [] + tail == tail && got + [] == got;
      if i < target {
        NothingArrives([], target - i);
      }
    } else if i < target && |got| + (target - i) <= recvLen {
      DeliverClean(script, target - i);
      DeliverAppend(script, tail, target - i);
      var (read, rest) := Deliver(script, target - i);
      assert got + (read.value + Stream(rest)) == got + read.value + Stream(rest);
      BodyExtends(rest, tail, got + read.value, i + |read.value|, target, bufLen, recvLen);
    }
  }

  /** One turn of the body loop. */
  lemma BodyStep(script: seq<ReadEvent>, got: seq<byte>, i: nat, target: nat, bufLen: nat, recvLen: nat)
    requires i <= target
    ensures BodyLoop(script, got, i, target, bufLen, recvLen) ==
      if i == target then (Ok(got), script)
      else if |got| + (target - i) > recvLen then (Panic, script)
      else
        var (read, rest) := Deliver(script, target - i);
        if !read.Ok? then (Err(read.error), rest)
        else if |got| + (i + |read.value|) > recvLen then (Panic, rest)
        else if |got| + |read.value| > bufLen then (Err(BuffError), rest)
        else BodyLoop(rest, got + read.value, i + |read.value|, target, bufLen, recvLen)
  {
    hide Deliver;
  }

  lemma NothingArrives(script: seq<ReadEvent>, cap: nat)
    requires Clean(script) && Stream(script) == [] && cap >= 1
    ensures Deliver(script, cap).0 == Err(NetworkError)
  {
  }

  // ---------------------------------------------------------------- every outcome

  /** What becomes of a packet of `n` bytes of which `stream` has arrived: without the rest, the reads must decide. */
  function Outcome(stream: seq<byte>, n: nat, bufLen: nat): Result<seq<byte>, ReasonCode> {
    if bufLen < Min(n, |stream|) then Err(BuffError)
    else if |stream| < n then Err(NetworkError)
    else Ok(stream[..n])
  }

  lemma {:induction false} BodyOutcome(
    script: seq<ReadEvent>, got: seq<byte>, full: seq<byte>, i: nat, target: nat, bufLen: nat, recvLen: nat
  )
    requires Clean(script) && full == got + Stream(script)
    requires i <= target && i <= |got| <= bufLen && ReceiveNeed(|got| - i, target) <= recvLen
    ensures BodyLoop(script, got, i, target, bufLen, recvLen).0 == Outcome(full, |got| + (target - i), bufLen)
    decreases Weight(script)
  {
    hide Clean, Stream, Deliver;
    if i == target {
      assert full[..|got|] == got;
    } else if Stream(script) == [] {
      NothingArrives(script, target - i);
    } else {
      DeliverClean(script, target - i);
      var (read, rest) := Deliver(script, target - i);
      assert got + (read.value + Stream(rest)) == got + read.value + Stream(rest);
      if |got| + |read.value| <= bufLen {
        BodyOutcome(rest, got + read.value, full, i + |read.value|, target, bufLen, recvLen);
      }
    }
  }

  /** How many bytes the header loop takes, once its length field is complete or known to be malformed. */
  function HeaderEnd(full: seq<byte>): nat
    requires !Scan(full, 1, 0).Err?
  {
    if Scan(full, 1, 0).Ok? then 1 + Scan(full, 1, 0).value else 5
  }

  lemma {:induction false} HeaderNoRoom(
    script: seq<ReadEvent>, got: seq<byte>, full: seq<byte>, bufLen: nat, recvLen: nat
  )
    requires Clean(script) && full == got + Stream(script)
    requires !Scan(full, 1, 0).Err? && |got| <= bufLen < HeaderEnd(full) <= recvLen
    ensures HeaderLoop(script, got, bufLen, recvLen).0 == Err(BuffError)
    decreases Weight(script)
  {
    hide Clean, Stream, Deliver;
    if Scan(full, 1, 0).Panic? {
      ScanPanics(full, 1, 0);
    }
    DeliverClean(script, 1);
    var (read, rest) := Deliver(script, 1);
    var now := got + read.value;
    assert full == now + Stream(rest) && full[..|now|] == now;
    if |now| <= bufLen {
      if |now| > 1 {
        ScanOnPrefix(full, |now|, 1, 0);
      }
      HeaderNoRoom(rest, now, full, bufLen, recvLen);
    }
  }

  /** A length field that has not arrived completely leaves the loop waiting, unless the buffer is full. */
  lemma {:induction false} HeaderStarves(
    script: seq<ReadEvent>, got: seq<byte>, full: seq<byte>, bufLen: nat, recvLen: nat
  )
    requires Clean(script) && full == got + Stream(script)
    requires Scan(full, 1, 0).Err? && |got| <= bufLen && |full| < recvLen
    ensures HeaderLoop(script, got, bufLen, recvLen).0 == Err(if |full| <= bufLen then NetworkError else BuffError)
    decreases Weight(script)
  {
    hide Clean, Stream, Deliver;
    if Stream(script) == [] {
      NothingArrives(script, 1);
    } else {
      DeliverClean(script, 1);
      var (read, rest) := Deliver(script, 1);
      var now := got + read.value;
      assert full == now + Stream(rest) && full[..|now|] == now;
      if |now| <= bufLen {
        if |now| > 1 {
          ScanOnPrefix(full, |now|, 1, 0);
        }
        HeaderStarves(rest, now, full, bufLen, recvLen);
      }
    }
  }

  lemma HeaderFails(script: seq<ReadEvent>, bufLen: nat, recvLen: nat)
    requires Clean(script) && !Scan(Stream(script), 1, 0).Err? && bufLen < HeaderEnd(Stream(script)) <= recvLen
    ensures Receive(script, bufLen, recvLen).0 == Err(BuffError)
  {
    hide Clean, Stream, Scan, HeaderLoop, BodyLoop;
    assert Stream(script) == [] + Stream(script);
    HeaderNoRoom(script, [], Stream(script), bufLen, recvLen);
  }

  lemma LiveOutcome(script: seq<ReadEvent>, n: nat, bufLen: nat, recvLen: nat)
    requires Clean(script) && FrameLen(Stream(script)) == Ok(n) && NeedOf(Stream(script)) <= recvLen
    ensures Receive(script, bufLen, recvLen).0 == Outcome(Stream(script), n, bufLen)
  {
    hide Clean, Stream, Scan, VbiAt, HeaderLoop, BodyLoop, Receive;
    var full := Stream(script);
    HeaderOf(full, n);
    var q := VbiAt(full, 1).value.1;
    if bufLen < q {
      HeaderFails(script, bufLen, recvLen);
    } else {
      AfterHeader(script, n, bufLen, recvLen);
      var rest := HeaderLoop(script, [], bufLen, recvLen).1;
      BodyOutcome(rest, full[..q], full, 0, n - q, bufLen, recvLen);
    }
  }

  /** A call that ends within the live stretch does so whatever follows it. */
  lemma ReceiveExtends(script: seq<ReadEvent>, tail: seq<ReadEvent>, bufLen: nat, recvLen: nat)
    requires Clean(script) && Receive(script, bufLen, recvLen).0 != Err(NetworkError)
    ensures Receive(script + tail, bufLen, recvLen)
            == (Receive(script, bufLen, recvLen).0, Receive(script, bufLen, recvLen).1 + tail)
  {
    hide Stream, HeaderLoop, BodyLoop, Scan;
    HeaderExtends(script, tail, [], bufLen, recvLen);
    var (header, rest) := HeaderLoop(script, [], bufLen, recvLen);
    if header.Ok? && Scan(header.value.0, 0, 0).Ok? {
      var target := VbiValue(header.value.0[..Scan(header.value.0, 0, 0).value]);
      HeaderKeepsClean(script, [], bufLen, recvLen);
      BodyExtends(rest, tail, header.value.1, 0, target, bufLen, recvLen);
    }
  }

  lemma {:induction false} HeaderKeepsClean(script: seq<ReadEvent>, got: seq<byte>, bufLen: nat, recvLen: nat)
    requires Clean(script)
    ensures HeaderLoop(script, got, bufLen, recvLen).0.Ok? ==> Clean(HeaderLoop(script, got, bufLen, recvLen).1)
    decreases Weight(script)
  {
    hide Clean, Stream, Deliver, RemLen;
    if Stream(script) == [] {
      NothingArrives(script, 1);
    } else {
      DeliverClean(script, 1);
      var (read, rest) := Deliver(script, 1);
      HeaderKeepsClean(rest, got + read.value, bufLen, recvLen);
    }
  }

  /**
   A call that has read the whole live stretch as the beginning of a packet waits for exactly the bytes still owed.
   */
  lemma WaitsForBody(script: seq<ReadEvent>, tail: seq<ReadEvent>, n: nat, bufLen: nat, recvLen: nat)
    requires Clean(script) && FrameLen(Stream(script)) == Ok(n) && NeedOf(Stream(script)) <= recvLen
    requires |Stream(script)| < n && |Stream(script)| <= bufLen
    ensures var q := VbiAt(Stream(script), 1).value.1;
            && q <= |Stream(script)|
            && Receive(script + tail, bufLen, recvLen)
               == BodyLoop(tail, Stream(script), |Stream(script)| - q, n - q, bufLen, recvLen)
  {
    hide Clean, Stream, Scan, VbiAt, HeaderLoop, BodyLoop, Receive;
    var full := Stream(script);
    HeaderOf(full, n);
    var q := VbiAt(full, 1).value.1;
    AfterHeader(script, n, bufLen, recvLen);
    var rest := HeaderLoop(script, [], bufLen, recvLen).1;
    BodyOutcome(rest, full[..q], full, 0, n - q, bufLen, recvLen);
    BodyExtends(rest, tail, full[..q], 0, n - q, bufLen, recvLen);
    AfterHeaderThen(script, tail, n, bufLen, recvLen);
  }

  lemma AfterHeaderThen(script: seq<ReadEvent>, tail: seq<ReadEvent>, n: nat, bufLen: nat, recvLen: nat)
    requires Clean(script) && FrameLen(Stream(script)) == Ok(n)
    requires VbiAt(Stream(script), 1).value.1 <= bufLen && VbiAt(Stream(script), 1).value.1 <= recvLen
    ensures var full := Stream(script);
            var q := VbiAt(full, 1).value.1;
            var rest := HeaderLoop(script, [], bufLen, recvLen).1;
            Receive(script + tail, bufLen, recvLen) == BodyLoop(rest + tail, full[..q], 0, n - q, bufLen, recvLen)
  {
    hide Clean, Stream, Scan, HeaderLoop, BodyLoop;
    var full := Stream(script);
    HeaderOf(full, n);
    assert full == [] + Stream(script);
    HeaderLoopFrames(script, [], full, bufLen, recvLen);
    HeaderExtends(script, tail, [], bufLen, recvLen);
    PaddedScan(full, 1);
  }

  /** While the length field is incomplete, the call waits for more of it. */
  lemma WaitsForHeader(script: seq<ReadEvent>, tail: seq<ReadEvent>, bufLen: nat, recvLen: nat)
    requires Clean(script) && Scan(Stream(script), 1, 0).Err? && |Stream(script)| <= bufLen
        && |Stream(script)| < recvLen
    ensures HeaderLoop(script + tail, [], bufLen, recvLen) == HeaderLoop(tail, Stream(script), bufLen, recvLen)
  {
    hide Clean, Stream, Scan, HeaderLoop;
    assert Stream(script) == [] + Stream(script);
    HeaderStarves(script, [], Stream(script), bufLen, recvLen);
    HeaderExtends(script, tail, [], bufLen, recvLen);
  }

  /**
   Every outcome, for every split and whatever follows the live stretch. A packet of which more has arrived than
   the buffer holds is `BuffError`, a whole one is the packet, and one that is cut off by a read that fails is
   `NetworkError`.
   */
  lemma ReceiveOutcome(script: seq<ReadEvent>, tail: seq<ReadEvent>, n: nat, bufLen: nat, recvLen: nat)
    requires Clean(script) && FrameLen(Stream(script)) == Ok(n) && NeedOf(Stream(script)) <= recvLen
    ensures var stream := Stream(script);
            && (n <= |stream| || bufLen < |stream| ==>
                  Receive(script + tail, bufLen, recvLen).0 == Outcome(stream, n, bufLen))
            && Receive(script + ([Fault] + tail), bufLen, recvLen).0 == Outcome(stream, n, bufLen)
  {
    hide Clean, Stream, Scan, VbiAt, HeaderLoop, Receive, FrameLen, NeedOf;
    LiveOutcome(script, n, bufLen, recvLen);
    if n <= |Stream(script)| || bufLen < |Stream(script)| {
      ReceiveExtends(script, tail, bufLen, recvLen);
      ReceiveExtends(script, [Fault] + tail, bufLen, recvLen);
    } else {
      WaitsForBody(script, [Fault] + tail, n, bufLen, recvLen);
      NeedOfCut(Stream(script), n);
      assert ([Fault] + tail)[1..] == tail;
    }
  }

  lemma NeedOfCut(stream: seq<byte>, n: nat)
    requires FrameLen(stream) == Ok(n) && |stream| < n
    ensures var q := VbiAt(stream, 1).value.1; q <= |stream| && NeedOf(stream) == ReceiveNeed(q, n - q) >= n
  {
  }

  // ---------------------------------------------------------------- a closed connection

  /** What a closed connection delivers: reads of zero bytes. */
  function Closed(k: nat): seq<ReadEvent> {
    seq(k, _ => Segment([]))
  }

  /** The body loop does not notice a read of zero bytes: it simply reads again. */
  lemma EmptyReadIsIgnored(script: seq<ReadEvent>, got: seq<byte>, i: nat, target: nat, bufLen: nat, recvLen: nat)
    requires i < target && i <= |got| <= bufLen && ReceiveNeed(|got| - i, target) <= recvLen
    ensures BodyLoop([Segment([])] + script, got, i, target, bufLen, recvLen)
            == BodyLoop(script, got, i, target, bufLen, recvLen)
  {
    assert ([Segment([])] + script)[1..] == script;
    assert got + [] == got;
  }

  /** Nor any number of them. */
  lemma {:induction false} StillWaiting(
    k: nat, script: seq<ReadEvent>, got: seq<byte>, i: nat, target: nat, bufLen: nat, recvLen: nat
  )
    requires i < target && i <= |got| <= bufLen && ReceiveNeed(|got| - i, target) <= recvLen
    ensures BodyLoop(Closed(k) + script, got, i, target, bufLen, recvLen)
            == BodyLoop(script, got, i, target, bufLen, recvLen)
  {
    hide BodyLoop;
    if k == 0 {
      assert Closed(0) + script == script;
    } else {
      StillWaiting(k - 1, script, got, i, target, bufLen, recvLen);
      EmptyReadIsIgnored(Closed(k - 1) + script, got, i, target, bufLen, recvLen);
      assert Closed(k) + script == [Segment([])] + (Closed(k - 1) + script);
    }
  }

  /**
   A connection that is closed behind part of a body: however often the call reads from it, it goes on as if it had
   not.
   */
  lemma ClosedInBody(script: seq<ReadEvent>, k: nat, tail: seq<ReadEvent>, n: nat, bufLen: nat, recvLen: nat)
    requires Clean(script) && FrameLen(Stream(script)) == Ok(n) && NeedOf(Stream(script)) <= recvLen
    requires |Stream(script)| < n && |Stream(script)| <= bufLen
    ensures Receive(script + (Closed(k) + tail), bufLen, recvLen) == Receive(script + tail, bufLen, recvLen)
  {
    hide Clean, Stream, VbiAt, BodyLoop, Receive, FrameLen, NeedOf;
    NeedOfCut(Stream(script), n);
    HeaderOf(Stream(script), n);
    WaitsForBody(script, Closed(k) + tail, n, bufLen, recvLen);
    WaitsForBody(script, tail, n, bufLen, recvLen);
    var q := VbiAt(Stream(script), 1).value.1;
    StillWaiting(k, tail, Stream(script), |Stream(script)| - q, n - q, bufLen, recvLen);
  }

  /** A read of zero bytes while the length field is incomplete gives the connection up. */
  lemma EmptyReadEndsHeader(script: seq<ReadEvent>, tail: seq<ReadEvent>, bufLen: nat, recvLen: nat)
    requires Clean(script) && Scan(Stream(script), 1, 0).Err?
    requires |Stream(script)| <= bufLen && |Stream(script)| < recvLen
    ensures Receive(script + ([Segment([])] + tail), bufLen, recvLen).0 == Err(NetworkError)
  {
    hide Clean, Stream, Scan;
    var closed := [Segment([])] + tail;
    WaitsForHeader(script, closed, bufLen, recvLen);
    assert Deliver(closed, 1).0 == Ok([]);
  }

  /** After these reads the call has ended: what the connection would deliver next no longer matters. */
  ghost predicate HasEnded(script: seq<ReadEvent>, bufLen: nat, recvLen: nat) {
    forall a, b :: Receive(script + a, bufLen, recvLen).0 == Receive(script + b, bufLen, recvLen).0
  }

  /**
   A peer that closes the connection in the middle of a packet ends the call, after some number of reads of zero
   bytes, if and only if the length field had not arrived completely. In the body no number of them does.
   */
  lemma ClosedEndsExactly(script: seq<ReadEvent>, frame: seq<byte>, m: nat, bufLen: nat, recvLen: nat)
    requires FrameLen(frame) == Ok(|frame|) && m < |frame| <= bufLen && NeedOf(frame) <= recvLen
    requires Clean(script) && Stream(script) == frame[..m]
    ensures (exists k: nat :: HasEnded(script + Closed(k), bufLen, recvLen)) <==> m < VbiAt(frame, 1).value.1
  {
    hide Clean, Stream, Scan, VbiAt, Receive, FrameLen, NeedOf;
    CutLength(frame, m);
    HeaderOf(frame, |frame|);
    if m < VbiAt(frame, 1).value.1 {
      forall a ensures Receive(script + Closed(1) + a, bufLen, recvLen).0 == Err(NetworkError) {
        EmptyReadEndsHeader(script, a, bufLen, recvLen);
        assert script + Closed(1) + a == script + ([Segment([])] + a);
      }
      assert HasEnded(script + Closed(1), bufLen, recvLen);
    } else {
      forall k: nat ensures !HasEnded(script + Closed(k), bufLen, recvLen) {
        EitherWay(script, k, frame, m, bufLen, recvLen);
      }
    }
  }

  /** What is left of a frame's own length in its first m bytes. */
  lemma CutLength(frame: seq<byte>, m: nat)
    requires FrameLen(frame) == Ok(|frame|) && m < |frame|
    ensures var q := VbiAt(frame, 1).value.1;
            && q <= NeedOf(frame)
            && (m < q ==> Scan(frame[..m], 1, 0).Err?)
            && (q <= m ==> FrameLen(frame[..m]) == Ok(|frame|) && NeedOf(frame[..m]) == NeedOf(frame))
  {
    if m >= 1 {
      ScanOnPrefix(frame, m, 1, 0);
      var k := Scan(frame, 1, 0).value;
      if 1 + k <= m {
        assert frame[..m][1..1 + k] == frame[1..1 + k];
      }
    }
  }

  /** Behind part of a body both ends are still possible: the rest of the packet, and a failure. */
  lemma EitherWay(script: seq<ReadEvent>, k: nat, frame: seq<byte>, m: nat, bufLen: nat, recvLen: nat)
    requires FrameLen(frame) == Ok(|frame|) && VbiAt(frame, 1).value.1 <= m < |frame| <= bufLen
    requires NeedOf(frame) <= recvLen
    requires Clean(script) && Stream(script) == frame[..m]
    ensures Receive(script + Closed(k) + [Segment(frame[m..])], bufLen, recvLen).0 == Ok(frame)
    ensures Receive(script + Closed(k) + [Fault], bufLen, recvLen).0 == Err(NetworkError)
  {
    hide Scan, VbiAt, Receive, FrameLen, NeedOf;
    CutLength(frame, m);
    var last, fault := [Segment(frame[m..])], [Fault];
    assert script + Closed(k) + last == script + (Closed(k) + last);
    assert script + Closed(k) + fault == script + (Closed(k) + fault);
    ClosedInBody(script, k, last, |frame|, bufLen, recvLen);
    ClosedInBody(script, k, fault, |frame|, bufLen, recvLen);
    StreamAppend(script, last);
    OneSegment(frame[m..]);
    assert last[1..] == [] && frame[..m] + frame[m..] == frame && frame[..|frame|] == frame;
    ReceivesFirstPacket(script + last, |frame|, bufLen, recvLen);
    ReceiveOutcome(script, [], |frame|, bufLen, recvLen);
    assert [Fault] + [] == fault;
  }

  lemma {:induction false} StreamAppend(a: seq<ReadEvent>, b: seq<ReadEvent>)
    requires Clean(a) && Clean(b)
    ensures Clean(a + b) && Stream(a + b) == Stream(a) + Stream(b)
  {
    if a == [] {
      assert a + b == b;
    } else {
      StreamAppend(a[1..], b);
      assert (a + b)[1..] == a[1..] + b;
      assert Stream(a + b) == a[0].bytes + (Stream(a[1..]) + Stream(b));
    }
  }

  // ---------------------------------------------------------------- malformed lengths

  lemma {:induction false} HeaderOfFour(
    script: seq<ReadEvent>, got: seq<byte>, full: seq<byte>, bufLen: nat, recvLen: nat
  )
    requires Clean(script) && full == got + Stream(script)
    requires Scan(full, 1, 0).Panic? && |got| < 5 <= |full| && bufLen >= 5 && recvLen >= 5
    ensures HeaderLoop(script, got, bufLen, recvLen).0 == Ok((full[1..5], full[..5]))
    decreases Weight(script)
  {
    DeliverClean(script, 1);
    var (read, rest) := Deliver(script, 1);
    var now := got + read.value;
    assert full == now + Stream(rest) && full[..|now|] == now;
    if |now| > 1 {
      ScanOnPrefix(full, |now|, 1, 0);
    }
    if |now| < 5 {
      HeaderOfFour(rest, now, full, bufLen, recvLen);
    } else {
      assert now[1..5] == full[1..5];
    }
  }

  /** A length field whose fourth byte still continues is not refused: decoding it panics. */
  lemma MalformedLengthPanics(script: seq<ReadEvent>, bufLen: nat, recvLen: nat)
    requires Clean(script) && Scan(Stream(script), 1, 0).Panic? && bufLen >= 5 && recvLen >= 5
    ensures Receive(script, bufLen, recvLen).0 == Panic
  {
    var full := Stream(script);
    ScanPanics(full, 1, 0);
    assert full == [] + Stream(script);
    HeaderOfFour(script, [], full, bufLen, recvLen);
    ScanShift(full, 1, 0);
  }

  /** What becomes of a call when `stream` arrives and then a read fails. */
  function StreamOutcome(stream: seq<byte>, bufLen: nat): Result<seq<byte>, ReasonCode> {
    match Scan(stream, 1, 0)
    case Err(_) => Err(if |stream| <= bufLen then NetworkError else BuffError)
    case Panic => if bufLen >= 5 then Panic else Err(BuffError)
    case Ok(_) => Outcome(stream, FrameLen(stream).value, bufLen)
  }

  /**
   Every outcome, for every stream and every split, with a receive buffer large enough for what arrives: also when
   the length field is incomplete or malformed.
   */
  lemma EveryOutcome(script: seq<ReadEvent>, tail: seq<ReadEvent>, bufLen: nat, recvLen: nat)
    requires Clean(script) && recvLen >= 5
    requires FrameLen(Stream(script)).Ok? ==> NeedOf(Stream(script)) <= recvLen
    ensures Receive(script + ([Fault] + tail), bufLen, recvLen).0 == StreamOutcome(Stream(script), bufLen)
  {
    hide Clean, Stream, HeaderLoop, BodyLoop, Receive, NeedOf, Outcome;
    var full := Stream(script);
    match Scan(full, 1, 0) {
      case Ok(_) =>
        ReceiveOutcome(script, tail, FrameLen(full).value, bufLen, recvLen);
      case Panic =>
        if bufLen >= 5 {
          MalformedLengthPanics(script, bufLen, recvLen);
        } else {
          HeaderFails(script, bufLen, recvLen);
        }
        ReceiveExtends(script, [Fault] + tail, bufLen, recvLen);
      case Err(_) =>
        StarvedReceive(script, tail, bufLen, recvLen);
    }
  }

  /** So a call panics exactly when the fourth byte of the length field continues and the buffer has room for it. */
  lemma PanicsExactly(script: seq<ReadEvent>, tail: seq<ReadEvent>, bufLen: nat, recvLen: nat)
    requires Clean(script) && recvLen >= 5
    requires FrameLen(Stream(script)).Ok? ==> NeedOf(Stream(script)) <= recvLen
    ensures Receive(script + ([Fault] + tail), bufLen, recvLen).0.Panic?
            <==> Scan(Stream(script), 1, 0).Panic? && bufLen >= 5
  {
    hide Clean, Stream, Receive, NeedOf, Scan;
    EveryOutcome(script, tail, bufLen, recvLen);
  }

  lemma StarvedReceive(script: seq<ReadEvent>, tail: seq<ReadEvent>, bufLen: nat, recvLen: nat)
    requires Clean(script) && Scan(Stream(script), 1, 0).Err? && recvLen >= 5
    ensures Receive(script + ([Fault] + tail), bufLen, recvLen).0
            == Err(if |Stream(script)| <= bufLen then NetworkError else BuffError)
  {
    hide Clean, Stream, Scan;
    var faulty := [Fault] + tail;
    assert |Stream(script)| < 5;
    assert Stream(script) == [] + Stream(script);
    HeaderStarves(script, [], Stream(script), bufLen, recvLen);
    HeaderExtends(script, faulty, [], bufLen, recvLen);
    assert Deliver(faulty, 1).0 == Err(NetworkError);
  }

  /** With five bytes written the length always comes back, so the test for an overlong length is never reached. */
  lemma FifthByteEndsHeader(w: seq<byte>)
    requires |w| >= 5
    ensures RemLen(w).Ok?
  {
    if Scan(w, 1, 0).Err? {
      assert false;
    }
  }

  // ---------------------------------------------------------------- the code

  /** Does the next write succeed? A script of writes says so for each; behind its end they fail. */
  predicate Up(outgoing: seq<bool>) {
    outgoing != [] && outgoing[0]
  }

  function Later(outgoing: seq<bool>): seq<bool> {
    if outgoing == [] then [] else outgoing[1..]
  }

  class Connection {
    var incoming: seq<ReadEvent>
    var outgoing: seq<bool>
    var sent: seq<seq<byte>>

    constructor (incoming: seq<ReadEvent>, outgoing: seq<bool>)
      ensures this.incoming == incoming && this.outgoing == outgoing && sent == []
    {
      this.incoming, this.outgoing := incoming, outgoing;
      sent := [];
    }

    /** `receive(&mut buf[lo..hi])`. */
    method Receive(buf: array<byte>, lo: nat, hi: nat) returns (r: Result<nat, ReasonCode>)
      requires lo < hi <= buf.Length
      modifies this`incoming, buf
      ensures incoming == Deliver(old(incoming), hi - lo).1
      ensures match Deliver(old(incoming), hi - lo).0
              case Ok(bs) => r == Ok(|bs|) && buf[lo..lo + |bs|] == bs
              case Err(e) => r == Err(e)
              case Panic => r == Panic
    {
      var read, rest := Deliver(incoming, hi - lo).0, Deliver(incoming, hi - lo).1;
      incoming := rest;
      if read.Err? {
        return Err(read.error);
      }
      forall j | 0 <= j < |read.value| {
        buf[lo + j] := read.value[j];
      }
      return Ok(|read.value|);
    }

    /** `send`: the network takes the whole buffer, or fails. */
    method Send(data: seq<byte>) returns (r: Result<(), ReasonCode>)
      modifies this`sent, this`outgoing
      ensures outgoing == Later(old(outgoing))
      ensures Up(old(outgoing)) ==> r == Ok(()) && sent == old(sent) + [data]
      ensures !Up(old(outgoing)) ==> r == Err(NetworkError) && sent == old(sent)
    {
      var up := outgoing != [] && outgoing[0];
      if outgoing != [] {
        outgoing := outgoing[1..];
      }
      if !up {
        return Err(NetworkError);
      }
      sent := sent + [data];
      return Ok(());
    }
  }

  method ReceiveHeader(writer: BuffWriter, recvBuffer: array<byte>, conn: Connection)
    returns (r: Result<Vbi4, ReasonCode>)
    requires writer.Valid() && writer.written == [] && writer.buffer != recvBuffer
    modifies writer, writer.buffer, recvBuffer, conn`incoming
    ensures var (header, rest) := HeaderLoop(old(conn.incoming), [], writer.len, recvBuffer.Length);
            conn.incoming == rest && match header
            case Ok(h) => r == Ok(h.0) && writer.Valid() && writer.written == h.1
            case Err(e) => r == Err(e)
            case Panic => r == Panic
  {
    hide Deliver, RemLen;
    var i := 0;
    while true
      invariant writer.Valid() && i == writer.position
      invariant HeaderLoop(old(conn.incoming), [], writer.len, recvBuffer.Length)
             == HeaderLoop(conn.incoming, writer.written, writer.len, recvBuffer.Length)
      decreases Weight(conn.incoming)
    {
      if writer.position + 1 > recvBuffer.Length {
        return Panic;
      }
      ghost var pos := writer.position;
      var n :- conn.Receive(recvBuffer, writer.position, writer.position + 1);
      if n == 0 {
        return Err(NetworkError);
      }
      i := i + n;
      ghost var bs := recvBuffer[pos..i];
      assert bs[..n] == bs;
      var written := writer.InsertRef(n, recvBuffer[writer.position..i]);
      if !written.Ok? {
        return Err(BuffError);
      }
      if i > 1 {
        var remLen := writer.GetRemLen();
        if remLen.Ok? {
          return Ok(remLen.value);
        }
        if i >= 5 {
          return Err(NetworkError);
        }
      }
    }
  }

  method ReceiveBody(writer: BuffWriter, recvBuffer: array<byte>, conn: Connection, targetLen: nat)
    returns (r: Result<nat, ReasonCode>)
    requires writer.Valid() && writer.buffer != recvBuffer
    modifies writer, writer.buffer, recvBuffer, conn`incoming
    ensures var (packet, rest) :=
        BodyLoop(old(conn.incoming), old(writer.written), 0, targetLen, writer.len, recvBuffer.Length);
            conn.incoming == rest && match packet
            case Ok(p) => r == Ok(|p|) && writer.Valid() && writer.written == p
            case Err(e) => r == Err(e)
            case Panic => r == Panic
  {
    hide Deliver;
    var remLenLen := writer.position;
    var i: nat := 0;
    while true
      invariant writer.Valid() && i <= targetLen && writer.position == remLenLen + i
      invariant BodyLoop(old(conn.incoming), old(writer.written), 0, targetLen, writer.len, recvBuffer.Length)
             == BodyLoop(conn.incoming, writer.written, i, targetLen, writer.len, recvBuffer.Length)
      decreases Weight(conn.incoming)
    {
      if writer.position == targetLen + remLenLen {
        return Ok(targetLen + remLenLen);
      }
      if writer.position + (targetLen - i) > recvBuffer.Length {
        return Panic;
      }
      var n :- conn.Receive(recvBuffer, writer.position, writer.position + (targetLen - i));
      i := i + n;
      if writer.position + i > recvBuffer.Length {
        return Panic;
      }
      ghost var pos := writer.position;
      assert recvBuffer[pos..pos + i][..n] == recvBuffer[pos..pos + n];
      var written := writer.InsertRef(n, recvBuffer[writer.position..writer.position + i]);
      if !written.Ok? {
        return Err(BuffError);
      }
    }
  }

  /** `receive_packet`: the result, the packet in the buffer, and the unread rest are those of `Receive`. */
  method ReceivePacket(buffer: array<byte>, bufferLen: nat, recvBuffer: array<byte>, conn: Connection)
    returns (r: Result<nat, ReasonCode>)
    requires bufferLen <= buffer.Length && buffer != recvBuffer
    modifies buffer, recvBuffer, conn`incoming
    ensures var (packet, rest) := Receive(old(conn.incoming), bufferLen, recvBuffer.Length);
            conn.incoming == rest && match packet
            case Ok(p) => r == Ok(|p|) && |p| <= bufferLen && buffer[..|p|] == p
            case Err(e) => r == Err(e)
            case Panic => r == Panic
  {
    hide HeaderLoop, BodyLoop, Scan;
    var writer := new BuffWriter(buffer, bufferLen);
    var remLen :- ReceiveHeader(writer, recvBuffer, conn);
    var target := VarInt.Decode(remLen);
    if target.Panic? {
      return Panic;
    }
    if target.Err? {
      return Err(BuffError);
    }
    r := ReceiveBody(writer, recvBuffer, conn, target.value);
  }
}
