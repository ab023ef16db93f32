/**
 The variable byte integer of MQTT v5.0, section 1.5.5: little endian base 128, bit 7 of a byte
 says that another byte follows, and at most four bytes are used.
 */
module VarInt {
  import opened Base

  const MAX_ENCODABLE: nat := 268435455

  /** `[u8; 4]`. */
  type Vbi4 = v: seq<byte> | |v| == 4 witness [0, 0, 0, 0]

  /** The shortest encoding. */
  function Vbi(n: nat): (bs: seq<byte>)
    ensures |bs| >= 1
  {
    if n < 128 then [n] else [128 + n % 128] + Vbi(n / 128)
  }

  function VbiValue(bs: seq<byte>): nat {
    if bs == [] then 0 else bs[0] % 128 + 128 * VbiValue(bs[1..])
  }

  /** Exactly the last byte ends the field. */
  ghost predicate Terminated(bs: seq<byte>) {
    |bs| >= 1 && bs[|bs| - 1] < 128 && forall i :: 0 <= i < |bs| - 1 ==> bs[i] >= 128
  }

  function Pad4(bs: seq<byte>): Vbi4
    requires |bs| <= 4
  {
    bs + seq(4 - |bs|, _ => 0)
  }

  /**
   The length field at `pos`, of which `x` bytes have been seen to continue: its size, an error when
   `s` ends inside it, a panic when a fourth byte continues (the code then indexes a fifth of four bytes).
   */
  function Scan(s: seq<byte>, pos: nat, x: nat): (r: Result<nat, BufferError>)
    requires x <= 4
    ensures r.Ok? ==> x < r.value <= 4 && pos + r.value <= |s|
    ensures r.Err? ==> r.error == InsufficientBufferSize && |s| < pos + 4
    decreases 4 - x
  {
    if x == 4 then Panic
    else if pos + x >= |s| then Err(InsufficientBufferSize)
    else if s[pos + x] < 128 then Ok(x + 1)
    else Scan(s, pos, x + 1)
  }

  /** `VariableByteIntegerDecoder::decode` on the array whose bytes start at `pos`. */
  function VbiAt(s: seq<byte>, pos: nat): (r: Result<(u32, nat), BufferError>)
    ensures r.Ok? ==> r.value.0 <= MAX_ENCODABLE && pos < r.value.1 <= |s| && r.value.1 <= pos + 4
  {
    var k :- Scan(s, pos, 0);
    ValueBound(s[pos..pos + k]);
    Ok((VbiValue(s[pos..pos + k]), pos + k))
  }

  function Pow128(k: nat): nat {
    if k == 0 then 1 else 128 * Pow128(k - 1)
  }

  // ---------------------------------------------------------------- lemmas

  lemma Pow128Values()
    ensures Pow128(0) == 1 && Pow128(1) == 128 && Pow128(2) == 16384
    ensures Pow128(3) == 2097152 && Pow128(4) == 268435456
  {
    assert Pow128(2) == 128 * Pow128(1);
    assert Pow128(3) == 128 * Pow128(2);
    assert Pow128(4) == 128 * Pow128(3);
  }

  /** Whatever four bytes hold, a field of `k` bytes is below 128^k: re-encoding a decoded value cannot fail. */
  lemma {:induction false} ValueBound(bs: seq<byte>)
    ensures VbiValue(bs) < Pow128(|bs|)
    ensures |bs| <= 4 ==> VbiValue(bs) <= MAX_ENCODABLE
  {
    if bs != [] {
      ValueBound(bs[1..]);
    }
    Pow128Values();
  }

  lemma {:induction false} VbiTerminated(n: nat)
    ensures Terminated(Vbi(n))
  {
    if n >= 128 {
      VbiTerminated(n / 128);
      var tail := Vbi(n / 128);
      var bs := Vbi(n);
      assert bs[|bs| - 1] == tail[|tail| - 1];
      forall i | 0 <= i < |bs| - 1 ensures bs[i] >= 128 {
        assert i > 0 ==> bs[i] == tail[i - 1];
      }
    }
  }

  /** The encoder's length is the least k with n < 128^k. */
  lemma {:induction false} VbiLeastWidth(n: nat, k: nat)
    requires k >= 1
    ensures |Vbi(n)| <= k <==> n < Pow128(k)
    decreases k
  {
    if k == 1 {
      Pow128Values();
    } else if n >= 128 {
      VbiLeastWidth(n / 128, k - 1);
      assert Pow128(k) == 128 * Pow128(k - 1);
    } else {
      PowGrows(k);
    }
  }

  lemma {:induction false} PowGrows(k: nat)
    requires k >= 1
    ensures Pow128(k) >= 128
  {
    if k > 1 { PowGrows(k - 1); }
  }

  lemma VbiWidth(n: nat)
    requires n <= MAX_ENCODABLE
    ensures 1 <= |Vbi(n)| <= 4
  {
    Pow128Values();
    VbiLeastWidth(n, 4);
  }

  lemma {:induction false} VbiRoundTrip(n: nat)
    ensures VbiValue(Vbi(n)) == n
  {
    if n >= 128 {
      VbiRoundTrip(n / 128);
      assert Vbi(n)[1..] == Vbi(n / 128);
    }
  }

  /** A terminated field is found where it lies, whatever follows it. */
  lemma {:induction false} ScanFinds(s: seq<byte>, pos: nat, bs: seq<byte>, x: nat)
    requires At(s, pos, bs) && Terminated(bs) && |bs| <= 4 && x < |bs|
    ensures Scan(s, pos, x) == Ok(|bs|)
    decreases |bs| - x
  {
    assert s[pos + x] == s[pos..pos + |bs|][x] == bs[x];
    if x < |bs| - 1 {
      ScanFinds(s, pos, bs, x + 1);
    }
  }

  lemma {:induction false} ScanTerminates(s: seq<byte>, pos: nat, x: nat)
    requires x <= 4 && pos + x <= |s|
    requires forall i :: pos <= i < pos + x ==> s[i] >= 128
    ensures Scan(s, pos, x).Ok? ==> Terminated(s[pos..pos + Scan(s, pos, x).value])
    decreases 4 - x
  {
    if x < 4 && pos + x < |s| {
      if s[pos + x] >= 128 {
        ScanTerminates(s, pos, x + 1);
      } else {
        var bs := s[pos..pos + x + 1];
        forall i | 0 <= i < x ensures bs[i] >= 128 {
          assert bs[i] == s[pos + i];
        }
      }
    }
  }

  /** Reading back what the encoder wrote. */
  lemma VbiAtRoundTrip(s: seq<byte>, pos: nat, n: nat)
    requires n <= MAX_ENCODABLE && At(s, pos, Vbi(n))
    ensures VbiAt(s, pos) == Ok((n, pos + |Vbi(n)|))
  {
    VbiWidth(n);
    VbiTerminated(n);
    ScanFinds(s, pos, Vbi(n), 0);
    VbiRoundTrip(n);
  }

  /** A field is the encoder's own exactly when it has no redundant final zero byte. */
  lemma {:induction false} MinimalExactly(bs: seq<byte>)
    requires Terminated(bs)
    ensures |Vbi(VbiValue(bs))| <= |bs|
    ensures Vbi(VbiValue(bs)) == bs <==> |bs| == 1 || bs[|bs| - 1] != 0
    ensures |Vbi(VbiValue(bs))| == |bs| <==> |bs| == 1 || bs[|bs| - 1] != 0
  {
    var n := VbiValue(bs);
    if |bs| == 1 {
      assert bs[1..] == [];
    } else {
      var tail := bs[1..];
      assert Terminated(tail) && tail[|tail| - 1] == bs[|bs| - 1];
      MinimalExactly(tail);
      var m := VbiValue(tail);
      assert bs == [bs[0]] + tail;
      if m == 0 {
        assert Vbi(m) == [0];
        TailZero(tail);
      } else {
        assert n >= 128 && n / 128 == m && n % 128 == bs[0] % 128;
        assert Vbi(n) == [bs[0]] + Vbi(m);
        assert |tail| == 1 ==> tail[0] != 0 by { if |tail| == 1 { assert tail[1..] == []; } }
        if Vbi(n) == bs { assert Vbi(n)[1..] == tail; }
      }
    }
  }

  lemma {:induction false} TailZero(bs: seq<byte>)
    requires Terminated(bs) && VbiValue(bs) == 0
    ensures bs[|bs| - 1] == 0
  {
    if |bs| > 1 {
      assert Terminated(bs[1..]);
      TailZero(bs[1..]);
    } else {
      assert bs[1..] == [];
    }
  }

  /** On a prefix of a stream the scanner either says what it says on the stream, or asks for more bytes. */
  lemma {:induction false} ScanOnPrefix(s: seq<byte>, n: nat, pos: nat, x: nat)
    requires n <= |s| && x <= 4 && pos + x <= n
    ensures !Scan(s[..n], pos, x).Err? ==> Scan(s[..n], pos, x) == Scan(s, pos, x)
    ensures Scan(s, pos, x).Ok? ==> (Scan(s[..n], pos, x).Err? <==> n < pos + Scan(s, pos, x).value)
    ensures Scan(s, pos, x).Panic? ==> (Scan(s[..n], pos, x).Err? <==> n < pos + 4)
    decreases 4 - x
  {
    if x < 4 && pos + x < n && s[pos + x] >= 128 {
      ScanOnPrefix(s, n, pos, x + 1);
    }
  }

  lemma {:induction false} ScanShift(s: seq<byte>, pos: nat, x: nat)
    requires pos + 4 <= |s| && x <= 4
    ensures Scan(s[pos..pos + 4], 0, x) == Scan(s, pos, x)
    decreases 4 - x
  {
    if x < 4 {
      ScanShift(s, pos, x + 1);
    }
  }

  /** What the zero-padded copy of a field decodes to is what the field itself means. */
  lemma PaddedScan(s: seq<byte>, pos: nat)
    requires Scan(s, pos, 0).Ok?
    ensures var k := Scan(s, pos, 0).value;
            Scan(Pad4(s[pos..pos + k]), 0, 0) == Ok(k) && Pad4(s[pos..pos + k])[..k] == s[pos..pos + k]
  {
    var k := Scan(s, pos, 0).value;
    ScanTerminates(s, pos, 0);
    ScanFinds(Pad4(s[pos..pos + k]), 0, s[pos..pos + k], 0);
  }

  /** The padded array knows its own length: the encoder's `len` never runs off it. */
  lemma PaddedLen(n: nat)
    requires n <= MAX_ENCODABLE
    ensures |Vbi(n)| <= 4 && Scan(Pad4(Vbi(n)), 0, 0) == Ok(|Vbi(n)|) && Pad4(Vbi(n))[..|Vbi(n)|] == Vbi(n)
  {
    VbiWidth(n);
    VbiTerminated(n);
    ScanFinds(Pad4(Vbi(n)), 0, Vbi(n), 0);
  }

  /** The borders of the table in section 1.5.5: where one, two, three and four bytes begin and end. */
  lemma SizeTable()
    ensures Vbi(0) == [0x00] && Vbi(127) == [0x7F]
    ensures Vbi(128) == [0x80, 0x01] && Vbi(16383) == [0xFF, 0x7F]
    ensures Vbi(16384) == [0x80, 0x80, 0x01] && Vbi(2097151) == [0xFF, 0xFF, 0x7F]
    ensures Vbi(2097152) == [0x80, 0x80, 0x80, 0x01] && Vbi(268435455) == [0xFF, 0xFF, 0xFF, 0x7F]
    ensures MAX_ENCODABLE == 268435455
  {
    assert Vbi(1) == [1] && Vbi(127) == [127];
    assert Vbi(128) == [0x80] + Vbi(1) && Vbi(16383) == [0xFF] + Vbi(127);
    assert Vbi(16384) == [0x80] + Vbi(128) && Vbi(2097151) == [0xFF] + Vbi(16383);
    assert Vbi(2097152) == [0x80] + Vbi(16384) && Vbi(268435455) == [0xFF] + Vbi(2097151);
  }

  // ---------------------------------------------------------------- the code

  /** `VariableByteIntegerEncoder::encode`. */
  method Encode(target: u32) returns (r: Result<Vbi4, BufferError>)
    ensures target > MAX_ENCODABLE ==> r == Err(EncodingError)
    ensures target <= MAX_ENCODABLE ==> |Vbi(target)| <= 4 && r == Ok(Pad4(Vbi(target)))
  {
    if target > MAX_ENCODABLE {
      return Err(EncodingError);
    }
    VbiWidth(target);
    var res: Vbi4 := [0, 0, 0, 0];
    var rest: nat := target;
    var i := 0;
    while true
      invariant 0 <= i <= 3
      invariant Vbi(target) == res[..i] + Vbi(rest)
      invariant forall j :: i <= j < 4 ==> res[j] == 0
      decreases rest
    {
      var encodedByte := rest % 128;
      ghost var before, whole := res[..i], rest;
      rest := rest / 128;
      if rest > 0 {
        encodedByte := encodedByte + 128;
      }
      res := res[i := encodedByte];
      i := i + 1;
      assert res[..i] == before + [encodedByte];
      if rest == 0 {
        assert Vbi(whole) == [encodedByte];
        break;
      }
      assert Vbi(whole) == [encodedByte] + Vbi(rest);
      assert Vbi(target) == res[..i] + Vbi(rest);
    }
    assert res == Pad4(res[..i]);
    return Ok(res);
  }

  /** `VariableByteIntegerEncoder::len`: indexing past the fourth byte panics. */
  method Len(v: Vbi4) returns (r: Result<nat, BufferError>)
    ensures r == Scan(v, 0, 0)
  {
    var i := 0;
    while true
      invariant 0 <= i <= 4
      invariant Scan(v, 0, 0) == Scan(v, 0, i)
      decreases 4 - i
    {
      if i >= 4 {
        return Panic;
      }
      var encodedByte := v[i];
      i := i + 1;
      if encodedByte < 128 {
        break;
      }
    }
    return Ok(i);
  }

  /** `VariableByteIntegerDecoder::decode`. */
  method Decode(encoded: Vbi4) returns (r: Result<u32, BufferError>)
    ensures r == if Scan(encoded, 0, 0).Ok? then Ok(VbiValue(encoded[..Scan(encoded, 0, 0).value])) else Panic
  {
    var multiplier: nat := 1;
    var ret: nat := 0;
    var i := 0;
    Pow128Values();
    while true
      invariant 0 <= i <= 4
      invariant Scan(encoded, 0, 0) == Scan(encoded, 0, i)
      invariant multiplier == Pow128(i)
      invariant ret == VbiValue(encoded[..i])
      decreases 4 - i
    {
      if i >= 4 {
        return Panic;
      }
      var encodedByte := encoded[i];
      ValueSnoc(encoded[..i], encodedByte);
      assert encoded[..i + 1] == encoded[..i] + [encodedByte];
      i := i + 1;
      var low: nat := encodedByte % 128;
      ret := ret + low * multiplier;
      if multiplier > 2097152 {
        return Err(DecodingError);
      }
      multiplier := multiplier * 128;
      if encodedByte < 128 {
        break;
      }
    }
    ValueBound(encoded[..i]);
    return Ok(ret);
  }

  lemma {:induction false} ValueSnoc(bs: seq<byte>, b: byte)
    ensures VbiValue(bs + [b]) == VbiValue(bs) + b % 128 * Pow128(|bs|)
  {
    if bs == [] {
      assert [b][1..] == [];
    } else {
      ValueSnoc(bs[1..], b);
      assert (bs + [b])[1..] == bs[1..] + [b];
      var d, p := b % 128, Pow128(|bs| - 1);
      assert 128 * (VbiValue(bs[1..]) + d * p) == 128 * VbiValue(bs[1..]) + d * (128 * p);
    }
  }
}
