/**
 The writing cursor (rust-mqtt/src/utils/buffer_writer.rs). Every method either appends exactly the bytes of
 its argument, or fails.
 */
module BuffWriters {
  import opened Base
  import opened VarInt
  import opened Types
  import opened Lists
  import opened Properties

  /**
   What `get_rem_len` answers when `w` has been written: the zero-padded length field behind the first byte,
   or an error while it is incomplete. A fourth continuing byte is returned, not refused.
   */
  function RemLen(w: seq<byte>): Result<Vbi4, ()>
    requires |w| >= 2
  {
    match Scan(w, 1, 0)
    case Ok(k) => Ok(Pad4(w[1..1 + k]))
    case Err(_) => Err(())
    case Panic => ScanPanics(w, 1, 0); Ok(w[1..5])
  }

  /** And when fewer than two bytes have been written: a length field in the buffer's old content, or a panic. */
  function UnboundedRemLen(buffer: seq<byte>): Result<Vbi4, ()> {
    match Scan(buffer, 1, 0)
    case Ok(k) => Ok(Pad4(buffer[1..1 + k]))
    case _ => Panic
  }

  lemma {:induction false} ScanPanics(s: seq<byte>, pos: nat, x: nat)
    requires x <= 4 && pos + x <= |s| && Scan(s, pos, x).Panic?
    ensures pos + 4 <= |s|
    decreases 4 - x
  {
    if x < 4 {
      ScanPanics(s, pos, x + 1);
    }
  }

  /**
   The three scanners of a length field agree. While it arrives, `get_rem_len` fails exactly on its proper
   prefixes; from the last byte on it gives the padded array, whose length and value are those that the reader
   finds in the stream.
   */
  lemma ScannersAgree(s: seq<byte>, n: nat)
    requires 2 <= n <= |s| && VbiAt(s, 1).Ok?
    ensures var (value, q) := VbiAt(s, 1).value;
            && (RemLen(s[..n]).Err? <==> n < q)
            && (q <= n ==> RemLen(s[..n]) == Ok(Pad4(s[1..q])))
            && Scan(Pad4(s[1..q]), 0, 0) == Ok(q - 1)
            && VbiValue(Pad4(s[1..q])[..q - 1]) == value
  {
    ScanOnPrefix(s, n, 1, 0);
    PaddedScan(s, 1);
    var q := VbiAt(s, 1).value.1;
    if q <= n {
      assert s[..n][1..q] == s[1..q];
    }
  }

  class BuffWriter {
    const buffer: array<byte>
    const len: nat
    var position: nat
    /** What has been written so far. */
    ghost var written: seq<byte>

    constructor (buffer: array<byte>, buffLen: nat)
      requires buffLen <= buffer.Length
      ensures Valid() && this.buffer == buffer && len == buffLen && written == []
    {
      this.buffer := buffer;
      len := buffLen;
      position := 0;
      written := [];
    }

    ghost predicate Valid()
      reads this, buffer
    {
      && position == |written| <= len <= buffer.Length
      && buffer[..position] == written
    }

    /** Either there was room and `bs` has been appended, or there was none and that is the error. */
    twostate predicate Appended(new bs: seq<byte>, new r: Result<(), BufferError>)
      reads this, buffer
    {
      && Valid()
      && (r.Ok? <==> |old(written)| + |bs| <= len)
      && (r.Ok? ==> written == old(written) + bs)
      && (!r.Ok? ==> r == Err(InsufficientBufferSize))
    }

    /**
     `get_rem_len`. With fewer than two bytes written the code does not stop where the written bytes end: the bound
     is 0, or wraps, and it scans whatever the buffer holds.
     */
    method GetRemLen() returns (r: Result<Vbi4, ()>)
      requires Valid()
      ensures position >= 2 ==> r == RemLen(written)
      ensures position < 2 ==> r == UnboundedRemLen(buffer[..])
    {
      ghost var w := if position >= 2 then written else buffer[..];
      var max := if position >= 5 then 4 else (position - 1) % U32_MOD;
      var i := 1;
      var res: Vbi4 := [0, 0, 0, 0];
      if buffer.Length == 0 {
        return Panic;
      }
      while true
        invariant 1 <= i <= 5 && i <= |w| && (position >= 2 ==> i <= max)
        invariant Scan(w, 1, 0) == Scan(w, 1, i - 1)
        invariant res[..i - 1] == w[1..i]
        invariant forall j :: i - 1 <= j < 4 ==> res[j] == 0
        decreases 5 - i
      {
        if i - 1 >= 4 || i >= buffer.Length {
          return Panic;
        }
        res := res[i - 1 := buffer[i]];
        assert w[i] == buffer[i];
        assert w[1..i + 1] == w[1..i] + [w[i]];
        assert res[..i] == w[1..i + 1];
        if res[i - 1] < 128 {
          assert res == Pad4(w[1..i + 1]);
          return Ok(res);
        }
        if i == max && i != 4 {
          return Err(());
        }
        if i == max {
          assert res[..4] == res;
          return Ok(res);
        }
        i := i + 1;
      }
    }

    method InsertRef(n: nat, bytes: seq<byte>) returns (r: Result<(), BufferError>)
      requires Valid()
      modifies this, buffer
      ensures n <= |bytes| ==> Appended(bytes[..n], r)
      ensures n > |bytes| ==> Valid() && !r.Ok?
      ensures r.Panic? <==> n > |bytes| && |old(written)| + n <= len
      ensures !r.Ok? ==> written == old(written)
    {
      if position + n > len {
        return Err(InsufficientBufferSize);
      }
      if n > |bytes| {
        return Panic;
      }
      forall i | 0 <= i < n {
        buffer[position + i] := bytes[i];
      }
      position := position + n;
      written := written + bytes[..n];
      return Ok(());
    }

    method WriteU8(b: byte) returns (r: Result<(), BufferError>)
      requires Valid()
      modifies this, buffer
      ensures Appended([b], r)
    {
      if position >= len {
        return Err(InsufficientBufferSize);
      }
      buffer[position] := b;
      position := position + 1;
      written := written + [b];
      return Ok(());
    }

    method WriteU16(v: u16) returns (r: Result<(), BufferError>)
      requires Valid()
      modifies this, buffer
      ensures Appended(BE16(v), r)
    {
      assert BE16(v)[..2] == BE16(v);
      r := InsertRef(2, BE16(v));
    }

    method WriteU32(v: u32) returns (r: Result<(), BufferError>)
      requires Valid()
      modifies this, buffer
      ensures Appended(BE32(v), r)
    {
      assert BE32(v)[..4] == BE32(v);
      r := InsertRef(4, BE32(v));
    }

    method WriteStringRef(e: EncodedString) returns (r: Result<(), BufferError>)
      requires Valid()
      modifies this, buffer
      ensures StringCovered(e) ==> Appended(StringBytes(e), r)
      ensures !StringCovered(e) ==> Valid() && !r.Ok?
    {
      var _ :- WriteU16(e.len);
      if e.len != 0 {
        r := InsertRef(e.len, e.text);
        return;
      }
      assert StringBytes(e) == BE16(e.len) + [];
      return Ok(());
    }

    method WriteBinaryRef(b: BinaryData) returns (r: Result<(), BufferError>)
      requires Valid()
      modifies this, buffer
      ensures BinaryCovered(b) ==> Appended(BinaryBytes(b), r)
      ensures !BinaryCovered(b) ==> Valid() && !r.Ok?
    {
      var _ :- WriteU16(b.len);
      r := InsertRef(b.len, b.bin);
    }

    method WriteStringPairRef(p: StringPair) returns (r: Result<(), BufferError>)
      requires Valid()
      modifies this, buffer
      ensures StringCovered(p.name) && StringCovered(p.value) ==> Appended(PairBytes(p), r)
      ensures !(StringCovered(p.name) && StringCovered(p.value)) ==> Valid() && !r.Ok?
    {
      hide StringBytes;
      var _ :- WriteStringRef(p.name);
      r := WriteStringRef(p.value);
    }

    method WriteVariableByteInt(v: u32) returns (r: Result<(), BufferError>)
      requires Valid()
      modifies this, buffer
      ensures v <= MAX_ENCODABLE ==> Appended(Vbi(v), r)
      ensures v > MAX_ENCODABLE ==> r == Err(EncodingError) && Valid()
    {
      var x :- Encode(v);
      if v <= MAX_ENCODABLE {
        PaddedLen(v);
      }
      var n := Len(x);
      r := InsertRef(n.value, x);
    }

    method WritePayload(v: Payload) returns (r: Result<(), BufferError>)
      requires Valid()
      modifies this, buffer
      ensures CoveredPayload(v) ==> Appended(Wire(v), r)
      ensures !CoveredPayload(v) ==> Valid() && !r.Ok?
    {
      hide StringBytes, BinaryBytes, PairBytes, Vbi;
      match v
      case PByte(u) => r := WriteU8(u);
      case PWord(u) => r := WriteU16(u);
      case PLong(u) => r := WriteU32(u);
      case PVar(u) => r := WriteVariableByteInt(u);
      case PString(u) => r := WriteStringRef(u);
      case PBinary(u) => r := WriteBinaryRef(u);
      case PPair(u) => r := WriteStringPairRef(u);
    }

    /** `Property::encode`: which of the writers above a variant uses is the table `PayloadOf`. */
    method EncodeProperty(p: Property) returns (r: Result<(), BufferError>)
      requires Valid()
      modifies this, buffer
      ensures Writable(p) ==> Appended(Wire(PayloadOf(p)), r)
      ensures !Writable(p) ==> Valid() && !r.Ok?
    {
      hide Wire, CoveredPayload, PayloadOf;
      if p.Reserved? {
        return Err(PropertyNotFound);
      }
      r := WritePayload(PayloadOf(p));
    }

    method WriteProperty(p: Property) returns (r: Result<(), BufferError>)
      requires Valid()
      modifies this, buffer
      ensures Writable(p) ==> Appended(PropertyBytes(p), r)
      ensures !Writable(p) ==> Valid() && !r.Ok?
    {
      hide PropertyId, PayloadOf, Wire, CoveredPayload;
      var _ :- WriteU8(PropertyId(p));
      r := EncodeProperty(p);
    }

    method WriteProperties(properties: seq<Property>) returns (r: Result<(), BufferError>)
      requires Valid()
      modifies this, buffer
      ensures All(Writable, properties) ==> Appended(PropsBytes(properties), r)
      ensures !All(Writable, properties) ==> Valid() && !r.Ok?
    {
      hide Writable, PropertyBytes;
      for i := 0 to |properties|
        invariant Valid()
        invariant All(Writable, properties[..i]) && written == old(written) + PropsBytes(properties[..i])
      {
        WriteNext(PropertyBytes, Writable, properties, i);
        r := WriteProperty(properties[i]);
        if !r.Ok? {
          return;
        }
      }
      assert properties[..|properties|] == properties;
      return Ok(());
    }

    method WriteTopicFilterRef(sub: bool, f: TopicFilter) returns (r: Result<(), BufferError>)
      requires Valid()
      modifies this, buffer
      ensures FilterCovered(f) ==> Appended(FilterBytes(sub)(f), r)
      ensures !FilterCovered(f) ==> Valid() && !r.Ok?
    {
      hide StringBytes;
      var _ :- WriteStringRef(f.filter);
      if sub {
        r := WriteU8(f.subOptions);
        return;
      }
      return Ok(());
    }

    method WriteTopicFiltersRef(sub: bool, filters: seq<TopicFilter>) returns (r: Result<(), BufferError>)
      requires Valid()
      modifies this, buffer
      ensures All(FilterCovered, filters) ==> Appended(Flat(FilterBytes(sub), filters), r)
      ensures !All(FilterCovered, filters) ==> Valid() && !r.Ok?
    {
      hide FilterBytes, FilterCovered;
      for i := 0 to |filters|
        invariant Valid()
        invariant All(FilterCovered, filters[..i]) && written == old(written) + Flat(FilterBytes(sub), filters[..i])
      {
        WriteNext(FilterBytes(sub), FilterCovered, filters, i);
        r := WriteTopicFilterRef(sub, filters[i]);
        if !r.Ok? {
          return;
        }
      }
      assert filters[..|filters|] == filters;
      return Ok(());
    }
  }
}
