/**
 The reading cursor (rust-mqtt/src/utils/buffer_reader.rs): every method computes the value and the next
 position that the pure readers of `Types` and `Properties` give for the bytes in view.
 */
module BuffReaders {
  import opened Base
  import opened VarInt
  import opened Types
  import opened Lists
  import opened Properties

  class BuffReader {
    const buffer: array<byte>
    const len: nat
    var position: nat

    constructor (buffer: array<byte>, buffLen: nat)
      requires buffLen <= buffer.Length < SLICE_LIMIT
      ensures Valid() && this.buffer == buffer && len == buffLen && position == 0
    {
      this.buffer := buffer;
      len := buffLen;
      position := 0;
    }

    ghost predicate Valid()
      reads this
    {
      position <= len <= buffer.Length < SLICE_LIMIT
    }

    ghost function View(): Slice
      requires len <= buffer.Length < SLICE_LIMIT
      reads buffer
    {
      buffer[..len]
    }

    /** `r` and the new position are what `read` says; after an error the cursor stays somewhere in view. */
    twostate predicate Follows<T>(new r: Result<T, BufferError>, new read: Read<T>)
      reads this
    {
      match read
      case Ok(v) => r == Ok(v.0) && position == v.1 && Valid()
      case Err(e) => r == Err(e) && Valid()
      case Panic => r == Panic
    }

    method PeekU8() returns (r: Result<byte, BufferError>)
      requires Valid()
      ensures r == if position < len then Ok(buffer[position]) else Err(InsufficientBufferSize)
    {
      if position >= len {
        return Err(InsufficientBufferSize);
      }
      return Ok(buffer[position]);
    }

    method ReadU8() returns (r: Result<byte, BufferError>)
      requires Valid()
      modifies this`position
      ensures Follows(r, U8At(View(), old(position)))
    {
      if position >= len {
        return Err(InsufficientBufferSize);
      }
      r := Ok(buffer[position]);
      position := position + 1;
    }

    method ReadU16() returns (r: Result<u16, BufferError>)
      requires Valid()
      modifies this`position
      ensures Follows(r, U16At(View(), old(position)))
    {
      if position + 2 > len {
        return Err(InsufficientBufferSize);
      }
      r := Ok((buffer[position] as int) * 0x100 + buffer[position + 1]);
      position := position + 2;
    }

    method ReadU32() returns (r: Result<u32, BufferError>)
      requires Valid()
      modifies this`position
      ensures Follows(r, U32At(View(), old(position)))
    {
      if position + 4 > len {
        return Err(InsufficientBufferSize);
      }
      r := Ok((buffer[position] as int) * 0x100_0000 + (buffer[position + 1] as int) * 0x1_0000
              + (buffer[position + 2] as int) * 0x100 + buffer[position + 3]);
      position := position + 4;
    }

    /** The loops of `read_variable_byte_int`: the field in a zero-padded array, and by how much to advance. */
    method CopyField() returns (r: Result<(Vbi4, nat), BufferError>)
      requires Valid()
      ensures var k := Scan(View(), position, 0);
              && (k.Ok? ==> r == Ok((Pad4(View()[position..position + k.value]), k.value)))
              && (k.Err? ==> r == Err(k.error))
              && (k.Panic? ==> position + 4 <= len && r == Ok((View()[position..position + 4], 5)))
    {
      ghost var v := View();
      var field: Vbi4 := [0, 0, 0, 0];
      var n := 1;
      var x := 0;
      while true
        invariant 0 <= x <= 4
        invariant n == x + 1 && position + x <= len && Scan(v, position, 0) == Scan(v, position, x)
        invariant field[..x] == v[position..position + x] && forall j :: x <= j < 4 ==> field[j] == 0
        decreases 4 - x
      {
        if x >= 4 {
          break;
        }
        if position + x >= len {
          return Err(InsufficientBufferSize);
        }
        assert v[position..position + x + 1] == v[position..position + x] + [v[position + x]];
        if buffer[position + x] >= 128 {
          field := field[x := buffer[position + x]];
          n := n + 1;
        } else {
          field := field[x := buffer[position + x]];
          assert field == Pad4(v[position..position + x + 1]);
          x := x + 1;
          if x != 4 {
            while true
              invariant n <= x <= 3
              invariant field == Pad4(v[position..position + n])
              decreases 4 - x
            {
              field := field[x := 0];
              assert field == Pad4(v[position..position + n]);
              x := x + 1;
              if x == 4 {
                break;
              }
            }
          }
          return Ok((field, n));
        }
        x := x + 1;
      }
      assert field[..4] == field;
      return Ok((field, n));
    }

    method ReadVariableByteInt() returns (r: Result<u32, BufferError>)
      requires Valid()
      modifies this`position
      ensures Follows(r, VbiAt(View(), old(position)))
    {
      ghost var v, pos := View(), position;
      var field :- CopyField();
      if field.1 <= 4 {
        PaddedScan(v, pos);
      } else {
        ScanShift(v, pos, 0);
      }
      position := position + field.1;
      r := Decode(field.0);
    }

    method ReadString() returns (r: Result<EncodedString, BufferError>)
      requires Valid()
      modifies this`position
      ensures Follows(r, StringAt(View(), old(position)))
    {
      var n :- ReadU16();
      if position + n > len {
        return Err(InsufficientBufferSize);
      }
      var text := buffer[position..position + n];
      assert text == View()[position..position + n];
      if !ValidUtf8(text) {
        return Err(Utf8Error);
      }
      position := position + n;
      return Ok(EncodedString(text, n));
    }

    /** The data is returned, the cursor stays in front of it. */
    method ReadBinary() returns (r: Result<BinaryData, BufferError>)
      requires Valid()
      modifies this`position
      ensures var read := BinaryAt(View(), old(position));
              Follows(r, if read.Ok? then Ok((read.value.0, old(position) + 2)) else read)
    {
      var n :- ReadU16();
      if position + n > len {
        return Err(InsufficientBufferSize);
      }
      var data := buffer[position..position + n];
      assert data == View()[position..position + n];
      return Ok(BinaryData(data, n));
    }

    method ReadStringPair() returns (r: Result<StringPair, BufferError>)
      requires Valid()
      modifies this`position
      ensures Follows(r, PairAt(View(), old(position)))
    {
      hide StringAt;
      var name :- ReadString();
      var value :- ReadString();
      return Ok(StringPair(name, value));
    }

    /** The bytes from the cursor to `totalLen`, or to the end of the view; slicing backwards panics. */
    method ReadMessage(totalLen: nat) returns (r: Result<Slice, BufferError>)
      requires Valid()
      ensures r == MessageAt(View(), position, totalLen)
    {
      if totalLen > len {
        return Ok(buffer[position..len]);
      }
      if position > totalLen {
        return Panic;
      }
      assert View()[position..totalLen] == buffer[position..totalLen];
      return Ok(buffer[position..totalLen]);
    }

    method ReadPayload(shape: Shape) returns (r: Result<Payload, BufferError>)
      requires Valid() && shape != NoShape
      modifies this`position
      ensures var read := PayloadAt(shape, View(), old(position));
              Follows(r, if read.Ok? && read.value.0.PBinary? then Ok((read.value.0, old(position) + 2)) else read)
    {
      hide U8At, U16At, U32At, VbiAt, StringAt, BinaryAt, PairAt;
      match shape
      case ByteShape => var u :- ReadU8(); r := Ok(PByte(u));
      case WordShape => var u :- ReadU16(); r := Ok(PWord(u));
      case LongShape => var u :- ReadU32(); r := Ok(PLong(u));
      case VarShape => var u :- ReadVariableByteInt(); r := Ok(PVar(u));
      case StringShape => var u :- ReadString(); r := Ok(PString(u));
      case BinaryShape => var u :- ReadBinary(); r := Ok(PBinary(u));
      case PairShape => var u :- ReadStringPair(); r := Ok(PPair(u));
    }

    /** `Property::decode`: which reader an identifier uses is the table `ShapeOf`, what it builds is `Build`. */
    method DecodeProperty() returns (r: Result<Property, BufferError>)
      requires Valid()
      modifies this`position
      ensures Follows(r, PropertyAt(View(), old(position)))
    {
      hide PayloadAt, ShapeOf, Build, Unread;
      var id :- ReadU8();
      if ShapeOf(id) == NoShape {
        return Err(IdNotFound);
      }
      var v :- ReadPayload(ShapeOf(id));
      BuildUnread(id, v);
      return Ok(Build(id, v));
    }

    /**
     `decode_properties`: the announced length, then properties until their reported lengths add up to it.
     Pushing into the full list drops the property; its length still counts.
     */
    method DecodeProperties(prior: seq<Property>, cap: nat)
      returns (r: Result<(), BufferError>, propertyLen: u32, properties: seq<Property>)
      requires Valid() && |prior| <= cap
      modifies this`position
      ensures var read := PropsAt(View(), old(position));
              && Follows(r, if read.Ok? then Ok(((), read.value.1)) else Propagate(read))
              && (read.Ok? ==> propertyLen == read.value.0.0 && properties == Keep(prior + read.value.0.1, cap))
    {
      hide PropertyAt, EncodedLen, PropsLoop, Prepend;
      propertyLen, properties := 0, prior;
      var n := ReadVariableByteInt();
      if !n.Ok? {
        return n.PropagateFailure(), 0, prior;
      }
      propertyLen := n.value;
      assert prior + [] == prior;
      if propertyLen == 0 {
        return Ok(()), propertyLen, properties;
      }
      ghost var v, start := View(), position;
      ghost var seen := [];
      var x: u32 := 0;
      PrependNothing(PropsLoop(v, start, 0, propertyLen));
      while true
        invariant Valid() && |properties| <= cap
        invariant properties == Keep(prior + seen, cap)
        invariant PropsLoop(v, start, 0, propertyLen) == Prepend(seen, PropsLoop(v, position, x, propertyLen))
        decreases len - position
      {
        PropsStep(v, position, x, propertyLen);
        ghost var ahead := PropsLoop(v, position, x, propertyLen);
        var p := DecodeProperty();
        if !p.Ok? {
          PrependFailure(seen, ahead);
          return p.PropagateFailure(), propertyLen, properties;
        }
        x := (x + EncodedLen(p.value) + 1) % U32_MOD;
        PushKept(prior, seen, p.value, cap);
        properties := Push(properties, p.value, cap);
        seen := seen + [p.value];
        PrependMore(seen[..|seen| - 1], p.value, PropsLoop(v, position, x, propertyLen));
        assert seen == seen[..|seen| - 1] + [p.value];
        if x == propertyLen {
          PrependDone(seen[..|seen| - 1], p.value, position);
          break;
        }
      }
      return Ok(()), propertyLen, properties;
    }
  }

  function MessageAt(s: Slice, pos: nat, totalLen: nat): Result<Slice, BufferError>
    requires pos <= |s|
  {
    if totalLen > |s| then Ok(s[pos..])
    else if pos > totalLen then Panic
    else Ok(s[pos..totalLen])
  }

  function Propagate<T, U>(r: Result<T, BufferError>): Result<U, BufferError>
    requires !r.Ok?
  {
    r.PropagateFailure()
  }

  lemma PushKept<T>(prior: seq<T>, seen: seq<T>, x: T, cap: nat)
    requires |prior| <= cap
    ensures |Keep(prior + seen, cap)| <= cap
    ensures Push(Keep(prior + seen, cap), x, cap) == Keep(prior + (seen + [x]), cap)
  {
    assert prior + (seen + [x]) == prior + seen + [x];
  }
}
