/**
 Machine integers, results that may panic, and byte strings placed inside longer byte strings.
 */
module Base {
  type byte = x: int | 0 <= x < 0x100
  type u16 = x: int | 0 <= x < 0x1_0000
  type u32 = x: int | 0 <= x < 0x1_0000_0000

  type u64 = x: int | 0 <= x < U64_MOD
  type i64 = x: int | -0x8000_0000_0000_0000 <= x < 0x8000_0000_0000_0000

  /** A Rust slice is at most `isize::MAX` bytes long; the target has 32-bit addresses. */
  type Slice = s: seq<byte> | |s| < SLICE_LIMIT witness []

  const SLICE_LIMIT := 0x8000_0000
  const U16_MOD := 0x1_0000
  const U32_MOD := 0x1_0000_0000
  const U64_MOD := 0x1_0000_0000_0000_0000

  datatype Option<+T> = None | Some(value: T)

  /** The outcome of a Rust call: a value, a returned error, or an abort (index out of range, unwrap of None). */
  datatype Result<+T, +E> = Ok(value: T) | Err(error: E) | Panic {
    predicate IsFailure() {
      !Ok?
    }

    function PropagateFailure<U>(): Result<U, E>
      requires IsFailure()
    {
      if Err? then Err(error) else Panic
    }

    function Extract(): T
      requires Ok?
    {
      value
    }
  }

  datatype BufferError =
    | Utf8Error
    | InsufficientBufferSize
    | IdNotFound
    | EncodingError
    | DecodingError
    | PacketTypeMismatch
    | WrongPacketToDecode
    | PropertyNotFound

  function Min(a: int, b: int): int {
    if a <= b then a else b
  }

  /** Is the bit of weight `bit` (a power of two) set in `flags`? */
  predicate HasBit(flags: byte, bit: nat)
    requires bit in {1, 2, 4, 8, 16, 32, 64, 128}
  {
    (flags / bit) % 2 == 1
  }

  /** `flags | bit` for a power of two. */
  function SetBit(flags: byte, bit: nat): byte
    requires bit in {1, 2, 4, 8, 16, 32, 64, 128}
  {
    if HasBit(flags, bit) then flags else flags + bit
  }

  function BE16(v: u16): (bs: seq<byte>)
    ensures |bs| == 2
  {
    [v / 0x100, v % 0x100]
  }

  function BE32(v: u32): (bs: seq<byte>)
    ensures |bs| == 4
  {
    [v / 0x100_0000, v / 0x1_0000 % 0x100, v / 0x100 % 0x100, v % 0x100]
  }

  /** Most significant byte first (section 1.5.2 and 1.5.3). */
  lemma NetworkOrder(v: u16, w: u32)
    ensures (BE16(v)[0] as int) * 0x100 + BE16(v)[1] == v
    ensures (BE32(w)[0] as int) * 0x100_0000 + (BE32(w)[1] as int) * 0x1_0000 + (BE32(w)[2] as int) * 0x100
        + BE32(w)[3] == w
  {
    var a := w / 0x100;
    var b := a / 0x100;
    assert w / 0x1_0000 == b && w / 0x100_0000 == b / 0x100;
  }

  /** `piece` lies inside `s` at index `pos`. */
  ghost predicate At(s: seq<byte>, pos: nat, piece: seq<byte>) {
    pos + |piece| <= |s| && s[pos..pos + |piece|] == piece
  }

  lemma AtSplit(s: seq<byte>, pos: nat, a: seq<byte>, b: seq<byte>)
    ensures At(s, pos, a + b) <==> At(s, pos, a) && At(s, pos + |a|, b)
  {
    if At(s, pos, a + b) {
      var whole := s[pos..pos + |a + b|];
      assert whole[..|a|] == a && whole[|a|..] == b;
      assert s[pos..pos + |a|] == whole[..|a|];
      assert s[pos + |a|..pos + |a| + |b|] == whole[|a|..];
    }
  }

  lemma AtWhole(s: seq<byte>)
    ensures At(s, 0, s)
  {
    assert s[0..|s|] == s;
  }

  /** A vector of fixed capacity drops what does not fit (`heapless::Vec::push` with its result ignored). */
  function Push<T>(v: seq<T>, x: T, cap: nat): (r: seq<T>)
    ensures v <= r && (|v| < cap ==> |r| == |v| + 1 && r[|v|] == x) && (|v| >= cap ==> r == v)
  {
    if |v| < cap then v + [x] else v
  }

  function Keep<T>(v: seq<T>, cap: nat): (r: seq<T>)
    ensures r <= v && |r| == Min(|v|, cap)
  {
    v[..Min(|v|, cap)]
  }

  /** Well-formed UTF-8, as `core::str::from_utf8` accepts it (RFC 3629, section 4). */
  predicate ValidUtf8(s: seq<byte>) {
    if s == [] then true
    else if s[0] < 0x80 then ValidUtf8(s[1..])
    else if 0xC2 <= s[0] <= 0xDF then |s| >= 2 && Tail(s[1]) && ValidUtf8(s[2..])
    else if 0xE0 <= s[0] <= 0xEF then
      && |s| >= 3 && Tail(s[1]) && Tail(s[2])
      && (s[0] == 0xE0 ==> s[1] >= 0xA0) && (s[0] == 0xED ==> s[1] <= 0x9F)
      && ValidUtf8(s[3..])
    else if 0xF0 <= s[0] <= 0xF4 then
      && |s| >= 4 && Tail(s[1]) && Tail(s[2]) && Tail(s[3])
      && (s[0] == 0xF0 ==> s[1] >= 0x90) && (s[0] == 0xF4 ==> s[1] <= 0x8F)
      && ValidUtf8(s[4..])
    else false
  }

  predicate Tail(b: byte) {
    0x80 <= b <= 0xBF
  }

  // ---------------------------------------------------------------- what well-formed UTF-8 is

  /** A Unicode scalar value: any code point that is not a surrogate. */
  predicate Scalar(c: nat) {
    c < 0xD800 || 0xE000 <= c <= 0x10FFFF
  }

  predicate Scalars(cs: seq<nat>) {
    forall i :: 0 <= i < |cs| ==> Scalar(cs[i])
  }

  /** The encoding of one scalar value (RFC 3629, section 3). */
  function Utf8Of(c: nat): seq<byte>
    requires Scalar(c)
  {
    if c < 0x80 then [c]
    else if c < 0x800 then [0xC0 + c / 0x40, 0x80 + c % 0x40]
    else if c < 0x1_0000 then [0xE0 + c / 0x1000, 0x80 + c / 0x40 % 0x40, 0x80 + c % 0x40]
    else [0xF0 + c / 0x4_0000, 0x80 + c / 0x1000 % 0x40, 0x80 + c / 0x40 % 0x40, 0x80 + c % 0x40]
  }

  function Utf8(cs: seq<nat>): seq<byte>
    requires Scalars(cs)
  {
    if cs == [] then [] else Utf8Of(cs[0]) + Utf8(cs[1..])
  }

  lemma OneCharacter(c: nat, rest: seq<byte>)
    requires Scalar(c) && ValidUtf8(rest)
    ensures ValidUtf8(Utf8Of(c) + rest)
  {
    var bs := Utf8Of(c);
    var s := bs + rest;
    assert s[|bs|..] == rest;
    if 0x800 <= c < 0x1_0000 {
      assert c / 0x1000 == 0 ==> c / 0x40 % 0x40 >= 0x20;
      assert c / 0x1000 == 0xD ==> c / 0x40 % 0x40 < 0x20;
    } else if c >= 0x1_0000 {
      assert c / 0x4_0000 == 0 ==> c / 0x1000 % 0x40 >= 0x10;
      assert c / 0x4_0000 == 4 ==> c / 0x1000 % 0x40 < 0x10;
    }
  }

  lemma {:induction false} Utf8IsValid(cs: seq<nat>)
    requires Scalars(cs)
    ensures ValidUtf8(Utf8(cs))
  {
    if cs != [] {
      Utf8IsValid(cs[1..]);
      OneCharacter(cs[0], Utf8(cs[1..]));
    }
  }

  /** The scalar value at the front of a well-formed string. */
  lemma FirstCharacter(s: seq<byte>) returns (c: nat, n: nat)
    requires s != [] && ValidUtf8(s)
    ensures Scalar(c) && 1 <= n <= |s| && Utf8Of(c) == s[..n] && ValidUtf8(s[n..])
  {
    var a: nat := s[0];
    if a < 0x80 {
      c, n := a, 1;
    } else if a <= 0xDF {
      var b: nat := s[1];
      c, n := (a - 0xC0) * 0x40 + (b - 0x80), 2;
      assert c / 0x40 == a - 0xC0 && c % 0x40 == b - 0x80;
    } else if a <= 0xEF {
      var b: nat, d: nat := s[1], s[2];
      c, n := ThreeByteCharacter(a, b, d), 3;
    } else {
      var b: nat, d: nat, e: nat := s[1], s[2], s[3];
      c, n := FourByteCharacter(a, b, d, e), 4;
    }
  }

  function ThreeByteCharacter(a: nat, b: nat, d: nat): (c: nat)
    requires 0xE0 <= a <= 0xEF && 0x80 <= b <= 0xBF && 0x80 <= d <= 0xBF
    requires (a == 0xE0 ==> b >= 0xA0) && (a == 0xED ==> b <= 0x9F)
    ensures Scalar(c) && Utf8Of(c) == [a, b, d]
  {
    var high := (a - 0xE0) * 0x40 + (b - 0x80);
    assert high / 0x40 == a - 0xE0 && high % 0x40 == b - 0x80;
    var c := high * 0x40 + (d - 0x80);
    assert c / 0x40 == high && c % 0x40 == d - 0x80 && c / 0x1000 == high / 0x40;
    c
  }

  function FourByteCharacter(a: nat, b: nat, d: nat, e: nat): (c: nat)
    requires 0xF0 <= a <= 0xF4 && 0x80 <= b <= 0xBF && 0x80 <= d <= 0xBF && 0x80 <= e <= 0xBF
    requires (a == 0xF0 ==> b >= 0x90) && (a == 0xF4 ==> b <= 0x8F)
    ensures Scalar(c) && Utf8Of(c) == [a, b, d, e]
  {
    var top := (a - 0xF0) * 0x40 + (b - 0x80);
    assert top / 0x40 == a - 0xF0 && top % 0x40 == b - 0x80;
    var high := top * 0x40 + (d - 0x80);
    assert high / 0x40 == top && high % 0x40 == d - 0x80;
    var c := high * 0x40 + (e - 0x80);
    assert c / 0x40 == high && c % 0x40 == e - 0x80 && c / 0x1000 == top && c / 0x4_0000 == top / 0x40;
    c
  }

  lemma {:induction false} ScalarsOf(s: seq<byte>) returns (cs: seq<nat>)
    requires ValidUtf8(s)
    ensures Scalars(cs) && Utf8(cs) == s
  {
    hide ValidUtf8, Utf8Of;
    if s == [] {
      cs := [];
    } else {
      var c, n := FirstCharacter(s);
      var rest := ScalarsOf(s[n..]);
      cs := [c] + rest;
      assert cs[1..] == rest && s == s[..n] + s[n..];
    }
  }

  /** Exactly the encodings of sequences of scalar values are well-formed. */
  lemma {:induction false} Utf8Exactly(s: seq<byte>)
    ensures ValidUtf8(s) <==> exists cs :: Scalars(cs) && Utf8(cs) == s
  {
    hide ValidUtf8, Utf8;
    if cs :| Scalars(cs) && Utf8(cs) == s {
      Utf8IsValid(cs);
    }
    if ValidUtf8(s) {
      var cs := ScalarsOf(s);
    }
  }
}
