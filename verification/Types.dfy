/**
 The field types of MQTT packets, what they look like on the wire, and how they are read back.
 A reader is a byte string `s` (the part of the buffer it may look at) and a cursor `pos`.
 */
module Types {
  import opened Base
  import opened VarInt

  /** `&str` with a separately declared length. */
  datatype EncodedString = EncodedString(text: seq<byte>, len: u16)

  datatype BinaryData = BinaryData(bin: seq<byte>, len: u16)

  datatype StringPair = StringPair(name: EncodedString, value: EncodedString)

  datatype TopicFilter = TopicFilter(filter: EncodedString, subOptions: byte)

  const NO_STRING := EncodedString([], 0)
  const NO_BINARY := BinaryData([0], 0)

  /** The declared length is the real one. */
  predicate ExactString(e: EncodedString) {
    |e.text| == e.len && ValidUtf8(e.text)
  }

  predicate ExactBinary(b: BinaryData) {
    |b.bin| == b.len
  }

  predicate ExactPair(p: StringPair) {
    ExactString(p.name) && ExactString(p.value)
  }

  /** The declared length can be sliced off the text; the writer panics otherwise. */
  predicate StringCovered(e: EncodedString) {
    e.len <= |e.text|
  }

  predicate BinaryCovered(b: BinaryData) {
    b.len <= |b.bin|
  }

  /** `topic_name.len() as u16`: a text of 65536 bytes or more gets a truncated length. */
  function FromText(text: seq<byte>): (e: EncodedString)
    ensures StringCovered(e)
    ensures |text| < U16_MOD ==> |e.text| == e.len
  {
    EncodedString(text, |text| % U16_MOD)
  }

  function FromData(bin: seq<byte>): (b: BinaryData)
    ensures BinaryCovered(b)
    ensures |bin| < U16_MOD ==> |b.bin| == b.len
  {
    BinaryData(bin, |bin| % U16_MOD)
  }

  // `encoded_len` adds in u16.

  function StringLen(e: EncodedString): u16 {
    (e.len + 2) % U16_MOD
  }

  function BinaryLen(b: BinaryData): u16 {
    (b.len + 2) % U16_MOD
  }

  function PairLen(p: StringPair): u16 {
    (StringLen(p.name) + StringLen(p.value)) % U16_MOD
  }

  // ---------------------------------------------------------------- on the wire

  /** The first `len` bytes, as far as there are so many (the writer panics when there are not). */
  function Prefix(bs: seq<byte>, len: nat): (r: seq<byte>)
    ensures len <= |bs| ==> |r| == len
    ensures len == |bs| ==> r == bs
  {
    bs[..Min(len, |bs|)]
  }

  function StringBytes(e: EncodedString): (bs: seq<byte>)
    ensures StringCovered(e) ==> |bs| == 2 + e.len
  {
    BE16(e.len) + Prefix(e.text, e.len)
  }

  function BinaryBytes(b: BinaryData): (bs: seq<byte>)
    ensures BinaryCovered(b) ==> |bs| == 2 + b.len
  {
    BE16(b.len) + Prefix(b.bin, b.len)
  }

  function PairBytes(p: StringPair): (bs: seq<byte>)
    ensures StringCovered(p.name) && StringCovered(p.value) ==> |bs| == 4 + p.name.len + p.value.len
  {
    StringBytes(p.name) + StringBytes(p.value)
  }

  function SubscribeFilterBytes(f: TopicFilter): seq<byte> {
    StringBytes(f.filter) + [f.subOptions]
  }

  function UnsubscribeFilterBytes(f: TopicFilter): seq<byte> {
    StringBytes(f.filter)
  }

  /** The layout of one topic filter; only SUBSCRIBE carries the options. */
  function FilterBytes(sub: bool): TopicFilter -> seq<byte> {
    if sub then SubscribeFilterBytes else UnsubscribeFilterBytes
  }

  predicate FilterCovered(f: TopicFilter) {
    StringCovered(f.filter)
  }

  predicate ExactFilter(f: TopicFilter) {
    ExactString(f.filter)
  }

  // ---------------------------------------------------------------- read back

  type Read<+T> = Result<(T, nat), BufferError>

  function U8At(s: seq<byte>, pos: nat): (r: Read<byte>)
    ensures r.Ok? ==> r.value.1 == pos + 1 <= |s|
  {
    if pos >= |s| then Err(InsufficientBufferSize) else Ok((s[pos], pos + 1))
  }

  function U16At(s: seq<byte>, pos: nat): (r: Read<u16>)
    ensures r.Ok? ==> r.value.1 == pos + 2 <= |s|
  {
    if pos + 2 > |s| then Err(InsufficientBufferSize)
    else Ok(((s[pos] as int) * 0x100 + s[pos + 1], pos + 2))
  }

  function U32At(s: seq<byte>, pos: nat): (r: Read<u32>)
    ensures r.Ok? ==> r.value.1 == pos + 4 <= |s|
  {
    if pos + 4 > |s| then Err(InsufficientBufferSize)
    else
      var high, low := (s[pos] as int) * 0x100 + s[pos + 1], (s[pos + 2] as int) * 0x100 + s[pos + 3];
      Ok((high * 0x1_0000 + low, pos + 4))
  }

  function StringAt(s: seq<byte>, pos: nat): (r: Read<EncodedString>)
    ensures r.Ok? ==> r.value.1 == pos + 2 + r.value.0.len <= |s| && ExactString(r.value.0)
  {
    var (len, q) :- U16At(s, pos);
    if q + len > |s| then Err(InsufficientBufferSize)
    else if !ValidUtf8(s[q..q + len]) then Err(Utf8Error)
    else Ok((EncodedString(s[q..q + len], len), q + len))
  }

  /** Binary data as the standard reads it (section 1.5.6): the cursor ends after the data. */
  function BinaryAt(s: seq<byte>, pos: nat): (r: Read<BinaryData>)
    ensures r.Ok? ==> r.value.1 == pos + 2 + r.value.0.len <= |s| && ExactBinary(r.value.0)
  {
    var (len, q) :- U16At(s, pos);
    if q + len > |s| then Err(InsufficientBufferSize)
    else Ok((BinaryData(s[q..q + len], len), q + len))
  }

  function PairAt(s: seq<byte>, pos: nat): (r: Read<StringPair>)
    ensures r.Ok? ==> r.value.1 == pos + 4 + r.value.0.name.len + r.value.0.value.len <= |s| && ExactPair(r.value.0)
  {
    var (name, q) :- StringAt(s, pos);
    var (value, e) :- StringAt(s, q);
    Ok((StringPair(name, value), e))
  }

  // ---------------------------------------------------------------- what is written is read back

  lemma U8RoundTrip(s: seq<byte>, pos: nat, v: byte)
    requires At(s, pos, [v])
    ensures U8At(s, pos) == Ok((v, pos + 1))
  {
    assert s[pos..pos + 1][0] == s[pos];
  }

  lemma U16RoundTrip(s: seq<byte>, pos: nat, v: u16)
    requires At(s, pos, BE16(v))
    ensures U16At(s, pos) == Ok((v, pos + 2))
  {
    var piece := s[pos..pos + 2];
    assert piece[0] == s[pos] && piece[1] == s[pos + 1];
  }

  lemma BigEndian(v: u32)
    ensures v / 0x100_0000 * 0x100_0000 + v / 0x1_0000 % 0x100 * 0x1_0000 + v / 0x100 % 0x100 * 0x100 + v % 0x100 == v
  {
    var a := v / 0x100;
    var b := a / 0x100;
    assert v / 0x1_0000 == b && v / 0x100_0000 == b / 0x100;
  }

  lemma U32RoundTrip(s: seq<byte>, pos: nat, v: u32)
    requires At(s, pos, BE32(v))
    ensures U32At(s, pos) == Ok((v, pos + 4))
  {
    var piece := s[pos..pos + 4];
    assert piece[0] == s[pos] && piece[1] == s[pos + 1] && piece[2] == s[pos + 2] && piece[3] == s[pos + 3];
    BigEndian(v);
  }

  lemma StringRoundTrip(s: seq<byte>, pos: nat, e: EncodedString)
    requires ExactString(e) && At(s, pos, StringBytes(e))
    ensures StringAt(s, pos) == Ok((e, pos + |StringBytes(e)|))
  {
    AtSplit(s, pos, BE16(e.len), Prefix(e.text, e.len));
    U16RoundTrip(s, pos, e.len);
  }

  lemma BinaryRoundTrip(s: seq<byte>, pos: nat, b: BinaryData)
    requires ExactBinary(b) && At(s, pos, BinaryBytes(b))
    ensures BinaryAt(s, pos) == Ok((b, pos + |BinaryBytes(b)|))
  {
    AtSplit(s, pos, BE16(b.len), Prefix(b.bin, b.len));
    U16RoundTrip(s, pos, b.len);
  }

  lemma PairRoundTrip(s: seq<byte>, pos: nat, p: StringPair)
    requires ExactPair(p) && At(s, pos, PairBytes(p))
    ensures PairAt(s, pos) == Ok((p, pos + |PairBytes(p)|))
  {
    AtSplit(s, pos, StringBytes(p.name), StringBytes(p.value));
    StringRoundTrip(s, pos, p.name);
    StringRoundTrip(s, pos + |StringBytes(p.name)|, p.value);
  }

  /** The example of section 1.5.4, and binary data and a pair of the same kind (1.5.6, 1.5.7). */
  lemma FieldExamples(text: seq<byte>)
    requires |text| == 5
    ensures StringBytes(FromText([0x41, 0xF0, 0xAA, 0x9B, 0x94])) == [0x00, 0x05, 0x41, 0xF0, 0xAA, 0x9B, 0x94]
    ensures StringBytes(FromText(text)) == [0, 5] + text && BinaryBytes(FromData(text)) == [0, 5] + text
    ensures PairBytes(StringPair(FromText(text), FromText([]))) == [0, 5] + text + [0, 0]
    ensures FilterBytes(true)(TopicFilter(FromText(text), 2)) == [0, 5] + text + [2]
    ensures FilterBytes(false)(TopicFilter(FromText(text), 2)) == [0, 5] + text
  {
    assert text[..5] == text;
  }

  /** Which error a reader gives: one for bytes that are missing, another for text that is not well-formed. */
  lemma ReadErrors(s: seq<byte>, pos: nat)
    ensures U8At(s, pos) == (if pos < |s| then Ok((s[pos], pos + 1)) else Err(InsufficientBufferSize))
    ensures pos + 2 > |s| ==> U16At(s, pos) == Err(InsufficientBufferSize)
    ensures pos + 4 > |s| ==> U32At(s, pos) == Err(InsufficientBufferSize)
    ensures pos + 2 > |s| ==>
              StringAt(s, pos) == Err(InsufficientBufferSize) && BinaryAt(s, pos) == Err(InsufficientBufferSize)
    ensures U16At(s, pos).Ok? ==>
              var n := (s[pos] as int) * 0x100 + s[pos + 1];
              && (pos + 2 + n > |s| ==>
                    StringAt(s, pos) == Err(InsufficientBufferSize) && BinaryAt(s, pos) == Err(InsufficientBufferSize))
              && (pos + 2 + n <= |s| ==>
                    && BinaryAt(s, pos).Ok?
                    && StringAt(s, pos) == if ValidUtf8(s[pos + 2..pos + 2 + n])
                         then Ok((EncodedString(s[pos + 2..pos + 2 + n], n), pos + 2 + n)) else Err(Utf8Error))
  {
    hide ValidUtf8;
  }

  // ---------------------------------------------------------------- what is read lies there

  lemma U16Lies(s: seq<byte>, pos: nat)
    requires U16At(s, pos).Ok?
    ensures At(s, pos, BE16(U16At(s, pos).value.0))
  {
  }

  lemma U32Lies(s: seq<byte>, pos: nat)
    requires U32At(s, pos).Ok?
    ensures At(s, pos, BE32(U32At(s, pos).value.0))
  {
    var a: nat, b: nat, c: nat, d: nat := s[pos], s[pos + 1], s[pos + 2], s[pos + 3];
    FourDigits(a, b, c, d);
    assert s[pos..pos + 4] == [s[pos], s[pos + 1], s[pos + 2], s[pos + 3]];
  }

  lemma FourDigits(a: nat, b: nat, c: nat, d: nat)
    requires a < 0x100 && b < 0x100 && c < 0x100 && d < 0x100
    ensures var v := (a * 0x100 + b) * 0x1_0000 + (c * 0x100 + d);
            v / 0x100_0000 == a && v / 0x1_0000 % 0x100 == b && v / 0x100 % 0x100 == c && v % 0x100 == d
  {
    var v := (a * 0x100 + b) * 0x1_0000 + (c * 0x100 + d);
    assert v / 0x100 == (a * 0x100 + b) * 0x100 + c;
    assert v / 0x1_0000 == a * 0x100 + b;
  }

  lemma StringLies(s: seq<byte>, pos: nat)
    requires StringAt(s, pos).Ok?
    ensures At(s, pos, StringBytes(StringAt(s, pos).value.0))
  {
    hide ValidUtf8, U16At, BE16;
    U16Lies(s, pos);
    var e := StringAt(s, pos).value.0;
    AtSplit(s, pos, BE16(e.len), e.text);
  }

  lemma BinaryLies(s: seq<byte>, pos: nat)
    requires BinaryAt(s, pos).Ok?
    ensures At(s, pos, BinaryBytes(BinaryAt(s, pos).value.0))
  {
    hide U16At, BE16;
    U16Lies(s, pos);
    var b := BinaryAt(s, pos).value.0;
    AtSplit(s, pos, BE16(b.len), b.bin);
  }

  lemma PairLies(s: seq<byte>, pos: nat)
    requires PairAt(s, pos).Ok?
    ensures At(s, pos, PairBytes(PairAt(s, pos).value.0))
  {
    hide StringAt, StringBytes, ValidUtf8;
    var p := PairAt(s, pos).value.0;
    StringLies(s, pos);
    StringLies(s, StringAt(s, pos).value.1);
    AtSplit(s, pos, StringBytes(p.name), StringBytes(p.value));
  }
}
