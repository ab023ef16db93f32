/**
 SUBSCRIBE and UNSUBSCRIBE (MQTT v5.0, sections 3.8 and 3.10). The two source files differ in the fixed
 header, the initial identifier and the options byte of a filter; `sub` tells which of them is meant.
 */
module Subscriptions {
  import opened Base
  import opened VarInt
  import opened Types
  import opened Lists
  import opened Properties
  import opened BuffWriters
  import opened Packets

  datatype Subscription = Subscription(
    fixedHeader: byte,
    remainLen: u32,
    packetIdentifier: u16,
    propertyLen: u32,
    properties: seq<Property>,
    topicFilterLen: u16,
    topicFilters: seq<TopicFilter>)

  function NewSubscription(sub: bool): Subscription {
    if sub then Subscription(0x82, 0, 1, 0, [], 0, []) else Subscription(0xA2, 0, 0, 0, [], 0, [])
  }

  /** The options byte: the requested quality of service, or 1 in an UNSUBSCRIBE, where it is not written. */
  function OptionsFor(sub: bool, q: QualityOfService): byte {
    if sub then QosByte(q) / 2 else 1
  }

  function FilterLen(sub: bool): TopicFilter -> nat {
    if sub then (f: TopicFilter) => f.filter.len + 3 else (f: TopicFilter) => f.filter.len + 2
  }

  /** The remaining length as `encode` adds it up, the filters in a u16. */
  function Remaining(sub: bool, p: Subscription): (n: nat)
    requires p.propertyLen <= MAX_ENCODABLE && p.topicFilterLen <= |p.topicFilters|
    ensures n < U32_MOD
  {
    VbiWidth(p.propertyLen);
    p.propertyLen + |Vbi(p.propertyLen)| + 2 + Total(FilterLen(sub), p.topicFilters[..p.topicFilterLen]) % U16_MOD
  }

  function Body(sub: bool, p: Subscription): seq<byte> {
    BE16(p.packetIdentifier) + Vbi(p.propertyLen) + PropsBytes(p.properties) + Flat(FilterBytes(sub), p.topicFilters)
  }

  function Bytes(sub: bool, p: Subscription): seq<byte>
    requires p.propertyLen <= MAX_ENCODABLE && p.topicFilterLen <= |p.topicFilters|
  {
    [p.fixedHeader] + Vbi(Remaining(sub, p)) + Body(sub, p)
  }

  /** The filter loop ends on a filter that exists. It panics on an empty list, and after a dropped push. */
  predicate Countable(p: Subscription) {
    1 <= p.topicFilterLen <= |p.topicFilters|
  }

  ghost predicate Encodable(sub: bool, p: Subscription) {
    && p.propertyLen <= MAX_ENCODABLE && Countable(p) && Remaining(sub, p) <= MAX_ENCODABLE
    && All(Writable, p.properties) && All(FilterCovered, p.topicFilters)
  }

  ghost predicate Sound(sub: bool, p: Subscription) {
    && Encodable(sub, p) && All(Exact, p.properties) && All(WellFormedFilter(sub), p.topicFilters)
    && p.propertyLen == |PropsBytes(p.properties)| && p.topicFilterLen == |p.topicFilters|
    && p.fixedHeader == if sub then 0x82 else 0xA2
  }

  predicate SubscribeFilter(f: TopicFilter) {
    ExactFilter(f)
  }

  predicate UnsubscribeFilter(f: TopicFilter) {
    ExactFilter(f) && f.subOptions == 1
  }

  function WellFormedFilter(sub: bool): TopicFilter -> bool {
    if sub then SubscribeFilter else UnsubscribeFilter
  }

  // ---------------------------------------------------------------- the standard's reader

  function SubscribeFilterAt(s: seq<byte>, pos: nat): Read<TopicFilter> {
    var (filter, q) :- StringAt(s, pos);
    var (options, q) :- U8At(s, q);
    Ok((TopicFilter(filter, options), q))
  }

  function UnsubscribeFilterAt(s: seq<byte>, pos: nat): Read<TopicFilter> {
    var (filter, q) :- StringAt(s, pos);
    Ok((TopicFilter(filter, 1), q))
  }

  function FilterAt(sub: bool): (seq<byte>, nat) -> Read<TopicFilter> {
    if sub then SubscribeFilterAt else UnsubscribeFilterAt
  }

  lemma FilterProgress(sub: bool, s: seq<byte>)
    ensures Progress(FilterAt(sub), s)
  {
  }

  datatype Request = Request(packetIdentifier: u16, properties: seq<Property>, filters: seq<TopicFilter>)

  /**
   A SUBSCRIBE or UNSUBSCRIBE as sections 3.8 and 3.10 describe it: the first byte says which (3.8.1, 3.10.1), and
   the filters go up to the end of the packet.
   */
  function StdRequestAt(sub: bool, s: seq<byte>): (r: Read<Request>) {
    var ((header, remaining), q) :- HeaderAt(s, 0);
    if header != (if sub then 0x82 else 0xA2) then Err(PacketTypeMismatch)
    else
      var end := q + remaining;
      var (identifier, q) :- U16At(s, q);
      var (properties, q) :- StdPropsAt(s, q);
      FilterProgress(sub, s);
      var filters :- ReadTo(FilterAt(sub), s, q, end);
      Ok((Request(identifier, properties, filters), end))
  }

  // ---------------------------------------------------------------- the theorems

  lemma {:induction false} FiltersLength(sub: bool, filters: seq<TopicFilter>)
    requires All(FilterCovered, filters)
    ensures |Flat(FilterBytes(sub), filters)| == Total(FilterLen(sub), filters)
  {
    if filters != [] {
      FiltersLength(sub, filters[1..]);
    }
  }

  /**
   The filter loop and the filter writer agree on the remaining length as long as the sum fits in a u16, and only
   then.
   */
  lemma RemainingExactly(sub: bool, p: Subscription)
    requires Encodable(sub, p) && p.propertyLen == |PropsBytes(p.properties)| && p.topicFilterLen == |p.topicFilters|
    ensures Remaining(sub, p) == |Body(sub, p)| <==> |Flat(FilterBytes(sub), p.topicFilters)| < U16_MOD
    ensures Remaining(sub, p) == |Body(sub, p)| ==> Bytes(sub, p) == Frame(p.fixedHeader, Body(sub, p))
  {
    hide Vbi, PropsBytes, Writable, FilterCovered;
    assert p.topicFilters[..p.topicFilterLen] == p.topicFilters;
    FiltersLength(sub, p.topicFilters);
  }

  lemma FilterInverts(sub: bool, s: seq<byte>)
    ensures Inverts(FilterAt(sub), FilterBytes(sub), WellFormedFilter(sub), s)
  {
    hide StringBytes, StringAt, U8At, ExactString;
    forall pos: nat, f: TopicFilter | WellFormedFilter(sub)(f) && At(s, pos, FilterBytes(sub)(f))
      ensures FilterAt(sub)(s, pos) == Ok((f, pos + |FilterBytes(sub)(f)|))
    {
      if sub {
        AtSplit(s, pos, StringBytes(f.filter), [f.subOptions]);
        U8RoundTrip(s, pos + |StringBytes(f.filter)|, f.subOptions);
      }
      StringRoundTrip(s, pos, f.filter);
    }
  }

  /** A reader that follows the standard recovers the identifier, every property and every filter, in order. */
  lemma ReadByStandard(sub: bool, s: seq<byte>, p: Subscription)
    requires Sound(sub, p) && |Flat(FilterBytes(sub), p.topicFilters)| < U16_MOD
    requires At(s, 0, Bytes(sub, p))
    ensures StdRequestAt(sub, s) == Ok((Request(p.packetIdentifier, p.properties, p.topicFilters), |Bytes(sub, p)|))
  {
    hide Vbi, VbiAt, PropsBytes, StdPropsAt, Exact, U16At, HeaderAt, BE16, FilterAt, FilterBytes, WellFormedFilter,
         FilterLen, Total;
    RemainingExactly(sub, p);
    FrameHasItsLength(s, p.fixedHeader, Body(sub, p));
    var q := 1 + |Vbi(|Body(sub, p)|)|;
    var a, b, c, d := BE16(p.packetIdentifier), Vbi(p.propertyLen), PropsBytes(p.properties),
        Flat(FilterBytes(sub), p.topicFilters);
    AtSplit(s, q, a + b + c, d);
    AtSplit(s, q, a + b, c);
    AtSplit(s, q, a, b);
    U16RoundTrip(s, q, p.packetIdentifier);
    StdPropsRoundTrip(s, q + 2, p.properties);
    FilterProgress(sub, s);
    FilterInverts(sub, s);
    var start := q + 2 + |b| + |c|;
    WrittenIsLaid(FilterAt(sub), FilterBytes(sub), WellFormedFilter(sub), s, start, p.topicFilters);
    ReadToFindsLaid(FilterAt(sub), s, start, p.topicFilters, start + |d|);
  }

  // ---------------------------------------------------------------- the code

  class SubscriptionPacket {
    const sub: bool
    const maxFilters: nat
    const maxProperties: nat
    var fixedHeader: byte
    var remainLen: u32
    var packetIdentifier: u16
    var propertyLen: u32
    var properties: seq<Property>
    var topicFilterLen: u16
    var topicFilters: seq<TopicFilter>

    ghost function Value(): Subscription
      reads this
    {
      Subscription(fixedHeader, remainLen, packetIdentifier, propertyLen, properties, topicFilterLen, topicFilters)
    }

    constructor (sub: bool, maxFilters: nat, maxProperties: nat)
      ensures Value() == NewSubscription(sub)
      ensures this.sub == sub && this.maxFilters == maxFilters && this.maxProperties == maxProperties
    {
      this.sub, this.maxFilters, this.maxProperties := sub, maxFilters, maxProperties;
      fixedHeader, remainLen, packetIdentifier := if sub then 0x82 else 0xA2, 0, if sub then 1 else 0;
      propertyLen, properties, topicFilterLen, topicFilters := 0, [], 0, [];
    }

    /** The filter is dropped when the vector is full; it is counted all the same. */
    method AddNewFilter(topic: seq<byte>, q: QualityOfService)
      modifies this
      ensures Value() == WithFilter(sub, maxFilters, old(Value()), topic, q)
    {
      var filter := TopicFilter(EncodedString(topic, |topic| % U16_MOD), OptionsFor(sub, q));
      topicFilters := Push(topicFilters, filter, maxFilters);
      topicFilterLen := (topicFilterLen + 1) % U16_MOD;
    }

    /** The loop over `lt`: the lengths of the first `topicFilterLen` filters, in a u16. */
    method FiltersLen() returns (r: Result<u16, BufferError>)
      ensures !Countable(Value()) ==> r == Panic
      ensures Countable(Value()) ==> r == Ok(Total(FilterLen(sub), topicFilters[..topicFilterLen]) % U16_MOD)
    {
      var lt := 0;
      var filtersLen: u16 := 0;
      while true
        invariant 0 <= lt <= |topicFilters|
        invariant topicFilterLen == 0 || lt < topicFilterLen
        invariant filtersLen == Total(FilterLen(sub), topicFilters[..lt]) % U16_MOD
        decreases |topicFilters| - lt
      {
        if lt >= |topicFilters| {
          return Panic;
        }
        var extra := if sub then 3 else 2;
        assert topicFilters[..lt + 1] == topicFilters[..lt] + [topicFilters[lt]];
        TotalSnoc(FilterLen(sub), topicFilters[..lt], topicFilters[lt]);
        AddMod16(Total(FilterLen(sub), topicFilters[..lt]), topicFilters[lt].filter.len + extra);
        filtersLen := (filtersLen + topicFilters[lt].filter.len + extra) % U16_MOD;
        lt := lt + 1;
        if lt == topicFilterLen {
          break;
        }
      }
      return Ok(filtersLen);
    }

    method WriteBody(writer: BuffWriter) returns (r: Result<(), BufferError>)
      requires writer.Valid() && propertyLen <= MAX_ENCODABLE
      modifies writer, writer.buffer
      ensures All(Writable, properties) && All(FilterCovered, topicFilters) ==> writer.Appended(Body(sub, Value()), r)
      ensures !(All(Writable, properties) && All(FilterCovered, topicFilters)) ==> writer.Valid() && !r.Ok?
    {
      hide Vbi, PropsBytes, BE16, Writable, FilterCovered, FilterBytes;
      var _ :- writer.WriteU16(packetIdentifier);
      var _ :- writer.WriteVariableByteInt(propertyLen);
      var _ :- writer.WriteProperties(properties);
      r := writer.WriteTopicFiltersRef(sub, topicFilters);
    }

    /** The sums in front of the first write. */
    method RemainingLen() returns (r: Result<nat, BufferError>)
      ensures propertyLen > MAX_ENCODABLE ==> r == Err(EncodingError)
      ensures propertyLen <= MAX_ENCODABLE && !Countable(Value()) ==> r == Panic
      ensures propertyLen <= MAX_ENCODABLE && Countable(Value()) ==> r == Ok(Remaining(sub, Value()))
    {
      hide Vbi, FilterLen, Total;
      var propertyLenEnc :- VarInt.Encode(propertyLen);
      PaddedLen(propertyLen);
      var propertyLenLen := VarInt.Len(propertyLenEnc);
      var filtersLen :- FiltersLen();
      return Ok(propertyLen + propertyLenLen.value + 2 + filtersLen);
    }

    method Encode(buffer: array<byte>, bufferLen: nat) returns (r: Result<nat, BufferError>)
      requires bufferLen <= buffer.Length
      modifies buffer
      ensures r.Ok? <==> Encodable(sub, Value()) && |Bytes(sub, Value())| <= bufferLen
      ensures r.Ok? ==> r.value == |Bytes(sub, Value())| && buffer[..r.value] == Bytes(sub, Value())
      ensures Encodable(sub, Value()) && !r.Ok? ==> r == Err(InsufficientBufferSize)
      ensures propertyLen <= MAX_ENCODABLE && !Countable(Value()) ==> r == Panic
      ensures r.Panic? ==> !Countable(Value()) || !All(Writable, properties) || !All(FilterCovered, topicFilters)
    {
      hide Vbi, Body, Writable, FilterCovered, Remaining;
      var writer := new BuffWriter(buffer, bufferLen);
      var remaining :- RemainingLen();
      var _ :- writer.WriteU8(fixedHeader);
      var _ :- writer.WriteVariableByteInt(remaining);
      var _ :- WriteBody(writer);
      return Ok(writer.position);
    }
  }

  function WithFilter(sub: bool, cap: nat, p: Subscription, topic: seq<byte>, q: QualityOfService): Subscription {
    p.(topicFilters := Push(p.topicFilters, TopicFilter(FromText(topic), OptionsFor(sub, q)), cap),
       topicFilterLen := (p.topicFilterLen + 1) % U16_MOD)
  }

  lemma AddMod16(a: nat, b: nat)
    ensures (a % U16_MOD + b) % U16_MOD == (a + b) % U16_MOD
  {
  }

  // ---------------------------------------------------------------- what the client sends

  function FilterFor(sub: bool, topic: seq<byte>, q: QualityOfService): TopicFilter {
    TopicFilter(FromText(topic), OptionsFor(sub, q))
  }

  function FiltersFor(sub: bool, topics: seq<seq<byte>>, q: QualityOfService): seq<TopicFilter> {
    seq(|topics|, i requires 0 <= i < |topics| => FilterFor(sub, topics[i], q))
  }

  /** The packet for a list of topics, built by one `add_new_filter` per topic. */
  function For(sub: bool, identifier: u16, topics: seq<seq<byte>>, q: QualityOfService): Subscription {
    NewSubscription(sub).(
      packetIdentifier := identifier,
      topicFilterLen := |topics| % U16_MOD,
      topicFilters := FiltersFor(sub, topics, q))
  }

  /** Topics are `&str`, well-formed UTF-8. */
  ghost predicate Utf8Topics(topics: seq<seq<byte>>) {
    forall i :: 0 <= i < |topics| ==> ValidUtf8(topics[i])
  }

  /** The bytes the filters would take if no length were cut to 16 bits. */
  function TopicsLength(sub: bool, topics: seq<seq<byte>>): nat {
    if topics == [] then 0 else |topics[0]| + (if sub then 3 else 2) + TopicsLength(sub, topics[1..])
  }

  lemma {:induction false} TopicsLengthAt(sub: bool, topics: seq<seq<byte>>, i: nat)
    requires i < |topics|
    ensures |topics[i]| < TopicsLength(sub, topics)
  {
    if i > 0 {
      TopicsLengthAt(sub, topics[1..], i - 1);
    }
  }

  /** What the filters do take, which is no more, and less exactly if a topic is cut. */
  lemma {:induction false} FiltersForLength(sub: bool, topics: seq<seq<byte>>, q: QualityOfService)
    ensures Total(FilterLen(sub), FiltersFor(sub, topics, q)) <= TopicsLength(sub, topics)
    ensures (forall i :: 0 <= i < |topics| ==> |topics[i]| < U16_MOD) ==>
              Total(FilterLen(sub), FiltersFor(sub, topics, q)) == TopicsLength(sub, topics)
  {
    if topics != [] {
      FiltersForLength(sub, topics[1..], q);
      assert FiltersFor(sub, topics, q)[1..] == FiltersFor(sub, topics[1..], q);
    }
  }

  lemma {:induction false} AllByIndex(good: TopicFilter -> bool, filters: seq<TopicFilter>)
    requires forall i :: 0 <= i < |filters| ==> good(filters[i])
    ensures All(good, filters)
  {
    if filters != [] {
      AllByIndex(good, filters[1..]);
    }
  }

  lemma FiltersCovered(sub: bool, topics: seq<seq<byte>>, q: QualityOfService)
    ensures All(FilterCovered, FiltersFor(sub, topics, q))
  {
    var filters := FiltersFor(sub, topics, q);
    forall i | 0 <= i < |filters| ensures FilterCovered(filters[i]) {
      assert filters[i] == FilterFor(sub, topics[i], q);
    }
    AllByIndex(FilterCovered, filters);
  }

  /** One more topic of a list has been added. */
  lemma AddedOne(sub: bool, cap: nat, identifier: u16, topics: seq<seq<byte>>, i: nat, q: QualityOfService)
    requires i < |topics| <= cap
    ensures WithFilter(sub, cap, For(sub, identifier, topics[..i], q), topics[i], q)
        == For(sub, identifier, topics[..i + 1], q)
  {
    assert FiltersFor(sub, topics[..i + 1], q) == FiltersFor(sub, topics[..i], q) + [FilterFor(sub, topics[i], q)];
  }

  /**
   The request for one short topic, byte by byte: 0x82 subscribes, with the requested level behind the filter, and
   0xA2 unsubscribes, with nothing behind it.
   */
  lemma OneTopicBytes(sub: bool, identifier: u16, topic: seq<byte>, q: QualityOfService)
    requires |topic| < 100
    ensures Bytes(sub, For(sub, identifier, [topic], q)) ==
      if sub then [0x82, |topic| + 6] + BE16(identifier) + [0] + [0, |topic|] + topic + [QosLevel(q)]
      else [0xA2, |topic| + 5] + BE16(identifier) + [0] + [0, |topic|] + topic
  {
    hide BE16, Vbi;
    var p := For(sub, identifier, [topic], q);
    var f := FilterFor(sub, topic, q);
    assert p.topicFilters == [f] && p.topicFilters[..1] == [f] && [f][1..] == [];
    assert Total(FilterLen(sub), [f]) == FilterLen(sub)(f) + Total(FilterLen(sub), []);
    assert Flat(FilterBytes(sub), [f]) == FilterBytes(sub)(f) + Flat(FilterBytes(sub), []);
    assert BE16(|topic|) == [0, |topic|] by { ShortLength(|topic|); }
    OneByteLength(0);
    OneByteLength(|topic| + 5);
    OneByteLength(|topic| + 6);
    QosIsLevel(q);
    assert PropsBytes([]) == [];
    assert f.filter.text[..|topic|] == topic;
  }

  lemma ShortLength(n: nat)
    requires n < 100
    ensures BE16(n) == [0, n]
  {
  }

  lemma OneByteLength(n: nat)
    requires n < 128
    ensures Vbi(n) == [n]
  {
  }

  /** Whatever the topics are, the first byte tells a server which request it is. */
  lemma FirstByte(sub: bool, identifier: u16, topics: seq<seq<byte>>, q: QualityOfService)
    requires Encodable(sub, For(sub, identifier, topics, q))
    ensures Bytes(sub, For(sub, identifier, topics, q))[0] == 0x82 <==> sub
    ensures Bytes(sub, For(sub, identifier, topics, q))[0] == 0xA2 <==> !sub
    ensures sub ==> forall i :: 0 <= i < |topics| ==> FiltersFor(sub, topics, q)[i].subOptions == QosLevel(q)
  {
    hide Vbi, Body, Remaining;
    QosIsLevel(q);
  }

  /** Encoding the client's request panics exactly for no topic at all (or for a multiple of 65536). */
  lemma EmptyRequestPanics(sub: bool, identifier: u16, topics: seq<seq<byte>>, q: QualityOfService)
    ensures !Countable(For(sub, identifier, topics, q)) <==> |topics| % U16_MOD == 0
  {
  }

  lemma ShortTopicsAreSound(sub: bool, identifier: u16, topics: seq<seq<byte>>, q: QualityOfService)
    requires Utf8Topics(topics) && topics != [] && TopicsLength(sub, topics) < U16_MOD
    ensures Sound(sub, For(sub, identifier, topics, q))
    ensures |Flat(FilterBytes(sub), FiltersFor(sub, topics, q))| < U16_MOD
  {
    hide FilterBytes, FilterLen, Total, TopicsLength, Vbi;
    var p := For(sub, identifier, topics, q);
    forall i | 0 <= i < |topics| ensures |topics[i]| < U16_MOD {
      TopicsLengthAt(sub, topics, i);
    }
    forall i | 0 <= i < |topics| ensures WellFormedFilter(sub)(p.topicFilters[i]) {
    }
    AllByIndex(WellFormedFilter(sub), p.topicFilters);
    FiltersCovered(sub, topics, q);
    FiltersLength(sub, p.topicFilters);
    FiltersForLength(sub, topics, q);
    AtLeastAsMany(sub, topics);
    assert Vbi(0) == [0] by { VbiOfZero(); }
    assert p.topicFilters[..p.topicFilterLen] == p.topicFilters;
  }

  lemma VbiOfZero()
    ensures Vbi(0) == [0]
  {
  }

  lemma {:induction false} AtLeastAsMany(sub: bool, topics: seq<seq<byte>>)
    ensures 2 * |topics| <= TopicsLength(sub, topics)
  {
    if topics != [] {
      AtLeastAsMany(sub, topics[1..]);
    }
  }

  /**
   From the caller's topics to the server: a standard server reads from the client's request exactly its identifier
   and its topics if and only if the filters take fewer than 65536 bytes.
   */
  lemma RequestReadExactly(
    sub: bool, s: seq<byte>, identifier: u16, topics: seq<seq<byte>>, q: QualityOfService
  )
    requires Utf8Topics(topics) && Encodable(sub, For(sub, identifier, topics, q))
    requires At(s, 0, Bytes(sub, For(sub, identifier, topics, q)))
    ensures StdRequestAt(sub, s)
              == Ok((Request(identifier, [], FiltersFor(sub, topics, q)),
                  |Bytes(sub, For(sub, identifier, topics, q))|))
            <==> TopicsLength(sub, topics) < U16_MOD
  {
    hide StdRequestAt, FilterBytes, FilterLen, Total, TopicsLength, Bytes, Remaining;
    var p := For(sub, identifier, topics, q);
    assert Vbi(0) == [0] by { VbiOfZero(); }
    if TopicsLength(sub, topics) < U16_MOD {
      ShortTopicsAreSound(sub, identifier, topics, q);
      ReadByStandard(sub, s, p);
    } else if StdRequestAt(sub, s) == Ok((Request(identifier, [], p.topicFilters), |Bytes(sub, p)|)) {
      RequestIsExact(sub, s);
      forall i | 0 <= i < |topics| ensures |topics[i]| < U16_MOD {
        AllAt(ExactFilter, p.topicFilters, i);
        assert p.topicFilters[i] == FilterFor(sub, topics[i], q);
      }
      FiltersForLength(sub, topics, q);
      EndIsMeasured(sub, s, p);
      assert false;
    }
  }

  /** Every filter that was read is as long as it says. */
  lemma RequestIsExact(sub: bool, s: seq<byte>)
    requires StdRequestAt(sub, s).Ok?
    ensures All(ExactFilter, StdRequestAt(sub, s).value.0.filters)
  {
    hide StdPropsAt, HeaderAt, U16At, FilterAt;
    var ((header, remaining), q0) := HeaderAt(s, 0).value;
    var end := q0 + remaining;
    var (_, q1) := U16At(s, q0).value;
    var (_, q2) := StdPropsAt(s, q1).value;
    FilterProgress(sub, s);
    FiltersReadExact(sub, s, q2, end);
  }

  lemma {:induction false} FiltersReadExact(sub: bool, s: seq<byte>, pos: nat, end: nat)
    requires Progress(FilterAt(sub), s) && ReadTo(FilterAt(sub), s, pos, end).Ok?
    ensures All(ExactFilter, ReadTo(FilterAt(sub), s, pos, end).value)
    decreases |s| - pos
  {
    if pos < end {
      OneFilterExact(sub, s, pos);
      var (f, q) := FilterAt(sub)(s, pos).value;
      FiltersReadExact(sub, s, q, end);
      var fs := ReadTo(FilterAt(sub), s, pos, end).value;
      assert fs == [f] + ReadTo(FilterAt(sub), s, q, end).value;
      assert fs[1..] == ReadTo(FilterAt(sub), s, q, end).value;
    }
  }

  lemma OneFilterExact(sub: bool, s: seq<byte>, pos: nat)
    ensures FilterAt(sub)(s, pos).Ok? ==> ExactFilter(FilterAt(sub)(s, pos).value.0)
  {
    hide StringAt, U8At;
    if FilterAt(sub)(s, pos).Ok? {
      if sub {
        assert SubscribeFilterAt(s, pos).Ok?;
      } else {
        assert UnsubscribeFilterAt(s, pos).Ok?;
      }
    }
  }

  /** A packet that a standard reader finds to end where its bytes end has filters that fit in 16 bits. */
  lemma EndIsMeasured(sub: bool, s: seq<byte>, p: Subscription)
    requires Encodable(sub, p) && At(s, 0, Bytes(sub, p))
    requires StdRequestAt(sub, s).Ok? && StdRequestAt(sub, s).value.1 == |Bytes(sub, p)|
    requires p.propertyLen == |PropsBytes(p.properties)|
    ensures Total(FilterLen(sub), p.topicFilters) < U16_MOD
  {
    hide Vbi, VbiAt, PropsBytes, StdPropsAt, U16At, FilterLen, FilterBytes, Total, Writable, FilterCovered, FilterAt;
    var n := Remaining(sub, p);
    AtSplit(s, 0, [p.fixedHeader] + Vbi(n), Body(sub, p));
    AtSplit(s, 0, [p.fixedHeader], Vbi(n));
    U8RoundTrip(s, 0, p.fixedHeader);
    VbiAtRoundTrip(s, 1, n);
    assert n == |Body(sub, p)|;
    FiltersLength(sub, p.topicFilters);
  }
}
