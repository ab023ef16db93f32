/**
 Reading items one after the other, for any item reader. Everything here is independent of what an
 item is; a reader takes a byte string and a cursor and yields an item and the next cursor.
 */
module Lists {
  import opened Base
  import opened Types

  /** A reader that yields an item has moved forward and stayed inside the string. */
  ghost predicate Progress<T(!new)>(parse: (seq<byte>, nat) -> Read<T>, s: seq<byte>) {
    forall pos: nat :: parse(s, pos).Ok? ==> pos < parse(s, pos).value.1 <= |s|
  }

  /** What `encode` writes for a good item, `parse` reads, wherever it lies in `s`. */
  ghost predicate Inverts<T(!new)>(
    parse: (seq<byte>, nat) -> Read<T>, encode: T -> seq<byte>, good: T -> bool, s: seq<byte>
  ) {
    forall pos: nat, item: T {:trigger At(s, pos, encode(item))} ::
      good(item) && At(s, pos, encode(item)) ==> parse(s, pos) == Ok((item, pos + |encode(item)|))
  }

  ghost predicate All<T>(good: T -> bool, items: seq<T>) {
    items == [] || (good(items[0]) && All(good, items[1..]))
  }

  function Flat<T>(encode: T -> seq<byte>, items: seq<T>): seq<byte> {
    if items == [] then [] else encode(items[0]) + Flat(encode, items[1..])
  }

  function Total<T>(weight: T -> nat, items: seq<T>): nat {
    if items == [] then 0 else weight(items[0]) + Total(weight, items[1..])
  }

  /** `parse`, repeated from `pos`, yields exactly `items` and stops at `end`. */
  ghost predicate Laid<T>(parse: (seq<byte>, nat) -> Read<T>, s: seq<byte>, pos: nat, items: seq<T>, end: nat)
    decreases |items|
  {
    if items == [] then pos == end
    else
      && parse(s, pos).Ok? && parse(s, pos).value.0 == items[0]
      && Laid(parse, s, parse(s, pos).value.1, items[1..], end)
  }

  /**
   Items are read until the sizes they report, plus one each, accumulated in a u32, hit `target`
   exactly; there is no other way out than an error of the reader.
   */
  function SumLoop<T(!new)>(
    parse: (seq<byte>, nat) -> Read<T>, size: T -> nat, s: seq<byte>, pos: nat, x: u32, target: u32
  ): (r: Read<seq<T>>)
    requires Progress(parse, s)
    ensures r.Ok? ==> pos < r.value.1 <= |s| && |r.value.0| >= 1
    decreases |s| - pos
  {
    match parse(s, pos)
    case Err(e) => Err(e)
    case Panic => Panic
    case Ok(read) =>
      var x' := (x + size(read.0) + 1) % U32_MOD;
      if x' == target then Ok(([read.0], read.1))
      else Prepend([read.0], SumLoop(parse, size, s, read.1, x', target))
  }

  function Prepend<T>(seen: seq<T>, r: Read<seq<T>>): Read<seq<T>> {
    if r.Ok? then Ok((seen + r.value.0, r.value.1)) else r
  }

  lemma PrependNothing<T>(r: Read<seq<T>>)
    ensures Prepend([], r) == r
  {
    if r.Ok? {
      assert [] + r.value.0 == r.value.0;
    }
  }

  lemma PrependMore<T>(seen: seq<T>, item: T, r: Read<seq<T>>)
    ensures Prepend(seen + [item], r) == Prepend(seen, Prepend([item], r))
  {
    if r.Ok? {
      assert seen + [item] + r.value.0 == seen + ([item] + r.value.0);
    }
  }

  lemma PrependFailure<T>(seen: seq<T>, r: Read<seq<T>>)
    requires !r.Ok?
    ensures Prepend(seen, r) == r
  {
  }

  lemma PrependDone<T>(seen: seq<T>, item: T, pos: nat)
    ensures Prepend(seen, Ok(([item], pos))) == Ok((seen + [item], pos))
  {
  }

  /** Items are read until the cursor is at `end`; passing it is an error. */
  function ReadTo<T(!new)>(
    parse: (seq<byte>, nat) -> Read<T>, s: seq<byte>, pos: nat, end: nat
  ): (r: Result<seq<T>, BufferError>)
    requires Progress(parse, s)
    decreases |s| - pos
  {
    if pos == end then Ok([])
    else if pos > end then Err(DecodingError)
    else match parse(s, pos)
      case Err(e) => Err(e)
      case Panic => Panic
      case Ok(read) => match ReadTo(parse, s, read.1, end)
        case Ok(more) => Ok([read.0] + more)
        case Err(e) => Err(e)
        case Panic => Panic
  }

  // ---------------------------------------------------------------- lemmas

  lemma {:induction false} FlatSnoc<T>(encode: T -> seq<byte>, items: seq<T>, item: T)
    ensures Flat(encode, items + [item]) == Flat(encode, items) + encode(item)
  {
    if items == [] {
      assert Flat(encode, [item]) == encode(item) + [];
    } else {
      FlatSnoc(encode, items[1..], item);
      assert (items + [item])[1..] == items[1..] + [item];
      assert Flat(encode, items + [item]) == encode(items[0]) + (Flat(encode, items[1..]) + encode(item));
    }
  }

  lemma {:induction false} TotalSnoc<T>(weight: T -> nat, items: seq<T>, item: T)
    ensures Total(weight, items + [item]) == Total(weight, items) + weight(item)
  {
    if items == [] {
      assert Total(weight, [item][1..]) == 0;
    } else {
      TotalSnoc(weight, items[1..], item);
      assert (items + [item])[1..] == items[1..] + [item];
    }
  }

  lemma {:induction false} AllAt<T>(good: T -> bool, items: seq<T>, i: nat)
    requires All(good, items) && i < |items|
    ensures good(items[i])
  {
    if i > 0 {
      AllAt(good, items[1..], i - 1);
    }
  }

  lemma {:induction false} AllSnoc<T>(good: T -> bool, items: seq<T>, item: T)
    ensures All(good, items + [item]) <==> All(good, items) && good(item)
  {
    if items == [] {
      assert [item][1..] == [];
    } else {
      AllSnoc(good, items[1..], item);
      assert (items + [item])[1..] == items[1..] + [item];
    }
  }

  lemma {:induction false} FlatAppend<T>(encode: T -> seq<byte>, a: seq<T>, b: seq<T>)
    ensures Flat(encode, a + b) == Flat(encode, a) + Flat(encode, b)
  {
    if a == [] {
      assert [] + b == b;
    } else {
      FlatAppend(encode, a[1..], b);
      assert (a + b)[1..] == a[1..] + b;
      assert Flat(encode, a + b) == encode(a[0]) + (Flat(encode, a[1..]) + Flat(encode, b));
    }
  }

  lemma {:induction false} AllPrefix<T>(good: T -> bool, items: seq<T>, n: nat)
    requires n <= |items| && All(good, items)
    ensures All(good, items[..n])
  {
    if n > 0 {
      AllPrefix(good, items[1..], n - 1);
      assert items[..n][1..] == items[1..][..n - 1];
    }
  }

  /** One more item of a list has been written. */
  lemma WriteNext<T>(encode: T -> seq<byte>, good: T -> bool, items: seq<T>, i: nat)
    requires i < |items|
    ensures All(good, items[..i + 1]) <==> All(good, items[..i]) && good(items[i])
    ensures All(good, items) ==> good(items[i])
    ensures Flat(encode, items[..i + 1]) == Flat(encode, items[..i]) + encode(items[i])
    ensures |Flat(encode, items[..i + 1])| <= |Flat(encode, items)|
  {
    assert items[..i + 1] == items[..i] + [items[i]];
    AllSnoc(good, items[..i], items[i]);
    FlatSnoc(encode, items[..i], items[i]);
    FlatAppend(encode, items[..i + 1], items[i + 1..]);
    assert items == items[..i + 1] + items[i + 1..];
    if All(good, items) {
      AllAt(good, items, i);
    }
  }

  /** Items written one after the other are laid out for the reader. */
  lemma {:induction false} WrittenIsLaid<T(!new)>(
    parse: (seq<byte>, nat) -> Read<T>, encode: T -> seq<byte>, good: T -> bool, s: seq<byte>, pos: nat, items: seq<T>
  )
    requires Inverts(parse, encode, good, s)
    requires All(good, items) && At(s, pos, Flat(encode, items))
    ensures Laid(parse, s, pos, items, pos + |Flat(encode, items)|)
    decreases |items|
  {
    if items != [] {
      AtSplit(s, pos, encode(items[0]), Flat(encode, items[1..]));
      WrittenIsLaid(parse, encode, good, s, pos + |encode(items[0])|, items[1..]);
    }
  }

  lemma {:induction false} LaidGoesForward<T(!new)>(
    parse: (seq<byte>, nat) -> Read<T>, s: seq<byte>, pos: nat, items: seq<T>, end: nat
  )
    requires Progress(parse, s) && Laid(parse, s, pos, items, end)
    ensures items != [] ==> pos < end <= |s|
    decreases |items|
  {
    if items != [] {
      LaidGoesForward(parse, s, parse(s, pos).value.1, items[1..], end);
    }
  }

  lemma {:induction false} ReadToFindsLaid<T(!new)>(
    parse: (seq<byte>, nat) -> Read<T>, s: seq<byte>, pos: nat, items: seq<T>, end: nat
  )
    requires Progress(parse, s) && Laid(parse, s, pos, items, end)
    ensures ReadTo(parse, s, pos, end) == Ok(items)
    decreases |items|
  {
    if items != [] {
      LaidGoesForward(parse, s, pos, items, end);
      ReadToFindsLaid(parse, s, parse(s, pos).value.1, items[1..], end);
      assert items == [items[0]] + items[1..];
    }
  }

  lemma SumLoopStep<T(!new)>(
    parse: (seq<byte>, nat) -> Read<T>, size: T -> nat, s: seq<byte>, pos: nat, x: u32, target: u32
  )
    requires Progress(parse, s) && parse(s, pos).Ok?
    requires x + size(parse(s, pos).value.0) + 1 < U32_MOD
    ensures var (item, q) := parse(s, pos).value;
            var x' := x + size(item) + 1;
            SumLoop(parse, size, s, pos, x, target)
            == if x' == target then Ok(([item], q)) else Prepend([item], SumLoop(parse, size, s, q, x', target))
  {
  }

  /** The accumulating loop reads laid-out items back when the announced total is theirs. */
  lemma {:induction false} SumLoopFindsLaid<T(!new)>(
    parse: (seq<byte>, nat) -> Read<T>, size: T -> nat, s: seq<byte>, pos: nat, x: u32, items: seq<T>, end: nat
  )
    requires Progress(parse, s) && Laid(parse, s, pos, items, end) && items != []
    requires x + Total(size, items) + |items| < U32_MOD
    ensures SumLoop(parse, size, s, pos, x, x + Total(size, items) + |items|) == Ok((items, end))
    decreases |items|
  {
    var (item, q) := parse(s, pos).value;
    var more := items[1..];
    var x' := x + size(item) + 1;
    assert items == [item] + more;
    assert Laid(parse, s, q, more, end);
    var target := x' + Total(size, more) + |more|;
    assert target == x + Total(size, items) + |items|;
    SumLoopStep(parse, size, s, pos, x, target);
    hide SumLoop;
    if more == [] {
      assert target == x' && q == end && items == [item];
    } else {
      SumLoopFindsLaid(parse, size, s, q, x', more, end);
      assert Prepend([item], Ok((more, end))) == Ok((items, end));
    }
  }

  /** What the loop returns lies there item by item. */
  lemma {:induction false} SumLoopIsLaid<T(!new)>(
    parse: (seq<byte>, nat) -> Read<T>, size: T -> nat, s: seq<byte>, pos: nat, x: u32, target: u32
  )
    requires Progress(parse, s) && SumLoop(parse, size, s, pos, x, target).Ok?
    ensures var (items, end) := SumLoop(parse, size, s, pos, x, target).value;
            Laid(parse, s, pos, items, end)
    decreases |s| - pos
  {
    var (item, q) := parse(s, pos).value;
    var x' := (x + size(item) + 1) % U32_MOD;
    var items := SumLoop(parse, size, s, pos, x, target).value.0;
    if x' == target {
      assert items == [item] && items[1..] == [];
    } else {
      SumLoopIsLaid(parse, size, s, q, x', target);
      assert items == [item] + SumLoop(parse, size, s, q, x', target).value.0;
      assert items[1..] == SumLoop(parse, size, s, q, x', target).value.0;
    }
  }

  /** The loop does not read past items whose sizes already add up to the target. */
  lemma {:induction false} SumLoopStops<T(!new)>(
    parse: (seq<byte>, nat) -> Read<T>, size: T -> nat, s: seq<byte>, pos: nat, x: u32, items: seq<T>
  )
    requires Progress(parse, s) && items != [] && x + Total(size, items) + |items| < U32_MOD
    requires SumLoop(parse, size, s, pos, x, x + Total(size, items) + |items|).Ok?
    requires items <= SumLoop(parse, size, s, pos, x, x + Total(size, items) + |items|).value.0
    ensures SumLoop(parse, size, s, pos, x, x + Total(size, items) + |items|).value.0 == items
    decreases |items|
  {
    var (item, q) := parse(s, pos).value;
    var target := x + Total(size, items) + |items|;
    var got := SumLoop(parse, size, s, pos, x, target).value.0;
    assert got[0] == item == items[0];
    var x' := x + size(item) + 1;
    SumLoopStep(parse, size, s, pos, x, target);
    if x' != target {
      var more := SumLoop(parse, size, s, q, x', target).value.0;
      assert got[1..] == more && items[1..] <= more;
      SumLoopStops(parse, size, s, q, x', items[1..]);
      assert items == [item] + items[1..];
    }
  }

  lemma Scaled(step: nat, a: nat, b: nat, c: nat)
    requires a <= b <= c
    ensures step * a + step * (b - a) == step * b <= step * c
  {
  }

  /** The same loop with an accumulator that cannot wrap. */
  function CountLoop<T(!new)>(
    parse: (seq<byte>, nat) -> Read<T>, size: T -> nat, s: seq<byte>, pos: nat, x: nat, target: nat
  ): (r: Read<seq<T>>)
    requires Progress(parse, s)
    decreases |s| - pos
  {
    match parse(s, pos)
    case Err(e) => Err(e)
    case Panic => Panic
    case Ok(read) =>
      var x' := x + size(read.0) + 1;
      if x' == target then Ok(([read.0], read.1))
      else Prepend([read.0], CountLoop(parse, size, s, read.1, x', target))
  }

  /**
   Whatever the bytes are and however the run ends: if an item's size plus one is at most `step` per byte the
   reader advanced, the accumulator never wraps.
   */
  lemma {:induction false} SumLoopNeverWraps<T(!new)>(
    parse: (seq<byte>, nat) -> Read<T>, size: T -> nat, s: seq<byte>, pos: nat, x: u32, target: u32, step: nat
  )
    requires Progress(parse, s)
    requires forall p: nat ::
      parse(s, p).Ok? ==> size(parse(s, p).value.0) + 1 <= step * (parse(s, p).value.1 - p)
    requires x <= step * pos && step * |s| < U32_MOD
    ensures SumLoop(parse, size, s, pos, x, target) == CountLoop(parse, size, s, pos, x, target)
    decreases |s| - pos
  {
    if parse(s, pos).Ok? {
      var (item, q) := parse(s, pos).value;
      Scaled(step, pos, q, |s|);
      SumLoopStep(parse, size, s, pos, x, target);
      hide SumLoop;
      SumLoopNeverWraps(parse, size, s, q, x + size(item) + 1, target, step);
    }
  }

  /** And so the loop ends with items whose sizes add up to the target. */
  lemma {:induction false} CountLoopConserves<T(!new)>(
    parse: (seq<byte>, nat) -> Read<T>, size: T -> nat, s: seq<byte>, pos: nat, x: nat, target: nat
  )
    requires Progress(parse, s) && CountLoop(parse, size, s, pos, x, target).Ok?
    ensures var items := CountLoop(parse, size, s, pos, x, target).value.0;
            target == x + Total(size, items) + |items|
    decreases |s| - pos
  {
    var (item, q) := parse(s, pos).value;
    var x' := x + size(item) + 1;
    var items := CountLoop(parse, size, s, pos, x, target).value.0;
    if x' == target {
      assert items == [item] && items[1..] == [];
    } else {
      CountLoopConserves(parse, size, s, q, x', target);
      assert items[1..] == CountLoop(parse, size, s, q, x', target).value.0;
    }
  }

  /** What laid-out items report as their sizes, against the distance the cursor covered. */
  lemma {:induction false} LaidSpan<T(!new)>(
    parse: (seq<byte>, nat) -> Read<T>, size: T -> nat, unread: T -> nat, plain: T -> bool, s: seq<byte>, pos: nat,
    items: seq<T>, end: nat
  )
    requires Laid(parse, s, pos, items, end)
    requires forall p: nat :: parse(s, p).Ok? ==>
      var (item, q) := parse(s, p).value;
      p + 1 + size(item) <= q + unread(item) && (plain(item) ==> p + 1 + size(item) == q + unread(item))
    ensures pos + Total(size, items) + |items| <= end + Total(unread, items)
    ensures All(plain, items) ==> pos + Total(size, items) + |items| == end + Total(unread, items)
    decreases |items|
  {
    if items != [] {
      LaidSpan(parse, size, unread, plain, s, parse(s, pos).value.1, items[1..], end);
    }
  }

  lemma {:induction false} TotalAppend<T>(weight: T -> nat, a: seq<T>, b: seq<T>)
    ensures Total(weight, a + b) == Total(weight, a) + Total(weight, b)
  {
    if a == [] {
      assert a + b == b;
    } else {
      TotalAppend(weight, a[1..], b);
      assert (a + b)[1..] == a[1..] + b;
    }
  }

  lemma {:induction false} AllAppend<T>(good: T -> bool, a: seq<T>, b: seq<T>)
    ensures All(good, a + b) <==> All(good, a) && All(good, b)
  {
    if a == [] {
      assert a + b == b;
    } else {
      AllAppend(good, a[1..], b);
      assert (a + b)[1..] == a[1..] + b;
    }
  }

  /** Behind items that lie one after the other, the rest lies exactly if it lies from there. */
  lemma {:induction false} LaidAppend<T>(
    parse: (seq<byte>, nat) -> Read<T>, s: seq<byte>, pos: nat, a: seq<T>, mid: nat, b: seq<T>, end: nat
  )
    requires Laid(parse, s, pos, a, mid)
    ensures Laid(parse, s, pos, a + b, end) <==> Laid(parse, s, mid, b, end)
    decreases |a|
  {
    if a == [] {
      assert a + b == b;
    } else {
      LaidAppend(parse, s, parse(s, pos).value.1, a[1..], mid, b, end);
      assert (a + b)[1..] == a[1..] + b;
    }
  }
}
