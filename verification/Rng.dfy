/**
 Packet identifiers from the counting generator (rust-mqtt/src/utils/rng_generator.rs).
 */
module Rng {
  import opened Base

  /** `next_u64`: the counter after one more draw, which is also the value drawn. */
  function Step(v: u64): u64 {
    var w := (v + 1) % U64_MOD;
    if w > 0xFFFF then 1 else w
  }

  /** The counter after `k` draws from `v`; for k > 0 the k-th identifier. */
  function Draw(v: u64, k: nat): u64 {
    if k == 0 then v else Step(Draw(v, k - 1))
  }

  class CountingRng {
    var value: u64

    constructor (value: u64)
      ensures this.value == value
    {
      this.value := value;
    }

    method NextU64() returns (r: u64)
      modifies this
      ensures r == value == Step(old(value))
    {
      value := (value + 1) % U64_MOD;
      if value > 0xFFFF {
        value := 1;
      }
      r := value;
    }

    /** `next_u32() as u16`, the packet identifier. */
    method NextIdentifier() returns (r: u16)
      modifies this
      ensures r == value == Step(old(value))
    {
      var next := NextU64();
      r := next % U32_MOD % U16_MOD;
    }
  }

  lemma NextInCircle(w: u64, n: nat)
    requires w <= 0xFFFF
    requires w == n || (n >= 1 && w == (n - 1) % 0xFFFF + 1)
    ensures Step(w) == n % 0xFFFF + 1
  {
    assert Step(w) == if w == 0xFFFF then 1 else w + 1;
    if w != n {
      var turns := (n - 1) / 0xFFFF;
      assert n == 0xFFFF * turns + w;
    }
  }

  /** Where the counter is after k draws: it runs through 1..65535 in a circle. */
  lemma {:induction false} DrawClosed(v: u64, k: nat)
    requires k >= 1 && v <= 0xFFFF
    ensures Draw(v, k) == (v + k - 1) % 0xFFFF + 1
  {
    if k == 1 {
      assert Draw(v, 0) == v;
      NextInCircle(v, v);
    } else {
      DrawClosed(v, k - 1);
      NextInCircle((v + k - 2) % 0xFFFF + 1, v + k - 1);
    }
  }

  lemma {:induction false} DrawShift(v: u64, k: nat)
    requires k >= 1
    ensures Draw(v, k) == Draw(Step(v), k - 1)
  {
    if k > 1 {
      DrawShift(v, k - 1);
    }
  }

  /** Any identifier but the first is drawn from a counter in range; the first too, unless the counter wraps. */
  lemma DrawInCircle(v: u64, k: nat)
    requires k >= 1
    ensures k >= 2 || v != U64_MOD - 1 ==> Draw(v, k) == (Step(v) + k - 2) % 0xFFFF + 1
  {
    DrawShift(v, k);
    if k == 1 {
      assert Draw(Step(v), 0) == Step(v);
    } else {
      DrawClosed(Step(v), k - 1);
    }
  }

  /**
   Section 2.2.1 asks for non-zero identifiers. Every identifier of every run is in 1..65535 if and only if
   the counter does not start at its largest value.
   */
  lemma InRangeExactly(v: u64)
    ensures (forall k: nat :: k >= 1 ==> 1 <= Draw(v, k) <= 0xFFFF) <==> v != U64_MOD - 1
  {
    if v == U64_MOD - 1 {
      assert Draw(v, 0) == v;
      assert Draw(v, 1) == 0;
    } else {
      forall k: nat | k >= 1 ensures 1 <= Draw(v, k) <= 0xFFFF {
        DrawInCircle(v, k);
      }
    }
  }

  /** Any 65535 identifiers in a row are different from one another, and then the circle begins again. */
  lemma ConsecutiveDistinct(v: u64, i: nat, j: nat)
    requires 1 <= i < j
    ensures j < i + 0xFFFF ==> Draw(v, i) != Draw(v, j)
    ensures j == i + 0xFFFF && v != U64_MOD - 1 ==> Draw(v, i) == Draw(v, j)
  {
    DrawInCircle(v, i);
    DrawInCircle(v, j);
    if i == 1 && v == U64_MOD - 1 {
      assert Draw(v, 0) == v;
      assert Draw(v, 1) == 0;
    } else if j <= i + 0xFFFF {
      Circle(Step(v) + i - 2, j - i);
    }
  }

  lemma Circle(a: nat, d: nat)
    requires 0 < d <= 0xFFFF
    ensures d < 0xFFFF ==> a % 0xFFFF != (a + d) % 0xFFFF
    ensures d == 0xFFFF ==> a % 0xFFFF == (a + d) % 0xFFFF
  {
  }
}
