/**
 SNTP arithmetic (sntpc/src/lib.rs and sntpc/src/types.rs; RFC 4330, sections 3 and 5). A timestamp is a u64 with
 32 bits of seconds and 32 bits of fraction, which wraps every 2^32 seconds; the code divides fractions by
 2^32 - 1. Sums and differences wrap, as they do in a release build.
 */
module NtpTime {
  import opened Base

  const FRAC_MAX := 0xFFFF_FFFF
  const NTP_DELTA := 2208988800

  datatype Units = Milliseconds | Microseconds

  function PerSecond(units: Units): nat {
    match units
    case Milliseconds => 1000
    case Microseconds => 1000000
  }

  function Sub(a: u64, b: u64): u64 {
    (a - b) % U64_MOD
  }

  /** `as i64`. */
  function Signed(x: int): i64 {
    var u := x % U64_MOD;
    if u < 0x8000_0000_0000_0000 then u else u - U64_MOD
  }

  /** Division rounds toward zero. */
  function Half(x: int): int {
    if x >= 0 then x / 2 else -(-x / 2)
  }

  function Abs(x: int): nat {
    if x >= 0 then x else -x
  }

  function Sign(x: int): int {
    if x > 0 then 1 else if x < 0 then -1 else 0
  }

  /** `convert_delays`. */
  function ConvertDelays(sec: u32, fraction: u32, units: Units): nat {
    sec * PerSecond(units) + fraction * PerSecond(units) / FRAC_MAX
  }

  /** A 64-bit duration in units. */
  function Duration(delta: u64, units: Units): nat {
    ConvertDelays(delta / U32_MOD, delta % U32_MOD, units)
  }

  function Delta(t1: u64, t2: u64, t3: u64, t4: u64): u64 {
    Sub(Sub(t4, t1), Sub(t3, t2))
  }

  function Roundtrip(t1: u64, t2: u64, t3: u64, t4: u64, units: Units): nat {
    Duration(Delta(t1, t2, t3, t4), units)
  }

  function Theta(t1: u64, t2: u64, t3: u64, t4: u64): (r: int)
    ensures Abs(r) <= 0x4000_0000_0000_0000
  {
    Half(Signed(Signed(Sub(t2, t1)) + Signed(Sub(t3, t4))))
  }

  function OffsetOf(theta: int, units: Units): int
    requires Abs(theta) < U64_MOD
  {
    Duration(Abs(theta), units) * Sign(theta)
  }

  function Offset(t1: u64, t2: u64, t3: u64, t4: u64, units: Units): int {
    OffsetOf(Theta(t1, t2, t3, t4), units)
  }

  // ---------------------------------------------------------------- conversion

  /** The unit conversion is within one unit of the true value, although fractions are divided by 2^32 - 1. */
  lemma DurationBound(delta: u64, units: Units)
    ensures var u := PerSecond(units);
            delta * u - U32_MOD < Duration(delta, units) * U32_MOD <= delta * u + u
    ensures Duration(delta, units) < 0x8000_0000_0000_0000
  {
  }

  /** A longer duration never converts to fewer units, also across a second. */
  lemma DurationMonotone(a: u64, b: u64, units: Units)
    requires a <= b
    ensures Duration(a, units) <= Duration(b, units)
  {
  }

  /** One second is a thousand milliseconds and a million microseconds, and half of it half as many. */
  lemma OneSecond()
    ensures Duration(U32_MOD, Milliseconds) == 1000 && Duration(U32_MOD, Microseconds) == 1000000
    ensures Duration(0x8000_0000, Milliseconds) == 500 && Duration(0x8000_0000, Microseconds) == 500000
  {
  }

  lemma OffsetOdd(theta: int, units: Units)
    requires Abs(theta) < U64_MOD
    ensures OffsetOf(-theta, units) == -OffsetOf(theta, units)
  {
  }

  // ---------------------------------------------------------------- offset and delay

  /** The server's clock is `d` ahead; the request took `a`, the answer `b`. */
  ghost predicate Exchange(t1: u64, t2: u64, t3: u64, t4: u64, d: int, a: nat, b: nat) {
    t2 == (t1 + d + a) % U64_MOD && t4 == (t3 - d + b) % U64_MOD
  }

  /** The measured round trip is exactly the two network delays, across era boundaries too, if they fit at all. */
  lemma DeltaExactly(t1: u64, t2: u64, t3: u64, t4: u64, d: int, a: nat, b: nat)
    requires Exchange(t1, t2, t3, t4, d, a, b)
    ensures Delta(t1, t2, t3, t4) == (a + b) % U64_MOD
    ensures Delta(t1, t2, t3, t4) == a + b <==> a + b < U64_MOD
  {
    var k2 := Wraps(t1 + d + a);
    var k4 := Wraps(t3 - d + b);
    var kx := Wraps(t4 - t1);
    var ky := Wraps(t3 - t2);
    Differences(t1, t2, t3, t4, d, a + b, a, k2, k4);
    var k := ky - kx - k2 - k4;
    SubOfWrapped(Sub(t4, t1), Sub(t3, t2), a + b, k);
  }

  /** The multiple of 2^64 that wrapping takes away. */
  lemma Wraps(x: int) returns (k: int)
    ensures x % U64_MOD == x - k * U64_MOD
  {
    k := x / U64_MOD;
  }

  lemma SubOfWrapped(x: u64, y: u64, n: nat, k: int)
    requires x - y == n + k * U64_MOD
    ensures Sub(x, y) == n % U64_MOD
    ensures Sub(x, y) == n <==> n < U64_MOD
  {
    ModShift(n, k);
  }

  lemma Differences(t1: int, t2: int, t3: int, t4: int, d: int, both: int, a: int, k2: int, k4: int)
    requires t2 == t1 + d + a - k2 * U64_MOD && t4 == t3 - d + (both - a) - k4 * U64_MOD
    ensures (t4 - t1) - (t3 - t2) == both - (k2 + k4) * U64_MOD
  {
  }

  lemma ModShift(x: int, k: int)
    ensures (x + k * U64_MOD) % U64_MOD == x % U64_MOD
  {
  }

  lemma SignedSmall(x: int)
    requires -0x8000_0000_0000_0000 <= x < 0x8000_0000_0000_0000
    ensures Signed(x) == x
  {
  }

  lemma SignedMod(x: int)
    ensures Signed(x % U64_MOD) == Signed(x)
  {
  }

  lemma ThetaValue(t1: u64, t2: u64, t3: u64, t4: u64, d: int, a: nat, b: nat)
    requires Exchange(t1, t2, t3, t4, d, a, b)
    requires -0x8000_0000_0000_0000 <= d + a < 0x8000_0000_0000_0000
    requires -0x8000_0000_0000_0000 <= d - b < 0x8000_0000_0000_0000
    ensures Theta(t1, t2, t3, t4) == Half(Signed(2 * d + a - b))
  {
    var k2 := Wraps(t1 + d + a);
    var k4 := Wraps(t3 - d + b);
    assert t2 - t1 == d + a + -k2 * U64_MOD;
    ModShift(d + a, -k2);
    assert t3 - t4 == d - b + k4 * U64_MOD;
    ModShift(d - b, k4);
    SignedMod(d + a);
    SignedMod(d - b);
    SignedSmall(d + a);
    SignedSmall(d - b);
  }

  lemma HalfOfWrapped(x: int)
    requires Abs(x) <= U64_MOD
    ensures Half(Signed(x)) == Half(x) <==> -0x8000_0000_0000_0000 <= x < 0x8000_0000_0000_0000
  {
  }

  /** The offset is half the true sum of the two differences exactly when that sum does not leave i64. */
  lemma ThetaExactly(t1: u64, t2: u64, t3: u64, t4: u64, d: int, a: nat, b: nat)
    requires Exchange(t1, t2, t3, t4, d, a, b)
    requires -0x8000_0000_0000_0000 <= d + a < 0x8000_0000_0000_0000
    requires -0x8000_0000_0000_0000 <= d - b < 0x8000_0000_0000_0000
    ensures Theta(t1, t2, t3, t4) == Half(2 * d + a - b)
            <==> -0x8000_0000_0000_0000 <= 2 * d + a - b < 0x8000_0000_0000_0000
  {
    hide Theta, Signed, Half;
    ThetaValue(t1, t2, t3, t4, d, a, b);
    HalfOfWrapped(2 * d + a - b);
  }

  /**
   The error bound of section 5 of RFC 4330: for delays and offsets below 2^62 (68 years) the round trip is
   exact, and the offset is wrong by at most half of it, but for the rounding of one half step.
   */
  lemma OffsetBound(t1: u64, t2: u64, t3: u64, t4: u64, d: int, a: nat, b: nat)
    requires Exchange(t1, t2, t3, t4, d, a, b)
    requires Abs(d + a) < 0x4000_0000_0000_0000 && Abs(d - b) < 0x4000_0000_0000_0000
    ensures Delta(t1, t2, t3, t4) == a + b
    ensures Theta(t1, t2, t3, t4) == Half(2 * d + a - b)
    ensures Abs(2 * Theta(t1, t2, t3, t4) - 2 * d) <= a + b + 1
  {
    DeltaExactly(t1, t2, t3, t4, d, a, b);
    ThetaExactly(t1, t2, t3, t4, d, a, b);
  }

  /** The same for what the caller gets: the offset in units, scaled by 2^33, against the true offset. */
  lemma ReportedOffsetBound(t1: u64, t2: u64, t3: u64, t4: u64, d: int, a: nat, b: nat, units: Units)
    requires Exchange(t1, t2, t3, t4, d, a, b)
    requires Abs(d + a) < 0x4000_0000_0000_0000 && Abs(d - b) < 0x4000_0000_0000_0000
    ensures var u := PerSecond(units);
            Abs(2 * (Offset(t1, t2, t3, t4, units) * U32_MOD - d * u)) <= u * (a + b + 1) + 2 * U32_MOD
  {
    hide Duration, Theta;
    OffsetBound(t1, t2, t3, t4, d, a, b);
    var theta := Theta(t1, t2, t3, t4);
    DurationBound(Abs(theta), units);
    OffsetNear(theta, units);
    if units.Milliseconds? {
      assert PerSecond(units) == 1000;
    } else {
      assert PerSecond(units) == 1000000;
    }
  }

  lemma OffsetNear(theta: int, units: Units)
    requires Abs(theta) <= 0x4000_0000_0000_0000
    ensures Abs(OffsetOf(theta, units) * U32_MOD - theta * PerSecond(units)) < U32_MOD
  {
    hide Duration;
    DurationBound(Abs(theta), units);
    var n: int, u: int := Duration(Abs(theta), units), PerSecond(units);
    if theta < 0 {
      assert OffsetOf(theta, units) == -n;
      assert Abs(theta) * u == -(theta * u);
    } else if theta > 0 {
      assert OffsetOf(theta, units) == n;
    } else {
      assert OffsetOf(theta, units) == n * 0 == 0;
    }
  }

  // ---------------------------------------------------------------- timestamps

  /** `get_ntp_timestamp`: Unix seconds and microseconds to an NTP timestamp. */
  function Timestamp(sec: u64, micros: u32): u64 {
    (((sec + NTP_DELTA) % U64_MOD * U32_MOD) % U64_MOD + micros * FRAC_MAX / 1000000) % U64_MOD
  }

  /** `NtpTimestamp::from` and the cast to u32 in `process_response`. */
  function UnixSeconds(v: u64): u32 {
    Signed(Sub(v / U32_MOD, NTP_DELTA)) % U32_MOD
  }

  /** `NtpResult::new` on seconds and fraction: the one fraction that the divisor maps to a whole second is carried. */
  function Normalised(sec: u32, fraction: u32): (u32, u32) {
    ((sec + fraction / FRAC_MAX) % U32_MOD, fraction % FRAC_MAX)
  }

  /** `fraction_to_milliseconds` and its relatives, for `perSecond` units in a second. */
  function FractionTo(fraction: u32, perSecond: nat): nat {
    fraction * perSecond / FRAC_MAX
  }

  /**
   Seconds survive the way to an NTP timestamp and back, in every NTP era, and microseconds do not carry into
   them; microseconds themselves come back exactly only as multiples of a fifth of a second.
   */
  lemma TimestampRoundTrip(sec: u64, m: u32)
    requires m < 1000000 && sec + NTP_DELTA < U64_MOD
    ensures var v := Timestamp(sec, m);
            var (s, f) := Normalised(UnixSeconds(v), v % U32_MOD);
            && v / U32_MOD == (sec + NTP_DELTA) % U32_MOD
            && s == sec % U32_MOD
            && FractionTo(f, 1000000) == if m % 200000 == 0 then m else m - 1
  {
    hide Signed, Sub, FractionTo;
    var f := m * FRAC_MAX / 1000000;
    assert f < FRAC_MAX && (sec + NTP_DELTA) % U64_MOD == sec + NTP_DELTA;
    HighPart(sec + NTP_DELTA, f);
    var v := Timestamp(sec, m);
    assert v == ((sec + NTP_DELTA) * U32_MOD) % U64_MOD + f;
    assert v % U32_MOD == f && f / FRAC_MAX == 0 && f % FRAC_MAX == f;
    EraFree(sec);
    MicrosBack(m);
  }

  /**
   Where the scales meet (RFC 4330, section 3): the Unix epoch is 2208988800 seconds after the NTP epoch, and a
   second is 2^32 fractions.
   */
  lemma Epochs(sec: u64)
    requires sec < U32_MOD - 2208988800
    ensures UnixSeconds(2208988800 * U32_MOD) == 0
    ensures UnixSeconds((2208988800 + sec) * U32_MOD) == sec
    ensures Timestamp(0, 0) == 2208988800 * U32_MOD && Timestamp(sec, 0) == (2208988800 + sec) * U32_MOD
  {
    HighPart(2208988800, 0);
    HighPart(2208988800 + sec, 0);
    EraFree(0);
    EraFree(sec);
  }

  lemma HighPart(x: nat, f: nat)
    requires f < U32_MOD
    ensures var v := (x * U32_MOD) % U64_MOD + f;
            v < U64_MOD && v / U32_MOD == x % U32_MOD && v % U32_MOD == f
  {
  }

  lemma EraFree(sec: nat)
    ensures Signed(Sub((sec + NTP_DELTA) % U32_MOD, NTP_DELTA)) % U32_MOD == sec % U32_MOD
  {
    var x := (sec + NTP_DELTA) % U32_MOD;
    SignedMod(x - NTP_DELTA);
    SignedSmall(x - NTP_DELTA);
  }

  lemma MicrosBack(m: u32)
    requires m < 1000000
    ensures FractionTo(m * FRAC_MAX / 1000000, 1000000) == if m % 200000 == 0 then m else m - 1
  {
    var q, r := m * FRAC_MAX / 1000000, m * FRAC_MAX % 1000000;
    assert q * 1000000 == m * FRAC_MAX - r;
    Residue(m);
  }

  /** 2^32 - 1 is 5 times a number that is prime to 200000. */
  lemma Residue(m: nat)
    ensures m * FRAC_MAX % 1000000 == 0 <==> m % 200000 == 0
  {
    var x := m * 858993459;
    assert m * FRAC_MAX == 5 * x;
    FiveTimes(x);
    if m % 200000 == 0 {
      var k := m / 200000;
      assert x == 200000 * (k * 858993459);
      MultipleOf200000(k * 858993459);
    } else if x % 200000 == 0 {
      PrimeTo(m);
      assert false;
    }
  }

  lemma PrimeTo(m: nat)
    requires m * 858993459 % 200000 == 0
    ensures m % 200000 == 0
  {
    // 858993459 * 138939 == 1 + 200000 * 596738461
    var j := m * 858993459 / 200000;
    assert m == 200000 * (j * 138939 - m * 596738461);
    MultipleOf200000(j * 138939 - m * 596738461);
  }

  lemma MultipleOf200000(k: nat)
    ensures 200000 * k % 200000 == 0
  {
  }

  lemma FiveTimes(x: nat)
    ensures 5 * x % 1000000 == 5 * (x % 200000)
  {
  }

  lemma Below(f: nat, limit: nat, p: nat)
    requires f < limit && p >= 1
    ensures f * p < limit * p
  {
  }

  /** After normalisation no fraction is reported as a full second. */
  lemma FractionBelowSecond(sec: u32, fraction: u32, perSecond: nat)
    requires perSecond >= 1
    ensures FractionTo(Normalised(sec, fraction).1, perSecond) < perSecond
    ensures FractionTo(FRAC_MAX, perSecond) == perSecond
  {
    var f := Normalised(sec, fraction).1;
    Below(f, FRAC_MAX, perSecond);
    var x := f * perSecond;
    assert x < FRAC_MAX * perSecond;
    assert x / FRAC_MAX < perSecond;
  }
}
