/** Jittered exponential backoff between delivery attempts. */
module Backoff {

  import opened Bytes

  const U64_LIMIT := 0x1_0000_0000_0000_0000
  const U128_LIMIT := 0x1_0000_0000_0000_0000_0000_0000_0000_0000
  const FNV_OFFSET := 0xcbf2_9ce4_8422_2325
  const FNV_PRIME := 0x0000_0100_0000_01b3
  const JITTER_STEPS := 4001

  /** A retry policy; durations are nanoseconds. */
  datatype RetryPolicy = RetryPolicy(retries: nat, base: nat, cap: nat)

  /** The range the policy constructor admits. */
  predicate ValidPolicy(p: RetryPolicy) {
    && p.retries <= 16
    && 500_000_000 <= p.base <= 5_000_000_000
    && 30_000_000_000 <= p.cap <= 300_000_000_000
  }

  // ---------------------------------------------------------------- jitter

  function XorLowByte(hash: nat, b: Byte): (r: nat)
    requires hash < U64_LIMIT
    ensures r < U64_LIMIT
  {
    hash - hash % 256 + ((hash % 256) as bv8 ^ (b as bv8)) as int
  }

  /** One byte of FNV-1a: mix it in, then multiply modulo 2^64. */
  function FnvStep(hash: nat, b: Byte): (r: nat)
    requires hash < U64_LIMIT
    ensures r < U64_LIMIT
  {
    XorLowByte(hash, b) * FNV_PRIME % U64_LIMIT
  }

  /** The 64-bit FNV-1a hash of `bytes`, continuing from `hash`. */
  function Fnv1a(hash: nat, bytes: seq<Byte>): (r: nat)
    requires hash < U64_LIMIT
    ensures r < U64_LIMIT
  {
    if bytes == [] then hash
    else FnvStep(Fnv1a(hash, bytes[..|bytes| - 1]), bytes[|bytes| - 1])
  }

  /** The two bytes of a 16-bit number, low byte first. */
  function LittleEndian16(n: nat): seq<Byte>
    requires n < 65536
  {
    [n % 256, n / 256]
  }

  function Jitter(id: seq<Byte>, attempts: nat): (r: nat)
    requires attempts < 65536
    ensures r < JITTER_STEPS
  {
    Fnv1a(FNV_OFFSET, id + LittleEndian16(attempts)) % JITTER_STEPS
  }

  /** The hash loops: over the identifier, then over the attempt number's bytes. */
  method StableJitter(id: seq<Byte>, attempts: nat) returns (r: nat)
    requires attempts < 65536
    ensures r == Jitter(id, attempts)
  {
    hide FnvStep;
    var hash: nat := FNV_OFFSET;
    for i := 0 to |id|
      invariant hash < U64_LIMIT && hash == Fnv1a(FNV_OFFSET, id[..i])
    {
      assert id[..i + 1][..i] == id[..i];
      hash := FnvStep(hash, id[i]);
    }
    var tail := LittleEndian16(attempts);
    assert id + tail[..0] == id[..|id|];
    for i := 0 to |tail|
      invariant hash < U64_LIMIT && hash == Fnv1a(FNV_OFFSET, id + tail[..i])
    {
      assert (id + tail[..i + 1])[..|id| + i] == id + tail[..i];
      hash := FnvStep(hash, tail[i]);
    }
    assert tail[..|tail|] == tail;
    r := hash % JITTER_STEPS;
  }

  // ---------------------------------------------------------------- delay

  function Min(a: nat, b: nat): nat { if a <= b then a else b }

  function Pow2(n: nat): (r: nat)
    ensures r > 0
  {
    if n == 0 then 1 else 2 * Pow2(n - 1)
  }

  /** 128-bit multiplication that stops at the greatest value. */
  function SaturatingMul(a: nat, b: nat): nat { Min(a * b, U128_LIMIT - 1) }

  /** The delay after attempt `attempts`, with the program's saturating and fallback branches. */
  function RetryDelay(policy: RetryPolicy, id: seq<Byte>, attempts: nat): nat
    requires attempts < 65536
  {
    var shift := Min(if attempts == 0 then 0 else attempts - 1, 31);
    var exponential := Min(SaturatingMul(policy.base, Pow2(shift)), policy.cap);
    var multiplier := 8000 + Jitter(id, attempts);
    var jittered := Min(SaturatingMul(exponential, multiplier) / 10000, policy.cap);
    if jittered < U64_LIMIT then jittered else U64_LIMIT - 1
  }

  /** The unbounded exponential the delay is meant to follow. */
  function Exponential(policy: RetryPolicy, attempts: nat): nat
    requires attempts > 0
  {
    Min(policy.base * Pow2(attempts - 1), policy.cap)
  }

  lemma {:induction false} Pow2Grows(m: nat, n: nat)
    requires m <= n
    ensures Pow2(m) <= Pow2(n)
    decreases n
  {
    if m < n { Pow2Grows(m, n - 1); }
  }

  lemma Pow2At31()
    ensures Pow2(31) == 0x8000_0000
  {
    assert Pow2(8) == 256;
    assert Pow2(16) == 65536;
    assert Pow2(24) == 0x100_0000;
  }

  lemma MulMono(a: nat, b: nat, c: nat)
    requires b <= c
    ensures a * b <= a * c
  {
  }

  /** Capping the shift at 31 never changes the capped exponential. */
  lemma ShiftCapIsHarmless(policy: RetryPolicy, attempts: nat)
    requires ValidPolicy(policy) && attempts > 0
    ensures Min(SaturatingMul(policy.base, Pow2(Min(attempts - 1, 31))), policy.cap) == Exponential(policy, attempts)
  {
    var shift := Min(attempts - 1, 31);
    Pow2At31();
    Pow2Grows(shift, 31);
    MulMono(policy.base, Pow2(shift), 0x8000_0000);
    MulMono(0x8000_0000, policy.base, 5_000_000_000);
    if attempts - 1 > 31 {
      Pow2Grows(31, attempts - 1);
      MulMono(policy.base, 0x8000_0000, Pow2(attempts - 1));
      MulMono(0x8000_0000, 500_000_000, policy.base);
    }
  }

  /**
   * No saturating or fallback branch ever changes the value: the delay is the capped exponential
   * scaled by the jitter, so it lies between 0.8 and 1.2 of it and never above the cap.
   */
  lemma DelayIsExact(policy: RetryPolicy, id: seq<Byte>, attempts: nat)
    requires ValidPolicy(policy) && 0 < attempts < 65536
    ensures var e := Exponential(policy, attempts);
            && RetryDelay(policy, id, attempts) == Min(e * (8000 + Jitter(id, attempts)) / 10000, policy.cap)
            && e * 8 / 10 <= RetryDelay(policy, id, attempts) <= Min(e * 12 / 10, policy.cap)
  {
    hide Pow2, Jitter;
    ShiftCapIsHarmless(policy, attempts);
    var e, j := Exponential(policy, attempts), Jitter(id, attempts);
    assert e <= 300_000_000_000;
    MulMono(e, 8000 + j, 12000);
    MulMono(e, 8000, 8000 + j);
    assert e * 8000 / 10000 == e * 8 / 10 && e * 12000 / 10000 == e * 12 / 10;
  }

  /** While doubling stays under the cap, later delays are strictly longer whatever the jitter. */
  lemma DelayGrows(policy: RetryPolicy, id: seq<Byte>, attempts: nat)
    requires ValidPolicy(policy) && 0 < attempts < 65535
    requires policy.base * Pow2(attempts) <= policy.cap
    ensures RetryDelay(policy, id, attempts) < RetryDelay(policy, id, attempts + 1)
  {
    hide Jitter, RetryDelay, Pow2, Exponential;
    DelayIsExact(policy, id, attempts);
    DelayIsExact(policy, id, attempts + 1);
    ExponentialDoubles(policy, attempts);
    var e := Exponential(policy, attempts);
    assert e * 12 / 10 < 2 * e * 8 / 10;
  }

  lemma ExponentialDoubles(policy: RetryPolicy, attempts: nat)
    requires ValidPolicy(policy) && attempts > 0
    requires policy.base * Pow2(attempts) <= policy.cap
    ensures Exponential(policy, attempts) >= policy.base
    ensures Exponential(policy, attempts + 1) == 2 * Exponential(policy, attempts)
  {
    var e := policy.base * Pow2(attempts - 1);
    assert policy.base * Pow2(attempts) == 2 * e;
    MulMono(policy.base, 1, Pow2(attempts - 1));
  }
}
