/**
 * How the benchmark makes its reference images: the seeded generator behind
 * their pixels and the search for the JPEG quality that fits a target size.
 */
module ReferenceImages {

  const TWO_32: nat := 0x1_0000_0000
  const STEP: nat := 0x6d2b79f5

  /** STEP times this number is 1 modulo 2^32, as STEP is odd: the product wraps WRAPS times. */
  const STEP_INVERSE: nat := 0xdc58aa5d
  const WRAPS: nat := 1576479847

  /** The state after `n` calls. */
  function StateAfter(seed: int, n: nat): nat {
    if n == 0 then seed % TWO_32 else (StateAfter(seed, n - 1) + STEP) % TWO_32
  }

  /** The first two steps from a state to what is drawn; the products and sums wrap at 32 bits. */
  function HalfMixed(state: nat): bv32
    requires state < TWO_32
  {
    var s := state as bv32;
    var t := (s ^ (s >> 15)) * (s | 1);
    t ^ (t + (t ^ (t >> 7)) * (t | 61))
  }

  /** The last step. */
  function XorShifted(u: bv32): bv32 {
    u ^ (u >> 14)
  }

  /** It reaches every value, so it loses none, and leaves the 14 highest bits as they are. */
  lemma XorShiftedInverse(v: bv32)
    ensures XorShifted(v ^ (v >> 14) ^ (v >> 28)) == v
    ensures XorShifted(v) >> 18 == v >> 18
  {
  }

  /** The value drawn from a state. */
  function Mixed(state: nat): bv32
    requires state < TWO_32
  {
    XorShifted(HalfMixed(state))
  }

  /** The values drawn from four states, the first of them the first after seed 0. */
  lemma SampleDraws()
    ensures Mixed(0x6d2b79f5) == 1144304738
    ensures Mixed(1) == 63
    ensures Mixed(0x8000_0000) == 3208480509
    ensures Mixed(0xffff_ffff) == 142530043
  {
  }

  function Drawn(state: nat): (r: real)
    requires state < TWO_32
    ensures 0.0 <= r < 1.0
    ensures r * TWO_32 as real == Mixed(state) as nat as real
  {
    var k := Mixed(state) as nat;
    k as real / TWO_32 as real
  }

  lemma Wrapped(a: int, b: int)
    ensures a % TWO_32 == b % TWO_32 <==> (a - b) % TWO_32 == 0
  {
  }

  lemma StateStep(seed: int, n: nat)
    ensures StateAfter(seed, n + 1) == (StateAfter(seed, n) + STEP) % TWO_32 < TWO_32
  {
  }

  lemma {:induction false} StateIsLinear(seed: int, n: nat)
    ensures StateAfter(seed, n) == (seed + n * 0x6d2b79f5) % 0x1_0000_0000
  {
    if n > 0 {
      StateIsLinear(seed, n - 1);
    }
  }

  lemma Wraps(a: int, k: int)
    ensures (a + k * TWO_32) % TWO_32 == a % TWO_32
  {
  }

  lemma InverseOfStep(d: int)
    ensures d * STEP * STEP_INVERSE == d + d * WRAPS * TWO_32
  {
    assert STEP * STEP_INVERSE == 1 + WRAPS * TWO_32;
  }

  /** Multiplying by STEP loses nothing modulo 2^32. */
  lemma StepIsInvertible(d: int)
    ensures (d * STEP) % TWO_32 == 0 <==> d % TWO_32 == 0
  {
    if d % TWO_32 == 0 {
      Wraps(0, d / TWO_32 * STEP);
    }
    if (d * STEP) % TWO_32 == 0 {
      InverseOfStep(d);
      Wraps(0, d * STEP / TWO_32 * STEP_INVERSE - d * WRAPS);
    }
  }

  /** The state repeats after exactly 2^32 calls, whatever the seed. */
  lemma FullPeriod(seed: int, m: nat, n: nat)
    ensures StateAfter(seed, m) == StateAfter(seed, n) <==> m % TWO_32 == n % TWO_32
  {
    StateIsLinear(seed, m);
    StateIsLinear(seed, n);
    Wrapped(seed + m * STEP, seed + n * STEP);
    StepIsInvertible(m - n);
    Wrapped(m, n);
  }

  /** Within one period, every 32-bit state is reached, whatever the seed. */
  lemma EveryStateReached(seed: int, state: nat) returns (n: nat)
    requires state < TWO_32
    ensures n < TWO_32 && StateAfter(seed, n) == state
  {
    var d := state - seed;
    n := d * STEP_INVERSE % TWO_32;
    StateIsLinear(seed, n);
    InverseOfStep(d);
    Wraps(state, d * WRAPS - d * STEP_INVERSE / TWO_32 * STEP);
  }

  /** `mulberry32`: the closure over `state` is an object with that field. */
  class Mulberry32 {
    var state: nat
    ghost const seed: int
    ghost var calls: nat

    ghost predicate Valid()
      reads this
    {
      state == StateAfter(seed, calls) && state < TWO_32
    }

    constructor (seed: int)
      ensures Valid() && calls == 0 && this.seed == seed
    {
      this.seed := seed;
      state := seed % TWO_32;
      calls := 0;
    }

    method Next() returns (r: real)
      requires Valid()
      modifies this
      ensures Valid() && calls == old(calls) + 1
      ensures r == Drawn(state)
    {
      StateStep(seed, calls);
      state := (state + STEP) % TWO_32;
      calls := calls + 1;
      r := Drawn(state);
    }
  }

  const LOWEST_QUALITY: int := 40
  const HIGHEST_QUALITY: int := 95

  /** A higher quality never encodes smaller. */
  ghost predicate Monotone(encode: int -> seq<bv8>) {
    forall p, q :: 40 <= p <= q <= 95 ==> |encode(p)| <= |encode(q)|
  }

  ghost predicate GreatestFit(encode: int -> seq<bv8>, targetBytes: nat, quality: int) {
    && |encode(quality)| <= targetBytes
    && forall q :: quality < q <= 95 ==> |encode(q)| > targetBytes
  }

  /** This quality fits, and the next one does not. */
  ghost predicate FitsUpTo(encode: int -> seq<bv8>, targetBytes: nat, quality: int) {
    && |encode(quality)| <= targetBytes
    && (quality < 95 ==> |encode(quality + 1)| > targetBytes)
  }

  /** What the search ends with whatever the sizes: such a quality, or 40 when that one does not fit. */
  ghost predicate SearchedFit(encode: int -> seq<bv8>, targetBytes: nat, best: seq<bv8>) {
    if |best| > targetBytes then best == encode(40)
    else exists q :: 40 <= q <= 95 && FitsUpTo(encode, targetBytes, q) && best == encode(q)
  }

  /** The encoding at the greatest quality that fits, or at 40 when none does. */
  ghost predicate BestFit(encode: int -> seq<bv8>, targetBytes: nat, best: seq<bv8>) {
    if |encode(40)| > targetBytes then best == encode(40)
    else exists q :: 40 <= q <= 95 && GreatestFit(encode, targetBytes, q) && best == encode(q)
  }

  /** For monotone sizes the search finds the best fit, which fits exactly when some quality does. */
  lemma SearchedFitIsBest(encode: int -> seq<bv8>, targetBytes: nat, best: seq<bv8>)
    requires Monotone(encode) && SearchedFit(encode, targetBytes, best)
    ensures BestFit(encode, targetBytes, best)
    ensures |best| <= targetBytes <==> |encode(40)| <= targetBytes
  {
    if |best| <= targetBytes {
      var q :| 40 <= q <= 95 && FitsUpTo(encode, targetBytes, q) && best == encode(q);
      assert GreatestFit(encode, targetBytes, q);
    }
  }

  /** How many qualities, and one more, the given number of probes can tell apart. */
  ghost function Halvings(probes: nat): nat {
    if probes == 0 then 1 else 2 * Halvings(probes - 1)
  }

  /**
   * The binary search for a quality that fits; `probes` counts the encodings it
   * makes. Whatever the sizes, it ends where the next higher quality does not fit.
   */
  method EncodeJpegNear(encode: int -> seq<bv8>, targetBytes: nat) returns (best: seq<bv8>, probes: nat)
    ensures SearchedFit(encode, targetBytes, best)
    ensures |encode(40)| <= targetBytes ==> |best| <= targetBytes
    ensures Monotone(encode) ==> BestFit(encode, targetBytes, best)
    ensures Monotone(encode) ==> (|best| <= targetBytes <==> |encode(40)| <= targetBytes)
    ensures probes <= 6
  {
    var low, high := LOWEST_QUALITY, HIGHEST_QUALITY;
    best := encode(low);
    probes := 0;
    ghost var at := low;
    while low <= high
      invariant LOWEST_QUALITY <= low <= high + 1 <= HIGHEST_QUALITY + 1
      invariant LOWEST_QUALITY <= at <= HIGHEST_QUALITY && best == encode(at)
      invariant if low == LOWEST_QUALITY then at == LOWEST_QUALITY else at == low - 1 && |best| <= targetBytes
      invariant high < HIGHEST_QUALITY ==> |encode(high + 1)| > targetBytes
      invariant probes <= 6 && high - low + 1 < Halvings(6 - probes)
      decreases high - low
    {
      var quality := (low + high) / 2;
      var encoded := encode(quality);
      probes := probes + 1;
      if |encoded| <= targetBytes {
        best, at := encoded, quality;
        low := quality + 1;
      } else {
        high := quality - 1;
      }
    }
    assert |best| <= targetBytes ==> FitsUpTo(encode, targetBytes, at);
    if Monotone(encode) {
      SearchedFitIsBest(encode, targetBytes, best);
    }
  }
}
