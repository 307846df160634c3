/** The immutable half of the engine: token costs, the clock, and its inverse. */
module Engines {
  import opened Arithmetic
  import opened Durations
  import opened Config
  import opened Scales

  /** Offset of every instant: larger than any burst, so no instant underflows. */
  const ORIGIN: u64 := 0x4000_0000_0000_0000

  datatype Params = Params(config: BucketConfig, scale: Scale)

  /** What every derived scale satisfies, and all the accounting relies on. */
  predicate Sound(p: Params) {
    && -30 <= p.scale.unitShift <= 60
    && p.scale.rateInt <= 4
    && 1 <= Rate(p.scale)
    && BurstFits(p.config.capacity, p.scale.unitShift)
  }

  type Engine = p: Params | Sound(p)
    witness Params(RawConfig(0, 0, Duration(0, 0), 0), Scale(0, 1, 0))

  /** The scale is the one `Derive` computes for the configuration. */
  ghost predicate Derived(e: Params) {
    IsScale(e.config.capacity, e.config.refillAmount, AsNanos(e.config.refillPeriod), e.scale)
  }

  lemma DerivedIsSound(p: Params)
    requires Derived(p)
    ensures Sound(p)
  {
    var c := p.config;
    var period := AsNanos(c.refillPeriod);
    if c.capacity == 0 || c.refillAmount == 0 || period == 0 {
      assert BurstFits(c.capacity, 0) by { assert c.capacity * Pow2(0) == c.capacity; }
    } else {
      DurationBelow94Bits(c.refillPeriod);
      ScaleFits(c.capacity, c.refillAmount, period, p.scale);
    }
  }

  // --------------------------------------------------------------------- tokens

  /** Tokens per unit, or units per token: `2^|unitShift|`. */
  function Factor(e: Engine): (w: nat)
    ensures 1 <= w
  {
    Pow2(if 0 <= e.scale.unitShift then e.scale.unitShift else -e.scale.unitShift)
  }

  predicate Exact(e: Engine) {
    0 <= e.scale.unitShift
  }

  function Capacity(e: Engine): u32 {
    e.config.capacity
  }

  /** Units that `n` tokens cost. */
  function Cost(e: Engine, n: u32): u64
    requires n <= Capacity(e)
  {
    CostFits(e, n);
    if Exact(e) then n * Factor(e)
    else if n == 0 then 0
    else (n - 1) / Factor(e) + 1
  }

  lemma CostFits(e: Engine, n: u32)
    requires n <= Capacity(e)
    ensures Exact(e) ==> n * Factor(e) < TWO_61
    ensures 0 < n ==> 0 <= (n - 1) / Factor(e) <= n - 1
  {
    ProductMonotonic(n, Capacity(e), Factor(e));
    if 0 < n {
      QuotientAtMost(n - 1, Factor(e));
    }
  }

  /** Units in a full bucket. */
  function Burst(e: Engine): u64 {
    Cost(e, Capacity(e))
  }

  /** Whole tokens bought by `credit` units, at most the capacity. */
  function TokensFor(e: Engine, credit: u64): u32
    requires credit <= Burst(e)
  {
    CreditFits(e, credit);
    var tokens: u64 := if Exact(e) then credit / Factor(e) else credit * Factor(e);
    Min(Min(tokens, MAX_U32), Capacity(e))
  }

  lemma CreditFits(e: Engine, credit: u64)
    requires credit <= Burst(e)
    ensures 0 <= credit / Factor(e) <= credit
    ensures 0 <= credit * Factor(e)
    ensures !Exact(e) ==> credit * Factor(e) < TWO_62
  {
    QuotientAtMost(credit, Factor(e));
    ProductMonotonic(0, credit, Factor(e));
    if !Exact(e) {
      CoarseFactor(e);
      if 0 < Capacity(e) {
        QuotientAtMost(Capacity(e) - 1, Factor(e));
      }
      ProductMonotonic(credit, MAX_U32, Factor(e));
    }
  }

  lemma CoarseFactor(e: Engine)
    requires !Exact(e)
    ensures MAX_U32 * Factor(e) < TWO_62
  {
    Pow2Of32();
    Pow2Monotonic(-e.scale.unitShift, 30);
  }

  /** Tokens and units form a Galois connection in both regimes: a credit covers
      the cost of `n` tokens exactly when `n` is at most what the credit buys. */
  lemma CostGalois(e: Engine, n: u32, credit: u64)
    requires n <= Capacity(e) && credit <= Burst(e)
    ensures Cost(e, n) <= credit <==> n <= TokensFor(e, credit)
  {
    var w := Factor(e);
    CreditFits(e, credit);
    if Exact(e) {
      FloorGalois(credit, w, n);
    } else if 0 < n {
      CeilIsFloor(n, w, credit);
    }
  }

  /** `ceil(n / w)`, as the source computes it for positive `n`. */
  lemma CeilIsFloor(n: nat, w: nat, credit: nat)
    requires 0 < n && 0 < w
    ensures (n - 1) / w + 1 <= credit <==> n <= credit * w
  {
    FloorGalois(n - 1, w, credit);
  }

  /** What a cost is, without the credit it is compared with: the tokens themselves
      in units, or, when a unit is several tokens, the fewest units worth as many. */
  lemma CostExactly(e: Engine, n: u32, c: nat)
    requires n <= Capacity(e)
    ensures Exact(e) ==> Cost(e, n) == n * Factor(e)
    ensures !Exact(e) ==> (Cost(e, n) <= c <==> n <= c * Factor(e))
  {
    if !Exact(e) {
      if n == 0 {
        ProductMonotonic(0, c, Factor(e));
      } else {
        CeilIsFloor(n, Factor(e), c);
      }
    }
  }

  /** And what a credit buys: the tokens it is worth, whole and within the capacity. */
  lemma TokensForExactly(e: Engine, credit: u64, n: nat)
    requires credit <= Burst(e)
    ensures Exact(e) ==> (n <= TokensFor(e, credit) <==> n <= Capacity(e) && n * Factor(e) <= credit)
    ensures !Exact(e) ==> TokensFor(e, credit) == Min(credit * Factor(e), Capacity(e))
  {
    if Exact(e) {
      CreditFits(e, credit);
      FloorGalois(credit, Factor(e), n);
    }
  }

  lemma CostMonotonic(e: Engine, a: u32, b: u32)
    requires a <= b <= Capacity(e)
    ensures Cost(e, a) <= Cost(e, b) <= Burst(e) < TWO_61
    ensures 0 < a ==> 0 < Cost(e, a)
  {
    CostStep(e, a, b);
    CostStep(e, b, Capacity(e));
    CostFits(e, Capacity(e));
  }

  lemma CostStep(e: Engine, a: u32, b: u32)
    requires a <= b <= Capacity(e)
    ensures Cost(e, a) <= Cost(e, b)
    ensures 0 < a ==> 0 < Cost(e, a)
  {
    var w := Factor(e);
    CostFits(e, a);
    if Exact(e) {
      ProductMonotonic(a, b, w);
      ProductMonotonic(1, w, a);
    } else if 0 < a {
      FloorBounds(a - 1, w);
      FloorGalois(b - 1, w, (a - 1) / w);
    }
  }

  /** In the exact regime costs add up, and one unit is a fixed share of a token. */
  lemma ExactCostsAdd(e: Engine, a: u32, b: u32)
    requires Exact(e) && a + b <= Capacity(e)
    ensures Cost(e, a + b) == Cost(e, a) + Cost(e, b)
  {
    assert (a + b) * Factor(e) == a * Factor(e) + b * Factor(e);
  }

  lemma FullCreditBuysCapacity(e: Engine)
    ensures TokensFor(e, Burst(e)) == Capacity(e)
  {
    CostGalois(e, Capacity(e), Burst(e));
  }

  lemma CostOfNothing(e: Engine)
    ensures Cost(e, 0) == 0
  {
  }

  lemma NoCreditBuysNothing(e: Engine)
    ensures TokensFor(e, 0) == 0
  {
    CreditFits(e, 0);
  }

  // ---------------------------------------------------------------------- clock

  /** Units accrued after `ns` nanoseconds: the high word of one multiply, plus
      one more multiply for the fastest buckets. */
  function Accrued(e: Engine, ns: u64): u128 {
    SplitMultiply(ns, e.scale.rateInt, e.scale.rateFrac);
    ns * e.scale.rateFrac / TWO_64 + if e.scale.rateInt != 0 then ns * e.scale.rateInt else 0
  }

  /** The split multiply is one wide multiply, floored. */
  lemma SplitMultiply(ns: u64, whole: u8, frac: u64)
    ensures ns * (whole * TWO_64 + frac) / TWO_64 == ns * frac / TWO_64 + ns * whole
    ensures 0 <= ns * frac / TWO_64 + ns * whole < TWO_128
  {
    var x, y := ns * frac, ns * whole;
    assert ns * (whole * TWO_64 + frac) == y * TWO_64 + x by {
      Associate(ns, whole, TWO_64);
      assert ns * (whole * TWO_64 + frac) == ns * (whole * TWO_64) + ns * frac;
    }
    ProductMonotonic(ns, TWO_64, frac);
    ProductMonotonic(frac, TWO_64, TWO_64);
    ProductMonotonic(ns, TWO_64, whole);
    FloorOfSum(x, y);
  }

  lemma FloorOfSum(x: nat, y: nat)
    ensures (y * TWO_64 + x) / TWO_64 == x / TWO_64 + y
  {
    FloorBounds(x, TWO_64);
    FloorBounds(y * TWO_64 + x, TWO_64);
  }

  lemma AccruedIsWideFloor(e: Engine, ns: u64)
    ensures Accrued(e, ns) == ns * Rate(e.scale) / TWO_64
  {
    SplitMultiply(ns, e.scale.rateInt, e.scale.rateFrac);
  }

  /** The clock at a nanosecond reading: an instant offset by `ORIGIN`, which
      saturates and never wraps. */
  function UnitsAt(e: Engine, ns: u64): u64 {
    var accrued := Accrued(e, ns);
    SaturatingAdd(ORIGIN, if accrued <= MAX_U64 then accrued else MAX_U64)
  }

  function Units(e: Engine, now: Duration): u64 {
    UnitsAt(e, DurationNanos(now))
  }

  /** The first nanosecond at which the clock reaches `target`; no step leaves
      the 128-bit word. */
  function DueNanos(e: Engine, target: u64): u128 {
    DueFits128(SaturatingSub(target, ORIGIN), Rate(e.scale));
    var shifted: u128 := SaturatingSub(target, ORIGIN) * TWO_64;
    DivCeil(shifted, Rate(e.scale))
  }

  lemma DueFits128(d: u64, rate: nat)
    requires 1 <= rate
    ensures d * TWO_64 < TWO_128
    ensures DivCeil(d * TWO_64, rate) < TWO_128
  {
    ProductMonotonic(1, rate, d * TWO_64);
    CeilGalois(d * TWO_64, rate, d * TWO_64);
  }

  /** `DueNanos` is the lower adjoint of the saturating clock, for every target
      and every reading. */
  lemma ClockGalois(e: Engine, target: u64, ns: u64)
    ensures target <= UnitsAt(e, ns) <==> DueNanos(e, target) <= ns
  {
    AccruedIsWideFloor(e, ns);
    var d := SaturatingSub(target, ORIGIN);
    CeilGalois(d * TWO_64, Rate(e.scale), ns);
    FloorGalois(ns * Rate(e.scale), TWO_64, d);
  }

  lemma ClockIsMonotonic(e: Engine, a: u64, b: u64)
    requires a <= b
    ensures ORIGIN <= UnitsAt(e, a) <= UnitsAt(e, b)
  {
    ClockGalois(e, UnitsAt(e, a), a);
    ClockGalois(e, UnitsAt(e, a), b);
  }

  /** No burst reaches back past the start of the clock. */
  lemma BurstBelowClock(e: Engine, ns: u64)
    ensures Burst(e) < TWO_61 < ORIGIN <= UnitsAt(e, ns)
  {
    CostMonotonic(e, 0, Capacity(e));
    ClockIsMonotonic(e, 0, ns);
  }

  /** The wait until the clock reaches `target`, rounded up to the millisecond;
      `None` when no reading gets there. */
  function WaitUntil(e: Engine, target: u64, now: Duration): Option<Duration> {
    var dueNs := DueNanos(e, target);
    if dueNs > MAX_U64 then None
    else
      var waitNs: u64 := SaturatingSub(dueNs, DurationNanos(now));
      Some(FromMillis(MillisFor(waitNs)))
  }

  function MillisFor(waitNs: u64): u64 {
    CeilGalois(waitNs, NANOS_PER_MILLI, waitNs);
    DivCeil(waitNs, NANOS_PER_MILLI)
  }
}
