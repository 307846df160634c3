/** `Scale::derive`: the unit of a bucket and the rate of its clock.

    The specification, `IsScale`, does not search: it asks for the largest
    admissible shift and the rounded-up rate. `Derive` is the source's pair of
    searches, with every shift checked against the 128-bit word it runs in. */
module Scales {
  import opened Arithmetic
  import opened Durations

  const BURST_BITS: int := 61
  const TWO_61: int := 0x2000_0000_0000_0000
  const TWO_94: int := 0x4000_0000_0000_0000_0000_0000
  const FAST_CLOCK_NUM: int := 43
  const FAST_CLOCK_DEN: int := 10

  datatype Scale = Scale(rateInt: u8, rateFrac: u64, unitShift: int)

  /** Units per nanosecond in Q64. */
  function Rate(s: Scale): nat {
    s.rateInt * TWO_64 + s.rateFrac
  }

  // ---------------------------------------------------------------- the limits

  /** `x * 2^m < bound`, for any integer `m`. */
  predicate ScaledBelow(x: nat, m: int, bound: nat) {
    if 0 <= m then x * Pow2(m) < bound else x < bound * Pow2(-m)
  }

  /** The clock advances less than one unit per nanosecond. */
  predicate BelowOne(amount: nat, period: nat, m: int) {
    ScaledBelow(amount, m, period)
  }

  /** `amount * 2^m <= 4.3 * period`, for whole-token and multi-token units. */
  predicate BelowFast(amount: nat, period: nat, m: int)
    requires m <= 0
  {
    FAST_CLOCK_DEN * amount <= FAST_CLOCK_NUM * period * Pow2(-m)
  }

  /** A full bucket fits in 61 bits of units. */
  predicate BurstFits(capacity: nat, m: int) {
    ScaledBelow(capacity, m, TWO_61)
  }

  /** A unit of `2^-m` tokens respects the capacity limit and the clock-speed
      limit of its regime. */
  predicate Admissible(capacity: nat, amount: nat, period: nat, m: int) {
    && BurstFits(capacity, m)
    && if amount < period then BelowOne(amount, period, m) else m <= 0 && BelowFast(amount, period, m)
  }

  /** The finest admissible unit. */
  ghost predicate FinestUnit(capacity: nat, amount: nat, period: nat, m: int) {
    && Admissible(capacity, amount, period, m)
    && forall k: int :: m < k ==> !Admissible(capacity, amount, period, k)
  }

  /** Low bits of the period that do not enter the rate. */
  function Dropped(period: nat): nat {
    Max(Bits(period) - 64, 0)
  }

  /** The period's 64 leading bits. */
  function PeriodTop(period: nat): nat {
    period / Pow2(Dropped(period))
  }

  ghost predicate IsScale(capacity: nat, amount: nat, period: nat, s: Scale) {
    if capacity == 0 || amount == 0 || period == 0 then
      s == Scale(0, 1, 0)
    else
      && FinestUnit(capacity, amount, period, s.unitShift)
      && 0 < PeriodTop(period)
      && 0 <= s.unitShift + 64 - Dropped(period)
      && Rate(s) == DivCeil(amount * Pow2(s.unitShift + 64 - Dropped(period)), PeriodTop(period))
  }

  /** The parameters the searches run over: 32-bit counts, and a period below
      2^94 ns, which is every `Duration`. */
  ghost predicate InRange(capacity: nat, amount: nat, period: nat) {
    0 < capacity <= MAX_U32 && 0 < amount <= MAX_U32 && 0 < period < TWO_94
  }

  lemma DurationBelow94Bits(d: Duration)
    ensures AsNanos(d) < TWO_94
  {
    assert d.secs * NANOS_PER_SEC + d.nanos < TWO_64 * NANOS_PER_SEC;
  }

  // --------------------------------------------------- how the limits depend on m

  lemma Doubling(x: nat, k: nat)
    ensures x <= x * Pow2(k) <= x * Pow2(k + 1)
  {
    var w := Pow2(k);
    assert Pow2(k + 1) == w + w;
    assert x * (w + w) == x * w + x * w;
    ProductMonotonic(1, w, x);
  }

  /** Every limit bounds `2^m` from above, so all of them are downward closed. */
  lemma {:induction false} ScaledBelowIsDownwardClosed(x: nat, m: int, k: int, bound: nat)
    requires m <= k
    requires ScaledBelow(x, k, bound)
    ensures ScaledBelow(x, m, bound)
    decreases k - m
  {
    if m < k {
      if 1 <= k {
        Doubling(x, k - 1);
      } else {
        Doubling(bound, -k);
      }
      ScaledBelowIsDownwardClosed(x, m, k - 1, bound);
    }
  }

  lemma AdmissibleIsDownwardClosed(capacity: nat, amount: nat, period: nat, m: int, k: int)
    requires m <= k
    requires Admissible(capacity, amount, period, k)
    ensures Admissible(capacity, amount, period, m)
  {
    ScaledBelowIsDownwardClosed(capacity, m, k, TWO_61);
    if amount < period {
      ScaledBelowIsDownwardClosed(amount, m, k, period);
    } else {
      Pow2Monotonic(-k, -m);
      ProductMonotonic(Pow2(-k), Pow2(-m), FAST_CLOCK_NUM * period);
    }
  }

  /** The finest unit is unique, so the specification determines the scale. */
  lemma ScaleIsUnique(capacity: nat, amount: nat, period: nat, s: Scale, t: Scale)
    requires IsScale(capacity, amount, period, s) && IsScale(capacity, amount, period, t)
    ensures s == t
  {
    if capacity != 0 && amount != 0 && period != 0 {
      assert s.unitShift == t.unitShift;
      var r := Rate(s);
      assert r == Rate(t);
      assert r / TWO_64 == s.rateInt && r / TWO_64 == t.rateInt;
    }
  }

  /** The burst limit the source computes from the capacity's width is exact. */
  lemma BurstLimitIsExact(capacity: nat, m: int)
    requires 0 < capacity <= MAX_U32
    ensures 29 <= BURST_BITS - Bits(capacity) <= 60
    ensures BurstFits(capacity, m) <==> m <= BURST_BITS - Bits(capacity)
  {
    Pow2Of32();
    BitsAtMost(capacity, 32);
    BitsBracket(capacity);
    var b := Bits(capacity);
    var limit := BURST_BITS - b;
    Pow2Of64();
    Pow2Add(b, limit);
    ProductMonotonic(capacity + 1, Pow2(b), Pow2(limit));
    assert (capacity + 1) * Pow2(limit) == capacity * Pow2(limit) + Pow2(limit);
    if m <= limit {
      ScaledBelowIsDownwardClosed(capacity, m, limit, TWO_61);
    } else if BurstFits(capacity, m) {
      ScaledBelowIsDownwardClosed(capacity, limit + 1, m, TWO_61);
      Pow2Add(b - 1, limit + 1);
      ProductMonotonic(Pow2(b - 1), capacity, Pow2(limit + 1));
    }
  }

  lemma ScaleUp(x: nat, y: nat, b: nat, k: nat)
    ensures x < y && y == Pow2(b) ==> x * Pow2(k) < Pow2(b + k)
    ensures x <= y && x == Pow2(b) ==> Pow2(b + k) <= y * Pow2(k)
  {
    Pow2Add(b, k);
    var w := Pow2(k);
    CancelFactor(x, y, w);
  }

  /** The first search starts within one of its answer: with `a` and `p` the
      widths of the amount and the period, a shift of `p - a - 1` is slow enough
      and a shift of `p - a + 1` is too fast. */
  lemma WidthsBracketTheLimit(amount: nat, period: nat, a: nat, p: nat)
    requires 0 < a && Pow2(a - 1) <= amount < Pow2(a)
    requires 0 < p && Pow2(p - 1) <= period < Pow2(p)
    ensures ScaledBelow(amount, p - a - 1, period)
    ensures !ScaledBelow(amount, p - a + 1, period)
  {
    OneDownIsSlow(amount, period, a, p);
    OneUpIsFast(amount, period, a, p);
  }

  lemma OneDownIsSlow(amount: nat, period: nat, a: nat, p: nat)
    requires amount < Pow2(a)
    requires 0 < p && Pow2(p - 1) <= period
    ensures ScaledBelow(amount, p - a - 1, period)
  {
    if a < p {
      ScaleUp(amount, Pow2(a), a, p - a - 1);
    } else {
      ScaleUp(Pow2(p - 1), period, p - 1, a + 1 - p);
    }
  }

  lemma OneUpIsFast(amount: nat, period: nat, a: nat, p: nat)
    requires 0 < a && Pow2(a - 1) <= amount
    requires period < Pow2(p)
    ensures !ScaledBelow(amount, p - a + 1, period)
  {
    if a <= p + 1 {
      ScaleUp(Pow2(a - 1), amount, a - 1, p - a + 1);
    } else {
      ScaleUp(period, Pow2(p), p, a - 1 - p);
    }
  }

  /** The finest unit lies between 2^30 tokens and 2^-60 of a token, and is a
      whole token or finer below one token per nanosecond. */
  lemma UnitShiftRange(capacity: nat, amount: nat, period: nat, m: int)
    requires InRange(capacity, amount, period)
    requires FinestUnit(capacity, amount, period, m)
    ensures -30 <= m <= 60
    ensures amount < period ==> 0 <= m
    ensures m <= BURST_BITS - Bits(capacity)
  {
    Pow2Of32();
    Pow2Of64();
    BurstLimitIsExact(capacity, m);
    if amount < period {
      BurstLimitIsExact(capacity, 0);
      assert Admissible(capacity, amount, period, 0);
    } else {
      BurstLimitIsExact(capacity, -30);
      FastSearchEnds(amount, period);
      assert Admissible(capacity, amount, period, -30);
    }
  }

  /** A unit is a whole token or finer exactly when the configured rate is at
      most 4.3 tokens per nanosecond. */
  lemma ExactRegime(capacity: nat, amount: nat, period: nat, s: Scale)
    requires InRange(capacity, amount, period)
    requires IsScale(capacity, amount, period, s)
    ensures 0 <= s.unitShift <==> 10 * amount <= 43 * period
  {
    var m := s.unitShift;
    UnitShiftRange(capacity, amount, period, m);
    BurstLimitIsExact(capacity, 0);
    if period <= amount {
      assert BelowFast(amount, period, 0) <==> 10 * amount <= 43 * period;
      if 0 <= m {
        AdmissibleIsDownwardClosed(capacity, amount, period, 0, m);
      } else {
        assert !Admissible(capacity, amount, period, 0);
      }
    }
  }

  // ------------------------------------------------------------------- the rate

  lemma TopWord(x: nat, d: nat)
    requires Pow2(63 + d) <= x < Pow2(64 + d)
    ensures 0x8000_0000_0000_0000 <= x / Pow2(d) < TWO_64
  {
    Pow2Of64();
    Pow2Add(63, d);
    Pow2Add(64, d);
    FloorGalois(x, Pow2(d), 0x8000_0000_0000_0000);
    FloorGalois(x, Pow2(d), TWO_64);
  }

  /** What is dropped, and how much of the period is left. */
  lemma PeriodWords(period: nat)
    requires 0 < period < TWO_94
    ensures 0 <= Dropped(period) <= 30
    ensures Dropped(period) == 0 <==> period < TWO_64
    ensures Dropped(period) == 0 ==> PeriodTop(period) == period
    ensures Dropped(period) != 0 ==> 0x8000_0000_0000_0000 <= PeriodTop(period)
    ensures 0 < PeriodTop(period) < TWO_64
    ensures PeriodTop(period) * Pow2(Dropped(period)) <= period
    ensures period < PeriodTop(period) * Pow2(Dropped(period)) + Pow2(Dropped(period))
  {
    WidthAtMost94(period);
    BitsBracket(period);
    FloorBounds(period, Pow2(Dropped(period)));
    WidthOver64(period);
    if TWO_64 <= period {
      TopWord(period, Dropped(period));
    }
  }

  lemma WidthOver64(period: nat)
    ensures Bits(period) <= 64 <==> period < TWO_64
  {
    Pow2Of64();
    if period < TWO_64 {
      BitsAtMost(period, 64);
    } else if Bits(period) <= 64 {
      BitsBracket(period);
      Pow2Monotonic(Bits(period), 64);
    }
  }

  /** Below one token per nanosecond the numerator is at most `2^64` times the
      period's top word: either no dropped bit of the period matters to a
      multiple of `2^dropped`, or the scaled amount is far smaller than the period. */
  lemma SlowNumerator(amount: nat, period: nat, m: nat)
    requires 0 < amount <= MAX_U32 && 0 < period < TWO_94
    requires BelowOne(amount, period, m)
    ensures Dropped(period) <= m + 64
    ensures amount * Pow2(m + 64 - Dropped(period)) <= PeriodTop(period) * TWO_64
  {
    PeriodWords(period);
    Pow2Of64();
    var d := Dropped(period);
    if d <= m {
      Pow2Add(m - d, d);
      Pow2Add(m - d, 64);
      MultipleOfDropped(amount, Pow2(m - d), Pow2(d), period);
    } else {
      Pow2Monotonic(m + 64 - d, 63);
      ProductMonotonic(Pow2(m + 64 - d), 0x8000_0000_0000_0000, amount);
    }
  }

  lemma MultipleOfDropped(amount: nat, x: nat, w: nat, period: nat)
    requires 0 < w && amount * (x * w) < period
    ensures amount * (x * TWO_64) <= (period / w) * TWO_64
  {
    Associate(amount, x, w);
    FloorGalois(period, w, amount * x);
    Associate(amount, x, TWO_64);
    ProductMonotonic(amount * x, period / w, TWO_64);
  }

  /** At one token per nanosecond and above nothing of the period is dropped. */
  lemma FastNumerator(amount: nat, period: nat, m: int)
    requires 0 < period <= amount <= MAX_U32
    requires -64 <= m <= 0 && BelowFast(amount, period, m)
    ensures Dropped(period) == 0
    ensures 10 * (amount * Pow2(m + 64)) <= 43 * (period * TWO_64)
  {
    Pow2Of64();
    BitsAtMost(period, 64);
    Pow2Add(m + 64, -m);
    var w, v := Pow2(m + 64), Pow2(-m);
    FastProduct(amount, period, v, w);
  }

  lemma FastProduct(a: nat, p: nat, v: nat, w: nat)
    requires 10 * a <= 43 * p * v
    ensures 10 * (a * w) <= 43 * (p * (w * v))
  {
    ProductMonotonic(10 * a, 43 * p * v, w);
    Associate(43 * p, v, w);
    Associate(43, p, v * w);
    Associate(10, a, w);
  }

  /** The rate of every non-degenerate bucket: its numerator fits the 128-bit
      word, it is never zero, at most one unit per nanosecond below one token
      per nanosecond, and at most 4.3 units per nanosecond, rounded up, otherwise. */
  lemma RateFits(capacity: nat, amount: nat, period: nat, m: int)
    requires InRange(capacity, amount, period)
    requires FinestUnit(capacity, amount, period, m)
    ensures 0 < m + 64 - Dropped(period) < 128
    ensures 0 < PeriodTop(period)
    ensures 0 < amount * Pow2(m + 64 - Dropped(period)) < TWO_128
    ensures 1 <= DivCeil(amount * Pow2(m + 64 - Dropped(period)), PeriodTop(period))
    ensures amount < period ==> DivCeil(amount * Pow2(m + 64 - Dropped(period)), PeriodTop(period)) <= TWO_64
    ensures period <= amount ==>
      10 * (DivCeil(amount * Pow2(m + 64 - Dropped(period)), PeriodTop(period)) - 1) < 43 * TWO_64
  {
    UnitShiftRange(capacity, amount, period, m);
    PeriodWords(period);
    if amount < period {
      SlowNumerator(amount, period, m);
    } else {
      FastNumerator(amount, period, m);
    }
    var k := m + 64 - Dropped(period);
    Doubling(amount, k);
    RateOfNumerator(amount * Pow2(k), PeriodTop(period), amount < period);
  }

  lemma RateAt(capacity: nat, amount: nat, period: nat, s: Scale, k: nat)
    requires InRange(capacity, amount, period)
    requires IsScale(capacity, amount, period, s)
    requires s.unitShift + 64 - Dropped(period) == k
    ensures 0 < PeriodTop(period)
    ensures Rate(s) == DivCeil(amount * Pow2(k), PeriodTop(period))
  {
  }

  /** The same of a derived scale, in its two speed regimes. */
  lemma ScaleFits(capacity: nat, amount: nat, period: nat, s: Scale)
    requires InRange(capacity, amount, period)
    requires IsScale(capacity, amount, period, s)
    ensures -30 <= s.unitShift <= 60 && BurstFits(capacity, s.unitShift) && 1 <= Rate(s)
    ensures amount < period ==> 0 <= s.unitShift && Rate(s) <= TWO_64
    ensures period <= amount ==> s.unitShift <= 0 && 10 * (Rate(s) - 1) < 43 * TWO_64
  {
    UnitShiftRange(capacity, amount, period, s.unitShift);
    RateFits(capacity, amount, period, s.unitShift);
    RateAt(capacity, amount, period, s, s.unitShift + 64 - Dropped(period));
  }

  lemma RateOfNumerator(num: nat, top: nat, slow: bool)
    requires 0 < num && 0 < top < TWO_64
    requires if slow then num <= top * TWO_64 else 10 * num <= 43 * (top * TWO_64) && top <= MAX_U32
    ensures num < TWO_128
    ensures 1 <= DivCeil(num, top)
    ensures if slow then DivCeil(num, top) <= TWO_64 else 10 * (DivCeil(num, top) - 1) < 43 * TWO_64
  {
    var q := DivCeil(num, top);
    CeilGalois(num, top, 0);
    if slow {
      CeilGalois(num, top, TWO_64);
    } else {
      CancelFactor(10 * (q - 1), 43 * TWO_64, top);
    }
  }

  // --------------------------------------------------------------- the searches

  /** A left shift of a 128-bit word that loses no bits. */
  function Shl(x: u128, k: nat): u128
    requires k < 128 && x * Pow2(k) < TWO_128
  {
    x * Pow2(k)
  }

  predicate ShiftsFit(amount: nat, period: nat, m: int) {
    -128 < m < 128 && if 0 <= m then amount * Pow2(m) < TWO_128 else period * Pow2(-m) < TWO_128
  }

  predicate Below(amount: u128, period: u128, m: int)
    requires ShiftsFit(amount, period, m)
  {
    if 0 <= m then Shl(amount, m) < period else amount < Shl(period, -m)
  }

  predicate Fits(amount: u128, period: u128, m: int)
    requires -30 <= m <= 0 && amount <= MAX_U32 && period <= MAX_U32
  {
    FastShiftFits(period, -m);
    FAST_CLOCK_DEN * amount <= Shl(FAST_CLOCK_NUM * period, -m)
  }

  lemma FastShiftFits(period: nat, k: nat)
    requires period <= MAX_U32 && k <= 30
    ensures FAST_CLOCK_NUM * period * Pow2(k) < TWO_128
  {
    Pow2Of32();
    Pow2Monotonic(k, 30);
    ProductMonotonic(Pow2(k), 0x4000_0000, FAST_CLOCK_NUM * period);
  }

  /** Neither shift of the first search leaves the 128-bit word. */
  lemma FirstSearchFits(amount: nat, period: nat, a: nat, p: nat, m: int)
    requires 0 < a <= 32 && amount < Pow2(a)
    requires 0 < p <= 94 && period < Pow2(p)
    requires p - a - 1 <= m <= p - a
    ensures ShiftsFit(amount, period, m)
  {
    Pow2Of128();
    if 0 <= m {
      ScaleUp(amount, Pow2(a), a, m);
      Pow2Monotonic(a + m, 128);
    } else {
      ScaleUp(period, Pow2(p), p, -m);
      Pow2Monotonic(p - m, 128);
    }
  }

  /** Both searches of the source: step down from `start` to the first shift the
      closure accepts. */
  method SearchDown(accepts: int --> bool, start: int, ghost floor: int) returns (limit: int)
    requires floor <= start
    requires forall m: int :: floor <= m <= start ==> accepts.requires(m)
    requires accepts(floor)
    ensures floor <= limit <= start
    ensures accepts(limit)
    ensures forall m: int :: limit < m <= start ==> !accepts(m)
  {
    limit := start;
    while !accepts(limit)
      invariant floor <= limit <= start
      invariant forall m: int :: limit < m <= start ==> !accepts(m)
      decreases limit - floor
    {
      limit := limit - 1;
    }
  }

  /** The search starts at `start`; one step down is slow enough, everything
      above is too fast, and both shifts fit. */
  lemma FirstSearchBracket(amount: u128, period: u128, a: nat, p: nat)
    requires 0 < a <= 32 && Pow2(a - 1) <= amount < Pow2(a)
    requires 0 < p <= 94 && Pow2(p - 1) <= period < Pow2(p)
    ensures forall m: int :: p - a - 1 <= m <= p - a ==> ShiftsFit(amount, period, m)
    ensures Below(amount, period, p - a - 1)
  {
    WidthsBracketTheLimit(amount, period, a, p);
    forall m: int | p - a - 1 <= m <= p - a
      ensures ShiftsFit(amount, period, m)
    {
      FirstSearchFits(amount, period, a, p, m);
    }
  }

  /** What the first search establishes. */
  lemma FirstSearchIsExact(amount: u128, period: u128, a: nat, p: nat, limit: int)
    requires 0 < a <= 32 && Pow2(a - 1) <= amount < Pow2(a)
    requires 0 < p <= 94 && Pow2(p - 1) <= period < Pow2(p)
    requires forall m: int :: p - a - 1 <= m <= p - a ==> ShiftsFit(amount, period, m)
    requires p - a - 1 <= limit <= p - a
    requires Below(amount, period, limit)
    requires limit < p - a ==> !Below(amount, period, p - a)
    ensures BelowOne(amount, period, limit)
    ensures forall m: int :: limit < m ==> !BelowOne(amount, period, m)
  {
    WidthsBracketTheLimit(amount, period, a, p);
    forall m: int | limit < m
      ensures !BelowOne(amount, period, m)
    {
      TooFastAbove(amount, period, if limit < p - a then p - a else p - a + 1, m);
    }
  }

  lemma TooFastAbove(amount: nat, period: nat, k: int, m: int)
    requires k <= m && !ScaledBelow(amount, k, period)
    ensures !BelowOne(amount, period, m)
  {
    if BelowOne(amount, period, m) {
      ScaledBelowIsDownwardClosed(amount, k, m, period);
    }
  }

  /** The finest unit that keeps the clock below one unit per nanosecond. */
  method SlowClockLimit(amount: u128, period: u128) returns (limit: int)
    requires 0 < amount <= MAX_U32 && 0 < period < TWO_94
    ensures BelowOne(amount, period, limit)
    ensures forall m: int :: limit < m ==> !BelowOne(amount, period, m)
  {
    Pow2Of32();
    BitsAtMost(amount, 32);
    WidthAtMost94(period);
    BitsBracket(amount);
    BitsBracket(period);
    limit := SlowSearch(amount, period, Bits(amount), Bits(period));
  }

  method SlowSearch(amount: u128, period: u128, a: nat, p: nat) returns (limit: int)
    requires 0 < a <= 32 && Pow2(a - 1) <= amount < Pow2(a)
    requires 0 < p <= 94 && Pow2(p - 1) <= period < Pow2(p)
    ensures BelowOne(amount, period, limit)
    ensures forall m: int :: limit < m ==> !BelowOne(amount, period, m)
  {
    FirstSearchBracket(amount, period, a, p);
    var below := m requires ShiftsFit(amount, period, m) => Below(amount, period, m);
    limit := SearchDown(below, p - a, p - a - 1);
    assert limit < p - a ==> !below(p - a);
    FirstSearchIsExact(amount, period, a, p, limit);
  }

  /** The finest whole-token or multi-token unit that keeps the clock at or below
      4.3 units per nanosecond. */
  method FastClockLimit(amount: u128, period: u128) returns (limit: int)
    requires 0 < amount <= MAX_U32 && 0 < period <= MAX_U32
    ensures -30 <= limit <= 0 && BelowFast(amount, period, limit)
    ensures forall m: int :: limit < m <= 0 ==> !BelowFast(amount, period, m)
  {
    FastSearchEnds(amount, period);
    var fits := m requires -30 <= m <= 0 => Fits(amount, period, m);
    FastClosure(amount, period, -30);
    limit := SearchDown(fits, 0, -30);
    FastClosure(amount, period, limit);
    forall m: int | limit < m <= 0
      ensures !BelowFast(amount, period, m)
    {
      FastClosure(amount, period, m);
      assert !fits(m);
    }
  }

  lemma FastClosure(amount: u128, period: u128, m: int)
    requires -30 <= m <= 0 && amount <= MAX_U32 && period <= MAX_U32
    ensures Fits(amount, period, m) <==> BelowFast(amount, period, m)
  {
  }

  lemma FastSearchEnds(amount: nat, period: nat)
    requires amount <= MAX_U32 && 0 < period
    ensures BelowFast(amount, period, -30)
  {
    Pow2Of32();
    ProductMonotonic(1, period, FAST_CLOCK_NUM * 0x4000_0000);
    assert FAST_CLOCK_NUM * period * 0x4000_0000 == period * (FAST_CLOCK_NUM * 0x4000_0000);
  }

  /** The smaller of the burst limit and the clock limit is the finest unit. */
  lemma SmallerLimitIsFinest(capacity: nat, amount: nat, period: nat, clockLimit: int)
    requires InRange(capacity, amount, period)
    requires amount < period ==> BelowOne(amount, period, clockLimit) &&
                                 forall m: int :: clockLimit < m ==> !BelowOne(amount, period, m)
    requires period <= amount ==> clockLimit <= 0 && BelowFast(amount, period, clockLimit) &&
                                  forall m: int :: clockLimit < m <= 0 ==> !BelowFast(amount, period, m)
    ensures FinestUnit(capacity, amount, period, Min(BURST_BITS - Bits(capacity), clockLimit))
  {
    var burstLimit: int := BURST_BITS - Bits(capacity);
    var shift := Min(burstLimit, clockLimit);
    BurstLimitIsExact(capacity, shift);
    if amount < period {
      ScaledBelowIsDownwardClosed(amount, shift, clockLimit, period);
    } else {
      assert shift == clockLimit;
    }
    forall k: int | shift < k
      ensures !Admissible(capacity, amount, period, k)
    {
      BurstLimitIsExact(capacity, k);
    }
  }

  /** Below zero exactly when the rate is one token per nanosecond or more. */
  lemma SlowLimitSign(amount: nat, period: nat, limit: int)
    requires BelowOne(amount, period, limit)
    requires forall m: int :: limit < m ==> !BelowOne(amount, period, m)
    ensures limit < 0 <==> period <= amount
  {
    if 0 <= limit {
      ScaledBelowIsDownwardClosed(amount, 0, limit, period);
    } else {
      assert !BelowOne(amount, period, 0);
    }
    assert BelowOne(amount, period, 0) <==> amount < period;
  }

  /** The two searches: the slow limit first, the fast limit when that one asks
      for multi-token units, then the burst limit on top. */
  method FinestShift(capacity: u32, amount: u32, period: u128) returns (unitShift: int)
    requires InRange(capacity, amount, period)
    ensures FinestUnit(capacity, amount, period, unitShift)
  {
    var burstLimit: int := BURST_BITS - Bits(capacity);
    var clockLimit := SlowClockLimit(amount, period);
    SlowLimitSign(amount, period, clockLimit);
    if clockLimit < 0 {
      clockLimit := FastClockLimit(amount, period);
    }
    SmallerLimitIsFinest(capacity, amount, period, clockLimit);
    unitShift := Min(burstLimit, clockLimit);
  }

  method DeriveNonZero(capacity: u32, amount: u32, period: u128) returns (s: Scale)
    requires InRange(capacity, amount, period)
    ensures IsScale(capacity, amount, period, s)
  {
    var unitShift := FinestShift(capacity, amount, period);
    RateFits(capacity, amount, period, unitShift);
    s := RoundUpRate(amount, period, unitShift);
  }

  method Derive(capacity: u32, amount: u32, period: Duration) returns (s: Scale)
    ensures IsScale(capacity, amount, AsNanos(period), s)
  {
    ZeroNanos(period);
    if capacity == 0 || amount == 0 || IsZero(period) {
      s := Scale(0, 1, 0);
    } else {
      DurationBelow94Bits(period);
      s := DeriveNonZero(capacity, amount, AsNanos(period));
    }
  }

  /** The rounded-up rate, split at the radix point. */
  method RoundUpRate(amount: u128, period: u128, unitShift: int) returns (s: Scale)
    requires 0 < unitShift + 64 - Dropped(period) < 128
    requires 0 < PeriodTop(period)
    requires amount * Pow2(unitShift + 64 - Dropped(period)) < TWO_128
    requires 10 * (DivCeil(amount * Pow2(unitShift + 64 - Dropped(period)), PeriodTop(period)) - 1) < 43 * TWO_64
    ensures s.unitShift == unitShift
    ensures Rate(s) == DivCeil(amount * Pow2(unitShift + 64 - Dropped(period)), PeriodTop(period))
  {
    var drop := Max(Bits(period) - 64, 0);
    var periodTop := period / Pow2(drop);
    var shift := unitShift + 64 - drop;
    var rate: u128 := DivCeil(Shl(amount, shift), periodTop);
    s := Scale(rate / TWO_64, rate % TWO_64, unitShift);
  }

  lemma WidthAtMost94(period: nat)
    requires period < TWO_94
    ensures Bits(period) <= 94
  {
    Pow2Of64();
    Pow2Of32();
    Pow2Sum(64, 30, TWO_64, 0x4000_0000);
    BitsAtMost(period, 94);
  }
}
