/** How far the bucket's clock is from exact accrual, how long it lasts, and
    where the source's comments about it are too strong.

    Exact accrual over `t` nanoseconds is the rational `RateNum * t / RateDen`
    units, that is `amount * 2^unitShift * t / period`. */
module ClockBounds {
  import opened Arithmetic
  import opened Durations
  import opened Scales
  import opened Engines

  predicate Working(e: Engine) {
    0 < e.config.capacity && 0 < e.config.refillAmount && 0 < AsNanos(e.config.refillPeriod)
  }

  function Amount(e: Engine): nat {
    e.config.refillAmount
  }

  function Period(e: Engine): nat {
    AsNanos(e.config.refillPeriod)
  }

  function RateNum(e: Engine): nat {
    if Exact(e) then Amount(e) * Factor(e) else Amount(e)
  }

  function RateDen(e: Engine): (d: nat)
    ensures Working(e) ==> 0 < d
  {
    ProductMonotonic(1, Factor(e), Period(e));
    if Exact(e) then Period(e) else Period(e) * Factor(e)
  }

  /** Truncating the period to 64 bits loses nothing. */
  predicate Lossless(e: Engine) {
    PeriodTop(Period(e)) * Pow2(Dropped(Period(e))) == Period(e)
  }

  /** How far the rounded rate is above exact, in parts of `RateDen`. */
  function Excess(e: Engine): int {
    Rate(e.scale) * RateDen(e) - RateNum(e) * TWO_64
  }

  /** Units the clock can be ahead of exact accrual: one, or three when the rate is
      more than one part in 2^64 above exact. */
  function Ahead(e: Engine): nat {
    if Excess(e) <= RateDen(e) then 1 else 3
  }

  lemma ShortPeriodIsLossless(e: Engine)
    requires Working(e) && Period(e) < TWO_64
    ensures Lossless(e)
  {
    DurationBelow94Bits(e.config.refillPeriod);
    PeriodWords(Period(e));
    assert Pow2(0) == 1;
  }

  /** The two speed regimes. */
  lemma WorkingFacts(e: Engine)
    requires Working(e) && Derived(e)
    ensures InRange(e.config.capacity, Amount(e), Period(e))
    ensures Amount(e) < Period(e) ==> Exact(e) && Rate(e.scale) <= TWO_64
    ensures Period(e) <= Amount(e) ==> e.scale.unitShift <= 0 && 10 * (Rate(e.scale) - 1) < 43 * TWO_64
  {
    DurationBelow94Bits(e.config.refillPeriod);
    ScaleFits(e.config.capacity, Amount(e), Period(e), e.scale);
  }

  // ------------------------------------------------------------- rate accuracy

  /** Arithmetic of a rate rounded up from a truncated period: never below exact... */
  lemma RoundedRateLower(n: nat, top: nat, w: nat, r: nat, period: nat, x: nat)
    requires n * w == x * TWO_64
    requires n <= r * top && top * w <= period
    ensures x * TWO_64 <= r * period
  {
    ProductMonotonic(n, r * top, w);
    Associate(r, top, w);
    ProductMonotonic(top * w, period, r);
  }

  /** ...less than one part above it when nothing was truncated... */
  lemma RoundedRateUpper(n: nat, top: nat, w: nat, r: nat, x: nat)
    requires 0 < w && n * w == x * TWO_64
    requires (r - 1) * top < n
    ensures r * (top * w) < x * TWO_64 + top * w
  {
    CancelFactor((r - 1) * top, n, w);
    Associate(r - 1, top, w);
    assert (r - 1) * (top * w) == r * (top * w) - top * w;
  }

  /** ...and less than three parts when up to `w - 1` was. */
  lemma TruncatedRateUpper(top: nat, w: nat, r: nat, period: nat, x: nat)
    requires r * (top * w) < x * TWO_64 + top * w
    requires 0 < r <= TWO_64 && TWO_64 <= 2 * top
    requires top * w <= period < top * w + w
    ensures r * period < x * TWO_64 + 3 * period
  {
    var rest := period - top * w;
    assert r * period == r * (top * w) + r * rest;
    ProductMonotonic(r, 2 * top, rest);
    ProductMonotonic(rest, w, 2 * top);
  }

  /** The rate is at least exact, and less than one part in 2^64 above it, or less
      than three where truncating the period loses something. */
  lemma RateAccuracy(e: Engine)
    requires Working(e) && Derived(e)
    ensures AccurateTo(if Lossless(e) then 1 else 3, RateNum(e), RateDen(e), Rate(e.scale))
    ensures Lossless(e) ==> Ahead(e) == 1
    ensures WithinParts(Ahead(e), RateNum(e), RateDen(e), Rate(e.scale))
  {
    WorkingFacts(e);
    ScaleRate(e.config.capacity, Amount(e), Period(e), e.scale);
    PartsOfExcess(if Lossless(e) then 1 else 3, RateNum(e), RateDen(e), Rate(e.scale));
  }

  lemma PartsOfExcess(k: nat, n: int, d: nat, r: nat)
    requires (k == 1 || k == 3) && AccurateTo(k, n, d, r)
    ensures k == 1 ==> r * d - n * TWO_64 <= d
    ensures WithinParts(if r * d - n * TWO_64 <= d then 1 else 3, n, d, r)
  {
  }

  lemma ScaleRate(capacity: nat, amount: nat, period: nat, s: Scale)
    requires InRange(capacity, amount, period)
    requires IsScale(capacity, amount, period, s)
    requires period < TWO_64 || (0 <= s.unitShift && Rate(s) <= TWO_64)
    requires 0 < Rate(s)
    ensures var k := if PeriodTop(period) * Pow2(Dropped(period)) == period then 1 else 3;
            if 0 <= s.unitShift then AccurateTo(k, amount * Pow2(s.unitShift), period, Rate(s))
            else AccurateTo(k, amount, period * Pow2(-s.unitShift), Rate(s))
  {
    var k := s.unitShift + 64 - Dropped(period);
    RateAt(capacity, amount, period, s, k);
    ScaleAccuracy(amount, period, s.unitShift, amount * Pow2(k), Rate(s));
  }

  lemma ScaleAccuracy(amount: nat, period: nat, m: int, num: nat, r: nat)
    requires 0 < amount && 0 < period < TWO_94
    requires 0 <= m + 64 - Dropped(period) && num == amount * Pow2(m + 64 - Dropped(period))
    requires 0 < PeriodTop(period) && 0 < r == DivCeil(num, PeriodTop(period))
    requires period < TWO_64 || (0 <= m && r <= TWO_64)
    ensures var k := if PeriodTop(period) * Pow2(Dropped(period)) == period then 1 else 3;
            if 0 <= m then AccurateTo(k, amount * Pow2(m), period, r) else AccurateTo(k, amount, period * Pow2(-m), r)
  {
    PeriodWords(period);
    if 0 <= m {
      FineRate(amount, m, Dropped(period), PeriodTop(period), r, period);
    } else {
      assert PeriodTop(period) * Pow2(0) == period;
      Pow2Of64();
      Pow2Add(m + 64, -m);
      CoarseRate(amount, Pow2(m + 64), Pow2(-m), r, period);
    }
  }

  /** The Q64 rate `r` is at least `n / d` and less than `k` parts above it. */
  predicate AccurateTo(k: nat, n: int, d: int, r: nat) {
    n * TWO_64 <= r * d < n * TWO_64 + k * d
  }

  predicate WithinParts(k: nat, n: int, d: int, r: nat) {
    n * TWO_64 <= r * d <= n * TWO_64 + k * d
  }

  lemma FineRate(amount: nat, m: nat, d: nat, top: nat, r: nat, period: nat)
    requires d <= m + 64 && 0 < top
    requires r == DivCeil(amount * Pow2(m + 64 - d), top) && 0 < r
    requires top * Pow2(d) <= period < top * Pow2(d) + Pow2(d)
    ensures amount * Pow2(m) * TWO_64 <= r * period
    ensures period == top * Pow2(d) ==> r * period < amount * Pow2(m) * TWO_64 + period
    ensures r <= TWO_64 && TWO_64 <= 2 * top ==> r * period < amount * Pow2(m) * TWO_64 + 3 * period
  {
    Pow2Of64();
    Pow2Add(m + 64 - d, d);
    Pow2Add(m, 64);
    FineQuotient(amount, Pow2(m + 64 - d), Pow2(m), Pow2(d), top, r, period);
  }

  lemma FineQuotient(a: nat, u: nat, v: nat, w: nat, top: nat, r: nat, period: nat)
    requires 0 < w && 0 < top && u * w == v * TWO_64
    requires r == DivCeil(a * u, top) && 0 < r
    requires top * w <= period < top * w + w
    ensures a * v * TWO_64 <= r * period
    ensures period == top * w ==> r * period < a * v * TWO_64 + period
    ensures r <= TWO_64 && TWO_64 <= 2 * top ==> r * period < a * v * TWO_64 + 3 * period
  {
    Associate(a, u, w);
    Associate(a, v, TWO_64);
    RoundedRateLower(a * u, top, w, r, period, a * v);
    RoundedRateUpper(a * u, top, w, r, a * v);
    if r <= TWO_64 && TWO_64 <= 2 * top {
      TruncatedRateUpper(top, w, r, period, a * v);
    }
  }

  lemma CoarseRate(a: nat, u: nat, w: nat, r: nat, period: nat)
    requires 0 < w && 0 < period && u * w == TWO_64
    requires r == DivCeil(a * u, period) && 0 < r
    ensures a * TWO_64 <= r * (period * w)
    ensures r * (period * w) < a * TWO_64 + period * w
  {
    Associate(a, u, w);
    Associate(r, period, w);
    ProductMonotonic(a * u, r * period, w);
    CancelFactor((r - 1) * period, a * u, w);
    assert (r - 1) * period * w == r * period * w - period * w;
  }

  // ------------------------------------------------------------ clock accuracy

  /** The reading's instant lies past the end of the clock. */
  predicate Saturated(e: Engine, ns: u64) {
    ORIGIN + Accrued(e, ns) > MAX_U64
  }

  /** Floors of two multiples of a rate differ by the floor of the difference,
      or one more. */
  lemma FloorDifference(a: nat, b: nat, r: nat)
    requires a <= b
    ensures (b - a) * r / TWO_64 <= b * r / TWO_64 - a * r / TWO_64
    ensures (b * r / TWO_64 - a * r / TWO_64) * TWO_64 < (b - a) * r + TWO_64
  {
    assert b * r == a * r + (b - a) * r;
    FloorBounds(a * r, TWO_64);
    FloorBounds(b * r, TWO_64);
    FloorGalois(b * r, TWO_64, a * r / TWO_64 + (b - a) * r / TWO_64);
    FloorBounds((b - a) * r, TWO_64);
  }

  /** The converted clock between two readings is never slower than exact accrual,
      rounded down, and less than `Ahead + 1` units faster, whatever the readings. */
  lemma ClockWindow(e: Engine, a: u64, b: u64)
    requires Working(e) && Derived(e)
    requires a <= b
    ensures !Saturated(e, b) ==> RateNum(e) * (b - a) / RateDen(e) <= UnitsAt(e, b) - UnitsAt(e, a)
    ensures (UnitsAt(e, b) - UnitsAt(e, a)) * RateDen(e) < RateNum(e) * (b - a) + (Ahead(e) + 1) * RateDen(e)
  {
    RateAccuracy(e);
    ClockSpan(e, a, b);
    WindowArithmetic(b - a, Accrued(e, b) - Accrued(e, a), UnitsAt(e, b) - UnitsAt(e, a),
                     Rate(e.scale), RateNum(e), RateDen(e), Ahead(e));
  }

  lemma WindowArithmetic(t: nat, q: int, span: int, r: nat, n: nat, d: nat, k: nat)
    requires 0 < d && 0 < k && t < TWO_64 && span <= q
    requires t * r / TWO_64 <= q && q * TWO_64 < t * r + TWO_64
    requires WithinParts(k, n, d, r)
    ensures n * t / d <= q
    ensures span * d < n * t + (k + 1) * d
  {
    WindowLower(t, q, r, n, d);
    WindowUpper(t, q, r, n, d, k);
    ProductMonotonic(span, q, d);
  }

  /** Saturation only shortens the span between two readings. */
  lemma ClockSpan(e: Engine, a: u64, b: u64)
    requires a <= b
    ensures var q := Accrued(e, b) - Accrued(e, a);
            (b - a) * Rate(e.scale) / TWO_64 <= q && q * TWO_64 < (b - a) * Rate(e.scale) + TWO_64
    ensures UnitsAt(e, b) - UnitsAt(e, a) <= Accrued(e, b) - Accrued(e, a)
    ensures !Saturated(e, b) ==> UnitsAt(e, b) - UnitsAt(e, a) == Accrued(e, b) - Accrued(e, a)
  {
    AccruedIsWideFloor(e, a);
    AccruedIsWideFloor(e, b);
    FloorDifference(a, b, Rate(e.scale));
    ProductMonotonic(0, b - a, Rate(e.scale));
    FloorGalois((b - a) * Rate(e.scale), TWO_64, 0);
  }

  lemma WindowLower(t: nat, q: int, r: nat, n: nat, d: nat)
    requires 0 < d
    requires t * r / TWO_64 <= q
    requires n * TWO_64 <= r * d
    ensures n * t / d <= q
  {
    var f := n * t / d;
    FloorBounds(n * t, d);
    ProductMonotonic(n * TWO_64, r * d, t);
    assert r * d * t == t * r * d && n * TWO_64 * t == n * t * TWO_64;
    ProductMonotonic(f * d, n * t, TWO_64);
    assert f * d * TWO_64 == f * TWO_64 * d;
    CancelFactor(f * TWO_64, t * r, d);
    FloorGalois(t * r, TWO_64, f);
  }

  lemma WindowUpper(t: nat, q: int, r: nat, n: nat, d: nat, k: nat)
    requires 0 < d && 0 < k && t < TWO_64
    requires q * TWO_64 < t * r + TWO_64
    requires r * d <= n * TWO_64 + k * d
    ensures q * d < n * t + (k + 1) * d
  {
    CancelFactor(q * TWO_64, t * r + TWO_64, d);
    assert (t * r + TWO_64) * d == t * (r * d) + TWO_64 * d;
    ProductMonotonic(r * d, n * TWO_64 + k * d, t);
    assert t * (n * TWO_64 + k * d) == n * t * TWO_64 + t * (k * d);
    ProductMonotonic(t, TWO_64, k * d);
    assert (n * t + (k + 1) * d) * TWO_64 == n * t * TWO_64 + TWO_64 * (k * d) + TWO_64 * d;
    assert q * TWO_64 * d == q * d * TWO_64;
    CancelFactor(q * d, n * t + (k + 1) * d, TWO_64);
  }

  /** At a single reading: exactly due units have arrived, and the clock is less
      than `Ahead` units ahead of exact. */
  lemma ClockReading(e: Engine, ns: u64)
    requires Working(e) && Derived(e)
    ensures !Saturated(e, ns) ==> RateNum(e) * ns / RateDen(e) <= UnitsAt(e, ns) - ORIGIN
    ensures (UnitsAt(e, ns) - ORIGIN) * RateDen(e) < RateNum(e) * ns + Ahead(e) * RateDen(e)
  {
    RateAccuracy(e);
    AccruedIsWideFloor(e, ns);
    ReadingBounds(ns, Accrued(e, ns), UnitsAt(e, ns) - ORIGIN, Rate(e.scale), RateNum(e), RateDen(e), Ahead(e));
  }

  lemma ReadingBounds(t: nat, q: nat, span: int, r: nat, n: nat, d: nat, k: nat)
    requires 0 < d && 0 < k && t < TWO_64 && span <= q
    requires q == t * r / TWO_64
    requires WithinParts(k, n, d, r)
    ensures n * t / d <= q
    ensures span * d < n * t + k * d
  {
    FloorBounds(t * r, TWO_64);
    WindowLower(t, q, r, n, d);
    ReadingArithmetic(t, q, r, n, d, k);
    ProductMonotonic(span, q, d);
  }

  lemma ReadingArithmetic(t: nat, q: nat, r: nat, n: nat, d: nat, k: nat)
    requires 0 < d && 0 < k && t < TWO_64
    requires q * TWO_64 <= t * r
    requires r * d <= n * TWO_64 + k * d
    ensures q * d < n * t + k * d
  {
    ProductMonotonic(1, k, d);
    StrictProduct(t, r * d, n * TWO_64, k * d);
    ProductMonotonic(q * TWO_64, t * r, d);
    Associate(t, r, d);
    Associate(t, n, TWO_64);
    assert q * TWO_64 * d == q * d * TWO_64;
    assert (n * t + k * d) * TWO_64 == n * t * TWO_64 + TWO_64 * (k * d);
    CancelFactor(q * d, n * t + k * d, TWO_64);
  }

  lemma StrictProduct(t: nat, x: int, y: int, z: nat)
    requires 0 < z && t < TWO_64 && x <= y + z
    ensures t * x < t * y + TWO_64 * z
  {
    ProductMonotonic(x, y + z, t);
    assert t * (y + z) == t * y + t * z;
    CancelFactor(t, TWO_64, z);
  }

  // -------------------------------------------------------------- clock range

  const CENTURY_NANOS: int := 3_155_760_000_000_000_000
  const CLOCK_RANGE: int := 0xC000_0000_0000_0000

  /** Below one token per nanosecond the clock outlasts 3 * 2^62 - 1 ns; at any
      rate, degenerate buckets included, it outlasts a century. */
  lemma ClockLasts(e: Engine, ns: u64)
    requires Derived(e)
    requires ns <= CENTURY_NANOS || (Working(e) && Amount(e) < Period(e) && ns < CLOCK_RANGE)
    ensures !Saturated(e, ns)
  {
    AccruedIsWideFloor(e, ns);
    if Working(e) {
      WorkingFacts(e);
    }
    if Rate(e.scale) <= TWO_64 {
      SlowAccrual(ns, Rate(e.scale));
    } else {
      FastAccrual(ns, Rate(e.scale));
    }
  }

  lemma SlowAccrual(ns: nat, r: nat)
    requires r <= TWO_64
    ensures ns * r / TWO_64 <= ns
  {
    ProductMonotonic(r, TWO_64, ns);
    FloorBounds(ns * r, TWO_64);
    CancelFactor(ns * r / TWO_64, ns, TWO_64);
  }

  lemma FastAccrual(ns: nat, r: nat)
    requires 10 * (r - 1) < 43 * TWO_64 && ns <= CENTURY_NANOS
    ensures ns * r / TWO_64 < CLOCK_RANGE
  {
    ProductMonotonic(ns, CENTURY_NANOS, r);
    ProductMonotonic(10 * r, 43 * TWO_64 + 9, CENTURY_NANOS);
    FloorGalois(ns * r, TWO_64, CLOCK_RANGE);
  }

  /** The clock of a degenerate bucket is frozen: it stays at its origin at every
      reading, and its tokens are whole units. */
  lemma DegenerateIsFrozen(e: Engine, ns: u64)
    requires Derived(e) && !Working(e)
    ensures UnitsAt(e, ns) == ORIGIN && !Saturated(e, ns)
    ensures forall n: u32 :: n <= Capacity(e) ==> Cost(e, n) == n
  {
    AccruedIsWideFloor(e, ns);
    assert Rate(e.scale) == 1;
    FloorGalois(ns, TWO_64, 1);
    FloorGalois(ns, TWO_64, 0);
    assert Factor(e) == Pow2(0) == 1;
  }

  // ----------------------------------------------- the integer part of the rate

  /** The amount, shifted up to the period's width, falls short of the period but
      agrees with it in its 64 leading bits, and the capacity leaves room for a
      unit that fine. */
  predicate LeadingBitsAgree(capacity: nat, amount: nat, period: nat) {
    && Bits(amount) <= 64 < Bits(period)
    && Bits(capacity) + Bits(period) - Bits(amount) <= BURST_BITS
    && amount * Pow2(Bits(period) - Bits(amount)) < period
    && PeriodTop(period) == amount * Pow2(64 - Bits(amount))
  }

  /** Exactly when the rate has an integer part, below one token per nanosecond:
      a condition on the three configured numbers alone. */
  lemma IntegerPartZero(e: Engine)
    requires Working(e) && Derived(e)
    requires Amount(e) < Period(e)
    ensures Rate(e.scale) <= TWO_64
    ensures e.scale.rateInt == 0 <==> !LeadingBitsAgree(e.config.capacity, Amount(e), Period(e))
  {
    WorkingFacts(e);
    if LeadingBitsAgree(e.config.capacity, Amount(e), Period(e)) {
      AgreementIsFullRate(e.config.capacity, Amount(e), Period(e), e.scale);
    }
    if TWO_64 <= Rate(e.scale) {
      FullRateAgrees(e.config.capacity, Amount(e), Period(e), e.scale);
    }
  }

  lemma ShiftAtMost(amount: nat, period: nat, a: nat, p: nat, m: int)
    requires 0 < a && Pow2(a - 1) <= amount < Pow2(a)
    requires 0 < p && Pow2(p - 1) <= period < Pow2(p)
    requires BelowOne(amount, period, m)
    ensures m <= p - a
  {
    WidthsBracketTheLimit(amount, period, a, p);
    if p - a < m {
      ScaledBelowIsDownwardClosed(amount, p - a + 1, m, period);
    }
  }

  lemma ShiftAtLeast(amount: nat, a: nat, p: nat, m: nat)
    requires amount < Pow2(a)
    requires 0 < p && Pow2(p - 1) <= amount * Pow2(m)
    ensures p - a <= m
  {
    if a + m < p {
      ScaleUp(amount, Pow2(a), a, m);
      Pow2Monotonic(a + m, p - 1);
    }
  }

  /** The agreement leaves a shift of the two widths' difference as the finest... */
  lemma AgreementFixesUnit(capacity: nat, amount: nat, period: nat, m: int, k: nat)
    requires InRange(capacity, amount, period) && amount < period
    requires FinestUnit(capacity, amount, period, m)
    requires k == Bits(period) - Bits(amount) && Bits(capacity) + k <= BURST_BITS
    requires BelowOne(amount, period, k)
    ensures m == k
  {
    BitsBracket(amount);
    BitsBracket(period);
    FinestIsSlow(capacity, amount, period, m);
    ShiftAtMost(amount, period, Bits(amount), Bits(period), m);
    BurstLimitIsExact(capacity, k);
    FinestIsAtLeast(capacity, amount, period, m, k);
  }

  lemma FinestIsSlow(capacity: nat, amount: nat, period: nat, m: int)
    requires FinestUnit(capacity, amount, period, m) && amount < period
    ensures BelowOne(amount, period, m)
  {
  }

  lemma FinestIsAtLeast(capacity: nat, amount: nat, period: nat, m: int, k: int)
    requires FinestUnit(capacity, amount, period, m)
    requires amount < period && BurstFits(capacity, k) && BelowOne(amount, period, k)
    ensures k <= m
  {
    assert Admissible(capacity, amount, period, k);
  }

  /** ...and makes the rate round up to one unit per nanosecond. */
  lemma AgreementIsFullRate(capacity: nat, amount: nat, period: nat, s: Scale)
    requires InRange(capacity, amount, period) && amount < period
    requires IsScale(capacity, amount, period, s)
    requires LeadingBitsAgree(capacity, amount, period)
    ensures Rate(s) == TWO_64
  {
    AgreementFixesUnit(capacity, amount, period, s.unitShift, Bits(period) - Bits(amount));
    RateAt(capacity, amount, period, s, 128 - Bits(amount));
    AgreedQuotient(amount, Bits(amount), PeriodTop(period));
  }

  lemma AgreedQuotient(amount: nat, a: nat, top: nat)
    requires a <= 64 && 0 < top == amount * Pow2(64 - a)
    ensures DivCeil(amount * Pow2(128 - a), top) == TWO_64
  {
    Pow2Of64();
    Pow2Add(64 - a, 64);
    QuotientOfMultiple(amount, Pow2(64 - a), top);
  }

  lemma QuotientOfMultiple(a: nat, x: nat, top: nat)
    requires 0 < top == a * x
    ensures DivCeil(a * (x * TWO_64), top) == TWO_64
  {
    Associate(a, x, TWO_64);
    CeilGalois(top * TWO_64, top, TWO_64);
    CeilGalois(top * TWO_64, top, TWO_64 - 1);
  }

  /** Conversely, a rate that rounds up to a full unit needs the scaled amount to
      fill every kept bit of the period. */
  lemma FullRateAgrees(capacity: nat, amount: nat, period: nat, s: Scale)
    requires InRange(capacity, amount, period) && amount < period
    requires IsScale(capacity, amount, period, s)
    requires TWO_64 <= Rate(s)
    ensures LeadingBitsAgree(capacity, amount, period)
  {
    var m := s.unitShift;
    UnitShiftRange(capacity, amount, period, m);
    FinestIsSlow(capacity, amount, period, m);
    RateAt(capacity, amount, period, s, m + 64 - Dropped(period));
    FullQuotient(amount * Pow2(m + 64 - Dropped(period)), PeriodTop(period));
    FullNumerator(amount, period, m);
    FullRateLeavesRoom(capacity, amount, period, m);
  }

  lemma FullRateLeavesRoom(capacity: nat, amount: nat, period: nat, m: nat)
    requires InRange(capacity, amount, period) && amount < period
    requires FinestUnit(capacity, amount, period, m)
    ensures Bits(capacity) + m <= BURST_BITS && amount * Pow2(m) < period
  {
    UnitShiftRange(capacity, amount, period, m);
    FinestIsSlow(capacity, amount, period, m);
  }

  lemma FullQuotient(num: nat, top: nat)
    requires 0 < top && TWO_64 <= DivCeil(num, top)
    ensures (TWO_64 - 1) * top < num
  {
    CeilGalois(num, top, TWO_64 - 1);
  }

  lemma FullNumerator(amount: nat, period: nat, m: nat)
    requires 0 < amount <= MAX_U32 && 0 < period < TWO_94
    requires Dropped(period) <= m + 64 && BelowOne(amount, period, m)
    requires (TWO_64 - 1) * PeriodTop(period) < amount * Pow2(m + 64 - Dropped(period))
    ensures Bits(amount) <= 64 < Bits(period) && m == Bits(period) - Bits(amount)
    ensures PeriodTop(period) == amount * Pow2(64 - Bits(amount))
  {
    var d := Dropped(period);
    PeriodWords(period);
    NumeratorFillsTop(amount, m, d, PeriodTop(period));
    Pow2Add(m - d, d);
    FilledTop(amount, Pow2(m - d), Pow2(d), period, PeriodTop(period));
    SomethingDropped(period);
    TopFillsWidth(PeriodTop(period), d);
    FullUnit(amount, period, m);
  }

  lemma NumeratorFillsTop(amount: nat, m: nat, d: nat, top: nat)
    requires amount <= MAX_U32 && d <= 30 && 0 < top < TWO_64
    requires d != 0 ==> 0x8000_0000_0000_0000 <= top
    requires (TWO_64 - 1) * top < amount * Pow2(m + 64 - d)
    ensures d <= m && top <= amount * Pow2(m - d)
  {
    Pow2Of64();
    if d <= m {
      Pow2Add(m - d, 64);
      if amount * Pow2(m - d) < top {
        FullWord(amount, Pow2(m - d), top);
      }
    } else {
      Pow2Monotonic(m + 64 - d, 63);
      HalfWord(amount, Pow2(m + 64 - d), top);
    }
  }

  lemma FullWord(a: nat, x: nat, top: nat)
    requires a * x < top < TWO_64
    ensures a * (x * TWO_64) <= (TWO_64 - 1) * top
  {
    Associate(a, x, TWO_64);
    ProductMonotonic(a * x, top - 1, TWO_64);
  }

  lemma HalfWord(a: nat, x: nat, top: nat)
    requires a <= MAX_U32 && x <= 0x8000_0000_0000_0000 <= top
    ensures a * x <= (TWO_64 - 1) * top
  {
    ProductMonotonic(a, MAX_U32, x);
    ProductMonotonic(0x8000_0000_0000_0000, top, TWO_64 - 1);
  }

  lemma FilledTop(amount: nat, x: nat, w: nat, period: nat, top: nat)
    requires 0 < w && top == period / w && top <= amount * x
    requires amount * (x * w) < period
    ensures amount * x == top
    ensures top * w < period && top * w == amount * (x * w)
  {
    Associate(amount, x, w);
    FloorGalois(period, w, amount * x);
  }

  lemma SomethingDropped(period: nat)
    requires 0 < period < TWO_94
    requires PeriodTop(period) * Pow2(Dropped(period)) < period
    ensures Dropped(period) != 0
  {
    PeriodWords(period);
    assert Pow2(0) == 1;
  }

  lemma TopFillsWidth(top: nat, d: nat)
    requires 0x8000_0000_0000_0000 <= top
    ensures Pow2(63 + d) <= top * Pow2(d)
  {
    Pow2Of64();
    Pow2Add(63, d);
    ProductMonotonic(0x8000_0000_0000_0000, top, Pow2(d));
  }

  /** Such a unit is the one the two widths give. */
  lemma FullUnit(amount: nat, period: nat, m: nat)
    requires 0 < amount <= MAX_U32 && 0 < period && Dropped(period) != 0
    requires BelowOne(amount, period, m)
    requires Pow2(63 + Dropped(period)) <= amount * Pow2(m)
    ensures Bits(amount) <= 64 < Bits(period) && m == Bits(period) - Bits(amount)
  {
    BitsBracket(amount);
    BitsBracket(period);
    Pow2Of32();
    BitsAtMost(amount, 32);
    ShiftAtLeast(amount, Bits(amount), Bits(period), m);
    ShiftAtMost(amount, period, Bits(amount), Bits(period), m);
  }

  /** So with a period below 2^64 ns it is zero, as the source says. */
  lemma ShortPeriodHasNoIntegerPart(e: Engine)
    requires Working(e) && Derived(e)
    requires Amount(e) < Period(e) < TWO_64
    ensures e.scale.rateInt == 0
  {
    WidthOver64(Period(e));
    IntegerPartZero(e);
  }

  /** A family of one-token buckets with a long period whose rate rounds up to a
      full unit per nanosecond: `amount = 2^t` and a period between `2^(60+t)`
      and the next multiple of what is dropped. */
  lemma LongPeriodScale(t: nat, rest: nat)
    requires 4 <= t < 32 && 0 < rest < Pow2(t - 3)
    ensures IsScale(1, Pow2(t), Pow2(60 + t) + rest, Scale(1, 0, 60))
  {
    LongPeriodUnit(t, rest);
    LongPeriodTop(t, rest);
    LongPeriodRate(t);
  }

  lemma LongPeriodUnit(t: nat, rest: nat)
    requires 0 < rest
    ensures FinestUnit(1, Pow2(t), Pow2(60 + t) + rest, 60)
  {
    var amount, period := Pow2(t), Pow2(60 + t) + rest;
    Pow2Add(t, 60);
    Pow2Monotonic(t, 60 + t);
    BurstOfOne(60);
    forall k: int | 60 < k
      ensures !Admissible(1, amount, period, k)
    {
      BurstOfOne(k);
    }
  }

  lemma BurstOfOne(k: int)
    ensures BurstFits(1, k) <==> k <= 60
  {
    assert Bits(1) == 1 + Bits(0);
    BurstLimitIsExact(1, k);
  }

  lemma LongPeriodTop(t: nat, rest: nat)
    requires 4 <= t && rest < Pow2(t - 3)
    ensures Dropped(Pow2(60 + t) + rest) == t - 3
    ensures PeriodTop(Pow2(60 + t) + rest) == 0x8000_0000_0000_0000
  {
    LongPeriodWidth(t, rest);
    Pow2Of64();
    Pow2Add(63, t - 3);
    WholePart(0x8000_0000_0000_0000, Pow2(t - 3), rest);
  }

  lemma LongPeriodWidth(t: nat, rest: nat)
    requires 4 <= t && rest < Pow2(t - 3)
    ensures Bits(Pow2(60 + t) + rest) == 61 + t
  {
    Pow2Monotonic(t - 3, 60 + t);
    WidthIs(Pow2(60 + t) + rest, 61 + t);
  }

  lemma LongPeriodRate(t: nat)
    requires t <= 127
    ensures DivCeil(Pow2(t) * Pow2(127 - t), 0x8000_0000_0000_0000) == TWO_64
  {
    Pow2Of64();
    Pow2Add(t, 127 - t);
    Pow2Add(63, 64);
    CeilGalois(TWO_64 * 0x8000_0000_0000_0000, 0x8000_0000_0000_0000, TWO_64 - 1);
    CeilGalois(TWO_64 * 0x8000_0000_0000_0000, 0x8000_0000_0000_0000, TWO_64);
  }

  lemma WidthIs(x: nat, b: nat)
    requires 0 < b && Pow2(b - 1) <= x < 2 * Pow2(b - 1)
    ensures Bits(x) == b
  {
    BitsBracket(x);
    BitsAtMost(x, b);
    if Bits(x) < b {
      Pow2Monotonic(Bits(x), b - 1);
    }
  }

  lemma WholePart(q: nat, w: nat, rest: nat)
    requires rest < w
    ensures (q * w + rest) / w == q
  {
    FloorGalois(q * w + rest, w, q);
    FloorGalois(q * w + rest, w, q + 1);
    assert (q + 1) * w == q * w + w;
  }

  /** The claim that the rate has no integer part below 10^9 tokens per second is
      false: 16 tokens every 2^64 + 1 ns into a bucket of one. */
  lemma IntegerPartCounterexample()
    ensures IsScale(1, 16, TWO_64 + 1, Scale(1, 0, 60))
  {
    Pow2Of64();
    assert Pow2(4) == 16 && Pow2(1) == 2;
    LongPeriodScale(4, 1);
  }
}
