/** The public contract in its own terms: a few nanoseconds, or a small share of a
    token, over any window; where the code keeps it, and a bucket that breaks it. */
module Contracts {
  import opened Arithmetic
  import opened Durations
  import opened Config
  import opened Scales
  import opened Engines
  import opened ClockBounds
  import opened Leads
  import opened Accounting
  import opened Protocol
  import opened Progress
  import opened OverGrant

  // -------------------------------------------------- the size of the resolution

  /** With units of at most one token, a unit accrues within two nanoseconds or is
      at most 2^-29 of a token; the latter only in a bucket that takes more than
      2^61 ns to fill. */
  lemma UnitIsFine(e: Engine)
    requires Working(e) && Derived(e) && Exact(e)
    ensures RateDen(e) <= 2 * RateNum(e) || 29 <= e.scale.unitShift
    ensures Capacity(e) * Period(e) <= TWO_61 * Amount(e) ==> RateDen(e) <= 2 * RateNum(e)
  {
    WorkingFacts(e);
    if Amount(e) < Period(e) {
      FinestLeavesNoRoom(Capacity(e), Amount(e), Period(e), e.scale.unitShift, Pow2(e.scale.unitShift + 1));
      FineUnit(Capacity(e), Amount(e), Period(e), Factor(e), Pow2(e.scale.unitShift + 1));
    } else {
      assert Factor(e) == Pow2(0) == 1;
      assert RateNum(e) == Amount(e) && RateDen(e) == Period(e);
    }
  }

  lemma FineUnit(capacity: nat, amount: nat, period: nat, f: nat, w: nat)
    requires w == 2 * f && 0 < capacity
    ensures amount * w == 2 * (amount * f)
    ensures TWO_61 <= capacity * w && capacity * period <= TWO_61 * amount ==> period <= 2 * (amount * f)
  {
    if TWO_61 <= capacity * w && amount * w < period {
      SlowToFill(capacity, amount, period, w);
    }
  }

  /** A finer unit would leave the clock or the burst no room. */
  lemma FinestLeavesNoRoom(capacity: nat, amount: nat, period: nat, m: nat, w: nat)
    requires InRange(capacity, amount, period) && amount < period
    requires FinestUnit(capacity, amount, period, m)
    requires w == Pow2(m + 1)
    ensures period <= amount * w || (29 <= m && TWO_61 <= capacity * w)
  {
    assert !Admissible(capacity, amount, period, m + 1);
    BurstLimitIsExact(capacity, m + 1);
  }

  lemma SlowToFill(capacity: nat, amount: nat, period: nat, w: nat)
    requires 0 < capacity && TWO_61 <= capacity * w && amount * w < period
    ensures TWO_61 * amount < capacity * period
  {
    ProductMonotonic(TWO_61, capacity * w, amount);
    CancelFactor(amount * w, period, capacity);
    assert capacity * w * amount == amount * w * capacity;
  }

  lemma AccrualSum(e: Engine, x: nat, y: nat)
    requires Working(e)
    ensures Accrual(e, x + y) == Accrual(e, x) + Accrual(e, y)
  {
    assert Amount(e) * (x + y) == Amount(e) * x + Amount(e) * y;
  }

  /** Two nanoseconds cover a unit that accrues within two nanoseconds. */
  lemma UnitsInNanoseconds(e: Engine, k: nat)
    requires Working(e) && Exact(e) && RateDen(e) <= 2 * RateNum(e)
    ensures Resolution(e, k) <= Accrual(e, 2 * k)
  {
    DoubledUnits(Period(e), Amount(e), Factor(e), k);
    QuotientOrder(k, Factor(e), Amount(e) * (2 * k), Period(e));
  }

  lemma DoubledUnits(p: nat, a: nat, f: nat, k: nat)
    requires p <= 2 * (a * f)
    ensures p * k <= a * (2 * k) * f
  {
    ProductMonotonic(p, 2 * (a * f), k);
    assert 2 * (a * f) * k == a * (2 * k) * f;
  }

  lemma QuotientOrder(k: nat, f: nat, x: nat, p: nat)
    requires 0 < f && 0 < p && p * k <= x * f
    ensures k as real / f as real <= x as real / p as real
  {
    RealPair(p, k);
    RealPair(x, f);
    DivideOrder(k as real, f as real, x as real, p as real);
  }

  lemma DivideOrder(k: real, f: real, x: real, p: real)
    requires 0.0 < f && 0.0 < p && p * k <= x * f
    ensures k / f <= x / p
  {
    QuotientsInOrder(x / p, k / f, f, p);
  }

  lemma QuotientsInOrder(q: real, s: real, f: real, p: real)
    requires 0.0 < f && 0.0 < p && p * (s * f) <= q * p * f
    ensures s <= q
  {
    assert (q - s) * (f * p) == q * p * f - p * (s * f);
    RealSign(q - s, f * p);
  }

  lemma UnitsInTokens(e: Engine, k: nat, shift: nat)
    requires Exact(e) && shift <= e.scale.unitShift
    ensures Resolution(e, k) <= k as real / Pow2(shift) as real
  {
    Pow2Monotonic(shift, e.scale.unitShift);
    ProductMonotonic(Pow2(shift), Factor(e), k);
    QuotientOrder(k, Factor(e), k, Pow2(shift));
  }

  /** The share of a token that `WindowUnits` can be in a bucket that is slow to
      fill: 2^-28, or twice that where a unit is 2^-29 of a token, which takes a
      capacity of 2^31 or more, and the clock gains two of them in some window. */
  function TokenShare(e: Engine): real {
    if WindowUnits(e) == 2 || 30 <= e.scale.unitShift then 1.0 / 268435456.0 else 1.0 / 134217728.0
  }

  lemma SlowUnitsAreSmall(e: Engine)
    requires Exact(e) && 29 <= e.scale.unitShift
    ensures Resolution(e, WindowUnits(e)) <= TokenShare(e)
  {
    Pow2Of32();
    assert Pow2(30) == 2 * Pow2(29);
    UnitsInTokens(e, WindowUnits(e), if WindowUnits(e) == 2 || e.scale.unitShift < 30 then 29 else 30);
  }

  /** A multi-token unit accrues in less than two thirds of a nanosecond. */
  lemma CoarseUnitIsFast(e: Engine)
    requires Working(e) && Derived(e) && !Exact(e)
    ensures (3 * Factor(e)) as real <= Accrual(e, 2)
  {
    WorkingFacts(e);
    CoarsestFits(Capacity(e), Amount(e), Period(e), e.scale.unitShift);
    QuotientOrder(3 * Factor(e), 1, Amount(e) * 2, Period(e));
    OverOne((3 * Factor(e)) as real);
  }

  lemma CoarsestFits(capacity: nat, amount: nat, period: nat, m: int)
    requires InRange(capacity, amount, period) && period <= amount && m < 0
    requires FinestUnit(capacity, amount, period, m)
    ensures period * (3 * Pow2(-m)) <= amount * 2 * 1
  {
    CoarserIsTooFast(capacity, amount, period, m);
    FastArithmetic(amount, period, Pow2(-m - 1));
    assert Pow2(-m) == 2 * Pow2(-m - 1);
  }

  lemma CoarserIsTooFast(capacity: nat, amount: nat, period: nat, m: int)
    requires InRange(capacity, amount, period) && period <= amount && m < 0
    requires FinestUnit(capacity, amount, period, m)
    ensures FAST_CLOCK_NUM * period * Pow2(-m - 1) < FAST_CLOCK_DEN * amount
  {
    assert !Admissible(capacity, amount, period, m + 1);
    BurstLimitIsExact(capacity, m + 1);
  }

  lemma FastArithmetic(amount: nat, period: nat, w: nat)
    requires 43 * period * w < 10 * amount
    ensures period * (3 * (2 * w)) <= amount * 2
  {
    assert 43 * period * w == 43 * (period * w);
    assert period * (3 * (2 * w)) == 6 * (period * w);
  }

  /** The contract's slack: a few nanoseconds, or in a bucket that takes more than
      2^61 ns to fill a small share of a token. */
  predicate WithinContract(e: Engine, granted: nat, base: nat, ns: nat)
    requires Working(e)
  {
    var units := WindowUnits(e);
    || granted as real < base as real + Accrual(e, ns + 2 * units)
    || (29 <= e.scale.unitShift && TWO_61 * Amount(e) < Capacity(e) * Period(e) &&
        granted as real < base as real + Accrual(e, ns) + TokenShare(e))
  }

  lemma ResolutionIsSmall(e: Engine, granted: nat, base: nat, ns: nat)
    requires Working(e) && Derived(e)
    requires granted as real < base as real + Accrual(e, ns) +
             if Exact(e) then Resolution(e, WindowUnits(e)) else (3 * Factor(e)) as real
    ensures WithinContract(e, granted, base, ns)
  {
    var units := WindowUnits(e);
    AccrualSum(e, ns, 2 * units);
    if !Exact(e) {
      CoarseUnitIsFast(e);
      CoarseGainsLess(e);
      AccrualSum(e, 2, 2);
      AccrualIsPositive(e, 2);
    } else if RateDen(e) <= 2 * RateNum(e) {
      UnitsInNanoseconds(e, units);
    } else {
      UnitIsFine(e);
      SlowUnitsAreSmall(e);
    }
  }

  lemma AccrualIsPositive(e: Engine, ns: nat)
    requires Working(e)
    ensures 0.0 <= Accrual(e, ns)
  {
  }

  /** The public contract, for every working bucket, in any interleaving, with
      stale and backward readings: the tokens taken from commit `i` to commit `j`
      are less than the capacity plus what accrues exactly over a window a few
      nanoseconds longer, or, in a bucket that takes more than 2^61 ns to fill,
      plus a `TokenShare`. The few nanoseconds are four, and eight where the clock
      gains two units on exact accrual in some window. */
  lemma PublicContract(e: Engine, z: u64, run: Run, i: nat, j: nat)
    requires Working(e) && Derived(e)
    requires Valid(e, z, run)
    requires var commits := End(e, z, run).commits; i <= j < |commits| && OnlyCharges(commits, i, j)
    ensures var commits := End(e, z, run).commits;
            WithinContract(e, TotalGranted(commits, i, j + 1), Capacity(e),
                           Elapsed(DurationNanos(Reading(commits[i].op)), CoveredNanos(commits[j])))
  {
    var commits := End(e, z, run).commits;
    if Exact(e) {
      TokensNeverOverCommitted(e, z, run, i, j);
    } else {
      CoarseTokensNeverOverCommitted(e, z, run, i, j);
    }
    ResolutionIsSmall(e, TotalGranted(commits, i, j + 1), Capacity(e),
                      Elapsed(DurationNanos(Reading(commits[i].op)), CoveredNanos(commits[j])));
  }

  // ---------------------------------------------------------------- windows of time

  /** The commit charged at or after `a`, and is covered by `b`. */
  predicate InWindow(c: Commit, a: u64, b: u64) {
    Charges(c.op) && a <= DurationNanos(Reading(c.op)) && CoveredNanos(c) <= b
  }

  /** What the commits from `i` to `k` that lie in a window of time cost, and hand
      out, wherever they stand in commit order. */
  function ChargeWithin(e: Engine, commits: seq<Commit>, i: nat, k: nat, a: u64, b: u64): nat
    requires i <= k <= |commits|
    decreases k
  {
    if k == i then 0
    else
      var c := commits[k - 1];
      ChargeWithin(e, commits, i, k - 1, a, b) + if InWindow(c, a, b) then Charge(e, c) else 0
  }

  function GrantedWithin(commits: seq<Commit>, i: nat, k: nat, a: u64, b: u64): nat
    requires i <= k <= |commits|
    decreases k
  {
    if k == i then 0
    else
      var c := commits[k - 1];
      GrantedWithin(commits, i, k - 1, a, b) + if InWindow(c, a, b) then Granted(c) else 0
  }

  /** A window that holds every commit holds all they cost and hand out. */
  lemma {:induction false} WindowHoldsAll(e: Engine, commits: seq<Commit>, i: nat, k: nat, a: u64, b: u64)
    requires i <= k <= |commits|
    requires forall x :: i <= x < k ==>
      Charges(commits[x].op) && a <= DurationNanos(Reading(commits[x].op)) && CoveredNanos(commits[x]) <= b
    ensures ChargeWithin(e, commits, i, k, a, b) == TotalCharge(e, commits, i, k)
    ensures GrantedWithin(commits, i, k, a, b) == TotalGranted(commits, i, k)
    decreases k
  {
    if i < k {
      WindowHoldsAll(e, commits, i, k - 1, a, b);
      assert Charges(commits[k - 1].op);
    }
  }

  /** Once something was charged in the window the word is no lower than a burst
      below its start, plus all that was charged in it since. */
  predicate WindowFilled(e: Engine, commits: seq<Commit>, i: nat, k: nat, a: u64, b: u64)
    requires i < k <= |commits|
  {
    var charged := ChargeWithin(e, commits, i, k, a, b);
    && charged <= Burst(e) + UnitsAt(e, b) - UnitsAt(e, a)
    && (charged == 0 || UnitsAt(e, a) - Burst(e) + charged <= commits[k - 1].after)
  }

  lemma CommitFillsWindow(e: Engine, commits: seq<Commit>, i: nat, k: nat, a: u64, b: u64)
    requires i < k <= |commits| && a <= b
    requires Charges(commits[k - 1].op) && Lawful(e, commits[k - 1])
    requires i < k - 1 ==> WindowFilled(e, commits, i, k - 1, a, b) && commits[k - 2].after == commits[k - 1].before
    ensures WindowFilled(e, commits, i, k, a, b)
  {
    var c := commits[k - 1];
    ChargeMovesUp(e, c);
    ClockIsMonotonic(e, a, b);
    assert i == k - 1 ==> ChargeWithin(e, commits, i, k - 1, a, b) == 0;
    if InWindow(c, a, b) {
      ClockIsMonotonic(e, a, DurationNanos(Reading(c.op)));
      ClockIsMonotonic(e, CoveredNanos(c), b);
    }
  }

  lemma {:induction false} WindowFills(e: Engine, commits: seq<Commit>, i: nat, k: nat, a: u64, b: u64)
    requires Chained(e, commits) && i < k <= |commits| && OnlyCharges(commits, i, k - 1) && a <= b
    ensures WindowFilled(e, commits, i, k, a, b)
    decreases k
  {
    if i < k - 1 {
      WindowFills(e, commits, i, k - 1, a, b);
    }
    assert Lawful(e, commits[k - 1]);
    CommitFillsWindow(e, commits, i, k, a, b);
  }

  /** Over any window of time, not only a stretch of commits: among commits that
      only charge, those that read the clock at or after `a` and are covered by `b`
      together cost at most a burst plus what the clock advances from `a` to `b`,
      in every regime and in whatever order they committed. */
  lemma TimeWindowNeverOverCommits(e: Engine, z: u64, run: Run, i: nat, j: nat, a: u64, b: u64)
    requires Valid(e, z, run) && a <= b
    requires var commits := End(e, z, run).commits; i <= j < |commits| && OnlyCharges(commits, i, j)
    ensures ChargeWithin(e, End(e, z, run).commits, i, j + 1, a, b) <= Burst(e) + UnitsAt(e, b) - UnitsAt(e, a)
  {
    CommitsAreSequential(e, z, run);
    WindowFills(e, End(e, z, run).commits, i, j + 1, a, b);
  }

  lemma {:induction false} WithinInTokens(e: Engine, commits: seq<Commit>, i: nat, k: nat, a: u64, b: u64)
    requires i <= k <= |commits|
    requires forall x :: i <= x < k ==> Charge(e, commits[x]) == Granted(commits[x]) * Factor(e)
    ensures ChargeWithin(e, commits, i, k, a, b) == GrantedWithin(commits, i, k, a, b) * Factor(e)
    decreases k
  {
    if i < k {
      WithinInTokens(e, commits, i, k - 1, a, b);
      Distribute(GrantedWithin(commits, i, k - 1, a, b), Granted(commits[k - 1]), Factor(e));
    }
  }

  lemma {:induction false} WithinIsEnough(e: Engine, commits: seq<Commit>, i: nat, k: nat, a: u64, b: u64)
    requires i <= k <= |commits|
    requires forall x :: i <= x < k ==> Granted(commits[x]) <= Charge(e, commits[x]) * Factor(e)
    ensures GrantedWithin(commits, i, k, a, b) <= ChargeWithin(e, commits, i, k, a, b) * Factor(e)
    decreases k
  {
    if i < k {
      WithinIsEnough(e, commits, i, k - 1, a, b);
      Distribute(ChargeWithin(e, commits, i, k - 1, a, b), Charge(e, commits[k - 1]), Factor(e));
    }
  }

  lemma ExactWithin(e: Engine, commits: seq<Commit>, i: nat, j: nat, a: u64, b: u64)
    requires Exact(e) && Chained(e, commits) && i <= j < |commits| && OnlyCharges(commits, i, j)
    ensures ChargeWithin(e, commits, i, j + 1, a, b) == GrantedWithin(commits, i, j + 1, a, b) * Factor(e)
  {
    forall x | i <= x < j + 1
      ensures Charge(e, commits[x]) == Granted(commits[x]) * Factor(e)
    {
      ChargeInTokens(e, commits[x]);
    }
    WithinInTokens(e, commits, i, j + 1, a, b);
  }

  lemma CoarseWithin(e: Engine, commits: seq<Commit>, i: nat, j: nat, a: u64, b: u64)
    requires !Exact(e) && Chained(e, commits) && i <= j < |commits| && OnlyCharges(commits, i, j)
    ensures GrantedWithin(commits, i, j + 1, a, b) <= ChargeWithin(e, commits, i, j + 1, a, b) * Factor(e)
  {
    forall x | i <= x < j + 1
      ensures Granted(commits[x]) <= Charge(e, commits[x]) * Factor(e)
    {
      CoarseChargeIsEnough(e, commits[x]);
    }
    WithinIsEnough(e, commits, i, j + 1, a, b);
  }

  /** In either regime, what a charge no larger than a window's bound can hand out. */
  lemma WindowInTokens(e: Engine, granted: nat, charged: nat, a: u64, b: u64)
    requires Working(e) && Derived(e) && a <= b
    requires charged <= Burst(e) + UnitsAt(e, b) - UnitsAt(e, a)
    requires if Exact(e) then charged == granted * Factor(e) else granted <= charged * Factor(e)
    ensures WithinContract(e, granted, Capacity(e), b - a)
  {
    if Exact(e) {
      ExactBound(e, granted, Capacity(e), a, b);
    } else {
      CoarseBound(e, granted, charged, Capacity(e), a, b);
    }
    ResolutionIsSmall(e, granted, Capacity(e), b - a);
  }

  /** The public contract over any window of time, with the same slack. */
  lemma PublicContractOverTime(e: Engine, z: u64, run: Run, i: nat, j: nat, a: u64, b: u64)
    requires Working(e) && Derived(e)
    requires Valid(e, z, run) && a <= b
    requires var commits := End(e, z, run).commits; i <= j < |commits| && OnlyCharges(commits, i, j)
    ensures WithinContract(e, GrantedWithin(End(e, z, run).commits, i, j + 1, a, b), Capacity(e), b - a)
  {
    var commits := End(e, z, run).commits;
    CommitsAreSequential(e, z, run);
    TimeWindowNeverOverCommits(e, z, run, i, j, a, b);
    if Exact(e) {
      ExactWithin(e, commits, i, j, a, b);
    } else {
      CoarseWithin(e, commits, i, j, a, b);
    }
    WindowInTokens(e, GrantedWithin(commits, i, j + 1, a, b), ChargeWithin(e, commits, i, j + 1, a, b), a, b);
  }

  // ------------------------------------------------------ when 2^-28 is enough

  /** Between no two readings does the clock gain 2^-28 of a token on exact accrual. */
  ghost predicate KeepsTokenShare(e: Engine)
    requires 28 <= e.scale.unitShift
  {
    forall a: u64, b: u64 :: a <= b && !Saturated(e, b) ==> GainsLessThanShare(e, a, b)
  }

  predicate GainsLessThanShare(e: Engine, a: u64, b: u64)
    requires 28 <= e.scale.unitShift
  {
    GainsLess(e, Pow2(e.scale.unitShift - 28), a, b)
  }

  /** Exactly when the clock keeps to the documented share of a token, in buckets
      with units of 2^-29 of a token or finer, which are all those that need it:
      when its units are finer than that, or its furthest lead and lag add up to
      less than two of them. */
  lemma TokenShareExactly(e: Engine)
    requires Working(e) && Derived(e) && 29 <= e.scale.unitShift
    ensures KeepsTokenShare(e) <==> 30 <= e.scale.unitShift || PeakGain(e) < 2 * RateDen(e)
    ensures KeepsTokenShare(e) <==> TokenShare(e) == 1.0 / 268435456.0
  {
    assert Pow2(1) == 2 && Pow2(2) == 4;
    if 30 <= e.scale.unitShift {
      FinerUnitsKeepShare(e);
    } else {
      WindowGainExactly(e, 2);
      assert forall a: u64, b: u64 :: GainsLessThanShare(e, a, b) <==> GainsLess(e, 2, a, b);
    }
  }

  lemma FinerUnitsKeepShare(e: Engine)
    requires Working(e) && Derived(e) && 30 <= e.scale.unitShift
    ensures KeepsTokenShare(e)
  {
    assert Pow2(2) == 4;
    Pow2Monotonic(2, e.scale.unitShift - 28);
    forall a: u64, b: u64 | a <= b && !Saturated(e, b)
      ensures GainsLessThanShare(e, a, b)
    {
      WindowUnitsCover(e, a, b);
      ProductMonotonic(WindowUnits(e), Pow2(e.scale.unitShift - 28), RateDen(e));
    }
  }

  // ------------------------------------------------------------ windows are filled

  /** The two grants that fill a window: the capacity at its start, and `k` more at
      its end. */
  predicate FillsWindow(e: Engine, commits: seq<Commit>, a: Duration, b: Duration, k: u32) {
    && |commits| == 2
    && commits[0].op == Op.Acquire(Capacity(e), a) && commits[1].op == Op.Acquire(k, b)
  }

  /** The bound on windows is met: a bucket that is full at `a` grants its capacity
      there, and at `b` as many tokens as the clock's advance pays for. */
  lemma WindowsAreFilled(e: Engine, z: u64, a: Duration, b: Duration, k: u32) returns (run: Run)
    requires z == Units(e, a) - Burst(e)
    requires 0 < k <= Capacity(e) && Cost(e, k) <= Units(e, b) - Units(e, a)
    ensures Valid(e, z, run) && FillsWindow(e, End(e, z, run).commits, a, b, k)
  {
    var last := FullThenLater(e, z, a, b, k);
    run := AnyCallCompletes(e, z, Start, 0, Op.Acquire(Capacity(e), a));
    run := AnyCallCompletes(e, z, run, 0, Op.Acquire(k, b));
  }

  /** Both grants are allowed. */
  lemma FullThenLater(e: Engine, z: u64, a: Duration, b: Duration, k: u32) returns (last: u64)
    requires z == Units(e, a) - Burst(e)
    requires 0 < k <= Capacity(e) && Cost(e, k) <= Units(e, b) - Units(e, a)
    ensures Attempt(e, Op.Acquire(Capacity(e), a), z) == Write(Units(e, a), Decided(Allowed))
    ensures Attempt(e, Op.Acquire(k, b), Units(e, a)) == Write(last, Decided(Allowed))
  {
    CostMonotonic(e, k, Capacity(e));
    last := Attempt(e, Op.Acquire(k, b), Units(e, a)).next;
  }

  lemma FilledTotal(e: Engine, commits: seq<Commit>, a: Duration, b: Duration, k: u32)
    requires FillsWindow(e, commits, a, b, k)
    ensures OnlyCharges(commits, 0, 1)
    ensures TotalGranted(commits, 0, 2) == Capacity(e) + k
  {
    assert TotalGranted(commits, 0, 1) == TotalGranted(commits, 0, 0) + Capacity(e);
  }

  // ------------------------------------------------------ a bucket that does not

  const EARLY_PERIOD: Duration := Duration(18_446_744_075, 400_750_261)
  const EARLY_PERIOD_NS: int := 18_446_744_075_400_750_261
  const EARLY_AMOUNT: u32 := 4_294_914_747
  const EARLY_RATE: u64 := 2_305_814_796_972_742_021
  const EARLY_FROM: u64 := 864_763_393_328_514_029
  const EARLY_TO: u64 := 18_374_656_694_314_490_748
  const EARLY_TOKENS: u32 := 4_076_789_847

  /** The largest capacity, starting full, refilled with just under 2^32 tokens over
      just more than 2^64 ns. */
  predicate IsEarly(e: Engine) {
    && e.config == RawConfig(MAX_U32, EARLY_AMOUNT, EARLY_PERIOD, MAX_U32)
    && e.scale == Scale(0, EARLY_RATE, 29)
  }

  lemma EarlyPowers()
    ensures Pow2(1) == 2 && Pow2(29) == 0x2000_0000 && Pow2(92) == 0x1000_0000_0000_0000_0000_0000
  {
    Pow2Of32();
    Pow2Of64();
    assert Pow2(30) == 2 * Pow2(29) && Pow2(1) == 2 * Pow2(0);
    Pow2Sum(62, 30, TWO_62, 0x4000_0000);
  }

  lemma EarlyUnit()
    ensures FinestUnit(MAX_U32, EARLY_AMOUNT, EARLY_PERIOD_NS, 29)
  {
    EarlyPowers();
    Pow2Of32();
    assert Pow2(32) == 2 * Pow2(31);
    WidthIs(MAX_U32, 32);
    BurstLimitIsExact(MAX_U32, 29);
    forall k: int | 29 < k
      ensures !Admissible(MAX_U32, EARLY_AMOUNT, EARLY_PERIOD_NS, k)
    {
      BurstLimitIsExact(MAX_U32, k);
    }
  }

  lemma EarlyTop()
    ensures Dropped(EARLY_PERIOD_NS) == 1
    ensures PeriodTop(EARLY_PERIOD_NS) == 9_223_372_037_700_375_130
  {
    EarlyPowers();
    Pow2Of64();
    assert Pow2(65) == 2 * Pow2(64);
    WidthIs(EARLY_PERIOD_NS, 65);
  }

  lemma EarlyQuotient()
    ensures DivCeil(EARLY_AMOUNT * Pow2(92), 9_223_372_037_700_375_130) == EARLY_RATE
  {
    EarlyPowers();
    CeilGalois(EARLY_AMOUNT * Pow2(92), 9_223_372_037_700_375_130, EARLY_RATE);
    CeilGalois(EARLY_AMOUNT * Pow2(92), 9_223_372_037_700_375_130, EARLY_RATE - 1);
  }

  lemma EarlyIsDerived(e: Engine)
    requires IsEarly(e)
    ensures Working(e) && Derived(e) && Period(e) == EARLY_PERIOD_NS
  {
    EarlyUnit();
    EarlyTop();
    EarlyQuotient();
  }

  /** Over the window the clock advances by exactly the units of `EARLY_TOKENS`. */
  lemma EarlyAdvance(e: Engine)
    requires IsEarly(e)
    ensures !Saturated(e, EARLY_TO)
    ensures Cost(e, EARLY_TOKENS) == UnitsAt(e, EARLY_TO) - UnitsAt(e, EARLY_FROM)
  {
    EarlyPowers();
    assert Accrued(e, EARLY_FROM) == 108_094_101_606_748_554;
    assert Accrued(e, EARLY_TO) == 2_296_803_984_797_979_018;
  }

  /** The rational accrual, and accrual with a share of a token, against whole tokens. */
  lemma AccrualAtMost(e: Engine, ns: nat, k: nat)
    requires Working(e) && Amount(e) * ns <= k * Period(e)
    ensures Accrual(e, ns) <= k as real
  {
    QuotientOrder(Amount(e) * ns, Period(e), k, 1);
    OverOne(k as real);
  }

  lemma ShareAtMost(e: Engine, ns: nat, k: nat, q: nat)
    requires Working(e) && 0 < q
    requires Amount(e) * ns * q + Period(e) <= k * (Period(e) * q)
    ensures Accrual(e, ns) + 1.0 / q as real <= k as real
  {
    ShareOrder(Amount(e) * ns, Period(e), q, k);
  }

  lemma ShareOrder(x: nat, p: nat, q: nat, k: nat)
    requires 0 < p && 0 < q && x * q + p <= k * (p * q)
    ensures x as real / p as real + 1.0 / q as real <= k as real
  {
    RealPair(x, q);
    RealPair(p, q);
    RealPair(k, p * q);
    ShareDivides(x as real, p as real, q as real, k as real);
  }

  lemma ShareDivides(x: real, p: real, q: real, k: real)
    requires 0.0 < p && 0.0 < q && x * q + p <= k * (p * q)
    ensures x / p + 1.0 / q <= k
  {
    Denominators(x / p, 1.0 / q, x, p, q);
    assert (k - (x / p + 1.0 / q)) * (p * q) == k * (p * q) - (x / p + 1.0 / q) * (p * q);
    RealSign(k - (x / p + 1.0 / q), p * q);
  }

  lemma Denominators(y: real, s: real, x: real, p: real, q: real)
    requires 0.0 < p && 0.0 < q && y * p == x && s * q == 1.0
    ensures 0.0 < p * q && (y + s) * (p * q) == x * q + p
  {
    assert (y + s) * (p * q) == y * p * q + s * q * p;
  }

  /** The claim that the slack is a few nanoseconds, or at most 2^-28 of a token, is
      false of this bucket. Starting full, it grants its capacity at one reading and
      `EARLY_TOKENS` more at a later one, which is 2^-28 of a token more than the
      contract allows, and more than accrues over the window and eight nanoseconds
      besides. */
  lemma ContractCounterexample(e: Engine) returns (run: Run)
    requires IsEarly(e)
    ensures Working(e) && Derived(e)
    ensures var z := InitialWord(e, FromNanos(EARLY_FROM));
            && Valid(e, z, run)
            && FillsWindow(e, End(e, z, run).commits, FromNanos(EARLY_FROM), FromNanos(EARLY_TO), EARLY_TOKENS)
            && var granted := TotalGranted(End(e, z, run).commits, 0, 2) as real;
               && Capacity(e) as real + Accrual(e, EARLY_TO - EARLY_FROM) + 1.0 / 268435456.0 <= granted
               && Capacity(e) as real + Accrual(e, EARLY_TO - EARLY_FROM + 8) <= granted
  {
    EarlyIsDerived(e);
    EarlyAdvance(e);
    var a, b := FromNanos(EARLY_FROM), FromNanos(EARLY_TO);
    var z := InitialWord(e, a);
    run := WindowsAreFilled(e, z, a, b, EARLY_TOKENS);
    FilledTotal(e, End(e, z, run).commits, a, b, EARLY_TOKENS);
    AccrualAtMost(e, EARLY_TO - EARLY_FROM + 8, EARLY_TOKENS);
    ShareAtMost(e, EARLY_TO - EARLY_FROM, EARLY_TOKENS, 268435456);
  }
}
