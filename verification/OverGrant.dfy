/** The safety contract: how much any interleaving of threads can be granted.

    Windows are stretches of consecutive commits, measured by the readings of
    their first and last grants. All of these hold in every run, with loads that
    return anything. */
module OverGrant {
  import opened Arithmetic
  import opened Durations
  import opened Engines
  import opened ClockBounds
  import opened Leads
  import opened Accounting
  import opened Protocol

  // ------------------------------------------------------------------- charges

  /** Operations that only ever charge the bucket. */
  predicate Charges(op: Op) {
    op.Acquire? || op.AcquireUpTo? || op.Reserve?
  }

  /** Operations that spend only what has accrued. */
  predicate Spends(op: Op) {
    op.Acquire? || op.AcquireUpTo?
  }

  /** Tokens a commit handed out. */
  function Granted(c: Commit): u32 {
    match c.op
    case Acquire(n, _) => n
    case AcquireUpTo(_, _) => if c.result.Took? then c.result.tokens else 0
    case Reserve(n, _, _) => n
    case _ => 0
  }

  /** What they cost. */
  function Charge(e: Engine, c: Commit): nat {
    if Granted(c) <= Capacity(e) then Cost(e, Granted(c)) else 0
  }

  /** What the commits from `i` up to but not including `k` cost, and hand out. */
  function TotalCharge(e: Engine, commits: seq<Commit>, i: nat, k: nat): nat
    requires i <= k <= |commits|
    decreases k
  {
    if k == i then 0 else TotalCharge(e, commits, i, k - 1) + Charge(e, commits[k - 1])
  }

  function TotalGranted(commits: seq<Commit>, i: nat, k: nat): nat
    requires i <= k <= |commits|
    decreases k
  {
    if k == i then 0 else TotalGranted(commits, i, k - 1) + Granted(commits[k - 1])
  }

  /** The nanosecond at which a commit's tokens are covered: its reading, plus the
      wait it returned. */
  function CoveredNanos(c: Commit): u64
    requires Charges(c.op)
  {
    if c.result.Reserved? && c.result.wait.Some? then
      Min(DurationNanos(Reading(c.op)) + AsNanos(c.result.wait.value), MAX_U64)
    else
      DurationNanos(Reading(c.op))
  }

  /** A charge moves the word up by its cost, from at least a full bucket below
      its reading, to no later than where it is covered. */
  lemma ChargeMovesUp(e: Engine, c: Commit)
    requires Charges(c.op) && Lawful(e, c)
    ensures 0 < Granted(c) <= Capacity(e)
    ensures c.after == Max(c.before, Units(e, Reading(c.op)) - Burst(e)) + Charge(e, c)
    ensures c.after <= UnitsAt(e, CoveredNanos(c))
  {
    BurstBelowClock(e, DurationNanos(Reading(c.op)));
    if c.op.AcquireUpTo? {
      var balance := Balance(e, c.before, Reading(c.op));
      TokensCovered(e, balance, Min(c.op.n, Tokens(e, balance)));
    }
    if c.op.Reserve? {
      ReserveIsCovered(e, c);
    }
  }

  /** A reservation's wait ends no earlier than its charge is covered. */
  lemma ReserveIsCovered(e: Engine, c: Commit)
    requires c.op.Reserve? && Lawful(e, c)
    ensures c.after <= UnitsAt(e, CoveredNanos(c))
  {
    var now, wait := Reading(c.op), c.result.wait.value;
    ClockIsMonotonic(e, DurationNanos(now), CoveredNanos(c));
    if c.after > Units(e, now) {
      assert c.result.wait == WaitUntil(e, c.after, now);
      var waitNs := SaturatingSub(DueNanos(e, c.after), DurationNanos(now));
      CeilGalois(waitNs, NANOS_PER_MILLI, MillisFor(waitNs));
      ClockGalois(e, c.after, CoveredNanos(c));
    }
  }

  /** And no earlier: a millisecond before a wait ends, the charge is not covered. */
  lemma ReservationIsJustCovered(e: Engine, c: Commit, early: u64)
    requires c.op.Reserve? && Lawful(e, c)
    requires DurationNanos(Reading(c.op)) <= early && early + NANOS_PER_MILLI <= CoveredNanos(c)
    ensures UnitsAt(e, early) < c.after
  {
    var now := Reading(c.op);
    if c.after > Units(e, now) {
      assert c.result.wait == WaitUntil(e, c.after, now);
      var waitNs := SaturatingSub(DueNanos(e, c.after), DurationNanos(now));
      CeilGalois(waitNs, NANOS_PER_MILLI, MillisFor(waitNs) - 1);
      ClockGalois(e, c.after, early);
    }
  }

  ghost predicate OnlyCharges(commits: seq<Commit>, i: nat, j: nat)
    requires i <= j < |commits|
  {
    forall k :: i <= k <= j ==> Charges(commits[k].op)
  }

  ghost predicate OnlySpends(commits: seq<Commit>, i: nat, j: nat)
    requires i <= j < |commits|
  {
    forall k :: i <= k <= j ==> Spends(commits[k].op)
  }

  /** Over charges alone the word only climbs, by at least what is charged. */
  lemma {:induction false} Climb(e: Engine, commits: seq<Commit>, i: nat, j: nat, floor: int)
    requires Linked(commits) && i <= j < |commits|
    requires forall k :: i <= k <= j ==> commits[k].before + Charge(e, commits[k]) <= commits[k].after
    requires floor + Charge(e, commits[i]) <= commits[i].after
    ensures floor + TotalCharge(e, commits, i, j + 1) <= commits[j].after
    decreases j
  {
    if i < j {
      Climb(e, commits, i, j - 1, floor);
    } else {
      assert TotalCharge(e, commits, i, j) == 0;
    }
  }

  /** It starts no lower than it was, nor than a burst below the first reading,
      and it ends no later than where the last charge is covered. */
  lemma ChargesClimb(e: Engine, commits: seq<Commit>, i: nat, j: nat)
    requires Chained(e, commits) && i <= j < |commits| && OnlyCharges(commits, i, j)
    ensures commits[i].before + TotalCharge(e, commits, i, j + 1) <= commits[j].after
    ensures Units(e, Reading(commits[i].op)) - Burst(e) + TotalCharge(e, commits, i, j + 1) <= commits[j].after
    ensures commits[j].after <= UnitsAt(e, CoveredNanos(commits[j]))
  {
    forall k | i <= k <= j
      ensures commits[k].before + Charge(e, commits[k]) <= commits[k].after
    {
      ChargeMovesUp(e, commits[k]);
    }
    ChargeMovesUp(e, commits[i]);
    ChargeMovesUp(e, commits[j]);
    Climb(e, commits, i, j, commits[i].before);
    Climb(e, commits, i, j, Units(e, Reading(commits[i].op)) - Burst(e));
  }

  // ------------------------------------------------------------ the unit bounds

  /** Reservations never over-commit: whatever any threads charge between commit
      `i` and commit `j` is at most a burst plus what accrues from the first
      reading until the last commit is covered. */
  lemma WindowNeverOverCommits(e: Engine, z: u64, run: Run, i: nat, j: nat)
    requires Valid(e, z, run)
    requires var commits := End(e, z, run).commits; i <= j < |commits| && OnlyCharges(commits, i, j)
    ensures var commits := End(e, z, run).commits;
            TotalCharge(e, commits, i, j + 1) <=
              Burst(e) + UnitsAt(e, CoveredNanos(commits[j])) - Units(e, Reading(commits[i].op))
  {
    CommitsAreSequential(e, z, run);
    ChargesClimb(e, End(e, z, run).commits, i, j);
  }

  /** From construction, at most the initial tokens plus what accrues. */
  lemma RunNeverOverCommits(e: Engine, builtAt: Duration, run: Run, j: nat)
    requires Valid(e, InitialWord(e, builtAt), run)
    requires var commits := End(e, InitialWord(e, builtAt), run).commits;
             j < |commits| && OnlyCharges(commits, 0, j)
    ensures var commits := End(e, InitialWord(e, builtAt), run).commits;
            TotalCharge(e, commits, 0, j + 1) <=
              Cost(e, e.config.initial) + UnitsAt(e, CoveredNanos(commits[j])) - Units(e, builtAt)
  {
    CommitsAreSequential(e, InitialWord(e, builtAt), run);
    ChargesClimb(e, End(e, InitialWord(e, builtAt), run).commits, 0, j);
  }

  lemma SpendIsCoveredNow(e: Engine, c: Commit)
    requires Spends(c.op) && Lawful(e, c)
    ensures CoveredNanos(c) == DurationNanos(Reading(c.op))
  {
  }

  /** Never over-granted, in every regime: the grants of a window cost at most a
      burst plus what the clock advanced between its first and last readings. */
  lemma WindowNeverOverGrants(e: Engine, z: u64, run: Run, i: nat, j: nat)
    requires Valid(e, z, run)
    requires var commits := End(e, z, run).commits; i <= j < |commits| && OnlySpends(commits, i, j)
    ensures var commits := End(e, z, run).commits;
            TotalCharge(e, commits, i, j + 1) <=
              Burst(e) + Units(e, Reading(commits[j].op)) - Units(e, Reading(commits[i].op))
  {
    CommitsAreSequential(e, z, run);
    SpendIsCoveredNow(e, End(e, z, run).commits[j]);
    WindowNeverOverCommits(e, z, run, i, j);
  }

  /** The end of time fails closed: once every reading of a window is past the end
      of the clock, all of its grants together cost at most one burst. */
  lemma SaturatedWindowGrantsOneBurst(e: Engine, z: u64, run: Run, i: nat, j: nat)
    requires Valid(e, z, run)
    requires var commits := End(e, z, run).commits;
             && i <= j < |commits| && OnlySpends(commits, i, j)
             && Saturated(e, DurationNanos(Reading(commits[i].op)))
             && Saturated(e, DurationNanos(Reading(commits[j].op)))
    ensures TotalCharge(e, End(e, z, run).commits, i, j + 1) <= Burst(e)
  {
    WindowNeverOverGrants(e, z, run, i, j);
  }

  // ----------------------------------------------------------- bounds in tokens

  lemma ChargeInTokens(e: Engine, c: Commit)
    requires Exact(e) && Charges(c.op) && Lawful(e, c)
    ensures Charge(e, c) == Granted(c) * Factor(e)
  {
    ChargeMovesUp(e, c);
  }

  lemma Distribute(a: int, b: int, w: int)
    ensures (a + b) * w == a * w + b * w
  {
  }

  lemma {:induction false} TotalInTokens(e: Engine, commits: seq<Commit>, i: nat, k: nat)
    requires i <= k <= |commits|
    requires forall x :: i <= x < k ==> Charge(e, commits[x]) == Granted(commits[x]) * Factor(e)
    ensures TotalCharge(e, commits, i, k) == TotalGranted(commits, i, k) * Factor(e)
    decreases k
  {
    if i < k {
      TotalInTokens(e, commits, i, k - 1);
      Distribute(TotalGranted(commits, i, k - 1), Granted(commits[k - 1]), Factor(e));
    }
  }

  /** Exact accrual in tokens over a span of nanoseconds. */
  function Accrual(e: Engine, ns: nat): real
    requires Working(e)
  {
    (Amount(e) * ns) as real / Period(e) as real
  }

  /** Units as a share of a token. */
  function Resolution(e: Engine, units: nat): real {
    units as real / Factor(e) as real
  }

  lemma InTokens(t: nat, c: nat, f: nat, span: int, a: nat, p: nat, d: nat, k: nat)
    requires 0 < f && 0 < p
    requires t * f <= c * f + span
    requires span * p < a * f * d + k * p
    ensures t as real < c as real + (a * d) as real / p as real + k as real / f as real
  {
    SpanInTokens(t * f, c * f, span, p, a * f * d + k * p);
    assert a * f * d == a * d * f;
    ToReals(t, c, f, p, a * d, k);
    Divide(t as real, c as real, f as real, p as real, (a * d) as real, k as real);
  }

  lemma SpanInTokens(taken: int, base: int, span: int, p: nat, bound: int)
    requires taken <= base + span && span * p < bound
    ensures taken * p < base * p + bound
  {
    ProductMonotonic(taken, base + span, p);
    Distribute(base, span, p);
  }

  lemma ToReals(t: int, c: int, f: int, p: int, x: int, k: int)
    requires t * f * p < c * f * p + x * f + k * p
    ensures t as real * f as real * p as real <
            c as real * f as real * p as real + x as real * f as real + k as real * p as real
  {
    RealTriple(t, f, p);
    RealTriple(c, f, p);
    RealPair(x, f);
    RealPair(k, p);
  }

  lemma RealPair(x: int, y: int)
    ensures (x * y) as real == x as real * y as real
  {
  }

  lemma RealTriple(x: int, y: int, z: int)
    ensures (x * y * z) as real == x as real * y as real * z as real
  {
    RealPair(x, y);
    RealPair(x * y, z);
  }

  lemma Divide(t: real, c: real, f: real, p: real, x: real, k: real)
    requires 0.0 < f && 0.0 < p
    requires t * f * p < c * f * p + x * f + k * p
    ensures t < c + x / p + k / f
  {
    RealQuotients(t, c, x / p, k / f, f, p);
  }

  lemma RealQuotients(t: real, c: real, q: real, s: real, f: real, p: real)
    requires 0.0 < f && 0.0 < p
    requires t * f * p < c * f * p + (q * p) * f + (s * f) * p
    ensures t < c + q + s
  {
    assert (c + q + s - t) * (f * p) == c * f * p + (q * p) * f + (s * f) * p - t * f * p;
    RealSign(c + q + s - t, f * p);
  }

  lemma RealSign(x: real, y: real)
    requires 0.0 < y
    ensures 0.0 < x * y ==> 0.0 < x
    ensures 0.0 <= x * y ==> 0.0 <= x
  {
  }

  /** Nanoseconds from one reading to a later one; none if it runs backwards. */
  function Elapsed(from: u64, to: u64): nat {
    if from <= to then to - from else 0
  }

  /** The clock's advance between two readings, against exact accrual. */
  lemma SpanBelowAccrual(e: Engine, from: u64, to: u64)
    requires Working(e) && Derived(e)
    ensures (UnitsAt(e, to) - UnitsAt(e, from)) * RateDen(e) <
            RateNum(e) * Elapsed(from, to) + WindowUnits(e) * RateDen(e)
  {
    if from <= to {
      WindowUnitsCover(e, from, to);
    } else {
      ClockIsMonotonic(e, to, from);
      BackwardSpan(UnitsAt(e, to) - UnitsAt(e, from), RateDen(e), RateNum(e), WindowUnits(e));
    }
  }

  lemma BackwardSpan(span: int, d: nat, n: nat, k: nat)
    requires span <= 0 && 0 < d && 0 < k
    ensures span * d < n * 0 + k * d
  {
    ProductMonotonic(span, 0, d);
    ProductMonotonic(1, k, d);
  }

  /** Tokens handed out on top of `base` tokens between two instants. */
  lemma ExactBound(e: Engine, granted: nat, base: nat, from: u64, to: u64)
    requires Working(e) && Derived(e) && Exact(e)
    requires granted * Factor(e) <= base * Factor(e) + (UnitsAt(e, to) - UnitsAt(e, from))
    ensures granted as real <
            base as real + Accrual(e, Elapsed(from, to)) + Resolution(e, WindowUnits(e))
  {
    SpanBelowAccrual(e, from, to);
    InTokens(granted, base, Factor(e), UnitsAt(e, to) - UnitsAt(e, from),
             Amount(e), Period(e), Elapsed(from, to), WindowUnits(e));
  }

  /** End to end, in tokens, when a unit is at most one token: whatever any
      threads take between commit `i` and commit `j` is less than the capacity,
      plus the exact accrual from the first reading until the last commit is
      covered, plus two units (four where the clock gains two on exact accrual in some window
      of readings, which takes a period of 2^64 ns or more). */
  lemma TokensNeverOverCommitted(e: Engine, z: u64, run: Run, i: nat, j: nat)
    requires Working(e) && Derived(e) && Exact(e)
    requires Valid(e, z, run)
    requires var commits := End(e, z, run).commits; i <= j < |commits| && OnlyCharges(commits, i, j)
    ensures var commits := End(e, z, run).commits;
            TotalGranted(commits, i, j + 1) as real <
              Capacity(e) as real
              + Accrual(e, Elapsed(DurationNanos(Reading(commits[i].op)), CoveredNanos(commits[j])))
              + Resolution(e, WindowUnits(e))
  {
    var commits := End(e, z, run).commits;
    WindowNeverOverCommits(e, z, run, i, j);
    ChargesInTokens(e, z, run, i, j);
    var from, to := DurationNanos(Reading(commits[i].op)), CoveredNanos(commits[j]);
    ExactBound(e, TotalGranted(commits, i, j + 1), Capacity(e), from, to);
  }

  lemma ChargesInTokens(e: Engine, z: u64, run: Run, i: nat, j: nat)
    requires Exact(e) && Valid(e, z, run)
    requires var commits := End(e, z, run).commits; i <= j < |commits| && OnlyCharges(commits, i, j)
    ensures var commits := End(e, z, run).commits;
            TotalCharge(e, commits, i, j + 1) == TotalGranted(commits, i, j + 1) * Factor(e)
  {
    CommitsAreSequential(e, z, run);
    var commits := End(e, z, run).commits;
    forall x | i <= x < j + 1
      ensures Charge(e, commits[x]) == Granted(commits[x]) * Factor(e)
    {
      ChargeInTokens(e, commits[x]);
    }
    TotalInTokens(e, commits, i, j + 1);
  }

  /** The no-over-grant contract: in any interleaving, with readings that may be
      stale or run backwards, the tokens granted from commit `i` to commit `j` are
      less than the capacity plus the exact accrual between their readings plus
      two units of resolution. */
  lemma TokensNeverOverGranted(e: Engine, z: u64, run: Run, i: nat, j: nat)
    requires Working(e) && Derived(e) && Exact(e) && Period(e) < TWO_64
    requires Valid(e, z, run)
    requires var commits := End(e, z, run).commits; i <= j < |commits| && OnlySpends(commits, i, j)
    ensures var commits := End(e, z, run).commits;
            TotalGranted(commits, i, j + 1) as real <
              Capacity(e) as real
              + Accrual(e, Elapsed(DurationNanos(Reading(commits[i].op)), DurationNanos(Reading(commits[j].op))))
              + Resolution(e, 2)
  {
    CommitsAreSequential(e, z, run);
    ShortPeriodGainsLess(e);
    SpendIsCoveredNow(e, End(e, z, run).commits[j]);
    TokensNeverOverCommitted(e, z, run, i, j);
  }

  /** The same from construction: the initial tokens in place of the capacity. */
  lemma TokensNeverOverCommittedFromStart(e: Engine, builtAt: Duration, run: Run, j: nat)
    requires Working(e) && Derived(e) && Exact(e)
    requires Valid(e, InitialWord(e, builtAt), run)
    requires var commits := End(e, InitialWord(e, builtAt), run).commits;
             j < |commits| && OnlyCharges(commits, 0, j)
    ensures var commits := End(e, InitialWord(e, builtAt), run).commits;
            TotalGranted(commits, 0, j + 1) as real <
              e.config.initial as real
              + Accrual(e, Elapsed(DurationNanos(builtAt), CoveredNanos(commits[j])))
              + Resolution(e, WindowUnits(e))
  {
    var z := InitialWord(e, builtAt);
    var commits := End(e, z, run).commits;
    RunNeverOverCommits(e, builtAt, run, j);
    ChargesInTokens(e, z, run, 0, j);
    var from, to := DurationNanos(builtAt), CoveredNanos(commits[j]);
    ExactBound(e, TotalGranted(commits, 0, j + 1), e.config.initial, from, to);
  }

  // ------------------------------------------- the same with multi-token units

  /** A multi-token unit rounds every grant up: no charge is worth less than the
      tokens it hands out. */
  lemma CoarseChargeIsEnough(e: Engine, c: Commit)
    requires !Exact(e) && Charges(c.op) && Lawful(e, c)
    ensures Granted(c) <= Charge(e, c) * Factor(e)
  {
    ChargeMovesUp(e, c);
    CeilIsFloor(Granted(c), Factor(e), Charge(e, c));
  }

  lemma {:induction false} TotalIsEnough(e: Engine, commits: seq<Commit>, i: nat, k: nat)
    requires i <= k <= |commits|
    requires forall x :: i <= x < k ==> Granted(commits[x]) <= Charge(e, commits[x]) * Factor(e)
    ensures TotalGranted(commits, i, k) <= TotalCharge(e, commits, i, k) * Factor(e)
    decreases k
  {
    if i < k {
      TotalIsEnough(e, commits, i, k - 1);
      Distribute(TotalCharge(e, commits, i, k - 1), Charge(e, commits[k - 1]), Factor(e));
    }
  }

  /** Rounding up costs less than one unit. */
  lemma CoarseCost(e: Engine, n: u32)
    requires !Exact(e) && n <= Capacity(e)
    ensures Cost(e, n) * Factor(e) <= n + Factor(e)
  {
    if 0 < n {
      FloorBounds(n - 1, Factor(e));
      Distribute((n - 1) / Factor(e), 1, Factor(e));
    }
  }

  lemma CoarseGainsLess(e: Engine)
    requires Working(e) && Derived(e) && !Exact(e)
    ensures WindowUnits(e) == 2
  {
    WorkingFacts(e);
    ShortPeriodGainsLess(e);
  }

  lemma ShortPeriodGainsLess(e: Engine)
    requires Working(e) && Derived(e) && Period(e) < TWO_64
    ensures WindowUnits(e) == 2
  {
    ShortPeriodIsLossless(e);
    RateAccuracy(e);
    AccurateRateGainsLess(e);
  }

  lemma CoarseSpan(e: Engine, from: u64, to: u64)
    requires Working(e) && Derived(e) && !Exact(e)
    ensures (UnitsAt(e, to) - UnitsAt(e, from)) * (Period(e) * Factor(e)) <
            Amount(e) * Elapsed(from, to) + 2 * (Period(e) * Factor(e))
  {
    SpanBelowAccrual(e, from, to);
    CoarseGainsLess(e);
  }

  /** Tokens handed out on top of the charge of `base` tokens between two instants. */
  lemma CoarseBound(e: Engine, granted: nat, charge: nat, base: u32, from: u64, to: u64)
    requires Working(e) && Derived(e) && !Exact(e) && base <= Capacity(e)
    requires granted <= charge * Factor(e)
    requires charge <= Cost(e, base) + UnitsAt(e, to) - UnitsAt(e, from)
    ensures granted as real <
            base as real + Accrual(e, Elapsed(from, to)) + (3 * Factor(e)) as real
  {
    CoarseCost(e, base);
    CoarseSpan(e, from, to);
    CoarseArithmetic(granted, charge, base, Factor(e), Cost(e, base), UnitsAt(e, to) - UnitsAt(e, from),
                     Amount(e), Period(e), Elapsed(from, to));
  }

  /** The contract above 4.3 tokens per nanosecond, where a unit is `Factor`
      tokens: less than the capacity plus the exact accrual plus three units. */
  lemma CoarseTokensNeverOverCommitted(e: Engine, z: u64, run: Run, i: nat, j: nat)
    requires Working(e) && Derived(e) && !Exact(e)
    requires Valid(e, z, run)
    requires var commits := End(e, z, run).commits; i <= j < |commits| && OnlyCharges(commits, i, j)
    ensures var commits := End(e, z, run).commits;
            TotalGranted(commits, i, j + 1) as real <
              Capacity(e) as real
              + Accrual(e, Elapsed(DurationNanos(Reading(commits[i].op)), CoveredNanos(commits[j])))
              + (3 * Factor(e)) as real
  {
    var commits := End(e, z, run).commits;
    WindowNeverOverCommits(e, z, run, i, j);
    CoarseChargesAreEnough(e, z, run, i, j);
    var from, to := DurationNanos(Reading(commits[i].op)), CoveredNanos(commits[j]);
    CoarseBound(e, TotalGranted(commits, i, j + 1), TotalCharge(e, commits, i, j + 1), Capacity(e), from, to);
  }

  /** The same from construction: the initial tokens in place of the capacity. */
  lemma CoarseTokensNeverOverCommittedFromStart(e: Engine, builtAt: Duration, run: Run, j: nat)
    requires Working(e) && Derived(e) && !Exact(e)
    requires Valid(e, InitialWord(e, builtAt), run)
    requires var commits := End(e, InitialWord(e, builtAt), run).commits;
             j < |commits| && OnlyCharges(commits, 0, j)
    ensures var commits := End(e, InitialWord(e, builtAt), run).commits;
            TotalGranted(commits, 0, j + 1) as real <
              e.config.initial as real
              + Accrual(e, Elapsed(DurationNanos(builtAt), CoveredNanos(commits[j])))
              + (3 * Factor(e)) as real
  {
    var z := InitialWord(e, builtAt);
    var commits := End(e, z, run).commits;
    RunNeverOverCommits(e, builtAt, run, j);
    CoarseChargesAreEnough(e, z, run, 0, j);
    CoarseBound(e, TotalGranted(commits, 0, j + 1), TotalCharge(e, commits, 0, j + 1), e.config.initial,
                DurationNanos(builtAt), CoveredNanos(commits[j]));
  }

  lemma CoarseChargesAreEnough(e: Engine, z: u64, run: Run, i: nat, j: nat)
    requires !Exact(e) && Valid(e, z, run)
    requires var commits := End(e, z, run).commits; i <= j < |commits| && OnlyCharges(commits, i, j)
    ensures var commits := End(e, z, run).commits;
            TotalGranted(commits, i, j + 1) <= TotalCharge(e, commits, i, j + 1) * Factor(e)
  {
    CommitsAreSequential(e, z, run);
    var commits := End(e, z, run).commits;
    forall x | i <= x < j + 1
      ensures Granted(commits[x]) <= Charge(e, commits[x]) * Factor(e)
    {
      CoarseChargeIsEnough(e, commits[x]);
    }
    TotalIsEnough(e, commits, i, j + 1);
  }

  lemma CoarseArithmetic(t: nat, charge: nat, c: nat, w: nat, burst: nat, span: int, a: nat, p: nat, d: nat)
    requires 0 < p
    requires t <= charge * w && charge <= burst + span && burst * w <= c + w
    requires span * (p * w) < a * d + 2 * (p * w)
    ensures t as real < c as real + (a * d) as real / p as real + (3 * w) as real
  {
    ProductMonotonic(charge, burst + span, w);
    Distribute(burst, span, w);
    assert span * (p * w) == span * w * p && 2 * (p * w) == 2 * w * p;
    InTokens(t, c + w, 1, span * w, a, p, d, 2 * w);
    OverOne((2 * w) as real);
  }

  lemma OverOne(x: real)
    ensures x / 1 as real == x
  {
  }

  // ------------------------------------------------------- nothing is discarded

  /** Refill that a full bucket could not hold when a commit was made. */
  function Overflowed(e: Engine, c: Commit): nat {
    Max(0, Units(e, Reading(c.op)) - Burst(e) - c.before)
  }

  function TotalOverflow(e: Engine, commits: seq<Commit>, i: nat, k: nat): nat
    requires i <= k <= |commits|
    decreases k
  {
    if k == i then 0 else TotalOverflow(e, commits, i, k - 1) + Overflowed(e, commits[k - 1])
  }

  lemma {:induction false} LedgerBalances(e: Engine, commits: seq<Commit>, i: nat, k: nat)
    requires Linked(commits) && i < k <= |commits|
    requires forall x :: i <= x < k ==>
      commits[x].after == commits[x].before + Overflowed(e, commits[x]) + Charge(e, commits[x])
    ensures commits[k - 1].after == commits[i].before + TotalCharge(e, commits, i, k) + TotalOverflow(e, commits, i, k)
    decreases k
  {
    if i < k - 1 {
      LedgerBalances(e, commits, i, k - 1);
    } else {
      assert TotalCharge(e, commits, i, i) == 0 && TotalOverflow(e, commits, i, i) == 0;
    }
  }

  /** Refill is never discarded but by a full bucket: over any charges the word
      moves by exactly what they cost plus what overflowed. So while no commit
      finds the bucket full, the balance at any later reading depends only on that
      reading and the total charged, however often the bucket is polled. */
  lemma RefillIsNeverDiscarded(e: Engine, z: u64, run: Run, later: Duration)
    requires Valid(e, z, run)
    requires var s := End(e, z, run); s.commits != [] ==> OnlyCharges(s.commits, 0, |s.commits| - 1)
    ensures var s := End(e, z, run);
            && s.word == z + TotalCharge(e, s.commits, 0, |s.commits|) + TotalOverflow(e, s.commits, 0, |s.commits|)
            && (TotalOverflow(e, s.commits, 0, |s.commits|) == 0 ==>
                  Balance(e, s.word, later) ==
                  Min(Burst(e), Units(e, later) - z - TotalCharge(e, s.commits, 0, |s.commits|)))
  {
    CommitsAreSequential(e, z, run);
    var s := End(e, z, run);
    forall x | 0 <= x < |s.commits|
      ensures s.commits[x].after == s.commits[x].before + Overflowed(e, s.commits[x]) + Charge(e, s.commits[x])
    {
      ChargeMovesUp(e, s.commits[x]);
    }
    if s.commits != [] {
      LedgerBalances(e, s.commits, 0, |s.commits|);
    }
  }

  // --------------------------------------------------------------------- resets

  function Resets(commits: seq<Commit>, k: nat): nat
    requires k <= |commits|
  {
    if k == 0 then 0 else Resets(commits, k - 1) + if commits[k - 1].op.Reset? then 1 else 0
  }

  /** They are counted one by one. */
  lemma {:induction false} ResetsAreCounted(commits: seq<Commit>, k: nat)
    requires k <= |commits|
    ensures Resets(commits, k) == |set i: nat | i < k && commits[i].op.Reset?|
  {
    if k != 0 {
      ResetsAreCounted(commits, k - 1);
      var before := set i: nat | i < k - 1 && commits[i].op.Reset?;
      var now := set i: nat | i < k && commits[i].op.Reset?;
      assert now == before + if commits[k - 1].op.Reset? then {k - 1} else {};
    }
  }

  /** The latest reading of the bucket's construction and of the grants so far. */
  function LatestGrant(builtAt: Duration, commits: seq<Commit>, k: nat): u64
    requires k <= |commits|
  {
    if k == 0 then DurationNanos(builtAt)
    else
      var before := LatestGrant(builtAt, commits, k - 1);
      if Spends(commits[k - 1].op) then Max(before, DurationNanos(Reading(commits[k - 1].op))) else before
  }

  lemma {:induction false} LatestGrantIsLatest(builtAt: Duration, commits: seq<Commit>, k: nat)
    requires k <= |commits|
    ensures DurationNanos(builtAt) <= LatestGrant(builtAt, commits, k)
    ensures forall i :: 0 <= i < k && Spends(commits[i].op) ==>
              DurationNanos(Reading(commits[i].op)) <= LatestGrant(builtAt, commits, k)
    ensures LatestGrant(builtAt, commits, k) == DurationNanos(builtAt) ||
            exists i :: 0 <= i < k && Spends(commits[i].op) &&
              LatestGrant(builtAt, commits, k) == DurationNanos(Reading(commits[i].op))
  {
    if k != 0 {
      LatestGrantIsLatest(builtAt, commits, k - 1);
    }
  }

  /** Grants and resets only, and no reset reads the clock earlier than the
      construction or than a grant committed before it. */
  ghost predicate FreshResets(builtAt: Duration, commits: seq<Commit>) {
    && (forall k :: 0 <= k < |commits| ==> Spends(commits[k].op) || commits[k].op.Reset?)
    && (forall k :: 0 <= k < |commits| && commits[k].op.Reset? ==>
          LatestGrant(builtAt, commits, k) <= DurationNanos(Reading(commits[k].op)))
  }

  /** What the resets may have added: a burst each. */
  function Refilled(e: Engine, commits: seq<Commit>, k: nat): int
    requires k <= |commits|
  {
    if k == 0 then 0 else Refilled(e, commits, k - 1) + if commits[k - 1].op.Reset? then Burst(e) else 0
  }

  lemma {:induction false} RefilledIsBursts(e: Engine, commits: seq<Commit>, k: nat)
    requires k <= |commits|
    ensures Refilled(e, commits, k) == Resets(commits, k) * Burst(e)
  {
    if k != 0 {
      RefilledIsBursts(e, commits, k - 1);
      Distribute(Resets(commits, k - 1), 1, Burst(e));
    }
  }

  function WordAfter(z: u64, commits: seq<Commit>, k: nat): u64
    requires k <= |commits|
  {
    if k == 0 then z else commits[k - 1].after
  }

  /** The books after `k` commits. */
  predicate Ledger(e: Engine, builtAt: Duration, commits: seq<Commit>, k: nat)
    requires k <= |commits|
  {
    TotalCharge(e, commits, 0, k) + Units(e, builtAt) - Cost(e, e.config.initial) <=
      Refilled(e, commits, k)
      + Min(WordAfter(InitialWord(e, builtAt), commits, k), UnitsAt(e, LatestGrant(builtAt, commits, k)))
  }

  lemma GrantKeepsLedger(e: Engine, builtAt: Duration, commits: seq<Commit>, k: nat)
    requires 0 < k <= |commits| && Ledger(e, builtAt, commits, k - 1)
    requires Lawful(e, commits[k - 1]) && Spends(commits[k - 1].op)
    requires commits[k - 1].before == WordAfter(InitialWord(e, builtAt), commits, k - 1)
    ensures Ledger(e, builtAt, commits, k)
  {
    var c := commits[k - 1];
    var before, latest := LatestGrant(builtAt, commits, k - 1), LatestGrant(builtAt, commits, k);
    ChargeMovesUp(e, c);
    SpendIsCoveredNow(e, c);
    ClockIsMonotonic(e, before, latest);
    ClockIsMonotonic(e, DurationNanos(Reading(c.op)), latest);
    GrantEntry(TotalCharge(e, commits, 0, k - 1) + Units(e, builtAt) - Cost(e, e.config.initial),
               Refilled(e, commits, k), Charge(e, c), c.before, c.after, UnitsAt(e, before), UnitsAt(e, latest));
  }

  lemma ResetKeepsLedger(e: Engine, builtAt: Duration, commits: seq<Commit>, k: nat)
    requires 0 < k <= |commits| && Ledger(e, builtAt, commits, k - 1)
    requires Lawful(e, commits[k - 1]) && commits[k - 1].op.Reset?
    requires commits[k - 1].before == WordAfter(InitialWord(e, builtAt), commits, k - 1)
    requires LatestGrant(builtAt, commits, k - 1) <= DurationNanos(Reading(commits[k - 1].op))
    ensures Ledger(e, builtAt, commits, k)
  {
    var c := commits[k - 1];
    var latest := LatestGrant(builtAt, commits, k - 1);
    ResetWrites(e, c);
    ClockIsMonotonic(e, latest, DurationNanos(Reading(c.op)));
    ResetEntry(TotalCharge(e, commits, 0, k - 1) + Units(e, builtAt) - Cost(e, e.config.initial),
               Refilled(e, commits, k - 1), Burst(e), c.before, c.after, UnitsAt(e, latest));
  }

  lemma LedgerOpens(e: Engine, builtAt: Duration, commits: seq<Commit>)
    ensures Ledger(e, builtAt, commits, 0)
  {
    assert TotalCharge(e, commits, 0, 0) == 0;
    assert Refilled(e, commits, 0) == 0;
  }

  lemma LineKeepsLedger(e: Engine, builtAt: Duration, commits: seq<Commit>, k: nat)
    requires Chained(e, commits) && FreshResets(builtAt, commits)
    requires commits != [] ==> commits[0].before == InitialWord(e, builtAt)
    requires 0 < k <= |commits| && Ledger(e, builtAt, commits, k - 1)
    ensures Ledger(e, builtAt, commits, k)
  {
    assert Lawful(e, commits[k - 1]);
    if commits[k - 1].op.Reset? {
      ResetKeepsLedger(e, builtAt, commits, k);
    } else {
      GrantKeepsLedger(e, builtAt, commits, k);
    }
  }

  lemma {:induction false} ResetLedger(e: Engine, builtAt: Duration, commits: seq<Commit>, k: nat)
    requires Chained(e, commits) && FreshResets(builtAt, commits)
    requires commits != [] ==> commits[0].before == InitialWord(e, builtAt)
    requires k <= |commits|
    ensures Ledger(e, builtAt, commits, k)
    decreases k
  {
    if k == 0 {
      LedgerOpens(e, builtAt, commits);
    } else {
      ResetLedger(e, builtAt, commits, k - 1);
      LineKeepsLedger(e, builtAt, commits, k);
    }
  }

  /** One line of the ledger: a grant climbs by its cost, to at most the latest reading. */
  lemma GrantEntry(total: int, resets: int, cost: int, before: int, after: int, earlier: int, latest: int)
    requires total <= resets + Min(before, earlier)
    requires before + cost <= after && after <= latest && earlier <= latest
    ensures total + cost <= resets + Min(after, latest)
  {
  }

  /** A reset falls by at most a burst below the latest reading. */
  lemma ResetEntry(total: int, resets: int, burst: int, before: int, after: int, latest: int)
    requires total <= resets + Min(before, latest)
    requires 0 <= burst && latest - burst <= after
    ensures total <= resets + burst + Min(after, latest)
  {
  }

  lemma ResetWrites(e: Engine, c: Commit)
    requires c.op.Reset? && Lawful(e, c)
    ensures c.after == Units(e, Reading(c.op)) - Burst(e)
    ensures Charge(e, c) == 0
  {
    CostOfNothing(e);
  }

  /** Resets are bounded: each one that is not stale adds at most one burst. */
  lemma ResetsAreBounded(e: Engine, builtAt: Duration, run: Run)
    requires Valid(e, InitialWord(e, builtAt), run)
    requires FreshResets(builtAt, End(e, InitialWord(e, builtAt), run).commits)
    ensures var commits := End(e, InitialWord(e, builtAt), run).commits;
            TotalCharge(e, commits, 0, |commits|) <=
              Cost(e, e.config.initial) + Resets(commits, |commits|) * Burst(e)
              + UnitsAt(e, LatestGrant(builtAt, commits, |commits|)) - Units(e, builtAt)
  {
    CommitsAreSequential(e, InitialWord(e, builtAt), run);
    var commits := End(e, InitialWord(e, builtAt), run).commits;
    ResetLedger(e, builtAt, commits, |commits|);
    RefilledIsBursts(e, commits, |commits|);
  }

  /** A bucket of capacity zero, such as every degenerate Tier-1 request gives,
      never charges anyone in any run. */
  lemma EmptyBucketNeverGrants(e: Engine, z: u64, run: Run, k: nat)
    requires Capacity(e) == 0 && Valid(e, z, run)
    requires k < |End(e, z, run).commits|
    ensures !Charges(End(e, z, run).commits[k].op)
  {
    CommitsAreSequential(e, z, run);
    var c := End(e, z, run).commits[k];
    if Charges(c.op) {
      ChargeMovesUp(e, c);
    }
  }
}
