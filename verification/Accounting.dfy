/** The sequential meaning of every operation, as one atomic step on the word.

    It is stated in terms of a signed balance, the credit in units a reading
    sees: `min(burst, now - z)`, negative while a reservation is in debt. The
    compare-and-swap loops that implement these steps are in `Cores`. */
module Accounting {
  import opened Arithmetic
  import opened Durations
  import opened Engines

  datatype Decision = Allowed | Denied(retryAfter: Duration)

  datatype Op =
    | Acquire(n: u32, now: Duration)
    | AcquireUpTo(n: u32, now: Duration)
    | Reserve(n: u32, maxWait: Duration, now: Duration)
    | Refund(n: u32)
    | Reset(now: Duration)
    | Available(now: Duration)
    | TimeUntil(n: u32, now: Duration)

  /** The clock reading a call carries; a refund has none. */
  function Reading(op: Op): Duration {
    if op.Refund? then ZERO else op.now
  }

  datatype Result =
    | Decided(decision: Decision)
    | Took(tokens: u32)
    | Reserved(wait: Option<Duration>)
    | Done
    | Holds(tokens: u32)
    | Until(wait: Option<Duration>)

  /** What one attempt on the word decides: return without writing, or write
      `next` and return. */
  datatype Outcome = Return(result: Result) | Write(next: u64, result: Result)

  // --------------------------------------------------------------- the balance

  function Balance(e: Engine, z: u64, now: Duration): int {
    Min(Burst(e), Units(e, now) - z)
  }

  /** Whole tokens in a balance. */
  function Tokens(e: Engine, balance: int): u32
    requires balance <= Burst(e)
  {
    if balance <= 0 then 0 else TokensFor(e, balance)
  }

  /** The empty instant after charging `cost` to the balance seen at `now`. */
  function Charged(e: Engine, z: u64, cost: u64, now: Duration): (target: nat)
  {
    BurstBelowClock(e, DurationNanos(now));
    Units(e, now) - Balance(e, z, now) + cost
  }

  /** A charge within the balance lands at or before the reading. */
  lemma ChargedWithin(e: Engine, z: u64, cost: u64, now: Duration)
    ensures cost <= Balance(e, z, now) <==> Charged(e, z, cost, now) <= Units(e, now)
    ensures Charged(e, z, cost, now) == Max(z, Units(e, now) - Burst(e)) + cost
  {
  }

  /** The wait until the clock reaches an instant that may lie past its end. */
  function WaitFor(e: Engine, target: nat, now: Duration): Option<Duration> {
    if target > MAX_U64 then None else WaitUntil(e, target, now)
  }

  function OrNever(wait: Option<Duration>): Duration {
    match wait
    case Some(w) => w
    case None => MAX
  }

  // ------------------------------------------------------------ the operations

  function AcquireOutcome(e: Engine, n: u32, now: Duration, z: u64): Outcome {
    if n == 0 then
      Return(Decided(Allowed))
    else if n > Capacity(e) then
      Return(Decided(Denied(MAX)))
    else
      ChargedWithin(e, z, Cost(e, n), now);
      var target := Charged(e, z, Cost(e, n), now);
      if Cost(e, n) <= Balance(e, z, now) then
        Write(target, Decided(Allowed))
      else
        Return(Decided(Denied(OrNever(WaitFor(e, target, now)))))
  }

  function AcquireUpToOutcome(e: Engine, n: u32, now: Duration, z: u64): Outcome {
    var take := Min(n, Tokens(e, Balance(e, z, now)));
    if take == 0 then
      Return(Took(0))
    else
      TokensCovered(e, Balance(e, z, now), take);
      ChargedWithin(e, z, Cost(e, take), now);
      Write(Charged(e, z, Cost(e, take), now), Took(take))
  }

  function ReserveOutcome(e: Engine, n: u32, maxWait: Duration, now: Duration, z: u64): Outcome {
    if n == 0 then
      Return(Reserved(Some(ZERO)))
    else if n > Capacity(e) then
      Return(Reserved(None))
    else
      ChargedWithin(e, z, Cost(e, n), now);
      var target := Charged(e, z, Cost(e, n), now);
      var wait := if Cost(e, n) <= Balance(e, z, now) then Some(ZERO) else WaitFor(e, target, now);
      if wait.Some? && AtMost(wait.value, maxWait) then
        Write(target, Reserved(wait))
      else
        Return(Reserved(None))
  }

  function RefundOutcome(e: Engine, n: u32, z: u64): Outcome {
    var m := Min(n, Capacity(e));
    if m == 0 then Return(Done) else Write(Max(0, z - Cost(e, m)), Done)
  }

  function ResetOutcome(e: Engine, now: Duration): Outcome {
    BurstBelowClock(e, DurationNanos(now));
    Write(Units(e, now) - Burst(e), Done)
  }

  function TimeUntilResult(e: Engine, n: u32, now: Duration, z: u64): Option<Duration> {
    if n == 0 then Some(ZERO)
    else if n > Capacity(e) then None
    else if Cost(e, n) <= Balance(e, z, now) then Some(ZERO)
    else WaitFor(e, Charged(e, z, Cost(e, n), now), now)
  }

  function Attempt(e: Engine, op: Op, z: u64): Outcome {
    match op
    case Acquire(n, now) => AcquireOutcome(e, n, now, z)
    case AcquireUpTo(n, now) => AcquireUpToOutcome(e, n, now, z)
    case Reserve(n, maxWait, now) => ReserveOutcome(e, n, maxWait, now, z)
    case Refund(n) => RefundOutcome(e, n, z)
    case Reset(now) => ResetOutcome(e, now)
    case Available(now) => Return(Holds(Tokens(e, Balance(e, z, now))))
    case TimeUntil(n, now) => Return(Until(TimeUntilResult(e, n, now, z)))
  }

  /** The atomic step: the word and the result after the operation. */
  function Apply(e: Engine, op: Op, z: u64): (u64, Result) {
    match Attempt(e, op, z)
    case Return(r) => (z, r)
    case Write(next, r) => (next, r)
  }

  /** The word of a bucket built at `now`. */
  function InitialWord(e: Engine, now: Duration): u64 {
    BurstBelowClock(e, DurationNanos(now));
    CostMonotonic(e, e.config.initial, Capacity(e));
    Units(e, now) - Cost(e, e.config.initial)
  }

  // ------------------------------------------------------- the grant boundary

  /** Tokens and balances form a Galois connection over every balance. */
  lemma TokensGalois(e: Engine, balance: int, n: u32)
    requires balance <= Burst(e) && 0 < n <= Capacity(e)
    ensures Cost(e, n) <= balance <==> n <= Tokens(e, balance)
    ensures Tokens(e, balance) <= Capacity(e)
  {
    CostMonotonic(e, n, n);
    if 0 < balance {
      CostGalois(e, n, balance);
    }
  }

  lemma TokensCovered(e: Engine, balance: int, n: u32)
    requires balance <= Burst(e) && 0 < n <= Tokens(e, balance)
    ensures n <= Capacity(e) && Cost(e, n) <= balance
  {
    assert n <= Capacity(e);
    TokensGalois(e, balance, n);
  }

  function AvailableTokens(e: Engine, z: u64, now: Duration): u32 {
    Tokens(e, Balance(e, z, now))
  }

  predicate Grants(e: Engine, n: u32, z: u64, now: Duration) {
    Attempt(e, Acquire(n, now), z).result == Decided(Allowed)
  }

  /** `available` is the exact boundary of what `acquire` grants. */
  lemma AvailableIsGrantBoundary(e: Engine, n: u32, z: u64, now: Duration)
    ensures Attempt(e, Available(now), z) == Return(Holds(AvailableTokens(e, z, now)))
    ensures Grants(e, n, z, now) <==> n <= AvailableTokens(e, z, now)
  {
    if 0 < n <= Capacity(e) {
      TokensGalois(e, Balance(e, z, now), n);
    }
  }

  /** A partial grant takes `min(n, available)` and leaves the word an `acquire`
      of that many tokens would leave. */
  lemma PartialGrantIsAcquire(e: Engine, n: u32, z: u64, now: Duration)
    ensures var take := Min(n, AvailableTokens(e, z, now));
            && Apply(e, AcquireUpTo(n, now), z).1 == Took(take)
            && Apply(e, Acquire(take, now), z) == (Apply(e, AcquireUpTo(n, now), z).0, Decided(Allowed))
  {
    var take := Min(n, AvailableTokens(e, z, now));
    if take != 0 {
      TokensCovered(e, Balance(e, z, now), take);
    }
  }

  /** A reading that is earlier, or a word that is later, only sees fewer tokens. */
  lemma StaleReadingSeesLess(e: Engine, n: u32, z: u64, z': u64, now: Duration, now': Duration)
    requires AsNanos(now) <= AsNanos(now') && z' <= z
    ensures AvailableTokens(e, z, now) <= AvailableTokens(e, z', now')
    ensures Grants(e, n, z, now) ==> Grants(e, n, z', now')
  {
    ClockIsMonotonic(e, DurationNanos(now), DurationNanos(now'));
    var k := AvailableTokens(e, z, now);
    if 0 < k {
      TokensCovered(e, Balance(e, z, now), k);
      TokensGalois(e, Balance(e, z', now'), k);
    }
    AvailableIsGrantBoundary(e, n, z, now);
    AvailableIsGrantBoundary(e, n, z', now');
  }

  /** One attempt, that is: over a run a stale grant can leave more for later. It
      never leaves less than the same grant at a later reading would, and it leaves
      the same word exactly when the clock has not moved, or the bucket would not
      have been more than full at the later reading. */
  lemma StaleGrantExactly(e: Engine, n: u32, z: u64, stale: Duration, now: Duration)
    requires 0 < n && Grants(e, n, z, stale)
    requires AsNanos(stale) <= AsNanos(now)
    ensures Grants(e, n, z, now)
    ensures Apply(e, Acquire(n, stale), z).0 <= Apply(e, Acquire(n, now), z).0
    ensures Apply(e, Acquire(n, stale), z).0 == Apply(e, Acquire(n, now), z).0 <==>
            Units(e, stale) == Units(e, now) || Units(e, now) - Burst(e) <= z
  {
    StaleReadingSeesLess(e, n, z, z, stale, now);
    ClockIsMonotonic(e, DurationNanos(stale), DurationNanos(now));
  }

  /** So a stale reading can lead to an extra grant: a bucket that was full at both
      readings, a burst or more apart, grants its capacity at the stale one and
      again at the later one, where two requests at the later one get it once. */
  lemma StaleGrantLeavesMore(e: Engine, z: u64, stale: Duration, now: Duration)
    requires 0 < Capacity(e)
    requires z <= Units(e, stale) - Burst(e) && Units(e, stale) + Burst(e) <= Units(e, now)
    ensures Grants(e, Capacity(e), z, stale)
    ensures Grants(e, Capacity(e), Apply(e, Acquire(Capacity(e), stale), z).0, now)
    ensures Grants(e, Capacity(e), z, now)
    ensures AvailableTokens(e, Apply(e, Acquire(Capacity(e), now), z).0, now) == 0
  {
    CostMonotonic(e, Capacity(e), Capacity(e));
  }

  /** A new bucket holds its initial tokens: exactly so when a unit is at most one
      token, and never less. */
  lemma InitialBalance(e: Engine, now: Duration)
    ensures Balance(e, InitialWord(e, now), now) == Cost(e, e.config.initial)
    ensures e.config.initial <= AvailableTokens(e, InitialWord(e, now), now)
    ensures Exact(e) ==> AvailableTokens(e, InitialWord(e, now), now) == e.config.initial
  {
    ExactTokens(e, e.config.initial);
    CostMonotonic(e, e.config.initial, Capacity(e));
    if 0 < e.config.initial {
      TokensGalois(e, Cost(e, e.config.initial), e.config.initial);
    }
  }

  lemma ExactTokens(e: Engine, n: u32)
    requires n <= Capacity(e)
    ensures Cost(e, n) <= Burst(e)
    ensures Exact(e) ==> Tokens(e, Cost(e, n)) == n
  {
    CostMonotonic(e, n, Capacity(e));
    if Exact(e) && 0 < n {
      CostGalois(e, n, Cost(e, n));
      if n < TokensFor(e, Cost(e, n)) {
        CostGalois(e, n + 1, Cost(e, n));
        ExactCostsAdd(e, n, 1);
        CostMonotonic(e, 1, 1);
      }
    }
  }

  /** Refunding a grant undoes it: from the reading of the grant on, every balance
      is what it would have been without either. */
  lemma RefundUndoesAcquire(e: Engine, n: u32, z: u64, now: Duration, later: Duration)
    requires 0 < n && Grants(e, n, z, now)
    requires AsNanos(now) <= AsNanos(later)
    ensures Balance(e, Apply(e, Refund(n), Apply(e, Acquire(n, now), z).0).0, later) == Balance(e, z, later)
  {
    ClockIsMonotonic(e, DurationNanos(now), DurationNanos(later));
    BurstBelowClock(e, DurationNanos(now));
    assert n <= Capacity(e);
  }

  /** A reset fills the bucket and cancels any debt: at its reading and every
      later one, exactly the requests within the capacity are granted. */
  lemma ResetFillsTheBucket(e: Engine, z: u64, now: Duration, later: Duration, n: u32)
    requires AsNanos(now) <= AsNanos(later)
    ensures AvailableTokens(e, Apply(e, Reset(now), z).0, later) == Capacity(e)
    ensures Grants(e, n, Apply(e, Reset(now), z).0, later) <==> n <= Capacity(e)
  {
    var full := Apply(e, Reset(now), z).0;
    ClockIsMonotonic(e, DurationNanos(now), DurationNanos(later));
    BurstBelowClock(e, DurationNanos(now));
    FullCreditBuysCapacity(e);
    if Capacity(e) == 0 {
      CostOfNothing(e);
    } else {
      CostMonotonic(e, Capacity(e), Capacity(e));
    }
    AvailableIsGrantBoundary(e, n, full, later);
  }

  // ---------------------------------------------------------------- the waits

  /** While the clock has not reached `target`, the wait is a positive whole
      number of milliseconds, and there is none exactly when no reading reaches it. */
  lemma WaitIsPositive(e: Engine, target: nat, now: Duration)
    requires Units(e, now) < target
    ensures WaitFor(e, target, now).None? <==> UnitsAt(e, MAX_U64) < target
    ensures PositiveOrNever(WaitFor(e, target, now))
  {
    if target <= MAX_U64 {
      ClockGalois(e, target, DurationNanos(now));
      ClockGalois(e, target, MAX_U64);
      if DueNanos(e, target) <= MAX_U64 {
        var waitNs := DueNanos(e, target) - DurationNanos(now);
        CeilGalois(waitNs, NANOS_PER_MILLI, 0);
        assert WaitFor(e, target, now) == Some(FromMillis(MillisFor(waitNs)));
        PositiveMillisIsPositive(FromMillis(MillisFor(waitNs)));
      }
    }
  }

  /** Waiting `m` milliseconds reaches `target` exactly when `m` is at least the wait. */
  lemma WaitIsExact(e: Engine, target: nat, now: Duration, later: Duration, m: nat)
    requires Units(e, now) < target && WaitFor(e, target, now).Some?
    requires AsNanos(later) == AsNanos(now) + m * NANOS_PER_MILLI
    ensures target <= Units(e, later) <==> AsNanos(WaitFor(e, target, now).value) <= m * NANOS_PER_MILLI
  {
    ClockGalois(e, target, DurationNanos(now));
    ClockGalois(e, target, DurationNanos(later));
    CeilGalois(DueNanos(e, target) - DurationNanos(now), NANOS_PER_MILLI, m);
  }

  /** On an unchanged word, a denied request is granted from the reading at which
      the clock covers its charge. */
  lemma DeniedThenGranted(e: Engine, n: u32, z: u64, now: Duration, later: Duration)
    requires 0 < n <= Capacity(e) && !Grants(e, n, z, now)
    ensures Charged(e, z, Cost(e, n), now) == z + Cost(e, n) > Units(e, now)
    ensures Grants(e, n, z, later) <==> Charged(e, z, Cost(e, n), now) <= Units(e, later)
  {
    CostMonotonic(e, n, n);
    ChargedWithin(e, z, Cost(e, n), now);
  }

  /** The retry hint is exact to the millisecond: after a denial that names a
      wait, the same request on the unchanged word is granted `m` milliseconds
      later exactly when `m` is at least that wait. */
  lemma RetryHintIsExact(e: Engine, n: u32, z: u64, now: Duration, hint: Duration, later: Duration, m: nat)
    requires Attempt(e, Acquire(n, now), z) == Return(Decided(Denied(hint))) && hint != MAX
    requires AsNanos(later) == AsNanos(now) + m * NANOS_PER_MILLI
    ensures Grants(e, n, z, later) <==> AsNanos(hint) <= m * NANOS_PER_MILLI
    ensures PositiveMillis(hint)
  {
    var target := DenialHint(e, n, z, now, hint);
    DeniedThenGranted(e, n, z, now, later);
    WaitIsExact(e, target, now, later, m);
  }

  /** A finite hint is the wait for the instant the charge would land on. */
  lemma DenialHint(e: Engine, n: u32, z: u64, now: Duration, hint: Duration) returns (target: nat)
    requires Attempt(e, Acquire(n, now), z) == Return(Decided(Denied(hint))) && hint != MAX
    ensures 0 < n <= Capacity(e) && !Grants(e, n, z, now)
    ensures target == Charged(e, z, Cost(e, n), now) && Units(e, now) < target
    ensures WaitFor(e, target, now) == Some(hint)
    ensures PositiveMillis(hint)
  {
    DeniedThenGranted(e, n, z, now, now);
    target := Charged(e, z, Cost(e, n), now);
    WaitIsPositive(e, target, now);
  }

  function FromNanos(ns: u64): (d: Duration)
    ensures AsNanos(d) == ns
  {
    Duration(ns / NANOS_PER_SEC, ns % NANOS_PER_SEC)
  }

  /** "Never" means never: a denial says `Duration::MAX` exactly when no reading
      whatever would grant the request. */
  lemma RetryNeverIsNever(e: Engine, n: u32, z: u64, now: Duration)
    requires !Grants(e, n, z, now)
    ensures Attempt(e, Acquire(n, now), z) == Return(Decided(Denied(MAX))) <==>
      forall later: Duration :: !Grants(e, n, z, later)
  {
    if n <= Capacity(e) {
      var last := FromNanos(MAX_U64);
      DeniedThenGranted(e, n, z, now, last);
      WaitIsPositive(e, z + Cost(e, n), now);
      assert Grants(e, n, z, last) <==> z + Cost(e, n) <= UnitsAt(e, MAX_U64);
      forall later: Duration | Grants(e, n, z, later)
        ensures Grants(e, n, z, last)
      {
        DeniedThenGranted(e, n, z, now, later);
        ClockIsMonotonic(e, DurationNanos(later), MAX_U64);
      }
    }
  }

  /** "Never" is longer than any wait: every finite hint and every wait the engine
      reports is at most `u64::MAX` milliseconds, short of `Duration::MAX`. */
  lemma NeverIsLongest(e: Engine, n: u32, z: u64, now: Duration, target: nat)
    ensures WaitFor(e, target, now).Some? ==>
      AsNanos(WaitFor(e, target, now).value) <= MAX_U64 * NANOS_PER_MILLI < AsNanos(MAX)
    ensures var denial := Attempt(e, Acquire(n, now), z).result;
            denial.Decided? && denial.decision.Denied? ==>
              && AtMost(denial.decision.retryAfter, MAX)
              && (denial.decision.retryAfter != MAX ==>
                    AsNanos(denial.decision.retryAfter) <= MAX_U64 * NANOS_PER_MILLI < AsNanos(MAX))
  {
    WaitIsShort(e, target, now);
    WaitIsShort(e, Charged(e, z, if n <= Capacity(e) then Cost(e, n) else 0, now), now);
    if !Grants(e, n, z, now) {
      MaxIsLongest(Attempt(e, Acquire(n, now), z).result.decision.retryAfter);
    }
  }

  lemma WaitIsShort(e: Engine, target: nat, now: Duration)
    ensures WaitFor(e, target, now).Some? ==>
      AsNanos(WaitFor(e, target, now).value) <= MAX_U64 * NANOS_PER_MILLI < AsNanos(MAX)
  {
  }

  /** `time_until` is zero exactly when `acquire` allows, and otherwise it is the
      wait `acquire` denies with: a positive whole number of milliseconds, or
      none where the denial is for ever. */
  lemma TimeUntilAgreesWithAcquire(e: Engine, n: u32, z: u64, now: Duration)
    ensures TimeUntilResult(e, n, now, z) == Some(ZERO) <==> Grants(e, n, z, now)
    ensures !Grants(e, n, z, now) ==>
      && Attempt(e, Acquire(n, now), z) == Return(Decided(Denied(OrNever(TimeUntilResult(e, n, now, z)))))
      && PositiveOrNever(TimeUntilResult(e, n, now, z))
  {
    if 0 < n <= Capacity(e) && !Grants(e, n, z, now) {
      DeniedThenGranted(e, n, z, now, now);
      WaitIsPositive(e, Charged(e, z, Cost(e, n), now), now);
    }
  }

  ghost predicate PositiveOrNever(wait: Option<Duration>) {
    wait.Some? ==> wait.value != MAX && wait.value != ZERO && PositiveMillis(wait.value)
  }

  /** `reserve` succeeds exactly when the wait of `time_until` is within its
      limit, and returns that wait. */
  lemma ReserveAgreesWithTimeUntil(e: Engine, n: u32, z: u64, maxWait: Duration, now: Duration)
    requires 0 < n
    ensures var wait := TimeUntilResult(e, n, now, z);
            var accepted := wait.Some? && AtMost(wait.value, maxWait);
            && (Attempt(e, Reserve(n, maxWait, now), z).Write? <==> accepted)
            && Attempt(e, Reserve(n, maxWait, now), z).result == Reserved(if accepted then wait else None)
  {
  }

  /** A reservation that may not wait is an `acquire`. */
  lemma ZeroWaitReserveIsAcquire(e: Engine, n: u32, z: u64, now: Duration)
    ensures Apply(e, Reserve(n, ZERO, now), z).0 == Apply(e, Acquire(n, now), z).0
    ensures Apply(e, Reserve(n, ZERO, now), z).1 == Reserved(Some(ZERO)) <==> Grants(e, n, z, now)
  {
    TimeUntilAgreesWithAcquire(e, n, z, now);
    if 0 < n {
      ReserveAgreesWithTimeUntil(e, n, z, ZERO, now);
    }
  }
}
