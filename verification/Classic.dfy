/** The classic bucket the single instant replaces: a token count, negative while
    in debt, and the instant it was last brought current. */
module Classics {
  import opened Arithmetic
  import opened Durations
  import opened Engines
  import opened Accounting

  datatype Classic = Classic(tokens: int, last: u64)

  /** `tokens := min(burst, tokens + elapsed)`. */
  function Refill(e: Engine, b: Classic, instant: u64): Classic {
    Classic(Min(Burst(e), b.tokens + (instant - b.last)), instant)
  }

  function Spend(b: Classic, cost: u64): Classic {
    b.(tokens := b.tokens - cost)
  }

  /** The wait for a deficit to accrue from the bucket's own instant. */
  function DeficitWait(e: Engine, b: Classic, cost: u64, now: Duration): Option<Duration>
    requires b.tokens < cost
  {
    WaitFor(e, b.last + (cost - b.tokens), now)
  }

  function ClassicAcquire(e: Engine, b: Classic, n: u32, now: Duration): (Classic, Decision) {
    if n == 0 then (b, Allowed)
    else if n > Capacity(e) then (b, Denied(MAX))
    else
      var full := Refill(e, b, Units(e, now));
      if Cost(e, n) <= full.tokens then (Spend(full, Cost(e, n)), Allowed)
      else (full, Denied(OrNever(DeficitWait(e, full, Cost(e, n), now))))
  }

  function ClassicReserve(e: Engine, b: Classic, n: u32, maxWait: Duration, now: Duration)
    : (Classic, Option<Duration>)
  {
    if n == 0 then (b, Some(ZERO))
    else if n > Capacity(e) then (b, None)
    else
      var full := Refill(e, b, Units(e, now));
      var wait := if Cost(e, n) <= full.tokens then Some(ZERO) else DeficitWait(e, full, Cost(e, n), now);
      if wait.Some? && AtMost(wait.value, maxWait) then (Spend(full, Cost(e, n)), wait) else (full, None)
  }

  function ClassicTimeUntil(e: Engine, b: Classic, n: u32, now: Duration): Option<Duration> {
    if n == 0 then Some(ZERO)
    else if n > Capacity(e) then None
    else
      var full := Refill(e, b, Units(e, now));
      if Cost(e, n) <= full.tokens then Some(ZERO) else DeficitWait(e, full, Cost(e, n), now)
  }

  function ClassicStep(e: Engine, b: Classic, op: Op): (Classic, Result) {
    match op
    case Acquire(n, now) =>
      var (b', d) := ClassicAcquire(e, b, n, now);
      (b', Decided(d))
    case AcquireUpTo(n, now) =>
      var full := Refill(e, b, Units(e, now));
      var take := Min(n, Tokens(e, full.tokens));
      if take == 0 then (full, Took(0))
      else
        TokensCovered(e, full.tokens, take);
        (Spend(full, Cost(e, take)), Took(take))
    case Reserve(n, maxWait, now) =>
      var (b', w) := ClassicReserve(e, b, n, maxWait, now);
      (b', Reserved(w))
    case Refund(n) =>
      (b.(tokens := Min(Burst(e), b.tokens + Cost(e, Min(n, Capacity(e))))), Done)
    case Reset(now) =>
      (Classic(Burst(e), Units(e, now)), Done)
    case Available(now) =>
      var full := Refill(e, b, Units(e, now));
      (full, Holds(Tokens(e, full.tokens)))
    case TimeUntil(n, now) =>
      (b, Until(ClassicTimeUntil(e, b, n, now)))
  }

  /** The word stands for the classic bucket: the count is the balance the word
      shows at the classic bucket's own instant. */
  predicate Represents(e: Engine, z: u64, b: Classic) {
    ORIGIN <= b.last && b.tokens == Min(Burst(e), b.last - z)
  }

  predicate HasReading(op: Op) {
    !op.Refund?
  }

  predicate Refines(e: Engine, z: u64, b: Classic, op: Op) {
    && Apply(e, op, z).1 == ClassicStep(e, b, op).1
    && Represents(e, Apply(e, op, z).0, ClassicStep(e, b, op).0)
  }

  /** One step: the same result, and the word still stands for the bucket. */
  lemma StepRefines(e: Engine, z: u64, b: Classic, op: Op)
    requires Represents(e, z, b)
    requires HasReading(op) ==> b.last <= Units(e, op.now)
    ensures Refines(e, z, b, op)
  {
    match op
    case Refund(n) => RefundRefines(e, z, b, n);
    case Acquire(n, now) => AcquireRefines(e, z, b, n, now);
    case AcquireUpTo(n, now) => AcquireUpToRefines(e, z, b, n, now);
    case Reserve(n, maxWait, now) => ReserveRefines(e, z, b, n, maxWait, now);
    case Reset(now) => RefillIsBalance(e, z, b, now);
    case Available(now) => RefillIsBalance(e, z, b, now);
    case TimeUntil(n, now) => TimeUntilRefines(e, z, b, n, now);
  }

  /** The classic bucket is brought current at readings only. */
  lemma LastIsAReading(e: Engine, b: Classic, op: Op)
    ensures var last := ClassicStep(e, b, op).0.last;
            last == b.last || (HasReading(op) && last == Units(e, op.now))
  {
  }

  lemma AcquireUpToRefines(e: Engine, z: u64, b: Classic, n: u32, now: Duration)
    requires Represents(e, z, b) && b.last <= Units(e, now)
    ensures Refines(e, z, b, AcquireUpTo(n, now))
  {
    RefillIsBalance(e, z, b, now);
  }

  lemma TimeUntilRefines(e: Engine, z: u64, b: Classic, n: u32, now: Duration)
    requires Represents(e, z, b) && b.last <= Units(e, now)
    ensures Refines(e, z, b, TimeUntil(n, now))
  {
    RefillIsBalance(e, z, b, now);
  }

  lemma AcquireRefines(e: Engine, z: u64, b: Classic, n: u32, now: Duration)
    requires Represents(e, z, b) && b.last <= Units(e, now)
    ensures Refines(e, z, b, Acquire(n, now))
  {
    RefillIsBalance(e, z, b, now);
    if 0 < n <= Capacity(e) {
      var full, cost := Refill(e, b, Units(e, now)), Cost(e, n);
      assert Charged(e, z, cost, now) == full.last + (cost - full.tokens);
      assert ClassicAcquire(e, b, n, now) ==
             if cost <= full.tokens then (Spend(full, cost), Allowed)
             else (full, Denied(OrNever(WaitFor(e, Charged(e, z, cost, now), now))));
    }
  }

  lemma ReserveRefines(e: Engine, z: u64, b: Classic, n: u32, maxWait: Duration, now: Duration)
    requires Represents(e, z, b) && b.last <= Units(e, now)
    ensures Refines(e, z, b, Reserve(n, maxWait, now))
  {
    RefillIsBalance(e, z, b, now);
    if 0 < n <= Capacity(e) {
      var full, cost := Refill(e, b, Units(e, now)), Cost(e, n);
      assert Charged(e, z, cost, now) == full.last + (cost - full.tokens);
      var wait := if cost <= full.tokens then Some(ZERO) else WaitFor(e, Charged(e, z, cost, now), now);
      assert ClassicReserve(e, b, n, maxWait, now) ==
             if wait.Some? && AtMost(wait.value, maxWait) then (Spend(full, cost), wait) else (full, None);
    }
  }

  /** A refund that saturates at zero still leaves a full bucket. */
  lemma RefundRefines(e: Engine, z: u64, b: Classic, n: u32)
    requires Represents(e, z, b)
    ensures Refines(e, z, b, Refund(n))
  {
    BurstBelowClock(e, 0);
    CostMonotonic(e, Min(n, Capacity(e)), Capacity(e));
    if Min(n, Capacity(e)) == 0 {
      CostOfNothing(e);
    }
  }

  lemma RefillIsBalance(e: Engine, z: u64, b: Classic, now: Duration)
    requires Represents(e, z, b) && b.last <= Units(e, now)
    ensures Refill(e, b, Units(e, now)) == Classic(Balance(e, z, now), Units(e, now))
    ensures Burst(e) < ORIGIN <= Units(e, now)
  {
    BurstBelowClock(e, DurationNanos(now));
  }

  // -------------------------------------------------------------- whole histories

  function WordResults(e: Engine, z: u64, ops: seq<Op>): (u64, seq<Result>)
    decreases |ops|
  {
    if ops == [] then (z, [])
    else
      var (z1, r) := Apply(e, ops[0], z);
      var (z2, rs) := WordResults(e, z1, ops[1..]);
      (z2, [r] + rs)
  }

  function ClassicResults(e: Engine, b: Classic, ops: seq<Op>): (Classic, seq<Result>)
    decreases |ops|
  {
    if ops == [] then (b, [])
    else
      var (b1, r) := ClassicStep(e, b, ops[0]);
      var (b2, rs) := ClassicResults(e, b1, ops[1..]);
      (b2, [r] + rs)
  }

  /** No reading in `ops` is earlier than `since` or than one before it. */
  predicate Ordered(since: Duration, ops: seq<Op>)
    decreases |ops|
  {
    ops == [] ||
    (var next := if HasReading(ops[0]) then ops[0].now else since;
     AsNanos(since) <= AsNanos(next) && Ordered(next, ops[1..]))
  }

  lemma {:induction false} HistoryRefines(e: Engine, since: Duration, z: u64, b: Classic, ops: seq<Op>)
    requires Represents(e, z, b) && b.last <= Units(e, since)
    requires Ordered(since, ops)
    ensures WordResults(e, z, ops).1 == ClassicResults(e, b, ops).1
    ensures Represents(e, WordResults(e, z, ops).0, ClassicResults(e, b, ops).0)
    decreases |ops|
  {
    if ops != [] {
      var next := if HasReading(ops[0]) then ops[0].now else since;
      ClockIsMonotonic(e, DurationNanos(since), DurationNanos(next));
      StepRefines(e, z, b, ops[0]);
      LastIsAReading(e, b, ops[0]);
      HistoryRefines(e, next, Apply(e, ops[0], z).0, ClassicStep(e, b, ops[0]).0, ops[1..]);
    }
  }

  /** The single instant refines the classic bucket: over every history of
      operations with non-decreasing readings, a new bucket gives the decisions,
      waits, partial grants and balances the classic one gives, and ends up with
      the classic one's count as its balance. */
  lemma SingleInstantRefinesClassic(e: Engine, builtAt: Duration, ops: seq<Op>)
    requires Ordered(builtAt, ops)
    ensures var full := Classic(Cost(e, e.config.initial), Units(e, builtAt));
            && WordResults(e, InitialWord(e, builtAt), ops).1 == ClassicResults(e, full, ops).1
            && Represents(e, WordResults(e, InitialWord(e, builtAt), ops).0, ClassicResults(e, full, ops).0)
  {
    CostMonotonic(e, e.config.initial, Capacity(e));
    ClockIsMonotonic(e, 0, DurationNanos(builtAt));
    HistoryRefines(e, builtAt, InitialWord(e, builtAt), Classic(Cost(e, e.config.initial), Units(e, builtAt)), ops);
  }
}
