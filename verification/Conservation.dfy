/** With the clock frozen, and a unit of at most one token, no token is created
    or lost: what the threads hold and what is available always add up to what
    the bucket started with. */
module Conservation {
  import opened Arithmetic
  import opened Durations
  import opened Engines
  import opened Accounting
  import opened Protocol
  import opened Ledgers

  // ----------------------------------------------------------- the frozen clock

  /** Everything but resets and waiting reservations, all at one reading. */
  predicate FrozenOp(op: Op, at: Duration) {
    match op
    case Acquire(_, now) => DurationNanos(now) == DurationNanos(at)
    case AcquireUpTo(_, now) => DurationNanos(now) == DurationNanos(at)
    case Reserve(_, maxWait, now) => IsZero(maxWait) && DurationNanos(now) == DurationNanos(at)
    case Refund(_) => true
    case Reset(_) => false
    case Available(now) => DurationNanos(now) == DurationNanos(at)
    case TimeUntil(_, now) => DurationNanos(now) == DurationNanos(at)
  }

  /** Tokens a thread's call is giving back, until it returns. */
  function Promised(phases: map<Tid, Phase>, t: Tid): nat {
    if t in phases && phases[t].op.Refund? then phases[t].op.n else 0
  }

  /** The first `n` threads' promises. */
  function TotalPromised(phases: map<Tid, Phase>, n: nat): nat {
    if n == 0 then 0 else TotalPromised(phases, n - 1) + Promised(phases, n - 1)
  }

  /** Refunds under way, however many threads are counted, together with `more`
      give back no more than the completed calls left everyone holding. Tokens
      may come back from another thread than the one they were granted to. */
  ghost predicate Covered(s: System, more: nat) {
    forall n: nat :: more + TotalPromised(s.phases, n) <= Held(ReturnMoves(Net, s.calls), None)
  }

  ghost predicate FrozenStep(s: System, step: Step, at: Duration) {
    step.Invoke? ==> FrozenOp(step.op, at) && (step.op.Refund? ==> Covered(s, step.op.n))
  }

  ghost predicate FrozenRun(e: Engine, run: Run, at: Duration) {
    && Valid(e, InitialWord(e, at), run)
    && (run.Then? ==> FrozenRun(e, run.prev, at) && FrozenStep(End(e, InitialWord(e, at), run.prev), run.step, at))
  }

  /** Frozen runs leave nothing else out: any step inside a call continues one, and so
      does invoking a grant or a question at the frozen reading, a reservation there
      that may not wait, or a refund of no more than is held. */
  lemma FrozenRunsAreOpen(e: Engine, run: Run, at: Duration, step: Step)
    requires FrozenRun(e, run, at) && Enabled(e, End(e, InitialWord(e, at), run), step)
    requires step.Invoke? ==>
      match step.op
      case Refund(n) => Covered(End(e, InitialWord(e, at), run), n)
      case Reset(_) => false
      case Reserve(_, maxWait, now) => AsNanos(maxWait) == 0 && AsNanos(now) == AsNanos(at)
      case _ => AsNanos(step.op.now) == AsNanos(at)
    ensures FrozenRun(e, Then(run, step), at)
  {
  }

  /** The word when `total` of the initial tokens are out. */
  predicate WordHolds(e: Engine, at: Duration, word: u64, total: int) {
    && 0 <= total <= e.config.initial
    && word == Units(e, at) - Cost(e, e.config.initial - total)
  }

  lemma ExactCostOrder(e: Engine, a: u32, b: u32)
    requires Exact(e) && a <= Capacity(e) && b <= Capacity(e)
    ensures Cost(e, a) <= Cost(e, b) <==> a <= b
  {
    CancelFactor(a, b, Factor(e));
  }

  lemma FrozenBalance(e: Engine, at: Duration, now: Duration, z: u64, total: int)
    requires WordHolds(e, at, z, total) && DurationNanos(now) == DurationNanos(at)
    ensures Balance(e, z, now) == Cost(e, e.config.initial - total)
    ensures Units(e, now) == Units(e, at)
  {
    CostMonotonic(e, e.config.initial - total, Capacity(e));
  }

  lemma FrozenCharge(e: Engine, at: Duration, now: Duration, z: u64, total: int, n: u32)
    requires Exact(e) && WordHolds(e, at, z, total) && DurationNanos(now) == DurationNanos(at)
    requires n <= Capacity(e) && Cost(e, n) <= Balance(e, z, now)
    ensures Charged(e, z, Cost(e, n), now) <= MAX_U64
    ensures WordHolds(e, at, Charged(e, z, Cost(e, n), now), total + n)
  {
    FrozenBalance(e, at, now, z, total);
    ExactCostOrder(e, n, e.config.initial - total);
    ExactCostsAdd(e, e.config.initial - total - n, n);
  }

  lemma FrozenRefund(e: Engine, at: Duration, z: u64, total: int, n: u32)
    requires Exact(e) && WordHolds(e, at, z, total)
    requires n <= total
    ensures WordHolds(e, at, Max(0, z - Cost(e, n)), total - n)
  {
    ExactCostsAdd(e, e.config.initial - total, n);
    BurstBelowClock(e, DurationNanos(at));
    CostMonotonic(e, e.config.initial - total + n, Capacity(e));
  }

  /** A write at the frozen reading moves exactly the tokens it reports. */
  lemma FrozenWrite(e: Engine, at: Duration, op: Op, z: u64, total: int)
    requires Exact(e) && FrozenOp(op, at) && WordHolds(e, at, z, total)
    requires Attempt(e, op, z).Write?
    requires op.Refund? ==> op.n <= total
    ensures WordHolds(e, at, Attempt(e, op, z).next, total + Moved(Net, op, Attempt(e, op, z).result))
  {
    match op
    case Acquire(n, now) => FrozenCharge(e, at, now, z, total, n);
    case AcquireUpTo(n, now) =>
      var take := Min(n, Tokens(e, Balance(e, z, now)));
      TokensCovered(e, Balance(e, z, now), take);
      FrozenCharge(e, at, now, z, total, take);
    case Reserve(n, maxWait, now) =>
      TimeUntilAgreesWithAcquire(e, n, z, now);
      FrozenCharge(e, at, now, z, total, n);
    case Refund(n) => FrozenRefund(e, at, z, total, n);
    case Reset(_) =>
    case Available(_) =>
    case TimeUntil(_, _) =>
  }

  // ------------------------------------------------- refunds of tokens in hand

  lemma {:induction false} PromisedElsewhere(a: map<Tid, Phase>, b: map<Tid, Phase>, t: Tid, n: nat)
    requires forall u: Tid :: u != t ==> Promised(a, u) == Promised(b, u)
    ensures TotalPromised(a, n) - TotalPromised(b, n) == if t < n then Promised(a, t) - Promised(b, t) else 0
  {
    if n != 0 {
      PromisedElsewhere(a, b, t, n - 1);
    }
  }

  lemma {:induction false} PromisedMonotonic(phases: map<Tid, Phase>, n: nat, k: nat)
    requires n <= k
    ensures TotalPromised(phases, n) <= TotalPromised(phases, k)
  {
    if n < k {
      PromisedMonotonic(phases, n, k - 1);
    }
  }

  /** A refund counts from its invocation... */
  lemma InvokeKeepsCovered(s: System, s': System, t: Tid)
    requires t !in s.phases && t in s'.phases && s'.phases == s.phases[t := s'.phases[t]] && s'.calls == s.calls
    requires Covered(s, Promised(s'.phases, t))
    ensures Covered(s', 0)
  {
    forall n: nat
      ensures TotalPromised(s'.phases, n) <= Held(ReturnMoves(Net, s'.calls), None)
    {
      PromisedElsewhere(s'.phases, s.phases, t, n);
    }
  }

  /** ...for as long as its thread has not returned... */
  lemma PhaseKeepsCovered(s: System, s': System, t: Tid)
    requires Covered(s, 0) && t in s.phases && t in s'.phases
    requires s'.phases == s.phases[t := s'.phases[t]] && s'.phases[t].op == s.phases[t].op && s'.calls == s.calls
    ensures Covered(s', 0)
  {
    forall n: nat
      ensures TotalPromised(s'.phases, n) <= Held(ReturnMoves(Net, s'.calls), None)
    {
      PromisedElsewhere(s'.phases, s.phases, t, n);
    }
  }

  /** ...when it is taken off both sides. */
  lemma RespondKeepsCovered(s: System, s': System, t: Tid, call: Call)
    requires Covered(s, 0) && t in s.phases
    requires s'.phases == s.phases - {t} && s'.calls == s.calls + [call]
    requires 0 <= Promised(s.phases, t) + Moved(Net, call.op, call.result)
    ensures Covered(s', 0)
  {
    CallMoves(Net, s.calls, call, None);
    forall n: nat
      ensures TotalPromised(s'.phases, n) <= Held(ReturnMoves(Net, s'.calls), None)
    {
      PromisedElsewhere(s'.phases, s.phases, t, n);
      PromisedPart(s.phases, t, n);
      PromisedMonotonic(s.phases, n, Max(n, t + 1));
    }
  }

  /** A thread's promise is part of a total that counts the thread. */
  lemma PromisedPart(phases: map<Tid, Phase>, t: Tid, n: nat)
    ensures n <= t ==> TotalPromised(phases, n) + Promised(phases, t) <= TotalPromised(phases, t + 1)
  {
    if n <= t {
      PromisedMonotonic(phases, n, t);
    }
  }

  /** What a call hands over, or gives back as it promised. */
  lemma PromiseIsKept(phases: map<Tid, Phase>, t: Tid)
    requires t in phases && phases[t].Settled?
    ensures 0 <= Promised(phases, t) + Moved(Net, phases[t].op, phases[t].result)
  {
  }

  lemma EffectKeepsCovered(e: Engine, s: System, step: Step, at: Duration)
    requires Covered(s, 0) && Enabled(e, s, step) && FrozenStep(s, step, at)
    ensures Covered(Effect(e, s, step), 0)
  {
    match step
    case Invoke(t, op) => InvokeKeepsCovered(s, Effect(e, s, step), t);
    case Load(t, _) => PhaseKeepsCovered(s, Effect(e, s, step), t);
    case Lose(t, _) => PhaseKeepsCovered(s, Effect(e, s, step), t);
    case Win(t) => PhaseKeepsCovered(s, Effect(e, s, step), t);
    case Swap(t) => PhaseKeepsCovered(s, Effect(e, s, step), t);
    case Respond(t) =>
      var p := s.phases[t];
      PromiseIsKept(s.phases, t);
      RespondKeepsCovered(s, Effect(e, s, step), t, Call(t, p.op, p.result, p.since, p.at, s.time));
  }

  /** Tokens promised back that have not gone back yet. */
  function Outstanding(s: System, t: Tid): nat {
    if t in s.phases && s.phases[t].Settled? then 0 else Promised(s.phases, t)
  }

  lemma {:induction false} EffectsCoverPromises(s: System, t: Tid, n: nat)
    requires HoldingsAgree(Net, s)
    ensures SumHeld(ReturnMoves(Net, s.calls), n) + (if t < n then Outstanding(s, t) else 0) <=
            SumHeld(EffectMoves(Net, s.order), n) + TotalPromised(s.phases, n)
  {
    if n != 0 {
      EffectsCoverPromises(s, t, n - 1);
      assert Agrees(Net, s, n - 1);
      assert Outstanding(s, n - 1) <= Unreported(Net, s.phases, n - 1) + Promised(s.phases, n - 1);
    }
  }

  /** So a refund is never of more than is out. */
  lemma PromiseIsInHand(s: System, t: Tid, more: nat)
    requires HoldingsAgree(Net, s) && Covered(s, more)
    ensures more + Outstanding(s, t) <= Held(EffectMoves(Net, s.order), None)
  {
    var effects, reported := EffectMoves(Net, s.order), ReturnMoves(Net, s.calls);
    var n := Max(Max(ThreadBound(effects), ThreadBound(reported)), t + 1);
    EffectsCoverPromises(s, t, n);
    SumIsTotal(effects, n);
    SumIsTotal(reported, n);
  }

  // ------------------------------------------------------------------ invariant

  /** What has taken effect, and the word that goes with it. */
  predicate Balanced(e: Engine, s: System, at: Duration) {
    WordHolds(e, at, s.word, Held(EffectMoves(Net, s.order), None))
  }

  /** Calls in flight are frozen ones. */
  ghost predicate FrozenPhases(s: System, at: Duration) {
    forall t :: t in s.phases ==> FrozenOp(s.phases[t].op, at)
  }

  lemma DecideBalances(e: Engine, s: System, t: Tid, op: Op, since: nat, next: u64, result: Result, at: Duration)
    requires WordHolds(e, at, next, Held(EffectMoves(Net, s.order), None) + Moved(Net, op, result))
    ensures Balanced(e, Decide(s, t, op, since, next, result), at)
  {
    EventMoves(Net, s.order, Event(t, op, s.word, next, result, s.time), None);
  }

  lemma ObserveBalances(e: Engine, s: System, t: Tid, op: Op, since: nat, v: u64, at: Duration)
    requires Balanced(e, s, at)
    requires op.Refund? ==> op.n <= Held(EffectMoves(Net, s.order), None)
    ensures Balanced(e, Observe(e, s, t, op, since, v), at)
  {
    match Attempt(e, op, v)
    case Return(result) =>
      ReturnMovesNothing(Net, e, op, v);
      DecideBalances(e, s, t, op, since, s.word, result, at);
    case Write(_, _) =>
  }

  lemma StoreBalances(e: Engine, s: System, t: Tid, op: Op, since: nat, next: u64, result: Result, at: Duration)
    requires Exact(e) && Balanced(e, s, at) && FrozenOp(op, at)
    requires Attempt(e, op, s.word) == Write(next, result)
    requires op.Refund? ==> op.n <= Held(EffectMoves(Net, s.order), None)
    ensures Balanced(e, Store(s, t, op, since, next, result), at)
  {
    FrozenWrite(e, at, op, s.word, Held(EffectMoves(Net, s.order), None));
    DecideBalances(e, s, t, op, since, next, result, at);
  }

  lemma InvokeBalances(e: Engine, s: System, t: Tid, op: Op, at: Duration)
    requires Balanced(e, s, at) && HoldingsAgree(Net, s)
    requires Enabled(e, s, Invoke(t, op)) && FrozenStep(s, Invoke(t, op), at)
    ensures Balanced(e, Effect(e, s, Invoke(t, op)), at)
  {
    if Immediate(e, op) {
      if op.Refund? {
        PromiseIsInHand(s, t, op.n);
      }
      ObserveBalances(e, s, t, op, s.time, s.word, at);
    }
  }

  lemma EffectBalances(e: Engine, s: System, step: Step, at: Duration)
    requires Exact(e) && Balanced(e, s, at)
    requires HoldingsAgree(Net, s) && Covered(s, 0) && FrozenPhases(s, at) && TryingLawfully(e, s)
    requires Enabled(e, s, step) && FrozenStep(s, step, at)
    ensures Balanced(e, Effect(e, s, step), at)
  {
    PromiseIsInHand(s, step.tid, 0);
    match step
    case Invoke(t, op) => InvokeBalances(e, s, t, op, at);
    case Load(t, v) => ObserveBalances(e, s, t, s.phases[t].op, s.phases[t].since, v, at);
    case Lose(t, v) => ObserveBalances(e, s, t, s.phases[t].op, s.phases[t].since, v, at);
    case Win(t) =>
      var p := s.phases[t];
      StoreBalances(e, s, t, p.op, p.since, p.next, p.result, at);
    case Swap(t) => NoSwap(e, s, t, at);
    case Respond(_) =>
  }

  /** No reset is in flight. */
  lemma NoSwap(e: Engine, s: System, t: Tid, at: Duration)
    requires FrozenPhases(s, at)
    ensures !Enabled(e, s, Swap(t))
  {
  }

  lemma EffectKeepsFrozen(e: Engine, s: System, step: Step, at: Duration)
    requires FrozenPhases(s, at) && Enabled(e, s, step) && FrozenStep(s, step, at)
    ensures FrozenPhases(Effect(e, s, step), at)
  {
    var t, s' := step.tid, Effect(e, s, step);
    if !step.Respond? {
      assert s'.phases == s.phases[t := s'.phases[t]];
      assert FrozenOp(s'.phases[t].op, at);
    }
  }

  lemma TimeIsFree(e: Engine, s: System, at: Duration)
    requires Balanced(e, s, at) && Covered(s, 0) && FrozenPhases(s, at)
    ensures var s' := s.(time := s.time + 1); Balanced(e, s', at) && Covered(s', 0) && FrozenPhases(s', at)
  {
  }

  lemma {:induction false} RunBalances(e: Engine, run: Run, at: Duration)
    requires Exact(e) && FrozenRun(e, run, at)
    ensures var s := End(e, InitialWord(e, at), run);
            Balanced(e, s, at) && Covered(s, 0) && FrozenPhases(s, at)
  {
    if run.Then? {
      var s := End(e, InitialWord(e, at), run.prev);
      RunBalances(e, run.prev, at);
      CommitsAreSequential(e, InitialWord(e, at), run.prev);
      HoldingsAlwaysAgree(Net, e, InitialWord(e, at), run.prev);
      EffectBalances(e, s, run.step, at);
      EffectKeepsCovered(e, s, run.step, at);
      EffectKeepsFrozen(e, s, run.step, at);
      TimeIsFree(e, Effect(e, s, run.step), at);
    } else {
      NothingPromised(InitialWord(e, at));
    }
  }

  lemma NothingPromised(z: u64)
    ensures Covered(Initial(z), 0)
  {
    forall n: nat
      ensures TotalPromised(Initial(z).phases, n) == 0
    {
      NoPromises(n);
    }
  }

  lemma {:induction false} NoPromises(n: nat)
    ensures TotalPromised(map[], n) == 0
  {
    if n != 0 {
      NoPromises(n - 1);
    }
  }

  /** Exact conservation under contention: in any interleaving at a frozen clock,
      of grants, partial grants, reservations that may not wait, and refunds of no
      more than is held, by whichever thread, what has taken effect and what is
      available add up to the initial tokens at every instant; and so do the
      tokens the completed calls left their callers holding, whenever no operation
      is about to return. */
  lemma TokensAreConserved(e: Engine, run: Run, at: Duration)
    requires Exact(e) && FrozenRun(e, run, at)
    ensures var s := End(e, InitialWord(e, at), run);
            && Held(EffectMoves(Net, s.order), None) + AvailableTokens(e, s.word, at) == e.config.initial
            && (Quiescent(s) ==>
                  Held(ReturnMoves(Net, s.calls), None) + AvailableTokens(e, s.word, at) == e.config.initial)
  {
    RunBalances(e, run, at);
    HoldingsAlwaysAgree(Net, e, InitialWord(e, at), run);
    var s := End(e, InitialWord(e, at), run);
    WordShowsTheRest(e, at, s.word, Held(EffectMoves(Net, s.order), None));
    if Quiescent(s) {
      QuiescentTotals(Net, s);
    }
  }

  lemma WordShowsTheRest(e: Engine, at: Duration, z: u64, total: int)
    requires Exact(e) && WordHolds(e, at, z, total)
    ensures AvailableTokens(e, z, at) == e.config.initial - total
  {
    FrozenBalance(e, at, at, z, total);
    ExactTokens(e, e.config.initial - total);
  }

  // ------------------------------------------------------- threads on their own

  /** Every thread refunds only what its own completed calls left it holding. */
  predicate OwnStep(s: System, step: Step) {
    step.Invoke? && step.op.Refund? ==> step.op.n <= Held(ReturnMoves(Net, s.calls), Some(step.tid))
  }

  predicate OwnRun(e: Engine, z: u64, run: Run) {
    && Valid(e, z, run)
    && (run.Then? ==> OwnRun(e, z, run.prev) && OwnStep(End(e, z, run.prev), run.step))
  }

  predicate OwnsPromise(phases: map<Tid, Phase>, calls: seq<Call>, t: Tid) {
    Promised(phases, t) <= Held(ReturnMoves(Net, calls), Some(t))
  }

  ghost predicate OwnCovered(s: System) {
    forall t: Tid :: OwnsPromise(s.phases, s.calls, t)
  }

  lemma PhaseKeepsOwn(s: System, s': System, t: Tid)
    requires OwnCovered(s)
    requires t in s'.phases && s'.phases == s.phases[t := s'.phases[t]] && s'.calls == s.calls
    requires OwnsPromise(s'.phases, s.calls, t)
    ensures OwnCovered(s')
  {
    forall u: Tid
      ensures OwnsPromise(s'.phases, s'.calls, u)
    {
      assert OwnsPromise(s.phases, s.calls, u);
    }
  }

  lemma RespondKeepsOwn(s: System, s': System, t: Tid, call: Call)
    requires OwnCovered(s) && t in s.phases && call.tid == t
    requires s'.phases == s.phases - {t} && s'.calls == s.calls + [call]
    requires 0 <= Promised(s.phases, t) + Moved(Net, call.op, call.result)
    ensures OwnCovered(s')
  {
    forall u: Tid
      ensures OwnsPromise(s'.phases, s'.calls, u)
    {
      assert OwnsPromise(s.phases, s.calls, u);
      CallMoves(Net, s.calls, call, Some(u));
    }
  }

  lemma EffectKeepsOwn(e: Engine, s: System, step: Step)
    requires OwnCovered(s) && Enabled(e, s, step) && OwnStep(s, step)
    ensures OwnCovered(Effect(e, s, step))
  {
    var t := step.tid;
    assert OwnsPromise(s.phases, s.calls, t);
    match step
    case Invoke(_, _) => PhaseKeepsOwn(s, Effect(e, s, step), t);
    case Load(_, _) => PhaseKeepsOwn(s, Effect(e, s, step), t);
    case Lose(_, _) => PhaseKeepsOwn(s, Effect(e, s, step), t);
    case Win(_) => PhaseKeepsOwn(s, Effect(e, s, step), t);
    case Swap(_) => PhaseKeepsOwn(s, Effect(e, s, step), t);
    case Respond(_) =>
      var p := s.phases[t];
      PromiseIsKept(s.phases, t);
      RespondKeepsOwn(s, Effect(e, s, step), t, Call(t, p.op, p.result, p.since, p.at, s.time));
  }

  /** Then no thread ever owes a token, at whatever readings and whatever loads
      return... */
  lemma {:induction false} OwnRefundsOweNothing(e: Engine, z: u64, run: Run)
    requires OwnRun(e, z, run)
    ensures OwnCovered(End(e, z, run))
    ensures forall t: Tid :: 0 <= Held(EffectMoves(Net, End(e, z, run).order), Some(t))
  {
    HoldingsAlwaysAgree(Net, e, z, run);
    if run.Then? {
      OwnRefundsOweNothing(e, z, run.prev);
      EffectKeepsOwn(e, End(e, z, run.prev), run.step);
    }
    NobodyOwes(End(e, z, run));
  }

  lemma NobodyOwes(s: System)
    requires HoldingsAgree(Net, s) && OwnCovered(s)
    ensures forall t: Tid :: 0 <= Held(EffectMoves(Net, s.order), Some(t))
  {
    forall t: Tid
      ensures 0 <= Held(EffectMoves(Net, s.order), Some(t))
    {
      assert OwnsPromise(s.phases, s.calls, t);
      assert Agrees(Net, s, t);
      assert 0 <= Unreported(Net, s.phases, t) + Promised(s.phases, t);
    }
  }

  lemma {:induction false} OwnSums(s: System, t: Tid, n: nat)
    requires OwnCovered(s) && t !in s.phases
    ensures TotalPromised(s.phases, n) + (if t < n then Held(ReturnMoves(Net, s.calls), Some(t)) else 0) <=
            SumHeld(ReturnMoves(Net, s.calls), n)
  {
    if n != 0 {
      OwnSums(s, t, n - 1);
      assert OwnsPromise(s.phases, s.calls, n - 1);
    }
  }

  /** ...and everyone together refunds no more than is held, which is all that
      conservation asks. */
  lemma OwnRefundsAreCovered(s: System, t: Tid, n: nat)
    requires OwnCovered(s) && t !in s.phases
    requires n <= Held(ReturnMoves(Net, s.calls), Some(t))
    ensures Covered(s, n)
  {
    var reported := ReturnMoves(Net, s.calls);
    forall k: nat
      ensures n + TotalPromised(s.phases, k) <= Held(reported, None)
    {
      var m := Max(Max(ThreadBound(reported), t + 1), k);
      OwnSums(s, t, m);
      SumIsTotal(reported, m);
      PromisedMonotonic(s.phases, k, m);
    }
  }
}
