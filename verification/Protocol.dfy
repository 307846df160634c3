/** Any number of threads on one word, step by step.

    A call takes its reading when it is invoked, loads the word, and then tries
    to compare-and-swap until it decides; it never reads the clock again. A load,
    and the value a failed compare-and-swap reports, may be anything at all unless
    a run is required to be `Coherent`. */
module Protocol {
  import opened Arithmetic
  import opened Durations
  import opened Engines
  import opened Accounting

  type Tid = nat

  datatype Phase =
    | Ready(op: Op, since: nat)
    | Trying(op: Op, since: nat, current: u64, next: u64, result: Result)
    | Settled(op: Op, since: nat, at: nat, result: Result)

  /** A successful write of the word. */
  datatype Commit = Commit(tid: Tid, op: Op, before: u64, after: u64, result: Result)

  /** The instant an operation takes effect, its write or the read it decides on:
      the word around it, and the time. */
  datatype Event = Event(tid: Tid, op: Op, before: u64, after: u64, result: Result, time: nat)

  /** A completed call, and the event it took effect at. */
  datatype Call = Call(tid: Tid, op: Op, result: Result, invoked: nat, at: nat, returned: nat)

  datatype System = System(
    word: u64,
    phases: map<Tid, Phase>,
    time: nat,
    commits: seq<Commit>,
    order: seq<Event>,
    calls: seq<Call>)

  datatype Step =
    | Invoke(tid: Tid, op: Op)
    | Load(tid: Tid, value: u64)
    | Win(tid: Tid)
    | Lose(tid: Tid, value: u64)
    | Swap(tid: Tid)
    | Respond(tid: Tid)

  /** Requests the engine answers without touching the word. */
  predicate Immediate(e: Engine, op: Op) {
    match op
    case Acquire(n, _) => n == 0 || n > Capacity(e)
    case AcquireUpTo(n, _) => n == 0
    case Reserve(n, _, _) => n == 0 || n > Capacity(e)
    case Refund(n) => Min(n, Capacity(e)) == 0
    case Reset(_) => false
    case Available(_) => Capacity(e) == 0
    case TimeUntil(n, _) => n == 0 || n > Capacity(e)
  }

  /** Their answer does not depend on the word. */
  lemma ImmediateIgnoresWord(e: Engine, op: Op, z: u64, z': u64)
    requires Immediate(e, op)
    ensures Attempt(e, op, z).Return?
    ensures Attempt(e, op, z) == Attempt(e, op, z')
  {
    if op.Available? {
      EmptyBucketHoldsNothing(e, Balance(e, z, op.now));
      EmptyBucketHoldsNothing(e, Balance(e, z', op.now));
    }
  }

  lemma EmptyBucketHoldsNothing(e: Engine, balance: int)
    requires Capacity(e) == 0 && balance <= Burst(e)
    ensures Tokens(e, balance) == 0
  {
  }

  lemma FullBucketGrants(e: Engine, now: Duration, z: u64)
    requires 0 < Capacity(e) && z == Units(e, now) - Burst(e)
    ensures Balance(e, z, now) == Burst(e)
    ensures Tokens(e, Burst(e)) == Capacity(e)
  {
    BurstBelowClock(e, DurationNanos(now));
    CostMonotonic(e, Capacity(e), Capacity(e));
    FullCreditBuysCapacity(e);
  }

  /** No other answer is independent of it: the rest of the requests write, or decide
      differently on some two words. (Only a partial grant from a bucket of capacity
      zero reads the word to no purpose, as the code does.) */
  lemma OthersDependOnWord(e: Engine, op: Op)
    requires !Immediate(e, op)
    requires op.AcquireUpTo? ==> 0 < Capacity(e)
    ensures exists z: u64, z': u64 :: Attempt(e, op, z).Write? || Attempt(e, op, z) != Attempt(e, op, z')
  {
    if op.Refund? || op.Reset? {
      assert Attempt(e, op, 0).Write?;
    } else {
      BurstBelowClock(e, DurationNanos(op.now));
      var full: u64 := Units(e, op.now) - Burst(e);
      FullBucketGrants(e, op.now, full);
      if op.Acquire? || op.Reserve? || op.TimeUntil? {
        CostMonotonic(e, op.n, Capacity(e));
      }
      assert Attempt(e, op, full).Write? || Attempt(e, op, full) != Attempt(e, op, MAX_U64);
    }
  }

  predicate Enabled(e: Engine, s: System, step: Step) {
    match step
    case Invoke(t, _) => t !in s.phases
    case Load(t, _) => t in s.phases && s.phases[t].Ready? && !s.phases[t].op.Reset?
    case Win(t) => t in s.phases && s.phases[t].Trying? && s.phases[t].current == s.word
    case Lose(t, _) => t in s.phases && s.phases[t].Trying?
    case Swap(t) => t in s.phases && s.phases[t].Ready? && s.phases[t].op.Reset?
    case Respond(t) => t in s.phases && s.phases[t].Settled?
  }

  /** Loads, and failed compare-and-swaps, report the word as it is. */
  predicate Coherent(s: System, step: Step) {
    match step
    case Load(_, v) => v == s.word
    case Lose(_, v) => v == s.word
    case _ => true
  }

  /** The operation takes effect now, leaving `next` in the word. */
  function Decide(s: System, t: Tid, op: Op, since: nat, next: u64, result: Result): System {
    s.(word := next,
       phases := s.phases[t := Settled(op, since, |s.order|, result)],
       order := s.order + [Event(t, op, s.word, next, result, s.time)])
  }

  /** The thread has read `v`: decide, or go on to try a write. */
  function Observe(e: Engine, s: System, t: Tid, op: Op, since: nat, v: u64): System {
    match Attempt(e, op, v)
    case Return(result) => Decide(s, t, op, since, s.word, result)
    case Write(next, result) => s.(phases := s.phases[t := Trying(op, since, v, next, result)])
  }

  function Store(s: System, t: Tid, op: Op, since: nat, next: u64, result: Result): System {
    Decide(s, t, op, since, next, result).(commits := s.commits + [Commit(t, op, s.word, next, result)])
  }

  function Effect(e: Engine, s: System, step: Step): System
    requires Enabled(e, s, step)
  {
    match step
    case Invoke(t, op) =>
      if Immediate(e, op) then Observe(e, s, t, op, s.time, s.word)
      else s.(phases := s.phases[t := Ready(op, s.time)])
    case Load(t, v) =>
      Observe(e, s, t, s.phases[t].op, s.phases[t].since, v)
    case Win(t) =>
      var p := s.phases[t];
      Store(s, t, p.op, p.since, p.next, p.result)
    case Lose(t, v) =>
      Observe(e, s, t, s.phases[t].op, s.phases[t].since, v)
    case Swap(t) =>
      var p := s.phases[t];
      Store(s, t, p.op, p.since, ResetOutcome(e, p.op.now).next, Done)
    case Respond(t) =>
      var p := s.phases[t];
      s.(phases := s.phases - {t},
         calls := s.calls + [Call(t, p.op, p.result, p.since, p.at, s.time)])
  }

  function Next(e: Engine, s: System, step: Step): System
    requires Enabled(e, s, step)
  {
    Effect(e, s, step).(time := s.time + 1)
  }

  datatype Run = Start | Then(prev: Run, step: Step)

  function Initial(z: u64): System {
    System(z, map[], 0, [], [], [])
  }

  predicate Valid(e: Engine, z: u64, run: Run)
    decreases run, 0
  {
    run.Then? ==> Valid(e, z, run.prev) && Enabled(e, End(e, z, run.prev), run.step)
  }

  /** The state a valid run ends in. */
  function End(e: Engine, z: u64, run: Run): System
    requires Valid(e, z, run)
    decreases run, 1
  {
    match run
    case Start => Initial(z)
    case Then(prev, step) => Next(e, End(e, z, prev), step)
  }

  /** A valid run in which every read returns the current word. */
  predicate CoherentRun(e: Engine, z: u64, run: Run) {
    && Valid(e, z, run)
    && (run.Then? ==> CoherentRun(e, z, run.prev) && Coherent(End(e, z, run.prev), run.step))
  }

  // ------------------------------------------- the commits are a sequential history

  /** The write is the one its operation makes on the value it replaced. */
  predicate Lawful(e: Engine, c: Commit) {
    Attempt(e, c.op, c.before) == Write(c.after, c.result)
  }

  /** A gapless sequence of lawful writes. */
  ghost predicate Chained(e: Engine, commits: seq<Commit>) {
    && Linked(commits)
    && forall i :: 0 <= i < |commits| ==> Lawful(e, commits[i])
  }

  ghost predicate Linked(commits: seq<Commit>) {
    forall i :: 0 < i < |commits| ==> commits[i - 1].after == commits[i].before
  }

  function LastWord(z: u64, commits: seq<Commit>): u64 {
    if commits == [] then z else commits[|commits| - 1].after
  }

  ghost predicate TryingLawfully(e: Engine, s: System) {
    forall t :: t in s.phases && s.phases[t].Trying? ==>
      Attempt(e, s.phases[t].op, s.phases[t].current) == Write(s.phases[t].next, s.phases[t].result)
  }

  ghost predicate Serialised(e: Engine, z: u64, s: System) {
    && TryingLawfully(e, s)
    && Chained(e, s.commits)
    && (s.commits != [] ==> s.commits[0].before == z)
    && s.word == LastWord(z, s.commits)
  }

  lemma StoreKeepsSerialised(e: Engine, z: u64, s: System, t: Tid, op: Op, since: nat, next: u64, result: Result)
    requires Serialised(e, z, s) && Attempt(e, op, s.word) == Write(next, result)
    ensures Serialised(e, z, Store(s, t, op, since, next, result))
  {
    assert Lawful(e, Commit(t, op, s.word, next, result));
  }

  lemma ObserveKeepsSerialised(e: Engine, z: u64, s: System, t: Tid, op: Op, since: nat, v: u64)
    requires Serialised(e, z, s)
    ensures Serialised(e, z, Observe(e, s, t, op, since, v))
  {
  }

  lemma InvokeKeepsSerialised(e: Engine, z: u64, s: System, t: Tid, op: Op)
    requires Serialised(e, z, s) && Enabled(e, s, Invoke(t, op))
    ensures Serialised(e, z, Effect(e, s, Invoke(t, op)))
  {
    ObserveKeepsSerialised(e, z, s, t, op, s.time, s.word);
  }

  lemma EffectKeepsSerialised(e: Engine, z: u64, s: System, step: Step)
    requires Serialised(e, z, s) && Enabled(e, s, step)
    ensures Serialised(e, z, Effect(e, s, step))
  {
    match step
    case Invoke(t, op) => InvokeKeepsSerialised(e, z, s, t, op);
    case Load(t, v) => ObserveKeepsSerialised(e, z, s, t, s.phases[t].op, s.phases[t].since, v);
    case Lose(t, v) => ObserveKeepsSerialised(e, z, s, t, s.phases[t].op, s.phases[t].since, v);
    case Win(t) =>
      var p := s.phases[t];
      StoreKeepsSerialised(e, z, s, t, p.op, p.since, p.next, p.result);
    case Swap(t) =>
      var p := s.phases[t];
      StoreKeepsSerialised(e, z, s, t, p.op, p.since, ResetOutcome(e, p.op.now).next, Done);
    case Respond(_) =>
  }

  lemma StepKeepsSerialised(e: Engine, z: u64, s: System, step: Step)
    requires Serialised(e, z, s) && Enabled(e, s, step)
    ensures Serialised(e, z, Next(e, s, step))
  {
    EffectKeepsSerialised(e, z, s, step);
  }

  /** In every run, however stale or wrong its loads, the successful writes are a
      sequential history of the atomic operations from the initial word: only the
      compare-and-swap matters. */
  lemma {:induction false} CommitsAreSequential(e: Engine, z: u64, run: Run)
    requires Valid(e, z, run)
    ensures Serialised(e, z, End(e, z, run))
  {
    if run.Then? {
      CommitsAreSequential(e, z, run.prev);
      StepKeepsSerialised(e, z, End(e, z, run.prev), run.step);
    }
  }
}
