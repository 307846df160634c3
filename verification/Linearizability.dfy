/** Every completed operation behaves as its atomic version, applied at one
    instant inside the call. Reads return the current word here; nothing is
    assumed of the values the word takes, so it may well return to an old one. */
module Linearizability {
  import opened Arithmetic
  import opened Engines
  import opened Accounting
  import opened Protocol
  import opened Histories

  /** What each operation does to the word, and what it returns. */
  type Semantics = (Op, u64) -> (u64, Result)

  /** The atomic versions of the engine's operations. */
  function Atomic(e: Engine): Semantics {
    (op, z) => Apply(e, op, z)
  }

  /** A legal sequential history from `z` to `word`: each operation finds the word
      its predecessor left, and does and returns what its atomic version does. */
  ghost predicate Sequential(apply: Semantics, z: u64, order: seq<Event>, word: u64) {
    && (forall k :: 0 <= k < |order| ==> apply(order[k].op, order[k].before) == (order[k].after, order[k].result))
    && (forall k :: 0 < k < |order| ==> order[k].before == order[k - 1].after)
    && if order == [] then word == z else order[0].before == z && order[|order| - 1].after == word
  }

  /** The events happen one at a time, in order, before `now`. */
  ghost predicate Timed(order: seq<Event>, now: nat) {
    && (forall k :: 0 <= k < |order| ==> order[k].time < now)
    && (forall j, k :: 0 <= j < k < |order| ==> order[j].time < order[k].time)
  }

  /** Event `at` is the instant the operation of thread `t` took effect, at or
      after `since`. */
  predicate TookEffect(order: seq<Event>, t: Tid, op: Op, result: Result, since: nat, at: nat) {
    && at < |order|
    && order[at].tid == t && order[at].op == op && order[at].result == result
    && since <= order[at].time
  }

  /** Every completed call, and every decided one, took effect at its event. */
  ghost predicate Effective(s: System) {
    && (forall i :: 0 <= i < |s.calls| ==>
          var c := s.calls[i];
          TookEffect(s.order, c.tid, c.op, c.result, c.invoked, c.at) && s.order[c.at].time < c.returned)
    && (forall t :: t in s.phases && s.phases[t].Settled? ==>
          var p := s.phases[t];
          TookEffect(s.order, t, p.op, p.result, p.since, p.at))
    && (forall t :: t in s.phases ==> s.phases[t].since <= s.time)
  }

  /** No event is shared. */
  ghost predicate Injective(s: System) {
    && (forall i, j :: 0 <= i < j < |s.calls| ==> s.calls[i].at != s.calls[j].at)
    && (forall i, t :: 0 <= i < |s.calls| && t in s.phases && s.phases[t].Settled? ==> s.calls[i].at != s.phases[t].at)
  }

  /** No event is invented: each belongs to a completed call or to one about to return. */
  ghost predicate Claimed(s: System, k: nat) {
    || (exists i :: 0 <= i < |s.calls| && s.calls[i].at == k)
    || (exists t :: t in s.phases && s.phases[t].Settled? && s.phases[t].at == k)
  }

  ghost predicate NothingInvented(s: System) {
    forall k :: 0 <= k < |s.order| ==> Claimed(s, k)
  }

  ghost predicate Linearized(apply: Semantics, z: u64, s: System) {
    && Sequential(apply, z, s.order, s.word)
    && Timed(s.order, s.time)
    && Effective(s)
    && Injective(s)
    && NothingInvented(s)
  }

  // --------------------------------------------------- a step that takes effect

  /** The thread's operation took effect at a fresh event, now. */
  predicate Decided(s: System, s': System, t: Tid, event: Event) {
    && event.tid == t && event.before == s.word && event.after == s'.word && event.time == s.time
    && s'.order == s.order + [event] && s'.time == s.time + 1 && s'.calls == s.calls
    && t in s'.phases && s'.phases == s.phases[t := s'.phases[t]]
    && s'.phases[t].Settled? && s'.phases[t].at == |s.order| && s'.phases[t].since <= s.time
    && s'.phases[t].op == event.op && s'.phases[t].result == event.result
  }

  lemma AppendIsSequential(apply: Semantics, z: u64, order: seq<Event>, word: u64, event: Event)
    requires Sequential(apply, z, order, word)
    requires event.before == word && apply(event.op, word) == (event.after, event.result)
    ensures Sequential(apply, z, order + [event], event.after)
  {
  }

  lemma AppendIsTimed(order: seq<Event>, now: nat, event: Event)
    requires Timed(order, now) && event.time == now
    ensures Timed(order + [event], now + 1)
  {
  }

  lemma DecideKeepsEffective(s: System, s': System, t: Tid, event: Event)
    requires Effective(s) && Decided(s, s', t, event)
    ensures Effective(s')
  {
  }

  lemma DecideKeepsInjective(s: System, s': System, t: Tid, event: Event)
    requires Effective(s) && Injective(s) && Decided(s, s', t, event)
    ensures Injective(s')
  {
  }

  /** The fresh event is the thread's own. */
  lemma DecideKeepsClaims(s: System, s': System, t: Tid, event: Event)
    requires NothingInvented(s) && Decided(s, s', t, event)
    requires t in s.phases ==> !s.phases[t].Settled?
    ensures NothingInvented(s')
  {
    forall k | 0 <= k < |s'.order|
      ensures Claimed(s', k)
    {
      if k < |s.order| {
        ClaimSurvives(s, s', k);
      } else {
        assert t in s'.phases && s'.phases[t].at == k;
      }
    }
  }

  /** Claims survive a step that touches only an unsettled thread's phase. */
  lemma ClaimSurvives(s: System, s': System, k: nat)
    requires Claimed(s, k) && s'.calls == s.calls
    requires forall u :: u in s.phases && s.phases[u].Settled? ==> u in s'.phases && s'.phases[u] == s.phases[u]
    ensures Claimed(s', k)
  {
    if u :| u in s.phases && s.phases[u].Settled? && s.phases[u].at == k {
      assert u in s'.phases && s'.phases[u] == s.phases[u];
    }
  }

  lemma DecideKeepsLinearized(apply: Semantics, z: u64, s: System, s': System, t: Tid, event: Event)
    requires Linearized(apply, z, s) && Decided(s, s', t, event)
    requires t in s.phases ==> !s.phases[t].Settled?
    requires apply(event.op, s.word) == (event.after, event.result)
    ensures Linearized(apply, z, s')
  {
    AppendIsSequential(apply, z, s.order, s.word, event);
    AppendIsTimed(s.order, s.time, event);
    DecideKeepsEffective(s, s', t, event);
    DecideKeepsInjective(s, s', t, event);
    DecideKeepsClaims(s, s', t, event);
  }

  // ------------------------------------------------ a step that waits or returns

  /** The thread starts its call, or goes on to another read. */
  predicate Waits(s: System, s': System, t: Tid) {
    && s'.word == s.word && s'.order == s.order && s'.calls == s.calls && s'.time == s.time + 1
    && t in s'.phases && s'.phases == s.phases[t := s'.phases[t]]
    && !s'.phases[t].Settled? && s'.phases[t].since <= s.time
  }

  lemma WaitKeepsEffective(s: System, s': System, t: Tid)
    requires Effective(s) && Injective(s) && Waits(s, s', t)
    ensures Effective(s') && Injective(s')
  {
  }

  /** Waiting changes nothing that counts. */
  lemma WaitKeepsLinearized(apply: Semantics, z: u64, s: System, s': System, t: Tid)
    requires Linearized(apply, z, s) && Waits(s, s', t)
    requires t in s.phases ==> !s.phases[t].Settled?
    ensures Linearized(apply, z, s')
  {
    WaitKeepsEffective(s, s', t);
    forall k | 0 <= k < |s'.order|
      ensures Claimed(s', k)
    {
      ClaimSurvives(s, s', k);
    }
  }

  /** The thread's call completes, at the event its phase names. */
  predicate Returns(s: System, s': System, t: Tid, call: Call) {
    && t in s.phases && s.phases[t].Settled?
    && s'.word == s.word && s'.order == s.order && s'.time == s.time + 1
    && s'.phases == s.phases - {t} && s'.calls == s.calls + [call]
    && call == Call(t, s.phases[t].op, s.phases[t].result, s.phases[t].since, s.phases[t].at, s.time)
  }

  lemma RespondKeepsEffective(s: System, s': System, t: Tid, call: Call)
    requires Effective(s) && Timed(s.order, s.time) && Returns(s, s', t, call)
    ensures Effective(s')
  {
  }

  lemma RespondKeepsInjective(s: System, s': System, t: Tid, call: Call)
    requires Effective(s) && Injective(s) && Returns(s, s', t, call)
    ensures Injective(s')
  {
    forall i, u | 0 <= i < |s'.calls| && u in s'.phases && s'.phases[u].Settled?
      ensures s'.calls[i].at != s'.phases[u].at
    {
      if i == |s.calls| {
        assert TookEffect(s.order, u, s.phases[u].op, s.phases[u].result, s.phases[u].since, s.phases[u].at);
        assert TookEffect(s.order, t, s.phases[t].op, s.phases[t].result, s.phases[t].since, s.phases[t].at);
      }
    }
  }

  /** The event passes from the thread's phase to its completed call. */
  lemma RespondKeepsClaims(s: System, s': System, t: Tid, call: Call)
    requires NothingInvented(s) && Returns(s, s', t, call)
    ensures NothingInvented(s')
  {
    forall k | 0 <= k < |s'.order|
      ensures Claimed(s', k)
    {
      ClaimPasses(s, s', t, call, k);
    }
  }

  lemma ClaimPasses(s: System, s': System, t: Tid, call: Call, k: nat)
    requires Claimed(s, k) && Returns(s, s', t, call)
    ensures Claimed(s', k)
  {
    if i :| 0 <= i < |s.calls| && s.calls[i].at == k {
      assert s'.calls[i].at == k;
    } else {
      var u :| u in s.phases && s.phases[u].Settled? && s.phases[u].at == k;
      if u == t {
        assert s'.calls[|s.calls|].at == k;
      } else {
        assert u in s'.phases && s'.phases[u] == s.phases[u];
      }
    }
  }

  lemma RespondKeepsLinearized(apply: Semantics, z: u64, s: System, s': System, t: Tid, call: Call)
    requires Linearized(apply, z, s) && Returns(s, s', t, call)
    ensures Linearized(apply, z, s')
  {
    RespondKeepsEffective(s, s', t, call);
    RespondKeepsInjective(s, s', t, call);
    RespondKeepsClaims(s, s', t, call);
  }

  // ------------------------------------------------------------------ every step

  lemma ObserveKeepsLinearized(e: Engine, z: u64, s: System, s': System, t: Tid, op: Op, since: nat)
    requires Linearized(Atomic(e), z, s) && since <= s.time
    requires t in s.phases ==> !s.phases[t].Settled?
    requires s' == Observe(e, s, t, op, since, s.word).(time := s.time + 1)
    ensures Linearized(Atomic(e), z, s')
  {
    match Attempt(e, op, s.word)
    case Return(result) =>
      DecideKeepsLinearized(Atomic(e), z, s, s', t, Event(t, op, s.word, s.word, result, s.time));
    case Write(_, _) =>
      WaitKeepsLinearized(Atomic(e), z, s, s', t);
  }

  lemma StoreKeepsLinearized(e: Engine, z: u64, s: System, s': System,
                             t: Tid, op: Op, since: nat, next: u64, result: Result)
    requires Linearized(Atomic(e), z, s) && since <= s.time
    requires t in s.phases ==> !s.phases[t].Settled?
    requires Attempt(e, op, s.word) == Write(next, result)
    requires s' == Store(s, t, op, since, next, result).(time := s.time + 1)
    ensures Linearized(Atomic(e), z, s')
  {
    DecideKeepsLinearized(Atomic(e), z, s, s', t, Event(t, op, s.word, next, result, s.time));
  }

  lemma InvokeKeepsLinearized(e: Engine, z: u64, s: System, t: Tid, op: Op)
    requires Linearized(Atomic(e), z, s) && Enabled(e, s, Invoke(t, op))
    ensures Linearized(Atomic(e), z, Next(e, s, Invoke(t, op)))
  {
    if Immediate(e, op) {
      ObserveKeepsLinearized(e, z, s, Next(e, s, Invoke(t, op)), t, op, s.time);
    } else {
      WaitKeepsLinearized(Atomic(e), z, s, Next(e, s, Invoke(t, op)), t);
    }
  }

  lemma ReadKeepsLinearized(e: Engine, z: u64, s: System, step: Step)
    requires Linearized(Atomic(e), z, s) && Enabled(e, s, step) && Coherent(s, step)
    requires step.Load? || step.Lose?
    ensures Linearized(Atomic(e), z, Next(e, s, step))
  {
    var p := s.phases[step.tid];
    SinceIsPast(s, step.tid);
    ObserveKeepsLinearized(e, z, s, Next(e, s, step), step.tid, p.op, p.since);
  }

  lemma SinceIsPast(s: System, t: Tid)
    requires Effective(s) && t in s.phases
    ensures s.phases[t].since <= s.time
  {
  }

  lemma SwapKeepsLinearized(e: Engine, z: u64, s: System, t: Tid)
    requires Linearized(Atomic(e), z, s) && Enabled(e, s, Swap(t))
    ensures Linearized(Atomic(e), z, Next(e, s, Swap(t)))
  {
    var p := s.phases[t];
    SinceIsPast(s, t);
    StoreKeepsLinearized(e, z, s, Next(e, s, Swap(t)), t, p.op, p.since, ResetOutcome(e, p.op.now).next, Done);
  }

  lemma WinKeepsLinearized(e: Engine, z: u64, s: System, t: Tid)
    requires TryingLawfully(e, s)
    requires Linearized(Atomic(e), z, s) && Enabled(e, s, Win(t))
    ensures Linearized(Atomic(e), z, Next(e, s, Win(t)))
  {
    var p := s.phases[t];
    SinceIsPast(s, t);
    StoreKeepsLinearized(e, z, s, Next(e, s, Win(t)), t, p.op, p.since, p.next, p.result);
  }

  lemma ReturnKeepsLinearized(e: Engine, z: u64, s: System, t: Tid)
    requires Linearized(Atomic(e), z, s) && Enabled(e, s, Respond(t))
    ensures Linearized(Atomic(e), z, Next(e, s, Respond(t)))
  {
    var p := s.phases[t];
    RespondKeepsLinearized(Atomic(e), z, s, Next(e, s, Respond(t)), t, Call(t, p.op, p.result, p.since, p.at, s.time));
  }

  lemma StepKeepsLinearized(e: Engine, z: u64, s: System, step: Step)
    requires TryingLawfully(e, s)
    requires Linearized(Atomic(e), z, s) && Enabled(e, s, step) && Coherent(s, step)
    ensures Linearized(Atomic(e), z, Next(e, s, step))
  {
    match step
    case Invoke(t, op) => InvokeKeepsLinearized(e, z, s, t, op);
    case Load(_, _) => ReadKeepsLinearized(e, z, s, step);
    case Lose(_, _) => ReadKeepsLinearized(e, z, s, step);
    case Win(t) => WinKeepsLinearized(e, z, s, t);
    case Swap(t) => SwapKeepsLinearized(e, z, s, t);
    case Respond(t) => ReturnKeepsLinearized(e, z, s, t);
  }

  lemma {:induction false} RunIsLinearized(e: Engine, z: u64, run: Run)
    requires CoherentRun(e, z, run)
    ensures Linearized(Atomic(e), z, End(e, z, run))
  {
    if run.Then? {
      RunIsLinearized(e, z, run.prev);
      CommitsAreSequential(e, z, run.prev);
      StepKeepsLinearized(e, z, End(e, z, run.prev), run.step);
    }
  }

  /** Linearizability: in every run the order of effects is a legal sequential
      history of the atomic operations that ends in the current word. Every
      completed call is one its thread invoked, with this operation, and returned
      from at those steps of the run; it owns one event of the history, carrying its
      operation and its result, made by a step of its thread between the two. No
      return of the run is missing from the calls, and no event is invented. */
  lemma EveryRunIsLinearizable(e: Engine, z: u64, run: Run)
    requires CoherentRun(e, z, run)
    ensures var s := End(e, z, run);
            && Sequential(Atomic(e), z, s.order, s.word)
            && NothingInvented(s)
            && NothingLost(s, run)
            && (forall i :: 0 <= i < |s.calls| ==>
                  var c := s.calls[i];
                  && IsCall(run, c)
                  && c.at < |s.order| && IsEffect(run, s.order[c.at])
                  && (s.order[c.at].tid, s.order[c.at].op, s.order[c.at].result) == (c.tid, c.op, c.result)
                  && c.invoked <= s.order[c.at].time < c.returned)
            && (forall i, j :: 0 <= i < j < |s.calls| ==> s.calls[i].at != s.calls[j].at)
  {
    RunIsLinearized(e, z, run);
    RecordsAreTheRun(e, z, run);
  }

  /** So a call whose return is an earlier step of the run than another's invocation
      takes effect before it. */
  lemma RealTimeOrderIsKept(e: Engine, z: u64, run: Run, i: nat, j: nat)
    requires CoherentRun(e, z, run)
    requires var calls := End(e, z, run).calls; i < |calls| && j < |calls| && calls[i].returned <= calls[j].invoked
    ensures var calls := End(e, z, run).calls;
            && IsCall(run, calls[i]) && IsCall(run, calls[j])
            && calls[i].at < calls[j].at
  {
    RunIsLinearized(e, z, run);
    RecordsAreTheRun(e, z, run);
  }
}
