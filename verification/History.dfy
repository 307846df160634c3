/** Calls and the steps of the run they belong to: what a system records of a call
    is what its thread did, at the positions in the run it says. */
module Histories {
  import opened Arithmetic
  import opened Engines
  import opened Accounting
  import opened Protocol

  function Length(run: Run): nat {
    if run.Then? then Length(run.prev) + 1 else 0
  }

  /** The run's step number `k`, from zero. */
  function StepAt(run: Run, k: nat): Step
    requires k < Length(run)
  {
    if k == Length(run.prev) then run.step else StepAt(run.prev, k)
  }

  /** The step neither starts nor ends a call of the thread. */
  predicate Within(step: Step, t: Tid) {
    step.tid == t ==> !step.Invoke? && !step.Respond?
  }

  /** The thread invoked the operation at `since`, and is still in that call. */
  ghost predicate IsOpen(run: Run, t: Tid, op: Op, since: nat) {
    && since < Length(run) && StepAt(run, since) == Invoke(t, op)
    && forall k :: since < k < Length(run) ==> Within(StepAt(run, k), t)
  }

  /** The call is one of the run: its thread invoked this operation and returned
      from it at those steps, and started or ended no call in between. */
  ghost predicate IsCall(run: Run, c: Call) {
    && c.invoked < c.returned < Length(run)
    && StepAt(run, c.invoked) == Invoke(c.tid, c.op)
    && StepAt(run, c.returned) == Respond(c.tid)
    && forall k :: c.invoked < k < c.returned ==> Within(StepAt(run, k), c.tid)
  }

  /** The event is a step of its own thread, on the way to returning. */
  predicate IsEffect(run: Run, event: Event) {
    && event.time < Length(run)
    && StepAt(run, event.time).tid == event.tid && !StepAt(run, event.time).Respond?
  }

  ghost predicate Returned(s: System, k: nat) {
    exists i :: 0 <= i < |s.calls| && s.calls[i].returned == k
  }

  ghost predicate Begun(s: System, t: Tid, k: nat) {
    || (exists i :: 0 <= i < |s.calls| && s.calls[i].tid == t && s.calls[i].invoked == k)
    || (t in s.phases && s.phases[t].since == k)
  }

  /** Everything the system records is in the run... */
  ghost predicate Recorded(s: System, run: Run) {
    && (forall i :: 0 <= i < |s.calls| ==> IsCall(run, s.calls[i]))
    && (forall t :: t in s.phases ==> IsOpen(run, t, s.phases[t].op, s.phases[t].since))
    && (forall m :: 0 <= m < |s.order| ==> IsEffect(run, s.order[m]))
  }

  /** ...and nothing of the run is left out: every return is a completed call's, and
      every invocation is a completed or an open call's. */
  ghost predicate NothingLost(s: System, run: Run) {
    forall k :: 0 <= k < Length(run) ==>
      && (StepAt(run, k).Respond? ==> Returned(s, k))
      && (StepAt(run, k).Invoke? ==> Begun(s, StepAt(run, k).tid, k))
  }

  lemma {:induction false} TimeIsLength(e: Engine, z: u64, run: Run)
    requires Valid(e, z, run)
    ensures End(e, z, run).time == Length(run)
  {
    if run.Then? {
      TimeIsLength(e, z, run.prev);
    }
  }

  // ------------------------------------------------------------- what a step records

  lemma CallStays(run: Run, step: Step, c: Call)
    requires IsCall(run, c)
    ensures IsCall(Then(run, step), c)
  {
    var run' := Then(run, step);
    forall k | c.invoked < k < c.returned
      ensures Within(StepAt(run', k), c.tid)
    {
      assert StepAt(run', k) == StepAt(run, k);
    }
  }

  lemma OpenStays(run: Run, step: Step, t: Tid, op: Op, since: nat)
    requires IsOpen(run, t, op, since) && Within(step, t)
    ensures IsOpen(Then(run, step), t, op, since)
  {
    var run' := Then(run, step);
    forall k | since < k < Length(run')
      ensures Within(StepAt(run', k), t)
    {
      assert k < Length(run) ==> StepAt(run', k) == StepAt(run, k);
    }
  }

  lemma OpenBecomesCall(run: Run, c: Call)
    requires IsOpen(run, c.tid, c.op, c.invoked) && c.returned == Length(run)
    ensures IsCall(Then(run, Respond(c.tid)), c)
  {
    var run' := Then(run, Respond(c.tid));
    forall k | c.invoked < k < c.returned
      ensures Within(StepAt(run', k), c.tid)
    {
      assert StepAt(run', k) == StepAt(run, k);
    }
  }

  /** A step inside a call keeps the call's operation and start, and at most adds an
      event of its own. */
  predicate Proceeds(s: System, s': System, t: Tid) {
    && t in s.phases && t in s'.phases && s'.phases == s.phases[t := s'.phases[t]]
    && s'.phases[t].op == s.phases[t].op && s'.phases[t].since == s.phases[t].since
    && s'.calls == s.calls
  }

  /** The step adds no event, or one of its thread at this time. */
  predicate AddsOwnEvent(s: System, s': System, t: Tid) {
    || s'.order == s.order
    || (|s'.order| == |s.order| + 1 && s'.order[..|s.order|] == s.order
        && s'.order[|s.order|].tid == t && s'.order[|s.order|].time == s.time)
  }

  lemma EventsStay(s: System, s': System, run: Run, step: Step)
    requires forall m :: 0 <= m < |s.order| ==> IsEffect(run, s.order[m])
    requires s.time == Length(run) && AddsOwnEvent(s, s', step.tid)
    requires s'.order == s.order || !step.Respond?
    ensures forall m :: 0 <= m < |s'.order| ==> IsEffect(Then(run, step), s'.order[m])
  {
    var run' := Then(run, step);
    forall m | 0 <= m < |s'.order|
      ensures IsEffect(run', s'.order[m])
    {
      if m < |s.order| {
        assert s'.order[m] == s.order[m] && IsEffect(run, s.order[m]);
      }
    }
  }

  lemma CallsStay(s: System, run: Run, step: Step)
    requires forall i :: 0 <= i < |s.calls| ==> IsCall(run, s.calls[i])
    ensures forall i :: 0 <= i < |s.calls| ==> IsCall(Then(run, step), s.calls[i])
  {
    forall i | 0 <= i < |s.calls|
      ensures IsCall(Then(run, step), s.calls[i])
    {
      CallStays(run, step, s.calls[i]);
    }
  }

  lemma ProceedRecords(s: System, s': System, run: Run, step: Step)
    requires Recorded(s, run) && s.time == Length(run)
    requires Proceeds(s, s', step.tid) && AddsOwnEvent(s, s', step.tid)
    requires !step.Invoke? && !step.Respond?
    ensures Recorded(s', Then(run, step))
  {
    CallsStay(s, run, step);
    EventsStay(s, s', run, step);
    forall t | t in s'.phases
      ensures IsOpen(Then(run, step), t, s'.phases[t].op, s'.phases[t].since)
    {
      OpenStays(run, step, t, s.phases[t].op, s.phases[t].since);
    }
  }

  lemma InvokeRecords(s: System, s': System, run: Run, t: Tid, op: Op)
    requires Recorded(s, run) && s.time == Length(run) && t !in s.phases
    requires t in s'.phases && s'.phases == s.phases[t := s'.phases[t]] && s'.calls == s.calls
    requires s'.phases[t].op == op && s'.phases[t].since == s.time
    requires AddsOwnEvent(s, s', t)
    ensures Recorded(s', Then(run, Invoke(t, op)))
  {
    CallsStay(s, run, Invoke(t, op));
    EventsStay(s, s', run, Invoke(t, op));
    forall u | u in s'.phases
      ensures IsOpen(Then(run, Invoke(t, op)), u, s'.phases[u].op, s'.phases[u].since)
    {
      if u != t {
        OpenStays(run, Invoke(t, op), u, s.phases[u].op, s.phases[u].since);
      }
    }
  }

  lemma RespondRecords(s: System, s': System, run: Run, t: Tid, call: Call)
    requires Recorded(s, run) && s.time == Length(run) && t in s.phases
    requires s'.phases == s.phases - {t} && s'.calls == s.calls + [call] && s'.order == s.order
    requires call.tid == t && call.op == s.phases[t].op && call.invoked == s.phases[t].since && call.returned == s.time
    ensures Recorded(s', Then(run, Respond(t)))
  {
    CallsStay(s, run, Respond(t));
    EventsStay(s, s', run, Respond(t));
    OpenBecomesCall(run, call);
    forall u | u in s'.phases
      ensures IsOpen(Then(run, Respond(t)), u, s'.phases[u].op, s'.phases[u].since)
    {
      OpenStays(run, Respond(t), u, s.phases[u].op, s.phases[u].since);
    }
  }

  lemma StepRecords(e: Engine, s: System, run: Run, step: Step)
    requires Recorded(s, run) && s.time == Length(run) && Enabled(e, s, step)
    ensures Recorded(Next(e, s, step), Then(run, step))
  {
    var s' := Next(e, s, step);
    match step
    case Invoke(t, op) => InvokeRecords(s, s', run, t, op);
    case Load(_, _) => ProceedRecords(s, s', run, step);
    case Lose(_, _) => ProceedRecords(s, s', run, step);
    case Win(_) => ProceedRecords(s, s', run, step);
    case Swap(_) => ProceedRecords(s, s', run, step);
    case Respond(t) =>
      var p := s.phases[t];
      RespondRecords(s, s', run, t, Call(t, p.op, p.result, p.since, p.at, s.time));
  }

  // ------------------------------------------------------------------ nothing is lost

  lemma ReturnedStays(s: System, s': System, k: nat)
    requires Returned(s, k) && s.calls <= s'.calls
    ensures Returned(s', k)
  {
    var i :| 0 <= i < |s.calls| && s.calls[i].returned == k;
    assert s'.calls[i].returned == k;
  }

  lemma BegunStays(e: Engine, s: System, step: Step, t: Tid, k: nat)
    requires Begun(s, t, k) && Enabled(e, s, step)
    ensures Begun(Next(e, s, step), t, k)
  {
    var s' := Next(e, s, step);
    if i :| 0 <= i < |s.calls| && s.calls[i].tid == t && s.calls[i].invoked == k {
      assert s'.calls[i] == s.calls[i];
    } else if step == Respond(t) {
      assert s'.calls[|s.calls|].tid == t && s'.calls[|s.calls|].invoked == k;
    } else {
      assert t in s'.phases && s'.phases[t].since == k;
    }
  }

  lemma StepLosesNothing(e: Engine, s: System, run: Run, step: Step)
    requires NothingLost(s, run) && s.time == Length(run) && Enabled(e, s, step)
    ensures NothingLost(Next(e, s, step), Then(run, step))
  {
    var s', run' := Next(e, s, step), Then(run, step);
    forall k | 0 <= k < Length(run')
      ensures StepAt(run', k).Respond? ==> Returned(s', k)
      ensures StepAt(run', k).Invoke? ==> Begun(s', StepAt(run', k).tid, k)
    {
      if k < Length(run) {
        assert StepAt(run', k) == StepAt(run, k);
        if StepAt(run, k).Respond? {
          ReturnedStays(s, s', k);
        }
        if StepAt(run, k).Invoke? {
          BegunStays(e, s, step, StepAt(run, k).tid, k);
        }
      } else if step.Respond? {
        assert s'.calls[|s.calls|].returned == k;
      }
    }
  }

  /** In every run, whatever its loads return, the calls, open calls and events the
      system records are steps of the run itself, and no invocation or return of the
      run is missing from them. */
  lemma {:induction false} RecordsAreTheRun(e: Engine, z: u64, run: Run)
    requires Valid(e, z, run)
    ensures Recorded(End(e, z, run), run)
    ensures NothingLost(End(e, z, run), run)
  {
    if run.Then? {
      RecordsAreTheRun(e, z, run.prev);
      TimeIsLength(e, z, run.prev);
      StepRecords(e, End(e, z, run.prev), run.prev, run.step);
      StepLosesNothing(e, End(e, z, run.prev), run.prev, run.step);
    }
  }
}
