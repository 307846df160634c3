/** Who holds what: the tokens every operation moves, as it takes effect and as
    its call reports it. In every run of the protocol the two agree, thread by
    thread, up to the calls that have decided but not yet returned. */
module Ledgers {
  import opened Arithmetic
  import opened Durations
  import opened Engines
  import opened Accounting
  import opened Protocol

  /** Tokens passing to a thread, or back from it. */
  datatype Move = Move(tid: Tid, tokens: int)

  /** Grants less refunds, or grants alone. */
  datatype Count = Net | Gross

  /** What a completed operation moved. */
  function Moved(count: Count, op: Op, result: Result): int {
    match (op, result)
    case (Acquire(n, _), Decided(Allowed)) => n
    case (AcquireUpTo(_, _), Took(k)) => k
    case (Reserve(n, _, _), Reserved(Some(_))) => n
    case (Refund(n), Done) => if count.Net? then (var back: int := n; -back) else 0
    case _ => 0
  }

  /** Decisions that do not write move nothing. */
  lemma ReturnMovesNothing(count: Count, e: Engine, op: Op, z: u64)
    requires Attempt(e, op, z).Return?
    requires op.Refund? ==> op.n <= Capacity(e) || count.Gross?
    ensures Moved(count, op, Attempt(e, op, z).result) == 0
  {
  }

  function EffectMoves(count: Count, order: seq<Event>): seq<Move> {
    if order == [] then []
    else
      var last := order[|order| - 1];
      EffectMoves(count, order[..|order| - 1]) + [Move(last.tid, Moved(count, last.op, last.result))]
  }

  function ReturnMoves(count: Count, calls: seq<Call>): seq<Move> {
    if calls == [] then []
    else
      var last := calls[|calls| - 1];
      ReturnMoves(count, calls[..|calls| - 1]) + [Move(last.tid, Moved(count, last.op, last.result))]
  }

  /** What one thread, or with `None` everyone together, holds after some moves. */
  function Held(moves: seq<Move>, who: Option<Tid>): int {
    if moves == [] then 0
    else
      var last := moves[|moves| - 1];
      Held(moves[..|moves| - 1], who) + Share(last, who)
  }

  function Share(m: Move, who: Option<Tid>): int {
    if who.None? || who.value == m.tid then m.tokens else 0
  }

  lemma HeldAppend(moves: seq<Move>, m: Move, who: Option<Tid>)
    ensures Held(moves + [m], who) == Held(moves, who) + Share(m, who)
  {
    assert (moves + [m])[..|moves|] == moves;
  }

  /** An effect adds what it moved, to its thread and to the total. */
  lemma EventMoves(count: Count, order: seq<Event>, event: Event, who: Option<Tid>)
    ensures Held(EffectMoves(count, order + [event]), who) ==
            Held(EffectMoves(count, order), who) + Share(Move(event.tid, Moved(count, event.op, event.result)), who)
  {
    assert (order + [event])[..|order|] == order;
    HeldAppend(EffectMoves(count, order), Move(event.tid, Moved(count, event.op, event.result)), who);
  }

  /** And so does the return of its call. */
  lemma CallMoves(count: Count, calls: seq<Call>, call: Call, who: Option<Tid>)
    ensures Held(ReturnMoves(count, calls + [call]), who) ==
            Held(ReturnMoves(count, calls), who) + Share(Move(call.tid, Moved(count, call.op, call.result)), who)
  {
    assert (calls + [call])[..|calls|] == calls;
    HeldAppend(ReturnMoves(count, calls), Move(call.tid, Moved(count, call.op, call.result)), who);
  }

  // ------------------------------------------------------------- sums of shares

  /** The holdings of the first `n` threads. */
  function SumHeld(moves: seq<Move>, n: nat): int {
    if n == 0 then 0 else SumHeld(moves, n - 1) + Held(moves, Some(n - 1))
  }

  function ThreadBound(moves: seq<Move>): nat {
    if moves == [] then 0
    else Max(ThreadBound(moves[..|moves| - 1]), moves[|moves| - 1].tid + 1)
  }

  lemma {:induction false} SumAppend(moves: seq<Move>, m: Move, n: nat)
    ensures SumHeld(moves + [m], n) == SumHeld(moves, n) + if m.tid < n then m.tokens else 0
  {
    if n != 0 {
      SumAppend(moves, m, n - 1);
      HeldAppend(moves, m, Some(n - 1));
    }
  }

  lemma {:induction false} NobodyHoldsNothing(n: nat)
    ensures SumHeld([], n) == 0
  {
    if n != 0 {
      NobodyHoldsNothing(n - 1);
    }
  }

  /** Everyone's holdings are the sum of each thread's. */
  lemma {:induction false} SumIsTotal(moves: seq<Move>, n: nat)
    requires ThreadBound(moves) <= n
    ensures SumHeld(moves, n) == Held(moves, None)
  {
    if moves == [] {
      NobodyHoldsNothing(n);
    } else {
      var before, last := moves[..|moves| - 1], moves[|moves| - 1];
      SumIsTotal(before, n);
      SumAppend(before, last, n);
      assert before + [last] == moves;
    }
  }

  lemma {:induction false} SumsInOrder(a: seq<Move>, b: seq<Move>, n: nat)
    requires forall u: Tid :: Held(a, Some(u)) <= Held(b, Some(u))
    ensures SumHeld(a, n) <= SumHeld(b, n)
  {
    if n != 0 {
      SumsInOrder(a, b, n - 1);
    }
  }

  /** What holds of every thread's share holds of the totals. */
  lemma TotalsInOrder(a: seq<Move>, b: seq<Move>)
    requires forall u: Tid :: Held(a, Some(u)) <= Held(b, Some(u))
    ensures Held(a, None) <= Held(b, None)
  {
    var n := Max(ThreadBound(a), ThreadBound(b));
    SumIsTotal(a, n);
    SumIsTotal(b, n);
    SumsInOrder(a, b, n);
  }

  // ------------------------------------------------------ effects against reports

  /** What a decided call has moved but not yet reported. */
  function Unreported(count: Count, phases: map<Tid, Phase>, t: Tid): int {
    if t in phases && phases[t].Settled? then Moved(count, phases[t].op, phases[t].result) else 0
  }

  predicate Agrees(count: Count, s: System, t: Tid) {
    Held(EffectMoves(count, s.order), Some(t)) ==
    Held(ReturnMoves(count, s.calls), Some(t)) + Unreported(count, s.phases, t)
  }

  ghost predicate HoldingsAgree(count: Count, s: System) {
    forall t: Tid :: Agrees(count, s, t)
  }

  /** A decision moves its tokens, and leaves them to be reported. */
  lemma DecideKeepsHoldings(count: Count, s: System, s': System, t: Tid, event: Event)
    requires HoldingsAgree(count, s) && Unreported(count, s.phases, t) == 0
    requires event.tid == t && t in s'.phases && s'.phases[t].Settled?
    requires s'.phases[t].op == event.op && s'.phases[t].result == event.result
    requires s'.order == s.order + [event] && s'.calls == s.calls && s'.phases == s.phases[t := s'.phases[t]]
    ensures HoldingsAgree(count, s')
  {
    forall u: Tid
      ensures Agrees(count, s', u)
    {
      assert Agrees(count, s, u);
      EventMoves(count, s.order, event, Some(u));
    }
  }

  /** Starting a call, or going on to try a write, moves nothing. */
  lemma WaitKeepsHoldings(count: Count, s: System, s': System, t: Tid)
    requires HoldingsAgree(count, s) && Unreported(count, s.phases, t) == 0
    requires t in s'.phases && !s'.phases[t].Settled?
    requires s'.order == s.order && s'.calls == s.calls && s'.phases == s.phases[t := s'.phases[t]]
    ensures HoldingsAgree(count, s')
  {
    forall u: Tid
      ensures Agrees(count, s', u)
    {
      assert Agrees(count, s, u);
    }
  }

  /** Returning reports it. */
  lemma RespondKeepsHoldings(count: Count, s: System, s': System, t: Tid, call: Call)
    requires HoldingsAgree(count, s)
    requires t in s.phases && s.phases[t].Settled?
    requires call.tid == t && call.op == s.phases[t].op && call.result == s.phases[t].result
    requires s'.order == s.order && s'.calls == s.calls + [call] && s'.phases == s.phases - {t}
    ensures HoldingsAgree(count, s')
  {
    forall u: Tid
      ensures Agrees(count, s', u)
    {
      assert Agrees(count, s, u);
      CallMoves(count, s.calls, call, Some(u));
    }
  }

  lemma ObserveKeepsHoldings(count: Count, e: Engine, s: System, t: Tid, op: Op, since: nat, v: u64)
    requires HoldingsAgree(count, s) && Unreported(count, s.phases, t) == 0
    ensures HoldingsAgree(count, Observe(e, s, t, op, since, v))
  {
    var s' := Observe(e, s, t, op, since, v);
    match Attempt(e, op, v)
    case Return(result) => DecideKeepsHoldings(count, s, s', t, Event(t, op, s.word, s.word, result, s.time));
    case Write(_, _) => WaitKeepsHoldings(count, s, s', t);
  }

  lemma StoreKeepsHoldings(count: Count, s: System, t: Tid, op: Op, since: nat, next: u64, result: Result)
    requires HoldingsAgree(count, s) && Unreported(count, s.phases, t) == 0
    ensures HoldingsAgree(count, Store(s, t, op, since, next, result))
  {
    DecideKeepsHoldings(count, s, Store(s, t, op, since, next, result), t, Event(t, op, s.word, next, result, s.time));
  }

  lemma InvokeKeepsHoldings(count: Count, e: Engine, s: System, t: Tid, op: Op)
    requires HoldingsAgree(count, s) && Enabled(e, s, Invoke(t, op))
    ensures HoldingsAgree(count, Effect(e, s, Invoke(t, op)))
  {
    if Immediate(e, op) {
      ObserveKeepsHoldings(count, e, s, t, op, s.time, s.word);
    } else {
      WaitKeepsHoldings(count, s, Effect(e, s, Invoke(t, op)), t);
    }
  }

  lemma EffectKeepsHoldings(count: Count, e: Engine, s: System, step: Step)
    requires HoldingsAgree(count, s) && Enabled(e, s, step)
    ensures HoldingsAgree(count, Effect(e, s, step))
  {
    match step
    case Invoke(t, op) => InvokeKeepsHoldings(count, e, s, t, op);
    case Load(t, v) => ObserveKeepsHoldings(count, e, s, t, s.phases[t].op, s.phases[t].since, v);
    case Lose(t, v) => ObserveKeepsHoldings(count, e, s, t, s.phases[t].op, s.phases[t].since, v);
    case Win(t) =>
      var p := s.phases[t];
      StoreKeepsHoldings(count, s, t, p.op, p.since, p.next, p.result);
    case Swap(t) =>
      var p := s.phases[t];
      StoreKeepsHoldings(count, s, t, p.op, p.since, ResetOutcome(e, p.op.now).next, Done);
    case Respond(t) =>
      var p := s.phases[t];
      RespondKeepsHoldings(count, s, Effect(e, s, step), t, Call(t, p.op, p.result, p.since, p.at, s.time));
  }

  lemma TimeIsNotHeld(count: Count, s: System)
    requires HoldingsAgree(count, s)
    ensures HoldingsAgree(count, s.(time := s.time + 1))
  {
    var s' := s.(time := s.time + 1);
    forall u: Tid
      ensures Agrees(count, s', u)
    {
      assert Agrees(count, s, u);
    }
  }

  lemma StepKeepsHoldings(count: Count, e: Engine, s: System, step: Step)
    requires HoldingsAgree(count, s) && Enabled(e, s, step)
    ensures HoldingsAgree(count, Next(e, s, step))
  {
    EffectKeepsHoldings(count, e, s, step);
    TimeIsNotHeld(count, Effect(e, s, step));
  }

  /** In every run, whatever its loads return, each thread's effects are what its
      completed calls have reported plus what its decided call is about to. */
  lemma {:induction false} HoldingsAlwaysAgree(count: Count, e: Engine, z: u64, run: Run)
    requires Valid(e, z, run)
    ensures HoldingsAgree(count, End(e, z, run))
  {
    if run.Then? {
      HoldingsAlwaysAgree(count, e, z, run.prev);
      StepKeepsHoldings(count, e, End(e, z, run.prev), run.step);
    }
  }

  /** No operation is between taking effect and returning. */
  ghost predicate Quiescent(s: System) {
    forall t :: t in s.phases ==> !s.phases[t].Settled?
  }

  /** Then all that has taken effect has been reported. */
  lemma QuiescentTotals(count: Count, s: System)
    requires HoldingsAgree(count, s) && Quiescent(s)
    ensures Held(EffectMoves(count, s.order), None) == Held(ReturnMoves(count, s.calls), None)
  {
    var effects, reports := EffectMoves(count, s.order), ReturnMoves(count, s.calls);
    forall u: Tid
      ensures Held(effects, Some(u)) == Held(reports, Some(u))
    {
      assert Agrees(count, s, u);
    }
    TotalsInOrder(effects, reports);
    TotalsInOrder(reports, effects);
  }
}
