/** What callers are told. The safety contract bounds what is committed; these
    results carry it over to the tokens that completed calls report, in every run,
    with loads that return anything. */
module Reports {
  import opened Arithmetic
  import opened Durations
  import opened Engines
  import opened ClockBounds
  import opened Leads
  import opened Accounting
  import opened Protocol
  import opened Ledgers
  import opened OverGrant

  /** The tokens that completed calls have reported as granted. */
  function Reported(s: System): int {
    Held(ReturnMoves(Gross, s.calls), None)
  }

  /** Everything granted took effect in a commit, and the other way round. */
  ghost predicate EffectsAreCommits(s: System) {
    Held(EffectMoves(Gross, s.order), None) == TotalGranted(s.commits, 0, |s.commits|)
  }

  lemma {:induction false} TotalOfPrefix(commits: seq<Commit>, c: Commit, k: nat)
    requires k <= |commits|
    ensures TotalGranted(commits + [c], 0, k) == TotalGranted(commits, 0, k)
  {
    if k != 0 {
      TotalOfPrefix(commits, c, k - 1);
    }
  }

  /** A lawful write reports what it grants. */
  lemma WriteReportsItsGrant(e: Engine, c: Commit)
    requires Lawful(e, c)
    ensures Moved(Gross, c.op, c.result) == Granted(c)
  {
  }

  lemma ObserveAddsNothing(e: Engine, s: System, t: Tid, op: Op, since: nat, v: u64)
    requires EffectsAreCommits(s)
    ensures EffectsAreCommits(Observe(e, s, t, op, since, v))
  {
    match Attempt(e, op, v)
    case Return(result) =>
      ReturnMovesNothing(Gross, e, op, v);
      EventMoves(Gross, s.order, Event(t, op, s.word, s.word, result, s.time), None);
    case Write(_, _) =>
  }

  lemma StoreAddsItsGrant(e: Engine, s: System, t: Tid, op: Op, since: nat, next: u64, result: Result)
    requires EffectsAreCommits(s)
    requires Attempt(e, op, s.word) == Write(next, result)
    ensures EffectsAreCommits(Store(s, t, op, since, next, result))
  {
    var c := Commit(t, op, s.word, next, result);
    WriteReportsItsGrant(e, c);
    GrantIsBooked(s.order, Event(t, op, s.word, next, result, s.time), s.commits, c);
  }

  /** A grant enters both books. */
  lemma GrantIsBooked(order: seq<Event>, event: Event, commits: seq<Commit>, c: Commit)
    requires Moved(Gross, event.op, event.result) == Granted(c)
    requires Held(EffectMoves(Gross, order), None) == TotalGranted(commits, 0, |commits|)
    ensures Held(EffectMoves(Gross, order + [event]), None) == TotalGranted(commits + [c], 0, |commits + [c]|)
  {
    TotalOfPrefix(commits, c, |commits|);
    EventMoves(Gross, order, event, None);
  }

  lemma EffectKeepsCommits(e: Engine, s: System, step: Step)
    requires EffectsAreCommits(s) && TryingLawfully(e, s) && Enabled(e, s, step)
    ensures EffectsAreCommits(Effect(e, s, step))
  {
    match step
    case Invoke(t, op) =>
      if Immediate(e, op) {
        ObserveAddsNothing(e, s, t, op, s.time, s.word);
      }
    case Load(t, v) => ObserveAddsNothing(e, s, t, s.phases[t].op, s.phases[t].since, v);
    case Lose(t, v) => ObserveAddsNothing(e, s, t, s.phases[t].op, s.phases[t].since, v);
    case Win(t) =>
      var p := s.phases[t];
      StoreAddsItsGrant(e, s, t, p.op, p.since, p.next, p.result);
    case Swap(t) =>
      var p := s.phases[t];
      StoreAddsItsGrant(e, s, t, p.op, p.since, ResetOutcome(e, p.op.now).next, Done);
    case Respond(_) =>
  }

  lemma {:induction false} RunAddsItsGrants(e: Engine, z: u64, run: Run)
    requires Valid(e, z, run)
    ensures EffectsAreCommits(End(e, z, run))
  {
    if run.Then? {
      RunAddsItsGrants(e, z, run.prev);
      CommitsAreSequential(e, z, run.prev);
      EffectKeepsCommits(e, End(e, z, run.prev), run.step);
    }
  }

  /** Completed calls never report more than was granted, and all of it once no
      call is about to return. */
  lemma ReportsAreGrants(e: Engine, z: u64, run: Run)
    requires Valid(e, z, run)
    ensures var s := End(e, z, run);
            && Reported(s) <= TotalGranted(s.commits, 0, |s.commits|)
            && (Quiescent(s) ==> Reported(s) == TotalGranted(s.commits, 0, |s.commits|))
  {
    var s := End(e, z, run);
    RunAddsItsGrants(e, z, run);
    HoldingsAlwaysAgree(Gross, e, z, run);
    ReportsTrailEffects(s);
    TotalsInOrder(ReturnMoves(Gross, s.calls), EffectMoves(Gross, s.order));
    if Quiescent(s) {
      QuiescentTotals(Gross, s);
    }
  }

  lemma ReportsTrailEffects(s: System)
    requires HoldingsAgree(Gross, s)
    ensures forall u: Tid :: Held(ReturnMoves(Gross, s.calls), Some(u)) <= Held(EffectMoves(Gross, s.order), Some(u))
  {
    forall u: Tid
      ensures Held(ReturnMoves(Gross, s.calls), Some(u)) <= Held(EffectMoves(Gross, s.order), Some(u))
    {
      assert Agrees(Gross, s, u) && 0 <= Unreported(Gross, s.phases, u);
    }
  }

  /** End to end, from construction: the tokens that callers have been told they
      may take are less than the initial tokens plus the exact accrual until the
      last of them is covered, plus the resolution. */
  lemma ReportsNeverOverCommitted(e: Engine, builtAt: Duration, run: Run)
    requires Working(e) && Derived(e) && Exact(e)
    requires Valid(e, InitialWord(e, builtAt), run)
    requires var commits := End(e, InitialWord(e, builtAt), run).commits;
             commits != [] && OnlyCharges(commits, 0, |commits| - 1)
    ensures var s := End(e, InitialWord(e, builtAt), run);
            Reported(s) as real <
              e.config.initial as real
              + Accrual(e, Elapsed(DurationNanos(builtAt), CoveredNanos(s.commits[|s.commits| - 1])))
              + Resolution(e, WindowUnits(e))
  {
    var s := End(e, InitialWord(e, builtAt), run);
    ReportsAreGrants(e, InitialWord(e, builtAt), run);
    TokensNeverOverCommittedFromStart(e, builtAt, run, |s.commits| - 1);
    LessInTokens(Reported(s), TotalGranted(s.commits, 0, |s.commits|),
                 e.config.initial as real
                 + Accrual(e, Elapsed(DurationNanos(builtAt), CoveredNanos(s.commits[|s.commits| - 1])))
                 + Resolution(e, WindowUnits(e)));
  }

  lemma LessInTokens(reported: int, granted: int, bound: real)
    requires reported <= granted && granted as real < bound
    ensures reported as real < bound
  {
  }
}
