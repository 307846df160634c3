/** Lock-freedom: a thread's compare-and-swap can only keep failing while other
    threads' operations keep taking effect. */
module Progress {
  import opened Arithmetic
  import opened Engines
  import opened Accounting
  import opened Protocol

  /** The thread's last read no longer matches the word. */
  function Behind(s: System, t: Tid): nat {
    if t in s.phases && s.phases[t].Trying? && s.phases[t].current != s.word then 1 else 0
  }

  /** A failed compare-and-swap that was not spurious: it reports another value
      than the one it expected. */
  function RealFailure(s: System, step: Step, t: Tid): nat {
    if step.Lose? && step.tid == t && t in s.phases && s.phases[t].Trying? && step.value != s.phases[t].current
    then 1 else 0
  }

  function Failures(e: Engine, z: u64, run: Run, t: Tid): nat
    requires Valid(e, z, run)
  {
    match run
    case Start => 0
    case Then(prev, step) => Failures(e, z, prev, t) + RealFailure(End(e, z, prev), step, t)
  }

  function ChangedByOther(c: Commit, t: Tid): nat {
    if c.tid != t && c.before != c.after then 1 else 0
  }

  /** Writes by other threads, among the first `k` commits, that changed the word. */
  function ChangesByOthers(commits: seq<Commit>, k: nat, t: Tid): nat
    requires k <= |commits|
  {
    if k == 0 then 0 else ChangesByOthers(commits, k - 1, t) + ChangedByOther(commits[k - 1], t)
  }

  /** They are counted one by one... */
  lemma {:induction false} ChangesAreCounted(commits: seq<Commit>, k: nat, t: Tid)
    requires k <= |commits|
    ensures ChangesByOthers(commits, k, t) ==
            |set i: nat | i < k && commits[i].tid != t && commits[i].before != commits[i].after|
  {
    if k != 0 {
      ChangesAreCounted(commits, k - 1, t);
      var before := set i: nat | i < k - 1 && commits[i].tid != t && commits[i].before != commits[i].after;
      var now := set i: nat | i < k && commits[i].tid != t && commits[i].before != commits[i].after;
      var c := commits[k - 1];
      assert now == before + if c.tid != t && c.before != c.after then {k - 1} else {};
    }
  }

  /** ...and so is every failed compare-and-swap that reports another value than the
      one it expected, and no other step. */
  lemma FailuresAreCounted(e: Engine, z: u64, run: Run, step: Step, t: Tid)
    requires Valid(e, z, Then(run, step))
    ensures var failed := step.Lose? && step.tid == t && step.value != End(e, z, run).phases[t].current;
            Failures(e, z, Then(run, step), t) == Failures(e, z, run, t) + if failed then 1 else 0
  {
  }

  function Changes(s: System, t: Tid): nat {
    ChangesByOthers(s.commits, |s.commits|, t)
  }

  lemma {:induction false} ChangesOfPrefix(commits: seq<Commit>, c: Commit, k: nat, t: Tid)
    requires k <= |commits|
    ensures ChangesByOthers(commits + [c], k, t) == ChangesByOthers(commits, k, t)
  {
    if k != 0 {
      ChangesOfPrefix(commits, c, k - 1, t);
    }
  }

  /** A failure uses up one change by another thread. */
  lemma StepAccounts(e: Engine, s: System, step: Step, t: Tid)
    requires Enabled(e, s, step) && Coherent(s, step)
    ensures RealFailure(s, step, t) + Behind(Next(e, s, step), t) + Changes(s, t) <=
            Behind(s, t) + Changes(Next(e, s, step), t)
  {
    if step.Win? || step.Swap? {
      var s' := Next(e, s, step);
      ChangesOfPrefix(s.commits, s'.commits[|s.commits|], |s.commits|, t);
      assert s'.commits == s.commits + [s'.commits[|s.commits|]];
    }
  }

  /** `run` goes on from `base`. */
  predicate Extends(run: Run, base: Run) {
    run == base || (run.Then? && Extends(run.prev, base))
  }

  lemma {:induction false} ExtensionAccounts(e: Engine, z: u64, base: Run, run: Run, t: Tid)
    requires CoherentRun(e, z, run) && Extends(run, base)
    ensures CoherentRun(e, z, base)
    ensures Failures(e, z, run, t) + Behind(End(e, z, run), t) + Changes(End(e, z, base), t) <=
            Failures(e, z, base, t) + Behind(End(e, z, base), t) + Changes(End(e, z, run), t)
    decreases run
  {
    if run != base {
      ExtensionAccounts(e, z, base, run.prev, t);
      StepAccounts(e, End(e, z, run.prev), run.step, t);
    }
  }

  /** In every run a thread's real failures are at most the writes by other
      threads that changed the word. */
  lemma FailuresAreBounded(e: Engine, z: u64, run: Run, t: Tid)
    requires CoherentRun(e, z, run)
    ensures Failures(e, z, run, t) <= Changes(End(e, z, run), t)
  {
    StartIsABase(run);
    ExtensionAccounts(e, z, Start, run, t);
  }

  lemma {:induction false} StartIsABase(run: Run)
    ensures Extends(run, Start)
  {
    if run.Then? {
      StartIsABase(run.prev);
    }
  }

  /** Lock-freedom: from any point on, each failure after a thread's first one
      there is paid for by another thread's operation taking effect. */
  lemma FailureMeansProgress(e: Engine, z: u64, base: Run, run: Run, t: Tid)
    requires CoherentRun(e, z, run) && Extends(run, base)
    ensures CoherentRun(e, z, base)
    ensures Failures(e, z, run, t) - Failures(e, z, base, t) <=
            Changes(End(e, z, run), t) - Changes(End(e, z, base), t) + 1
  {
    ExtensionAccounts(e, z, base, run, t);
  }

  predicate IsSettled(s: System, t: Tid) {
    t in s.phases && s.phases[t].Settled?
  }

  /** What a thread does next: swap for a reset, or read the word, first by a load
      and then by the compare-and-swap that fails. */
  function NextRead(s: System, t: Tid): Step
    requires t in s.phases
  {
    if !s.phases[t].Ready? then Lose(t, s.word)
    else if s.phases[t].op.Reset? then Swap(t)
    else Load(t, s.word)
  }

  /** Left alone, a call decides within one swap, or one read and one
      compare-and-swap, from wherever it is. */
  lemma UndisturbedCallDecides(e: Engine, s: System, t: Tid)
    requires t in s.phases && !s.phases[t].Settled?
    ensures var read := NextRead(s, t);
            && Enabled(e, s, read) && Coherent(s, read)
            && (var s1 := Next(e, s, read);
                IsSettled(s1, t) || (Enabled(e, s1, Win(t)) && IsSettled(Next(e, s1, Win(t)), t)))
    ensures NextRead(s, t).Swap? ==> IsSettled(Next(e, s, Swap(t)), t)
  {
  }

  /** A read may return anything at all: for every value there is a step that lets a
      thread about to read see it, and go on as its operation does on that value. */
  lemma ReadsMayReturnAnything(e: Engine, s: System, t: Tid, v: u64)
    requires t in s.phases && !s.phases[t].Settled?
    requires s.phases[t].Ready? ==> !s.phases[t].op.Reset?
    ensures exists read: Step ::
              && (read == Load(t, v) || read == Lose(t, v))
              && Enabled(e, s, read)
              && var p := Next(e, s, read).phases[t];
                 match Attempt(e, s.phases[t].op, v)
                 case Return(r) => p.Settled? && p.result == r
                 case Write(next, r) => p.Trying? && (p.current, p.next, p.result) == (v, next, r)
  {
    var read := if s.phases[t].Ready? then Load(t, v) else Lose(t, v);
    assert Enabled(e, s, read);
  }

  /** A spurious failure, of a compare-and-swap that found the value it expected,
      costs a step and nothing else: the thread is about to try the same write again. */
  lemma SpuriousFailureRetries(e: Engine, z: u64, run: Run, t: Tid)
    requires Valid(e, z, run)
    requires var s := End(e, z, run); t in s.phases && s.phases[t].Trying? && s.phases[t].current == s.word
    ensures var s := End(e, z, run);
            && Enabled(e, s, Lose(t, s.word)) && RealFailure(s, Lose(t, s.word), t) == 0
            && Next(e, s, Lose(t, s.word)) == s.(time := s.time + 1)
  {
    CommitsAreSequential(e, z, run);
    var s := End(e, z, run);
    assert s.phases[t := s.phases[t]] == s.phases;
  }

  // ----------------------------------------------------------- every call can be made

  /** The run goes on with one more step. */
  lemma Extended(e: Engine, z: u64, base: Run, run: Run, step: Step) returns (next: Run)
    requires Valid(e, z, run) && Enabled(e, End(e, z, run), step) && Coherent(End(e, z, run), step)
    requires Extends(run, base)
    ensures next == Then(run, step) && Valid(e, z, next) && Extends(next, base)
    ensures End(e, z, next) == Next(e, End(e, z, run), step)
    ensures CoherentRun(e, z, run) ==> CoherentRun(e, z, next)
  {
    next := Then(run, step);
  }

  /** The thread's call has taken effect and is about to return. */
  predicate HasDecided(e: Engine, s: System, s': System, t: Tid, op: Op) {
    && (s'.word, Apply(e, op, s.word).1) == Apply(e, op, s.word)
    && t in s'.phases && s'.phases[t].Settled?
    && s'.phases[t].op == op && s'.phases[t].result == Apply(e, op, s.word).1
    && s'.phases - {t} == s.phases && s'.calls == s.calls
    && s'.commits == s.commits +
       if Attempt(e, op, s.word).Write? then [Commit(t, op, s.word, s'.word, s'.phases[t].result)] else []
  }

  /** The thread has invoked an operation that must read or write the word. */
  predicate IsReady(s: System, s': System, t: Tid, op: Op) {
    && t in s'.phases && s'.phases[t] == Ready(op, s.time)
    && s'.phases - {t} == s.phases && s'.word == s.word && s'.calls == s.calls && s'.commits == s.commits
  }

  lemma CallIsInvoked(e: Engine, z: u64, base: Run, t: Tid, op: Op) returns (run: Run)
    requires Valid(e, z, base) && t !in End(e, z, base).phases
    ensures Valid(e, z, run) && Extends(run, base) && (CoherentRun(e, z, base) ==> CoherentRun(e, z, run))
    ensures var s, s' := End(e, z, base), End(e, z, run);
            if Immediate(e, op) then HasDecided(e, s, s', t, op) else IsReady(s, s', t, op)
  {
    var s := End(e, z, base);
    run := Extended(e, z, base, base, Invoke(t, op));
    if Immediate(e, op) {
      ImmediateIgnoresWord(e, op, s.word, s.word);
    }
    assert End(e, z, run).phases - {t} == s.phases;
  }

  lemma SwapDecides(e: Engine, s: System, s1: System, t: Tid, op: Op)
    requires IsReady(s, s1, t, op) && op.Reset?
    ensures Enabled(e, s1, Swap(t)) && HasDecided(e, s, Next(e, s1, Swap(t)), t, op)
  {
    assert Next(e, s1, Swap(t)).phases - {t} == s1.phases - {t};
  }

  lemma LoadDecides(e: Engine, s: System, s1: System, t: Tid, op: Op)
    requires IsReady(s, s1, t, op) && !op.Reset?
    ensures Enabled(e, s1, Load(t, s.word)) && Coherent(s1, Load(t, s.word))
    ensures var s2 := Next(e, s1, Load(t, s.word));
            if Attempt(e, op, s.word).Return? then HasDecided(e, s, s2, t, op)
            else Enabled(e, s2, Win(t)) && HasDecided(e, s, Next(e, s2, Win(t)), t, op)
  {
    var s2 := Next(e, s1, Load(t, s.word));
    assert s2.phases - {t} == s1.phases - {t};
    if Attempt(e, op, s.word).Write? {
      assert Next(e, s2, Win(t)).phases - {t} == s1.phases - {t};
    }
  }

  lemma CallDecides(e: Engine, z: u64, base: Run, t: Tid, op: Op) returns (run: Run)
    requires Valid(e, z, base) && t !in End(e, z, base).phases
    ensures Valid(e, z, run) && Extends(run, base) && (CoherentRun(e, z, base) ==> CoherentRun(e, z, run))
    ensures HasDecided(e, End(e, z, base), End(e, z, run), t, op)
  {
    var s := End(e, z, base);
    run := CallIsInvoked(e, z, base, t, op);
    var s1 := End(e, z, run);
    if Immediate(e, op) {
    } else if op.Reset? {
      SwapDecides(e, s, s1, t, op);
      run := Extended(e, z, base, run, Swap(t));
    } else {
      LoadDecides(e, s, s1, t, op);
      run := Extended(e, z, base, run, Load(t, s.word));
      if Attempt(e, op, s.word).Write? {
        run := Extended(e, z, base, run, Win(t));
      }
    }
  }

  /** The protocol leaves no call out: after any run, any thread that is not in a
      call can make any call, whatever the other threads are doing, and run on its
      own it completes with the result, and makes the change, of the atomic
      operation on the word as it was. */
  lemma AnyCallCompletes(e: Engine, z: u64, base: Run, t: Tid, op: Op) returns (run: Run)
    requires Valid(e, z, base) && t !in End(e, z, base).phases
    ensures Valid(e, z, run) && Extends(run, base) && (CoherentRun(e, z, base) ==> CoherentRun(e, z, run))
    ensures var s, s' := End(e, z, base), End(e, z, run);
            && |s'.calls| == |s.calls| + 1
            && (var c := s'.calls[|s.calls|];
                && c.tid == t && c.op == op
                && (s'.word, c.result) == Apply(e, op, s.word)
                && s'.commits == s.commits +
                   if Attempt(e, op, s.word).Write? then [Commit(t, op, s.word, s'.word, c.result)] else [])
            && s'.phases == s.phases
  {
    run := CallDecides(e, z, base, t, op);
    run := Extended(e, z, base, run, Respond(t));
  }
}
