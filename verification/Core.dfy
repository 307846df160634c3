/** The engine as it runs: one atomic word and the compare-and-swap loops on it.

    Other threads are an arbitrary finite script of interference the word plays
    out between this thread's accesses. Each method is proved to be one atomic
    step of `Accounting`, applied to the value the word held at its last access. */
module Cores {
  import opened Arithmetic
  import opened Durations
  import opened Config
  import opened Scales
  import opened Engines
  import opened Accounting
  import opened Protocol

  /** What happens just before one access: other threads may leave a new value,
      and a weak compare-exchange may fail for no reason. */
  datatype Interference = Interference(write: Option<u64>, spurious: bool)

  function Disturb(v: u64, i: Interference): u64 {
    match i.write
    case Some(w) => w
    case None => v
  }

  /** The word after the first `k` entries of a script. */
  function After(v: u64, script: seq<Interference>, k: nat): u64
    requires k <= |script|
  {
    if k == 0 then v else Disturb(After(v, script, k - 1), script[k - 1])
  }

  /** It is what the last of them to write left... */
  lemma {:induction false} LastWriteStands(v: u64, script: seq<Interference>, k: nat, i: nat)
    requires i < k <= |script| && script[i].write.Some?
    requires forall j :: i < j < k ==> script[j].write.None?
    ensures After(v, script, k) == script[i].write.value
  {
    if i < k - 1 {
      LastWriteStands(v, script, k - 1, i);
    }
  }

  /** ...or the starting value when none did: no other thread's write is lost, and
      none is made up. */
  lemma {:induction false} NoWriteNoChange(v: u64, script: seq<Interference>, k: nat)
    requires k <= |script|
    requires forall j :: 0 <= j < k ==> script[j].write.None?
    ensures After(v, script, k) == v
  {
    if k != 0 {
      NoWriteNoChange(v, script, k - 1);
    }
  }

  /** The values other threads wrote in the first `k` entries, in order. */
  function Writes(script: seq<Interference>, k: nat): seq<u64>
    requires k <= |script|
  {
    if k == 0 then []
    else
      var last := script[k - 1].write;
      Writes(script, k - 1) + if last.Some? then [last.value] else []
  }

  /** The commits are those of the other threads whose writes the script plays. */
  ghost predicate Plays(script: seq<Interference>, k: nat, commits: seq<Commit>)
    requires k <= |script|
  {
    && |commits| == |Writes(script, k)|
    && forall i :: 0 <= i < |commits| ==> commits[i].after == Writes(script, k)[i]
  }

  lemma {:induction false} AfterIsLastCommit(v: u64, script: seq<Interference>, k: nat)
    requires k <= |script|
    ensures var writes := Writes(script, k);
            After(v, script, k) == if writes == [] then v else writes[|writes| - 1]
  {
    if k != 0 {
      AfterIsLastCommit(v, script, k - 1);
    }
  }

  /** A write on the word as the script left it joins the history of the script's own
      commits: if those are a gapless lawful history, so is the whole. */
  lemma WriteJoinsHistory(e: Engine, v: u64, script: seq<Interference>, k: nat, commits: seq<Commit>, c: Commit)
    requires k <= |script| && Plays(script, k, commits)
    requires Chained(e, commits)
    requires c.before == After(v, script, k) && Lawful(e, c)
    ensures c.before == LastWord(v, commits)
    ensures Chained(e, commits + [c])
  {
    AfterIsLastCommit(v, script, k);
  }

  function CheckedAdd(a: u64, b: u64): Option<u64> {
    if a + b <= MAX_U64 then Some(a + b) else None
  }

  class AtomicU64 {
    var value: u64
    var script: seq<Interference>
    ghost var accesses: nat

    constructor (value: u64, script: seq<Interference>)
      ensures this.value == value && this.script == script && accesses == 0
    {
      this.value := value;
      this.script := script;
      this.accesses := 0;
    }

    /** Entries the next access uses up. */
    function Next(): nat
      reads this
      ensures Next() <= |script|
    {
      if script == [] then 0 else 1
    }

    /** Plays the interference due before an access. */
    method Interfere() returns (spurious: bool)
      modifies this
      ensures value == After(old(value), old(script), old(Next()))
      ensures script == old(script)[old(Next())..]
      ensures spurious <==> old(script) != [] && old(script)[0].spurious
      ensures accesses == old(accesses) + 1
    {
      accesses := accesses + 1;
      spurious := false;
      if script != [] {
        assert After(value, script, 1) == Disturb(After(value, script, 0), script[0]);
        value := Disturb(value, script[0]);
        spurious := script[0].spurious;
        script := script[1..];
      }
    }

    method Load() returns (v: u64)
      modifies this
      ensures v == value == After(old(value), old(script), old(Next()))
      ensures script == old(script)[old(Next())..]
      ensures accesses == old(accesses) + 1
    {
      var _ := Interfere();
      v := value;
    }

    method CompareExchangeWeak(expected: u64, next: u64) returns (ok: bool, actual: u64)
      modifies this
      ensures actual == After(old(value), old(script), old(Next()))
      ensures script == old(script)[old(Next())..]
      ensures ok <==> actual == expected && !(old(script) != [] && old(script)[0].spurious)
      ensures value == if ok then next else actual
      ensures accesses == old(accesses) + 1
    {
      var spurious := Interfere();
      actual := value;
      ok := !spurious && value == expected;
      if ok {
        value := next;
      }
    }

    method Swap(next: u64) returns (previous: u64)
      modifies this
      ensures previous == After(old(value), old(script), old(Next()))
      ensures script == old(script)[old(Next())..]
      ensures value == next
      ensures accesses == old(accesses) + 1
    {
      var _ := Interfere();
      previous := value;
      value := next;
    }
  }

  class Core {
    const engine: Engine
    const word: AtomicU64

    /** Builds the engine with its initial tokens as of `now`; `script` is the
        interference its word will see. */
    constructor (config: BucketConfig, now: Duration, script: seq<Interference>)
      ensures fresh(word)
      ensures engine.config == config && Derived(engine)
      ensures word.value == InitialWord(engine, now) && word.script == script && word.accesses == 0
    {
      var scale := Derive(config.capacity, config.refillAmount, config.refillPeriod);
      DerivedIsSound(Params(config, scale));
      var e: Engine := Params(config, scale);
      BurstBelowClock(e, DurationNanos(now));
      CostMonotonic(e, config.initial, Capacity(e));
      var initial := Cost(e, Min(config.initial, config.capacity));
      engine := e;
      word := new AtomicU64(SaturatingSub(Units(e, now), initial), script);
    }

    /** The call was one atomic step, taken on the word as `used` entries of the
        interference left it, within two accesses more than entries. */
    twostate predicate Stepped(op: Op, result: Result, used: nat)
      reads word
    {
      && used <= |old(word.script)|
      && word.script == old(word.script)[used..]
      && (word.value, result) == Apply(engine, op, After(old(word.value), old(word.script), used))
      && word.accesses <= old(word.accesses) + used + 2
    }

    /** So a call takes its place in the history of the other threads' commits: it
        writes once, lawfully, on the last of them, or leaves the word as they did. */
    twostate lemma CallJoinsHistory(op: Op, result: Result, used: nat, commits: seq<Commit>, t: Tid)
      requires Stepped(op, result, used)
      requires Plays(old(word.script), used, commits) && Chained(engine, commits)
      requires commits != [] ==> commits[0].before == old(word.value)
      ensures var last := LastWord(old(word.value), commits);
              match Attempt(engine, op, last)
              case Return(r) => r == result && word.value == last
              case Write(next, r) =>
                && r == result && word.value == next
                && Chained(engine, commits + [Commit(t, op, last, next, result)])
    {
      AfterIsLastCommit(old(word.value), old(word.script), used);
      var last := LastWord(old(word.value), commits);
      if Attempt(engine, op, last).Write? {
        WriteJoinsHistory(engine, old(word.value), old(word.script), used, commits,
                          Commit(t, op, last, word.value, result));
      }
    }

    /** Clamping to a full bucket and charging, as the loops compute it. */
    lemma ClampAndCharge(z: u64, cost: u64, now: Duration)
      ensures Max(z, SaturatingSub(Units(engine, now), Burst(engine))) + cost == Charged(engine, z, cost, now)
      ensures cost <= Balance(engine, z, now) <==> Charged(engine, z, cost, now) <= Units(engine, now)
    {
      BurstBelowClock(engine, DurationNanos(now));
      ChargedWithin(engine, z, cost, now);
    }

    /** What one turn of the `acquire` loop decides. */
    lemma AcquireTurn(n: u32, now: Duration, z: u64)
      requires 0 < n <= Capacity(engine)
      ensures var nowU := Units(engine, now);
              var next := CheckedAdd(Max(z, SaturatingSub(nowU, Burst(engine))), Cost(engine, n));
              Attempt(engine, Op.Acquire(n, now), z) ==
              if next.None? || next.value > nowU then
                Return(Decided(Denied(OrNever(if next.None? then None else WaitUntil(engine, next.value, now)))))
              else
                Write(next.value, Decided(Allowed))
    {
      ClampAndCharge(z, Cost(engine, n), now);
    }

    method Acquire(n: u32, now: Duration) returns (decision: Decision, ghost used: nat)
      modifies word
      ensures Stepped(Op.Acquire(n, now), Decided(decision), used)
    {
      used := 0;
      if n == 0 {
        return Allowed, used;
      }
      if n > engine.config.capacity {
        return Denied(MAX), used;
      }
      var nowU := Units(engine, now);
      var cost := Cost(engine, n);
      var floor := SaturatingSub(nowU, Burst(engine));
      used := word.Next();
      var current := word.Load();
      while true
        invariant used <= |old(word.script)| && word.script == old(word.script)[used..]
        invariant word.value == current == After(old(word.value), old(word.script), used)
        invariant word.accesses <= old(word.accesses) + used + 1
        decreases |word.script|
      {
        AcquireTurn(n, now, current);
        var next := CheckedAdd(Max(current, floor), cost);
        if next.None? || next.value > nowU {
          var wait := if next.None? then None else WaitUntil(engine, next.value, now);
          return Denied(OrNever(wait)), used;
        }
        used := used + word.Next();
        var ok, actual := word.CompareExchangeWeak(current, next.value);
        if ok {
          return Allowed, used;
        }
        current := actual;
      }
    }

    /** The whole credit of a balance, as the loops compute it. */
    lemma CreditIsBalance(z: u64, now: Duration)
      ensures var credit := SaturatingSub(Units(engine, now), Max(z, SaturatingSub(Units(engine, now), Burst(engine))));
              && credit == Max(0, Balance(engine, z, now))
              && AvailableTokens(engine, z, now) ==
                 (if credit >= Burst(engine) then engine.config.capacity else TokensFor(engine, credit))
    {
      BurstBelowClock(engine, DurationNanos(now));
      FullCreditBuysCapacity(engine);
      NoCreditBuysNothing(engine);
    }

    /** What one turn of the `acquire_up_to` loop decides. */
    lemma AcquireUpToTurn(n: u32, now: Duration, z: u64)
      ensures var base := Max(z, SaturatingSub(Units(engine, now), Burst(engine)));
              var credit := SaturatingSub(Units(engine, now), base);
              var take := Min(if credit >= Burst(engine) then engine.config.capacity else TokensFor(engine, credit),
                              Min(n, engine.config.capacity));
              Attempt(engine, Op.AcquireUpTo(n, now), z) ==
              if take == 0 then Return(Took(0)) else Write(SaturatingAdd(base, Cost(engine, take)), Took(take))
    {
      CreditIsBalance(z, now);
      var take := Min(n, AvailableTokens(engine, z, now));
      if 0 < take {
        TokensCovered(engine, Balance(engine, z, now), take);
        ClampAndCharge(z, Cost(engine, take), now);
      }
    }

    method AcquireUpTo(n: u32, now: Duration) returns (taken: u32, ghost used: nat)
      modifies word
      ensures Stepped(Op.AcquireUpTo(n, now), Took(taken), used)
    {
      used := 0;
      if n == 0 {
        return 0, used;
      }
      var want := Min(n, engine.config.capacity);
      var nowU := Units(engine, now);
      var burst := Burst(engine);
      var floor := SaturatingSub(nowU, burst);
      used := word.Next();
      var current := word.Load();
      while true
        invariant used <= |old(word.script)| && word.script == old(word.script)[used..]
        invariant word.value == current == After(old(word.value), old(word.script), used)
        invariant word.accesses <= old(word.accesses) + used + 1
        decreases |word.script|
      {
        AcquireUpToTurn(n, now, current);
        var base := Max(current, floor);
        var credit := SaturatingSub(nowU, base);
        var take := Min(if credit >= burst then engine.config.capacity else TokensFor(engine, credit), want);
        if take == 0 {
          return 0, used;
        }
        var next := SaturatingAdd(base, Cost(engine, take));
        used := used + word.Next();
        var ok, actual := word.CompareExchangeWeak(current, next);
        if ok {
          return take, used;
        }
        current := actual;
      }
    }

    method Available(now: Duration) returns (tokens: u32, ghost used: nat)
      modifies word
      ensures Stepped(Op.Available(now), Holds(tokens), used)
    {
      used := 0;
      if engine.config.capacity == 0 {
        return 0, used;
      }
      var nowU := Units(engine, now);
      var burst := Burst(engine);
      used := word.Next();
      var current := word.Load();
      CreditIsBalance(current, now);
      var base := Max(current, SaturatingSub(nowU, burst));
      var credit := SaturatingSub(nowU, base);
      tokens := if credit >= burst then engine.config.capacity else TokensFor(engine, credit);
    }

    method TimeUntil(n: u32, now: Duration) returns (wait: Option<Duration>, ghost used: nat)
      modifies word
      ensures Stepped(Op.TimeUntil(n, now), Until(wait), used)
    {
      used := 0;
      if n == 0 {
        return Some(ZERO), used;
      }
      if n > engine.config.capacity {
        return None, used;
      }
      var nowU := Units(engine, now);
      used := word.Next();
      var current := word.Load();
      ClampAndCharge(current, Cost(engine, n), now);
      var next := CheckedAdd(Max(current, SaturatingSub(nowU, Burst(engine))), Cost(engine, n));
      if next.None? {
        return None, used;
      }
      if next.value <= nowU {
        wait := Some(ZERO);
      } else {
        wait := WaitUntil(engine, next.value, now);
      }
    }

    /** What one turn of the `reserve` loop decides. */
    lemma ReserveTurn(n: u32, maxWait: Duration, now: Duration, z: u64)
      requires 0 < n <= Capacity(engine)
      ensures var nowU := Units(engine, now);
              var next := CheckedAdd(Max(z, SaturatingSub(nowU, Burst(engine))), Cost(engine, n));
              var due := if next.None? then None
                         else if next.value <= nowU then Some(ZERO)
                         else WaitUntil(engine, next.value, now);
              Attempt(engine, Op.Reserve(n, maxWait, now), z) ==
              if due.None? || !AtMost(due.value, maxWait) then Return(Reserved(None))
              else Write(next.value, Reserved(due))
    {
      ClampAndCharge(z, Cost(engine, n), now);
    }

    method Reserve(n: u32, maxWait: Duration, now: Duration) returns (wait: Option<Duration>, ghost used: nat)
      modifies word
      ensures Stepped(Op.Reserve(n, maxWait, now), Reserved(wait), used)
    {
      used := 0;
      if n == 0 {
        return Some(ZERO), used;
      }
      if n > engine.config.capacity {
        return None, used;
      }
      var nowU := Units(engine, now);
      var cost := Cost(engine, n);
      var floor := SaturatingSub(nowU, Burst(engine));
      used := word.Next();
      var current := word.Load();
      while true
        invariant used <= |old(word.script)| && word.script == old(word.script)[used..]
        invariant word.value == current == After(old(word.value), old(word.script), used)
        invariant word.accesses <= old(word.accesses) + used + 1
        decreases |word.script|
      {
        ReserveTurn(n, maxWait, now, current);
        var next := CheckedAdd(Max(current, floor), cost);
        if next.None? {
          return None, used;
        }
        var due := if next.value <= nowU then Some(ZERO) else WaitUntil(engine, next.value, now);
        if due.None? || !AtMost(due.value, maxWait) {
          return None, used;
        }
        used := used + word.Next();
        var ok, actual := word.CompareExchangeWeak(current, next.value);
        if ok {
          return due, used;
        }
        current := actual;
      }
    }

    method Refund(n: u32) returns (ghost used: nat)
      modifies word
      ensures Stepped(Op.Refund(n), Done, used)
    {
      used := 0;
      var m := Min(n, engine.config.capacity);
      if m == 0 {
        return;
      }
      var cost := Cost(engine, m);
      used := word.Next();
      var current := word.Load();
      while true
        invariant used <= |old(word.script)| && word.script == old(word.script)[used..]
        invariant word.value == current == After(old(word.value), old(word.script), used)
        invariant word.accesses <= old(word.accesses) + used + 1
        decreases |word.script|
      {
        var next := SaturatingSub(current, cost);
        used := used + word.Next();
        var ok, actual := word.CompareExchangeWeak(current, next);
        if ok {
          return;
        }
        current := actual;
      }
    }

    method Reset(now: Duration) returns (ghost used: nat)
      modifies word
      ensures Stepped(Op.Reset(now), Done, used)
    {
      BurstBelowClock(engine, DurationNanos(now));
      used := word.Next();
      var _ := word.Swap(SaturatingSub(Units(engine, now), Burst(engine)));
    }
  }
}
