# better-bucket, verified

A Dafny model of the accounting engine of `better-bucket`: a lock-free token
bucket whose whole mutable state is one 64-bit word, the instant at which the
bucket would have been empty. `dafny verify dfyconfig.toml` checks everything.

## How it is laid out

| file | what it holds |
|---|---|
| `Arithmetic.dfy` | machine words, powers of two, flooring and ceiling division as adjoints of multiplication |
| `Durations.dfy`, `Config.dfy` | `Duration`, readings, configuration and its validation |
| `Scale.dfy` | `Scale::derive`: the declarative specification `IsScale`, the two searches and the rounded-up rate proved against it, every 128-bit step checked |
| `Engine.dfy` | the immutable engine: `cost`, `tokens_for`, the clock `units`, and its inverse in `wait_until` |
| `ClockBounds.dfy` | the clock against exact rational accrual, its range, and when the rate has an integer part |
| `Lead.dfy` | the furthest the clock is ever ahead of exact, behind it, and gains on it between two readings, found by a Euclidean algorithm |
| `Accounting.dfy` | every operation as one atomic step (`Attempt`, `Apply`), stated over a signed balance; how the operations agree with each other |
| `Core.dfy` | the engine as it runs: an atomic word, and the compare-and-swap loops |
| `Classic.dfy` | the classic `(tokens, last)` bucket, and the refinement |
| `Protocol.dfy` | N threads, step by step: invoke, load, win or lose a compare-and-swap, swap, respond |
| `History.dfy` | the calls and events a system records are steps of the run itself |
| `Ledger.dfy` | what each thread's calls have moved, as effects and as reports |
| `Contract.dfy` | the public contract in nanoseconds and shares of a token, over windows of commits and of time; a bucket that breaks it, and exactly which clocks keep to it |
| `OverGrant.dfy`, `Report.dfy`, `Linearizability.dfy`, `Progress.dfy`, `Conservation.dfy` | what holds in every run |

Three forms of each operation are tied together. The loops of `Core.dfy` are
imperative, run against an arbitrary finite script of interference (other
threads' writes, spurious failures), and are proved to be one atomic step of
`Accounting.dfy` on the value the word held at their last access. `Protocol.dfy`
interleaves any number of threads over the same decisions. `Classic.dfy` is
written independently, with refill, debt and deficits, and never mentions the
empty instant.

In `Protocol.dfy` a call's reading is part of the call and may be anything:
stale, running backwards, past the end of time. Loads, and the values failed
compare-and-swaps report, may also be anything; the safety, accounting and
conservation results hold for all of that. Linearizability and progress are
about `CoherentRun`s, where a read returns the current word.

Exact accrual is the rational `amount * 2^unitShift * t / period` units
(`RateNum * t / RateDen`); bounds on the clock are stated multiplied out, and the
end-to-end bounds in tokens are stated over the reals. `Ahead` is 1 when
the rounded rate is at most one part in 2^64 above exact, and 3 otherwise; it is
1 whenever truncating the period to 64 bits loses nothing (`Lossless`), as in
every period below 2^64 ns. `Working` means no configured field is zero.

## Where the code and its comments differ

The model follows the code.

- src/engine.rs:99 and src/engine.rs:48-49 say the rate has no integer part below
  10^9 tokens per second. `IntegerPartCounterexample` is a bucket of one
  token, 16 tokens every 2^64 + 1 ns, whose rate is exactly one unit per
  nanosecond. `IntegerPartZero` gives the exact condition on the three configured
  numbers: the period has more than 64 bits, and the amount, shifted up to the
  period's width, agrees with it in its 64 leading bits but falls short of it,
  while the capacity leaves room for a unit that fine.
  `ShortPeriodHasNoIntegerPart` confirms the comment for periods below 2^64 ns.
- src/engine.rs:54-55 says the clock is always less than one unit ahead of exact.
  `OneUnitAheadCounterexample` is a bucket of one token, 32 tokens every
  2^65 + 3 ns, at the last reading before saturation. `ClockReading` proves one
  unit when `Ahead` is 1 and three always. `OneUnitAheadExactly`
  says of which buckets the comment is right: those whose `PeakLead` is less than
  a unit. `PeakLead` is the highest point of a staircase against a line, computed
  from the configuration and its scale by a Euclidean algorithm; there is no
  closed form for every rate. `SmallExcess` and `LargeExcess` are closed forms on
  either side of it, by how far the rounded rate is above exact, and with
  `WholeRateExcess` the first is exact for rates of whole units per nanosecond,
  the counterexample's family.
- src/bucket.rs:60-63 says the slack of the contract is a few nanoseconds, or up to
  2^-28 of a token. `ContractCounterexample` is a bucket of 2^32 - 1 tokens,
  starting full, refilled with 4294914747 every 18446744075400750261 ns: two
  grants in one window take 2^-28 of a token more than the capacity and the exact
  accrual, and more than accrues in eight nanoseconds besides. `TokenShareExactly`
  says which clocks keep to 2^-28, over every window of readings: those of buckets
  whose units are 2^-30 of a token or finer, and, where they are 2^-29 (coarser
  units are covered by the few nanoseconds), those whose `PeakGain` is less than
  two units. `PeakGain`, the furthest lead after the furthest lag, is computed like
  `PeakLead`. `PublicContract` and `PublicContractOverTime` prove the contract for
  all of these in every run, with four nanoseconds where `PeakGain` is less than two
  units and eight elsewhere, and with 2^-27 for the rest. In tokens the condition is
  one way: a clock that gains 2^-28 breaks the contract in a window where its
  advance pays for whole tokens (`WindowsAreFilled`), and may have no such window.
- src/bucket.rs:63-64 says a stale reading can only cause a denial, never an extra
  grant. That is `StaleReadingSeesLess` of one attempt. Over a run it is not so:
  `StaleGrantLeavesMore` is a grant at a stale reading that leaves room for a second
  one, where the same two requests at the later reading get one.
  `StaleGrantExactly` says when a stale grant leaves the same word as a fresh one:
  when the clock has not moved between the readings, or the bucket would not have
  overflowed at the later one. The contract's bound on windows holds regardless.
- src/bucket.rs:9-10 says the word is in nanoseconds; it is in units.

## Model

| member | source | states |
|---|---|---|
| Durations.DurationNanos | src/engine.rs:85-89 | two saturating steps amount to one saturation of the exact nanosecond count at `u64::MAX` |
| Durations.ElapsedIsClampedDifference | src/bucket.rs:663-667 | elapsed time is the exact difference of the readings, and zero for a reading from before construction |
| Durations.MaxIsLongest | src/engine.rs:349-355 | the duration that stands for never is the longest there is |
| Config.New | src/config.rs:111-127 | validation succeeds exactly on all-non-zero requests, keeps every field, clamps `initial` to the capacity, and names the first zero field |
| Config.Tier1Config | src/bucket.rs:29-35 | degenerate requests collapse to zero counts with a period of one second; every other request gives exactly what the validated constructor accepts |
| Arithmetic.BitsBracket | src/engine.rs:91-95 | the significant-bit count brackets a positive number between two consecutive powers of two |
| Scales.Derive | src/engine.rs:121-181 | both searches end and return the finest admissible unit with the rounded-up rate (`IsScale`), and a dummy rate for degenerate input |
| Scales.SearchDown | src/engine.rs:145-160 | the decrementing search returns the first shift from the start that its closure accepts, having rejected every one above it |
| Scales.SlowClockLimit | src/engine.rs:136-147 | the first search finds the largest shift, over all integers, that keeps the clock below one unit per nanosecond; no shift leaves 128 bits |
| Scales.FastClockLimit | src/engine.rs:148-161 | the second search finds the largest non-positive shift with `10 * amount * 2^m <= 43 * period` |
| Scales.FinestShift | src/engine.rs:133-162 | the smaller of burst limit and clock limit is the largest shift that meets both limits of its regime |
| Scales.BurstLimitIsExact | src/engine.rs:133-134 | the limit computed from the capacity's width is exactly the shifts with `capacity * 2^m < 2^61` |
| Scales.WidthsBracketTheLimit | src/engine.rs:144-147 | starting from the difference of the bit widths, one step down is always slow enough and one step up always too fast |
| Scales.RoundUpRate | src/engine.rs:172-180 | the rate split at the radix point is the ceiling of the numerator over the period's top word, without overflow |
| Scales.ScaleIsUnique | src/engine.rs:121-181 | the specification of the derivation determines unit and rate |
| Scales.UnitShiftRange | src/engine.rs:162-171 | the finest unit has a shift in [-30, 60], and is a whole token or finer below one token per nanosecond |
| Scales.ExactRegime | src/engine.rs:47-52 | a unit is at most one token exactly when `10 * amount <= 43 * period` |
| Scales.PeriodWords | src/engine.rs:172-173 | how many low bits of the period are dropped, when any are, and how much of the period they can be |
| Scales.RateFits | src/engine.rs:163-175 | the numerator fits 128 bits, the shift is positive, the rate is never zero, at most 2^64 below one token per nanosecond and at most 4.3 units per nanosecond, rounded up, above |
| Engines.DerivedIsSound | src/engine.rs:102-113 | every derived scale has an integer part of at most 4, a non-zero rate, and a burst below 2^61 |
| Engines.CostMonotonic | src/engine.rs:280-301 | costs are monotonic and positive, and at most the burst, which is below 2^61 |
| Engines.ExactCostsAdd | src/engine.rs:280-289 | with units of at most one token, costs of parts add up to the cost of the whole |
| Engines.CostExactly | src/engine.rs:280-295 | the cost of `n` tokens is `n` shifted, or with multi-token units the fewest units worth `n` tokens |
| Engines.TokensForExactly | src/engine.rs:303-315 | a credit buys the tokens it is worth, whole and within the capacity, in both unit regimes |
| Engines.CostGalois | src/engine.rs:303-315 | a credit covers the cost of `n` tokens exactly when `n` is at most what the credit buys, multi-token units included |
| Engines.FullCreditBuysCapacity | src/engine.rs:297-315 | a full burst buys exactly the capacity |
| Engines.SplitMultiply | src/engine.rs:270-278 | the split integer and fraction multiplies equal one wide multiply, floored, and fit 128 bits |
| Engines.ClockGalois | src/engine.rs:320-327 | for every target and reading, the saturating clock has reached the target exactly when the reading is at least `due_ns` |
| Engines.ClockIsMonotonic | src/engine.rs:264-278 | the clock never runs backwards and never falls below the origin |
| Engines.BurstBelowClock | src/engine.rs:75-77 | no burst reaches below the origin, so no clamp underflows |
| ClockBounds.RateAccuracy | src/engine.rs:163-175 | the rounded rate is at least exact and less than one part in 2^64 above it, three where truncating the period loses something |
| ClockBounds.ClockWindow | src/engine.rs:50-58 | between any two readings the clock advances at least the floor of exact accrual, so a due token is never late, and less than two units more than it (four when `Ahead` is 3) |
| ClockBounds.ClockReading | src/engine.rs:52-56 | at any reading exactly due units have arrived and the clock is less than one unit ahead (three when `Ahead` is 3) |
| ClockBounds.IntegerPartZero | src/engine.rs:99-100 | below one token per nanosecond the integer part is zero unless the configured amount agrees with a longer period in its 64 leading bits, falls short of it, and the capacity leaves room: an exact condition on the configuration |
| ClockBounds.ShortPeriodHasNoIntegerPart | src/engine.rs:99-100 | for periods below 2^64 ns it is zero whenever the rate is below one token per nanosecond |
| ClockBounds.LongPeriodScale | src/engine.rs:172-180 | a whole family of long-period buckets whose rate rounds up to a full unit per nanosecond |
| ClockBounds.IntegerPartCounterexample | src/engine.rs:99-100 | 16 tokens per 2^64 + 1 ns into a bucket of one has rate 2^64 exactly |
| ClockBounds.ClockLasts | src/engine.rs:264-266 | no saturation before 3 * 2^62 - 1 ns below one token per nanosecond, nor before a century at any rate |
| ClockBounds.DegenerateIsFrozen | src/engine.rs:121-130 | the clock of a degenerate bucket stays at its origin at every reading, and a token is one unit |
| Leads.PeakIsAbove | src/engine.rs:54-55 | the Euclidean algorithm's value is at least the height of the staircase over the line at every point of the range |
| Leads.PeakIsReached | src/engine.rs:54-55 | and some point of the range reaches it |
| Leads.LastReadingIsLast | src/engine.rs:264-278 | the readings that do not saturate the clock are exactly those up to `ceil(3 * 2^62 * 2^64 / rate) - 1` |
| Leads.OneUnitAheadExactly | src/engine.rs:54-55 | a bucket is less than one unit ahead of exact at every reading in its range if and only if the furthest lead found by the Euclidean algorithm is less than a unit |
| Leads.SmallExcess | src/engine.rs:54-55 | a bucket whose rate is at most one part in 2^64 above exact, or whose excess does not add up to a unit by the last reading, is never a unit ahead |
| Leads.WholeRateExcess | src/engine.rs:54-55 | with whole units per nanosecond, no other bucket stays less than a unit ahead |
| Leads.LargeExcess | src/engine.rs:54-55 | a bucket whose excess has added up to one unit and one nanosecond's units by its last due reading is a unit ahead there |
| Leads.PeakLagIsReached | src/engine.rs:52-56 | the furthest the clock falls behind exact at any reading, found by the same algorithm on the mirrored staircase, is reached |
| Leads.WindowGainExactly | src/bucket.rs:60-63 | for any k >= 1 the clock gains less than k units on exact accrual between every two readings if and only if its furthest lead and furthest lag add up to less than k units |
| Leads.WindowUnitsCover | src/bucket.rs:60-63 | two units, or four where `PeakGain` is two or more, cover every window, saturated readings included |
| Leads.OneUnitAheadCounterexample | src/engine.rs:54-55 | a derived bucket and an unsaturated reading at which the clock is one unit or more ahead |
| Accounting.TokensGalois | src/engine.rs:303-315 | over every balance, debt included, `n` tokens are affordable exactly when `n` is at most the tokens shown |
| Accounting.AvailableIsGrantBoundary | src/engine.rs:444-461 | `acquire(n)` is allowed exactly when `n <= available`, in every state and regime |
| Accounting.PartialGrantIsAcquire | src/engine.rs:400-442 | `acquire_up_to(n)` takes `min(n, available)` and leaves the word an `acquire` of that amount would leave |
| Accounting.StaleReadingSeesLess | src/engine.rs:24-29 | an earlier reading, or a later word, never shows more tokens nor grants more |
| Accounting.StaleGrantExactly | src/bucket.rs:63-64 | a grant at a stale reading leaves no later a word than the same grant at a later reading, and the same word exactly when the clock has not moved or the bucket would not have overflowed |
| Accounting.StaleGrantLeavesMore | src/bucket.rs:63-64 | a bucket full at both readings grants its capacity at a stale one and again at a later one a burst on, where two requests at the later one get it once |
| Accounting.InitialBalance | src/engine.rs:217-247 | a new bucket shows its initial tokens, exactly when a unit is at most one token and never fewer otherwise |
| Accounting.RefundUndoesAcquire | src/engine.rs:533-558 | refunding a grant restores the balance at every later reading |
| Accounting.ResetFillsTheBucket | src/engine.rs:560-570 | after a reset exactly the requests within the capacity are granted, at its reading and every later one |
| Accounting.RetryHintIsExact | src/engine.rs:363-374 | after a denial hinting k ms, the same request on the unchanged word is granted m ms later exactly when m >= k |
| Accounting.RetryNeverIsNever | src/engine.rs:363-374 | a denial says `Duration::MAX` exactly when no reading whatever would grant the request |
| Accounting.NeverIsLongest | src/engine.rs:320-336 | every wait and finite hint is at most `u64::MAX` milliseconds, which is shorter than the duration that stands for never |
| Accounting.WaitIsPositive | src/engine.rs:320-336 | a wait for a target not yet reached is a positive whole number of milliseconds, and absent exactly when no reading reaches the target |
| Accounting.WaitIsExact | src/engine.rs:320-336 | waiting m ms reaches the target exactly when m is at least the wait |
| Accounting.TimeUntilAgreesWithAcquire | src/engine.rs:463-482 | `time_until` is zero exactly when `acquire` allows, and otherwise the wait it denies with |
| Accounting.ReserveAgreesWithTimeUntil | src/engine.rs:484-531 | `reserve` succeeds exactly when the wait of `time_until` is within its limit, and returns that wait |
| Accounting.ZeroWaitReserveIsAcquire | src/engine.rs:484-531 | a reservation that may not wait succeeds exactly when `acquire` would, and leaves the same word |
| Cores.LastWriteStands | src/engine.rs:380-396 | an access finds what the last of the other threads to write before it left |
| Cores.NoWriteNoChange | src/engine.rs:380-396 | and, when none wrote, what was there |
| Cores.Core.CallJoinsHistory | src/engine.rs:376-396 | if the other threads' writes are a gapless lawful history of commits, a call's write comes next in it, made on the last of them; a call that does not write leaves the word as they did |
| Cores.AtomicU64.CompareExchangeWeak | src/engine.rs:380-396 | succeeds exactly when the word is the expected one and no spurious failure is due; reports the word it saw |
| Cores.Core.constructor | src/engine.rs:218-247 | the engine is the derived one for its configuration and its word holds the initial tokens as of `now` |
| Cores.Core.Acquire | src/engine.rs:338-398 | under any finite interference the loop ends and is one atomic step on the word at its last access, two accesses when undisturbed |
| Cores.Core.AcquireUpTo | src/engine.rs:400-442 | the same for partial grants |
| Cores.Core.Available | src/engine.rs:444-461 | one load, and the balance of the word it saw |
| Cores.Core.TimeUntil | src/engine.rs:463-482 | one load, and the wait on the word it saw |
| Cores.Core.Reserve | src/engine.rs:484-531 | under any finite interference one atomic step that returns the wait it is charged for |
| Cores.Core.Refund | src/engine.rs:533-558 | under any finite interference one atomic, saturating step back |
| Cores.Core.Reset | src/engine.rs:560-570 | one swap that fills the bucket, whatever was there |
| Classics.StepRefines | src/engine.rs:11-22 | one operation on the word gives the classic bucket's result and keeps standing for it |
| Classics.SingleInstantRefinesClassic | src/engine.rs:9-29 | over every history with non-decreasing readings the single instant gives the decisions, waits, partial grants and balances of the classic `(tokens, last)` bucket |
| Protocol.CommitsAreSequential | src/engine.rs:376-396 | in every run, whatever its loads return, the successful writes form a gapless sequential history of the atomic operations |
| Protocol.ImmediateIgnoresWord | src/engine.rs:343-354 | requests answered without touching the word have an answer that does not depend on it |
| Protocol.OthersDependOnWord | src/engine.rs:343-442 | and every other request writes the word, or decides differently on some two words |
| OverGrant.ChargeMovesUp | src/engine.rs:355-363 | a charge moves the word up by its cost, from at least a burst below its reading, to no later than where it is covered |
| OverGrant.ReservationIsJustCovered | src/engine.rs:484-487 | a reservation is covered where its wait ends, and not a millisecond earlier |
| OverGrant.WindowNeverOverGrants | src/engine.rs:342-442 | in every interleaving and regime, the grants from commit i to commit j cost at most a burst plus the clock's advance between their readings |
| OverGrant.WindowNeverOverCommits | src/engine.rs:484-531 | the same with reservations, counted at the end of the last returned wait |
| OverGrant.RunNeverOverCommits | src/engine.rs:217-247 | from construction, the initial tokens take the place of the burst |
| OverGrant.TokensNeverOverGranted | docs/DESIGN.md:6-13 | end to end in tokens, any interleaving, stale and backward readings: less than capacity plus exact accrual between the readings plus two units of resolution |
| OverGrant.TokensNeverOverCommitted | src/bucket.rs:56-66 | the same with reservations counted at the end of their waits, and for every period |
| OverGrant.TokensNeverOverCommittedFromStart | tests/core_properties.rs:134-149 | from construction: less than the initial tokens plus exact accrual plus the resolution |
| OverGrant.CoarseTokensNeverOverCommitted | src/engine.rs:280-282 | above 4.3 tokens per nanosecond: less than capacity plus exact accrual plus three multi-token units |
| OverGrant.CoarseTokensNeverOverCommittedFromStart | src/engine.rs:280-282 | and from construction, the initial tokens take the place of the capacity |
| Contracts.UnitIsFine | src/engine.rs:41-52 | with units of at most one token, a unit accrues within two nanoseconds, unless the bucket takes more than 2^61 ns to fill, when it is at most 2^-29 of a token |
| Contracts.PublicContract | src/bucket.rs:56-66 | for every working bucket, in any interleaving, the tokens taken in a window of commits are less than the capacity plus exact accrual over the window and four nanoseconds more, or plus 2^-28 of a token when it takes more than 2^61 ns to fill; eight nanoseconds where the clock gains two units in some window, and 2^-27 where those units are 2^-29 of a token |
| Contracts.TimeWindowNeverOverCommits | src/bucket.rs:58-60 | over any window of time, the charges that read the clock and are covered within it cost at most a burst plus the clock's advance, in whatever order they committed |
| Contracts.PublicContractOverTime | docs/DESIGN.md:6-13 | and hand out tokens within the same contract |
| Contracts.TokenShareExactly | src/bucket.rs:60-63 | with units of 2^-29 of a token or finer, the clock gains less than 2^-28 of a token between every two readings if and only if its units are 2^-30 or finer or its furthest lead and lag add up to less than two units |
| Contracts.WindowsAreFilled | src/bucket.rs:58-60 | a bucket full at one reading grants its capacity there and, at a later reading, as many tokens as the clock's advance pays for, so the bound on windows is met |
| Contracts.ContractCounterexample | src/bucket.rs:60-63 | a derived bucket and a run from construction in which two grants exceed capacity plus exact accrual by 2^-28 of a token and by eight nanoseconds' accrual |
| Reports.ReportsAreGrants | src/engine.rs:376-396 | in every run completed calls never report more tokens than were committed, and exactly as many when none is about to return |
| Reports.ReportsNeverOverCommitted | src/bucket.rs:56-66 | from construction, the tokens callers have been told they may take are less than the initial tokens plus exact accrual plus the resolution |
| OverGrant.SaturatedWindowGrantsOneBurst | src/engine.rs:57-58 | once the readings of a window are past the end of the clock, all its grants together cost at most one burst, from any state |
| OverGrant.RefillIsNeverDiscarded | src/engine.rs:409-425 | the word moves by exactly what is charged plus what overflowed a full bucket, so polling costs nothing |
| OverGrant.ResetsAreBounded | src/engine.rs:560-570 | each reset that is not older than the grants before it adds at most one burst to the whole run |
| OverGrant.EmptyBucketNeverGrants | src/bucket.rs:25-35 | a bucket of capacity zero never charges anyone in any run |
| Histories.RecordsAreTheRun | src/engine.rs:342-570 | in every run, whatever its loads return, each recorded call was invoked with its operation and returned at the steps of the run it names, with no other call of its thread in between, each event is a step of its thread, and no invocation or return of the run is missing |
| Linearizability.EveryRunIsLinearizable | src/engine.rs:342-570 | every completed call, as the steps of the run invoked it, has the result and effect of its atomic version at a step of its own thread between its invocation and its return, in one sequential order ending in the current word, with no effect invented and no return missing |
| Linearizability.RealTimeOrderIsKept | src/engine.rs:342-570 | a call whose return is an earlier step of the run than another's invocation takes effect before it |
| Progress.AnyCallCompletes | src/engine.rs:342-570 | after any run, any thread outside a call can make any call, and on its own completes it with the result and the change of the atomic operation, whatever the others are doing |
| Progress.ReadsMayReturnAnything | src/engine.rs:358-359 | a thread about to read may see any value at all and goes on as its operation does on that value |
| Progress.SpuriousFailureRetries | src/engine.rs:390-396 | a spurious failure costs a step and nothing else, and does not count as a failure |
| Progress.FailuresAreBounded | src/engine.rs:358-397 | a thread's non-spurious failures are at most the word-changing writes by other threads |
| Progress.FailureMeansProgress | src/engine.rs:338-340 | from any point on, every failure after the first is paid for by another thread's operation taking effect |
| Progress.UndisturbedCallDecides | src/engine.rs:410-441 | left alone, a call decides within one read and one compare-and-swap from wherever it is, and a reset within one swap |
| Conservation.FrozenWrite | src/engine.rs:355-363 | at a frozen reading every write moves exactly the tokens it reports |
| Ledgers.HoldingsAlwaysAgree | src/engine.rs:342-570 | in every run, whatever its loads return, each thread's effects are what its completed calls reported plus what its decided call is about to |
| Conservation.TokensAreConserved | tests/core_properties.rs:188-209 | with the clock frozen, units of at most one token, and refunds by any thread of no more than all hold together, what is held plus what is available is the initial fill, at every instant by effects and at every quiescent one by returned calls |
| Conservation.OwnRefundsOweNothing | src/engine.rs:533-539 | when every thread refunds only what its own completed calls left it holding, no thread ever owes a token, at any readings |
| Conservation.OwnRefundsAreCovered | src/engine.rs:533-539 | and then all threads together refund no more than is held, as conservation asks |

## Left out

- The OS clock, `clock-lib`, and the forwarding methods of `Bucket` and `BucketCore`: a call's reading is an arbitrary `Duration`.
- The memory model beyond one location: one atomic word has a total modification order, and arbitrary load values cover relaxed staleness for the safety results.
- Cache alignment, struct layout, spin hints and the `portable-atomic` fallback.
- `metrics`, `serde`, `Debug`, the builder, error text, and the provided bodies of the `TokenBucket` trait: plumbing.
- Starvation freedom: one thread may lose for ever while others win, as in the code.
- Resets whose reading is older than a committed grant, and refunds of tokens never taken: the code does not bound them.
- Exact conservation with multi-token units, where costs round up and do not add; the unit and token bounds still hold there.
- TokensAreConserved: together, callers refund no more than completed calls left them holding, less the refunds under way, which is what the code asks of them.
- Contracts.PublicContract: in a bucket slow to fill with units of 2^-29 of a token whose clock gains two of them in some window, the share of a token is 2^-27 rather than the documented 2^-28, which the code breaks there.
- Contracts.TokenShareExactly: exact for the clock; that a clock which gains 2^-28 of a token also over-grants whole tokens is shown of windows that end on a whole token, not of every such bucket.
- Cores.Core.Acquire and the other loops: interference is a finite script, since under an endless one no compare-and-swap loop need end.
