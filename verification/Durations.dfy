/** `core::time::Duration`: whole seconds and a sub-second part, and the
    readings the engine derives from it. */
module Durations {
  import opened Arithmetic

  const NANOS_PER_SEC: int := 1_000_000_000
  const NANOS_PER_MILLI: int := 1_000_000

  type Subsec = x: int | 0 <= x < NANOS_PER_SEC

  datatype Duration = Duration(secs: u64, nanos: Subsec)

  datatype Option<+T> = None | Some(value: T)

  const ZERO: Duration := Duration(0, 0)
  const MAX: Duration := Duration(MAX_U64, 999_999_999)

  function AsNanos(d: Duration): nat {
    d.secs * NANOS_PER_SEC + d.nanos
  }

  predicate IsZero(d: Duration) {
    d.secs == 0 && d.nanos == 0
  }

  /** `Duration`'s own order: seconds first. */
  predicate AtMost(a: Duration, b: Duration) {
    a.secs < b.secs || (a.secs == b.secs && a.nanos <= b.nanos)
  }

  /** It is the order of the lengths in nanoseconds, which determine the duration. */
  lemma NanosOrder(a: Duration, b: Duration)
    ensures AtMost(a, b) <==> AsNanos(a) <= AsNanos(b)
    ensures a == b <==> AsNanos(a) == AsNanos(b)
  {
    if a.secs < b.secs {
      assert AsNanos(a) < AsNanos(b);
    } else if b.secs < a.secs {
      assert AsNanos(b) < AsNanos(a);
    }
  }

  /** `MAX` is the longest duration, and `ZERO` the shortest. */
  lemma MaxIsLongest(d: Duration)
    ensures AtMost(d, MAX) && AtMost(ZERO, d)
    ensures d != MAX <==> AsNanos(d) < AsNanos(MAX)
    ensures AsNanos(ZERO) == 0
  {
    NanosOrder(d, MAX);
    NanosOrder(ZERO, d);
  }

  lemma ZeroNanos(d: Duration)
    ensures IsZero(d) <==> AsNanos(d) == 0
  {
  }

  function FromMillis(ms: u64): (d: Duration)
    ensures AsNanos(d) == ms * NANOS_PER_MILLI
    ensures d != MAX
  {
    Duration(ms / 1000, (ms % 1000) * NANOS_PER_MILLI)
  }

  /** A wait the engine can report: a positive whole number of milliseconds. */
  ghost predicate PositiveMillis(d: Duration) {
    exists ms: u64 :: 0 < ms && d == FromMillis(ms)
  }

  lemma PositiveMillisIsPositive(d: Duration)
    requires PositiveMillis(d)
    ensures d != ZERO && d != MAX && 0 < AsNanos(d)
  {
  }

  /** The engine's reading of a duration: its nanoseconds, saturating in two
      steps as the source does, which is one saturation of the exact value. */
  function DurationNanos(d: Duration): (n: u64)
    ensures n == Min(AsNanos(d), MAX_U64)
  {
    var whole: u64 := if d.secs * NANOS_PER_SEC <= MAX_U64 then d.secs * NANOS_PER_SEC else MAX_U64;
    SaturatingAdd(whole, d.nanos)
  }

  /** `Monotonic::saturating_duration_since`. */
  function ElapsedAt(createdAt: Duration, now: Duration): Duration {
    if AtMost(now, createdAt) then
      ZERO
    else if createdAt.nanos <= now.nanos then
      Duration(now.secs - createdAt.secs, now.nanos - createdAt.nanos)
    else
      Duration(now.secs - createdAt.secs - 1, now.nanos + NANOS_PER_SEC - createdAt.nanos)
  }

  /** Readings from before the bucket was built count as the instant it was built. */
  lemma ElapsedIsClampedDifference(createdAt: Duration, now: Duration)
    ensures AsNanos(ElapsedAt(createdAt, now)) == Max(0, AsNanos(now) - AsNanos(createdAt))
  {
    NanosOrder(now, createdAt);
    if AtMost(now, createdAt) {
      assert AsNanos(ZERO) == 0;
    }
  }
}
