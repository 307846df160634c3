/** Bucket configuration: the input domain of the engine. */
module Config {
  import opened Arithmetic
  import opened Durations

  datatype RawConfig = RawConfig(capacity: u32, refillAmount: u32, refillPeriod: Duration, initial: u32)

  /** No constructor leaves more initial tokens than the bucket can hold. */
  type BucketConfig = c: RawConfig | c.initial <= c.capacity
    witness RawConfig(0, 0, Duration(0, 0), 0)

  datatype BucketError = ZeroCapacity | ZeroRefillAmount | ZeroRefillPeriod

  datatype Validated = Ok(config: BucketConfig) | Err(error: BucketError)

  predicate Degenerate(capacity: u32, amount: u32, period: Duration) {
    capacity == 0 || amount == 0 || IsZero(period)
  }

  /** The unvalidated constructor: `initial` is clamped to the capacity. */
  function Raw(capacity: u32, amount: u32, period: Duration, initial: u32): BucketConfig {
    RawConfig(capacity, amount, period, if initial < capacity then initial else capacity)
  }

  /** The validated constructor: an error names the first zero field, and a
      success keeps every field but a too-large `initial`. */
  function New(capacity: u32, amount: u32, period: Duration, initial: u32): (r: Validated)
    ensures r.Ok? <==> !Degenerate(capacity, amount, period)
    ensures r.Ok? ==> r.config.initial == Min(initial, capacity)
    ensures r.Ok? ==> r.config.capacity == capacity
    ensures r.Ok? ==> r.config.refillAmount == amount && r.config.refillPeriod == period
    ensures r.Err? ==> (r.error.ZeroCapacity? <==> capacity == 0)
    ensures r.Err? && capacity != 0 ==> (r.error.ZeroRefillAmount? <==> amount == 0)
  {
    if capacity == 0 then Err(ZeroCapacity)
    else if amount == 0 then Err(ZeroRefillAmount)
    else if IsZero(period) then Err(ZeroRefillPeriod)
    else Ok(Raw(capacity, amount, period, initial))
  }

  /** The infallible constructors: a degenerate request collapses to a bucket of
      capacity zero, anything else is what `New` accepts. */
  function Tier1Config(capacity: u32, amount: u32, period: Duration, initial: u32): (c: BucketConfig)
    ensures Degenerate(capacity, amount, period) ==> c.capacity == c.refillAmount == c.initial == 0
    ensures Degenerate(capacity, amount, period) ==> AsNanos(c.refillPeriod) == NANOS_PER_SEC
    ensures !Degenerate(capacity, amount, period) ==> New(capacity, amount, period, initial) == Ok(c)
  {
    if capacity == 0 || amount == 0 || IsZero(period) then
      Raw(0, 0, Duration(1, 0), 0)
    else
      Raw(capacity, amount, period, initial)
  }
}
