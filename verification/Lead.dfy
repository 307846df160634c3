/** How far the bucket's clock can be ahead of exact accrual over its whole range,
    and exactly which buckets keep it below one unit at every reading.

    The lead at a reading `n` is `b * floor(c * n / 2^64) - a * n` parts of a unit,
    for four numbers fixed when the bucket is built. Its maximum over all readings
    is found by a Euclidean algorithm on `c` and `2^64`. */
module Leads {
  import opened Arithmetic
  import opened Durations
  import opened Scales
  import opened Engines
  import opened ClockBounds

  // --------------------------------------------- the highest point of a staircase

  /** A staircase of slope `b * c / w` less a line of slope `a`. */
  function Stair(a: int, b: nat, c: nat, r: nat, w: nat, n: nat): int
    requires 0 < w
  {
    b * ((c * n + r) / w) - a * n
  }

  /** Its highest value for `n` up to `last`: the highest points are the first ones
      of each step, and read from the last step backwards these form a staircase
      of steps `c` wide. */
  function Peak(last: nat, a: nat, b: nat, c: nat, r: nat, w: nat): int
    requires c < w && r < w
    decreases w
  {
    var steps := (c * last + r) / w;
    if c == 0 || steps <= 0 then 0
    else
      var back := r - steps * w;
      var slope := b - w / c * a;
      var rest := if slope <= 0 then Stair(slope, a, w % c, back % c, c, steps - 1)
                  else Peak(steps - 1, slope, a, w % c, back % c, c);
      Max(0, b * steps + a * (back / c) + rest)
  }

  lemma MirrorFloor(back: int, w: nat, c: nat, x: nat)
    requires 0 < c
    ensures (back + x * w) / c == back / c + w / c * x + (w % c * x + back % c) / c
  {
    var k, y := back / c + w / c * x, w % c * x + back % c;
    assert back == back / c * c + back % c;
    assert w == w / c * c + w % c;
    MirrorProduct(w, w / c, w % c, c, x);
    Shifted(k, y, c);
    assert k * c == back / c * c + w / c * x * c;
  }

  lemma MirrorProduct(w: int, q: int, m: int, c: int, x: int)
    requires w == q * c + m
    ensures x * w == q * x * c + m * x
  {
  }

  lemma Shifted(k: int, y: int, c: nat)
    requires 0 < c
    ensures (k * c + y) / c == k + y / c
  {
    FloorGalois(k * c + y, c, k + y / c);
    FloorGalois(k * c + y, c, k + y / c + 1);
    FloorGalois(y, c, y / c);
    FloorGalois(y, c, y / c + 1);
    assert (k + y / c) * c == k * c + y / c * c;
    assert (k + y / c + 1) * c == k * c + (y / c + 1) * c;
  }

  /** The value at the first point of step `q`. */
  function Level(a: int, b: nat, c: nat, r: nat, w: nat, q: int): int
    requires 0 < c
  {
    b * q + a * ((r - q * w) / c)
  }

  /** Counted from the last step backwards, the levels are a staircase again. */
  lemma LevelsMirror(a: nat, b: nat, c: nat, r: nat, w: nat, steps: nat, x: nat)
    requires 0 < c
    ensures var back := r - steps * w;
            Level(a, b, c, r, w, steps - x) ==
            b * steps + a * (back / c) + Stair(b - w / c * a, a, w % c, back % c, c, x)
  {
    var back := r - steps * w;
    assert r - (steps - x) * w == back + x * w;
    MirrorFloor(back, w, c, x);
    MirrorSum(a, b, back / c, w / c, (w % c * x + back % c) / c, steps, x);
  }

  lemma MirrorSum(a: int, b: int, i: int, k: int, f: int, steps: int, x: int)
    ensures b * (steps - x) + a * (i + k * x + f) == b * steps + a * i + (a * f - (b - k * a) * x)
  {
    assert a * (i + k * x + f) == a * i + a * (k * x) + a * f;
    assert (b - k * a) * x == b * x - a * (k * x);
  }

  lemma Before(y: int, c: nat, n: int)
    requires 0 < c
    ensures -n <= y / c <==> -(c * n) <= y
  {
    FloorGalois(y, c, -n);
    assert -n * c == -(c * n);
  }

  lemma Weighed(a: nat, n: int, f: int)
    requires -n <= f
    ensures -(a * n) <= a * f
  {
    assert 0 <= a * (f + n) == a * f + a * n;
  }

  /** No point is above the level of its step... */
  lemma BelowItsLevel(a: nat, b: nat, c: nat, r: nat, w: nat, n: nat)
    requires 0 < c && 0 < w
    ensures Stair(a, b, c, r, w, n) <= Level(a, b, c, r, w, (c * n + r) / w)
  {
    var q := (c * n + r) / w;
    FloorBounds(c * n + r, w);
    Before(r - q * w, c, n);
    Weighed(a, n, (r - q * w) / c);
  }

  /** ...and the first point of a step reaches it. */
  lemma LevelIsReached(last: nat, a: nat, b: nat, c: nat, r: nat, w: nat, q: nat) returns (n: nat)
    requires 0 < c && r < w
    requires 1 <= q <= (c * last + r) / w
    ensures n <= last && Level(a, b, c, r, w, q) <= Stair(a, b, c, r, w, n)
  {
    var back := r - q * w;
    FloorGalois(c * last + r, w, q);
    ProductMonotonic(1, q, w);
    Before(back, c, last);
    Before(back, c, -1);
    n := -(back / c);
    Before(back, c, n);
    FloorGalois(c * n + r, w, q);
    ProductMonotonic(q, (c * n + r) / w, b);
    assert a * (back / c) == -(a * n);
  }

  /** With no line to hold it down the staircase climbs. */
  lemma Climbs(a: int, b: nat, c: nat, r: nat, w: nat, n: nat, k: nat)
    requires a <= 0 && 0 < w && n <= k
    ensures Stair(a, b, c, r, w, n) <= Stair(a, b, c, r, w, k)
  {
    StepsClimb(c, r, w, n, k);
    ProductMonotonic((c * n + r) / w, (c * k + r) / w, b);
    ProductMonotonic(n, k, -a);
    assert n * -a == -(a * n) && k * -a == -(a * k);
  }

  lemma StepsClimb(c: nat, r: nat, w: nat, n: nat, k: nat)
    requires 0 < w && n <= k
    ensures 0 <= (c * n + r) / w <= (c * k + r) / w
  {
    ProductMonotonic(n, k, c);
    ProductMonotonic(0, n, c);
    FloorGalois(c * n + r, w, 0);
    FloorGalois(c * n + r, w, (c * n + r) / w);
    FloorGalois(c * k + r, w, (c * n + r) / w);
  }

  lemma FirstStep(a: nat, b: nat, c: nat, r: nat, w: nat, n: nat)
    requires r < w && ((c * n + r) / w <= 0 || c == 0)
    ensures Stair(a, b, c, r, w, n) <= 0
    ensures n == 0 ==> Stair(a, b, c, r, w, n) == 0
  {
    StepsClimb(c, r, w, 0, n);
    FloorGalois(r, w, 1);
    ProductMonotonic(0, n, a);
    assert c == 0 ==> c * n + r == r;
    assert (c * n + r) / w == 0;
  }

  /** `Peak` is above every point... */
  lemma {:induction false} PeakIsAbove(last: nat, a: nat, b: nat, c: nat, r: nat, w: nat, n: nat)
    requires c < w && r < w && n <= last
    ensures Stair(a, b, c, r, w, n) <= Peak(last, a, b, c, r, w)
    decreases w
  {
    var steps, q := (c * last + r) / w, (c * n + r) / w;
    StepsClimb(c, r, w, n, last);
    if c == 0 || q <= 0 {
      FirstStep(a, b, c, r, w, n);
    } else {
      var back, slope := r - steps * w, b - w / c * a;
      BelowItsLevel(a, b, c, r, w, n);
      LevelsMirror(a, b, c, r, w, steps, steps - q);
      if slope <= 0 {
        Climbs(slope, a, w % c, back % c, c, steps - q, steps - 1);
      } else {
        PeakIsAbove(steps - 1, slope, a, w % c, back % c, c, steps - q);
      }
    }
  }

  /** ...and one point reaches it. */
  lemma {:induction false} PeakIsReached(last: nat, a: nat, b: nat, c: nat, r: nat, w: nat) returns (n: nat)
    requires c < w && r < w
    ensures n <= last && Peak(last, a, b, c, r, w) <= Stair(a, b, c, r, w, n)
    decreases w
  {
    var steps := (c * last + r) / w;
    n := 0;
    StepsClimb(c, r, w, 0, last);
    FloorGalois(r, w, 1);
    FirstStep(a, b, c, r, w, 0);
    if c != 0 && 0 < steps && 0 < Peak(last, a, b, c, r, w) {
      var back, slope := r - steps * w, b - w / c * a;
      var x: nat := steps - 1;
      if 0 < slope {
        x := PeakIsReached(steps - 1, slope, a, w % c, back % c, c);
      }
      LevelsMirror(a, b, c, r, w, steps, x);
      n := LevelIsReached(last, a, b, c, r, w, steps - x);
    }
  }

  // --------------------------------------------------------- the bucket's own lead

  /** The last reading before the clock saturates. */
  function LastReading(e: Engine): u64 {
    CeilGalois(CLOCK_RANGE * TWO_64, Rate(e.scale), 0);
    Min(MAX_U64, DivCeil(CLOCK_RANGE * TWO_64, Rate(e.scale)) - 1)
  }

  lemma LastReadingIsLast(e: Engine, ns: u64)
    ensures !Saturated(e, ns) <==> ns <= LastReading(e)
  {
    AccruedIsWideFloor(e, ns);
    FloorGalois(ns * Rate(e.scale), TWO_64, CLOCK_RANGE);
    CeilGalois(CLOCK_RANGE * TWO_64, Rate(e.scale), ns);
  }

  /** How far the clock is ahead of exact at a reading, in parts of `RateDen`. */
  function Lead(e: Engine, ns: u64): int {
    (UnitsAt(e, ns) - ORIGIN) * RateDen(e) - RateNum(e) * ns
  }

  /** The source's claim about one reading. */
  predicate LessThanOneAhead(e: Engine, ns: u64) {
    (UnitsAt(e, ns) - ORIGIN) * RateDen(e) < RateNum(e) * ns + RateDen(e)
  }

  /** Exact accrual less the rate's whole units, per nanosecond, in parts of `RateDen`. */
  function Slope(e: Engine): int {
    RateNum(e) - e.scale.rateInt * RateDen(e)
  }

  /** The furthest the clock is ahead at any reading, in parts of `RateDen`. */
  function PeakLead(e: Engine): int {
    if Slope(e) <= 0 then Stair(Slope(e), RateDen(e), e.scale.rateFrac, 0, TWO_64, LastReading(e))
    else Peak(LastReading(e), Slope(e), RateDen(e), e.scale.rateFrac, 0, TWO_64)
  }

  lemma LeadIsStair(e: Engine, ns: u64)
    requires !Saturated(e, ns)
    ensures Lead(e, ns) ==
            Stair(Slope(e), RateDen(e), e.scale.rateFrac, 0, TWO_64, ns)
  {
    assert UnitsAt(e, ns) - ORIGIN == Accrued(e, ns) == ns * e.scale.rateFrac / TWO_64 + ns * e.scale.rateInt;
    LeadSum(ns * e.scale.rateFrac / TWO_64, ns, e.scale.rateInt, RateDen(e), RateNum(e));
    assert e.scale.rateFrac * ns + 0 == ns * e.scale.rateFrac;
  }

  lemma LeadSum(f: int, ns: int, whole: int, d: int, n: int)
    ensures (f + ns * whole) * d - n * ns == d * f - (n - whole * d) * ns
  {
    assert (f + ns * whole) * d == f * d + ns * whole * d;
    assert (n - whole * d) * ns == n * ns - ns * whole * d;
  }

  /** Exactly which buckets are less than one unit ahead of exact over their whole
      range: those whose furthest lead, which the Euclidean algorithm finds from
      the configuration and its derived scale, is less than a unit. */
  lemma OneUnitAheadExactly(e: Engine)
    ensures (forall ns: u64 :: !Saturated(e, ns) ==> LessThanOneAhead(e, ns)) <==> PeakLead(e) < RateDen(e)
  {
    if PeakLead(e) < RateDen(e) {
      forall ns: u64 | !Saturated(e, ns)
        ensures LessThanOneAhead(e, ns)
      {
        LeadIsAtMostPeak(e, ns);
      }
    } else {
      var ns := PeakLeadIsReached(e);
      assert !LessThanOneAhead(e, ns);
    }
  }

  lemma LeadIsAtMostPeak(e: Engine, ns: u64)
    requires !Saturated(e, ns)
    ensures Lead(e, ns) <= PeakLead(e)
  {
    LeadIsStair(e, ns);
    LastReadingIsLast(e, ns);
    if Slope(e) <= 0 {
      Climbs(Slope(e), RateDen(e), e.scale.rateFrac, 0, TWO_64, ns, LastReading(e));
    } else {
      PeakIsAbove(LastReading(e), Slope(e), RateDen(e), e.scale.rateFrac, 0, TWO_64, ns);
    }
  }

  lemma PeakLeadIsReached(e: Engine) returns (ns: u64)
    ensures !Saturated(e, ns)
    ensures PeakLead(e) <= Lead(e, ns)
  {
    ns := LastReading(e);
    if 0 < Slope(e) {
      ns := PeakIsReached(LastReading(e), Slope(e), RateDen(e), e.scale.rateFrac, 0, TWO_64);
    }
    LastReadingIsLast(e, ns);
    LeadIsStair(e, ns);
  }

  // --------------------------------------------------- from any reading to another

  lemma NegatedFloor(y: int, w: nat)
    requires 0 < w
    ensures -(y / w) == (w - 1 - y) / w
  {
    FloorGalois(y, w, y / w);
    FloorGalois(y, w, y / w + 1);
    FloorGalois(w - 1 - y, w, -(y / w));
    FloorGalois(w - 1 - y, w, -(y / w) + 1);
    assert -(y / w) * w == -(y / w * w) && (y / w + 1) * w == y / w * w + w;
    assert (-(y / w) + 1) * w == -(y / w * w) + w;
  }

  /** Seen from its far end and upside down, a staircase is a staircase. */
  lemma StairMirror(last: nat, a: int, b: nat, c: nat, w: nat, x: nat)
    requires 0 < w && x <= last
    ensures var back := w - 1 - c * last;
            -Stair(a, b, c, 0, w, last - x) == a * last + b * (back / w) + Stair(a, b, c, back % w, w, x)
  {
    var back := w - 1 - c * last;
    assert c * (last - x) == c * last - c * x;
    StepsMirror(c * (last - x), back, c * x, w);
    LineMirror(a, b, back / w, (c * x + back % w) / w, (c * (last - x)) / w, last, x);
  }

  lemma StepsMirror(y: int, back: int, rise: int, w: nat)
    requires 0 < w && w - 1 - y == back + rise
    ensures -(y / w) == back / w + (rise + back % w) / w
  {
    NegatedFloor(y, w);
    assert back == back / w * w + back % w;
    Shifted(back / w, rise + back % w, w);
  }

  lemma LineMirror(a: int, b: int, i: int, f: int, q: int, last: int, x: int)
    requires -q == i + f
    ensures -(b * q - a * (last - x)) == a * last + b * i + (b * f - a * x)
  {
    assert b * q == -(b * (i + f)) == -(b * i) - b * f;
    assert a * (last - x) == a * last - a * x;
  }

  /** The furthest the clock is behind exact at any reading, in parts of `RateDen`. */
  function PeakLag(e: Engine): int {
    if Slope(e) <= 0 then 0
    else
      var back := TWO_64 - 1 - e.scale.rateFrac * LastReading(e);
      Slope(e) * LastReading(e) + RateDen(e) * (back / TWO_64)
      + Peak(LastReading(e), Slope(e), RateDen(e), e.scale.rateFrac, back % TWO_64, TWO_64)
  }

  lemma LagIsAtMostPeak(e: Engine, ns: u64)
    requires !Saturated(e, ns)
    ensures -Lead(e, ns) <= PeakLag(e)
  {
    LeadIsStair(e, ns);
    LastReadingIsLast(e, ns);
    var last, back := LastReading(e), TWO_64 - 1 - e.scale.rateFrac * LastReading(e);
    if Slope(e) <= 0 {
      Climbs(Slope(e), RateDen(e), e.scale.rateFrac, 0, TWO_64, 0, ns);
    } else {
      StairMirror(last, Slope(e), RateDen(e), e.scale.rateFrac, TWO_64, last - ns);
      PeakIsAbove(last, Slope(e), RateDen(e), e.scale.rateFrac, back % TWO_64, TWO_64, last - ns);
    }
  }

  lemma PeakLagIsReached(e: Engine) returns (ns: u64)
    ensures !Saturated(e, ns)
    ensures PeakLag(e) <= -Lead(e, ns)
  {
    var last, back := LastReading(e), TWO_64 - 1 - e.scale.rateFrac * LastReading(e);
    ns := 0;
    if 0 < Slope(e) {
      var x := PeakIsReached(last, Slope(e), RateDen(e), e.scale.rateFrac, back % TWO_64, TWO_64);
      StairMirror(last, Slope(e), RateDen(e), e.scale.rateFrac, TWO_64, x);
      ns := last - x;
    }
    LastReadingIsLast(e, ns);
    LeadIsStair(e, ns);
  }

  /** From `a` to `b` the clock gains less than `k` units on exact accrual. */
  predicate GainsLess(e: Engine, k: nat, a: u64, b: u64) {
    (UnitsAt(e, b) - UnitsAt(e, a)) * RateDen(e) < RateNum(e) * (b - a) + k * RateDen(e)
  }

  /** The furthest the clock gains between any two readings, in parts of `RateDen`:
      its furthest lead after its furthest lag. */
  function PeakGain(e: Engine): int {
    PeakLead(e) + PeakLag(e)
  }

  lemma GainIsLeads(e: Engine, k: nat, a: u64, b: u64)
    ensures GainsLess(e, k, a, b) <==> Lead(e, b) - Lead(e, a) < k * RateDen(e)
  {
    GainSum(UnitsAt(e, a) - ORIGIN, UnitsAt(e, b) - ORIGIN, RateDen(e), RateNum(e), a, b);
  }

  lemma GainSum(u: int, v: int, d: int, n: int, a: int, b: int)
    ensures (v - u) * d - n * (b - a) == (v * d - n * b) - (u * d - n * a)
  {
  }

  /** Exactly which buckets gain less than `k` units over every window of readings:
      those whose lead and lag together are less. It does not matter which of the
      two comes first: running backwards the clock gains less than a unit. */
  lemma WindowGainExactly(e: Engine, k: nat)
    requires Working(e) && Derived(e) && 0 < k
    ensures (forall a: u64, b: u64 :: a <= b && !Saturated(e, b) ==> GainsLess(e, k, a, b)) <==>
            PeakGain(e) < k * RateDen(e)
  {
    if PeakGain(e) < k * RateDen(e) {
      forall a: u64, b: u64 | a <= b && !Saturated(e, b)
        ensures GainsLess(e, k, a, b)
      {
        GainIsAtMostPeak(e, k, a, b);
      }
    } else {
      var a, b := PeakGainIsReached(e, k);
      assert !GainsLess(e, k, a, b);
    }
  }

  lemma GainIsAtMostPeak(e: Engine, k: nat, a: u64, b: u64)
    requires a <= b && !Saturated(e, b) && PeakGain(e) < k * RateDen(e)
    ensures GainsLess(e, k, a, b)
  {
    LastReadingIsLast(e, a);
    LastReadingIsLast(e, b);
    LagIsAtMostPeak(e, a);
    LeadIsAtMostPeak(e, b);
    GainIsLeads(e, k, a, b);
  }

  lemma PeakGainIsReached(e: Engine, k: nat) returns (a: u64, b: u64)
    requires Working(e) && Derived(e) && 0 < k && k * RateDen(e) <= PeakGain(e)
    ensures a <= b && !Saturated(e, b) && !GainsLess(e, k, a, b)
  {
    a := PeakLagIsReached(e);
    b := PeakLeadIsReached(e);
    if b < a {
      GainsLessBackwards(e, a, b);
      ProductMonotonic(1, k, RateDen(e));
    }
    GainIsLeads(e, k, a, b);
  }

  lemma GainsLessBackwards(e: Engine, a: u64, b: u64)
    requires Working(e) && Derived(e) && b < a && !Saturated(e, a)
    ensures Lead(e, b) - Lead(e, a) < RateDen(e)
  {
    ClockWindow(e, b, a);
    NotSlower(UnitsAt(e, b) - ORIGIN, UnitsAt(e, a) - ORIGIN, RateDen(e), RateNum(e), b, a);
  }

  /** What is never slower than exact, rounded down, loses less than a unit. */
  lemma NotSlower(u: int, v: int, d: nat, n: nat, a: int, b: int)
    requires 0 < d && a <= b
    requires n * (b - a) / d <= v - u
    ensures (u * d - n * a) - (v * d - n * b) < d
  {
    FloorGalois(n * (b - a), d, v - u + 1);
    assert (v - u + 1) * d == (v - u) * d + d;
    GainSum(u, v, d, n, a, b);
  }

  /** Units the clock can gain in any window, saturated readings included: two, or
      four where it gains two in some window. */
  function WindowUnits(e: Engine): nat {
    if PeakGain(e) < 2 * RateDen(e) then 2 else 4
  }

  lemma WindowUnitsCover(e: Engine, a: u64, b: u64)
    requires Working(e) && Derived(e) && a <= b
    ensures GainsLess(e, WindowUnits(e), a, b)
  {
    if Ahead(e) == 1 {
      ClockWindow(e, a, b);
      ProductMonotonic(2, WindowUnits(e), RateDen(e));
    } else if WindowUnits(e) == 4 {
      ClockWindow(e, a, b);
    } else if Saturated(e, b) {
      SlowWhenTruncated(e);
      SaturatedGain(e, a, b);
    } else {
      GainIsAtMostPeak(e, 2, a, b);
    }
  }

  /** Only a truncated period puts the rate more than one part above exact. */
  lemma SlowWhenTruncated(e: Engine)
    requires Working(e) && Derived(e) && Ahead(e) != 1
    ensures Rate(e.scale) <= TWO_64
  {
    RateAccuracy(e);
    WorkingFacts(e);
    if Period(e) <= Amount(e) {
      ShortPeriodIsLossless(e);
    }
  }

  /** With at most one unit per nanosecond the clock stops at its last unsaturated
      value, so saturated readings add nothing to a window. */
  lemma SaturatedGain(e: Engine, a: u64, b: u64)
    requires Working(e) && Derived(e) && Rate(e.scale) <= TWO_64
    requires a <= b && Saturated(e, b) && PeakGain(e) < 2 * RateDen(e)
    ensures GainsLess(e, 2, a, b)
  {
    var last := LastReading(e);
    LastReadingIsLast(e, last);
    LastReadingIsLast(e, b);
    LastReadingIsFull(e, b);
    if a <= last {
      GainIsAtMostPeak(e, 2, a, last);
      LongerWindow(UnitsAt(e, b) - UnitsAt(e, a), RateDen(e), RateNum(e), last - a, b - a);
    } else {
      ClockIsMonotonic(e, last, a);
      LongerWindow(0, RateDen(e), RateNum(e), 0, b - a);
    }
  }

  lemma LongerWindow(span: int, d: nat, n: nat, t: nat, t': nat)
    requires t <= t' && span * d < n * t + 2 * d
    ensures span * d < n * t' + 2 * d
  {
    ProductMonotonic(t, t', n);
  }

  lemma LastReadingIsFull(e: Engine, b: u64)
    requires Rate(e.scale) <= TWO_64 && Saturated(e, b)
    ensures UnitsAt(e, LastReading(e)) == UnitsAt(e, b) == MAX_U64
  {
    var last := LastReading(e);
    LastReadingIsLast(e, b);
    LastReadingIsLast(e, last + 1);
    LastReadingIsLast(e, last);
    AccruedIsWideFloor(e, last);
    AccruedIsWideFloor(e, last + 1);
    OneStep(last, Rate(e.scale));
  }

  lemma OneStep(n: nat, r: nat)
    requires r <= TWO_64
    ensures (n + 1) * r / TWO_64 <= n * r / TWO_64 + 1
  {
    FloorBounds(n * r, TWO_64);
    assert (n + 1) * r == n * r + r;
    FloorGalois((n + 1) * r, TWO_64, n * r / TWO_64 + 2);
  }

  /** Two units cover every window of a bucket whose rate is at most one part in
      2^64 above exact, as it is for every period below 2^64 ns. */
  lemma AccurateRateGainsLess(e: Engine)
    requires Working(e) && Derived(e) && Ahead(e) == 1
    ensures WindowUnits(e) == 2
  {
    forall a: u64, b: u64 | a <= b && !Saturated(e, b)
      ensures GainsLess(e, 2, a, b)
    {
      ClockWindow(e, a, b);
    }
    WindowGainExactly(e, 2);
  }

  // --------------------------------------------------------------- in closed form

  /** The lead at one reading: what the excess has added up to, less the fraction
      the floor drops. */
  lemma AheadByExcess(e: Engine, ns: u64)
    requires !Saturated(e, ns)
    ensures LessThanOneAhead(e, ns) <==>
            ns * Excess(e) < (TWO_64 + ns * Rate(e.scale) % TWO_64) * RateDen(e)
  {
    AccruedIsWideFloor(e, ns);
    AheadArithmetic(ns, ns * Rate(e.scale) / TWO_64, ns * Rate(e.scale) % TWO_64,
                    Rate(e.scale), RateNum(e), RateDen(e));
  }

  lemma AheadArithmetic(t: nat, q: int, x: int, r: nat, n: nat, d: nat)
    requires t * r == q * TWO_64 + x
    ensures q * d < n * t + d <==> t * (r * d - n * TWO_64) < (TWO_64 + x) * d
  {
    Associate(t, r, d);
    assert (q * TWO_64 + x) * d == q * d * TWO_64 + x * d;
    assert t * (r * d - n * TWO_64) == t * (r * d) - n * t * TWO_64;
    CancelFactor(q * d, n * t + d, TWO_64);
    assert (TWO_64 + x) * d == TWO_64 * d + x * d;
  }

  predicate ExcessStaysSmall(e: Engine) {
    LastReading(e) * Excess(e) < TWO_64 * RateDen(e)
  }

  /** A bucket whose excess does not add up to a unit by the last reading is never
      a unit ahead; in particular, one whose rate is at most one part in 2^64 above
      exact. */
  lemma SmallExcess(e: Engine)
    requires Working(e) && Derived(e)
    ensures Excess(e) <= RateDen(e) ==> ExcessStaysSmall(e)
    ensures ExcessStaysSmall(e) ==> forall ns: u64 :: !Saturated(e, ns) ==> LessThanOneAhead(e, ns)
  {
    RateAccuracy(e);
    if Excess(e) <= RateDen(e) {
      ExcessWithinRange(LastReading(e), Excess(e), RateDen(e));
    }
    if ExcessStaysSmall(e) {
      forall ns: u64 | !Saturated(e, ns)
        ensures LessThanOneAhead(e, ns)
      {
        LastReadingIsLast(e, ns);
        AheadByExcess(e, ns);
        ExcessGrows(ns, LastReading(e), Excess(e), ns * Rate(e.scale) % TWO_64, RateDen(e));
      }
    }
  }

  /** With a whole number of units per nanosecond, where the floor drops nothing,
      no other bucket is. */
  lemma WholeRateExcess(e: Engine)
    requires e.scale.rateFrac == 0
    requires forall ns: u64 :: !Saturated(e, ns) ==> LessThanOneAhead(e, ns)
    ensures ExcessStaysSmall(e)
  {
    var last := LastReading(e);
    LastReadingIsLast(e, last);
    AheadByExcess(e, last);
    NothingDropped(last, e.scale.rateInt);
  }

  lemma ExcessWithinRange(last: nat, x: int, d: nat)
    requires last < TWO_64 && 0 < d && x <= d
    ensures last * x < TWO_64 * d
  {
    ProductMonotonic(x, d, last);
    CancelFactor(last, TWO_64, d);
  }

  lemma ExcessGrows(ns: nat, last: nat, x: nat, dropped: nat, d: nat)
    requires ns <= last && last * x < TWO_64 * d
    ensures ns * x < (TWO_64 + dropped) * d
  {
    ProductMonotonic(ns, last, x);
    ProductMonotonic(TWO_64, TWO_64 + dropped, d);
  }

  lemma NothingDropped(ns: nat, whole: nat)
    ensures ns * (whole * TWO_64) % TWO_64 == 0
  {
    Associate(ns, whole, TWO_64);
    Shifted(ns * whole, 0, TWO_64);
  }

  /** The reading at which the last unit before saturation falls due. */
  function LastDue(e: Engine): u64 {
    var due := DueNanos(e, UnitsAt(e, LastReading(e)));
    ClockGalois(e, UnitsAt(e, LastReading(e)), LastReading(e));
    due
  }

  /** And a bucket whose excess has added up to a unit, and one nanosecond's units
      more, by the time its last unit falls due is a unit ahead there. */
  lemma LargeExcess(e: Engine)
    requires (TWO_64 + Rate(e.scale)) * RateDen(e) <= LastDue(e) * Excess(e)
    ensures !Saturated(e, LastDue(e)) && !LessThanOneAhead(e, LastDue(e))
  {
    var due, target := LastDue(e), UnitsAt(e, LastReading(e));
    ClockGalois(e, target, LastReading(e));
    ClockGalois(e, target, due);
    ClockIsMonotonic(e, due, LastReading(e));
    LastReadingIsLast(e, due);
    AccruedIsWideFloor(e, due);
    JustDue(due, target - ORIGIN, Rate(e.scale));
    AheadByExcess(e, due);
    ProductMonotonic(TWO_64 + due * Rate(e.scale) % TWO_64, TWO_64 + Rate(e.scale), RateDen(e));
  }

  lemma JustDue(due: nat, q: nat, r: nat)
    requires 0 < r && due == DivCeil(q * TWO_64, r)
    requires q == due * r / TWO_64
    ensures due * r % TWO_64 <= r
  {
    if 0 < due {
      assert (due - 1) * r == due * r - r;
    }
  }

  lemma ExactQuotient(b: nat, w: nat)
    requires 0 < w
    ensures b * w / w == b
  {
    Shifted(b, 0, w);
  }

  /** The claim that the clock is always less than one unit ahead of exact is
      false too: with 32 tokens every 2^65 + 3 ns into a bucket of one, the last
      reading before saturation is a unit or more ahead. */
  lemma OneUnitAheadCounterexample(e: Engine)
    requires e.config.capacity == 1 && e.config.refillAmount == 32 && AsNanos(e.config.refillPeriod) == 2 * TWO_64 + 3
    requires e.scale == Scale(1, 0, 60)
    ensures Derived(e)
    ensures !Saturated(e, CLOCK_RANGE - 1)
    ensures !LessThanOneAhead(e, CLOCK_RANGE - 1)
  {
    CounterexampleScale(e);
    AccruedIsWideFloor(e, CLOCK_RANGE - 1);
    ExactQuotient(CLOCK_RANGE - 1, TWO_64);
  }

  lemma CounterexampleScale(e: Engine)
    requires e.config.capacity == 1 && e.config.refillAmount == 32 && AsNanos(e.config.refillPeriod) == 2 * TWO_64 + 3
    requires e.scale == Scale(1, 0, 60)
    ensures Derived(e)
    ensures RateNum(e) == 2 * TWO_64
  {
    Pow2Of64();
    assert Pow2(5) == 32 && Pow2(2) == 4;
    assert Pow2(65) == 2 * Pow2(64);
    LongPeriodScale(5, 3);
    Pow2Add(5, 60);
  }
}
