/** The slow-success baseline: an exponentially weighted mean of clamped durations.
    Go's float64 is taken as `real`. */
module Baseline {
  import Mean

  const MIN_BASELINE_NS: int := 1_000_000
  const MAX_BASELINE_NS: int := 3_600_000_000_000
  const EWMA_ALPHA: real := 0.05
  const SLOW_MULTIPLIER: real := 3.0

  function Clamp64(v: int, lo: int, hi: int): int {
    if v < lo then lo else if v > hi then hi else v
  }

  function Clamped(durationNs: int): int {
    Clamp64(durationNs, MIN_BASELINE_NS, MAX_BASELINE_NS)
  }

  /** Go's float-to-integer conversion: towards zero. */
  function Trunc(x: real): int {
    if x >= 0.0 then x.Floor else -((-x).Floor)
  }

  /** The baseline once a success of duration `d` has been folded in. */
  function NextBaseline(ewma: real, d: int): real {
    if ewma <= 0.0 then Clamped(d) as real
    else ewma + EWMA_ALPHA * (Clamped(d) as real - ewma)
  }

  predicate IsSlow(ewma: real, d: int) {
    d > Trunc(NextBaseline(ewma, d) * SLOW_MULTIPLIER)
  }

  ghost function BaselineAfter(durations: seq<int>): real {
    if durations == [] then 0.0
    else NextBaseline(BaselineAfter(durations[..|durations| - 1]), durations[|durations| - 1])
  }

  lemma ConvexStep(p: real, c: real, lo: real, hi: real)
    requires lo <= p <= hi && lo <= c <= hi
    ensures lo <= p + EWMA_ALPHA * (c - p) <= hi
  {
    assert p + 0.05 * (c - p) == 0.95 * p + 0.05 * c;
  }

  /** The clamp, in milliseconds and hours: below 1 ms counts as 1 ms, above 1 h as 1 h. */
  lemma ClampIsMinMax(d: int)
    ensures d <= 1_000_000 ==> Clamped(d) == 1_000_000
    ensures 1_000_000 <= d <= 3_600_000_000_000 ==> Clamped(d) == d
    ensures d >= 3_600_000_000_000 ==> Clamped(d) == 3_600_000_000_000
  {
  }

  function ClampedAll(durations: seq<int>): (c: seq<int>)
    ensures |c| == |durations| && forall i :: 0 <= i < |c| ==> c[i] == Clamped(durations[i])
  {
    seq(|durations|, i requires 0 <= i < |durations| => Clamped(durations[i]))
  }

  lemma ClampedNext(durations: seq<int>, d: int)
    ensures ClampedAll(durations + [d]) == ClampedAll(durations) + [Clamped(d)]
  {
  }

  /** The baseline in closed form: the weighted mean of the clamped durations, slow ones and all. */
  lemma {:induction false} BaselineIsTheWeightedMean(durations: seq<int>)
    ensures BaselineAfter(durations) == Mean.Weighted(ClampedAll(durations))
    ensures durations != [] ==> BaselineAfter(durations) > 0.0
  {
    if durations != [] {
      hide Mean.Weighted;
      hide ClampedAll;
      var before, d := durations[..|durations| - 1], durations[|durations| - 1];
      assert durations == before + [d];
      BaselineIsTheWeightedMean(before);
      ClampedNext(before, d);
      Mean.WeightedNext(ClampedAll(before), Clamped(d));
      Mean.WeightedIsPositive(ClampedAll(durations));
    }
  }

  /** A success is slow exactly if it took over three times the weighted mean, itself included. */
  lemma SlowIffOverThreeMeans(durations: seq<int>, d: int)
    ensures IsSlow(BaselineAfter(durations), d) <==>
            d as real > 3.0 * Mean.Weighted(ClampedAll(durations) + [Clamped(d)])
  {
    hide IsSlow;
    hide Mean.Weighted;
    hide ClampedAll;
    var all := durations + [d];
    assert all[..|durations|] == durations;
    SlowIffOverThreeTimes(BaselineAfter(durations), d);
    BaselineIsTheWeightedMean(all);
    ClampedNext(durations, d);
  }

  /** The baseline never leaves the range of the clamped durations seen. */
  lemma {:induction false} BaselineStaysInRange(durations: seq<int>, lo: int, hi: int)
    requires durations != []
    requires forall i :: 0 <= i < |durations| ==> lo <= Clamped(durations[i]) <= hi
    ensures lo as real <= BaselineAfter(durations) <= hi as real
    ensures MIN_BASELINE_NS as real <= BaselineAfter(durations) <= MAX_BASELINE_NS as real
  {
    var before, d := durations[..|durations| - 1], durations[|durations| - 1];
    if before != [] {
      BaselineStaysInRange(before, lo, hi);
      ConvexStep(BaselineAfter(before), Clamped(d) as real, lo as real, hi as real);
      ConvexStep(BaselineAfter(before), Clamped(d) as real, MIN_BASELINE_NS as real, MAX_BASELINE_NS as real);
    }
  }

  /** Rounding the threshold down to an integer changes no verdict. */
  lemma SlowIffOverThreeTimes(ewma: real, d: int)
    ensures IsSlow(ewma, d) <==> d as real > NextBaseline(ewma, d) * SLOW_MULTIPLIER
  {
    var x := NextBaseline(ewma, d) * SLOW_MULTIPLIER;
    assert x >= 0.0 by {
      if ewma > 0.0 { ConvexStep(ewma, Clamped(d) as real, 0.0, ewma + Clamped(d) as real); }
    }
    assert x.Floor as real <= x < x.Floor as real + 1.0;
  }

  /** The newest duration moves its own bar: past the first success, slow means 17 d > 57 times the previous baseline. */
  lemma SlowIffSeventeenFiftySeven(ewma: real, d: int)
    requires ewma > 0.0 && MIN_BASELINE_NS <= d <= MAX_BASELINE_NS
    ensures IsSlow(ewma, d) <==> 17.0 * d as real > 57.0 * ewma
  {
    SlowIffOverThreeTimes(ewma, d);
    assert NextBaseline(ewma, d) * SLOW_MULTIPLIER == 2.85 * ewma + 0.15 * d as real;
  }

  /** The first success is its own baseline, so it is slow only beyond three times the ceiling of an hour. */
  lemma FirstSuccessIsSlowOverThreeHours(d: int)
    ensures IsSlow(0.0, d) <==> d > 3 * MAX_BASELINE_NS
  {
    SlowIffOverThreeTimes(0.0, d);
  }

  /** If a run's clamped durations stay within a factor of three, none of its successes is slow. */
  lemma SteadyRunIsNeverSlow(durations: seq<int>, m: int)
    requires durations != []
    requires forall i :: 0 <= i < |durations| ==>
               durations[i] <= MAX_BASELINE_NS && m <= Clamped(durations[i]) <= 3 * m
    ensures !IsSlow(BaselineAfter(durations[..|durations| - 1]), durations[|durations| - 1])
  {
    var before, d := durations[..|durations| - 1], durations[|durations| - 1];
    BaselineStaysInRange(durations, m, 3 * m);
    SlowIffOverThreeTimes(BaselineAfter(before), d);
    assert d <= Clamped(d) <= 3 * m;
    assert NextBaseline(BaselineAfter(before), d) == BaselineAfter(durations);
  }
}
