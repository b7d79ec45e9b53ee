/** The in-flight gauge of one service and its pile-up detector. */
module Gauge {
  import opened Severity
  import opened Baseline
  import Mean

  datatype Limits = Limits(minAbsolute: int, multiplier: real, severeHoldSecs: int, mildHoldSecs: int) {
    predicate Valid() { minAbsolute > 0 && multiplier > 0.0 && severeHoldSecs >= mildHoldSecs }
  }

  /** Go's integer division: towards zero. */
  function TruncDiv(a: int, b: int): int
    requires b > 0
  {
    if a >= 0 then a / b else -((-a) / b)
  }

  /** The adaptive part of the threshold: `int64(ewma * multiplier)`. */
  function Scaled(ewma: real, multiplier: real): int {
    Trunc(ewma * multiplier)
  }

  datatype Gauge = Gauge(current: int, peak: int, ewma: real, conditionAt: int, severity: Severity) {

    function Start(): Gauge {
      this.(current := current + 1, peak := if current + 1 > peak then current + 1 else peak)
    }

    function Finish(): Gauge {
      if current > 0 then this.(current := current - 1) else this
    }

    function Threshold(l: Limits): int {
      if Scaled(ewma, l.multiplier) > l.minAbsolute then Scaled(ewma, l.multiplier) else l.minAbsolute
    }

    predicate Met(l: Limits) { current >= Threshold(l) }

    function NextConditionAt(l: Limits, ms: int): int {
      if !Met(l) then 0 else if conditionAt == 0 then ms else conditionAt
    }

    function NextEwma(): real {
      if severity == Calm && peak > 0
      then if ewma <= 0.0 then peak as real else ewma + 0.05 * (peak as real - ewma)
      else ewma
    }

    function NextSeverity(l: Limits, ms: int): Severity {
      var at := NextConditionAt(l, ms);
      var held := TruncDiv(ms - at, 1000);
      if !(Met(l) && at > 0) then Calm
      else if held >= l.severeHoldSecs then Severe
      else if held >= l.mildHoldSecs then Mild
      else Calm
    }

    function Evaluate(l: Limits, ms: int): Gauge {
      Gauge(current, peak, NextEwma(), NextConditionAt(l, ms), NextSeverity(l, ms))
    }

    predicate Fires(l: Limits, ms: int) {
      ShouldEmitTransition(severity, NextSeverity(l, ms))
    }
  }

  const IDLE := Gauge(0, 0, 0.0, 0, Calm)

  // ---- whole residences ----

  /** What can happen to a gauge while its service is resident. */
  datatype Op = Began | Ended | Checked(ms: int)

  function Apply(l: Limits, g: Gauge, op: Op): Gauge {
    match op
    case Began => g.Start()
    case Ended => g.Finish()
    case Checked(ms) => g.Evaluate(l, ms)
  }

  function After(l: Limits, ops: seq<Op>): Gauge {
    if ops == [] then IDLE else Apply(l, After(l, ops[..|ops| - 1]), ops[|ops| - 1])
  }

  /** Requests in flight: started and not yet ended, never below none. */
  function Level(ops: seq<Op>): nat {
    if ops == [] then 0
    else
      var before := Level(ops[..|ops| - 1]);
      match ops[|ops| - 1]
      case Began => before + 1
      case Ended => if before > 0 then before - 1 else 0
      case Checked(_) => before
  }

  /** The most there ever were. */
  function HighWater(ops: seq<Op>): (h: int)
    ensures h >= Level(ops) && h >= 0
    ensures forall i :: 0 <= i <= |ops| ==> Level(ops[..i]) <= h
    ensures exists i :: 0 <= i <= |ops| && Level(ops[..i]) == h
  {
    assert ops[..|ops|] == ops;
    if ops == [] then 0
    else
      var before := ops[..|ops| - 1];
      assert forall i :: 0 <= i <= |before| ==> before[..i] == ops[..i];
      var h := HighWater(before);
      if Level(ops) > h then Level(ops) else h
  }

  /** The high water at each evaluation that found the detector calm, as far as there had been anything in flight. */
  function CalmPeaks(l: Limits, ops: seq<Op>): (c: seq<int>)
    ensures forall i :: 0 <= i < |c| ==> c[i] > 0
  {
    if ops == [] then []
    else
      var before := ops[..|ops| - 1];
      if ops[|ops| - 1].Checked? && After(l, before).severity == Calm && HighWater(before) > 0
      then CalmPeaks(l, before) + [HighWater(before)]
      else CalmPeaks(l, before)
  }

  /** What an evaluation looks for: as many in flight as the absolute minimum, and, rounding down, as the multiple of
      the weighted mean of the calm peaks. */
  predicate AtThreshold(l: Limits, ops: seq<Op>) {
    Level(ops) >= l.minAbsolute && Level(ops) as real > Mean.Weighted(CalmPeaks(l, ops)) * l.multiplier - 1.0
  }

  lemma {:induction false} CountsAreTheirHistory(l: Limits, ops: seq<Op>)
    ensures After(l, ops).current == Level(ops) && After(l, ops).peak == HighWater(ops)
  {
    if ops != [] {
      hide Gauge.NextSeverity;
      hide Gauge.NextConditionAt;
      hide Gauge.NextEwma;
      CountsAreTheirHistory(l, ops[..|ops| - 1]);
      HighWaterNext(ops);
    }
  }

  /** Three of the numbers a gauge keeps, from the operations alone. */
  lemma {:induction false} GaugeIsItsHistory(l: Limits, ops: seq<Op>)
    ensures After(l, ops).current == Level(ops)
    ensures After(l, ops).peak == HighWater(ops)
    ensures After(l, ops).ewma == Mean.Weighted(CalmPeaks(l, ops)) >= 0.0
    ensures CalmPeaks(l, ops) != [] <==> After(l, ops).ewma > 0.0
  {
    hide Mean.Weighted;
    hide Gauge.NextSeverity;
    hide Gauge.NextConditionAt;
    hide HighWater;
    hide Level;
    CountsAreTheirHistory(l, ops);
    if ops != [] {
      var before := ops[..|ops| - 1];
      GaugeIsItsHistory(l, before);
      Mean.WeightedNext(CalmPeaks(l, before), HighWater(before));
    } else {
      NoMean();
    }
    if CalmPeaks(l, ops) != [] { Mean.WeightedIsPositive(CalmPeaks(l, ops)); }
  }

  lemma HighWaterNext(ops: seq<Op>)
    requires ops != []
    ensures var h := HighWater(ops[..|ops| - 1]); HighWater(ops) == if Level(ops) > h then Level(ops) else h
  {
  }

  /** The comparison with the adaptive threshold, without its rounding. */
  lemma MetIffBothBars(l: Limits, g: Gauge)
    requires l.Valid() && g.ewma >= 0.0
    ensures g.Met(l) <==> g.current >= l.minAbsolute && g.current as real > g.ewma * l.multiplier - 1.0
  {
    assert g.ewma * l.multiplier >= 0.0;
  }

  /** The threshold is the larger of the absolute minimum and the multiple of the mean rounded down. */
  lemma ThresholdIsTheLarger(l: Limits, g: Gauge)
    requires l.Valid() && g.ewma >= 0.0
    ensures var t, x := g.Threshold(l), g.ewma * l.multiplier;
            && t >= l.minAbsolute && t as real > x - 1.0
            && (t == l.minAbsolute || t as real <= x)
  {
    assert g.ewma * l.multiplier >= 0.0;
  }

  lemma MetIffAtThreshold(l: Limits, ops: seq<Op>)
    requires l.Valid()
    ensures After(l, ops).Met(l) <==> AtThreshold(l, ops)
  {
    hide Mean.Weighted;
    hide CalmPeaks;
    hide Level;
    hide After;
    hide Gauge.Met;
    GaugeIsItsHistory(l, ops);
    MetIffBothBars(l, After(l, ops));
  }

  lemma NoMean()
    ensures Mean.Weighted([]) == 0.0
  {
  }

  /** One evaluation: when, and whether the gauge was at its threshold. */
  datatype Check = Check(ms: int, met: bool)

  ghost function Checks(l: Limits, ops: seq<Op>): seq<Check> {
    if ops == [] then []
    else
      var before := Checks(l, ops[..|ops| - 1]);
      match ops[|ops| - 1]
      case Checked(ms) => before + [Check(ms, AtThreshold(l, ops[..|ops| - 1]))]
      case _ => before
  }

  /** From the `k`th evaluation on, every evaluation found the gauge at its threshold. */
  ghost predicate MetSince(checks: seq<Check>, k: nat) {
    k < |checks| && forall j :: k <= j < |checks| ==> checks[j].met
  }

  lemma {:induction false} ConditionClockIsTrue(l: Limits, ops: seq<Op>)
    requires l.Valid()
    ensures var at, cs := After(l, ops).conditionAt, Checks(l, ops);
            at != 0 ==> exists k: nat :: MetSince(cs, k) && cs[k].ms == at
  {
    if ops != [] {
      var before := ops[..|ops| - 1];
      ConditionNext(l, ops);
      ConditionClockIsTrue(l, before);
      hide After;
      hide Checks;
      hide AtThreshold;
      var at, cs, cs' := After(l, before).conditionAt, Checks(l, before), Checks(l, ops);
      if After(l, ops).conditionAt != 0 {
        var k: nat := |cs|;
        if !(ops[|ops| - 1].Checked? && at == 0) {
          k :| MetSince(cs, k) && cs[k].ms == at;
        }
        assert MetSince(cs', k) && cs'[k].ms == After(l, ops).conditionAt;
      }
    }
  }

  /** A pile-up report was held: some evaluation at least the hold time earlier, and every one since,
      found the gauge at its threshold. */
  lemma PileUpWasHeld(l: Limits, ops: seq<Op>, ms: int)
    requires l.Valid() && After(l, ops).NextSeverity(l, ms) != Calm
    ensures var cs := Checks(l, ops + [Checked(ms)]);
            var hold := if After(l, ops).NextSeverity(l, ms) == Severe then l.severeHoldSecs else l.mildHoldSecs;
            exists k: nat :: MetSince(cs, k) && (hold > 0 ==> ms - cs[k].ms >= 1000 * hold)
  {
    var all := ops + [Checked(ms)];
    assert all[..|all| - 1] == ops;
    ConditionClockIsTrue(l, all);
    var cs := Checks(l, all);
    var k: nat :| MetSince(cs, k) && cs[k].ms == After(l, all).conditionAt;
  }

  /** Evaluations carry positive times that never go back. */
  ghost predicate Ascending(checks: seq<Check>) {
    && (forall i :: 0 <= i < |checks| ==> checks[i].ms > 0)
    && forall i, j :: 0 <= i < j < |checks| ==> checks[i].ms <= checks[j].ms
  }

  /** What one more operation does to the remembered start and to the list of evaluations. */
  lemma ConditionNext(l: Limits, ops: seq<Op>)
    requires l.Valid() && ops != []
    ensures var g, cs := After(l, ops[..|ops| - 1]), Checks(l, ops[..|ops| - 1]);
            match ops[|ops| - 1]
            case Checked(ms) =>
              var met := AtThreshold(l, ops[..|ops| - 1]);
              && Checks(l, ops) == cs + [Check(ms, met)]
              && After(l, ops).conditionAt == if !met then 0 else if g.conditionAt == 0 then ms else g.conditionAt
            case _ => Checks(l, ops) == cs && After(l, ops).conditionAt == g.conditionAt
  {
    MetIffAtThreshold(l, ops[..|ops| - 1]);
    hide AtThreshold;
  }

  /** Then the remembered start is that of the whole streak. */
  lemma {:induction false} ConditionClockIsEarliest(l: Limits, ops: seq<Op>)
    requires l.Valid() && Ascending(Checks(l, ops))
    ensures forall k: nat :: MetSince(Checks(l, ops), k) ==> 0 < After(l, ops).conditionAt <= Checks(l, ops)[k].ms
  {
    if ops != [] {
      var before := ops[..|ops| - 1];
      var g, cs, cs' := After(l, before), Checks(l, before), Checks(l, ops);
      ConditionNext(l, ops);
      hide After;
      hide Checks;
      hide AtThreshold;
      assert forall i :: 0 <= i < |cs| ==> cs[i] == cs'[i];
      ConditionClockIsEarliest(l, before);
      ConditionClockIsTrue(l, before);
      forall k: nat | MetSince(cs', k) ensures 0 < After(l, ops).conditionAt <= cs'[k].ms {
        assert cs'[|cs'| - 1].met;
        if k < |cs| {
          assert MetSince(cs, k);
        } else if g.conditionAt != 0 {
          var j: nat :| MetSince(cs, j) && cs[j].ms == g.conditionAt;
          assert cs'[j].ms <= cs'[k].ms;
        }
      }
    }
  }

  lemma HoldDivides(d: int, hold: int)
    requires d >= 0
    ensures TruncDiv(d, 1000) >= hold <==> d >= 1000 * hold
  {
  }

  /** The severity of a pile-up, exactly: it is at least mild (severe) if and only if some evaluation at least the
      mild (severe) hold time earlier, and every one since, found the gauge at its threshold. */
  lemma PileUpIffHeld(l: Limits, ops: seq<Op>, ms: int)
    requires l.Valid() && Ascending(Checks(l, ops + [Checked(ms)]))
    ensures var cs, now := Checks(l, ops + [Checked(ms)]), After(l, ops).NextSeverity(l, ms);
            && (now != Calm <==> exists k: nat :: MetSince(cs, k) && ms - cs[k].ms >= 1000 * l.mildHoldSecs)
            && (now == Severe <==> exists k: nat :: MetSince(cs, k) && ms - cs[k].ms >= 1000 * l.severeHoldSecs)
  {
    var all := ops + [Checked(ms)];
    assert all[..|all| - 1] == ops;
    ConditionClockIsTrue(l, all);
    ConditionClockIsEarliest(l, all);
    var cs, at := Checks(l, all), After(l, all).conditionAt;
    assert cs[|cs| - 1] == Check(ms, AtThreshold(l, ops));
    MetIffAtThreshold(l, ops);
    hide AtThreshold;
    if After(l, ops).Met(l) {
      assert MetSince(cs, |cs| - 1);
      var k: nat :| MetSince(cs, k) && cs[k].ms == at;
      HoldDivides(ms - at, l.mildHoldSecs);
      HoldDivides(ms - at, l.severeHoldSecs);
    }
  }

  ghost predicate Sane(g: Gauge) {
    && 0 <= g.current <= g.peak
    && 0.0 <= g.ewma <= g.peak as real
  }

  lemma ScaledIsMonotone(x: real, y: real, m: real)
    requires x <= y && m > 0.0
    ensures Scaled(x, m) <= Scaled(y, m)
  {
    assert (y - x) * m >= 0.0;
    assert (y - x) * m == y * m - x * m;
  }

  lemma BaselineRises(l: Limits, g: Gauge, op: Op)
    requires Sane(g)
    ensures Sane(Apply(l, g, op)) && g.ewma <= Apply(l, g, op).ewma
  {
    if op.Checked? && g.ewma > 0.0 {
      ConvexStep(g.ewma, g.peak as real, g.ewma, g.peak as real);
    }
  }

  lemma ThresholdRises(l: Limits, g: Gauge, op: Op)
    requires Sane(g) && l.Valid()
    ensures g.Threshold(l) <= Apply(l, g, op).Threshold(l)
  {
    BaselineRises(l, g, op);
    ScaledIsMonotone(g.ewma, Apply(l, g, op).ewma, l.multiplier);
  }

  /** Over a residence the baseline stays between zero and the peak and the threshold only rises. */
  lemma {:induction false} ThresholdNeverFalls(l: Limits, ops: seq<Op>, i: nat)
    requires l.Valid() && i <= |ops|
    ensures Sane(After(l, ops)) && After(l, ops[..i]).Threshold(l) <= After(l, ops).Threshold(l)
  {
    var n := |ops|;
    if n > 0 {
      var before := ops[..n - 1];
      ThresholdNeverFalls(l, before, if i < n then i else n - 1);
      BaselineRises(l, After(l, before), ops[n - 1]);
      ThresholdRises(l, After(l, before), ops[n - 1]);
      if i < n { assert before[..i] == ops[..i]; } else { assert ops[..i] == ops; }
    }
  }
}
