/** Severities, their thresholds and the rule that only a rise is reported. */
module Severity {

  datatype Severity = Calm | Mild | Severe {
    function Rank(): nat { match this case Calm => 0 case Mild => 1 case Severe => 2 }
  }

  function ClassifyTwoTier(rate: real, mild: real, high: real): Severity {
    if rate >= high then Severe
    else if rate >= mild then Mild
    else Calm
  }

  predicate ShouldEmitTransition(prev: Severity, current: Severity) {
    if current == Calm then false
    else if prev == Calm then true
    else prev == Mild && current == Severe
  }

  /** A report is exactly a strict rise in rank. */
  lemma EmissionIsAStrictRise(prev: Severity, current: Severity)
    ensures ShouldEmitTransition(prev, current) <==> prev.Rank() < current.Rank()
  {
  }
}
