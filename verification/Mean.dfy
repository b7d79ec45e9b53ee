/** Exponentially weighted means in closed form: the first value counts in full and fades, each later one
    enters with weight 0.05 and fades, all by 0.95 a step. */
module Mean {

  function Pow(x: real, n: nat): real {
    if n == 0 then 1.0 else x * Pow(x, n - 1)
  }

  /** What the `i`th value contributes to the mean of all of them. */
  function Term(c: seq<int>, i: nat): real
    requires i < |c|
  {
    (if i == 0 then 1.0 else 0.05) * Pow(0.95, |c| - 1 - i) * c[i] as real
  }

  function Sum(c: seq<int>, k: nat): real
    requires k <= |c|
  {
    if k == 0 then 0.0 else Sum(c, k - 1) + Term(c, k - 1)
  }

  /** The weighted mean of the values, oldest first; nothing at all has mean zero. */
  function Weighted(c: seq<int>): real {
    Sum(c, |c|)
  }

  lemma TermFades(c: seq<int>, x: int, i: nat)
    requires i < |c|
    ensures Term(c + [x], i) == 0.95 * Term(c, i)
  {
    var w, p := if i == 0 then 1.0 else 0.05, Pow(0.95, |c| - 1 - i);
    assert (c + [x])[i] == c[i] && Pow(0.95, |c| - i) == 0.95 * p;
    assert w * (0.95 * p) * c[i] as real == 0.95 * (w * p * c[i] as real);
  }

  lemma {:induction false} SumFades(c: seq<int>, x: int, k: nat)
    requires k <= |c|
    ensures Sum(c + [x], k) == 0.95 * Sum(c, k)
  {
    if k > 0 {
      hide Term;
      SumFades(c, x, k - 1);
      TermFades(c, x, k - 1);
    }
  }

  /** One more value moves the mean a twentieth of the way towards it; the first one is the mean. */
  lemma WeightedNext(c: seq<int>, x: int)
    ensures Weighted(c + [x]) == if c == [] then x as real else Weighted(c) + 0.05 * (x as real - Weighted(c))
  {
    SumFades(c, x, |c|);
    assert Pow(0.95, 0) == 1.0;
    assert Term(c + [x], |c|) == (if c == [] then 1.0 else 0.05) * x as real;
  }

  lemma {:induction false} WeightedIsPositive(c: seq<int>)
    requires c != [] && forall i :: 0 <= i < |c| ==> c[i] > 0
    ensures Weighted(c) > 0.0
  {
    var before, x := c[..|c| - 1], c[|c| - 1];
    assert c == before + [x];
    hide Weighted;
    WeightedNext(before, x);
    if before != [] { WeightedIsPositive(before); }
  }
}
