/**
 * Fitness of chromosomes and populations (profit of the selected items), and
 * the numpy-style argmax / argmin over fitness arrays.
 */
module Evaluate {
  import opened Knapsack

  /** Profit of the items x selects: sum over j of p[j] * x[j] (evaluate_child_fitness). */
  function Fitness(P: Problem, x: seq<int>): (f: int)
    requires ValidProblem(P) && |x| == P.Items()
    ensures (forall j :: 0 <= j < |x| ==> x[j] >= 0) ==> f >= 0
  {
    DotNonNegative(P.p, x);
    Dot(P.p, x)
  }

  /** Selecting more items never lowers fitness, because profits are non-negative. */
  lemma FitnessMonotone(P: Problem, x: seq<int>, y: seq<int>)
    requires ValidProblem(P) && |x| == P.Items() && Below(x, y)
    ensures Fitness(P, x) <= Fitness(P, y)
  {
    DotMonotone(P.p, x, y);
  }

  /** Every row has one entry per item. */
  predicate Rows(P: Problem, pop: seq<seq<int>>) {
    forall k :: 0 <= k < |pop| ==> |pop[k]| == P.Items()
  }

  /**
   * Row-wise profit sums of a population (evaluate_pop_fitness): entry k is the
   * fitness of row k, accumulated item by item.
   */
  method EvaluatePopulation(P: Problem, pop: seq<seq<int>>) returns (f: seq<int>)
    requires ValidProblem(P) && Rows(P, pop)
    ensures |f| == |pop|
    ensures forall k :: 0 <= k < |pop| ==> f[k] == Fitness(P, pop[k])
  {
    f := [];
    var k := 0;
    while k < |pop|
      invariant 0 <= k <= |pop|
      invariant |f| == k
      invariant forall k' :: 0 <= k' < k ==> f[k'] == Fitness(P, pop[k'])
    {
      var row := pop[k];
      var sum := 0;
      var j := 0;
      while j < P.Items()
        invariant 0 <= j <= P.Items()
        invariant sum == Dot(P.p[..j], row[..j])
      {
        assert P.p[..j + 1][..j] == P.p[..j] && row[..j + 1][..j] == row[..j];
        sum := sum + P.p[j] * row[j];
        j := j + 1;
      }
      assert P.p[..j] == P.p && row[..j] == row;
      f := f + [sum];
      k := k + 1;
    }
  }

  /** np.argmax: the first index holding the largest value. */
  function ArgMax(s: seq<int>): (k: nat)
    requires |s| > 0
    ensures k < |s|
    ensures forall i :: 0 <= i < |s| ==> s[i] <= s[k]
    ensures forall i :: 0 <= i < k ==> s[i] < s[k]
    decreases |s|
  {
    if |s| == 1 then 0
    else
      var k' := ArgMax(s[..|s| - 1]);
      if s[|s| - 1] > s[k'] then |s| - 1 else k'
  }

  /** np.argmin: the first index holding the smallest value. */
  function ArgMin(s: seq<int>): (k: nat)
    requires |s| > 0
    ensures k < |s|
    ensures forall i :: 0 <= i < |s| ==> s[k] <= s[i]
    ensures forall i :: 0 <= i < k ==> s[k] < s[i]
    decreases |s|
  {
    if |s| == 1 then 0
    else
      var k' := ArgMin(s[..|s| - 1]);
      if s[|s| - 1] < s[k'] then |s| - 1 else k'
  }
}
