/**
 * Problem data of the multi-dimensional knapsack problem (MKP), chromosomes
 * over its items, and the cost, feasibility and fit notions that every
 * operator of the genetic algorithm is judged by.
 */
module Knapsack {

  /**
   * An MKP instance: r is the m x n cost matrix (row i belongs to knapsack i),
   * b holds the m capacities and p the n item profits.
   */
  datatype Problem = Problem(r: seq<seq<int>>, b: seq<int>, p: seq<int>) {
    /** n, the number of items */
    function Items(): nat { |p| }
    /** m, the number of knapsacks */
    function Knapsacks(): nat { |b| }
  }

  /** At least one item and one knapsack, consistent dimensions, no negative data. */
  predicate ValidProblem(P: Problem) {
    && P.Items() >= 1
    && P.Knapsacks() >= 1
    && |P.r| == P.Knapsacks()
    && (forall i :: 0 <= i < |P.r| ==> |P.r[i]| == P.Items())
    && (forall i, j :: 0 <= i < |P.r| && 0 <= j < |P.r[i]| ==> P.r[i][j] >= 0)
    && (forall i :: 0 <= i < |P.b| ==> P.b[i] >= 0)
    && (forall j :: 0 <= j < |P.p| ==> P.p[j] >= 0)
  }

  /** Every entry is a bit. */
  predicate IsBinary(x: seq<int>) {
    forall j :: 0 <= j < |x| ==> x[j] == 0 || x[j] == 1
  }

  /** A chromosome of P: one bit per item, 1 meaning "selected". */
  predicate Chromosome(P: Problem, x: seq<int>) {
    |x| == P.Items() && IsBinary(x)
  }

  /** Pointwise x <= y; on chromosomes, y selects every item x selects. */
  predicate Below(x: seq<int>, y: seq<int>) {
    |x| == |y| && forall j {:trigger x[j], y[j]} :: 0 <= j < |x| ==> x[j] <= y[j]
  }

  /** The all-zero vector of length n. */
  function Zeros(n: nat): seq<int> {
    seq(n, _ => 0)
  }

  /** u lists each of 0..n-1 exactly once. */
  predicate IsPermutation(u: seq<int>, n: nat) {
    && |u| == n
    && (forall t :: 0 <= t < |u| ==> 0 <= u[t] < n)
    && (forall s, t :: 0 <= s < t < |u| ==> u[s] != u[t])
    && (forall v :: 0 <= v < n ==> v in u)
  }

  /** The chromosome of length n that selects exactly the listed items. */
  function Indicator(n: nat, items: seq<int>): seq<int> {
    seq(n, v => if v in items then 1 else 0)
  }

  /** The integer dot product of a and x. */
  function Dot(a: seq<int>, x: seq<int>): int
    requires |a| == |x|
    decreases |a|
  {
    if |a| == 0 then 0 else Dot(a[..|a| - 1], x[..|x| - 1]) + a[|a| - 1] * x[|x| - 1]
  }

  /** The resource that selection x uses in knapsack i: sum over j of r[i][j] * x[j]. */
  function Cost(P: Problem, x: seq<int>, i: int): int
    requires ValidProblem(P) && |x| == P.Items() && 0 <= i < P.Knapsacks()
  {
    Dot(P.r[i], x)
  }

  /** x keeps every knapsack within its capacity. */
  predicate Feasible(P: Problem, x: seq<int>)
    requires ValidProblem(P) && |x| == P.Items()
  {
    forall i {:trigger Cost(P, x, i)} :: 0 <= i < P.Knapsacks() ==> Cost(P, x, i) <= P.b[i]
  }

  /** Adding the cost column of item j to the usage of x keeps every knapsack within capacity. */
  predicate Fits(P: Problem, x: seq<int>, j: int)
    requires ValidProblem(P) && |x| == P.Items() && 0 <= j < P.Items()
  {
    forall i {:trigger Cost(P, x, i)} :: 0 <= i < P.Knapsacks() ==> Cost(P, x, i) + P.r[i][j] <= P.b[i]
  }

  // ---------------------------------------------------------------------------
  // Usage vectors: the scratch vector R that the operators keep up to date
  // instead of recomputing r . x.
  // ---------------------------------------------------------------------------

  /** R holds, knapsack by knapsack, the resource x uses. */
  predicate IsUsage(P: Problem, x: seq<int>, R: seq<int>)
    requires ValidProblem(P) && |x| == P.Items()
  {
    |R| == P.Knapsacks() && forall i :: 0 <= i < |R| ==> R[i] == Cost(P, x, i)
  }

  /** No entry of R exceeds its capacity (the negation of "any(R > b)"). */
  predicate WithinCapacity(P: Problem, R: seq<int>)
    requires |R| == P.Knapsacks()
  {
    forall i :: 0 <= i < |R| ==> R[i] <= P.b[i]
  }

  /** "all(R + r[:, j] <= b)" */
  predicate ColumnFits(P: Problem, R: seq<int>, j: int)
    requires ValidProblem(P) && |R| == P.Knapsacks() && 0 <= j < P.Items()
  {
    forall i :: 0 <= i < |R| ==> R[i] + P.r[i][j] <= P.b[i]
  }

  /** R + r[:, j] */
  function AddColumn(P: Problem, R: seq<int>, j: int): seq<int>
    requires ValidProblem(P) && |R| == P.Knapsacks() && 0 <= j < P.Items()
  {
    seq(|R|, i requires 0 <= i < |R| => R[i] + P.r[i][j])
  }

  /** R - r[:, j] */
  function SubColumn(P: Problem, R: seq<int>, j: int): seq<int>
    requires ValidProblem(P) && |R| == P.Knapsacks() && 0 <= j < P.Items()
  {
    seq(|R|, i requires 0 <= i < |R| => R[i] - P.r[i][j])
  }

  // ---------------------------------------------------------------------------
  // Lemmas
  // ---------------------------------------------------------------------------

  lemma MulMonotone(c: int, s: int, t: int)
    requires c >= 0 && s <= t
    ensures c * s <= c * t
  {
    assert c * t - c * s == c * (t - s);
  }

  /** Changing one entry of x changes the dot product by that entry's weighted difference. */
  lemma {:induction false} DotUpdate(a: seq<int>, x: seq<int>, j: int, v: int)
    requires |a| == |x| && 0 <= j < |x|
    ensures Dot(a, x[j := v]) == Dot(a, x) + a[j] * (v - x[j])
    decreases |a|
  {
    var n := |a|;
    if j == n - 1 {
      assert x[j := v][..n - 1] == x[..n - 1];
      assert a[j] * v == a[j] * x[j] + a[j] * (v - x[j]);
    } else {
      assert x[j := v][..n - 1] == x[..n - 1][j := v];
      DotUpdate(a[..n - 1], x[..n - 1], j, v);
    }
  }

  /** With non-negative weights the dot product is monotone in x. */
  lemma {:induction false} DotMonotone(a: seq<int>, x: seq<int>, y: seq<int>)
    requires |a| == |x| && Below(x, y)
    requires forall k :: 0 <= k < |a| ==> a[k] >= 0
    ensures Dot(a, x) <= Dot(a, y)
    decreases |a|
  {
    var n := |a|;
    if n > 0 {
      DotMonotone(a[..n - 1], x[..n - 1], y[..n - 1]);
      MulMonotone(a[n - 1], x[n - 1], y[n - 1]);
    }
  }

  /** Nothing selected, nothing summed. */
  lemma {:induction false} DotZeros(a: seq<int>)
    ensures Dot(a, Zeros(|a|)) == 0
    decreases |a|
  {
    if |a| > 0 {
      assert Zeros(|a|)[..|a| - 1] == Zeros(|a| - 1);
      DotZeros(a[..|a| - 1]);
    }
  }

  /** Non-negative weights and entries give a non-negative dot product. */
  lemma DotNonNegative(a: seq<int>, x: seq<int>)
    requires |a| == |x| && forall k :: 0 <= k < |a| ==> a[k] >= 0
    ensures (forall k :: 0 <= k < |x| ==> x[k] >= 0) ==> Dot(a, x) >= 0
  {
    if forall k :: 0 <= k < |x| ==> x[k] >= 0 {
      DotMonotone(a, Zeros(|x|), x);
      DotZeros(a);
    }
  }

  /** Setting or clearing one bit moves every knapsack's cost by that item's column. */
  lemma CostUpdate(P: Problem, x: seq<int>, j: int, v: int)
    requires ValidProblem(P) && |x| == P.Items() && 0 <= j < P.Items()
    ensures forall i :: 0 <= i < P.Knapsacks() ==>
      Cost(P, x[j := v], i) == Cost(P, x, i) + P.r[i][j] * (v - x[j])
  {
    forall i | 0 <= i < P.Knapsacks()
      ensures Cost(P, x[j := v], i) == Cost(P, x, i) + P.r[i][j] * (v - x[j])
    {
      DotUpdate(P.r[i], x, j, v);
    }
  }

  /** Selecting an unselected item adds its column to the usage vector. */
  lemma UsageAfterSet(P: Problem, x: seq<int>, R: seq<int>, j: int)
    requires ValidProblem(P) && |x| == P.Items() && 0 <= j < P.Items() && x[j] == 0
    requires IsUsage(P, x, R)
    ensures IsUsage(P, x[j := 1], AddColumn(P, R, j))
  {
    CostUpdate(P, x, j, 1);
  }

  /** Deselecting a selected item subtracts its column from the usage vector. */
  lemma UsageAfterClear(P: Problem, x: seq<int>, R: seq<int>, j: int)
    requires ValidProblem(P) && |x| == P.Items() && 0 <= j < P.Items() && x[j] == 1
    requires IsUsage(P, x, R)
    ensures IsUsage(P, x[j := 0], SubColumn(P, R, j))
  {
    CostUpdate(P, x, j, 0);
  }

  /** The empty selection uses nothing and is feasible, because every capacity is non-negative. */
  lemma ZerosFeasible(P: Problem)
    requires ValidProblem(P)
    ensures IsUsage(P, Zeros(P.Items()), Zeros(P.Knapsacks()))
    ensures Feasible(P, Zeros(P.Items()))
  {
    forall i | 0 <= i < P.Knapsacks()
      ensures Cost(P, Zeros(P.Items()), i) == 0
    {
      DotZeros(P.r[i]);
    }
  }

  /** Costs are monotone in the selection, since no cost is negative. */
  lemma CostMonotone(P: Problem, x: seq<int>, y: seq<int>)
    requires ValidProblem(P) && |x| == P.Items() && Below(x, y)
    ensures forall i :: 0 <= i < P.Knapsacks() ==> Cost(P, x, i) <= Cost(P, y, i)
  {
    forall i | 0 <= i < P.Knapsacks()
      ensures Cost(P, x, i) <= Cost(P, y, i)
    {
      DotMonotone(P.r[i], x, y);
    }
  }

  /** Dropping items from a feasible selection keeps it feasible. */
  lemma FeasibleDownward(P: Problem, x: seq<int>, y: seq<int>)
    requires ValidProblem(P) && |x| == P.Items() && Below(x, y) && Feasible(P, y)
    ensures Feasible(P, x)
  {
    CostMonotone(P, x, y);
  }

  /** An item that overflows some knapsack still overflows it after more items are selected. */
  lemma MisfitUpward(P: Problem, x: seq<int>, y: seq<int>, j: int)
    requires ValidProblem(P) && |x| == P.Items() && Below(x, y) && 0 <= j < P.Items()
    requires !Fits(P, x, j)
    ensures !Fits(P, y, j)
  {
    CostMonotone(P, x, y);
  }

  /** An unselected item fits exactly when selecting it leaves the chromosome feasible. */
  lemma FitsIffFeasibleWith(P: Problem, x: seq<int>, j: int)
    requires ValidProblem(P) && |x| == P.Items() && 0 <= j < P.Items() && x[j] == 0
    ensures Fits(P, x, j) <==> Feasible(P, x[j := 1])
  {
    CostUpdate(P, x, j, 1);
  }

  /** With a matching usage vector, the vector tests agree with the cost-based ones. */
  lemma UsageTests(P: Problem, x: seq<int>, R: seq<int>)
    requires ValidProblem(P) && |x| == P.Items() && IsUsage(P, x, R)
    ensures WithinCapacity(P, R) <==> Feasible(P, x)
    ensures forall j :: 0 <= j < P.Items() ==> (ColumnFits(P, R, j) <==> Fits(P, x, j))
  {
  }

  /** Listing one more item sets exactly that item's bit. */
  lemma IndicatorSnoc(n: nat, items: seq<int>, v: int)
    requires 0 <= v < n
    ensures Indicator(n, items + [v]) == Indicator(n, items)[v := 1]
  {
  }

  /** A sublist selects a subset. */
  lemma IndicatorBelow(n: nat, s: seq<int>, t: seq<int>)
    requires forall e :: e in s ==> e in t
    ensures Below(Indicator(n, s), Indicator(n, t))
  {
  }

  lemma IndicatorEmpty(n: nat)
    ensures Indicator(n, []) == Zeros(n)
  {
  }
}
