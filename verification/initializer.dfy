/**
 * Population initialisation: each row is built greedily from the empty
 * selection by popping items off the end of a shuffled index array and
 * selecting them while they fit, halting at the first item that does not.
 */
module Initializer {
  import opened Errors
  import opened Knapsack

  /** The order in which items leave the shuffled array: its last entry first. */
  function PopOrder(perm: seq<int>): seq<int> {
    seq(|perm|, t requires 0 <= t < |perm| => perm[|perm| - 1 - t])
  }

  /** Reading a permutation backwards gives a permutation. */
  lemma PopOrderIsPermutation(perm: seq<int>, n: nat)
    requires IsPermutation(perm, n)
    ensures IsPermutation(PopOrder(perm), n)
  {
    var order := PopOrder(perm);
    forall v | 0 <= v < n
      ensures v in order
    {
      assert v in perm;
      var t :| 0 <= t < n && perm[t] == v;
      assert order[n - 1 - t] == v;
    }
  }

  /** The row that selects the first c popped items. */
  function Prefix(P: Problem, order: seq<int>, c: nat): seq<int>
    requires c <= |order|
  {
    Indicator(P.Items(), order[..c])
  }

  lemma EmptyPrefixFeasible(P: Problem, order: seq<int>)
    requires ValidProblem(P)
    ensures Feasible(P, Prefix(P, order, 0))
  {
    IndicatorEmpty(P.Items());
    ZerosFeasible(P);
  }

  /**
   * The number of items the greedy scan selects when it resumes after c
   * selected items: it stops at the first popped item that would overflow
   * some knapsack, or when the array is used up.
   */
  function GreedyLen(P: Problem, order: seq<int>, c: nat): (g: nat)
    requires ValidProblem(P) && IsPermutation(order, P.Items()) && c <= P.Items()
    requires Feasible(P, Prefix(P, order, c))
    ensures c <= g <= P.Items()
    ensures Feasible(P, Prefix(P, order, g))
    ensures g < P.Items() ==> !Feasible(P, Prefix(P, order, g + 1))
    decreases P.Items() - c
  {
    if c == P.Items() || !Feasible(P, Prefix(P, order, c + 1)) then c
    else GreedyLen(P, order, c + 1)
  }

  /** The row the initializer builds from one shuffled index array. */
  function GreedyRow(P: Problem, perm: seq<int>): seq<int>
    requires ValidProblem(P) && IsPermutation(perm, P.Items())
  {
    PopOrderIsPermutation(perm, P.Items());
    EmptyPrefixFeasible(P, PopOrder(perm));
    Prefix(P, PopOrder(perm), GreedyLen(P, PopOrder(perm), 0))
  }

  /**
   * The greedy row is a feasible chromosome, and it selects exactly the longest
   * prefix of the pop order whose cumulative cost fits every knapsack; in
   * particular it is empty when the first popped item alone overflows.
   */
  lemma GreedyRowIsLongestFittingPrefix(P: Problem, perm: seq<int>)
    requires ValidProblem(P) && IsPermutation(perm, P.Items())
    ensures Chromosome(P, GreedyRow(P, perm)) && Feasible(P, GreedyRow(P, perm))
    ensures exists g :: (
      && 0 <= g <= P.Items()
      && GreedyRow(P, perm) == Prefix(P, PopOrder(perm), g)
      && (forall c :: 0 <= c <= g ==> Feasible(P, Prefix(P, PopOrder(perm), c)))
      && (forall c :: g < c <= P.Items() ==> !Feasible(P, Prefix(P, PopOrder(perm), c))))
    ensures !Feasible(P, Prefix(P, PopOrder(perm), 1)) ==> GreedyRow(P, perm) == Zeros(P.Items())
  {
    var n := P.Items();
    var order := PopOrder(perm);
    PopOrderIsPermutation(perm, n);
    EmptyPrefixFeasible(P, order);
    var g := GreedyLen(P, order, 0);
    forall c | 0 <= c <= g
      ensures Feasible(P, Prefix(P, order, c))
    {
      IndicatorBelow(n, order[..c], order[..g]);
      FeasibleDownward(P, Prefix(P, order, c), Prefix(P, order, g));
    }
    forall c | g < c <= n
      ensures !Feasible(P, Prefix(P, order, c))
    {
      IndicatorBelow(n, order[..g + 1], order[..c]);
      if Feasible(P, Prefix(P, order, c)) {
        FeasibleDownward(P, Prefix(P, order, g + 1), Prefix(P, order, c));
      }
    }
    if !Feasible(P, Prefix(P, order, 1)) {
      IndicatorEmpty(n);
    }
  }

  /**
   * The item popped after the first c is not yet selected, its cost column
   * fits on top of the usage of those c exactly when the prefix of c + 1
   * items is feasible, and selecting it gives that prefix.
   */
  lemma NextPopped(P: Problem, order: seq<int>, c: nat, R: seq<int>)
    requires ValidProblem(P) && IsPermutation(order, P.Items()) && c < P.Items()
    requires IsUsage(P, Prefix(P, order, c), R)
    ensures Prefix(P, order, c)[order[c]] == 0
    ensures Prefix(P, order, c + 1) == Prefix(P, order, c)[order[c] := 1]
    ensures ColumnFits(P, R, order[c]) <==> Feasible(P, Prefix(P, order, c + 1))
    ensures ColumnFits(P, R, order[c]) <==> Fits(P, Prefix(P, order, c), order[c])
  {
    var x := Prefix(P, order, c);
    var j := order[c];
    assert j !in order[..c];
    assert order[..c + 1] == order[..c] + [j];
    IndicatorSnoc(P.Items(), order[..c], j);
    UsageTests(P, x, R);
    FitsIffFeasibleWith(P, x, j);
  }

  /** Selecting the next popped item when it fits: the scan resumes one item later with the same outcome. */
  lemma GreedyAdvance(P: Problem, order: seq<int>, c: nat, R: seq<int>)
    requires ValidProblem(P) && IsPermutation(order, P.Items()) && c < P.Items()
    requires Feasible(P, Prefix(P, order, c)) && IsUsage(P, Prefix(P, order, c), R)
    requires ColumnFits(P, R, order[c])
    ensures Prefix(P, order, c + 1) == Prefix(P, order, c)[order[c] := 1]
    ensures Feasible(P, Prefix(P, order, c + 1))
    ensures IsUsage(P, Prefix(P, order, c + 1), AddColumn(P, R, order[c]))
    ensures GreedyLen(P, order, c + 1) == GreedyLen(P, order, c)
  {
    NextPopped(P, order, c, R);
    UsageAfterSet(P, Prefix(P, order, c), R, order[c]);
  }

  /** The scan stops where the next popped item does not fit, or when no item is left. */
  lemma GreedyStops(P: Problem, order: seq<int>, c: nat, R: seq<int>)
    requires ValidProblem(P) && IsPermutation(order, P.Items()) && c <= P.Items()
    requires Feasible(P, Prefix(P, order, c)) && IsUsage(P, Prefix(P, order, c), R)
    requires c < P.Items() ==> !ColumnFits(P, R, order[c])
    ensures GreedyLen(P, order, c) == c
    ensures c < P.Items() ==> !Fits(P, Prefix(P, order, c), order[c])
  {
    if c < P.Items() {
      NextPopped(P, order, c, R);
    }
  }

  /**
   * The state of the row scan after some pops: T is what remains of perm,
   * picked the items selected so far in pop order, x their indicator with
   * usage R, and the scan still bound for the same greedy prefix.
   */
  ghost predicate ScanState(P: Problem, perm: seq<int>, T: seq<int>, picked: seq<int>, x: seq<int>, R: seq<int>)
    requires ValidProblem(P) && IsPermutation(perm, P.Items())
  {
    PopOrderIsPermutation(perm, P.Items());
    && |picked| + |T| == P.Items()
    && T == perm[..|T|]
    && picked == PopOrder(perm)[..|picked|]
    && x == Prefix(P, PopOrder(perm), |picked|)
    && Feasible(P, x) && IsUsage(P, x, R)
    && (EmptyPrefixFeasible(P, PopOrder(perm));
        GreedyLen(P, PopOrder(perm), |picked|) == GreedyLen(P, PopOrder(perm), 0))
  }

  /** Before the first pop. */
  lemma ScanStart(P: Problem, perm: seq<int>)
    requires ValidProblem(P) && IsPermutation(perm, P.Items())
    ensures ScanState(P, perm, perm, [], Zeros(P.Items()), Zeros(P.Knapsacks()))
  {
    PopOrderIsPermutation(perm, P.Items());
    EmptyPrefixFeasible(P, PopOrder(perm));
    ZerosFeasible(P);
    IndicatorEmpty(P.Items());
  }

  /** Popping the last entry of T and selecting it, when it fits, keeps the scan state. */
  lemma ScanPop(P: Problem, perm: seq<int>, T: seq<int>, picked: seq<int>, x: seq<int>, R: seq<int>)
    requires ValidProblem(P) && IsPermutation(perm, P.Items())
    requires ScanState(P, perm, T, picked, x, R)
    requires |T| > 0 && ColumnFits(P, R, T[|T| - 1])
    ensures var j := T[|T| - 1];
      && x[j] == 0
      && ScanState(P, perm, T[..|T| - 1], picked + [j], x[j := 1], AddColumn(P, R, j))
  {
    var order := PopOrder(perm);
    PopOrderIsPermutation(perm, P.Items());
    var j := T[|T| - 1];
    assert j == order[|picked|];
    NextPopped(P, order, |picked|, R);
    GreedyAdvance(P, order, |picked|, R);
    assert order[..|picked| + 1] == picked + [j];
  }

  /** Where the scan stops, the row is the greedy row and the next popped item does not fit. */
  lemma ScanEnd(P: Problem, perm: seq<int>, T: seq<int>, picked: seq<int>, x: seq<int>, R: seq<int>)
    requires ValidProblem(P) && IsPermutation(perm, P.Items())
    requires ScanState(P, perm, T, picked, x, R)
    requires |T| > 0 ==> !(x[T[|T| - 1]] == 0 && ColumnFits(P, R, T[|T| - 1]))
    ensures x == GreedyRow(P, perm)
    ensures Chromosome(P, x) && Feasible(P, x) && IsUsage(P, x, R)
    ensures |picked| <= P.Items() && picked == PopOrder(perm)[..|picked|]
    ensures x == Indicator(P.Items(), picked)
    ensures |picked| < P.Items() ==> !Fits(P, x, PopOrder(perm)[|picked|])
  {
    var order := PopOrder(perm);
    PopOrderIsPermutation(perm, P.Items());
    if |picked| < P.Items() {
      assert order[|picked|] == T[|T| - 1];
      NextPopped(P, order, |picked|, R);
    }
    GreedyStops(P, order, |picked|, R);
  }

  /**
   * One row of initialize_pop. Items are popped from the end of the shuffled
   * array perm and selected while the usage vector R plus the item's cost
   * column stays within every capacity. Returns the row, the list of picked
   * items and R.
   */
  method InitRow(P: Problem, perm: seq<int>) returns (x: seq<int>, picked: seq<int>, R: seq<int>)
    requires ValidProblem(P) && IsPermutation(perm, P.Items())
    ensures x == GreedyRow(P, perm)
    ensures Chromosome(P, x) && Feasible(P, x) && IsUsage(P, x, R)
    ensures |picked| <= P.Items() && picked == PopOrder(perm)[..|picked|]
    ensures x == Indicator(P.Items(), picked)
    ensures |picked| < P.Items() ==> !Fits(P, x, PopOrder(perm)[|picked|])
  {
    ScanStart(P, perm);
    x := Zeros(P.Items());
    R := Zeros(P.Knapsacks());
    picked := [];
    var T := perm;
    while |T| > 0 && x[T[|T| - 1]] == 0 && ColumnFits(P, R, T[|T| - 1])
      invariant ScanState(P, perm, T, picked, x, R)
      decreases |T|
    {
      var j := T[|T| - 1];
      ScanPop(P, perm, T, picked, x, R);
      x := x[j := 1];
      picked := picked + [j];
      R := AddColumn(P, R, j);
      T := T[..|T| - 1];
    }
    ScanEnd(P, perm, T, picked, x, R);
  }

  /** The population whose row k is built from the shuffled array perms[k]. */
  function GreedyPopulation(P: Problem, perms: seq<seq<int>>): seq<seq<int>>
    requires ValidProblem(P) && forall k :: 0 <= k < |perms| ==> IsPermutation(perms[k], P.Items())
  {
    seq(|perms|, k requires 0 <= k < |perms| => GreedyRow(P, perms[k]))
  }

  /**
   * initialize_pop: one greedy row per shuffled array, each followed by the
   * capacity sanity check, which never fails.
   */
  method InitializePop(P: Problem, perms: seq<seq<int>>) returns (res: Result<seq<seq<int>>>)
    requires ValidProblem(P) && forall k :: 0 <= k < |perms| ==> IsPermutation(perms[k], P.Items())
    ensures res.Ok?
    ensures res.value == GreedyPopulation(P, perms)
    ensures forall k :: 0 <= k < |perms| ==> Chromosome(P, res.value[k]) && Feasible(P, res.value[k])
  {
    var S: seq<seq<int>> := [];
    var k := 0;
    while k < |perms|
      invariant 0 <= k <= |perms|
      invariant S == GreedyPopulation(P, perms)[..k]
      invariant forall k' :: 0 <= k' < k ==> Chromosome(P, S[k']) && Feasible(P, S[k'])
    {
      var row, picked, R := InitRow(P, perms[k]);
      // sanity check: any(R > b) raises
      UsageTests(P, row, R);
      if !WithinCapacity(P, R) {
        return Err(InvariantViolation);
      }
      S := S + [row];
      k := k + 1;
    }
    return Ok(S);
  }
}
