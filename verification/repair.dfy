/**
 * The two repair operators that turn a bred chromosome into a feasible one.
 *
 * "simple" resets an infeasible chromosome to the empty selection.
 * "fancy" is the drop/add repair (Algorithm 1 of Chu and Beasley) driven by
 * an item ranking u in ascending order of utility: the drop phase deselects
 * items in ranking order, lowest utility first, until every knapsack is within
 * capacity; the add phase then scans ranking positions n-1 down to 1 and
 * selects each unselected item that still fits. Position 0 is never scanned.
 */
module Repair {
  import opened Errors
  import opened Knapsack
  import opened Evaluate

  /** x with every item among the first j ranked items deselected. */
  function ClearPrefix(x: seq<int>, u: seq<int>, j: nat): seq<int>
    requires j <= |u|
  {
    seq(|x|, v requires 0 <= v < |x| => if v in u[..j] then 0 else x[v])
  }

  /** Clearing one more ranked item is a single-bit update. */
  lemma ClearPrefixStep(x: seq<int>, u: seq<int>, j: nat)
    requires j < |u| && 0 <= u[j] < |x|
    ensures ClearPrefix(x, u, j + 1) == ClearPrefix(x, u, j)[u[j] := 0]
  {
    assert u[..j + 1] == u[..j] + [u[j]];
  }

  /** A cleared chromosome is a chromosome selecting a subset of x. */
  lemma ClearPrefixBelow(P: Problem, x: seq<int>, u: seq<int>, j: nat)
    requires Chromosome(P, x) && j <= |u|
    ensures Chromosome(P, ClearPrefix(x, u, j)) && Below(ClearPrefix(x, u, j), x)
  {
  }

  /** Clearing the whole ranking of a permutation leaves the empty selection, which is feasible. */
  lemma ClearAllIsFeasible(P: Problem, x: seq<int>, u: seq<int>)
    requires ValidProblem(P) && |x| == P.Items() && IsPermutation(u, P.Items())
    ensures ClearPrefix(x, u, |u|) == Zeros(P.Items())
    ensures Feasible(P, ClearPrefix(x, u, |u|))
  {
    assert u[..|u|] == u;
    ZerosFeasible(P);
  }

  /**
   * How many ranked items the drop phase scans when it resumes at position j:
   * the first position at or after j where clearing the ranked prefix restores
   * feasibility. It never passes n.
   */
  function DropLen(P: Problem, u: seq<int>, x: seq<int>, j: nat): (g: nat)
    requires ValidProblem(P) && Chromosome(P, x) && IsPermutation(u, P.Items()) && j <= P.Items()
    ensures j <= g <= P.Items()
    ensures Feasible(P, ClearPrefix(x, u, g))
    ensures forall j' :: j <= j' < g ==> !Feasible(P, ClearPrefix(x, u, j'))
    decreases P.Items() - j
  {
    ClearAllIsFeasible(P, x, u);
    if Feasible(P, ClearPrefix(x, u, j)) then j else DropLen(P, u, x, j + 1)
  }

  /** The outcome of the drop phase. */
  function Drop(P: Problem, u: seq<int>, x: seq<int>): seq<int>
    requires ValidProblem(P) && Chromosome(P, x) && IsPermutation(u, P.Items())
  {
    ClearPrefix(x, u, DropLen(P, u, x, 0))
  }

  /**
   * The drop phase only deselects items, ends feasible, and leaves a chromosome
   * that is already feasible untouched.
   */
  lemma DropProperties(P: Problem, u: seq<int>, x: seq<int>)
    requires ValidProblem(P) && Chromosome(P, x) && IsPermutation(u, P.Items())
    ensures Chromosome(P, Drop(P, u, x)) && Below(Drop(P, u, x), x)
    ensures Feasible(P, Drop(P, u, x))
    ensures Feasible(P, x) ==> Drop(P, u, x) == x
  {
    ClearPrefixBelow(P, x, u, DropLen(P, u, x, 0));
    assert u[..0] == [];
    assert ClearPrefix(x, u, 0) == x;
  }

  /**
   * The add phase still to run over ranking positions j-1 down to 1: each
   * unselected item that fits is selected.
   */
  function AddFrom(P: Problem, u: seq<int>, x: seq<int>, j: nat): (y: seq<int>)
    requires ValidProblem(P) && Chromosome(P, x) && IsPermutation(u, P.Items()) && j <= P.Items()
    ensures Chromosome(P, y) && Below(x, y)
    decreases j
  {
    if j <= 1 then x
    else
      var item := u[j - 1];
      var x' := if x[item] == 0 && Fits(P, x, item) then x[item := 1] else x;
      AddFrom(P, u, x', j - 1)
  }

  /** The add phase never breaks feasibility. */
  lemma {:induction false} AddKeepsFeasible(P: Problem, u: seq<int>, x: seq<int>, j: nat)
    requires ValidProblem(P) && Chromosome(P, x) && IsPermutation(u, P.Items()) && j <= P.Items()
    requires Feasible(P, x)
    ensures Feasible(P, AddFrom(P, u, x, j))
    decreases j
  {
    if j > 1 {
      var item := u[j - 1];
      if x[item] == 0 && Fits(P, x, item) {
        FitsIffFeasibleWith(P, x, item);
        AddKeepsFeasible(P, u, x[item := 1], j - 1);
      } else {
        AddKeepsFeasible(P, u, x, j - 1);
      }
    }
  }

  /**
   * After the add phase, every item at ranking positions 1..j-1 is selected or
   * would overflow some knapsack if it were added.
   */
  lemma {:induction false} AddIsMaximal(P: Problem, u: seq<int>, x: seq<int>, j: nat)
    requires ValidProblem(P) && Chromosome(P, x) && IsPermutation(u, P.Items()) && j <= P.Items()
    ensures forall t :: 1 <= t < j ==>
      AddFrom(P, u, x, j)[u[t]] == 1 || !Fits(P, AddFrom(P, u, x, j), u[t])
    decreases j
  {
    if j > 1 {
      var item := u[j - 1];
      var x' := if x[item] == 0 && Fits(P, x, item) then x[item := 1] else x;
      var y := AddFrom(P, u, x, j);
      assert y == AddFrom(P, u, x', j - 1);
      AddIsMaximal(P, u, x', j - 1);
      if x'[item] != 1 {
        MisfitUpward(P, x, y, item);
      }
    }
  }

  /** The fancy repair: the drop phase followed by the add phase over positions n-1..1. */
  function Fancy(P: Problem, u: seq<int>, x: seq<int>): seq<int>
    requires ValidProblem(P) && Chromosome(P, x) && IsPermutation(u, P.Items())
  {
    DropProperties(P, u, x);
    AddFrom(P, u, Drop(P, u, x), P.Items())
  }

  /**
   * The fancy repair yields a feasible chromosome in which no item at ranking
   * positions 1..n-1 is left out although it fits; on a feasible input it
   * only adds items, so it never lowers fitness.
   */
  lemma FancyCorrect(P: Problem, u: seq<int>, x: seq<int>)
    requires ValidProblem(P) && Chromosome(P, x) && IsPermutation(u, P.Items())
    ensures Chromosome(P, Fancy(P, u, x)) && Feasible(P, Fancy(P, u, x))
    ensures forall t :: 1 <= t < P.Items() ==>
      Fancy(P, u, x)[u[t]] == 1 || !Fits(P, Fancy(P, u, x), u[t])
    ensures Feasible(P, x) ==> Below(x, Fancy(P, u, x)) && Fitness(P, x) <= Fitness(P, Fancy(P, u, x))
  {
    DropProperties(P, u, x);
    var d := Drop(P, u, x);
    AddKeepsFeasible(P, u, d, P.Items());
    AddIsMaximal(P, u, d, P.Items());
    if Feasible(P, x) {
      FitnessMonotone(P, x, Fancy(P, u, x));
    }
  }

  /** One knapsack of capacity 5 and two items of cost 1 and profit 1. */
  function TwoItemProblem(): Problem {
    Problem([[1, 1]], [5], [1, 1])
  }

  lemma TwoItemCosts()
    ensures ValidProblem(TwoItemProblem()) && IsPermutation([0, 1], 2)
    ensures Cost(TwoItemProblem(), [0, 0], 0) == 0
    ensures Cost(TwoItemProblem(), [0, 1], 0) == 1
  {
    var P := TwoItemProblem();
    assert [0, 0] == Zeros(2);
    ZerosFeasible(P);
    assert [1, 1][..1] == [1] && [0, 1][..1] == [0];
    assert Dot([1], [0]) == 0;
  }

  /**
   * The fancy repair is not the identity on feasible input, and the add phase
   * skips ranking position 0: with one knapsack of capacity 5, two items of
   * cost 1 and ranking [0, 1], the empty selection is repaired to [0, 1],
   * although item 0 would still fit.
   */
  lemma FancyNotIdentityOnFeasible()
    ensures ValidProblem(TwoItemProblem()) && IsPermutation([0, 1], 2)
    ensures Feasible(TwoItemProblem(), [0, 0])
    ensures Fancy(TwoItemProblem(), [0, 1], [0, 0]) == [0, 1]
    ensures Fits(TwoItemProblem(), [0, 1], 0)
  {
    var P := TwoItemProblem();
    var u := [0, 1];
    var x := [0, 0];
    TwoItemCosts();
    DropProperties(P, u, x);
    assert Fits(P, x, 1);
    assert x[1 := 1] == [0, 1];
    assert AddFrom(P, u, x, 2) == AddFrom(P, u, [0, 1], 1);
  }

  /**
   * repair: compute the usage of x, then dispatch on the operator name. The
   * simple strategy returns a feasible input unchanged and resets an
   * infeasible one to all zeros; the fancy strategy returns the fancy repair;
   * any other name is an error. Every successful result is feasible.
   */
  function RepairChild(P: Problem, op: string, u: seq<int>, x: seq<int>): (res: Result<seq<int>>)
    requires ValidProblem(P) && Chromosome(P, x) && IsPermutation(u, P.Items())
    ensures res.Err? <==> op != "simple" && op != "fancy"
    ensures res.Err? ==> res.error == UnknownOperator
    ensures res.Ok? ==> Chromosome(P, res.value) && Feasible(P, res.value)
    ensures op == "simple" ==> (Feasible(P, x) ==> res == Ok(x)) && (!Feasible(P, x) ==> res == Ok(Zeros(P.Items())))
    ensures op == "fancy" ==> res == Ok(Fancy(P, u, x))
  {
    ZerosFeasible(P);
    FancyCorrect(P, u, x);
    if op == "simple" then
      if !Feasible(P, x) then Ok(Zeros(P.Items())) else Ok(x)
    else if op == "fancy" then
      Ok(Fancy(P, u, x))
    else
      Err(UnknownOperator)
  }

  /** The simple repair of the four-item example reduces the full selection [1,1,1,1] (cost 1400 > 700) to all zeros. */
  lemma SimpleRepairExample()
    ensures var P := Problem([[500, 300, 200, 400]], [700], [50, 80, 30, 60]);
      && ValidProblem(P)
      && !Feasible(P, [1, 1, 1, 1])
      && RepairChild(P, "simple", [0, 1, 2, 3], [1, 1, 1, 1]) == Ok([0, 0, 0, 0])
  {
    var P := Problem([[500, 300, 200, 400]], [700], [50, 80, 30, 60]);
    var r: seq<int> := [500, 300, 200, 400];
    var x: seq<int> := [1, 1, 1, 1];
    assert P.r[0] == r;
    assert r[..3] == [500, 300, 200] && x[..3] == [1, 1, 1];
    assert r[..3][..2] == [500, 300] && x[..3][..2] == [1, 1];
    assert r[..3][..2][..1] == [500] && x[..3][..2][..1] == [1];
    assert Dot([500], [1]) == 500;
    assert Dot([500, 300], [1, 1]) == 800;
    assert Dot([500, 300, 200], [1, 1, 1]) == 1000;
    assert Cost(P, x, 0) == 1400;
    assert Zeros(4) == [0, 0, 0, 0];
  }

  // ---------------------------------------------------------------------------
  // The imperative fancy_repair with its scratch usage vector R.
  // ---------------------------------------------------------------------------

  /**
   * The drop phase of fancy_repair: while any knapsack is over capacity, take
   * the next ranked item and deselect it if selected. It scans the shortest
   * ranked prefix whose removal restores feasibility, and never runs off the
   * end of the ranking.
   */
  method DropPhase(P: Problem, u: seq<int>, x: seq<int>, R: seq<int>) returns (y: seq<int>, Ry: seq<int>, j: nat)
    requires ValidProblem(P) && Chromosome(P, x) && IsPermutation(u, P.Items()) && IsUsage(P, x, R)
    ensures j <= P.Items() && y == ClearPrefix(x, u, j)
    ensures forall j' :: 0 <= j' < j ==> !Feasible(P, ClearPrefix(x, u, j'))
    ensures Feasible(P, y) && IsUsage(P, y, Ry)
    ensures y == Drop(P, u, x)
  {
    var n := P.Items();
    ClearAllIsFeasible(P, x, u);
    assert u[..0] == [];
    y, Ry, j := x, R, 0;
    while !WithinCapacity(P, Ry)
      invariant 0 <= j <= n
      invariant y == ClearPrefix(x, u, j) && Chromosome(P, y)
      invariant IsUsage(P, y, Ry)
      invariant forall j' :: 0 <= j' < j ==> !Feasible(P, ClearPrefix(x, u, j'))
      decreases n - j
    {
      UsageTests(P, y, Ry);
      assert j < n;
      var item := u[j];
      if y[item] == 1 {
        UsageAfterClear(P, y, Ry, item);
        y := y[item := 0];
        Ry := SubColumn(P, Ry, item);
      } else {
        assert y[item := 0] == y;
      }
      ClearPrefixStep(x, u, j);
      j := j + 1;
    }
    UsageTests(P, y, Ry);
    var g := DropLen(P, u, x, 0);
    assert !(g < j) && !(j < g);
  }

  /**
   * One iteration of the add phase at ranking position j: selecting u[j]
   * exactly when it is unselected and its column fits on top of the usage
   * vector is the step AddFrom takes there.
   */
  lemma AddPhaseStep(P: Problem, u: seq<int>, y: seq<int>, R: seq<int>, j: nat, y': seq<int>, R': seq<int>)
    requires ValidProblem(P) && Chromosome(P, y) && IsPermutation(u, P.Items()) && IsUsage(P, y, R)
    requires 0 < j < P.Items()
    requires y' == if y[u[j]] == 0 && ColumnFits(P, R, u[j]) then y[u[j] := 1] else y
    requires R' == if y[u[j]] == 0 && ColumnFits(P, R, u[j]) then AddColumn(P, R, u[j]) else R
    ensures Chromosome(P, y') && IsUsage(P, y', R')
    ensures AddFrom(P, u, y, j + 1) == AddFrom(P, u, y', j)
  {
    UsageTests(P, y, R);
    if y[u[j]] == 0 && ColumnFits(P, R, u[j]) {
      UsageAfterSet(P, y, R, u[j]);
    }
  }

  /**
   * The add phase of fancy_repair: for j = n-1 down to 1, select item u[j] if
   * it is unselected and its cost column fits on top of R.
   */
  method AddPhase(P: Problem, u: seq<int>, x: seq<int>, R: seq<int>) returns (y: seq<int>, Ry: seq<int>)
    requires ValidProblem(P) && Chromosome(P, x) && IsPermutation(u, P.Items()) && IsUsage(P, x, R)
    ensures y == AddFrom(P, u, x, P.Items())
    ensures Chromosome(P, y) && IsUsage(P, y, Ry)
  {
    y, Ry := x, R;
    var j := P.Items() - 1;
    while j > 0
      invariant 0 <= j < P.Items()
      invariant Chromosome(P, y) && IsUsage(P, y, Ry)
      invariant AddFrom(P, u, y, j + 1) == AddFrom(P, u, x, P.Items())
      decreases j
    {
      var item := u[j];
      ghost var y0, R0 := y, Ry;
      if y[item] == 0 && ColumnFits(P, Ry, item) {
        y := y[item := 1];
        Ry := AddColumn(P, Ry, item);
      }
      AddPhaseStep(P, u, y0, R0, j, y, Ry);
      j := j - 1;
    }
  }

  /**
   * fancy_repair(S, R, problem, u): the drop phase, the add phase, then the
   * capacity sanity check, which never fails.
   */
  method FancyRepair(S: seq<int>, R: seq<int>, P: Problem, u: seq<int>) returns (res: Result<seq<int>>)
    requires ValidProblem(P) && Chromosome(P, S) && IsPermutation(u, P.Items()) && IsUsage(P, S, R)
    ensures res == Ok(Fancy(P, u, S))
    ensures res.Ok? && Feasible(P, res.value)
  {
    var dropped, R1, _ := DropPhase(P, u, S, R);
    ClearPrefixBelow(P, S, u, DropLen(P, u, S, 0));
    var added, R2 := AddPhase(P, u, dropped, R1);
    FancyCorrect(P, u, S);
    UsageTests(P, added, R2);
    if !WithinCapacity(P, R2) {
      return Err(InvariantViolation);
    }
    return Ok(added);
  }
}
