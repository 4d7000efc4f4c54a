/**
 * The steady-state, elitist genetic algorithm (find_ga): initialise and
 * evaluate a population, then in every generation breed one child
 * (selection, crossover, mutation, repair), retrying while the child
 * duplicates a population row, overwrite the row of lowest recorded fitness
 * when the child is strictly fitter, and carry the best-so-far record forward,
 * replacing it only with a strictly fitter child.
 *
 * The fitness array is evaluated once, at the start, and never refreshed when
 * a row is overwritten; replacement and selection keep reading those values.
 */
module GeneticAlgorithm {
  import opened Errors
  import opened Knapsack
  import opened Evaluate
  import opened Initializer
  import opened Selection
  import opened Variation
  import opened Repair

  /** The random draws of one breeding attempt. */
  datatype Attempt = Attempt(tournament: TournamentDraw, coins: seq<int>, mutation: MutationDraw)

  /** Draws that the random generator can produce for k rows of n items. */
  predicate ValidAttempt(a: Attempt, k: nat, n: nat) {
    ValidDraw(a.tournament, k) && |a.coins| == n && a.mutation.at < n
  }

  /** Every row is a feasible chromosome. */
  predicate FeasiblePopulation(P: Problem, pop: seq<seq<int>>)
    requires ValidProblem(P)
  {
    forall k :: 0 <= k < |pop| ==> Chromosome(P, pop[k]) && Feasible(P, pop[k])
  }

  function Last<T>(s: seq<T>): T
    requires |s| > 0
  {
    s[|s| - 1]
  }

  /**
   * One breeding attempt: tournament, uniform crossover of the two parents'
   * rows, mutation, repair. It fails only on an unknown repair operator, and
   * otherwise yields a feasible chromosome.
   */
  function Breed(P: Problem, op: string, u: seq<int>, pop: seq<seq<int>>, fitness: seq<int>, a: Attempt): (c: Result<seq<int>>)
    requires ValidProblem(P) && IsPermutation(u, P.Items()) && FeasiblePopulation(P, pop)
    requires |fitness| == |pop| && ValidAttempt(a, |pop|, P.Items())
    ensures c.Err? <==> op != "simple" && op != "fancy"
    ensures c.Err? ==> c.error == UnknownOperator
    ensures c.Ok? ==> Chromosome(P, c.value) && Feasible(P, c.value)
  {
    var parents := BinaryTournament(fitness, a.tournament);
    var child := Crossover(pop[parents.0], pop[parents.1], a.coins);
    var mutant := Mutate(child, a.mutation);
    RepairChild(P, op, u, mutant)
  }

  /** The children that a generation's attempts breed, in order. */
  function BreedAll(P: Problem, op: string, u: seq<int>, pop: seq<seq<int>>, fitness: seq<int>, attempts: seq<Attempt>): (children: seq<Result<seq<int>>>)
    requires ValidProblem(P) && IsPermutation(u, P.Items()) && FeasiblePopulation(P, pop) && |fitness| == |pop|
    requires forall t :: 0 <= t < |attempts| ==> ValidAttempt(attempts[t], |pop|, P.Items())
    ensures |children| == |attempts|
    ensures forall t :: 0 <= t < |children| ==> (children[t].Err? <==> op != "simple" && op != "fancy")
    ensures forall t :: 0 <= t < |children| && children[t].Err? ==> children[t].error == UnknownOperator
    ensures forall t :: 0 <= t < |children| && children[t].Ok? ==>
      Chromosome(P, children[t].value) && Feasible(P, children[t].value)
  {
    seq(|attempts|, t requires 0 <= t < |attempts| => Breed(P, op, u, pop, fitness, attempts[t]))
  }

  /** A bred child that is already a population row. */
  predicate Duplicate(child: Result<seq<int>>, pop: seq<seq<int>>) {
    child.Ok? && child.value in pop
  }

  /**
   * The duplicate-rejection loop over the bred children, in order: the first
   * child that is not a population row, or the first error met on the way.
   * When every child duplicates a row, the attempts are exhausted.
   */
  function FirstFresh(children: seq<Result<seq<int>>>, pop: seq<seq<int>>): (c: Result<seq<int>>)
    ensures c.Ok? ==> c.value !in pop
    ensures c == Err(RetriesExhausted) || c in children
    decreases |children|
  {
    if |children| == 0 then Err(RetriesExhausted)
    else if Duplicate(children[0], pop) then
      var c := FirstFresh(children[1..], pop);
      assert c in children[1..] ==> c in children;
      c
    else children[0]
  }

  /**
   * FirstFresh returns the first child that is an error or not a population
   * row, after children that all duplicate rows; and it reports exhausted
   * attempts when every child duplicates a row.
   */
  lemma {:induction false} FirstFreshIsFirst(children: seq<Result<seq<int>>>, pop: seq<seq<int>>)
    ensures (forall t :: 0 <= t < |children| ==> Duplicate(children[t], pop)) ==>
      FirstFresh(children, pop) == Err(RetriesExhausted)
    ensures (exists t :: 0 <= t < |children| && !Duplicate(children[t], pop)) ==>
      exists t :: 0 <= t < |children| && children[t] == FirstFresh(children, pop)
        && !Duplicate(children[t], pop)
        && forall t' :: 0 <= t' < t ==> Duplicate(children[t'], pop)
    decreases |children|
  {
    if |children| > 0 && Duplicate(children[0], pop) {
      var rest := children[1..];
      assert forall t :: 1 <= t < |children| ==> children[t] == rest[t - 1];
      FirstFreshIsFirst(rest, pop);
      if exists t :: 0 <= t < |children| && !Duplicate(children[t], pop) {
        var t :| 0 <= t < |children| && !Duplicate(children[t], pop);
        assert !Duplicate(rest[t - 1], pop);
        var t1 :| 0 <= t1 < |rest| && rest[t1] == FirstFresh(rest, pop)
          && !Duplicate(rest[t1], pop)
          && forall t' :: 0 <= t' < t1 ==> Duplicate(rest[t'], pop);
        assert children[t1 + 1] == FirstFresh(children, pop);
      }
    }
  }

  /**
   * When no child is itself an exhaustion error, FirstFresh reports exhausted
   * attempts only if every child duplicates a row, and an accepted child is
   * the first child that does not.
   */
  lemma FirstFreshExhausted(children: seq<Result<seq<int>>>, pop: seq<seq<int>>)
    requires forall t :: 0 <= t < |children| ==> children[t] != Err(RetriesExhausted)
    ensures FirstFresh(children, pop) == Err(RetriesExhausted) ==>
      forall t :: 0 <= t < |children| ==> Duplicate(children[t], pop)
    ensures FirstFresh(children, pop).Ok? ==>
      exists t :: 0 <= t < |children| && children[t] == FirstFresh(children, pop)
        && forall t' :: 0 <= t' < t ==> Duplicate(children[t'], pop)
  {
    FirstFreshIsFirst(children, pop);
  }

  /**
   * The child a generation accepts: the first attempt whose repaired child is
   * not already a population row. It is a feasible chromosome; the only
   * failures are an unknown operator and running out of attempts.
   */
  function Child(P: Problem, op: string, u: seq<int>, pop: seq<seq<int>>, fitness: seq<int>, attempts: seq<Attempt>): (c: Result<seq<int>>)
    requires ValidProblem(P) && IsPermutation(u, P.Items()) && FeasiblePopulation(P, pop) && |fitness| == |pop|
    requires forall t :: 0 <= t < |attempts| ==> ValidAttempt(attempts[t], |pop|, P.Items())
    ensures c.Ok? ==> Chromosome(P, c.value) && Feasible(P, c.value) && c.value !in pop
    ensures c.Err? ==> c.error == RetriesExhausted || (c.error == UnknownOperator && op != "simple" && op != "fancy")
    ensures op != "simple" && op != "fancy" && |attempts| > 0 ==> c == Err(UnknownOperator)
  {
    FirstFresh(BreedAll(P, op, u, pop, fitness, attempts), pop)
  }

  /**
   * The duplicate-rejection loop of a generation, stated on Child: it runs out
   * of attempts only when every attempt bred a population row, and an
   * accepted child is the first attempt's child that is not one.
   */
  lemma ChildIsFirstFresh(P: Problem, op: string, u: seq<int>, pop: seq<seq<int>>, fitness: seq<int>, attempts: seq<Attempt>)
    requires ValidProblem(P) && IsPermutation(u, P.Items()) && FeasiblePopulation(P, pop) && |fitness| == |pop|
    requires forall t :: 0 <= t < |attempts| ==> ValidAttempt(attempts[t], |pop|, P.Items())
    ensures var children := BreedAll(P, op, u, pop, fitness, attempts);
      Child(P, op, u, pop, fitness, attempts) == Err(RetriesExhausted) ==>
        forall t :: 0 <= t < |children| ==> Duplicate(children[t], pop)
    ensures var children := BreedAll(P, op, u, pop, fitness, attempts);
      var c := Child(P, op, u, pop, fitness, attempts);
      c.Ok? ==> exists t :: 0 <= t < |children| && children[t] == c && forall t' :: 0 <= t' < t ==> Duplicate(children[t'], pop)
  {
    var children := BreedAll(P, op, u, pop, fitness, attempts);
    FirstFreshExhausted(children, pop);
  }

  /**
   * The optimizer's state: the population, its (never refreshed) fitness
   * array, and the per-generation records of the best fitness and the best
   * chromosome.
   */
  datatype GA = GA(population: seq<seq<int>>, fitness: seq<int>, bestFitness: seq<int>, bestSolution: seq<seq<int>>)

  /**
   * What every generation keeps: a non-empty population of feasible
   * chromosomes with one fitness entry per row, records of equal non-zero
   * length whose chromosomes are feasible and whose fitness entries are
   * their fitness, and a current record at least as fit as every row.
   */
  predicate Consistent(P: Problem, s: GA)
    requires ValidProblem(P)
  {
    && |s.population| >= 1
    && FeasiblePopulation(P, s.population)
    && |s.fitness| == |s.population|
    && |s.bestFitness| == |s.bestSolution| >= 1
    && (forall t :: 0 <= t < |s.bestSolution| ==>
          Chromosome(P, s.bestSolution[t]) && Feasible(P, s.bestSolution[t])
          && s.bestFitness[t] == Fitness(P, s.bestSolution[t]))
    && (forall k :: 0 <= k < |s.population| ==> Fitness(P, s.population[k]) <= Last(s.bestFitness))
  }

  /**
   * The end of a generation, once child c is accepted: evaluate it, overwrite
   * the row at the argmin of the fitness array if c is strictly fitter than
   * that entry, and append the carried-forward record, or c and its fitness
   * if c is strictly fitter than the carried record. The fitness array is
   * left as it was.
   */
  function Advance(P: Problem, s: GA, c: seq<int>): (s': GA)
    requires ValidProblem(P) && Consistent(P, s) && Chromosome(P, c) && Feasible(P, c) && c !in s.population
    ensures Consistent(P, s')
    ensures s'.fitness == s.fitness && |s'.population| == |s.population|
    ensures forall k :: 0 <= k < |s.population| && k != ArgMin(s.fitness) ==> s'.population[k] == s.population[k]
    ensures var w := ArgMin(s.fitness);
      || s'.population[w] == s.population[w]
      || (s'.population[w] == c && Fitness(P, c) > s.fitness[w])
    ensures |s'.bestFitness| == |s.bestFitness| + 1 && |s'.bestSolution| == |s.bestSolution| + 1
    ensures s'.bestFitness[..|s.bestFitness|] == s.bestFitness
    ensures s'.bestSolution[..|s.bestSolution|] == s.bestSolution
    ensures Last(s'.bestFitness) >= Last(s.bestFitness) && Last(s'.bestFitness) >= Fitness(P, c)
    ensures Last(s'.bestFitness) == Last(s.bestFitness) ==> Last(s'.bestSolution) == Last(s.bestSolution)
    ensures Last(s'.bestFitness) > Last(s.bestFitness) ==> Last(s'.bestSolution) == c
    ensures Fitness(P, c) > s.fitness[ArgMin(s.fitness)] ==> s'.population[ArgMin(s.fitness)] == c
    ensures Fitness(P, c) <= s.fitness[ArgMin(s.fitness)] ==> s'.population == s.population
    ensures Fitness(P, c) > Last(s.bestFitness) ==> Last(s'.bestFitness) == Fitness(P, c) && Last(s'.bestSolution) == c
    ensures Fitness(P, c) <= Last(s.bestFitness) ==>
      Last(s'.bestFitness) == Last(s.bestFitness) && Last(s'.bestSolution) == Last(s.bestSolution)
  {
    var cf := Fitness(P, c);
    var worst := ArgMin(s.fitness);
    var population := if cf > s.fitness[worst] then s.population[worst := c] else s.population;
    var record := if cf > Last(s.bestFitness) then (cf, c) else (Last(s.bestFitness), Last(s.bestSolution));
    var s' := GA(population, s.fitness, s.bestFitness + [record.0], s.bestSolution + [record.1]);
    AppendKeepsConsistent(P, s, population, record.0, record.1);
    s'
  }

  /**
   * Appending a feasible record that is at least the current one and at least
   * as fit as every row of a new population of feasible rows keeps the state
   * consistent.
   */
  lemma AppendKeepsConsistent(P: Problem, s: GA, population: seq<seq<int>>, f: int, x: seq<int>)
    requires ValidProblem(P) && Consistent(P, s)
    requires |population| == |s.population| && FeasiblePopulation(P, population)
    requires Chromosome(P, x) && Feasible(P, x) && f == Fitness(P, x)
    requires forall k :: 0 <= k < |population| ==> Fitness(P, population[k]) <= f
    ensures Consistent(P, GA(population, s.fitness, s.bestFitness + [f], s.bestSolution + [x]))
  {
    var s' := GA(population, s.fitness, s.bestFitness + [f], s.bestSolution + [x]);
    assert forall t :: 0 <= t < |s.bestSolution| ==> s'.bestSolution[t] == s.bestSolution[t] && s'.bestFitness[t] == s.bestFitness[t];
  }

  /**
   * One generation of find_ga. The record is carried forward and replaced only
   * by a strictly fitter, newly bred child; at most the row at the argmin of
   * the fitness array changes, and only to a strictly fitter, feasible child
   * that duplicates no row; the fitness array itself is left as it was.
   */
  function Step(P: Problem, op: string, u: seq<int>, s: GA, attempts: seq<Attempt>): (r: Result<GA>)
    requires ValidProblem(P) && IsPermutation(u, P.Items()) && Consistent(P, s)
    requires forall t :: 0 <= t < |attempts| ==> ValidAttempt(attempts[t], |s.population|, P.Items())
    ensures r.Ok? ==> Consistent(P, r.value)
    ensures r.Ok? ==> r.value.fitness == s.fitness && |r.value.population| == |s.population|
    ensures r.Ok? ==> forall k :: 0 <= k < |s.population| && k != ArgMin(s.fitness) ==>
      r.value.population[k] == s.population[k]
    ensures r.Ok? ==> var w := ArgMin(s.fitness);
      || r.value.population[w] == s.population[w]
      || (r.value.population[w] !in s.population && Fitness(P, r.value.population[w]) > s.fitness[w])
    ensures r.Ok? ==> |r.value.bestFitness| == |s.bestFitness| + 1 && |r.value.bestSolution| == |s.bestSolution| + 1
    ensures r.Ok? ==> r.value.bestFitness[..|s.bestFitness|] == s.bestFitness
    ensures r.Ok? ==> r.value.bestSolution[..|s.bestSolution|] == s.bestSolution
    ensures r.Ok? ==> Last(r.value.bestFitness) >= Last(s.bestFitness)
    ensures r.Ok? && Last(r.value.bestFitness) == Last(s.bestFitness) ==>
      Last(r.value.bestSolution) == Last(s.bestSolution)
    ensures r.Ok? && Last(r.value.bestFitness) > Last(s.bestFitness) ==>
      Last(r.value.bestSolution) !in s.population
    ensures r.Err? ==> r.error == RetriesExhausted || (r.error == UnknownOperator && op != "simple" && op != "fancy")
    ensures op != "simple" && op != "fancy" && |attempts| > 0 ==> r == Err(UnknownOperator)
  {
    match Child(P, op, u, s.population, s.fitness, attempts)
    case Err(e) => Err(e)
    case Ok(c) => Ok(Advance(P, s, c))
  }

  /**
   * What a successful generation does with its accepted child c: c overwrites
   * the argmin row exactly when it is strictly fitter than that row's fitness
   * entry, and becomes the record exactly when it is strictly fitter than the
   * carried record; otherwise the population, or the record, is carried.
   */
  lemma StepUsesChild(P: Problem, op: string, u: seq<int>, s: GA, attempts: seq<Attempt>)
    requires ValidProblem(P) && IsPermutation(u, P.Items()) && Consistent(P, s)
    requires forall t :: 0 <= t < |attempts| ==> ValidAttempt(attempts[t], |s.population|, P.Items())
    ensures Step(P, op, u, s, attempts).Ok? <==> Child(P, op, u, s.population, s.fitness, attempts).Ok?
    ensures Step(P, op, u, s, attempts).Err? ==>
      Step(P, op, u, s, attempts).error == Child(P, op, u, s.population, s.fitness, attempts).error
    ensures Child(P, op, u, s.population, s.fitness, attempts).Ok? ==>
      var c := Child(P, op, u, s.population, s.fitness, attempts).value;
      var w := ArgMin(s.fitness);
      var s' := Step(P, op, u, s, attempts).value;
      && (Fitness(P, c) > s.fitness[w] ==> s'.population[w] == c)
      && (Fitness(P, c) <= s.fitness[w] ==> s'.population == s.population)
      && (Fitness(P, c) > Last(s.bestFitness) ==> Last(s'.bestFitness) == Fitness(P, c) && Last(s'.bestSolution) == c)
      && (Fitness(P, c) <= Last(s.bestFitness) ==>
            Last(s'.bestFitness) == Last(s.bestFitness) && Last(s'.bestSolution) == Last(s.bestSolution))
  {
  }

  /** No entry is larger than a later one. */
  predicate NonDecreasing(s: seq<int>) {
    forall t1, t2 :: 0 <= t1 <= t2 < |s| ==> s[t1] <= s[t2]
  }

  /** Appending an entry no smaller than the last keeps a sequence non-decreasing. */
  lemma ExtendNonDecreasing(s: seq<int>, s': seq<int>)
    requires |s| >= 1 && |s'| == |s| + 1 && s'[..|s|] == s && s'[|s|] >= s[|s| - 1]
    requires NonDecreasing(s)
    ensures NonDecreasing(s')
  {
    assert forall t :: 0 <= t < |s| ==> s'[t] == s[t];
  }

  /** Every row of the greedy initial population is a feasible chromosome. */
  lemma GreedyPopulationFeasible(P: Problem, perms: seq<seq<int>>)
    requires ValidProblem(P) && forall k :: 0 <= k < |perms| ==> IsPermutation(perms[k], P.Items())
    ensures FeasiblePopulation(P, GreedyPopulation(P, perms))
  {
    forall k | 0 <= k < |perms|
      ensures Chromosome(P, GreedyPopulation(P, perms)[k]) && Feasible(P, GreedyPopulation(P, perms)[k])
    {
      GreedyRowIsLongestFittingPrefix(P, perms[k]);
    }
  }

  /** The fitness array of a population: one entry per row. */
  function PopulationFitness(P: Problem, pop: seq<seq<int>>): (f: seq<int>)
    requires ValidProblem(P) && FeasiblePopulation(P, pop)
    ensures |f| == |pop|
  {
    seq(|pop|, k requires 0 <= k < |pop| => Fitness(P, pop[k]))
  }

  /** Recording the fittest row of a feasible population gives a consistent state. */
  lemma RecordFittestConsistent(P: Problem, pop: seq<seq<int>>)
    requires ValidProblem(P) && |pop| >= 1 && FeasiblePopulation(P, pop)
    ensures var f := PopulationFitness(P, pop);
      Consistent(P, GA(pop, f, [f[ArgMax(f)]], [pop[ArgMax(f)]]))
  {
    var f := PopulationFitness(P, pop);
    var best := ArgMax(f);
    assert forall k :: 0 <= k < |pop| ==> Fitness(P, pop[k]) == f[k] <= f[best];
  }

  /**
   * Generation 0 as a function: the greedy population, its fitness array, and
   * its fittest row (the first on a tie) with that row's fitness as the only
   * record. It is consistent.
   */
  function InitialGA(P: Problem, perms: seq<seq<int>>): (s: GA)
    requires ValidProblem(P)
    requires |perms| >= 1 && forall k :: 0 <= k < |perms| ==> IsPermutation(perms[k], P.Items())
    ensures Consistent(P, s) && |s.population| == |perms|
  {
    GreedyPopulationFeasible(P, perms);
    var population := GreedyPopulation(P, perms);
    var fitness := PopulationFitness(P, population);
    RecordFittestConsistent(P, population);
    GA(population, fitness, [fitness[ArgMax(fitness)]], [population[ArgMax(fitness)]])
  }

  /**
   * Generation 0 of find_ga: the initial population, its fitness array, and
   * the fittest row (the first one on a tie) as the first record.
   */
  method InitialState(P: Problem, perms: seq<seq<int>>) returns (s: GA)
    requires ValidProblem(P)
    requires |perms| >= 1 && forall k :: 0 <= k < |perms| ==> IsPermutation(perms[k], P.Items())
    ensures Consistent(P, s) && s == InitialGA(P, perms)
    ensures s.bestFitness == [s.fitness[ArgMax(s.fitness)]] && s.bestSolution == [s.population[ArgMax(s.fitness)]]
    ensures s.population == GreedyPopulation(P, perms)
    ensures forall k :: 0 <= k < |perms| ==> s.fitness[k] == Fitness(P, s.population[k])
    ensures |s.bestFitness| == 1
    ensures forall k :: 0 <= k < |perms| ==> s.fitness[k] <= s.bestFitness[0]
  {
    var init := InitializePop(P, perms);
    var population := init.value;
    var fitness := EvaluatePopulation(P, population);
    GreedyPopulationFeasible(P, perms);
    assert fitness == PopulationFitness(P, population);
    var best := ArgMax(fitness);
    s := GA(population, fitness, [fitness[best]], [population[best]]);
  }

  /**
   * The state of find_ga after t generations, started from the population
   * init with fitness array fitness: consistent, t records, non-decreasing,
   * the fitness array untouched and bounded by the first record, and every
   * row other than the argmin of that array still the initial row.
   */
  predicate Run(P: Problem, size: nat, init: seq<seq<int>>, fitness: seq<int>, s: GA, t: nat)
    requires ValidProblem(P)
  {
    && Consistent(P, s)
    && |s.bestFitness| == t
    && NonDecreasing(s.bestFitness)
    && s.fitness == fitness && |s.population| == size && |init| == size
    && (forall k :: 0 <= k < size ==> fitness[k] <= s.bestFitness[0])
    && (forall k :: 0 <= k < size && k != ArgMin(fitness) ==> s.population[k] == init[k])
  }

  /** One successful generation keeps the run state and adds one record. */
  lemma RunStep(P: Problem, op: string, u: seq<int>, size: nat, init: seq<seq<int>>, fitness: seq<int>,
                s: GA, t: nat, attempts: seq<Attempt>)
    requires ValidProblem(P) && IsPermutation(u, P.Items()) && Run(P, size, init, fitness, s, t)
    requires forall a :: 0 <= a < |attempts| ==> ValidAttempt(attempts[a], size, P.Items())
    ensures Step(P, op, u, s, attempts).Ok? ==> Run(P, size, init, fitness, Step(P, op, u, s, attempts).value, t + 1)
  {
    var r := Step(P, op, u, s, attempts);
    if r.Ok? {
      ExtendNonDecreasing(s.bestFitness, r.value.bestFitness);
      assert r.value.bestFitness[0] == s.bestFitness[0];
    }
  }

  /**
   * The generations after the first, as a function: Step is applied with each
   * generation's attempts in turn, and the run stops at the first failing
   * generation with its error.
   */
  function Iterate(P: Problem, op: string, u: seq<int>, s: GA, draws: seq<seq<Attempt>>): Result<GA>
    requires ValidProblem(P) && IsPermutation(u, P.Items()) && Consistent(P, s)
    requires forall t, a :: 0 <= t < |draws| && 0 <= a < |draws[t]| ==> ValidAttempt(draws[t][a], |s.population|, P.Items())
    decreases |draws|
  {
    if |draws| == 0 then Ok(s)
    else
      match Step(P, op, u, s, draws[0])
      case Err(e) => Err(e)
      case Ok(s') => Iterate(P, op, u, s', draws[1..])
  }

  /** One generation of Iterate: a failing Step ends the run, a successful one continues it. */
  lemma IterateUnfold(P: Problem, op: string, u: seq<int>, s: GA, draws: seq<seq<Attempt>>)
    requires ValidProblem(P) && IsPermutation(u, P.Items()) && Consistent(P, s)
    requires forall t, a :: 0 <= t < |draws| && 0 <= a < |draws[t]| ==> ValidAttempt(draws[t][a], |s.population|, P.Items())
    requires |draws| > 0
    ensures Step(P, op, u, s, draws[0]).Err? ==> Iterate(P, op, u, s, draws) == Err(Step(P, op, u, s, draws[0]).error)
    ensures Step(P, op, u, s, draws[0]).Ok? ==>
      Iterate(P, op, u, s, draws) == Iterate(P, op, u, Step(P, op, u, s, draws[0]).value, draws[1..])
  {
  }

  /**
   * A completed run keeps the state consistent with the same number of rows,
   * adds one record per generation, and never lowers the last record.
   */
  lemma {:induction false} IterateProperties(P: Problem, op: string, u: seq<int>, s: GA, draws: seq<seq<Attempt>>)
    requires ValidProblem(P) && IsPermutation(u, P.Items()) && Consistent(P, s)
    requires forall t, a :: 0 <= t < |draws| && 0 <= a < |draws[t]| ==> ValidAttempt(draws[t][a], |s.population|, P.Items())
    ensures var r := Iterate(P, op, u, s, draws);
      && (r.Ok? ==> Consistent(P, r.value) && |r.value.population| == |s.population|)
      && (r.Ok? ==> |r.value.bestFitness| == |s.bestFitness| + |draws|)
      && (r.Ok? ==> Last(r.value.bestFitness) >= Last(s.bestFitness))
    decreases |draws|
  {
    if |draws| > 0 {
      var next := Step(P, op, u, s, draws[0]);
      IterateUnfold(P, op, u, s, draws);
      if next.Ok? {
        IterateProperties(P, op, u, next.value, draws[1..]);
      }
    }
  }

  /** A run of generations fails only by running out of attempts or on an unknown operator. */
  lemma {:induction false} IterateErrors(P: Problem, op: string, u: seq<int>, s: GA, draws: seq<seq<Attempt>>)
    requires ValidProblem(P) && IsPermutation(u, P.Items()) && Consistent(P, s)
    requires forall t, a :: 0 <= t < |draws| && 0 <= a < |draws[t]| ==> ValidAttempt(draws[t][a], |s.population|, P.Items())
    ensures var r := Iterate(P, op, u, s, draws);
      r.Err? ==> r.error == RetriesExhausted || (r.error == UnknownOperator && op != "simple" && op != "fancy")
    decreases |draws|
  {
    if |draws| > 0 {
      var next := Step(P, op, u, s, draws[0]);
      IterateUnfold(P, op, u, s, draws);
      if next.Ok? {
        IterateErrors(P, op, u, next.value, draws[1..]);
      }
    }
  }

  /** A run of generations from a state satisfying Run keeps Run, adding one record per generation. */
  lemma {:induction false} IterateRun(P: Problem, op: string, u: seq<int>, size: nat, init: seq<seq<int>>, fitness: seq<int>,
                                      s: GA, t: nat, draws: seq<seq<Attempt>>)
    requires ValidProblem(P) && IsPermutation(u, P.Items()) && Run(P, size, init, fitness, s, t)
    requires forall i, a :: 0 <= i < |draws| && 0 <= a < |draws[i]| ==> ValidAttempt(draws[i][a], size, P.Items())
    ensures Iterate(P, op, u, s, draws).Ok? ==> Run(P, size, init, fitness, Iterate(P, op, u, s, draws).value, t + |draws|)
    decreases |draws|
  {
    if |draws| > 0 {
      var next := Step(P, op, u, s, draws[0]);
      IterateUnfold(P, op, u, s, draws);
      if next.Ok? {
        RunStep(P, op, u, size, init, fitness, s, t, draws[0]);
        IterateRun(P, op, u, size, init, fitness, next.value, t + 1, draws[1..]);
      }
    }
  }

  /**
   * find_ga over totalIterations generations. Generation 0 records the fittest
   * initial row; each later generation runs Step with its own attempts, so the
   * result is Iterate from InitialGA. On success the fitness record is non-decreasing, every recorded and every
   * population chromosome is feasible, the fitness array is the one evaluated
   * on the initial population, and every row other than that array's argmin
   * is still the initial row.
   */
  method FindGA(P: Problem, totalIterations: nat, op: string, u: seq<int>, perms: seq<seq<int>>, draws: seq<seq<Attempt>>)
    returns (res: Result<GA>)
    requires ValidProblem(P) && IsPermutation(u, P.Items())
    requires |perms| >= 1 && forall k :: 0 <= k < |perms| ==> IsPermutation(perms[k], P.Items())
    requires totalIterations >= 1 && |draws| == totalIterations - 1
    requires forall t, a :: 0 <= t < |draws| && 0 <= a < |draws[t]| ==> ValidAttempt(draws[t][a], |perms|, P.Items())
    ensures res.Ok? ==> Consistent(P, res.value)
    ensures res.Ok? ==> |res.value.bestFitness| == totalIterations
    ensures res.Ok? ==> NonDecreasing(res.value.bestFitness)
    ensures res.Ok? ==> |res.value.fitness| == |perms| && |res.value.population| == |perms|
    ensures res.Ok? ==> forall k :: 0 <= k < |perms| ==>
      res.value.fitness[k] == Fitness(P, GreedyPopulation(P, perms)[k])
      && res.value.fitness[k] <= res.value.bestFitness[0]
    ensures res.Ok? ==> forall k :: 0 <= k < |perms| && k != ArgMin(res.value.fitness) ==>
      res.value.population[k] == GreedyPopulation(P, perms)[k]
    ensures res.Err? ==> res.error == RetriesExhausted || (res.error == UnknownOperator && op != "simple" && op != "fancy")
    ensures totalIterations == 1 ==> res.Ok?
    ensures res == Iterate(P, op, u, InitialGA(P, perms), draws)
  {
    var s := InitialState(P, perms);
    res := Evolve(P, op, u, s, draws);
    IterateProperties(P, op, u, s, draws);
    IterateErrors(P, op, u, s, draws);
  }

  /**
   * The while loop of find_ga, from a first generation s0 that satisfies the
   * run invariant: Step runs once per entry of draws and the loop stops at the
   * first failing generation with its error. The result is what Iterate
   * computes, and a completed run keeps the run invariant relative to s0,
   * with one more record per generation.
   */
  method Evolve(P: Problem, op: string, u: seq<int>, s0: GA, draws: seq<seq<Attempt>>) returns (res: Result<GA>)
    requires ValidProblem(P) && IsPermutation(u, P.Items())
    requires Run(P, |s0.population|, s0.population, s0.fitness, s0, |s0.bestFitness|)
    requires forall t, a :: 0 <= t < |draws| && 0 <= a < |draws[t]| ==> ValidAttempt(draws[t][a], |s0.population|, P.Items())
    ensures res == Iterate(P, op, u, s0, draws)
    ensures res.Ok? ==> Run(P, |s0.population|, s0.population, s0.fitness, res.value, |s0.bestFitness| + |draws|)
  {
    var s := s0;
    var rest := draws;
    while |rest| > 0
      invariant Consistent(P, s) && |s.population| == |s0.population|
      invariant forall t, a :: 0 <= t < |rest| && 0 <= a < |rest[t]| ==> ValidAttempt(rest[t][a], |s0.population|, P.Items())
      invariant Iterate(P, op, u, s0, draws) == Iterate(P, op, u, s, rest)
      decreases |rest|
    {
      var next := Step(P, op, u, s, rest[0]);
      IterateUnfold(P, op, u, s, rest);
      if next.Err? {
        return Err(next.error);
      }
      s := next.value;
      rest := rest[1..];
    }
    res := Ok(s);
    IterateRun(P, op, u, |s0.population|, s0.population, s0.fitness, s0, |s0.bestFitness|, draws);
  }
}
