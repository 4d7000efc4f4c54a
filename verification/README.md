# A genetic algorithm for the multi-dimensional knapsack problem, in Dafny

This project models the genetic algorithm of Chu and Beasley for the
multi-dimensional knapsack problem (MKP), as the Python program `main.py`
implements it. An MKP instance has n items and m knapsacks. Item j has profit
`p[j]` and cost `r[i][j]` in knapsack i, and knapsack i has capacity `b[i]`.
A chromosome is a 0/1 vector over the items. It is feasible when, in every
knapsack, the summed cost of the selected items is within the capacity.

The model covers:

- the greedy random initialisation of the population;
- population and child fitness;
- binary tournament selection;
- uniform crossover and one-bit mutation;
- the two repair operators: the simple one that zeroes an infeasible child,
  and the drop/add repair of Chu and Beasley driven by a utility ranking;
- the generation loop of `find_ga`, with its duplicate rejection, worst-row
  replacement and the best-so-far record.

Every random draw of the program is an argument of the model:

- each row's shuffled item array;
- the tournament positions;
- the crossover coins;
- the mutation coin and bit;
- the sequence of breeding attempts per generation.

So each operation is a deterministic function of its draws, and a property
proved for all draws holds for every random outcome.

Modules, one per file:

- `Errors` (`errors.dfy`): the `Result` type and the three ways a run can
  stop:
  - an unknown repair operator;
  - a failed sanity check;
  - a generation whose breeding attempts all produced duplicates.
- `Knapsack` (`knapsack.dfy`): the instance, chromosomes, costs (`Dot`),
  feasibility and the usage vector `R` that the program updates in place.
  Also lemmas linking the incremental column tests to feasibility.
- `Evaluate` (`evaluate.dfy`): fitness, population evaluation, argmax and
  argmin with numpy's first-index tie-break.
- `Initializer` (`initializer.dfy`): `initialize_pop`, with a functional
  reference (`GreedyRow`: the longest feasible prefix of the pop order) and
  the loop that maintains `R`.
- `Selection` (`selection.dfy`): binary tournament, including the `np.delete`
  of the first pair from the pool.
- `Variation` (`variation.dfy`): uniform crossover and mutation.
- `Repair` (`repair.dfy`): `repair` and `fancy_repair`, with functional
  references for the drop phase (`Drop`) and the add phase (`AddFrom`), and
  the imperative phases proved equal to them.
- `GeneticAlgorithm` (`genetic_algorithm.dfy`): one generation (`Step`) and
  the whole run (`FindGA`). The function `Iterate` is the reference for the
  `while t < total_iterations` loop: it applies `Step` once per generation and
  stops at the first failing one. `Evolve` runs that loop as a `while` loop
  and is proved to compute `Iterate` and to keep the run invariant (`Run`:
  one record per generation, non-decreasing, the fitness array and the
  non-argmin rows of the start). `FindGA` returns
  `Iterate` from generation 0 (`InitialGA`).

Numbers are unbounded integers, so the model itself never overflows. The
program's sums stay far inside its number types: every cost is drawn below
1000 (`randint(high=1000)`, main.py:28), each profit is below the
average cost of its item, and a row's profit or cost sum is below 1000 times
the number of items. Such sums are exact both in int64 and in the float64
fitness array, so the unbounded model agrees with the program.

## Model

| member | source | states |
|---|---|---|
| Evaluate.Fitness | main.py:102-109 | the fitness of a chromosome with non-negative entries is non-negative (profits are non-negative) |
| Evaluate.FitnessMonotone | main.py:102-109 | selecting more items never lowers fitness: `x <= y` pointwise implies `f(x) <= f(y)` |
| Evaluate.EvaluatePopulation | main.py:84-99 | the row-wise sum computes, for every row, exactly the fitness of that row; one entry per row |
| Evaluate.ArgMax | main.py:311 | the index returned holds a maximum entry, and no earlier entry equals it (numpy's first occurrence) |
| Evaluate.ArgMin | main.py:353 | the index returned holds a minimum entry, and every earlier entry is strictly larger (first occurrence) |
| Initializer.PopOrderIsPermutation | main.py:60-67 | popping a shuffled `arange(n)` from its end visits every item exactly once |
| Initializer.GreedyLen | main.py:66-74 | from a feasible prefix of the pop order, the scan reaches a feasible prefix whose one-longer prefix is infeasible, or runs out of items |
| Initializer.GreedyRowIsLongestFittingPrefix | main.py:66-74 | an initial row is a feasible chromosome selecting a prefix of the pop order; every shorter prefix is feasible and every longer one infeasible; if the first popped item alone overflows, the row is all zeros |
| Initializer.NextPopped | main.py:70 | the next popped item is never already selected (the `S[k, j] == 0` test always holds), and the column test on `R` is exactly feasibility of the row with that item added |
| Initializer.InitRow | main.py:54-74 | the in-place loop builds exactly the greedy row; `R` is its usage; `P` lists the picked items in pop order and the row is their indicator; the first item not picked does not fit |
| Initializer.InitializePop | main.py:39-81 | one greedy row per shuffled array, every row a feasible chromosome; the sanity check never fires |
| Selection.SecondPoolShape | main.py:125-129 | after deleting the first pair, the pool has k-2 entries, all valid rows outside the first pair, and the second pair consists of two distinct rows |
| Selection.DeleteFromRange | main.py:128 | deleting positions from `arange(k)` keeps the others in increasing order and leaves none of the deleted ones |
| Selection.BinaryTournament | main.py:112-135 | each parent is the fitter of its pair, the first-listed one on a tie; the two pairs are disjoint, so the parents are distinct rows |
| Variation.Crossover | main.py:138-159 | the child has the parents' length; every bit comes from one parent or the other; binary parents give a binary child |
| Variation.CrossoverKeepsAgreement | main.py:151-158 | a bit on which both parents agree is inherited whatever the coin |
| Variation.CrossoverSymmetric | main.py:151-158 | swapping the parents and flipping every coin gives the same child |
| Variation.CrossoverConstantCoins | main.py:154-158 | all-zero coins copy the first parent; all-one coins copy the second |
| Variation.Mutate | main.py:162-183 | coin 1 leaves the child as it is; otherwise exactly the drawn bit changes (0 to 1, anything else to 0), all other bits stay, and a binary child stays binary |
| Variation.MutateInvolution | main.py:178-182 | on a binary child, mutating twice with the same draw restores the child |
| Repair.DropLen | main.py:234-239 | clearing the ranking's items from lowest utility upwards reaches a feasible vector, and every earlier stopping point is infeasible |
| Repair.DropProperties | main.py:231-239 | the drop phase yields a feasible chromosome below its input, and leaves a feasible input untouched |
| Repair.AddKeepsFeasible | main.py:245-248 | the add phase keeps a feasible vector feasible |
| Repair.AddIsMaximal | main.py:245-248 | after the add phase, every item at ranking positions 1..n-1 is selected or does not fit |
| Repair.FancyCorrect | main.py:221-255 | fancy repair returns a feasible chromosome that is maximal over ranking positions 1..n-1; from a feasible input it only adds items and never lowers fitness |
| Repair.FancyNotIdentityOnFeasible | main.py:245-248 | fancy repair changes a feasible vector that has room left: with capacity 5 and unit costs, `[0, 0]` becomes `[0, 1]`, and item 0 (ranking position 0) still fits but is never considered |
| Repair.DropPhase | main.py:234-239 | the in-place drop loop stops at the first feasible prefix clearing, keeps `R` equal to the usage, and computes the reference drop |
| Repair.AddPhaseStep | main.py:246-248 | one add step on `R` is the reference add step, and `R` stays the usage |
| Repair.AddPhase | main.py:245-248 | the in-place add loop computes the reference add phase and keeps `R` equal to the usage |
| Repair.FancyRepair | main.py:221-255 | `fancy_repair` returns the reference result, which is feasible, so the sanity check never fires |
| Repair.RepairChild | main.py:258-283 | an unknown operator is an error and the only one; "simple" keeps a feasible child and zeroes an infeasible one; "fancy" is the drop/add repair; every result is feasible |
| Repair.SimpleRepairExample | main.py:273-276 | on one knapsack of capacity 700 with costs 500, 300, 200, 400, the all-ones child is infeasible and becomes all zeros |
| GeneticAlgorithm.Breed | main.py:330-339 | one breeding attempt (tournament, crossover, mutation, repair) gives a feasible chromosome, or the unknown-operator error exactly when the operator is unknown |
| GeneticAlgorithm.BreedAll | main.py:330-347 | one child per attempt; each child is a feasible chromosome, or the unknown-operator error exactly when the operator is unknown |
| GeneticAlgorithm.FirstFresh | main.py:343-347 | the accepted child is one of the bred children and duplicates no row |
| GeneticAlgorithm.FirstFreshIsFirst | main.py:343-347 | the first attempt that is an error or a non-duplicate is the one taken, and retries run out only when every attempt duplicated a row |
| GeneticAlgorithm.FirstFreshExhausted | main.py:343-347 | when no child is itself an exhaustion error, retries run out only if every child duplicates a row, and an accepted child is the first child that does not |
| GeneticAlgorithm.Child | main.py:330-347 | a generation's child is feasible and new to the population; an unknown operator is reported on the first attempt |
| GeneticAlgorithm.ChildIsFirstFresh | main.py:330-347 | a generation runs out of attempts only when every attempt bred a population row; an accepted child is the child of some attempt, and every earlier attempt bred a population row |
| GeneticAlgorithm.AppendKeepsConsistent | main.py:326-327 | appending a feasible record that bounds every row keeps the run state consistent |
| GeneticAlgorithm.Advance | main.py:350-359 | the child overwrites the row at the argmin of the fitness array exactly when it is strictly fitter than that entry, and otherwise the population is unchanged; no other row and no fitness entry changes; the record grows by one entry, which is the child and its fitness exactly when the child is strictly fitter than the carried record, and the carried record otherwise |
| GeneticAlgorithm.Step | main.py:322-362 | one generation keeps the state consistent; the record is carried forward unless a strictly fitter new child replaces it; at most the argmin row changes, and only to a fresh, strictly fitter feasible child |
| GeneticAlgorithm.StepUsesChild | main.py:343-359 | a generation fails exactly when its duplicate-rejection loop fails, with the same error; otherwise its accepted child replaces the argmin row exactly when strictly fitter than that row's fitness entry, and becomes the record exactly when strictly fitter than the carried record |
| GeneticAlgorithm.ExtendNonDecreasing | main.py:326-359 | a record extended by an entry no smaller than its last stays non-decreasing |
| GeneticAlgorithm.GreedyPopulationFeasible | main.py:39-81 | every row of the greedy initial population is a feasible chromosome |
| GeneticAlgorithm.RecordFittestConsistent | main.py:311-317 | recording the fittest row of a feasible population, with its fitness, as the only record gives a consistent state |
| GeneticAlgorithm.InitialGA | main.py:304-317 | generation 0 is consistent and has one row per shuffled array |
| GeneticAlgorithm.InitialState | main.py:304-319 | generation 0 is `InitialGA`: the greedy population, its fitness array, and as the only record the row at `argmax` of that array (the first on a tie) with its fitness, which bounds every fitness entry |
| GeneticAlgorithm.RunStep | main.py:322-362 | a successful generation keeps the run invariant and adds one record |
| GeneticAlgorithm.IterateProperties | main.py:322-362 | a completed run is consistent, keeps the number of rows, adds one record per generation and never lowers the last record |
| GeneticAlgorithm.IterateErrors | main.py:322-362 | a run fails only by running out of attempts or on an unknown operator |
| GeneticAlgorithm.IterateRun | main.py:322-362 | a completed run keeps the run invariant: non-decreasing records, the same fitness array, and every row other than its argmin unchanged |
| GeneticAlgorithm.Evolve | main.py:322-364 | the generation loop, stopping at the first failing generation, returns what `Iterate` computes; from a state that satisfies the run invariant, a completed loop keeps it with one more record per generation (non-decreasing records, the start's fitness array and non-argmin rows) |
| GeneticAlgorithm.FindGA | main.py:286-364 | the result is `Iterate` from generation 0; the run yields one record per iteration, non-decreasing and all feasible; the fitness array stays that of the initial population; every row other than that array's argmin is still its initial row; a single iteration never fails |

## Left out

- `Problem.__init__` (main.py:24-36): draws a random instance with float
  arithmetic. The model takes any instance with non-negative integer data
  and at least one item and one knapsack.
- `repair_preprocess` (main.py:186-218): solves a linear program with scipy.
  The model takes the resulting ranking `u` as an arbitrary permutation of
  the items, so every property of the repair holds for any ranking. The
  program sums only the first two dual variables (main.py:212-214), whatever
  the number of knapsacks: with three or more knapsacks this changes only
  the ranking, but with a single knapsack `w[1]` and `r[1, :]` raise
  `IndexError` at main.py:214, and `find_ga` aborts at main.py:308 before
  generation 0.
- GeneticAlgorithm.FindGA: the model starts from a ranking that
  `repair_preprocess` has already returned. One-knapsack instances, on which
  the program raises at main.py:214, are admitted by the validity
  precondition and modelled as if that ranking existed; the claim that a
  single iteration never fails is about the generation loop only.
- Random draws (`np.random.shuffle`, `choice`, `randint`) are arguments, as
  described above.
- GeneticAlgorithm.FindGA: the duplicate-rejection loop at main.py:343-347
  can run forever. The model takes a finite list of attempts per generation
  and returns `RetriesExhausted` when all of them duplicate a row.
- Initializer.InitRow: when every item fits, the program pops from an empty
  array at main.py:74 and raises `IndexError`. The model stops the scan when
  the array is empty, so the row then selects every item.
- Selection.BinaryTournament: the program raises when the population has
  fewer than four rows. The draw's validity precondition requires four.
- Evaluate.EvaluatePopulation: `population[:, 0]` needs at least one item.
  Instances with no item or no knapsack are excluded by the validity
  precondition.
- GeneticAlgorithm.FindGA: requires at least one population row, because
  `np.argmax` of an empty fitness array raises at main.py:311. It also
  requires at least one iteration, because `fitness_record[0, 0]` is out of
  bounds at main.py:316 when `total_iterations` is 0. Both are preconditions
  rather than error results.
- GeneticAlgorithm.InitialState: requires at least one population row, for
  the same `np.argmax` at main.py:311.
- Timing (`time_record`), plotting (`plot_results`) and the script entry
  point are not modelled.
- The exception raised for an unknown repair operator is the
  `UnknownOperator` error, and a failed sanity check is the
  `InvariantViolation` error. The model proves the sanity checks never fail.

Two places where the program behaves differently from what its own comments
say; the model follows the program:

- The comment at main.py:352 says the member of the population with the
  lowest fitness is replaced. But the fitness array computed at main.py:306
  is never updated when a row is replaced. Every generation's argmin
  (main.py:353) is therefore the same row. FindGA proves that every other
  row keeps its initial value.
- The docstring at main.py:223 says `fancy_repair` implements Algorithm 1 of
  Chu and Beasley, whose add phase scans the whole utility ranking. The
  program's `range(n - 1, 0, -1)` stops before 0, so the item at ranking
  position 0 is never added. Fancy repair is also not the identity on
  feasible input: its add phase may select further items.
  FancyNotIdentityOnFeasible exhibits both facts.
