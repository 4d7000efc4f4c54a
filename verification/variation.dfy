/**
 * The two variation operators: uniform crossover, driven by one coin per bit,
 * and mutation, which with one coin decides whether to flip the bit at a
 * drawn position.
 */
module Variation {
  import opened Knapsack

  /**
   * uniform_crossover: bit i of the child comes from parent_1 when coin i is 0
   * and from parent_2 otherwise.
   */
  function Crossover(parent1: seq<int>, parent2: seq<int>, coins: seq<int>): (child: seq<int>)
    requires |parent1| == |parent2| == |coins|
    ensures |child| == |parent1|
    ensures forall i :: 0 <= i < |child| ==> child[i] == parent1[i] || child[i] == parent2[i]
    ensures IsBinary(parent1) && IsBinary(parent2) ==> IsBinary(child)
  {
    seq(|parent1|, i requires 0 <= i < |parent1| => if coins[i] == 0 then parent1[i] else parent2[i])
  }

  /** Where the parents agree, the child agrees with both. */
  lemma CrossoverKeepsAgreement(parent1: seq<int>, parent2: seq<int>, coins: seq<int>, i: int)
    requires |parent1| == |parent2| == |coins| && 0 <= i < |parent1|
    requires parent1[i] == parent2[i]
    ensures Crossover(parent1, parent2, coins)[i] == parent1[i]
  {
  }

  /** Exchanging the parents and flipping every coin breeds the same child. */
  lemma CrossoverSymmetric(parent1: seq<int>, parent2: seq<int>, coins: seq<int>, flipped: seq<int>)
    requires |parent1| == |parent2| == |coins| == |flipped|
    requires IsBinary(coins)
    requires forall i :: 0 <= i < |coins| ==> flipped[i] == 1 - coins[i]
    ensures Crossover(parent2, parent1, flipped) == Crossover(parent1, parent2, coins)
  {
  }

  /** All-zero coins copy parent_1 and all-one coins copy parent_2. */
  lemma CrossoverConstantCoins(parent1: seq<int>, parent2: seq<int>)
    requires |parent1| == |parent2|
    ensures Crossover(parent1, parent2, Zeros(|parent1|)) == parent1
    ensures Crossover(parent1, parent2, seq(|parent1|, _ => 1)) == parent2
  {
  }

  /** The random draws of one mutation: the coin, and the position to flip. */
  datatype MutationDraw = MutationDraw(coin: int, at: nat)

  /**
   * mutate: a coin of 1 leaves the child alone; any other coin flips the bit
   * at the drawn position, so exactly that position changes.
   */
  function Mutate(child: seq<int>, m: MutationDraw): (mutant: seq<int>)
    requires m.at < |child|
    ensures |mutant| == |child|
    ensures m.coin == 1 ==> mutant == child
    ensures m.coin != 1 ==> mutant[m.at] != child[m.at]
    ensures m.coin != 1 ==> mutant[m.at] == (if child[m.at] == 0 then 1 else 0)
    ensures forall i :: 0 <= i < |child| && i != m.at ==> mutant[i] == child[i]
    ensures IsBinary(child) ==> IsBinary(mutant)
  {
    if m.coin == 1 then child
    else child[m.at := if child[m.at] == 0 then 1 else 0]
  }

  /** On a chromosome, a firing mutation undoes itself when repeated at the same position. */
  lemma MutateInvolution(child: seq<int>, m: MutationDraw)
    requires m.at < |child| && IsBinary(child)
    ensures Mutate(Mutate(child, m), m) == child
  {
  }
}
