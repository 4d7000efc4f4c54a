/**
 * Binary tournament selection (tournament size 2). Two distinct indices are
 * drawn from the pool of all row indices, those two positions are deleted
 * from the pool, and two more distinct indices are drawn from what remains;
 * each pair's winner is its first index of largest fitness.
 */
module Selection {
  import opened Evaluate

  /**
   * The random draws of one tournament, as positions: first and second in the
   * full pool 0..k-1, third and fourth in the pool left after deleting the
   * first pair.
   */
  datatype TournamentDraw = TournamentDraw(first: nat, second: nat, third: nat, fourth: nat)

  /** Draws without replacement: distinct positions inside each pool. */
  predicate ValidDraw(d: TournamentDraw, k: nat) {
    && d.first < k && d.second < k && d.first != d.second
    && d.third < k - 2 && d.fourth < k - 2 && d.third != d.fourth
  }

  /** np.arange(k) */
  function Range(k: nat): seq<int> {
    seq(k, i => i)
  }

  /** np.delete: s without the entries at the given positions, order kept. */
  function DeletePositions(s: seq<int>, drop: set<int>): seq<int>
    decreases |s|
  {
    if |s| == 0 then []
    else DeletePositions(s[..|s| - 1], drop) + (if |s| - 1 in drop then [] else [s[|s| - 1]])
  }

  /** How many of 0..k-1 lie in drop. */
  function CountBelow(k: nat, drop: set<int>): nat {
    if k == 0 then 0 else CountBelow(k - 1, drop) + (if k - 1 in drop then 1 else 0)
  }

  lemma {:induction false} CountBelowPair(k: nat, a: int, b: int)
    requires a != b
    ensures CountBelow(k, {a, b}) == (if 0 <= a < k then 1 else 0) + (if 0 <= b < k then 1 else 0)
  {
    if k > 0 {
      CountBelowPair(k - 1, a, b);
    }
  }

  /**
   * Deleting positions from 0..k-1 leaves, in increasing order, exactly the
   * indices below k that were not deleted.
   */
  lemma {:induction false} DeleteFromRange(k: nat, drop: set<int>)
    ensures |DeletePositions(Range(k), drop)| == k - CountBelow(k, drop)
    ensures forall i :: 0 <= i < |DeletePositions(Range(k), drop)| ==>
      0 <= DeletePositions(Range(k), drop)[i] < k && DeletePositions(Range(k), drop)[i] !in drop
    ensures forall i, j :: 0 <= i < j < |DeletePositions(Range(k), drop)| ==>
      DeletePositions(Range(k), drop)[i] < DeletePositions(Range(k), drop)[j]
  {
    if k > 0 {
      assert Range(k)[..k - 1] == Range(k - 1);
      DeleteFromRange(k - 1, drop);
    }
  }

  /** The pool left for the second pair. */
  function SecondPool(k: nat, d: TournamentDraw): seq<int> {
    DeletePositions(Range(k), {d.first, d.second})
  }

  /**
   * The second pool holds k - 2 distinct indices, none of them in the first
   * pair; hence the two pairs are disjoint.
   */
  lemma SecondPoolShape(k: nat, d: TournamentDraw)
    requires ValidDraw(d, k)
    ensures |SecondPool(k, d)| == k - 2
    ensures forall i :: 0 <= i < k - 2 ==>
      0 <= SecondPool(k, d)[i] < k && SecondPool(k, d)[i] != d.first && SecondPool(k, d)[i] != d.second
    ensures SecondPool(k, d)[d.third] != SecondPool(k, d)[d.fourth]
  {
    DeleteFromRange(k, {d.first, d.second});
    CountBelowPair(k, d.first, d.second);
    var pool := SecondPool(k, d);
    if d.third < d.fourth {
      assert pool[d.third] < pool[d.fourth];
    } else {
      assert pool[d.fourth] < pool[d.third];
    }
  }

  /**
   * binary_tournament_selection: the row indices of the two parents. Each
   * parent is the fitter member of its own pair (the first-listed one on a
   * tie), and as the pairs are disjoint the parents differ.
   */
  function BinaryTournament(fitness: seq<int>, d: TournamentDraw): (parents: (nat, nat))
    requires ValidDraw(d, |fitness|)
    ensures parents.0 < |fitness| && parents.1 < |fitness|
    ensures parents.0 == d.first || parents.0 == d.second
    ensures fitness[parents.0] >= fitness[d.first] && fitness[parents.0] >= fitness[d.second]
    ensures fitness[d.first] >= fitness[d.second] ==> parents.0 == d.first
    ensures |SecondPool(|fitness|, d)| == |fitness| - 2
    ensures 0 <= SecondPool(|fitness|, d)[d.third] < |fitness|
    ensures 0 <= SecondPool(|fitness|, d)[d.fourth] < |fitness|
    ensures parents.1 == SecondPool(|fitness|, d)[d.third] || parents.1 == SecondPool(|fitness|, d)[d.fourth]
    ensures fitness[parents.1] >= fitness[SecondPool(|fitness|, d)[d.third]]
    ensures fitness[parents.1] >= fitness[SecondPool(|fitness|, d)[d.fourth]]
    ensures fitness[SecondPool(|fitness|, d)[d.third]] >= fitness[SecondPool(|fitness|, d)[d.fourth]] ==>
      parents.1 == SecondPool(|fitness|, d)[d.third]
    ensures parents.0 != parents.1
  {
    var k := |fitness|;
    var pool := Range(k);
    var t1 := [pool[d.first], pool[d.second]];
    SecondPoolShape(k, d);
    var pool2 := DeletePositions(pool, {t1[0], t1[1]});
    var t2 := [pool2[d.third], pool2[d.fourth]];
    (t1[ArgMax([fitness[t1[0]], fitness[t1[1]]])], t2[ArgMax([fitness[t2[0]], fitness[t2[1]]])])
  }
}
