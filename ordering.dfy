/**
 * The two ordering policies a BinaryHeap can be given: the three-way
 * `compare` of MinHeap (ascending, the root is the least element) and of
 * MaxHeap (descending, the root is the greatest element).  The heap engine
 * only ever asks whether `compare(a, b) < 0`, that is, whether `a` strictly
 * outranks `b` and belongs closer to the root.
 */
module Ordering {

  /** Which subclass supplies `compare`: MinHeap or MaxHeap. */
  datatype Policy = Min | Max

  /** MinHeap::compare: -1, 0 or 1 as `a` is below, equal to or above `b`. */
  function MinCompare(a: int, b: int): (r: int)
    ensures r == -1 <==> a < b
    ensures r == 0 <==> a == b
    ensures r == 1 <==> b < a
  {
    if a < b then -1
    else if a == b then 0
    else 1
  }

  /** MaxHeap::compare: 1, 0 or -1 as `a` is below, equal to or above `b`. */
  function MaxCompare(a: int, b: int): (r: int)
    ensures r == 1 <==> a < b
    ensures r == 0 <==> a == b
    ensures r == -1 <==> b < a
  {
    if a < b then 1
    else if a == b then 0
    else -1
  }

  /** The virtual `compare` of a heap with the given policy. */
  function Compare(p: Policy, a: int, b: int): (r: int)
    ensures r in {-1, 0, 1}
    ensures r == 0 <==> a == b
  {
    match p
    case Min => MinCompare(a, b)
    case Max => MaxCompare(a, b)
  }

  /** `a` strictly outranks `b`: the heap swaps `a` above `b`. */
  predicate Outranks(p: Policy, a: int, b: int)
  {
    Compare(p, a, b) < 0
  }

  /** Outranking is "less than" for MinHeap and "greater than" for MaxHeap. */
  lemma OutranksMeaning(p: Policy, a: int, b: int)
    ensures p == Min ==> (Outranks(p, a, b) <==> a < b)
    ensures p == Max ==> (Outranks(p, a, b) <==> b < a)
  {
  }

  /** Equal elements never outrank each other, so they never cause a swap. */
  lemma CompareReflexive(p: Policy, a: int)
    ensures Compare(p, a, a) == 0
    ensures !Outranks(p, a, a)
  {
  }

  /** Swapping the arguments negates the result. */
  lemma CompareAntisymmetric(p: Policy, a: int, b: int)
    ensures Compare(p, a, b) == -Compare(p, b, a)
  {
  }

  /** MaxHeap's comparison is MinHeap's with its arguments exchanged. */
  lemma MaxIsFlippedMin(a: int, b: int)
    ensures MaxCompare(a, b) == MinCompare(b, a)
  {
  }

  /**
   * Outranking is asymmetric and "does not outrank" is transitive.  These
   * are the only facts about `compare` that the heap-order proofs use.
   */
  lemma NotOutranksIsTotalPreorder(p: Policy, a: int, b: int, c: int)
    ensures Outranks(p, a, b) ==> !Outranks(p, b, a)
    ensures !Outranks(p, a, b) && !Outranks(p, b, c) ==> !Outranks(p, a, c)
    ensures Outranks(p, a, b) && !Outranks(p, c, b) ==> Outranks(p, a, c)
  {
  }
}
