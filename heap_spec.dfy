/**
 * The binary-heap engine of BinaryHeap.h stated on values: the live prefix
 * `data[0..elements)` as a sequence, the sift-up and sift-down walks as
 * functions on it, and what they preserve.  The class in binary_heap.dfy
 * runs the same walks in place on its array and is proved equal to these
 * functions.
 */
module HeapSpec {
  import opened Ordering

  /**
   * `(index - 1) / 2` with C++'s truncating division: the parent of a
   * non-root slot, and 0 for the root (since -1 / 2 truncates to 0).
   */
  function ParentIndex(index: nat): (r: nat)
    ensures index == 0 ==> r == 0
    ensures index > 0 ==> r < index && (2 * r + 1 == index || 2 * r + 2 == index)
  {
    if index == 0 then 0 else (index - 1) / 2
  }

  /** `std::swap(data[i], data[j])` on the live elements. */
  function Swap(s: seq<int>, i: nat, j: nat): (r: seq<int>)
    requires i < |s| && j < |s|
    ensures |r| == |s| && r[i] == s[j] && r[j] == s[i]
  {
    s[i := s[j]][j := s[i]]
  }

  /** The heap property: no live element outranks its parent. */
  ghost predicate HeapOrdered(p: Policy, s: seq<int>)
  {
    forall j :: 0 < j < |s| ==> !Outranks(p, s[j], s[ParentIndex(j)])
  }

  /**
   * heapifyUp (BinaryHeap.h:122-132): while the element at `i` outranks
   * its parent, swap the two and continue from the parent.  At the root
   * the parent index is 0 itself, and an element never outranks itself.
   */
  function SiftUp(p: Policy, s: seq<int>, i: nat): (r: seq<int>)
    requires i < |s|
    ensures |r| == |s|
    decreases i
  {
    var parent := ParentIndex(i);
    if Outranks(p, s[i], s[parent]) then SiftUp(p, Swap(s, i, parent), parent)
    else s
  }

  /**
   * heapifyDown (BinaryHeap.h:135-157) as the source writes it: with two
   * children, the left one is chosen only if it strictly outranks the
   * right one, and swapped with the node only if it strictly outranks it;
   * a leaf is left alone; a node whose only child is the left one is
   * swapped with it WITHOUT a comparison.
   */
  function SiftDownAsWritten(p: Policy, s: seq<int>, i: nat): (r: seq<int>)
    ensures |r| == |s|
    decreases |s| - i
  {
    var left := 2 * i + 1;
    var right := left + 1;
    if right < |s| then
      var best := if Outranks(p, s[left], s[right]) then left else right;
      if Outranks(p, s[best], s[i]) then SiftDownAsWritten(p, Swap(s, best, i), best)
      else s
    else if right > |s| then s
    else Swap(s, left, i)
  }

  /**
   * heapifyDown with the one-child case corrected: the only child is
   * swapped with the node only if it strictly outranks it, as in the
   * two-children case.
   */
  function SiftDown(p: Policy, s: seq<int>, i: nat): (r: seq<int>)
    ensures |r| == |s|
    decreases |s| - i
  {
    var left := 2 * i + 1;
    var right := left + 1;
    if right < |s| then
      var best := if Outranks(p, s[left], s[right]) then left else right;
      if Outranks(p, s[best], s[i]) then SiftDown(p, Swap(s, best, i), best)
      else s
    else if right > |s| then s
    else if Outranks(p, s[left], s[i]) then Swap(s, left, i)
    else s
  }

  /**
   * The first two steps of extractRoot (BinaryHeap.h:97-99): the last live
   * element is swapped into the root and the live count drops by one.
   */
  function LastToRoot(s: seq<int>): (r: seq<int>)
    requires |s| > 0
    ensures |r| == |s| - 1
  {
    Swap(s, 0, |s| - 1)[..|s| - 1]
  }

  /** The values extractRoot returns, in order, until the heap is empty. */
  function DrainAsWritten(p: Policy, s: seq<int>): (r: seq<int>)
    ensures |r| == |s|
    decreases |s|
  {
    if |s| == 0 then [] else [s[0]] + DrainAsWritten(p, SiftDownAsWritten(p, LastToRoot(s), 0))
  }

  /** The same with the corrected sift-down. */
  function Drain(p: Policy, s: seq<int>): (r: seq<int>)
    ensures |r| == |s|
    decreases |s|
  {
    if |s| == 0 then [] else [s[0]] + Drain(p, SiftDown(p, LastToRoot(s), 0))
  }

  /** The live prefix after inserting each of `xs`, in order, into `s`. */
  function InsertAll(p: Policy, s: seq<int>, xs: seq<int>): (r: seq<int>)
    ensures |r| == |s| + |xs|
    decreases |xs|
  {
    if |xs| == 0 then s else InsertAll(p, SiftUp(p, s + [xs[0]], |s|), xs[1..])
  }

  /** `t` is in the policy's order: no later element outranks an earlier one. */
  ghost predicate SortedBy(p: Policy, t: seq<int>)
  {
    forall i, j :: 0 <= i < j < |t| ==> !Outranks(p, t[j], t[i])
  }

  // ---------------------------------------------------------------------
  // The walks only rearrange the live elements.
  // ---------------------------------------------------------------------

  /** A swap keeps the multiset of elements. */
  lemma SwapPermutes(s: seq<int>, i: nat, j: nat)
    requires i < |s| && j < |s|
    ensures multiset(Swap(s, i, j)) == multiset(s)
  {
  }

  /** A swap leaves every slot other than the two exchanged ones alone. */
  lemma SwapKeepsOthers(s: seq<int>, i: nat, j: nat)
    requires i < |s| && j < |s|
    ensures forall k :: 0 <= k < |s| && k != i && k != j ==> Swap(s, i, j)[k] == s[k]
  {
  }

  /**
   * After the root swap and the count drop, the old last element is the
   * root and every slot strictly between keeps its element.
   */
  lemma LastToRootContents(s: seq<int>)
    requires |s| > 1
    ensures LastToRoot(s)[0] == s[|s| - 1]
    ensures forall k :: 0 < k < |s| - 1 ==> LastToRoot(s)[k] == s[k]
  {
  }

  /** Sift-up keeps the multiset of elements. */
  lemma {:induction false} SiftUpPermutes(p: Policy, s: seq<int>, i: nat)
    requires i < |s|
    ensures multiset(SiftUp(p, s, i)) == multiset(s)
    decreases i
  {
    var parent := ParentIndex(i);
    if Outranks(p, s[i], s[parent]) {
      SwapPermutes(s, i, parent);
      SiftUpPermutes(p, Swap(s, i, parent), parent);
    }
  }

  /** Sift-down as written keeps the multiset of elements. */
  lemma {:induction false} SiftDownAsWrittenPermutes(p: Policy, s: seq<int>, i: nat)
    ensures multiset(SiftDownAsWritten(p, s, i)) == multiset(s)
    decreases |s| - i
  {
    var left := 2 * i + 1;
    var right := left + 1;
    if right < |s| {
      var best := if Outranks(p, s[left], s[right]) then left else right;
      if Outranks(p, s[best], s[i]) {
        SwapPermutes(s, best, i);
        SiftDownAsWrittenPermutes(p, Swap(s, best, i), best);
      }
    } else if right == |s| {
      SwapPermutes(s, left, i);
    }
  }

  /** Corrected sift-down keeps the multiset of elements. */
  lemma {:induction false} SiftDownPermutes(p: Policy, s: seq<int>, i: nat)
    ensures multiset(SiftDown(p, s, i)) == multiset(s)
    decreases |s| - i
  {
    var left := 2 * i + 1;
    var right := left + 1;
    if right < |s| {
      var best := if Outranks(p, s[left], s[right]) then left else right;
      if Outranks(p, s[best], s[i]) {
        SwapPermutes(s, best, i);
        SiftDownPermutes(p, Swap(s, best, i), best);
      }
    } else if right == |s| {
      SwapPermutes(s, left, i);
    }
  }

  /** Moving the last element to the root removes exactly one copy of the root. */
  lemma LastToRootRemovesRoot(s: seq<int>)
    requires |s| > 0
    ensures multiset(LastToRoot(s)) + multiset{s[0]} == multiset(s)
  {
    var t := Swap(s, 0, |s| - 1);
    SwapPermutes(s, 0, |s| - 1);
    assert t == t[..|s| - 1] + [s[0]];
  }

  /** Extraction as written removes exactly the root from the multiset. */
  lemma ExtractAsWrittenPermutes(p: Policy, s: seq<int>)
    requires |s| > 0
    ensures multiset(SiftDownAsWritten(p, LastToRoot(s), 0)) + multiset{s[0]} == multiset(s)
  {
    LastToRootRemovesRoot(s);
    SiftDownAsWrittenPermutes(p, LastToRoot(s), 0);
  }

  /** Corrected extraction removes exactly the root from the multiset. */
  lemma ExtractPermutes(p: Policy, s: seq<int>)
    requires |s| > 0
    ensures multiset(SiftDown(p, LastToRoot(s), 0)) + multiset{s[0]} == multiset(s)
  {
    LastToRootRemovesRoot(s);
    SiftDownPermutes(p, LastToRoot(s), 0);
  }

  // ---------------------------------------------------------------------
  // Sift-up restores heap order after an append.
  // ---------------------------------------------------------------------

  /**
   * What holds while sift-up is at `i`: every element except the one at
   * `i` is ordered below its parent, and the children of `i` are ordered
   * below the parent of `i` too.
   */
  ghost predicate OrderedExceptUp(p: Policy, s: seq<int>, i: nat)
  {
    (forall j :: 0 < j < |s| && j != i ==> !Outranks(p, s[j], s[ParentIndex(j)])) &&
    (i > 0 ==> forall j :: 0 < j < |s| && ParentIndex(j) == i ==> !Outranks(p, s[j], s[ParentIndex(i)]))
  }

  /** One swap of sift-up moves the exception from `i` to its parent. */
  lemma SiftUpStep(p: Policy, s: seq<int>, i: nat)
    requires 0 < i < |s| && OrderedExceptUp(p, s, i)
    requires Outranks(p, s[i], s[ParentIndex(i)])
    ensures OrderedExceptUp(p, Swap(s, i, ParentIndex(i)), ParentIndex(i))
  {
    var q := ParentIndex(i);
    var t := Swap(s, i, q);
    forall j | 0 < j < |t| && j != q
      ensures !Outranks(p, t[j], t[ParentIndex(j)])
    {
      NotOutranksIsTotalPreorder(p, s[i], s[q], s[j]);
      NotOutranksIsTotalPreorder(p, s[j], s[q], s[i]);
    }
    if q > 0 {
      var g := ParentIndex(q);
      forall j | 0 < j < |t| && ParentIndex(j) == q
        ensures !Outranks(p, t[j], t[g])
      {
        NotOutranksIsTotalPreorder(p, s[j], s[q], s[g]);
        NotOutranksIsTotalPreorder(p, s[q], s[g], s[j]);
      }
    }
  }

  /** Sift-up from the only out-of-place slot yields a heap. */
  lemma {:induction false} SiftUpRestoresOrder(p: Policy, s: seq<int>, i: nat)
    requires i < |s| && OrderedExceptUp(p, s, i)
    ensures HeapOrdered(p, SiftUp(p, s, i))
    decreases i
  {
    var q := ParentIndex(i);
    if Outranks(p, s[i], s[q]) {
      SiftUpStep(p, s, i);
      SiftUpRestoresOrder(p, Swap(s, i, q), q);
    }
  }

  /** insert keeps a heap a heap (BinaryHeap.h:79-83). */
  lemma InsertKeepsOrder(p: Policy, s: seq<int>, x: int)
    requires HeapOrdered(p, s)
    ensures HeapOrdered(p, SiftUp(p, s + [x], |s|))
  {
    var t := s + [x];
    assert OrderedExceptUp(p, t, |s|) by {
      forall j | 0 < j < |t| && j != |s|
        ensures !Outranks(p, t[j], t[ParentIndex(j)])
      {
        assert t[j] == s[j] && t[ParentIndex(j)] == s[ParentIndex(j)];
      }
    }
    SiftUpRestoresOrder(p, t, |s|);
  }

  // ---------------------------------------------------------------------
  // Sift-down after the last element is moved to the root.
  // ---------------------------------------------------------------------

  /**
   * What holds while sift-down is at `i`: every element whose parent is
   * not `i` is ordered below its parent, and the children of `i` are
   * ordered below the parent of `i`.
   */
  ghost predicate OrderedExceptDown(p: Policy, s: seq<int>, i: nat)
  {
    (forall j :: 0 < j < |s| && ParentIndex(j) != i ==> !Outranks(p, s[j], s[ParentIndex(j)])) &&
    (0 < i < |s| ==> forall j :: 0 < j < |s| && ParentIndex(j) == i ==> !Outranks(p, s[j], s[ParentIndex(i)]))
  }

  /** One swap of sift-down (corrected or not) moves the exception to the child. */
  lemma SiftDownStep(p: Policy, s: seq<int>, i: nat, c: nat)
    requires c < |s| && ParentIndex(c) == i && c > 0 && OrderedExceptDown(p, s, i)
    requires Outranks(p, s[c], s[i])
    requires forall j :: 0 < j < |s| && ParentIndex(j) == i ==> !Outranks(p, s[j], s[c])
    ensures OrderedExceptDown(p, Swap(s, c, i), c)
  {
    var t := Swap(s, c, i);
    forall j | 0 < j < |t| && ParentIndex(j) != c
      ensures !Outranks(p, t[j], t[ParentIndex(j)])
    {
      if j == c {
        NotOutranksIsTotalPreorder(p, s[c], s[i], s[i]);
      } else if ParentIndex(j) == i {
        assert t[j] == s[j];
      } else if j == i {
        assert t[ParentIndex(j)] == s[ParentIndex(j)];
      } else {
        assert t[j] == s[j] && t[ParentIndex(j)] == s[ParentIndex(j)];
      }
    }
    forall j | 0 < j < |t| && ParentIndex(j) == c
      ensures !Outranks(p, t[j], t[i])
    {
      assert t[j] == s[j];
    }
  }

  /** A node whose chosen child does not outrank it leaves a heap. */
  lemma SiftDownStopsOrdered(p: Policy, s: seq<int>, i: nat, c: nat)
    requires c < |s| && ParentIndex(c) == i && c > 0 && OrderedExceptDown(p, s, i)
    requires !Outranks(p, s[c], s[i])
    requires forall j :: 0 < j < |s| && ParentIndex(j) == i ==> !Outranks(p, s[j], s[c])
    ensures HeapOrdered(p, s)
  {
    forall j | 0 < j < |s| && ParentIndex(j) == i
      ensures !Outranks(p, s[j], s[i])
    {
      NotOutranksIsTotalPreorder(p, s[j], s[c], s[i]);
    }
  }

  /** Of two children, the one sift-down picks is outranked by neither. */
  lemma BestChild(p: Policy, s: seq<int>, i: nat)
    requires 2 * i + 2 < |s|
    ensures var best := if Outranks(p, s[2 * i + 1], s[2 * i + 2]) then 2 * i + 1 else 2 * i + 2;
            forall j :: 0 < j < |s| && ParentIndex(j) == i ==> !Outranks(p, s[j], s[best])
  {
    NotOutranksIsTotalPreorder(p, s[2 * i + 1], s[2 * i + 2], s[2 * i + 2]);
  }

  /** A node whose only child is the last live slot halts corrected sift-down ordered. */
  lemma SiftDownLastChild(p: Policy, s: seq<int>, i: nat)
    requires 2 * i + 2 == |s| && OrderedExceptDown(p, s, i)
    ensures Outranks(p, s[2 * i + 1], s[i]) ==> HeapOrdered(p, Swap(s, 2 * i + 1, i))
    ensures !Outranks(p, s[2 * i + 1], s[i]) ==> HeapOrdered(p, s)
  {
    var left := 2 * i + 1;
    if Outranks(p, s[left], s[i]) {
      SiftDownStep(p, s, i, left);
      var t := Swap(s, left, i);
      forall j | 0 < j < |t|
        ensures !Outranks(p, t[j], t[ParentIndex(j)])
      {
        assert ParentIndex(j) != left;
      }
    } else {
      SiftDownStopsOrdered(p, s, i, left);
    }
  }

  /** Corrected sift-down from the only out-of-place slot yields a heap. */
  lemma {:induction false} SiftDownRestoresOrder(p: Policy, s: seq<int>, i: nat)
    requires OrderedExceptDown(p, s, i)
    ensures HeapOrdered(p, SiftDown(p, s, i))
    decreases |s| - i
  {
    var left := 2 * i + 1;
    var right := left + 1;
    if right < |s| {
      var best := if Outranks(p, s[left], s[right]) then left else right;
      BestChild(p, s, i);
      if Outranks(p, s[best], s[i]) {
        SiftDownStep(p, s, i, best);
        SiftDownRestoresOrder(p, Swap(s, best, i), best);
      } else {
        SiftDownStopsOrdered(p, s, i, best);
      }
    } else if right == |s| {
      SiftDownLastChild(p, s, i);
    }
  }

  /** Moving the last element to the root leaves only the root out of place. */
  lemma LastToRootOrderedExceptRoot(p: Policy, s: seq<int>)
    requires |s| > 0 && HeapOrdered(p, s)
    ensures OrderedExceptDown(p, LastToRoot(s), 0)
  {
    var t := LastToRoot(s);
    forall j | 0 < j < |t| && ParentIndex(j) != 0
      ensures !Outranks(p, t[j], t[ParentIndex(j)])
    {
      assert t[j] == s[j] && t[ParentIndex(j)] == s[ParentIndex(j)];
    }
  }

  /** Corrected extraction keeps a heap a heap. */
  lemma ExtractKeepsOrder(p: Policy, s: seq<int>)
    requires |s| > 0 && HeapOrdered(p, s)
    ensures HeapOrdered(p, SiftDown(p, LastToRoot(s), 0))
  {
    LastToRootOrderedExceptRoot(p, s);
    SiftDownRestoresOrder(p, LastToRoot(s), 0);
  }

  // ---------------------------------------------------------------------
  // The root of a heap is its extreme element.
  // ---------------------------------------------------------------------

  /** No live element of a heap outranks the root. */
  lemma {:induction false} RootIsExtreme(p: Policy, s: seq<int>, k: nat)
    requires HeapOrdered(p, s) && k < |s|
    ensures !Outranks(p, s[k], s[0])
    decreases k
  {
    if k > 0 {
      var q := ParentIndex(k);
      RootIsExtreme(p, s, q);
      NotOutranksIsTotalPreorder(p, s[k], s[q], s[0]);
    }
  }

  /** The root of a non-empty heap is outranked by no live element. */
  lemma RootOutranksAll(p: Policy, s: seq<int>)
    requires HeapOrdered(p, s) && |s| > 0
    ensures forall k :: 0 <= k < |s| ==> !Outranks(p, s[k], s[0])
  {
    forall k | 0 <= k < |s| ensures !Outranks(p, s[k], s[0]) {
      RootIsExtreme(p, s, k);
    }
  }

  /** MinHeap: the root of a heap is its minimum. */
  lemma MinRootIsMinimum(s: seq<int>)
    requires HeapOrdered(Min, s) && |s| > 0
    ensures forall k :: 0 <= k < |s| ==> s[0] <= s[k]
  {
    forall k | 0 <= k < |s| ensures s[0] <= s[k] {
      RootIsExtreme(Min, s, k);
    }
  }

  /** MaxHeap: the root of a heap is its maximum. */
  lemma MaxRootIsMaximum(s: seq<int>)
    requires HeapOrdered(Max, s) && |s| > 0
    ensures forall k :: 0 <= k < |s| ==> s[k] <= s[0]
  {
    forall k | 0 <= k < |s| ensures s[k] <= s[0] {
      RootIsExtreme(Max, s, k);
    }
  }

  // ---------------------------------------------------------------------
  // Repeated extraction.
  // ---------------------------------------------------------------------

  /** Every element of a heap, wherever it sits, is outranked by the root. */
  lemma RootOutranksMembers(p: Policy, s: seq<int>, x: int)
    requires HeapOrdered(p, s) && x in multiset(s)
    ensures |s| > 0 && !Outranks(p, x, s[0])
  {
    assert x in s;
    var k :| 0 <= k < |s| && s[k] == x;
    RootIsExtreme(p, s, k);
  }

  /** Putting an element no later one outranks in front keeps a sequence sorted. */
  lemma SortedCons(p: Policy, x: int, d: seq<int>)
    requires SortedBy(p, d)
    requires forall j :: 0 <= j < |d| ==> !Outranks(p, d[j], x)
    ensures SortedBy(p, [x] + d)
  {
    var t := [x] + d;
    forall i, j | 0 <= i < j < |t| ensures !Outranks(p, t[j], t[i]) {
      assert t[j] == d[j - 1];
      if i > 0 {
        assert t[i] == d[i - 1];
      }
    }
  }

  /**
   * With the corrected sift-down, extracting everything from a heap yields
   * its elements, each once, in the policy's order.
   */
  lemma {:induction false} DrainSorted(p: Policy, s: seq<int>)
    requires HeapOrdered(p, s)
    ensures multiset(Drain(p, s)) == multiset(s)
    ensures SortedBy(p, Drain(p, s))
    decreases |s|
  {
    if |s| > 0 {
      var rest := SiftDown(p, LastToRoot(s), 0);
      ExtractKeepsOrder(p, s);
      ExtractPermutes(p, s);
      DrainSorted(p, rest);
      var d := Drain(p, rest);
      assert Drain(p, s) == [s[0]] + d;
      forall j | 0 <= j < |d| ensures !Outranks(p, d[j], s[0]) {
        assert d[j] in multiset(d);
        RootOutranksMembers(p, s, d[j]);
      }
      SortedCons(p, s[0], d);
    }
  }

  /** A MinHeap drains in non-decreasing order, a MaxHeap in non-increasing order. */
  lemma DrainSortedNaturally(p: Policy, s: seq<int>)
    requires HeapOrdered(p, s)
    ensures p == Min ==> forall i, j :: 0 <= i < j < |Drain(p, s)| ==> Drain(p, s)[i] <= Drain(p, s)[j]
    ensures p == Max ==> forall i, j :: 0 <= i < j < |Drain(p, s)| ==> Drain(p, s)[j] <= Drain(p, s)[i]
  {
    DrainSorted(p, s);
  }

  /** Inserting into a heap, one element after another, gives a heap. */
  lemma {:induction false} InsertAllOrdered(p: Policy, s: seq<int>, xs: seq<int>)
    requires HeapOrdered(p, s)
    ensures HeapOrdered(p, InsertAll(p, s, xs))
    ensures multiset(InsertAll(p, s, xs)) == multiset(s) + multiset(xs)
    decreases |xs|
  {
    if |xs| > 0 {
      InsertKeepsOrder(p, s, xs[0]);
      SiftUpPermutes(p, s + [xs[0]], |s|);
      InsertAllOrdered(p, SiftUp(p, s + [xs[0]], |s|), xs[1..]);
      assert xs == [xs[0]] + xs[1..];
    }
  }

  /**
   * Heap sort through the corrected engine: inserting `xs` into an empty
   * heap and extracting everything gives `xs` sorted by the policy.
   */
  lemma HeapSortCorrected(p: Policy, xs: seq<int>)
    ensures multiset(Drain(p, InsertAll(p, [], xs))) == multiset(xs)
    ensures SortedBy(p, Drain(p, InsertAll(p, [], xs)))
  {
    InsertAllOrdered(p, [], xs);
    DrainSorted(p, InsertAll(p, [], xs));
  }

  /**
   * Even with the one-child swap as written, extracting everything yields
   * each element once: only the order of the drained values can be wrong.
   */
  lemma {:induction false} DrainAsWrittenPermutes(p: Policy, s: seq<int>)
    ensures multiset(DrainAsWritten(p, s)) == multiset(s)
    decreases |s|
  {
    if |s| > 0 {
      ExtractAsWrittenPermutes(p, s);
      DrainAsWrittenPermutes(p, SiftDownAsWritten(p, LastToRoot(s), 0));
    }
  }

  /** Inserting `xs` and draining as written gives back a permutation of `xs`. */
  lemma HeapSortAsWrittenPermutes(p: Policy, xs: seq<int>)
    ensures multiset(DrainAsWritten(p, InsertAll(p, [], xs))) == multiset(xs)
  {
    InsertAllOrdered(p, [], xs);
    DrainAsWrittenPermutes(p, InsertAll(p, [], xs));
  }

  // ---------------------------------------------------------------------
  // The one-child swap of heapifyDown, as written, breaks heap order.
  // ---------------------------------------------------------------------

  /** Inserting 1, 5, 3, in this order, into an empty MinHeap gives [1, 5, 3]. */
  lemma WitnessInsertions()
    ensures InsertAll(Min, [], [1, 5, 3]) == [1, 5, 3]
  {
  }

  /** The three sift-ups of inserting 1, 5, 3 into an empty MinHeap move nothing. */
  lemma WitnessSiftUps()
    ensures SiftUp(Min, [1], 0) == [1]
    ensures SiftUp(Min, [1, 5], 1) == [1, 5]
    ensures SiftUp(Min, [1, 5, 3], 2) == [1, 5, 3]
  {
  }

  /** The second and third extractions: [5, 3] leaves [3], which leaves []. */
  lemma WitnessLaterExtractions()
    ensures SiftDownAsWritten(Min, LastToRoot([5, 3]), 0) == [3]
    ensures SiftDownAsWritten(Min, LastToRoot([3]), 0) == []
  {
    assert LastToRoot([5, 3]) == [3];
  }

  /** The first extraction from [1, 5, 3] leaves [5, 3]. */
  lemma WitnessFirstExtraction()
    ensures SiftDownAsWritten(Min, LastToRoot([1, 5, 3]), 0) == [5, 3]
  {
  }

  /** The three extractions from [1, 5, 3], as written, return 1, 5, 3. */
  lemma WitnessDrainAsWritten()
    ensures DrainAsWritten(Min, [1, 5, 3]) == [1, 5, 3]
  {
  }

  /** 1, 5, 3 is not in MinHeap order. */
  lemma WitnessUnsorted()
    ensures !SortedBy(Min, [1, 5, 3])
  {
    var t := [1, 5, 3];
    assert Outranks(Min, t[2], t[1]);
  }

  /**
   * Inserting 1, 5, 3 into a MinHeap gives the heap [1, 5, 3]; extracting
   * the root leaves [3, 5], whose root has a single child, and the
   * uncompared swap turns it into [5, 3], which is not a heap.  The three
   * extractions then return 1, 5, 3, out of order.
   */
  lemma OneChildSwapBreaksOrder()
    ensures InsertAll(Min, [], [1, 5, 3]) == [1, 5, 3]
    ensures HeapOrdered(Min, [1, 5, 3])
    ensures SiftDownAsWritten(Min, LastToRoot([1, 5, 3]), 0) == [5, 3]
    ensures !HeapOrdered(Min, [5, 3])
    ensures DrainAsWritten(Min, [1, 5, 3]) == [1, 5, 3]
  {
    WitnessInsertions();
    WitnessFirstExtraction();
    WitnessDrainAsWritten();
    assert Outranks(Min, ([5, 3])[1], ([5, 3])[ParentIndex(1)]);
  }

  /** Inserting 5, 3, 8, 1, 9, 2 into an empty MinHeap gives [1, 3, 2, 5, 9, 8]. */
  lemma WitnessSixInsertions()
    ensures InsertAll(Min, [], [5, 3, 8, 1, 9, 2]) == [1, 3, 2, 5, 9, 8]
  {
  }

  /** As written, that heap drains as 1, 2, 3, 5, 9, 8: the last two out of order. */
  lemma WitnessSixDrainAsWritten()
    ensures DrainAsWritten(Min, [1, 3, 2, 5, 9, 8]) == [1, 2, 3, 5, 9, 8]
  {
  }

  /** With the corrected sift-down it drains as 1, 2, 3, 5, 8, 9. */
  lemma WitnessSixDrainCorrected()
    ensures Drain(Min, [1, 3, 2, 5, 9, 8]) == [1, 2, 3, 5, 8, 9]
  {
  }

  /** With the corrected sift-down the same heap drains as 1, 3, 5. */
  lemma WitnessDrainCorrected()
    ensures Drain(Min, [1, 5, 3]) == [1, 3, 5]
  {
  }
}
