/**
 * BinaryHeap.h with the `compare` of MinHeap.h or MaxHeap.h: a buffer
 * `data` of capacity `dataLength` whose first `elements` slots are the live
 * heap.  The virtual `compare` of the two subclasses is the `policy` the
 * heap is built with.  Each operation works in place on the buffer and is
 * proved equal to the corresponding function of HeapSpec.
 */
module BinaryHeaps {
  import opened Ordering
  import opened HeapSpec

  /** BinaryHeap::DEFAULT_SIZE. */
  const DEFAULT_SIZE: nat := 10

  class BinaryHeap {
    /** MinHeap or MaxHeap: which `compare` this heap uses. */
    const policy: Policy
    var data: array<int>
    /** The live count. */
    var elements: nat
    /** The capacity, kept beside the buffer as in the source. */
    var dataLength: nat

    /** The bookkeeping every public operation keeps. */
    ghost predicate Valid()
      reads this
    {
      dataLength == data.Length && 0 < dataLength && elements <= dataLength
    }

    /** The live elements `data[0..elements)`. */
    ghost function Contents(): seq<int>
      reads this, data
      requires Valid()
    {
      data[..elements]
    }

    /**
     * BinaryHeap(int initialCapacity), reached through MinHeap(int) or
     * MaxHeap(int): a non-positive capacity is replaced by DEFAULT_SIZE.
     */
    constructor (policy: Policy, initialCapacity: int)
      ensures Valid() && fresh(data)
      ensures this.policy == policy
      ensures dataLength == if initialCapacity <= 0 then DEFAULT_SIZE else initialCapacity
      ensures Contents() == []
    {
      var capacity := if initialCapacity <= 0 then DEFAULT_SIZE else initialCapacity;
      this.policy := policy;
      dataLength := capacity;
      data := new int[capacity];
      elements := 0;
    }

    /** BinaryHeap(), reached through MinHeap() or MaxHeap(). */
    constructor Default(policy: Policy)
      ensures Valid() && fresh(data)
      ensures this.policy == policy
      ensures dataLength == DEFAULT_SIZE
      ensures Contents() == []
    {
      this.policy := policy;
      dataLength := DEFAULT_SIZE;
      data := new int[DEFAULT_SIZE];
      elements := 0;
    }

    /**
     * The copy constructors of MinHeap and MaxHeap: a fresh buffer of the
     * other heap's capacity holding a copy of its live elements.
     */
    constructor Copy(other: BinaryHeap)
      requires other.Valid()
      ensures Valid() && fresh(data)
      ensures policy == other.policy
      ensures dataLength == other.dataLength
      ensures Contents() == other.Contents()
    {
      // other.dataLength is positive, so BinaryHeap(other.dataLength) keeps it
      var copy := new int[other.dataLength];
      var k := 0;
      while k < other.elements
        invariant 0 <= k <= other.elements
        invariant copy[..k] == other.data[..k]
      {
        copy[k] := other.data[k];
        k := k + 1;
      }
      policy := other.policy;
      dataLength := other.dataLength;
      data := copy;
      elements := other.elements;
    }

    /** size(). */
    function Size(): (n: nat)
      reads this, data
      requires Valid()
      ensures n == |Contents()|
    {
      elements
    }

    /** trueSize(): the capacity, never below the size. */
    function TrueSize(): (n: nat)
      reads this, data
      requires Valid()
      ensures n == data.Length && Size() <= n
    {
      dataLength
    }

    /** isEmpty(). */
    predicate IsEmpty()
      reads this, data
      requires Valid()
      ensures IsEmpty() <==> Contents() == []
    {
      Size() == 0
    }

    /**
     * insert: grow the buffer if it is full, append the element and sift
     * it up.  The capacity doubles exactly when the heap was full.
     */
    method Insert(element: int)
      requires Valid()
      modifies this, data
      ensures Valid()
      ensures old(elements) == old(dataLength) ==> fresh(data) && dataLength == 2 * old(dataLength)
      ensures old(elements) < old(dataLength) ==> data == old(data) && dataLength == old(dataLength)
      ensures elements == old(elements) + 1
      ensures Contents() == SiftUp(policy, old(Contents()) + [element], old(elements))
      ensures multiset(Contents()) == multiset(old(Contents())) + multiset{element}
      ensures HeapOrdered(policy, old(Contents())) ==> HeapOrdered(policy, Contents())
    {
      ghost var before := Contents();
      if elements == dataLength {
        DoubleSize();
      }
      data[elements] := element;
      elements := elements + 1;
      assert Contents() == before + [element];
      HeapifyUp(elements - 1);
      SiftUpPermutes(policy, before + [element], elements - 1);
      if HeapOrdered(policy, before) {
        InsertKeepsOrder(policy, before, element);
      }
    }

    /** peek: the root, which no live element outranks once the heap is ordered. */
    method Peek() returns (root: int)
      requires Valid() && elements > 0
      ensures root == Contents()[0]
      ensures HeapOrdered(policy, Contents()) ==>
                forall k :: 0 <= k < elements ==> !Outranks(policy, data[k], root)
    {
      root := data[0];
      if HeapOrdered(policy, Contents()) {
        forall k | 0 <= k < elements ensures !Outranks(policy, data[k], root) {
          assert data[k] == Contents()[k];
          RootIsExtreme(policy, Contents(), k);
        }
      }
    }

    /**
     * extractRoot as the source writes it: return the root, move the last
     * live element to the root, drop the count and sift down with the
     * one-child swap that does not compare.
     */
    method ExtractRoot() returns (result: int)
      requires Valid() && elements > 0
      modifies this`elements, data
      ensures Valid()
      ensures result == old(Contents())[0]
      ensures elements == old(elements) - 1
      ensures Contents() == SiftDownAsWritten(policy, LastToRoot(old(Contents())), 0)
      ensures multiset(Contents()) + multiset{result} == multiset(old(Contents()))
    {
      ghost var before := Contents();
      ghost var swapped := Swap(before, 0, elements - 1);
      result := Peek();
      data[0], data[elements - 1] := data[elements - 1], data[0];
      assert data[..elements] == swapped;
      elements := elements - 1;
      assert Contents() == swapped[..elements];
      assert LastToRoot(before) == swapped[..elements];
      HeapifyDownAsWritten(0);
      ExtractAsWrittenPermutes(policy, before);
    }

    /**
     * extractRoot with the corrected sift-down: it also keeps the heap
     * ordered, so the result is outranked by none of the old live elements.
     */
    method ExtractRootCorrected() returns (result: int)
      requires Valid() && elements > 0
      modifies this`elements, data
      ensures Valid()
      ensures result == old(Contents())[0]
      ensures elements == old(elements) - 1
      ensures Contents() == SiftDown(policy, LastToRoot(old(Contents())), 0)
      ensures multiset(Contents()) + multiset{result} == multiset(old(Contents()))
      ensures HeapOrdered(policy, old(Contents())) ==> HeapOrdered(policy, Contents())
      ensures HeapOrdered(policy, old(Contents())) ==>
                forall k :: 0 <= k < |old(Contents())| ==> !Outranks(policy, old(Contents())[k], result)
    {
      ghost var before := Contents();
      ghost var swapped := Swap(before, 0, elements - 1);
      result := Peek();
      data[0], data[elements - 1] := data[elements - 1], data[0];
      assert data[..elements] == swapped;
      elements := elements - 1;
      assert Contents() == swapped[..elements];
      assert LastToRoot(before) == swapped[..elements];
      HeapifyDown(0);
      ExtractPermutes(policy, before);
      if HeapOrdered(policy, before) {
        ExtractKeepsOrder(policy, before);
        RootOutranksAll(policy, before);
      }
    }

    /**
     * heapifyUp: while the element at `index` outranks its parent, swap
     * them and continue from the parent.  At the root the parent index is
     * the root itself, and an element never outranks itself.
     */
    method HeapifyUp(index: nat)
      requires Valid() && index < elements
      modifies data
      ensures Contents() == SiftUp(policy, old(Contents()), index)
      decreases index
    {
      ghost var current := Contents();
      var parentIndex: nat := ParentIndex(index);
      if Compare(policy, data[index], data[parentIndex]) < 0 {
        data[index], data[parentIndex] := data[parentIndex], data[index];
        assert Contents() == Swap(current, index, parentIndex);
        HeapifyUp(parentIndex);
      }
    }

    /**
     * heapifyDown as the source writes it: with two children, swap with the
     * outranking child if it outranks the element and continue; with only
     * the left child, swap with it without comparing.
     */
    method HeapifyDownAsWritten(index: nat)
      requires Valid()
      modifies data
      ensures Contents() == SiftDownAsWritten(policy, old(Contents()), index)
      decreases elements - index
    {
      ghost var current := Contents();
      var leftChild := 2 * index + 1;
      var rightChild := leftChild + 1;
      var minChildIndex;
      if rightChild < elements {
        minChildIndex := if Compare(policy, data[leftChild], data[rightChild]) < 0 then leftChild else rightChild;
      } else if rightChild > elements {
        return;
      } else {
        data[leftChild], data[index] := data[index], data[leftChild];
        assert Contents() == Swap(current, leftChild, index);
        return;
      }
      if Compare(policy, data[minChildIndex], data[index]) < 0 {
        data[minChildIndex], data[index] := data[index], data[minChildIndex];
        assert Contents() == Swap(current, minChildIndex, index);
        HeapifyDownAsWritten(minChildIndex);
      }
    }

    /** heapifyDown with the one-child case corrected: swap only if the child outranks. */
    method HeapifyDown(index: nat)
      requires Valid()
      modifies data
      ensures Contents() == SiftDown(policy, old(Contents()), index)
      decreases elements - index
    {
      ghost var current := Contents();
      var leftChild := 2 * index + 1;
      var rightChild := leftChild + 1;
      var minChildIndex;
      if rightChild < elements {
        minChildIndex := if Compare(policy, data[leftChild], data[rightChild]) < 0 then leftChild else rightChild;
      } else if rightChild > elements {
        return;
      } else {
        if Compare(policy, data[leftChild], data[index]) < 0 {
          data[leftChild], data[index] := data[index], data[leftChild];
          assert Contents() == Swap(current, leftChild, index);
        }
        return;
      }
      if Compare(policy, data[minChildIndex], data[index]) < 0 {
        data[minChildIndex], data[index] := data[index], data[minChildIndex];
        assert Contents() == Swap(current, minChildIndex, index);
        HeapifyDown(minChildIndex);
      }
    }

    /**
     * doubleSize: a fresh buffer of twice the capacity holding a copy of
     * the live elements.
     */
    method DoubleSize()
      requires Valid()
      modifies this
      ensures Valid() && fresh(data)
      ensures dataLength == 2 * old(dataLength)
      ensures elements == old(elements)
      ensures Contents() == old(Contents())
    {
      var newLength := dataLength * 2;
      var tempData := new int[newLength];
      var k := 0;
      while k < elements
        invariant 0 <= k <= elements
        invariant tempData[..k] == data[..k]
        modifies tempData
      {
        tempData[k] := data[k];
        k := k + 1;
      }
      data := tempData;
      dataLength := newLength;
    }
  }

  /**
   * A copy shares no storage with its source: extracting from the source
   * and inserting into the copy leaves each as if the other did not exist.
   */
  method CopiesAreIndependent(a: BinaryHeap, x: int) returns (b: BinaryHeap, root: int)
    requires a.Valid() && a.elements > 0
    modifies a, a.data
    ensures fresh(b) && b.Valid() && a.Valid() && b.policy == a.policy
    ensures root == old(a.Contents())[0]
    ensures a.Contents() == SiftDownAsWritten(a.policy, LastToRoot(old(a.Contents())), 0)
    ensures b.Contents() == SiftUp(a.policy, old(a.Contents()) + [x], |old(a.Contents())|)
  {
    b := new BinaryHeap.Copy(a);
    root := a.ExtractRoot();
    b.Insert(x);
  }

  /**
   * A MinHeap fed 1, 5, 3 returns 1, 5, 3 from three extractions as the
   * source writes extractRoot.
   */
  method ExtractionOutOfOrder() returns (first: int, second: int, third: int)
    ensures first == 1 && second == 5 && third == 3
  {
    var heap := new BinaryHeap(Min, 3);
    WitnessSiftUps();
    heap.Insert(1);
    heap.Insert(5);
    heap.Insert(3);
    first := heap.ExtractRoot();
    WitnessFirstExtraction();
    second := heap.ExtractRoot();
    WitnessLaterExtractions();
    third := heap.ExtractRoot();
  }
}
