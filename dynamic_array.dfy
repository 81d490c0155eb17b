/**
 * Array.h: an unsorted growable buffer `data` of capacity `dataLength`
 * whose first `elements` slots are the live elements.  The element and
 * capacity operations report success as a boolean instead of failing.
 *
 * `insert` and `remove` are modelled as the source writes them: they
 * shift the buffer but never change `elements`.  `InsertCorrected` and
 * `RemoveCorrected` add the count update the documentation describes.
 */
module DynamicArray {

  /** Array::DEFAULT_SIZE. */
  const DEFAULT_SIZE: nat := 10

  /** indexLessThan: `0 <= index < val`. */
  predicate IndexLessThan(index: int, val: int)
  {
    0 <= index && index < val
  }

  /** `std::min` on two counts. */
  function Smaller(a: nat, b: nat): (r: nat)
    ensures r <= a && r <= b && (r == a || r == b)
  {
    if a < b then a else b
  }

  /** The capacity doubleSize asks for: DEFAULT_SIZE from 0, twice the old one otherwise. */
  function Doubled(capacity: nat): (r: nat)
    ensures r > capacity
    ensures capacity == 0 ==> r == DEFAULT_SIZE
    ensures capacity > 0 ==> r == 2 * capacity
  {
    if capacity == 0 then DEFAULT_SIZE else 2 * capacity
  }

  /**
   * The buffer after resize(n): the first min(old capacity, n) slots are
   * kept and the new tail is value-initialised to 0.
   */
  function Resized(buf: seq<int>, n: nat): (r: seq<int>)
    ensures |r| == n
    ensures forall k :: 0 <= k < |buf| && k < n ==> r[k] == buf[k]
    ensures forall k :: |buf| <= k < n ==> r[k] == 0
  {
    var m := Smaller(|buf|, n);
    buf[..m] + seq(n - m, _ => 0)
  }

  /** The buffer after ensureCapacity: unchanged if not full, otherwise doubled. */
  function CapacityEnsured(buf: seq<int>, count: nat): (r: seq<int>)
    requires count <= |buf|
    ensures |r| > count
    ensures |buf| > count ==> r == buf
    ensures |buf| == count ==> |r| == Doubled(|buf|)
    ensures forall k :: 0 <= k < |buf| ==> r[k] == buf[k]
  {
    if |buf| > count then buf else Resized(buf, Doubled(|buf|))
  }

  /**
   * The buffer after insert's memmove and store: slots before `index`
   * stay, `element` lands at `index`, the old `[index, count)` moves up by
   * one and the slots above `count` stay.
   */
  function InsertAt(buf: seq<int>, index: nat, count: nat, element: int): (r: seq<int>)
    requires index <= count < |buf|
    ensures |r| == |buf|
    ensures forall k :: 0 <= k < index ==> r[k] == buf[k]
    ensures r[index] == element
    ensures forall k :: index < k <= count ==> r[k] == buf[k - 1]
    ensures forall k :: count < k < |buf| ==> r[k] == buf[k]
  {
    buf[..index] + [element] + buf[index..count] + buf[count + 1..]
  }

  /**
   * The buffer after remove's memmove: the old `[index + 1, count)` moves
   * down by one; the slot `count - 1` keeps its old value, so the last
   * live element now appears twice.
   */
  function RemoveAt(buf: seq<int>, index: nat, count: nat): (r: seq<int>)
    requires index < count <= |buf|
    ensures |r| == |buf|
    ensures forall k :: 0 <= k < index ==> r[k] == buf[k]
    ensures forall k :: index <= k < count - 1 ==> r[k] == buf[k + 1]
    ensures forall k :: count - 1 <= k < |buf| ==> r[k] == buf[k]
  {
    buf[..index] + buf[index + 1..count] + buf[count - 1..]
  }

  /** On the first `count + 1` slots, insert puts `element` between the two halves. */
  lemma InsertAtLive(buf: seq<int>, index: nat, count: nat, element: int)
    requires index <= count < |buf|
    ensures InsertAt(buf, index, count, element)[..count + 1]
            == buf[..index] + [element] + buf[index..count]
  {
    var r := InsertAt(buf, index, count, element);
    var t := buf[..index] + [element] + buf[index..count];
    assert |r[..count + 1]| == |t|;
    forall k | 0 <= k < |t| ensures r[..count + 1][k] == t[k] {
      if k < index {
      } else if k == index {
      } else {
        assert t[k] == buf[index..count][k - index - 1];
      }
    }
  }

  /** On the first `count - 1` slots, remove drops the element at `index`. */
  lemma RemoveAtLive(buf: seq<int>, index: nat, count: nat)
    requires index < count <= |buf|
    ensures RemoveAt(buf, index, count)[..count - 1] == buf[..index] + buf[index + 1..count]
  {
  }

  /**
   * insert and remove as written, at the same index and the same count
   * (neither changes it): the old last live element is lost, and the last
   * live slot holds a copy of the one before it (or the inserted element
   * when that was the last live slot).
   */
  lemma InsertThenRemoveAsWritten(buf: seq<int>, index: nat, count: nat, element: int)
    requires index < count < |buf|
    ensures var r := RemoveAt(InsertAt(buf, index, count, element), index, count);
            r[..count - 1] == buf[..count - 1] &&
            r[count - 1] == (if index < count - 1 then buf[count - 2] else element)
  {
    var s := InsertAt(buf, index, count, element);
    var r := RemoveAt(s, index, count);
    forall k | 0 <= k < count - 1 ensures r[k] == buf[k] {
      if k >= index {
        assert r[k] == s[k + 1];
      }
    }
    assert r[..count - 1] == buf[..count - 1];
  }

  /** The live elements [1, 2] with 9 inserted at 0 and then removed read [1, 1]. */
  lemma InsertThenRemoveLosesLast()
    ensures RemoveAt(InsertAt([1, 2, 0], 0, 2, 9), 0, 2)[..2] == [1, 1]
  {
    InsertThenRemoveAsWritten([1, 2, 0], 0, 2, 9);
  }

  /**
   * With the count raised in between, as InsertCorrected does, removing
   * at the index just inserted at restores every slot of the buffer
   * except slot `count`, which the removal leaves as a copy.
   */
  lemma InsertThenRemove(buf: seq<int>, index: nat, count: nat, element: int)
    requires index <= count < |buf|
    ensures var r := RemoveAt(InsertAt(buf, index, count, element), index, count + 1);
            |r| == |buf| && forall k :: 0 <= k < |buf| && k != count ==> r[k] == buf[k]
  {
    var s := InsertAt(buf, index, count, element);
    var r := RemoveAt(s, index, count + 1);
    forall k | 0 <= k < |buf| && k != count ensures r[k] == buf[k] {
      if k < index {
      } else if k < count {
        assert r[k] == s[k + 1];
      } else {
        assert r[k] == s[k];
      }
    }
  }

  /**
   * Through the corrected operations, removing at the index just inserted
   * at gives back the original live elements.
   */
  lemma InsertRemoveLive(s: seq<int>, index: nat, element: int)
    requires index <= |s|
    ensures var t := s[..index] + [element] + s[index..];
            t[..index] + t[index + 1..] == s
  {
    var t := s[..index] + [element] + s[index..];
    assert t[..index] == s[..index];
    assert t[index + 1..] == s[index..];
  }

  /**
   * resize as written copies `newSize` elements out of a buffer of
   * `capacity` slots: it reads within the old buffer only when not growing.
   */
  predicate ResizeReadsInBounds(capacity: nat, newSize: nat)
  {
    newSize <= capacity
  }

  /** Every resize doubleSize makes reads past the end of the old buffer. */
  lemma DoubleSizeOverReads(capacity: nat)
    ensures !ResizeReadsInBounds(capacity, Doubled(capacity))
  {
  }

  class Array {
    var data: array<int>
    /** The live count. */
    var elements: nat
    /** The capacity, kept beside the buffer as in the source. */
    var dataLength: nat

    /** The bookkeeping every public operation keeps. */
    ghost predicate Valid()
      reads this
    {
      dataLength == data.Length && elements <= dataLength
    }

    /** The live elements `data[0..elements)`. */
    ghost function Contents(): seq<int>
      reads this, data
      requires Valid()
    {
      data[..elements]
    }

    /**
     * Array(int initialCapacity): a negative capacity is replaced by
     * DEFAULT_SIZE, while 0 is kept; the buffer is value-initialised.
     */
    constructor (initialCapacity: int)
      ensures Valid() && fresh(data)
      ensures dataLength == if initialCapacity < 0 then DEFAULT_SIZE else initialCapacity
      ensures elements == 0
      ensures data[..] == seq(dataLength, _ => 0)
    {
      var capacity: nat := if initialCapacity < 0 then DEFAULT_SIZE else initialCapacity;
      data := new int[capacity](_ => 0);
      dataLength := capacity;
      elements := 0;
    }

    /** Array(), which delegates to Array(DEFAULT_SIZE). */
    constructor Default()
      ensures Valid() && fresh(data)
      ensures dataLength == DEFAULT_SIZE
      ensures elements == 0
      ensures data[..] == seq(DEFAULT_SIZE, _ => 0)
    {
      data := new int[DEFAULT_SIZE](_ => 0);
      dataLength := DEFAULT_SIZE;
      elements := 0;
    }

    /** size(). */
    function Size(): (n: nat)
      reads this, data
      requires Valid()
      ensures n == |Contents()|
    {
      elements
    }

    /** trueSize(): the capacity, never below the size. */
    function TrueSize(): (n: nat)
      reads this, data
      requires Valid()
      ensures n == data.Length && Size() <= n
    {
      dataLength
    }

    /** isEmpty(). */
    predicate IsEmpty()
      reads this, data
      requires Valid()
      ensures IsEmpty() <==> Contents() == []
    {
      elements == 0
    }

    /**
     * get: on a live index, the element there; otherwise failure, and the
     * caller's variable keeps the value `current` it had.
     */
    method Get(index: int, current: int) returns (ok: bool, result: int)
      requires Valid()
      ensures ok <==> 0 <= index < |Contents()|
      ensures ok ==> result == Contents()[index]
      ensures !ok ==> result == current
    {
      if !IndexLessThan(index, elements) {
        return false, current;
      }
      return true, data[index];
    }

    /** set: on a live index, overwrite that slot and no other; otherwise change nothing. */
    method Set(index: int, element: int) returns (ok: bool)
      requires Valid()
      modifies data
      ensures ok <==> 0 <= index < elements
      ensures ok ==> data[..] == old(data[..])[index := element]
      ensures !ok ==> data[..] == old(data[..])
    {
      if !IndexLessThan(index, elements) {
        return false;
      }
      data[index] := element;
      return true;
    }

    /**
     * resize: a negative size fails and changes nothing; otherwise a fresh
     * buffer of `newSize` slots keeps the first min(capacity, newSize)
     * elements and the live count is truncated to fit.
     */
    method Resize(newSize: int) returns (ok: bool)
      requires Valid()
      modifies this
      ensures Valid()
      ensures ok <==> newSize >= 0
      ensures !ok ==> data == old(data) && dataLength == old(dataLength) && elements == old(elements)
      ensures ok ==> fresh(data) && dataLength == newSize
      ensures ok ==> elements == Smaller(old(elements), newSize)
      ensures ok ==> data[..] == Resized(old(data[..]), newSize)
      ensures ok ==> Contents() == old(Contents())[..elements]
    {
      if newSize < 0 {
        return false;
      }
      var newData := new int[newSize](_ => 0);
      var kept := Smaller(dataLength, newSize);
      var k := 0;
      while k < kept
        invariant 0 <= k <= kept
        invariant forall j :: 0 <= j < newSize ==> newData[j] == if j < k then data[j] else 0
        modifies newData
      {
        newData[k] := data[k];
        k := k + 1;
      }
      ghost var before := data[..];
      data := newData;
      dataLength := newSize;
      elements := Smaller(elements, newSize);
      assert data[..] == Resized(before, newSize);
      return true;
    }

    /**
     * trimToSize: the capacity becomes the size and the live elements
     * stay; when they are already equal nothing changes, so a second call
     * is a no-op.
     */
    method TrimToSize() returns (ok: bool)
      requires Valid()
      modifies this
      ensures Valid() && ok
      ensures dataLength == elements
      ensures elements == old(elements) && Contents() == old(Contents())
      ensures old(dataLength) == old(elements) ==> data == old(data) && dataLength == old(dataLength)
    {
      if dataLength == elements {
        return true;
      }
      ok := Resize(elements);
    }

    /**
     * doubleSize: resize to DEFAULT_SIZE from capacity 0, to twice the
     * capacity otherwise.
     */
    method DoubleSize() returns (ok: bool)
      requires Valid()
      modifies this
      ensures Valid() && ok && fresh(data)
      ensures dataLength == Doubled(old(dataLength))
      ensures elements == old(elements)
      ensures data[..] == Resized(old(data[..]), dataLength)
    {
      if dataLength == 0 {
        ok := Resize(DEFAULT_SIZE);
      } else {
        ok := Resize(2 * dataLength);
      }
    }

    /**
     * ensureCapacity: succeed at once when a slot is free, otherwise
     * double; afterwards there is room for one more element.
     */
    method EnsureCapacity() returns (ok: bool)
      requires Valid()
      modifies this
      ensures Valid() && ok
      ensures elements == old(elements) && elements < dataLength
      ensures data[..] == CapacityEnsured(old(data[..]), old(elements))
      ensures old(elements) < old(dataLength) ==> data == old(data) && dataLength == old(dataLength)
      ensures old(elements) == old(dataLength) ==> fresh(data) && dataLength == Doubled(old(dataLength))
    {
      if dataLength > elements {
        return true;
      }
      ok := DoubleSize();
    }

    /**
     * insert as the source writes it: an index outside [0, size()] fails
     * before the capacity is touched; otherwise make room, move
     * `[index, elements)` up by one slot and store `element` at `index`.
     * The live count is NOT incremented.
     */
    method Insert(index: int, element: int) returns (ok: bool)
      requires Valid()
      modifies this, data
      ensures Valid()
      ensures ok <==> 0 <= index <= old(elements)
      ensures elements == old(elements)
      ensures ok && old(elements) < old(dataLength) ==> data == old(data)
      ensures ok && old(elements) == old(dataLength) ==> fresh(data) && dataLength == Doubled(old(dataLength))
      ensures !ok ==> data == old(data) && dataLength == old(dataLength) && data[..] == old(data[..])
      ensures ok ==> data[..] == InsertAt(CapacityEnsured(old(data[..]), old(elements)), index, old(elements), element)
    {
      ok := IndexLessThan(index, elements + 1);
      if ok {
        ok := EnsureCapacity();
      }
      if !ok {
        return;
      }
      ghost var grown := data[..];
      var k: nat := elements;
      while k > index
        invariant index <= k <= elements < data.Length == |grown|
        invariant forall j :: 0 <= j <= k ==> data[j] == grown[j]
        invariant forall j :: k < j <= elements ==> data[j] == grown[j - 1]
        invariant forall j :: elements < j < data.Length ==> data[j] == grown[j]
        modifies data
      {
        data[k] := data[k - 1];
        k := k - 1;
      }
      data[index] := element;
      assert data[..] == InsertAt(grown, index, elements, element);
    }

    /**
     * remove as the source writes it: on a live index, return the element
     * there and move `[index + 1, elements)` down by one slot; otherwise
     * fail, the caller's variable keeping `current`.  The live count is
     * NOT decremented.
     */
    method Remove(index: int, current: int) returns (ok: bool, result: int)
      requires Valid()
      modifies data
      ensures ok <==> 0 <= index < elements
      ensures ok ==> result == old(data[index]) && data[..] == RemoveAt(old(data[..]), index, elements)
      ensures !ok ==> result == current && data[..] == old(data[..])
    {
      ok := IndexLessThan(index, elements);
      if !ok {
        return false, current;
      }
      result := data[index];
      ghost var before := data[..];
      var k: nat := index;
      while k + 1 < elements
        invariant index <= k < elements <= data.Length == |before|
        invariant forall j :: 0 <= j < index ==> data[j] == before[j]
        invariant forall j :: index <= j < k ==> data[j] == before[j + 1]
        invariant forall j :: k <= j < data.Length ==> data[j] == before[j]
        modifies data
      {
        data[k] := data[k + 1];
        k := k + 1;
      }
      assert data[..] == RemoveAt(before, index, elements);
    }

    /** insert followed by the missing `elements = elements + 1`. */
    method InsertCorrected(index: int, element: int) returns (ok: bool)
      requires Valid()
      modifies this, data
      ensures Valid()
      ensures ok <==> 0 <= index <= old(elements)
      ensures data == old(data) || fresh(data)
      ensures !ok ==> data == old(data) && dataLength == old(dataLength)
      ensures !ok ==> elements == old(elements) && Contents() == old(Contents())
      ensures ok && old(elements) < old(dataLength) ==> data == old(data)
      ensures ok && old(elements) == old(dataLength) ==> fresh(data) && dataLength == Doubled(old(dataLength))
      ensures ok ==> elements == old(elements) + 1
      ensures ok ==> Contents() == old(Contents())[..index] + [element] + old(Contents())[index..]
    {
      ghost var before := data[..];
      ok := Insert(index, element);
      if ok {
        InsertAtLive(CapacityEnsured(before, elements), index, elements, element);
        elements := elements + 1;
      }
    }

    /** remove followed by the missing `elements = elements - 1`. */
    method RemoveCorrected(index: int, current: int) returns (ok: bool, result: int)
      requires Valid()
      modifies this, data
      ensures Valid()
      ensures ok <==> 0 <= index < old(elements)
      ensures data == old(data)
      ensures !ok ==> result == current && elements == old(elements) && Contents() == old(Contents())
      ensures ok ==> result == old(Contents())[index]
      ensures ok ==> elements == old(elements) - 1
      ensures ok ==> Contents() == old(Contents())[..index] + old(Contents())[index + 1..]
    {
      ghost var before := data[..];
      ok, result := Remove(index, current);
      if ok {
        RemoveAtLive(before, index, elements);
        elements := elements - 1;
      }
    }
  }

  /**
   * As written, an element inserted into an empty array cannot be read
   * back: the insertion succeeds but the size stays 0, so get(0) fails.
   */
  method InsertIsLost() returns (inserted: bool, found: bool, size: nat)
    ensures inserted && !found && size == 0
  {
    var a := new Array.Default();
    inserted := a.Insert(0, 7);
    var value;
    found, value := a.Get(0, -1);
    size := a.Size();
  }

  /** With the corrected insert the same element is read back. */
  method InsertIsKept() returns (inserted: bool, found: bool, value: int)
    ensures inserted && found && value == 7
  {
    var a := new Array.Default();
    inserted := a.InsertCorrected(0, 7);
    found, value := a.Get(0, -1);
  }

  /**
   * As written, removing from the live elements [5, 7] returns 5 but
   * keeps the size 2, so the live elements read [7, 7].
   */
  method RemoveKeepsStaleCopy() returns (removed: int, size: nat, live: seq<int>)
    ensures removed == 5 && size == 2 && live == [7, 7]
  {
    var a := new Array.Default();
    var ok := a.InsertCorrected(0, 5);
    ok := a.InsertCorrected(1, 7);
    ok, removed := a.Remove(0, 0);
    size := a.Size();
    live := a.data[..a.elements];
  }

  /**
   * As written, remove through the public operations always fails: no
   * operation raises `elements`, so after an insert into a new array
   * index 0 is still not live.
   */
  method RemoveAfterInsertFails() returns (inserted: bool, removed: bool, size: nat)
    ensures inserted && !removed && size == 0
  {
    var a := new Array.Default();
    inserted := a.Insert(0, 5);
    var value;
    removed, value := a.Remove(0, 0);
    size := a.Size();
  }

  /**
   * The buffer round trip through the corrected operations: inserting
   * `element` at `index` and removing at `index` again returns `element`
   * and leaves the live elements as they were.
   */
  method InsertThenRemoveRoundTrip(a: Array, index: int, element: int) returns (inserted: bool, removed: bool, result: int)
    requires a.Valid()
    modifies a, a.data
    ensures a.Valid()
    ensures inserted <==> 0 <= index <= old(a.elements)
    ensures inserted ==> removed && result == element && a.Contents() == old(a.Contents())
  {
    ghost var before := a.Contents();
    inserted := a.InsertCorrected(index, element);
    if inserted {
      removed, result := a.RemoveCorrected(index, 0);
      InsertRemoveLive(before, index, element);
    } else {
      removed, result := false, 0;
    }
  }

  /** With the corrected remove the live elements read [7]. */
  method RemoveDropsElement() returns (removed: int, size: nat, live: seq<int>)
    ensures removed == 5 && size == 1 && live == [7]
  {
    var a := new Array.Default();
    var ok := a.InsertCorrected(0, 5);
    ok := a.InsertCorrected(1, 7);
    ok, removed := a.RemoveCorrected(0, 0);
    size := a.Size();
    live := a.data[..a.elements];
  }
}
