# Cpp-Data-Structs: binary heap and dynamic array, modelled in Dafny

This project models two array-backed containers from the C++ library
Cpp-Data-Structs and proves properties of the model.

- `BinaryHeap` (src/heaps/BinaryHeap.h) is a priority queue over a buffer
  `data` of capacity `dataLength`, whose first `elements` slots are the
  live heap. `insert` appends an element, doubling the buffer when it is
  full, and sifts the element up. `extractRoot` swaps the last live
  element into the root, drops the count and sifts down. `MinHeap` and
  `MaxHeap` (src/heaps/MinHeap.h, src/heaps/MaxHeap.h) supply the
  three-way `compare` that orders the heap ascending or descending. Each
  also has a copy constructor.
- `Array` (src/arrays/Array.h) is a growable buffer with index-checked
  `get`/`set`/`insert`/`remove` and capacity management (`resize`,
  `trimToSize`, `ensureCapacity`, `doubleSize`). These operations report
  success as a boolean; `size`, `trueSize`, `isEmpty` and the
  constructors do not.

Files:

- `ordering.dfy` (module `Ordering`): the two `compare` functions and the
  `Policy` (`Min` or `Max`) that stands for the virtual `compare`. It also
  holds the order facts that the heap proofs use.
- `heap_spec.dfy` (module `HeapSpec`): the heap on sequences.
  - Functions: `ParentIndex` (C++'s truncating `(index - 1) / 2`), `Swap`,
    `SiftUp`, `SiftDownAsWritten` (the source's sift-down),
    `SiftDown` (with the one-child case corrected), `LastToRoot`,
    `Drain`/`DrainAsWritten` (repeated extraction) and `InsertAll`.
  - Lemmas: heap order (`HeapOrdered`), permutation, the extreme root,
    and sortedness of the drained sequence.
- `binary_heap.dfy` (module `BinaryHeaps`): class `BinaryHeap` over an
  `array<int>`.
  - Each operation works in place on the buffer. Its `ensures` ties the
    new live prefix to the `HeapSpec` function of the old live prefix.
  - `heapifyUp` and `heapifyDown` are recursive methods, as in the
    source.
  - Two client methods: one for copy independence and one that witnesses
    the sift-down defect.
- `dynamic_array.dfy` (module `DynamicArray`): class `Array`, modelled
  as the source writes it.
  - Sequence functions describe each buffer shift and resize.
  - `InsertCorrected` and `RemoveCorrected` add the missing count updates.
  - Client methods witness the defects.

The element type `T` is `int` throughout.

The model follows the code as written:

- `Array`'s documentation says `remove` "retrieves and removes" an
  element (Array.h:55-62). The code of `insert` and `remove` never
  changes the count (see Findings).
- `BinaryHeap` does not use `Array`: it keeps its own buffer and counters
  (BinaryHeap.h:33-37).
- Inserting 5, 3, 8, 1, 9, 2 into a MinHeap gives the live prefix
  `[1, 3, 2, 5, 9, 8]`. With the sift-down as written, that heap drains
  as `1, 2, 3, 5, 9, 8`, so the last two come out of order. With the
  corrected sift-down it drains as `1, 2, 3, 5, 8, 9`. All three facts
  are proved (`HeapSpec.WitnessSixInsertions`,
  `HeapSpec.WitnessSixDrainAsWritten`, `HeapSpec.WitnessSixDrainCorrected`).

## Model

| member | source | states |
|---|---|---|
| Ordering.MinCompare | src/heaps/MinHeap.h:43-51 | -1, 0 or 1 exactly when a < b, a == b or a > b |
| Ordering.MaxCompare | src/heaps/MaxHeap.h:43-51 | 1, 0 or -1 exactly when a < b, a == b or a > b |
| Ordering.Compare | src/heaps/BinaryHeap.h:39 | the virtual compare is one of -1, 0, 1, and 0 exactly on equal elements |
| Ordering.OutranksMeaning | src/heaps/BinaryHeap.h:127-128 | `compare(a, b) < 0` means a < b for MinHeap and a > b for MaxHeap |
| Ordering.CompareReflexive | src/heaps/MinHeap.h:47-49 | compare(a, a) == 0, so an element never outranks an equal one |
| Ordering.CompareAntisymmetric | src/heaps/MinHeap.h:43-51 | compare(a, b) == -compare(b, a) for both policies |
| Ordering.MaxIsFlippedMin | src/heaps/MaxHeap.h:43-51 | MaxHeap's compare(a, b) is MinHeap's compare(b, a) |
| Ordering.NotOutranksIsTotalPreorder | src/heaps/MinHeap.h:43-51 | outranking is asymmetric; "does not outrank" is transitive; outranking carries over through "does not outrank" |
| Ordering.Outranks | src/heaps/BinaryHeap.h:128 | the `compare(a, b) < 0` test of BinaryHeap.h:128, 144 and 153; its meaning per policy is OutranksMeaning |
| HeapSpec.ParentIndex | src/heaps/BinaryHeap.h:124 | the root's parent index is 0 (C++ truncation); any other slot's parent is smaller and has it as left or right child |
| HeapSpec.Swap | src/heaps/BinaryHeap.h:129 | std::swap: same length, the two slots exchanged |
| HeapSpec.SwapKeepsOthers | src/heaps/BinaryHeap.h:129 | std::swap leaves every other slot unchanged |
| HeapSpec.HeapOrdered | src/heaps/BinaryHeap.h:127-128 | the heap property: no live slot outranks its parent (a predicate; the lemmas below state what keeps it) |
| HeapSpec.SiftUp | src/heaps/BinaryHeap.h:122-132 | heapifyUp on the live elements keeps their number (order and permutation are stated by the lemmas below) |
| HeapSpec.SiftDownAsWritten | src/heaps/BinaryHeap.h:135-157 | heapifyDown as written (uncompared one-child swap) keeps the number of live elements |
| HeapSpec.SiftDown | src/heaps/BinaryHeap.h:135-157 | heapifyDown with a compare in the one-child case keeps the number of live elements |
| HeapSpec.LastToRoot | src/heaps/BinaryHeap.h:96-99 | swapping the last element into the root and dropping the count removes one slot |
| HeapSpec.LastToRootContents | src/heaps/BinaryHeap.h:96-99 | with two or more elements, the old last element becomes the root and every middle slot is kept |
| HeapSpec.InsertAll | src/heaps/BinaryHeap.h:73-84 | repeated insert: the live prefix grows by one slot per element (order and multiset in InsertAllOrdered) |
| HeapSpec.DrainAsWritten | src/heaps/BinaryHeap.h:92-104 | repeated extractRoot as written returns one value per live element (permutation in DrainAsWrittenPermutes) |
| HeapSpec.Drain | src/heaps/BinaryHeap.h:92-104 | repeated corrected extraction returns one value per live element (sortedness and permutation in DrainSorted) |
| HeapSpec.SwapPermutes | src/heaps/BinaryHeap.h:129 | a swap keeps the multiset of elements |
| HeapSpec.SiftUpPermutes | src/heaps/BinaryHeap.h:122-132 | heapifyUp only rearranges: the multiset is unchanged |
| HeapSpec.SiftDownAsWrittenPermutes | src/heaps/BinaryHeap.h:135-157 | heapifyDown as written only rearranges |
| HeapSpec.SiftDownPermutes | src/heaps/BinaryHeap.h:135-157 | corrected heapifyDown only rearranges |
| HeapSpec.LastToRootRemovesRoot | src/heaps/BinaryHeap.h:96-99 | moving the last element to the root loses exactly one copy of the old root |
| HeapSpec.ExtractAsWrittenPermutes | src/heaps/BinaryHeap.h:92-104 | extractRoot as written leaves the old multiset minus one copy of the root |
| HeapSpec.ExtractPermutes | src/heaps/BinaryHeap.h:92-104 | corrected extraction leaves the old multiset minus one copy of the root |
| HeapSpec.SiftUpStep | src/heaps/BinaryHeap.h:127-130 | one swap with an outranked parent moves the single out-of-place slot up to the parent |
| HeapSpec.SiftUpRestoresOrder | src/heaps/BinaryHeap.h:122-132 | heapifyUp from the only out-of-place slot yields a heap |
| HeapSpec.InsertKeepsOrder | src/heaps/BinaryHeap.h:73-84 | appending to a heap and sifting up yields a heap |
| HeapSpec.SiftDownStep | src/heaps/BinaryHeap.h:153-156 | swapping a node with a best child that outranks it moves the exception down to that child |
| HeapSpec.SiftDownStopsOrdered | src/heaps/BinaryHeap.h:153-156 | when the best child does not outrank the node, the sequence is already a heap |
| HeapSpec.BestChild | src/heaps/BinaryHeap.h:143-144 | the child picked (left only if it strictly outranks the right) is outranked by neither child |
| HeapSpec.SiftDownLastChild | src/heaps/BinaryHeap.h:147-149 | with one child, comparing before swapping leaves a heap in both outcomes |
| HeapSpec.SiftDownRestoresOrder | src/heaps/BinaryHeap.h:135-157 | corrected heapifyDown from the only out-of-place slot yields a heap |
| HeapSpec.LastToRootOrderedExceptRoot | src/heaps/BinaryHeap.h:96-99 | after the root swap and count drop, only the root is out of place |
| HeapSpec.ExtractKeepsOrder | src/heaps/BinaryHeap.h:92-104 | corrected extraction keeps a heap a heap |
| HeapSpec.RootIsExtreme | src/heaps/BinaryHeap.h:86-89 | in a heap no live element outranks the root |
| HeapSpec.RootOutranksAll | src/heaps/BinaryHeap.h:86-89 | the same for all live slots at once |
| HeapSpec.RootOutranksMembers | src/heaps/BinaryHeap.h:86-89 | the same for every member of the live multiset |
| HeapSpec.MinRootIsMinimum | src/heaps/MinHeap.h:43-51 | a MinHeap's root is at most every live element |
| HeapSpec.MaxRootIsMaximum | src/heaps/MaxHeap.h:43-51 | a MaxHeap's root is at least every live element |
| HeapSpec.DrainSorted | src/heaps/BinaryHeap.h:92-104 | repeated corrected extraction from a heap returns a permutation of its elements in policy order |
| HeapSpec.DrainAsWrittenPermutes | src/heaps/BinaryHeap.h:92-104 | repeated extractRoot as written returns each element of the heap once, a permutation of the live elements |
| HeapSpec.HeapSortAsWrittenPermutes | src/heaps/BinaryHeap.h:73-104 | inserting xs and draining with extractRoot as written returns a permutation of xs (possibly out of order) |
| HeapSpec.DrainSortedNaturally | src/heaps/BinaryHeap.h:92-104 | a MinHeap drains non-decreasing, a MaxHeap non-increasing |
| HeapSpec.InsertAllOrdered | src/heaps/BinaryHeap.h:73-84 | inserting a sequence into a heap gives a heap holding the old elements plus the new |
| HeapSpec.HeapSortCorrected | src/heaps/BinaryHeap.h:73-104 | inserting xs into an empty heap, then draining it, gives a policy-sorted permutation of xs |
| HeapSpec.WitnessInsertions | src/heaps/BinaryHeap.h:73-84 | inserting 1, 5, 3 into an empty MinHeap gives the live prefix [1, 5, 3] |
| HeapSpec.WitnessSiftUps | src/heaps/BinaryHeap.h:122-132 | none of those three sift-ups moves anything |
| HeapSpec.WitnessFirstExtraction | src/heaps/BinaryHeap.h:147-149 | extracting from [1, 5, 3] as written leaves [5, 3] |
| HeapSpec.WitnessLaterExtractions | src/heaps/BinaryHeap.h:92-104 | [5, 3] then leaves [3], which leaves [] |
| HeapSpec.WitnessDrainAsWritten | src/heaps/BinaryHeap.h:92-104 | the three extractions as written return 1, 5, 3 |
| HeapSpec.WitnessUnsorted | src/heaps/BinaryHeap.h:92-104 | 1, 5, 3 is not in MinHeap order |
| HeapSpec.OneChildSwapBreaksOrder | src/heaps/BinaryHeap.h:147-149 | [1, 5, 3] is a heap; one extraction as written leaves [5, 3], which is not; it drains as 1, 5, 3 |
| HeapSpec.WitnessDrainCorrected | src/heaps/BinaryHeap.h:92-104 | with the corrected sift-down [1, 5, 3] drains as 1, 3, 5 |
| HeapSpec.WitnessSixInsertions | src/heaps/BinaryHeap.h:73-84 | inserting 5, 3, 8, 1, 9, 2 into an empty MinHeap gives [1, 3, 2, 5, 9, 8] |
| HeapSpec.WitnessSixDrainAsWritten | src/heaps/BinaryHeap.h:147-149 | as written, [1, 3, 2, 5, 9, 8] drains as 1, 2, 3, 5, 9, 8 |
| HeapSpec.WitnessSixDrainCorrected | src/heaps/BinaryHeap.h:92-104 | with the corrected sift-down it drains as 1, 2, 3, 5, 8, 9 |
| BinaryHeaps.BinaryHeap.constructor | src/heaps/BinaryHeap.h:55-67 | a non-positive capacity becomes 10, a positive one is kept; the heap starts empty with a fresh buffer |
| BinaryHeaps.BinaryHeap.Default | src/heaps/BinaryHeap.h:50-53 | capacity DEFAULT_SIZE, empty |
| BinaryHeaps.BinaryHeap.Copy | src/heaps/MinHeap.h:33-37 | a fresh buffer of the other heap's capacity holding its live elements, same policy (MaxHeap.h:33-37 is the same except for `sizeof(T)` at line 36; the two agree for T = int) |
| BinaryHeaps.BinaryHeap.Size | src/heaps/BinaryHeap.h:106-109 | the number of live elements |
| BinaryHeaps.BinaryHeap.TrueSize | src/heaps/BinaryHeap.h:111-114 | the capacity, never below the size |
| BinaryHeaps.BinaryHeap.IsEmpty | src/heaps/BinaryHeap.h:116-119 | true exactly when there are no live elements |
| BinaryHeaps.BinaryHeap.Insert | src/heaps/BinaryHeap.h:73-84 | capacity doubles exactly when full, otherwise the buffer stays; size +1; the live prefix is SiftUp of old prefix + [element]; multiset grows by the element; heap order is kept |
| BinaryHeaps.BinaryHeap.Peek | src/heaps/BinaryHeap.h:86-89 | returns data[0], changes nothing; in a heap no live element outranks it |
| BinaryHeaps.BinaryHeap.ExtractRoot | src/heaps/BinaryHeap.h:92-104 | returns the old root; size -1; the live prefix is SiftDownAsWritten of LastToRoot of the old prefix; the multiset loses one copy of the result |
| BinaryHeaps.BinaryHeap.ExtractRootCorrected | src/heaps/BinaryHeap.h:92-104 | the same with the corrected sift-down, which also keeps heap order and returns an element no old live element outranks |
| BinaryHeaps.BinaryHeap.HeapifyUp | src/heaps/BinaryHeap.h:122-132 | the in-place recursion leaves the live prefix equal to SiftUp of the old one |
| BinaryHeaps.BinaryHeap.HeapifyDownAsWritten | src/heaps/BinaryHeap.h:135-157 | the in-place recursion leaves the live prefix equal to SiftDownAsWritten of the old one |
| BinaryHeaps.BinaryHeap.HeapifyDown | src/heaps/BinaryHeap.h:135-157 | the corrected recursion leaves the live prefix equal to SiftDown of the old one |
| BinaryHeaps.BinaryHeap.DoubleSize | src/heaps/BinaryHeap.h:160-181 | a fresh buffer of twice the capacity; count and live prefix unchanged |
| BinaryHeaps.CopiesAreIndependent | src/heaps/MinHeap.h:33-37 | after copying, extracting from the original and inserting into the copy each act as if the other heap did not exist |
| BinaryHeaps.ExtractionOutOfOrder | src/heaps/BinaryHeap.h:147-149 | a MinHeap(3) fed 1, 5, 3 returns 1, 5, 3 from three extractRoot calls |
| DynamicArray.Smaller | src/arrays/Array.h:203 | `std::min`: at most both arguments and equal to one of them |
| DynamicArray.Doubled | src/arrays/Array.h:226-232 | the requested capacity is always larger: DEFAULT_SIZE from 0, twice the old one when that was positive |
| DynamicArray.Resized | src/arrays/Array.h:182-205 | n slots; the first min(old capacity, n) keep their values, the rest are 0 |
| DynamicArray.CapacityEnsured | src/arrays/Array.h:217-224 | room for one more element; the buffer is unchanged when not full and doubled when full; old slots are kept |
| DynamicArray.InsertAt | src/arrays/Array.h:138-139 | the memmove and store: slots before index kept, element at index, [index, count) moved up by one, slots above count kept |
| DynamicArray.RemoveAt | src/arrays/Array.h:162 | the memmove: [index + 1, count) moved down by one, every other slot kept, so slot count - 1 holds a stale copy |
| DynamicArray.InsertAtLive | src/arrays/Array.h:138-139 | on the first count + 1 slots insert places element between the two halves of the old live elements |
| DynamicArray.RemoveAtLive | src/arrays/Array.h:162 | on the first count - 1 slots remove drops the element at index |
| DynamicArray.InsertThenRemoveAsWritten | src/arrays/Array.h:135-164 | insert then remove as written, at one index and the unchanged count: the first count - 1 slots are restored, and the last live slot holds a copy of the one before it (or the inserted element), so the old last live element is lost |
| DynamicArray.InsertThenRemoveLosesLast | src/arrays/Array.h:135-164 | live [1, 2]: inserting 9 at 0 and removing at 0 as written leaves [1, 1] |
| DynamicArray.InsertThenRemove | src/arrays/Array.h:135-164 | the corrected pair, with the count raised by one in between: removing at the index just inserted at restores every slot except slot count |
| DynamicArray.InsertRemoveLive | src/arrays/Array.h:135-164 | with the count updates, removing at the index just inserted at gives back the old live elements (the sequence identity InsertThenRemoveRoundTrip applies to the methods) |
| DynamicArray.DoubleSizeOverReads | src/arrays/Array.h:194 | every resize that doubleSize requests copies more elements than the old buffer holds; this restates Doubled's growth, since the out-of-bounds read itself cannot be modelled further |
| DynamicArray.Array.constructor | src/arrays/Array.h:123-132 | a negative capacity becomes 10, 0 and positive ones are kept; size 0; slots value-initialised |
| DynamicArray.Array.Default | src/arrays/Array.h:118-121 | capacity DEFAULT_SIZE, size 0 |
| DynamicArray.Array.Size | src/arrays/Array.h:166-169 | the number of live elements |
| DynamicArray.Array.TrueSize | src/arrays/Array.h:171-174 | the capacity, never below the size |
| DynamicArray.Array.IsEmpty | src/arrays/Array.h:176-179 | true exactly when there are no live elements |
| DynamicArray.Array.Get | src/arrays/Array.h:144-149 | succeeds exactly on a live index, yielding that element; otherwise the caller's value is kept |
| DynamicArray.Array.Set | src/arrays/Array.h:151-156 | succeeds exactly on a live index and changes only that slot; otherwise nothing changes |
| DynamicArray.Array.Resize | src/arrays/Array.h:181-205 | fails exactly on a negative size and then changes nothing; otherwise capacity n, count min(count, n), buffer Resized, live prefix kept as far as it fits |
| DynamicArray.Array.TrimToSize | src/arrays/Array.h:207-215 | afterwards capacity == size with the live elements kept; a no-op when they were equal, so a second call changes nothing |
| DynamicArray.Array.DoubleSize | src/arrays/Array.h:226-232 | capacity becomes Doubled(capacity), count unchanged, buffer Resized |
| DynamicArray.Array.EnsureCapacity | src/arrays/Array.h:217-224 | always succeeds; afterwards size < capacity; the buffer is replaced (doubled) exactly when it was full |
| DynamicArray.Array.Insert | src/arrays/Array.h:134-142 | succeeds exactly when 0 <= index <= size, touching nothing otherwise; the buffer becomes InsertAt of the capacity-ensured buffer; the count is unchanged |
| DynamicArray.Array.Remove | src/arrays/Array.h:158-164 | succeeds exactly on a live index, yielding that element; the buffer becomes RemoveAt of the old one; the count is unchanged |
| DynamicArray.Array.InsertCorrected | src/arrays/Array.h:134-142 | insert plus the count update: it fails exactly off [0, size] and then changes nothing; on success the buffer is doubled exactly when full and the live elements become the old ones with element inserted at index |
| DynamicArray.Array.RemoveCorrected | src/arrays/Array.h:158-164 | remove plus the count update: the removed element is returned and the live elements lose it |
| DynamicArray.InsertIsLost | src/arrays/Array.h:134-149 | as written, inserting into an empty array succeeds, yet get(0) then fails and the size stays 0 |
| DynamicArray.InsertIsKept | src/arrays/Array.h:134-149 | with the count update, the inserted element is read back |
| DynamicArray.RemoveKeepsStaleCopy | src/arrays/Array.h:158-164 | with the live [5, 7] set up by the corrected insert (or by a subclass writing the protected `elements`), remove as written returns 5, keeps size 2 and leaves [7, 7] |
| DynamicArray.RemoveAfterInsertFails | src/arrays/Array.h:134-164 | as written no public operation raises `elements`, so remove after an insert into a new array fails and the size stays 0 |
| DynamicArray.InsertThenRemoveRoundTrip | src/arrays/Array.h:134-164 | through the corrected operations, insert(index, v) then remove(index) succeeds exactly when the insert does, returns v and restores the live elements |
| DynamicArray.RemoveDropsElement | src/arrays/Array.h:158-164 | with the count update the live elements become [7] |

## Left out

- Allocation failure (the `std::bad_alloc` handlers in BinaryHeap.h and
  Array.h) is not modelled: allocation always succeeds. The heap's
  `doubleSize` therefore has no result, and `insert` ignoring it matters
  nowhere.
- Integers are unbounded. The 32-bit overflow of `dataLength * 2` in
  either `doubleSize` is not modelled.
- `memcpy`/`memmove` are modelled as element-wise copies and shifts of
  `int` slots. Byte counts, `sizeof` and the generic element type `T`
  are not modelled. So the `sizeof(int)` copy in MinHeap.h:36 and the
  `int result` in BinaryHeap.h:94 are faithful only for `T = int`.
- `unique_ptr` ownership, destructors and virtual dispatch are not
  modelled. The virtual `compare` is the `policy` field, fixed at
  construction.
- `peek` and `extractRoot` on an empty heap are not modelled: both
  require `elements > 0` here. In the source, `peek` then returns the
  allocated but non-live `data[0]`. `extractRoot` swaps `data[0]` with
  the out-of-bounds `data[-1]` and sets `elements` to -1.
- The heap's copy constructor is one `Copy` constructor for both
  subclasses. Its bulk `memcpy` is a copy loop.
- DynamicArray.Array.Resize: the new slots beyond the old capacity are 0,
  as value-initialisation makes them. The source's `memcpy` of `newSize`
  elements instead reads them from past the end of the old buffer when
  growing (see Findings). The model states only what a correct copy of
  `min(capacity, newSize)` elements gives.
- HeapSpec.SiftUp, HeapSpec.SiftDown, HeapSpec.SiftDownAsWritten: their
  own contracts state only the length. Permutation and order are the
  separate lemmas listed above.
- The demo drivers (main.cpp, test/heaps/BinaryHeapTest.cpp,
  test/arrays/ArrayTest.cpp) print random data and assert nothing. They
  are not part of this model.
- The syntax slips in Array.h (missing `;` and `)` at lines 126, 138 and
  162) are read with their evident meaning.

## Findings

| source | as written | input that shows it | evidently intended | confidence | as-written member | corrected member |
|---|---|---|---|---|---|---|
| src/heaps/BinaryHeap.h:147-149 | a node whose only child is the left one is swapped with it without a comparison | MinHeap fed 1, 5, 3: extractRoot leaves [5, 3], and the extractions return 1, 5, 3 | swap only if the child outranks the node, as in the two-child case | high (proved in the model, not executed) | HeapSpec.OneChildSwapBreaksOrder | BinaryHeaps.BinaryHeap.ExtractRootCorrected |
| src/arrays/Array.h:135-142 | insert shifts and stores but never increments `elements` | insert(0, 7) into a new Array succeeds, then get(0) fails and size() is 0 | `elements = elements + 1` after the store | high (proved in the model, not executed) | DynamicArray.InsertIsLost | DynamicArray.Array.InsertCorrected |
| src/arrays/Array.h:158-164 | remove shifts left but never decrements `elements` | removing index 0 from a live [5, 7] (set up with the corrected insert, since as written `elements` never leaves 0 and remove always fails) keeps size 2 with [7, 7] | `elements = elements - 1` after the shift | high (proved in the model, not executed) | DynamicArray.RemoveKeepsStaleCopy | DynamicArray.Array.RemoveCorrected |
| src/arrays/Array.h:194 | resize copies `newSize` elements from the old buffer | any doubleSize, e.g. capacity 10 resized to 20, reads 10 slots past the old buffer | copy `min(dataLength, newSize)` elements | high (proved in the model, not executed) | DynamicArray.DoubleSizeOverReads | DynamicArray.Array.Resize |
