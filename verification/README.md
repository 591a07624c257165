# Vector assignment kernels and CART class counts, in Dafny

This project models two pieces of the Shark machine-learning library.

**The vector assignment kernels of the linear-algebra back end.** A
destination vector `v` and a source expression `e` of equal logical length
are each stored in one of three layouts:

- dense: every index is stored;
- sparse: a list of `(index, value)` pairs with strictly increasing indices;
- packed: a contiguous window `[start, start + n)`, with zero outside it.

For each pair of layouts there is a kernel that copies `v := e`, and one that
combines element by element, `v := f(v, e)`, with one of the assignment
functors:

- plain assignment;
- `+=`;
- `-=`;
- `*=`.

The model covers:

- the scalar kernel `v := f(v, t)`;
- the six plain kernels and their dispatcher;
- the fused kernels, including the in-place two-pointer merge `assign_sparse`
  of two sparse lists and the route through a temporary copy;
- the fused dispatcher.

**The class-count bookkeeping of the CART decision-tree trainer:**

- `createCountVector`, the histogram of the labels reaching a node;
- the zero-count elimination that `crossEntropy` performs, a `std::partition`
  and a `resize` on a copy of the count vector, before it takes logarithms.

Modules:

- `Functional`: the functor datatype `Op`, its right-zero-identity flag and
  `Apply`.
- `Layouts`: sparse element lists and their logical (dense) value, plus the
  read-only packed and sparse views.
- `Containers`: the mutable destinations. `SparseVector` updates its element
  list with `clear`, `set_element` and writes through an iterator.
  `PackedVector` writes into the array holding its window. A dense destination
  is a plain `array<int>`.
- `SparseMerge`: the merged list `Merge` that `assign_sparse` builds, its
  properties, and the steps of the in-place merge.
- `VectorAssign`: the kernels and dispatchers as imperative methods. Each one
  is proved against the logical value of its operands.
- `VectorAssignAsWritten`: the two fused packed kernels as written, apart
  from the destination iterator's type.
  See "## Findings".
- `CartCommon`: `createCountVector` and the zero-count elimination.

Source modelling choices:

- Values are unbounded integers.
- The template and tag dispatch is an explicit case split over the datatypes
  `Target` and `Source`.
- Whether a sparse operand is a container or a proxy is the datatype `Origin`.
- The `SIZE_CHECK` and `RANGE_CHECK` conditions are preconditions.
- The functors are `ScalarAssign`, `PlusAssign`, `MinusAssign` and
  `MultiplyAssign`. `functional.hpp`, which defines them, is not part of this
  model. The flag `right_zero_identity` is taken to hold for `+=` and `-=`
  only, and `RightZeroIdentityExact` proves that this is exactly the set of
  functors for which `f(x, 0) == x`.
- `set_element` of the sparse container is not part of this model. It is
  modelled as an insertion in front of the given position, keeping the
  indices in order, which is how every caller here uses it.

Three places where the model follows the code rather than a reading of its
intent, and five where it follows the intent:

- The trailing loops of the fused dense-packed and packed-packed kernels write
  zero rather than `f(x, 0)` (vector_assign.hpp:233-236, 274-277). This is
  modelled as written. Because of `Apply`'s contract, zero is `f(x, 0)` for
  every functor that lacks the right-zero identity, and those are the only
  functors for which the loop runs.
- The fused dense-sparse kernel applies `f` only at the indices `e` stores.
  For plain assignment and `*=` the other elements of `v` therefore keep
  their values, instead of becoming `f(v[i], 0) == 0`. `AssignFused` states
  this as the code does it.
- The plain packed-packed kernel overwrites only `e`'s window. The elements of
  `v`'s window outside `e`'s window keep their old values. `AssignPackedPacked`
  and `Assign` state this as the code does it.
- Four slips in the text are modelled by their evident intent:
  - line 373 calls `assign_sparse(v,e)` without the functor; it is modelled
    as `assign_sparse(v,e,f)`, like its two sibling overloads;
  - in the plain dense-packed kernel, lines 73-74 take the iterators from
    `e` rather than `e()`, and lines 81-82 take them from `v` rather than
    `v()`, typed as `e`'s iterator `EIterator`; the model walks `v`'s
    elements;
  - the plain packed-packed kernel has the same slip at lines 106-107 and
    114-115; it too is modelled as walking `v`'s elements;
  - both fused packed kernels declare the destination iterator as
    `V::const_iterator` (lines 216 and 249) and then write through it (lines
    226, 230, 235, 267, 271 and 276); both `VectorAssign` and
    `VectorAssignAsWritten` treat it as a writable iterator.
- The leading loops of the fused dense-packed and packed-packed kernels
  (lines 225-231 and 266-272) stop at once for `+=` and `-=`, which shifts
  `e`'s window (see "## Findings"). `AssignFusedDensePacked` and
  `AssignFusedPackedPacked` model the evident intent: the iterator still
  advances to `e`'s window, only the update before it is skipped. The code
  as written is modelled in `VectorAssignAsWritten`.

## Model

| member | source | states |
|---|---|---|
| Functional.Apply | include/shark/LinAlg/BLAS/kernels/vector_assign.hpp:38-46 | The functor update `f(x, y)`. With a zero right operand it keeps `x` for functors with the right-zero identity, and yields zero for the others. |
| Functional.RightZeroIdentityExact | include/shark/LinAlg/BLAS/kernels/vector_assign.hpp:224-226 | The flag `right_zero_identity` that the kernels test holds exactly when `f(x, 0) == x` for every `x`. |
| Layouts.DenseEntries | include/shark/LinAlg/BLAS/kernels/vector_assign.hpp:157-159 | The sparse list storing every index of a dense vector is well formed, has one element per index, and stores index `i` at position `i`. |
| Layouts.ValueAtStored | include/shark/LinAlg/BLAS/kernels/vector_assign.hpp:140-142 | A stored element is the logical value at its index. |
| Layouts.ValueAtAbsent | include/shark/LinAlg/BLAS/kernels/vector_assign.hpp:136-143 | An index a sparse list does not store reads as zero. |
| Layouts.ValueAtSnoc | include/shark/LinAlg/BLAS/kernels/vector_assign.hpp:140-142 | Appending an element with a larger index changes the logical vector at that index only. |
| Layouts.DenseSparseRoundTrip | include/shark/LinAlg/BLAS/kernels/vector_assign.hpp:146-160 | Storing every element of a dense vector in a sparse list and reading it back gives the same dense vector. |
| Layouts.UpdateEntriesDense | include/shark/LinAlg/BLAS/kernels/vector_assign.hpp:43-46 | Updating each stored value of a sparse list with `f(x, t)` gives `f(old, t)` at the stored indices and zero elsewhere. |
| Containers.SparseVector.SetElement | include/shark/LinAlg/BLAS/kernels/vector_assign.hpp:157-159 | Inserting `(index, x)` between two neighbours whose indices bracket `index` keeps the list sorted. The new list is the old one with the element inserted at `pos`. |
| Containers.SparseVector.ApplyAt | include/shark/LinAlg/BLAS/kernels/vector_assign.hpp:312-313 | `f(*it, x)` changes the value at one position and keeps its index and every other element. |
| Containers.SparseVector.Clear | include/shark/LinAlg/BLAS/kernels/vector_assign.hpp:153 | `clear()` leaves no stored element, so the logical vector is zero. |
| SparseMerge.MergeIndices | include/shark/LinAlg/BLAS/kernels/vector_assign.hpp:327-364 | The merged list stores exactly the union of the indices of `v` and `e`. |
| SparseMerge.MergeWellFormed | include/shark/LinAlg/BLAS/kernels/vector_assign.hpp:327-364 | Merging two well-formed sparse lists gives a strictly increasing list within the size. |
| SparseMerge.MergeValueAt | include/shark/LinAlg/BLAS/kernels/vector_assign.hpp:327-364 | At every index the merged list holds `f(v's value or 0, e's value or 0)`. |
| SparseMerge.MergeDense | include/shark/LinAlg/BLAS/kernels/vector_assign.hpp:327-364 | The merge computes `v := f(v, e)` on the logical vectors. |
| SparseMerge.MergeStepBoth | include/shark/LinAlg/BLAS/kernels/vector_assign.hpp:343-345 | When both lists store the next index, updating `v`'s element with `f(x, y)` makes one more element final without changing the merge result. |
| SparseMerge.MergeStepLeft | include/shark/LinAlg/BLAS/kernels/vector_assign.hpp:346-347 | When only `v` stores the next index, `f(x, 0)` makes one more element final without changing the merge result. |
| SparseMerge.MergeStepRight | include/shark/LinAlg/BLAS/kernels/vector_assign.hpp:348-352 | When only `e` stores the next index, inserting it with zero and then applying `f(0, y)` makes one more element final without changing the merge result. |
| VectorAssign.AssignScalar | include/shark/LinAlg/BLAS/kernels/vector_assign.hpp:38-47 | `x := f(x, t)` on every stored element: every element of a dense vector, the window of a packed one, and the stored list of a sparse one. The new sparse list is the old one with each value updated. |
| VectorAssign.AssignDenseDense | include/shark/LinAlg/BLAS/kernels/vector_assign.hpp:54-63 | Afterwards `v` equals `e`. |
| VectorAssign.AssignDensePacked | include/shark/LinAlg/BLAS/kernels/vector_assign.hpp:65-96 | Afterwards `v` is `e`'s logical value: zero before the window, `e`'s values in it, and zero after it. An empty window leaves `v` all zero. |
| VectorAssign.AssignPackedPacked | include/shark/LinAlg/BLAS/kernels/vector_assign.hpp:99-128 | This needs a non-empty destination window that contains a non-empty source window. An empty source zeroes `v`'s window. Otherwise `v` equals `e` on `e`'s window, and the rest of `v`'s window keeps its values. |
| VectorAssign.AssignDenseSparse | include/shark/LinAlg/BLAS/kernels/vector_assign.hpp:131-144 | Afterwards `v[i]` is `e`'s stored value at the indices `e` stores, and zero elsewhere. |
| VectorAssign.AssignSparseDense | include/shark/LinAlg/BLAS/kernels/vector_assign.hpp:146-160 | Afterwards `v` stores every index `0 .. size-1` in increasing order with `e(i)`, zeros included, and reads back as `e`. |
| VectorAssign.AssignSparseSparse | include/shark/LinAlg/BLAS/kernels/vector_assign.hpp:162-177 | Afterwards `v`'s element list is `e`'s, element for element. |
| VectorAssign.PackedClearedLogical | include/shark/LinAlg/BLAS/kernels/vector_assign.hpp:109-112 | A packed destination whose window was cleared reads as the empty source: the zero vector. |
| VectorAssign.PackedCopyLogical | include/shark/LinAlg/BLAS/kernels/vector_assign.hpp:123-127 | A window holding the source's values over the source's window agrees with the source there, as logical vectors. |
| VectorAssign.Assign | include/shark/LinAlg/BLAS/kernels/vector_assign.hpp:180-186 | The plain dispatcher. For dense and sparse destinations `v` holds `e`'s logical value. A sparse destination also gets the stored list its kernel builds: every index `0 .. size-1` in order, zeros included, from a dense source, and `e`'s own list from a sparse source. For packed destinations `v` agrees with `e` on `e`'s window, keeps its old values on the rest of its own window, and holds `e`'s value outright when `e` is empty. |
| VectorAssign.AssignFusedDenseDense | include/shark/LinAlg/BLAS/kernels/vector_assign.hpp:193-204 | `v := f(v, e)` element by element. |
| VectorAssign.ZeroUpdateRange | include/shark/LinAlg/BLAS/kernels/vector_assign.hpp:224-226 | The leading loop leaves `f(x, 0)` on a range of elements, whether it applies `f` or skips it for a functor with the right-zero identity. Every other element is unchanged. |
| VectorAssign.CombineRange | include/shark/LinAlg/BLAS/kernels/vector_assign.hpp:228-230 | The middle loop combines the source's stored values into consecutive elements with `f(x, y)`. Every other element is unchanged. |
| VectorAssign.ZeroFillFrom | include/shark/LinAlg/BLAS/kernels/vector_assign.hpp:233-236 | The trailing loop as written sets every element from a position on to zero and leaves the elements before it unchanged. |
| VectorAssign.AssignFusedDensePacked | include/shark/LinAlg/BLAS/kernels/vector_assign.hpp:207-237 | The corrected kernel: `v := f(v, e)` element by element on the logical vectors, for every functor. |
| VectorAssign.AssignFusedPackedPacked | include/shark/LinAlg/BLAS/kernels/vector_assign.hpp:240-278 | The corrected kernel: on `v`'s window, each stored element becomes `f(old, e(i))` at its own index `i`. |
| VectorAssign.PackedFusedLogical | include/shark/LinAlg/BLAS/kernels/vector_assign.hpp:240-278 | Updating the window of a packed `v` with a source that is zero outside that window is `v := f(v, e)` on the whole logical vector. |
| VectorAssign.AssignFusedDenseSparse | include/shark/LinAlg/BLAS/kernels/vector_assign.hpp:281-293 | `v[i] := f(v[i], e_i)` at every index `e` stores. Every other element of `v` is unchanged. |
| VectorAssign.FillIndex | include/shark/LinAlg/BLAS/kernels/vector_assign.hpp:309-313 | One pass of the sparse-dense loop completes index `i`: it inserts `i` when missing, then applies `f`. |
| VectorAssign.FillGap | include/shark/LinAlg/BLAS/kernels/vector_assign.hpp:309-311 | When the iterator is at the end or at another index, index `i` is not stored. Inserting it at the iterator then keeps the list sorted. |
| VectorAssign.FillInsertStep | include/shark/LinAlg/BLAS/kernels/vector_assign.hpp:309-313 | Inserting a missing index with zero and applying `f(0, e(i))` completes index `i`. |
| VectorAssign.FillUpdateStep | include/shark/LinAlg/BLAS/kernels/vector_assign.hpp:312-313 | Applying `f(x, e(i))` to the stored element at index `i` completes index `i`. |
| VectorAssign.FillEnd | include/shark/LinAlg/BLAS/kernels/vector_assign.hpp:308-314 | After the last index no old element is left over, and `v` stores exactly the indices `0 .. size-1`. |
| VectorAssign.AssignFusedSparseDense | include/shark/LinAlg/BLAS/kernels/vector_assign.hpp:296-315 | Afterwards `v` stores every index `0 .. size-1` in order, with `f(old value or 0, e(i))`. |
| VectorAssign.AssignSparse | include/shark/LinAlg/BLAS/kernels/vector_assign.hpp:327-364 | `assign_sparse` leaves `v` well formed with exactly the list `Merge(f, old v, e)`. |
| VectorAssign.MergeBoth | include/shark/LinAlg/BLAS/kernels/vector_assign.hpp:340-354 | The `while` loop keeps the merge invariant and stops when either list is exhausted. |
| VectorAssign.MergeStep | include/shark/LinAlg/BLAS/kernels/vector_assign.hpp:341-353 | One pass of the loop keeps the merge invariant and strictly decreases the elements left to visit. |
| VectorAssign.UpdateCommon | include/shark/LinAlg/BLAS/kernels/vector_assign.hpp:343-345 | `f(*it, *ite)` on a common index keeps the merge invariant with both iterators advanced. |
| VectorAssign.UpdateOwn | include/shark/LinAlg/BLAS/kernels/vector_assign.hpp:346-347 | `f(*it, zero)` on an index only `v` stores keeps the merge invariant with `it` advanced. |
| VectorAssign.InsertFromSource | include/shark/LinAlg/BLAS/kernels/vector_assign.hpp:348-352 | `set_element(it, index, zero)` then `f(*it, *ite)` on an index only `e` stores keeps the merge invariant with both iterators advanced. |
| VectorAssign.MergeRemainingOfV | include/shark/LinAlg/BLAS/kernels/vector_assign.hpp:355-358 | The first trailing loop applies `f(x, 0)` to the rest of `v` and keeps the merge invariant. |
| VectorAssign.MergeRemainingOfE | include/shark/LinAlg/BLAS/kernels/vector_assign.hpp:359-363 | The second trailing loop appends the rest of `e` with `f(0, y)`, and `v` becomes the merged list. |
| VectorAssign.AssignFusedSparseSparse | include/shark/LinAlg/BLAS/kernels/vector_assign.hpp:366-409 | The in-place route and the temporary-then-copy route give the same merged list. |
| VectorAssign.AssignFused | include/shark/LinAlg/BLAS/kernels/vector_assign.hpp:412-419 | The fused dispatcher gives `v := f(v, e)` on the logical vectors for every layout pair. The exception is dense-sparse with a functor that lacks the right-zero identity: there each index `e` stores becomes `f(v[i], e(i))` and every other index keeps its value. A sparse destination also gets its stored list: from a dense source every index `0 .. size-1` in order, and from a sparse source the merged list `Merge`, which stores the union of both index sets. |
| VectorAssignAsWritten.AssignFusedDensePackedAsWritten | include/shark/LinAlg/BLAS/kernels/vector_assign.hpp:207-237 | The kernel as written. With `+=` or `-=`, element `k` of `e`'s window is combined into `v[k]` instead of `v[e.start + k]`. |
| VectorAssignAsWritten.DensePackedAsWrittenPointwise | include/shark/LinAlg/BLAS/kernels/vector_assign.hpp:222-236 | The element-wise effect of the kernel's loops as written is `DensePackedAsWritten`. |
| VectorAssignAsWritten.DensePackedShiftCounterexample | include/shark/LinAlg/BLAS/kernels/vector_assign.hpp:225-231 | `[0,0,0] +=` a packed vector holding 5 at index 1 gives `[5,0,0]` as written, where `[0,5,0]` is intended. |
| VectorAssignAsWritten.DensePackedAsWrittenAgrees | include/shark/LinAlg/BLAS/kernels/vector_assign.hpp:207-237 | The kernel as written agrees with `v := f(v, e)` when the functor lacks the right-zero identity, when `e`'s window starts at 0, or when `e` is empty. |
| VectorAssignAsWritten.AssignFusedPackedPackedAsWritten | include/shark/LinAlg/BLAS/kernels/vector_assign.hpp:240-278 | The kernel as written. With `+=` or `-=`, element `k` of `e`'s window is combined into `v`'s `k`-th stored element. |
| VectorAssignAsWritten.PackedPackedAsWrittenPointwise | include/shark/LinAlg/BLAS/kernels/vector_assign.hpp:256-277 | The element-wise effect of the kernel's loops as written is `PackedPackedAsWritten`. |
| VectorAssignAsWritten.PackedPackedShiftCounterexample | include/shark/LinAlg/BLAS/kernels/vector_assign.hpp:266-272 | A window `[0,3)` holding `[0,0,0]`, `+=` a packed vector holding 5 at index 1, gives `[5,0,0]` as written, where `[0,5,0]` is intended. |
| VectorAssignAsWritten.PackedPackedAsWrittenAgrees | include/shark/LinAlg/BLAS/kernels/vector_assign.hpp:240-278 | The kernel as written agrees with the corrected one when the functor lacks the right-zero identity, when both windows start at the same index, or when `e` is empty. |
| CartCommon.CreateCountVector | src/Algorithms/CARTcommon.cpp:78-87 | This needs every label below `labelCardinality`. The result has `labelCardinality` counts, `countVector[j]` is the number of elements labelled `j`, and the counts add up to the number of elements. So an empty input gives all zeros. |
| CartCommon.CountStep | src/Algorithms/CARTcommon.cpp:83-85 | Counting one more element raises only the count of its label, by one. |
| CartCommon.SumIncrement | src/Algorithms/CARTcommon.cpp:84 | `++countVector[label]` raises the total by one. |
| CartCommon.PartitionNonZero | src/Algorithms/CARTcommon.cpp:69 | `std::partition` by `value != 0` permutes the counts in place, with the non-zero counts before the returned point and the zeros after it. |
| CartCommon.Swap | src/Algorithms/CARTcommon.cpp:69 | The exchange that `std::partition` performs swaps two counts and keeps the rest. The counts as a multiset are unchanged. |
| CartCommon.EliminateZeroCounts | src/Algorithms/CARTcommon.cpp:67-70 | On a copy, so the input is unchanged, it gives exactly the non-zero counts of `countVector`, as a multiset, and no zero. |
| CartCommon.NonZerosMultiset | src/Algorithms/CARTcommon.cpp:69-70 | The sequence of non-zero counts holds every non-zero count and nothing else. |
| CartCommon.ZeroEliminationKeepsTotal | src/Algorithms/CARTcommon.cpp:67-72 | The counts left after zero elimination still add up to the original total, so the frequencies `c / n` still sum to one. |
| CartCommon.SumPermutation | src/Algorithms/CARTcommon.cpp:69 | Rearranging counts, as `std::partition` does, keeps their total. |

## Left out

- `gini`, `misclassificationError`, and the `p * log(p)` part and `n == 0` result of `crossEntropy` (CARTcommon.cpp:48-60, 65, 72-73): floating-point division, squaring and logarithm.
- `DataView` and `ClassificationDataset`: the input of `createCountVector` is the sequence of its elements' labels.
- The unsigned width of the count vector's entries (`ClassVector`, whose entries the predicate at CARTcommon.cpp:69 reads as `unsigned`; its definition is not part of this model): counts are unbounded naturals. The number of elements is a `std::size_t` (line 83), so a label seen more than `UINT_MAX` times wraps around at `++countVector[...]` (line 84) in the code; the model does not capture that wrap-around.
- The C++ template machinery. This covers the `evaluation_category` tags, the functor template-template parameter, and overload selection between `vector_container` and `vector_expression` (vector_assign.hpp:366-392). The tags are modelled as datatype cases, and container versus proxy as `Origin`.
- Memory sharing between `v` and `e`, and iterator invalidation, which are why the temporary at vector_assign.hpp:398-409 exists. Sources are values, so only the resulting values are modelled.
- `reserve` (vector_assign.hpp:154): it changes capacity only.
- `functional.hpp` and the sparse container's `set_element` and `clear` are not part of this model. Their behaviour is assumed as described above.
- VectorAssign.AssignFused: for dense-sparse with plain assignment or `*=`, the contract states what the code does rather than `v := f(v, e)`, which the code does not deliver there: each stored index becomes `f(v[i], e(i))` and the unstored elements keep their values instead of becoming `f(v[i], 0)`.
- VectorAssign.Assign: for a packed destination, the contract states equality with `e` only on `e`'s window (and everywhere when `e` is empty), because the code leaves the rest of `v`'s window as it was; the contract states that too.

## Findings

| source | as written | input that shows it | evidently intended | confidence | as-written member | corrected member |
|---|---|---|---|---|---|---|
| include/shark/LinAlg/BLAS/kernels/vector_assign.hpp:225-231 | The loop that advances `viter` to `e`'s first index has `&& !F::right_zero_identity` in its condition. So for `+=` and `-=` it never runs, and `e`'s window is combined into `v` from index 0. | dense `v = [0,0,0]`, packed `e` of size 3 holding 5 at index 1, `+=`: result `[5,0,0]` | skip applying `f` before the window but still advance to it: result `[0,5,0]` | not executed | VectorAssignAsWritten.AssignFusedDensePackedAsWritten, VectorAssignAsWritten.DensePackedShiftCounterexample | VectorAssign.AssignFusedDensePacked |
| include/shark/LinAlg/BLAS/kernels/vector_assign.hpp:266-272 | The same loop condition in the packed-packed kernel. For `+=` and `-=` the window of `e` is combined into `v`'s window from its first stored element. | packed `v` with window `[0,3)` holding `[0,0,0]`, packed `e` holding 5 at index 1, `+=`: window becomes `[5,0,0]` | window becomes `[0,5,0]` | not executed | VectorAssignAsWritten.AssignFusedPackedPackedAsWritten, VectorAssignAsWritten.PackedPackedShiftCounterexample | VectorAssign.AssignFusedPackedPacked |
