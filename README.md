# Sorting and searching algorithms, modelled in Dafny

This project models a small Rust algorithms library, with proofs about the model. The library has:

- five in-place sorts over a slice (`src/sorting.rs`): bubble, insertion, top-down merge sort, and quick sort with a Lomuto partition around the middle element, all four driven by a comparator, and selection sort, which uses the element type's own order;
- linear and binary search (`src/searching.rs`);
- the strict-ascending check `is_sorted` that binary search runs first (`src/util.rs`).

A Rust slice is a Dafny `array`, and every sort is a `method` that changes that array in place. Merge sort and quick sort recurse on index ranges `[lo, hi)` of the array. The comparator `cmp(x, y)` answers "must `x` come before `y`?", as the closures in the tests do. It is a function value `(T, T) -> bool`, and every comparator-driven sort requires it to be a strict weak order. The sorts are proved against these specifications from `comparators.dfy`:

- `SortedBy`: no element must come before one on its left. Every sort is proved to give a sorted result; selection sort is proved sorted under `IntLess`, the integers' `<`.
- Same multiset: every sort is proved to give a permutation of its input.
- `Stable`: for every `x`, the subsequence of elements `cmp` cannot tell apart from `x` (`Peers`) is unchanged. This is proved for bubble sort, merge sort and the corrected insertion sort. Insertion sort as written is proved to REVERSE every such subsequence instead. No stability claim is made for selection sort or quick sort.
- A sorted input is left as it is. This holds for the stable sorts under any strict weak order and for the others under a total order. Since every result is sorted, sorting twice gives what sorting once does. Insertion sort as written, comparing the sample records by key alone, is shown to change a sorted input, so it is not idempotent there.

Two uniqueness lemmas pin down what a sort must output, and the test vectors are proved through them. Under a total order, a sorted permutation is unique. For any strict weak order, a sorted permutation with the same peer subsequences is unique.

Files:

- `comparators.dfy`: comparator properties, `SortedBy`, `Peers`, `Stable`, uniqueness lemmas.
- `util.dfy`: `is_sorted`.
- `searching.dfy`: the two searches and their test vectors.
- `sorting.dfy`: the five sorts, `merge`, `partition`, and the corrected insertion sort.
- `sorting_examples.dfy`: the test vectors of `src/sorting.rs`.

Choices:

- **Natural order.** Selection sort, `is_sorted` and binary search compare elements with Rust's `Ord`. They are modelled on `int`.
- **Empty slices.** `bubble_sort`, `selection_sort` and `binary_search` compute `len - 1` on `usize`, which underflows on an empty slice. Each is modelled with the precondition that the slice is non-empty.
- **Merge.** `merge` is proved against the function `Merged`, which takes the right head only when it must come before the left head. Merge sort is proved against `MergeSorted`, which splits at `len / 2`.

## Model

| member | source | states |
|---|---|---|
| Comparators.SortedFromNeighbours | src/sorting.rs:15-17 | for a strict weak order, a sequence with no neighbour pair out of order is sorted: why a pass without a swap ends bubble sort |
| Comparators.SwapNeighboursStable | src/sorting.rs:9-11 | swapping neighbours where the right one must come before the left one changes no peer subsequence |
| Comparators.SortedStableUnique | src/sorting.rs:211-214 | two sorted sequences with the same elements and the same peer subsequences are equal |
| Comparators.SortedPermutationUnique | src/sorting.rs:197-205 | under a strict total order, two sorted permutations of each other are equal |
| Comparators.StrictlySortedUnique | src/sorting.rs:216-218 | for an irreflexive comparator, a sorted sequence with the same elements as a strictly sorted one equals it, even when the comparator is not total |
| Comparators.SortedInputUnchanged | src/sorting.rs:256-258 | a sorted permutation of an already sorted sequence is that sequence, under a total order or when it is stable: sorting a sorted slice leaves it unchanged, and sorting twice equals sorting once |
| Comparators.Swapped | src/sorting.rs:10 | what `slice::swap` leaves: positions `i` and `j` exchanged, every other position unchanged, the length kept |
| Comparators.TotalPermutationStable | src/sorting.rs:139 | under a total order, every permutation is stable: why tests sorting `Data` by its derived order cannot detect instability |
| Sorting.Swap | src/sorting.rs:10 | the new contents are the old ones with positions `i` and `j` exchanged |
| Sorting.SwappedPermutes | src/sorting.rs:10 | a swap keeps the multiset of elements |
| Sorting.BubbleStep | src/sorting.rs:9-12 | the pair `i, i + 1` is swapped exactly when `cmp(a[i + 1], a[i])`, the flag records it, and the pass invariant moves on by one |
| Sorting.BubblePass | src/sorting.rs:7-13 | one pass settles one more position at the end, keeps the elements and their peer order, and a pass without a swap leaves no neighbour pair out of order |
| Sorting.BubbleSort | src/sorting.rs:1-19 | for a non-empty slice: the result is sorted, a permutation, and stable, and a sorted slice is left unchanged; it terminates because a pass that swaps settles one more position |
| Sorting.InsertSorted | src/sorting.rs:26-33 | inserting an element behind everything that must come before it and ahead of everything that need not keeps a prefix sorted |
| Sorting.ShiftLeft | src/sorting.rs:27-32 | the inner loop moves `a[i]` left to the first `j` whose left neighbour must come before it, past only elements that need not come before it, and changes nothing else |
| Sorting.InsertionStepReverses | src/sorting.rs:27-32 | an element shifted left passes all its equivalents, so each peer subsequence of the prefix stays the reverse of the input's |
| Sorting.InsertionSort | src/sorting.rs:21-34 | the result is sorted and a permutation, and every peer subsequence is the REVERSE of the input's (the sort is not stable); under a total order a sorted slice is left unchanged |
| Sorting.ShiftLeftStable | src/sorting.rs:27-32 | the corrected inner loop moves `a[i]` left only past elements it must come before, so it stops behind its equivalents |
| Sorting.StableInsertionSort | src/sorting.rs:21-34 | the corrected insertion sort: the result is sorted, a permutation, and stable, and a sorted slice is left unchanged |
| Sorting.FirstMinIndex | src/sorting.rs:39-43 | `min_by` over the suffix: a minimum of `a[lo..]`, and the first one among equal minima |
| Sorting.SelectionStep | src/sorting.rs:38-45 | swapping a minimum of the suffix into position `i` extends the ascending prefix, whose elements are none greater than any later one, and keeps the elements |
| Sorting.SelectionSort | src/sorting.rs:36-46 | for a non-empty slice: the result is ascending and a permutation, and an ascending slice is left unchanged |
| Sorting.Merged | src/sorting.rs:76-94 | what `merge` writes: the left head once the right half is used up, the right head once the left one is, otherwise the right head only when it must come before the left head; its contract says only that the length is the sum of the halves' lengths, and what it holds, its order and where ties go are the three lemmas below |
| Sorting.MergedPermutation | src/sorting.rs:76-94 | the merge holds exactly the elements of both halves |
| Sorting.MergedSorted | src/sorting.rs:76-94 | merging two sorted halves gives a sorted sequence |
| Sorting.MergedPeers | src/sorting.rs:89-93 | when the left half is sorted, every peer subsequence of the merge is the left half's followed by the right half's: ties go to the left |
| Sorting.MergedExhausted | src/sorting.rs:77-87 | once one half is used up, the merge takes the head of the other |
| Sorting.MergeNext | src/sorting.rs:76-93 | one step of the loop: exactly one half advances and its head is the value written; the right half advances exactly when the left is used up or the right head must come before the left head; and the value is the head of the merge of what remains |
| Sorting.Merge | src/sorting.rs:63-95 | the range `[lo, hi)` ends up holding `Merged` of its two old halves, and the rest of the array is unchanged |
| Sorting.MergeSorted | src/sorting.rs:53-60 | what `merge_sort` leaves: unchanged below two elements, otherwise the merge of both halves, split at `len / 2`, each merge sorted; its contract says only that the length is kept, and the lemmas below give the rest |
| Sorting.MergeSortedPermutation | src/sorting.rs:53-60 | merge sort keeps every element |
| Sorting.MergeSortedSorted | src/sorting.rs:53-60 | merge sort sorts |
| Sorting.MergeSortedStable | src/sorting.rs:53-60 | merge sort is stable |
| Sorting.MergeSortedOfSorted | src/sorting.rs:53-60 | merge sort leaves a sorted sequence unchanged, under any strict weak order |
| Sorting.MergeSortedIdempotent | src/sorting.rs:53-60 | merge sorting twice gives what merge sorting once does |
| Sorting.MergeSortRange | src/sorting.rs:48-61 | the range `[lo, hi)` ends up holding `MergeSorted` of its old contents (ranges below two elements are unchanged), and the rest of the array is unchanged |
| Sorting.MergeSort | src/sorting.rs:48-61 | the result is `MergeSorted` of the input: sorted, a permutation, and stable, and a sorted slice is left unchanged |
| Sorting.Middle | src/sorting.rs:116 | the pivot index `len / 2` of a non-empty range lies inside the range |
| Sorting.PartitionStart | src/sorting.rs:116-122 | parking the middle element at the end starts the partition invariant with an empty front part |
| Sorting.PartitionVisit | src/sorting.rs:123-128 | one step of the loop: when `a[i]` must come before the pivot it is swapped to `store_index` and `store_index` advances, otherwise nothing changes; the invariant is kept that elements before `store_index` must come before the pivot and the elements from `store_index` to `i` need not |
| Sorting.Partition | src/sorting.rs:110-133 | returns `p` in the range, with the original middle element at `p`, everything before it coming before it, nothing after it coming before it, the elements kept, and the rest of the array unchanged |
| Sorting.SortedAroundPivot | src/sorting.rs:104-106 | sorted sides around a pivot, with the left side all ahead of it and the right side none ahead of it, form a sorted sequence |
| Sorting.QuickSortRange | src/sorting.rs:97-108 | the range `[lo, hi)` ends up sorted, the elements are kept, and the rest of the array is unchanged; the recursion is on strictly smaller ranges |
| Sorting.QuickSort | src/sorting.rs:97-108 | the result is sorted and a permutation; under a total order a sorted slice is left unchanged |
| Util.IsSorted | src/util.rs:3 | the adjacent-pair check holds if and only if every element is smaller than every element to its right |
| Util.IsSortedEdgeCases | src/util.rs:3 | slices of length at most one are sorted, and two equal neighbours make the check fail |
| Util.IsSortedExamples | src/util.rs:11-17 | `[1, 2, 3, 4, 5]` is sorted and `[5, 4, 3, 2, 1]` is not |
| Searching.LinearSearch | src/searching.rs:5-13 | `Some(i)` only for the first index holding the element, and `None` exactly when the element does not occur |
| Searching.BinarySearch | src/searching.rs:15-47 | `None` for every slice that is not strictly ascending; otherwise `Some(i)` only where `a[i]` is the element, and `None` exactly when it is absent |
| Searching.LinearSearchExamples | src/searching.rs:53-61 | searching `[1, 2, 3, 4, 5, 5, 4, 3, 2, 1]` gives `Some(0)` for 1, `Some(4)` for 5, and `None` for 6 and 0 |
| Searching.BinarySearchExamples | src/searching.rs:63-74 | over `0..1000`: `Some(1)` for 1, `Some(999)` for 999, and `None` for 1000 and -1; over `[5, 4, 3, 2, 1]`: `None` for 4 |
| SortingExamples.ReversedVector | src/sorting.rs:198-200 | `[5, 4, 3, 2, 1]` sorted by `<` can only be `[1, 2, 3, 4, 5]` |
| SortingExamples.DuplicatesVector | src/sorting.rs:203-205 | `[1, 2, 3, 4, 5, 5, 4, 3, 2, 1]` sorted by `<` can only be `[1, 1, 2, 2, 3, 3, 4, 4, 5, 5]` |
| SortingExamples.DescendingVector | src/sorting.rs:208-210 | `[1, 2, 3, 4, 5]` sorted by `>` can only be `[5, 4, 3, 2, 1]` |
| SortingExamples.AscendingVector | src/sorting.rs:256-258 | `[1, 2, 3, 4, 5]` sorted ascending can only be itself |
| SortingExamples.SampleDataVector | src/sorting.rs:213-215 | the sample records sorted by their derived order can only be `sorted_sample_data()` |
| SortingExamples.LengthsVector | src/sorting.rs:217-219 | the five strings sorted by length can only be `["a", "ab", "abc", "abcd", "abcde"]`, although the comparator is not total |
| SortingExamples.StableByKeyVector | src/sorting.rs:145-193 | a sorted, stable rearrangement of the sample records by key alone can only be `sorted_sample_data()` |
| SortingExamples.ReversedTiesByKeyVector | src/sorting.rs:26-33 | a rearrangement by key alone that reverses every peer subsequence, as insertion sort gives, can only be the sample with each pair of equal keys swapped |
| SortingExamples.ReversedTiesNotStable | src/sorting.rs:26-33 | that rearrangement differs from `sorted_sample_data()` and is not stable |
| SortingExamples.ReversedTiesResortedVector | src/sorting.rs:26-33 | sorting that reversed-ties result by key once more with a sort that reverses ties can only give `sorted_sample_data()`: the ties turn back |
| SortingExamples.BubbleSortTests | src/sorting.rs:196-210 | bubble sort gives the expected vector in each integer test |
| SortingExamples.BubbleSortRecordTests | src/sorting.rs:212-219 | bubble sort gives the expected result in the record and string tests, and `sorted_sample_data()` when sorting the records by key alone |
| SortingExamples.InsertionSortTests | src/sorting.rs:223-235 | insertion sort gives the expected vector in each integer test |
| SortingExamples.InsertionSortRecordTests | src/sorting.rs:236-243 | insertion sort gives the expected result in the record and string tests, but sorting the records by key alone gives the sample with equal keys reversed, which is not stable |
| SortingExamples.InsertionSortTwiceTests | src/sorting.rs:21-34 | insertion sort as written, run twice on the sample records by key alone, gives the reversed-ties result and then `sorted_sample_data()`: sorting twice differs from sorting once |
| SortingExamples.StableInsertionSortTests | src/sorting.rs:223-235 | the corrected insertion sort gives the expected vector in each integer test |
| SortingExamples.StableInsertionSortRecordTests | src/sorting.rs:236-243 | the corrected insertion sort gives the expected result in the record and string tests, and gives `sorted_sample_data()` when sorting by key alone |
| SortingExamples.SelectionSortTests | src/sorting.rs:247-259 | selection sort gives the expected vector in each test |
| SortingExamples.MergeSortTests | src/sorting.rs:262-274 | merge sort gives the expected vector in each integer test |
| SortingExamples.MergeSortRecordTests | src/sorting.rs:275-282 | merge sort gives the expected result in the record and string tests, and gives `sorted_sample_data()` when sorting by key alone |
| SortingExamples.QuickSortTests | src/sorting.rs:286-298 | quick sort gives the expected vector in each integer test |
| SortingExamples.QuickSortRecordTests | src/sorting.rs:299-306 | quick sort gives the expected result in the record and string tests |

## Left out

- Integer widths: `i32` elements and `usize` indices are unbounded integers. The `mid == usize::MAX` guard of `binary_search` (src/searching.rs:36) cannot fire for an in-bounds `mid` and is not modelled.
- Trait plumbing (`AsRef<[T]>`, `Fn` references, `Copy`/`Clone` bounds) is not modelled. Elements are a type parameter and the comparator is a function value.
- `Ord` on a generic element type is not modelled. Selection sort, `is_sorted` and binary search are modelled on integers in their natural order.
- Sorts given a comparator that is not a strict weak order are not modelled. This includes bubble sort with a reflexive comparator such as `<=`, which never terminates because it swaps equal neighbours on every pass.
- The empty slice is excluded by a precondition wherever the source underflows `len - 1`: `BubbleSort`, `SelectionSort` and `BinarySearch`. The underflow panic itself is not modelled.
- Complexity bounds and recursion depth are not modelled.
- `merge`'s `to_vec` copies are local sequences, and its peekable iterators are indices into them. The allocation is not modelled.
- No stability claim is made for `SelectionSort` or `QuickSort`, because the source does not make them stable. Selection sort is over integers, where equal elements cannot be told apart anyway.
- Sorting.InsertionSort: "a sorted slice is left unchanged" is proved only under a total order. Under a strict weak order that is not total, insertion sort as written reverses ties even in a sorted slice (`SortingExamples.InsertionSortTwiceTests`).
- Sorting.QuickSort: "a sorted slice is left unchanged" is proved only under a total order, because quick sort is not stable and may reorder ties.
- SortingExamples.QuickSortRecordTests: gives no result for the records sorted by key alone. Quick sort is not stable, so its output there is not pinned down.

## Findings

| source | as written | input that shows it | evidently intended | confidence | as-written member | corrected member |
|---|---|---|---|---|---|---|
| src/sorting.rs:27-31 | the inner loop stops only when `cmp(arr[j - 1], arr[j])`, so an element is swapped past every neighbour that need not come before it, its equivalents included: every run of equivalent elements comes out reversed | `sample_data()` sorted with `\|x, y\| x.key < y.key` gives `[(1,1), (2,3), (2,2), (3,5), (3,4)]` instead of `sorted_sample_data()` | a stable sort, as the "Test stable sort" block of `test_insertion_sort` says; the test cannot see the reversal because the derived order on `Data` also compares the satellite data | not executed | SortingExamples.InsertionSortRecordTests | Sorting.StableInsertionSort |
