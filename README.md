# Sorting benchmark scripts: a verified model of their sorts

The four benchmark scripts `nd.py`, `night.py`, `shree.py` and `eye.py` time
hand-written sorts on lists of integers. This project models those sorts,
and the code that feeds copies of one list to both sorts, in Dafny.

- **Bubble sort.** `nd.py`, `night.py` and `eye.py` share it letter for
  letter (`nd.py:10-15`, `night.py:10-15`, `eye.py:6-11`). It is modelled
  once, as `Bubble.BubbleSort` on an `array<int>`. Outer pass `i` is
  `Bubble.BubblePass`; the swap is `Bubble.Swap`.
- **Defective bubble sort.** `shree.py` has a variant whose line 13 copies
  `arr[j]` into `arr[j + 1]` instead of swapping. It is modelled as written,
  as `Shree.BubbleSortAsWritten`. Its result is the running maximum
  `Shree.PrefixMax` of the input: sorted, but a rearrangement of the input
  only when the input was sorted already.
- **Merge sort.** All four scripts share it. It is modelled as
  `Merging.MergeSort`, which works in place on the caller's array:
  - the halves are fresh arrays (`Merging.SplitHalves`);
  - the three merge loops walk `i`, `j` and `k` (`Merging.MergeHeads` for
    the first, `Merging.MergeTails` with `Merging.CopyRest` for the two tail
    loops).

  The method is proved to leave in the array the pure value
  `Merging.MergeSortOf` of the input list. That value uses the same split at
  `len // 2` and the same strict `<` between heads (`Merging.Merge`).
- **Quicksort.** `nd.py` has a pure three-way quicksort, modelled as the
  function `Nd.QuickSort` over `seq<int>`.
- **Drivers.** Two drivers run both sorts on copies of one list:
  - `night.py`'s "Bubble vs Merge" branch, `Night.BubbleVsMerge`;
  - `eye.py`'s `run_sorting_analysis`, `Eye.RunSortingAnalysis`.

  The per-input step of `shree.py`'s `run_analysis` is `Shree.AnalyseInput`.
  Its "sorted" and "reverse_sorted" generators are `Shree.Ascending` and
  `Shree.Descending`.

Three facts tie the parts together:

- `Sorting.SortedUnique`: two sorted lists with the same elements are equal.
- The bubble sort, the merge sort and the quicksort all produce the same
  sorted rearrangement of their input. `Bubble.BubbleSort` and
  `Nd.QuickSort` each promise a sorted permutation, `Merging.MergeSortOf`
  is one too, and `Sorting.SortedUnique` makes them equal.
  `Nd.QuickSortAgreesWithMergeSort` and `Night.BubbleVsMerge` state the
  equalities.
- The defective sort agrees with the merge sort exactly on sorted inputs
  (`Shree.AgreeIffSorted`).

Python integers are unbounded, so the model uses `int` throughout. `//` is
applied only to list lengths, which are non-negative, so Dafny's `/` matches
it.

## Model

| member | source | states |
|---|---|---|
| Sorting.SortedUnique | eye.py:55-62 | two sorted lists with the same multiset of elements are the same list, so every correct sort of one input gives one result |
| Sorting.SortedConcat | nd.py:49 | concatenating two sorted lists, where nothing in the first exceeds anything in the second, gives a sorted list |
| Bubble.Swapped | nd.py:15 | exchanging two adjacent cells keeps the multiset of the list |
| Bubble.Swap | nd.py:15 | the tuple assignment leaves exactly the list with cells `j` and `j + 1` exchanged |
| Bubble.PassStep | nd.py:13-15 | one inner step, swapping only when `arr[j] > arr[j + 1]`, keeps the sorted tail and carries the largest of `arr[0..j]` to cell `j + 1` |
| Bubble.BubblePass | nd.py:12-15 | after an outer pass over `arr[0..m)`, cells from `m - 1` on are sorted and no earlier cell exceeds them (the largest elements sit at the end); cells from `m` on, which the inner bound `n - i - 1` excludes, are left exactly as they were; the multiset is unchanged |
| Bubble.BubbleSort | nd.py:10-15 | afterwards the list is sorted and a permutation of the input, and a list that was already sorted is left unchanged |
| Merging.Merge | nd.py:24-40 | the merge loops as a value: the left head is taken only when strictly smaller, so ties take the right head, then the rest of whichever half remains; the result has length `len(left) + len(right)`. Its other properties are `MergePermutation`, `MergeSorted`, `TakeLeft` and `TakeRight` |
| Merging.MergePermutation | nd.py:24-40 | the merge has length `len(left) + len(right)` and the multiset union of both halves as its elements |
| Merging.MergeSorted | nd.py:24-40 | merging two sorted halves gives a sorted list |
| Merging.TakeLeft | nd.py:26-28 | when `left_half[i] < right_half[j]` (or the right half is used up), the next cell of the merge is `left_half[i]` and the rest is the merge of what remains |
| Merging.TakeRight | nd.py:29-31 | on `left_half[i] >= right_half[j]`, ties included, the next cell of the merge is `right_half[j]` and the rest is the merge of what remains |
| Merging.RestOfMerge | nd.py:33-40 | once one half is used up, the rest of the merge is the rest of the other half, cell by cell, and ends at `len(left) + len(right)` |
| Merging.MergeSortOf | nd.py:17-40 | what `merge_sort` leaves in the list is sorted and has the input's multiset |
| Merging.SplitHalves | nd.py:19-21 | the slices are two new lists of lengths `n // 2` and `n - n // 2` whose concatenation is exactly `arr` |
| Merging.MergeHeads | nd.py:24-32 | the first merge loop stops with one half used up and `k == i + j`; `arr[0..k)` is the start of the merge, the merge of the two rests is the remainder, and cells from `k` on are not yet written |
| Merging.MergeTails | nd.py:33-40 | given the state the first loop leaves, the two tail loops copy the rest of each half and complete the merge in `arr` |
| Merging.CopyRest | nd.py:33-40 | a tail loop copies `half[i..]` into `arr` from cell `k` on, ends with `k` advanced by the number of cells copied, and changes no other cell |
| Merging.MergeBack | nd.py:24-40 | the three merge loops together leave `arr` holding exactly the merge of the two sorted halves; cell `k` is written when `k` is passed and never again (`MergeHeads`, `CopyRest`) |
| Merging.MergeSort | nd.py:17-23 | the list ends up as `MergeSortOf` of its old contents (sorted, same multiset), and a list of length 0 or 1 is unchanged |
| Nd.Filter | nd.py:46-48 | a comprehension keeps every element that passes the test, as often as it occurs, and no other element |
| Nd.Partitioned | nd.py:45-48 | the three comprehensions around the middle element split the list without loss; `left` and `right` are strictly shorter than the list, which is why the recursion ends |
| Nd.Recombined | nd.py:49 | `quick_sort(left) + middle + quick_sort(right)` is sorted and has the input's multiset |
| Nd.QuickSort | nd.py:42-49 | the result is sorted and a permutation of the input, and lists of length 0 or 1 come back as they are |
| Nd.QuickSortAgreesWithMergeSort | nd.py:17-49 | `quick_sort` and `merge_sort` give the same list on every input |
| Shree.MaxUpToIsMax | shree.py:12-13 | the largest of `arr[0..k]` is no smaller than any of them and is one of them |
| Shree.RunningMax | shree.py:8-13 | the first `n` cells of the running maximum of the list |
| Shree.PrefixMax | shree.py:8-13 | cell `k` of the result holds the largest of the input's cells `0..k` |
| Shree.PassStep | shree.py:11-13 | one inner step, copying `arr[j]` forward only when it is larger, extends the running maximum by one cell and leaves later cells as they were |
| Shree.CopyForward | shree.py:13 | the assignment `arr[j], arr[j + 1] = arr[j], arr[j]` overwrites `arr[j + 1]` with `arr[j]` and changes nothing else |
| Shree.Pass | shree.py:11-13 | an outer pass over `arr[0..m)` turns those cells into their running maximum and leaves the rest alone |
| Shree.MaxUpToOfSorted | shree.py:12 | on a sorted list the running maximum at each cell is that cell, so the comparison never fires |
| Shree.BubbleSortAsWritten | shree.py:8-13 | the defective sort leaves the running maximum of the input: the first pass builds it and later passes change nothing |
| Shree.PrefixMaxSorted | shree.py:8-13 | the result is non-decreasing |
| Shree.PrefixMaxFromInput | shree.py:13 | every value of the result occurs in the input, and no cell gets smaller |
| Shree.PrefixMaxKeepsHead | shree.py:11-13 | `arr[0]` is never changed |
| Shree.PrefixMaxOfSorted | shree.py:12-13 | a sorted input is left unchanged |
| Shree.PrefixMaxIdempotent | shree.py:10-13 | running the defective sort again changes nothing |
| Shree.PrefixMaxSnoc | shree.py:11-13 | the result on a list is the result on all but its last cell, followed by the overall maximum |
| Shree.MaxStays | shree.py:12-13 | wherever the input holds a value no cell exceeds, the result holds it too |
| Shree.ExtraMax | shree.py:13 | when the last cell is not the maximum, the result has more copies of the maximum than the input |
| Shree.LastIsMax | shree.py:13 | if the result keeps the input's elements, the last cell held the maximum |
| Shree.SameElementsOnlyIfUnchanged | shree.py:13 | the result has the input's multiset only when it equals the input |
| Shree.PermutationIffSorted | shree.py:13 | the result is a permutation of the input if and only if the input was sorted |
| Shree.TwoOneBecomesTwoTwo | shree.py:13 | `[2, 1]` becomes `[2, 2]`, which is not a permutation of `[2, 1]` |
| Shree.Ascending | shree.py:79-80 | the "sorted" input of size `n` holds `k` at position `k`, for `0 <= k < n` |
| Shree.Descending | shree.py:81-82 | the "reverse_sorted" input of size `n` holds `n - k` at position `k`, running from `n` down to 1 |
| Shree.AscendingUntouched | shree.py:79-80 | the "sorted" input is sorted, and both sorts return it unchanged |
| Shree.DescendingFlattened | shree.py:81-82 | on the "reverse_sorted" input the defective sort sets every cell to `n` |
| Shree.AgreeIffSorted | shree.py:84-85 | the defective bubble sort and the merge sort give the same list exactly when the input was sorted |
| Shree.AnalyseInput | shree.py:84-85 | each sort runs on its own copy, and `arr`, which the method may not modify, keeps its contents; the bubble result is the running maximum, the merge result is `MergeSortOf`, and they agree if and only if the input was sorted |
| Lists.CopyOf | night.py:60 | `arr.copy()` is a new list with the same contents |
| Night.BubbleVsMerge | night.py:59-62 | both sorts run on separate copies of the list `arr`, which the method may not modify and which keeps its contents; both copies end as the same sorted permutation of it |
| Eye.RunSortingAnalysis | eye.py:49-63 | for every dataset, in order, the bubble-sorted and merge-sorted copies are equal, sorted, and permutations of the dataset, and every dataset list keeps its contents |

## Left out

- Timing and sizes. `measure_performance` reads the wall clock and `sys.getsizeof`. The model keeps only the sort call it wraps.
- Random inputs. `random.randint` lists become arbitrary inputs: every sequence, or every array, is allowed.
- Tkinter windows, Matplotlib charts and PrettyTable output. These are UI only. The charts in `nd.py`, `night.py` and `shree.py` plot `random.uniform` values.
- `eye.py`'s `plot_comparison_chart` (lines 65-87). It runs both sorts on fresh copies of each dataset, as `run_sorting_analysis` does (`Eye.RunSortingAnalysis`), and keeps only the measured times for the chart.
- The `input()` menus of `shree.py`. These are I/O.
- Loading `eye.py`'s datasets with pandas (`read_csv`, `dropna`, `astype(int)`). The model takes the datasets as given integer lists.
- Printing the first ten elements of each sorted list. This is output only.
- The nested loops of `shree.py`'s `run_analysis` over sizes and input types, and the tuples it appends. Each tuple holds the input type, the size, the two times and the two memory sizes, and no sorted data. The model keeps the per-input step (`Shree.AnalyseInput`) and the generators.
- The single-sort branches of `night.py`'s `run_analysis` (lines 53-58). They run one sort on a copy and keep only its time, which is `Bubble.BubbleSort` or `Merging.MergeSort` on `Lists.CopyOf`.
- Merging.MergeSort: does not state which of two equal elements comes first. The tie rule sits in `Merging.Merge` (the right head is taken unless the left head is strictly smaller). On plain integers, equal elements cannot be told apart, so the final list is the same either way.
- Merging.MergeBack: the three merge loops are split into the helper methods `MergeHeads`, `MergeTails` and `CopyRest`. The indices `i`, `j` and `k` are passed between them instead of living in one frame.
- Night.BubbleVsMerge: states that both outputs are the same sorted permutation rather than naming `MergeSortOf`. By `Sorting.SortedUnique` the two statements are equivalent.

## Findings

| source | as written | input that shows it | evidently intended | confidence | as-written member | corrected member |
|---|---|---|---|---|---|---|
| shree.py:13 | `arr[j], arr[j + 1] = arr[j], arr[j]` copies `arr[j]` into `arr[j + 1]`, so the list becomes its running maximum and loses elements | `[2, 1]` becomes `[2, 2]` (`Shree.TwoOneBecomesTwoTwo`); in general the result is a permutation only when the input was sorted (`Shree.PermutationIffSorted`) | the swap `arr[j], arr[j + 1] = arr[j + 1], arr[j]` used by the other three scripts, giving a sorted permutation | not executed | Shree.BubbleSortAsWritten | Bubble.BubbleSort |

`Shree.AnalyseInput` models `shree.py`'s own benchmark, so it runs the script's
sort as written. The drivers of the other scripts use the corrected
`Bubble.BubbleSort`.
