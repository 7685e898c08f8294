# Parallel merge sort with an insertion-sort cutoff

This project models the sorting core of `openmp_mergesort.c` and proves it
correct. That core has four routines and one constant:

- `insertion_sort` sorts a range in place.
  - Each element is held while the strictly greater elements before it move
    one cell right.
  - The held element is then dropped into the gap.
- `merge` merges the two halves of a range with three cursors.
  - The left half is `[0, size/2)` and the right half is `[size/2, size)`.
  - The result goes into a scratch buffer, which `memcpy` copies back.
- `mergesort_serial` is a hybrid sort.
  - A range of at most `SMALL` (32) elements goes to insertion sort.
  - A larger range has both halves sorted recursively and then merged.
  - Both recursive calls use the scratch buffer from the same offset.
- `mergesort_parallel_omp` is a budgeted fork-join driver.
  - A budget of one thread sorts serially.
  - A larger budget is split into `threads/2` and `threads - threads/2`.
    Each half of the range, with its half of the scratch buffer, is sorted
    in an OpenMP section, and the two halves are then merged.
  - A budget below one changes nothing.
- `run_omp` is the entry point.

These properties are proved:

- Every routine rewrites exactly its own range of `a` and writes no scratch cell
  outside its own range of `temp`. For `run_omp` that range is the first
  `size` cells.
- The range ends up with its elements in ascending order, holding the same
  elements as before.

How C is expressed in Dafny:

- **Pointers.** A C pointer into an array becomes the Dafny `array<int>`
  together with an offset: `lo` into `a` and `tlo` into `temp`.
- **Whole-array effect.** Each in-place method states its effect on the whole
  array as `a[..] == Splice(old(a[..]), lo, size, X)`. `Splice` replaces the
  `size` cells from `lo` with `X`. `X` is a function of the old contents of the
  range.
- **Reference sort.** `SortSpec.Sort` is a functional insertion sort, the
  reference result. Lemma `SortSpec.SortCharacterized` proves that it is the
  one and only sorted permutation of its input. So "equals `Sort` of the old
  range" means "sorted and a permutation".
- **Merge loops.** `MergeSpec.Merged` is a functional form of the merge loops.
  It takes the left head only when that head is strictly smaller, as the code
  does.
- **Parallel sections.** The two OpenMP sections are modelled as two calls made
  one after the other. `Fork.Halves` proves that the ranges they work on, in
  `a` and in `temp`, are disjoint and together cover the parent range.
  `SectionsCommute` proves that sorting the left half and then the right half
  leaves the same array as the other order. It rests on
  `Segments.SpliceDisjoint`: rewrites of disjoint ranges leave each other's
  cells alone and commute.
- **Serial sort count.** `MergesortParallel` returns a ghost count of the
  serial sorts it starts. It ensures that this count is `Fork.SerialLeaves`
  of the budget, and that it equals the budget whenever the budget is
  positive.
- **Termination.** The serial sort terminates on `size`. The parallel driver
  terminates on `threads`, because a range of 0 or 1 elements can still carry
  a large budget.

Points of the code's behaviour worth knowing:

- **Ties.** The test `a[i1] < a[i2]` (line 85) gives ties to the right
  element, unlike the usual left-biased stable merge. `Merged` follows the
  code. For plain integers this cannot be observed, because the result is
  pinned down uniquely by three lemmas:
  - `MergedSorted`: the merge is sorted;
  - `MergedPermutation`: it holds the same elements;
  - `SortCharacterized`: the sorted permutation is unique.
- **Bad budgets.** A budget of zero or less prints a message and returns
  without sorting; it is neither rejected nor clamped. `MergesortParallel`
  and `RunOmp` ensure that `a` and `temp` are then unchanged.
- **A bad budget cannot leave a half unsorted.** `Fork.SplitBudget` proves
  that both shares of a budget above one are at least one. So the no-op branch
  is reached only at the top level, never for a half-range that is merged
  afterwards.
- **Only a budget of exactly one goes serial.**

## Model

| member | source | states |
|---|---|---|
| OpenmpMergesort.SMALL | openmp_mergesort.c:7 | the insertion-sort cutoff is 32 elements |
| SortSpec.AdjacentOrderedIffSorted | openmp_mergesort.c:177-184 | the driver's neighbour check `a[i-1] <= a[i]` holds exactly when every element is at most every later one |
| SortSpec.Insert | openmp_mergesort.c:70-76 | putting the held element back makes the prefix one longer (where it lands is InsertSplit) |
| SortSpec.Sort | openmp_mergesort.c:67-78 | the reference sort keeps the length (that it sorts and permutes is SortIsSortedPermutation) |
| SortSpec.InsertPermutation | openmp_mergesort.c:70-76 | inserting adds exactly the held element to the multiset |
| SortSpec.InsertSorted | openmp_mergesort.c:70-76 | inserting into a sorted prefix leaves it sorted |
| SortSpec.SortIsSortedPermutation | openmp_mergesort.c:67-78 | the reference result is sorted and has the same multiset as the input |
| SortSpec.SortedUnique | openmp_mergesort.c:117-132 | two sorted sequences with the same multiset are equal, so every correct run gives the same array whatever the budget |
| SortSpec.SortCharacterized | openmp_mergesort.c:67-78 | r is sorted and a permutation of s if and only if r == Sort(s) |
| SortSpec.InsertSplit | openmp_mergesort.c:71-76 | in a sorted sequence the element lands after every element not greater than it and before every greater one |
| SortSpec.InsertPlaced | openmp_mergesort.c:71-76 | a sequence laid out as the shifting loop leaves it (prefix below the gap, shifted part above, element in the gap) is the insertion |
| MergeSpec.Merged | openmp_mergesort.c:84-103 | the merge of two runs has the combined length; left head only when strictly smaller |
| MergeSpec.MergedHalves | openmp_mergesort.c:80-105 | merging a range's two halves (left half rounded down) keeps its length |
| MergeSpec.MergeFrom | openmp_mergesort.c:84-103 | index form of the three cursor loops: from position n on, M holds the strictly smaller left head or else the right head while both halves last, then the rest of the other half |
| MergeSpec.MergeFromMerged | openmp_mergesort.c:84-103 | what the three cursor loops write from positions (i, j) on, in both directions, is exactly the merge of the two remainders |
| MergeSpec.MergedPermutation | openmp_mergesort.c:84-103 | merging neither loses nor invents an element |
| MergeSpec.MergedSorted | openmp_mergesort.c:84-103 | merging two sorted runs gives a sorted run |
| MergeSpec.MergedOrdered | openmp_mergesort.c:84-104 | two sorted runs already in order across the cut merge to their concatenation |
| MergeSpec.MergedHalvesSortedPermutation | openmp_mergesort.c:80-105 | with sorted halves, the merged range is sorted and holds the same elements |
| MergeSpec.MergedHalvesOrdered | openmp_mergesort.c:84-104 | with sorted halves in order across the cut, the merge returns the range unchanged despite the right-takes-ties rule |
| MergeSpec.MergeOfSortedHalves | openmp_mergesort.c:112-114 | sorting the two parts of a range and merging them is sorting the range |
| Fork.Halves | openmp_mergesort.c:121-131 | the two halves are adjacent, disjoint, split the length as size/2 and size - size/2, and cover exactly the parent range |
| Fork.SplitBudget | openmp_mergesort.c:125-129 | threads/2 and threads - threads/2 add up to the budget, and each is at least 1 and below the budget |
| Fork.SerialLeaves | openmp_mergesort.c:118-136 | the number of serial sorts a budget leads to, following the driver's three branches; zero exactly when the budget is below one |
| Fork.SerialLeavesEqualBudget | openmp_mergesort.c:117-131 | a positive budget ends in exactly that many serial sorts |
| Segments.SpliceStep | openmp_mergesort.c:112-114 | rewriting the left part, then the right part, then the whole range is one rewrite of the range, and the right part is untouched until its own sort |
| Segments.SpliceDisjoint | openmp_mergesort.c:121-131 | rewrites of two disjoint ranges leave each other's cells unchanged and give the same array in either order |
| OpenmpMergesort.InsertionSort | openmp_mergesort.c:67-78 | the range becomes the sorted permutation of its old contents; no other cell changes |
| OpenmpMergesort.InsertionStep | openmp_mergesort.c:68-77 | with the first i cells holding the sorted first i originals, the prefix is sorted, and inserting the next original gives the sorted first i+1 |
| OpenmpMergesort.InsertNext | openmp_mergesort.c:69-76 | one outer pass: the first i+1 cells become the held element inserted into the sorted prefix; the shifted elements are all greater than it |
| OpenmpMergesort.DroppedIn | openmp_mergesort.c:71-76 | the array after the shifting loop and the final write is the old array with the element inserted into the prefix |
| OpenmpMergesort.Merge | openmp_mergesort.c:80-105 | the range becomes the merge of its two old halves; temp changes only in its range, which ends equal to the range of a |
| OpenmpMergesort.MergeOfOrderedRange | openmp_mergesort.c:84-104 | by Merge's contract, a range with sorted halves in order across the cut is left element for element unchanged |
| OpenmpMergesort.MergeIntoTemp | openmp_mergesort.c:81-103 | temp's range receives the merge of the two halves; no other temp cell changes |
| OpenmpMergesort.MergeRuns | openmp_mergesort.c:84-93 | the first loop stops with one half used up, having written the merge's first i1 + i2 - size/2 elements |
| OpenmpMergesort.CopyLeftRest | openmp_mergesort.c:94-98 | the second loop copies the rest of the left half, continuing the merge |
| OpenmpMergesort.CopyRightRest | openmp_mergesort.c:99-103 | the third loop copies the rest of the right half, completing the merge in temp |
| OpenmpMergesort.Copy | openmp_mergesort.c:104 | the n destination cells become the n source cells; nothing else in the destination changes |
| OpenmpMergesort.MergesortSerial | openmp_mergesort.c:107-115 | the range becomes the sorted permutation of its old contents, exactly what InsertionSort gives when size <= 32; temp is untouched then, and otherwise written only in its range, which ends equal to the sorted range |
| OpenmpMergesort.SortStep | openmp_mergesort.c:112-114 | sorting the left half, then the right half, then merging sorts the whole range and leaves every other cell as before |
| OpenmpMergesort.SectionsCommute | openmp_mergesort.c:121-131 | the left section's sort followed by the right one's leaves the same array as the reverse order |
| OpenmpMergesort.MergesortParallel | openmp_mergesort.c:117-137 | for every budget >= 1 the range becomes the same sorted permutation as MergesortSerial gives, so the result does not depend on the budget; temp is written only in its range; a budget < 1 changes neither array; the ghost count of serial sorts started is SerialLeaves(threads), equal to the budget when that is positive |
| OpenmpMergesort.RunOmp | openmp_mergesort.c:139-142 | with budget >= 1 the first size cells become the sorted permutation of their old contents and the rest of a is unchanged; temp changes only in its first size cells; with budget < 1 nothing changes |
| OpenmpMergesort.IsAscending | openmp_mergesort.c:177-184 | the driver's order check succeeds exactly when the first size cells are sorted |

## Left out

- `read_numbers_from_csv` (lines 15-65) is left out. It is file I/O and text parsing, with `malloc`/`realloc` growth of the input buffer.
- `get_time` (lines 9-13) is left out. It reads the wall clock and returns floating-point seconds.
- Most of `main` (lines 144-201) is left out: argument handling, allocation of `temp`, the timing, all printing, and writing `results_parallel.txt`. Only its order check (lines 177-184) is modelled, as `IsAscending`.
- OpenMP itself is left out: `#pragma omp parallel sections`, `omp_set_nested` and `omp_get_max_threads`. The budget is a parameter, and the two sections run one after the other. Their ranges are proved disjoint, but concurrent interleaving is not modelled.
- The `printf` in the bad-budget branch (line 134) is left out. Only the fact that this branch changes no state is modelled.
- Array elements are unbounded integers. This is faithful because the code only compares and copies values.
- Byte-count and index arithmetic on C `int` is not modelled. This covers `size * sizeof(int)` in `memcpy` and the offsets `size / 2`. Sizes are assumed to fit.
- The two arrays must be distinct (`a != temp`). The code also needs them not to overlap, and overlapping buffers are not modelled.
