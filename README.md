# Randomized in-place quicksort, modelled in Dafny

The repository is one routine: `quicksort(array, low, high)`. It sorts the
half-open range `[low, high)` of a mutable array in place. It draws a random
pivot index in the range and swaps the pivot to `low`. A Lomuto-style scan
with the cursor `remembered_index` then moves every element smaller than the
pivot to the left. A last swap puts the pivot into its final slot
`remembered_index - 1`, and the routine recurses on the two sides. A range of
at most one element is returned as it is.

The model has two modules:

- `Quicksort` (`quicksort.dfy`) is the algorithm, kept imperative.
  - `Quicksort` is a recursive method on `array<int>` with `modifies a` and
    `decreases high - low`.
  - The random draw becomes `var pivotIndex :| low <= pivotIndex < high`.
    Every postcondition therefore holds for every pivot the draw could pick.
  - `Partition` holds the pivot-to-front swap, the scanning `for` loop with
    its invariant, and the final pivot swap. It returns the pivot's final
    index.
  - `Swap` is the tuple swap `a[i], a[j] = a[j], a[i]` that the source uses
    three times.
- `Sorting` (`sorting.dfy`) is the specification side.
  - `Sorted` says a sequence is in non-decreasing order.
  - `InsertionSort` is a reference sort on sequences, defined independently
    of quicksort. `InsertionSortCorrect` proves it returns a sorted
    permutation of its input.
  - `SortedUnique` proves that two sorted sequences with the same elements
    are equal. From it, `Quicksort.OutcomeIndependentOfPivots` shows that
    the array quicksort leaves behind is fixed by its input alone.

The `Quicksort` method states that the range ends up sorted, that the
multiset of the whole array is unchanged, and that everything outside
`[low, high)` is unchanged. The second and third together imply that the range's own
multiset is unchanged (`Sorting.SameOutsideRange`). Array length cannot
change, because a Dafny array's `Length` is fixed.

Elements are modelled as `int`, the element type of the repository's own
example call. The source compares elements only with `<`.

The base-case test at `scripts/quicksort.py:27` takes `len(array[low:high])`,
and Python clamps that slice. For any bounds, the call returns at once exactly
when the clamped slice `array[low:high]` has at most one element. When bounds
outside `0 <= low <= high <= len(array)` leave two or more elements in that
slice, the call goes on with indices the model does not allow. Depending on
the bounds and on the pivot drawn, it then either raises `IndexError` (at
line 31, 32, 45 or 53) or reads and swaps through Python's from-the-end
indices. The model requires valid bounds and models none of this (see
"Left out").

## Model

| member | source | states |
|---|---|---|
| `Quicksort.Quicksort` | scripts/quicksort.py:21-75 | For every sequence of pivot draws, `a[low..high]` ends up sorted in non-decreasing order. The multiset of the whole array is unchanged. `a[..low]` and `a[high..]` are unchanged. If `high - low <= 1`, the array is left exactly as it was. Termination is proved by `decreases high - low`, because both recursive ranges `[low, p)` and `[p + 1, high)` are strictly shorter. |
| `Quicksort.Partition` | scripts/quicksort.py:30-63 | For any pivot index in `[low, high)`, returns `p` with `low <= p < high`. `a[p]` is the chosen pivot value. Every element in `[low, p)` is `< pivot`. Every element in `(p, high)` is `>= pivot`, so ties go right. The whole array is a permutation of the input, and nothing outside `[low, high)` changes. The loop invariant is the scan's: `a[low] == pivot`; `low + 1 <= remembered <= index`; `[low + 1, remembered)` holds only elements `< pivot`; `[remembered, index)` holds only elements `>= pivot`. |
| `Quicksort.Swap` | scripts/quicksort.py:45 | Exchanges `a[i]` and `a[j]` and leaves every other index unchanged. The array's multiset is unchanged. This is the same tuple swap as lines 55 and 63. |
| `Quicksort.SortBothSides` | scripts/quicksort.py:66-72 | Start from a range partitioned around the pivot at `p`. Sort `[low, p)` in place, then `[p + 1, high)` in place. The whole range `[low, high)` is then sorted and a permutation of the input range, and the outside is unchanged. It assumes, as premises, that each in-place sort leaves the pivot's slot and the other side alone; in `Quicksort` those premises come from the recursive calls' frame postconditions. |
| `Quicksort.OutcomeIndependentOfPivots` | scripts/quicksort.py:74 | Any array that satisfies Quicksort's postcondition equals the input with `[low, high)` replaced by `InsertionSort` of that range. So every pivot choice yields the same result. |
| `Quicksort.SortingSortedIsIdentity` | scripts/quicksort.py:21-75 | Idempotence: if `[low, high)` is already sorted, any array that satisfies Quicksort's postcondition equals the input, so sorting twice is the same as sorting once. |
| `Sorting.SortedUnique` | scripts/quicksort.py:74 | Two sorted sequences with equal multisets are equal: "every element in its correct sorted position" has exactly one meaning. |
| `Sorting.SortedPermutationIsSort` | scripts/quicksort.py:74 | A sorted permutation of `s` is exactly `InsertionSort(s)`. |
| `Sorting.SortAroundPivot` | scripts/quicksort.py:60-67 | Suppose every element on the pivot's left is `<` the pivot and every element on its right is `>=` it. Then sorting the whole gives the sorted left side, then the pivot, then the sorted right side. So the pivot already sits in its final sorted position. |
| `Sorting.SortedJoin` | scripts/quicksort.py:66-67 | Take a sorted part whose elements are all `< pivot`, then the pivot, then a sorted part whose elements are all `>= pivot`. The concatenation is sorted. |
| `Sorting.InsertionSortCorrect` | scripts/quicksort.py:16-17 | The reference sort, by induction: `InsertionSort(s)` is sorted, has the same multiset as `s`, and has the same length as `s`. |

## Left out

- The random draw `random.choice(range(low, high))` (`scripts/quicksort.py:10, 31`) is an arbitrary index that `:|` picks in `[low, high)`. The model does not capture its uniform distribution or any expected-time claim.
- The demo arrays and the `print` at `scripts/quicksort.py:78-83` are example scaffolding and I/O.
- Python's slice clamping in the base-case test (`scripts/quicksort.py:27`) is not modelled. For bounds outside `0 <= low <= high <= len(array)`, the source returns at once exactly when the clamped slice `array[low:high]` has at most one element. Otherwise it either raises `IndexError` (line 31, 32, 45 or 53) or runs on Python's from-the-end indices, depending on the bounds and the pivot drawn. The model's `requires 0 <= low <= high <= a.Length` admits only valid calls and models none of these.
- Elements are `int`. Other comparable element types, and the errors Python raises when elements cannot be compared, are not modelled.
- Recursion depth, stack exhaustion and running time (the O(n log n) comment at `scripts/quicksort.py:17-19`) are not functional behaviour and are not modelled.
- Returning the array reference (`scripts/quicksort.py:28, 75`) is not modelled separately: the method mutates `a` in place and the caller keeps its reference.
- Quicksort.Quicksort: does not state `a[low..high] == InsertionSort(old(a[low..high]))` as a postcondition of its own. That equation follows from the method's postcondition by `Quicksort.OutcomeIndependentOfPivots`, whose preconditions are exactly that postcondition. Keeping the reference sort out of the recursive calls' contracts keeps the proof small.
