# codex sorting and searching, modelled in Dafny

This project models the core of the `codex` algorithms library and proves
properties about it. The core has three parts:

- **Orderings** (`src/codex/types.py`). An `Ordering[T]` is a three-way
  comparison `(T, T) -> int`: a negative result means "precedes", zero means
  "ties" and a positive result means "follows". `default_order` asks `<`
  first, then `==`, and answers 1 for everything else. Module `Types` holds
  `DefaultOrder`, which takes the element type's `<` as a parameter, and
  `IntOrder`, which is `DefaultOrder` on integers. It also holds the
  assumptions a caller's ordering must meet (`IsTotalOrdering`) and
  sortedness under an ordering (`Sorted`).
- **Elementary sorts** (`src/codex/sort/basic.py`). Selection, insertion
  and bubble sort rearrange a mutable sequence in place by swapping
  elements. Module `SortBasic` models each one as a method over an
  `array<T>` with the ordering as a parameter, keeping the source's loops
  and swaps.
  - Each sort is proved to leave the array sorted, to keep the same
    multiset of elements, and to leave already-sorted input unchanged.
  - Insertion sort is also proved stable. A ghost sequence of origins
    records where each element started, and tied elements keep their
    original order.
  - Module `SortExamples` replays the repository's sorting tests.
- **Searches** (`src/codex/search/binary.py`, `src/codex/search/linear.py`).
  - `binary_search` bisects an inclusive range `[l, r]` and returns an
    index or `None`. It narrows with the elements' natural `==` and `<`
    and never consults its ordering argument. Module `SearchBinary` models
    it as written: `Bisect` is the specification and `BinarySearch` is the
    loop proved equal to it. The module also has a corrected search that
    does use the ordering (see Findings).
  - `find` is a front-to-back membership scan with an early return. Module
    `SearchLinear` models it.

Python integers are unbounded, like Dafny's `int`, so the midpoint
`(l + r) // 2` is modelled without overflow. Its operands are never
negative, so Python's floor division and Dafny's `/` agree.

## Model

| member | source | states |
|---|---|---|
| Types.DefaultOrder | src/codex/types.py:5-11 | The result is -1, 0 or 1. It is -1 exactly when `x < y`, 0 exactly when `x == y` and not `x < y`, and 1 exactly when neither holds. |
| Types.IntOrder | src/codex/types.py:5-11 | On integers the default ordering is -1 exactly when `x < y`, 0 exactly when `x == y`, and 1 exactly when `x > y`. |
| Types.IntOrderIsTotal | src/codex/types.py:5-11 | On integers the default ordering is reflexive (`x` ties with `x`) and antisymmetric (`IntOrder(x, y) == -IntOrder(y, x)`). It meets every assumption the sorts make of an ordering, and only equal integers tie. |
| Types.DefaultOrderIsTotal | src/codex/types.py:5-11 | For any element type whose `<` is a strict total order, the default ordering meets the sorts' assumptions: reflexive, sign-antisymmetric, and "does not follow" is transitive. |
| Types.DefaultOrderIncomparable | src/codex/types.py:10-11 | Two distinct values where neither is `<` the other each compare as 1 against the other, so the default ordering is not antisymmetric on such values. |
| Types.IntLe | src/codex/types.py:6-7 | "Does not follow" under the integer default ordering is exactly `<=`. |
| SortBasic.Swapped | src/codex/sort/basic.py:19 | Exchanging positions `i` and `j`: the length is kept, the two elements trade places, every other position is unchanged, the multiset is kept, and exchanging a position with itself changes nothing. |
| SortBasic.Swap | src/codex/sort/basic.py:19 | The array's new contents are its old contents with positions `i` and `j` exchanged. |
| SortBasic.SortedPermutationUnique | src/codex/sort/basic.py:4-51 | Under an ordering whose ties are equal values, two sorted sequences with the same multiset of elements are equal. So every sort determines its result from the input's elements alone. |
| SortBasic.MinIndexFrom | src/codex/sort/basic.py:13-16 | The result is an index in `[lo, n)` whose element is at most every element of `a[lo..]`. Every element of `a[lo..m)` is strictly greater than it, so it is the first minimum. |
| SortBasic.SelectionStep | src/codex/sort/basic.py:11-19 | Swapping the suffix minimum into position `i` extends the sorted prefix to `i + 1`. Every element of the prefix stays at most every element of the rest. |
| SortBasic.FirstMinimumOfSorted | src/codex/sort/basic.py:13-19 | In a sorted sequence the first minimum of a suffix is its first element, so on sorted input selection sort swaps each position with itself. |
| SortBasic.SelectionSort | src/codex/sort/basic.py:4-19 | The array ends sorted under `cmp` and holds the same multiset of elements. Input that is already sorted is left unchanged. |
| SortBasic.InnerOrderShift | src/codex/sort/basic.py:30-31 | Swapping the inserted element with a strictly greater predecessor keeps the rest of the prefix sorted. The element stays strictly smaller than everything it has passed. |
| SortBasic.InnerOrderPlaced | src/codex/sort/basic.py:30 | Once the inserted element's predecessor is not greater than it (or it reached position 0), the prefix `s[..hi + 1]` is sorted. |
| SortBasic.OriginsSwap | src/codex/sort/basic.py:31 | Exchanging two elements while exchanging their recorded origins keeps the origin record exact and injective. |
| SortBasic.TiesInOrderShift | src/codex/sort/basic.py:30-31 | Moving the inserted element one place left, past a strictly greater predecessor, keeps every other pair of tied elements in their original order. |
| SortBasic.TiesInOrderPlaced | src/codex/sort/basic.py:30 | The inserted element came from later than everything before it, and it is strictly smaller than everything after it. So once placed, all tied pairs in the prefix are in their original order. |
| SortBasic.InnerFinish | src/codex/sort/basic.py:28-32 | When the insertion loop stops, the sorted and stable prefix is one longer, the suffix is untouched, and an element no smaller than its predecessor has not moved. |
| SortBasic.ShiftLeft | src/codex/sort/basic.py:30-32 | One iteration of the insertion loop exchanges the element with its strictly greater predecessor, and exchanges their origins too. It keeps the insertion's order and origin invariants. |
| SortBasic.Insert | src/codex/sort/basic.py:28-32 | One insertion extends the sorted, stable prefix from `i` to `i + 1` and leaves `a[i + 1..]` alone. An element no smaller than its predecessor does not move. |
| SortBasic.InsertionSort | src/codex/sort/basic.py:21-32 | The array ends sorted under `cmp` and holds the same multiset of elements. Already-sorted input is left unchanged. The sort is stable: the ghost `origin` maps each position to where its element started, and tied elements appear in increasing origin order. |
| SortBasic.BubbleStep | src/codex/sort/basic.py:43-47 | One comparison inside a pass keeps the pass invariant: the largest element seen so far is at `j + 1`, the suffix is untouched, and the multiset is kept. The pass stays clean only if no swap happens. |
| SortBasic.BubbleCompare | src/codex/sort/basic.py:45-47 | Reports an exchange exactly when `a[j + 1]` strictly precedes `a[j]`. On an exchange the new array is the old one with `j` and `j + 1` swapped; without one the array is unchanged. While the pass is clean and started from a sorted prefix, no exchange happens. |
| SortBasic.BubblePass | src/codex/sort/basic.py:42-47 | A pass carries the prefix's largest element to `end - 1`, leaves `a[end..]` and the multiset as they were, and reports whether it swapped. A pass that reports no swap has left the array unchanged and its prefix sorted, so the prefix was sorted before the pass. A sorted prefix makes a pass without swaps. |
| SortBasic.BubbleRound | src/codex/sort/basic.py:41-51 | After a pass, the sorted suffix of largest elements grows by one. After a pass without swaps the whole sequence is sorted, so the early `break` is sound. |
| SortBasic.BubbleSort | src/codex/sort/basic.py:34-51 | The array ends sorted under `cmp` and holds the same multiset of elements. Already-sorted input is left unchanged. |
| SortExamples.SortedIntsAre | tests/sort/test_fundamentals.py:6-18 | A list sorted under the integer default ordering, with the same elements as an ascending list, is that list. |
| SortExamples.SelectionSortList | src/codex/sort/basic.py:4-19 | Selection sort of a fresh array holding a list gives a sorted permutation of it. |
| SortExamples.InsertionSortList | src/codex/sort/basic.py:21-32 | Insertion sort of a fresh array holding a list gives a sorted permutation of it. |
| SortExamples.BubbleSortList | src/codex/sort/basic.py:34-51 | Bubble sort of a fresh array holding a list gives a sorted permutation of it. |
| SortExamples.MixedSorted | tests/sort/test_fundamentals.py:6-8 | Sorting `[4, 2, 7, 1, 3]` gives `[1, 2, 3, 4, 7]`. |
| SortExamples.ThreeSorted | tests/sort/test_fundamentals.py:10-18 | Sorting `[1, 2, 3]` or `[3, 2, 1]` gives `[1, 2, 3]`. |
| SortExamples.SelectionSortExamples | tests/sort/test_fundamentals.py:6-18 | Selection sort turns `[4, 2, 7, 1, 3]` into `[1, 2, 3, 4, 7]`, keeps `[1, 2, 3]`, and turns `[3, 2, 1]` into `[1, 2, 3]`. |
| SortExamples.InsertionSortExamples | tests/sort/test_fundamentals.py:6-18 | The same three cases for insertion sort. |
| SortExamples.BubbleSortExamples | tests/sort/test_fundamentals.py:6-18 | The same three cases for bubble sort. |
| SearchBinary.Bisect | src/codex/search/binary.py:10-22 | Bisection of `s[l..r]` as written. A found index lies in `[l, r]` and holds `x`, whatever the order of `s`. An empty range gives `None`. |
| SearchBinary.BisectComplete | src/codex/search/binary.py:12-20 | In an ascending sequence, a value that occurs in `[l, r]` is found. Each narrowing step drops only a half that cannot hold it. |
| SearchBinary.BinarySearch | src/codex/search/binary.py:4-22 | The result is `Bisect` over the whole sequence, whatever `f` is. A found index is in bounds and holds `x`. If `x` does not occur (including empty input) the result is `None`. If the input is ascending and `x` occurs, the result is not `None`. The loop measure `r - l + 1` decreases. |
| SearchBinary.BisectBy | src/codex/search/binary.py:12-20 | Bisection that narrows with the ordering instead of `==`/`<`. A found index lies in `[l, r]` and its element ties with `x`. |
| SearchBinary.BisectByComplete | src/codex/search/binary.py:12-20 | Under a total ordering, in a sequence sorted by that ordering, a value that occurs in `[l, r]` is found by `BisectBy`. |
| SearchBinary.BisectByDefault | src/codex/search/binary.py:7-8 | With the integer default ordering, the search that uses the ordering gives exactly the result of the search as written. |
| SearchBinary.BinarySearchBy | src/codex/search/binary.py:4-22 | The whole-sequence search that uses `cmp` computes `BisectBy`. A found index ties with `x`. When ties are equal values, a value that does not occur gives `None`. Under a total ordering that sorts the input, a value that occurs is found. |
| SearchBinary.DescendingMissed | src/codex/search/binary.py:15-17 | `[3, 2, 1]` is sorted under the descending integer ordering and holds 3. The search as written returns `None` for it, while `BisectBy` finds it at index 0. |
| SearchBinary.BinarySearchExamples | tests/search/test_binary.py:4-7 | Over `[0, 1, ..., 9]`, searching for 3 gives index 3 and searching for 10 gives `None`. |
| SearchLinear.Find | src/codex/search/linear.py:3-8 | The result is true exactly when `x` occurs in `items`, so empty input gives false. The ghost `at` is where the scan stopped. No element before `at` equals `x`, and on success `items[at] == x`, so `at` is the first occurrence. |
| SearchLinear.FindExamples | tests/search/test_linear.py:4-7 | `find` of 1, 2 and 3 in `[1, 2, 3]` is true, and `find` of 4 is false. |

## Left out

- `index`, `count`, `minimum` and `maximum` are not modelled. `tests/search/test_linear.py` imports `index` from `src/codex/search/linear.py`, which does not define it, and the other three appear nowhere in the library.
- The `if f is None: f = default_order` defaulting is not modelled. Every caller passes its ordering explicitly; `IntOrder` is the default ordering for integers.
- `default_order` on an arbitrary Python type is modelled with that type's `<` as a parameter. Its equality is Dafny's. Values without a total order, such as floats with NaN, are not modelled.
- The sorts are proved only for orderings that meet `IsTotalOrdering`:
  - every value ties with itself;
  - the sign of `cmp(x, y)` is the opposite of the sign of `cmp(y, x)`;
  - "does not follow" (`cmp(x, y) <= 0`) is transitive.
  The last one is stronger than transitivity of `< 0` alone, because it also makes ties transitive. Behaviour under other orderings is not modelled.
- A `MutableSequence` is modelled as an `array<T>`. The tests' lists become fresh arrays.
- `SearchBinary.BinarySearch`: elements are integers. The source is generic over any type with natural `<` and `==`.
- Stability is stated and proved for insertion sort only. Selection sort's long-range swap can carry an element past a tied one. Bubble sort's stability is not stated.
- Running time (quadratic sorts, logarithmic search) is not modelled.

## Findings

| source | as written | input that shows it | evidently intended | confidence | as-written member | corrected member |
|---|---|---|---|---|---|---|
| src/codex/search/binary.py:15-17 | `binary_search` narrows with the elements' natural `==` and `<`. The ordering `f`, bound at lines 7-8, is never used. | `x = 3`, `items = [3, 2, 1]`, `f = lambda a, b: default_order(b, a)` (descending). The items are sorted under `f` and hold 3 at index 0, but the search returns `None`. | Narrow with `f`: return `m` when `f(x, items[m]) == 0`, keep the left half when it is negative, and keep the right half otherwise. | medium, not executed | SearchBinary.DescendingMissed | SearchBinary.BinarySearchBy |
