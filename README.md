# MyArrayList and QuickSortComparator in Dafny

A model of the array-backed list of the Aston_1 project, together with the
quicksort it delegates sorting to.

`MyArrayList<T>` keeps its elements in an `Object[]` array and counts them in
`size`. The slots from `size` on hold `null`. The list has these behaviours:

- **Growth.** When the array is full, an append or insert first grows it to
  `(int)(length * 1.5)`. The growth is capped at `Integer.MAX_VALUE`.
- **Trimming.** When a removal leaves `array.length / size >= 4`, the array is
  trimmed to a quarter of its length.
- **Search.** `indexOf` is a linear search that treats `null` as an ordinary
  value. `binarySearch` works on a list sorted by the caller's `Comparator`.
- **Sorting.** `quickSort` hands the backing array to a `QuickSortComparator`.
  It sorts positions `0 .. size - 1` in place by recursive Lomuto
  partitioning.
- **Iteration.** The iterator reads the live `size` and array on every call.

The Dafny project has four files:

- `wrappers.dfy`: Java's `null` (`Option.None`), the exceptions the list can
  throw, and `int`.
- `ordering.dfy`: what a consistent comparator is (`TotalPreorder`) and what
  sorted by it means.
- `sorting.dfy`: the class `QuickSortComparator`, proved to sort its range
  under a consistent comparator, to permute only that range, and to leave
  every other slot alone.
- `arraylist.dfy`: the list.
  - The list's meaning as sequence functions (`Inserted`, `Removed`,
    `FirstIndex`).
  - The capacity policy (`GrownCapacity`, `CapacityAfterRemoval`).
  - The class `MyArrayList` over an `array<Option<T>>`. Every method states
    its new state in terms of those functions.
  - The iterator class `Itr`.
  - The traversal the list's callers write with it (`UpdateEach`).

Every method returns the exception it throws as a value (`Result` /
`Outcome`). The contract of each public method of the list covers every path,
including the throwing ones. The sorter's `quickSort` and `partition` and the
list's private `trimArrayLength` require in-range arguments, which every
caller in the code supplies.

These behaviours of the code are modelled as written:

- **Growth stalls at length 0 or 1.** `(int)(0 * 1.5) == 0` and
  `(int)(1 * 1.5) == 1`. An append to a full list of capacity 0 or 1
  therefore throws `ArrayIndexOutOfBoundsException`. Removals can trim a list
  down to that capacity (`TrimThenGrowStalls`, `TrimThenAppendFails`).
- **Insert into such a list can write before it throws.** When the index is
  below the size, the shift has already overwritten the slots from the index
  on when it throws, and the last element is lost. At the end of the list, or
  at capacity 0, the first store throws and nothing changes.
- **Removing the last element throws after the removal.** `array.length / size`
  divides by zero, so `ArithmeticException` is thrown after the element has
  already been removed.
- **`set` has no lower-bound check.** For a negative index the read of the
  old element from the array throws, before anything is stored.
- **`next()` is unchecked.** Past `size` it returns the `null` in a spare
  slot. Past the array's end it throws.
- **`hasNext()` resets the iterator.** When it answers false it puts the
  iterator back at position 0.

Where the code and its tests disagree, the model follows the code:

- The test `addElementByFailedIndex` (src/test/java/MyArrayListTest.java,
  lines 73-76) expects `add(e, size())` to throw. The code accepts that index
  and appends, so the model does too.

## Model

| member | source | states |
|---|---|---|
| ArrayList.Inserted | src/main/java/ru/marzuev/aston/myarraylist/MyArrayList.java:84-88 | inserting `e` before `k` gives one more element: `e` at `k`, the prefix unchanged, the suffix shifted one place right |
| ArrayList.Removed | src/main/java/ru/marzuev/aston/myarraylist/MyArrayList.java:119-125 | removing position `k` gives one element less: the prefix unchanged, the suffix shifted one place left |
| ArrayList.RemoveUndoesInsert | src/main/java/ru/marzuev/aston/myarraylist/MyArrayList.java:143-159 | remove(index) undoes add(element, index) |
| ArrayList.InsertUndoesRemove | src/main/java/ru/marzuev/aston/myarraylist/MyArrayList.java:75-93 | add(removed element, index) undoes remove(index) |
| ArrayList.AppendIsInsertAtEnd | src/main/java/ru/marzuev/aston/myarraylist/MyArrayList.java:52-63 | add(element) is add(element, size) |
| ArrayList.InsertedAddsOne | src/main/java/ru/marzuev/aston/myarraylist/MyArrayList.java:83-92 | an insertion adds exactly one copy of the element and loses none |
| ArrayList.RemovedFirstDropsOne | src/main/java/ru/marzuev/aston/myarraylist/MyArrayList.java:116-133 | removing the first match of a present element drops exactly one copy of it and keeps all others |
| ArrayList.FirstIndex | src/main/java/ru/marzuev/aston/myarraylist/MyArrayList.java:249-265 | -1 exactly when the element is absent; otherwise a position holding it with no earlier occurrence |
| ArrayList.ShiftStep | src/main/java/ru/marzuev/aston/myarraylist/MyArrayList.java:86-88 | one iteration of the insert's copy-back loop keeps its invariant |
| ArrayList.ShiftComplete | src/main/java/ru/marzuev/aston/myarraylist/MyArrayList.java:84-88 | after the copy-back loop the array holds the insertion followed by nulls |
| ArrayList.ShiftStalled | src/main/java/ru/marzuev/aston/myarraylist/MyArrayList.java:86-88 | when the array ends before the loop does, the array is exactly full and holds the insertion cut to the old length |
| ArrayList.GrownCapacity | src/main/java/ru/marzuev/aston/myarraylist/MyArrayList.java:313-321 | the grown length is at least the old one and at most MAX_VALUE; it is larger exactly when the old length is between 2 and MAX_VALUE - 1; below the cap it is floor(1.5 * length) |
| ArrayList.CapacityAfterRemoval | src/main/java/ru/marzuev/aston/myarraylist/MyArrayList.java:124-128 | division by zero exactly when the list became empty; otherwise a trim happens exactly when capacity >= 4 * size, and the trimmed array still holds every element |
| ArrayList.TrimThenGrowStalls | src/main/java/ru/marzuev/aston/myarraylist/MyArrayList.java:313-329 | a trim can leave capacity 1, from which growth stalls |
| ArrayList.TrimThenAppendFails | src/main/java/ru/marzuev/aston/myarraylist/MyArrayList.java:143-159 | through the list's own operations: two adds at capacity 6 and remove(0) leave capacity 1 holding the second element, and the next add throws out-of-bounds |
| ArrayList.CopyOf | src/main/java/ru/marzuev/aston/myarraylist/MyArrayList.java:167 | Arrays.copyOf: a fresh array of the requested length holding the source's prefix, padded with null |
| ArrayList.MyArrayList.constructor | src/main/java/ru/marzuev/aston/myarraylist/MyArrayList.java:32-34 | an empty list over a fresh array of INIT_CAPACITY slots |
| ArrayList.MyArrayList.WithCapacity | src/main/java/ru/marzuev/aston/myarraylist/MyArrayList.java:40-42 | an empty list over a fresh array of the given capacity |
| ArrayList.NewMyArrayList | src/main/java/ru/marzuev/aston/myarraylist/MyArrayList.java:40-42 | a negative capacity throws NegativeArraySizeException; any other gives an empty valid list of that capacity |
| ArrayList.MyArrayList.Add | src/main/java/ru/marzuev/aston/myarraylist/MyArrayList.java:52-63 | on success the elements gain `element` at the end; a full array is first grown by GrownCapacity; it throws IllegalState exactly at size MAX_VALUE and out-of-bounds exactly when growth stalled, leaving the elements unchanged |
| ArrayList.MyArrayList.AddAt | src/main/java/ru/marzuev/aston/myarraylist/MyArrayList.java:75-93 | a bad index throws and changes nothing; otherwise the elements become the insertion, or stay unchanged at size MAX_VALUE, or become the insertion cut to the old size when growth stalled |
| ArrayList.MyArrayList.ShiftIn | src/main/java/ru/marzuev/aston/myarraylist/MyArrayList.java:84-88 | the copy-and-shift step of insert: the insertion followed by nulls when there is room, otherwise an out-of-bounds exception after the truncated insertion |
| ArrayList.MyArrayList.Get | src/main/java/ru/marzuev/aston/myarraylist/MyArrayList.java:102-107 | the element at a valid index, out-of-bounds otherwise |
| ArrayList.MyArrayList.Set | src/main/java/ru/marzuev/aston/myarraylist/MyArrayList.java:216-223 | at a valid index, returns the old element and replaces it, changing nothing else; any other index, negative included, throws and changes nothing |
| ArrayList.MyArrayList.Remove | src/main/java/ru/marzuev/aston/myarraylist/MyArrayList.java:116-133 | absent element: false and no change; otherwise the first occurrence is removed, and then the capacity and outcome follow CapacityAfterRemoval |
| ArrayList.MyArrayList.RemoveAt | src/main/java/ru/marzuev/aston/myarraylist/MyArrayList.java:143-159 | bad index: throws and changes nothing; otherwise removes and returns the element, and then the capacity and outcome follow CapacityAfterRemoval |
| ArrayList.MyArrayList.ShiftOut | src/main/java/ru/marzuev/aston/myarraylist/MyArrayList.java:148-157 | the shared shift-left, null the last slot, decrement, ratio-check and trim; the elements become Removed(old, index) |
| ArrayList.MyArrayList.Clear | src/main/java/ru/marzuev/aston/myarraylist/MyArrayList.java:165-169 | every slot of the old array is null; the list is empty over a fresh array of INIT_CAPACITY slots |
| ArrayList.MyArrayList.QuickSort | src/main/java/ru/marzuev/aston/myarraylist/MyArrayList.java:176-179 | the elements are permuted and nothing else; under a consistent comparator they end sorted; lists of at most one element are untouched |
| ArrayList.MyArrayList.BinarySearch | src/main/java/ru/marzuev/aston/myarraylist/MyArrayList.java:189-206 | a non-negative answer is a position whose element compares equal; on a list sorted by a consistent comparator, -1 exactly when no element compares equal |
| ArrayList.MyArrayList.Contains | src/main/java/ru/marzuev/aston/myarraylist/MyArrayList.java:231-233 | true exactly when the element (null included) is in the list |
| ArrayList.MyArrayList.IsEmpty | src/main/java/ru/marzuev/aston/myarraylist/MyArrayList.java:240-242 | true exactly when the list has no elements |
| ArrayList.MyArrayList.IndexOf | src/main/java/ru/marzuev/aston/myarraylist/MyArrayList.java:249-265 | the first position holding the element, null matching only null, or -1 exactly when it is absent |
| ArrayList.MyArrayList.Iterator | src/main/java/ru/marzuev/aston/myarraylist/MyArrayList.java:272-274 | a fresh iterator over this list at position 0 |
| ArrayList.MyArrayList.Size | src/main/java/ru/marzuev/aston/myarraylist/MyArrayList.java:305-307 | the number of elements |
| ArrayList.MyArrayList.AddArrayLength | src/main/java/ru/marzuev/aston/myarraylist/MyArrayList.java:313-321 | a fresh array of GrownCapacity slots holding the same elements |
| ArrayList.MyArrayList.TrimArrayLength | src/main/java/ru/marzuev/aston/myarraylist/MyArrayList.java:326-329 | a fresh array of a quarter of the slots holding the same elements |
| ArrayList.Itr.constructor | src/main/java/ru/marzuev/aston/myarraylist/MyArrayList.java:273-274 | an iterator at position 0 |
| ArrayList.Itr.HasNext | src/main/java/ru/marzuev/aston/myarraylist/MyArrayList.java:281-287 | true exactly when the position is below the live size; when false, the position returns to 0 |
| ArrayList.Itr.Next | src/main/java/ru/marzuev/aston/myarraylist/MyArrayList.java:293-297 | the element at the position below size, null between size and the array's end, out-of-bounds beyond; the position advances unless it threw |
| ArrayList.UpdateEach | src/test/java/MyArrayListTest.java:195-199 | the hasNext/next/set traversal replaces every element by its image, keeps size and array, and leaves the iterator back at position 0 |
| Ordering.AdjacentSortedIsSorted | src/test/java/MyArrayListTest.java:215-220 | under a consistent comparator, the tests' neighbour-by-neighbour check is equivalent to sortedness |
| Ordering.NoMatchUpTo | src/main/java/ru/marzuev/aston/myarraylist/MyArrayList.java:199-200 | when the probed element compares below the target, no element up to it compares equal, so the search can move low up |
| Ordering.NoMatchFrom | src/main/java/ru/marzuev/aston/myarraylist/MyArrayList.java:201-202 | when the probed element compares above the target, no element from it on compares equal, so the search can move high down |
| Sorting.QuickSortComparator.constructor | src/main/java/ru/marzuev/aston/quicksort/QuickSortComparator.java:14-17 | the sorter shares the caller's array and keeps the comparator |
| Sorting.QuickSortComparator.QuickSort | src/main/java/ru/marzuev/aston/quicksort/QuickSortComparator.java:25-32 | an empty or single range is untouched; otherwise the range [begin, end] is permuted, sorted under a consistent comparator, and no slot outside it changes |
| Sorting.QuickSortComparator.Partition | src/main/java/ru/marzuev/aston/quicksort/QuickSortComparator.java:39-56 | the old last element lands at the returned index within the range; everything before it compares below it and nothing after it does; the range is permuted and nothing outside it changes |
| Sorting.SwapKeepsElements | src/main/java/ru/marzuev/aston/quicksort/QuickSortComparator.java:45-47 | exchanging two slots of a range keeps its elements |
| Sorting.PartitionSwap | src/main/java/ru/marzuev/aston/quicksort/QuickSortComparator.java:44-49 | moving an element below the pivot to the front of the range keeps the partition loop's invariant |
| Sorting.PartitionFinish | src/main/java/ru/marzuev/aston/quicksort/QuickSortComparator.java:51-53 | the closing exchange puts the pivot between the lower and the upper side |
| Sorting.SortedAroundPivot | src/main/java/ru/marzuev/aston/quicksort/QuickSortComparator.java:29-31 | a sequence partitioned around a pivot whose two sides are sorted is sorted |
| Sorting.QuickSortStep | src/main/java/ru/marzuev/aston/quicksort/QuickSortComparator.java:29-31 | partition followed by the two recursive sorts keeps the range's elements, leaves the outside alone and, under a consistent comparator, sorts the range |

## Left out

- `toString()` (MyArrayList.java lines 334-337) is not modelled: it only formats text.
- **Comparators and `equals`.**
  - A `Comparator` is a total function `(E, E) -> int`. A comparator that
    throws or has side effects is not modelled.
  - `element.equals(array[i])` in `indexOf` is modelled as equality of values.
    An `equals` that is not an equivalence is not modelled.
- **Element types.** Elements range over types with equality and without
  references (`T(==,!new)`). This is what lets the comparator's consistency
  be stated over all values.
- **Concurrency.** Concurrent use and `ConcurrentModificationException`-style
  checks are not modelled; the source has none.
- **`INCREASE_MAX_CAPACITY`.** The floating-point factor is modelled by exact
  integer arithmetic. This is exact because `(int)(length * 1.5)` equals
  `length * 3 / 2` for every length below the cap threshold. The threshold
  `length > MAX_VALUE / 1.5` is modelled as `3 * length > 2 * MAX_VALUE`.
- **`OutOfMemoryError` is not modelled.** Allocation is assumed to succeed,
  including arrays of up to `Integer.MAX_VALUE` slots.
- ArrayList.MyArrayList.BinarySearch: the midpoint `(low + high) / 2` is
  computed without 32-bit overflow. For a list longer than 2^30 elements,
  Java's sum can wrap negative and throw out-of-bounds instead.
- ArrayList.MyArrayList.QuickSort: sortedness is promised only for a
  consistent comparator (`TotalPreorder`). For any other comparator only the
  permutation and the frame are promised.
- Sorting.QuickSortComparator.QuickSort: the recursion depth is unbounded
  here. Java's `StackOverflowError` on very unbalanced ranges is not modelled.
- **The `MyList` interface** (MyList.java) only declares the operations
  above. It is not a separate part of this model.
