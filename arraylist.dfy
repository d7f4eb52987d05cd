/** MyArrayList: a list over a backing array that grows by half when full
    and shrinks to a quarter when mostly empty after a removal, with a
    linear search that treats null as a value, a binary search, an in-place
    quicksort delegated to QuickSortComparator, and an iterator. */
module ArrayList {
  import opened Wrappers
  import opened Ordering
  import Sorting

  /** Capacity of a list made without an explicit capacity, and after clear(). */
  const INIT_CAPACITY: nat := 10
  /** A removal trims the array to a quarter once capacity / size reaches this. */
  const FREE_SPACE: nat := 4

  // ---------------------------------------------------------------------
  // The list operations on the sequence of elements
  // ---------------------------------------------------------------------

  /** `s` with `e` inserted before position `k`. */
  function Inserted<T>(s: seq<T>, k: nat, e: T): (r: seq<T>)
    requires k <= |s|
    ensures |r| == |s| + 1 && r[k] == e
    ensures forall i :: 0 <= i < k ==> r[i] == s[i]
    ensures forall i :: k < i < |r| ==> r[i] == s[i - 1]
  {
    s[..k] + [e] + s[k..]
  }

  /** `s` without its element at position `k`. */
  function Removed<T>(s: seq<T>, k: nat): (r: seq<T>)
    requires k < |s|
    ensures |r| == |s| - 1
    ensures forall i :: 0 <= i < k ==> r[i] == s[i]
    ensures forall i :: k <= i < |r| ==> r[i] == s[i + 1]
  {
    s[..k] + s[k + 1..]
  }

  /** Removing at an index undoes inserting there. */
  lemma RemoveUndoesInsert<T>(s: seq<T>, k: nat, e: T)
    requires k <= |s|
    ensures Removed(Inserted(s, k, e), k) == s
  {
  }

  /** Inserting a removed element back where it was restores the sequence. */
  lemma InsertUndoesRemove<T>(s: seq<T>, k: nat)
    requires k < |s|
    ensures Inserted(Removed(s, k), k, s[k]) == s
  {
  }

  /** Appending is inserting at the end. */
  lemma AppendIsInsertAtEnd<T>(s: seq<T>, e: T)
    ensures Inserted(s, |s|, e) == s + [e]
  {
  }

  /** Inserting adds exactly one copy of the element, wherever it goes. */
  lemma InsertedAddsOne<T>(s: seq<T>, k: nat, e: T)
    requires k <= |s|
    ensures multiset(Inserted(s, k, e)) == multiset(s) + multiset{e}
  {
    assert s == s[..k] + s[k..];
  }

  /** The position of the first element of `s` equal to `e`, or -1. */
  function FirstIndex<T(==)>(s: seq<T>, e: T): (r: int)
    ensures -1 <= r < |s|
    ensures r == -1 <==> e !in s
    ensures 0 <= r ==> s[r] == e && e !in s[..r]
  {
    if s == [] then -1
    else if s[0] == e then 0
    else
      var k := FirstIndex(s[1..], e);
      assert s[1..][..k + 1] == s[1..k + 2];
      if k == -1 then -1 else k + 1
  }

  /** Removing the first match of a present element drops exactly one copy
      of it and keeps every other element. */
  lemma RemovedFirstDropsOne<T>(s: seq<T>, e: T)
    requires e in s
    ensures multiset(Removed(s, FirstIndex(s, e))) == multiset(s) - multiset{e}
  {
    var k := FirstIndex(s, e);
    assert s == s[..k] + [e] + s[k + 1..];
    assert multiset(s) == multiset(s[..k]) + multiset{e} + multiset(s[k + 1..]);
    assert multiset(Removed(s, k)) == multiset(s[..k]) + multiset(s[k + 1..]);
  }

  /** The loop invariant of add(element, index) over the array's contents
      `a`: the prefix before `index` is untouched, `element` sits at `index`,
      the first `i` saved elements have moved up one place, and the rest of
      the array is as it was (elements of `s`, then nulls). */
  ghost predicate ShiftedUpTo<T>(a: seq<Option<T>>, s: seq<Option<T>>, index: nat, element: Option<T>, i: nat) {
    && index + i < |a| && index + i <= |s| <= |a|
    && a[index] == element
    && (forall k :: 0 <= k < index ==> a[k] == s[k])
    && (forall k :: index < k <= index + i ==> a[k] == s[k - 1])
    && (forall k :: index + 1 + i <= k < |a| ==> a[k] == if k < |s| then s[k] else None)
  }

  /** Moving the next saved element up one place keeps the invariant. */
  lemma ShiftStep<T>(a: seq<Option<T>>, s: seq<Option<T>>, index: nat, element: Option<T>, i: nat)
    requires ShiftedUpTo(a, s, index, element, i)
    requires index + i < |s| && index + 1 + i < |a|
    ensures ShiftedUpTo(a[index + 1 + i := s[index + i]], s, index, element, i + 1)
  {
  }

  /** Once every saved element has moved, the array holds the insertion. */
  lemma ShiftComplete<T>(a: seq<Option<T>>, s: seq<Option<T>>, index: nat, element: Option<T>)
    requires index <= |s| && ShiftedUpTo(a, s, index, element, |s| - index)
    ensures a[..|s| + 1] == Inserted(s, index, element)
    ensures forall k :: |s| + 1 <= k < |a| ==> a[k] == None
  {
  }

  /** When the array runs out before the saved elements do, it holds the
      insertion cut to its old length (the last element is lost). */
  lemma ShiftStalled<T>(a: seq<Option<T>>, s: seq<Option<T>>, index: nat, element: Option<T>, i: nat)
    requires ShiftedUpTo(a, s, index, element, i)
    requires index + i < |s| && |a| <= index + 1 + i
    ensures |a| == |s| && a == Inserted(s, index, element)[..|s|]
  {
  }

  // ---------------------------------------------------------------------
  // Capacity policy
  // ---------------------------------------------------------------------

  /** The length addArrayLength gives the array: (int)(length * 1.5), which
      is exactly length * 3 / 2, or Integer.MAX_VALUE once length exceeds
      Integer.MAX_VALUE / 1.5 (that is, once 3 * length > 2 * MAX_VALUE).
      Lengths 0 and 1 do not grow. */
  function GrownCapacity(length: nat): (r: nat)
    requires length <= INT_MAX
    ensures length <= r <= INT_MAX
    ensures r > length <==> 2 <= length < INT_MAX
    ensures 3 * length <= 2 * INT_MAX ==> 2 * r <= 3 * length < 2 * r + 2
  {
    if 3 * length > 2 * INT_MAX then INT_MAX else length * 3 / 2
  }

  /** What a removal that leaves `newSize` elements does to the capacity:
      the ratio capacity / newSize divides by zero when the list became
      empty, and the array is trimmed to a quarter once the ratio reaches
      FREE_SPACE. */
  function CapacityAfterRemoval(capacity: nat, newSize: nat): (r: Result<nat>)
    requires newSize <= capacity
    ensures r.Err? <==> newSize == 0
    ensures r.Err? ==> r.error == Arithmetic
    ensures r.Ok? ==> newSize <= r.value <= capacity
    ensures r.Ok? ==> (r.value < capacity <==> FREE_SPACE * newSize <= capacity)
    ensures r.Ok? && r.value < capacity ==> FREE_SPACE * r.value <= capacity < FREE_SPACE * (r.value + 1)
  {
    if newSize == 0 then Err(Arithmetic)
    else if capacity / newSize >= FREE_SPACE then
      QuarterFits(capacity, newSize);
      Ok(capacity / FREE_SPACE)
    else
      RatioBelowFour(capacity, newSize);
      Ok(capacity)
  }

  /** A ratio of at least four leaves room for every element in a quarter. */
  lemma QuarterFits(capacity: nat, size: nat)
    requires 0 < size && capacity / size >= FREE_SPACE
    ensures FREE_SPACE * size <= capacity && size <= capacity / FREE_SPACE < capacity
  {
    var q := capacity / size;
    assert capacity == q * size + capacity % size;
    assert q * size >= FREE_SPACE * size by {
      MulMonotone(FREE_SPACE, q, size);
    }
  }

  /** A ratio below four means fewer than four slots per element. */
  lemma RatioBelowFour(capacity: nat, size: nat)
    requires 0 < size && capacity / size < FREE_SPACE
    ensures capacity < FREE_SPACE * size
  {
    var q := capacity / size;
    assert capacity == q * size + capacity % size;
    assert (q + 1) * size <= FREE_SPACE * size by {
      MulMonotone(q + 1, FREE_SPACE, size);
    }
  }

  lemma MulMonotone(a: nat, b: nat, c: nat)
    requires a <= b
    ensures a * c <= b * c
  {
  }

  /** Growth stalls at capacity 1, and a trim can leave that capacity: a
      list of capacity 6 holding 2 elements is trimmed to capacity 1 by a
      removal, after which the next append cannot grow the array. */
  lemma TrimThenGrowStalls()
    ensures CapacityAfterRemoval(6, 1) == Ok(1)
    ensures GrownCapacity(1) == 1 && GrownCapacity(0) == 0
  {
  }

  /** java.util.Arrays.copyOf: a fresh array of the given length holding the
      prefix of `src`, padded with null. */
  method CopyOf<T>(src: array<Option<T>>, length: nat) returns (dst: array<Option<T>>)
    ensures fresh(dst) && dst.Length == length
    ensures forall i :: 0 <= i < length ==> dst[i] == if i < src.Length then src[i] else None
  {
    dst := new Option<T>[length](i reads src => if 0 <= i < src.Length then src[i] else None);
  }

  // ---------------------------------------------------------------------
  // The list
  // ---------------------------------------------------------------------

  class MyArrayList<T(==,!new)> {
    /** The backing array; slots from `size` on hold null. */
    var arr: array<Option<T>>
    var size: nat

    ghost predicate Valid()
      reads this, arr
    {
      && size <= arr.Length <= INT_MAX
      && forall i :: size <= i < arr.Length ==> arr[i] == None
    }

    /** The elements of the list, in order. */
    ghost function Elements(): (s: seq<Option<T>>)
      reads this, arr
      requires Valid()
      ensures |s| == size
    {
      arr[..size]
    }

    /** new MyArrayList(): an empty list of capacity INIT_CAPACITY. */
    constructor ()
      ensures Valid() && fresh(arr)
      ensures arr.Length == INIT_CAPACITY && Elements() == []
    {
      arr := new Option<T>[INIT_CAPACITY](_ => None);
      size := 0;
    }

    /** new MyArrayList(capacity) for a capacity Java can allocate. */
    constructor WithCapacity(capacity: nat)
      requires capacity <= INT_MAX
      ensures Valid() && fresh(arr)
      ensures arr.Length == capacity && Elements() == []
    {
      arr := new Option<T>[capacity](_ => None);
      size := 0;
    }

    /** add(element): appends, growing the array first when it is full. */
    method Add(element: Option<T>) returns (r: Result<bool>)
      requires Valid()
      modifies this, arr
      ensures Valid() && (arr == old(arr) || fresh(arr))
      ensures arr.Length == if old(size) == old(arr.Length) then GrownCapacity(old(arr.Length)) else old(arr.Length)
      ensures r == if old(size) < arr.Length then Ok(true)
                   else if old(size) == INT_MAX then Err(IllegalState)
                   else Err(ArrayIndexOutOfBounds)
      ensures Elements() == if r.Ok? then old(Elements()) + [element] else old(Elements())
      ensures r.Err? ==> old(size) == INT_MAX || old(arr.Length) <= 1
    {
      if size >= arr.Length {
        AddArrayLength();
      }
      if size != INT_MAX {
        // array[size] = element: the JVM rejects the store when growth stalled
        if size >= arr.Length {
          return Err(ArrayIndexOutOfBounds);
        }
        arr[size] := element;
      } else {
        return Err(IllegalState);
      }
      size := size + 1;
      return Ok(true);
    }

    /** add(element, index): inserts before position `index`, shifting the
        rest one slot right through a copy of them. */
    method AddAt(element: Option<T>, index: int32) returns (r: Outcome)
      requires Valid()
      modifies this, arr
      ensures Valid() && (arr == old(arr) || fresh(arr))
      ensures !(0 <= index <= old(size)) ==>
        r == Thrown(ArrayIndexOutOfBounds) && arr == old(arr) && unchanged(arr) && size == old(size)
      ensures 0 <= index <= old(size) ==>
        && arr.Length == (if old(size) == old(arr.Length) then GrownCapacity(old(arr.Length)) else old(arr.Length))
        && r == (if old(size) < arr.Length then Done
                 else if old(size) == INT_MAX then Thrown(IllegalState)
                 else Thrown(ArrayIndexOutOfBounds))
        && Elements() == (if r.Done? then Inserted(old(Elements()), index, element)
                          else if r.error == IllegalState then old(Elements())
                          // growth stalled: the shift ran until it left the array
                          else Inserted(old(Elements()), index, element)[..old(size)])
    {
      if index > size || index < 0 {
        return Thrown(ArrayIndexOutOfBounds);
      }
      if size >= arr.Length {
        AddArrayLength();
      }
      if size != INT_MAX {
        r := ShiftIn(element, index);
        if r.Thrown? {
          return;
        }
      } else {
        return Thrown(IllegalState);
      }
      size := size + 1;
      return Done;
    }

    /** The body of add(element, index) once the array has been grown:
        copy the elements from `index` on, store `element` at `index`, then
        write the copy back one slot further right. When growth stalled the
        array is full and the last store falls off its end, after the slots
        before it were already written. */
    method ShiftIn(element: Option<T>, index: nat) returns (r: Outcome)
      requires Valid() && index <= size
      modifies arr
      ensures r == if size < arr.Length then Done else Thrown(ArrayIndexOutOfBounds)
      ensures r.Done? ==>
        && arr[..size + 1] == Inserted(old(Elements()), index, element)
        && forall k :: size + 1 <= k < arr.Length ==> arr[k] == None
      ensures r.Thrown? ==> Valid() && Elements() == Inserted(old(Elements()), index, element)[..size]
    {
      ghost var s := Elements();
      var newArray := arr[index..size];
      if index >= arr.Length {
        return Thrown(ArrayIndexOutOfBounds);
      }
      arr[index] := element;
      for i := 0 to |newArray|
        invariant ShiftedUpTo(arr[..], s, index, element, i)
      {
        if index + 1 + i >= arr.Length {
          ShiftStalled(arr[..], s, index, element, i);
          return Thrown(ArrayIndexOutOfBounds);
        }
        ghost var before := arr[..];
        ShiftStep(before, s, index, element, i);
        arr[index + 1 + i] := newArray[i];
        assert arr[..] == before[index + 1 + i := s[index + i]];
      }
      ShiftComplete(arr[..], s, index, element);
      return Done;
    }

    /** get(index). */
    method Get(index: int32) returns (r: Result<Option<T>>)
      requires Valid()
      ensures 0 <= index < size ==> r == Ok(Elements()[index])
      ensures !(0 <= index < size) ==> r == Err(ArrayIndexOutOfBounds)
    {
      if index >= size || index < 0 {
        return Err(ArrayIndexOutOfBounds);
      }
      return Ok(arr[index]);
    }

    /** set(index, element): replaces one element and returns the old one;
        size and capacity never change. */
    method Set(index: int32, element: Option<T>) returns (r: Result<Option<T>>)
      requires Valid()
      modifies arr
      ensures Valid()
      ensures 0 <= index < size ==>
        r == Ok(old(Elements())[index]) && Elements() == old(Elements())[index := element]
      ensures !(0 <= index < size) ==>
        r == Err(ArrayIndexOutOfBounds) && Elements() == old(Elements())
    {
      if index >= size {
        return Err(ArrayIndexOutOfBounds);
      }
      // the source has no lower-bound check: the JVM's check on array[index]
      // throws the same exception
      if index < 0 {
        return Err(ArrayIndexOutOfBounds);
      }
      var oldT := arr[index];
      arr[index] := element;
      return Ok(oldT);
    }

    /** remove(element): removes the first element equal to `element` (null
        matching null), if there is one. */
    method Remove(element: Option<T>) returns (r: Result<bool>)
      requires Valid()
      modifies this, arr
      ensures Valid() && (arr == old(arr) || fresh(arr))
      ensures var i := FirstIndex(old(Elements()), element);
        if i < 0 then
          r == Ok(false) && arr == old(arr) && unchanged(arr) && size == old(size)
        else
          var after := CapacityAfterRemoval(old(arr.Length), old(size) - 1);
          && Elements() == Removed(old(Elements()), i)
          && r == (if after.Ok? then Ok(true) else Err(after.error))
          && arr.Length == (if after.Ok? then after.value else old(arr.Length))
    {
      ghost var s := Elements();
      var answer := IndexOf(element);
      assert answer == FirstIndex(s, element);
      if answer >= 0 {
        var shifted := ShiftOut(answer);
        if shifted.Thrown? {
          return Err(shifted.error);
        }
        return Ok(true);
      } else {
        return Ok(false);
      }
    }

    /** remove(index): removes and returns the element at `index`. */
    method RemoveAt(index: int32) returns (r: Result<Option<T>>)
      requires Valid()
      modifies this, arr
      ensures Valid() && (arr == old(arr) || fresh(arr))
      ensures !(0 <= index < old(size)) ==>
        r == Err(ArrayIndexOutOfBounds) && arr == old(arr) && unchanged(arr) && size == old(size)
      ensures 0 <= index < old(size) ==>
        var after := CapacityAfterRemoval(old(arr.Length), old(size) - 1);
        && Elements() == Removed(old(Elements()), index)
        && r == (if after.Ok? then Ok(old(Elements())[index]) else Err(after.error))
        && arr.Length == (if after.Ok? then after.value else old(arr.Length))
    {
      if index >= size || index < 0 {
        return Err(ArrayIndexOutOfBounds);
      }
      var element := arr[index];
      var shifted := ShiftOut(index);
      if shifted.Thrown? {
        return Err(shifted.error);
      }
      return Ok(element);
    }

    /** What both removes do once they know the index: shift the tail one
        slot left through a copy of it, null the freed last slot, decrement
        size, then compare capacity / size with FREE_SPACE. */
    method ShiftOut(index: nat) returns (r: Outcome)
      requires Valid() && index < size
      modifies this, arr
      ensures Valid() && (arr == old(arr) || fresh(arr))
      ensures Elements() == Removed(old(Elements()), index)
      ensures var after := CapacityAfterRemoval(old(arr.Length), old(size) - 1);
        && r == (if after.Ok? then Done else Thrown(after.error))
        && arr.Length == (if after.Ok? then after.value else old(arr.Length))
    {
      ghost var s := Elements();
      var newArray := arr[index + 1..size];
      for i := 0 to |newArray|
        modifies arr
        invariant forall k :: 0 <= k < index ==> arr[k] == s[k]
        invariant forall k :: index <= k < index + i ==> arr[k] == s[k + 1]
        invariant forall k :: index + i <= k < arr.Length ==> arr[k] == old(arr[k])
      {
        arr[index + i] := newArray[i];
      }
      arr[size - 1] := None;
      size := size - 1;
      assert Elements() == Removed(s, index);
      if size == 0 {
        // array.length / size
        return Thrown(Arithmetic);
      }
      if arr.Length / size >= FREE_SPACE {
        QuarterFits(arr.Length, size);
        TrimArrayLength();
      }
      return Done;
    }

    /** clear(): nulls every slot of the old array and starts over with an
        empty array of INIT_CAPACITY slots. */
    method Clear()
      requires Valid()
      modifies this, arr
      ensures Valid() && fresh(arr)
      ensures arr.Length == INIT_CAPACITY && Elements() == []
      ensures forall i :: 0 <= i < old(arr.Length) ==> old(arr)[i] == None
    {
      forall i | 0 <= i < arr.Length {
        arr[i] := None;
      }
      arr := CopyOf(arr, INIT_CAPACITY);
      size := 0;
    }

    /** quickSort(comparator): sorts the elements in place, positions 0 to
        size - 1, through a QuickSortComparator sharing the array. */
    method QuickSort(comparator: (Option<T>, Option<T>) -> int)
      requires Valid()
      modifies arr
      ensures Valid()
      ensures multiset(Elements()) == old(multiset(Elements()))
      ensures TotalPreorder(comparator) ==> SortedBy(Elements(), comparator)
      ensures old(size) <= 1 ==> arr[..] == old(arr[..])
    {
      var quickSort := new Sorting.QuickSortComparator(comparator, arr);
      quickSort.QuickSort(0, size - 1);
      assert arr[..size] == arr[0..size - 1 + 1];
    }

    /** binarySearch(element, comparator): -1, or a position whose element
        compares equal to `element`. On a list sorted by a consistent
        comparator it finds a match whenever there is one. */
    method BinarySearch(element: Option<T>, comparator: (Option<T>, Option<T>) -> int) returns (r: int)
      requires Valid()
      ensures r == -1 || (0 <= r < size && comparator(Elements()[r], element) == 0)
      ensures TotalPreorder(comparator) && SortedBy(Elements(), comparator) ==>
        (r == -1 <==> forall k :: 0 <= k < size ==> comparator(Elements()[k], element) != 0)
    {
      var low := 0;
      var high := size - 1;
      var answer := -1;
      while low <= high
        invariant 0 <= low <= high + 1 <= size
        invariant TotalPreorder(comparator) && SortedBy(Elements(), comparator) ==>
          forall k :: 0 <= k < size && (k < low || high < k) ==> comparator(Elements()[k], element) != 0
        decreases high - low
      {
        var mid := (low + high) / 2;
        if comparator(arr[mid], element) == 0 {
          answer := mid;
          return answer;
        } else if comparator(element, arr[mid]) > 0 {
          if TotalPreorder(comparator) && SortedBy(Elements(), comparator) {
            NoMatchUpTo(Elements(), comparator, element, mid);
          }
          low := mid + 1;
        } else {
          if TotalPreorder(comparator) && SortedBy(Elements(), comparator) {
            NoMatchFrom(Elements(), comparator, element, mid);
          }
          high := mid - 1;
        }
      }
      return answer;
    }

    /** contains(element). */
    method Contains(element: Option<T>) returns (b: bool)
      requires Valid()
      ensures b <==> element in Elements()
    {
      var i := IndexOf(element);
      return i >= 0;
    }

    /** isEmpty(). */
    predicate IsEmpty()
      reads this, arr
      requires Valid()
      ensures IsEmpty() <==> Elements() == []
    {
      size == 0
    }

    /** indexOf(element): the first position holding `element`, or -1. A
        non-null element is compared with equals, null only with null. */
    method IndexOf(element: Option<T>) returns (r: int)
      requires Valid()
      ensures -1 <= r < size
      ensures r >= 0 ==> Elements()[r] == element && element !in Elements()[..r]
      ensures r == -1 <==> element !in Elements()
      ensures r == FirstIndex(Elements(), element)
    {
      if element != None {
        for i := 0 to size
          invariant forall k :: 0 <= k < i ==> arr[k] != element
        {
          if element == arr[i] {
            assert element !in Elements()[..i];
            return i;
          }
        }
      } else {
        for k := 0 to size
          invariant forall j :: 0 <= j < k ==> arr[j] != None
        {
          if arr[k] == None {
            assert element !in Elements()[..k];
            return k;
          }
        }
      }
      return -1;
    }

    /** iterator(): a fresh iterator at position 0. */
    method Iterator() returns (it: Itr<T>)
      ensures fresh(it) && it.list == this && it.index == 0
    {
      it := new Itr(this);
    }

    /** size(). */
    function Size(): (n: int32)
      reads this, arr
      requires Valid()
      ensures n == |Elements()|
    {
      size
    }

    /** addArrayLength(): replaces the array by a copy of GrownCapacity slots. */
    method AddArrayLength()
      requires Valid()
      modifies this
      ensures Valid() && fresh(arr) && size == old(size)
      ensures arr.Length == GrownCapacity(old(arr.Length))
      ensures Elements() == old(Elements())
    {
      var oldCapacity := arr.Length;
      var capacity := oldCapacity * 3 / 2;
      if 3 * oldCapacity > 2 * INT_MAX {
        capacity := INT_MAX;
      }
      arr := CopyOf(arr, capacity);
    }

    /** trimArrayLength(): replaces the array by a copy of its first quarter. */
    method TrimArrayLength()
      requires Valid() && size <= arr.Length / FREE_SPACE
      modifies this
      ensures Valid() && fresh(arr) && size == old(size)
      ensures arr.Length == old(arr.Length) / FREE_SPACE
      ensures Elements() == old(Elements())
    {
      var capacity := arr.Length / FREE_SPACE;
      arr := CopyOf(arr, capacity);
    }
  }

  /** The stall through the list's own operations: a list of capacity 6
      holding two elements loses one by remove(0), is trimmed to capacity 1,
      and the next add(element) throws instead of growing the array. */
  method TrimThenAppendFails() returns (list: MyArrayList<int>, r: Result<bool>)
    ensures list.Valid() && list.arr.Length == 1 && list.Elements() == [Some(2)]
    ensures r == Err(ArrayIndexOutOfBounds)
  {
    list := new MyArrayList.WithCapacity(6);
    var _ := list.Add(Some(1));
    var _ := list.Add(Some(2));
    var removed := list.RemoveAt(0);
    assert removed == Ok(Some(1)) && list.arr.Length == 1;
    r := list.Add(Some(3));
  }

  /** new MyArrayList(capacity) for any Java int: allocating a negative
      number of slots throws. */
  method NewMyArrayList<T(==,!new)>(capacity: int32) returns (r: Result<MyArrayList<T>>)
    ensures capacity < 0 <==> r.Err?
    ensures r.Err? ==> r.error == NegativeArraySize
    ensures r.Ok? ==> fresh(r.value) && fresh(r.value.arr) && r.value.Valid()
    ensures r.Ok? ==> r.value.arr.Length == capacity && r.value.Elements() == []
  {
    if capacity < 0 {
      return Err(NegativeArraySize);
    }
    var list := new MyArrayList.WithCapacity(capacity);
    return Ok(list);
  }

  /** The list's iterator. It reads the list's current size and array on
      every call, so it sees changes made while it is in use. */
  class Itr<T(==,!new)> {
    const list: MyArrayList<T>
    var index: nat

    constructor (list: MyArrayList<T>)
      ensures this.list == list && index == 0
    {
      this.list := list;
      index := 0;
    }

    /** hasNext(): whether the position is below the current size; when it
        is not, the position goes back to 0, so the iterator can run again. */
    method HasNext() returns (b: bool)
      modifies this
      ensures b <==> old(index) < list.size
      ensures index == if b then old(index) else 0
    {
      var answer := index < list.size;
      if !answer {
        index := 0;
      }
      return answer;
    }

    /** next(): the slot at the position, which then advances. Nothing
        compares the position with size: past the last element it reads the
        null in the spare slots, and past the array the JVM throws. */
    method Next() returns (r: Result<Option<T>>)
      requires list.Valid()
      modifies this
      ensures old(index) < list.size ==> r == Ok(list.Elements()[old(index)])
      ensures list.size <= old(index) < list.arr.Length ==> r == Ok(None)
      ensures list.arr.Length <= old(index) ==> r == Err(ArrayIndexOutOfBounds)
      ensures index == if r.Ok? then old(index) + 1 else old(index)
    {
      if index >= list.arr.Length {
        return Err(ArrayIndexOutOfBounds);
      }
      var element := list.arr[index];
      index := index + 1;
      return Ok(element);
    }
  }

  /** The traversal the list's callers write: `while (it.hasNext())
      list.set(count++, f(it.next()))`. It replaces every element by its
      image under `f`, in place, and leaves the iterator exhausted and back
      at position 0, ready for another pass. */
  method UpdateEach<T(==,!new)>(list: MyArrayList<T>, f: Option<T> -> Option<T>) returns (it: Itr<T>)
    requires list.Valid()
    modifies list.arr
    ensures list.Valid() && list.size == old(list.size) && list.arr == old(list.arr)
    ensures forall i :: 0 <= i < list.size ==> list.Elements()[i] == f(old(list.Elements()[i]))
    ensures fresh(it) && it.list == list && it.index == 0
  {
    it := list.Iterator();
    var count := 0;
    var more := it.HasNext();
    while more
      invariant list.Valid() && list.arr == old(list.arr) && list.size == old(list.size)
      invariant fresh(it) && it.list == list
      invariant more ==> it.index == count < list.size
      invariant !more ==> it.index == 0 && count == list.size
      invariant forall i :: 0 <= i < count ==> list.arr[i] == f(old(list.arr[i]))
      invariant forall i :: count <= i < list.arr.Length ==> list.arr[i] == old(list.arr[i])
      decreases list.size - count, more
    {
      var x := it.Next();
      var _ := list.Set(count, f(x.value));
      count := count + 1;
      more := it.HasNext();
    }
  }
}
