/** QuickSortComparator: a recursive quicksort with Lomuto partitioning that
    sorts an inclusive range of a caller's array in place, ordering the
    elements by a caller-supplied comparator. */
module Sorting {
  import opened Ordering

  /** `a` and `b` have the same length and agree outside the inclusive
      range [lo, hi]. */
  ghost predicate SameOutside<E>(a: seq<E>, b: seq<E>, lo: int, hi: int) {
    |a| == |b| && forall k :: 0 <= k < |a| && (k < lo || hi < k) ==> a[k] == b[k]
  }

  /** The pivot compares above every element of `m`. */
  ghost predicate AllBelow<E>(m: multiset<E>, pivot: E, cmp: (E, E) -> int) {
    forall x :: x in m ==> cmp(pivot, x) > 0
  }

  /** The pivot compares at most equal to every element of `m`. */
  ghost predicate NoneBelow<E>(m: multiset<E>, pivot: E, cmp: (E, E) -> int) {
    forall x :: x in m ==> cmp(pivot, x) <= 0
  }

  /** Exchanging two elements of s[lo..hi) keeps the slice's elements. */
  lemma SwapKeepsElements<E>(a: seq<E>, b: seq<E>, lo: int, hi: int, i: int, j: int)
    requires 0 <= lo <= i < hi <= |a| && lo <= j < hi
    requires b == a[i := a[j]][j := a[i]]
    ensures multiset(b[lo..hi]) == multiset(a[lo..hi])
  {
    assert b[lo..hi] == a[lo..hi][i - lo := a[j]][j - lo := a[i]];
  }

  /** The loop invariant of Partition over the range's contents `s`, which
      started out as `s0`: s[begin..counter) lies below the pivot s0[end],
      s[counter..i) does not, the pivot has not moved, and only [begin, end]
      has been permuted. */
  ghost predicate PartitionedUpTo<E>(s: seq<E>, s0: seq<E>, begin: int, end: int, counter: int, i: int,
                                     cmp: (E, E) -> int) {
    && 0 <= begin <= counter <= i <= end < |s|
    && SameOutside(s, s0, begin, end)
    && s[end] == s0[end]
    && (forall k :: begin <= k < counter ==> cmp(s0[end], s[k]) > 0)
    && (forall k :: counter <= k < i ==> cmp(s0[end], s[k]) <= 0)
    && multiset(s[begin..end + 1]) == multiset(s0[begin..end + 1])
  }

  /** One step of Partition that moves an element below the pivot to the
      front keeps its invariant. */
  lemma PartitionSwap<E>(s: seq<E>, s0: seq<E>, begin: int, end: int, counter: int, i: int, cmp: (E, E) -> int)
    requires PartitionedUpTo(s, s0, begin, end, counter, i, cmp) && i < end
    requires cmp(s0[end], s[i]) > 0
    ensures PartitionedUpTo(s[counter := s[i]][i := s[counter]], s0, begin, end, counter + 1, i + 1, cmp)
  {
    var t := s[counter := s[i]][i := s[counter]];
    SwapKeepsElements(s, t, begin, end + 1, counter, i);
    assert SameOutside(t, s0, begin, end);
    forall k | begin <= k < counter + 1 ensures cmp(s0[end], t[k]) > 0 {
      if k < counter { assert t[k] == s[k]; }
    }
    forall k | counter + 1 <= k < i + 1 ensures cmp(s0[end], t[k]) <= 0 {
      if k < i { assert t[k] == s[k]; } else { assert t[k] == s[counter]; }
    }
  }

  /** Partition's closing exchange puts the pivot between the two sides. */
  lemma PartitionFinish<E>(s: seq<E>, s0: seq<E>, begin: int, end: int, counter: int, cmp: (E, E) -> int)
    requires PartitionedUpTo(s, s0, begin, end, counter, end, cmp)
    ensures var t := s[counter := s[end]][end := s[counter]];
      && SameOutside(t, s0, begin, end)
      && t[counter] == s0[end]
      && (forall k :: begin <= k < counter ==> cmp(t[counter], t[k]) > 0)
      && (forall k :: counter < k <= end ==> cmp(t[counter], t[k]) <= 0)
      && multiset(t[begin..end + 1]) == multiset(s0[begin..end + 1])
  {
    var t := s[counter := s[end]][end := s[counter]];
    SwapKeepsElements(s, t, begin, end + 1, counter, end);
  }

  /** A bound that holds at every index of s[lo..hi) holds of every element
      of its multiset, and so survives any permutation of the slice. */
  lemma BelowAsMultiset<E>(s: seq<E>, lo: int, hi: int, pivot: E, cmp: (E, E) -> int)
    requires 0 <= lo <= hi <= |s|
    requires forall k :: lo <= k < hi ==> cmp(pivot, s[k]) > 0
    ensures AllBelow(multiset(s[lo..hi]), pivot, cmp)
  {
    forall x | x in multiset(s[lo..hi]) ensures cmp(pivot, x) > 0 {
      var k :| 0 <= k < hi - lo && s[lo..hi][k] == x;
      assert s[lo + k] == x;
    }
  }

  /** The same for the other side of the pivot. */
  lemma NoneBelowAsMultiset<E>(s: seq<E>, lo: int, hi: int, pivot: E, cmp: (E, E) -> int)
    requires 0 <= lo <= hi <= |s|
    requires forall k :: lo <= k < hi ==> cmp(pivot, s[k]) <= 0
    ensures NoneBelow(multiset(s[lo..hi]), pivot, cmp)
  {
    forall x | x in multiset(s[lo..hi]) ensures cmp(pivot, x) <= 0 {
      var k :| 0 <= k < hi - lo && s[lo..hi][k] == x;
      assert s[lo + k] == x;
    }
  }

  /** A partitioned sequence whose two sides are sorted is sorted: the step
      that makes quicksort correct. */
  lemma SortedAroundPivot<E(!new)>(s: seq<E>, p: int, cmp: (E, E) -> int)
    requires TotalPreorder(cmp)
    requires 0 <= p < |s|
    requires SortedBy(s[..p], cmp) && SortedBy(s[p + 1..], cmp)
    requires AllBelow(multiset(s[..p]), s[p], cmp)
    requires NoneBelow(multiset(s[p + 1..]), s[p], cmp)
    ensures SortedBy(s, cmp)
  {
    forall i, j | 0 <= i < j < |s| ensures cmp(s[i], s[j]) <= 0 {
      if j < p {
        assert s[i] == s[..p][i] && s[j] == s[..p][j];
      } else if p < i {
        assert s[i] == s[p + 1..][i - p - 1] && s[j] == s[p + 1..][j - p - 1];
      } else {
        if i < p {
          assert s[i] in multiset(s[..p]) by { assert s[i] == s[..p][i]; }
        }
        if p < j {
          assert s[j] in multiset(s[p + 1..]) by { assert s[j] == s[p + 1..][j - p - 1]; }
        }
      }
    }
  }

  /** The three steps of quicksort (partition a0 into a1, sort the left side
      into a2, sort the right side into a3) keep the range's elements. */
  lemma StepsKeepElements<E>(a0: seq<E>, a1: seq<E>, a2: seq<E>, a3: seq<E>, begin: int, p: int, end: int)
    requires 0 <= begin <= p <= end < |a0|
    requires SameOutside(a1, a0, begin, end) && multiset(a1[begin..end + 1]) == multiset(a0[begin..end + 1])
    requires SameOutside(a2, a1, begin, p - 1) && multiset(a2[begin..p]) == multiset(a1[begin..p])
    requires SameOutside(a3, a2, p + 1, end) && multiset(a3[p + 1..end + 1]) == multiset(a2[p + 1..end + 1])
    ensures SameOutside(a3, a0, begin, end)
    ensures multiset(a3[begin..end + 1]) == multiset(a0[begin..end + 1])
  {
    assert a2[p + 1..end + 1] == a1[p + 1..end + 1];
    assert a3[begin..p] == a2[begin..p];
    assert a1[begin..end + 1] == a1[begin..p] + [a1[p]] + a1[p + 1..end + 1];
    assert a3[begin..end + 1] == a3[begin..p] + [a3[p]] + a3[p + 1..end + 1];
  }

  /** ... and keep the partition: after both recursive calls the pivot
      still compares above everything on its left and at most equal to
      everything on its right. */
  lemma StepsKeepPartition<E>(a1: seq<E>, a2: seq<E>, a3: seq<E>, begin: int, p: int, end: int, cmp: (E, E) -> int)
    requires 0 <= begin <= p <= end < |a1|
    requires forall k :: begin <= k < p ==> cmp(a1[p], a1[k]) > 0
    requires forall k :: p < k <= end ==> cmp(a1[p], a1[k]) <= 0
    requires SameOutside(a2, a1, begin, p - 1) && multiset(a2[begin..p]) == multiset(a1[begin..p])
    requires SameOutside(a3, a2, p + 1, end) && multiset(a3[p + 1..end + 1]) == multiset(a2[p + 1..end + 1])
    ensures a3[p] == a1[p]
    ensures AllBelow(multiset(a3[begin..p]), a3[p], cmp)
    ensures NoneBelow(multiset(a3[p + 1..end + 1]), a3[p], cmp)
  {
    assert a2[p + 1..end + 1] == a1[p + 1..end + 1];
    assert a3[begin..p] == a2[begin..p];
    BelowAsMultiset(a1, begin, p, a1[p], cmp);
    NoneBelowAsMultiset(a1, p + 1, end + 1, a1[p], cmp);
  }

  /** A range whose two sides around a partitioning pivot are sorted is
      sorted. */
  lemma SortedFromSides<E(!new)>(a: seq<E>, begin: int, p: int, end: int, cmp: (E, E) -> int)
    requires TotalPreorder(cmp)
    requires 0 <= begin <= p <= end < |a|
    requires SortedBy(a[begin..p], cmp) && SortedBy(a[p + 1..end + 1], cmp)
    requires AllBelow(multiset(a[begin..p]), a[p], cmp)
    requires NoneBelow(multiset(a[p + 1..end + 1]), a[p], cmp)
    ensures SortedBy(a[begin..end + 1], cmp)
  {
    var s := a[begin..end + 1];
    var q := p - begin;
    assert s[..q] == a[begin..p];
    assert s[q + 1..] == a[p + 1..end + 1];
    assert s[q] == a[p];
    SortedAroundPivot(s, q, cmp);
  }

  /** One level of quicksort: partition a0 into a1 around the pivot at p,
      sort the left side into a2 and the right side into a3. The range keeps
      its elements, nothing outside it moves, and under a consistent
      comparator the range ends up sorted. */
  lemma QuickSortStep<E(!new)>(a0: seq<E>, a1: seq<E>, a2: seq<E>, a3: seq<E>,
                               begin: int, p: int, end: int, cmp: (E, E) -> int)
    requires 0 <= begin <= p <= end < |a0|
    requires SameOutside(a1, a0, begin, end) && multiset(a1[begin..end + 1]) == multiset(a0[begin..end + 1])
    requires forall k :: begin <= k < p ==> cmp(a1[p], a1[k]) > 0
    requires forall k :: p < k <= end ==> cmp(a1[p], a1[k]) <= 0
    requires SameOutside(a2, a1, begin, p - 1)
    requires begin < p - 1 ==> multiset(a2[begin..p]) == multiset(a1[begin..p])
    requires begin >= p - 1 ==> a2 == a1
    requires begin < p - 1 && TotalPreorder(cmp) ==> SortedBy(a2[begin..p], cmp)
    requires SameOutside(a3, a2, p + 1, end)
    requires p + 1 < end ==> multiset(a3[p + 1..end + 1]) == multiset(a2[p + 1..end + 1])
    requires p + 1 >= end ==> a3 == a2
    requires p + 1 < end && TotalPreorder(cmp) ==> SortedBy(a3[p + 1..end + 1], cmp)
    ensures SameOutside(a3, a0, begin, end)
    ensures multiset(a3[begin..end + 1]) == multiset(a0[begin..end + 1])
    ensures TotalPreorder(cmp) ==> SortedBy(a3[begin..end + 1], cmp)
  {
    assert multiset(a2[begin..p]) == multiset(a1[begin..p]);
    assert multiset(a3[p + 1..end + 1]) == multiset(a2[p + 1..end + 1]);
    StepsKeepElements(a0, a1, a2, a3, begin, p, end);
    StepsKeepPartition(a1, a2, a3, begin, p, end, cmp);
    if TotalPreorder(cmp) {
      assert a3[begin..p] == a2[begin..p];
      SortedFromSides(a3, begin, p, end, cmp);
    }
  }

  class QuickSortComparator<E(!new)> {
    const comparator: (E, E) -> int
    /** The caller's array, shared, not copied. */
    const arr: array<E>

    constructor (comparator: (E, E) -> int, arr: array<E>)
      ensures this.comparator == comparator && this.arr == arr
    {
      this.comparator := comparator;
      this.arr := arr;
    }

    /** Sorts arr[begin..end], both ends included; an empty or one-element
        range is left alone. */
    method QuickSort(begin: int, end: int)
      requires begin < end ==> 0 <= begin && end < arr.Length
      modifies arr
      ensures SameOutside(arr[..], old(arr[..]), begin, end)
      ensures begin >= end ==> arr[..] == old(arr[..])
      ensures begin < end ==> multiset(arr[begin..end + 1]) == old(multiset(arr[begin..end + 1]))
      ensures begin < end && TotalPreorder(comparator) ==> SortedBy(arr[begin..end + 1], comparator)
      decreases end - begin
    {
      if begin >= end {
        return;
      }
      ghost var a0 := arr[..];
      var pivot := Partition(begin, end);
      ghost var a1 := arr[..];
      QuickSort(begin, pivot - 1);
      ghost var a2 := arr[..];
      QuickSort(pivot + 1, end);
      ghost var a3 := arr[..];
      QuickSortStep(a0, a1, a2, a3, begin, pivot, end, comparator);
    }

    /** Lomuto partition of arr[begin..end] around the pivot arr[end]:
        the pivot lands at the returned index, with everything the pivot
        compares above before it and everything else after it. */
    method Partition(begin: int, end: int) returns (p: int)
      requires 0 <= begin <= end < arr.Length
      modifies arr
      ensures begin <= p <= end
      ensures arr[p] == old(arr[end])
      ensures forall k :: begin <= k < p ==> comparator(arr[p], arr[k]) > 0
      ensures forall k :: p < k <= end ==> comparator(arr[p], arr[k]) <= 0
      ensures SameOutside(arr[..], old(arr[..]), begin, end)
      ensures multiset(arr[begin..end + 1]) == old(multiset(arr[begin..end + 1]))
    {
      var pivot := end;
      var counter := begin;
      for i := begin to end
        invariant arr[pivot] == old(arr[end])
        invariant PartitionedUpTo(arr[..], old(arr[..]), begin, end, counter, i, comparator)
      {
        if comparator(arr[pivot], arr[i]) > 0 {
          ghost var before := arr[..];
          PartitionSwap(before, old(arr[..]), begin, end, counter, i, comparator);
          var temp := arr[counter];
          arr[counter] := arr[i];
          arr[i] := temp;
          assert arr[..] == before[counter := before[i]][i := before[counter]];
          counter := counter + 1;
        }
      }
      ghost var before := arr[..];
      PartitionFinish(before, old(arr[..]), begin, end, counter, comparator);
      var swap := arr[counter];
      arr[counter] := arr[pivot];
      arr[pivot] := swap;
      assert arr[..] == before[counter := before[end]][end := before[counter]];
      return counter;
    }
  }
}
