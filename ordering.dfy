/** What the sorter and the binary search need of the caller's comparator,
    and what "sorted" means under it. */
module Ordering {

  /** A comparator that is consistent in the sense of java.util.Comparator:
      every element compares equal to itself, swapping the arguments flips the
      sign of the answer, and "compares at most equal" is transitive. */
  ghost predicate TotalPreorder<E(!new)>(cmp: (E, E) -> int) {
    && (forall x :: cmp(x, x) == 0)
    && (forall x, y :: cmp(x, y) > 0 <==> cmp(y, x) < 0)
    && (forall x, y, z :: cmp(x, y) <= 0 && cmp(y, z) <= 0 ==> cmp(x, z) <= 0)
  }

  /** Every element compares at most equal to every later one. */
  ghost predicate SortedBy<E>(s: seq<E>, cmp: (E, E) -> int) {
    forall i, j :: 0 <= i < j < |s| ==> cmp(s[i], s[j]) <= 0
  }

  /** Every element compares at most equal to its successor: the check that
      the list's tests perform after sorting. */
  ghost predicate AdjacentSorted<E>(s: seq<E>, cmp: (E, E) -> int) {
    forall i :: 0 <= i < |s| - 1 ==> cmp(s[i], s[i + 1]) <= 0
  }

  /** Under a consistent comparator, checking neighbours is enough. */
  lemma {:induction false} AdjacentSortedIsSorted<E(!new)>(s: seq<E>, cmp: (E, E) -> int)
    requires TotalPreorder(cmp)
    ensures AdjacentSorted(s, cmp) <==> SortedBy(s, cmp)
  {
    if AdjacentSorted(s, cmp) && |s| > 1 {
      var t := s[1..];
      assert AdjacentSorted(t, cmp) by {
        forall i | 0 <= i < |t| - 1 ensures cmp(t[i], t[i + 1]) <= 0 {
          assert t[i] == s[i + 1] && t[i + 1] == s[i + 2];
        }
      }
      AdjacentSortedIsSorted(t, cmp);
      forall i, j | 0 <= i < j < |s| ensures cmp(s[i], s[j]) <= 0 {
        if i == 0 && j > 1 {
          assert s[1] == t[0] && s[j] == t[j - 1];
        } else if i > 0 {
          assert s[i] == t[i - 1] && s[j] == t[j - 1];
        }
      }
    }
  }

  /** In a sorted sequence, no element at or before a position that compares
      below `e` compares equal to `e`. */
  lemma NoMatchUpTo<E(!new)>(s: seq<E>, cmp: (E, E) -> int, e: E, m: int)
    requires TotalPreorder(cmp) && SortedBy(s, cmp)
    requires 0 <= m < |s| && cmp(e, s[m]) > 0
    ensures forall k :: 0 <= k <= m ==> cmp(s[k], e) != 0
  {
  }

  /** In a sorted sequence, no element at or after a position that compares
      above `e` compares equal to `e`. */
  lemma NoMatchFrom<E(!new)>(s: seq<E>, cmp: (E, E) -> int, e: E, m: int)
    requires TotalPreorder(cmp) && SortedBy(s, cmp)
    requires 0 <= m < |s| && cmp(e, s[m]) < 0
    ensures forall k :: m <= k < |s| ==> cmp(s[k], e) != 0
  {
  }
}
