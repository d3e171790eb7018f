/**
 * Orderings as the container's sorting and bisection use them: a comparer is
 * a strict weak ordering (what std::sort demands), "sorted" means no element
 * is ordered before an earlier one, and an insertion sort stands in for
 * std::sort, whose algorithm is not part of this model.
 */
module Ordering {

  /** `less` is a strict weak ordering: irreflexive, transitive, and with transitive incomparability. */
  ghost predicate StrictWeakOrder<T(!new)>(less: (T, T) -> bool)
  {
    && (forall a :: !less(a, a))
    && (forall a, b, c :: less(a, b) && less(b, c) ==> less(a, c))
    && (forall a, b, c :: !less(a, b) && !less(b, c) ==> !less(a, c))
  }

  /** No element of `s` is ordered before an element that precedes it. */
  predicate SortedBy<T>(s: seq<T>, less: (T, T) -> bool)
  {
    forall i, j :: 0 <= i < j < |s| ==> !less(s[j], s[i])
  }

  /** The positions lo..hi (both included, within `s`) are sorted. */
  predicate SortedWithin<T>(s: seq<T>, lo: nat, hi: int, less: (T, T) -> bool)
  {
    forall i, j :: lo <= i < j <= hi && j < |s| ==> !less(s[j], s[i])
  }

  /** `x` placed into `s` before the first element that is not ordered before it. */
  function InsertSorted<T>(x: T, s: seq<T>, less: (T, T) -> bool): (r: seq<T>)
    ensures multiset(r) == multiset(s) + multiset{x}
    ensures |r| == |s| + 1
  {
    if s == [] || !less(s[0], x) then [x] + s
    else
      assert s == [s[0]] + s[1..];
      [s[0]] + InsertSorted(x, s[1..], less)
  }

  /** Insertion into a sorted sequence keeps it sorted. */
  lemma {:induction false} InsertSortedKeepsOrder<T(!new)>(x: T, s: seq<T>, less: (T, T) -> bool)
    requires StrictWeakOrder(less)
    requires SortedBy(s, less)
    ensures SortedBy(InsertSorted(x, s, less), less)
  {
    if s == [] || !less(s[0], x) {
      assert forall j :: 0 <= j < |s| ==> !less(s[j], s[0]);
    } else {
      var t := InsertSorted(x, s[1..], less);
      InsertSortedKeepsOrder(x, s[1..], less);
      forall k | 0 <= k < |t|
        ensures !less(t[k], s[0])
      {
        assert t[k] in multiset(s[1..]) + multiset{x};
        if t[k] != x {
          assert t[k] in s[1..];
          var m :| 0 <= m < |s[1..]| && s[1..][m] == t[k];
          assert s[m + 1] == t[k];
        }
      }
    }
  }

  /** The elements of `s` rearranged into order by `less`. */
  function SortSeq<T>(s: seq<T>, less: (T, T) -> bool): (r: seq<T>)
    ensures multiset(r) == multiset(s)
    ensures |r| == |s|
  {
    if s == [] then []
    else
      assert s == [s[0]] + s[1..];
      InsertSorted(s[0], SortSeq(s[1..], less), less)
  }

  /** Under a strict weak ordering the result of SortSeq is sorted. */
  lemma {:induction false} SortSeqSorted<T(!new)>(s: seq<T>, less: (T, T) -> bool)
    requires StrictWeakOrder(less)
    ensures SortedBy(SortSeq(s, less), less)
  {
    if s != [] {
      SortSeqSorted(s[1..], less);
      InsertSortedKeepsOrder(s[0], SortSeq(s[1..], less), less);
    }
  }

  /** In a sorted range, everything from an element above `item` onwards is above `item` too. */
  lemma AboveFrom<T(!new)>(s: seq<T>, lo: nat, hi: int, less: (T, T) -> bool, item: T, m: nat)
    requires StrictWeakOrder(less)
    requires SortedWithin(s, lo, hi, less)
    requires lo <= m <= hi < |s|
    requires less(item, s[m])
    ensures forall k :: m <= k <= hi ==> less(item, s[k])
  {
    forall k | m < k <= hi
      ensures less(item, s[k])
    {
      assert !less(s[k], s[m]);
    }
  }

  /** In a sorted range, everything up to an element below `item` is below `item` too. */
  lemma BelowUpTo<T(!new)>(s: seq<T>, lo: nat, hi: int, less: (T, T) -> bool, item: T, m: nat)
    requires StrictWeakOrder(less)
    requires SortedWithin(s, lo, hi, less)
    requires lo <= m <= hi < |s|
    requires less(s[m], item)
    ensures forall k :: lo <= k <= m ==> less(s[k], item)
  {
    forall k | lo <= k < m
      ensures less(s[k], item)
    {
      assert !less(s[m], s[k]);
    }
  }
}
