/**
 * Specification functions over the container's contents: searches for the
 * first and last matching index, order-preserving filtering and reversal,
 * with the lemmas the container's operations rely on.
 */
module Sequences {

  /** The predicate "is equal to `item`", as the equality-based searches use it. */
  function Equals<T(==)>(item: T): T -> bool
  {
    x => x == item
  }

  /** The negation of a predicate. */
  function Not<T>(p: T -> bool): T -> bool
  {
    x => !p(x)
  }

  /** The smallest index in [lo, hi) whose element satisfies `p`, or -1 when there is none. */
  function FirstMatch<T>(s: seq<T>, lo: nat, hi: nat, p: T -> bool): (r: int)
    requires hi <= |s|
    ensures r == -1 || (lo <= r < hi && p(s[r]))
    ensures r == -1 ==> forall k :: lo <= k < hi ==> !p(s[k])
    ensures r != -1 ==> forall k :: lo <= k < r ==> !p(s[k])
    decreases hi - lo
  {
    if lo >= hi then -1
    else if p(s[lo]) then lo
    else FirstMatch(s, lo + 1, hi, p)
  }

  /** The largest index in [lo, hi) whose element satisfies `p`, or -1 when there is none. */
  function LastMatch<T>(s: seq<T>, lo: nat, hi: nat, p: T -> bool): (r: int)
    requires hi <= |s|
    ensures r == -1 || (lo <= r < hi && p(s[r]))
    ensures r == -1 ==> forall k :: lo <= k < hi ==> !p(s[k])
    ensures r != -1 ==> forall k :: r < k < hi ==> !p(s[k])
    decreases hi
  {
    if lo >= hi then -1
    else if p(s[hi - 1]) then hi - 1
    else LastMatch(s, lo, hi - 1, p)
  }

  /** An index found by a search, counted from `base`; -1 (not found) stays -1. */
  function RelativeTo(index: int, base: nat): int
  {
    if index == -1 then -1 else index - base
  }

  /** The elements of `s` that satisfy `p`, in their order in `s`. */
  function Filter<T>(s: seq<T>, p: T -> bool): (r: seq<T>)
    ensures |r| <= |s|
    decreases |s|
  {
    if s == [] then []
    else Filter(s[..|s| - 1], p) + (if p(s[|s| - 1]) then [s[|s| - 1]] else [])
  }

  /** Filtering a concatenation filters each part, keeping the parts in order. */
  lemma {:induction false} FilterAppend<T>(s: seq<T>, t: seq<T>, p: T -> bool)
    ensures Filter(s + t, p) == Filter(s, p) + Filter(t, p)
    decreases |t|
  {
    if t == [] {
      assert s + t == s;
    } else {
      assert (s + t)[..|s + t| - 1] == s + t[..|t| - 1];
      FilterAppend(s, t[..|t| - 1], p);
    }
  }

  /** A filter keeps exactly the elements that satisfy the predicate. */
  lemma {:induction false} FilterMembers<T>(s: seq<T>, p: T -> bool)
    ensures forall x :: x in Filter(s, p) <==> x in s && p(x)
    decreases |s|
  {
    if s != [] {
      var init := s[..|s| - 1];
      FilterMembers(init, p);
      assert s == init + [s[|s| - 1]];
    }
  }

  /** Filtering by `p` and by its negation splits `s` into two parts that together hold every element once. */
  lemma {:induction false} FilterPartition<T>(s: seq<T>, p: T -> bool)
    ensures multiset(Filter(s, p)) + multiset(Filter(s, Not(p))) == multiset(s)
    ensures |Filter(s, p)| + |Filter(s, Not(p))| == |s|
    decreases |s|
  {
    if s != [] {
      var init, x := s[..|s| - 1], s[|s| - 1];
      FilterPartition(init, p);
      assert s == init + [x];
      assert Not(p)(x) == !p(x);
      if p(x) {
        assert Filter(s, p) == Filter(init, p) + [x];
        assert Filter(s, Not(p)) == Filter(init, Not(p));
      } else {
        assert Filter(s, p) == Filter(init, p);
        assert Filter(s, Not(p)) == Filter(init, Not(p)) + [x];
      }
    }
  }

  /** A filter whose predicate every element satisfies changes nothing; one that none satisfies leaves nothing. */
  lemma {:induction false} FilterExtremes<T>(s: seq<T>, p: T -> bool)
    ensures (forall k :: 0 <= k < |s| ==> p(s[k])) ==> Filter(s, p) == s
    ensures (forall k :: 0 <= k < |s| ==> !p(s[k])) ==> Filter(s, p) == []
    decreases |s|
  {
    if s != [] {
      var init := s[..|s| - 1];
      FilterExtremes(init, p);
      assert s == init + [s[|s| - 1]];
    }
  }

  /** `s` in reverse order. */
  function Reversed<T>(s: seq<T>): seq<T>
  {
    seq(|s|, k requires 0 <= k < |s| => s[|s| - 1 - k])
  }

  /** Reversing twice gives back the original sequence. */
  lemma ReversedTwice<T>(s: seq<T>)
    ensures Reversed(Reversed(s)) == s
  {
    assert forall k :: 0 <= k < |s| ==> Reversed(Reversed(s))[k] == s[k];
  }
}
