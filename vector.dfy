/**
 * The container `Cx::Vector<T>`: a growable array with a List-style
 * catalogue of bulk insertion, removal, in-place reordering, bounded
 * searches, bisection, predicate queries and extraction.
 *
 * The contents are the field `elems`; every operation that the source runs
 * in place on `*this` reassigns it. Comparers and predicates are Dafny
 * function values, and the element type's own `<` is passed as `less`
 * where the source uses the default comparison. Index parameters whose
 * unsigned 32-bit wrap-around changes the outcome are `u32` with the wrap
 * written out; the others are unbounded.
 */
module CxVector {
  import opened Outcomes
  import opened Sequences
  import opened Ordering

  /**
   * The guard of the 4-argument CopyTo as written: the source range must
   * start inside the vector, and the elements from `index` to the end must
   * not outnumber `count - arrayIndex`, an `unsigned int` difference.
   */
  function CopyRangeRejected(size: nat, index: u32, arrayIndex: u32, count: u32): (r: bool)
    ensures arrayIndex <= count ==> (r <==> index >= size || size - index > count - arrayIndex)
    ensures count < arrayIndex ==> (r <==> index >= size || size - index > count - arrayIndex + U32Modulus)
  {
    index >= size || size - index > Wrap32(count - arrayIndex)
  }

  /** The guard the 4-argument CopyTo evidently intends: reject a range that leaves the vector. */
  function CopyRangeOutside(size: nat, index: u32, count: u32): (r: bool)
    ensures !r <==> index < size && index + count <= size
  {
    index >= size || count > size - index
  }

  /**
   * On a five-element vector the guard as written turns away a one-element
   * copy from the front, and lets through a nine-element copy that reads
   * past the end; the intended guard decides both the other way.
   */
  lemma CopyRangeGuardMisfires()
    ensures CopyRangeRejected(5, 0, 0, 1) && !CopyRangeOutside(5, 0, 1)
    ensures !CopyRangeRejected(5, 0, 0, 9) && CopyRangeOutside(5, 0, 9)
  {
  }

  /**
   * Position `base + k` as an `unsigned int`: the position the k-th step of
   * a copying loop reads or writes when its position is an `unsigned int`.
   */
  function At32(base: u32, k: nat): (r: u32)
    ensures base + k < U32Modulus ==> r == base + k
    ensures U32Modulus <= base + k < 2 * U32Modulus ==> r == base + k - U32Modulus
    ensures r <= base + k
  {
    Wrap32(base + k)
  }

  /** Whether position `j` is one of At32(base, 0), ..., At32(base, count - 1). */
  predicate InWindow(j: int, base: u32, count: nat)
  {
    0 <= j < U32Modulus && Wrap32(j - base) < count
  }

  /**
   * How many pairs the whole-vector Reverse swaps: `size / 2` converted to
   * `int`, and none when that conversion comes out negative.
   */
  function ReverseSwapCount(size: nat): (r: nat)
    ensures r <= size / 2
    ensures size < U32Modulus ==> r == size / 2
    ensures U32Modulus <= size < 2 * U32Modulus ==> r == 0
  {
    var c := Int32Of(size / 2);
    if c < 0 then 0 else c
  }

  class Vector<T(==, !new)> {
    /** The live elements, in index order. */
    var elems: seq<T>

    constructor ()
      ensures elems == []
    {
      elems := [];
    }

    /** Construction from an initializer list. */
    constructor FromList(initialValues: seq<T>)
      ensures elems == initialValues
    {
      elems := initialValues;
    }

    // ---------------------------------------------------------------------
    // Bulk insertion

    /** Appends every element of an initializer list, in order. */
    method AddRange(list: seq<T>)
      modifies this
      ensures elems == old(elems) + list
    {
      var i := 0;
      while i < |list|
        invariant 0 <= i <= |list|
        invariant elems == old(elems) + list[..i]
      {
        elems := elems + [list[i]];
        i := i + 1;
      }
    }

    /** Appends the first `size` elements of a buffer; a null buffer appends nothing. */
    method AddRangeBuffer(range: array?<T>, size: nat)
      requires range != null ==> size <= range.Length
      modifies this
      ensures range == null ==> elems == old(elems)
      ensures range != null ==> elems == old(elems) + range[..size]
    {
      if range != null {
        var i := 0;
        while i < size
          invariant 0 <= i <= size
          invariant elems == old(elems) + range[..i]
        {
          elems := elems + [range[i]];
          i := i + 1;
        }
      }
    }

    /** Appends the elements of another vector, in order. */
    method AddRangeFrom(other: Vector<T>)
      requires other != this
      modifies this
      ensures elems == old(elems) + old(other.elems)
    {
      AddRange(other.elems);
    }

    /**
     * Inserts the first `n` elements of a buffer before position `index`,
     * one at a time; a null buffer or an index past the end throws
     * invalid_argument before anything changes.
     */
    method InsertRange(index: nat, range: array?<T>, n: nat) returns (o: Outcome)
      requires range != null ==> n <= range.Length
      modifies this
      ensures o.Fail? <==> range == null || index > |old(elems)|
      ensures o.Fail? ==> o.error == InvalidArgument && elems == old(elems)
      ensures o.Done? ==> range != null && elems == old(elems)[..index] + range[..n] + old(elems)[index..]
    {
      if range == null {
        return Fail(InvalidArgument);
      } else if index > |elems| {
        return Fail(InvalidArgument);
      }
      var i := 0;
      while i < n
        invariant 0 <= i <= n
        invariant elems == old(elems)[..index] + range[..i] + old(elems)[index..]
      {
        assert elems[..index + i] == old(elems)[..index] + range[..i];
        assert elems[index + i..] == old(elems)[index..];
        assert range[..i + 1] == range[..i] + [range[i]];
        elems := elems[..index + i] + [range[i]] + elems[index + i..];
        i := i + 1;
      }
      return Done;
    }

    /**
     * Inserts the elements of another container before position `index`,
     * through its data buffer. The element count is passed as an `unsigned
     * int`, so only the first size-mod-2^32 elements are inserted.
     */
    method InsertRangeFrom(index: nat, range: seq<T>) returns (o: Outcome)
      modifies this
      ensures o.Fail? <==> index > |old(elems)|
      ensures o.Fail? ==> o.error == InvalidArgument && elems == old(elems)
      ensures o.Done? ==> elems == old(elems)[..index] + range[..Wrap32(|range|)] + old(elems)[index..]
      ensures o.Done? && |range| < U32Modulus ==> elems == old(elems)[..index] + range + old(elems)[index..]
    {
      var buffer := new T[|range|](k requires 0 <= k < |range| => range[k]);
      assert buffer[..] == range;
      o := InsertRange(index, buffer, Wrap32(|range|));
      assert range[..|range|] == range;
    }

    // ---------------------------------------------------------------------
    // Removal

    /** Removes the first element equal to `item`; the item must be present. */
    method Remove(item: T)
      requires item in elems
      modifies this
      ensures var i := FirstMatch(old(elems), 0, |old(elems)|, Equals(item));
              0 <= i < |old(elems)| && old(elems)[i] == item && elems == old(elems)[..i] + old(elems)[i + 1..]
      ensures multiset(elems) == multiset(old(elems)) - multiset{item}
    {
      var i := FirstMatch(elems, 0, |elems|, Equals(item));
      assert elems == elems[..i] + [elems[i]] + elems[i + 1..];
      elems := elems[..i] + elems[i + 1..];
    }

    /** Removes `count` elements from position `start`; a range past the end throws invalid_argument. */
    method RemoveRange(start: nat, count: nat) returns (o: Outcome)
      modifies this
      ensures o.Fail? <==> start + count > |old(elems)|
      ensures o.Fail? ==> o.error == InvalidArgument && elems == old(elems)
      ensures o.Done? ==> elems == old(elems)[..start] + old(elems)[start + count..]
    {
      if start + count > |elems| {
        return Fail(InvalidArgument);
      }
      elems := elems[..start] + elems[start + count..];
      return Done;
    }

    /** Removes the element at `index`; an index past the last element throws invalid_argument. */
    method RemoveAt(index: nat) returns (o: Outcome)
      modifies this
      ensures o.Fail? <==> index >= |old(elems)|
      ensures o.Fail? ==> o.error == InvalidArgument && elems == old(elems)
      ensures o.Done? ==> elems == old(elems)[..index] + old(elems)[index + 1..]
      ensures o.Done? ==> |elems| == |old(elems)| - 1
    {
      if index >= |elems| {
        return Fail(InvalidArgument);
      }
      elems := elems[..index] + elems[index + 1..];
      return Done;
    }

    /** Removes every element satisfying `pred`, keeping the order of the others. */
    method RemoveAll(pred: T -> bool)
      modifies this
      ensures elems == Filter(old(elems), Not(pred))
      ensures forall x :: x in elems <==> x in old(elems) && !pred(x)
    {
      FilterMembers(elems, Not(pred));
      elems := Filter(elems, Not(pred));
    }

    // ---------------------------------------------------------------------
    // In-place reordering

    /** Sorts the whole vector; `less` is the comparer (the element type's `<` for the default overload). */
    method Sort(less: (T, T) -> bool)
      requires StrictWeakOrder(less)
      modifies this
      ensures SortedBy(elems, less)
      ensures multiset(elems) == multiset(old(elems))
    {
      SortSeqSorted(elems, less);
      elems := SortSeq(elems, less);
    }

    /**
     * Sorts positions `begin` to `end`, BOTH INCLUDED, through a scratch
     * copy. An `end` past the last element makes the copying loop throw
     * out_of_range; `begin > end` leaves the copy empty, so reading its last
     * element throws, and the rethrow turns that into a plain std::exception.
     * The positions are `unsigned int`s; on a vector of 2^32 or more elements
     * an `end` of 2^32 - 1 makes the copying loop wrap and never end, which
     * the precondition of CopyOut excludes.
     */
    method SortRange(begin: u32, end: u32, less: (T, T) -> bool) returns (o: Outcome)
      requires StrictWeakOrder(less)
      requires |elems| >= U32Modulus ==> end < U32Modulus - 1
      modifies this
      ensures o.Fail? <==> begin > end || end >= |old(elems)|
      ensures o.Fail? ==> elems == old(elems)
      ensures o.Fail? ==> o.error == if begin > end then GenericException else OutOfRange
      ensures o.Done? ==> |elems| == |old(elems)|
      ensures o.Done? ==> elems[..begin] == old(elems)[..begin] && elems[end + 1..] == old(elems)[end + 1..]
      ensures o.Done? ==> SortedBy(elems[begin..end + 1], less)
      ensures o.Done? ==> multiset(elems[begin..end + 1]) == multiset(old(elems)[begin..end + 1])
    {
      var copied := CopyOut(begin, end);
      if copied.Err? {
        return Fail(copied.error);
      }
      var sorted := SortSeq(copied.value, less);
      if |sorted| == 0 {
        return Fail(GenericException);
      }
      SortSeqSorted(copied.value, less);
      WriteBack(begin, sorted);
      assert elems[begin..end + 1] == sorted;
      return Done;
    }

    /**
     * The scratch-copy step of the ranged Sort: positions `begin` to `end`,
     * both included, read with the bounds-checked `at`, so an `end` past the
     * last element throws out_of_range; `begin > end` copies nothing.
     */
    method CopyOut(begin: u32, end: u32) returns (r: Result<seq<T>>)
      requires |elems| >= U32Modulus ==> end < U32Modulus - 1
      ensures r.Err? <==> begin <= end && end >= |elems|
      ensures r.Err? ==> r.error == OutOfRange
      ensures r.Ok? ==> r.value == if begin > end then [] else elems[begin..end + 1]
    {
      var scratch: seq<T> := [];
      var i: u32 := begin;
      while i <= end
        invariant begin <= i && (i == begin || (i <= end + 1 && i <= |elems|))
        invariant scratch == if i == begin then [] else elems[begin..i]
      {
        if i >= |elems| {
          return Err(OutOfRange);
        }
        assert elems[begin..i + 1] == elems[begin..i] + [elems[i]];
        scratch := scratch + [elems[i]];
        i := i + 1;
      }
      return Ok(scratch);
    }

    /**
     * The write-back step of the ranged Sort: the sorted copy replaces the
     * positions from `begin` on, element by element, the last one by its own
     * assignment.
     */
    method WriteBack(begin: nat, sorted: seq<T>)
      requires 0 < |sorted| && begin + |sorted| <= |elems|
      modifies this
      ensures elems == old(elems)[..begin] + sorted + old(elems)[begin + |sorted|..]
    {
      var end := begin + |sorted| - 1;
      var i, j := begin, 0;
      while i < end
        invariant begin <= i <= end && j == i - begin
        invariant elems == old(elems)[..begin] + sorted[..j] + old(elems)[i..]
      {
        elems := elems[i := sorted[j]];
        i, j := i + 1, j + 1;
      }
      elems := elems[end := sorted[|sorted| - 1]];
      assert sorted == sorted[..j] + [sorted[|sorted| - 1]];
    }

    /**
     * Reverses the vector by swapping pairs from both ends towards the
     * middle. The number of pairs is `size / 2` converted to `int`
     * (ReverseSwapCount), so a vector of 2^32 elements or more is reversed
     * only partly, or not at all.
     */
    method Reverse()
      modifies this
      ensures |elems| == |old(elems)|
      ensures var n, m := |old(elems)|, ReverseSwapCount(|old(elems)|);
              forall k :: 0 <= k < n ==> elems[k] == if k < m || n - m <= k then old(elems)[n - 1 - k] else old(elems)[k]
      ensures |old(elems)| < U32Modulus ==> elems == Reversed(old(elems))
    {
      var n := |elems|;
      var swapRange := ReverseSwapCount(n);
      var i: i32 := 0;
      while i < swapRange
        invariant 0 <= i <= swapRange
        invariant |elems| == n
        invariant forall k :: 0 <= k < i ==> elems[k] == old(elems)[n - 1 - k] && elems[n - 1 - k] == old(elems)[k]
        invariant forall k :: i <= k < n - i ==> elems[k] == old(elems)[k]
      {
        elems := elems[i := elems[n - 1 - i]][n - 1 - i := elems[i]];
        i := i + 1;
      }
      if n < U32Modulus {
        assert forall k :: 0 <= k < n ==> elems[k] == Reversed(old(elems))[k];
      }
    }

    /**
     * Reverses the `count` elements from position `start`. A range that
     * reaches the last element already throws invalid_argument.
     */
    method ReverseRange(start: nat, count: nat) returns (o: Outcome)
      modifies this
      ensures o.Fail? <==> start + count >= |old(elems)|
      ensures o.Fail? ==> o.error == InvalidArgument && elems == old(elems)
      ensures o.Done? ==> |elems| == |old(elems)|
      ensures o.Done? ==> forall k :: start <= k < start + count ==> elems[k] == old(elems)[2 * start + count - 1 - k]
      ensures o.Done? ==> forall k :: 0 <= k < |elems| && !(start <= k < start + count) ==> elems[k] == old(elems)[k]
    {
      if start + count >= |elems| {
        return Fail(InvalidArgument);
      }
      var s := 0;
      while s < count / 2
        invariant 0 <= s <= count / 2
        invariant |elems| == |old(elems)|
        invariant forall k :: 0 <= k < |elems| && !(start <= k < start + count) ==> elems[k] == old(elems)[k]
        invariant forall k :: start <= k < start + s ==>
                    elems[k] == old(elems)[2 * start + count - 1 - k] && elems[2 * start + count - 1 - k] == old(elems)[k]
        invariant forall k :: start + s <= k < start + count - s ==> elems[k] == old(elems)[k]
      {
        var a, b := start + s, start + count - s - 1;
        elems := elems[a := elems[b]][b := elems[a]];
        s := s + 1;
      }
      return Done;
    }

    /** Replaces every element by the result of `action` on it, in order. */
    method ForEach(action: T -> T)
      modifies this
      ensures |elems| == |old(elems)|
      ensures forall k :: 0 <= k < |elems| ==> elems[k] == action(old(elems)[k])
    {
      var i := 0;
      while i < |elems|
        invariant 0 <= i <= |elems| == |old(elems)|
        invariant forall k :: 0 <= k < i ==> elems[k] == action(old(elems)[k])
        invariant forall k :: i <= k < |elems| ==> elems[k] == old(elems)[k]
      {
        elems := elems[i := action(elems[i])];
        i := i + 1;
      }
    }

    // ---------------------------------------------------------------------
    // Predicate queries

    /** Whether some element equals `item`. */
    method Contains(item: T) returns (found: bool)
      ensures found <==> item in elems
    {
      var i := 0;
      while i < |elems|
        invariant 0 <= i <= |elems|
        invariant item !in elems[..i]
      {
        if elems[i] == item {
          return true;
        }
        i := i + 1;
      }
      assert elems[..i] == elems;
      return false;
    }

    /** Whether some element satisfies `pred`. */
    function Exists(pred: T -> bool): (r: bool)
      reads this
      ensures r <==> exists k :: 0 <= k < |elems| && pred(elems[k])
    {
      FirstMatch(elems, 0, |elems|, pred) != -1
    }

    /** The first element satisfying `pred`, or `default` (the source's `T()`) when none does. */
    method Find(pred: T -> bool, default: T) returns (r: T)
      ensures var m := FirstMatch(elems, 0, |elems|, pred);
              r == if m == -1 then default else elems[m]
    {
      var i := 0;
      while i < |elems|
        invariant 0 <= i <= |elems|
        invariant forall k :: 0 <= k < i ==> !pred(elems[k])
      {
        if pred(elems[i]) {
          return elems[i];
        }
        i := i + 1;
      }
      return default;
    }

    /** The last element satisfying `pred`, or `default` (the source's `T()`) when none does. */
    method FindLast(pred: T -> bool, default: T) returns (r: T)
      ensures var m := LastMatch(elems, 0, |elems|, pred);
              r == if m == -1 then default else elems[m]
    {
      r := default;
      var i := 0;
      while i < |elems|
        invariant 0 <= i <= |elems|
        invariant var m := LastMatch(elems, 0, i, pred);
                  r == if m == -1 then default else elems[m]
      {
        if pred(elems[i]) {
          r := elems[i];
        }
        i := i + 1;
      }
    }

    /** A new vector of the elements satisfying `pred`, in their order here. */
    method FindAll(pred: T -> bool) returns (r: Vector<T>)
      ensures fresh(r)
      ensures r.elems == Filter(elems, pred)
    {
      var results: seq<T> := [];
      var i := 0;
      while i < |elems|
        invariant 0 <= i <= |elems|
        invariant results == Filter(elems[..i], pred)
      {
        assert elems[..i + 1][..i] == elems[..i];
        if pred(elems[i]) {
          results := results + [elems[i]];
        }
        i := i + 1;
      }
      assert elems[..i] == elems;
      r := new Vector<T>.FromList(results);
    }

    /** Whether every element satisfies `pred`; true for an empty vector. */
    method TrueForAll(pred: T -> bool) returns (r: bool)
      ensures r <==> forall k :: 0 <= k < |elems| ==> pred(elems[k])
    {
      var i := 0;
      while i < |elems|
        invariant 0 <= i <= |elems|
        invariant forall k :: 0 <= k < i ==> pred(elems[k])
      {
        if !pred(elems[i]) {
          return false;
        }
        i := i + 1;
      }
      return true;
    }

    // ---------------------------------------------------------------------
    // Bounded searches for the first match

    /**
     * The first index in [start, end) holding `item`, where `end` is
     * `start + count` as an `unsigned int`; -1 when there is none, and
     * invalid_argument when `end` is past the size. The index is an
     * `unsigned int` returned as `int`, so one of 2^31 or more comes back
     * negative; it is never -1, because it lies below `end`.
     */
    method IndexOfRange(item: T, start: u32, count: u32) returns (r: Result<int>)
      ensures r.Err? <==> Wrap32(start + count) > |elems|
      ensures r.Err? ==> r.error == InvalidArgument
      ensures r.Ok? ==> r.value == Int32Of(FirstMatch(elems, start, Wrap32(start + count), Equals(item)))
      ensures r.Ok? ==> (r.value == -1 <==> forall k :: start <= k < Wrap32(start + count) ==> elems[k] != item)
    {
      var end := Wrap32(start + count);
      if end > |elems| {
        return Err(InvalidArgument);
      }
      var index: int := start;
      while index < end
        invariant start <= index && (index <= end || index == start)
        invariant forall k :: start <= k < index ==> elems[k] != item
      {
        if elems[index] == item {
          return Ok(Int32Of(index));
        }
        index := index + 1;
      }
      return Ok(-1);
    }

    /** The first index holding `item` among the first size-mod-2^32 positions, as an `int`, or -1. */
    method IndexOf(item: T) returns (r: int)
      ensures r == Int32Of(FirstMatch(elems, 0, Wrap32(|elems|), Equals(item)))
      ensures r == -1 <==> forall k :: 0 <= k < Wrap32(|elems|) ==> elems[k] != item
    {
      var res := IndexOfRange(item, 0, Wrap32(|elems|));
      r := res.value;
    }

    /**
     * The first index from `start` holding `item`, as an `int`, or -1. The
     * count `size - start` and the end `start + count` both wrap, so the end
     * is always the size and a `start` past the size finds nothing.
     */
    method IndexOfFrom(item: T, start: u32) returns (r: int)
      ensures r == Int32Of(FirstMatch(elems, start, Wrap32(|elems|), Equals(item)))
      ensures r == -1 <==> forall k :: start <= k < Wrap32(|elems|) ==> elems[k] != item
    {
      WrapAdd(start, |elems| - start);
      var res := IndexOfRange(item, start, Wrap32(|elems| - start));
      r := res.value;
    }

    /** The first index in [start, start + count) whose element satisfies `pred`, as IndexOfRange. */
    method FindIndexRange(pred: T -> bool, start: u32, count: u32) returns (r: Result<int>)
      ensures r.Err? <==> Wrap32(start + count) > |elems|
      ensures r.Err? ==> r.error == InvalidArgument
      ensures r.Ok? ==> r.value == Int32Of(FirstMatch(elems, start, Wrap32(start + count), pred))
      ensures r.Ok? ==> (r.value == -1 <==> forall k :: start <= k < Wrap32(start + count) ==> !pred(elems[k]))
    {
      var end := Wrap32(start + count);
      if end > |elems| {
        return Err(InvalidArgument);
      }
      var index: int := start;
      while index < end
        invariant start <= index && (index <= end || index == start)
        invariant forall k :: start <= k < index ==> !pred(elems[k])
      {
        if pred(elems[index]) {
          return Ok(Int32Of(index));
        }
        index := index + 1;
      }
      return Ok(-1);
    }

    /** The first index whose element satisfies `pred`, as an `int`, or -1. */
    method FindIndex(pred: T -> bool) returns (r: int)
      ensures r == Int32Of(FirstMatch(elems, 0, Wrap32(|elems|), pred))
      ensures r == -1 <==> forall k :: 0 <= k < Wrap32(|elems|) ==> !pred(elems[k])
    {
      var res := FindIndexRange(pred, 0, Wrap32(|elems|));
      r := res.value;
    }

    /** The first index from `start` whose element satisfies `pred`, as an `int`, or -1, as IndexOfFrom. */
    method FindIndexFrom(pred: T -> bool, start: u32) returns (r: int)
      ensures r == Int32Of(FirstMatch(elems, start, Wrap32(|elems|), pred))
      ensures r == -1 <==> forall k :: start <= k < Wrap32(|elems|) ==> !pred(elems[k])
    {
      WrapAdd(start, |elems| - start);
      var res := FindIndexRange(pred, start, Wrap32(|elems| - start));
      r := res.value;
    }

    // ---------------------------------------------------------------------
    // Bounded searches for the last match
    //
    // These count the positions they pass in an `int`, which must not
    // overflow: the scanned range is shorter than 2^31 positions.

    /**
     * The last match of `item` in [start, end), `end` being `start + count`
     * as an `unsigned int`, COUNTED FROM `start`; -1 when there is none,
     * invalid_argument when `end` is past the size. The scan stops when its
     * position equals `end`, so an `end` before `start` is excluded.
     */
    method LastIndexOfRange(item: T, start: u32, count: u32) returns (r: Result<int>)
      requires Wrap32(start + count) <= |elems| ==>
                 start <= Wrap32(start + count) && Wrap32(start + count) - start < 0x8000_0000
      ensures r.Err? <==> Wrap32(start + count) > |elems|
      ensures r.Err? ==> r.error == InvalidArgument
      ensures r.Ok? ==> r.value == RelativeTo(LastMatch(elems, start, Wrap32(start + count), Equals(item)), start)
    {
      var end := Wrap32(start + count);
      if end > |elems| {
        return Err(InvalidArgument);
      }
      var lastIndex: i32 := -1;
      var index: i32 := 0;
      var it: int := start;
      while it != end
        invariant start <= it <= end
        invariant index == it - start
        invariant lastIndex == RelativeTo(LastMatch(elems, start, it, Equals(item)), start)
      {
        if elems[it] == item {
          lastIndex := index;
        }
        it, index := it + 1, index + 1;
      }
      return Ok(lastIndex);
    }

    /** The last index holding `item` among the first size-mod-2^32 positions, or -1. */
    method LastIndexOf(item: T) returns (r: int)
      requires Wrap32(|elems|) < 0x8000_0000
      ensures r == LastMatch(elems, 0, Wrap32(|elems|), Equals(item))
    {
      var res := LastIndexOfRange(item, 0, Wrap32(|elems|));
      r := res.value;
    }

    /** The last index below `index` holding `item`, or -1; invalid_argument when `index` is past the size. */
    method LastIndexOfBefore(item: T, index: u32) returns (r: Result<int>)
      requires index <= |elems| ==> index < 0x8000_0000
      ensures r.Err? <==> index > |elems|
      ensures r.Err? ==> r.error == InvalidArgument
      ensures r.Ok? ==> r.value == LastMatch(elems, 0, index, Equals(item))
    {
      r := LastIndexOfRange(item, 0, index);
    }

    /** The last index whose element satisfies `pred`, or -1. */
    method FindLastIndex(pred: T -> bool) returns (r: int)
      requires |elems| < 0x8000_0000
      ensures r == LastMatch(elems, 0, |elems|, pred)
    {
      var index: i32 := 0;
      var lastIndex: i32 := -1;
      while index < |elems|
        invariant 0 <= index <= |elems|
        invariant lastIndex == LastMatch(elems, 0, index, pred)
      {
        if pred(elems[index]) {
          lastIndex := index;
        }
        index := index + 1;
      }
      return lastIndex;
    }

    /**
     * The last index below `end` whose element satisfies `pred`, or -1;
     * invalid_argument unless `end` is an index of an element (so the last
     * element is never searched).
     */
    method FindLastIndexBefore(end: u32, pred: T -> bool) returns (r: Result<int>)
      requires end < |elems| ==> end < 0x8000_0000
      ensures r.Err? <==> end >= |elems|
      ensures r.Err? ==> r.error == InvalidArgument
      ensures r.Ok? ==> r.value == LastMatch(elems, 0, end, pred)
    {
      if end >= |elems| {
        return Err(InvalidArgument);
      }
      var lastIndex: i32 := -1;
      var index: i32 := 0;
      while index != end
        invariant 0 <= index <= end
        invariant lastIndex == LastMatch(elems, 0, index, pred)
      {
        if pred(elems[index]) {
          lastIndex := index;
        }
        index := index + 1;
      }
      return Ok(lastIndex);
    }

    /**
     * The last match in [start, end) COUNTED FROM `start`, or -1;
     * invalid_argument when `start > end` or `end` is not an index of an element.
     */
    method FindLastIndexBetween(start: u32, end: u32, pred: T -> bool) returns (r: Result<int>)
      requires start <= end < |elems| ==> end - start < 0x8000_0000
      ensures r.Err? <==> start > end || end >= |elems|
      ensures r.Err? ==> r.error == InvalidArgument
      ensures r.Ok? ==> r.value == RelativeTo(LastMatch(elems, start, end, pred), start)
    {
      if start > end {
        return Err(InvalidArgument);
      } else if end >= |elems| {
        return Err(InvalidArgument);
      } else if start >= |elems| {
        return Err(InvalidArgument);
      }
      var lastIndex: i32 := -1;
      var index: i32 := 0;
      var it: int := start;
      while it != end
        invariant start <= it <= end
        invariant index == it - start
        invariant lastIndex == RelativeTo(LastMatch(elems, start, it, pred), start)
      {
        if pred(elems[it]) {
          lastIndex := index;
        }
        it, index := it + 1, index + 1;
      }
      return Ok(lastIndex);
    }

    // ---------------------------------------------------------------------
    // Bisection

    /**
     * The last position the bisection may probe: `start + count` (an
     * `unsigned int` sum, INCLUDED), or the last element when that reaches
     * past it; -1 for an empty vector.
     */
    ghost function SearchLast(start: u32, count: u32): (r: int)
      reads this
      ensures -1 <= r < |elems|
    {
      if Wrap32(start + count) >= |elems| then |elems| - 1 else Wrap32(start + count)
    }

    /**
     * What the bisection needs from its caller over the probed positions
     * lo..hi: `less` is a strict weak ordering, the positions are sorted,
     * and `pred` holds exactly of the elements neither below nor above `item`.
     * The source tests `item < at(middle)` and `item > at(middle)`; the second
     * is read as `less(elems[middle], item)`, that is, `>` is taken to be `<`
     * with its arguments swapped.
     */
    ghost predicate Bisectable(item: T, pred: T -> bool, less: (T, T) -> bool, lo: nat, hi: int)
      reads this
    {
      && StrictWeakOrder(less)
      && SortedWithin(elems, lo, hi, less)
      && forall k :: lo <= k <= hi && k < |elems| ==>
           (pred(elems[k]) <==> !less(item, elems[k]) && !less(elems[k], item))
    }

    /**
     * Bisection over positions start..SearchLast(start, count). A probe
     * whose element satisfies `pred` is the result; otherwise the search
     * continues below it when `item` is below the element and above it when
     * `item` is above. Below position 0 the unsigned `middle - 1` wraps and
     * the next probe is out of range; an empty vector is out of range at once.
     */
    method BinarySearchGeneric(item: T, pred: T -> bool, less: (T, T) -> bool, start: u32, count: u32)
      returns (r: Result<int>)
      requires |elems| < 0x8000_0000
      requires Bisectable(item, pred, less, start, SearchLast(start, count))
      ensures r.Err? <==> |elems| == 0 || (start == 0 && less(item, elems[0]))
      ensures r.Err? ==> r.error == OutOfRange
      ensures r.Ok? && r.value != -1 ==> start <= r.value <= SearchLast(start, count) && pred(elems[r.value])
      ensures r == Ok(-1) ==> forall k :: start <= k <= SearchLast(start, count) ==> !pred(elems[k])
    {
      ghost var last := SearchLast(start, count);
      var sum := Wrap32(start + count);
      var left: int := start;
      var right: int := if sum >= |elems| then Wrap32(|elems| - 1) else sum;
      ghost var below := |elems| > 0 && start == 0 && less(item, elems[0]);
      if below {
        AboveFrom(elems, 0, last, less, item, 0);
      }
      while left <= right
        invariant 0 <= start <= left && 0 <= right
        invariant right < |elems| ==> right <= last
        invariant right >= |elems| ==> right == U32Modulus - 1 && left <= right && (|elems| == 0 || (below && left == 0))
        invariant below ==> left == 0 && forall k :: 0 <= k <= last ==> !pred(elems[k])
        invariant forall k :: start <= k < left && k <= last ==> !pred(elems[k])
        invariant forall k :: right < k <= last ==> !pred(elems[k])
        decreases if right < |elems| then 1 else 0, right - left + 1
      {
        var middle := (right - left) / 2 + left;
        if middle >= |elems| {
          return Err(OutOfRange);
        }
        if pred(elems[middle]) {
          return Ok(middle);
        } else if less(item, elems[middle]) {
          AboveFrom(elems, start, last, less, item, middle);
          right := Wrap32(middle - 1);
        } else if less(elems[middle], item) {
          BelowUpTo(elems, start, last, less, item, middle);
          left := middle + 1;
        } else {
          assert false;
        }
      }
      return Ok(-1);
    }

    /**
     * Bisection for `item` over the whole (sorted, non-empty) vector with
     * `==` as the match: an index holding `item`, or -1 exactly when no
     * element equals it. An empty vector, or an `item` below the first
     * element, ends the program (an exception leaves a noexcept function),
     * so neither is allowed.
     */
    method BinarySearch(item: T, less: (T, T) -> bool) returns (r: int)
      requires 0 < |elems| < 0x8000_0000
      requires !less(item, elems[0])
      requires StrictWeakOrder(less) && SortedBy(elems, less)
      requires forall k :: 0 <= k < |elems| ==> (elems[k] == item <==> !less(item, elems[k]) && !less(elems[k], item))
      ensures r == -1 <==> item !in elems
      ensures r != -1 ==> 0 <= r < |elems| && elems[r] == item
    {
      var res := BinarySearchGeneric(item, Equals(item), less, 0, Wrap32(|elems| - 1));
      r := res.value;
    }

    /**
     * Bisection with a caller's match predicate, returning the found index
     * converted to bool, as written: a match at index 0 gives false and no
     * match (-1) gives true. Empty vectors and items below the first
     * element end the program, as for BinarySearch.
     */
    method BinarySearchWith(item: T, pred: T -> bool, less: (T, T) -> bool) returns (found: bool)
      requires 0 < |elems| < 0x8000_0000
      requires !less(item, elems[0])
      requires Bisectable(item, pred, less, 0, |elems| - 1)
      ensures (forall k :: 0 <= k < |elems| ==> !pred(elems[k])) ==> found
      ensures !found ==> pred(elems[0])
      ensures pred(elems[0]) && (forall k :: 0 < k < |elems| ==> !pred(elems[k])) ==> !found
    {
      var res := BinarySearchGeneric(item, pred, less, 0, Wrap32(|elems| - 1));
      found := res.value != 0;
    }

    /** The bisection result the predicate overloads evidently intend: whether a match exists. */
    method BinarySearchFound(item: T, pred: T -> bool, less: (T, T) -> bool) returns (found: bool)
      requires 0 < |elems| < 0x8000_0000
      requires !less(item, elems[0])
      requires Bisectable(item, pred, less, 0, |elems| - 1)
      ensures found <==> exists k :: 0 <= k < |elems| && pred(elems[k])
    {
      var res := BinarySearchGeneric(item, pred, less, 0, Wrap32(|elems| - 1));
      found := res.value != -1;
    }

    /**
     * Bisection over start..SearchLast(start, count) with the found index
     * converted to bool, as written. This overload is not noexcept, so the
     * out_of_range of an empty vector or of an item below the first
     * element reaches the caller.
     */
    method BinarySearchRange(item: T, start: u32, count: u32, pred: T -> bool, less: (T, T) -> bool)
      returns (r: Result<bool>)
      requires |elems| < 0x8000_0000
      requires Bisectable(item, pred, less, start, SearchLast(start, count))
      ensures r.Err? <==> |elems| == 0 || (start == 0 && less(item, elems[0]))
      ensures r.Err? ==> r.error == OutOfRange
      ensures r.Ok? && (forall k :: start <= k <= SearchLast(start, count) ==> !pred(elems[k])) ==> r.value
      ensures r.Ok? && !r.value ==> start == 0 && pred(elems[0])
    {
      var res := BinarySearchGeneric(item, pred, less, start, count);
      if res.Err? {
        return Err(res.error);
      }
      return Ok(res.value != 0);
    }

    /** The start/count bisection with the result the overload evidently intends: whether a match exists in its bounds. */
    method BinarySearchRangeFound(item: T, start: u32, count: u32, pred: T -> bool, less: (T, T) -> bool)
      returns (r: Result<bool>)
      requires |elems| < 0x8000_0000
      requires Bisectable(item, pred, less, start, SearchLast(start, count))
      ensures r.Err? <==> |elems| == 0 || (start == 0 && less(item, elems[0]))
      ensures r.Err? ==> r.error == OutOfRange
      ensures r.Ok? ==> (r.value <==> exists k :: start <= k <= SearchLast(start, count) && pred(elems[k]))
    {
      var res := BinarySearchGeneric(item, pred, less, start, count);
      if res.Err? {
        return Err(res.error);
      }
      return Ok(res.value != -1);
    }

    // ---------------------------------------------------------------------
    // Extraction and transforms

    /**
     * A new vector holding positions [start, end); invalid_argument unless
     * start < end and `end` is itself an index of an element, so the last
     * element can never be extracted.
     */
    method GetRange(start: nat, end: nat) returns (r: Result<Vector<T>>)
      ensures r.Err? <==> start >= |elems| || end >= |elems| || start >= end
      ensures r.Err? ==> r.error == InvalidArgument
      ensures r.Ok? ==> fresh(r.value) && r.value.elems == elems[start..end]
    {
      if start >= |elems| || end >= |elems| || start >= end {
        return Err(InvalidArgument);
      }
      var acc: seq<T> := [];
      var i := start;
      while i < end
        invariant start <= i <= end
        invariant acc == elems[start..i]
      {
        acc := acc + [elems[i]];
        i := i + 1;
      }
      var v := new Vector<T>.FromList(acc);
      return Ok(v);
    }

    /** A new vector holding `converter` applied to each element, in order. */
    method ConvertAll<U(==, !new)>(converter: T -> U) returns (r: Vector<U>)
      ensures fresh(r)
      ensures |r.elems| == |elems|
      ensures forall k :: 0 <= k < |elems| ==> r.elems[k] == converter(elems[k])
    {
      var converted: seq<U> := [];
      var i := 0;
      while i < |elems|
        invariant 0 <= i <= |elems|
        invariant |converted| == i
        invariant forall k :: 0 <= k < i ==> converted[k] == converter(elems[k])
      {
        converted := converted + [converter(elems[i])];
        i := i + 1;
      }
      r := new Vector<U>.FromList(converted);
    }

    /**
     * The 4-argument CopyTo as written: after the guard CopyRangeRejected,
     * copies `count` elements from position `index` into `target` from
     * `arrayIndex`. Both positions are `unsigned int` sums (At32), and the
     * copy reads and writes unchecked, so whenever the guard lets a copy
     * through the caller must keep every position it touches in bounds.
     */
    method CopyRangeTo(index: u32, target: array?<T>, arrayIndex: u32, count: u32) returns (o: Outcome)
      requires target != null && !CopyRangeRejected(|elems|, index, arrayIndex, count) ==>
                 forall k :: 0 <= k < count ==> At32(index, k) < |elems| && At32(arrayIndex, k) < target.Length
      modifies target
      ensures target == null ==> o == Fail(InvalidArgument)
      ensures target != null ==> (o.Fail? <==> CopyRangeRejected(|elems|, index, arrayIndex, count))
      ensures target != null && o.Fail? ==> o.error == OutOfRange && target[..] == old(target[..])
      ensures o.Done? ==> target != null && forall k :: 0 <= k < count ==> target[At32(arrayIndex, k)] == elems[At32(index, k)]
      ensures o.Done? ==> forall j :: 0 <= j < target.Length && !InWindow(j, arrayIndex, count) ==> target[j] == old(target[j])
    {
      if target == null {
        return Fail(InvalidArgument);
      } else if CopyRangeRejected(|elems|, index, arrayIndex, count) {
        return Fail(OutOfRange);
      }
      CopyElements(index, target, arrayIndex, count);
      return Done;
    }

    /**
     * The 4-argument CopyTo with the guard it evidently intends,
     * CopyRangeOutside: every position it reads is then inside the vector.
     */
    method CopyRangeToChecked(index: u32, target: array?<T>, arrayIndex: u32, count: u32) returns (o: Outcome)
      requires target != null ==> forall k :: 0 <= k < count ==> At32(arrayIndex, k) < target.Length
      modifies target
      ensures target == null ==> o == Fail(InvalidArgument)
      ensures target != null ==> (o.Fail? <==> !(index < |elems| && index + count <= |elems|))
      ensures target != null && o.Fail? ==> o.error == OutOfRange && target[..] == old(target[..])
      ensures o.Done? ==> target != null && forall k :: 0 <= k < count ==> target[At32(arrayIndex, k)] == elems[At32(index, k)]
      ensures o.Done? ==> forall j :: 0 <= j < target.Length && !InWindow(j, arrayIndex, count) ==> target[j] == old(target[j])
    {
      if target == null {
        return Fail(InvalidArgument);
      } else if CopyRangeOutside(|elems|, index, count) {
        return Fail(OutOfRange);
      }
      CopyElements(index, target, arrayIndex, count);
      return Done;
    }

    /**
     * The copying loop of the CopyTo overloads: its k-th step copies
     * position At32(index, k) of the vector to position At32(arrayIndex, k)
     * of the target.
     */
    method CopyElements(index: u32, target: array<T>, arrayIndex: u32, count: u32)
      requires forall k :: 0 <= k < count ==> At32(index, k) < |elems| && At32(arrayIndex, k) < target.Length
      modifies target
      ensures forall k :: 0 <= k < count ==> target[At32(arrayIndex, k)] == elems[At32(index, k)]
      ensures forall j :: 0 <= j < target.Length && !InWindow(j, arrayIndex, count) ==> target[j] == old(target[j])
    {
      var copied: u32 := 0;
      while copied < count
        invariant 0 <= copied <= count
        invariant forall k :: 0 <= k < copied ==> target[At32(arrayIndex, k)] == elems[At32(index, k)]
        invariant forall j :: 0 <= j < target.Length && !InWindow(j, arrayIndex, copied) ==> target[j] == old(target[j])
      {
        var p := At32(arrayIndex, copied);
        assert Wrap32(p - arrayIndex) == copied;
        target[p] := elems[At32(index, copied)];
        copied := copied + 1;
      }
    }

    /**
     * Copies the whole vector to the front of `target`, whose capacity the
     * caller gives as `size`; invalid_argument for a null target or one
     * smaller than the vector.
     */
    method CopyTo(target: array?<T>, size: u32) returns (o: Outcome)
      requires target != null ==> size <= target.Length
      modifies target
      ensures o.Fail? <==> target == null || size < |elems|
      ensures o.Fail? ==> o.error == InvalidArgument && (target != null ==> target[..] == old(target[..]))
      ensures o.Done? ==> target != null && target[..|elems|] == elems
      ensures o.Done? ==> target[|elems|..] == old(target[|elems|..])
    {
      if target == null {
        return Fail(InvalidArgument);
      } else if size < |elems| {
        return Fail(InvalidArgument);
      }
      CopyElements(0, target, 0, |elems|);
      assert forall k :: 0 <= k < |elems| ==> target[..|elems|][k] == target[At32(0, k)];
      assert forall j :: |elems| <= j < target.Length ==> !InWindow(j, 0, |elems|);
      return Done;
    }

    /**
     * Copies the whole vector into `target` from `arrayIndex`. The room
     * check `size - arrayIndex` is an `unsigned int` difference, so an
     * `arrayIndex` past `size` wraps and passes it; the target position is
     * an `unsigned int` that is incremented (At32), and the caller must keep
     * every position written inside `target`.
     */
    method CopyToAt(target: array?<T>, size: u32, arrayIndex: u32) returns (o: Outcome)
      requires target != null ==> size <= target.Length
      requires target != null && Wrap32(size - arrayIndex) >= |elems| ==>
                 forall k :: 0 <= k < |elems| ==> At32(arrayIndex, k) < target.Length
      modifies target
      ensures o.Fail? <==> target == null || Wrap32(size - arrayIndex) < |elems|
      ensures o.Fail? ==> o.error == InvalidArgument && (target != null ==> target[..] == old(target[..]))
      ensures o.Done? ==> target != null && forall k :: 0 <= k < |elems| ==> target[At32(arrayIndex, k)] == elems[k]
      ensures o.Done? ==> forall j :: 0 <= j < target.Length && !InWindow(j, arrayIndex, |elems|) ==> target[j] == old(target[j])
    {
      if target == null {
        return Fail(InvalidArgument);
      } else if Wrap32(size - arrayIndex) < |elems| {
        return Fail(InvalidArgument);
      }
      CopyElements(0, target, arrayIndex, |elems|);
      return Done;
    }
  }
}
