# Cx::Vector in Dafny

A model of `Cx::Vector<T>` (Source/Vector.hpp), a subclass of `std::vector<T>`
that adds a List-style API: bulk insertion (`AddRange`, `InsertRange`), removal
(`Remove`, `RemoveAt`, `RemoveRange`, `RemoveAll`), in-place reordering
(`Reverse`, `Sort`, whole and ranged), bounded searches for the first and the last
match (`IndexOf`, `FindIndex`, `LastIndexOf`, `FindLastIndex`), bisection
(`BinarySearch`), predicate queries (`Contains`, `Exists`, `Find`, `FindLast`,
`FindAll`, `TrueForAll`), and extraction (`GetRange`, `ConvertAll`, `ForEach`,
`CopyTo`).

Files:

- `outcomes.dfy`: module `Outcomes`. It defines the exceptions the container
  throws (`InvalidArgument`, `OutOfRange`, and `GenericException` for the
  sliced `std::exception` rethrown by the ranged sorts). It also defines
  `Result`/`Outcome` for "returns a value or throws", and the `unsigned int`
  arithmetic (`u32`, `Wrap32`).
- `sequences.dfy`: module `Sequences`. Specification functions over the
  contents: `FirstMatch` and `LastMatch` (the least and greatest matching
  index in a range, or -1), `RelativeTo` (an offset counted from a start),
  `Filter` and `Reversed`, with their lemmas.
- `ordering.dfy`: module `Ordering`. Strict weak orderings (the requirement
  `std::sort` and the bisection place on `<` or on a comparer), sortedness,
  and an insertion sort `SortSeq` that specifies what `std::sort` produces.
  It also holds the two lemmas that justify each bisection step.
- `vector.dfy`: module `CxVector`. The class `Vector<T>`, whose field `elems`
  is the vector's contents. Each mutating operation is a method with
  `modifies this` that reassigns `elems`. The `const` queries change nothing:
  `Exists` is a function, and the others are methods without a `modifies`
  clause. The searches are proved equal to the specification functions
  `FirstMatch`/`LastMatch`; `Contains` and `TrueForAll` are proved against
  the quantified property they decide. Comparers
  and predicates are function values. The overloads that use the element
  type's own `<` take it as an explicit `less` parameter.

Errors follow the code:

- A method that throws returns `Fail(e)`/`Err(e)` and leaves `elems`
  unchanged.
- Undefined behaviour and `noexcept` terminations become preconditions.

The index parameters fall into two groups:

- Where the wrap-around of `unsigned int` changes what the code does, the
  parameter is a `u32` and the wrap is written out. This covers the search
  helpers, the `CopyTo` guards and the bisection.
  - `IndexOf(item, start)` passes the count `size - start`. It therefore never
    throws: `start + (size - start)` wraps back to `size` modulo 2^32.
  - The bisection's `middle - 1` wraps when `middle` is 0.
  - `IndexOf` and `FindIndex` return their `unsigned int` loop index as an
    `int` (`Int32Of`), so an index of 2^31 or more comes back negative.
  - `LastIndexOf` and `FindLastIndex` count positions in an `int`, whose
    overflow is undefined behaviour; their preconditions keep the scanned
    range below 2^31 positions, and the counter is an `i32` in the model.
  - `CopyTo` computes the positions it reads and writes as `unsigned int`
    sums (`At32`), so they wrap past 2^32 - 1.
  - `Reverse()` swaps `size / 2` converted to `int` pairs (`ReverseSwapCount`),
    and `InsertRange` from a container passes its size as an `unsigned int`.
  - The ranged `Sort` takes `unsigned int` positions. Its copying loop would
    wrap and never end for `end` = 2^32 - 1 on 2^32 or more elements; a
    precondition excludes that case.
- The other mutators take unbounded naturals. `RemoveRange` and
  `ReverseRange` therefore do not wrap `start + count` (see "Left out").

Quirks of the code that the model keeps as written:

- The ranged `Sort` includes `end`.
- The bisection over `start` and `count` includes position `start + count`
  itself (when it is inside the vector), so it may probe `count + 1` positions.
- `Reverse(start, count)` rejects a range that ends at the last element.
- `GetRange(start, end)` requires `end < size` although `end` is excluded.
- `LastIndexOf(item, index, count)` and `FindLastIndex(start, end, pred)`
  return an offset from `start`.
- The third check of `FindLastIndex(start, end, pred)` can never fire.

## Model

| member | source | states |
|---|---|---|
| `Outcomes.Wrap32` | Source/Vector.hpp:509 | `unsigned int` conversion: identity on [0, 2^32), +2^32 one turn below, -2^32 one turn above |
| `Outcomes.Int32Of` | Source/Vector.hpp:532 | an `unsigned int` returned as `int`: unchanged below 2^31, 2^32 less from 2^31 up, always within the `int` range |
| `Outcomes.WrapAdd` | Source/Vector.hpp:297 | adding a wrapped value wraps like adding the value, so `start + (size - start)` is `size` mod 2^32 |
| `Sequences.FirstMatch` | Source/Vector.hpp:525-534 | the result is -1 or a matching index in [lo, hi); -1 only when nothing in the range matches; nothing before the result matches |
| `Sequences.LastMatch` | Source/Vector.hpp:537-547 | the result is -1 or a matching index in [lo, hi); -1 only when nothing in the range matches; nothing after the result matches |
| `Sequences.FilterAppend` | Source/Vector.hpp:493-500 | filtering a concatenation is the concatenation of the filtered parts (order is kept) |
| `Sequences.FilterMembers` | Source/Vector.hpp:493-500 | a value is in the filter exactly when it is in the input and satisfies the predicate |
| `Sequences.FilterPartition` | Source/Vector.hpp:226-229 | what FindAll keeps and what RemoveAll keeps together are the old contents: the multisets add up and so do the lengths |
| `Sequences.FilterExtremes` | Source/Vector.hpp:226-229 | a predicate that every element meets leaves the contents as they were; one that no element meets leaves nothing |
| `Sequences.ReversedTwice` | Source/Vector.hpp:340-345 | reversing twice restores the original contents |
| `Ordering.InsertSorted` | Source/Vector.hpp:87-94 | inserting into a sequence adds exactly that element: multiset and length grow by one |
| `Ordering.InsertSortedKeepsOrder` | Source/Vector.hpp:87-94 | under a strict weak ordering, inserting into a sorted sequence keeps it sorted |
| `Ordering.SortSeq` | Source/Vector.hpp:87-94 | the sorted result is a permutation of the input |
| `Ordering.SortSeqSorted` | Source/Vector.hpp:120-127 | under a strict weak ordering the result of SortSeq is sorted |
| `Ordering.AboveFrom` | Source/Vector.hpp:516-517 | in a sorted range, if the item is below the middle element it is below every later element, so the upper part can be dropped |
| `Ordering.BelowUpTo` | Source/Vector.hpp:518-519 | in a sorted range, if the item is above the middle element it is above every earlier element, so the lower part can be dropped |
| `CxVector.CopyRangeRejected` | Source/Vector.hpp:175 | the guard as written: refuses exactly when index >= size or size - index exceeds count - arrayIndex taken modulo 2^32, that is, 2^32 more than the plain difference when arrayIndex > count |
| `CxVector.At32` | Source/Vector.hpp:178 | the `unsigned int` position base + k: the sum itself below 2^32, 2^32 less one turn above, and never more than the sum |
| `CxVector.ReverseSwapCount` | Source/Vector.hpp:342 | the pairs `Reverse()` swaps, `size / 2` as an `int`: exactly size / 2 below 2^32 elements, none from 2^32 up to 2^33 - 1, never more than size / 2 |
| `CxVector.CopyRangeOutside` | Source/Vector.hpp:175-176 | corrected guard of the 4-argument CopyTo: a range is refused exactly when it does not lie inside the vector |
| `CxVector.CopyRangeGuardMisfires` | Source/Vector.hpp:175-176 | on a five-element vector the guard as written refuses a valid 1-element copy and admits a 9-element overrun |
| `CxVector.Vector.constructor` | Source/Vector.hpp:18-19 | a new vector is empty |
| `CxVector.Vector.FromList` | Source/Vector.hpp:21-22 | a vector built from an initializer list holds exactly that list |
| `CxVector.Vector.AddRange` | Source/Vector.hpp:29-33 | the new contents are the old contents followed by the list, in order |
| `CxVector.Vector.AddRangeBuffer` | Source/Vector.hpp:40-45 | the first `size` buffer elements are appended in order; a null buffer changes nothing |
| `CxVector.Vector.AddRangeFrom` | Source/Vector.hpp:51-55 | the other vector's contents are appended in order |
| `CxVector.Vector.InsertRange` | Source/Vector.hpp:395-403 | invalid_argument, with nothing changed, exactly when the buffer is null or the index is past the end; otherwise the result is old[..index] + range[..n] + old[index..] |
| `CxVector.Vector.InsertRangeFrom` | Source/Vector.hpp:405-412 | as InsertRange with the first size-mod-2^32 elements of the other container, which is all of them when it holds fewer than 2^32 |
| `CxVector.Vector.Remove` | Source/Vector.hpp:259-263 | the first occurrence of the item is cut out; the multiset loses exactly one copy of the item |
| `CxVector.Vector.RemoveRange` | Source/Vector.hpp:276-281 | invalid_argument, with nothing changed, exactly when start + count > size; otherwise old[..start] + old[start+count..] |
| `CxVector.Vector.RemoveAt` | Source/Vector.hpp:478-483 | invalid_argument, with nothing changed, exactly when index >= size; otherwise old[..index] + old[index+1..], one element shorter |
| `CxVector.Vector.RemoveAll` | Source/Vector.hpp:226-229 | the result keeps, in order, exactly the elements that fail the predicate |
| `CxVector.Vector.Sort` | Source/Vector.hpp:120-127 | the result is sorted by the comparer and a permutation of the old contents |
| `CxVector.Vector.SortRange` | Source/Vector.hpp:135-148 | for an end other than 2^32 - 1 on 2^32 or more elements: throws exactly when begin > end (plain exception) or end >= size (out_of_range), changing nothing; otherwise positions begin..end, end included, are replaced by a sorted permutation of themselves and nothing else changes |
| `CxVector.Vector.CopyOut` | Source/Vector.hpp:138-139 | for an end other than 2^32 - 1 on 2^32 or more elements: out_of_range exactly when begin <= end and end is past the last element; otherwise a copy of positions begin..end, end included (empty when begin > end) |
| `CxVector.Vector.WriteBack` | Source/Vector.hpp:143-145 | the sorted copy replaces the positions from begin onwards, and nothing else changes |
| `CxVector.Vector.Reverse` | Source/Vector.hpp:340-345 | the length is kept; the first and the last ReverseSwapCount positions are mirrored and the middle is unchanged; below 2^32 elements the new contents are the old contents reversed |
| `CxVector.Vector.ReverseRange` | Source/Vector.hpp:347-353 | invalid_argument, with nothing changed, exactly when start + count >= size; otherwise [start, start+count) is mirrored in place and every other position is unchanged |
| `CxVector.Vector.ForEach` | Source/Vector.hpp:486-490 | every element is replaced by the action's result on it; the length is kept |
| `CxVector.Vector.Contains` | Source/Vector.hpp:74-80 | true exactly when some element equals the item |
| `CxVector.Vector.Exists` | Source/Vector.hpp:157-160 | true exactly when some element satisfies the predicate |
| `CxVector.Vector.Find` | Source/Vector.hpp:214-223 | the first element that satisfies the predicate, or the default value when none does |
| `CxVector.Vector.FindLast` | Source/Vector.hpp:266-273 | the last element that satisfies the predicate, or the default value when none does |
| `CxVector.Vector.FindAll` | Source/Vector.hpp:493-500 | a new vector holding, in order, exactly the elements that satisfy the predicate |
| `CxVector.Vector.TrueForAll` | Source/Vector.hpp:232-240 | true exactly when every element satisfies the predicate |
| `CxVector.Vector.IndexOfRange` | Source/Vector.hpp:302-309 | invalid_argument exactly when the wrapped start + count exceeds the size; otherwise the least index in [start, start+count) holding the item, converted to `int`, or -1; -1 exactly when nothing in the range holds the item |
| `CxVector.Vector.IndexOf` | Source/Vector.hpp:284-291 | the least index holding the item, converted to `int`, or -1; -1 exactly when no element among the first size-mod-2^32 holds it |
| `CxVector.Vector.IndexOfFrom` | Source/Vector.hpp:293-300 | the least index at or after start holding the item, converted to `int`, or -1 exactly when there is none; never throws |
| `CxVector.Vector.FindIndexRange` | Source/Vector.hpp:330-337 | invalid_argument exactly when the wrapped start + count exceeds the size; otherwise the least index in [start, start+count) that satisfies the predicate, converted to `int`, or -1; -1 exactly when nothing in the range satisfies it |
| `CxVector.Vector.FindIndex` | Source/Vector.hpp:312-319 | the least index that satisfies the predicate, converted to `int`, or -1 exactly when there is none |
| `CxVector.Vector.FindIndexFrom` | Source/Vector.hpp:321-328 | the least index at or after start that satisfies the predicate, converted to `int`, or -1 exactly when there is none; never throws |
| `CxVector.Vector.LastIndexOfRange` | Source/Vector.hpp:463-466 | for a range shorter than 2^31 positions: invalid_argument exactly when the wrapped index + count exceeds the size; otherwise the greatest match in [index, index+count), counted from index, or -1 |
| `CxVector.Vector.LastIndexOf` | Source/Vector.hpp:453-456 | for fewer than 2^31 searched positions: the greatest index holding the item, or -1 |
| `CxVector.Vector.LastIndexOfBefore` | Source/Vector.hpp:458-461 | invalid_argument exactly when index > size; otherwise (index below 2^31) the greatest index below index holding the item, or -1 |
| `CxVector.Vector.FindLastIndex` | Source/Vector.hpp:356-364 | for fewer than 2^31 elements: the greatest index that satisfies the predicate, or -1 |
| `CxVector.Vector.FindLastIndexBefore` | Source/Vector.hpp:366-376 | invalid_argument exactly when end >= size; otherwise (end below 2^31) the greatest index below end that satisfies the predicate, or -1 |
| `CxVector.Vector.FindLastIndexBetween` | Source/Vector.hpp:378-392 | invalid_argument exactly when start > end or end >= size; otherwise (a range shorter than 2^31) the greatest match in [start, end), counted from start, or -1 |
| `CxVector.Vector.SearchLast` | Source/Vector.hpp:509 | the bisection's upper bound is -1 (empty) or a valid index |
| `CxVector.Vector.BinarySearchGeneric` | Source/Vector.hpp:505-522 | out_of_range exactly when the vector is empty or the search starts at 0 with the item below the first element; otherwise a matching index within the searched bounds, or -1 only when nothing there matches |
| `CxVector.Vector.BinarySearch` | Source/Vector.hpp:243-246 | on a sorted non-empty vector whose first element is not above the item: -1 exactly when the item is absent, otherwise an index holding it |
| `CxVector.Vector.BinarySearchWith` | Source/Vector.hpp:248-251 | as written: true when nothing matches, false only when element 0 matches, and false when element 0 is the only match |
| `CxVector.Vector.BinarySearchFound` | Source/Vector.hpp:248-251 | corrected: true exactly when some element matches |
| `CxVector.Vector.BinarySearchRange` | Source/Vector.hpp:253-256 | out_of_range as BinarySearchGeneric; otherwise true when nothing in the bounds matches, and false only for a match at index 0 |
| `CxVector.Vector.BinarySearchRangeFound` | Source/Vector.hpp:253-256 | corrected: out_of_range as BinarySearchGeneric; otherwise true exactly when some element in the bounds matches |
| `CxVector.Vector.GetRange` | Source/Vector.hpp:442-450 | invalid_argument exactly unless start < end < size; otherwise a new vector equal to old[start..end) |
| `CxVector.Vector.ConvertAll` | Source/Vector.hpp:469-475 | a new vector of the same length holding the converter's result on each element |
| `CxVector.Vector.CopyRangeTo` | Source/Vector.hpp:171-179 | as written: invalid_argument for a null target; out_of_range, with the target unchanged, exactly when the wrapped guard refuses; otherwise the k-th wrapped target position after arrayIndex holds the k-th wrapped element after index, for every k < count, and every target position outside that window is unchanged |
| `CxVector.Vector.CopyRangeToChecked` | Source/Vector.hpp:171-179 | corrected: out_of_range exactly when [index, index+count) is not inside the vector; otherwise the same copy, reading only inside the vector |
| `CxVector.Vector.CopyElements` | Source/Vector.hpp:177-178 | the copying loop: for every k < count, target position arrayIndex + k (mod 2^32) receives element index + k (mod 2^32); every target position outside that window is unchanged |
| `CxVector.Vector.CopyTo` | Source/Vector.hpp:186-194 | invalid_argument, with nothing changed, exactly when the target is null or smaller than the vector; otherwise the target starts with the contents and the rest is unchanged |
| `CxVector.Vector.CopyToAt` | Source/Vector.hpp:202-210 | invalid_argument, with nothing changed, exactly when the target is null or the wrapped `size - arrayIndex` is below the vector's size; otherwise element k lands at target position arrayIndex + k (mod 2^32) and every other target position is unchanged |

## Left out

- The `predicate == nullptr` checks of `Find` and `TrueForAll` (Source/Vector.hpp:216, 234) are not modelled: a Dafny function value cannot be null.
- The rvalue overloads of `AddRange` and `InsertRange` (Source/Vector.hpp:61-65, 414-439) are not modelled separately: they behave as the copying overloads do.
- CxVector.Vector.InsertRangeFrom: `InsertRange` from a container passes `data()`, which the standard allows to be null for an empty container. The resulting invalid_argument is not modelled; `InsertRangeFrom` always passes a non-null buffer.
- `std::sort`, `std::find`, `std::remove_if` and the growth of `std::vector` are library code. They are specified by their results: a sorted permutation (an insertion sort, `SortSeq`), the first match, and an order-keeping filter.
- CxVector.Vector.Sort is specified as a sorted permutation, not as the exact arrangement `std::sort` gives to equivalent elements, which the standard leaves open.
- CxVector.Vector.SortRange follows the same convention: it promises a sorted permutation of positions begin..end, not a particular arrangement of equivalent elements.
- CxVector.Vector.RemoveRange does not model the 32-bit wrap of `start + count` (Source/Vector.hpp:278); the sum is unbounded here.
- CxVector.Vector.ReverseRange does not model the 32-bit wrap of `start + count` (Source/Vector.hpp:349); the sum is unbounded here.
- CxVector.Vector.SortRange and `CopyOut` require that `end` is not 2^32 - 1 when the vector holds 2^32 or more elements. There the `unsigned int` loop `i <= end` (Source/Vector.hpp:104, 138) is always true, `i` wraps to 0 and `at` never throws, so the loop runs until allocation fails; a run that never returns has no `Outcome`, and allocation failure is not modelled.
- CxVector.Vector.InsertRangeFrom, `InsertRange` and `AddRangeBuffer` do not model a source buffer that points into the vector's own storage, as `v.InsertRange(0, v)` does. Inserting or appending may reallocate or shift that storage while it is read (Source/Vector.hpp:42-44, 400-402), which is undefined behaviour; the model reads the source as the values it held before the call.
- CxVector.Vector.ForEach models the action, which mutates each element through a reference, as a function from the old element to the new one.
- CxVector.Vector.CopyRangeTo requires that every wrapped position an admitted copy touches is inside the vector and the target. The source reads and writes unchecked there, which is undefined behaviour.
- CxVector.Vector.CopyToAt requires that every wrapped position written by a copy admitted through the wrapped room check is inside the target.
- The model does not capture a target array that aliases the vector's own storage.
- CxVector.Vector.BinarySearchGeneric requires fewer than 2^31 elements, so an index converts to `int` unchanged.
- CxVector.Vector.BinarySearchGeneric reads the source's `item > at(middle)` as `less(elems[middle], item)`: the element type's `>` is taken to be its `<` with the arguments swapped.
- CxVector.Vector.BinarySearchGeneric also requires that the match predicate holds exactly of the elements neither below nor above the item. One direction (an element equivalent to the item matches) is what the loop needs to make progress: otherwise it can spin forever with neither bound moving (Source/Vector.hpp:514-519). The other direction (a match is equivalent to the item) is what lets -1 mean that nothing in the bounds matches, since a match that is below or above the item may be skipped.
- CxVector.Vector.BinarySearch and `BinarySearchWith` exclude an empty vector and an item below the first element. In the source, both make `at` throw inside a `noexcept` function, which ends the program.
- CxVector.Vector.LastIndexOfRange requires that the wrapped end is not before `start`; otherwise the iterator loop runs past the end (undefined behaviour).
- LastIndexOfRange, LastIndexOf and LastIndexOfBefore require the scanned range to be shorter than 2^31 positions: the source counts positions in an `int` (Source/Vector.hpp:542-545), whose overflow is undefined behaviour.
- FindLastIndex, FindLastIndexBefore and FindLastIndexBetween require the same for the same reason (Source/Vector.hpp:358-362, 371-374, 387-390).
- IndexOfRange, IndexOf, IndexOfFrom, FindIndexRange, FindIndex and FindIndexFrom convert the found `unsigned int` index to `int` modulo 2^32, as C++20 defines it; earlier standards leave that conversion implementation-defined.
- Element types are restricted to values (`T(==, !new)`): a vector of class references is not modelled. The element type's `operator==` is taken to be Dafny value equality; a user-defined `operator==` that compares only some fields is not modelled.
- CxVector.Vector.Remove requires the item to be present; erasing the end iterator is undefined behaviour.
- CxVector.Vector.AddRangeFrom requires the other vector to be a different object; appending a vector to itself while iterating it invalidates the iterators.
- Allocation failure (`std::bad_alloc` from `push_back` or `insert`) is not modelled.
- The demo programs under Examples/ and the test harnesses are not part of this model.

## Findings

| source | as written | input that shows it | evidently intended | confidence | as-written member | corrected member |
|---|---|---|---|---|---|---|
| Source/Vector.hpp:175-176 | `(size - index) > (count - arrayIndex)`, where `count - arrayIndex` is an `unsigned int` difference | size 5, index 0, arrayIndex 0: count 1 is refused with out_of_range; count 9 is let through and reads 4 elements past the end | refuse exactly when `index >= size` or `index + count > size` | high; not executed | `CxVector.CopyRangeGuardMisfires` | `CxVector.Vector.CopyRangeToChecked` |
| Source/Vector.hpp:248-251 | the found `int` index is returned as `bool` | a match at index 0 gives false; no match (-1) gives true | true exactly when a match exists | high; not executed | `CxVector.Vector.BinarySearchWith` | `CxVector.Vector.BinarySearchFound` |
| Source/Vector.hpp:253-256 | the found `int` index is returned as `bool` | start 0 with a match at index 0 gives false; no match (-1) gives true | true exactly when a match exists in the bounds | high; not executed | `CxVector.Vector.BinarySearchRange` | `CxVector.Vector.BinarySearchRangeFound` |
