# small_vector, modelled in Dafny

This project models `mpc::small_vector<T, N>` from `src/small_vector.hpp`.
It is a vector that keeps up to `N` elements in an inline buffer. Once it
outgrows that buffer, it relocates them into a heap block.

The C++ state is a union of the heap pointer `m_data` and the inline bytes
`m_buff`, plus the two counters `m_alloc` and `m_size`. The model keeps the
same state in the class `SmallVectors.SmallVector<T>`:

- `buf` is an array of length `N` that stands for the inline buffer.
- `heap` is the heap block. The empty array stands for "no block owned".
- `alloc` is `m_alloc`. It is 0 while the inline buffer is active, and
  otherwise it is the size of the heap block.
- `size` is `m_size`.

The storage mode is derived, as in the source: `Active()` is `begin()` and
`Capacity()` is `capacity()`. `Valid()` is the representation invariant:

- `alloc == 0 || alloc > N`;
- the heap block has `alloc` slots;
- `size <= Capacity()`.

The ghost function `Elems()` is the live range `begin() .. end()`. Every
mutating method states its effect on `Elems()` and `alloc`, and on the
storage arrays it may replace.

Modules:

- `Outcomes` holds the `out_of_range` failure that `at`, `insert` and
  `erase` throw, modelled as a returned `Result`.
- `Growth` holds the growth policy of `ensure_capacity`, and a value model
  of a run of `push_back`s used for the inline-until-full and amortised-cost
  properties.
- `Sequences` holds the specification functions on element sequences:
  insertion, range erasure, resize and fill.
- `SmallVectors` holds the class and the array routines it runs on its
  active storage: shifting for insert and erase, the fill of resize, and the
  pairwise swap and relocation of the both-inline swap.
- `Scenarios` holds client methods that replay situations from
  `test/test_small_vector.cpp` and prove what those tests check.

## Model

| member | source | states |
|---|---|---|
| Growth.GrowthSuggestion | src/small_vector.hpp:438-440 | the suggested capacity exceeds a non-zero capacity and is at most double it; it is exactly double up to the 1024 threshold and half as much again, rounded down, above it |
| Growth.GrownCapacity | src/small_vector.hpp:434-444 | the grown capacity is at least the request and at least the old capacity; it is either the request or the growth suggestion; it at least doubles up to the 1024 threshold and grows by about half above it; it is never more than the larger of the request and twice the capacity |
| Growth.PushOnce | src/small_vector.hpp:190-198 | one push adds one element and keeps size within capacity; the capacity stays the same exactly when the vector was not full |
| Growth.PushMany | src/small_vector.hpp:190-198 | k pushes add k elements, keep size within capacity and never shrink capacity |
| Growth.PushManyLast | src/small_vector.hpp:190-198 | k + 1 pushes are k pushes followed by one more |
| Growth.PushesWithinCapacity | src/small_vector.hpp:434-435 | pushes that fit the current capacity change neither the capacity nor the relocation count |
| Growth.InlineUntilFull | test/test_small_vector.cpp:656-677 | from an empty vector, the first N pushes keep capacity N and any further push leaves capacity above N |
| Growth.PushOnceAmortised | src/small_vector.hpp:434-444 | one push preserves the amortisation invariant: elements relocated so far are at most 3 times the capacity and at most 4 times the size |
| Growth.PushManyAmortised | src/small_vector.hpp:434-444 | any number of pushes preserves the amortisation invariant |
| Growth.AmortisedPushes | src/small_vector.hpp:434-444 | k pushes into an empty vector relocate at most 4k elements in total |
| Sequences.Fill | src/small_vector.hpp:309-312 | k copies of a value, element by element |
| Sequences.Inserted | src/small_vector.hpp:420-428 | inserting at i: one element longer, the value at i, elements before i kept and elements from i shifted up by one |
| Sequences.Erased | src/small_vector.hpp:256-266 | erasing [first, last): shorter by the range length, the prefix kept and the suffix shifted down by the range length |
| Sequences.Resized | src/small_vector.hpp:296-314 | resizing to n: length n, the first min(n, size) elements kept and the rest equal to the fill value |
| Sequences.InsertAtEnd | src/small_vector.hpp:422-428 | inserting at the end appends |
| Sequences.EraseUndoesInsert | src/small_vector.hpp:240-243 | erasing the position just inserted at restores the original sequence |
| Sequences.EraseEmptyAndFull | src/small_vector.hpp:252-254 | an empty range erases nothing, and the full range erases everything |
| Sequences.ResizeGrowThenShrink | src/small_vector.hpp:296-314 | growing and then shrinking back to the old size restores the original sequence |
| SmallVectors.SmallVector.Capacity | src/small_vector.hpp:350 | under the invariant's storage rule, capacity() is at least N and equals N exactly when m_alloc is 0 |
| SmallVectors.SmallVector.Active | src/small_vector.hpp:326 | begin() has capacity() slots whenever the inline buffer has N slots and the heap block m_alloc |
| SmallVectors.SmallVector.constructor | src/small_vector.hpp:67 | the default vector is valid, empty and inline |
| SmallVectors.SmallVector.Sized | src/small_vector.hpp:70 | sz copies of the fill value; inline when sz fits N, otherwise a block of exactly sz slots |
| SmallVectors.SmallVector.FromList | src/small_vector.hpp:104-115 | the listed elements in order; inline when they fit N, otherwise a block of exactly their count |
| SmallVectors.SmallVector.CopyAsWritten | src/small_vector.hpp:73-83 | the copy takes the source's size and m_alloc; its own block has other.size slots, or none when that fits N; it satisfies the invariant exactly when the source is inline or its block is full, and then it holds the source's elements |
| SmallVectors.SmallVector.Copy | src/small_vector.hpp:73-81 | corrected copy: valid, holding the source's elements, inline when they fit N and otherwise in a block of exactly their count |
| SmallVectors.SmallVector.Move | src/small_vector.hpp:86-101 | the new vector holds the source's elements and m_alloc; a heap source hands over its block; the source ends valid, empty and inline, and the two share no storage |
| SmallVectors.SmallVector.TakeFrom | src/small_vector.hpp:146-159 | the shared move body: relocate inline elements or steal the heap block, then leave the source empty and inline |
| SmallVectors.SmallVector.ConstructFrom | src/small_vector.hpp:80 | the first other.size active slots receive the other vector's elements in order |
| SmallVectors.SmallVector.CopyAssignAsWritten | src/small_vector.hpp:126-139 | size and m_alloc become the source's; unless it is a self assignment, its own block has other.size slots, or none when that fits N; the result satisfies the invariant exactly when this is a self assignment, the source is inline or the source's block is full, and then it holds the source's elements |
| SmallVectors.SmallVector.CopyAssign | src/small_vector.hpp:126-136 | corrected copy assignment: valid and holding the source's elements; self assignment keeps m_alloc; otherwise inline when the elements fit N and a block of exactly their count when not |
| SmallVectors.SmallVector.MoveAssign | src/small_vector.hpp:142-161 | self move changes nothing; otherwise this vector takes the source's elements and m_alloc, a heap source hands over its block, and the source ends empty and inline |
| SmallVectors.SmallVector.At | src/small_vector.hpp:172-185 | succeeds exactly when ind < size, returning element ind; otherwise fails with out_of_range; nothing changes |
| SmallVectors.SmallVector.PushBack | src/small_vector.hpp:190-221 | the elements become the old ones plus x; m_alloc is unchanged when there was room, and otherwise becomes the grown capacity for size + 1 |
| SmallVectors.SmallVector.PopBack | src/small_vector.hpp:223-228 | drops the last element, or does nothing when empty; storage and m_alloc unchanged |
| SmallVectors.SmallVector.Insert | src/small_vector.hpp:408-432 | fails with out_of_range, changing nothing, exactly when offset < 0 or offset > size; otherwise inserts v at offset, returns offset, and grows as push_back does |
| SmallVectors.SmallVector.Erase | src/small_vector.hpp:243-269 | fails with out_of_range, changing nothing, exactly when first < 0, last > size or first > last; otherwise removes [first, last) and returns first; storage and m_alloc unchanged |
| SmallVectors.SmallVector.EraseAt | src/small_vector.hpp:240 | fails exactly when pos is not a live position; otherwise removes element pos and returns pos |
| SmallVectors.SmallVector.Reserve | src/small_vector.hpp:273-293 | nothing changes when m_alloc > inp or inp <= N; otherwise the elements move to a fresh block of exactly inp slots; the elements are preserved and capacity is at least inp either way |
| SmallVectors.SmallVector.EnsureCapacity | src/small_vector.hpp:434-444 | nothing changes when req fits the capacity; otherwise m_alloc becomes the grown capacity in a fresh block; the elements are preserved |
| SmallVectors.SmallVector.Resize | src/small_vector.hpp:296-314 | the elements become the resized sequence; shrinking keeps the storage, and growing reserves n |
| SmallVectors.SmallVector.ShrinkTo | src/small_vector.hpp:299-302 | destroying trailing elements down to n keeps the first n elements and the storage |
| SmallVectors.FillRange | src/small_vector.hpp:309-312 | slots from..to receive copies of the fill value and the slots before from are untouched |
| SmallVectors.SmallVector.Clear | src/small_vector.hpp:317-322 | empty afterwards, with storage and m_alloc unchanged |
| SmallVectors.SmallVector.NearlyDestroy | src/small_vector.hpp:452-459 | empty and inline afterwards, with any heap block released |
| SmallVectors.SmallVector.Swap | src/small_vector.hpp:365-399 | the two vectors exchange their element sequences and m_alloc values and stay valid; two distinct vectors still share no storage; swapping a vector with itself leaves its elements and m_alloc as they were |
| SmallVectors.SmallVector.SwapInline | src/small_vector.hpp:371-392 | two inline vectors, or one with itself, exchange their element sequences in their own buffers |
| SmallVectors.SwapPrefix | src/small_vector.hpp:376-378 | the first n slots of the two arrays are exchanged and the rest are untouched; an array swapped with itself is unchanged |
| SmallVectors.MoveRange | src/small_vector.hpp:380-390 | the slots from..to of the source are copied into the destination, and the slots before from are untouched |
| SmallVectors.InsertInto | src/small_vector.hpp:420-428 | the first n + 1 slots become the old first n with v inserted at offset |
| SmallVectors.EraseFrom | src/small_vector.hpp:256-266 | the first n - (last - first) slots become the old first n with [first, last) removed |
| SmallVectors.Swap | src/small_vector.hpp:464-467 | the free swap exchanges element sequences and m_alloc values, as the member swap does, including a vector swapped with itself |
| Scenarios.PushAll | test/test_small_vector.cpp:656-700 | pushing a sequence keeps it in order; m_alloc is 0 after exactly the first N pushes and above N after every later push |
| Scenarios.PushStep | test/test_small_vector.cpp:656-700 | one push appends the element, follows the push-sequence model's capacity, and leaves m_alloc 0 exactly while the pushes so far fit inline |
| Scenarios.InsertSequence | test/test_small_vector.cpp:419-430 | inserting 1 and 2 at the end, 0 at the front and 15 at offset 2 gives 0, 1, 15, 2 |
| Scenarios.InsertFrontAndMiddle | test/test_small_vector.cpp:424-430 | from 1, 2: inserting 0 at the front and 15 at offset 2 gives 0, 1, 15, 2 |
| Scenarios.EraseSequence | test/test_small_vector.cpp:432-441 | erasing positions 2 and 0 of 0, 1, 15, 2 gives 1, 2; two pops then leave size 0 |
| Scenarios.SwapMixed | test/test_small_vector.cpp:631-653 | swapping inline 1, 2, 3 with a heap vector holding 10 .. 19 exchanges the contents; the first vector ends on the heap and the second inline |
| Scenarios.SelfSwap | src/small_vector.hpp:464-467 | the free swap of a vector with itself leaves an inline {1, 2} inline and a heap-active {1, 2, 3} with its 3-slot block, elements unchanged |
| Scenarios.CopyOfPromotedVector | src/small_vector.hpp:73-83 | a copy of a 3-element vector promoted from N = 2 claims 4 slots but owns 3; after two pops, a copy claims 4 slots but owns none |

## Left out

- Exceptions are not modelled, as Dafny has none. This covers allocation failure in `::operator new`, element constructors that throw, the rollback loops (src/small_vector.hpp:19-35, 278-288) and `handle_exception`. So every operation is modelled on its success path, apart from the `out_of_range` cases, which are returned failures.
- The `printf` in `handle_exception` is I/O.
- The choice between moving and copying made by `std::move_if_noexcept` is not modelled. Elements are values, so a move and a copy give the same element.
- Raw-memory mechanics are not modelled: placement `new`, explicit destructor calls, the union and its `reinterpret_cast`, alignment and `::operator delete`. Slots beyond `size` are array slots whose contents are irrelevant. Releasing a heap block, and nulling `m_data`, are both modelled as replacing `heap` by an empty array.
- Moved-from elements are not modelled. For instance, inserting at the end of a non-empty vector moves the last element into the new slot and then overwrites that slot. With value semantics the result is the old sequence plus the value, which is what `Insert` states.
- Inserting into an empty vector assigns to a slot that was never constructed. With values this is harmless, so `Insert` treats it as any other insertion.
- Iterators are modelled as offsets from `begin()`, which is how `insert` and `erase` compute them. The iterator plumbing is left out: `rbegin`/`rend`/`cbegin`, `data()`, `front`, `back` and the unchecked `operator[]`. Reads of the live range are `Elems()`.
- The `const T&` overload of `insert` (src/small_vector.hpp:231-233) is left out. The model has a single value-taking `Insert`.
- `size_t` overflow is left out. Sizes and capacities are unbounded naturals, and `inp * sizeof(T)` in `reserve` is not modelled.
- `SmallVectors.SmallVector.Sized` takes the value to fill with as a parameter, because Dafny has no `T()`.
- SmallVectors.SmallVector.PushBack, SmallVectors.SmallVector.Resize, SmallVectors.SmallVector.Insert: an argument that refers into the vector itself, such as `v.push_back(v[0])` on a full vector, is not modelled. The source reads such an argument only after the reallocation in `reserve` (src/small_vector.hpp:289) has destroyed the old elements and freed their block, or, for `insert`, after the shift at lines 424-425 has moved it away, so it reads a destroyed element. The model takes the value as it was at the call.
- `SmallVectors.SmallVector.Swap` and the free `SmallVectors.Swap` accept a vector swapped with itself, but two distinct vectors must not share storage. Aliasing between distinct vectors cannot arise in the source, since each owns its buffer and block.
- The destructor (src/small_vector.hpp:118-121) is not modelled, because Dafny has no destruction. `NearlyDestroy` is its in-place counterpart.
- `src/smallVector.hpp` is not part of this model. It is an older variant with the same include guard, and the tests do not use it.
- Copying takes the source's `m_alloc` instead of the capacity the copy's own `reserve` chose (see Findings).
- `reserve(n)` with `m_alloc == n` moves the elements into a fresh block of the same size, because the early return tests `m_alloc > inp` (src/small_vector.hpp:274). The model does the same.

## Findings

| source | as written | input that shows it | evidently intended | confidence | as-written member | corrected member |
|---|---|---|---|---|---|---|
| src/small_vector.hpp:82 | the copy constructor ends with `m_alloc = other.m_alloc`, after `reserve(other.m_size)` chose the copy's own storage | N = 2, push 1, 2, 3 (m_alloc 4, size 3), then copy: the copy owns a 3-slot block but claims capacity 4; pop twice and copy again: the copy's element sits inline but m_alloc claims a 4-slot heap block | keep the storage chosen by `reserve`: inline when the size fits N, otherwise a block of exactly other.size slots | not executed | SmallVectors.SmallVector.CopyAsWritten, Scenarios.CopyOfPromotedVector | SmallVectors.SmallVector.Copy |
| src/small_vector.hpp:137 | copy assignment ends with `m_alloc = other.m_alloc` in the same way | the same source as above, assigned to an empty vector of the same N | as for the copy constructor | not executed | SmallVectors.SmallVector.CopyAssignAsWritten | SmallVectors.SmallVector.CopyAssign |
