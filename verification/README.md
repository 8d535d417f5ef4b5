# IndexArray: a verified model of a sparse, slot-reusing value container

This project models the sparse value container `IndexArray` of a small C collections library
and the parts of the library's generic growable buffer (`collection`) and iterators that it
relies on. Values are fixed-size byte records (the *stride*) stored inline in consecutive slots.
A slot counts as empty exactly when all of its bytes are zero; there is no occupancy flag.
`add` returns the slot's index as a *handle*. It reuses empty slots by scanning circularly from
a rolling hint (`next_slot`), and grows the buffer only when no slot is empty. A separate
sparse iterator walks the occupied slots through a small capability table.

Layout of the model:

- `wrappers.dfy` (`Wrappers`): `Option`, `Result`, the `OK`/`ERR` status and the handle bounds.
- `slots.dfy` (`Slots`): a slot is a `seq<bv8>`. It holds the byte-wise emptiness test
  `is_slot_empty` as a loop proved equal to the predicate `AllZero`, and `zero_slot` over a
  range of slots of an `array`.
- `collections.dfy` (`Collections`): the `Collection` class with its bucket (`array<Slot>`),
  logical length, stride, ownership flag and storage tag. It has `collection_new`,
  `collection_grow`, `add`, `remove`, `clear`, `set_data` and the accessors. It also holds the
  dense iterator class (`collection_create_iterator`, `iter_next`, `iter_current`,
  `iter_reset`). Value-level definitions
  (`NewCapacity`, `IndexOf`, `RemovedAt`) give the meaning of growth and of removal.
- `sparse_model.dfy` (`SparseModel`): the reference definitions for the container, over the
  sequence of slots. It covers the circular scan (`ScanFrom`), the complete outcome of one `add`
  (`AddOutcome`), and the iterator's cursor step (`Step`, `Seek`, `Trace`). It also has the
  packing done by `from_farray` (`NonEmpty`, `Packed`). The properties of the container are
  lemmas about these functions: round trip, handles surviving growth, reuse before growth, and
  iteration order.
- `indexarray.dfy` (`IndexArrays`): the `IndexArray` class (a collection plus the hint) with
  `new`, `add`, `get_at`, `remove_at`, `is_empty_slot`, `capacity`, `stride`, `clear`,
  `from_buffer` and `from_farray`. `Add`, `GetAt`, `IsEmptySlot` and `FromFArray` are proved
  against the functions of `SparseModel`; the others state their results over the slots
  directly (`Contents()`, `Zeros`).
- `sparse_iterator.dfy` (`SparseIterators`): the capability table `sc_sparse_i`, the
  `SparseIterator` class, `sparse_iterator_new` and `indexarray_create_iterator`.
- `scenarios.dfy` (`Scenarios`): the unit tests' sequences of calls, replayed on the classes.
  Each returns what the test observes, and its `ensures` states the expected values. It covers
  slot reuse, growth from 3 to 6 slots, the view over a caller's buffer, packing from a dense
  source and the iterator tests' `while (next)` loops. Four scenarios are not taken from a
  test: `IterateView` iterates the `from_buffer` view with the iterator tests' loop,
  `RemoveAfterGrowth` continues the growth test with a removal and an add, `AddressNotContents`
  shows the storage of a tag-'P' collection, and `DenseWalk` is the usual
  `iter_next`/`iter_current` loop over a collection.

Allocation failure is the parameter `allocFails` of each operation that allocates. When it is
true, that allocation returns NULL.

Three consequences of the code are worth stating, because they are easy to get wrong:

- After growth, the value is written at half the new capacity (src/indexarray.c:144-153). From a
  non-zero capacity that is the old capacity. From capacity 0 the buffer becomes 8 slots and the
  handle is 4 (`SparseModel.AddToEmptyBuffer`). Slots 0..3 of that new buffer are never zeroed,
  so the model leaves them unconstrained.
- After growing 3 → 6 and removing handle 1, the next add returns 4, not 1. The hint is 4 at
  that point and slot 4 is empty (`Scenarios.RemoveAfterGrowth`). "Remove, then add, returns the
  same handle" holds when the removed slot is the only empty one
  (`SparseModel.RemoveThenAddReuses`, `Scenarios.SlotReuse`).
- On a collection made by `collection_new` (tag 'P'), `collection_add` stores the item's address
  (src/collections.c:225-228), while `collection_remove` compares slot contents with the item's
  bytes (src/collections.c:242-248). So removing an item just added does not find it
  (`Scenarios.AddressNotContents`). `Collections.RemoveUndoesAdd` holds of `add` followed by
  `remove` only on a view (tag 'F'), where the stored element is the item itself.

## Model

| member | source | states |
|---|---|---|
| Slots.IsSlotEmpty | src/indexarray.c:54-62 | the byte loop returns true exactly when every byte of the slot is zero |
| Slots.ZeroRange | src/indexarray.c:65 | every slot in the range becomes `stride` zero bytes; all other slots are unchanged |
| Collections.NewCapacity | src/collections.c:187-193 | the new capacity exceeds the old one and is even; a non-zero capacity exactly doubles |
| Collections.IndexOf | src/collections.c:239-251 | the first position holding the item, or the length when the item is absent (both directions) |
| Collections.RemovedAt | src/collections.c:252-259 | removing a position keeps the earlier elements and moves each later element down by one |
| Collections.RemovedAtMultiset | src/collections.c:252-259 | removal at a position takes exactly one copy of that element out of the multiset |
| Collections.RemoveUndoesAdd | src/collections.c:207-263 | removing an element that was just appended, and absent before, restores the original elements (on a tag-'F' view, where the appended element is the item) |
| Collections.DenseAdvanceStops | src/collections.c:299-303 | repeated `iter_next` advances the position one at a time and stops at the length |
| Collections.Collection.New | src/collections.c:143-161 | a fresh owned bucket of `capacity` zeroed slots, length 0, tag 'P' |
| Collections.Collection.Create | src/collections.c:143-161 | NULL exactly on allocation failure; otherwise a fresh owned bucket of `capacity` zeroed slots, length 0, tag 'P' |
| Collections.Collection.View | src/indexarray.c:248-254 | a collection over the caller's array, not owned, tag 'F', length 0 |
| Collections.Collection.GetStride | src/collections.c:132 | the stride is positive |
| Collections.Collection.Count | src/collections.c:176-181 | the count is the number of logical elements and never exceeds the capacity |
| Collections.Collection.SetLength | src/collections.c:136-140 | only the logical length changes |
| Collections.Collection.Grow | src/collections.c:183-204 | ERR exactly on allocation failure, with nothing changed; otherwise a fresh bucket of `NewCapacity` slots whose lower part is the old bucket |
| Collections.Collection.Add | src/collections.c:207-232 | appends the item's bytes on a tag-'F' view and the item's address otherwise, growing first when full; ERR for a NULL item or a failed growth, with nothing changed |
| Collections.Collection.Remove | src/collections.c:234-263 | OK exactly when the item is present; then the elements become `RemovedAt` of its first occurrence and the freed slot is zeroed |
| Collections.Collection.DeleteAt | src/collections.c:249-259 | the elements become `RemovedAt` of the position, the freed last slot is zeroed and the length drops by one |
| Collections.Collection.ShiftLeft | src/collections.c:250-255 | every element after `from` moves down one slot; the others are unchanged |
| Collections.Collection.Clear | src/collections.c:265-272 | every slot of the bucket is zeroed and the length becomes 0 |
| Collections.Collection.SetData | src/collections.c:118-125 | with data present, the elements become its first `count` items; with NULL data nothing changes |
| Collections.Iterator.constructor | src/collections.c:277-284 | the iterator starts before the first element |
| Collections.NewIterator | src/collections.c:277-284 | NULL exactly for a missing collection or allocation failure; otherwise a fresh iterator over it, before the first element |
| Collections.Iterator.Next | src/collections.c:299-303 | true exactly when an element remains, and the position advances by one up to the length |
| Collections.Iterator.Current | src/collections.c:306-309 | an element exactly when the position is in 1..length, and then the element before the position |
| Collections.Iterator.Reset | src/collections.c:312-314 | the position returns to 0 |
| SparseModel.Lookup | src/indexarray.c:157-177 | fails exactly out of range or on an all-zero slot; otherwise yields that slot |
| SparseModel.ScanFrom | src/indexarray.c:123-133 | a found offset lies within the probe range and its probe names an all-zero slot |
| SparseModel.ScanFromSome | src/indexarray.c:123-133 | a found offset names an empty slot, and every slot probed before it is occupied |
| SparseModel.ScanFromNone | src/indexarray.c:123-135 | the scan finds nothing exactly when every remaining probed slot is occupied |
| SparseModel.ProbeCovers | src/indexarray.c:123-124 | from any hint within the capacity, the circular probe reaches every slot index |
| SparseModel.ScanFindsIffEmptySlot | src/indexarray.c:123-136 | the full circular scan finds a slot exactly when the buffer has an empty slot |
| SparseModel.AddOutcome | src/indexarray.c:113-154 | in every outcome of `add` the buffer does not shrink, the handle names a slot of the new buffer holding the value, the hint is at most the new capacity, and every other old slot is unchanged |
| SparseModel.AddRoundTrip | src/indexarray.c:113-154 | the handle `add` returns reads back the added value, when that value is not all zero |
| SparseModel.AddZeroValueReadsEmpty | src/indexarray.c:127-131 | an all-zero value gets a handle whose slot still reads as empty |
| SparseModel.AddKeepsHandles | src/indexarray.c:136-153 | every slot that read a value before `add`, growth included, reads the same value after |
| SparseModel.AddPlacement | src/indexarray.c:123-133 | without growth: the first empty slot in circular order from the hint is filled, nothing else changes, and the hint moves one past it modulo the capacity |
| SparseModel.AddGrowsOnlyWhenFull | src/indexarray.c:123-153 | the capacity changes exactly when no slot was empty, and then, from a non-zero capacity, it doubles and the handle is the old capacity |
| SparseModel.AddKeepsHintInRange | src/indexarray.c:113-154 | after `add` the hint is at most the capacity, and equals it exactly when the buffer grew from one slot; otherwise it names a slot |
| SparseModel.AddReusesOnlyEmptySlot | src/indexarray.c:123-133 | with a single empty slot, `add` returns that slot without growing |
| SparseModel.RemoveThenAddReuses | src/indexarray.c:180-196 | on a full container, removing a handle and adding again returns that handle without growing |
| SparseModel.AddToEmptyBuffer | src/indexarray.c:136-153 | from capacity 0 the buffer becomes 8 slots, the handle is 4 and the hint 5 |
| SparseModel.RemoveEmptiesOnlyThatSlot | src/indexarray.c:180-196 | after `remove_at` the slot reads empty and every other slot reads as before |
| SparseModel.Seek | src/collections.c:363-369 | the least occupied index from the cursor below the capacity snapshot, else the loop's stop |
| SparseModel.Step | src/collections.c:351-372 | one `next` keeps the cursor invariant; a positioned result names an occupied slot, and every slot it passed over is empty |
| SparseModel.TraceIsOccupiedAscending | src/collections.c:351-372 | successive seeks find exactly the occupied indices in the range, strictly ascending |
| SparseModel.StepTakesNextPending | src/collections.c:351-372 | each `next` reports the first pending index and drops it; with none pending it reports false and leaves the cursor at the snapshot |
| SparseModel.ExhaustedStaysExhausted | src/collections.c:351-372 | once `next` has returned false it keeps returning false |
| SparseModel.RunReportsPending | src/collections.c:351-372 | n calls of `next` report the first n pending indices in order |
| SparseModel.IterationVisitsOccupied | src/collections.c:331-372 | from a fresh or reset iterator, the reported indices are exactly the occupied ones below the snapshot, each once, ascending |
| SparseModel.TraceLength | src/collections.c:363-369 | no more indices are reported than the range holds |
| SparseModel.NonEmpty | src/indexarray.c:211-224 | the non-empty source elements in order: none is all zero and there are at most as many as in the source |
| SparseModel.PackedLookup | src/indexarray.c:199-227 | after `from_farray`, handle i reads the i-th non-empty source element, and every later handle is empty |
| SparseModel.PackedIteration | src/indexarray.c:199-227 | iterating the result of `from_farray` reports exactly the handles 0 .. (number of non-empty source elements) - 1 |
| IndexArrays.IndexArray.New | src/indexarray.c:68-101 | NULL exactly for stride 0 or allocation failure; otherwise `capacity` empty slots, owned, with the hint at 0 |
| IndexArrays.IndexArray.Capacity | src/indexarray.c:286-299 | the capacity is the number of slots the container holds |
| IndexArrays.IndexArray.Stride | src/indexarray.c:302-307 | the stride is positive |
| IndexArrays.IndexArray.IsEmptySlot | src/indexarray.c:268-283 | true out of range; otherwise true exactly when the slot is all zero |
| IndexArrays.IndexArray.GetAt | src/indexarray.c:157-177 | fails exactly where `is_empty_slot` is true; otherwise yields the slot's `stride` bytes |
| IndexArrays.IndexArray.Add | src/indexarray.c:113-154 | ERR exactly for a NULL value, or for a full container whose growth fails, and then nothing changes; otherwise the new slots, hint and handle are as `AddOutcome` says; the buffer is reallocated only when full |
| IndexArrays.IndexArray.GrowAndPlace | src/indexarray.c:136-153 | ERR exactly on allocation failure, with nothing changed; otherwise the old slots keep their place in a buffer of `NewCapacity` slots, the value sits at half of it, the slots above are empty and the hint is one past it |
| IndexArrays.IndexArray.RemoveAt | src/indexarray.c:180-196 | ERR exactly out of range; otherwise only that slot is zeroed |
| IndexArrays.IndexArray.Clear | src/indexarray.c:310-323 | every slot is zeroed, the capacity is kept and the hint returns to 0 |
| IndexArrays.IndexArray.FromBuffer | src/indexarray.c:230-265 | NULL exactly for a missing or empty range, stride 0 or allocation failure; otherwise a non-owning view over the caller's unmodified slots |
| IndexArrays.IndexArray.FromFArray | src/indexarray.c:199-227 | NULL exactly for a missing source, stride 0 or allocation failure; otherwise the source's non-empty elements packed from slot 0 in order, the rest empty, at the source's capacity, and the hint one past them (0 when the source has no empty element) |
| SparseIterators.SparseIterator.constructor | src/collections.c:341-345 | the cursor starts before slot 0 and the capacity snapshot is taken |
| SparseIterators.SparseIterator.Next | src/collections.c:351-372 | the cursor moves as `Step` says over the container's current slots, and the result says whether it is positioned |
| SparseIterators.SparseIterator.CurrentIndex | src/collections.c:375-380 | the index is within the snapshot, and below it whenever positioned |
| SparseIterators.SparseIterator.CurrentValue | src/collections.c:383-389 | fails unless positioned; when positioned, yields the slot exactly when it is occupied |
| SparseIterators.SparseIterator.Reset | src/collections.c:392-397 | the cursor returns before slot 0; the snapshot is kept |
| SparseIterators.SparseIteratorNew | src/collections.c:331-348 | NULL exactly for a missing container, a missing table or allocation failure; otherwise a fresh iterator at the start |
| SparseIterators.OpsIsEmptySlot | src/indexarray.c:326-329 | the table's `is_empty_slot` is the model's emptiness test on the container's slots |
| SparseIterators.OpsCapacity | src/indexarray.c:326-329 | the table's `capacity` is the number of slots the container holds |
| SparseIterators.OpsGetAt | src/indexarray.c:326-329 | the table's `get_at` is the model's lookup on the container's slots |
| Scenarios.FillThree | test/test_indexarray.c:145-158 | three adds into a new container of three return handles 0, 1, 2, fill the slots in that order and wrap the hint to 0 |
| Scenarios.Growth | test/test_indexarray.c:176-212 | the fourth add into a full container of three grows it to six, lands at handle 3 and keeps the first three handles |
| Scenarios.SlotReuse | test/test_indexarray.c:145-173 | after three adds and removing the second handle (1), the next add returns that same handle and it reads back the new record |
| Scenarios.RemoveAfterGrowth | src/indexarray.c:144-153 | after the growth 3 → 6 the hint is 4, so removing handle 1 and adding returns 4 and slot 1 stays empty |
| Scenarios.ViewOverBuffer | test/test_indexarray.c:246-299 | a view over five caller slots has capacity 5 and reads the caller's records; an add returns 1 and writes the caller's slot 1 |
| Scenarios.VisitAll | test/test_indexarray.c:349-355 | looping on `next` reports the occupied indices in ascending order (the `Trace` from 0) with their slots' values |
| Scenarios.PendingAdvances | src/collections.c:351-372 | after one more `next` the reported prefix grows by the index just reported and the rest stays pending |
| Scenarios.IterateView | test/test_indexarray.c:327-363 | the `from_buffer` test's view, iterated with the iterator tests' loop and reset: iterating a view with records at 0, 2 and 4 reports those indices and records; after a reset it stands on 0 again |
| Scenarios.ResetRestarts | test/test_indexarray.c:386-390 | after a reset the first `next` stands on slot 0 again when slot 0 is occupied |
| Scenarios.IterateEmpty | test/test_indexarray.c:313-325 | on an empty container the first `next` returns false |
| Scenarios.ThreeOfTen | test/test_indexarray.c:327-337 | three adds into a container of ten fill slots 0, 1, 2 and leave the rest empty |
| Scenarios.IterateSparse | test/test_indexarray.c:327-363 | after three adds and removing the middle one, iteration reports exactly two items, indices 0 and 2, with the first and third records, in order |
| Scenarios.PackFromDense | test/test_indexarray.c:215-243 | `from_farray` of a five-slot source with records at 0 and 2 has capacity 5, two occupied slots, and the records at handles 0 and 1 |
| Scenarios.CountOccupied | test/test_indexarray.c:231-237 | the counting loop over `is_empty_slot` counts the non-empty slots |
| Scenarios.DenseWalk | src/collections.c:299-309 | looping on `iter_next` and reading `iter_current` yields every element of the collection once, in order |
| Scenarios.AddressNotContents | src/collections.c:220-248 | on a tag-'P' collection, adding an item stores its address, so removing by the item's bytes reports ERR |
| SparseIterators.CreateIterator | src/indexarray.c:332-337 | NULL exactly for a missing container or allocation failure; otherwise an iterator through the IndexArray table |

## Left out

- Calls on a NULL receiver (`ia`, `coll` or `it` being NULL) are not modelled: a Dafny receiver is never null. NULL arguments are modelled where the code checks them: values, items, sources, tables, containers and buffers.
- Collections.Collection.SetLength: lengths above the capacity are excluded. `collection_set_length` stores any length unchecked, but with such a length a later `add`, `remove` or `iter_current` would read or write outside the bucket, so the collection invariant keeps the length within the capacity.
- Collections.Iterator.Current: `iter_current` returns a pointer into the bucket; the model returns a copy of the slot's bytes. Writes made through that pointer, and the pointer going stale after `collection_grow` moves the bucket, are not modelled.
- Out-pointers (`out_value`) are results: `get_at` and `sparse_iter_current_value` return `Result`, so their "NULL out_value" branch is not modelled.
- The allocator is not modelled; each allocation's failure is a boolean parameter. `dispose` for the container, the collection and the iterators is left out.
- Collections.Collection.Grow: disposes the old bucket even for a non-owning view, which releases a caller's buffer. The model has no allocator, so that release is not represented, and after growth a view's buffer is simply a fresh array.
- Collections.Collection.Add: the address stored for a tag other than 'F' is a parameter (`address`, the pointer's bytes, `stride` of them). Where the object lives, and `memcpy` reading past the pointer when the stride exceeds a pointer's size, are not modelled.
- Collections.Collection.Create: requires a positive stride. `collection_new` with stride 0 divides by zero in later capacity computations, and its only caller in the core, `indexarray_new`, rejects stride 0 first.
- `collection_create_view` is not modelled. `from_buffer` builds its view field by field (`Collections.Collection.View`).
- IndexArrays.IndexArray.FromBuffer: the range is given as whole slots (an array of slots). A byte range whose length is not a multiple of the stride, and the trailing bytes it leaves, are not modelled.
- IndexArrays.IndexArray.FromFArray: the per-element scratch allocation and its failure are not modelled, and the dense array `FArray` is a sequence of slots whose `get` always succeeds. `FArray` is not part of this model.
- Handles are `int`. `add` requires the capacity to be at most `INT_MAX`, so the cast of a slot index to `int` never overflows. The `usize` products `capacity * stride` are unbounded integers here.
- IndexArrays.IndexArray.Capacity: the branch that returns 0 for a missing bucket or a zero stride is not modelled. A Dafny array is never null and the stride is positive by the container invariant.
- The capability table `sc_sparse_i` is a one-variant datatype with dispatch functions. The pointer-based sibling container and its table are not part of this model.
- The library version string, `collection_get_buffer` and `collection_get_end` (raw pointer access) are not modelled.
