/**
 * The sparse iterator: a cursor over the occupied slots of a sparse container, reached only
 * through the container's capability table (`is_empty_slot`, `capacity`, `get_at`).
 */
module SparseIterators {
  import opened Wrappers
  import opened Slots
  import opened SparseModel
  import opened IndexArrays

  /** The capability table `sc_sparse_i`; the IndexArray's table is the one instance modelled. */
  datatype SparseOps = IndexArrayOps

  /** `is_empty_slot` through the table: the model's emptiness test on the container's slots. */
  function OpsIsEmptySlot(ops: SparseOps, c: IndexArray, index: nat): (empty: bool)
    reads c, c.coll, c.coll.buf
    ensures empty <==> EmptyAt(c.Contents(), index)
  {
    match ops
    case IndexArrayOps => c.IsEmptySlot(index)
  }

  /** `capacity` through the table: the number of slots the container holds. */
  function OpsCapacity(ops: SparseOps, c: IndexArray): (n: nat)
    reads c, c.coll, c.coll.buf
    ensures n == |c.Contents()|
  {
    match ops
    case IndexArrayOps => c.Capacity()
  }

  /** `get_at` through the table: the model's lookup on the container's slots. */
  function OpsGetAt(ops: SparseOps, c: IndexArray, index: nat): (r: Result<Slot>)
    reads c, c.coll, c.coll.buf
    requires c.Valid()
    ensures r == Lookup(c.Contents(), index)
  {
    match ops
    case IndexArrayOps => c.GetAt(index)
  }

  class SparseIterator {
    const container: IndexArray
    const ops: SparseOps
    /** The index the iterator stands at, or will search from. */
    var current: nat
    /** The container's capacity when the iterator was created; never refreshed. */
    const capacity: nat
    /** Whether `current` names an occupied slot that `next` has reported. */
    var positioned: bool

    ghost predicate Valid()
      reads this
    {
      CursorOk(Position(), capacity)
    }

    ghost function Position(): Cursor
      reads this
    {
      Cursor(current, positioned)
    }

    /** `sparse_iterator_new` after its checks: before the first slot, capacity snapshot taken. */
    constructor (container: IndexArray, ops: SparseOps)
      ensures this.container == container && this.ops == ops
      ensures Position() == Start && capacity == container.Capacity() && Valid()
    {
      this.container := container;
      this.ops := ops;
      current := 0;
      capacity := OpsCapacity(ops, container);
      positioned := false;
    }

    /**
     * `sparse_iter_next`: step past the slot last reported, then search for the next occupied
     * slot below the capacity snapshot. Returns true exactly when one was found, and the cursor
     * moves as `Step` says over the slots the container holds at the time of the call.
     */
    method Next() returns (found: bool)
      requires Valid()
      modifies this
      ensures Valid()
      ensures Position() == Step(container.Contents(), old(Position()), capacity)
      ensures found == positioned
    {
      if positioned {
        current := current + 1;
        positioned := false;
      }
      ghost var start := current;
      while current < capacity
        invariant start <= current <= capacity && !positioned
        invariant Seek(container.Contents(), current, capacity) == Seek(container.Contents(), start, capacity)
        decreases capacity - current
      {
        if !OpsIsEmptySlot(ops, container, current) {
          positioned := true;
          return true;
        }
        current := current + 1;
      }
      return false;
    }

    /** `sparse_iter_current_index`: the cursor's index, below the snapshot whenever positioned. */
    function CurrentIndex(): (i: nat)
      reads this
      requires Valid()
      ensures i <= capacity && (positioned ==> i < capacity)
    {
      current
    }

    /**
     * `sparse_iter_current_value`: fails unless positioned; otherwise reads the container at the
     * cursor, so it yields the slot's bytes exactly when that slot is still occupied.
     */
    function CurrentValue(): (r: Result<Slot>)
      reads this, container, container.coll, container.coll.buf
      requires container.Valid()
      ensures !positioned ==> r.Fail?
      ensures positioned ==> (r.Ok? <==> !container.IsEmptySlot(current))
      ensures r.Ok? ==> current < container.Capacity() && r.value == container.Contents()[current]
    {
      if !positioned then Fail else OpsGetAt(ops, container, current)
    }

    /** `sparse_iter_reset`: back before the first slot; the capacity snapshot is kept. */
    method Reset()
      modifies this
      ensures Position() == Start && Valid()
    {
      current := 0;
      positioned := false;
    }
  }

  /** `sparse_iterator_new`: NULL for a missing container, a missing table or an allocation failure. */
  method SparseIteratorNew(coll: IndexArray?, ops: Option<SparseOps>, allocFails: bool) returns (it: SparseIterator?)
    ensures coll == null || ops.None? || allocFails <==> it == null
    ensures it != null ==>
              && fresh(it) && it.container == coll && it.ops == ops.value
              && it.Position() == Start && it.capacity == coll.Capacity() && it.Valid()
  {
    if coll == null || ops.None? {
      return null;
    }
    if allocFails {
      return null;
    }
    it := new SparseIterator(coll, ops.value);
  }

  /** `indexarray_create_iterator`: a sparse iterator over `ia` through the IndexArray's table. */
  method CreateIterator(ia: IndexArray?, allocFails: bool) returns (it: SparseIterator?)
    ensures ia == null || allocFails <==> it == null
    ensures it != null ==>
              && fresh(it) && it.container == ia && it.ops == IndexArrayOps
              && it.Position() == Start && it.capacity == ia.Capacity() && it.Valid()
  {
    if ia == null {
      return null;
    }
    it := SparseIteratorNew(ia, Some(IndexArrayOps), allocFails);
  }
}
