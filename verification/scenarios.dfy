/**
 * Concrete runs of the container, as its unit tests drive it, with the outcomes asserted.
 * A record `{id, value}` of two little-endian 32-bit integers is one 8-byte slot.
 */
module Scenarios {
  import opened Wrappers
  import opened Slots
  import opened SparseModel
  import opened IndexArrays
  import opened SparseIterators
  import opened Collections

  function Rec(id: bv8, value: bv8, high: bv8): Slot {
    [id, 0, 0, 0, value, high, 0, 0]
  }

  /** A container of three built by three adds: the handles are 0, 1, 2 and the hint wraps to 0. */
  method FillThree(d1: Slot, d2: Slot, d3: Slot) returns (ia: IndexArray, h1: int, h2: int, h3: int)
    requires |d1| == |d2| == |d3| == 8
    ensures fresh(ia) && fresh(ia.coll) && fresh(ia.coll.buf) && ia.Valid() && ia.coll.stride == 8
    ensures ia.Contents() == [d1, d2, d3] && ia.nextSlot == 0
    ensures h1 == 0 && h2 == 1 && h3 == 2
  {
    var created := IndexArray.New(3, 8, false);
    ia := created;
    assert ia.Contents() == [Zeros(8), Zeros(8), Zeros(8)];
    h1 := ia.Add(Some(d1), false);
    assert ia.Contents() == [d1, Zeros(8), Zeros(8)] && ia.nextSlot == 1;
    h2 := ia.Add(Some(d2), false);
    assert ia.Contents() == [d1, d2, Zeros(8)] && ia.nextSlot == 2;
    h3 := ia.Add(Some(d3), false);
  }

  /** Fill three slots, remove the middle one, and the next add reuses its handle and reads back the new record. */
  method SlotReuse() returns (h2: int, h4: int, retrieved: Result<Slot>)
    ensures h2 == 1 && h4 == h2
    ensures retrieved == Ok(Rec(4, 0x90, 1))
  {
    var d1, d2, d3, d4 := Rec(1, 100, 0), Rec(2, 200, 0), Rec(3, 0x2c, 1), Rec(4, 0x90, 1);
    var ia, h1, h3;
    ia, h1, h2, h3 := FillThree(d1, d2, d3);
    var removed := ia.RemoveAt(h2);
    assert removed == OK && ia.Contents() == [d1, Zeros(8), d3];
    assert d1[0] != 0 && d4[0] != 0;
    assert ScanFrom(ia.Contents(), 0, 1) == Some(1);
    h4 := ia.Add(Some(d4), false);
    retrieved := ia.GetAt(h4);
  }

  /** A full container of three grows to six on the fourth add, which lands at handle 3; the earlier handles keep their values. */
  method Growth(d1: Slot, d2: Slot, d3: Slot, d4: Slot) returns (ia: IndexArray)
    requires |d1| == |d2| == |d3| == |d4| == 8
    requires d1[0] != 0 && d2[0] != 0 && d3[0] != 0 && d4[0] != 0
    ensures fresh(ia) && fresh(ia.coll) && fresh(ia.coll.buf) && ia.Valid() && ia.coll.stride == 8
    ensures ia.Capacity() == 6 && ia.nextSlot == 4
    ensures ia.Contents()[..4] == [d1, d2, d3, d4]
    ensures AllZero(ia.Contents()[4]) && AllZero(ia.Contents()[5])
  {
    var h1, h2, h3;
    ia, h1, h2, h3 := FillThree(d1, d2, d3);
    ghost var full := ia.Contents();
    assert ScanFrom(full, 0, 2) == None;
    assert ScanFrom(full, 0, 1) == None;
    assert ScanFrom(full, 0, 0) == None;
    var h4 := ia.Add(Some(d4), false);
    assert h4 == 3 && ia.Capacity() == 6;
    assert ia.Contents()[..3] == [d1, d2, d3];
    assert ia.GetAt(0) == Ok(d1) && ia.GetAt(3) == Ok(d4);
  }

  /**
   * After that growth the hint stands at 4, so once handle 1 is removed the next add takes the
   * empty slot 4, not the freed slot 1, which stays empty.
   */
  method RemoveAfterGrowth() returns (h5: int, freedEmpty: bool)
    ensures h5 == 4 && freedEmpty
  {
    var d1, d2, d3, d4, d5 := Rec(1, 100, 0), Rec(2, 200, 0), Rec(3, 0x2c, 1), Rec(4, 0x90, 1), Rec(5, 0xf4, 1);
    var ia := Growth(d1, d2, d3, d4);
    var removed := ia.RemoveAt(1);
    assert AllZero(ia.Contents()[4]) && AllZero(ia.Contents()[1]);
    h5 := ia.Add(Some(d5), false);
    freedEmpty := ia.IsEmptySlot(1);
  }

  /**
   * A view over a caller's five slots holding records at 0, 2 and 4: the records read back,
   * slots 1 and 3 are empty, and an add writes into the caller's own buffer, at slot 1.
   */
  method ViewOverBuffer() returns (capacity: nat, at0: Result<Slot>, at2: Result<Slot>, handle: int, stored: Slot)
    ensures capacity == 5 && at0 == Ok(Rec(10, 100, 0)) && at2 == Ok(Rec(20, 200, 0))
    ensures handle == 1 && stored == Rec(40, 0x90, 1)
  {
    var r0, r2, r4, r1 := Rec(10, 100, 0), Rec(20, 200, 0), Rec(30, 0x2c, 1), Rec(40, 0x90, 1);
    var buffer := new Slot[5](_ => Zeros(8));
    buffer[0], buffer[2], buffer[4] := r0, r2, r4;
    var ia := IndexArray.FromBuffer(buffer, 8, false);
    assert r0[0] != 0 && r2[0] != 0 && r4[0] != 0;
    capacity, at0, at2 := ia.Capacity(), ia.GetAt(0), ia.GetAt(2);
    assert ia.IsEmptySlot(1) && ia.IsEmptySlot(3) && !ia.IsEmptySlot(4);
    assert ScanFrom(ia.Contents(), 0, 1) == Some(1);
    handle := ia.Add(Some(r1), false);
    stored := buffer[1];
  }

  /**
   * The loop the iterator tests run: call `next` until it returns false, recording each index
   * and value reported. It reports the occupied indices in ascending order and their slots.
   */
  method VisitAll(ia: IndexArray) returns (visited: seq<nat>, values: seq<Slot>)
    requires ia.Valid()
    ensures visited == Trace(ia.Contents(), 0, ia.Capacity())
    ensures |values| == |visited|
    ensures forall k :: 0 <= k < |visited| ==> visited[k] < ia.Capacity() && values[k] == ia.Contents()[visited[k]]
  {
    ghost var slots := ia.Contents();
    ghost var t := Trace(slots, 0, ia.Capacity());
    var it := CreateIterator(ia, false);
    StepTakesNextPending(slots, it.Position(), it.capacity);
    visited, values := [], [];
    var more := it.Next();
    while more
      invariant it.Valid() && it.container == ia && it.capacity == |slots| && ia.Contents() == slots
      invariant more == it.positioned
      invariant more ==> it.current < |slots| && !EmptyAt(slots, it.current)
      invariant more ==> visited + [it.current] + Pending(slots, it.Position(), it.capacity) == t
      invariant !more ==> visited == t
      invariant |values| == |visited|
      invariant forall k :: 0 <= k < |visited| ==> visited[k] < |slots| && values[k] == slots[visited[k]]
      decreases |Pending(slots, it.Position(), it.capacity)| + (if more then 1 else 0)
    {
      var value := it.CurrentValue();
      PendingAdvances(slots, it.Position(), it.capacity, visited, t);
      visited, values := visited + [it.CurrentIndex()], values + [value.value];
      more := it.Next();
    }
  }

  /** One more `next` after reporting `c.current`: the reported prefix grows by it, the rest stays pending. */
  lemma PendingAdvances(slots: seq<Slot>, c: Cursor, limit: nat, visited: seq<nat>, t: seq<nat>)
    requires CursorOk(c, limit) && c.positioned
    requires visited + [c.current] + Pending(slots, c, limit) == t
    ensures var c' := Step(slots, c, limit);
      && (c'.positioned ==> visited + [c.current] + [c'.current] + Pending(slots, c', limit) == t)
      && (!c'.positioned ==> visited + [c.current] == t)
      && |Pending(slots, c', limit)| + (if c'.positioned then 1 else 0) < |Pending(slots, c, limit)| + 1
  {
    StepTakesNextPending(slots, c, limit);
    var p := Pending(slots, c, limit);
    if p != [] {
      assert p == [p[0]] + p[1..];
    }
  }

  /** Iterating that view reports indices 0, 2 and 4 with their records; after a reset it starts again at 0. */
  method IterateView() returns (visited: seq<nat>, values: seq<Slot>, restart: nat)
    ensures visited == [0, 2, 4] && values == [Rec(10, 100, 0), Rec(20, 200, 0), Rec(30, 0x2c, 1)]
    ensures restart == 0
  {
    var r0, r2, r4 := Rec(10, 100, 0), Rec(20, 200, 0), Rec(30, 0x2c, 1);
    var buffer := new Slot[5](_ => Zeros(8));
    buffer[0], buffer[2], buffer[4] := r0, r2, r4;
    var ia := IndexArray.FromBuffer(buffer, 8, false);
    assert r0[0] != 0 && r2[0] != 0 && r4[0] != 0;
    var slots := ia.Contents();
    assert slots == [r0, Zeros(8), r2, Zeros(8), r4];
    TraceOfView(slots);
    visited, values := VisitAll(ia);
    restart := ResetRestarts(ia);
  }

  /** Slots 0, 2 and 4 of five occupied: the trace is 0, 2, 4. */
  lemma TraceOfView(slots: seq<Slot>)
    requires |slots| == 5 && !EmptyAt(slots, 0) && EmptyAt(slots, 1) && !EmptyAt(slots, 2)
    requires EmptyAt(slots, 3) && !EmptyAt(slots, 4)
    ensures Trace(slots, 0, 5) == [0, 2, 4]
  {
    assert Trace(slots, 5, 5) == [];
    assert Seek(slots, 3, 5) == 4 && Trace(slots, 3, 5) == [4];
    assert Seek(slots, 1, 5) == 2;
  }

  /** Two calls of `next`, a reset, and one more call: the iterator stands on slot 0 again. */
  method ResetRestarts(ia: IndexArray) returns (restart: nat)
    requires ia.Valid() && !ia.IsEmptySlot(0)
    ensures restart == 0
  {
    var it := CreateIterator(ia, false);
    var more := it.Next();
    more := it.Next();
    it.Reset();
    more := it.Next();
    restart := it.CurrentIndex();
  }

  /** An empty container of five: the first `next` returns false. */
  method IterateEmpty() returns (more: bool)
    ensures !more
  {
    var ia := IndexArray.New(5, 8, false);
    var it := CreateIterator(ia, false);
    assert Seek(ia.Contents(), 0, 5) == 5;
    more := it.Next();
  }

  /** Three adds into a fresh container of ten: handles 0, 1, 2, every later slot empty. */
  method ThreeOfTen(d1: Slot, d2: Slot, d3: Slot) returns (ia: IndexArray)
    requires |d1| == |d2| == |d3| == 8 && d1[0] != 0 && d2[0] != 0 && d3[0] != 0
    ensures fresh(ia) && fresh(ia.coll) && fresh(ia.coll.buf) && ia.Valid() && ia.coll.stride == 8
    ensures ia.Capacity() == 10 && ia.Contents()[..3] == [d1, d2, d3]
    ensures forall j :: 3 <= j < 10 ==> EmptyAt(ia.Contents(), j)
  {
    ia := IndexArray.New(10, 8, false);
    assert ScanFrom(ia.Contents(), 0, 0) == Some(0);
    var h1 := ia.Add(Some(d1), false);
    assert ScanFrom(ia.Contents(), 1, 0) == Some(0);
    var h2 := ia.Add(Some(d2), false);
    assert ScanFrom(ia.Contents(), 2, 0) == Some(0);
    var h3 := ia.Add(Some(d3), false);
  }

  /** Slots 0 and 2 occupied and the rest of ten empty: the trace is 0, 2. */
  lemma TraceOfTen(slots: seq<Slot>)
    requires |slots| == 10 && !EmptyAt(slots, 0) && EmptyAt(slots, 1) && !EmptyAt(slots, 2)
    requires forall j :: 3 <= j < 10 ==> EmptyAt(slots, j)
    ensures Trace(slots, 0, 10) == [0, 2]
  {
    assert Seek(slots, 3, 10) == 10;
    assert Trace(slots, 3, 10) == [];
    assert Seek(slots, 1, 10) == 2;
  }

  /**
   * Three adds into a container of ten, then the middle one removed: iteration reports the first
   * and the third record, in that order.
   */
  method IterateSparse() returns (visited: seq<nat>, ids: seq<bv8>, count: nat)
    ensures visited == [0, 2] && ids == [1, 3] && count == 2
  {
    var d1, d2, d3 := Rec(1, 100, 0), Rec(2, 200, 0), Rec(3, 0x2c, 1);
    var ia := ThreeOfTen(d1, d2, d3);
    ghost var full := ia.Contents();
    var removed := ia.RemoveAt(1);
    var slots := ia.Contents();
    assert slots == full[1 := Zeros(8)];
    assert slots[0] == d1 && slots[2] == d3 && AllZero(slots[1]);
    forall j | 3 <= j < 10
      ensures EmptyAt(slots, j)
    {
      assert EmptyAt(full, j) && slots[j] == full[j];
    }
    TraceOfTen(slots);
    var values;
    visited, values := VisitAll(ia);
    ids := [values[0][0], values[1][0]];
    count := |visited|;
  }

  /**
   * `from_farray` over a dense source with records at 0 and 2: capacity five, and the test's
   * loop over `is_empty_slot` counts two occupied slots, which sit at handles 0 and 1.
   */
  method PackFromDense() returns (capacity: nat, found: nat, at0: Result<Slot>, at1: Result<Slot>)
    ensures capacity == 5 && found == 2
    ensures at0 == Ok(Rec(10, 0xe8, 3)) && at1 == Ok(Rec(20, 0xd0, 7))
  {
    var d1, d2 := Rec(10, 0xe8, 3), Rec(20, 0xd0, 7);
    var src := [d1, Zeros(8), d2, Zeros(8), Zeros(8)];
    var ia := IndexArray.FromFArray(Some(src), 8, false);
    assert d1[0] != 0 && d2[0] != 0;
    NonEmptyOfSource(d1, d2);
    capacity, at0, at1 := ia.Capacity(), ia.GetAt(0), ia.GetAt(1);
    found := CountOccupied(ia);
    var slots := ia.Contents();
    assert slots == [d1, d2, Zeros(8), Zeros(8), Zeros(8)];
    NonEmptyOfPacked(d1, d2);
  }

  /** The dense source of that test keeps its two records, in order. */
  lemma NonEmptyOfSource(a: Slot, b: Slot)
    requires !AllZero(a) && !AllZero(b)
    ensures NonEmpty([a, Zeros(8), b, Zeros(8), Zeros(8)]) == [a, b]
  {
    var s := [a, Zeros(8), b, Zeros(8), Zeros(8)];
    assert NonEmpty(s[..1]) == [a] by { assert s[..1][..0] == []; }
    assert NonEmpty(s[..2]) == [a] by { assert s[..2][..1] == s[..1]; }
    assert NonEmpty(s[..3]) == [a, b] by { assert s[..3][..2] == s[..2]; }
    assert NonEmpty(s[..4]) == [a, b] by { assert s[..4][..3] == s[..3]; }
    assert s[..4] == s[..|s| - 1];
  }

  /** The packed container of that test holds the same two records, at slots 0 and 1. */
  lemma NonEmptyOfPacked(a: Slot, b: Slot)
    requires !AllZero(a) && !AllZero(b)
    ensures NonEmpty([a, b, Zeros(8), Zeros(8), Zeros(8)]) == [a, b]
  {
    var s := [a, b, Zeros(8), Zeros(8), Zeros(8)];
    assert NonEmpty(s[..1]) == [a] by { assert s[..1][..0] == []; }
    assert NonEmpty(s[..2]) == [a, b] by { assert s[..2][..1] == s[..1]; }
    assert NonEmpty(s[..3]) == [a, b] by { assert s[..3][..2] == s[..2]; }
    assert NonEmpty(s[..4]) == [a, b] by { assert s[..4][..3] == s[..3]; }
    assert s[..4] == s[..|s| - 1];
  }

  /** The counting loop of the `from_farray` test: how many slots below the capacity are occupied. */
  method CountOccupied(ia: IndexArray) returns (found: nat)
    requires ia.Valid()
    ensures found == |NonEmpty(ia.Contents())|
  {
    ghost var slots := ia.Contents();
    found := 0;
    var i := 0;
    while i < ia.Capacity()
      invariant i <= |slots| && found == |NonEmpty(slots[..i])|
    {
      NonEmptyStep(slots, i);
      if !ia.IsEmptySlot(i) {
        found := found + 1;
      }
      i := i + 1;
    }
    assert slots[..i] == slots;
  }

  /**
   * The usual loop over a collection's iterator: `iter_next` until it returns false, reading
   * `iter_current` after each success. It reads every element of the collection once, in order.
   */
  method DenseWalk(c: Collection) returns (visited: seq<Slot>)
    requires c.Valid()
    ensures visited == c.Elements()
  {
    var it := new Iterator(c);
    visited := [];
    var calls := 1;
    var more := it.Next();
    DenseAdvanceStops(0, c.length, 1);
    while more
      invariant it.coll == c && c.Valid() && 1 <= calls <= c.length + 1
      invariant it.current == DenseAdvance(0, c.length, calls)
      invariant more <==> calls <= c.length
      invariant visited == c.Elements()[..calls - 1]
      decreases c.length + 1 - calls
    {
      DenseAdvanceStops(0, c.length, calls);
      visited := visited + [it.Current().value];
      ghost var before := it.current;
      more := it.Next();
      DenseAdvanceStops(before, c.length, 1);
      calls := calls + 1;
      DenseAdvanceStops(0, c.length, calls);
    }
  }

  /**
   * On a collection made by `collection_new` (tag 'P'), `add` stores the item's address, not its
   * bytes, so removing by the item's bytes finds nothing.
   */
  method AddressNotContents() returns (added: Status, removed: Status)
    ensures added == OK && removed == ERR
  {
    var c := Collection.Create(2, 1, false);
    added := c.Add(Some([1]), [7], false);
    assert c.Elements() == [[7]];
    removed := c.Remove(Some([1]));
  }
}
