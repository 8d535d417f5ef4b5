/**
 * IndexArray: a sparse container of fixed-size values stored inline in a growable
 * stride buffer. A slot is occupied exactly when some byte of it is non-zero; `add`
 * recycles empty slots, scanning circularly from a hint, before it grows the buffer.
 */
module IndexArrays {
  import opened Wrappers
  import opened Slots
  import opened SparseModel
  import opened Collections

  /**
   * After `from_farray` has added the first `i` source elements: the non-empty ones sit packed
   * from slot 0, every other slot is empty, and the hint is one past the last of them.
   */
  ghost predicate PackedSoFar(contents: seq<Slot>, next: nat, src: seq<Slot>, i: nat, stride: nat)
  {
    && i <= |src|
    && |NonEmpty(src[..i])| <= i
    && contents == Layout(NonEmpty(src[..i]), |src|, stride)
    && next == if |NonEmpty(src[..i])| < |src| then |NonEmpty(src[..i])| else 0
  }

  /** One more source element extends `NonEmpty` of the prefix exactly when it is non-empty. */
  lemma NonEmptyStep(src: seq<Slot>, i: nat)
    requires i < |src|
    ensures NonEmpty(src[..i + 1]) == NonEmpty(src[..i]) + (if AllZero(src[i]) then [] else [src[i]])
  {
    assert src[..i + 1][..i] == src[..i];
  }

  /** Nothing has been added yet: an all-empty buffer of the source's capacity, hint at 0. */
  lemma PackedSoFarStart(contents: seq<Slot>, src: seq<Slot>, stride: nat)
    requires |contents| == |src|
    requires forall j :: 0 <= j < |contents| ==> contents[j] == Zeros(stride)
    ensures PackedSoFar(contents, 0, src, 0, stride)
  {
  }

  /** An empty source element is skipped: `NonEmpty` does not change. */
  lemma PackedSoFarSkip(contents: seq<Slot>, next: nat, src: seq<Slot>, i: nat, stride: nat)
    requires PackedSoFar(contents, next, src, i, stride) && i < |src| && AllZero(src[i])
    ensures PackedSoFar(contents, next, src, i + 1, stride)
  {
    NonEmptyStep(src, i);
  }

  /** A non-empty source element finds a home without growth, in the slot the hint names. */
  lemma PackedSoFarScan(contents: seq<Slot>, next: nat, src: seq<Slot>, i: nat, stride: nat)
    requires PackedSoFar(contents, next, src, i, stride) && i < |src| && !AllZero(src[i])
    ensures ScanFrom(contents, next, 0) == Some(0)
  {
    var ne := NonEmpty(src[..i]);
    assert next == |ne| && next < |contents|;
    assert contents[next] == Zeros(stride);
    assert Probe(next, 0, |contents|) == next;
  }

  /** Once that element is added, the packing extends by it. */
  lemma PackedSoFarAdd(contents: seq<Slot>, next: nat, src: seq<Slot>, i: nat, stride: nat,
                       contents': seq<Slot>, next': nat, h: nat)
    requires PackedSoFar(contents, next, src, i, stride) && i < |src| && !AllZero(src[i])
    requires ScanFrom(contents, next, 0) == Some(0)
    requires AddOutcome(contents, next, src[i], contents', next', h)
    ensures PackedSoFar(contents', next', src, i + 1, stride)
  {
    AddAtHint(contents, next, src[i], contents', next', h);
    ModBelow(next, |src|);
    PackedSoFarPlace(contents, next, src, i, stride, contents', next', h);
  }

  /** Writing the element at the hint and moving the hint one on extends the packing. */
  lemma PackedSoFarPlace(contents: seq<Slot>, next: nat, src: seq<Slot>, i: nat, stride: nat,
                         contents': seq<Slot>, next': nat, h: nat)
    requires PackedSoFar(contents, next, src, i, stride) && i < |src| && !AllZero(src[i])
    requires h == next && contents' == contents[h := src[i]] && next' == (h + 1) % |src|
    ensures PackedSoFar(contents', next', src, i + 1, stride)
  {
    var ne := NonEmpty(src[..i]);
    var cap := |src|;
    NonEmptyStep(src, i);
    PackOneMore(ne, cap, stride, src[i]);
    if |ne| + 1 < cap {
      ModBelow(|ne| + 1, cap);
    }
  }

  /** When the slot the hint names is empty, `add` fills exactly that slot. */
  lemma AddAtHint(slots: seq<Slot>, next: nat, v: Slot, slots': seq<Slot>, next': nat, h: nat)
    requires ScanFrom(slots, next, 0) == Some(0)
    requires AddOutcome(slots, next, v, slots', next', h)
    ensures |slots| > 0 && h == next % |slots| && slots' == slots[h := v] && next' == (h + 1) % |slots|
  {
  }

  /** The packed prefix followed by empty slots, extended by one more element. */
  lemma PackOneMore(ne: seq<Slot>, cap: nat, stride: nat, v: Slot)
    requires |ne| < cap
    ensures Layout(ne, cap, stride)[|ne| := v] == Layout(ne + [v], cap, stride)
  {
  }

  class IndexArray {
    /** The underlying collection: stride, bucket, growth and ownership. */
    const coll: Collection
    /** Where the next `add` starts its scan; a hint that may point at an occupied slot. */
    var nextSlot: nat

    /** The container's invariant: a well-formed collection, and a hint no larger than the capacity. */
    ghost predicate Valid()
      reads this, coll, coll.buf
    {
      coll.Valid() && nextSlot <= coll.buf.Length
    }

    /** The slots of the container. */
    ghost function Contents(): seq<Slot>
      reads this, coll, coll.buf
    {
      coll.buf[..]
    }

    constructor Wrap(coll: Collection)
      requires coll.Valid()
      ensures this.coll == coll && nextSlot == 0 && Valid()
    {
      this.coll := coll;
      nextSlot := 0;
    }

    /**
     * `indexarray_new`: NULL for stride 0 or an allocation failure; otherwise an owned
     * buffer of `capacity` slots, every one of them empty, and the hint at 0. A failure of the
     * container's own allocation and one of `collection_new` both surface as NULL, so one flag
     * stands for either.
     */
    static method New(capacity: nat, stride: nat, allocFails: bool) returns (ia: IndexArray?)
      ensures stride == 0 || allocFails <==> ia == null
      ensures ia != null ==>
                && fresh(ia) && fresh(ia.coll) && fresh(ia.coll.buf)
                && ia.Valid() && ia.Capacity() == capacity && ia.coll.stride == stride
                && ia.nextSlot == 0 && ia.coll.owns
                && forall i :: 0 <= i < capacity ==> ia.Contents()[i] == Zeros(stride)
    {
      if stride == 0 {
        return null;
      }
      var c := Collection.Create(capacity, stride, allocFails);
      if c == null {
        return null;
      }
      ZeroRange(c.buf, 0, capacity, stride);
      ia := new IndexArray.Wrap(c);
    }

    /** `indexarray_capacity`: the number of slots in the buffer. */
    function Capacity(): (c: nat)
      reads this, coll, coll.buf
      ensures c == |Contents()|
    {
      coll.buf.Length
    }

    /** `indexarray_stride`: the element size, fixed and non-zero. */
    function Stride(): (s: nat)
      reads this, coll, coll.buf
      requires Valid()
      ensures s > 0
    {
      coll.stride
    }

    /** `indexarray_is_empty_slot`: true out of range, otherwise true exactly when the slot is all zero. */
    function IsEmptySlot(index: nat): (empty: bool)
      reads this, coll, coll.buf
      ensures index >= Capacity() ==> empty
      ensures index < Capacity() ==> (empty <==> AllZero(Contents()[index]))
    {
      EmptyAt(coll.buf[..], index)
    }

    /**
     * `indexarray_get_at`: fails when `index` is beyond the capacity or the slot is all zero;
     * otherwise yields exactly the `stride` bytes of the slot. It fails exactly where
     * `is_empty_slot` reports an empty slot.
     */
    function GetAt(index: nat): (r: Result<Slot>)
      reads this, coll, coll.buf
      requires Valid()
      ensures index >= Capacity() ==> r.Fail?
      ensures r.Fail? <==> IsEmptySlot(index)
      ensures r.Ok? ==> r.value == Contents()[index] && |r.value| == Stride()
    {
      Lookup(coll.buf[..], index)
    }

    /**
     * `indexarray_add`. NULL value: ERR. Otherwise scan the slots circularly from the hint and
     * fill the first empty one; with none empty, grow the buffer, zero its new upper half, write
     * the value at half the new capacity and move the hint one past it (see `AddOutcome`). A
     * growth whose allocation fails reports ERR and changes nothing.
     */
    method Add(value: Option<Slot>, allocFails: bool) returns (h: int)
      requires Valid() && Capacity() <= INT_MAX
      requires value.Some? ==> |value.value| == coll.stride
      modifies this, coll, coll.buf
      ensures Valid()
      ensures h == ERR_HANDLE || 0 <= h <= INT_MAX
      ensures h == ERR_HANDLE <==> value.None? || (!HasEmptySlot(old(Contents())) && allocFails)
      ensures coll.length == old(coll.length)
      ensures h == ERR_HANDLE ==> coll.buf == old(coll.buf) && Contents() == old(Contents()) && nextSlot == old(nextSlot)
      ensures h != ERR_HANDLE ==> AddOutcome(old(Contents()), old(nextSlot), value.value, Contents(), nextSlot, h)
      ensures HasEmptySlot(old(Contents())) ==> coll.buf == old(coll.buf)
      ensures h != ERR_HANDLE && !HasEmptySlot(old(Contents())) ==> fresh(coll.buf)
    {
      if value.None? {
        return ERR_HANDLE;
      }
      var v := value.value;
      var stride := coll.stride;
      var capacity := Capacity();
      ScanFindsIffEmptySlot(coll.buf[..], nextSlot);
      var i := 0;
      while i < capacity
        invariant 0 <= i <= capacity
        invariant Valid() && coll.buf == old(coll.buf) && Contents() == old(Contents()) && nextSlot == old(nextSlot)
        invariant coll.length == old(coll.length)
        invariant ScanFrom(Contents(), nextSlot, i) == ScanFrom(Contents(), nextSlot, 0)
      {
        var slotIndex := (nextSlot + i) % capacity;
        var empty := IsSlotEmpty(coll.buf[slotIndex], stride);
        if empty {
          coll.buf[slotIndex] := v;
          nextSlot := (slotIndex + 1) % capacity;
          return slotIndex;
        }
        i := i + 1;
      }
      h := GrowAndPlace(v, allocFails);
    }

    /**
     * The growth path of `indexarray_add`: grow the buffer, zero its upper half, write the value
     * at half the new capacity and move the hint one past it. ERR, with nothing changed, when
     * the allocation fails.
     */
    method GrowAndPlace(v: Slot, allocFails: bool) returns (h: int)
      requires Valid() && Capacity() <= INT_MAX && |v| == coll.stride
      modifies this, coll, coll.buf
      ensures Valid()
      ensures h == ERR_HANDLE <==> allocFails
      ensures coll.length == old(coll.length)
      ensures h == ERR_HANDLE ==> coll.buf == old(coll.buf) && Contents() == old(Contents()) && nextSlot == old(nextSlot)
      ensures h != ERR_HANDLE ==>
                && fresh(coll.buf) && 0 <= h <= INT_MAX
                && var c2 := NewCapacity(|old(Contents())|);
                && |Contents()| == c2 && h == c2 / 2
                && Contents()[..|old(Contents())|] == old(Contents())
                && Contents()[h] == v
                && (forall i :: h < i < c2 ==> AllZero(Contents()[i]))
                && nextSlot == h + 1
    {
      var grown := coll.Grow(allocFails);
      if grown != OK {
        return ERR_HANDLE;
      }
      var capacity := Capacity();
      var half := capacity / 2;
      ZeroRange(coll.buf, half, half + half, coll.stride);
      coll.buf[half] := v;
      nextSlot := half + 1;
      return half;
    }

    /**
     * `indexarray_remove_at`: ERR when `index` is beyond the capacity; otherwise zero that slot,
     * whether or not it was occupied, and nothing else. The hint and the capacity never change.
     */
    method RemoveAt(index: nat) returns (status: Status)
      requires Valid()
      modifies coll.buf
      ensures Valid()
      ensures status == ERR <==> index >= Capacity()
      ensures status == ERR ==> Contents() == old(Contents())
      ensures status == OK ==> Contents() == old(Contents())[index := Zeros(coll.stride)]
    {
      if index >= Capacity() {
        return ERR;
      }
      ZeroRange(coll.buf, index, index + 1, coll.stride);
      assert Contents() == old(Contents())[index := Zeros(coll.stride)];
      return OK;
    }

    /** `indexarray_clear`: every slot empty, the hint back at 0, the capacity kept. */
    method Clear()
      requires Valid()
      modifies this, coll.buf
      ensures Valid() && nextSlot == 0
      ensures |Contents()| == |old(Contents())|
      ensures forall i :: 0 <= i < |Contents()| ==> Contents()[i] == Zeros(coll.stride)
    {
      ZeroRange(coll.buf, 0, Capacity(), coll.stride);
      nextSlot := 0;
    }

    /**
     * `indexarray_from_buffer`: NULL for a missing range, an empty range or stride 0; otherwise a
     * non-owning view over the caller's slots, neither copied nor zeroed, with the hint at 0.
     * Whatever non-zero slots the range already holds are occupied from the start.
     */
    static method FromBuffer(buffer: array?<Slot>, stride: nat, allocFails: bool) returns (ia: IndexArray?)
      requires buffer != null ==> WellFormed(buffer[..], stride)
      ensures buffer == null || buffer.Length == 0 || stride == 0 || allocFails <==> ia == null
      ensures ia != null ==>
                && fresh(ia) && fresh(ia.coll)
                && ia.Valid() && ia.coll.buf == buffer && !ia.coll.owns
                && ia.nextSlot == 0 && ia.coll.stride == stride
                && ia.Contents() == old(buffer[..])
    {
      if buffer == null || stride == 0 || buffer.Length == 0 {
        return null;
      }
      if allocFails {
        return null;
      }
      var c := new Collection.View(buffer, stride);
      ia := new IndexArray.Wrap(c);
    }

    /**
     * `indexarray_from_farray`: NULL for a missing source, stride 0 or an allocation failure;
     * otherwise a fresh container with the source's capacity into which every non-empty source
     * element is added in source order, so that they land packed from slot 0.
     */
    static method FromFArray(source: Option<seq<Slot>>, stride: nat, allocFails: bool) returns (ia: IndexArray?)
      requires source.Some? ==> WellFormed(source.value, stride) && |source.value| <= INT_MAX
      ensures source.None? || stride == 0 || allocFails <==> ia == null
      ensures ia != null ==>
                && fresh(ia) && fresh(ia.coll) && ia.Valid() && ia.coll.owns && ia.coll.stride == stride
                && ia.Contents() == Packed(source.value, stride)
                && var k := |NonEmpty(source.value)|;
                   ia.nextSlot == if k < |source.value| then k else 0
    {
      if source.None? {
        return null;
      }
      var src := source.value;
      var cap := |src|;
      ia := New(cap, stride, allocFails);
      if ia == null {
        return null;
      }
      PackedSoFarStart(ia.Contents(), src, stride);
      var i := 0;
      while i < cap
        invariant 0 <= i <= cap
        invariant fresh(ia) && fresh(ia.coll) && fresh(ia.coll.buf)
        invariant ia.Valid() && ia.Capacity() == cap && ia.coll.stride == stride && ia.coll.owns
        invariant PackedSoFar(ia.Contents(), ia.nextSlot, src, i, stride)
      {
        var value := src[i];
        var empty := IsSlotEmpty(value, stride);
        if empty {
          PackedSoFarSkip(ia.Contents(), ia.nextSlot, src, i, stride);
        } else {
          ghost var before, hint := ia.Contents(), ia.nextSlot;
          PackedSoFarScan(before, hint, src, i, stride);
          var h := ia.Add(Some(value), false);
          PackedSoFarAdd(before, hint, src, i, stride, ia.Contents(), ia.nextSlot, h);
        }
        i := i + 1;
      }
      assert src[..cap] == src;
    }
  }
}
