/**
 * The generic growable stride buffer (`collection`) and its dense iterator.
 * A collection owns or borrows a bucket of fixed-stride slots, keeps a logical
 * length of leading elements, and doubles its bucket on demand.
 */
module Collections {
  import opened Wrappers
  import opened Slots

  /** The capacity `collection_grow` moves to: 8 from an empty bucket, otherwise twice the old one. */
  function NewCapacity(capacity: nat): (c: nat)
    ensures c > capacity && c % 2 == 0
    ensures capacity > 0 ==> c / 2 == capacity
  {
    if capacity == 0 then 8 else capacity * 2
  }

  /** The position of the first element equal to `x`, or `|s|` when there is none. */
  function IndexOf(s: seq<Slot>, x: Slot): (i: nat)
    ensures i <= |s|
    ensures i < |s| <==> x in s
    ensures i < |s| ==> s[i] == x
    ensures forall j :: 0 <= j < i ==> s[j] != x
  {
    if |s| == 0 then 0
    else if s[0] == x then 0
    else 1 + IndexOf(s[1..], x)
  }

  /** `s` without its element at position `i`, the others kept in order. */
  function RemovedAt(s: seq<Slot>, i: nat): (r: seq<Slot>)
    requires i < |s|
    ensures |r| == |s| - 1
    ensures forall k :: 0 <= k < i ==> r[k] == s[k]
    ensures forall k :: i <= k < |r| ==> r[k] == s[k + 1]
  {
    s[..i] + s[i + 1..]
  }

  /** Removing an element takes exactly one occurrence of it out of the multiset of elements. */
  lemma RemovedAtMultiset(s: seq<Slot>, i: nat)
    requires i < |s|
    ensures multiset(RemovedAt(s, i)) == multiset(s) - multiset{s[i]}
  {
    assert s == s[..i] + [s[i]] + s[i + 1..];
  }

  /** Removing an element that was just appended, and that was not there before, gives back the old elements. */
  lemma RemoveUndoesAdd(s: seq<Slot>, x: Slot)
    requires x !in s
    ensures IndexOf(s + [x], x) == |s|
    ensures RemovedAt(s + [x], IndexOf(s + [x], x)) == s
  {
  }

  /** The cursor after `k` calls of `iter_next` starting at `cur`, over a logical length `len`. */
  function DenseAdvance(cur: nat, len: nat, k: nat): nat
    decreases k
  {
    if k == 0 || cur >= len then cur else DenseAdvance(cur + 1, len, k - 1)
  }

  /** A dense walk moves the cursor one step per call until it reaches the logical length, then stays. */
  lemma {:induction false} DenseAdvanceStops(cur: nat, len: nat, k: nat)
    ensures DenseAdvance(cur, len, k) == if cur >= len then cur else if cur + k <= len then cur + k else len
    decreases k
  {
    if k > 0 && cur < len {
      DenseAdvanceStops(cur + 1, len, k - 1);
    }
  }

  class Collection {
    /** The bucket: `Capacity()` slots of `stride` bytes, the bytes between `bucket` and `end`. */
    var buf: array<Slot>
    /** The logical length: how many leading slots hold elements. */
    var length: nat
    /** The element size in bytes; fixed for the collection's lifetime. */
    const stride: nat
    /** Whether the collection owns its bucket (false for a view over caller memory). */
    const owns: bool
    /** The storage tag: 'F' stores values, 'P' stores pointers. */
    const tag: char

    ghost predicate Valid()
      reads this, buf
    {
      stride > 0 && length <= buf.Length && WellFormed(buf[..], stride)
    }

    /** The elements, in order. */
    ghost function Elements(): seq<Slot>
      reads this, buf
      requires length <= buf.Length
    {
      buf[..length]
    }

    /** `(end - bucket) / stride`: the number of slots in the bucket. */
    function Capacity(): nat
      reads this
    {
      buf.Length
    }

    /** `collection_new`: an owned, zero-filled bucket of `capacity` slots with tag 'P'. */
    constructor New(capacity: nat, stride: nat)
      requires stride > 0
      ensures Valid() && fresh(buf)
      ensures buf.Length == capacity && length == 0 && this.stride == stride
      ensures owns && tag == 'P'
      ensures forall i :: 0 <= i < buf.Length ==> buf[i] == Zeros(stride)
    {
      buf := new Slot[capacity](_ => Zeros(stride));
      length := 0;
      this.stride := stride;
      owns := true;
      tag := 'P';
    }

    /** `collection_new`: NULL when the allocation fails, otherwise a collection as `New` builds it. */
    static method Create(capacity: nat, stride: nat, allocFails: bool) returns (c: Collection?)
      requires stride > 0
      ensures allocFails <==> c == null
      ensures c != null ==>
                && fresh(c) && fresh(c.buf) && c.Valid()
                && c.buf.Length == capacity && c.length == 0 && c.stride == stride
                && c.owns && c.tag == 'P'
                && forall i :: 0 <= i < c.buf.Length ==> c.buf[i] == Zeros(stride)
    {
      if allocFails {
        return null;
      }
      c := new Collection.New(capacity, stride);
    }

    /** The non-owning collection `from_buffer` builds over caller memory: tag 'F', length 0, content untouched. */
    constructor View(buffer: array<Slot>, stride: nat)
      requires stride > 0 && WellFormed(buffer[..], stride)
      ensures Valid() && buf == buffer && length == 0 && this.stride == stride
      ensures !owns && tag == 'F'
    {
      buf := buffer;
      length := 0;
      this.stride := stride;
      owns := false;
      tag := 'F';
    }

    /** `collection_get_stride`. */
    function GetStride(): (s: nat)
      reads this, buf
      requires Valid()
      ensures s > 0
    {
      stride
    }

    /** `collection_count` (also `collection_get_count` and `collection_get_length`). */
    function Count(): (n: nat)
      reads this, buf
      requires Valid()
      ensures n <= Capacity()
      ensures n == |Elements()|
    {
      length
    }

    /** `collection_set_length`. */
    method SetLength(n: nat)
      requires Valid() && n <= buf.Length
      modifies this
      ensures Valid() && length == n && buf == old(buf)
    {
      length := n;
    }

    /**
     * `collection_grow`: move to a bucket of `NewCapacity` slots holding the old slots in its
     * low part. The new upper part is whatever the allocator returned: the contract says
     * nothing about it beyond its slot size. An allocation failure leaves everything as it was.
     * The ownership flag is never changed, also for a non-owning view.
     */
    method Grow(allocFails: bool) returns (status: Status)
      requires Valid()
      modifies this
      ensures Valid() && length == old(length)
      ensures status == ERR <==> allocFails
      ensures allocFails ==> buf == old(buf)
      ensures !allocFails ==> fresh(buf) && buf.Length == NewCapacity(old(buf.Length))
      ensures !allocFails ==> buf[..old(buf.Length)] == old(buf[..])
    {
      if allocFails {
        return ERR;
      }
      var current := buf.Length;
      var newCapacity := NewCapacity(current);
      var bucket := new Slot[newCapacity](_ => Zeros(stride));
      var i := 0;
      while i < current
        invariant 0 <= i <= current
        invariant buf == old(buf) && length == old(length) && current == buf.Length
        invariant forall k :: 0 <= k < i ==> bucket[k] == buf[k]
        invariant WellFormed(bucket[..], stride)
      {
        bucket[i] := buf[i];
        i := i + 1;
      }
      buf := bucket;
      return OK;
    }

    /**
     * `collection_add`: append at index `length`, growing first when the bucket is full. A tag-'F'
     * collection stores the item's own bytes; any other tag stores the pointer itself, that is the
     * `stride` bytes read from where the pointer argument lives, which the caller passes as
     * `address` because the model has no memory addresses. A NULL item, or a growth whose
     * allocation fails, changes nothing and reports ERR.
     */
    method Add(item: Option<Slot>, address: Slot, allocFails: bool) returns (status: Status)
      requires Valid()
      requires item.Some? ==> |item.value| == stride
      requires item.Some? && tag != 'F' ==> |address| == stride
      modifies this, buf
      ensures Valid()
      ensures status == OK <==> item.Some? && !(old(length) >= old(buf.Length) && allocFails)
      ensures status == OK ==> Elements() == old(Elements()) + [if tag == 'F' then item.value else address]
      ensures status == ERR ==> length == old(length) && buf == old(buf) && buf[..] == old(buf[..])
      ensures status == OK && old(length) < old(buf.Length) ==>
                buf == old(buf) && buf[..] == old(buf[..])[old(length) := if tag == 'F' then item.value else address]
      ensures status == OK && old(length) >= old(buf.Length) ==>
                fresh(buf) && buf.Length == NewCapacity(old(buf.Length))
    {
      if item.None? {
        return ERR;
      }
      if length >= buf.Length {
        var grown := Grow(allocFails);
        if grown != OK {
          return ERR;
        }
      }
      if tag == 'F' {
        buf[length] := item.value;
      } else {
        buf[length] := address;
      }
      length := length + 1;
      return OK;
    }

    /**
     * `collection_remove`: find the first element equal to `item`, shift the later elements one
     * slot left, zero the old last slot and shorten the collection; ERR, with nothing changed,
     * when `item` is NULL or not among the elements.
     */
    method Remove(item: Option<Slot>) returns (status: Status)
      requires Valid()
      requires item.Some? ==> |item.value| == stride
      modifies this, buf
      ensures Valid() && buf == old(buf)
      ensures status == OK <==> item.Some? && item.value in old(Elements())
      ensures status == ERR ==> length == old(length) && buf[..] == old(buf[..])
      ensures status == OK ==>
                && length == old(length) - 1
                && Elements() == RemovedAt(old(Elements()), IndexOf(old(Elements()), item.value))
                && buf[length] == Zeros(stride)
                && forall k :: old(length) <= k < buf.Length ==> buf[k] == old(buf[k])
    {
      if item.None? {
        return ERR;
      }
      var x := item.value;
      var i := 0;
      while i < length && buf[i] != x
        invariant 0 <= i <= length
        invariant forall j :: 0 <= j < i ==> buf[j] != x
      {
        i := i + 1;
      }
      if i == length {
        assert x !in old(Elements());
        return ERR;
      }
      assert IndexOf(old(Elements()), x) == i;
      DeleteAt(i);
      return OK;
    }

    /**
     * The match branch of `collection_remove`: shift the later elements one slot left over
     * position `i`, zero the old last slot and shorten the collection by one.
     */
    method DeleteAt(i: nat)
      requires Valid() && i < length
      modifies this, buf
      ensures Valid() && buf == old(buf) && length == old(length) - 1
      ensures Elements() == RemovedAt(old(Elements()), i)
      ensures buf[length] == Zeros(stride)
      ensures forall k :: old(length) <= k < buf.Length ==> buf[k] == old(buf[k])
    {
      ghost var before := buf[..length];
      ShiftLeft(i);
      buf[length - 1] := Zeros(stride);
      length := length - 1;
      ghost var removed := RemovedAt(before, i);
      forall k | 0 <= k < length ensures buf[k] == removed[k] {
      }
      assert Elements() == removed;
    }

    /** The shift loop of `collection_remove`: slots `from + 1 .. length - 1` move one place left. */
    method ShiftLeft(from: nat)
      requires Valid() && from < length
      modifies buf
      ensures Valid()
      ensures forall k :: 0 <= k < from ==> buf[k] == old(buf[k])
      ensures forall k :: from <= k < length - 1 ==> buf[k] == old(buf[k + 1])
      ensures forall k :: length - 1 <= k < buf.Length ==> buf[k] == old(buf[k])
    {
      var j := from;
      while j < length - 1
        invariant from <= j <= length - 1
        invariant forall k :: 0 <= k < from ==> buf[k] == old(buf[k])
        invariant forall k :: from <= k < j ==> buf[k] == old(buf[k + 1])
        invariant forall k :: j <= k < buf.Length ==> buf[k] == old(buf[k])
      {
        buf[j] := buf[j + 1];
        j := j + 1;
      }
    }

    /** `collection_clear`: zero every slot of the bucket and set the length to 0. */
    method Clear()
      requires Valid()
      modifies this, buf
      ensures Valid() && buf == old(buf) && length == 0
      ensures forall k :: 0 <= k < buf.Length ==> buf[k] == Zeros(stride)
    {
      ZeroRange(buf, 0, buf.Length, stride);
      length := 0;
    }

    /**
     * `collection_set_data`: copy `count` elements from `data` into the front of the bucket and
     * make `count` the length; a NULL `data` changes nothing.
     */
    method SetData(data: Option<seq<Slot>>, count: nat)
      requires Valid()
      requires data.Some? ==> count <= |data.value| && count <= buf.Length
      requires data.Some? ==> WellFormed(data.value[..count], stride)
      modifies this, buf
      ensures Valid() && buf == old(buf)
      ensures data.None? ==> length == old(length) && buf[..] == old(buf[..])
      ensures data.Some? ==> length == count && Elements() == data.value[..count]
      ensures data.Some? ==> buf[count..] == old(buf[count..])
    {
      if data.None? {
        return;
      }
      var i := 0;
      while i < count
        invariant 0 <= i <= count
        invariant buf == old(buf) && length == old(length)
        invariant forall k :: 0 <= k < i ==> buf[k] == data.value[k]
        invariant forall k :: i <= k < buf.Length ==> buf[k] == old(buf[k])
      {
        buf[i] := data.value[i];
        i := i + 1;
      }
      length := count;
    }
  }

  /** The dense iterator: a 1-based cursor over a collection's logical length. */
  class Iterator {
    const coll: Collection
    var current: nat

    /** `collection_create_iterator` after its checks: a cursor before the first element. */
    constructor (coll: Collection)
      ensures this.coll == coll && current == 0
    {
      this.coll := coll;
      current := 0;
    }

    /** `iter_next`: step onto the next element while one is left; otherwise change nothing. */
    method Next() returns (more: bool)
      modifies this
      ensures more <==> old(current) < coll.length
      ensures current == DenseAdvance(old(current), coll.length, 1)
    {
      if current >= coll.length {
        return false;
      }
      current := current + 1;
      return true;
    }

    /** `iter_current`: the element under the cursor, none before the first `next` or past the length. */
    function Current(): (r: Option<Slot>)
      reads this, coll, coll.buf
      requires coll.Valid()
      ensures r.Some? <==> 1 <= current <= coll.length
      ensures r.Some? ==> r.value == coll.Elements()[current - 1]
    {
      if current == 0 || current > coll.length then None else Some(coll.buf[current - 1])
    }

    /** `iter_reset`. */
    method Reset()
      modifies this
      ensures current == 0
    {
      current := 0;
    }
  }

  /** `collection_create_iterator`: NULL for a missing collection or a failed allocation. */
  method NewIterator(coll: Collection?, allocFails: bool) returns (it: Iterator?)
    ensures coll == null || allocFails <==> it == null
    ensures it != null ==> fresh(it) && it.coll == coll && it.current == 0
  {
    if coll == null || allocFails {
      return null;
    }
    it := new Iterator(coll);
  }
}
