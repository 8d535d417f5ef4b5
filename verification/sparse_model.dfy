/**
 * The value-level meaning of the sparse value container: its slots as a sequence,
 * the circular scan `add` performs, the outcome of `add`, and the cursor of the
 * sparse iterator. The container class and the iterator class are proved against
 * these definitions; the properties of the container are lemmas about them.
 */
module SparseModel {
  import opened Wrappers
  import opened Slots
  import Collections

  /** `is_empty_slot`: out of range, or all bytes zero. */
  predicate EmptyAt(slots: seq<Slot>, index: nat) {
    index >= |slots| || AllZero(slots[index])
  }

  /** `get_at`: the slot's bytes, or a failure when out of range or empty. */
  function Lookup(slots: seq<Slot>, index: nat): (r: Result<Slot>)
    ensures r.Fail? <==> EmptyAt(slots, index)
    ensures r.Ok? ==> index < |slots| && r.value == slots[index]
  {
    if EmptyAt(slots, index) then Fail else Ok(slots[index])
  }

  /** Some slot of the container is empty. */
  ghost predicate HasEmptySlot(slots: seq<Slot>) {
    exists idx :: 0 <= idx < |slots| && AllZero(slots[idx])
  }

  // ---------------------------------------------------------------------------
  // The circular scan of `add`

  /** The slot the `i`-th probe of the scan inspects. */
  function Probe(start: nat, i: nat, n: nat): nat
    requires n > 0
  {
    (start + i) % n
  }

  /** Reference definition of the scan: the first probe offset in `i .. n-1` that lands on an empty slot. */
  function ScanFrom(slots: seq<Slot>, start: nat, i: nat): (r: Option<nat>)
    ensures r.Some? ==> i <= r.value < |slots| && AllZero(slots[Probe(start, r.value, |slots|)])
    decreases |slots| - i
  {
    if i >= |slots| then None
    else if AllZero(slots[Probe(start, i, |slots|)]) then Some(i)
    else ScanFrom(slots, start, i + 1)
  }

  /** A successful scan stops at an empty slot, and every probe before it is occupied. */
  lemma {:induction false} ScanFromSome(slots: seq<Slot>, start: nat, i: nat, k: nat)
    requires ScanFrom(slots, start, i) == Some(k)
    ensures i <= k < |slots|
    ensures AllZero(slots[Probe(start, k, |slots|)])
    ensures forall j :: i <= j < k ==> !AllZero(slots[Probe(start, j, |slots|)])
    decreases |slots| - i
  {
    if !AllZero(slots[Probe(start, i, |slots|)]) {
      ScanFromSome(slots, start, i + 1, k);
    }
  }

  /** A scan fails exactly when every remaining probe lands on an occupied slot. */
  lemma {:induction false} ScanFromNone(slots: seq<Slot>, start: nat, i: nat)
    ensures ScanFrom(slots, start, i).None? <==>
              forall j :: i <= j < |slots| ==> !AllZero(slots[Probe(start, j, |slots|)])
    decreases |slots| - i
  {
    if i < |slots| && !AllZero(slots[Probe(start, i, |slots|)]) {
      ScanFromNone(slots, start, i + 1);
    }
  }

  /** With a hint no larger than the capacity, the probes of a full scan reach every slot. */
  lemma ProbeCovers(start: nat, idx: nat, n: nat) returns (j: nat)
    requires start <= n && idx < n
    ensures j < n && Probe(start, j, n) == idx
  {
    if idx >= start {
      j := idx - start;
      ModBelow(idx, n);
    } else {
      j := idx + n - start;
      ModOnce(idx + n, n);
    }
  }

  lemma ModBelow(x: nat, n: nat)
    requires x < n
    ensures x % n == x
  {
  }

  lemma ModOnce(x: nat, n: nat)
    requires n <= x < 2 * n
    ensures x % n == x - n
  {
  }

  /** The scan finds a slot exactly when the container has an empty slot. */
  lemma ScanFindsIffEmptySlot(slots: seq<Slot>, start: nat)
    requires start <= |slots|
    ensures ScanFrom(slots, start, 0).Some? <==> HasEmptySlot(slots)
  {
    ScanFromNone(slots, start, 0);
    if HasEmptySlot(slots) {
      var idx :| 0 <= idx < |slots| && AllZero(slots[idx]);
      var j := ProbeCovers(start, idx, |slots|);
      assert AllZero(slots[Probe(start, j, |slots|)]);
    }
    if ScanFrom(slots, start, 0).Some? {
      var k := ScanFrom(slots, start, 0).value;
      ScanFromSome(slots, start, 0, k);
    }
  }

  // ---------------------------------------------------------------------------
  // The outcome of `add`

  /**
   * The state `add` of a value `v` leaves behind, from slots `slots` and hint `next`, with
   * the new slots `slots'`, the new hint `next'` and the returned handle `h`. When the scan
   * finds an empty slot, `v` goes there and the hint moves one past it, modulo the capacity.
   * Otherwise the buffer grows to `NewCapacity`, the old slots keep their place, `v` is written
   * at half the new capacity, the slots above it are zero and the hint is one past it. From
   * capacity 0 the new capacity is 8, so the handle is 4 and slots 0..3 are not constrained.
   */
  ghost predicate AddOutcome(slots: seq<Slot>, next: nat, v: Slot, slots': seq<Slot>, next': nat, h: nat): (ok: bool)
    ensures ok ==> |slots| <= |slots'| && h < |slots'| && slots'[h] == v && next' <= |slots'|
    ensures ok ==> forall i :: 0 <= i < |slots| && i != h ==> slots'[i] == slots[i]
  {
    match ScanFrom(slots, next, 0)
    case Some(k) =>
      && |slots| > 0
      && h == Probe(next, k, |slots|)
      && slots' == slots[h := v]
      && next' == (h + 1) % |slots|
    case None =>
      var c2 := Collections.NewCapacity(|slots|);
      && |slots'| == c2
      && h == c2 / 2
      && slots'[..|slots|] == slots
      && slots'[h] == v
      && (forall i :: h < i < c2 ==> AllZero(slots'[i]))
      && next' == h + 1
  }

  /** Round trip: the handle `add` returns reads back the value it was given, if that value is not all zero. */
  lemma AddRoundTrip(slots: seq<Slot>, next: nat, v: Slot, slots': seq<Slot>, next': nat, h: nat)
    requires AddOutcome(slots, next, v, slots', next', h) && !AllZero(v)
    ensures Lookup(slots', h) == Ok(v)
  {
  }

  /** An all-zero value gets a handle, but its slot still reads as empty. */
  lemma AddZeroValueReadsEmpty(slots: seq<Slot>, next: nat, v: Slot, slots': seq<Slot>, next': nat, h: nat)
    requires AddOutcome(slots, next, v, slots', next', h) && AllZero(v)
    ensures h < |slots'| && Lookup(slots', h) == Fail
  {
  }

  /** Handles survive `add`, growth included: every slot that read `w` before still reads `w`. */
  lemma AddKeepsHandles(slots: seq<Slot>, next: nat, v: Slot, slots': seq<Slot>, next': nat, h: nat, k: nat, w: Slot)
    requires AddOutcome(slots, next, v, slots', next', h)
    requires Lookup(slots, k) == Ok(w)
    ensures Lookup(slots', k) == Ok(w)
  {
    match ScanFrom(slots, next, 0)
    case Some(j) =>
      ScanFromSome(slots, next, 0, j);
      assert h != k;
    case None =>
      assert slots'[..|slots|][k] == slots'[k];
  }

  /** Without growth, `add` fills the first empty slot in circular order from the hint and changes no other slot. */
  lemma AddPlacement(slots: seq<Slot>, next: nat, v: Slot, slots': seq<Slot>, next': nat, h: nat) returns (k: nat)
    requires AddOutcome(slots, next, v, slots', next', h)
    requires next <= |slots| && HasEmptySlot(slots)
    ensures k < |slots| && h == Probe(next, k, |slots|)
    ensures AllZero(slots[h])
    ensures forall j :: 0 <= j < k ==> !AllZero(slots[Probe(next, j, |slots|)])
    ensures |slots'| == |slots| && slots'[h] == v
    ensures forall i :: 0 <= i < |slots| && i != h ==> slots'[i] == slots[i]
    ensures next' == (h + 1) % |slots|
  {
    ScanFindsIffEmptySlot(slots, next);
    k := ScanFrom(slots, next, 0).value;
    ScanFromSome(slots, next, 0, k);
  }

  /** Slot reuse before growth: `add` grows the buffer exactly when no slot is empty, and then doubles it. */
  lemma AddGrowsOnlyWhenFull(slots: seq<Slot>, next: nat, v: Slot, slots': seq<Slot>, next': nat, h: nat)
    requires AddOutcome(slots, next, v, slots', next', h) && next <= |slots|
    ensures |slots'| >= |slots|
    ensures |slots'| == |slots| <==> HasEmptySlot(slots)
    ensures !HasEmptySlot(slots) ==> |slots'| == Collections.NewCapacity(|slots|)
    ensures !HasEmptySlot(slots) && |slots| > 0 ==> h == |slots| && |slots'| == 2 * |slots|
  {
    ScanFindsIffEmptySlot(slots, next);
  }

  /** `add` keeps the hint within `0 ..= capacity`; it can equal the capacity after growth. */
  /**
   * After `add` the hint is at most the capacity, and it equals the capacity only after growing
   * from a capacity of 1 (handle 1 in a buffer of 2). Otherwise it names a slot.
   */
  lemma AddKeepsHintInRange(slots: seq<Slot>, next: nat, v: Slot, slots': seq<Slot>, next': nat, h: nat)
    requires AddOutcome(slots, next, v, slots', next', h)
    ensures next' <= |slots'|
    ensures next' == |slots'| <==> ScanFrom(slots, next, 0).None? && |slots| == 1
  {
    match ScanFrom(slots, next, 0)
    case Some(k) =>
      assert next' == (h + 1) % |slots| && |slots'| == |slots|;
    case None =>
      var c2 := Collections.NewCapacity(|slots|);
      assert next' == c2 / 2 + 1 && |slots'| == c2;
  }

  /** When exactly one slot is empty, `add` returns that slot without growing. */
  lemma AddReusesOnlyEmptySlot(slots: seq<Slot>, next: nat, v: Slot, slots': seq<Slot>, next': nat, h: nat, free: nat)
    requires AddOutcome(slots, next, v, slots', next', h) && next <= |slots|
    requires free < |slots| && AllZero(slots[free])
    requires forall i :: 0 <= i < |slots| && i != free ==> !AllZero(slots[i])
    ensures h == free && |slots'| == |slots|
  {
    var k := AddPlacement(slots, next, v, slots', next', h);
  }

  /** On a full container, removing handle `h0` and adding again returns `h0` without growing. */
  lemma RemoveThenAddReuses(slots: seq<Slot>, stride: nat, h0: nat, next: nat, v: Slot, slots': seq<Slot>, next': nat, h: nat)
    requires !HasEmptySlot(slots) && h0 < |slots| && next <= |slots|
    requires AddOutcome(slots[h0 := Zeros(stride)], next, v, slots', next', h)
    ensures h == h0 && |slots'| == |slots|
  {
    AddReusesOnlyEmptySlot(slots[h0 := Zeros(stride)], next, v, slots', next', h, h0);
  }

  /** Growth from capacity 0: the buffer becomes 8 slots, the handle is 4 and the hint 5. */
  lemma AddToEmptyBuffer(v: Slot, slots': seq<Slot>, next': nat, h: nat)
    requires AddOutcome([], 0, v, slots', next', h)
    ensures |slots'| == 8 && h == 4 && next' == 5 && slots'[4] == v
  {
  }

  /** `remove_at` of `h`: the slot reads as empty, every other slot reads as before. */
  lemma RemoveEmptiesOnlyThatSlot(slots: seq<Slot>, stride: nat, h: nat, k: nat)
    requires h < |slots|
    ensures Lookup(slots[h := Zeros(stride)], h) == Fail
    ensures k != h ==> Lookup(slots[h := Zeros(stride)], k) == Lookup(slots, k)
  {
  }

  // ---------------------------------------------------------------------------
  // The sparse iterator

  /** The sparse iterator's position: the `current` index and the `positioned` flag. */
  datatype Cursor = Cursor(current: nat, positioned: bool)

  /** The cursor of a fresh or reset iterator. */
  const Start: Cursor := Cursor(0, false)

  /** The iterator's invariant: a positioned cursor lies below the capacity snapshot, any cursor at most at it. */
  predicate CursorOk(c: Cursor, limit: nat) {
    c.current <= limit && (c.positioned ==> c.current < limit)
  }

  /** The search loop of `sparse_iter_next`: the least occupied index in `cur .. limit-1`, else where the loop stops. */
  function Seek(slots: seq<Slot>, cur: nat, limit: nat): (k: nat)
    ensures cur <= k
    ensures k < limit ==> !EmptyAt(slots, k)
    ensures k >= limit ==> k == (if cur >= limit then cur else limit)
    ensures forall j :: cur <= j < k ==> EmptyAt(slots, j)
    decreases limit - cur
  {
    if cur >= limit || !EmptyAt(slots, cur) then cur else Seek(slots, cur + 1, limit)
  }

  /** One call of `sparse_iter_next`: step past a positioned index, then seek the next occupied one. */
  function Step(slots: seq<Slot>, c: Cursor, limit: nat): (r: Cursor)
    ensures CursorOk(c, limit) ==> CursorOk(r, limit)
    ensures r.positioned ==> !EmptyAt(slots, r.current)
    ensures forall j :: (if c.positioned then c.current + 1 else c.current) <= j < r.current ==> EmptyAt(slots, j)
  {
    var start := if c.positioned then c.current + 1 else c.current;
    var k := Seek(slots, start, limit);
    Cursor(k, k < limit)
  }

  /** The occupied indices from `cur` up to `limit`, in the order successive seeks find them. */
  function Trace(slots: seq<Slot>, cur: nat, limit: nat): seq<nat>
    decreases limit - cur
  {
    var k := Seek(slots, cur, limit);
    if k >= limit then [] else [k] + Trace(slots, k + 1, limit)
  }

  /** The indices the iterator has yet to report from cursor `c`. */
  function Pending(slots: seq<Slot>, c: Cursor, limit: nat): seq<nat> {
    Trace(slots, if c.positioned then c.current + 1 else c.current, limit)
  }

  /** The trace holds exactly the occupied indices in `cur .. limit-1`, strictly ascending. */
  lemma {:induction false} TraceIsOccupiedAscending(slots: seq<Slot>, cur: nat, limit: nat)
    ensures forall i :: i in Trace(slots, cur, limit) <==> cur <= i < limit && !EmptyAt(slots, i)
    ensures forall a, b :: 0 <= a < b < |Trace(slots, cur, limit)| ==>
              Trace(slots, cur, limit)[a] < Trace(slots, cur, limit)[b]
    decreases limit - cur
  {
    var k := Seek(slots, cur, limit);
    if k < limit {
      TraceIsOccupiedAscending(slots, k + 1, limit);
      var t := Trace(slots, cur, limit);
      assert t == [k] + Trace(slots, k + 1, limit);
      forall a, b | 0 <= a < b < |t| ensures t[a] < t[b] {
        if a == 0 {
          assert t[b] in Trace(slots, k + 1, limit);
        }
      }
    }
  }

  /**
   * Each call of `next` reports the first pending index and drops it from the pending ones;
   * with none pending it reports nothing, leaves the cursor at the capacity snapshot, and
   * keeps the cursor valid.
   */
  lemma StepTakesNextPending(slots: seq<Slot>, c: Cursor, limit: nat)
    requires CursorOk(c, limit)
    ensures CursorOk(Step(slots, c, limit), limit)
    ensures Step(slots, c, limit).positioned <==> Pending(slots, c, limit) != []
    ensures Pending(slots, c, limit) != [] ==>
              && Step(slots, c, limit).current == Pending(slots, c, limit)[0]
              && Pending(slots, Step(slots, c, limit), limit) == Pending(slots, c, limit)[1..]
    ensures Pending(slots, c, limit) == [] ==> Step(slots, c, limit) == Cursor(limit, false)
  {
  }

  /** Once `next` has returned false it keeps returning false, whatever the slots hold by then. */
  lemma ExhaustedStaysExhausted(slots: seq<Slot>, later: seq<Slot>, c: Cursor, limit: nat)
    requires CursorOk(c, limit) && !Step(slots, c, limit).positioned
    ensures !Step(later, Step(slots, c, limit), limit).positioned
  {
  }

  /** The indices reported by `n` successive calls of `next` from cursor `c`, over unchanged slots. */
  function Run(slots: seq<Slot>, c: Cursor, limit: nat, n: nat): seq<nat>
    decreases n
  {
    if n == 0 then []
    else
      var c' := Step(slots, c, limit);
      (if c'.positioned then [c'.current] else []) + Run(slots, c', limit, n - 1)
  }

  /** Successive calls of `next` report the pending indices in order, each once, and then nothing. */
  lemma {:induction false} RunReportsPending(slots: seq<Slot>, c: Cursor, limit: nat, n: nat)
    requires CursorOk(c, limit)
    ensures Run(slots, c, limit, n) ==
              if n <= |Pending(slots, c, limit)| then Pending(slots, c, limit)[..n] else Pending(slots, c, limit)
    decreases n
  {
    if n > 0 {
      StepTakesNextPending(slots, c, limit);
      var c' := Step(slots, c, limit);
      RunReportsPending(slots, c', limit, n - 1);
      var p := Pending(slots, c, limit);
      if p != [] {
        assert Run(slots, c, limit, n) == [p[0]] + Run(slots, c', limit, n - 1);
        if n <= |p| {
          assert p[..n] == [p[0]] + p[1..][..n - 1];
        } else {
          assert p == [p[0]] + p[1..];
        }
      } else {
        StepTakesNextPending(slots, c', limit);
      }
    }
  }

  /**
   * Iterator correctness: from a fresh or reset cursor, enough calls of `next` report exactly
   * the occupied indices below the capacity snapshot, in ascending order, each once.
   */
  lemma IterationVisitsOccupied(slots: seq<Slot>, limit: nat, n: nat)
    requires n > limit
    ensures var r := Run(slots, Start, limit, n);
      && (forall i: nat :: i in r <==> i < limit && !EmptyAt(slots, i))
      && (forall a, b :: 0 <= a < b < |r| ==> r[a] < r[b])
  {
    RunReportsPending(slots, Start, limit, n);
    TraceIsOccupiedAscending(slots, 0, limit);
    TraceLength(slots, 0, limit);
  }

  /** A trace never holds more indices than the range it covers. */
  lemma {:induction false} TraceLength(slots: seq<Slot>, cur: nat, limit: nat)
    ensures |Trace(slots, cur, limit)| <= if cur >= limit then 0 else limit - cur
    decreases limit - cur
  {
    var k := Seek(slots, cur, limit);
    if k < limit {
      TraceLength(slots, k + 1, limit);
    }
  }

  // ---------------------------------------------------------------------------
  // Copying from a dense source (`from_farray`)

  /** The non-empty elements of a dense source, in source order. */
  function NonEmpty(src: seq<Slot>): (r: seq<Slot>)
    ensures |r| <= |src|
    ensures forall i :: 0 <= i < |r| ==> !AllZero(r[i])
    decreases |src|
  {
    if src == [] then []
    else
      var last := src[|src| - 1];
      NonEmpty(src[..|src| - 1]) + (if AllZero(last) then [] else [last])
  }

  /** `ne` packed from slot 0 of a buffer of `cap` slots, every later slot empty. */
  function Layout(ne: seq<Slot>, cap: nat, stride: nat): (r: seq<Slot>)
    requires |ne| <= cap
    ensures |r| == cap
  {
    ne + seq(cap - |ne|, _ => Zeros(stride))
  }

  /** The slots `from_farray` produces: the non-empty source elements packed from index 0, then empty slots. */
  function Packed(src: seq<Slot>, stride: nat): (r: seq<Slot>)
    ensures |r| == |src|
  {
    Layout(NonEmpty(src), |src|, stride)
  }

  /** The packed container reads the `i`-th non-empty source element at handle `i`, and nothing beyond them. */
  lemma PackedLookup(src: seq<Slot>, stride: nat, i: nat)
    ensures Lookup(Packed(src, stride), i) ==
              if i < |NonEmpty(src)| then Ok(NonEmpty(src)[i]) else Fail
  {
  }

  /** Iterating the packed container reports exactly the handles of the non-empty source elements. */
  lemma PackedIteration(src: seq<Slot>, stride: nat)
    ensures Trace(Packed(src, stride), 0, |src|) == seq(|NonEmpty(src)|, i => i)
  {
    var p := Packed(src, stride);
    var t := Trace(p, 0, |src|);
    var e := seq(|NonEmpty(src)|, i => i);
    TraceIsOccupiedAscending(p, 0, |src|);
    forall i | 0 <= i < |src| ensures !EmptyAt(p, i) <==> i < |NonEmpty(src)| {
      PackedLookup(src, stride, i);
    }
    AscendingIsRange(t, |NonEmpty(src)|);
  }

  /** A strictly ascending sequence of naturals whose elements are exactly `0 .. k-1` is that range. */
  lemma AscendingIsRange(t: seq<nat>, k: nat)
    requires forall a, b :: 0 <= a < b < |t| ==> t[a] < t[b]
    requires forall i: nat :: i in t <==> i < k
    ensures t == seq(k, i => i)
  {
    forall j: nat | j < k ensures j < |t| && t[j] == j {
      RangePrefix(t, k, j);
    }
    if |t| > 0 {
      AscendingAtLeastIndex(t, |t| - 1);
      assert t[|t| - 1] in t;
      assert |t| - 1 < k;
    }
    if k > 0 {
      RangePrefix(t, k, k - 1);
    }
    assert |t| == k;
  }

  /** The `j`-th element of such a sequence is `j`. */
  lemma {:induction false} RangePrefix(t: seq<nat>, k: nat, j: nat)
    requires forall a, b :: 0 <= a < b < |t| ==> t[a] < t[b]
    requires forall i: nat :: i in t <==> i < k
    requires j < k
    ensures j < |t| && t[j] == j
    decreases j
  {
    assert j in t;
    var a :| 0 <= a < |t| && t[a] == j;
    if a < j {
      RangePrefix(t, k, a);
    }
    AscendingAtLeastIndex(t, a);
  }

  lemma {:induction false} AscendingAtLeastIndex(t: seq<nat>, j: nat)
    requires forall a, b :: 0 <= a < b < |t| ==> t[a] < t[b]
    requires j < |t|
    ensures t[j] >= j
  {
    if j > 0 {
      AscendingAtLeastIndex(t, j - 1);
    }
  }

}
