/**
 * Fixed-stride slots. A slot is the `stride` bytes at one index of a buffer;
 * the value container recognises an empty slot by its content alone: all bytes zero.
 */
module Slots {

  /** The bytes of one slot. */
  type Slot = seq<bv8>

  /** A slot is empty exactly when every one of its bytes is zero. */
  predicate AllZero(s: Slot) {
    forall i :: 0 <= i < |s| ==> s[i] == 0
  }

  /** The all-zero slot of a given stride (what `memset(slot, 0, stride)` leaves). */
  function Zeros(stride: nat): (z: Slot)
    ensures |z| == stride && AllZero(z)
  {
    seq(stride, _ => 0)
  }

  /** Every slot of a buffer holds exactly `stride` bytes. */
  ghost predicate WellFormed(slots: seq<Slot>, stride: nat) {
    forall i :: 0 <= i < |slots| ==> |slots[i]| == stride
  }

  /** The byte loop of `is_slot_empty`: looks at the `stride` bytes of the slot one by one. */
  method IsSlotEmpty(slot: Slot, stride: nat) returns (empty: bool)
    requires |slot| == stride
    ensures empty <==> AllZero(slot)
  {
    var i := 0;
    while i < stride
      invariant 0 <= i <= stride
      invariant forall j :: 0 <= j < i ==> slot[j] == 0
    {
      if slot[i] != 0 {
        return false;
      }
      i := i + 1;
    }
    return true;
  }

  /** `zero_slot` over a run of slots: the `memset(buf + from * stride, 0, (to - from) * stride)` calls. */
  method ZeroRange(buf: array<Slot>, from: nat, to: nat, stride: nat)
    requires from <= to <= buf.Length
    modifies buf
    ensures forall i :: from <= i < to ==> buf[i] == Zeros(stride)
    ensures forall i :: 0 <= i < buf.Length && !(from <= i < to) ==> buf[i] == old(buf[i])
  {
    var i := from;
    while i < to
      invariant from <= i <= to
      invariant forall j :: from <= j < i ==> buf[j] == Zeros(stride)
      invariant forall j :: 0 <= j < buf.Length && !(from <= j < i) ==> buf[j] == old(buf[j])
    {
      buf[i] := Zeros(stride);
      i := i + 1;
    }
  }
}
