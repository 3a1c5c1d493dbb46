/** pg/pg.h: the byte ring buffer. */
module Ring {
  import opened MachineInts
  import opened Arithmetic

  /** Index of the `i`th byte of a ring that starts at `offset`. */
  function Slot(offset: nat, i: nat, cap: nat): (k: nat)
    requires cap > 0
    ensures k < cap
  {
    (offset + i) % cap
  }

  lemma SlotIs(offset: nat, i: nat, cap: nat)
    requires offset < cap && i <= cap
    ensures Slot(offset, i, cap) == if offset + i < cap then offset + i else offset + i - cap
  {
    if offset + i >= cap { Once(offset + i, cap); } else { Euclid(offset + i, cap, 0, offset + i); }
  }

  lemma Once(x: nat, cap: nat)
    requires cap <= x < 2 * cap
    ensures x % cap == x - cap
  {
    Euclid(x, cap, 1, x - cap);
  }

  /** The bytes of the ring, first to last. */
  function Unroll(data: seq<byte>, offset: nat, len: nat): (s: seq<byte>)
    requires offset < |data| && len <= |data|
    ensures |s| == len
    ensures forall i :: 0 <= i < len ==> s[i] == data[if offset + i < |data| then offset + i else offset + i - |data|]
  {
    seq(len, i requires 0 <= i < len => data[if offset + i < |data| then offset + i else offset + i - |data|])
  }

  class RingBuffer {
    var data: array<byte>
    var len: uint64
    var offset: uint64

    ghost predicate Valid()
      reads this
    {
      0 < data.Length < TWO_64 / 2 && offset < data.Length && len <= data.Length
    }

    /** The abstract value: a bounded double-ended sequence. */
    ghost function Contents(): (s: seq<byte>)
      requires Valid()
      reads this, data
      ensures |s| == len
    {
      Unroll(data[..], offset, len)
    }

    /** pg_ring_init. */
    constructor (cap: nat)
      requires 0 < cap < TWO_64 / 2
      ensures Valid() && fresh(data) && data.Length == cap && Contents() == []
    {
      data := new byte[cap];
      len, offset := 0, 0;
    }

    /** pg_ring_get. */
    method Get(i: nat) returns (x: byte)
      requires Valid() && i < data.Length
      ensures x == data[Slot(i, offset, data.Length)]
      ensures i < len ==> x == Contents()[i]
    {
      SlotIs(offset, i, data.Length);
      x := data[Slot(i, offset, data.Length)];
    }

    /** pg_ring_back. */
    method Back() returns (x: byte)
      requires Valid() && len > 0
      ensures x == Contents()[len - 1]
    {
      SlotIs(offset, len - 1, data.Length);
      x := data[(offset + len - 1) % data.Length];
    }

    /** pg_ring_push_back. */
    method PushBack(x: byte)
      requires Valid() && len < data.Length
      modifies this`len, data
      ensures Valid() && Contents() == old(Contents()) + [x]
    {
      SlotIs(offset, len, data.Length);
      var index := (offset + len) % data.Length;
      data[index] := x;
      len := len + 1;
    }

    /** pg_ring_push_front. The index computation wraps around 2^64 when the offset is 0. */
    method PushFront(x: byte)
      requires Valid() && len < data.Length
      modifies this`len, this`offset, data
      ensures Valid() && Contents() == [x] + old(Contents())
    {
      OneBack(offset, data.Length);
      hide Wrap64, Unroll;
      ghost var was, at := data[..], offset;
      offset := Wrap64(Wrap64(offset - 1) + data.Length) % data.Length;
      data[offset] := x;
      assert data[..] == was[offset := x];
      PushedFront(was, at, offset, len, x);
      len := len + 1;
    }

    /** pg_ring_pop_back. */
    method PopBack() returns (x: byte)
      requires Valid() && len > 0
      modifies this`len
      ensures Valid() && old(Contents()) == Contents() + [x]
    {
      len := len - 1;
      SlotIs(offset, len, data.Length);
      var index := (offset + len) % data.Length;
      x := data[index];
    }

    /** pg_ring_pop_front. */
    method PopFront() returns (x: byte)
      requires Valid() && len > 0
      modifies this`len, this`offset
      ensures Valid() && old(Contents()) == [x] + Contents()
    {
      x := data[offset];
      SlotIs(offset, 1, data.Length);
      offset := (offset + 1) % data.Length;
      len := len - 1;
    }

    /** pg_ring_consume_front. */
    method ConsumeFront(n: nat)
      requires Valid() && n <= len
      modifies this`len, this`offset
      ensures Valid() && Contents() == old(Contents())[n..]
    {
      SlotIs(offset, n, data.Length);
      offset := (offset + n) % data.Length;
      len := len - n;
    }

    /** pg_ring_consume_back. */
    method ConsumeBack(n: nat)
      requires Valid() && n <= len
      modifies this`len
      ensures Valid() && Contents() == old(Contents())[..old(len) - n]
    {
      len := len - n;
    }

    /** pg_ring_clear. */
    method Clear()
      requires Valid()
      modifies this`len, this`offset
      ensures Valid() && Contents() == []
    {
      offset := 0;
      len := 0;
    }

    /** pg_ring_push_backv: at most two copies, one up to the end of the buffer and one from its start. */
    method PushBackV(bytes: seq<byte>)
      requires Valid() && len + |bytes| <= data.Length
      modifies this`len, data
      ensures Valid() && Contents() == old(Contents()) + bytes
    {
      ghost var before := data[..];
      SlotIs(offset, len, data.Length);
      var index := (offset + len) % data.Length;
      var spaceTail := data.Length - index;
      var tail := |bytes|;
      if tail > spaceTail { tail := spaceTail; }
      forall k | 0 <= k < tail { data[index + k] := bytes[k]; }
      var remain := |bytes| - tail;
      forall k | 0 <= k < remain { data[k] := bytes[tail + k]; }
      len := len + |bytes|;
      TwoCopies(before, data[..], offset, old(len), bytes, tail);
    }

    /** Pushing a vector is pushing its bytes one at a time. */
    method PushEach(bytes: seq<byte>)
      requires Valid() && len + |bytes| <= data.Length
      modifies this`len, data
      ensures Valid() && Contents() == old(Contents()) + bytes
    {
      for i := 0 to |bytes|
        invariant Valid() && len == old(len) + i && data.Length == old(data.Length)
        invariant Contents() == old(Contents()) + bytes[..i]
      {
        PushBack(bytes[i]);
      }
    }
  }

  lemma OneBack(offset: nat, cap: nat)
    requires offset < cap < TWO_64 / 2
    ensures Wrap64(Wrap64(offset - 1) + cap) % cap == if offset == 0 then cap - 1 else offset - 1
  {
    StepBack(offset, cap);
    hide Wrap64;
    if offset == 0 {
      SlotIs(cap - 1, 0, cap);
    } else {
      Once(offset - 1 + cap, cap);
    }
  }

  lemma PushedFront(was: seq<byte>, from: nat, to: nat, len: nat, x: byte)
    requires from < |was| && len < |was| && to == if from == 0 then |was| - 1 else from - 1
    ensures Unroll(was[to := x], to, len + 1) == [x] + Unroll(was, from, len)
  {
  }

  /** Adding the capacity undoes the borrow. */
  lemma StepBack(offset: nat, cap: nat)
    requires offset < cap < TWO_64 / 2
    ensures Wrap64(Wrap64(offset - 1) + cap) == offset - 1 + cap
  {
    if offset == 0 { assert Wrap64(-1) == TWO_64 - 1; }
  }

  lemma TwoCopies(before: seq<byte>, after: seq<byte>, offset: nat, len: nat, bytes: seq<byte>, tail: nat)
    requires |after| == |before| && offset < |before| && len + |bytes| <= |before|
    requires var index := Slot(offset, len, |before|);
      && tail == (if |bytes| > |before| - index then |before| - index else |bytes|)
      && forall k :: 0 <= k < |after| ==>
          after[k] == if k < |bytes| - tail then bytes[tail + k]
                      else if index <= k < index + tail then bytes[k - index] else before[k]
    ensures Unroll(after, offset, len + |bytes|) == Unroll(before, offset, len) + bytes
  {
    SlotIs(offset, len, |before|);
    var s := Unroll(after, offset, len + |bytes|);
    forall i | 0 <= i < len + |bytes| ensures s[i] == (Unroll(before, offset, len) + bytes)[i] {
      SlotIs(offset, i, |before|);
    }
  }
}
