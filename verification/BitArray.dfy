/** pg/pg.h: the bit array, a byte buffer read as a set of indices. */
module BitArray {
  import opened Arithmetic
  import opened Metainfo

  /** `1 << k` */
  function Mask(k: nat): bv8
    requires k < 8
  {
    1 << k
  }

  lemma MaskTable(k: nat)
    requires k < 8
    ensures Mask(k) == if k == 0 then 1 else if k == 1 then 2 else if k == 2 then 4 else if k == 3 then 8
                       else if k == 4 then 16 else if k == 5 then 32 else if k == 6 then 64 else 128
  {
  }

  /** `byte & (1 << k)` */
  predicate IsOn(b: bv8, k: nat) requires k < 8 { b & Mask(k) != 0 }

  /** `byte | (1 << k)` */
  function On(b: bv8, k: nat): bv8 requires k < 8 { b | Mask(k) }

  /** `byte & ~(1 << k)` */
  function Off(b: bv8, k: nat): bv8 requires k < 8 { b & !Mask(k) }

  lemma OnOff(b: bv8, i: nat, j: nat)
    requires i < 8 && j < 8
    ensures IsOn(On(b, i), j) <==> i == j || IsOn(b, j)
    ensures IsOn(Off(b, i), j) <==> i != j && IsOn(b, j)
  {
    hide Mask;
    MaskTable(i);
    MaskTable(j);
  }

  lemma FullByte(j: nat)
    requires j < 8
    ensures IsOn(0xff, j) && !IsOn(0, j)
  {
    MaskTable(j);
  }

  /** Bit `i` of a byte buffer. */
  predicate HasBit(data: seq<bv8>, i: nat)
    requires i / 8 < |data|
  {
    IsOn(data[i / 8], i % 8)
  }

  lemma SetBit(data: seq<bv8>, i: nat, j: nat)
    requires i / 8 < |data| && j / 8 < |data|
    ensures HasBit(data[i / 8 := On(data[i / 8], i % 8)], j) <==> i == j || HasBit(data, j)
    ensures HasBit(data[i / 8 := Off(data[i / 8], i % 8)], j) <==> i != j && HasBit(data, j)
  {
    hide IsOn, On, Off;
    OnOff(data[i / 8], i % 8, j % 8);
    SameIndex(i, j);
  }

  lemma SameIndex(i: nat, j: nat)
    ensures i == j <==> i / 8 == j / 8 && i % 8 == j % 8
  {
  }

  class Bits {
    var data: array<bv8>
    const maxIndex: nat

    ghost predicate Valid()
      reads this
    {
      data.Length == 1 + CeilDiv(maxIndex, 8)
    }

    /** The indices that are set, up to the largest one. */
    ghost function Members(): (s: set<nat>)
      requires Valid()
      reads this, data
    {
      Indices(data[..], maxIndex)
    }

    /** pg_bitarray_init: the allocator hands out zeroed memory. */
    constructor (max: nat)
      ensures Valid() && fresh(data) && maxIndex == max && Members() == {}
    {
      maxIndex := max;
      data := new bv8[1 + CeilDiv(max, 8)](_ => 0);
      new;
      forall i: nat | i <= max ensures i / 8 < data.Length && !HasBit(data[..], i) {
        InRange(i, max);
        FullByte(i % 8);
      }
    }

    /** pg_bitarray_set_all. The spare bits past the last index are set too, and never looked at. */
    method SetAll()
      requires Valid()
      modifies data
      ensures Valid() && Members() == Below(maxIndex + 1)
    {
      forall k | 0 <= k < data.Length { data[k] := 0xff; }
      forall i: nat | i <= maxIndex ensures i / 8 < data.Length && HasBit(data[..], i) {
        InRange(i, maxIndex);
        FullByte(i % 8);
      }
    }

    /** pg_bitarray_get; the assertion lets through every index inside the buffer. */
    method Get(i: nat) returns (b: bool)
      requires Valid() && i / 8 < data.Length
      ensures b <==> HasBit(data[..], i)
      ensures i <= maxIndex ==> (b <==> i in Members())
    {
      b := IsOn(data[i / 8], i % 8);
    }

    /** pg_bitarray_set: an index past the largest one only touches a spare bit. */
    method Set(i: nat)
      requires Valid() && i / 8 < data.Length
      modifies data
      ensures Valid() && HasBit(data[..], i)
      ensures Members() == if i <= maxIndex then old(Members()) + {i} else old(Members())
    {
      ghost var before := data[..];
      data[i / 8] := On(data[i / 8], i % 8);
      assert data[..] == before[i / 8 := On(before[i / 8], i % 8)];
      SetBit(before, i, i);
      forall j: nat | j <= maxIndex
        ensures j / 8 < data.Length && (HasBit(data[..], j) <==> j == i || HasBit(before, j)) {
        InRange(j, maxIndex);
        SetBit(before, i, j);
      }
    }

    /** pg_bitarray_unset */
    method Unset(i: nat)
      requires Valid() && i / 8 < data.Length
      modifies data
      ensures Valid() && !HasBit(data[..], i)
      ensures Members() == old(Members()) - {i}
    {
      ghost var before := data[..];
      data[i / 8] := Off(data[i / 8], i % 8);
      assert data[..] == before[i / 8 := Off(before[i / 8], i % 8)];
      SetBit(before, i, i);
      forall j: nat | j <= maxIndex
        ensures j / 8 < data.Length && (HasBit(data[..], j) <==> j != i && HasBit(before, j)) {
        InRange(j, maxIndex);
        SetBit(before, i, j);
      }
    }

    /** pg_bitarray_setv: the first bytes of the buffer are replaced. */
    method SetV(bytes: seq<bv8>)
      requires Valid() && |bytes| <= data.Length
      modifies data
      ensures Valid() && Members() == Overwritten(bytes, maxIndex, old(Members()))
    {
      ghost var before := data[..];
      forall k | 0 <= k < |bytes| { data[k] := bytes[k]; }
      forall j: nat | j <= maxIndex
        ensures j / 8 < data.Length &&
          (HasBit(data[..], j) <==> if j / 8 < |bytes| then HasBit(bytes, j) else HasBit(before, j))
      {
        InRange(j, maxIndex);
      }
    }

    /** pg_bitarray_count_set */
    method CountSet() returns (n: nat)
      requires Valid()
      ensures n == |Members()|
    {
      n := 0;
      var i := 0;
      ghost var all := Members();
      MembersBelow(data[..], maxIndex);
      hide Indices;
      while i <= maxIndex
        invariant 0 <= i <= maxIndex + 1
        invariant n == |Prefix(all, i)|
      {
        InRange(i, maxIndex);
        PrefixStep(all, i);
        var b := Get(i);
        if b { n := n + 1; }
        i := i + 1;
      }
    }
  }

  /** The indices up to `max` whose bit is set. */
  ghost function Indices(data: seq<bv8>, max: nat): set<nat>
    requires |data| == 1 + CeilDiv(max, 8)
  {
    set i: nat | i <= max && (InRange(i, max); HasBit(data, i))
  }

  /** The members once the bits of `bytes` have replaced the first ones. */
  ghost function Overwritten(bytes: seq<bv8>, max: nat, members: set<nat>): set<nat> {
    set i: nat | i <= max && (if i / 8 < |bytes| then HasBit(bytes, i) else i in members)
  }

  ghost function Prefix(all: set<nat>, i: nat): set<nat> { set k | k in all && k < i }

  lemma PrefixStep(all: set<nat>, i: nat)
    ensures |Prefix(all, 0)| == 0
    ensures |Prefix(all, i + 1)| == |Prefix(all, i)| + (if i in all then 1 else 0)
  {
    assert Prefix(all, 0) == {};
    assert Prefix(all, i + 1) == if i in all then Prefix(all, i) + {i} else Prefix(all, i);
  }

  lemma MembersBelow(data: seq<bv8>, max: nat)
    requires |data| == 1 + CeilDiv(max, 8)
    ensures Prefix(Indices(data, max), max + 1) == Indices(data, max) && Prefix(Indices(data, max), 0) == {}
  {
  }

  /** The buffer is long enough for every index. */
  lemma InRange(i: nat, max: nat)
    requires i <= max
    ensures i / 8 < 1 + CeilDiv(max, 8)
  {
  }
}
