/** torrent/peer.h: which pieces a BITFIELD frame announces, read off the bytes on the wire. */
module PeerBitfield {
  import opened Arithmetic
  import opened BitArray
  import opened MachineInts
  import opened Metainfo
  import opened PeerWire
  import opened Picker

  /** Bit `k` of a number, bit 0 being the lowest. */
  function Bit(x: nat, k: nat): nat {
    DivShrinks(x, Pow2(k));
    x / Pow2(k) % 2
  }

  /** Halving a number shifts its bits. */
  lemma BitOfHalf(x: nat, k: nat)
    ensures Bit(x, k + 1) == Bit(x / 2, k)
  {
    var p := Pow2(k);
    Quotient(x / 2, p);
    var q, r := x / 2 / p, x / 2 % p;
    MulAssoc(2, p, q);
    assert 2 * (p * q) == 2 * p * q;
    DivShrinks(x / 2, p);
    Euclid(x, 2 * p, q, 2 * r + x % 2);
  }

  /** A multiple of a larger power of two added on top does not change a bit. */
  lemma {:induction false} BitBelow(top: nat, low: nat, n: nat, k: nat)
    requires k < n && low < Pow2(n)
    ensures Bit(top * Pow2(n) + low, k) == Bit(low, k)
    decreases n
  {
    var x := top * Pow2(n - 1);
    TopIsEven(top, n);
    hide Bit;
    LastBit(x, low);
    if k > 0 {
      BitOfHalf(2 * x + low, k - 1);
      BitOfHalf(low, k - 1);
      BitBelow(top, low / 2, n - 1, k - 1);
    }
  }

  lemma TopIsEven(top: nat, n: nat)
    requires n > 0
    ensures top * Pow2(n) == 2 * (top * Pow2(n - 1)) >= 0 && Pow2(n) == 2 * Pow2(n - 1)
  {
    MulAssoc(top, 2, Pow2(n - 1));
    MulAssoc(2, top, Pow2(n - 1));
    MulMono(top, 0, Pow2(n), 0);
  }

  lemma LastBit(x: nat, low: nat)
    ensures (2 * x + low) / 2 == x + low / 2 && Bit(2 * x + low, 0) == Bit(low, 0)
  {
    assert Pow2(0) == 1;
  }

  lemma BitOnTop(top: nat, low: nat, n: nat)
    requires top < 2 && low < Pow2(n)
    ensures Bit(top * Pow2(n) + low, n) == top
  {
    MulAssoc(top, Pow2(n), 1);
    Euclid(top * Pow2(n) + low, Pow2(n), top, low);
  }

  /** Reversing the bits: bit `k` of the result is bit `n - 1 - k`. */
  lemma {:induction false} ReversedBit(x: nat, n: nat, k: nat)
    requires k < n
    ensures Bit(ReverseBits(x, n), k) == Bit(x, n - 1 - k)
  {
    var low := ReverseBits(x / 2, n - 1);
    if k == n - 1 {
      BitOnTop(x % 2, low, n - 1);
      assert Pow2(0) == 1;
    } else {
      BitBelow(x % 2, low, n - 1, k);
      ReversedBit(x / 2, n - 1, k);
      BitOfHalf(x, n - 2 - k);
    }
  }

  lemma ByteReversed(b: byte, k: nat)
    requires k < 8
    ensures Bit(BitReverse(b) as int, k) == Bit(b as int, 7 - k)
  {
    ReversedBit(b as int, 8, k);
  }

  lemma HalfByte(v: bv8)
    ensures v as int / 2 == (v >> 1) as int && (v & 1 != 0 <==> v as int % 2 == 1)
  {
    LastOfByte(v);
    assert v as int == 2 * ((v >> 1) as int) + (v & 1) as int;
  }

  lemma LastOfByte(v: bv8) ensures (v & 1) as int == if v & 1 != 0 then 1 else 0 {}

  lemma IsOnHalf(v: bv8, k: nat)
    requires 0 < k < 8
    ensures IsOn(v, k) <==> IsOn(v >> 1, k - 1)
  {
    MaskTable(k);
    MaskTable(k - 1);
    hide Mask;
  }

  /** The test of one bit in the buffer. */
  lemma {:induction false} IsOnIff(v: bv8, k: nat)
    requires k < 8
    ensures IsOn(v, k) <==> Bit(v as int, k) == 1
    decreases k
  {
    HalfByte(v);
    if k == 0 {
      MaskTable(0);
      assert Pow2(0) == 1;
    } else {
      IsOnHalf(v, k);
      IsOnIff(v >> 1, k - 1);
      BitOfHalf(v as int, k - 1);
    }
    hide Mask;
  }

  /** After an accepted BITFIELD frame the peer has exactly the pieces whose bits are set on the wire, the high bit of
      each byte first; pieces past the payload are as before. */
  lemma BitfieldNamesPieces(m: Metainfo, r: seq<byte>, i: nat, before: set<nat>)
    requires m.piecesCount > 0 && ParseFrame(m, r).Got? && ParseFrame(m, r).msg.Bitfield? && i < m.piecesCount
    ensures var bits := ParseFrame(m, r).msg.bits;
      && |bits| + 5 <= |r|
      && (i in Overwritten(AsBits(bits), m.piecesCount - 1, before) <==>
            if i < 8 * |bits| then r[5 + i / 8] as int / Pow2(7 - i % 8) % 2 == 1 else i in before)
  {
    BitfieldBytes(m, r);
    hide ParseFrame, BitReverse, IsOn;
    var bits := ParseFrame(m, r).msg.bits;
    if i < 8 * |bits| {
      var b := r[5 + i / 8];
      ByteReversed(b, i % 8);
      IsOnIff(BitReverse(b) as bv8, i % 8);
      ByteRoundTrip(BitReverse(b));
      assert AsBits(bits)[i / 8] == BitReverse(b) as bv8;
    }
  }

  lemma BitfieldBytes(m: Metainfo, r: seq<byte>)
    requires m.piecesCount > 0 && ParseFrame(m, r).Got? && ParseFrame(m, r).msg.Bitfield?
    ensures var bits := ParseFrame(m, r).msg.bits;
      |bits| + 5 <= |r| && forall k :: 0 <= k < |bits| ==> bits[k] == BitReverse(r[5 + k])
  {
    hide BitReverse, GetU32, BitfieldSize, PieceLength, BlockForPieceLength;
  }
}
