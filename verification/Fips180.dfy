/** SHA-1 as FIPS 180-4 defines it: the 80-word schedule and the five-variable
    loop of section 6.1.2, the padding of section 5.1.1. */
module Fips180 {
  import opened MachineInts
  import opened Arithmetic

  /** A word of 32 bits. */
  datatype Word = W(bits: bv32)

  datatype Regs = Regs(a: Word, b: Word, c: Word, d: Word, e: Word)

  const INITIAL := Regs(W(0x67452301), W(0xEFCDAB89), W(0x98BADCFE), W(0x10325476), W(0xC3D2E1F0))

  // ---- sections 3.2, 4.1.1 and 4.2.1

  function Rotl(x: Word, n: bv6): Word
    requires n <= 32
  {
    W((x.bits << n) | (x.bits >> (32 - n)))
  }

  function Sum(x: bv32, y: bv32): bv32 { x + y }

  function Plus(x: Word, y: Word): Word { W(Sum(x.bits, y.bits)) }

  function Xor(x: Word, y: Word, z: Word, w: Word): Word { W(x.bits ^ y.bits ^ z.bits ^ w.bits) }

  function ChBits(x: bv32, y: bv32, z: bv32): bv32 { (x & y) ^ (!x & z) }

  function ParityBits(x: bv32, y: bv32, z: bv32): bv32 { x ^ y ^ z }

  function MajBits(x: bv32, y: bv32, z: bv32): bv32 { (x & y) ^ (x & z) ^ (y & z) }

  function Ch(x: Word, y: Word, z: Word): Word { W(ChBits(x.bits, y.bits, z.bits)) }

  function Parity(x: Word, y: Word, z: Word): Word { W(ParityBits(x.bits, y.bits, z.bits)) }

  function Maj(x: Word, y: Word, z: Word): Word { W(MajBits(x.bits, y.bits, z.bits)) }

  function F(t: nat, x: Word, y: Word, z: Word): Word {
    if t < 20 then Ch(x, y, z)
    else if t < 40 then Parity(x, y, z)
    else if t < 60 then Maj(x, y, z)
    else Parity(x, y, z)
  }

  function K(t: nat): Word {
    if t < 20 then W(0x5A827999)
    else if t < 40 then W(0x6ED9EBA1)
    else if t < 60 then W(0x8F1BBCDC)
    else W(0xCA62C1D6)
  }

  // ---- section 6.1.2

  function Join(b: bv8, c: bv8, d: bv8, e: bv8): bv32 {
    ((b as bv32) << 24) | ((c as bv32) << 16) | ((d as bv32) << 8) | (e as bv32)
  }

  function WordAt(block: seq<byte>, i: nat): Word
    requires 4 * i + 3 < |block|
  {
    W(Join(block[4 * i] as bv8, block[4 * i + 1] as bv8, block[4 * i + 2] as bv8, block[4 * i + 3] as bv8))
  }

  function Schedule(block: seq<byte>, t: nat): Word
    requires |block| == 64
  {
    if t < 16 then WordAt(block, t)
    else Rotl(Xor(Schedule(block, t - 3), Schedule(block, t - 8), Schedule(block, t - 14), Schedule(block, t - 16)), 1)
  }

  function Step(t: nat, r: Regs, w: Word): Regs {
    Regs(Plus(Plus(Plus(Plus(Rotl(r.a, 5), F(t, r.b, r.c, r.d)), r.e), K(t)), w), r.a, Rotl(r.b, 30), r.c, r.d)
  }

  /** The working variables after the first `t` iterations. */
  function Rounds(block: seq<byte>, h: Regs, t: nat): Regs
    requires |block| == 64
  {
    if t == 0 then h else Step(t - 1, Rounds(block, h, t - 1), Schedule(block, t - 1))
  }

  function Add(h: Regs, r: Regs): Regs {
    Regs(Plus(h.a, r.a), Plus(h.b, r.b), Plus(h.c, r.c), Plus(h.d, r.d), Plus(h.e, r.e))
  }

  function Compress(h: Regs, block: seq<byte>): Regs
    requires |block| == 64
  {
    Add(h, Rounds(block, h, 80))
  }

  /** Folds the compression function over the whole 64-byte blocks of `data`. */
  function Fold(h: Regs, data: seq<byte>): Regs
    decreases |data|
  {
    if |data| < 64 then h else Fold(Compress(h, data[..64]), data[64..])
  }

  // ---- section 5.1.1

  function Zeros(n: nat): seq<byte> { seq(n, _ => 0) }

  /** `n` as `k` big-endian bytes. */
  function BigEndian(n: nat, k: nat): seq<byte>
    ensures |BigEndian(n, k)| == k
  {
    if k == 0 then [] else BigEndian(n / 256, k - 1) + [(n % 256) as byte]
  }

  /** The least number of zero bytes that leaves 8 bytes for the length. */
  function ZeroCount(len: nat): nat { (119 - len % 64) % 64 }

  function PadWith(message: seq<byte>, bitLength: nat): seq<byte> {
    message + [0x80] + Zeros(ZeroCount(|message|)) + BigEndian(bitLength, 8)
  }

  /** The byte of `w` that starts at bit `s`. */
  function Extract(w: bv32, s: bv6): bv8
    requires s <= 24
  {
    ((w >> s) & 0xff) as bv8
  }

  function Bytes(w: Word): seq<byte> {
    [Extract(w.bits, 24) as byte, Extract(w.bits, 16) as byte, Extract(w.bits, 8) as byte, Extract(w.bits, 0) as byte]
  }

  function Digest(r: Regs): seq<byte> {
    Bytes(r.a) + Bytes(r.b) + Bytes(r.c) + Bytes(r.d) + Bytes(r.e)
  }

  // ---- the transcription

  lemma Extracts(b: bv8, c: bv8, d: bv8, e: bv8)
    ensures var w := Join(b, c, d, e);
      Extract(w, 24) == b && Extract(w, 16) == c && Extract(w, 8) == d && Extract(w, 0) == e
  {
  }

  /** Section 3.1: a block is the bytes of its words, the most significant byte first. */
  lemma BlockBytes(block: seq<byte>, i: nat)
    requires 4 * i + 3 < |block|
    ensures Bytes(WordAt(block, i)) == block[4 * i..4 * i + 4]
    ensures var w := WordAt(block, i).bits;
      w >> 24 == block[4 * i] as bv8 as bv32 && w & 0xff == block[4 * i + 3] as bv8 as bv32
  {
    var b, c, d, e := block[4 * i], block[4 * i + 1], block[4 * i + 2], block[4 * i + 3];
    Extracts(b as bv8, c as bv8, d as bv8, e as bv8);
    Ends(b as bv8, c as bv8, d as bv8, e as bv8);
    ByteRoundTrip(b);
    ByteRoundTrip(c);
    ByteRoundTrip(d);
    ByteRoundTrip(e);
    hide Join, Extract;
  }

  lemma Ends(b: bv8, c: bv8, d: bv8, e: bv8)
    ensures Join(b, c, d, e) >> 24 == b as bv32 && Join(b, c, d, e) & 0xff == e as bv32
  {
  }

  /** Section 4.2.1: the constants are the integer parts of 2^30 times the square roots of 2, 3, 5 and 10. */
  lemma ConstantsAreRoots(t: nat)
    ensures var k := K(t).bits as int;
      var n := if t < 20 then 2 else if t < 40 then 3 else if t < 60 then 5 else 10;
      k * k <= n * 0x1000_0000_0000_0000 < (k + 1) * (k + 1)
  {
  }

  /** The digest of `message` when its length field holds `bitLength`. */
  function HashWith(message: seq<byte>, bitLength: nat): seq<byte> {
    Digest(Fold(INITIAL, PadWith(message, bitLength)))
  }

  /** Section 6.1 of FIPS 180-4; defined for messages under 2^64 bits. */
  function Hash(message: seq<byte>): seq<byte>
    requires 8 * |message| < 0x1_0000_0000_0000_0000
  {
    HashWith(message, 8 * |message|)
  }

  // ---- properties of the fold and of the padding

  lemma {:induction false} FoldAppend(h: Regs, x: seq<byte>, y: seq<byte>)
    requires |x| % 64 == 0
    ensures Fold(h, x + y) == Fold(Fold(h, x), y)
    decreases |x|
  {
    hide Compress;
    if x == [] {
      assert x + y == y;
    } else {
      assert (x + y)[..64] == x[..64];
      assert (x + y)[64..] == x[64..] + y;
      FoldAppend(Compress(h, x[..64]), x[64..], y);
    }
  }

  /** Section 5.1.1: the padded message is a whole number of blocks, the zeros
      are the fewest that achieve it, and the 64-bit field is at the very end. */
  lemma PaddingShape(message: seq<byte>, bitLength: nat)
    ensures |PadWith(message, bitLength)| % 64 == 0
    ensures message <= PadWith(message, bitLength)
    ensures BigEndian(bitLength, 8) == PadWith(message, bitLength)[|PadWith(message, bitLength)| - 8..]
  {
  }

  /** No shorter run of zeros aligns the length field. */
  lemma PaddingLeast(message: seq<byte>, k: nat)
    requires (|message| + 1 + k) % 64 == 56
    ensures ZeroCount(|message|) <= k
  {
    var r := |message| % 64;
    assert (r + 1 + k) % 64 == 56;
  }

  function Pow256(k: nat): nat { if k == 0 then 1 else 256 * Pow256(k - 1) }

  /** A big-endian field is its high bytes followed by its `k` low bytes. */
  lemma {:induction false} BigEndianSplit(high: nat, low: nat, j: nat, k: nat)
    requires low < Pow256(k)
    ensures BigEndian(high * Pow256(k) + low, j + k) == BigEndian(high, j) + BigEndian(low, k)
  {
    if k > 0 {
      var p := Pow256(k - 1);
      assert high * (256 * p) == 256 * (high * p) by { MulAssoc(high, 256, p); MulAssoc(256, high, p); }
      ShiftOut(high * p, high * Pow256(k), low);
      BigEndianSplit(high, low / 256, j, k - 1);
    }
  }

  lemma ShiftOut(x: nat, y: nat, low: nat)
    requires y == 256 * x
    ensures (y + low) % 256 == low % 256 && (y + low) / 256 == x + low / 256
  {
  }

  lemma {:induction false} BigEndianInjective(x: nat, y: nat, k: nat)
    requires x < Pow256(k) && y < Pow256(k)
    requires BigEndian(x, k) == BigEndian(y, k)
    ensures x == y
  {
    if k > 0 {
      var a, b := BigEndian(x, k), BigEndian(y, k);
      assert a[k - 1] as int == x % 256 && b[k - 1] as int == y % 256;
      assert a[..k - 1] == BigEndian(x / 256, k - 1) && b[..k - 1] == BigEndian(y / 256, k - 1);
      BigEndianInjective(x / 256, y / 256, k - 1);
    }
  }
}
