/** torrent/sha1.h: SHA-1 with a 16-word circular schedule, rotating register
    names, and a streaming interface over a 64-byte buffer. */
module Sha1 {
  import opened MachineInts
  import opened Arithmetic
  import opened Fips180

  // ---- the block function

  /** Macro `S`: rotation written with two shifts. */
  function S(x: Word, n: bv6): Word
    requires n <= 32
  {
    W((x.bits << n) | ((x.bits & 0xFFFFFFFF) >> (32 - n)))
  }

  function ChooseBits(x: bv32, y: bv32, z: bv32): bv32 { z ^ (x & (y ^ z)) }

  function MajorityBits(x: bv32, y: bv32, z: bv32): bv32 { (x & y) | (z & (x | y)) }

  /** Macro `F`, redefined for each run of twenty steps. */
  function MacroF(quarter: nat, x: Word, y: Word, z: Word): Word {
    if quarter == 0 then W(ChooseBits(x.bits, y.bits, z.bits))
    else if quarter == 2 then W(MajorityBits(x.bits, y.bits, z.bits))
    else W(ParityBits(x.bits, y.bits, z.bits))
  }

  /** Macro `K`, redefined for each run of twenty steps. */
  function MacroK(quarter: nat): Word {
    if quarter == 0 then W(0x5A827999)
    else if quarter == 1 then W(0x6ED9EBA1)
    else if quarter == 2 then W(0x8F1BBCDC)
    else W(0xCA62C1D6)
  }

  lemma RotationIsRotl(x: Word, n: bv6)
    requires n <= 32
    ensures S(x, n) == Rotl(x, n)
  {
    assert x.bits & 0xFFFFFFFF == x.bits;
  }

  /** The rewritten Ch and Maj agree with section 4.1.1 of FIPS 180-4, in the right steps. */
  lemma RoundFunctionRewritten(t: nat, x: Word, y: Word, z: Word)
    requires t < 80
    ensures MacroF(t / 20, x, y, z) == F(t, x, y, z)
    ensures MacroK(t / 20) == K(t)
  {
    ChRewritten(x.bits, y.bits, z.bits);
    MajRewritten(x.bits, y.bits, z.bits);
    hide ChooseBits, MajorityBits, ChBits, MajBits, ParityBits;
  }

  lemma ChRewritten(x: bv32, y: bv32, z: bv32)
    ensures ChooseBits(x, y, z) == ChBits(x, y, z)
  {
    assert ChooseBits(x, y, z) == z ^ (x & (y ^ z));
    assert ChBits(x, y, z) == (x & y) ^ (!x & z);
    hide *;
    BitIdentities(x, y, z);
  }

  lemma MajRewritten(x: bv32, y: bv32, z: bv32)
    ensures MajorityBits(x, y, z) == MajBits(x, y, z)
  {
    assert MajorityBits(x, y, z) == (x & y) | (z & (x | y));
    assert MajBits(x, y, z) == (x & y) ^ (x & z) ^ (y & z);
    hide *;
    BitIdentities(x, y, z);
  }

  lemma BitIdentities(x: bv32, y: bv32, z: bv32)
    ensures z ^ (x & (y ^ z)) == (x & y) ^ (!x & z)
    ensures (x & y) | (z & (x | y)) == (x & y) ^ (x & z) ^ (y & z)
  {
  }

  lemma AddInOrder(e: Word, s: Word, f: Word, k: Word, x: Word)
    ensures Plus(e, Plus(Plus(Plus(s, f), k), x)) == Plus(Plus(Plus(Plus(s, f), e), k), x)
  {
    var sf := Plus(s, f);
    PlusLaws(e, Plus(sf, k), x);
    PlusLaws(e, sf, k);
    hide *;
  }

  lemma PlusLaws(x: Word, y: Word, z: Word)
    ensures Plus(x, Plus(y, z)) == Plus(Plus(x, y), z) && Plus(x, y) == Plus(y, x)
  {
    SumLaws(x.bits, y.bits, z.bits);
    hide Sum;
  }

  lemma SumLaws(x: bv32, y: bv32, z: bv32)
    ensures Sum(x, Sum(y, z)) == Sum(Sum(x, y), z) && Sum(x, y) == Sum(y, x)
  {
  }

  /** Slot `j % 16` of the circular schedule holds word `j`, for the last sixteen words before `t`. */
  ghost predicate Window(w: seq<Word>, block: seq<byte>, t: nat)
    requires |block| == 64
  {
    && |w| == 16
    && t >= 16
    && forall j :: t - 16 <= j < t ==> w[j % 16] == Schedule(block, j)
  }

  lemma WindowSlides(w: seq<Word>, block: seq<byte>, t: nat)
    requires |block| == 64 && Window(w, block, t)
    ensures Window(w[t % 16 := Schedule(block, t)], block, t + 1)
  {
    hide Schedule;
    var w' := w[t % 16 := Schedule(block, t)];
    forall j | t - 15 <= j < t + 1
      ensures w'[j % 16] == Schedule(block, j)
    {
      if j < t { assert j % 16 != t % 16; }
    }
  }

  lemma NextWord(w: seq<Word>, block: seq<byte>, t: nat)
    requires |block| == 64 && Window(w, block, t)
    ensures Schedule(block, t)
      == S(Xor(w[(t - 3) % 16], w[(t - 8) % 16], w[(t - 14) % 16], w[t % 16]), 1)
  {
    assert t % 16 == (t - 16) % 16;
    RotationIsRotl(Xor(w[(t - 3) % 16], w[(t - 8) % 16], w[(t - 14) % 16], w[t % 16]), 1);
  }

  lemma WindowStart(w: seq<Word>, block: seq<byte>)
    requires |block| == 64 && Window(w, block, 16)
    ensures |w| == 16 && forall j :: 0 <= j < 16 ==> w[j] == Schedule(block, j)
  {
    hide Schedule;
    forall j | 0 <= j < 16 ensures w[j] == Schedule(block, j) { assert j % 16 == j; }
  }

  /** Macro `R`: overwrites the oldest schedule word with the next one. */
  method R(w: array<Word>, ghost block: seq<byte>, t: nat) returns (x: Word)
    requires |block| == 64
    requires Window(w[..], block, t)
    modifies w
    ensures x == Schedule(block, t)
    ensures Window(w[..], block, t + 1)
  {
    NextWord(w[..], block, t);
    WindowSlides(w[..], block, t);
    ghost var before := w[..];
    var temp := Xor(w[(t - 3) % 16], w[(t - 8) % 16], w[(t - 14) % 16], w[t % 16]);
    x := S(temp, 1);
    w[t % 16] := x;
    assert w[..] == before[t % 16 := x];
  }

  /** Macro `P`: one step in place. The caller renames the registers instead of moving them. */
  method P(quarter: nat, a: Word, b: Word, c: Word, d: Word, e: Word, x: Word,
           ghost block: seq<byte>, ghost h: Regs, ghost t: nat)
    returns (e': Word, b': Word)
    requires |block| == 64 && t < 80 && quarter == t / 20
    requires Regs(a, b, c, d, e) == Rounds(block, h, t)
    requires x == Schedule(block, t)
    ensures Regs(e', a, b', c, d) == Rounds(block, h, t + 1)
  {
    RotationIsRotl(a, 5);
    RotationIsRotl(b, 30);
    RoundFunctionRewritten(t, b, c, d);
    AddInOrder(e, S(a, 5), MacroF(quarter, b, c, d), MacroK(quarter), x);
    e' := Plus(e, Plus(Plus(Plus(S(a, 5), MacroF(quarter, b, c, d)), MacroK(quarter)), x));
    b' := S(b, 30);
    assert Rounds(block, h, t + 1) == Step(t, Rounds(block, h, t), Schedule(block, t));
  }

  /** Steps 0 to 15. */
  method Steps0(w: array<Word>, ghost block: seq<byte>, ghost h: Regs, r: Regs) returns (r': Regs)
    requires |block| == 64 && Window(w[..], block, 16)
    requires r == Rounds(block, h, 0)
    ensures Window(w[..], block, 16)
    ensures r' == Rounds(block, h, 16)
  {
    WindowStart(w[..], block);
    hide *;
    var a, b, c, d, e := r.a, r.b, r.c, r.d, r.e;
    e, b := P(0, a, b, c, d, e, w[0], block, h, 0);
    d, a := P(0, e, a, b, c, d, w[1], block, h, 1);
    c, e := P(0, d, e, a, b, c, w[2], block, h, 2);
    b, d := P(0, c, d, e, a, b, w[3], block, h, 3);
    a, c := P(0, b, c, d, e, a, w[4], block, h, 4);
    e, b := P(0, a, b, c, d, e, w[5], block, h, 5);
    d, a := P(0, e, a, b, c, d, w[6], block, h, 6);
    c, e := P(0, d, e, a, b, c, w[7], block, h, 7);
    b, d := P(0, c, d, e, a, b, w[8], block, h, 8);
    a, c := P(0, b, c, d, e, a, w[9], block, h, 9);
    e, b := P(0, a, b, c, d, e, w[10], block, h, 10);
    d, a := P(0, e, a, b, c, d, w[11], block, h, 11);
    c, e := P(0, d, e, a, b, c, w[12], block, h, 12);
    b, d := P(0, c, d, e, a, b, w[13], block, h, 13);
    a, c := P(0, b, c, d, e, a, w[14], block, h, 14);
    e, b := P(0, a, b, c, d, e, w[15], block, h, 15);
    r' := Regs(e, a, b, c, d);
  }

  /** Steps 16 to 19. */
  method Steps16(w: array<Word>, ghost block: seq<byte>, ghost h: Regs, r: Regs) returns (r': Regs)
    requires |block| == 64 && Window(w[..], block, 16)
    requires r == Rounds(block, h, 16)
    modifies w
    ensures Window(w[..], block, 20)
    ensures r' == Rounds(block, h, 20)
  {
    hide *;
    var e, a, b, c, d := r.a, r.b, r.c, r.d, r.e;
    var x;
    x := R(w, block, 16); d, a := P(0, e, a, b, c, d, x, block, h, 16);
    x := R(w, block, 17); c, e := P(0, d, e, a, b, c, x, block, h, 17);
    x := R(w, block, 18); b, d := P(0, c, d, e, a, b, x, block, h, 18);
    x := R(w, block, 19); a, c := P(0, b, c, d, e, a, x, block, h, 19);
    r' := Regs(a, b, c, d, e);
  }

  /** Steps 20 to 39. */
  method Steps20(w: array<Word>, ghost block: seq<byte>, ghost h: Regs, r: Regs) returns (r': Regs)
    requires |block| == 64 && Window(w[..], block, 20)
    requires r == Rounds(block, h, 20)
    modifies w
    ensures Window(w[..], block, 40)
    ensures r' == Rounds(block, h, 40)
  {
    hide *;
    var a, b, c, d, e := r.a, r.b, r.c, r.d, r.e;
    var x;
    x := R(w, block, 20); e, b := P(1, a, b, c, d, e, x, block, h, 20);
    x := R(w, block, 21); d, a := P(1, e, a, b, c, d, x, block, h, 21);
    x := R(w, block, 22); c, e := P(1, d, e, a, b, c, x, block, h, 22);
    x := R(w, block, 23); b, d := P(1, c, d, e, a, b, x, block, h, 23);
    x := R(w, block, 24); a, c := P(1, b, c, d, e, a, x, block, h, 24);
    x := R(w, block, 25); e, b := P(1, a, b, c, d, e, x, block, h, 25);
    x := R(w, block, 26); d, a := P(1, e, a, b, c, d, x, block, h, 26);
    x := R(w, block, 27); c, e := P(1, d, e, a, b, c, x, block, h, 27);
    x := R(w, block, 28); b, d := P(1, c, d, e, a, b, x, block, h, 28);
    x := R(w, block, 29); a, c := P(1, b, c, d, e, a, x, block, h, 29);
    x := R(w, block, 30); e, b := P(1, a, b, c, d, e, x, block, h, 30);
    x := R(w, block, 31); d, a := P(1, e, a, b, c, d, x, block, h, 31);
    x := R(w, block, 32); c, e := P(1, d, e, a, b, c, x, block, h, 32);
    x := R(w, block, 33); b, d := P(1, c, d, e, a, b, x, block, h, 33);
    x := R(w, block, 34); a, c := P(1, b, c, d, e, a, x, block, h, 34);
    x := R(w, block, 35); e, b := P(1, a, b, c, d, e, x, block, h, 35);
    x := R(w, block, 36); d, a := P(1, e, a, b, c, d, x, block, h, 36);
    x := R(w, block, 37); c, e := P(1, d, e, a, b, c, x, block, h, 37);
    x := R(w, block, 38); b, d := P(1, c, d, e, a, b, x, block, h, 38);
    x := R(w, block, 39); a, c := P(1, b, c, d, e, a, x, block, h, 39);
    r' := Regs(a, b, c, d, e);
  }

  /** Steps 40 to 59. */
  method Steps40(w: array<Word>, ghost block: seq<byte>, ghost h: Regs, r: Regs) returns (r': Regs)
    requires |block| == 64 && Window(w[..], block, 40)
    requires r == Rounds(block, h, 40)
    modifies w
    ensures Window(w[..], block, 60)
    ensures r' == Rounds(block, h, 60)
  {
    hide *;
    var a, b, c, d, e := r.a, r.b, r.c, r.d, r.e;
    var x;
    x := R(w, block, 40); e, b := P(2, a, b, c, d, e, x, block, h, 40);
    x := R(w, block, 41); d, a := P(2, e, a, b, c, d, x, block, h, 41);
    x := R(w, block, 42); c, e := P(2, d, e, a, b, c, x, block, h, 42);
    x := R(w, block, 43); b, d := P(2, c, d, e, a, b, x, block, h, 43);
    x := R(w, block, 44); a, c := P(2, b, c, d, e, a, x, block, h, 44);
    x := R(w, block, 45); e, b := P(2, a, b, c, d, e, x, block, h, 45);
    x := R(w, block, 46); d, a := P(2, e, a, b, c, d, x, block, h, 46);
    x := R(w, block, 47); c, e := P(2, d, e, a, b, c, x, block, h, 47);
    x := R(w, block, 48); b, d := P(2, c, d, e, a, b, x, block, h, 48);
    x := R(w, block, 49); a, c := P(2, b, c, d, e, a, x, block, h, 49);
    x := R(w, block, 50); e, b := P(2, a, b, c, d, e, x, block, h, 50);
    x := R(w, block, 51); d, a := P(2, e, a, b, c, d, x, block, h, 51);
    x := R(w, block, 52); c, e := P(2, d, e, a, b, c, x, block, h, 52);
    x := R(w, block, 53); b, d := P(2, c, d, e, a, b, x, block, h, 53);
    x := R(w, block, 54); a, c := P(2, b, c, d, e, a, x, block, h, 54);
    x := R(w, block, 55); e, b := P(2, a, b, c, d, e, x, block, h, 55);
    x := R(w, block, 56); d, a := P(2, e, a, b, c, d, x, block, h, 56);
    x := R(w, block, 57); c, e := P(2, d, e, a, b, c, x, block, h, 57);
    x := R(w, block, 58); b, d := P(2, c, d, e, a, b, x, block, h, 58);
    x := R(w, block, 59); a, c := P(2, b, c, d, e, a, x, block, h, 59);
    r' := Regs(a, b, c, d, e);
  }

  /** Steps 60 to 79. */
  method Steps60(w: array<Word>, ghost block: seq<byte>, ghost h: Regs, r: Regs) returns (r': Regs)
    requires |block| == 64 && Window(w[..], block, 60)
    requires r == Rounds(block, h, 60)
    modifies w
    ensures Window(w[..], block, 80)
    ensures r' == Rounds(block, h, 80)
  {
    hide *;
    var a, b, c, d, e := r.a, r.b, r.c, r.d, r.e;
    var x;
    x := R(w, block, 60); e, b := P(3, a, b, c, d, e, x, block, h, 60);
    x := R(w, block, 61); d, a := P(3, e, a, b, c, d, x, block, h, 61);
    x := R(w, block, 62); c, e := P(3, d, e, a, b, c, x, block, h, 62);
    x := R(w, block, 63); b, d := P(3, c, d, e, a, b, x, block, h, 63);
    x := R(w, block, 64); a, c := P(3, b, c, d, e, a, x, block, h, 64);
    x := R(w, block, 65); e, b := P(3, a, b, c, d, e, x, block, h, 65);
    x := R(w, block, 66); d, a := P(3, e, a, b, c, d, x, block, h, 66);
    x := R(w, block, 67); c, e := P(3, d, e, a, b, c, x, block, h, 67);
    x := R(w, block, 68); b, d := P(3, c, d, e, a, b, x, block, h, 68);
    x := R(w, block, 69); a, c := P(3, b, c, d, e, a, x, block, h, 69);
    x := R(w, block, 70); e, b := P(3, a, b, c, d, e, x, block, h, 70);
    x := R(w, block, 71); d, a := P(3, e, a, b, c, d, x, block, h, 71);
    x := R(w, block, 72); c, e := P(3, d, e, a, b, c, x, block, h, 72);
    x := R(w, block, 73); b, d := P(3, c, d, e, a, b, x, block, h, 73);
    x := R(w, block, 74); a, c := P(3, b, c, d, e, a, x, block, h, 74);
    x := R(w, block, 75); e, b := P(3, a, b, c, d, e, x, block, h, 75);
    x := R(w, block, 76); d, a := P(3, e, a, b, c, d, x, block, h, 76);
    x := R(w, block, 77); c, e := P(3, d, e, a, b, c, x, block, h, 77);
    x := R(w, block, 78); b, d := P(3, c, d, e, a, b, x, block, h, 78);
    x := R(w, block, 79); a, c := P(3, b, c, d, e, a, x, block, h, 79);
    r' := Regs(a, b, c, d, e);
  }

  // ---- the streaming interface

  /** The prefix of the message that is already compressed. */
  function Whole(message: seq<byte>): seq<byte> { message[..|message| - |message| % 64] }

  function Rest(message: seq<byte>): seq<byte> { message[|message| - |message| % 64..] }

  lemma FirstWindow(w: seq<Word>, block: seq<byte>)
    requires |block| == 64 && |w| == 16
    requires forall i :: 0 <= i < 16 ==> w[i] == WordAt(block, i)
    ensures Window(w, block, 16)
  {
    forall j | 0 <= j < 16 ensures w[j % 16] == Schedule(block, j) { assert j % 16 == j; }
  }

  lemma FoldBlock(h: Regs, data: seq<byte>, block: seq<byte>)
    requires |data| % 64 == 0 && |block| == 64
    ensures Fold(h, data + block) == Compress(Fold(h, data), block)
  {
    hide Compress;
    FoldAppend(h, data, block);
    var g := Fold(h, data);
    assert block[..64] == block && block[64..] == [];
    assert Fold(g, block) == Fold(Compress(g, block), []);
  }

  lemma Parts(message: seq<byte>)
    ensures |Rest(message)| == |message| % 64 < 64
    ensures |Whole(message)| % 64 == 0
    ensures message == Whole(message) + Rest(message)
    ensures Rest(message) == [] <==> Whole(message) == message
  {
  }

  /** The buffered rest and enough new bytes make one block. */
  lemma FillsBlock(message: seq<byte>, x: seq<byte>)
    requires |Rest(message)| + |x| == 64
    ensures Rest(message + x) == []
    ensures Fold(INITIAL, Whole(message + x)) == Compress(Fold(INITIAL, Whole(message)), Rest(message) + x)
  {
    hide Compress, Fold;
    assert |message + x| % 64 == 0;
    Parts(message);
    FoldBlock(INITIAL, Whole(message), Rest(message) + x);
    assert Whole(message + x) == Whole(message) + (Rest(message) + x);
  }

  lemma AppendsBlock(done: seq<byte>, block: seq<byte>)
    requires Rest(done) == [] && |block| == 64
    ensures Rest(done + block) == []
    ensures Fold(INITIAL, Whole(done + block)) == Compress(Fold(INITIAL, Whole(done)), block)
  {
    hide Compress, Fold;
    Parts(done);
    FoldBlock(INITIAL, done, block);
    assert Whole(done + block) == done + block;
  }

  lemma LeavesRest(done: seq<byte>, x: seq<byte>)
    requires |Rest(done)| + |x| < 64
    ensures Whole(done + x) == Whole(done) && Rest(done + x) == Rest(done) + x
  {
    assert |done + x| % 64 == |done| % 64 + |x|;
  }

  lemma LowBits(total0: uint32, total1: uint32, count: nat)
    requires total1 * TWO_32 + total0 == Wrap64(count)
    ensures total0 % 64 == count % 64
  {
    var q := count / TWO_64;
    var t, r := total0 / 64, total0 % 64;
    assert count == 64 * (q * (TWO_64 / 64) + total1 * (TWO_32 / 64) + t) + r;
    Euclid(count, 64, q * (TWO_64 / 64) + total1 * (TWO_32 / 64) + t, r);
  }

  /** The carry test makes the two counter words one 64-bit counter, as long as the chunk is counted in 32 bits. */
  lemma CounterAdvances(total0: uint32, total1: uint32, count: nat, length: nat)
    requires total1 * TWO_32 + total0 == Wrap64(count)
    ensures var t0 := Wrap32(total0 + Wrap32(length));
      var t1 := if t0 < Wrap32(length) then Wrap32(total1 + 1) else total1;
      t1 * TWO_32 + t0 == Wrap64(count + Wrap32(length))
  {
    var l := Wrap32(length);
    Carry(total0, l);
    Carry(total1, 1);
    Quotient(count, TWO_64);
    Wrap64Shift(total1 * TWO_32 + total0 + l, count / TWO_64);
    hide Wrap32;
    CarryOut(total0, total1, l, Wrap32(total0 + l));
  }

  lemma Carry(x: uint32, y: uint32)
    ensures Wrap32(x + y) == if x + y < TWO_32 then x + y else x + y - TWO_32
    ensures Wrap32(x + y) < y <==> x + y >= TWO_32
  {
  }

  lemma CarryOut(total0: uint32, total1: uint32, l: uint32, t0: uint32)
    requires t0 == if total0 + l < TWO_32 then total0 + l else total0 + l - TWO_32
    ensures var t1 := if total0 + l < TWO_32 then total1 else if total1 + 1 == TWO_32 then 0 else total1 + 1;
      t1 * TWO_32 + t0 == Wrap64(total1 * TWO_32 + total0 + l)
  {
  }

  lemma Residue(count: nat, message: seq<byte>, input: seq<byte>)
    requires count % 64 == |Rest(message)|
    ensures |Rest(message + input)| < 64
    ensures (count + Wrap32(|input|)) % 64 == |Rest(message + input)|
  {
    var q, q' := |input| / TWO_32, |message| / 64 - count / 64;
    assert |message + input| == (count + Wrap32(|input|)) + 64 * (q * (TWO_32 / 64) + q');
  }

  lemma RoundsStart(block: seq<byte>, h: Regs)
    requires |block| == 64
    ensures Rounds(block, h, 0) == h
    ensures Compress(h, block) == Add(h, Rounds(block, h, 80))
  {
  }

  lemma Wrap64Shift(x: nat, q: nat)
    ensures Wrap64(q * TWO_64 + x) == Wrap64(x)
  {
  }

  /** The upper length word of mbedtls_sha1_finish. */
  function LengthHigh(total0: uint32, total1: uint32): nat {
    BitOr(Shr(total0, 29), Shl32(total1, 3))
  }

  /** The lower length word of mbedtls_sha1_finish. */
  function LengthLow(total0: uint32): nat { Shl32(total0, 3) }

  lemma LengthHighSum(total0: uint32, total1: uint32)
    ensures LengthHigh(total0, total1) == total0 / 0x2000_0000 + (total1 % 0x2000_0000) * 8
    ensures LengthLow(total0) == Wrap32(total0 * 8)
  {
    hide BitOr;
    assert Pow2(3) == 8;
    Pow29();
    OrIsPlus(total0 / 0x2000_0000, total1 % 0x2000_0000, 3);
    assert Wrap32(total1 * 8) == (total1 % 0x2000_0000) * 8;
  }

  /** The shifted halves are the bit length modulo 2^64. */
  lemma LengthField(total0: uint32, total1: uint32, count: nat)
    requires total1 * TWO_32 + total0 == Wrap64(count)
    ensures LengthHigh(total0, total1) * TWO_32 + LengthLow(total0) == Wrap64(8 * count)
    ensures BigEndian(LengthHigh(total0, total1), 4) + BigEndian(LengthLow(total0), 4)
         == BigEndian(Wrap64(8 * count), 8)
  {
    LengthHighSum(total0, total1);
    hide LengthHigh, LengthLow, BigEndian;
    var top, mid := total0 / 0x2000_0000, total1 % 0x2000_0000;
    var low := Wrap32(total0 * 8);
    assert total0 * 8 == top * TWO_32 + low;
    var q, q' := count / TWO_64, total1 / 0x2000_0000;
    assert 8 * count == (8 * q + q') * TWO_64 + ((top + mid * 8) * TWO_32 + low);
    Wrap64Shift((top + mid * 8) * TWO_32 + low, 8 * q + q');
    Pow256Of4();
    BigEndianSplit(top + mid * 8, low, 4, 4);
  }

  lemma Pow29() ensures Pow2(29) == 0x2000_0000
  {
    assert Pow2(9) == 512;
    assert Pow2(19) == 0x8_0000;
  }

  lemma Pow256Of4() ensures Pow256(4) == TWO_32 {}

  /** The last block or two of the padded message. */
  lemma PaddedTail(message: seq<byte>, bits: nat)
    ensures var rest := Rest(message);
      && |rest| < 64
      && PadWith(message, bits) == Whole(message) +
           if |rest| < 56
           then (rest + [0x80] + Zeros(55 - |rest|)) + BigEndian(bits, 8)
           else (rest + [0x80] + Zeros(63 - |rest|)) + (Zeros(56) + BigEndian(bits, 8))
  {
    hide BigEndian;
    var rest, z := Rest(message), ZeroCount(|message|);
    assert message == Whole(message) + rest;
    if |rest| >= 56 {
      assert Zeros(z) == Zeros(63 - |rest|) + Zeros(56);
    }
  }

  lemma FoldsAligned(message: seq<byte>, tail: seq<byte>)
    requires |tail| == 64
    ensures Fold(INITIAL, Whole(message) + tail) == Compress(Fold(INITIAL, Whole(message)), tail)
    ensures forall tail2 :: |tail2| == 64 ==>
      Fold(INITIAL, Whole(message) + (tail + tail2))
        == Compress(Compress(Fold(INITIAL, Whole(message)), tail), tail2)
  {
    hide Compress, Fold;
    Parts(message);
    FoldBlock(INITIAL, Whole(message), tail);
    forall tail2: seq<byte> | |tail2| == 64
      ensures Fold(INITIAL, Whole(message) + (tail + tail2))
        == Compress(Compress(Fold(INITIAL, Whole(message)), tail), tail2)
    {
      FoldBlock(INITIAL, Whole(message) + tail, tail2);
      assert Whole(message) + tail + tail2 == Whole(message) + (tail + tail2);
    }
  }

  /** memcpy into `dst` from index `at`. */
  method MemCpy(dst: array<byte>, at: nat, src: seq<byte>)
    requires at + |src| <= dst.Length
    modifies dst
    ensures dst[..] == old(dst[..at]) + src + old(dst[at + |src|..])
  {
    forall k | 0 <= k < |src| { dst[at + k] := src[k]; }
  }

  /** memset of `dst[from..to]` to zero. */
  method MemZero(dst: array<byte>, from: nat, to: nat)
    requires from <= to <= dst.Length
    modifies dst
    ensures dst[..] == old(dst[..from]) + Zeros(to - from) + old(dst[to..])
  {
    forall k | from <= k < to { dst[k] := 0; }
  }

  lemma NothingAbsorbed(h: Regs, none: seq<byte>)
    requires none == []
    ensures Whole(none) == none && Rest(none) == none && Fold(h, none) == h
  {
    hide Compress;
  }

  class Context {
    var total0: uint32
    var total1: uint32
    var state: Regs
    const buffer: array<byte>

    /** The context has absorbed `message`; its two counter words hold `count` modulo 2^64. */
    ghost predicate Absorbed(message: seq<byte>, count: nat)
      reads this, buffer
    {
      && buffer.Length == 64
      && state == Fold(INITIAL, Whole(message))
      && |Rest(message)| < 64 && buffer[..|Rest(message)|] == Rest(message)
      && total1 * TWO_32 + total0 == Wrap64(count)
      && count % 64 == |Rest(message)|
    }

    /** mbedtls_sha1_init and mbedtls_sha1_starts. */
    constructor ()
      ensures fresh(buffer) && Absorbed([], 0)
    {
      hide Fold, Whole, Rest, Compress;
      buffer := new byte[64](_ => 0);
      total0, total1 := 0, 0;
      state := Regs(W(0x67452301), W(0xEFCDAB89), W(0x98BADCFE), W(0x10325476), W(0xC3D2E1F0));
      new;
      ghost var none: seq<byte> := [];
      NothingAbsorbed(state, none);
    }

    /** mbedtls_internal_sha1_process. */
    method Process(block: seq<byte>)
      requires |block| == 64
      modifies this`state
      ensures state == Compress(old(state), block)
    {
      hide WordAt, Schedule, Rounds, Window, Plus;
      var w := new Word[16](i requires 0 <= i < 16 => WordAt(block, i));
      FirstWindow(w[..], block);
      RoundsStart(block, state);
      var r := Steps0(w, block, state, state);
      r := Steps16(w, block, state, r);
      r := Steps20(w, block, state, r);
      r := Steps40(w, block, state, r);
      r := Steps60(w, block, state, r);
      state := Regs(Plus(state.a, r.a), Plus(state.b, r.b), Plus(state.c, r.c), Plus(state.d, r.d), Plus(state.e, r.e));
    }

    /** The counter update at the head of mbedtls_sha1_update. */
    method Count(ilen: nat, ghost message: seq<byte>, ghost count: nat)
      requires Absorbed(message, count)
      modifies this`total0, this`total1
      ensures total1 * TWO_32 + total0 == Wrap64(count + Wrap32(ilen))
      ensures old(total0) % 64 == |Rest(message)|
    {
      hide Fold, Whole, Rest;
      CounterAdvances(total0, total1, count, ilen);
      LowBits(total0, total1, count);
      total0 := Wrap32(total0 + Wrap32(ilen));
      if total0 < Wrap32(ilen) {
        total1 := Wrap32(total1 + 1);
      }
    }

    /** mbedtls_sha1_update. The counter advances by the chunk's length truncated to 32 bits. */
    method Update(input: seq<byte>, ghost message: seq<byte>, ghost count: nat)
      requires Absorbed(message, count)
      modifies this, buffer
      ensures Absorbed(message + input, count + Wrap32(|input|))
    {
      hide Compress, Fold, Whole, Rest, Wrap64;
      if |input| == 0 {
        assert message + input == message;
        return;
      }
      var left := total0 % 64;
      var fill := 64 - left;
      Count(|input|, message, count);
      var rest := input;
      ghost var done := message;
      if left > 0 && |input| >= fill {
        MemCpy(buffer, left, input[..fill]);
        assert buffer[..] == Rest(message) + input[..fill];
        FillsBlock(message, input[..fill]);
        Process(buffer[..]);
        done := message + input[..fill];
        rest := input[fill..];
        left := 0;
      }
      while |rest| >= 64
        invariant left == |Rest(done)|
        invariant left > 0 ==> left + |rest| < 64
        invariant buffer[..left] == Rest(done)
        invariant done + rest == message + input
        invariant state == Fold(INITIAL, Whole(done))
        decreases |rest|
        modifies this`state
      {
        AppendsBlock(done, rest[..64]);
        Process(rest[..64]);
        done := done + rest[..64];
        rest := rest[64..];
      }
      if |rest| > 0 {
        MemCpy(buffer, left, rest);
      }
      LeavesRest(done, rest);
      assert buffer[..left + |rest|] == Rest(done) + rest;
      Residue(count, message, input);
    }

    /** The two length words, at the end of the buffer. */
    method PutLength(ghost count: nat)
      requires buffer.Length == 64 && total1 * TWO_32 + total0 == Wrap64(count)
      modifies buffer
      ensures buffer[..] == old(buffer[..56]) + BigEndian(Wrap64(8 * count), 8)
    {
      hide BigEndian, LengthHigh, LengthLow, Wrap64;
      var high := LengthHigh(total0, total1);
      var low := LengthLow(total0);
      LengthField(total0, total1, count);
      MemCpy(buffer, 56, BigEndian(high, 4));
      MemCpy(buffer, 60, BigEndian(low, 4));
      assert buffer[..] == old(buffer[..56]) + (BigEndian(high, 4) + BigEndian(low, 4));
    }

    /** mbedtls_sha1_finish. */
    method Finish(ghost message: seq<byte>, ghost count: nat) returns (output: seq<byte>)
      requires Absorbed(message, count)
      modifies this, buffer
      ensures output == HashWith(message, Wrap64(8 * count))
    {
      hide Compress, Fold, Digest, BigEndian, LengthHigh, LengthLow, Whole, Rest, PadWith, ZeroCount, Wrap64;
      ghost var h := state;
      ghost var rest := Rest(message);
      LowBits(total0, total1, count);
      var used := total0 % 64;
      buffer[used] := 0x80;
      used := used + 1;
      ghost var first := rest + [0x80];
      assert buffer[..used] == first;
      if used <= 56 {
        MemZero(buffer, used, 56);
        assert buffer[..56] == first + Zeros(56 - used);
      } else {
        MemZero(buffer, used, 64);
        assert buffer[..] == first + Zeros(64 - used);
        Process(buffer[..]);
        MemZero(buffer, 0, 56);
        assert buffer[..56] == Zeros(56);
      }
      ghost var front := buffer[..56];
      PutLength(count);
      ghost var field := BigEndian(Wrap64(8 * count), 8);
      assert buffer[..] == front + field;
      Process(buffer[..]);
      PaddedTail(message, Wrap64(8 * count));
      if used <= 56 {
        FoldsAligned(message, front + field);
      } else {
        FoldsAligned(message, first + Zeros(64 - used));
        assert |front + field| == 64;
      }
      output := Digest(state);
    }
  }

  // ---- the promises of the interface

  function Concat(chunks: seq<seq<byte>>): seq<byte> {
    if chunks == [] then [] else Concat(chunks[..|chunks| - 1]) + chunks[|chunks| - 1]
  }

  /** What the counter has seen: every chunk contributes its length modulo 2^32. */
  function Counted(chunks: seq<seq<byte>>): nat {
    if chunks == [] then 0 else Counted(chunks[..|chunks| - 1]) + Wrap32(|chunks[|chunks| - 1]|)
  }

  ghost predicate ChunksFit(chunks: seq<seq<byte>>) {
    forall c :: c in chunks ==> |c| < TWO_32
  }

  lemma {:induction false} CountedIsLength(chunks: seq<seq<byte>>)
    ensures Counted(chunks) <= |Concat(chunks)|
    ensures Counted(chunks) == |Concat(chunks)| <==> ChunksFit(chunks)
  {
    if chunks != [] {
      CountedIsLength(chunks[..|chunks| - 1]);
      var last := chunks[|chunks| - 1];
      assert chunks == chunks[..|chunks| - 1] + [last];
    }
  }

  /** The length field is the one section 5.1.1 of FIPS 180-4 asks for exactly when every chunk
      is under 2^32 bytes. */
  lemma FieldIsRight(chunks: seq<seq<byte>>)
    requires 8 * |Concat(chunks)| < TWO_64
    ensures PadWith(Concat(chunks), Wrap64(8 * Counted(chunks))) == PadWith(Concat(chunks), 8 * |Concat(chunks)|)
       <==> ChunksFit(chunks)
  {
    CountedIsLength(chunks);
    var m, a, b := Concat(chunks), Wrap64(8 * Counted(chunks)), 8 * |Concat(chunks)|;
    hide PadWith, Concat, Counted, ChunksFit;
    PadInjective(m, a, b);
  }

  lemma PadInjective(message: seq<byte>, x: uint64, y: uint64)
    ensures PadWith(message, x) == PadWith(message, y) <==> x == y
  {
    hide BigEndian, ZeroCount, Zeros;
    if PadWith(message, x) == PadWith(message, y) {
      var n := |PadWith(message, x)| - 8;
      assert PadWith(message, x)[n..] == BigEndian(x, 8);
      assert PadWith(message, y)[n..] == BigEndian(y, 8);
      Pow256Of8();
      BigEndianInjective(x, y, 8);
    }
  }

  lemma Pow256Of8() ensures Pow256(8) == TWO_64
  {
    assert Pow256(4) == TWO_32;
  }

  /** Any way of cutting the input into update calls gives the digest of the whole. */
  method Sha1InChunks(chunks: seq<seq<byte>>) returns (output: seq<byte>)
    ensures output == HashWith(Concat(chunks), Wrap64(8 * Counted(chunks)))
    ensures ChunksFit(chunks) && 8 * |Concat(chunks)| < TWO_64 ==> output == Hash(Concat(chunks))
  {
    hide HashWith, Fold, Whole, Rest;
    var ctx := new Context();
    assert chunks[..0] == [];
    for i := 0 to |chunks|
      invariant ctx.Absorbed(Concat(chunks[..i]), Counted(chunks[..i]))
      invariant fresh(ctx) && fresh(ctx.buffer)
    {
      assert chunks[..i + 1][..i] == chunks[..i];
      ctx.Update(chunks[i], Concat(chunks[..i]), Counted(chunks[..i]));
    }
    assert chunks[..|chunks|] == chunks;
    output := ctx.Finish(Concat(chunks), Counted(chunks));
    CountedIsLength(chunks);
  }

  /** mbedtls_sha1: one call for the whole input. */
  method Sha1(input: seq<byte>) returns (output: seq<byte>)
    ensures output == HashWith(input, Wrap64(8 * Wrap32(|input|)))
    ensures |input| < TWO_32 ==> output == Hash(input)
  {
    hide HashWith, Fold, Whole, Rest;
    var ctx := new Context();
    ctx.Update(input, [], 0);
    assert [] + input == input;
    output := ctx.Finish(input, Wrap32(|input|));
  }
}
