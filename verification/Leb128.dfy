/** crash-reporter/macho.h: the variable-length integers of DWARF 4, section 7.6, read with 32-bit shifts. */
module Leb128 {
  import opened MachineInts
  import opened Arithmetic

  /** A number and the offset after it; `Fault` when read_data's assertion fails or a shift is undefined. */
  datatype Reading = Done(value: int, next: nat) | Fault

  // ---- the encoding

  predicate More(b: byte) { b >= 128 }

  function Septet(b: byte): nat { b as nat % 128 }

  function Unsigned(bytes: seq<byte>): nat {
    if bytes == [] then 0 else Septet(bytes[0]) + 128 * Unsigned(bytes[1..])
  }

  /** Two's complement on seven bits per byte: bit 6 of the last byte is the sign. */
  function Signed(bytes: seq<byte>): int
    requires bytes != []
  {
    if |bytes| == 1 then Septet(bytes[0]) - (if Septet(bytes[0]) >= 64 then 128 else 0)
    else Septet(bytes[0]) + 128 * Signed(bytes[1..])
  }

  function EncodeUnsigned(x: nat): (bytes: seq<byte>)
    ensures bytes != []
  {
    if x < 128 then [x as byte] else [(x % 128 + 128) as byte] + EncodeUnsigned(x / 128)
  }

  function EncodeSigned(x: int): (bytes: seq<byte>)
    ensures bytes != []
    decreases if x < 0 then -x else x
  {
    if -64 <= x < 64 then [(x % 128) as byte] else [(x % 128 + 128) as byte] + EncodeSigned(x / 128)
  }

  /** All bytes but the last have their top bit set. */
  ghost predicate IsLeb(bytes: seq<byte>) {
    bytes != [] && if |bytes| == 1 then !More(bytes[0]) else More(bytes[0]) && IsLeb(bytes[1..])
  }

  /** The examples of figures 22 and 23 of DWARF 4. */
  lemma Figures()
    ensures EncodeUnsigned(2) == [2] && EncodeUnsigned(127) == [0x7f] && EncodeUnsigned(128) == [0x80, 1]
    ensures EncodeUnsigned(129) == [0x81, 1] && EncodeUnsigned(130) == [0x82, 1]
    ensures EncodeUnsigned(12857) == [0xb9, 0x64]
    ensures EncodeSigned(2) == [2] && EncodeSigned(-2) == [0x7e] && EncodeSigned(127) == [0xff, 0]
    ensures EncodeSigned(-127) == [0x81, 0x7f] && EncodeSigned(128) == [0x80, 1] && EncodeSigned(-128) == [0x80, 0x7f]
    ensures EncodeSigned(129) == [0x81, 1] && EncodeSigned(-129) == [0xff, 0x7e]
  {
  }

  lemma {:induction false} UnsignedRoundTrip(x: nat)
    ensures IsLeb(EncodeUnsigned(x)) && Unsigned(EncodeUnsigned(x)) == x
    decreases x
  {
    if x >= 128 {
      UnsignedRoundTrip(x / 128);
      assert EncodeUnsigned(x)[1..] == EncodeUnsigned(x / 128);
    } else {
      assert EncodeUnsigned(x)[1..] == [];
    }
  }

  lemma {:induction false} SignedRoundTrip(x: int)
    ensures IsLeb(EncodeSigned(x)) && Signed(EncodeSigned(x)) == x
    decreases if x < 0 then -x else x
  {
    if !(-64 <= x < 64) {
      SignedRoundTrip(x / 128);
      assert EncodeSigned(x)[1..] == EncodeSigned(x / 128);
    }
  }

  // ---- reading

  /** Where the number at `offset` ends, if its bytes can be read and there are at most `n`. */
  function End(data: seq<byte>, offset: nat, n: nat): (next: nat)
    ensures next == 0 || offset < next < |data|
    ensures next != 0 ==> next <= offset + n && IsLeb(data[offset..next])
    decreases n
  {
    if n == 0 || offset + 1 >= |data| then 0
    else if !More(data[offset]) then offset + 1
    else
      var next := End(data, offset + 1, n - 1);
      assert next != 0 ==> data[offset..next][1..] == data[offset + 1..next];
      next
  }

  /** What read_leb128_u64 gives: shifts of 32 and more are undefined, bits from 2^32 on are lost. */
  function ReadUnsigned(data: seq<byte>, offset: nat): (r: Reading)
    ensures r.Done? ==> 0 <= r.value < TWO_32 && offset < r.next < |data|
  {
    var next := End(data, offset, 5);
    if next == 0 then Fault else Done(Wrap32(Unsigned(data[offset..next])), next)
  }

  /** What read_leb128_i64 gives: the fifth septet must fit below the sign bit of an `int`. */
  function ReadSigned(data: seq<byte>, offset: nat): (r: Reading)
    ensures r.Done? ==> offset < r.next < |data|
  {
    var next := End(data, offset, 5);
    if next == 0 || (next == offset + 5 && Septet(data[next - 1]) >= 8) then Fault
    else Done(Signed(data[offset..next]), next)
  }

  /** The end of an encoded number is found when it has at most `n` bytes. */
  lemma {:induction false} EndOf(data: seq<byte>, offset: nat, bytes: seq<byte>, n: nat)
    requires IsLeb(bytes) && offset + |bytes| < |data| && data[offset..offset + |bytes|] == bytes
    ensures End(data, offset, n) == if |bytes| <= n then offset + |bytes| else 0
    decreases n
  {
    assert data[offset] == bytes[0];
    if n > 0 && |bytes| > 1 {
      assert bytes[1..] == data[offset + 1..offset + 1 + |bytes[1..]|];
      EndOf(data, offset + 1, bytes[1..], n - 1);
    }
  }

  function Pow128(n: nat): (p: nat)
    ensures p > 0
  {
    if n == 0 then 1 else 128 * Pow128(n - 1)
  }

  /** A number whose last byte is the last of the data is never found: one more byte has to follow it. */
  lemma {:induction false} EndTooClose(data: seq<byte>, offset: nat, bytes: seq<byte>, n: nat)
    requires IsLeb(bytes) && offset + |bytes| == |data| && data[offset..] == bytes
    ensures End(data, offset, n) == 0
    decreases n
  {
    if n > 0 && offset + 1 < |data| {
      assert data[offset] == data[offset..][0] == bytes[0];
      assert data[offset + 1..] == data[offset..][1..] == bytes[1..];
      EndTooClose(data, offset + 1, bytes[1..], n - 1);
    }
  }

  lemma TooCloseToRead(data: seq<byte>, offset: nat, x: nat, y: int)
    requires offset <= |data|
    ensures data[offset..] == EncodeUnsigned(x) ==> ReadUnsigned(data, offset) == Fault
    ensures data[offset..] == EncodeSigned(y) ==> ReadSigned(data, offset) == Fault
  {
    if data[offset..] == EncodeUnsigned(x) {
      UnsignedRoundTrip(x);
      EndTooClose(data, offset, EncodeUnsigned(x), 5);
    }
    if data[offset..] == EncodeSigned(y) {
      SignedRoundTrip(y);
      EndTooClose(data, offset, EncodeSigned(y), 5);
    }
  }

  lemma {:induction false} UnsignedLength(x: nat, n: nat)
    requires n > 0
    ensures |EncodeUnsigned(x)| <= n <==> x < Pow128(n)
    decreases n
  {
    if n > 1 && x >= 128 { UnsignedLength(x / 128, n - 1); }
  }

  lemma {:induction false} SignedLength(x: int, n: nat)
    requires n > 0
    ensures |EncodeSigned(x)| <= n <==> -64 * Pow128(n - 1) <= x < 64 * Pow128(n - 1)
    decreases n
  {
    if n > 1 && !(-64 <= x < 64) { SignedLength(x / 128, n - 1); }
  }

  lemma Scaled(digit: nat, s: int, low: int, high: int)
    requires digit < 128 && low <= s < high
    ensures 128 * low <= digit + 128 * s < 128 * high
  {
  }

  /** The last byte holds the leading digit, with its sign. */
  lemma {:induction false} LeadingSeptet(bytes: seq<byte>)
    requires bytes != []
    ensures var t := Signed(bytes[|bytes| - 1..]);
            t * Pow128(|bytes| - 1) <= Signed(bytes) < (t + 1) * Pow128(|bytes| - 1)
  {
    if |bytes| > 1 {
      assert bytes[1..][|bytes| - 2..] == bytes[|bytes| - 1..];
      LeadingSeptet(bytes[1..]);
      var t, p := Signed(bytes[|bytes| - 1..]), Pow128(|bytes| - 2);
      var s := Signed(bytes[1..]);
      assert t * (128 * p) == 128 * (t * p) by { MulAssoc(t, 128, p); MulAssoc(128, t, p); }
      assert (t + 1) * (128 * p) == 128 * ((t + 1) * p) by { MulAssoc(t + 1, 128, p); MulAssoc(128, t + 1, p); }
      Scaled(Septet(bytes[0]), s, t * p, (t + 1) * p);
      hide *;
    }
  }

  /** Reading inverts encoding exactly for numbers below 2^32. */
  lemma UnsignedReadBack(data: seq<byte>, offset: nat, x: nat)
    requires var e := EncodeUnsigned(x); offset + |e| < |data| && data[offset..offset + |e|] == e
    ensures ReadUnsigned(data, offset) == Done(x, offset + |EncodeUnsigned(x)|) <==> x < TWO_32
  {
    UnsignedRoundTrip(x);
    EndOf(data, offset, EncodeUnsigned(x), 5);
    UnsignedLength(x, 5);
    Powers();
    WrapId(x);
    hide EncodeUnsigned, Unsigned, IsLeb, End, Pow128;
  }

  lemma Powers()
    ensures Pow128(1) == 128 && Pow128(2) == 0x4000 && Pow128(3) == 0x20_0000 && Pow128(4) == 0x1000_0000
    ensures Pow128(5) == 0x8_0000_0000
  {
  }

  /** Reading inverts encoding exactly from -2^27 up to 2^31. */
  lemma SignedReadBack(data: seq<byte>, offset: nat, x: int)
    requires var e := EncodeSigned(x); offset + |e| < |data| && data[offset..offset + |e|] == e
    ensures ReadSigned(data, offset) == Done(x, offset + |EncodeSigned(x)|) <==> -0x800_0000 <= x < 0x8000_0000
  {
    var e := EncodeSigned(x);
    SignedRoundTrip(x);
    EndOf(data, offset, e, 5);
    SignedLength(x, 4);
    SignedLength(x, 5);
    Powers();
    hide End, Signed, EncodeSigned, IsLeb;
    if |e| == 5 {
      FiveSeptets(e);
      assert data[offset + 5 - 1] == e[4];
    }
  }

  lemma FiveSeptets(e: seq<byte>)
    requires |e| == 5
    ensures Septet(e[4]) < 8 <==> 0 <= Signed(e) < 0x8000_0000
  {
    LeadingSeptet(e);
    Powers();
    assert e[5 - 1..] == [e[4]];
    assert Signed([e[4]]) == Septet(e[4]) - (if Septet(e[4]) >= 64 then 128 else 0);
  }

  // ---- the readers

  lemma SnocSum(first: nat, rest: nat, x: int, p: nat)
    requires first < 128 && rest < p
    ensures first + 128 * (rest + x) == (first + 128 * rest) + 128 * x && first + 128 * rest < 128 * p
  {
  }

  lemma {:induction false} UnsignedSnoc(s: seq<byte>, b: byte)
    ensures Unsigned(s + [b]) == Unsigned(s) + Septet(b) * Pow128(|s|)
    ensures Unsigned(s) < Pow128(|s|)
  {
    if s == [] {
      assert ([] + [b])[1..] == [];
    } else {
      assert (s + [b])[1..] == s[1..] + [b];
      UnsignedSnoc(s[1..], b);
      var p, d := Pow128(|s| - 1), Septet(b);
      assert 128 * (d * p) == d * (128 * p) by { MulAssoc(128, d, p); MulAssoc(d, 128, p); }
      SnocSum(Septet(s[0]), Unsigned(s[1..]), d * p, p);
    }
    hide Unsigned, Pow128, Septet;
  }

  lemma {:induction false} Pow128IsPow2(n: nat)
    ensures Pow128(n) == Pow2(7 * n)
  {
    if n > 0 {
      Pow128IsPow2(n - 1);
      Pow2Seven(7 * (n - 1));
    }
  }

  lemma Pow2Seven(k: nat)
    ensures Pow2(k + 7) == 128 * Pow2(k)
  {
    assert Pow2(k + 7) == 2 * Pow2(k + 6) && Pow2(k + 6) == 2 * Pow2(k + 5) && Pow2(k + 5) == 2 * Pow2(k + 4);
    assert Pow2(k + 4) == 2 * Pow2(k + 3) && Pow2(k + 3) == 2 * Pow2(k + 2) && Pow2(k + 2) == 2 * Pow2(k + 1);
  }

  /** One turn of the reader's loop, byte `n` of at most five. */
  lemma OrSeptet(s: seq<byte>, b: byte)
    requires |s| < 5
    ensures BitOr(Unsigned(s), Shl32(Septet(b), 7 * |s|)) == Wrap32(Unsigned(s + [b]))
    ensures Unsigned(s + [b]) < Pow128(|s| + 1)
  {
    hide *;
    UnsignedSnoc(s, b);
    UnsignedSnoc(s + [b], b);
    Pow128IsPow2(|s|);
    SeptetSmall(b);
    OrDigit(Unsigned(s), Septet(b), |s|);
  }

  lemma SeptetSmall(b: byte) ensures Septet(b) < 128 {}

  lemma OrDigit(low: nat, digit: nat, n: nat)
    requires n < 5 && digit < 128 && low < Pow128(n) && Pow128(n) == Pow2(7 * n)
    ensures BitOr(low, Shl32(digit, 7 * n)) == Wrap32(low + digit * Pow128(n))
  {
    Powers();
    assert Pow128(0) == 1;
    hide *;
    OrWith(low, digit, Pow128(n), 7 * n);
  }

  lemma OrWith(low: nat, digit: nat, p: nat, k: nat)
    requires p == 1 || p == 128 || p == 0x4000 || p == 0x20_0000 || p == 0x1000_0000
    requires digit < 128 && low < p == Pow2(k)
    ensures BitOr(low, Shl32(digit, k)) == Wrap32(low + digit * p)
  {
    var kept := if p == 0x1000_0000 then digit % 16 else digit;
    DigitFits(low, digit, p, kept);
    ShlIs(digit, k, p);
    hide *;
    OrIsPlus(low, kept, k);
  }

  lemma ShlIs(x: uint32, k: nat, p: nat)
    requires p == Pow2(k)
    ensures Shl32(x, k) == Wrap32(x * p)
  {
  }

  lemma DigitFits(low: nat, digit: nat, p: nat, kept: nat)
    requires low < p && digit < 128 && (p == 1 || p == 128 || p == 0x4000 || p == 0x20_0000 || p == 0x1000_0000)
    requires kept == if p == 0x1000_0000 then digit % 16 else digit
    ensures Wrap32(digit * p) == kept * p && Wrap32(low + digit * p) == low + kept * p
  {
    var q := if p == 0x1000_0000 then digit / 16 else 0;
    assert digit == 16 * (digit / 16) + digit % 16;
    assert digit * p == TWO_32 * q + kept * p by {
      if p == 0x1000_0000 { assert digit * p == digit * 0x1000_0000 && kept * p == kept * 0x1000_0000; }
    }
    assert low + kept * p < TWO_32 && 0 <= kept * p;
    Euclid(digit * p, TWO_32, q, kept * p);
    Euclid(low + digit * p, TWO_32, q, low + kept * p);
  }

  /** `n` bytes have been read, all with their top bit set. */
  ghost predicate Reached(data: seq<byte>, offset: nat, n: nat, done: seq<byte>) {
    && |done| == n && End(data, offset, 5) == End(data, offset + n, if n <= 5 then 5 - n else 0)
    && (offset + n <= |data| ==> done == data[offset..offset + n])
  }

  /** A byte that cannot be read, or a sixth byte, is a fault. */
  lemma CannotRead(data: seq<byte>, offset: nat, n: nat, done: seq<byte>)
    requires Reached(data, offset, n, done) && (offset + n + 1 >= |data| || n == 5)
    ensures ReadUnsigned(data, offset) == Fault && ReadSigned(data, offset) == Fault
  {
  }

  lemma Turn(data: seq<byte>, offset: nat, n: nat, done: seq<byte>, b: byte)
    requires Reached(data, offset, n, done) && n < 5 && offset + n + 1 < |data| && b == data[offset + n]
    ensures BitOr(Unsigned(done), Shl32(b as nat % 128, 7 * n)) == Wrap32(Unsigned(done + [b]))
    ensures n < 4 ==> Wrap32(Unsigned(done + [b])) == Unsigned(done + [b])
    ensures b >= 128 ==> Reached(data, offset, n + 1, done + [b])
    ensures b < 128 ==> End(data, offset, 5) == offset + n + 1
    ensures done + [b] == data[offset..offset + n + 1]
  {
    hide Unsigned, BitOr, Shl32, End, IsLeb, Pow128;
    assert done + [b] == data[offset..offset + n + 1];
    EndStep(data, offset + n, 5 - n);
    OrSeptet(done, b);
    Powers();
  }

  lemma EndStep(data: seq<byte>, at: nat, n: nat)
    ensures End(data, at, n) ==
      if n == 0 || at + 1 >= |data| then 0 else if data[at] < 128 then at + 1 else End(data, at + 1, n - 1)
  {
  }

  lemma ReadUnsignedIs(data: seq<byte>, offset: nat, next: nat)
    requires next > 0 && End(data, offset, 5) == next
    ensures ReadUnsigned(data, offset) == Done(Wrap32(Unsigned(data[offset..next])), next)
  {
  }

  /** read_leb128_u64. */
  method ReadLeb128Unsigned(data: seq<byte>, offset: nat) returns (r: Reading)
    ensures r == ReadUnsigned(data, offset)
  {
    var result, shift, at := 0, 0, offset;
    ghost var done: seq<byte> := [];
    assert Reached(data, offset, 0, done) && Unsigned(done) == 0;
    hide *;
    while true
      invariant at == offset + |done| && shift == 7 * |done| && |done| <= 5
      invariant Reached(data, offset, |done|, done)
      invariant |done| < 5 ==> result == Unsigned(done)
      decreases 5 - |done|
    {
      if at + 1 >= |data| || shift >= 32 {
        CannotRead(data, offset, |done|, done);
        return Fault;
      }
      var b := data[at];
      Turn(data, offset, |done|, done, b);
      result := BitOr(result, Shl32(b as nat % 128, shift));
      at := at + 1;
      if b < 128 {
        ReadUnsignedIs(data, offset, at);
        return Done(result, at);
      }
      done := done + [b];
      shift := shift + 7;
    }
  }

  /** A 64-bit word read as two's complement. */
  function AsInt64(x: nat): int { if x < TWO_64 / 2 then x else x - TWO_64 }

  /** Sign extension: or-ing in the word with all bits from `k` up. */
  function Extended(x: nat, k: nat): int { AsInt64(BitOr(x, Wrap64(-(Pow2(k) as int)))) }

  lemma ExtensionSubtracts(x: nat, n: nat)
    requires x < Pow128(n) && 0 < n < 5
    ensures Extended(x, 7 * n) == x - Pow128(n)
  {
    Powers();
    Pow128IsPow2(n);
    var p := Pow128(n);
    var high := if n == 1 then TWO_64 / 0x80 - 1 else if n == 2 then TWO_64 / 0x4000 - 1
                else if n == 3 then TWO_64 / 0x20_0000 - 1 else TWO_64 / 0x1000_0000 - 1;
    assert p == 0x80 || p == 0x4000 || p == 0x20_0000 || p == 0x1000_0000;
    hide BitOr, Pow2, Pow128;
    assert Wrap64(-(p as int)) == TWO_64 - p == high * p;
    OrIsPlus(x, high, 7 * n);
    assert BitOr(x, high * p) == x + high * p;
  }

  lemma {:induction false} SignedIs(s: seq<byte>)
    requires s != []
    ensures Signed(s) == Unsigned(s) - (if Septet(s[|s| - 1]) >= 64 then Pow128(|s|) else 0)
    ensures Unsigned(s) < Pow128(|s|)
  {
    UnsignedSnoc(s, 0);
    if |s| == 1 {
      assert Unsigned(s[1..]) == 0;
    } else {
      SignedIs(s[1..]);
    }
  }

  lemma ReadSignedIs(data: seq<byte>, offset: nat, next: nat)
    requires next > 0 && End(data, offset, 5) == next
    ensures ReadSigned(data, offset) ==
      if next == offset + 5 && Septet(data[next - 1]) >= 8 then Fault else Done(Signed(data[offset..next]), next)
  {
  }

  lemma FifthByte(data: seq<byte>, offset: nat, done: seq<byte>, b: byte)
    requires Reached(data, offset, 4, done) && offset + 5 < |data| && b == data[offset + 4] && Septet(b) >= 8
    ensures ReadSigned(data, offset) == Fault
  {
  }

  /** read_leb128_i64. */
  method ReadLeb128Signed(data: seq<byte>, offset: nat) returns (r: Reading)
    ensures r == ReadSigned(data, offset)
  {
    var result, shift, at := 0, 0, offset;
    ghost var done: seq<byte> := [];
    assert Reached(data, offset, 0, done) && Unsigned(done) == 0;
    hide *;
    while true
      invariant at == offset + |done| && shift == 7 * |done| && |done| <= 5
      invariant Reached(data, offset, |done|, done)
      invariant |done| < 5 ==> result == Unsigned(done)
      decreases 5 - |done|
    {
      if at + 1 >= |data| || shift >= 32 {
        CannotRead(data, offset, |done|, done);
        return Fault;
      }
      var b := data[at];
      if shift == 28 && b as nat % 128 >= 8 {
        SeptetIs(b);
        FifthByte(data, offset, done, b);
        return Fault;
      }
      Turn(data, offset, |done|, done, b);
      result := BitOr(result, Shl32(b as nat % 128, shift));
      at := at + 1;
      done := done + [b];
      shift := shift + 7;
      if b < 128 {
        SignedResult(data, offset, done);
        return Done(SignBit(result, shift, b), at);
      }
    }
  }

  /** The lines after the loop: the sign bit is bit 6 of the last byte. */
  function SignBit(x: nat, shift: nat, last: byte): int {
    if last as nat % 128 >= 64 then Extended(x, shift) else x
  }

  lemma SignedResult(data: seq<byte>, offset: nat, done: seq<byte>)
    requires var n := |done|; 0 < n <= 5 && End(data, offset, 5) == offset + n && done == data[offset..offset + n]
    requires |done| == 5 ==> Septet(done[4]) < 8
    ensures var n := |done|;
      ReadSigned(data, offset) == Done(SignBit(Wrap32(Unsigned(done)), 7 * n, done[n - 1]), offset + n)
  {
    ReadSignedIs(data, offset, offset + |done|);
    SignedIs(done);
    NoLoss(done);
    hide ReadSigned, End, Unsigned, Signed, Pow2, Pow128, BitOr, Extended;
    if Septet(done[|done| - 1]) >= 64 { ExtensionSubtracts(Unsigned(done), |done|); }
  }

  lemma SeptetIs(b: byte) ensures Septet(b) == b as nat % 128 {}

  lemma NoLoss(s: seq<byte>)
    requires 0 < |s| <= 5 && (|s| == 5 ==> Septet(s[4]) < 8)
    ensures Wrap32(Unsigned(s)) == Unsigned(s)
  {
    UnsignedSnoc(s, 0);
    UnsignedSnoc(s[..|s| - 1], s[|s| - 1]);
    assert s == s[..|s| - 1] + [s[|s| - 1]];
    Powers();
    var x, low, top := Unsigned(s), Unsigned(s[..|s| - 1]), Septet(s[|s| - 1]);
    assert |s| == 5 ==> low < 0x1000_0000 && x == low + top * 0x1000_0000 && top < 8;
    assert |s| < 5 ==> x < Pow128(|s|) <= 0x1000_0000;
    hide Unsigned, Pow128, Septet;
    WrapId(x);
  }
}
