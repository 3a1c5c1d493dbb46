/** The fixed-width integers of the C sources. */
module MachineInts {
  import Arithmetic

  newtype byte = x: int | 0 <= x < 0x100

  const TWO_32 := 0x1_0000_0000
  const TWO_64 := 0x1_0000_0000_0000_0000

  type uint32 = x: int | 0 <= x < TWO_32
  type uint64 = x: int | 0 <= x < TWO_64

  /** Conversion to `uint32_t`: reduction modulo 2^32. */
  function Wrap32(x: int): uint32 { x % TWO_32 }

  /** Conversion to `uint64_t`: reduction modulo 2^64. */
  function Wrap64(x: int): uint64 { x % TWO_64 }

  lemma WrapId(x: nat)
    ensures x < TWO_32 ==> Wrap32(x) == x
    ensures x < TWO_64 ==> Wrap64(x) == x
  {
  }

  lemma WrapSum(x: int, y: int)
    ensures Wrap32(x + Wrap32(y)) == Wrap32(x + y)
  {
    var q := y / TWO_32;
    assert x + y == (x + Wrap32(y)) + q * TWO_32;
  }

  lemma BitsOfValue(v: bv8) ensures (v as int) as bv8 == v {}

  lemma NextBits(v: bv8)
    requires v != 255
    ensures (v + 1) as int == v as int + 1
  {
  }

  lemma {:induction false} SomeBits(x: nat) returns (v: bv8)
    requires x < 256
    ensures v as int == x
  {
    if x == 0 {
      v := 0;
    } else {
      var w := SomeBits(x - 1);
      NextBits(w);
      v := w + 1;
    }
  }

  /** A byte as eight bits and back. */
  lemma ByteRoundTrip(b: byte)
    ensures (b as bv8) as byte == b && (b as bv8) as int == b as int
  {
    var v := SomeBits(b as int);
    BitsOfValue(v);
  }

  /** The operator `|` on non-negative values, bit by bit. */
  function BitOr(x: nat, y: nat): nat
    decreases x
  {
    if x == 0 then y
    else 2 * BitOr(x / 2, y / 2) + (if x % 2 == 1 || y % 2 == 1 then 1 else 0)
  }

  function Pow2(k: nat): (p: nat)
    ensures p > 0
  {
    if k == 0 then 1 else 2 * Pow2(k - 1)
  }

  function Shr(x: nat, k: nat): nat {
    Arithmetic.DivShrinks(x, Pow2(k));
    x / Pow2(k)
  }

  function Shl32(x: uint32, k: nat): uint32 { Wrap32(x * Pow2(k)) }

  /** `|` adds when the operands share no bit position. */
  lemma {:induction false} OrIsPlus(low: nat, high: nat, k: nat)
    requires low < Pow2(k)
    ensures BitOr(low, high * Pow2(k)) == low + high * Pow2(k)
    ensures BitOr(high * Pow2(k), low) == low + high * Pow2(k)
    decreases k
  {
    if k == 0 {
      OrZero(high);
    } else {
      var x := high * Pow2(k - 1);
      assert high * Pow2(k) == 2 * x;
      OrIsPlus(low / 2, high, k - 1);
      OrZero(low);
    }
  }

  lemma {:induction false} OrZero(x: nat)
    ensures BitOr(x, 0) == x
  {
    if x > 0 { OrZero(x / 2); }
  }
}
