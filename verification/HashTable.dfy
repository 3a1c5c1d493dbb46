/** dtrace-alloc-postprocess/main.c: an open-addressing table with linear probing, keyed by address.
    A slot is empty when its hash is 0. */
module HashTable {
  import opened MachineInts
  import opened Arithmetic

  // ---- FNV-1a over the eight bytes of a key

  function Xor8(x: byte, y: byte): byte { ((x as bv8) ^ (y as bv8)) as byte }

  /** Exclusive-or with a byte: only the low byte of the word takes part. */
  function XorByte(h: uint32, b: byte): uint32 { h / 256 * 256 + Xor8((h % 256) as byte, b) as int }

  function Fnv(bytes: seq<byte>): uint32 {
    if bytes == [] then 2166136261
    else Wrap32(XorByte(Fnv(bytes[..|bytes| - 1]), bytes[|bytes| - 1]) * 16777619)
  }

  function LittleEndian(x: nat, n: nat): seq<byte> {
    if n == 0 then [] else [(x % 256) as byte] + LittleEndian(x / 256, n - 1)
  }

  /** pg_hash of a 64-bit key. */
  function Hash(key: uint64): uint32 { Fnv(LittleEndian(key, 8)) }

  // ---- probing

  /** The slot `e` steps after `home`, around the end. */
  function After(home: nat, e: nat, cap: nat): nat
    requires home < cap && e <= cap
  {
    if home + e < cap then home + e else home + e - cap
  }

  /** How many steps lead from `home` to `i`. */
  function Distance(home: nat, i: nat, cap: nat): nat
    requires home < cap && i < cap
  {
    if home <= i then i - home else i + cap - home
  }

  function Home(key: uint64, cap: nat): (i: nat)
    requires cap > 0
    ensures i < cap
  {
    Hash(key) % cap
  }

  /** The slot `e` steps after `home` is taken, and not by `key`. */
  ghost predicate Passed(keys: seq<uint64>, hashes: seq<uint32>, key: uint64, home: nat, e: nat)
    requires |keys| == |hashes| && home < |keys| && e < |keys|
  {
    var i := After(home, e, |keys|);
    hashes[i] != 0 && !(hashes[i] == Hash(key) && keys[i] == key)
  }

  /** Every slot from `home` up to, not including, `i` is taken. */
  ghost predicate PathFull(hashes: seq<uint32>, home: nat, i: nat)
    requires home < |hashes| && i < |hashes|
  {
    forall e :: 0 <= e < Distance(home, i, |hashes|) ==> hashes[After(home, e, |hashes|)] != 0
  }

  /** The slot the probe for `key` ends at: the first from its home that is empty or holds the key. */
  ghost predicate StopsAt(keys: seq<uint64>, hashes: seq<uint32>, key: uint64, i: nat)
    requires |keys| == |hashes|
  {
    && i < |keys|
    && (hashes[i] == 0 || (hashes[i] == Hash(key) && keys[i] == key))
    && forall e :: 0 <= e < Distance(Home(key, |keys|), i, |keys|) ==> Passed(keys, hashes, key, Home(key, |keys|), e)
  }

  lemma AfterDistance(home: nat, i: nat, cap: nat)
    requires home < cap && i < cap
    ensures Distance(home, i, cap) < cap && After(home, Distance(home, i, cap), cap) == i
  {
  }

  lemma DistanceAfter(home: nat, e: nat, cap: nat)
    requires home < cap && e < cap
    ensures After(home, e, cap) < cap && Distance(home, After(home, e, cap), cap) == e
  {
  }

  /** A probe ends at one slot only. */
  lemma StopIsUnique(keys: seq<uint64>, hashes: seq<uint32>, key: uint64, i: nat, j: nat)
    requires |keys| == |hashes| && StopsAt(keys, hashes, key, i) && StopsAt(keys, hashes, key, j)
    ensures i == j
  {
    hide Hash;
    var home := Home(key, |keys|);
    AfterDistance(home, i, |keys|);
    AfterDistance(home, j, |keys|);
    assert !Passed(keys, hashes, key, home, Distance(home, i, |keys|));
    assert !Passed(keys, hashes, key, home, Distance(home, j, |keys|));
  }

  lemma NextSlot(i: nat, cap: nat)
    requires i < cap
    ensures (i + 1) % cap == After(i, 1, cap)
  {
    if i + 1 == cap { Euclid(i + 1, cap, 1, 0); } else { Euclid(i + 1, cap, 0, i + 1); }
  }

  // ---- how full the table is

  function Taken(hashes: seq<uint32>): (n: nat)
    ensures n <= |hashes|
  {
    if hashes == [] then 0 else Taken(hashes[1..]) + (if hashes[0] == 0 then 0 else 1)
  }

  lemma {:induction false} FindEmpty(hashes: seq<uint32>) returns (z: nat)
    requires Taken(hashes) < |hashes|
    ensures z < |hashes| && hashes[z] == 0
  {
    if hashes[0] == 0 { z := 0; } else { z := FindEmpty(hashes[1..]); z := z + 1; }
  }

  lemma {:induction false} TakenAfterStore(hashes: seq<uint32>, i: nat, h: uint32)
    requires i < |hashes| && hashes[i] == 0
    ensures Taken(hashes[i := h]) == Taken(hashes) + (if h == 0 then 0 else 1)
  {
    if i == 0 {
      assert hashes[0 := h][1..] == hashes[1..];
    } else {
      assert hashes[i := h][1..] == hashes[1..][i - 1 := h];
      TakenAfterStore(hashes[1..], i - 1, h);
    }
  }

  lemma {:induction false} TakenZeros(hashes: seq<uint32>)
    requires forall i :: 0 <= i < |hashes| ==> hashes[i] == 0
    ensures Taken(hashes) == 0
  {
    if hashes != [] { TakenZeros(hashes[1..]); }
  }

  lemma {:induction false} TakenAppend(hashes: seq<uint32>, zeros: seq<uint32>)
    requires forall i :: 0 <= i < |zeros| ==> zeros[i] == 0
    ensures Taken(hashes + zeros) == Taken(hashes)
  {
    if hashes == [] {
      assert hashes + zeros == zeros;
      TakenZeros(zeros);
    } else {
      assert (hashes + zeros)[1..] == hashes[1..] + zeros;
      TakenAppend(hashes[1..], zeros);
    }
  }

  /** The load limit of 3/4 leaves an empty slot after an insertion exactly from four slots on. */
  lemma LoadLeavesRoom(cap: nat)
    requires cap > 0
    ensures (forall len: nat :: 4 * len < 3 * cap ==> len + 1 < cap) <==> cap >= 4
  {
    if cap < 4 {
      assert 4 * (cap - 1) < 3 * cap;
    }
  }

  /** In a full table the probe for a key it does not hold ends nowhere; with fewer than four slots the load
      limit lets a table fill up. */
  lemma FullNeverStops(keys: seq<uint64>, hashes: seq<uint32>, key: uint64)
    requires |keys| == |hashes| && Taken(hashes) == |hashes|
    ensures (exists i: nat :: StopsAt(keys, hashes, key, i)) <==>
            exists i: nat :: i < |keys| && hashes[i] == Hash(key) && keys[i] == key
  {
    hide Hash;
    AllTaken(hashes);
    if i: nat :| i < |keys| && hashes[i] == Hash(key) && keys[i] == key {
      var j := FirstMatch(keys, hashes, key, Home(key, |keys|), 0, Distance(Home(key, |keys|), i, |keys|));
      assert StopsAt(keys, hashes, key, j);
    }
  }

  lemma {:induction false} AllTaken(hashes: seq<uint32>)
    requires Taken(hashes) == |hashes|
    ensures forall i :: 0 <= i < |hashes| ==> hashes[i] != 0
  {
    if hashes != [] {
      AllTaken(hashes[1..]);
      forall i | 0 <= i < |hashes| ensures hashes[i] != 0 { if i > 0 { assert hashes[1..][i - 1] != 0; } }
    }
  }

  /** The first match on a probe path without empty slots. */
  lemma {:induction false} FirstMatch(keys: seq<uint64>, hashes: seq<uint32>, key: uint64, home: nat, e: nat, d: nat)
      returns (j: nat)
    requires |keys| == |hashes| && e <= d < |keys| && home == Home(key, |keys|)
    requires forall i :: 0 <= i < |hashes| ==> hashes[i] != 0
    requires forall c :: 0 <= c < e ==> Passed(keys, hashes, key, home, c)
    requires !Passed(keys, hashes, key, home, d)
    ensures StopsAt(keys, hashes, key, j)
    decreases d - e
  {
    hide Hash;
    if Passed(keys, hashes, key, home, e) {
      j := FirstMatch(keys, hashes, key, home, e + 1, d);
    } else {
      j := After(home, e, |keys|);
      DistanceAfter(home, e, |keys|);
    }
  }

  // ---- the map a table stands for

  ghost predicate SlotFine(keys: seq<uint64>, values: seq<uint64>, hashes: seq<uint32>,
                           contents: map<uint64, uint64>, i: nat)
    requires |keys| == |values| == |hashes| && i < |keys|
  {
    hashes[i] != 0 ==>
      && hashes[i] == Hash(keys[i])
      && keys[i] in contents && contents[keys[i]] == values[i]
      && PathFull(hashes, Home(keys[i], |keys|), i)
  }

  /** The table holds exactly `contents`, every entry reachable from its home slot. */
  ghost predicate Holds(keys: seq<uint64>, values: seq<uint64>, hashes: seq<uint32>, contents: map<uint64, uint64>) {
    && |keys| == |values| == |hashes| > 0
    && (forall i: nat :: i < |keys| ==> SlotFine(keys, values, hashes, contents, i))
    && (forall i: nat, j: nat :: i < j < |keys| && hashes[i] != 0 && hashes[j] != 0 ==> keys[i] != keys[j])
    && (forall k :: k in contents ==> exists i: nat :: i < |keys| && hashes[i] != 0 && keys[i] == k)
  }

  /** Where the probe stops tells whether the key is in the map, and holds its value if it is. */
  lemma StopsRight(keys: seq<uint64>, values: seq<uint64>, hashes: seq<uint32>, contents: map<uint64, uint64>,
                   key: uint64, i: nat)
    requires Holds(keys, values, hashes, contents) && StopsAt(keys, hashes, key, i)
    ensures hashes[i] != 0 <==> key in contents
    ensures key in contents ==> contents[key] == values[i]
  {
    hide Hash;
    assert SlotFine(keys, values, hashes, contents, i);
    if key in contents {
      var j: nat :| j < |keys| && hashes[j] != 0 && keys[j] == key;
      assert SlotFine(keys, values, hashes, contents, j);
      SlotIsStop(keys, values, hashes, contents, j);
      StopIsUnique(keys, hashes, key, i, j);
    }
  }

  lemma SlotIsStop(keys: seq<uint64>, values: seq<uint64>, hashes: seq<uint32>, contents: map<uint64, uint64>, j: nat)
    requires Holds(keys, values, hashes, contents) && j < |keys| && hashes[j] != 0
    ensures StopsAt(keys, hashes, keys[j], j)
  {
    hide Hash;
    var home := Home(keys[j], |keys|);
    assert SlotFine(keys, values, hashes, contents, j);
    forall e | 0 <= e < Distance(home, j, |keys|) ensures Passed(keys, hashes, keys[j], home, e) {
      DistanceAfter(home, e, |keys|);
    }
  }

  /** Filling the empty slot a probe stopped at adds the entry; overwriting the key's slot updates it. */
  lemma StoreHolds(keys: seq<uint64>, values: seq<uint64>, hashes: seq<uint32>, contents: map<uint64, uint64>,
                   key: uint64, value: uint64, i: nat)
    requires Holds(keys, values, hashes, contents) && Hash(key) != 0 && StopsAt(keys, hashes, key, i)
    ensures Holds(keys[i := key], values[i := value], hashes[i := Hash(key)], contents[key := value])
  {
    hide Hash;
    StopsRight(keys, values, hashes, contents, key, i);
    var keys', values', hashes' := keys[i := key], values[i := value], hashes[i := Hash(key)];
    var contents' := contents[key := value];
    assert SlotFine(keys, values, hashes, contents, i);
    forall j: nat | j < |keys| ensures SlotFine(keys', values', hashes', contents', j) {
      assert SlotFine(keys, values, hashes, contents, j);
      if j == i {
        var home := Home(key, |keys|);
        forall e | 0 <= e < Distance(home, i, |keys|) ensures hashes'[After(home, e, |keys|)] != 0 {
          assert Passed(keys, hashes, key, home, e);
        }
      } else if hashes[j] != 0 && keys[j] == key {
        SlotIsStop(keys, values, hashes, contents, j);
        StopIsUnique(keys, hashes, key, i, j);
      }
    }
    forall k | k in contents' ensures exists j: nat :: j < |keys| && hashes'[j] != 0 && keys'[j] == k {
      if k == key {
        assert hashes'[i] != 0 && keys'[i] == key;
      } else {
        var j: nat :| j < |keys| && hashes[j] != 0 && keys[j] == k;
        assert hashes'[j] != 0 && keys'[j] == k;
      }
    }
    forall a: nat, b: nat | a < b < |keys| && hashes'[a] != 0 && hashes'[b] != 0 ensures keys'[a] != keys'[b] {
      if a == i { assert SlotFine(keys, values, hashes, contents, b); }
      if b == i { assert SlotFine(keys, values, hashes, contents, a); }
    }
  }

  /** A key whose hash is 0 is written into a slot that stays empty: the map is unchanged. */
  lemma ZeroHashIsLost(keys: seq<uint64>, values: seq<uint64>, hashes: seq<uint32>, contents: map<uint64, uint64>,
                       key: uint64, value: uint64, i: nat)
    requires Holds(keys, values, hashes, contents) && Hash(key) == 0 && StopsAt(keys, hashes, key, i)
    ensures hashes[i] == 0 && key !in contents
    ensures Holds(keys[i := key], values[i := value], hashes, contents)
  {
    hide Hash;
    StopsRight(keys, values, hashes, contents, key, i);
    assert SlotFine(keys, values, hashes, contents, i);
    var keys', values' := keys[i := key], values[i := value];
    forall j: nat | j < |keys| ensures SlotFine(keys', values', hashes, contents, j) {
      assert SlotFine(keys, values, hashes, contents, j);
    }
    forall k | k in contents ensures exists j: nat :: j < |keys| && hashes[j] != 0 && keys'[j] == k {
      var j: nat :| j < |keys| && hashes[j] != 0 && keys[j] == k;
      assert keys'[j] == k;
    }
  }

  /** What a store keeps, whichever slot the probe stopped at. */
  lemma StoreKeeps(keys: seq<uint64>, values: seq<uint64>, hashes: seq<uint32>, contents: map<uint64, uint64>,
                   grown: bool, key: uint64, value: uint64, i: nat)
    requires |keys| == |values| == |hashes| && StopsAt(keys, hashes, key, i)
    requires !grown ==> Holds(keys, values, hashes, contents)
    ensures hashes[i] != 0 ==> keys[i := key] == keys && hashes[i := Hash(key)] == hashes
    ensures Taken(hashes[i := Hash(key)]) <= Taken(hashes) + (if hashes[i] == 0 then 1 else 0)
    ensures !grown ==> Holds(keys[i := key], values[i := value], hashes[i := Hash(key)],
                             if Hash(key) == 0 then contents else contents[key := value])
  {
    hide Hash, Holds;
    if hashes[i] == 0 { TakenAfterStore(hashes, i, Hash(key)); }
    if !grown {
      if Hash(key) != 0 {
        StoreHolds(keys, values, hashes, contents, key, value, i);
      } else {
        ZeroHashIsLost(keys, values, hashes, contents, key, value, i);
        assert hashes[i := Hash(key)] == hashes;
      }
    }
  }

  datatype Slots = Slots(keys: seq<uint64>, values: seq<uint64>, hashes: seq<uint32>, len: nat)

  /** The entry is written where its probe stops and nothing else changes. */
  ghost predicate Stored(before: Slots, after: Slots, key: uint64, value: uint64) {
    && |before.keys| == |before.values| == |before.hashes|
    && exists i: nat :: StopsAt(before.keys, before.hashes, key, i)
         && after == Slots(before.keys[i := key], before.values[i := value], before.hashes[i := Hash(key)],
                           before.len + (if before.hashes[i] == 0 then 1 else 0))
  }

  lemma StoredBounds(before: Slots, after: Slots, key: uint64, value: uint64)
    requires Stored(before, after, key, value) && |before.values| == |before.keys|
    ensures |after.values| == |before.values| && after.len <= before.len + 1
    ensures forall i :: 0 <= i < |after.values| ==> after.values[i] == value || after.values[i] == before.values[i]
  {
  }

  // ---- growth

  /** pg_array_grow's next capacity. */
  function GrownCapacity(cap: nat): nat { 3 * cap / 2 + 8 }

  /** Entries keep their slots when the arrays grow; their home slots move. An old key is found again
      exactly when no slot between its new home and its old slot is empty. */
  lemma FoundAfterGrowth(keys: seq<uint64>, values: seq<uint64>, hashes: seq<uint32>, contents: map<uint64, uint64>,
                         room: nat, j: nat, i: nat)
    requires Holds(keys, values, hashes, contents) && j < |keys| && hashes[j] != 0
    requires var z := seq(room, _ => 0); StopsAt(keys + z, hashes + z, keys[j], i)
    ensures var grown := hashes + seq(room, _ => 0);
            grown[i] != 0 <==> PathFull(grown, Home(keys[j], |keys| + room), j)
  {
    hide Hash;
    var z := seq(room, _ => 0);
    var keys', hashes', cap := keys + z, hashes + z, |keys| + room;
    var home := Home(keys[j], cap);
    assert SlotFine(keys, values, hashes, contents, j);
    if PathFull(hashes', home, j) {
      forall e | 0 <= e < Distance(home, j, cap) ensures Passed(keys', hashes', keys[j], home, e) {
        DistanceAfter(home, e, cap);
      }
      StopIsUnique(keys', hashes', keys[j], i, j);
    } else if hashes'[i] != 0 {
      assert i == j;
      forall e | 0 <= e < Distance(home, i, cap) ensures hashes'[After(home, e, cap)] != 0 {
        assert Passed(keys', hashes', keys[j], home, e);
      }
    }
  }

  function Times(h: uint32, n: nat): uint32 {
    if n == 0 then h else Wrap32(Times(h, n - 1) * 16777619)
  }

  /** The hash of a key below 256: seven of its bytes are 0. */
  lemma SmallKeyHash(key: byte)
    ensures Hash(key as int) == Times(XorByte(2166136261, key), 8)
  {
    assert LittleEndian(key as int, 8) == [key] + Zeros(7) by { LittleEndianZero(7); }
    FnvSnoc([], key);
    FnvZeros([key], 7);
    TimesTimes(XorByte(2166136261, key), 1, 7);
  }

  lemma FnvSnoc(s: seq<byte>, b: byte)
    ensures Fnv(s + [b]) == Times(XorByte(Fnv(s), b), 1)
  {
    assert (s + [b])[..|s|] == s;
  }

  lemma {:induction false} TimesTimes(h: uint32, m: nat, n: nat)
    ensures Times(Times(h, m), n) == Times(h, m + n)
  {
    if n > 0 { TimesTimes(h, m, n - 1); }
  }

  lemma XorZero(h: uint32)
    ensures XorByte(h, 0) == h
  {
    Xor8Zero((h % 256) as byte);
  }

  lemma Xor8Zero(x: byte)
    ensures Xor8(x, 0) == x
  {
    assert (x as bv8) ^ 0 == x as bv8;
  }

  function Zeros(n: nat): (s: seq<byte>)
    ensures |s| == n
  {
    if n == 0 then [] else Zeros(n - 1) + [0]
  }

  lemma {:induction false} LittleEndianZero(n: nat)
    ensures LittleEndian(0, n) == Zeros(n)
  {
    if n > 0 { LittleEndianZero(n - 1); ZerosFront(n); }
  }

  lemma {:induction false} ZerosFront(n: nat)
    requires n > 0
    ensures Zeros(n) == [0] + Zeros(n - 1)
  {
    if n > 1 { ZerosFront(n - 1); }
  }

  lemma {:induction false} FnvZeros(s: seq<byte>, n: nat)
    ensures Fnv(s + Zeros(n)) == Times(Fnv(s), n)
  {
    if n == 0 {
      assert s + Zeros(0) == s;
    } else {
      FnvZeros(s, n - 1);
      assert s + Zeros(n) == (s + Zeros(n - 1)) + [0];
      FnvSnoc(s + Zeros(n - 1), 0);
      XorZero(Times(Fnv(s), n - 1));
    }
  }

  // Concrete hashes, one step at a time.

  ghost predicate Link(h: uint32, next: uint32) { Wrap32(h * 16777619) == next }

  lemma TimesLink(h: uint32, n: nat, v: uint32, next: uint32)
    requires Times(h, n) == v && Link(v, next)
    ensures Times(h, n + 1) == next
  {
  }

  lemma XorIs(q: nat, low: byte, b: byte, x: byte)
    requires 256 * q + low as int < TWO_32 && Xor8(low, b) == x
    ensures XorByte(256 * q + low as int, b) == 256 * q + x as int
  {
    Euclid(256 * q + low as int, 256, q, low as int);
  }

  lemma FnvLink(s: seq<byte>, b: byte, h: uint32, x: uint32, next: uint32)
    requires Fnv(s) == h && XorByte(h, b) == x && Link(x, next)
    ensures Fnv(s + [b]) == next
  {
    FnvSnoc(s, b);
    assert Times(x, 0) == x;
    TimesLink(x, 0, x, next);
  }

  /** There is a key of hash 0 (an address, even a multiple of 16). */
  lemma ZeroHashKey()
    ensures Hash(0x42_381b_2440) == 0
  {
    var k := [0x40, 0x24, 0x1b, 0x38, 0x42];
    assert LittleEndian(0x42_381b_2440, 8) == k + Zeros(3) by { LittleEndianZero(3); }
    assert k[..1] == [] + [0x40] && k[..2] == k[..1] + [0x24] && k[..3] == k[..2] + [0x1b] && k[..4] == k[..3] + [0x38];
    assert k == k[..4] + [0x42];
    assert Fnv([]) == 2166136261;
    XorsOfZeroHashKey();
    LinksOfZeroHashKey();
    hide Fnv, XorByte, Link, LittleEndian;
    FnvLink([], 0x40, 2166136261, 2166136197, 3305896031);
    FnvLink(k[..1], 0x24, 3305896031, 3305896059, 2899847585);
    FnvLink(k[..2], 0x1b, 2899847585, 2899847610, 3528044494);
    FnvLink(k[..3], 0x38, 3528044494, 3528044534, 66);
    FnvLink(k[..4], 0x42, 66, 0, 0);
    FnvZeros(k, 3);
    TimesZero(3);
  }

  lemma {:induction false} TimesZero(n: nat)
    ensures Times(0, n) == 0
  {
    if n > 0 { TimesZero(n - 1); }
  }

  lemma XorsOfZeroHashKey()
    ensures XorByte(2166136261, 0x40) == 2166136197 && XorByte(3305896031, 0x24) == 3305896059
    ensures XorByte(2899847585, 0x1b) == 2899847610 && XorByte(3528044494, 0x38) == 3528044534 && XorByte(66, 0x42) == 0
  {
    assert Xor8(0xc5, 0x40) == 0x85 && Xor8(0x5f, 0x24) == 0x7b && Xor8(0x21, 0x1b) == 0x3a;
    assert Xor8(0xce, 0x38) == 0xf6 && Xor8(0x42, 0x42) == 0;
    hide XorByte, Xor8;
    XorIs(2166136261 / 256, 0xc5, 0x40, 0x85);
    XorIs(3305896031 / 256, 0x5f, 0x24, 0x7b);
    XorIs(2899847585 / 256, 0x21, 0x1b, 0x3a);
    XorIs(3528044494 / 256, 0xce, 0x38, 0xf6);
    XorIs(0, 0x42, 0x42, 0);
  }

  lemma LinksOfZeroHashKey()
    ensures Link(2166136197, 3305896031) && Link(3305896059, 2899847585) && Link(2899847610, 3528044494)
    ensures Link(3528044534, 66) && Link(0, 0)
  {
  }

  lemma XorOfOne()
    ensures XorByte(2166136261, 1) == 2166136260
  {
    assert Xor8(0xc5, 1) == 0xc4;
    hide XorByte, Xor8;
    XorIs(2166136261 / 256, 0xc5, 1, 0xc4);
  }

  lemma HashOfOne()
    ensures Hash(1) == 1048580676
  {
    XorOfOne();
    SmallKeyHash(1);
    var h := 2166136260;
    assert Times(h, 0) == h;
    LinksOfOne();
    hide *;
    TimesLink(h, 0, h, 67918732);
    TimesLink(h, 1, 67918732, 3950255460);
    TimesLink(h, 2, 3950255460, 197805164);
    TimesLink(h, 3, 197805164, 4218009092);
    TimesLink(h, 4, 4218009092, 3412691020);
    TimesLink(h, 5, 3412691020, 2200014756);
    TimesLink(h, 6, 2200014756, 299179820);
    TimesLink(h, 7, 299179820, 1048580676);
  }

  lemma LinksOfOne()
    ensures Link(2166136260, 67918732) && Link(67918732, 3950255460) && Link(3950255460, 197805164)
    ensures Link(197805164, 4218009092) && Link(4218009092, 3412691020) && Link(3412691020, 2200014756)
    ensures Link(2200014756, 299179820) && Link(299179820, 1048580676)
  {
  }

  /** A key whose new home lies in the cleared part of the grown arrays is lost. */
  lemma GrowthLosesKey(keys: seq<uint64>, hashes: seq<uint32>, key: uint64)
    requires |keys| == |hashes| > 0 && Home(key, GrownCapacity(|keys|)) >= |keys|
    ensures var z, i := seq(GrownCapacity(|keys|) - |keys|, _ => 0), Home(key, GrownCapacity(|keys|));
            StopsAt(keys + z, hashes + z, key, i) && (hashes + z)[i] == 0
  {
    hide Hash;
  }

  /** In a table of four slots the key 1 is stored in slot 0; when the table grows its new home is slot 10. */
  lemma GrowthLosesOne()
    ensures Home(1, 4) == 0 && GrownCapacity(4) == 14 && Home(1, 14) == 10
  {
    HashOfOne();
    hide Hash;
  }

  // ---- the table

  class Table {
    var keys: array<uint64>
    var values: array<uint64>
    var hashes: array<uint32>
    var len: nat
    ghost var contents: map<uint64, uint64>   // the plain map that the same upserts give
    ghost var grown: bool                     // the arrays have grown at least once

    ghost predicate Shape()
      reads this, hashes
    {
      && keys != values
      && keys.Length == values.Length == hashes.Length >= 4
      && Taken(hashes[..]) <= len < hashes.Length
    }

    ghost predicate Valid()
      reads this, keys, values, hashes
    {
      Shape() && (!grown ==> Holds(keys[..], values[..], hashes[..], contents))
    }

    /** pg_hashtable_init, with memory that the allocator has cleared. */
    constructor (cap: nat)
      requires cap >= 4
      ensures Valid() && !grown && contents == map[] && len == 0
      ensures fresh(keys) && fresh(values) && fresh(hashes) && keys.Length == cap
      ensures forall i :: 0 <= i < values.Length ==> values[i] == 0
    {
      keys, values, hashes := new uint64[cap](_ => 0), new uint64[cap](_ => 0), new uint32[cap](_ => 0);
      len, contents, grown := 0, map[], false;
      new;
      TakenZeros(hashes[..]);
    }

    /** pg_hashtable_find. */
    method Find(key: uint64) returns (found: bool, index: nat)
      requires Valid()
      ensures index < keys.Length && StopsAt(keys[..], hashes[..], key, index)
      ensures found == (hashes[index] != 0)
      ensures !grown ==> (found <==> key in contents) && (found ==> values[index] == contents[key])
    {
      ghost var ks, hs, cap := keys[..], hashes[..], keys.Length;
      ghost var z := FindEmpty(hs);
      var hash := Hash(key);
      index := hash % keys.Length;
      ghost var home, e: nat := index, 0;
      assert home == Home(key, cap);
      AfterDistance(home, z, cap);
      hide Hash;
      while true
        invariant e <= Distance(home, z, cap) && index == After(home, e, cap)
        invariant forall d :: 0 <= d < e ==> Passed(ks, hs, key, home, d)
        decreases cap - e
      {
        DistanceAfter(home, e, cap);
        var indexHash := hashes[index];
        if indexHash == 0 || (indexHash == hash && keys[index] == key) {
          found := indexHash != 0;
          break;
        }
        assert Passed(ks, hs, key, home, e);
        NextSlot(index, keys.Length);
        index := (index + 1) % keys.Length;
        e := e + 1;
      }
      assert StopsAt(ks, hs, key, index);
      if !grown { StopsRight(ks, values[..], hs, contents, key, index); }
    }

    /** The three calls of pg_array_grow. */
    method Grow()
      requires Valid()
      modifies this
      ensures Shape() && grown && contents == old(contents) && len == old(len)
      ensures fresh(keys) && fresh(values) && fresh(hashes)
      ensures var z := seq(GrownCapacity(old(keys.Length)) - old(keys.Length), _ => 0);
        && keys[..] == old(keys[..]) + z && values[..] == old(values[..]) + z && hashes[..] == old(hashes[..]) + z
    {
      var cap := keys.Length;
      var newCap := 3 * cap / 2 + 8;
      var oldKeys, oldValues, oldHashes := keys, values, hashes;
      keys := new uint64[newCap](
        i requires 0 <= i reads oldKeys => if i < oldKeys.Length then oldKeys[i] else 0);
      values := new uint64[newCap](
        i requires 0 <= i reads oldValues => if i < oldValues.Length then oldValues[i] else 0);
      hashes := new uint32[newCap](
        i requires 0 <= i reads oldHashes => if i < oldHashes.Length then oldHashes[i] else 0);
      grown := true;
      ghost var z := seq(newCap - cap, _ => 0);
      assert hashes[..] == oldHashes[..] + z;
      TakenAppend(oldHashes[..], z);
    }

    /** pg_hashtable_upsert. */
    method Upsert(key: uint64, value: uint64)
      requires Valid()
      modifies this, keys, values, hashes
      ensures Valid()
      ensures old(4 * len >= 3 * keys.Length) ==> grown && fresh(keys) && fresh(values) && fresh(hashes)
      ensures old(4 * len < 3 * keys.Length) ==>
        grown == old(grown) && keys == old(keys) && values == old(values) && hashes == old(hashes)
      ensures keys.Length ==
        if old(4 * len < 3 * keys.Length) then old(keys.Length) else GrownCapacity(old(keys.Length))
      ensures var room :=
          if old(4 * len < 3 * keys.Length) then 0 else GrownCapacity(old(keys.Length)) - old(keys.Length);
        var z := seq(room, _ => 0);
        Stored(Slots(old(keys[..]) + z, old(values[..]) + z, old(hashes[..]) + z, old(len)),
               Slots(keys[..], values[..], hashes[..], len), key, value)
      ensures len <= old(len) + 1
      ensures forall i :: 0 <= i < values.Length ==>
        values[i] == value || values[i] == 0 || (i < old(values.Length) && values[i] == old(values[i]))
      ensures contents == if Hash(key) == 0 then old(contents) else old(contents)[key := value]
    {
      ghost var none: seq<int> := seq(0, _ => 0);
      assert keys[..] + none == keys[..] && values[..] + none == values[..] && hashes[..] + none == hashes[..];
      hide Hash, Holds, Stored, Taken;
      if 4 * len >= 3 * keys.Length { Grow(); }
      ghost var before := Slots(keys[..], values[..], hashes[..], len);
      Store(key, value);
      StoredBounds(before, Slots(keys[..], values[..], hashes[..], len), key, value);
      assert forall i :: 0 <= i < values.Length ==> values[i] == values[..][i];
    }

    method Store(key: uint64, value: uint64)
      requires Valid() && len + 1 < keys.Length
      modifies this, keys, values, hashes
      ensures Valid() && grown == old(grown)
      ensures keys == old(keys) && values == old(values) && hashes == old(hashes)
      ensures Stored(old(Slots(keys[..], values[..], hashes[..], len)),
                     Slots(keys[..], values[..], hashes[..], len), key, value)
      ensures contents == if Hash(key) == 0 then old(contents) else old(contents)[key := value]
    {
      hide Hash, Holds, StopsAt, Taken;
      ghost var ks, vs, hs := keys[..], values[..], hashes[..];
      var found, i := Find(key);
      StoreKeeps(ks, vs, hs, contents, grown, key, value, i);
      if found {
        values[i] := value;
        hashes[i] := Hash(key);
      } else {
        keys[i] := key;
        hashes[i] := Hash(key);
        values[i] := value;
        len := len + 1;
      }
      if Hash(key) != 0 { contents := contents[key := value]; }
      assert keys[..] == ks[i := key] && values[..] == vs[i := value] && hashes[..] == hs[i := Hash(key)];
    }
  }
}
