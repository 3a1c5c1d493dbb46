/** crash-reporter/macho.h: from the bytes of a line-number program to the line of an address. */
module LineProgram {
  import opened MachineInts
  import opened Leb128
  import opened LineTable

  // ---- operations as bytes (DWARF 4, section 6.2.5)

  function Bytes8(x: nat, n: nat): seq<byte> {
    if n == 0 then [] else [(x % 256) as byte] + Bytes8(x / 256, n - 1)
  }

  function EncodeOp(op: Op): seq<byte> {
    match op
    case AdvancePc(delta) => [2] + EncodeUnsigned(delta)
    case AdvanceLine(lines) => [3] + EncodeSigned(lines)
    case SetFile(file) => [4] + EncodeUnsigned(file)
    case ConstAddPc => [8]
    case Special(opcode) => [(opcode % 256) as byte]
    case SetAddress(address) => [0, 9, 2] + Bytes8(address, 8)
    case EndSequence => [0, 1, 1]
    case Nothing => [1]
  }

  /** The operations whose numbers the reader can take in. */
  ghost predicate Encodable(op: Op) {
    match op
    case AdvancePc(delta) => delta < TWO_32
    case AdvanceLine(lines) => -0x800_0000 <= lines < 0x8000_0000
    case SetFile(file) => file < TWO_32
    case Special(opcode) => 13 <= opcode < 256
    case _ => true
  }

  function EncodeOps(ops: seq<Op>): seq<byte> {
    if ops == [] then [] else EncodeOp(ops[0]) + EncodeOps(ops[1..])
  }

  ghost predicate Holds(data: seq<byte>, at: nat, bytes: seq<byte>) {
    at + |bytes| < |data| && data[at..at + |bytes|] == bytes
  }

  lemma HoldsParts(data: seq<byte>, at: nat, a: seq<byte>, b: seq<byte>)
    requires Holds(data, at, a + b)
    ensures Holds(data, at, a) && Holds(data, at + |a|, b)
    ensures a != [] ==> data[at] == a[0]
  {
    var s := data[at..at + |a + b|];
    assert data[at..at + |a|] == s[..|a|] == a;
    assert data[at + |a|..at + |a| + |b|] == s[|a|..] == b;
    if a != [] { assert data[at..at + |a|][0] == a[0]; }
  }

  lemma {:induction false} Bytes8Back(x: nat, n: nat)
    requires x < Pow256(n)
    ensures |Bytes8(x, n)| == n && FromBytes(Bytes8(x, n)) == x
  {
    if n > 0 { Bytes8Back(x / 256, n - 1); }
  }

  function Pow256(n: nat): nat { if n == 0 then 1 else 256 * Pow256(n - 1) }

  lemma Pow256Of8() ensures Pow256(8) == TWO_64 {}

  lemma HoldsAt(data: seq<byte>, at: nat, s: seq<byte>, i: nat)
    requires Holds(data, at, s) && i < |s|
    ensures at + i + 1 < |data| && data[at + i] == s[i]
  {
    assert data[at..at + |s|][i] == s[i];
  }

  lemma ShortLeb(data: seq<byte>, at: nat, n: byte)
    requires n < 128 && at + 1 < |data| && data[at] == n
    ensures ReadUnsigned(data, at) == Done(n as nat, at + 1)
  {
    assert EncodeUnsigned(n as nat) == [n] == data[at..at + 1];
    UnsignedReadBack(data, at, n as nat);
  }

  /** Decoding inverts encoding, operation by operation. */
  lemma OpReadBack(data: seq<byte>, at: nat, op: Op)
    requires Encodable(op) && Holds(data, at, EncodeOp(op))
    ensures DecodeOp(data, at) == Decoded(op, at + |EncodeOp(op)|)
  {
    hide DecodeOp, EncodeUnsigned, EncodeSigned, Holds;
    match op
    case AdvancePc(delta) => OperandReadBack(data, at, 2, delta);
    case AdvanceLine(lines) => LinesReadBack(data, at, lines);
    case SetFile(file) => OperandReadBack(data, at, 4, file);
    case SetAddress(address) => AddressReadBack(data, at, address);
    case EndSequence => EndReadBack(data, at);
    case ConstAddPc => ByteReadBack(data, at, 8);
    case Special(opcode) => ByteReadBack(data, at, opcode as byte);
    case Nothing => ByteReadBack(data, at, 1);
  }

  lemma OperandReadBack(data: seq<byte>, at: nat, opcode: byte, x: nat)
    requires (opcode == 2 || opcode == 4) && x < TWO_32 && Holds(data, at, [opcode] + EncodeUnsigned(x))
    ensures DecodeOp(data, at) ==
      Decoded(if opcode == 2 then AdvancePc(x) else SetFile(x), at + 1 + |EncodeUnsigned(x)|)
  {
    HoldsParts(data, at, [opcode], EncodeUnsigned(x));
    UnsignedReadBack(data, at + 1, x);
    hide EncodeUnsigned, ReadUnsigned, ReadSigned;
  }

  lemma LinesReadBack(data: seq<byte>, at: nat, lines: int)
    requires -0x800_0000 <= lines < 0x8000_0000 && Holds(data, at, [3] + EncodeSigned(lines))
    ensures DecodeOp(data, at) == Decoded(AdvanceLine(lines), at + 1 + |EncodeSigned(lines)|)
  {
    HoldsParts(data, at, [3], EncodeSigned(lines));
    SignedReadBack(data, at + 1, lines);
    hide EncodeSigned, ReadUnsigned, ReadSigned;
  }

  lemma ByteReadBack(data: seq<byte>, at: nat, opcode: byte)
    requires Holds(data, at, [opcode]) && (opcode == 1 || opcode == 8 || opcode >= 13)
    ensures DecodeOp(data, at) ==
      Decoded(if opcode == 1 then Nothing else if opcode == 8 then ConstAddPc else Special(opcode as nat), at + 1)
  {
    HoldsAt(data, at, [opcode], 0);
    hide ReadUnsigned, ReadSigned;
  }

  /** The operations that only move a register the table does not show: a column is skipped with its operand, the
      others have none here, though the standard gives one to 9 and 12. */
  lemma SkippedOps(data: seq<byte>, at: nat, opcode: byte, column: nat)
    requires column < TWO_32
    ensures opcode in {1, 6, 7, 9, 10, 11, 12} && Holds(data, at, [opcode]) ==>
      DecodeOp(data, at) == Decoded(Nothing, at + 1)
    ensures opcode == 5 && Holds(data, at, [5] + EncodeUnsigned(column)) ==>
      DecodeOp(data, at) == Decoded(Nothing, at + 1 + |EncodeUnsigned(column)|)
  {
    hide EncodeUnsigned, ReadUnsigned, ReadSigned;
    if opcode in {1, 6, 7, 9, 10, 11, 12} && Holds(data, at, [opcode]) { HoldsAt(data, at, [opcode], 0); }
    if opcode == 5 && Holds(data, at, [5] + EncodeUnsigned(column)) {
      HoldsParts(data, at, [5], EncodeUnsigned(column));
      UnsignedReadBack(data, at + 1, column);
    }
  }

  /** An extended operation of another kind is skipped to its announced end. */
  lemma UnknownExtended(data: seq<byte>, at: nat, opcode: byte, payload: seq<byte>)
    requires opcode > 2 && |payload| + 1 < TWO_32
    requires Holds(data, at, [0] + EncodeUnsigned(1 + |payload|) + [opcode] + payload)
    ensures DecodeOp(data, at) == Decoded(Nothing, at + 2 + |EncodeUnsigned(1 + |payload|)| + |payload|)
  {
    hide EncodeUnsigned, ReadUnsigned, DecodeOperand;
    var size := EncodeUnsigned(1 + |payload|);
    assert [0] + size + [opcode] + payload == [0] + (size + ([opcode] + payload));
    HoldsParts(data, at, [0], size + ([opcode] + payload));
    HoldsParts(data, at + 1, size, [opcode] + payload);
    UnsignedReadBack(data, at + 1, 1 + |payload|);
    HoldsAt(data, at + 1 + |size|, [opcode] + payload, 0);
  }

  lemma EndReadBack(data: seq<byte>, at: nat)
    requires Holds(data, at, EncodeOp(EndSequence))
    ensures DecodeOp(data, at) == Decoded(EndSequence, at + 3)
  {
    HoldsAt(data, at, [0, 1, 1], 0);
    HoldsAt(data, at, [0, 1, 1], 1);
    HoldsAt(data, at, [0, 1, 1], 2);
    ShortLeb(data, at + 1, 1);
    hide ReadUnsigned, DecodeOperand;
  }

  lemma AddressReadBack(data: seq<byte>, at: nat, address: uint64)
    requires Holds(data, at, EncodeOp(SetAddress(address)))
    ensures DecodeOp(data, at) == Decoded(SetAddress(address), at + |EncodeOp(SetAddress(address))|)
  {
    var bytes := Bytes8(address, 8);
    assert EncodeOp(SetAddress(address)) == [0, 9, 2] + bytes;
    hide *;
    AddressBytes(address);
    HoldsParts(data, at, [0, 9, 2], bytes);
    HoldsAt(data, at, [0, 9, 2], 0);
    HoldsAt(data, at, [0, 9, 2], 1);
    HoldsAt(data, at, [0, 9, 2], 2);
    ShortLeb(data, at + 1, 9);
    DecodesAddress(data, at, bytes);
  }

  lemma AddressBytes(address: uint64)
    ensures |Bytes8(address, 8)| == 8 && Wrap64(FromBytes(Bytes8(address, 8))) == address
  {
    Pow256Of8();
    hide Pow256, Bytes8, FromBytes;
    Bytes8Back(address, 8);
    WrapId(address);
  }

  lemma DecodesAddress(data: seq<byte>, at: nat, bytes: seq<byte>)
    requires |bytes| == 8 && Holds(data, at + 3, bytes) && data[at] == 0 && data[at + 2] == 2
    requires ReadUnsigned(data, at + 1) == Done(9, at + 2)
    ensures DecodeOp(data, at) == Decoded(SetAddress(Wrap64(FromBytes(bytes))), at + 11)
  {
    hide ReadUnsigned, FromBytes, DecodeOperand;
    assert data[at + 3..at + 11] == bytes;
  }

  /** An operation whose last byte is the last of the data is refused: every read wants one more byte behind it. */
  lemma LastOpRefused(data: seq<byte>, at: nat, op: Op)
    requires at <= |data| && data[at..] == EncodeOp(op)
    ensures DecodeOp(data, at) == Bad
  {
    hide EncodeUnsigned, EncodeSigned, ReadUnsigned, ReadSigned, Bytes8;
    forall i | 0 <= i < |EncodeOp(op)| ensures at + i < |data| && data[at + i] == EncodeOp(op)[i] {
      assert data[at..][i] == EncodeOp(op)[i];
    }
    match op
    case AdvancePc(delta) =>
      assert data[at + 1..] == data[at..][1..] == EncodeUnsigned(delta);
      TooCloseToRead(data, at + 1, delta, 0);
    case AdvanceLine(lines) =>
      assert data[at + 1..] == data[at..][1..] == EncodeSigned(lines);
      TooCloseToRead(data, at + 1, 0, lines);
    case SetFile(file) =>
      assert data[at + 1..] == data[at..][1..] == EncodeUnsigned(file);
      TooCloseToRead(data, at + 1, file, 0);
    case SetAddress(address) =>
      AddressBytes(address);
      ShortLeb(data, at + 1, 9);
    case EndSequence => ShortLeb(data, at + 1, 1);
    case _ =>
  }

  /** A whole program decodes to the operations it was made of. */
  lemma {:induction false} OpsReadBack(data: seq<byte>, at: nat, ops: seq<Op>)
    requires (forall i :: 0 <= i < |ops| ==> Encodable(ops[i])) && Holds(data, at, EncodeOps(ops))
    ensures DecodeAll(data, at, at + |EncodeOps(ops)|) == Ops(ops)
    decreases |ops|
  {
    hide EncodeOp, DecodeOp, Encodable;
    if ops != [] {
      var first, others := EncodeOp(ops[0]), EncodeOps(ops[1..]);
      HoldsParts(data, at, first, others);
      OpReadBack(data, at, ops[0]);
      OpsReadBack(data, at + |first|, ops[1..]);
      assert [ops[0]] + ops[1..] == ops;
    }
  }

  // ---- from bytes to a line

  /** What a lookup in the table of an ordered program must answer. */
  ghost predicate Answers(table: seq<Entry>, pc: uint64, r: Lookup) {
    && Sorted(table) && r != AssertionFailed && (r == OutOfBounds <==> table == [])
    && (table != [] && table[0].pc <= pc < table[|table| - 1].pc ==>
          exists i: nat :: i + 1 < |table| && Covers(table, i, pc) && r == Line(table[i].line))
    && (table != [] && pc >= table[|table| - 1].pc ==> r == NotFound)
  }

  /** read_dwarf_section_debug_line and then the search of stacktrace_find_entry, on the bytes of a program whose
      sequences are in address order: the address gets the line of the one entry that covers it. */
  method FindInProgram(data: seq<byte>, offset: nat, end: nat, h: Header, pc: uint64, ghost seqs: seq<Sequence>)
      returns (r: Lookup)
    requires HeaderFine(h) && InOrder(h, seqs, 0)
    requires var ops := Flatten(seqs);
      && (forall i :: 0 <= i < |ops| ==> Encodable(ops[i]))
      && end == offset + |EncodeOps(ops)| && Holds(data, offset, EncodeOps(ops))
    ensures Answers(Run(h, INITIAL, Flatten(seqs)).entries, pc, r)
  {
    hide Exec, DecodeAll, Holds, Encodable, InOrder, Run, Flatten, EncodeOps;
    OpsReadBack(data, offset, Flatten(seqs));
    TableIsSorted(h, INITIAL, seqs, 0);
    var ok, table := RunProgram(data, offset, end, h);
    r := FindLine(table, pc);
    if table != [] && table[0].pc <= pc < table[|table| - 1].pc {
      ghost var i := CoverExists(table, pc);
    }
  }
}
