/** crash-reporter/macho.h: the line-number program of DWARF 4, section 6.2, and the lookup in its table. */
module LineTable {
  import opened MachineInts
  import opened Arithmetic
  import opened Leb128

  type uint16 = x: int | 0 <= x < 0x1_0000

  function Wrap16(x: int): uint16 { x % 0x1_0000 }

  /** The header fields the program uses; the range and the instruction length are not 0. */
  datatype Header = Header(minLength: nat, lineBase: int, lineRange: nat, opcodeBase: nat)

  ghost predicate HeaderFine(h: Header) {
    0 < h.minLength < 256 && -128 <= h.lineBase < 128 && 0 < h.lineRange < 256 && h.opcodeBase < 256
  }

  datatype Fsm = Fsm(address: uint64, file: uint64, line: uint16)

  datatype Entry = Entry(pc: uint64, file: uint64, line: uint16)

  const RESET := Fsm(0, 1, 1)

  datatype State = State(fsm: Fsm, entries: seq<Entry>)

  const INITIAL := State(RESET, [])

  datatype Op =
    | AdvancePc(delta: nat) | AdvanceLine(lines: int) | SetFile(file: uint64) | ConstAddPc | Special(opcode: nat)
    | SetAddress(address: uint64) | EndSequence | Nothing

  // ---- one operation

  /** dw_line_entry_should_add_new_entry. */
  predicate ShouldAdd(fsm: Fsm, entries: seq<Entry>) {
    fsm.line != 0 &&
    (entries == [] ||
     var last := entries[|entries| - 1];
     last.pc != fsm.address && (last.line != fsm.line || last.file != fsm.file))
  }

  function Record(fsm: Fsm, entries: seq<Entry>): State {
    State(fsm, if ShouldAdd(fsm, entries) then entries + [Entry(fsm.address, fsm.file, fsm.line)] else entries)
  }

  /** The difference of an opcode and the first special opcode, as an unsigned byte. */
  function Adjusted(opcode: nat, h: Header): nat { (opcode + 256 - h.opcodeBase % 256) % 256 }

  /** How far an operation moves the address, before wrapping. */
  function Advance(h: Header, op: Op): nat
    requires HeaderFine(h)
  {
    match op
    case AdvancePc(delta) => delta
    case ConstAddPc => Skip(255 - h.opcodeBase, h.lineRange, h.minLength)
    case Special(opcode) => Skip(Adjusted(opcode, h), h.lineRange, h.minLength)
    case _ => 0
  }

  function Skip(adjusted: nat, lineRange: nat, minLength: nat): nat
    requires lineRange > 0
  {
    DivShrinks(adjusted, lineRange);
    NatTimes(adjusted / lineRange, minLength);
    adjusted / lineRange * minLength
  }

  lemma NatTimes(x: nat, y: nat) ensures x * y >= 0 {}

  /** One turn of the loop of read_dwarf_section_debug_line, the operation decoded. */
  function Exec(h: Header, s: State, op: Op): State
    requires HeaderFine(h)
  {
    var fsm := s.fsm.(address := Wrap64(s.fsm.address + Advance(h, op)));
    match op
    case AdvanceLine(lines) => Record(fsm.(line := Wrap16(fsm.line + lines)), s.entries)
    case SetFile(file) => State(fsm.(file := file), s.entries)
    case Special(opcode) =>
      Record(fsm.(line := Wrap16(fsm.line + h.lineBase + Adjusted(opcode, h) % h.lineRange)), s.entries)
    case SetAddress(address) => State(fsm.(address := address), s.entries)
    case EndSequence => State(RESET, s.entries)
    case _ => State(fsm, s.entries)
  }

  function Run(h: Header, s: State, ops: seq<Op>): State
    requires HeaderFine(h)
    decreases |ops|
  {
    if ops == [] then s else Run(h, Exec(h, s, ops[0]), ops[1..])
  }

  lemma {:induction false} RunAppend(h: Header, s: State, a: seq<Op>, b: seq<Op>)
    requires HeaderFine(h)
    ensures Run(h, s, a + b) == Run(h, Run(h, s, a), b)
    decreases |a|
  {
    if a == [] {
      assert a + b == b;
    } else {
      assert (a + b)[1..] == a[1..] + b;
      RunAppend(h, Exec(h, s, a[0]), a[1..], b);
    }
  }

  // ---- the table is sorted

  ghost predicate Sorted(entries: seq<Entry>) {
    forall i, j :: 0 <= i < j < |entries| ==> entries[i].pc < entries[j].pc
  }

  ghost predicate AllUpTo(entries: seq<Entry>, top: nat) {
    forall i :: 0 <= i < |entries| ==> entries[i].pc <= top
  }

  /** A sequence of the program: its address is set once, at the start. */
  datatype Sequence = Sequence(start: uint64, body: seq<Op>)

  ghost predicate Plain(op: Op) { !op.SetAddress? && !op.EndSequence? }

  function Total(h: Header, body: seq<Op>): nat
    requires HeaderFine(h)
  {
    if body == [] then 0 else Advance(h, body[0]) + Total(h, body[1..])
  }

  /** The sequences come in address order and no address wraps around. */
  ghost predicate InOrder(h: Header, seqs: seq<Sequence>, floor: nat)
    requires HeaderFine(h)
  {
    seqs != [] ==>
      var s := seqs[0];
      && floor <= s.start && s.start + Total(h, s.body) < TWO_64
      && (forall i :: 0 <= i < |s.body| ==> Plain(s.body[i]))
      && InOrder(h, seqs[1..], s.start + Total(h, s.body))
  }

  function Flatten(seqs: seq<Sequence>): seq<Op> {
    if seqs == [] then [] else [SetAddress(seqs[0].start)] + seqs[0].body + [EndSequence] + Flatten(seqs[1..])
  }

  lemma ExecKeepsSorted(h: Header, s: State, op: Op)
    requires HeaderFine(h) && Plain(op) && s.fsm.address + Advance(h, op) < TWO_64
    requires Sorted(s.entries) && AllUpTo(s.entries, s.fsm.address)
    ensures var after := Exec(h, s, op);
      after.fsm.address == s.fsm.address + Advance(h, op) && Sorted(after.entries) &&
        AllUpTo(after.entries, after.fsm.address)
  {
    var after := Exec(h, s, op);
    WrapId(s.fsm.address + Advance(h, op));
    if |after.entries| > |s.entries| && s.entries != [] {
      assert s.entries[|s.entries| - 1].pc < after.fsm.address;
    }
  }

  lemma {:induction false} BodyKeepsSorted(h: Header, s: State, body: seq<Op>)
    requires HeaderFine(h) && s.fsm.address + Total(h, body) < TWO_64
    requires forall i :: 0 <= i < |body| ==> Plain(body[i])
    requires Sorted(s.entries) && AllUpTo(s.entries, s.fsm.address)
    ensures var after := Run(h, s, body);
      after.fsm.address == s.fsm.address + Total(h, body) && Sorted(after.entries) &&
        AllUpTo(after.entries, after.fsm.address)
    decreases |body|
  {
    hide Exec, Advance, Sorted, AllUpTo;
    if body != [] {
      ExecKeepsSorted(h, s, body[0]);
      BodyKeepsSorted(h, Exec(h, s, body[0]), body[1..]);
    }
  }

  /** Sequences in address order give a table with strictly increasing addresses. */
  lemma {:induction false} TableIsSorted(h: Header, s: State, seqs: seq<Sequence>, floor: nat)
    requires HeaderFine(h) && InOrder(h, seqs, floor) && Sorted(s.entries) && AllUpTo(s.entries, floor)
    ensures Sorted(Run(h, s, Flatten(seqs)).entries)
    decreases |seqs|
  {
    if seqs != [] {
      var q := seqs[0];
      var begun := Exec(h, s, SetAddress(q.start));
      BodyKeepsSorted(h, begun, q.body);
      var ran := Run(h, begun, q.body);
      var ended := Exec(h, ran, EndSequence);
      TableIsSorted(h, ended, seqs[1..], q.start + Total(h, q.body));
      hide Exec, Sorted, AllUpTo, InOrder;
      RunOne(h, s, SetAddress(q.start));
      RunOne(h, ran, EndSequence);
      RunAppend(h, s, [SetAddress(q.start)], q.body);
      RunAppend(h, s, [SetAddress(q.start)] + q.body, [EndSequence]);
      RunAppend(h, s, [SetAddress(q.start)] + q.body + [EndSequence], Flatten(seqs[1..]));
    }
  }

  lemma RunOne(h: Header, s: State, op: Op)
    requires HeaderFine(h)
    ensures Run(h, s, [op]) == Exec(h, s, op)
  {
    assert [op][1..] == [];
  }

  // ---- the lookup

  datatype Lookup = Line(line: uint16) | NotFound | AssertionFailed | OutOfBounds

  /** Entries `i` and `i + 1` fail the lookup's assertion. */
  ghost predicate Disordered(entries: seq<Entry>, i: nat)
    requires i + 1 < |entries|
  {
    entries[i].file == entries[i + 1].file && entries[i].pc >= entries[i + 1].pc
  }

  /** The interval of entry `i` contains the address. */
  ghost predicate Covers(entries: seq<Entry>, i: nat, pc: uint64)
    requires i + 1 < |entries|
  {
    entries[i].pc <= pc < entries[i + 1].pc
  }

  /** The line search of stacktrace_find_entry. On an empty table the loop bound wraps around. */
  method FindLine(entries: seq<Entry>, pc: uint64) returns (r: Lookup)
    ensures r == OutOfBounds <==> entries == []
    ensures Sorted(entries) && entries != [] ==>
      && (forall i: nat :: i + 1 < |entries| && Covers(entries, i, pc) ==> r == Line(entries[i].line))
      && (r == NotFound <==> |entries| == 1 || entries[|entries| - 1].pc <= pc)
      && (|entries| > 1 && pc < entries[0].pc ==> r == Line(entries[0].line))
      && r != AssertionFailed
    ensures r == AssertionFailed <==>
      exists i: nat :: i + 1 < |entries| && Disordered(entries, i) && forall j: nat :: 0 < j <= i ==>
        entries[j].pc <= pc
  {
    if |entries| == 0 { return OutOfBounds; }
    for i := 0 to |entries| - 1
      invariant forall j: nat :: 0 < j <= i ==> entries[j].pc <= pc
      invariant forall j: nat :: j < i ==> !Disordered(entries, j)
    {
      var prev, cur := entries[i], entries[i + 1];
      if prev.file == cur.file && !(prev.pc < cur.pc) {
        assert Disordered(entries, i);
        return AssertionFailed;
      }
      if cur.pc > pc { return Line(prev.line); }
    }
    r := NotFound;
  }

  /** Which entry covers an address is unique. */
  lemma CoverIsUnique(entries: seq<Entry>, pc: uint64, i: nat, j: nat)
    requires Sorted(entries) && i + 1 < |entries| && j + 1 < |entries| && Covers(entries, i, pc) &&
      Covers(entries, j, pc)
    ensures i == j
  {
  }

  /** Every address from the first entry up to the last is covered. */
  lemma {:induction false} CoverExists(entries: seq<Entry>, pc: uint64) returns (i: nat)
    requires Sorted(entries) && entries != [] && entries[0].pc <= pc < entries[|entries| - 1].pc
    ensures i + 1 < |entries| && Covers(entries, i, pc)
  {
    var n := |entries| - 1;
    if entries[n - 1].pc <= pc {
      i := n - 1;
    } else {
      i := CoverExists(entries[..n], pc);
      assert Covers(entries, i, pc);
    }
  }

  // ---- the program in bytes

  datatype Decoding = Decoded(op: Op, next: nat) | Bad

  function FromBytes(bytes: seq<byte>): nat {
    if bytes == [] then 0 else bytes[0] as nat + 256 * FromBytes(bytes[1..])
  }

  /** A value read with read_data, whose assertion wants one more byte after it. */
  predicate Readable(data: seq<byte>, offset: nat, size: nat) { offset + size < |data| }

  /** read_dwarf_ext_op: an extended operation of `size` bytes at `offset`; the rest of it is skipped. */
  function DecodeExtended(data: seq<byte>, offset: nat, size: nat): (d: Decoding)
    ensures d.Decoded? ==> d.next > offset
  {
    if !Readable(data, offset, 1) || data[offset] == 0 then Bad
    else if data[offset] == 2 then
      if !Readable(data, offset + 1, 8) then Bad
      else Decoded(SetAddress(Wrap64(FromBytes(data[offset + 1..offset + 9]))), Max(offset + 9, offset + size))
    else Decoded(if data[offset] == 1 then EndSequence else Nothing, Max(offset + 1, offset + size))
  }

  function Max(a: nat, b: nat): nat { if a < b then b else a }

  /** The operations whose operand is a LEB128 number at `at`. */
  function DecodeOperand(data: seq<byte>, at: nat, opcode: nat): (d: Decoding)
    ensures d.Decoded? ==> d.next > at
  {
    if opcode == 3 then
      match ReadSigned(data, at)
      case Fault => Bad
      case Done(x, next) => Decoded(AdvanceLine(x), next)
    else
      match ReadUnsigned(data, at)
      case Fault => Bad
      case Done(x, next) =>
        Decoded(if opcode == 2 then AdvancePc(x) else if opcode == 4 then SetFile(x) else Nothing, next)
  }

  /** The operation at `offset`. Opcodes 9 and 12 take no argument here. */
  function DecodeOp(data: seq<byte>, offset: nat): (d: Decoding)
    ensures d.Decoded? ==> d.next > offset
  {
    if !Readable(data, offset, 1) then Bad
    else
      var opcode, at := data[offset] as nat, offset + 1;
      if opcode == 0 then
        match ReadUnsigned(data, at)
        case Fault => Bad
        case Done(size, start) => DecodeExtended(data, start, size)
      else if 2 <= opcode <= 5 then DecodeOperand(data, at, opcode)
      else if opcode == 8 then Decoded(ConstAddPc, at)
      else if opcode <= 12 then Decoded(Nothing, at)
      else Decoded(Special(opcode), at)
  }

  datatype Decodings = Ops(ops: seq<Op>) | Invalid

  /** The operations from `offset` to `end`. */
  function DecodeAll(data: seq<byte>, offset: nat, end: nat): Decodings
    decreases if offset < end then end - offset else 0
  {
    if offset >= end then Ops([])
    else match DecodeOp(data, offset)
      case Bad => Invalid
      case Decoded(op, next) =>
        match DecodeAll(data, next, end)
        case Invalid => Invalid
        case Ops(rest) => Ops([op] + rest)
  }

  /** read_dwarf_ext_op. */
  method ReadExtended(data: seq<byte>, offset: nat, size: nat, s: State, ghost h: Header)
      returns (ok: bool, next: nat, after: State)
    requires HeaderFine(h)
    ensures ok <==> DecodeExtended(data, offset, size).Decoded?
    ensures ok ==> var d := DecodeExtended(data, offset, size); next == d.next && after == Exec(h, s, d.op)
  {
    hide ReadUnsigned, FromBytes, Wrap64;
    ok, next, after := false, offset, s;
    if !(next + 1 < |data|) { return; }
    var opcode := data[next];
    next := next + 1;
    WrapId(s.fsm.address);
    match opcode
    {
      case 0 => return;
      case 1 => after := after.(fsm := Fsm(0, 1, 1));
      case 2 =>
        if !(next + 8 < |data|) { return; }
        var address := Wrap64(FromBytes(data[next..next + 8]));
        next := next + 8;
        after := after.(fsm := after.fsm.(address := address));
      case _ =>
    }
    while next - offset < size
      invariant Max(next, offset + size) == DecodeExtended(data, offset, size).next
    {
      next := next + 1;
    }
    ok := true;
  }

  /** One turn of the loop of read_dwarf_section_debug_line. */
  method ReadAndExec(data: seq<byte>, offset: nat, s: State, h: Header) returns (ok: bool, next: nat, after: State)
    requires HeaderFine(h)
    ensures ok <==> DecodeOp(data, offset).Decoded?
    ensures ok ==> var d := DecodeOp(data, offset); next == d.next && after == Exec(h, s, d.op)
  {
    WrapId(s.fsm.address);
    hide DecodeExtended, DecodeOperand, ReadUnsigned, Skip, Adjusted, Record, ShouldAdd, Wrap16, Wrap64;
    ok, next, after := false, offset, s;
    if !(next + 1 < |data|) { return; }
    var opcode := data[next] as nat;
    next := next + 1;
    var fsm := s.fsm;
    if opcode == 0 {
      var size := ReadLeb128Unsigned(data, next);
      if size.Fault? { return; }
      ok, next, after := ReadExtended(data, size.next, size.value, s, h);
      return;
    } else if 2 <= opcode <= 5 {
      ok, next, after := ReadOperand(data, next, opcode, s, h);
      return;
    } else if opcode == 8 {
      var op := 255 - h.opcodeBase;
      after := s.(fsm := fsm.(address := Wrap64(fsm.address + Skip(op, h.lineRange, h.minLength))));
    } else if opcode > 12 {
      var op := Adjusted(opcode, h);
      fsm := fsm.(address := Wrap64(fsm.address + Skip(op, h.lineRange, h.minLength)));
      fsm := fsm.(line := Wrap16(fsm.line + h.lineBase + op % h.lineRange));
      after := Append(fsm, s.entries);
    }
    ok := true;
  }

  /** The cases with a LEB128 operand. */
  method ReadOperand(data: seq<byte>, at: nat, opcode: nat, s: State, ghost h: Header)
      returns (ok: bool, next: nat, after: State)
    requires HeaderFine(h) && 2 <= opcode <= 5
    ensures ok <==> DecodeOperand(data, at, opcode).Decoded?
    ensures ok ==> var d := DecodeOperand(data, at, opcode); next == d.next && after == Exec(h, s, d.op)
  {
    WrapId(s.fsm.address);
    hide ReadUnsigned, ReadSigned, Record, ShouldAdd, Wrap16, Wrap64;
    ok, next, after := false, at, s;
    var fsm := s.fsm;
    if opcode == 3 {
      var lines := ReadLeb128Signed(data, next);
      if lines.Fault? { return; }
      next := lines.next;
      fsm := fsm.(line := Wrap16(fsm.line + lines.value));
      after := Append(fsm, s.entries);
    } else {
      var x := ReadLeb128Unsigned(data, next);
      if x.Fault? { return; }
      next := x.next;
      if opcode == 2 { fsm := fsm.(address := Wrap64(fsm.address + x.value)); }
      if opcode == 4 { fsm := fsm.(file := x.value); }
      after := s.(fsm := fsm);
    }
    ok := true;
  }

  /** Appends the machine's position to the table if it should be. */
  method Append(fsm: Fsm, entries: seq<Entry>) returns (s: State)
    ensures s == Record(fsm, entries)
  {
    s := State(fsm, entries);
    if ShouldAdd(fsm, entries) { s := State(fsm, entries + [Entry(fsm.address, fsm.file, fsm.line)]); }
  }

  /** The program loop of read_dwarf_section_debug_line; `ok` is false when an assertion fails or a shift is
      undefined. */
  method RunProgram(data: seq<byte>, offset: nat, end: nat, h: Header) returns (ok: bool, entries: seq<Entry>)
    requires HeaderFine(h)
    ensures ok <==> DecodeAll(data, offset, end).Ops?
    ensures ok ==> entries == Run(h, INITIAL, DecodeAll(data, offset, end).ops).entries
  {
    var at, s := offset, INITIAL;
    ghost var all, done := DecodeAll(data, offset, end), [];
    while at < end
      invariant Rest(data, at, end, all, done) && s == Run(h, INITIAL, done)
      decreases if at < end then end - at else 0
    {
      hide DecodeAll, DecodeOp, Run, Exec;
      RestStep(data, at, end, all, done);
      ghost var d := DecodeOp(data, at);
      ok, at, s := ReadAndExec(data, at, s, h);
      if !ok { return false, []; }
      RunAppend(h, INITIAL, done, [d.op]);
      RunOne(h, Run(h, INITIAL, done), d.op);
      done := done + [d.op];
    }
    assert done + [] == done;
    return true, s.entries;
  }

  /** The operations `done` have been taken off the front of all of them. */
  ghost predicate Rest(data: seq<byte>, at: nat, end: nat, all: Decodings, done: seq<Op>)
  {
    match DecodeAll(data, at, end)
    case Invalid => all == Invalid
    case Ops(rest) => all == Ops(done + rest)
  }

  lemma RestStep(data: seq<byte>, at: nat, end: nat, all: Decodings, done: seq<Op>)
    requires Rest(data, at, end, all, done) && at < end
    ensures var d := DecodeOp(data, at);
      (d == Bad ==> all == Invalid) && (d.Decoded? ==> d.next > at && Rest(data, d.next, end, all, done + [d.op]))
  {
    var d := DecodeOp(data, at);
    if d.Decoded? {
      var rest := DecodeAll(data, d.next, end);
      if rest.Ops? { assert done + ([d.op] + rest.ops) == (done + [d.op]) + rest.ops; }
    }
  }
}
