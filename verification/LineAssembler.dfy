/** crash-reporter/macho.h against section 6.2.5.1 of DWARF 4: the opcodes an assembler chooses for given rows, and
    when the reader gives those rows back. */
module LineAssembler {
  import opened Arithmetic
  import opened MachineInts
  import opened LineTable
  import opened LineProgram

  /** The headers an assembler can work with: a row on the same line has a special opcode, and every line increment in
      range has one. */
  ghost predicate Usable(h: Header) {
    && HeaderFine(h) && 13 <= h.opcodeBase && h.lineBase <= 0 < h.lineBase + h.lineRange
    && h.opcodeBase + h.lineRange <= 256
  }

  predicate LineFits(h: Header, lines: int) { h.lineBase <= lines < h.lineBase + h.lineRange }

  /** The formula of section 6.2.5.1. */
  function Opcode(h: Header, lines: int, advance: nat): int {
    (lines - h.lineBase) + h.lineRange * advance + h.opcodeBase
  }

  /** How far DW_LNS_const_add_pc advances: as special opcode 255. */
  function ConstAdvance(h: Header): nat
    requires Usable(h)
  {
    DivShrinks(255 - h.opcodeBase, h.lineRange);
    (255 - h.opcodeBase) / h.lineRange
  }

  function FileOps(from: Fsm, to: Entry): seq<Op> {
    if from.file != to.file then [SetFile(to.file)] else []
  }

  function LineOps(h: Header, from: Fsm, to: Entry): seq<Op> {
    if LineFits(h, to.line - from.line) then [] else [AdvanceLine(to.line - from.line)]
  }

  /** The line increment left to the special opcode. */
  function Left(h: Header, from: Fsm, to: Entry): int {
    if LineFits(h, to.line - from.line) then to.line - from.line else 0
  }

  /** The address advance, in instruction lengths, and the row. */
  function RowOp(h: Header, lines: int, advance: nat): seq<Op>
    requires Usable(h) && LineFits(h, lines)
  {
    OpcodeFits(h, lines, advance);
    if Opcode(h, lines, advance) <= 255 then [Special(Opcode(h, lines, advance))]
    else if ByConstAdd(h, lines, advance) then
      OpcodeFits(h, lines, advance - ConstAdvance(h));
      [ConstAddPc, Special(Opcode(h, lines, advance - ConstAdvance(h)))]
    else
      OpcodeFits(h, lines, 0);
      [AdvancePc(advance), Special(Opcode(h, lines, 0))]
  }

  predicate ByConstAdd(h: Header, lines: int, advance: nat)
    requires Usable(h)
  {
    advance >= ConstAdvance(h) && Opcode(h, lines, advance - ConstAdvance(h)) <= 255
  }

  /** One special opcode, or DW_LNS_const_add_pc and one, are enough. */
  predicate Near(h: Header, lines: int, advance: nat)
    requires Usable(h)
  {
    Opcode(h, lines, advance) <= 255 || ByConstAdd(h, lines, advance)
  }

  lemma OpcodeFits(h: Header, lines: int, advance: nat)
    requires Usable(h) && LineFits(h, lines)
    ensures 0 <= h.lineRange * advance && h.opcodeBase <= Opcode(h, lines, advance)
    ensures Opcode(h, lines, 0) <= 255
  {
    NatTimes(h.lineRange, advance);
  }

  /** The row `to` from the machine's position `from`. */
  function RowOps(h: Header, from: Fsm, to: Entry): seq<Op>
    requires Usable(h) && Steps(h, from.address, to.pc)
  {
    LeftFits(h, from, to);
    FileOps(from, to) + LineOps(h, from, to) + RowOp(h, Left(h, from, to), Advances(h, from.address, to.pc))
  }

  lemma LeftFits(h: Header, from: Fsm, to: Entry) requires Usable(h) ensures LineFits(h, Left(h, from, to)) {}

  /** The second address is a number of instruction lengths after the first. */
  ghost predicate Steps(h: Header, a: nat, b: nat)
    requires HeaderFine(h)
  {
    a <= b && (b - a) % h.minLength == 0
  }

  function Advances(h: Header, a: nat, b: nat): nat
    requires HeaderFine(h) && Steps(h, a, b)
  {
    DivShrinks(b - a, h.minLength);
    (b - a) / h.minLength
  }

  lemma AdvancesBack(h: Header, a: nat, b: nat)
    requires HeaderFine(h) && Steps(h, a, b)
    ensures Advances(h, a, b) * h.minLength == b - a
    ensures a < b ==> Advances(h, a, b) > 0
  {
    Quotient(b - a, h.minLength);
    MulAssoc(h.minLength, Advances(h, a, b), 1);
  }

  // ---- what one operation does

  /** A row recorded that much further. */
  function Arrive(s: State, delta: nat, lines: int): State {
    Record(Fsm(Wrap64(s.fsm.address + delta), s.fsm.file, Wrap16(s.fsm.line + lines)), s.entries)
  }

  function Moved(s: State, delta: nat): State {
    State(s.fsm.(address := Wrap64(s.fsm.address + delta)), s.entries)
  }

  lemma MoveAndArrive(s: State, x: nat, y: nat, lines: int)
    ensures Arrive(Moved(s, x), y, lines) == Arrive(s, x + y, lines)
  {
    WrapTwice(s.fsm.address, x, y);
    hide Record, Wrap64, Wrap16;
  }

  lemma WrapTwice(x: nat, y: nat, z: nat)
    ensures Wrap64(Wrap64(x + y) + z) == Wrap64(x + (y + z))
  {
    var q := (x + y) / TWO_64;
    var k := (Wrap64(x + y) + z) / TWO_64;
    Euclid(x + (y + z), TWO_64, q + k, (Wrap64(x + y) + z) % TWO_64);
  }

  /** A special opcode advances the address and the line as the assembler meant it to. */
  lemma SpecialRuns(h: Header, s: State, lines: int, advance: nat)
    requires Usable(h) && LineFits(h, lines) && Opcode(h, lines, advance) <= 255
    ensures 0 <= advance * h.minLength && h.opcodeBase <= Opcode(h, lines, advance)
    ensures Exec(h, s, Special(Opcode(h, lines, advance))) == Arrive(s, advance * h.minLength, lines)
  {
    OpcodeFits(h, lines, advance);
    var opcode, x := Opcode(h, lines, advance), lines - h.lineBase;
    assert Adjusted(opcode, h) == h.lineRange * advance + x;
    Euclid(Adjusted(opcode, h), h.lineRange, advance, x);
    NatTimes(advance, h.minLength);
    hide Adjusted, Record, Opcode, Wrap16, Wrap64;
  }

  lemma ConstAddRuns(h: Header, s: State)
    requires Usable(h)
    ensures 0 <= ConstAdvance(h) * h.minLength
    ensures Exec(h, s, ConstAddPc) == Moved(s, ConstAdvance(h) * h.minLength)
  {
    NatTimes(ConstAdvance(h), h.minLength);
  }

  lemma AdvancePcRuns(h: Header, s: State, delta: nat)
    requires HeaderFine(h)
    ensures Exec(h, s, AdvancePc(delta)) == Moved(s, delta)
  {
  }

  lemma RunTwo(h: Header, s: State, a: Op, b: Op)
    requires HeaderFine(h)
    ensures Run(h, s, [a, b]) == Exec(h, Exec(h, s, a), b)
  {
    hide Exec;
    RunOne(h, s, a);
    RunOne(h, Exec(h, s, a), b);
    assert [a] + [b] == [a, b];
    RunAppend(h, s, [a], [b]);
  }

  /** The address the reader arrives at: DW_LNS_advance_pc is not scaled by the instruction length. */
  function Landing(h: Header, lines: int, advance: nat): nat
    requires Usable(h)
  {
    NatTimes(advance, h.minLength);
    if Near(h, lines, advance) then advance * h.minLength else advance
  }

  lemma RowOpRuns(h: Header, s: State, lines: int, advance: nat)
    requires Usable(h) && LineFits(h, lines)
    ensures Run(h, s, RowOp(h, lines, advance)) == Arrive(s, Landing(h, lines, advance), lines)
  {
    OpcodeFits(h, lines, advance);
    hide Run, Exec, Opcode, ConstAdvance, LineFits, Arrive;
    if Opcode(h, lines, advance) <= 255 {
      SpecialRuns(h, s, lines, advance);
      RunOne(h, s, Special(Opcode(h, lines, advance)));
    } else if ByConstAdd(h, lines, advance) {
      ByConstAddRuns(h, s, lines, advance);
    } else {
      ByAdvancePcRuns(h, s, lines, advance);
    }
  }

  lemma ByConstAddRuns(h: Header, s: State, lines: int, advance: nat)
    requires Usable(h) && LineFits(h, lines) && ByConstAdd(h, lines, advance)
    ensures 0 <= advance * h.minLength && 0 <= Opcode(h, lines, advance - ConstAdvance(h))
    ensures Run(h, s, [ConstAddPc, Special(Opcode(h, lines, advance - ConstAdvance(h)))]) ==
      Arrive(s, advance * h.minLength, lines)
  {
    hide Run, Exec, Opcode, ConstAdvance, LineFits, Arrive, Moved;
    var first := ConstAdvance(h);
    var rest := advance - first;
    SpecialRuns(h, Exec(h, s, ConstAddPc), lines, rest);
    RunTwo(h, s, ConstAddPc, Special(Opcode(h, lines, rest)));
    ConstAddRuns(h, s);
    MoveAndArrive(s, first * h.minLength, rest * h.minLength, lines);
    Split(advance, first, h.minLength);
  }

  lemma ByAdvancePcRuns(h: Header, s: State, lines: int, advance: nat)
    requires Usable(h) && LineFits(h, lines)
    ensures 0 <= Opcode(h, lines, 0)
    ensures Run(h, s, [AdvancePc(advance), Special(Opcode(h, lines, 0))]) == Arrive(s, advance, lines)
  {
    OpcodeFits(h, lines, 0);
    hide Run, Exec, Opcode, LineFits, Arrive, Moved;
    RunTwo(h, s, AdvancePc(advance), Special(Opcode(h, lines, 0)));
    AdvancePcRuns(h, s, advance);
    SpecialRuns(h, Exec(h, s, AdvancePc(advance)), lines, 0);
    MoveAndArrive(s, advance, 0, lines);
  }

  lemma Split(x: nat, y: nat, m: nat)
    requires y <= x
    ensures y * m + (x - y) * m == x * m
  {
  }

  // ---- the row

  lemma FileOpsRun(h: Header, s: State, to: Entry)
    requires HeaderFine(h)
    ensures Run(h, s, FileOps(s.fsm, to)) == State(s.fsm.(file := to.file), s.entries)
  {
    WrapId(s.fsm.address);
    RunOne(h, s, SetFile(to.file));
  }

  /** DW_LNS_advance_line records a row on its own. */
  function AfterLine(h: Header, from: Fsm, to: Entry, entries: seq<Entry>): seq<Entry> {
    if LineFits(h, to.line - from.line) then entries
    else Record(Fsm(from.address, to.file, to.line), entries).entries
  }

  lemma LineOpsRun(h: Header, s: State, from: Fsm, to: Entry)
    requires Usable(h) && s.fsm == from.(file := to.file)
    ensures Wrap16(to.line - Left(h, from, to)) == to.line - Left(h, from, to)
    ensures Run(h, s, LineOps(h, from, to)) ==
      State(Fsm(from.address, to.file, to.line - Left(h, from, to)), AfterLine(h, from, to, s.entries))
  {
    WrapId(s.fsm.address);
    RunOne(h, s, AdvanceLine(to.line - from.line));
    assert Wrap16(from.line + (to.line - from.line)) == to.line;
    hide Record;
  }

  lemma RowOpsRun(h: Header, s: State, to: Entry)
    requires Usable(h) && Steps(h, s.fsm.address, to.pc)
    ensures var lines, advance := Left(h, s.fsm, to), Advances(h, s.fsm.address, to.pc);
      Run(h, s, RowOps(h, s.fsm, to)) ==
        Record(Fsm(Wrap64(s.fsm.address + Landing(h, lines, advance)), to.file, to.line),
               AfterLine(h, s.fsm, to, s.entries))
  {
    hide *;
    UsableIsFine(h);
    RowOpsAre(h, s.fsm, to);
    var lines, advance := Left(h, s.fsm, to), Advances(h, s.fsm.address, to.pc);
    FileAndLineRun(h, s, to);
    var moved := Run(h, s, FileOps(s.fsm, to) + LineOps(h, s.fsm, to));
    RowOpRuns(h, moved, lines, advance);
    RunAppend(h, s, FileOps(s.fsm, to) + LineOps(h, s.fsm, to), RowOp(h, lines, advance));
    InWidth(to.line);
    ArriveIs(moved, Landing(h, lines, advance), lines);
  }

  lemma ArriveIs(s: State, delta: nat, lines: int)
    ensures Arrive(s, delta, lines) ==
      Record(Fsm(Wrap64(s.fsm.address + delta), s.fsm.file, Wrap16(s.fsm.line + lines)), s.entries)
  {
  }

  lemma FileAndLineRun(h: Header, s: State, to: Entry)
    requires Usable(h)
    ensures Wrap16(to.line - Left(h, s.fsm, to)) == to.line - Left(h, s.fsm, to)
    ensures Run(h, s, FileOps(s.fsm, to) + LineOps(h, s.fsm, to)) ==
      State(Fsm(s.fsm.address, to.file, to.line - Left(h, s.fsm, to)), AfterLine(h, s.fsm, to, s.entries))
  {
    hide *;
    UsableIsFine(h);
    FileOpsRun(h, s, to);
    LineOpsRun(h, State(s.fsm.(file := to.file), s.entries), s.fsm, to);
    RunAppend(h, s, FileOps(s.fsm, to), LineOps(h, s.fsm, to));
  }

  lemma InWidth(x: uint16) ensures Wrap16(x) == x {}

  lemma UsableIsFine(h: Header) requires Usable(h) ensures HeaderFine(h) {}

  lemma RowOpsAre(h: Header, from: Fsm, to: Entry)
    requires Usable(h) && Steps(h, from.address, to.pc)
    ensures LineFits(h, Left(h, from, to))
    ensures RowOps(h, from, to) ==
      FileOps(from, to) + LineOps(h, from, to) + RowOp(h, Left(h, from, to), Advances(h, from.address, to.pc))
  {
  }

  /** The reader lands on the address of the row: the advance is not scaled, or needs no DW_LNS_advance_pc. */
  ghost predicate Direct(h: Header, from: Fsm, to: Entry)
    requires Usable(h) && Steps(h, from.address, to.pc)
  {
    h.minLength == 1 || Near(h, Left(h, from, to), Advances(h, from.address, to.pc))
  }

  lemma LandsIff(h: Header, from: Fsm, to: Entry)
    requires Usable(h) && Steps(h, from.address, to.pc)
    ensures var at := from.address + Landing(h, Left(h, from, to), Advances(h, from.address, to.pc));
      && (Direct(h, from, to) ==> at == to.pc)
      && (!Direct(h, from, to) ==> from.address < at < to.pc)
  {
    var lines, advance := Left(h, from, to), Advances(h, from.address, to.pc);
    AdvancesBack(h, from.address, to.pc);
    if !Direct(h, from, to) {
      LeftFits(h, from, to);
      OpcodeFits(h, lines, 0);
      hide Near, Opcode, Left;
      assert Near(h, lines, 0) by { NearAtZero(h, lines); }
      MulMono(advance, advance, h.minLength, 2);
      assert advance > 0;
    }
    hide Near, Opcode, Left;
  }

  lemma NearAtZero(h: Header, lines: int)
    requires Usable(h) && LineFits(h, lines)
    ensures Near(h, lines, 0)
  {
    OpcodeFits(h, lines, 0);
  }

  /** The rows differ in line or file, and the second has a line. */
  predicate Changes(last: Entry, to: Entry) { to.line != 0 && (last.line != to.line || last.file != to.file) }

  function Position(e: Entry): Fsm { Fsm(e.pc, e.file, e.line) }

  /** A further row of a sequence. */
  lemma NextRow(h: Header, s: State, to: Entry)
    requires Usable(h) && s.entries != [] && s.fsm == Position(s.entries[|s.entries| - 1])
    requires Steps(h, s.fsm.address, to.pc) && s.fsm.address < to.pc && Changes(s.entries[|s.entries| - 1], to)
    ensures var t := Run(h, s, RowOps(h, s.fsm, to));
      && (Direct(h, s.fsm, to) ==> t == State(Position(to), s.entries + [to]))
      && (!Direct(h, s.fsm, to) ==>
            |t.entries| == |s.entries| + 1 && t.entries[|s.entries|].pc != to.pc)
  {
    hide Run, RowOps, Direct, Landing, Left, Advances;
    RowOpsRun(h, s, to);
    LandsIff(h, s.fsm, to);
    var at := s.fsm.address + Landing(h, Left(h, s.fsm, to), Advances(h, s.fsm.address, to.pc));
    WrapId(at);
    assert AfterLine(h, s.fsm, to, s.entries) == s.entries;
  }

  /** The first row of a sequence, the address just set. */
  lemma FirstRow(h: Header, s: State, to: Entry)
    requires Usable(h) && s.fsm == Fsm(to.pc, 1, 1) && to.line != 0
    requires s.entries != [] ==> s.entries[|s.entries| - 1].pc < to.pc && Changes(s.entries[|s.entries| - 1], to)
    ensures Steps(h, s.fsm.address, to.pc) && Direct(h, s.fsm, to)
    ensures Run(h, s, RowOps(h, s.fsm, to)) == State(Position(to), s.entries + [to])
  {
    hide *;
    UsableIsFine(h);
    NoAdvance(h, s.fsm, to);
    DirectAtOnce(h, s.fsm, to);
    RowOpsRun(h, s, to);
    LandsIff(h, s.fsm, to);
    RecordsFirst(h, s, to);
  }

  lemma DirectAtOnce(h: Header, from: Fsm, to: Entry)
    requires Usable(h) && Steps(h, from.address, to.pc) && Advances(h, from.address, to.pc) == 0
    ensures Direct(h, from, to)
  {
    LeftFits(h, from, to);
    NearAtZero(h, Left(h, from, to));
    hide Near, Left, Advances;
  }

  lemma RecordsFirst(h: Header, s: State, to: Entry)
    requires s.fsm == Fsm(to.pc, 1, 1) && to.line != 0
    requires s.entries != [] ==> s.entries[|s.entries| - 1].pc < to.pc && Changes(s.entries[|s.entries| - 1], to)
    ensures Record(Fsm(Wrap64(to.pc), to.file, to.line), AfterLine(h, s.fsm, to, s.entries)) ==
      State(Position(to), s.entries + [to])
  {
    WrapId(to.pc);
    hide LineFits;
  }

  lemma NoAdvance(h: Header, from: Fsm, to: Entry)
    requires HeaderFine(h) && from.address == to.pc
    ensures Steps(h, from.address, to.pc) && Advances(h, from.address, to.pc) == 0
  {
  }

  // ---- whole programs

  /** A row, whether it opens a sequence, and how far the sequence it may close reaches behind it. */
  datatype Item = Item(row: Entry, opens: bool, gap: nat)

  predicate Opens(items: seq<Item>, k: nat)
    requires k < |items|
  {
    k == 0 || items[k].opens
  }

  /** Where the machine stands before row `k`. */
  function Before(items: seq<Item>, k: nat): Fsm
    requires k < |items|
  {
    if Opens(items, k) then Fsm(items[k].row.pc, 1, 1) else Position(items[k - 1].row)
  }

  /** The rows come in strictly increasing addresses; inside a sequence they are whole instruction lengths apart. */
  ghost predicate Placed(h: Header, items: seq<Item>, k: nat)
    requires HeaderFine(h) && k < |items|
  {
    Steps(h, Before(items, k).address, items[k].row.pc) && (k > 0 ==> items[k - 1].row.pc < items[k].row.pc)
  }

  ghost predicate AllPlaced(h: Header, items: seq<Item>)
    requires HeaderFine(h)
  {
    forall k :: 0 <= k < |items| ==> Placed(h, items, k)
  }

  function Closing(item: Item): seq<Op> { [AdvancePc(item.gap), EndSequence] }

  function Opening(items: seq<Item>, k: nat): seq<Op>
    requires k < |items|
  {
    if !Opens(items, k) then []
    else (if k > 0 then Closing(items[k - 1]) else []) + [SetAddress(items[k].row.pc)]
  }

  /** What is written for row `k`. */
  function ItemOps(h: Header, items: seq<Item>, k: nat): seq<Op>
    requires Usable(h) && k < |items| && Placed(h, items, k)
  {
    Opening(items, k) + RowOps(h, Before(items, k), items[k].row)
  }

  /** The operations of the first `k` rows. */
  function FirstOps(h: Header, items: seq<Item>, k: nat): seq<Op>
    requires Usable(h) && AllPlaced(h, items) && k <= |items|
  {
    if k == 0 then []
    else
      assert Placed(h, items, k - 1);
      FirstOps(h, items, k - 1) + ItemOps(h, items, k - 1)
  }

  function Program(h: Header, items: seq<Item>): seq<Op>
    requires Usable(h) && AllPlaced(h, items)
  {
    FirstOps(h, items, |items|) + (if items == [] then [] else Closing(items[|items| - 1]))
  }

  function Rows(items: seq<Item>, k: nat): seq<Entry>
    requires k <= |items|
  {
    seq(k, i requires 0 <= i < k => items[i].row)
  }

  /** Row `k` has a line, and another line or file than the row before it. */
  ghost predicate Distinct(items: seq<Item>, k: nat)
    requires k < |items|
  {
    items[k].row.line != 0 && (k > 0 ==> Changes(items[k - 1].row, items[k].row))
  }

  ghost predicate Reached(h: Header, items: seq<Item>, k: nat)
    requires Usable(h) && k < |items| && Placed(h, items, k)
  {
    Direct(h, Before(items, k), items[k].row)
  }

  /** The state after the first `k` rows when all went well. */
  ghost predicate After(items: seq<Item>, k: nat, s: State)
    requires k <= |items|
  {
    s.entries == Rows(items, k) && s.fsm == if k == 0 then RESET else Position(items[k - 1].row)
  }

  lemma OpeningRuns(h: Header, items: seq<Item>, k: nat, s: State)
    requires Usable(h) && k < |items| && After(items, k, s)
    ensures Run(h, s, Opening(items, k)) == State(Before(items, k), s.entries)
  {
    if Opens(items, k) {
      var start := SetAddress(items[k].row.pc);
      if k == 0 {
        assert Opening(items, k) == [start];
        RunOne(h, s, start);
      } else {
        var a, b := AdvancePc(items[k - 1].gap), EndSequence;
        RunTwo(h, s, a, b);
        RunOne(h, Run(h, s, [a, b]), start);
        RunAppend(h, s, [a, b], [start]);
      }
    }
  }

  lemma LastOfRows(items: seq<Item>, k: nat)
    requires k < |items|
    ensures Rows(items, k + 1) == Rows(items, k) + [items[k].row]
    ensures k > 0 ==> Rows(items, k) != [] && Rows(items, k)[k - 1] == items[k - 1].row
  {
  }

  /** One more row. */
  lemma ItemRuns(h: Header, items: seq<Item>, k: nat, s: State)
    requires Usable(h) && k < |items| && Placed(h, items, k) && After(items, k, s) && Distinct(items, k)
    ensures var t := Run(h, s, ItemOps(h, items, k));
      && (Reached(h, items, k) ==> After(items, k + 1, t))
      && (!Reached(h, items, k) ==> |t.entries| == k + 1 && t.entries[k].pc != items[k].row.pc)
  {
    var row, from := items[k].row, Before(items, k);
    OpeningRuns(h, items, k, s);
    LastOfRows(items, k);
    RunAppend(h, s, Opening(items, k), RowOps(h, from, row));
    hide Run, RowOps, Opening, Direct;
    if Opens(items, k) {
      FirstRow(h, State(from, s.entries), row);
    } else {
      NextRow(h, State(from, s.entries), row);
    }
  }

  ghost predicate AllDistinct(items: seq<Item>) { forall k :: 0 <= k < |items| ==> Distinct(items, k) }

  ghost predicate AllReached(h: Header, items: seq<Item>, n: nat)
    requires Usable(h) && AllPlaced(h, items) && n <= |items|
  {
    forall k :: 0 <= k < n ==> (assert Placed(h, items, k); Reached(h, items, k))
  }

  lemma {:induction false} FirstOpsRun(h: Header, items: seq<Item>, k: nat)
    requires Usable(h) && AllPlaced(h, items) && k <= |items| && AllDistinct(items) && AllReached(h, items, k)
    ensures After(items, k, Run(h, INITIAL, FirstOps(h, items, k)))
  {
    hide Run, ItemOps, Placed, Distinct, Reached, After;
    if k == 0 {
      NothingYet(h, items);
    } else {
      FirstOpsRun(h, items, k - 1);
      assert Placed(h, items, k - 1) && Distinct(items, k - 1) && Reached(h, items, k - 1);
      var s := Run(h, INITIAL, FirstOps(h, items, k - 1));
      ItemRuns(h, items, k - 1, s);
      RunAppend(h, INITIAL, FirstOps(h, items, k - 1), ItemOps(h, items, k - 1));
    }
  }

  lemma NothingYet(h: Header, items: seq<Item>)
    requires HeaderFine(h)
    ensures After(items, 0, Run(h, INITIAL, []))
  {
  }

  lemma ClosingRuns(h: Header, s: State, item: Item)
    requires HeaderFine(h)
    ensures Run(h, s, Closing(item)).entries == s.entries
  {
    RunTwo(h, s, AdvancePc(item.gap), EndSequence);
  }

  // ---- what no program can do

  /** Neighbouring entries differ in address, and in line or file; no entry has line 0. */
  ghost predicate Varied(entries: seq<Entry>) {
    && (forall i :: 0 <= i < |entries| ==> entries[i].line != 0)
    && (forall i :: 0 < i < |entries| ==> Changes(entries[i - 1], entries[i]))
  }

  lemma ExecGrows(h: Header, s: State, op: Op)
    requires HeaderFine(h) && Varied(s.entries)
    ensures s.entries <= Exec(h, s, op).entries && Varied(Exec(h, s, op).entries)
  {
    hide Adjusted, Skip, Wrap16, Wrap64;
  }

  lemma {:induction false} RunGrows(h: Header, s: State, ops: seq<Op>)
    requires HeaderFine(h) && Varied(s.entries)
    ensures s.entries <= Run(h, s, ops).entries && Varied(Run(h, s, ops).entries)
    decreases |ops|
  {
    hide Exec, Varied;
    if ops != [] {
      ExecGrows(h, s, ops[0]);
      RunGrows(h, Exec(h, s, ops[0]), ops[1..]);
    }
  }

  lemma {:induction false} ProgramFrom(h: Header, items: seq<Item>, k: nat) returns (rest: seq<Op>)
    requires Usable(h) && AllPlaced(h, items) && k <= |items|
    ensures Program(h, items) == FirstOps(h, items, k) + rest
    decreases |items| - k
  {
    hide ItemOps, Placed;
    if k == |items| {
      rest := if items == [] then [] else Closing(items[|items| - 1]);
    } else {
      var more := ProgramFrom(h, items, k + 1);
      assert Placed(h, items, k);
      NextOps(h, items, k);
      var own := ItemOps(h, items, k);
      assert FirstOps(h, items, k) + own + more == FirstOps(h, items, k) + (own + more);
      rest := own + more;
    }
  }

  lemma {:induction false} ReachedUpTo(h: Header, items: seq<Item>, k: nat)
    requires Usable(h) && AllPlaced(h, items) && k <= |items| && AllDistinct(items)
    requires Run(h, INITIAL, Program(h, items)).entries == Rows(items, |items|)
    ensures AllReached(h, items, k)
  {
    hide Run, Program, FirstOps, ItemOps, Placed, Distinct, Reached, Varied;
    if k > 0 {
      var l := k - 1;
      ReachedUpTo(h, items, l);
      FirstOpsRun(h, items, l);
      assert Placed(h, items, l) && Distinct(items, l);
      var s := Run(h, INITIAL, FirstOps(h, items, l));
      ItemRuns(h, items, l, s);
      var own := ItemOps(h, items, l);
      NextOps(h, items, l);
      RunAppend(h, INITIAL, FirstOps(h, items, l), own);
      var rest := ProgramFrom(h, items, k);
      RunAppend(h, INITIAL, FirstOps(h, items, k), rest);
      assert Varied(INITIAL.entries) by { NoEntries(); }
      RunGrows(h, INITIAL, FirstOps(h, items, k));
      RunGrows(h, Run(h, INITIAL, FirstOps(h, items, k)), rest);
      assert Rows(items, |items|)[l] == items[l].row;
    }
  }

  lemma NoEntries() ensures Varied([]) {}

  lemma NextOps(h: Header, items: seq<Item>, l: nat)
    requires Usable(h) && AllPlaced(h, items) && l < |items| && Placed(h, items, l)
    ensures FirstOps(h, items, l + 1) == FirstOps(h, items, l) + ItemOps(h, items, l)
  {
    hide ItemOps;
  }

  /** The rows come back, exactly and in order, if and only if each has a line and differs from the row before it in
      line or file, and no address advance is left to DW_LNS_advance_pc unless the instruction length is 1. */
  lemma RowsComeBackIff(h: Header, items: seq<Item>)
    requires Usable(h) && AllPlaced(h, items)
    ensures Run(h, INITIAL, Program(h, items)).entries == Rows(items, |items|) <==>
      AllDistinct(items) && AllReached(h, items, |items|)
  {
    hide Run, FirstOps, Reached, AllReached, AllPlaced;
    var ops, n := FirstOps(h, items, |items|), |items|;
    if AllDistinct(items) && AllReached(h, items, n) {
      FirstOpsRun(h, items, n);
      var end := if items == [] then [] else Closing(items[n - 1]);
      RunAppend(h, INITIAL, ops, end);
      if items != [] { ClosingRuns(h, Run(h, INITIAL, ops), items[n - 1]); } else { assert ops + [] == ops; }
    } else if Run(h, INITIAL, Program(h, items)).entries == Rows(items, n) {
      NoEntries();
      RunGrows(h, INITIAL, Program(h, items));
      RowsVaried(items);
      ReachedUpTo(h, items, n);
    }
  }

  lemma RowsVaried(items: seq<Item>)
    requires Varied(Rows(items, |items|))
    ensures AllDistinct(items)
  {
    forall k | 0 <= k < |items| ensures Distinct(items, k) {
      assert Rows(items, |items|)[k] == items[k].row;
      if k > 0 { assert Rows(items, |items|)[k - 1] == items[k - 1].row; }
    }
  }

  const HEADER := Header(1, -5, 14, 13)

  lemma HeaderUsable(length: nat)
    requires 0 < length < 256
    ensures Usable(HEADER.(minLength := length))
  {
  }

  /** Three rows, the second on the line of the first. */
  lemma RepeatedLine()
    ensures var items := [Item(Entry(0x1000, 1, 1), true, 0), Item(Entry(0x1004, 1, 1), false, 0),
                          Item(Entry(0x1008, 1, 100), false, 0)];
      && Usable(HEADER) && AllPlaced(HEADER, items)
      && Run(HEADER, INITIAL, Program(HEADER, items)).entries != Rows(items, 3)
  {
    var items := [Item(Entry(0x1000, 1, 1), true, 0), Item(Entry(0x1004, 1, 1), false, 0),
                  Item(Entry(0x1008, 1, 100), false, 0)];
    HeaderUsable(1);
    assert !Distinct(items, 1);
    forall k | 0 <= k < 3 ensures Placed(HEADER, items, k) {}
    hide Run, Program, AllReached;
    RowsComeBackIff(HEADER, items);
  }

  /** Instructions of four bytes and rows 4096 bytes apart. */
  lemma FarRow()
    ensures var h := HEADER.(minLength := 4);
      var items := [Item(Entry(0x1000, 1, 1), true, 0), Item(Entry(0x2000, 1, 2), false, 0)];
      && Usable(h) && AllPlaced(h, items) && AllDistinct(items)
      && Run(h, INITIAL, Program(h, items)).entries != Rows(items, 2)
  {
    var h := HEADER.(minLength := 4);
    var items := [Item(Entry(0x1000, 1, 1), true, 0), Item(Entry(0x2000, 1, 2), false, 0)];
    HeaderUsable(4);
    forall k | 0 <= k < 2 ensures Placed(h, items, k) {}
    assert ConstAdvance(h) == 17;
    assert Advances(h, 0x1000, 0x2000) == 0x400;
    assert !Reached(h, items, 1);
    hide Run, Program;
    RowsComeBackIff(h, items);
  }

  // ---- the lookup

  /** read_dwarf_section_debug_line on the bytes an assembler writes, then the search of stacktrace_find_entry: an
      address gets the line of the row that covers it. */
  method FindAssembled(data: seq<byte>, offset: nat, end: nat, h: Header, pc: uint64, ghost items: seq<Item>)
      returns (r: Lookup)
    requires Usable(h) && AllPlaced(h, items) && AllDistinct(items) && AllReached(h, items, |items|) && items != []
    requires var ops := Program(h, items);
      && (forall i :: 0 <= i < |ops| ==> Encodable(ops[i]))
      && end == offset + |EncodeOps(ops)| && Holds(data, offset, EncodeOps(ops))
    ensures forall k: nat :: k + 1 < |items| && items[k].row.pc <= pc < items[k + 1].row.pc ==>
      r == Line(items[k].row.line)
    ensures items[|items| - 1].row.pc <= pc ==> r == NotFound
  {
    hide Exec, DecodeAll, Holds, Encodable, Run, Program, EncodeOps, AllReached, AllDistinct;
    hide AllPlaced, Rows, Sorted, Usable, Disordered;
    UsableIsFine(h);
    RowsAre(items);
    OpsReadBack(data, offset, Program(h, items));
    RowsComeBackIff(h, items);
    RowsSorted(h, items);
    var ok, table := RunProgram(data, offset, end, h);
    r := FindLine(table, pc);
    forall k: nat | k + 1 < |items| && items[k].row.pc <= pc < items[k + 1].row.pc
      ensures r == Line(items[k].row.line)
    {
      assert Covers(table, k, pc);
    }
  }

  lemma RowsAre(items: seq<Item>)
    ensures |Rows(items, |items|)| == |items|
    ensures forall k :: 0 <= k < |items| ==> Rows(items, |items|)[k] == items[k].row
  {
  }

  lemma {:induction false} RowsSorted(h: Header, items: seq<Item>)
    requires HeaderFine(h) && AllPlaced(h, items)
    ensures Sorted(Rows(items, |items|))
  {
    if |items| > 1 {
      var n := |items| - 1;
      forall k | 0 <= k < n ensures Placed(h, items[..n], k) { assert Placed(h, items, k); }
      RowsSorted(h, items[..n]);
      assert Placed(h, items, n);
      assert Rows(items, |items|)[..n] == Rows(items[..n], n);
      forall i | 0 <= i < n ensures items[i].row.pc < items[n].row.pc {
        assert Rows(items[..n], n)[i] == items[i].row && Rows(items[..n], n)[n - 1] == items[n - 1].row;
      }
      forall i, j | 0 <= i < j < |items| ensures Rows(items, |items|)[i].pc < Rows(items, |items|)[j].pc {
        if j < n { assert Rows(items[..n], n)[i].pc < Rows(items[..n], n)[j].pc; }
      }
    }
  }
}
