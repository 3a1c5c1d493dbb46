/** torrent/bencode.h: the parser over three parallel arrays, and the walk of bc_dump_value. */
module Bencode {
  import opened MachineInts
  import opened BencodeSpec

  datatype Span = Span(start: nat, len: nat)

  datatype Outcome = Ok | Error(error: ParseError) | NeverReturns | AssertionFailed

  function OutcomeOf<T>(r: Parsed<T>): Outcome {
    match r
    case Done(_, _) => Ok
    case Nothing => Ok
    case Fail(e) => Error(e)
    case Hang => NeverReturns
    case Trap => AssertionFailed
  }

  /** The rows after one more child of `parent` has been announced; there is no row for a parent of -1, or for
      the parent 0 of an empty table. */
  function Bump(rows: seq<Entry>, parent: int): seq<Entry> {
    if 0 <= parent < |rows| then rows[parent := rows[parent].(length := rows[parent].length + 1)] else rows
  }

  lemma WrapStep(x: uint64, d: int)
    ensures Wrap64(Wrap64(x * 10) + d) == Wrap64(10 * x + d)
  {
    var q := (10 * x) / TWO_64;
    assert 10 * x + d == (Wrap64(x * 10) + d) + q * TWO_64;
  }

  /** pg_span_split_at_first: where the left part ends. */
  method FindFirst(text: string, from: nat, c: char) returns (k: nat)
    requires from <= |text|
    ensures k == Find(text, from, c)
  {
    k := from;
    while k < |text| && text[k] != c
      invariant from <= k <= |text|
      invariant forall i :: from <= i < k ==> text[i] != c
    {
      k := k + 1;
    }
    if k < |text| { FindIs(text, from, c, k); }
  }

  lemma {:induction false} AppendChild(ts: seq<Tree>, t: Tree, at: nat)
    ensures EncodeAll(ts + [t]) == EncodeAll(ts) + Encode(t)
    ensures FlattenAll(ts + [t], at) == FlattenAll(ts, at) + Flatten(t, at + |EncodeAll(ts)|)
    decreases |ts|
  {
    if ts == [] {
      assert [t][1..] == [];
    } else {
      assert (ts + [t])[1..] == ts[1..] + [t];
      AppendChild(ts[1..], t, at + |Encode(ts[0])|);
    }
  }

  lemma ItemsStart(text: string, start: nat)
    requires start <= |text|
    ensures EncodeAll([]) == ""
    ensures ParseItems(text, start) == Prepend([], ParseItems(text, start))
  {
    var r := ParseItems(text, start);
    if r.Done? { assert [] + r.value == r.value; }
  }

  lemma ItemsStep(text: string, start: nat, items: seq<Tree>, here: nat)
    requires start <= here < |text| && text[here] != 'e'
    requires ParseItems(text, start) == Prepend(items, ParseItems(text, here))
    ensures match ParseValue(text, here)
      case Done(t, next) =>
        ParseItems(text, start) == Prepend(items + [t], ParseItems(text, next))
        && next == here + |Encode(t)| && next >= here + 2
      case Nothing => ParseItems(text, start).Hang?
      case Fail(e) => ParseItems(text, start) == Fail(e)
      case Hang => ParseItems(text, start).Hang?
      case Trap => ParseItems(text, start).Trap?
  {
    hide ParseValue;
    var v := ParseValue(text, here);
    if v.Done? {
      Sound(text, here);
      var r := ParseItems(text, v.next);
      if r.Done? { assert items + ([v.value] + r.value) == items + [v.value] + r.value; }
    }
  }

  lemma ItemsEnd(text: string, next: nat)
    requires next <= |text| && (next < |text| ==> text[next] == 'e')
    ensures ParseItems(text, next) == if next == |text| then Fail(UnexpectedCharacter) else Done([], next)
  {
  }

  /** The dictionary's own span runs from its `d` to its `e`. */
  lemma DictionaryRow(text: string, pos: nat)
    requires pos < |text| && text[pos] == 'd' && ParseItems(text, pos + 1).Done?
    requires var items := ParseItems(text, pos + 1).value; |items| % 2 == 0 && KeysOk(items)
    ensures var r := ParseItems(text, pos + 1);
      && ParseValue(text, pos) == Done(Dict(r.value), r.next + 1)
      && Flatten(Dict(r.value), pos)
         == [Entry(KindDictionary, pos, r.next + 1 - pos, |r.value|)] + FlattenAll(r.value, pos + 1)
  {
    hide FlattenAll, EncodeAll, KeysOk, ParseItems, AllWellFormed, ParseInt, ParseStr;
    SoundItems(text, pos + 1);
    var r := ParseItems(text, pos + 1);
    assert |text[pos + 1..r.next]| == |EncodeAll(r.value)|;
    assert |Encode(Dict(r.value))| == |EncodeAll(r.value)| + 2;
  }

  lemma BumpRow(base: seq<Entry>, mine: Entry, rows: seq<Entry>)
    ensures Bump(base + [mine] + rows, |base|) == base + [mine.(length := mine.length + 1)] + rows
  {
  }

  lemma ChildrenRow(base: seq<Entry>, mine: Entry, rows: seq<Entry>)
    ensures (base + [mine] + rows)[|base|] == mine
  {
  }

  /** The three arrays read as one table. */
  function Table(kinds: seq<Kind>, spans: seq<Span>, lengths: seq<uint64>): (rows: seq<Entry>)
    requires |spans| == |lengths| == |kinds|
    ensures |rows| == |kinds|
    ensures forall i :: 0 <= i < |kinds| ==> rows[i] == Entry(kinds[i], spans[i].start, spans[i].len, lengths[i])
  {
    seq(|kinds|, i requires 0 <= i < |kinds| => Entry(kinds[i], spans[i].start, spans[i].len, lengths[i]))
  }

  lemma TableAppend(kinds: seq<Kind>, spans: seq<Span>, lengths: seq<uint64>, k: Kind, s: Span, l: uint64)
    requires |spans| == |lengths| == |kinds|
    ensures Table(kinds + [k], spans + [s], lengths + [l]) ==
      Table(kinds, spans, lengths) + [Entry(k, s.start, s.len, l)]
  {
  }

  lemma TableUpdate(kinds: seq<Kind>, spans: seq<Span>, lengths: seq<uint64>, i: nat, s: Span, l: uint64)
    requires |spans| == |lengths| == |kinds| && i < |kinds|
    ensures Table(kinds, spans[i := s], lengths[i := l])
         == Table(kinds, spans, lengths)[i := Entry(kinds[i], s.start, s.len, l)]
  {
  }

  /** The digit loop of `case 'i'`, from the second byte on. */
  method TailIsDigits(left: string) returns (fine: bool)
    requires |left| > 0
    ensures fine == AllDigits(left[1..])
  {
    var i := 1;
    while i < |left|
      invariant 1 <= i <= |left|
      invariant forall k :: 1 <= k < i ==> IsDigit(left[k])
    {
      if !IsDigit(left[i]) {
        assert left[1..][i - 1] == left[i];
        return false;
      }
      i := i + 1;
    }
    return true;
  }

  /** The digit loop of a string's length prefix. */
  method ReadPrefix(left: string) returns (fine: bool, len: uint64)
    ensures fine == AllDigits(left)
    ensures fine ==> len == PrefixValue(left)
  {
    len := 0;
    var i := 0;
    while i < |left|
      invariant 0 <= i <= |left|
      invariant forall k :: 0 <= k < i ==> IsDigit(left[k])
      invariant len == PrefixValue(left[..i])
    {
      if !IsDigit(left[i]) { return false, 0; }
      assert left[..i + 1][..i] == left[..i];
      WrapStep(len, left[i] as int - '0' as int);
      len := Wrap64(len * 10);
      len := Wrap64(len + (left[i] as int - '0' as int));
      i := i + 1;
    }
    assert left[..i] == left;
    return true, len;
  }

  /** The columns of the table from `first` on are those of `rows`. */
  ghost predicate Columns(kinds: seq<Kind>, lengths: seq<uint64>, first: nat, rows: seq<Entry>) {
    && |kinds| == |lengths| == first + |rows|
    && forall k :: 0 <= k < |rows| ==> rows[k].kind == kinds[first + k] && rows[k].length == lengths[first + k]
  }

  lemma ColumnsAt(kinds: seq<Kind>, lengths: seq<uint64>, first: nat, rows: seq<Entry>, k: nat)
    requires Columns(kinds, lengths, first, rows) && k < |rows|
    ensures first + k < |kinds| == |lengths| && rows[k].kind == kinds[first + k] && rows[k].length == lengths[first + k]
  {
  }

  lemma ColumnsOfTable(kinds: seq<Kind>, spans: seq<Span>, lengths: seq<uint64>, base: seq<Entry>, rows: seq<Entry>)
    requires |spans| == |lengths| == |kinds| && Table(kinds, spans, lengths) == base + rows
    ensures Columns(kinds, lengths, |base|, rows)
  {
    var table := Table(kinds, spans, lengths);
    forall k | 0 <= k < |rows| ensures rows[k].kind == kinds[|base| + k] && rows[k].length == lengths[|base| + k] {
      assert table[|base| + k] == rows[k];
    }
  }

  /** The walk over the keys of the dictionary in row `me`. */
  method ScanKeys(kinds: seq<Kind>, lengths: seq<uint64>, me: nat, count: nat, ghost rows: seq<Entry>)
    returns (fine: bool)
    requires Columns(kinds, lengths, me + 1, rows) && RowsFit(rows) && count % 2 == 0 && (count > 0 ==> 1 < |rows|)
    ensures fine == KeyScan(rows, 0, count)
  {
    hide KeyScan, RowsFit, Columns;
    var j := me + 1;
    var i := 0;
    ghost var k: nat := 0;
    while i < count
      invariant 0 <= i <= count && i % 2 == 0 && j == me + 1 + k && (i < count ==> k + 1 < |rows|)
      invariant KeyScan(rows, 0, count) == KeyScan(rows, k, count - i)
    {
      KeyScanStep(rows, k, count - i);
      ColumnsAt(kinds, lengths, me + 1, rows, k);
      ColumnsAt(kinds, lengths, me + 1, rows, k + 1);
      if kinds[j] != KindString { return false; }
      if kinds[j + 1] == KindDictionary || kinds[j + 1] == KindArray {
        k := k + lengths[j + 1];
        j := j + lengths[j + 1];
      }
      i := i + 2;
    }
    KeyScanEnd(rows, k);
    return true;
  }

  class Parser {
    var spans: seq<Span>
    var lengths: seq<uint64>
    var kinds: seq<Kind>
    var parent: int
    const reserved: nat     // slots allocated from the start
    var firstSlot: uint64   // what the first slot of the lengths holds before a row is there

    /** The parent is none, a row, or the 0 of a zeroed parser, whose first slot is reserved. */
    ghost predicate Valid()
      reads this
    {
      && |spans| == |lengths| == |kinds|
      && (-1 <= parent < |kinds| || (parent == 0 && |kinds| == 0 < reserved))
    }

    function Rows(): (rows: seq<Entry>)
      requires |spans| == |lengths| == |kinds|
      reads this
    {
      Table(kinds, spans, lengths)
    }

    constructor ()
      ensures Valid() && Rows() == [] && parent == -1
    {
      spans, lengths, kinds, parent, firstSlot, reserved := [], [], [], -1, 0, 0;
    }

    /** The parser of the callers: all fields zero, then bc_parser_init reserves slots. */
    constructor Zeroed(reserved: nat)
      requires reserved > 0
      ensures Valid() && Rows() == [] && parent == 0 && this.reserved == reserved
    {
      spans, lengths, kinds, parent, firstSlot, this.reserved := [], [], [], 0, 0, reserved;
    }

    /** `if (parser->parent != -1ULL) parser->lengths[parser->parent] += 1` */
    method Announce()
      requires Valid() && (0 <= parent < |lengths| ==> lengths[parent] + 1 < TWO_64)
      modifies this`lengths, this`firstSlot
      ensures Valid() && |lengths| == old(|lengths|) && Rows() == Bump(old(Rows()), parent)
    {
      if parent == |lengths| {
        firstSlot := Wrap64(firstSlot + 1);
      } else if parent != -1 {
        TableUpdate(kinds, spans, lengths, parent, spans[parent], lengths[parent] + 1);
        lengths := lengths[parent := lengths[parent] + 1];
        assert spans[parent := spans[parent]] == spans;
      }
    }

    /** Appends one row to the three arrays. */
    method Append(span: Span, length: uint64, kind: Kind)
      requires Valid()
      modifies this`spans, this`lengths, this`kinds
      ensures Valid() && |kinds| == old(|kinds|) + 1
      ensures Rows() == old(Rows()) + [Entry(kind, span.start, span.len, length)]
    {
      TableAppend(kinds, spans, lengths, kind, span, length);
      spans := spans + [span];
      lengths := lengths + [length];
      kinds := kinds + [kind];
    }

    /** bc_parse. The input span is `text[pos..]`; `next` is where it starts afterwards. */
    method Parse(text: string, pos: nat) returns (outcome: Outcome, next: nat)
      requires Valid() && pos <= |text| < TWO_64
      requires 0 <= parent < |lengths| ==> lengths[parent] <= pos
      modifies this
      ensures outcome == OutcomeOf(ParseValue(text, pos))
      ensures ParseValue(text, pos).Done? ==>
        && Valid() && parent == old(parent)
        && next == ParseValue(text, pos).next
        && Rows() == Bump(old(Rows()), parent) + Flatten(ParseValue(text, pos).value, pos)
      ensures ParseValue(text, pos).Nothing? ==>
        Valid() && parent == old(parent) && next == pos && Rows() == old(Rows())
      decreases |text| - pos, 1
    {
      next := pos;
      if pos == |text| {
        return Ok, pos;
      }
      var c := text[pos];
      if c == 'i' {
        outcome, next := ParseInteger(text, pos);
      } else if '1' <= c <= '9' {
        outcome, next := ParseString(text, pos);
      } else if c == 'l' {
        outcome, next := ParseArray(text, pos);
      } else if c == 'd' {
        outcome, next := ParseDictionary(text, pos);
      } else if c == '\0' {
        return Ok, pos;
      } else {
        return Error(UnexpectedCharacter), pos;
      }
    }

    method ParseInteger(text: string, pos: nat) returns (outcome: Outcome, next: nat)
      requires Valid() && pos < |text| < TWO_64 && text[pos] == 'i'
      requires 0 <= parent < |lengths| ==> lengths[parent] <= pos
      modifies this
      ensures outcome == OutcomeOf(ParseInt(text, pos))
      ensures ParseInt(text, pos).Done? ==>
        && Valid() && parent == old(parent)
        && next == ParseInt(text, pos).next
        && Rows() == Bump(old(Rows()), parent) + Flatten(ParseInt(text, pos).value, pos)
    {
      hide Table;
      Announce();
      var e := FindFirst(text, pos, 'e');
      if e == |text| { return Error(InvalidNumber), pos; }
      if e - pos == 1 { return Error(InvalidNumber), pos; }
      var left := text[pos + 1..e];
      if left[0] == '-' && |left| == 1 { return Error(InvalidNumber), pos; }
      if left[0] == '-' && |left| == 2 && left[1] == '0' { return Error(InvalidNumber), pos; }
      if !(IsDigit(left[0]) || left[0] == '-') { return Error(InvalidNumber), pos; }
      var fine := TailIsDigits(left);
      if !fine { return Error(InvalidNumber), pos; }
      if |left| > 1 && left[0] == '0' { return Error(InvalidNumber), pos; }
      assert IntOk(left);
      Append(Span(pos + 1, |left|), |left|, KindInteger);
      return Ok, e + 1;
    }

    method ParseString(text: string, pos: nat) returns (outcome: Outcome, next: nat)
      requires Valid() && pos < |text| < TWO_64 && '1' <= text[pos] <= '9'
      requires 0 <= parent < |lengths| ==> lengths[parent] <= pos
      modifies this
      ensures outcome == OutcomeOf(ParseStr(text, pos))
      ensures ParseStr(text, pos).Done? ==>
        && Valid() && parent == old(parent)
        && next == ParseStr(text, pos).next
        && Rows() == Bump(old(Rows()), parent) + Flatten(ParseStr(text, pos).value, pos)
    {
      hide Table, PrefixValue;
      Announce();
      var colon := FindFirst(text, pos, ':');
      if colon == |text| { return Error(InvalidString), pos; }
      var left := text[pos..colon];
      var fine, len := ReadPrefix(left);
      if !fine { return Error(InvalidString), pos; }
      if len == 0 { return AssertionFailed, pos; }
      if |text| - (colon + 1) < len { return Error(InvalidString), pos; }
      Append(Span(colon + 1, len), len, KindString);
      return Ok, colon + 1 + len;
    }

    /** `case 'l'` of bc_parse. */
    method ParseArray(text: string, pos: nat) returns (outcome: Outcome, next: nat)
      requires Valid() && pos < |text| < TWO_64 && text[pos] == 'l'
      requires 0 <= parent < |lengths| ==> lengths[parent] <= pos
      modifies this
      ensures outcome == OutcomeOf(ParseValue(text, pos))
      ensures ParseValue(text, pos).Done? ==>
        && Valid() && parent == old(parent)
        && next == ParseValue(text, pos).next
        && Rows() == Bump(old(Rows()), parent) + Flatten(ParseValue(text, pos).value, pos)
      decreases |text| - pos, 0
    {
      Announce();
      ghost var base := Rows();
      Append(Span(0, 0), 0, KindArray);
      var saved := parent;
      parent := |kinds| - 1;
      outcome, next := ParseChildren(text, pos + 1, base, Entry(KindArray, 0, 0, 0));
      if outcome != Ok { return; }
      next := next + 1;
      parent := saved;
    }

    /** `case 'd'` of bc_parse. */
    method ParseDictionary(text: string, pos: nat) returns (outcome: Outcome, next: nat)
      requires Valid() && pos < |text| < TWO_64 && text[pos] == 'd'
      requires 0 <= parent < |lengths| ==> lengths[parent] <= pos
      modifies this
      ensures outcome == OutcomeOf(ParseValue(text, pos))
      ensures ParseValue(text, pos).Done? ==>
        && Valid() && parent == old(parent)
        && next == ParseValue(text, pos).next
        && Rows() == Bump(old(Rows()), parent) + Flatten(ParseValue(text, pos).value, pos)
      decreases |text| - pos, 0
    {
      hide Table, FlattenAll, Flatten, EncodeAll, KeysOk, ParseItems;
      Announce();
      ghost var base := Rows();
      Append(Span(pos, |text| - pos), 0, KindDictionary);
      var saved := parent;
      parent := |kinds| - 1;
      var me := parent;
      ghost var mine := Entry(KindDictionary, pos, |text| - pos, 0);
      outcome, next := ParseChildren(text, pos + 1, base, mine);
      if outcome != Ok { return; }
      next := next + 1;
      ghost var items := ParseItems(text, pos + 1).value;
      ghost var rows := FlattenAll(items, pos + 1);
      ChildrenRow(base, mine.(length := |items|), rows);
      var count := lengths[me];
      if count % 2 != 0 { return Error(InvalidDict), next; }
      var keysFine := CheckKeys(me, count, base + [mine.(length := |items|)], items, pos + 1);
      if !keysFine { return Error(InvalidDict), next; }
      TableUpdate(kinds, spans, lengths, me, Span(spans[me].start, spans[me].len - (|text| - next)), lengths[me]);
      assert lengths[me := lengths[me]] == lengths;
      spans := spans[me := Span(spans[me].start, spans[me].len - (|text| - next))];
      DictionaryRow(text, pos);
      assert Rows() == base + [Entry(KindDictionary, pos, next - pos, |items|)] + rows;
      parent := saved;
    }

    /** The loop shared by `case 'l'` and `case 'd'`: parses values until `e`. */
    method ParseChildren(text: string, start: nat, ghost base: seq<Entry>, ghost mine: Entry)
      returns (outcome: Outcome, next: nat)
      requires Valid() && start <= |text| < TWO_64
      requires parent == |base| && mine.length == 0 && Rows() == base + [mine]
      modifies this
      ensures outcome == OutcomeOf(ParseItems(text, start))
      ensures ParseItems(text, start).Done? ==>
        var items := ParseItems(text, start).value;
        && Valid() && parent == old(parent)
        && next == ParseItems(text, start).next
        && Rows() == base + [mine.(length := |items|)] + FlattenAll(items, start)
      decreases |text| - start, 2
    {
      hide Table, FlattenAll, EncodeAll, ParseItems, ParseValue;
      next := start;
      ghost var items: seq<Tree> := [];
      FlattenNone(start);
      ItemsStart(text, start);
      while next < |text| && text[next] != 'e'
        invariant start <= next <= |text|
        invariant Valid() && parent == |base|
        invariant Rows() == base + [mine.(length := |items|)] + FlattenAll(items, start)
        invariant |items| + start <= next == start + |EncodeAll(items)|
        invariant ParseItems(text, start) == Prepend(items, ParseItems(text, next))
        decreases |text| - next
      {
        var here := next;
        ghost var rows := FlattenAll(items, start);
        ghost var announced := mine.(length := |items| + 1);
        assert Rows()[|base|] == mine.(length := |items|);
        BumpRow(base, mine.(length := |items|), rows);
        ItemsStep(text, start, items, here);
        outcome, next := Parse(text, here);
        if outcome != Ok { return; }
        if next == here { return NeverReturns, next; }
        ghost var t := ParseValue(text, here).value;
        AppendChild(items, t, start);
        assert base + [announced] + rows + Flatten(t, here) == base + [announced] + (rows + Flatten(t, here));
        items := items + [t];
      }
      ItemsEnd(text, next);
      if next == |text| { return Error(UnexpectedCharacter), next; }
      assert items + [] == items;
      outcome := Ok;
    }

    /** The loop of `case 'd'` that looks at the keys. */
    method CheckKeys(me: nat, count: nat, ghost base: seq<Entry>, ghost items: seq<Tree>, ghost at: nat)
      returns (fine: bool)
      requires Valid() && |base| == me + 1 && count == |items| && count % 2 == 0
      requires Rows() == base + FlattenAll(items, at)
      ensures fine == KeysOk(items)
    {
      ghost var rows := FlattenAll(items, at);
      FlattenAllFits(items, at);
      KeyScanAnywhere(items, at);
      ColumnsOfTable(kinds, spans, lengths, base, rows);
      hide KeysOk, KeyScan, FlattenAll, RowsFit, Table, Columns;
      fine := ScanKeys(kinds, lengths, me, count, rows);
    }

    /** bc_dump_value: returns the number of rows of the subtree at `index`, printing each once. */
    method DumpValue(index: nat, ghost t: Tree, ghost at: nat) returns (n: nat, printed: seq<nat>)
      requires Valid() && HasSubtree(Rows(), index, t, at) && WellFormed(t)
      ensures n == |Flatten(t, at)|
      ensures printed == Range(index, index + n)
      decreases t
    {
      hide Table, FlattenAll, EncodeAll, RowOffset, ChildAt, WellFormed, Range;
      RootRow(Rows(), index, t, at);
      var kind := kinds[index];
      var len := lengths[index];
      match kind
      case KindInteger => return 1, [index];
      case KindString => return 1, [index];
      case KindArray =>
        printed := [index];
        var j := index + 1;
        var i := 0;
        while i < len
          invariant 0 <= i <= len && j == index + RowOffset(t.items, at, i)
          invariant index < j && printed == Range(index, j)
        {
          DumpStep(Rows(), index, t, at, i);
          var m, out := DumpValue(j, t.items[i], ChildAt(t.items, at, i));
          printed := printed + out;
          j := j + m;
          i := i + 1;
        }
        n := j - index;
      case KindDictionary =>
        printed := [index];
        var j := index + 1;
        var i := 0;
        while i < len
          invariant 0 <= i <= len && i % 2 == 0 && j == index + RowOffset(t.items, at, i)
          invariant index < j && printed == Range(index, j)
        {
          DumpStep(Rows(), index, t, at, i);
          var m, out := DumpValue(j, t.items[i], ChildAt(t.items, at, i));
          printed := printed + out;
          j := j + m;
          DumpStep(Rows(), index, t, at, i + 1);
          m, out := DumpValue(j, t.items[i + 1], ChildAt(t.items, at, i + 1));
          printed := printed + out;
          j := j + m;
          i := i + 2;
        }
        n := j - index;
    }
  }

  /** What the callers do: a zeroed parser with reserved slots parses a document, and its table is then walked
      from the root. The parent 0 of the root leaves no trace. */
  method ParseAndDump(text: string, reserved: nat) returns (outcome: Outcome, printed: seq<nat>)
    requires reserved > 0 && |text| < TWO_64
    ensures outcome == OutcomeOf(ParseValue(text, 0))
    ensures ParseValue(text, 0).Done? ==> printed == Range(0, |Flatten(ParseValue(text, 0).value, 0)|)
  {
    var parser := new Parser.Zeroed(reserved);
    var next: nat;
    outcome, next := parser.Parse(text, 0);
    printed := [];
    hide ParseValue, Flatten, WellFormed, Range;
    if outcome == Ok && |parser.kinds| > 0 {
      ghost var t := ParseValue(text, 0).value;
      Sound(text, 0);
      assert parser.Rows() == [] + Flatten(t, 0) == Flatten(t, 0);
      assert parser.Rows()[0..0 + |Flatten(t, 0)|] == Flatten(t, 0);
      var n;
      n, printed := parser.DumpValue(0, t, 0);
    }
  }

  /** The indices from `a` up to but not including `b`. */
  function Range(a: nat, b: nat): seq<nat>
    requires a <= b
  {
    seq(b - a, i => a + i)
  }

  lemma RangeJoin(a: nat, b: nat, c: nat)
    requires a <= b <= c
    ensures Range(a, b) + Range(b, c) == Range(a, c)
  {
  }

  lemma RootRow(rows: seq<Entry>, index: nat, t: Tree, at: nat)
    requires HasSubtree(rows, index, t, at) && WellFormed(t)
    ensures index < |rows| && rows[index] == Flatten(t, at)[0]
    ensures t.Int? || t.Str? ==> |Flatten(t, at)| == 1
    ensures Range(index, index + 1) == [index]
    ensures t.List? || t.Dict? ==>
      RowOffset(t.items, at, 0) == 1 && |Flatten(t, at)| == RowOffset(t.items, at, |t.items|)
    ensures t.Dict? ==> |t.items| % 2 == 0
  {
    FlattenFits(t, at);
    assert rows[index] == rows[index..index + |Flatten(t, at)|][0];
    if t.List? || t.Dict? {
      assert t.items[..0] == [] && t.items[..|t.items|] == t.items;
    }
  }

  lemma DumpStep(rows: seq<Entry>, index: nat, t: Tree, at: nat, i: nat)
    requires HasSubtree(rows, index, t, at) && WellFormed(t) && (t.List? || t.Dict?) && i < |t.items|
    ensures var j := index + RowOffset(t.items, at, i);
      var m := |Flatten(t.items[i], ChildAt(t.items, at, i))|;
      && HasSubtree(rows, j, t.items[i], ChildAt(t.items, at, i)) && WellFormed(t.items[i])
      && index + RowOffset(t.items, at, i + 1) == j + m
      && Range(index, j) + Range(j, j + m) == Range(index, j + m)
  {
    SubtreeChild(rows, index, t, at, i);
    RowOffsetStep(t.items, at, i);
    ChildWellFormed(t.items, i);
    var j := index + RowOffset(t.items, at, i);
    RangeJoin(index, j, j + |Flatten(t.items[i], ChildAt(t.items, at, i))|);
    hide Range, FlattenAll, Flatten, Encode, EncodeAll, RowOffset, ChildAt, HasSubtree;
  }

  /** Every row of an accepted document is the root of a subtree, so the walk may start anywhere. */
  lemma RowIsRoot(rows: seq<Entry>, index: nat, t: Tree, at: nat, k: nat) returns (u: Tree, there: nat)
    requires HasSubtree(rows, index, t, at) && WellFormed(t) && k < |Flatten(t, at)|
    ensures HasSubtree(rows, index + k, u, there) && WellFormed(u)
    decreases t
  {
    hide FlattenAll, Flatten, EncodeAll, RowOffset, ChildAt, WellFormed, HasSubtree;
    RootRow(rows, index, t, at);
    if k == 0 { return t, at; }
    var i := 0;
    while RowOffset(t.items, at, i + 1) <= k
      invariant i < |t.items| && RowOffset(t.items, at, i) <= k
      decreases |t.items| - i
    {
      i := i + 1;
    }
    DumpStep(rows, index, t, at, i);
    u, there := RowIsRoot(rows, index + RowOffset(t.items, at, i), t.items[i], ChildAt(t.items, at, i),
                          k - RowOffset(t.items, at, i));
  }
}
