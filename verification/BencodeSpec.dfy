/** The documents torrent/bencode.h accepts, as trees: their bytes, their flat
    pre-order table, and the recursive-descent reading of the parser. */
module BencodeSpec {
  import opened MachineInts

  datatype Kind = KindInteger | KindString | KindArray | KindDictionary

  /** One row of the three parallel arrays: a kind, a span of the input, a length. */
  datatype Entry = Entry(kind: Kind, start: nat, size: nat, length: nat)

  /** `List` and `Dict` hold their direct children; a dictionary alternates keys and values. */
  datatype Tree =
    | Int(digits: string)
    | Str(prefix: string, content: string)
    | List(items: seq<Tree>)
    | Dict(items: seq<Tree>)

  predicate IsDigit(c: char) { '0' <= c <= '9' }

  predicate AllDigits(s: string) { forall i :: 0 <= i < |s| ==> IsDigit(s[i]) }

  // ---- bytes

  function Encode(t: Tree): string
    decreases t
  {
    match t
    case Int(digits) => "i" + digits + "e"
    case Str(prefix, content) => prefix + ":" + content
    case List(items) => "l" + EncodeAll(items) + "e"
    case Dict(items) => "d" + EncodeAll(items) + "e"
  }

  function EncodeAll(ts: seq<Tree>): string
    decreases ts
  {
    if ts == [] then "" else Encode(ts[0]) + EncodeAll(ts[1..])
  }

  // ---- the flat table, for a tree whose first byte is at `at`

  function Flatten(t: Tree, at: nat): seq<Entry>
    decreases t
  {
    match t
    case Int(digits) => [Entry(KindInteger, at + 1, |digits|, |digits|)]
    case Str(prefix, content) => [Entry(KindString, at + |prefix| + 1, |content|, |content|)]
    case List(items) => [Entry(KindArray, 0, 0, |items|)] + FlattenAll(items, at + 1)
    case Dict(items) => [Entry(KindDictionary, at, |Encode(t)|, |items|)] + FlattenAll(items, at + 1)
  }

  function FlattenAll(ts: seq<Tree>, at: nat): seq<Entry>
    decreases ts
  {
    if ts == [] then [] else Flatten(ts[0], at) + FlattenAll(ts[1..], at + |Encode(ts[0])|)
  }

  // ---- what the parser demands of the parts

  /** The checks on the bytes between `i` and `e`. */
  predicate IntOk(digits: string) {
    && |digits| >= 1
    && digits != "-" && digits != "-0"
    && (IsDigit(digits[0]) || digits[0] == '-')
    && AllDigits(digits[1..])
    && !(|digits| > 1 && digits[0] == '0')
  }

  /** The length prefix read in 64-bit arithmetic. */
  function PrefixValue(digits: string): uint64 {
    if digits == "" then 0
    else
      var d := digits[|digits| - 1];
      if IsDigit(d) then Wrap64(10 * PrefixValue(digits[..|digits| - 1]) + (d as int - '0' as int)) else 0
  }

  predicate PrefixOk(prefix: string) {
    && |prefix| >= 1
    && '1' <= prefix[0] <= '9'
    && AllDigits(prefix)
  }

  predicate IsContainer(e: Entry) { e.kind == KindArray || e.kind == KindDictionary }

  /** A container row is followed by at least as many rows as it has children. */
  predicate RowsFit(rows: seq<Entry>) {
    forall k :: 0 <= k < |rows| && IsContainer(rows[k]) ==> k + rows[k].length < |rows|
  }

  /** The walk that checks dictionary keys: `j` moves over containers only, never over the pair. */
  predicate KeyScan(rows: seq<Entry>, j: nat, remaining: nat)
    requires RowsFit(rows) && remaining % 2 == 0 && (remaining > 0 ==> j + 1 < |rows|)
    decreases remaining
  {
    if remaining == 0 then true
    else if rows[j].kind != KindString then false
    else KeyScan(rows, if IsContainer(rows[j + 1]) then j + rows[j + 1].length else j, remaining - 2)
  }

  lemma KeyScanStep(rows: seq<Entry>, j: nat, remaining: nat)
    requires RowsFit(rows) && remaining % 2 == 0 && remaining > 0 && j + 1 < |rows|
    ensures rows[j].kind != KindString ==> !KeyScan(rows, j, remaining)
    ensures var next := if IsContainer(rows[j + 1]) then j + rows[j + 1].length else j;
      && next + 1 < |rows|
      && (rows[j].kind == KindString ==> KeyScan(rows, j, remaining) == KeyScan(rows, next, remaining - 2))
  {
  }

  lemma KeyScanEnd(rows: seq<Entry>, j: nat) requires RowsFit(rows) ensures KeyScan(rows, j, 0) {}

  predicate KeysOk(items: seq<Tree>)
    requires |items| % 2 == 0
  {
    FlattenAllFits(items, 0);
    KeyScan(FlattenAll(items, 0), 0, |items|)
  }

  /** The trees the parser can produce. */
  predicate WellFormed(t: Tree)
    decreases t
  {
    match t
    case Int(digits) => IntOk(digits)
    case Str(prefix, content) => PrefixOk(prefix) && |content| > 0 && PrefixValue(prefix) == |content|
    case List(items) => AllWellFormed(items)
    case Dict(items) => AllWellFormed(items) && |items| % 2 == 0 && KeysOk(items)
  }

  predicate AllWellFormed(ts: seq<Tree>)
    decreases ts
  {
    ts == [] || (WellFormed(ts[0]) && AllWellFormed(ts[1..]))
  }

  lemma {:induction false} FlattenFits(t: Tree, at: nat)
    ensures |Flatten(t, at)| >= 1 && RowsFit(Flatten(t, at))
    decreases t, 0
  {
    match t
    case Int(_) =>
    case Str(_, _) =>
    case List(items) => FlattenAllFits(items, at + 1);
    case Dict(items) => FlattenAllFits(items, at + 1);
  }

  lemma {:induction false} FlattenAllFits(ts: seq<Tree>, at: nat)
    ensures |FlattenAll(ts, at)| >= |ts| && RowsFit(FlattenAll(ts, at))
    decreases ts, 0
  {
    if ts != [] {
      FlattenFits(ts[0], at);
      FlattenAllFits(ts[1..], at + |Encode(ts[0])|);
    }
  }

  // ---- the reading of the parser

  datatype ParseError = UnexpectedCharacter | InvalidNumber | InvalidString | InvalidDict

  /** `Nothing`: success without an entry, at the end of the input or at a NUL byte.
      `Hang`: a container loop that never leaves a NUL byte.
      `Trap`: the assertion on a positive string length. */
  datatype Parsed<T> = Done(value: T, next: nat) | Nothing | Fail(error: ParseError) | Hang | Trap

  /** First index of `c` at or after `from`, or the length of the text. */
  function Find(text: string, from: nat, c: char): (k: nat)
    requires from <= |text|
    ensures from <= k <= |text|
    ensures forall i :: from <= i < k ==> text[i] != c
    ensures k < |text| ==> text[k] == c
    decreases |text| - from
  {
    if from == |text| || text[from] == c then from else Find(text, from + 1, c)
  }

  function ParseInt(text: string, pos: nat): Parsed<Tree>
    requires pos < |text|
  {
    var e := Find(text, pos, 'e');
    if e == |text| || e == pos then Fail(InvalidNumber)
    else if !IntOk(text[pos + 1..e]) then Fail(InvalidNumber)
    else Done(Int(text[pos + 1..e]), e + 1)
  }

  function ParseStr(text: string, pos: nat): Parsed<Tree>
    requires pos < |text|
  {
    var colon := Find(text, pos, ':');
    if colon == |text| then Fail(InvalidString)
    else if !AllDigits(text[pos..colon]) then Fail(InvalidString)
    else
      var len := PrefixValue(text[pos..colon]);
      if len == 0 then Trap
      else if |text| - (colon + 1) < len then Fail(InvalidString)
      else Done(Str(text[pos..colon], text[colon + 1..colon + 1 + len]), colon + 1 + len)
  }

  function ParseValue(text: string, pos: nat): (r: Parsed<Tree>)
    requires pos <= |text|
    ensures r.Done? ==> pos + 2 <= r.next <= |text|
    decreases |text| - pos, 0
  {
    if pos == |text| then Nothing
    else if text[pos] == 'i' then ParseInt(text, pos)
    else if '1' <= text[pos] <= '9' then ParseStr(text, pos)
    else if text[pos] == 'l' then
      (match ParseItems(text, pos + 1)
       case Done(items, next) => Done(List(items), next + 1)
       case Fail(e) => Fail(e)
       case Nothing => Nothing
       case Hang => Hang
       case Trap => Trap)
    else if text[pos] == 'd' then
      (match ParseItems(text, pos + 1)
       case Done(items, next) =>
         if |items| % 2 != 0 || !KeysOk(items) then Fail(InvalidDict) else Done(Dict(items), next + 1)
       case Fail(e) => Fail(e)
       case Nothing => Nothing
       case Hang => Hang
       case Trap => Trap)
    else if text[pos] == '\0' then Nothing
    else Fail(UnexpectedCharacter)
  }

  /** The loop of a container: values up to the closing `e`, which is not consumed. */
  function ParseItems(text: string, pos: nat): (r: Parsed<seq<Tree>>)
    requires pos <= |text|
    ensures r.Done? ==> pos <= r.next < |text| && text[r.next] == 'e'
    ensures !r.Nothing?
    decreases |text| - pos, 1
  {
    if pos == |text| then Fail(UnexpectedCharacter)
    else if text[pos] == 'e' then Done([], pos)
    else
      match ParseValue(text, pos)
      case Done(t, next) => Prepend([t], ParseItems(text, next))
      case Nothing => Hang
      case Fail(e) => Fail(e)
      case Hang => Hang
      case Trap => Trap
  }

  function Prepend(ts: seq<Tree>, r: Parsed<seq<Tree>>): Parsed<seq<Tree>> {
    if r.Done? then Done(ts + r.value, r.next) else r
  }

  // ---- the parser accepts exactly the encodings of well-formed trees

  lemma {:induction false} Sound(text: string, pos: nat)
    requires pos <= |text|
    ensures var r := ParseValue(text, pos);
      r.Done? ==> WellFormed(r.value) && text[pos..r.next] == Encode(r.value)
    decreases |text| - pos, 0
  {
    if pos < |text| {
      if text[pos] == 'i' {
        SoundInt(text, pos);
      } else if '1' <= text[pos] <= '9' {
        SoundStr(text, pos);
      } else if text[pos] == 'l' || text[pos] == 'd' {
        SoundItems(text, pos + 1);
        var r := ParseItems(text, pos + 1);
        if r.Done? {
          Bracketed(text, pos, r.next);
        }
      }
    }
  }

  lemma Bracketed(text: string, pos: nat, end: nat)
    requires pos < end < |text|
    ensures text[pos..end + 1] == [text[pos]] + text[pos + 1..end] + [text[end]]
  {
  }

  lemma SoundInt(text: string, pos: nat)
    requires pos < |text| && text[pos] == 'i'
    ensures var r := ParseInt(text, pos);
      r.Done? ==> WellFormed(r.value) && text[pos..r.next] == Encode(r.value)
  {
    var e := Find(text, pos, 'e');
    if pos < e < |text| { Bracketed(text, pos, e); }
  }

  lemma StrBytes(text: string, pos: nat, colon: nat, next: nat)
    requires pos <= colon < next <= |text| && text[colon] == ':'
    ensures text[pos..next] == text[pos..colon] + ":" + text[colon + 1..next]
  {
  }

  lemma SoundStr(text: string, pos: nat)
    requires pos < |text| && '1' <= text[pos] <= '9'
    ensures var r := ParseStr(text, pos);
      r.Done? ==> WellFormed(r.value) && text[pos..r.next] == Encode(r.value)
  {
    hide Find, PrefixValue, AllDigits;
    var r := ParseStr(text, pos);
    if r.Done? {
      var colon := Find(text, pos, ':');
      assert text[pos..colon][0] == text[pos];
      StrBytes(text, pos, colon, r.next);
    }
  }

  lemma {:induction false} SoundItems(text: string, pos: nat)
    requires pos <= |text|
    ensures var r := ParseItems(text, pos);
      r.Done? ==> AllWellFormed(r.value) && text[pos..r.next] == EncodeAll(r.value)
    decreases |text| - pos, 1
  {
    if pos < |text| && text[pos] != 'e' {
      var v := ParseValue(text, pos);
      if v.Done? {
        Sound(text, pos);
        SoundItems(text, v.next);
        var r := ParseItems(text, v.next);
        if r.Done? {
          var ts := [v.value] + r.value;
          assert ts[1..] == r.value;
          assert text[pos..r.next] == text[pos..v.next] + text[v.next..r.next];
        }
      }
    }
  }

  /** `text` has `s` at `pos`. */
  predicate At(text: string, pos: nat, s: string) {
    pos + |s| <= |text| && text[pos..pos + |s|] == s
  }

  lemma {:induction false} Complete(t: Tree, text: string, pos: nat)
    requires WellFormed(t) && At(text, pos, Encode(t))
    ensures ParseValue(text, pos) == Done(t, pos + |Encode(t)|)
    ensures text[pos] != 'e'
    decreases t, 0
  {
    var s := Encode(t);
    assert text[pos..pos + |s|] == s;
    match t
    case Int(digits) => CompleteInt(digits, text, pos);
    case Str(prefix, content) => CompleteStr(prefix, content, text, pos);
    case List(items) =>
      SplitContainer("l", items, text, pos);
      CompleteItems(items, text, pos + 1);
    case Dict(items) =>
      SplitContainer("d", items, text, pos);
      CompleteItems(items, text, pos + 1);
  }

  lemma SplitContainer(open: string, items: seq<Tree>, text: string, pos: nat)
    requires |open| == 1 && At(text, pos, open + EncodeAll(items) + "e")
    ensures text[pos] == open[0] && At(text, pos + 1, EncodeAll(items) + "e")
  {
    hide EncodeAll;
    var s := open + EncodeAll(items) + "e";
    assert text[pos..pos + |s|][0] == open[0];
    assert text[pos + 1..pos + |s|] == text[pos..pos + |s|][1..] == EncodeAll(items) + "e";
  }

  lemma FindIs(text: string, from: nat, c: char, k: nat)
    requires from <= k < |text| && text[k] == c
    requires forall i :: from <= i < k ==> text[i] != c
    ensures Find(text, from, c) == k
  {
    var f := Find(text, from, c);
  }

  lemma Slice(text: string, pos: nat, s: string, i: nat, j: nat)
    requires At(text, pos, s) && i <= j <= |s|
    ensures pos + j <= |text| && text[pos + i..pos + j] == s[i..j]
  {
    var t := text[pos..pos + |s|];
    forall k | 0 <= k < j - i ensures text[pos + i..pos + j][k] == s[i..j][k] {
      assert text[pos + i..pos + j][k] == text[pos + (i + k)] == t[i + k];
    }
  }

  /** A first field `a` without `c`, then `c`: where the search stops. */
  lemma FindAfter(text: string, pos: nat, a: string, c: char, rest: string)
    requires At(text, pos, a + [c] + rest) && c !in a
    ensures Find(text, pos, c) == pos + |a|
    ensures text[pos..pos + |a|] == a
    ensures At(text, pos + |a| + 1, rest)
  {
    var s := a + [c] + rest;
    Slice(text, pos, s, 0, |a|);
    Slice(text, pos, s, |a|, |a| + 1);
    Slice(text, pos, s, |a| + 1, |s|);
    assert s[..|a|] == a && s[|a|..|a| + 1] == [c] && s[|a| + 1..] == rest;
    assert text[pos + |a|] == text[pos + |a|..pos + |a| + 1][0];
    forall k | pos <= k < pos + |a| ensures text[k] != c {
      assert text[k] == text[pos..pos + |a|][k - pos];
    }
    FindIs(text, pos, c, pos + |a|);
  }

  lemma CompleteInt(digits: string, text: string, pos: nat)
    requires IntOk(digits) && At(text, pos, Encode(Int(digits)))
    ensures ParseValue(text, pos) == Done(Int(digits), pos + |Encode(Int(digits))|)
    ensures text[pos] == 'i'
  {
    var a := "i" + digits;
    assert a + ['e'] + "" == Encode(Int(digits));
    assert 'e' !in a;
    FindAfter(text, pos, a, 'e', "");
    hide IntOk, Find;
    var e := pos + |a|;
    assert text[pos..e][0] == text[pos];
    assert text[pos + 1..e] == text[pos..e][1..] == digits;
  }

  lemma CompleteStr(prefix: string, content: string, text: string, pos: nat)
    requires WellFormed(Str(prefix, content)) && At(text, pos, Encode(Str(prefix, content)))
    ensures ParseValue(text, pos) == Done(Str(prefix, content), pos + |Encode(Str(prefix, content))|)
    ensures IsDigit(text[pos])
  {
    hide ParseValue, PrefixValue, Find;
    assert ':' !in prefix;
    FindAfter(text, pos, prefix, ':', content);
    assert text[pos..pos + |prefix|][0] == text[pos];
    var colon := pos + |prefix|;
    assert Encode(Str(prefix, content)) == prefix + ":" + content;
    StrIs(text, pos, colon, prefix, content);
    hide *;
  }

  lemma StrIs(text: string, pos: nat, colon: nat, prefix: string, content: string)
    requires pos < colon < |text| && Find(text, pos, ':') == colon && text[pos..colon] == prefix
    requires PrefixOk(prefix) && prefix[0] == text[pos] && PrefixValue(prefix) == |content| > 0
    requires At(text, colon + 1, content)
    ensures ParseValue(text, pos) == Done(Str(prefix, content), colon + 1 + |content|) && IsDigit(text[pos])
  {
    hide Find, PrefixValue, AllDigits, ParseItems;
  }

  lemma EncodeAllCons(ts: seq<Tree>)
    requires ts != []
    ensures EncodeAll(ts) == Encode(ts[0]) + EncodeAll(ts[1..])
  {
  }

  lemma SplitFirst(ts: seq<Tree>, text: string, pos: nat)
    requires ts != [] && At(text, pos, EncodeAll(ts) + "e")
    ensures At(text, pos, Encode(ts[0]))
    ensures At(text, pos + |Encode(ts[0])|, EncodeAll(ts[1..]) + "e")
  {
    EncodeAllCons(ts);
    hide Encode, EncodeAll, At;
    var head, rest := Encode(ts[0]), EncodeAll(ts[1..]);
    assert (head + rest) + "e" == head + (rest + "e");
    AtSplit(text, pos, head, rest + "e");
  }

  lemma AtSplit(text: string, pos: nat, head: string, tail: string)
    requires At(text, pos, head + tail)
    ensures At(text, pos, head) && At(text, pos + |head|, tail)
  {
    var s := head + tail;
    Slice(text, pos, s, 0, |head|);
    Slice(text, pos, s, |head|, |s|);
    assert s[..|head|] == head && s[|head|..] == tail;
  }

  lemma {:induction false} CompleteItems(ts: seq<Tree>, text: string, pos: nat)
    requires AllWellFormed(ts) && At(text, pos, EncodeAll(ts) + "e")
    ensures ParseItems(text, pos) == Done(ts, pos + |EncodeAll(ts)|)
    decreases ts, 1
  {
    if ts == [] {
      assert text[pos..pos + 1][0] == 'e';
    } else {
      SplitFirst(ts, text, pos);
      Complete(ts[0], text, pos);
      CompleteItems(ts[1..], text, pos + |Encode(ts[0])|);
      EncodeAllCons(ts);
      assert ts == [ts[0]] + ts[1..];
    }
    hide ParseValue, At, Encode, WellFormed;
  }

  // ---- the key walk does not depend on where the dictionary starts

  ghost predicate SameShape(xs: seq<Entry>, ys: seq<Entry>) {
    |xs| == |ys| && forall k :: 0 <= k < |xs| ==> xs[k].kind == ys[k].kind && xs[k].length == ys[k].length
  }

  lemma {:induction false} FlattenShape(t: Tree, a: nat, b: nat)
    ensures SameShape(Flatten(t, a), Flatten(t, b))
    decreases t, 0
  {
    match t
    case Int(_) =>
    case Str(_, _) =>
    case List(items) => FlattenAllShape(items, a + 1, b + 1);
    case Dict(items) => FlattenAllShape(items, a + 1, b + 1);
  }

  lemma {:induction false} FlattenAllShape(ts: seq<Tree>, a: nat, b: nat)
    ensures SameShape(FlattenAll(ts, a), FlattenAll(ts, b))
    decreases ts, 0
  {
    hide Flatten, Encode;
    if ts != [] {
      FlattenShape(ts[0], a, b);
      FlattenAllShape(ts[1..], a + |Encode(ts[0])|, b + |Encode(ts[0])|);
    }
  }

  lemma {:induction false} KeyScanShape(xs: seq<Entry>, ys: seq<Entry>, j: nat, remaining: nat)
    requires SameShape(xs, ys) && RowsFit(xs) && RowsFit(ys)
    requires remaining % 2 == 0 && (remaining > 0 ==> j + 1 < |xs|)
    ensures KeyScan(xs, j, remaining) == KeyScan(ys, j, remaining)
    decreases remaining
  {
    if remaining > 0 && xs[j].kind == KindString {
      KeyScanShape(xs, ys, if IsContainer(xs[j + 1]) then j + xs[j + 1].length else j, remaining - 2);
    }
  }

  lemma KeyScanAnywhere(items: seq<Tree>, at: nat)
    requires |items| % 2 == 0
    ensures |FlattenAll(items, at)| >= |items| && RowsFit(FlattenAll(items, at))
    ensures KeysOk(items) == KeyScan(FlattenAll(items, at), 0, |items|)
  {
    FlattenAllFits(items, at);
    FlattenAllFits(items, 0);
    FlattenAllShape(items, at, 0);
    KeyScanShape(FlattenAll(items, at), FlattenAll(items, 0), 0, |items|);
  }

  // ---- subtrees of the flat table

  /** The rows from `index` on begin with the subtree `t`, whose first byte is at `at`. */
  ghost predicate HasSubtree(rows: seq<Entry>, index: nat, t: Tree, at: nat) {
    var own := Flatten(t, at);
    index + |own| <= |rows| && rows[index..index + |own|] == own
  }

  lemma {:induction false} FlattenConcat(xs: seq<Tree>, ys: seq<Tree>, at: nat)
    ensures EncodeAll(xs + ys) == EncodeAll(xs) + EncodeAll(ys)
    ensures FlattenAll(xs + ys, at) == FlattenAll(xs, at) + FlattenAll(ys, at + |EncodeAll(xs)|)
    decreases |xs|
  {
    hide Encode, Flatten;
    if xs == [] {
      assert xs + ys == ys;
    } else {
      var all, next := xs + ys, at + |Encode(xs[0])|;
      assert all[0] == xs[0] && all[1..] == xs[1..] + ys;
      FlattenConcat(xs[1..], ys, next);
      EncodeAllCons(xs);
      EncodeAllCons(all);
      FlattenAllCons(xs, at);
      FlattenAllCons(all, at);
    }
    hide EncodeAll, FlattenAll;
  }

  lemma FlattenAllCons(ts: seq<Tree>, at: nat)
    requires ts != []
    ensures FlattenAll(ts, at) == Flatten(ts[0], at) + FlattenAll(ts[1..], at + |Encode(ts[0])|)
  {
  }

  /** Where the `i`th child starts in the text. */
  function ChildAt(items: seq<Tree>, at: nat, i: nat): nat
    requires i <= |items|
  {
    at + 1 + |EncodeAll(items[..i])|
  }

  /** How many rows from the row of `t` to the row of its `i`th child. */
  function RowOffset(items: seq<Tree>, at: nat, i: nat): nat
    requires i <= |items|
  {
    1 + |FlattenAll(items[..i], at + 1)|
  }

  lemma FlattenSplit(items: seq<Tree>, at: nat, i: nat)
    requires i < |items|
    ensures FlattenAll(items, at + 1) == FlattenAll(items[..i], at + 1)
      + Flatten(items[i], ChildAt(items, at, i)) +
        FlattenAll(items[i + 1..], ChildAt(items, at, i) + |Encode(items[i])|)
  {
    hide Flatten;
    assert items == items[..i] + items[i..];
    FlattenConcat(items[..i], items[i..], at + 1);
    assert items[i..][0] == items[i] && items[i..][1..] == items[i + 1..];
  }

  lemma SubtreeChild(rows: seq<Entry>, index: nat, t: Tree, at: nat, i: nat)
    requires HasSubtree(rows, index, t, at) && (t.List? || t.Dict?) && i < |t.items|
    ensures HasSubtree(rows, index + RowOffset(t.items, at, i), t.items[i], ChildAt(t.items, at, i))
  {
    hide FlattenAll, Encode, EncodeAll, ChildAt;
    var items, own := t.items, Flatten(t, at);
    assert own == [own[0]] + FlattenAll(items, at + 1);
    hide Flatten;
    FlattenSplit(items, at, i);
    var rest := FlattenAll(items[i + 1..], ChildAt(items, at, i) + |Encode(items[i])|);
    SubSlice(rows, index, own, [own[0]] + FlattenAll(items[..i], at + 1),
      Flatten(items[i], ChildAt(items, at, i)), rest);
  }

  lemma RowOffsetStep(items: seq<Tree>, at: nat, i: nat)
    requires i < |items|
    ensures RowOffset(items, at, i + 1) == RowOffset(items, at, i) + |Flatten(items[i], ChildAt(items, at, i))|
  {
    hide FlattenAll, Flatten, Encode, EncodeAll;
    var first := items[..i + 1];
    assert first[..i] == items[..i] && first[i] == items[i] && first[i + 1..] == [];
    FlattenSplit(first, at, i);
    FlattenNone(ChildAt(first, at, i) + |Encode(first[i])|);
  }

  lemma FlattenNone(at: nat) ensures FlattenAll([], at) == [] {}

  lemma SubSlice(rows: seq<Entry>, index: nat, own: seq<Entry>, a: seq<Entry>, b: seq<Entry>, c: seq<Entry>)
    requires index + |own| <= |rows| && rows[index..index + |own|] == own
    requires own == a + b + c
    ensures rows[index + |a|..index + |a| + |b|] == b
  {
    forall k | 0 <= k < |b| ensures rows[index + |a|..index + |a| + |b|][k] == b[k] {
      assert rows[index + |a|..index + |a| + |b|][k] == rows[index + (|a| + k)] == own[|a| + k];
    }
  }

  lemma {:induction false} ChildWellFormed(ts: seq<Tree>, i: nat)
    requires AllWellFormed(ts) && i < |ts|
    ensures WellFormed(ts[i])
    decreases |ts|
  {
    if i > 0 { ChildWellFormed(ts[1..], i - 1); }
  }
}
