/** What the bencode parser promises: it accepts exactly the encodings of well-formed
    trees, its flat table can be printed back, and when the dictionary key check is right. */
module BencodeTheorems {
  import opened MachineInts
  import opened Arithmetic
  import opened BencodeSpec

  /** Acceptance is decided by the bytes: some well-formed tree is encoded at `pos`. */
  lemma AcceptsExactly(text: string, pos: nat)
    requires pos <= |text|
    ensures ParseValue(text, pos).Done? <==> exists t :: WellFormed(t) && At(text, pos, Encode(t))
  {
    hide WellFormed, Encode, ParseValue;
    if ParseValue(text, pos).Done? {
      Sound(text, pos);
      assert At(text, pos, Encode(ParseValue(text, pos).value));
    }
    if t :| WellFormed(t) && At(text, pos, Encode(t)) {
      Complete(t, text, pos);
    }
  }

  /** No two well-formed documents start with the same bytes. */
  lemma PrefixFree(t: Tree, u: Tree, x: string, y: string)
    requires WellFormed(t) && WellFormed(u)
    requires Encode(t) + x == Encode(u) + y
    ensures t == u && x == y
  {
    hide WellFormed, Encode;
    var text := Encode(t) + x;
    assert text[0..0 + |Encode(t)|] == Encode(t);
    assert text[0..0 + |Encode(u)|] == (Encode(u) + y)[0..|Encode(u)|] == Encode(u);
    Complete(t, text, 0);
    Complete(u, text, 0);
    assert text[|Encode(t)|..] == x && (Encode(u) + y)[|Encode(u)|..] == y;
  }

  /** Without a NUL byte no container loops for ever and no value is skipped; the assertion on a string length
      may still fail. The exact conditions are in module BencodeFailures. */
  lemma {:induction false} NoNulNeverHangs(text: string, pos: nat)
    requires pos <= |text| && '\0' !in text
    ensures !ParseValue(text, pos).Hang?
    ensures pos < |text| ==> !ParseValue(text, pos).Nothing?
    decreases |text| - pos, 0
  {
    if pos < |text| && (text[pos] == 'l' || text[pos] == 'd') { NoNulItemsNeverHang(text, pos + 1); }
  }

  lemma {:induction false} NoNulItemsNeverHang(text: string, pos: nat)
    requires pos <= |text| && '\0' !in text
    ensures !ParseItems(text, pos).Hang?
    decreases |text| - pos, 1
  {
    if pos < |text| && text[pos] != 'e' {
      NoNulNeverHangs(text, pos);
      var v := ParseValue(text, pos);
      if v.Done? { NoNulItemsNeverHang(text, v.next); }
    }
  }

  // ---- printing the flat table back

  datatype Printed = Bad | Good(bytes: string, next: nat)

  /** Decimal digits of `n`. */
  function Decimal(n: nat): string {
    if n < 10 then [('0' as int + n) as char] else Decimal(n / 10) + [('0' as int + n % 10) as char]
  }

  /** Rebuilds the bytes of the subtree at `index` from kinds, spans and lengths alone. */
  function Print(rows: seq<Entry>, text: string, index: nat): (r: Printed)
    ensures r.Good? ==> index < r.next <= |rows|
    decreases |rows| - index, 0
  {
    if index >= |rows| then Bad
    else
      var row := rows[index];
      match row.kind
      case KindInteger =>
        if row.start + row.size > |text| then Bad
        else Good("i" + text[row.start..row.start + row.size] + "e", index + 1)
      case KindString =>
        if row.start + row.size > |text| then Bad
        else Good(Decimal(row.length) + ":" + text[row.start..row.start + row.size], index + 1)
      case KindArray =>
        var r := PrintMany(rows, text, index + 1, row.length);
        if r.Bad? then Bad else Good("l" + r.bytes + "e", r.next)
      case KindDictionary =>
        var r := PrintMany(rows, text, index + 1, row.length);
        if r.Bad? then Bad else Good("d" + r.bytes + "e", r.next)
  }

  function PrintMany(rows: seq<Entry>, text: string, index: nat, count: nat): (r: Printed)
    requires index <= |rows|
    ensures r.Good? ==> index <= r.next <= |rows|
    decreases |rows| - index, 1
  {
    if count == 0 then Good("", index)
    else
      var r := Print(rows, text, index);
      if r.Bad? then Bad
      else
        var rest := PrintMany(rows, text, r.next, count - 1);
        if rest.Bad? then Bad else Good(r.bytes + rest.bytes, rest.next)
  }

  /** The encoding with every length prefix written in decimal from the content's length. */
  function Canonical(t: Tree): string
    decreases t
  {
    match t
    case Int(digits) => "i" + digits + "e"
    case Str(_, content) => Decimal(|content|) + ":" + content
    case List(items) => "l" + CanonicalAll(items) + "e"
    case Dict(items) => "d" + CanonicalAll(items) + "e"
  }

  function CanonicalAll(ts: seq<Tree>): string
    decreases ts
  {
    if ts == [] then "" else Canonical(ts[0]) + CanonicalAll(ts[1..])
  }

  lemma ContentAt(text: string, at: nat, before: string, content: string, after: string)
    requires At(text, at, before + content + after)
    ensures at + |before| + |content| <= |text|
    ensures text[at + |before|..at + |before| + |content|] == content
  {
    var s := before + content + after;
    Slice(text, at, s, |before|, |before| + |content|);
    assert s[|before|..|before| + |content|] == content;
  }

  lemma {:induction false} PrintsSubtree(rows: seq<Entry>, text: string, index: nat, t: Tree, at: nat)
    requires HasSubtree(rows, index, t, at) && At(text, at, Encode(t))
    ensures Print(rows, text, index) == Good(Canonical(t), index + |Flatten(t, at)|)
    decreases t, 0
  {
    FlattenFits(t, at);
    var own := Flatten(t, at);
    assert rows[index] == rows[index..index + |own|][0] == own[0];
    hide HasSubtree, At, FlattenAll, EncodeAll, PrintMany, CanonicalAll, Decimal;
    match t
    case Int(digits) =>
      ContentAt(text, at, "i", digits, "e");
    case Str(prefix, content) =>
      assert Encode(t) == (prefix + ":") + content + "";
      ContentAt(text, at, prefix + ":", content, "");
    case List(items) =>
      SplitContainer("l", items, text, at);
      Children(rows, text, index, t, at);
    case Dict(items) =>
      SplitContainer("d", items, text, at);
      Children(rows, text, index, t, at);
  }

  lemma {:induction false} Children(rows: seq<Entry>, text: string, index: nat, t: Tree, at: nat)
    requires t.List? || t.Dict?
    requires HasSubtree(rows, index, t, at) && At(text, at + 1, EncodeAll(t.items) + "e")
    ensures index + 1 <= |rows|
    ensures PrintMany(rows, text, index + 1, |t.items|) == Good(CanonicalAll(t.items), index + |Flatten(t, at)|)
    decreases t.items, 2
  {
    var own := Flatten(t, at);
    var rest := FlattenAll(t.items, at + 1);
    assert own == [own[0]] + rest + [];
    SubSlice(rows, index, own, [own[0]], rest, []);
    PrintsSubtrees(rows, text, index + 1, t.items, at + 1);
  }

  lemma {:induction false} PrintsSubtrees(rows: seq<Entry>, text: string, index: nat, ts: seq<Tree>, at: nat)
    requires index + |FlattenAll(ts, at)| <= |rows|
    requires rows[index..index + |FlattenAll(ts, at)|] == FlattenAll(ts, at)
    requires At(text, at, EncodeAll(ts) + "e")
    ensures PrintMany(rows, text, index, |ts|) == Good(CanonicalAll(ts), index + |FlattenAll(ts, at)|)
    decreases ts, 1
  {
    hide Flatten, FlattenAll, Print, Encode, EncodeAll, Canonical, HasSubtree;
    if ts != [] {
      FirstSubtree(rows, index, ts, at);
      SplitFirst(ts, text, at);
      PrintsSubtree(rows, text, index, ts[0], at);
      PrintsSubtrees(rows, text, index + |Flatten(ts[0], at)|, ts[1..], at + |Encode(ts[0])|);
      PrintManyStep(rows, text, index, |ts|);
    } else {
      FlattenNone(at);
    }
  }

  lemma PrintManyStep(rows: seq<Entry>, text: string, index: nat, count: nat)
    requires index <= |rows| && count > 0
    requires Print(rows, text, index).Good?
    requires PrintMany(rows, text, Print(rows, text, index).next, count - 1).Good?
    ensures var first := Print(rows, text, index);
      var rest := PrintMany(rows, text, first.next, count - 1);
      PrintMany(rows, text, index, count) == Good(first.bytes + rest.bytes, rest.next)
  {
  }

  lemma FirstSubtree(rows: seq<Entry>, index: nat, ts: seq<Tree>, at: nat)
    requires ts != [] && index + |FlattenAll(ts, at)| <= |rows|
    requires rows[index..index + |FlattenAll(ts, at)|] == FlattenAll(ts, at)
    ensures var first, others := Flatten(ts[0], at), FlattenAll(ts[1..], at + |Encode(ts[0])|);
      && HasSubtree(rows, index, ts[0], at) && |first| >= 1
      && |FlattenAll(ts, at)| == |first| + |others|
      && rows[index + |first|..index + |first| + |others|] == others
  {
    FlattenFits(ts[0], at);
    var own := FlattenAll(ts, at);
    var first, others := Flatten(ts[0], at), FlattenAll(ts[1..], at + |Encode(ts[0])|);
    hide Flatten, FlattenAll, Encode;
    assert own == [] + first + others && own == first + others + [];
    SubSlice(rows, index, own, [], first, others);
    SubSlice(rows, index, own, first, others, []);
  }

  // ---- length prefixes

  /** The number a prefix denotes, without any width. */
  function Value(digits: string): nat
    requires AllDigits(digits)
  {
    if digits == "" then 0
    else 10 * Value(digits[..|digits| - 1]) + (digits[|digits| - 1] as int - '0' as int)
  }

  lemma {:induction false} PrefixWraps(digits: string)
    requires AllDigits(digits)
    ensures PrefixValue(digits) == Wrap64(Value(digits))
  {
    if digits != "" {
      var init, d := digits[..|digits| - 1], digits[|digits| - 1] as int - '0' as int;
      PrefixWraps(init);
      WrapDigit(Value(init), d);
    }
  }

  lemma WrapDigit(x: nat, d: nat)
    ensures Wrap64(10 * Wrap64(x) + d) == Wrap64(10 * x + d)
  {
    var q, w := x / TWO_64, x % TWO_64;
    var y := 10 * w + d;
    var k, r := y / TWO_64, y % TWO_64;
    assert x == TWO_64 * q + w && y == TWO_64 * k + r;
    assert 10 * x + d == TWO_64 * (10 * q + k) + r;
    Euclid(10 * x + d, TWO_64, 10 * q + k, r);
  }

  /** A decimal number never needs more digits than a numeral of a larger or equal value. */
  lemma {:induction false} DecimalShort(n: nat, digits: string)
    requires PrefixOk(digits) && n <= Value(digits)
    ensures |Decimal(n)| <= |digits|
    ensures Decimal(n) == digits <==> n == Value(digits)
  {
    var init, last := digits[..|digits| - 1], digits[|digits| - 1];
    if |digits| == 1 {
      assert Value(init) == 0;
      assert digits == [last];
    } else {
      assert PrefixOk(init);
      DecimalShort(n / 10, init);
      PositiveValue(init);
      assert digits == init + [last];
    }
  }

  lemma {:induction false} PositiveValue(digits: string)
    requires PrefixOk(digits)
    ensures Value(digits) > 0
  {
    if |digits| > 1 { PositiveValue(digits[..|digits| - 1]); }
  }

  /** Every length prefix in the document is below 2^64. */
  ghost predicate PrefixesFit(t: Tree)
    requires WellFormed(t)
    decreases t
  {
    match t
    case Int(_) => true
    case Str(prefix, _) => Value(prefix) < TWO_64
    case List(items) => AllPrefixesFit(items)
    case Dict(items) => AllPrefixesFit(items)
  }

  ghost predicate AllPrefixesFit(ts: seq<Tree>)
    requires AllWellFormed(ts)
    decreases ts
  {
    ts == [] || (PrefixesFit(ts[0]) && AllPrefixesFit(ts[1..]))
  }

  lemma {:induction false} CanonicalIff(t: Tree)
    requires WellFormed(t)
    ensures |Canonical(t)| <= |Encode(t)|
    ensures Canonical(t) == Encode(t) <==> PrefixesFit(t)
    decreases t, 0
  {
    match t
    case Int(_) =>
    case Str(prefix, content) =>
      PrefixWraps(prefix);
      DecimalShort(|content|, prefix);
      WrapId(Value(prefix));
      SamePrefix(Decimal(|content|), prefix, content);
    case List(items) =>
      CanonicalAllIff(items);
      Brackets("l", CanonicalAll(items), EncodeAll(items));
    case Dict(items) =>
      CanonicalAllIff(items);
      Brackets("d", CanonicalAll(items), EncodeAll(items));
  }

  lemma SamePrefix(a: string, b: string, content: string)
    requires |a| <= |b|
    ensures a + ":" + content == b + ":" + content <==> a == b
  {
    if a + ":" + content == b + ":" + content {
      assert |a| == |b|;
      assert (a + ":" + content)[..|a|] == a && (b + ":" + content)[..|b|] == b;
    }
  }

  lemma Brackets(open: string, x: string, y: string)
    ensures open + x + "e" == open + y + "e" <==> x == y
  {
    if open + x + "e" == open + y + "e" {
      var s := open + x + "e";
      assert |x| == |y|;
      assert x == s[|open|..|open| + |x|];
      assert y == (open + y + "e")[|open|..|open| + |y|];
    }
  }

  lemma {:induction false} CanonicalAllIff(ts: seq<Tree>)
    requires AllWellFormed(ts)
    ensures |CanonicalAll(ts)| <= |EncodeAll(ts)|
    ensures CanonicalAll(ts) == EncodeAll(ts) <==> AllPrefixesFit(ts)
    decreases ts, 0
  {
    if ts != [] {
      CanonicalIff(ts[0]);
      CanonicalAllIff(ts[1..]);
      var a, b, c, d := Canonical(ts[0]), CanonicalAll(ts[1..]), Encode(ts[0]), EncodeAll(ts[1..]);
      if a + b == c + d {
        assert |a| == |c|;
        assert (a + b)[..|a|] == a && (c + d)[..|c|] == c;
        assert (a + b)[|a|..] == b && (c + d)[|c|..] == d;
      }
    }
  }

  /** Whenever the parser accepts, its flat table alone prints a document, and that document is
      exactly the bytes consumed if and only if no length prefix overflows 64 bits. */
  lemma PrintsBack(text: string, pos: nat)
    requires pos <= |text| && ParseValue(text, pos).Done?
    ensures var r := ParseValue(text, pos);
      && WellFormed(r.value)
      && var p := Print(Flatten(r.value, pos), text, 0);
      && p == Good(Canonical(r.value), |Flatten(r.value, pos)|)
      && (p.bytes == text[pos..r.next] <==> PrefixesFit(r.value))
  {
    hide ParseValue, Canonical, PrefixesFit, Print, Encode, WellFormed, Flatten;
    Sound(text, pos);
    var t := ParseValue(text, pos).value;
    var rows := Flatten(t, pos);
    assert rows[0..0 + |rows|] == rows;
    PrintsSubtree(rows, text, 0, t, pos);
    CanonicalIff(t);
  }

  // ---- the dictionary key check

  /** What the format asks for: every key is a string. */
  predicate KeysAreStrings(items: seq<Tree>) {
    forall i :: 0 <= i < |items| && i % 2 == 0 ==> items[i].Str?
  }

  predicate Childless(t: Tree) { t.Int? || t.Str? || t.items == [] }

  lemma FirstRows(items: seq<Tree>)
    requires |items| >= 2
    ensures var rows := FlattenAll(items, 0);
      && |rows| >= |items|
      && (rows[0].kind == KindString <==> items[0].Str?)
      && (items[0].Str? ==>
            (IsContainer(rows[1]) <==> items[1].List? || items[1].Dict?)
            && (IsContainer(rows[1]) ==> rows[1].length == |items[1].items|))
  {
    FlattenAllFits(items, 0);
    var n := |Encode(items[0])|;
    assert items[1..][0] == items[1];
    FlattenFits(items[0], 0);
    FlattenFits(items[1], n);
  }

  /** The walk never moves past the first pair when the first value has no children, and never
      looks at a second pair when there is none: then only the first key is checked. */
  lemma {:induction false} OnlyFirstKeyChecked(items: seq<Tree>)
    requires |items| % 2 == 0 && |items| >= 2
    requires |items| == 2 || Childless(items[1])
    ensures KeysOk(items) <==> items[0].Str?
  {
    FlattenAllFits(items, 0);
    FirstRows(items);
    hide Flatten, FlattenAll, Encode;
    if items[0].Str? { StaysPut(FlattenAll(items, 0), |items|); }
  }

  lemma {:induction false} StaysPut(rows: seq<Entry>, remaining: nat)
    requires RowsFit(rows) && remaining % 2 == 0 && |rows| >= 2
    requires rows[0].kind == KindString
    requires remaining <= 2 || (IsContainer(rows[1]) ==> rows[1].length == 0)
    ensures KeyScan(rows, 0, remaining)
    decreases remaining
  {
    if remaining > 2 { StaysPut(rows, remaining - 2); }
  }

  /** A first value with exactly one child makes the parser reject every longer dictionary. */
  lemma OneChildRejected(items: seq<Tree>)
    requires |items| % 2 == 0 && |items| >= 4
    requires items[0].Str? && (items[1].List? || items[1].Dict?) && |items[1].items| == 1
    ensures !KeysOk(items)
  {
    FlattenAllFits(items, 0);
    FirstRows(items);
    hide Flatten, FlattenAll, Encode;
    var rows := FlattenAll(items, 0);
    assert !KeyScan(rows, 1, |items| - 2);
  }

  /** The check differs from the format in both directions: `d1:ali1ee1:bi2ee` is rejected,
      `d1:ai1ei2ei3ee` is accepted. */
  lemma KeyCheckDiffers()
    ensures var good := [Str("1", "a"), List([Int("1")]), Str("1", "b"), Int("2")];
      KeysAreStrings(good) && !KeysOk(good)
    ensures var bad := [Str("1", "a"), Int("1"), Int("2"), Int("3")];
      !KeysAreStrings(bad) && KeysOk(bad)
  {
    var good := [Str("1", "a"), List([Int("1")]), Str("1", "b"), Int("2")];
    OneChildRejected(good);
    var bad := [Str("1", "a"), Int("1"), Int("2"), Int("3")];
    OnlyFirstKeyChecked(bad);
    assert !bad[2].Str?;
  }

  // ---- standard documents are accepted

  predicate CanonicalInt(digits: string) {
    IntOk(digits) && (|digits| >= 2 && digits[0] == '-' ==> digits[1] != '0')
  }

  /** Values of the format with non-empty strings, string keys, and dictionaries that have at most
      one pair or a first value without children. */
  predicate Standard(t: Tree)
    decreases t
  {
    match t
    case Int(digits) => CanonicalInt(digits)
    case Str(prefix, content) => 0 < |content| < TWO_64 && prefix == Decimal(|content|)
    case List(items) => AllStandard(items)
    case Dict(items) =>
      && AllStandard(items) && |items| % 2 == 0 && KeysAreStrings(items)
      && (|items| <= 2 || Childless(items[1]))
  }

  predicate AllStandard(ts: seq<Tree>)
    decreases ts
  {
    ts == [] || (Standard(ts[0]) && AllStandard(ts[1..]))
  }

  lemma {:induction false} DecimalIsPrefix(n: nat)
    ensures AllDigits(Decimal(n)) && |Decimal(n)| >= 1 && Value(Decimal(n)) == n
    ensures n > 0 ==> PrefixOk(Decimal(n))
  {
    if n < 10 {
      assert Decimal(n)[..0] == "";
    } else {
      DecimalIsPrefix(n / 10);
      assert Decimal(n)[..|Decimal(n)| - 1] == Decimal(n / 10);
    }
  }

  lemma {:induction false} StandardIsWellFormed(t: Tree)
    requires Standard(t)
    ensures WellFormed(t)
    decreases t, 0
  {
    match t
    case Int(_) =>
    case Str(prefix, content) =>
      DecimalIsPrefix(|content|);
      PrefixWraps(prefix);
    case List(items) => AllStandardIsWellFormed(items);
    case Dict(items) =>
      AllStandardIsWellFormed(items);
      if |items| == 0 { assert KeysOk(items); } else { OnlyFirstKeyChecked(items); }
  }

  lemma {:induction false} AllStandardIsWellFormed(ts: seq<Tree>)
    requires AllStandard(ts)
    ensures AllWellFormed(ts)
    decreases ts, 0
  {
    if ts != [] {
      StandardIsWellFormed(ts[0]);
      AllStandardIsWellFormed(ts[1..]);
    }
  }

  /** Encoding a standard value and parsing it gives the value back and leaves the rest. */
  lemma RoundTrip(t: Tree, rest: string)
    requires Standard(t)
    ensures ParseValue(Encode(t) + rest, 0) == Done(t, |Encode(t)|)
  {
    hide Standard, Encode, WellFormed, ParseValue;
    StandardIsWellFormed(t);
    var text := Encode(t) + rest;
    assert text[0..0 + |Encode(t)|] == Encode(t);
    Complete(t, text, 0);
  }
}
