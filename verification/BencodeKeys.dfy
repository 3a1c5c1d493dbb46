/** What the dictionary key check of the bencode parser decides: no key after the first is ever looked at. */
module BencodeKeys {
  import opened MachineInts
  import opened BencodeSpec
  import opened BencodeTheorems

  /** The walk never leaves the rows of the first pair: a container row is followed by more rows than its length. */
  lemma {:induction false} StaysInPair(rows: seq<Entry>, own: seq<Entry>, j: nat, remaining: nat)
    requires RowsFit(rows) && RowsFit(own) && |own| <= |rows| && rows[..|own|] == own
    requires j + 1 < |own| && remaining % 2 == 0
    ensures KeyScan(rows, j, remaining) == KeyScan(own, j, remaining)
    decreases remaining
  {
    assert rows[j] == rows[..|own|][j] == own[j] && rows[j + 1] == rows[..|own|][j + 1] == own[j + 1];
    if remaining > 0 {
      KeyScanStep(rows, j, remaining);
      KeyScanStep(own, j, remaining);
      if rows[j].kind == KindString {
        StaysInPair(rows, own, if IsContainer(rows[j + 1]) then j + rows[j + 1].length else j, remaining - 2);
      }
    }
  }

  /** The walk over the rows of the first pair, with a step for each pair. */
  predicate WalkPasses(items: seq<Tree>)
    requires |items| >= 2 && |items| % 2 == 0
  {
    FlattenAllFits(items[..2], 0);
    KeyScan(FlattenAll(items[..2], 0), 0, |items|)
  }

  /** A dictionary passes the check exactly when the walk over the rows of its first pair passes: the first pair and
      the number of pairs decide, and no other key is ever looked at. */
  lemma FirstPairDecides(items: seq<Tree>)
    requires |items| >= 2 && |items| % 2 == 0
    ensures KeysOk(items) <==> WalkPasses(items)
  {
    var pair, others := items[..2], items[2..];
    FlattenAllFits(items, 0);
    FlattenAllFits(pair, 0);
    assert items == pair + others;
    FlattenConcat(pair, others, 0);
    hide FlattenAll, EncodeAll;
    StaysInPair(FlattenAll(items, 0), FlattenAll(pair, 0), 0, |items|);
  }

  /** Dictionaries of one size with the same first pair fare the same, whatever their other keys are. */
  lemma SameFirstPair(a: seq<Tree>, b: seq<Tree>)
    requires |a| == |b| >= 2 && |a| % 2 == 0 && a[..2] == b[..2]
    ensures KeysOk(a) <==> KeysOk(b)
  {
    FirstPairDecides(a);
    FirstPairDecides(b);
  }

  /** Exactly which dictionaries pass although a key is no string: those whose walk passes and where some key after
      the first is no string. */
  lemma BadKeysAcceptedIff(items: seq<Tree>)
    requires |items| >= 2 && |items| % 2 == 0
    ensures KeysOk(items) && !KeysAreStrings(items) <==>
      WalkPasses(items) && exists i :: 2 <= i < |items| && i % 2 == 0 && !items[i].Str?
  {
    FirstPairDecides(items);
    if WalkPasses(items) { FirstKeyIsString(items); }
    hide KeysOk, WalkPasses;
    if exists i :: 2 <= i < |items| && i % 2 == 0 && !items[i].Str? {
      var i :| 2 <= i < |items| && i % 2 == 0 && !items[i].Str?;
      assert !KeysAreStrings(items);
    }
  }

  lemma FirstKeyIsString(items: seq<Tree>)
    requires |items| >= 2 && |items| % 2 == 0 && WalkPasses(items)
    ensures items[0].Str?
  {
    var pair := items[..2];
    FlattenAllFits(pair, 0);
    FirstRows(pair);
    hide FlattenAll;
  }

  /** Any dictionary that passes stays accepted when its later keys are replaced by anything. */
  lemma LaterKeysAreFree(items: seq<Tree>, i: nat, t: Tree)
    requires |items| % 2 == 0 && 2 <= i < |items|
    ensures KeysOk(items[i := t]) <==> KeysOk(items)
  {
    assert items[i := t][..2] == items[..2];
    SameFirstPair(items[i := t], items);
  }

  /** When the first value has `n` children, two or more, the next row looked at after the first key is row `n`,
      a row inside the first value and never a key of the dictionary. */
  lemma NextLookIsInside(items: seq<Tree>)
    requires |items| >= 4 && |items| % 2 == 0 && items[0].Str?
    requires (items[1].List? || items[1].Dict?) && |items[1].items| >= 2
    ensures var n, rows := |items[1].items|, FlattenAll(items[..2], 0);
      && RowsFit(rows) && 2 <= n && n + 1 < |rows|
      && (KeysOk(items) <==> KeyScan(rows, n, |items| - 2))
      && (|items| == 4 ==> (KeysOk(items) <==> rows[n].kind == KindString))
  {
    var pair, n := items[..2], |items[1].items|;
    FirstPairDecides(items);
    FirstRows(pair);
    FlattenAllFits(pair, 0);
    var rows := FlattenAll(pair, 0);
    hide FlattenAll, KeysOk;
    KeyScanStep(rows, 0, |items|);
    KeyScanStep(rows, n, |items| - 2);
    if |items| == 4 && rows[n].kind == KindString {
      KeyScanEnd(rows, if IsContainer(rows[n + 1]) then n + rows[n + 1].length else n);
    }
  }

  /** With a first value of two children, two pairs pass exactly when the first child is a string. */
  lemma TwoChildren(key: Tree, value: Tree, others: seq<Tree>)
    requires key.Str? && |others| == 2 && (value.List? || value.Dict?) && |value.items| == 2
    ensures KeysOk([key, value] + others) <==> value.items[0].Str?
  {
    var items, x := [key, value] + others, value.items[0];
    NextLookIsInside(items);
    var pair := items[..2];
    assert pair == [key, value] && pair[1..] == [value];
    var n := |Encode(key)|;
    FlattenAllCons(pair, 0);
    FlattenAllCons(pair[1..], n);
    FlattenAllCons(value.items, n + 1);
    FlattenFits(x, n + 1);
    assert Flatten(x, n + 1)[0].kind == KindString <==> x.Str?;
    hide FlattenAll;
  }

  // ---- which values of the format are read back

  /** Values of the format with non-empty strings: numbers and prefixes in decimal, keys that are strings. */
  predicate Format(t: Tree)
    decreases t
  {
    match t
    case Int(digits) => CanonicalInt(digits)
    case Str(prefix, content) => 0 < |content| < TWO_64 && prefix == Decimal(|content|)
    case List(items) => AllFormat(items)
    case Dict(items) => AllFormat(items) && |items| % 2 == 0 && KeysAreStrings(items)
  }

  predicate AllFormat(ts: seq<Tree>)
    decreases ts
  {
    ts == [] || (Format(ts[0]) && AllFormat(ts[1..]))
  }

  /** Every dictionary in the value is empty or passes its walk. */
  predicate WalksPass(t: Tree)
    requires Format(t)
    decreases t
  {
    match t
    case Int(_) => true
    case Str(_, _) => true
    case List(items) => AllWalksPass(items)
    case Dict(items) => AllWalksPass(items) && (items == [] || WalkPasses(items))
  }

  predicate AllWalksPass(ts: seq<Tree>)
    requires AllFormat(ts)
    decreases ts
  {
    ts == [] || (WalksPass(ts[0]) && AllWalksPass(ts[1..]))
  }

  lemma {:induction false} WellFormedIff(t: Tree)
    requires Format(t)
    ensures WellFormed(t) <==> WalksPass(t)
    decreases t, 0
  {
    hide KeysOk, WalkPasses, Decimal, PrefixValue, Value;
    match t
    case Int(_) =>
    case Str(prefix, content) =>
      DecimalIsPrefix(|content|);
      PrefixWraps(prefix);
      WrapId(|content|);
    case List(items) => AllWellFormedIff(items);
    case Dict(items) =>
      AllWellFormedIff(items);
      PassIff(items);
  }

  lemma PassIff(items: seq<Tree>)
    requires |items| % 2 == 0
    ensures KeysOk(items) <==> items == [] || WalkPasses(items)
  {
    if items == [] {
      FlattenAllFits(items, 0);
      KeyScanEnd(FlattenAll(items, 0), 0);
    } else {
      FirstPairDecides(items);
    }
  }

  lemma {:induction false} AllWellFormedIff(ts: seq<Tree>)
    requires AllFormat(ts)
    ensures AllWellFormed(ts) <==> AllWalksPass(ts)
    decreases ts, 0
  {
    if ts != [] {
      WellFormedIff(ts[0]);
      AllWellFormedIff(ts[1..]);
    }
  }

  /** A value of the format is encoded and read back, with the rest of the input left, if and only if all its
      dictionaries pass the key check. */
  lemma RoundTripIff(t: Tree, rest: string)
    requires Format(t)
    ensures ParseValue(Encode(t) + rest, 0) == Done(t, |Encode(t)|) <==> WalksPass(t)
  {
    hide Encode, WellFormed, ParseValue, WalksPass, Format;
    WellFormedIff(t);
    var text := Encode(t) + rest;
    assert text[0..0 + |Encode(t)|] == Encode(t);
    if WellFormed(t) { Complete(t, text, 0); }
    if ParseValue(text, 0) == Done(t, |Encode(t)|) { Sound(text, 0); }
  }
}
