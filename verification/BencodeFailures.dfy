/** When the bencode parser does not return: exactly which inputs make it loop for ever, and exactly
    which make its assertion on a string length fail. */
module BencodeFailures {
  import opened MachineInts
  import opened BencodeSpec
  import opened BencodeTheorems

  /** `NulByte` is the end of the value switch that never advances, `ZeroPrefix` a length prefix that is
      0 in 64-bit arithmetic. */
  datatype Obstacle = NulByte | ZeroPrefix

  ghost predicate IsObstacle(text: string, q: nat, o: Obstacle)
    requires q < |text|
  {
    match o
    case NulByte => text[q] == '\0'
    case ZeroPrefix => '1' <= text[q] <= '9' && exists colon: nat :: HasZeroPrefix(text, q, colon)
  }

  ghost predicate HasZeroPrefix(text: string, q: nat, colon: nat) {
    && q < colon < |text| && text[colon] == ':' && AllDigits(text[q..colon])
    && Value(text[q..colon]) % TWO_64 == 0
  }

  predicate Opens(c: char) { c == 'l' || c == 'd' }

  /** Whole well-formed values stand one after the other from `pos` up to `q`. */
  ghost predicate Reaches(text: string, pos: nat, q: nat) {
    exists ts :: AllWellFormed(ts) && At(text, pos, EncodeAll(ts)) && q == pos + |EncodeAll(ts)|
  }

  /** The items from `pos` on run into the obstacle: behind whole values, or inside a container behind them. */
  ghost predicate RunsInto(text: string, pos: nat, o: Obstacle)
    decreases |text| - pos
  {
    exists q: nat :: pos <= q < |text| && Reaches(text, pos, q) &&
      (IsObstacle(text, q, o) || (Opens(text[q]) && RunsInto(text, q + 1, o)))
  }

  function OutcomeFor(o: Obstacle): Parsed<seq<Tree>> {
    match o
    case NulByte => Hang
    case ZeroPrefix => Trap
  }

  // ---- one value

  lemma StringObstacle(text: string, q: nat)
    requires q < |text| && '1' <= text[q] <= '9'
    ensures ParseStr(text, q).Trap? <==> IsObstacle(text, q, ZeroPrefix)
    ensures !ParseStr(text, q).Hang? && !ParseStr(text, q).Nothing?
  {
    var colon := Find(text, q, ':');
    if colon < |text| && AllDigits(text[q..colon]) {
      PrefixWraps(text[q..colon]);
      if ParseStr(text, q).Trap? { assert HasZeroPrefix(text, q, colon); }
    }
    if IsObstacle(text, q, ZeroPrefix) {
      var c: nat :| HasZeroPrefix(text, q, c);
      DigitsHaveNoColon(text, q, c);
    }
  }

  lemma DigitsHaveNoColon(text: string, q: nat, c: nat)
    requires q < c < |text| && text[c] == ':' && AllDigits(text[q..c])
    ensures Find(text, q, ':') == c
  {
    forall i | q <= i < c ensures text[i] != ':' { assert text[i] == text[q..c][i - q]; }
    FindIs(text, q, ':', c);
  }

  // ---- items

  /** Whole values are parsed and passed. */
  lemma {:induction false} Passes(text: string, pos: nat, ts: seq<Tree>)
    requires AllWellFormed(ts) && At(text, pos, EncodeAll(ts))
    ensures pos + |EncodeAll(ts)| <= |text|
    ensures ParseItems(text, pos) == Prepend(ts, ParseItems(text, pos + |EncodeAll(ts)|))
    decreases |ts|
  {
    hide Encode, WellFormed, ParseValue, ParseItems;
    if ts == [] {
      var r := ParseItems(text, pos);
      if r.Done? { assert [] + r.value == r.value; }
    } else {
      EncodeAllCons(ts);
      var first, others := Encode(ts[0]), EncodeAll(ts[1..]);
      AtSplit(text, pos, first, others);
      Complete(ts[0], text, pos);
      ItemsCons(text, pos, ts[0], pos + |first|);
      Passes(text, pos + |first|, ts[1..]);
      var r := ParseItems(text, pos + |first| + |others|);
      if r.Done? { assert [ts[0]] + (ts[1..] + r.value) == ts + r.value; }
    }
  }

  lemma ItemsCons(text: string, pos: nat, t: Tree, next: nat)
    requires pos < |text| && text[pos] != 'e' && ParseValue(text, pos) == Done(t, next)
    ensures next <= |text| && ParseItems(text, pos) == Prepend([t], ParseItems(text, next))
  {
  }

  lemma ReachesItself(text: string, pos: nat)
    requires pos <= |text|
    ensures Reaches(text, pos, pos)
  {
    var none: seq<Tree> := [];
    assert AllWellFormed(none) && EncodeAll(none) == "" && At(text, pos, EncodeAll(none));
  }

  lemma ReachesAcross(text: string, pos: nat, t: Tree, next: nat, q: nat)
    requires WellFormed(t) && pos <= next <= |text| && text[pos..next] == Encode(t) && Reaches(text, next, q)
    ensures Reaches(text, pos, q)
  {
    hide Encode, WellFormed;
    var ts :| AllWellFormed(ts) && At(text, next, EncodeAll(ts)) && q == next + |EncodeAll(ts)|;
    var all := [t] + ts;
    assert all[0] == t && all[1..] == ts;
    EncodeAllCons(all);
    assert text[pos..q] == text[pos..next] + text[next..q];
    assert AllWellFormed(all) && At(text, pos, EncodeAll(all)) && q == pos + |EncodeAll(all)|;
  }

  /** What stands at an obstacle, or in front of one, decides the outcome. */
  lemma OutcomeAt(text: string, q: nat, o: Obstacle)
    requires q < |text|
    requires IsObstacle(text, q, o) || (Opens(text[q]) && ParseItems(text, q + 1) == OutcomeFor(o))
    ensures ParseItems(text, q) == OutcomeFor(o)
  {
    if '1' <= text[q] <= '9' { StringObstacle(text, q); }
    hide ParseStr, IntOk, KeysOk;
  }

  lemma {:induction false} RunningStops(text: string, pos: nat, o: Obstacle)
    requires RunsInto(text, pos, o)
    ensures pos <= |text| && ParseItems(text, pos) == OutcomeFor(o)
    decreases |text| - pos
  {
    hide ParseItems, Reaches, IsObstacle, OutcomeFor;
    var q: nat :| pos <= q < |text| && Reaches(text, pos, q) &&
      (IsObstacle(text, q, o) || (Opens(text[q]) && RunsInto(text, q + 1, o)));
    if !IsObstacle(text, q, o) { RunningStops(text, q + 1, o); }
    OutcomeAt(text, q, o);
    OutcomeComesBack(text, pos, q, o);
  }

  lemma OutcomeComesBack(text: string, pos: nat, q: nat, o: Obstacle)
    requires pos <= q <= |text| && Reaches(text, pos, q) && ParseItems(text, q) == OutcomeFor(o)
    ensures ParseItems(text, pos) == OutcomeFor(o)
  {
    hide ParseItems, EncodeAll, AllWellFormed, At;
    var ts :| AllWellFormed(ts) && At(text, pos, EncodeAll(ts)) && q == pos + |EncodeAll(ts)|;
    Passes(text, pos, ts);
  }

  lemma {:induction false} StoppingRan(text: string, pos: nat, o: Obstacle)
    requires pos <= |text| && ParseItems(text, pos) == OutcomeFor(o)
    ensures RunsInto(text, pos, o)
    decreases |text| - pos
  {
    var v := ParseValue(text, pos);
    assert pos < |text| && text[pos] != 'e';
    if v.Done? {
      StoppingRan(text, v.next, o);
      Sound(text, pos);
      var q: nat :| v.next <= q < |text| && Reaches(text, v.next, q) &&
        (IsObstacle(text, q, o) || (Opens(text[q]) && RunsInto(text, q + 1, o)));
      ReachesAcross(text, pos, v.value, v.next, q);
    } else {
      ReachesItself(text, pos);
      StoppedHere(text, pos, o);
      if !IsObstacle(text, pos, o) { StoppingRan(text, pos + 1, o); }
    }
  }

  lemma StoppedHere(text: string, pos: nat, o: Obstacle)
    requires pos < |text| && ParseItems(text, pos) == OutcomeFor(o) && !ParseValue(text, pos).Done?
    ensures IsObstacle(text, pos, o) || (Opens(text[pos]) && ParseItems(text, pos + 1) == OutcomeFor(o))
  {
    if '1' <= text[pos] <= '9' { StringObstacle(text, pos); }
    hide ParseStr, IntOk, KeysOk;
  }

  // ---- the conditions

  /** The loop of a container never ends exactly when its items run into a NUL byte at a value position,
      and the assertion fails exactly when they run into a prefix that wraps to 0. */
  lemma ItemsFailExactly(text: string, pos: nat)
    requires pos <= |text|
    ensures ParseItems(text, pos).Hang? <==> RunsInto(text, pos, NulByte)
    ensures ParseItems(text, pos).Trap? <==> RunsInto(text, pos, ZeroPrefix)
  {
    hide ParseItems;
    if ParseItems(text, pos).Hang? { StoppingRan(text, pos, NulByte); }
    if RunsInto(text, pos, NulByte) { RunningStops(text, pos, NulByte); }
    if ParseItems(text, pos).Trap? { StoppingRan(text, pos, ZeroPrefix); }
    if RunsInto(text, pos, ZeroPrefix) { RunningStops(text, pos, ZeroPrefix); }
  }

  lemma ValueFails(text: string, pos: nat)
    requires pos <= |text|
    ensures ParseValue(text, pos).Hang? <==> pos < |text| && Opens(text[pos]) && ParseItems(text, pos + 1).Hang?
    ensures ParseValue(text, pos).Trap? <==>
      pos < |text| && (IsObstacle(text, pos, ZeroPrefix) || (Opens(text[pos]) && ParseItems(text, pos + 1).Trap?))
  {
    if pos < |text| && '1' <= text[pos] <= '9' { StringObstacle(text, pos); }
    hide ParseItems, ParseStr, KeysOk, IntOk, HasZeroPrefix;
  }

  /** The parser never returns exactly when it opens a container whose items run into a NUL byte. */
  lemma HangsExactly(text: string, pos: nat)
    requires pos <= |text|
    ensures ParseValue(text, pos).Hang? <==> pos < |text| && Opens(text[pos]) && RunsInto(text, pos + 1, NulByte)
  {
    if pos < |text| { ItemsFailExactly(text, pos + 1); }
    ValueFails(text, pos);
    hide *;
  }

  /** The assertion on the string length fails exactly when the value is a string whose prefix is 0 modulo
      2^64, or a container whose items run into one. */
  lemma TrapsExactly(text: string, pos: nat)
    requires pos <= |text|
    ensures ParseValue(text, pos).Trap? <==>
      pos < |text| && (IsObstacle(text, pos, ZeroPrefix) || (Opens(text[pos]) && RunsInto(text, pos + 1, ZeroPrefix)))
  {
    if pos < |text| { ItemsFailExactly(text, pos + 1); }
    ValueFails(text, pos);
    hide *;
  }

  // ---- witnesses

  lemma Digit(s: string, c: char, t: string, v: nat)
    requires AllDigits(s) && Value(s) == v && IsDigit(c) && t == s + [c]
    ensures AllDigits(t) && Value(t) == 10 * v + (c as int - '0' as int)
  {
    assert t[..|s|] == s;
  }

  /** The value of a numeral just below 2^64, digit by digit. */
  lemma NineteenDigits()
    ensures AllDigits("1844674407370955161") && Value("1844674407370955161") == 1844674407370955161
  {
    assert Value("") == 0;
    hide Value, AllDigits;
    assert AllDigits("") by { NoDigits(); }
    Digit("", '1', "1", 0);
    Digit("1", '8', "18", 1);
    Digit("18", '4', "184", 18);
    Digit("184", '4', "1844", 184);
    Digit("1844", '6', "18446", 1844);
    Digit("18446", '7', "184467", 18446);
    Digit("184467", '4', "1844674", 184467);
    Digit("1844674", '4', "18446744", 1844674);
    Digit("18446744", '0', "184467440", 18446744);
    Digit("184467440", '7', "1844674407", 184467440);
    Digit("1844674407", '3', "18446744073", 1844674407);
    Digit("18446744073", '7', "184467440737", 18446744073);
    Digit("184467440737", '0', "1844674407370", 184467440737);
    Digit("1844674407370", '9', "18446744073709", 1844674407370);
    Digit("18446744073709", '5', "184467440737095", 18446744073709);
    Digit("184467440737095", '5', "1844674407370955", 184467440737095);
    Digit("1844674407370955", '1', "18446744073709551", 1844674407370955);
    Digit("18446744073709551", '6', "184467440737095516", 18446744073709551);
    Digit("184467440737095516", '1', "1844674407370955161", 184467440737095516);
  }

  lemma NoDigits() ensures AllDigits("") {}

  lemma TwentyDigits()
    ensures AllDigits("18446744073709551616") && Value("18446744073709551616") == TWO_64
    ensures AllDigits("18446744073709551617") && Value("18446744073709551617") == TWO_64 + 1
  {
    NineteenDigits();
    hide Value, AllDigits;
    Digit("1844674407370955161", '6', "18446744073709551616", 1844674407370955161);
    Digit("1844674407370955161", '7', "18446744073709551617", 1844674407370955161);
  }

  /** A list that holds a NUL byte at a value position is never left; a NUL byte inside a string is harmless. */
  lemma NulWitnesses()
    ensures ParseValue("l\0", 0).Hang?
    ensures ParseValue("1:\0", 0) == Done(Str("1", "\0"), 3)
  {
    var list := "l\0";
    assert list[1] == '\0' && ParseItems(list, 1).Hang?;
    var s := "1:\0";
    FindIs(s, 0, ':', 1);
    assert s[0..1] == "1" && s[2..3] == "\0";
    Digit("", '1', "1", 0);
    PrefixWraps("1");
  }

  /** A prefix of 2^64 fails the assertion without any NUL byte. */
  lemma ZeroPrefixWitness()
    ensures var text := "18446744073709551616:a"; ParseValue(text, 0).Trap? && '\0' !in text
  {
    var text := "18446744073709551616:a";
    TwentyDigits();
    assert text[0..20] == "18446744073709551616";
    hide Value;
    assert HasZeroPrefix(text, 0, 20);
    StringObstacle(text, 0);
  }

  /** A prefix of 2^64 + 1 is accepted for a string of one byte, and then the flat table prints other bytes. */
  lemma OverflowWitness()
    ensures var text, t := "18446744073709551617:a", Str("18446744073709551617", "a");
      && ParseValue(text, 0) == Done(t, |text|) && !PrefixesFit(t)
      && Print(Flatten(t, 0), text, 0) == Good("1:a", 1)
  {
    var text, t := "18446744073709551617:a", Str("18446744073709551617", "a");
    TwentyDigits();
    PrefixWraps("18446744073709551617");
    assert Encode(t) == text && text[0..0 + |text|] == text;
    assert WellFormed(t) && !PrefixesFit(t);
    assert Canonical(t) == "1:a" && |Flatten(t, 0)| == 1 by { assert Decimal(1) == "1"; }
    hide *;
    Complete(t, text, 0);
    PrintsBack(text, 0);
  }
}
