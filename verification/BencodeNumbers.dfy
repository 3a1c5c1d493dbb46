/** torrent/bencode.h: which texts the parser accepts as integers and as length prefixes, in terms of decimal
    numerals. */
module BencodeNumbers {
  import opened MachineInts
  import opened BencodeSpec
  import opened BencodeTheorems

  /** The usual notation of an integer. */
  function Numeral(n: int): string {
    if n < 0 then "-" + Decimal(-n) else Decimal(n)
  }

  /** The integer a text of digits, perhaps after a minus sign, stands for. */
  function Reading(s: string): int
    requires s != "" && (IsDigit(s[0]) || s[0] == '-') && AllDigits(s[1..])
  {
    if s[0] == '-' then -(Value(s[1..]) as int)
    else
      DigitsOnly(s);
      Value(s)
  }

  lemma DigitsOnly(s: string)
    requires s != "" && IsDigit(s[0]) && AllDigits(s[1..])
    ensures AllDigits(s)
  {
    forall i | 0 <= i < |s| ensures IsDigit(s[i]) { if i > 0 { assert s[i] == s[1..][i - 1]; } }
  }

  /** A text of digits without a leading zero is the numeral of its value. */
  lemma {:induction false} NumeralOfValue(s: string)
    requires s != "" && AllDigits(s) && (|s| > 1 ==> s[0] != '0')
    ensures Decimal(Value(s)) == s
  {
    var init, last := s[..|s| - 1], s[|s| - 1];
    assert s == init + [last];
    if |s| > 1 {
      assert PrefixOk(s) && PrefixOk(init);
      PositiveValue(init);
      NumeralOfValue(init);
      var d := last as int - '0' as int;
      assert (10 * Value(init) + d) / 10 == Value(init) && (10 * Value(init) + d) % 10 == d;
    }
  }

  lemma {:induction false} NumeralStart(n: nat)
    ensures |Decimal(n)| > 1 ==> Decimal(n)[0] != '0'
  {
    DecimalIsPrefix(n);
    if n < 10 { assert |Decimal(n)| == 1; }
  }

  ghost predicate IsNumeral(s: string) { exists n: nat :: s == Decimal(n) }

  /** The digits after the minus sign may start with zeros, but are not a single zero. */
  ghost predicate IsNegative(s: string) {
    |s| >= 2 && s[0] == '-' && (forall i :: 1 <= i < |s| ==> s[i] in "0123456789") && s != "-0"
  }

  lemma DigitChars(c: char) ensures IsDigit(c) <==> c in "0123456789" {}

  lemma NumeralIff(s: string)
    ensures IsNumeral(s) <==> s != "" && AllDigits(s) && (|s| > 1 ==> s[0] != '0')
  {
    if n: nat :| s == Decimal(n) {
      DecimalIsPrefix(n);
      NumeralStart(n);
    }
    if s != "" && AllDigits(s) && (|s| > 1 ==> s[0] != '0') {
      NumeralOfValue(s);
      assert s == Decimal(Value(s));
    }
  }

  /** The bytes between `i` and `e` are accepted exactly when they are the numeral of a natural number, or a minus sign
      and digits other than a single zero. */
  lemma IntOkIff(s: string)
    ensures IntOk(s) <==> IsNumeral(s) || IsNegative(s)
  {
    NumeralIff(s);
    hide IsNumeral;
    if s != "" {
      forall i | 1 <= i < |s| ensures s[i] == s[1..][i - 1] && (IsDigit(s[i]) <==> s[i] in "0123456789") {
        DigitChars(s[i]);
      }
      if IsDigit(s[0]) && AllDigits(s[1..]) { DigitsOnly(s); }
    }
  }

  /** A length prefix is the numeral of a positive number. */
  lemma PrefixOkIff(s: string)
    ensures PrefixOk(s) <==> exists n: nat :: n > 0 && s == Decimal(n)
  {
    if PrefixOk(s) {
      NumeralOfValue(s);
      PositiveValue(s);
      assert Value(s) > 0 && s == Decimal(Value(s));
    }
    if n: nat :| n > 0 && s == Decimal(n) { DecimalIsPrefix(n); }
  }

  lemma FindsEnd(text: string, pos: nat, s: string)
    requires At(text, pos, "i" + s + "e") && 'e' !in s
    ensures pos + |s| + 1 < |text| && text[pos] == 'i' && text[pos + 1..pos + 1 + |s|] == s
    ensures Find(text, pos, 'e') == pos + 1 + |s|
  {
    var a := "i" + s;
    assert "i" + s + "e" == a + ['e'] + "";
    FindAfter(text, pos, a, 'e', "");
    assert text[pos..pos + |a|][0] == 'i' && text[pos..pos + |a|][1..] == a[1..] == s;
  }

  /** What the parser answers to any bytes between `i` and the first `e`, wherever they stand. */
  lemma IntegersExactly(text: string, pos: nat, s: string)
    requires At(text, pos, "i" + s + "e") && 'e' !in s
    ensures pos <= |text|
    ensures IsNumeral(s) || IsNegative(s) ==> ParseValue(text, pos) == Done(Int(s), pos + |s| + 2)
    ensures !IsNumeral(s) && !IsNegative(s) ==> ParseValue(text, pos) == Fail(InvalidNumber)
  {
    FindsEnd(text, pos, s);
    IntOkIff(s);
    hide IsNumeral, IsNegative, IntOk;
  }

  /** Every integer, in its usual notation, is accepted at any position, and its text reads back as that integer. */
  lemma EveryInteger(n: int, text: string, pos: nat)
    requires At(text, pos, "i" + Numeral(n) + "e")
    ensures pos <= |text|
    ensures var s := Numeral(n);
      && ParseValue(text, pos) == Done(Int(s), pos + |s| + 2)
      && s != "" && (IsDigit(s[0]) || s[0] == '-') && AllDigits(s[1..]) && Reading(s) == n
  {
    var s := Numeral(n);
    var d := Decimal(if n < 0 then -n else n);
    DecimalIsPrefix(if n < 0 then -n else n);
    if n < 0 {
      assert s[1..] == d;
      assert d != "0";
      forall i | 1 <= i < |s| ensures s[i] in "0123456789" { assert s[i] == d[i - 1]; DigitChars(s[i]); }
      assert IsNegative(s);
    } else {
      assert IsNumeral(s);
    }
    hide ParseValue;
    IntegersExactly(text, pos, s);
  }

  /** What the parser answers to a string whose prefix stands before the first colon: the length is read modulo 2^64. */
  lemma StringsExactly(text: string, pos: nat, s: string, rest: string)
    requires At(text, pos, s + ":" + rest) && pos + |s| + 1 + |rest| == |text|
    requires s != "" && '1' <= s[0] <= '9' && ':' !in s
    ensures pos <= |text|
    ensures !AllDigits(s) ==> ParseValue(text, pos) == Fail(InvalidString)
    ensures AllDigits(s) ==>
      var n := Value(s) % TWO_64;
      && (n == 0 ==> ParseValue(text, pos) == Trap)
      && (n > |rest| ==> ParseValue(text, pos) == Fail(InvalidString))
      && (0 < n <= |rest| ==> ParseValue(text, pos) == Done(Str(s, rest[..n]), pos + |s| + 1 + n))
  {
    hide *;
    ColonFound(text, pos, s, rest);
    StringCase(text, pos);
    StringAt(text, pos, pos + |s|, s);
    if AllDigits(s) { PrefixModulo(s); }
  }

  lemma PrefixModulo(s: string)
    requires AllDigits(s)
    ensures PrefixValue(s) == Value(s) % TWO_64
  {
    hide PrefixValue, Value;
    PrefixWraps(s);
  }

  lemma ColonFound(text: string, pos: nat, s: string, rest: string)
    requires At(text, pos, s + ":" + rest) && s != "" && ':' !in s
    ensures pos + |s| < |text| && Find(text, pos, ':') == pos + |s|
    ensures text[pos] == s[0] && text[pos..pos + |s|] == s
    ensures var at := pos + |s| + 1;
      at + |rest| <= |text| && forall n :: 0 <= n <= |rest| ==> text[at..at + n] == rest[..n]
  {
    hide Find;
    assert s + ":" + rest == s + [':'] + rest;
    FindAfter(text, pos, s, ':', rest);
    var front := text[pos..pos + |s|];
    assert front[0] == text[pos];
    RestOf(text, pos + |s| + 1, rest);
  }

  /** The reading of the parser, the colon found. */
  lemma StringAt(text: string, pos: nat, colon: nat, s: string)
    requires pos < colon < |text| && Find(text, pos, ':') == colon && text[pos..colon] == s
    ensures !AllDigits(s) ==> ParseStr(text, pos) == Fail(InvalidString)
    ensures AllDigits(s) ==>
      var n, at := PrefixValue(s), colon + 1;
      && (n == 0 ==> ParseStr(text, pos) == Trap)
      && (n > |text| - at ==> ParseStr(text, pos) == Fail(InvalidString))
      && (0 < n <= |text| - at ==> ParseStr(text, pos) == Done(Str(s, text[at..at + n]), at + n))
  {
    hide PrefixValue, Find, AllDigits;
  }

  lemma StringCase(text: string, pos: nat)
    requires pos < |text| && '1' <= text[pos] <= '9'
    ensures ParseValue(text, pos) == ParseStr(text, pos)
  {
    hide ParseStr, ParseInt, ParseItems, KeysOk;
  }

  lemma RestOf(text: string, at: nat, rest: string)
    requires At(text, at, rest)
    ensures forall n :: 0 <= n <= |rest| ==> text[at..at + n] == rest[..n]
  {
    assert text[at..at + |rest|] == rest;
  }

  /** Where no value can start. */
  lemma RefusedStart(text: string, pos: nat)
    requires pos < |text| && text[pos] != '\0'
    ensures text[pos] !in "il123456789d" ==> ParseValue(text, pos) == Fail(UnexpectedCharacter)
    ensures text[pos] == 'i' && 'e' !in text[pos..] ==> ParseValue(text, pos) == Fail(InvalidNumber)
  {
    hide ParseItems, ParseStr, IntOk, KeysOk;
    var c := text[pos];
    assert c == 'i' || c == 'l' || c == 'd' || '1' <= c <= '9' ==> c in "il123456789d";
    var e := Find(text, pos, 'e');
    if e < |text| { assert text[pos..][e - pos] == 'e'; }
  }

  /** A dictionary that misses a value, or whose keys do not pass the check. */
  lemma RefusedDictionary(text: string, pos: nat, items: seq<Tree>)
    requires AllWellFormed(items) && At(text, pos, "d" + (EncodeAll(items) + "e"))
    requires |items| % 2 == 1 || !KeysOk(items)
    ensures pos <= |text| && ParseValue(text, pos) == Fail(InvalidDict)
  {
    hide AllWellFormed, KeysOk, EncodeAll;
    var s := "d" + (EncodeAll(items) + "e");
    assert text[pos] == text[pos..pos + |s|][0] == 'd';
    assert text[pos + 1..pos + |s|] == text[pos..pos + |s|][1..] == s[1..];
    CompleteItems(items, text, pos + 1);
    hide ParseItems;
  }
}
