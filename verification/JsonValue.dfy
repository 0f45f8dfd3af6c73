/**
 What a grammatical value denotes, said without the parser's own conversions: integers are the longs
 of their decimal numerals, saturated, and other numbers are kept as written.
 */
module JsonValue {
  import opened Common
  import opened JsonNumber
  import opened JsonLexer
  import opened JsonGrammar
  import opened JsonText
  import opened JsonPrint
  import opened JsonDocument

  const TEN_DIGITS := "0123456789"

  /** The decimal numeral of a number, without leading zeros. */
  function Numeral(n: nat): string {
    if n < 10 then [TEN_DIGITS[n]] else Numeral(n / 10) + [TEN_DIGITS[n % 10]]
  }

  /** The text is that numeral, with or without a minus sign. */
  ghost predicate Spelled(text: string, negative: bool, n: nat) {
    text == (if negative then "-" else "") + Numeral(n)
  }

  /** The long nearest to a number. */
  function Nearest(negative: bool, n: nat): int {
    if negative then (if n > 9223372036854775808 then -9223372036854775808 else -(n as int))
    else if n > 9223372036854775807 then 9223372036854775807 else n
  }

  ghost predicate NumberDenotes(text: string, v: Value) {
    && (forall negative: bool, n: nat :: Spelled(text, negative, n) ==> v == Integer(Nearest(negative, n)))
    && ((forall negative: bool, n: nat :: !Spelled(text, negative, n)) ==> v == Double(text))
  }

  /** The tree is the one the value denotes. */
  ghost predicate Denotes(s: Syntax, v: Value) {
    match s
    case SString(raw) => v == QString(raw)
    case SNumber(numeral) => NumberDenotes(numeral, v)
    case SArray(es) => v.Array? && |v.elements| == |es| && forall i :: 0 <= i < |es| ==> Denotes(es[i], v.elements[i])
    case SObject(ms) =>
      && v.Object? && |v.members| == |ms|
      && forall i :: 0 <= i < |ms| ==> v.members[i].name == ms[i].name && Denotes(ms[i].value, v.members[i].value)
    case STrue => v == True
    case SFalse => v == False
    case SNull => v == Null
    case SStringWord => v == StringWord
  }

  // ----- numerals

  lemma {:induction false} NumeralIsDigits(n: nat)
    ensures Numeral(n) == JsonPrint.Digits(n)
  {
    if n >= 10 { NumeralIsDigits(n / 10); }
  }

  lemma {:induction false} DigitsOfValue(d: string)
    requires d != "" && AllDigits(d) && (d[0] == '0' ==> d == "0")
    ensures DigitsValue(d) >= 0 && JsonPrint.Digits(DigitsValue(d)) == d && (d != "0" ==> DigitsValue(d) > 0)
  {
    var k := |d| - 1;
    var e := d[..k];
    assert d == e + [d[k]] && IsDigit(d[k]);
    if k == 0 {
      assert DigitsValue(e) == 0;
    } else {
      assert e[0] == d[0];
      DigitsOfValue(e);
    }
  }

  /** The integers of the grammar are the numerals, with or without a minus sign. */
  lemma IntegersAreNumerals(text: string)
    ensures RfcInteger(text) <==> exists negative: bool, n: nat :: Spelled(text, negative, n)
  {
    if m, i :| RfcParts(text, m, i, "", "") {
      assert text == m + i;
      DigitsOfValue(i);
      NumeralIsDigits(DigitsValue(i));
      assert Spelled(text, m == "-", DigitsValue(i));
    }
    if negative: bool, n: nat :| Spelled(text, negative, n) {
      NumeralIsDigits(n);
      DigitsAre(n);
      DigitsAreRfc(if negative then "-" else "", JsonPrint.Digits(n));
    }
  }

  /** The parser's conversion of an integer. */
  lemma LongOf(text: string, negative: bool, n: nat)
    requires Spelled(text, negative, n)
    ensures NumberValue(text) == Integer(Nearest(negative, n))
  {
    hide NumberValue, Strtol, DigitsValue;
    var m := if negative then "-" else "";
    NumeralIsDigits(n);
    DigitsAre(n);
    DigitsAreRfc(m, JsonPrint.Digits(n));
    StrtolOf(m, JsonPrint.Digits(n));
  }

  lemma NumberValueDenotes(text: string, rangeError: string -> bool)
    requires NumberFits(text, rangeError)
    ensures NumberDenotes(text, NumberValue(text))
  {
    hide NumberValue, Spelled;
    forall negative: bool, n: nat | Spelled(text, negative, n)
      ensures NumberValue(text) == Integer(Nearest(negative, n))
    {
      LongOf(text, negative, n);
    }
    if forall negative: bool, n: nat :: !Spelled(text, negative, n) {
      IntegersAreNumerals(text);
      RealValue(text, rangeError);
    }
  }

  lemma RealValue(text: string, rangeError: string -> bool)
    requires NumberFits(text, rangeError) && !RfcInteger(text)
    ensures NumberValue(text) == Double(text)
  {
    RfcNumberText(text);
    NumberFilterIsRfc(text, rangeError);
  }

  // ----- trees

  lemma {:induction false} MeaningDenotes(s: Syntax, rangeError: string -> bool)
    requires WellFormed(s, rangeError)
    ensures Denotes(s, Meaning(s))
    decreases s, 1
  {
    match s
    case SNumber(numeral) => NumberValueDenotes(numeral, rangeError);
    case SArray(es) => ElementsDenote(es, rangeError);
    case SObject(ms) => MembersDenote(ms, rangeError);
    case _ =>
  }

  lemma {:induction false} ElementsDenote(es: seq<Syntax>, rangeError: string -> bool)
    requires AllWellFormed(es, rangeError)
    ensures forall i :: 0 <= i < |es| ==> Denotes(es[i], Meanings(es)[i])
    decreases es, 0
  {
    if es != [] {
      MeaningDenotes(es[0], rangeError);
      ElementsDenote(es[1..], rangeError);
      forall i | 0 <= i < |es| ensures Denotes(es[i], Meanings(es)[i]) {
        if i > 0 { assert es[i] == es[1..][i - 1] && Meanings(es)[i] == Meanings(es[1..])[i - 1]; }
      }
    }
  }

  lemma {:induction false} MembersDenote(ms: seq<SMember>, rangeError: string -> bool)
    requires MembersWellFormed(ms, rangeError)
    ensures forall i :: 0 <= i < |ms| ==>
              MemberMeanings(ms)[i].name == ms[i].name && Denotes(ms[i].value, MemberMeanings(ms)[i].value)
    decreases ms, 0
  {
    if ms != [] {
      MeaningDenotes(ms[0].value, rangeError);
      MembersDenote(ms[1..], rangeError);
      forall i | 0 <= i < |ms|
        ensures MemberMeanings(ms)[i].name == ms[i].name && Denotes(ms[i].value, MemberMeanings(ms)[i].value)
      {
        if i > 0 { assert ms[i] == ms[1..][i - 1] && MemberMeanings(ms)[i] == MemberMeanings(ms[1..])[i - 1]; }
      }
    }
  }

  lemma NumberDenotesOne(text: string, v: Value, w: Value)
    requires NumberDenotes(text, v) && NumberDenotes(text, w)
    ensures v == w
  {
    hide Spelled;
    if negative: bool, n: nat :| Spelled(text, negative, n) {
      assert v == Integer(Nearest(negative, n));
    }
  }

  /** A value denotes one tree only. */
  lemma {:induction false} DenotesOne(s: Syntax, v: Value, w: Value)
    requires Denotes(s, v) && Denotes(s, w)
    ensures v == w
  {
    match s
    case SNumber(numeral) => NumberDenotesOne(numeral, v, w);
    case SArray(es) =>
      forall i | 0 <= i < |es| ensures v.elements[i] == w.elements[i] { DenotesOne(es[i], v.elements[i], w.elements[i]); }
      assert v.elements == w.elements;
    case SObject(ms) =>
      forall i | 0 <= i < |ms| ensures v.members[i] == w.members[i] {
        DenotesOne(ms[i].value, v.members[i].value, w.members[i].value);
      }
      assert v.members == w.members;
    case _ =>
  }

  // ----- what json_parse returns

  /** A grammatical text up to 19 arrays deep is parsed to the tree it denotes, and to no other. */
  lemma {:induction false} ParsesAsDenoted(s: Syntax, text: string, v: Value, rangeError: string -> bool)
    requires WellFormed(s, rangeError) && Spells(text, TokensOf(s)) && ArrayDepth(s) <= 19
    ensures ParseDocument(Lexemes(text, 0, rangeError)) == (Success, Some(v), State([Sym(EOF)], 0)) <==> Denotes(s, v)
  {
    hide ParseDocument, Lexemes, WellFormed, Denotes;
    AcceptsExactly(s, text, rangeError);
    MeaningDenotes(s, rangeError);
    if Denotes(s, v) { DenotesOne(s, v, Meaning(s)); }
  }

  lemma NumberParses(text: string, v: Value, rangeError: string -> bool)
    requires NumberFits(text, rangeError) && NumberDenotes(text, v)
    ensures ParseDocument(Lexemes(text, 0, rangeError)) == (Success, Some(v), State([Sym(EOF)], 0))
  {
    hide ParseDocument, Lexemes, NumberDenotes;
    var s := SNumber(text);
    SpellsWord(Lexeme(NUMBER, text));
    ParsesAsDenoted(s, text, v, rangeError);
  }

  /** A number that is no integer keeps its text, sign and all. */
  lemma RealParses(text: string, rangeError: string -> bool)
    requires RfcNumber(text) && !RfcInteger(text) && |text| < 512 && !rangeError(text)
    ensures ParseDocument(Lexemes(text, 0, rangeError)) == (Success, Some(Double(text)), State([Sym(EOF)], 0))
  {
    hide ParseDocument, Lexemes, Spelled;
    IntegersAreNumerals(text);
    NumberParses(text, Double(text), rangeError);
  }

  /** An integer becomes the long of its sign and numeral, or the last long on that side. */
  lemma LongParses(text: string, negative: bool, n: nat, rangeError: string -> bool)
    requires Spelled(text, negative, n) && |text| < 512
    ensures ParseDocument(Lexemes(text, 0, rangeError)) == (Success, Some(Integer(Nearest(negative, n))), State([Sym(EOF)], 0))
  {
    hide ParseDocument, Lexemes, Spelled, NumberDenotes;
    IntegersAreNumerals(text);
    IntegerFits(text, rangeError);
    NumberValueDenotes(text, rangeError);
    LongOf(text, negative, n);
    NumberParses(text, Integer(Nearest(negative, n)), rangeError);
  }

  lemma IntegerFits(text: string, rangeError: string -> bool)
    requires RfcInteger(text) && |text| < 512
    ensures NumberFits(text, rangeError)
  {
    var m, i :| RfcParts(text, m, i, "", "");
    assert RfcNumber(text);
  }
}
