/**
 The number filter of the JSON lexer, and the number grammar of section 6 of RFC 8259.
 C strings are Dafny strings without their terminator; `At` reads the terminator.
 */
module JsonNumber {

  predicate IsDigit(c: char) {
    '0' <= c <= '9'
  }

  /** isspace in the "C" locale: blank, and the five control characters from tab to carriage return. */
  predicate IsSpace(c: char) {
    c == ' ' || '\t' <= c <= '\r'
  }

  /** The alphabet get_number collects. */
  predicate IsNumberChar(c: char) {
    IsDigit(c) || c == '-' || c == '.' || c == 'e' || c == 'E' || c == '+'
  }

  predicate AllDigits(s: string) {
    forall i :: 0 <= i < |s| ==> IsDigit(s[i])
  }

  function At(s: string, i: nat): char {
    if i < |s| then s[i] else '\0'
  }

  function SkipSpace(s: string): string {
    if s != "" && IsSpace(s[0]) then SkipSpace(s[1..]) else s
  }

  predicate IsZero(s: string) {
    At(s, 0) == '0' && At(s, 1) == '\0'
  }

  predicate HasLeadingZero(s: string) {
    var t := SkipSpace(s);
    var u := if At(t, 0) == '-' then t[1..] else t;
    At(u, 0) == '0' && IsDigit(At(u, 1))
  }

  predicate IsInteger(s: string) {
    var t := if At(s, 0) == '-' then s[1..] else s;
    if IsZero(t) then true
    else if HasLeadingZero(t) then false
    else '1' <= At(t, 0) <= '9' && AllDigits(t[1..])
  }

  /** strchr: the first index of `c`, or the length when there is none. */
  function IndexOf(s: string, c: char): (r: nat)
    ensures r <= |s|
    ensures forall k :: 0 <= k < r ==> s[k] != c
    ensures r < |s| ==> s[r] == c
  {
    if s == "" || s[0] == c then 0 else 1 + IndexOf(s[1..], c)
  }

  function DigitsEnd(s: string, i: nat): (r: nat)
    requires i <= |s|
    ensures i <= r <= |s|
    ensures forall k :: i <= k < r ==> IsDigit(s[k])
    ensures r < |s| ==> !IsDigit(s[r])
    decreases |s| - i
  {
    if i < |s| && IsDigit(s[i]) then DigitsEnd(s, i + 1) else i
  }

  /** Where the optional exponent part that starts at `i` ends; `i` when there is none. */
  function ExponentEnd(s: string, i: nat): (r: nat)
    requires i <= |s|
    ensures i <= r <= |s|
  {
    if i < |s| && (s[i] == 'e' || s[i] == 'E') then
      var j := if At(s, i + 1) == '+' || At(s, i + 1) == '-' then i + 2 else i + 1;
      var k := DigitsEnd(s, j);
      if k > j then k else i
    else i
  }

  /** How many characters strtold consumes, for text over the lexer's number alphabet. */
  function StrtoldEnd(s: string): (r: nat)
    ensures r <= |s|
  {
    var i := if At(s, 0) == '-' || At(s, 0) == '+' then 1 else 0;
    var j := DigitsEnd(s, i);
    var k := if At(s, j) == '.' then DigitsEnd(s, j + 1) else j;
    if j == i && k <= j + 1 then 0 else ExponentEnd(s, k)
  }

  /** `rangeError` tells which texts make strtold report ERANGE. */
  predicate IsReal(s: string, rangeError: string -> bool) {
    var t := SkipSpace(s);
    if t == "" then false
    else if IsInteger(t) then false
    else if IsZero(t) then true
    else if HasLeadingZero(t) then false
    else if t[|t| - 1] == '.' then false
    else
      var p := IndexOf(t, '.');
      if p < |t| && !IsDigit(At(t, p + 1)) then false
      else if p < |t| && (p == 0 || !IsDigit(t[p - 1])) then false
      else !rangeError(t) && StrtoldEnd(t) == |t|
  }

  const NUMBER_BUFFER := 512

  predicate IsNumber(s: string, rangeError: string -> bool) {
    |s| < NUMBER_BUFFER && (IsInteger(s) || IsReal(s, rangeError))
  }

  // ----- section 6 of RFC 8259: number = [ minus ] int [ frac ] [ exp ]

  ghost predicate RfcMinus(s: string) {
    s == "" || s == "-"
  }

  ghost predicate RfcInt(s: string) {
    s == "0" || (s != "" && '1' <= s[0] <= '9' && AllDigits(s[1..]))
  }

  ghost predicate RfcFrac(s: string) {
    s == "" || (|s| >= 2 && s[0] == '.' && AllDigits(s[1..]))
  }

  ghost predicate RfcExp(s: string) {
    s == "" ||
    (|s| >= 2 && (s[0] == 'e' || s[0] == 'E') &&
     (AllDigits(s[1..]) || (|s| >= 3 && (s[1] == '+' || s[1] == '-') && AllDigits(s[2..]))))
  }

  ghost predicate RfcParts(s: string, m: string, i: string, f: string, e: string) {
    s == m + i + f + e && RfcMinus(m) && RfcInt(i) && RfcFrac(f) && RfcExp(e)
  }

  ghost predicate RfcNumber(s: string) {
    exists m, i, f, e :: RfcParts(s, m, i, f, e)
  }

  ghost predicate RfcInteger(s: string) {
    exists m, i :: RfcParts(s, m, i, "", "")
  }

  /** The texts get_number can hand to the filter: it is only entered on '-' or a digit. */
  ghost predicate NumberText(s: string) {
    && s != ""
    && (s[0] == '-' || IsDigit(s[0]))
    && forall i :: 0 <= i < |s| ==> IsNumberChar(s[i])
  }

  lemma {:induction false} DigitsEndIs(s: string, i: nat, j: nat)
    requires i <= j <= |s|
    requires forall k :: i <= k < j ==> IsDigit(s[k])
    requires j < |s| ==> !IsDigit(s[j])
    ensures DigitsEnd(s, i) == j
    decreases j - i
  {
    if i < j { DigitsEndIs(s, i + 1, j); }
  }

  lemma IndexOfIs(s: string, c: char, j: nat)
    requires j <= |s| && forall k :: 0 <= k < j ==> s[k] != c
    requires j < |s| ==> s[j] == c
    ensures IndexOf(s, c) == j
  {
    assert IndexOf(s, c) <= j;
  }

  lemma RfcIntegerIsAccepted(s: string)
    requires RfcInteger(s)
    ensures IsInteger(s)
  {
    var m, i :| RfcParts(s, m, i, "", "");
    assert s == m + i;
    if m == "-" { assert s[1..] == i; } else { assert s == i; }
  }

  lemma IntegerIsRfc(s: string)
    requires NumberText(s) && IsInteger(s)
    ensures RfcInteger(s)
  {
    var m, i := if s[0] == '-' then "-" else "", if s[0] == '-' then s[1..] else s;
    assert s == m + i + "" + "";
    assert |i| > 1 ==> i[1] == s[|m| + 1] && IsNumberChar(s[|m| + 1]);
    assert IsZero(i) ==> i == "0";
    assert RfcParts(s, m, i, "", "");
  }

  // ----- the grammar by positions: minus [0,a), int [a,b), frac [b,c), exp [c,|s|)

  ghost predicate Digits(s: string, i: int, j: int) {
    0 <= i < j <= |s| && forall k :: i <= k < j ==> IsDigit(s[k])
  }

  ghost predicate IntAt(s: string, a: int, b: int) {
    && (a == 0 || (a == 1 && s != "" && s[0] == '-'))
    && Digits(s, a, b)
    && (s[a] == '0' ==> b == a + 1)
  }

  ghost predicate FracAt(s: string, b: int, c: int) {
    0 <= b <= c <= |s| && (b == c || (s[b] == '.' && Digits(s, b + 1, c)))
  }

  ghost predicate ExpAt(s: string, c: int) {
    && 0 <= c <= |s|
    && (c == |s| ||
        ((s[c] == 'e' || s[c] == 'E') &&
         (Digits(s, c + 1, |s|) || (c + 1 < |s| && (s[c + 1] == '+' || s[c + 1] == '-') && Digits(s, c + 2, |s|)))))
  }

  ghost predicate Shape(s: string, a: int, b: int, c: int) {
    IntAt(s, a, b) && FracAt(s, b, c) && ExpAt(s, c)
  }

  lemma SliceDigits(s: string, i: int, j: int)
    requires 0 <= i <= j <= |s|
    ensures AllDigits(s[i..j]) <==> forall k :: i <= k < j ==> IsDigit(s[k])
  {
    var t := s[i..j];
    if AllDigits(t) {
      forall k | i <= k < j ensures IsDigit(s[k]) { assert t[k - i] == s[k]; }
    }
  }

  // Each part of the grammar, as a slice and by positions.

  lemma IntPart(s: string, a: int, b: int)
    requires 0 <= a <= b <= |s|
    ensures RfcMinus(s[..a]) && RfcInt(s[a..b]) <==> IntAt(s, a, b)
  {
    if a < b { SliceDigits(s, a + 1, b); assert s[a..b][1..] == s[a + 1..b]; }
  }

  lemma FracPart(s: string, b: int, c: int)
    requires 0 <= b <= c <= |s|
    ensures RfcFrac(s[b..c]) <==> FracAt(s, b, c)
  {
    if b < c { SliceDigits(s, b + 1, c); assert s[b..c][1..] == s[b + 1..c]; }
  }

  lemma ExpPart(s: string, c: int)
    requires 0 <= c <= |s|
    ensures RfcExp(s[c..]) <==> ExpAt(s, c)
  {
    if c + 1 < |s| {
      SliceDigits(s, c + 1, |s|);
      assert s[c..][1..] == s[c + 1..|s|];
      SliceDigits(s, c + 2, |s|);
      assert s[c..][2..] == s[c + 2..|s|];
    }
  }

  lemma ShapeIsRfc(s: string, a: int, b: int, c: int)
    requires Shape(s, a, b, c)
    ensures RfcNumber(s)
  {
    var m, i, f, e := s[..a], s[a..b], s[b..c], s[c..];
    IntPart(s, a, b);
    FracPart(s, b, c);
    ExpPart(s, c);
    assert s == m + i + f + e;
    assert RfcParts(s, m, i, f, e);
  }

  lemma RfcHasShape(s: string, m: string, i: string, f: string, e: string)
    requires RfcParts(s, m, i, f, e)
    ensures Shape(s, |m|, |m| + |i|, |m| + |i| + |f|)
  {
    var a, b, c := |m|, |m| + |i|, |m| + |i| + |f|;
    assert s[..a] == m && s[a..b] == i && s[b..c] == f && s[c..] == e by {
      assert s[..c] == m + i + f;
      assert s[..c][..b] == m + i;
    }
    IntPart(s, a, b);
    FracPart(s, b, c);
    ExpPart(s, c);
  }

  lemma ExponentConsumed(s: string, c: nat)
    requires c <= |s| && ExpAt(s, c)
    ensures ExponentEnd(s, c) == |s|
  {
    if c < |s| {
      var j := if s[c + 1] == '+' || s[c + 1] == '-' then c + 2 else c + 1;
      DigitsEndIs(s, j, |s|);
    }
  }

  lemma ShapeConsumed(s: string, a: nat, b: nat, c: nat)
    requires Shape(s, a, b, c)
    ensures StrtoldEnd(s) == |s|
  {
    DigitsEndIs(s, a, b);
    if b < c { DigitsEndIs(s, b + 1, c); }
    ExponentConsumed(s, c);
  }

  lemma ShapeFirstDot(s: string, a: nat, b: nat, c: nat)
    requires Shape(s, a, b, c)
    ensures IndexOf(s, '.') == if b == c then |s| else b
    ensures s[|s| - 1] != '.'
  {
    IndexOfIs(s, '.', if b == c then |s| else b);
  }

  lemma ShapeIsAccepted(s: string, a: nat, b: nat, c: nat, rangeError: string -> bool)
    requires NumberText(s) && Shape(s, a, b, c) && !IsInteger(s) && !rangeError(s)
    ensures IsReal(s, rangeError)
  {
    ShapeConsumed(s, a, b, c);
    ShapeFirstDot(s, a, b, c);
    assert SkipSpace(s) == s;
    assert !HasLeadingZero(s) by {
      assert a == 1 ==> s[1..][0] == s[1] && (|s| > 2 ==> s[1..][1] == s[2]);
    }
  }

  lemma RealUnfolds(s: string, rangeError: string -> bool)
    requires NumberText(s) && IsReal(s, rangeError)
    ensures !HasLeadingZero(s) && !IsZero(s) && !rangeError(s) && StrtoldEnd(s) == |s|
    ensures var p := IndexOf(s, '.');
            p < |s| ==> IsDigit(At(s, p + 1)) && p > 0 && IsDigit(s[p - 1])
  {
    assert SkipSpace(s) == s;
  }

  /** The filter and strtold leave only grammatical shapes: the converse of `ShapeIsAccepted`. */
  lemma FilteredHasShape(s: string) returns (a: nat, b: nat, c: nat)
    requires NumberText(s) && !HasLeadingZero(s) && StrtoldEnd(s) == |s|
    requires var p := IndexOf(s, '.');
             p < |s| ==> IsDigit(At(s, p + 1)) && p > 0 && IsDigit(s[p - 1])
    ensures Shape(s, a, b, c)
  {
    a := if s[0] == '-' then 1 else 0;
    b := DigitsEnd(s, a);
    c := if At(s, b) == '.' then DigitsEnd(s, b + 1) else b;
    if At(s, b) == '.' { IndexOfIs(s, '.', b); }
    NoLeadingZero(s, a, b);
    assert a < b && FracAt(s, b, c);
    ExponentShape(s, c);
  }

  lemma NoLeadingZero(s: string, a: nat, b: nat)
    requires NumberText(s) && !HasLeadingZero(s)
    requires a == if s[0] == '-' then 1 else 0
    requires b == DigitsEnd(s, a)
    ensures a < b ==> IntAt(s, a, b)
  {
    assert SkipSpace(s) == s;
    assert a == 1 && a < b ==> s[1..][0] == s[1] && (|s| > 2 ==> s[1..][1] == s[2]);
  }

  lemma ExponentShape(s: string, c: nat)
    requires c <= |s| && ExponentEnd(s, c) == |s|
    ensures ExpAt(s, c)
  {
  }

  lemma RealIsRfc(s: string, rangeError: string -> bool)
    requires NumberText(s) && IsReal(s, rangeError)
    ensures RfcNumber(s) && !rangeError(s)
  {
    RealUnfolds(s, rangeError);
    var a, b, c := FilteredHasShape(s);
    ShapeIsRfc(s, a, b, c);
  }

  lemma RfcIsReal(s: string, rangeError: string -> bool)
    requires NumberText(s) && RfcNumber(s) && !IsInteger(s) && !rangeError(s)
    ensures IsReal(s, rangeError)
  {
    var m, i, f, e :| RfcParts(s, m, i, f, e);
    RfcHasShape(s, m, i, f, e);
    ShapeIsAccepted(s, |m|, |m| + |i|, |m| + |i| + |f|, rangeError);
  }

  /**
   The filter accepts exactly the numbers of section 6 of RFC 8259, up to the range errors
   strtold reports for texts that are not integers.
   */
  lemma NumberFilterIsRfc(s: string, rangeError: string -> bool)
    requires NumberText(s)
    ensures IsInteger(s) <==> RfcInteger(s)
    ensures IsNumber(s, rangeError) <==>
            |s| < 512 && RfcNumber(s) && (RfcInteger(s) || !rangeError(s))
  {
    if IsInteger(s) { IntegerIsRfc(s); }
    if RfcInteger(s) { RfcIntegerIsAccepted(s); }
    if IsReal(s, rangeError) { RealIsRfc(s, rangeError); }
    if RfcNumber(s) && !IsInteger(s) && !rangeError(s) { RfcIsReal(s, rangeError); }
    if m, i :| RfcParts(s, m, i, "", "") { assert RfcNumber(s); }
  }
}
