/**
 What the JSON lexer reads: the token at a position of the input, and the string grammar its
 quoted-string automaton has to agree with.
 */
module JsonLexer {
  import opened Common
  import opened JsonNumber

  datatype Token =
    | ERROR | UNKNOWN | QSTRING | TRUE | FALSE | COLON | COMMA
    | OBJECTSTART | OBJECTEND | ARRAYSTART | ARRAYEND
    | NUMBER | NULL | EOF | STRING | BOOLEAN

  /** A token with the source text that savevalue keeps for it. */
  datatype Lexeme = Lexeme(token: Token, text: string)

  /** The token read at some position, and the position after it. */
  datatype Lexed = Lexed(token: Token, text: string, next: nat)

  predicate HasValue(t: Token) {
    t == QSTRING || t == NUMBER
  }

  // ----- quoted strings

  predicate IsHex(c: char) {
    IsDigit(c) || 'a' <= c <= 'f' || 'A' <= c <= 'F'
  }

  predicate FourHexAt(s: string, i: nat) {
    i + 4 <= |s| && IsHex(s[i]) && IsHex(s[i + 1]) && IsHex(s[i + 2]) && IsHex(s[i + 3])
  }

  predicate IsOrdinary(c: char) {
    c != '"' && c != '\\' && c != '\0' && c != '\t' && c != '\n'
  }

  predicate IsShortEscape(c: char) {
    c in "\\\"/bfnrt"
  }

  /** String contents: ordinary characters, two-character escapes and \u with four hex digits. */
  ghost predicate Units(s: string) {
    || s == ""
    || (IsOrdinary(s[0]) && Units(s[1..]))
    || (|s| >= 2 && s[0] == '\\' && IsShortEscape(s[1]) && Units(s[2..]))
    || (|s| >= 6 && s[0] == '\\' && s[1] == 'u' && FourHexAt(s, 2) && Units(s[6..]))
  }

  /** The closing quote of the string whose contents start at `i`, if the contents are legal. */
  function ClosingQuote(s: string, i: nat): (r: Option<nat>)
    requires i <= |s|
    ensures r.Some? ==> i <= r.value < |s| && s[r.value] == '"'
    decreases |s| - i
  {
    if i == |s| then None
    else if s[i] == '"' then Some(i)
    else if IsOrdinary(s[i]) then ClosingQuote(s, i + 1)
    else if s[i] == '\\' && i + 1 < |s| && IsShortEscape(s[i + 1]) then ClosingQuote(s, i + 2)
    else if s[i] == '\\' && i + 1 < |s| && s[i + 1] == 'u' && FourHexAt(s, i + 2) then ClosingQuote(s, i + 6)
    else None
  }

  /** A closing quote is found exactly when unit contents run up to it. */
  lemma {:induction false} ClosingQuoteEndsUnits(s: string, i: nat, n: nat)
    requires i <= |s|
    ensures ClosingQuote(s, i) == Some(n) <==> i <= n < |s| && s[n] == '"' && Units(s[i..n])
    decreases |s| - i
  {
    if i <= n < |s| && s[n] == '"' && s[i] != '"' {
      var t := s[i..n];
      assert t[1..] == s[i + 1..n];
      if IsOrdinary(s[i]) {
        ClosingQuoteEndsUnits(s, i + 1, n);
      } else if s[i] == '\\' && i + 1 < |s| && IsShortEscape(s[i + 1]) {
        if i + 2 <= n { assert t[2..] == s[i + 2..n]; }
        ClosingQuoteEndsUnits(s, i + 2, n);
      } else if s[i] == '\\' && i + 1 < |s| && s[i + 1] == 'u' && FourHexAt(s, i + 2) {
        if i + 6 <= n { assert t[6..] == s[i + 6..n]; }
        ClosingQuoteEndsUnits(s, i + 6, n);
      }
    }
  }

  /** The alphabets, one character at a time. */
  lemma Alphabets(c: char)
    ensures IsDigit(c) <==> c in "0123456789"
    ensures IsHex(c) <==> c in "0123456789abcdefABCDEF"
    ensures IsNumberChar(c) <==> c in "0123456789-.eE+"
    ensures IsShortEscape(c) <==> c == '"' || c == '\\' || c == '/' || c == 'b' || c == 'f' || c == 'n' || c == 'r' || c == 't'
    ensures IsOrdinary(c) <==> c as int !in {0, 9, 10, 34, 92}
    ensures IsSpace(c) <==> c as int in {9, 10, 11, 12, 13, 32}
    ensures IsSpace(c) && c != FORM_FEED <==> c as int in {9, 10, 11, 13, 32}
  {
  }

  // ----- tokens

  const FORM_FEED: char := 12 as char

  /** The first position from `i` on that is not blank; form feeds are not skipped. */
  function SkipBlanks(s: string, i: nat): (r: nat)
    requires i <= |s|
    ensures i <= r <= |s|
    ensures r < |s| ==> !IsSpace(s[r]) || s[r] == FORM_FEED
    decreases |s| - i
  {
    if i < |s| && IsSpace(s[i]) && s[i] != FORM_FEED then SkipBlanks(s, i + 1) else i
  }

  function NumberEnd(s: string, i: nat): (r: nat)
    requires i <= |s|
    ensures i <= r <= |s|
    ensures forall k :: i <= k < r ==> IsNumberChar(s[k])
    ensures r < |s| ==> !IsNumberChar(s[r])
    decreases |s| - i
  {
    if i < |s| && IsNumberChar(s[i]) then NumberEnd(s, i + 1) else i
  }

  predicate StartsAt(s: string, i: nat, word: string) {
    i + |word| <= |s| && s[i..i + |word|] == word
  }

  function Unknown(s: string): Lexed {
    Lexed(UNKNOWN, "", |s|)
  }

  function Keyword(s: string, i: nat, word: string, t: Token): (r: Lexed)
    ensures r.text == "" && (r.token == t || r.token == UNKNOWN)
  {
    if StartsAt(s, i, word) then Lexed(t, "", i + |word|) else Unknown(s)
  }

  function QuotedAt(s: string, i: nat): (r: Lexed)
    requires i <= |s|
  {
    match ClosingQuote(s, i)
    case None => Unknown(s)
    case Some(q) => Lexed(QSTRING, s[i..q], q + 1)
  }

  function NumberAt(s: string, i: nat, rangeError: string -> bool): (r: Lexed)
    requires i <= |s|
  {
    var e := NumberEnd(s, i);
    if At(s, e) == '\0' && e < |s| then Unknown(s)
    else if IsNumber(s[i..e], rangeError) then Lexed(NUMBER, s[i..e], e)
    else Unknown(s)
  }

  /** The token that starts at the non-blank position `p`. */
  function TokenAt(s: string, p: nat, rangeError: string -> bool): (r: Lexed)
    requires p < |s|
  {
    match s[p]
    case '[' => Lexed(ARRAYSTART, "", p + 1)
    case ']' => Lexed(ARRAYEND, "", p + 1)
    case '{' => Lexed(OBJECTSTART, "", p + 1)
    case '}' => Lexed(OBJECTEND, "", p + 1)
    case ':' => Lexed(COLON, "", p + 1)
    case ',' => Lexed(COMMA, "", p + 1)
    case '"' => QuotedAt(s, p + 1)
    case 't' => Keyword(s, p, "true", TRUE)
    case 'f' => Keyword(s, p, "false", FALSE)
    case 'n' => Keyword(s, p, "null", NULL)
    case 's' => Keyword(s, p, "string", STRING)
    case 'b' => Keyword(s, p, "boolean", BOOLEAN)
    case c => if c == '-' || IsDigit(c) then NumberAt(s, p, rangeError) else Unknown(s)
  }

  /** What one call of nextsym finds from position `i` on. */
  function Lex(s: string, i: nat, rangeError: string -> bool): (r: Lexed)
    requires i <= |s|
    ensures r.next <= |s|
    ensures r.token == EOF ==> r.next == |s|
    ensures r.token != EOF && r.token != UNKNOWN ==> i < r.next
  {
    var p := SkipBlanks(s, i);
    if p == |s| then Lexed(EOF, "", p) else
    TokenAt(s, p, rangeError)
  }

  predicate Final(t: Token) {
    t == EOF || t == UNKNOWN
  }

  /** All lexemes from position `i` on: they end with EOF, or with UNKNOWN at a lexical error. */
  function Lexemes(s: string, i: nat, rangeError: string -> bool): (r: seq<Lexeme>)
    requires i <= |s|
    ensures r != []
    decreases |s| - i
  {
    var l := Lex(s, i, rangeError);
    if Final(l.token) then [Lexeme(l.token, "")]
    else [Lexeme(l.token, l.text)] + Lexemes(s, l.next, rangeError)
  }
}
