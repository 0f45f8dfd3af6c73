/**
 Whole texts: json_parse accepts a grammatical text exactly up to the nesting limit, and a text it
 accepts is grammatical exactly when no failure was absorbed and nothing is left over.

 Grammatical here means the grammar of RFC 8259 with what the lexer adds: the word `string`, vertical
 tabs as blanks, and control characters other than NUL, tab and newline in strings.
 */
module JsonDocument {
  import opened Common
  import opened JsonNumber
  import opened JsonLexer
  import opened JsonGrammar
  import opened JsonText
  import opened JsonStream
  import opened JsonSound
  import opened JsonLimit

  /** The text spells a well-formed value with this tree. */
  ghost predicate Grammatical(text: string, v: Value, rangeError: string -> bool) {
    exists s :: WellFormed(s, rangeError) && Spells(text, TokensOf(s)) && Meaning(s) == v
  }

  // ----- from lexemes back to the text

  lemma {:induction false} LexemesEnd(s: string, i: nat, rangeError: string -> bool)
    requires i <= |s|
    ensures var r := Lexemes(s, i, rangeError);
            NoneFinal(r[..|r| - 1]) && Final(r[|r| - 1].token) && r[|r| - 1].text == ""
    decreases |s| - i
  {
    hide Lex;
    var l := Lex(s, i, rangeError);
    if !Final(l.token) {
      LexemesEnd(s, l.next, rangeError);
      var rest := Lexemes(s, l.next, rangeError);
      var r := Lexemes(s, i, rangeError);
      assert r[..|r| - 1] == [Lexeme(l.token, l.text)] + rest[..|rest| - 1];
    }
  }

  lemma {:induction false} SkippedIsBlank(s: string, i: nat)
    requires i <= |s|
    ensures IsBlank(s[i..SkipBlanks(s, i)])
    decreases |s| - i
  {
    var j := SkipBlanks(s, i);
    if i < |s| && IsSpace(s[i]) && s[i] != FORM_FEED {
      SkippedIsBlank(s, i + 1);
      assert s[i..j] == [s[i]] + s[i + 1..j];
    }
  }

  /** What a token was read from is its spelling. */
  lemma TokenSpelled(s: string, p: nat, rangeError: string -> bool)
    requires p < |s| && TokenAt(s, p, rangeError).token != UNKNOWN
    ensures var l := TokenAt(s, p, rangeError); var x := Lexeme(l.token, l.text);
            l.next == p + |Spell(x)| <= |s| && s[p..l.next] == Spell(x) && Legal(x, rangeError)
  {
    hide Units, ClosingQuote, NumberAt, NumberText, IsNumber;
    if s[p] == '"' {
      QuotedSpelled(s, p, rangeError);
    } else if s[p] == '-' || IsDigit(s[p]) {
      NumberSpelled(s, p, rangeError);
    }
  }

  lemma Bracketed(s: string, p: nat, q: nat)
    requires p < q < |s| && s[p] == '"' && s[q] == '"'
    ensures s[p..q + 1] == "\"" + s[p + 1..q] + "\""
  {
  }

  lemma QuotedText(text: string, rangeError: string -> bool)
    ensures Spell(Lexeme(QSTRING, text)) == "\"" + text + "\""
    ensures Units(text) ==> Legal(Lexeme(QSTRING, text), rangeError)
  {
  }

  lemma QuotedSpelled(s: string, p: nat, rangeError: string -> bool)
    requires p < |s| && s[p] == '"' && ClosingQuote(s, p + 1).Some?
    ensures var q := ClosingQuote(s, p + 1).value; var x := Lexeme(QSTRING, s[p + 1..q]);
            q + 1 == p + |Spell(x)| <= |s| && s[p..q + 1] == Spell(x) && Legal(x, rangeError)
  {
    hide ClosingQuote, Units, IsNumber;
    var q := ClosingQuote(s, p + 1).value;
    ClosingQuoteEndsUnits(s, p + 1, q);
    Bracketed(s, p, q);
    hide Spell, Legal;
    QuotedText(s[p + 1..q], rangeError);
  }

  lemma NumberSpelled(s: string, p: nat, rangeError: string -> bool)
    requires p < |s| && (s[p] == '-' || IsDigit(s[p])) && NumberAt(s, p, rangeError).token != UNKNOWN
    ensures var l := NumberAt(s, p, rangeError);
            l.token == NUMBER && l.next == p + |l.text| <= |s| && s[p..l.next] == l.text && Legal(Lexeme(NUMBER, l.text), rangeError)
  {
    hide IsNumber;
    var e := NumberEnd(s, p);
    assert forall k :: 0 <= k < e - p ==> s[p..e][k] == s[p + k];
  }

  /** The lexemes of a text without lexical error are legal, and the text spells them. */
  lemma {:induction false} LexemesSpell(s: string, p: nat, rangeError: string -> bool) returns (ws: seq<string>)
    requires p <= |s|
    requires var r := Lexemes(s, p, rangeError); r[|r| - 1].token == EOF
    ensures var r := Lexemes(s, p, rangeError); var toks := r[..|r| - 1];
            |ws| == |toks| + 1 && Blanks(ws) && AllLegal(toks, rangeError) && s[p..] == Layout(toks, ws)
    decreases |s| - p
  {
    var j := SkipBlanks(s, p);
    SkippedIsBlank(s, p);
    var blank := s[p..j];
    var l := Lex(s, p, rangeError);
    var r := Lexemes(s, p, rangeError);
    if j == |s| {
      ws := [blank];
      assert r[..|r| - 1] == [];
    } else {
      hide TokenAt;
      TokenSpelled(s, j, rangeError);
      var x := Lexeme(l.token, l.text);
      var rest := Lexemes(s, l.next, rangeError);
      var more := LexemesSpell(s, l.next, rangeError);
      ws := [blank] + more;
      LayoutGrows(s, p, j, l.next, x, r[..|r| - 1], rest[..|rest| - 1], blank, more, rangeError);
    }
  }

  lemma LayoutGrows(s: string, p: nat, j: nat, e: nat, x: Lexeme, toks: seq<Lexeme>, rest: seq<Lexeme>,
                    blank: string, more: seq<string>, rangeError: string -> bool)
    requires p <= j <= e <= |s| && s[p..j] == blank && s[j..e] == Spell(x) && IsBlank(blank)
    requires toks == [x] + rest && Legal(x, rangeError)
    requires |more| == |rest| + 1 && Blanks(more) && AllLegal(rest, rangeError) && s[e..] == Layout(rest, more)
    ensures var ws := [blank] + more;
            Blanks(ws) && AllLegal(toks, rangeError) && s[p..] == Layout(toks, ws)
  {
    hide Spell, Legal;
    var ws := [blank] + more;
    assert ws[1..] == more && toks[1..] == rest;
    ThreeParts(s, p, j, e);
  }

  lemma ThreeParts(s: string, p: nat, j: nat, e: nat)
    requires p <= j <= e <= |s|
    ensures s[p..] == s[p..j] + (s[j..e] + s[e..])
  {
  }

  // ----- legal lexemes make well-formed values

  lemma LegalParts(a: seq<Lexeme>, b: seq<Lexeme>, rangeError: string -> bool)
    requires AllLegal(a + b, rangeError)
    ensures AllLegal(a, rangeError) && AllLegal(b, rangeError)
  {
    hide Legal;
    forall i | 0 <= i < |a| ensures Legal(a[i], rangeError) { assert (a + b)[i] == a[i]; }
    forall i | 0 <= i < |b| ensures Legal(b[i], rangeError) { assert (a + b)[|a| + i] == b[i]; }
  }

  lemma {:induction false} LegalValue(s: Syntax, rangeError: string -> bool)
    requires AllLegal(TokensOf(s), rangeError)
    ensures WellFormed(s, rangeError)
    decreases s, 1
  {
    match s
    case SNumber(numeral) =>
      assert Legal(TokensOf(s)[0], rangeError);
      NumberFilterIsRfc(numeral, rangeError);
    case SString(_) =>
      assert Legal(TokensOf(s)[0], rangeError);
    case SArray(es) =>
      LegalParts([Sym(ARRAYSTART)] + ElementTokens(es), [Sym(ARRAYEND)], rangeError);
      LegalParts([Sym(ARRAYSTART)], ElementTokens(es), rangeError);
      LegalElements(es, rangeError);
    case SObject(ms) =>
      LegalParts([Sym(OBJECTSTART)] + MemberTokens(ms), [Sym(OBJECTEND)], rangeError);
      LegalParts([Sym(OBJECTSTART)], MemberTokens(ms), rangeError);
      LegalMembers(ms, rangeError);
    case _ =>
  }

  lemma {:induction false} LegalElements(es: seq<Syntax>, rangeError: string -> bool)
    requires AllLegal(ElementTokens(es), rangeError)
    ensures AllWellFormed(es, rangeError)
    decreases es, 0
  {
    if |es| == 1 {
      LegalValue(es[0], rangeError);
    } else if |es| > 1 {
      LegalParts(TokensOf(es[0]) + [Sym(COMMA)], ElementTokens(es[1..]), rangeError);
      LegalParts(TokensOf(es[0]), [Sym(COMMA)], rangeError);
      LegalValue(es[0], rangeError);
      LegalElements(es[1..], rangeError);
    }
  }

  lemma {:induction false} LegalMembers(ms: seq<SMember>, rangeError: string -> bool)
    requires AllLegal(MemberTokens(ms), rangeError)
    ensures MembersWellFormed(ms, rangeError)
    decreases ms, 0
  {
    if ms != [] {
      var first := NameTokens(ms[0]) + TokensOf(ms[0].value);
      if |ms| > 1 {
        LegalParts(first + [Sym(COMMA)], MemberTokens(ms[1..]), rangeError);
        LegalParts(first, [Sym(COMMA)], rangeError);
        LegalMembers(ms[1..], rangeError);
      }
      LegalParts(NameTokens(ms[0]), TokensOf(ms[0].value), rangeError);
      assert Legal(NameTokens(ms[0])[0], rangeError);
      LegalValue(ms[0].value, rangeError);
    }
  }

  // ----- the theorems

  lemma {:induction false} LexesValue(s: Syntax, text: string, rangeError: string -> bool)
    requires WellFormed(s, rangeError) && Spells(text, TokensOf(s))
    ensures Lexemes(text, 0, rangeError) == TokensOf(s) + [Sym(EOF)]
  {
    hide Lexemes, Layout, WellFormed;
    var ws :| |ws| == |TokensOf(s)| + 1 && Blanks(ws) && text == Layout(TokensOf(s), ws);
    GoodValue(s, rangeError);
    assert text[0..] == text;
    LexesLayout(text, 0, TokensOf(s), ws, rangeError);
  }

  lemma {:induction false} SpellsValue(s: Syntax, text: string, rangeError: string -> bool)
    requires Lexemes(text, 0, rangeError) == TokensOf(s) + [Sym(EOF)]
    ensures WellFormed(s, rangeError) && Spells(text, TokensOf(s))
  {
    hide Lexemes, Layout;
    var r := Lexemes(text, 0, rangeError);
    assert r[..|r| - 1] == TokensOf(s) && text[0..] == text;
    var ws := LexemesSpell(text, 0, rangeError);
    LegalValue(s, rangeError);
  }

  /** A grammatical text is accepted, with the tree it denotes, if and only if its arrays nest at most 19 deep. */
  lemma {:induction false} AcceptsExactly(s: Syntax, text: string, rangeError: string -> bool)
    requires WellFormed(s, rangeError) && Spells(text, TokensOf(s))
    ensures var r := ParseDocument(Lexemes(text, 0, rangeError));
            && (r.0 == Success <==> ArrayDepth(s) <= 19)
            && (r.0 == Success ==> r == (Success, Some(Meaning(s)), State([Sym(EOF)], 0)))
  {
    hide Lexemes, WellFormed, ParseDocument;
    LexesValue(s, text, rangeError);
    DocumentExactly(s);
    if ArrayDepth(s) <= MAX_ARRAY_NESTING { ParsesDocument(s); }
  }

  lemma {:induction false} LexemesTidy(s: string, i: nat, rangeError: string -> bool)
    requires i <= |s|
    ensures Tidy(Lexemes(s, i, rangeError))
    decreases |s| - i
  {
    var l := Lex(s, i, rangeError);
    assert !HasValue(l.token) ==> l.text == "";
    hide Lex;
    if !Final(l.token) { LexemesTidy(s, l.next, rangeError); }
  }

  /** The rest of a text's lexemes is its end when the first of them is. */
  lemma AtEof(a: seq<Lexeme>, r: seq<Lexeme>)
    requires r != [] && NoneFinal(r[..|r| - 1]) && r[|r| - 1].text == "" && Suffix(a, r) && (a == [] || a[0].token == EOF)
    ensures a == [Sym(EOF)]
  {
    var i := |r| - |a|;
    assert a[0] == r[i];
  }

  /** What is left behind the value of a document. */
  ghost function Left(text: string, rangeError: string -> bool): State {
    ParseValue(State(Lexemes(text, 0, rangeError), 0)).1
  }

  /** Some container of the document absorbed a failure. */
  ghost predicate Absorbed(text: string, rangeError: string -> bool) {
    Absorbs(State(Lexemes(text, 0, rangeError), 0))
  }

  lemma {:induction false} GrammaticalIfClean(text: string, rangeError: string -> bool)
    requires var (status, v, _) := ParseDocument(Lexemes(text, 0, rangeError)); v.Some?
    requires !Absorbed(text, rangeError) && Left(text, rangeError).Head() == EOF
    ensures var v := ParseDocument(Lexemes(text, 0, rangeError)).1; Grammatical(text, v.value, rangeError)
  {
    hide Lexemes, ParseValue, Absorbs, Spells, WellFormed, TokensOf, Meaning, Tidy, Suffix, NoneFinal;
    var toks := Lexemes(text, 0, rangeError);
    var p := State(toks, 0);
    var (v, q) := ParseValue(p);
    LexemesTidy(text, 0, rangeError);
    SoundExactly(p);
    var s :| toks == TokensOf(s) + q.toks && Meaning(s) == v.value;
    ValueSuffix(p);
    LexemesEnd(text, 0, rangeError);
    AtEof(q.toks, toks);
    SpellsValue(s, text, rangeError);
  }

  /**
   Soundness, exactly: a text that json_parse accepts is grammatical, with the tree returned, if and only
   if no container absorbed a failure and no extra token stands before a lexical error.
   */
  lemma {:induction false} SuccessExactly(text: string, rangeError: string -> bool)
    requires ParseDocument(Lexemes(text, 0, rangeError)).0 == Success
    ensures var v := ParseDocument(Lexemes(text, 0, rangeError)).1;
            && v.Some?
            && (Grammatical(text, v.value, rangeError) <==>
                !Absorbed(text, rangeError) && Left(text, rangeError).Head() == EOF)
  {
    hide Lexemes, ParseValue, Absorbs, Spells, WellFormed;
    var toks := Lexemes(text, 0, rangeError);
    var v := ParseDocument(toks).1;
    if !Absorbed(text, rangeError) && Left(text, rangeError).Head() == EOF {
      GrammaticalIfClean(text, rangeError);
    }
    if s :| WellFormed(s, rangeError) && Spells(text, TokensOf(s)) && Meaning(s) == v.value {
      LexesValue(s, text, rangeError);
      DocumentExactly(s);
      ParsesValue(s, [Sym(EOF)], 0);
      LexemesTidy(text, 0, rangeError);
      SoundExactly(State(toks, 0));
      assert Read(toks, v.value, [Sym(EOF)]);
    }
  }

  /** A text whose tree has no empty array or object, and that is consumed whole, is grammatical. */
  lemma {:induction false} SuccessWithoutEmpty(text: string, rangeError: string -> bool)
    requires var (status, v, _) := ParseDocument(Lexemes(text, 0, rangeError)); v.Some? && !HasEmpty(v.value)
    requires Left(text, rangeError).Head() == EOF
    ensures var v := ParseDocument(Lexemes(text, 0, rangeError)).1; Grammatical(text, v.value, rangeError)
  {
    hide Lexemes, ParseValue, Absorbs, HasEmpty, Grammatical;
    LexemesTidy(text, 0, rangeError);
    SoundWithoutEmpty(State(Lexemes(text, 0, rangeError), 0));
    GrammaticalIfClean(text, rangeError);
  }

  /** The parser and the grammar agree: what it accepts cleanly is what nests at most 19 deep. */
  lemma {:induction false} RecognisesExactly(text: string, rangeError: string -> bool)
    ensures (exists s :: WellFormed(s, rangeError) && Spells(text, TokensOf(s)) && ArrayDepth(s) <= 19)
            <==> (&& ParseDocument(Lexemes(text, 0, rangeError)).0 == Success
                  && !Absorbed(text, rangeError) && Left(text, rangeError).Head() == EOF)
  {
    hide Lexemes, ParseValue, Absorbed, Left, Spells, WellFormed, ParseDocument;
    if s :| WellFormed(s, rangeError) && Spells(text, TokensOf(s)) && ArrayDepth(s) <= MAX_ARRAY_NESTING {
      AcceptsExactly(s, text, rangeError);
      assert Grammatical(text, Meaning(s), rangeError);
      SuccessExactly(text, rangeError);
    }
    if ParseDocument(Lexemes(text, 0, rangeError)).0 == Success
       && !Absorbed(text, rangeError) && Left(text, rangeError).Head() == EOF {
      SuccessExactly(text, rangeError);
      var v := ParseDocument(Lexemes(text, 0, rangeError)).1;
      var s :| WellFormed(s, rangeError) && Spells(text, TokensOf(s)) && Meaning(s) == v.value;
      AcceptsExactly(s, text, rangeError);
    }
  }

  /** Any other token behind a document is refused. */
  lemma {:induction false} ExtraTokenRefused(s: Syntax, x: Lexeme, rest: seq<Lexeme>)
    requires ArrayDepth(s) <= 19 && !Final(x.token) && rest != [] && rest[0].token != UNKNOWN
    ensures ParseDocument(TokensOf(s) + ([x] + rest)) == (TrailingData, Some(Meaning(s)), State(rest, 0))
  {
    hide ParseValue;
    ParsesValue(s, [x] + rest, 0);
    assert ([x] + rest)[1..] == rest;
  }

  /** A text that starts with a lexical error has no input, and one of blanks only is invalid. */
  lemma NothingToParse(text: string, rangeError: string -> bool)
    ensures Lex(text, 0, rangeError).token == UNKNOWN <==> ParseDocument(Lexemes(text, 0, rangeError)).0 == NoInput
    ensures IsBlank(text) ==> ParseDocument(Lexemes(text, 0, rangeError)).0 == Invalid
  {
    if IsBlank(text) {
      assert text[0..] == text;
      LexesBlanks(text, 0, rangeError);
    }
    hide Lex;
  }

  /** One extra token before a lexical error does not stop a document from succeeding. */
  lemma {:induction false} ExtraTokenSucceeds(s: Syntax, x: Lexeme)
    requires ArrayDepth(s) <= 19 && !Final(x.token)
    ensures ParseDocument(TokensOf(s) + ([x] + [Sym(UNKNOWN)])) == (Success, Some(Meaning(s)), State([Sym(UNKNOWN)], 0))
  {
    hide ParseValue;
    var rest := [x] + [Sym(UNKNOWN)];
    ParsesValue(s, rest, 0);
    assert rest[1..] == [Sym(UNKNOWN)];
  }
}
