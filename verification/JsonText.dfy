/**
 JSON texts: lexemes spelled out with blanks between them, and the printer. Every grammatical text
 is parsed to the tree it denotes, and printing is inverted by parsing.
 */
module JsonText {
  import opened Common
  import opened JsonNumber
  import opened JsonLexer
  import opened JsonGrammar

  function Spell(x: Lexeme): string {
    match x.token
    case QSTRING => "\"" + x.text + "\""
    case NUMBER => x.text
    case TRUE => "true"
    case FALSE => "false"
    case NULL => "null"
    case STRING => "string"
    case BOOLEAN => "boolean"
    case COLON => ":"
    case COMMA => ","
    case OBJECTSTART => "{"
    case OBJECTEND => "}"
    case ARRAYSTART => "["
    case ARRAYEND => "]"
    case _ => ""
  }

  predicate IsBlank(s: string) {
    forall i :: 0 <= i < |s| ==> IsSpace(s[i]) && s[i] != FORM_FEED
  }

  ghost predicate Blanks(ws: seq<string>) {
    forall i :: 0 <= i < |ws| ==> IsBlank(ws[i])
  }

  /** The text of a lexeme sequence with `ws[i]` before lexeme i and the last blanks at the end. */
  ghost function Layout(toks: seq<Lexeme>, ws: seq<string>): string
    requires |ws| == |toks| + 1
  {
    if toks == [] then ws[0] else ws[0] + (Spell(toks[0]) + Layout(toks[1..], ws[1..]))
  }

  /** A lexeme that nextsym can deliver. */
  ghost predicate Legal(x: Lexeme, rangeError: string -> bool) {
    match x.token
    case QSTRING => Units(x.text)
    case NUMBER => NumberText(x.text) && IsNumber(x.text, rangeError)
    case _ => x.text == "" && Spell(x) != ""
  }

  ghost predicate AllLegal(toks: seq<Lexeme>, rangeError: string -> bool) {
    forall i :: 0 <= i < |toks| ==> Legal(toks[i], rangeError)
  }

  predicate EndsNumber(t: Token) {
    t == COMMA || t == ARRAYEND || t == OBJECTEND
  }

  /** A number is followed by a comma, a closing bracket or brace, or nothing. */
  ghost predicate Separated(toks: seq<Lexeme>) {
    forall i :: 0 <= i < |toks| - 1 && toks[i].token == NUMBER ==> EndsNumber(toks[i + 1].token)
  }

  // ----- lexing a layout

  lemma {:induction false} SkipsBlanks(s: string, i: nat, j: nat)
    requires i <= j <= |s| && IsBlank(s[i..j])
    requires j < |s| ==> !IsSpace(s[j])
    ensures SkipBlanks(s, i) == j
    decreases j - i
  {
    if i < j {
      assert s[i] == s[i..j][0];
      assert s[i + 1..j] == s[i..j][1..];
      SkipsBlanks(s, i + 1, j);
    }
  }

  lemma {:induction false} NumberEndIs(s: string, i: nat, j: nat)
    requires i <= j <= |s|
    requires forall k :: i <= k < j ==> IsNumberChar(s[k])
    requires j < |s| ==> !IsNumberChar(s[j])
    ensures NumberEnd(s, i) == j
    decreases j - i
  {
    if i < j { NumberEndIs(s, i + 1, j); }
  }

  ghost predicate SpelledAt(s: string, p: nat, x: Lexeme) {
    p + |Spell(x)| <= |s| && s[p..p + |Spell(x)|] == Spell(x)
  }

  lemma SpellStart(s: string, p: nat, x: Lexeme, rangeError: string -> bool)
    requires SpelledAt(s, p, x) && Legal(x, rangeError)
    ensures p < |s| && s[p] == Spell(x)[0] && !IsSpace(s[p]) && s[p] != '\0'
    ensures x.token == NUMBER <==> IsNumberChar(s[p])
    ensures EndsNumber(x.token) ==> !IsNumberChar(s[p])
  {
    assert s[p] == s[p..p + |Spell(x)|][0];
  }

  lemma SliceOfSlice<T>(s: seq<T>, p: nat, q: nat, i: nat, j: nat)
    requires p <= q <= |s| && i <= j <= q - p
    ensures s[p..q][i..j] == s[p + i..p + j]
  {
    var a, b := s[p..q][i..j], s[p + i..p + j];
    assert |a| == |b|;
    assert forall k :: 0 <= k < |a| ==> a[k] == b[k];
  }

  /** The parts of a slice, in place. */
  lemma SlicesOf(s: string, p: nat, a: string, b: string, c: string)
    requires p + |a| + |b| + |c| <= |s|
    requires s[p..p + |a| + |b| + |c|] == a + b + c
    ensures s[p..p + |a|] == a && s[p + |a|..p + |a| + |b|] == b
    ensures s[p + |a| + |b|..p + |a| + |b| + |c|] == c
  {
    var t := s[p..p + |a| + |b| + |c|];
    assert t[..|a|] == a && t[|a|..|a| + |b|] == b && t[|a| + |b|..] == c;
    SliceOfSlice(s, p, p + |t|, |a|, |a| + |b|);
    SliceOfSlice(s, p, p + |t|, |a| + |b|, |t|);
  }

  lemma ReadsQuoted(s: string, p: nat, x: Lexeme)
    requires x.token == QSTRING && Units(x.text) && SpelledAt(s, p, x)
    ensures p < |s| && s[p] == '"' && QuotedAt(s, p + 1) == Lexed(QSTRING, x.text, p + |Spell(x)|)
  {
    var q := p + 1 + |x.text|;
    SlicesOf(s, p, "\"", x.text, "\"");
    ClosingQuoteEndsUnits(s, p + 1, q);
  }

  lemma ReadsNumber(s: string, p: nat, x: Lexeme, rangeError: string -> bool)
    requires x.token == NUMBER && Legal(x, rangeError) && SpelledAt(s, p, x)
    requires var e := p + |x.text|; e < |s| ==> !IsNumberChar(s[e]) && s[e] != '\0'
    ensures NumberAt(s, p, rangeError) == Lexed(NUMBER, x.text, p + |x.text|)
  {
    var e := p + |x.text|;
    assert s[p..e] == x.text;
    forall k | p <= k < e ensures IsNumberChar(s[k]) { assert s[k] == x.text[k - p]; }
    NumberEndIs(s, p, e);
  }

  lemma ReadsSpelled(s: string, p: nat, x: Lexeme, rangeError: string -> bool)
    requires Legal(x, rangeError) && SpelledAt(s, p, x)
    requires var e := p + |Spell(x)|; x.token == NUMBER && e < |s| ==> !IsNumberChar(s[e]) && s[e] != '\0'
    ensures p < |s| && TokenAt(s, p, rangeError) == Lexed(x.token, x.text, p + |Spell(x)|)
  {
    SpellStart(s, p, x, rangeError);
    if x.token == QSTRING { ReadsQuoted(s, p, x); }
    if x.token == NUMBER { ReadsNumber(s, p, x, rangeError); }
  }

  lemma LayoutStart(toks: seq<Lexeme>, ws: seq<string>, rangeError: string -> bool)
    requires |ws| == |toks| + 1 && Blanks(ws) && AllLegal(toks, rangeError)
    ensures var t := Layout(toks, ws);
            t == "" || IsSpace(t[0]) ||
            (toks != [] && t[0] != '\0' && (EndsNumber(toks[0].token) ==> !IsNumberChar(t[0])))
  {
    if ws[0] != "" {
      assert Layout(toks, ws)[0] == ws[0][0];
    } else if toks != [] {
      var x := toks[0];
      assert Legal(x, rangeError) && Spell(x) != "";
      assert Layout(toks, ws) == Spell(x) + Layout(toks[1..], ws[1..]);
      SpellStart(Spell(x), 0, x, rangeError);
    }
  }

  lemma {:induction false} LexemesStep(s: string, p: nat, x: Lexeme, e: nat, rangeError: string -> bool)
    requires p <= |s| && Lex(s, p, rangeError) == Lexed(x.token, x.text, e) && !Final(x.token)
    ensures Lexemes(s, p, rangeError) == [x] + Lexemes(s, e, rangeError)
  {
  }

  lemma FirstOfLayout(s: string, p: nat, toks: seq<Lexeme>, ws: seq<string>)
    requires toks != [] && |ws| == |toks| + 1 && p <= |s| && s[p..] == Layout(toks, ws)
    ensures var j := p + |ws[0]|; var e := j + |Spell(toks[0])|;
            e <= |s| && s[p..j] == ws[0] && s[j..e] == Spell(toks[0]) && s[e..] == Layout(toks[1..], ws[1..])
  {
    var a, b, c := ws[0], Spell(toks[0]), Layout(toks[1..], ws[1..]);
    assert a + (b + c) == a + b + c;
    SlicesOf(s, p, a, b, c);
  }

  /** What follows a number in a layout ends it. */
  lemma NumberEnds(s: string, e: nat, toks: seq<Lexeme>, ws: seq<string>, rangeError: string -> bool)
    requires toks != [] && |ws| == |toks| + 1 && Blanks(ws) && AllLegal(toks, rangeError) && Separated(toks)
    requires e < |s| && s[e..] == Layout(toks[1..], ws[1..]) && toks[0].token == NUMBER
    ensures !IsNumberChar(s[e]) && s[e] != '\0'
  {
    hide Layout, Legal;
    LayoutStart(toks[1..], ws[1..], rangeError);
    assert s[e] == s[e..][0];
    if |toks| > 1 { assert EndsNumber(toks[0 + 1].token); }
  }

  /** Blanks, then a legal lexeme that is ended by what follows. */
  lemma LexesSpelled(s: string, p: nat, j: nat, x: Lexeme, rangeError: string -> bool)
    requires p <= j <= |s| && IsBlank(s[p..j]) && SpelledAt(s, j, x) && Legal(x, rangeError)
    requires var e := j + |Spell(x)|; x.token == NUMBER && e < |s| ==> !IsNumberChar(s[e]) && s[e] != '\0'
    ensures Lex(s, p, rangeError) == Lexed(x.token, x.text, j + |Spell(x)|)
  {
    hide SkipBlanks, TokenAt, Spell, Legal, SpelledAt;
    SpellStart(s, j, x, rangeError);
    SkipsBlanks(s, p, j);
    ReadsSpelled(s, j, x, rangeError);
  }

  ghost predicate GoodLayout(toks: seq<Lexeme>, ws: seq<string>, rangeError: string -> bool) {
    |ws| == |toks| + 1 && Blanks(ws) && AllLegal(toks, rangeError) && Separated(toks)
  }

  lemma LexesFirst(s: string, p: nat, toks: seq<Lexeme>, ws: seq<string>, rangeError: string -> bool)
    requires toks != [] && GoodLayout(toks, ws, rangeError)
    requires p <= |s| && s[p..] == Layout(toks, ws)
    ensures var x := toks[0]; var e := p + |ws[0]| + |Spell(x)|;
            e <= |s| && s[e..] == Layout(toks[1..], ws[1..]) &&
            Lex(s, p, rangeError) == Lexed(x.token, x.text, e)
  {
    hide Layout, Lex, Separated, Spell, Legal, IsBlank;
    var x := toks[0];
    var j := p + |ws[0]|;
    var e := j + |Spell(x)|;
    FirstOfLayout(s, p, toks, ws);
    if x.token == NUMBER && e < |s| { NumberEnds(s, e, toks, ws, rangeError); }
    LexesSpelled(s, p, j, x, rangeError);
  }

  lemma GoodTail(toks: seq<Lexeme>, ws: seq<string>, rangeError: string -> bool)
    requires toks != [] && GoodLayout(toks, ws, rangeError)
    ensures GoodLayout(toks[1..], ws[1..], rangeError)
    ensures !Final(toks[0].token)
  {
    assert Legal(toks[0], rangeError);
    assert forall i :: 0 <= i < |toks| - 1 ==> toks[1..][i] == toks[i + 1];
  }

  lemma LexesBlanks(s: string, p: nat, rangeError: string -> bool)
    requires p <= |s| && IsBlank(s[p..])
    ensures Lexemes(s, p, rangeError) == [Sym(EOF)]
  {
    assert s[p..|s|] == s[p..];
    SkipsBlanks(s, p, |s|);
  }

  /** Lexing a layout gives back its lexemes, then the end of input. */
  lemma {:induction false} LexesLayout(
    s: string, p: nat, toks: seq<Lexeme>, ws: seq<string>, rangeError: string -> bool)
    requires GoodLayout(toks, ws, rangeError)
    requires p <= |s| && s[p..] == Layout(toks, ws)
    ensures Lexemes(s, p, rangeError) == toks + [Sym(EOF)]
    decreases |toks|
  {
    if toks == [] {
      LexesBlanks(s, p, rangeError);
    } else {
      hide Lexemes, Lex, Layout, Blanks, AllLegal, Separated, Spell;
      var x := toks[0];
      var e := p + |ws[0]| + |Spell(x)|;
      LexesFirst(s, p, toks, ws, rangeError);
      GoodTail(toks, ws, rangeError);
      LexesLayout(s, e, toks[1..], ws[1..], rangeError);
      LexemesStep(s, p, x, e, rangeError);
      assert toks == [x] + toks[1..];
    }
  }

  // ----- grammatical texts

  /** A number the lexer takes: short enough for its buffer and, unless an integer, in range. */
  ghost predicate NumberFits(s: string, rangeError: string -> bool) {
    |s| < 512 && RfcNumber(s) && (RfcInteger(s) || !rangeError(s))
  }

  /** Strings are made of units and numbers fit. */
  ghost predicate WellFormed(s: Syntax, rangeError: string -> bool)
    decreases s, 1
  {
    match s
    case SString(raw) => Units(raw)
    case SNumber(numeral) => NumberFits(numeral, rangeError)
    case SArray(es) => AllWellFormed(es, rangeError)
    case SObject(ms) => MembersWellFormed(ms, rangeError)
    case _ => true
  }

  ghost predicate AllWellFormed(es: seq<Syntax>, rangeError: string -> bool)
    decreases es, 0
  {
    es == [] || (WellFormed(es[0], rangeError) && AllWellFormed(es[1..], rangeError))
  }

  ghost predicate MembersWellFormed(ms: seq<SMember>, rangeError: string -> bool)
    decreases ms, 0
  {
    ms == [] || (Units(ms[0].name) && WellFormed(ms[0].value, rangeError) && MembersWellFormed(ms[1..], rangeError))
  }

  lemma RfcNumberText(s: string)
    requires RfcNumber(s)
    ensures NumberText(s)
  {
    var m, i, f, e :| RfcParts(s, m, i, f, e);
    RfcHasShape(s, m, i, f, e);
    assert forall k :: 0 <= k < |s| ==> IsNumberChar(s[k]);
  }

  lemma FittingNumberIsLegal(s: string, rangeError: string -> bool)
    requires NumberFits(s, rangeError)
    ensures Legal(Lexeme(NUMBER, s), rangeError)
  {
    RfcNumberText(s);
    NumberFilterIsRfc(s, rangeError);
  }

  /** Legal lexemes that stay separated when a comma or a closing symbol follows. */
  ghost predicate GoodTokens(toks: seq<Lexeme>, rangeError: string -> bool) {
    AllLegal(toks, rangeError) && Separated(toks)
  }

  lemma GoodAppend(a: seq<Lexeme>, b: seq<Lexeme>, rangeError: string -> bool)
    requires GoodTokens(a, rangeError) && GoodTokens(b, rangeError)
    requires a == [] || b == [] || a[|a| - 1].token != NUMBER || EndsNumber(b[0].token)
    ensures GoodTokens(a + b, rangeError)
  {
    hide Legal;
    var c := a + b;
    forall i | 0 <= i < |c| - 1 && c[i].token == NUMBER ensures EndsNumber(c[i + 1].token) {
      if i + 1 < |a| { assert c[i] == a[i] && c[i + 1] == a[i + 1]; }
      else if i + 1 == |a| { assert c[i] == a[i] && c[i + 1] == b[0]; }
      else { var k := i - |a|; assert c[i] == b[k] && c[i + 1] == b[k + 1]; }
    }
  }

  lemma GoodSymbol(t: Token, rangeError: string -> bool)
    requires !HasValue(t) && Spell(Sym(t)) != ""
    ensures GoodTokens([Sym(t)], rangeError)
  {
  }

  lemma GoodWrapped(open: Token, inner: seq<Lexeme>, close: Token, rangeError: string -> bool)
    requires GoodTokens(inner, rangeError) && open in {ARRAYSTART, OBJECTSTART} && close in {ARRAYEND, OBJECTEND}
    ensures GoodTokens([Sym(open)] + inner + [Sym(close)], rangeError)
  {
    hide GoodTokens, Legal;
    GoodSymbol(open, rangeError);
    GoodSymbol(close, rangeError);
    GoodAppend([Sym(open)], inner, rangeError);
    GoodAppend([Sym(open)] + inner, [Sym(close)], rangeError);
  }

  lemma {:induction false} GoodValue(s: Syntax, rangeError: string -> bool)
    requires WellFormed(s, rangeError)
    ensures GoodTokens(TokensOf(s), rangeError)
    decreases s, 1
  {
    match s
    case SNumber(numeral) =>
      FittingNumberIsLegal(numeral, rangeError);
    case SArray(es) =>
      hide GoodTokens, ElementTokens;
      GoodElements(es, rangeError);
      GoodWrapped(ARRAYSTART, ElementTokens(es), ARRAYEND, rangeError);
    case SObject(ms) =>
      hide GoodTokens, MemberTokens;
      GoodMembers(ms, rangeError);
      GoodWrapped(OBJECTSTART, MemberTokens(ms), OBJECTEND, rangeError);
    case _ =>
  }

  lemma {:induction false} GoodElements(es: seq<Syntax>, rangeError: string -> bool)
    requires AllWellFormed(es, rangeError)
    ensures GoodTokens(ElementTokens(es), rangeError)
    decreases es, 0
  {
    if es != [] {
      GoodValue(es[0], rangeError);
      if |es| > 1 {
        GoodElements(es[1..], rangeError);
        GoodSymbol(COMMA, rangeError);
        GoodAppend(TokensOf(es[0]), [Sym(COMMA)], rangeError);
        GoodAppend(TokensOf(es[0]) + [Sym(COMMA)], ElementTokens(es[1..]), rangeError);
      }
    }
  }

  lemma GoodName(m: SMember, rangeError: string -> bool)
    requires Units(m.name)
    ensures GoodTokens(NameTokens(m), rangeError)
  {
  }

  lemma {:induction false} GoodMembers(ms: seq<SMember>, rangeError: string -> bool)
    requires MembersWellFormed(ms, rangeError)
    ensures GoodTokens(MemberTokens(ms), rangeError)
    decreases ms, 0
  {
    if ms != [] {
      GoodValue(ms[0].value, rangeError);
      GoodName(ms[0], rangeError);
      GoodAppend(NameTokens(ms[0]), TokensOf(ms[0].value), rangeError);
      if |ms| > 1 {
        var first := NameTokens(ms[0]) + TokensOf(ms[0].value);
        GoodMembers(ms[1..], rangeError);
        GoodSymbol(COMMA, rangeError);
        GoodAppend(first, [Sym(COMMA)], rangeError);
        GoodAppend(first + [Sym(COMMA)], MemberTokens(ms[1..]), rangeError);
      }
    }
  }

  /** `text` spells the lexemes, with blanks anywhere between them. */
  ghost predicate Spells(text: string, toks: seq<Lexeme>) {
    exists ws: seq<string> :: |ws| == |toks| + 1 && Blanks(ws) && text == Layout(toks, ws)
  }

  /**
   Completeness: json_parse accepts every text of every grammatical value whose arrays nest no
   deeper than the limit, with any blanks, and builds the tree the text denotes.
   */
  lemma AcceptsGrammaticalText(s: Syntax, text: string, rangeError: string -> bool)
    requires WellFormed(s, rangeError) && ArrayDepth(s) <= 19
    requires Spells(text, TokensOf(s))
    ensures ParseDocument(Lexemes(text, 0, rangeError)) == (Success, Some(Meaning(s)), State([Sym(EOF)], 0))
  {
    var ws :| |ws| == |TokensOf(s)| + 1 && Blanks(ws) && text == Layout(TokensOf(s), ws);
    GoodValue(s, rangeError);
    assert text[0..] == text;
    LexesLayout(text, 0, TokensOf(s), ws, rangeError);
    ParsesDocument(s);
  }
}
