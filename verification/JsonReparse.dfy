/**
 What the parser builds, from any text at all. Although it accepts more than the grammar, every tree
 it returns is one the printer prints and the parser reads back: printing repairs the text.
 */
module JsonReparse {
  import opened Common
  import opened JsonNumber
  import opened JsonLexer
  import opened JsonGrammar
  import opened JsonText
  import opened JsonPrint

  /** Legal strings, longs, and arrays nested no deeper than `room`. */
  ghost predicate Built(v: Value, room: int) {
    match v
    case QString(text) => Units(text)
    case Integer(n) => LONG_MIN <= n <= LONG_MAX
    case Array(vs) => room > 0 && forall i :: 0 <= i < |vs| ==> Built(vs[i], room - 1)
    case Object(ms) => forall i :: 0 <= i < |ms| ==> Units(ms[i].name) && Built(ms[i].value, room)
    case _ => true
  }

  ghost predicate AllBuilt(vs: seq<Value>, room: int) {
    forall i :: 0 <= i < |vs| ==> Built(vs[i], room)
  }

  ghost predicate MembersBuilt(ms: seq<Member>, room: int) {
    forall i :: 0 <= i < |ms| ==> Units(ms[i].name) && Built(ms[i].value, room)
  }

  lemma {:induction false} MoreRoom(v: Value, less: int, more: int)
    requires Built(v, less) && less <= more
    ensures Built(v, more)
  {
    match v
    case Array(vs) =>
      forall i | 0 <= i < |vs| ensures Built(vs[i], more - 1) { MoreRoom(vs[i], less - 1, more - 1); }
    case Object(ms) =>
      forall i | 0 <= i < |ms| ensures Built(ms[i].value, more) { MoreRoom(ms[i].value, less, more); }
    case _ =>
  }

  /** What the lexer guarantees of a stream: quoted strings hold units. */
  ghost predicate Lexical(toks: seq<Lexeme>) {
    forall i :: 0 <= i < |toks| && toks[i].token == QSTRING ==> Units(toks[i].text)
  }

  lemma QuotedIsUnits(s: string, i: nat, rangeError: string -> bool)
    requires i <= |s|
    ensures var l := Lex(s, i, rangeError); l.token == QSTRING ==> Units(l.text)
  {
    var p := SkipBlanks(s, i);
    if p < |s| && s[p] == '"' && ClosingQuote(s, p + 1).Some? {
      ClosingQuoteEndsUnits(s, p + 1, ClosingQuote(s, p + 1).value);
    }
  }

  lemma {:induction false} LexemesAreLexical(s: string, i: nat, rangeError: string -> bool)
    requires i <= |s|
    ensures Lexical(Lexemes(s, i, rangeError))
    decreases |s| - i
  {
    hide Lex;
    QuotedIsUnits(s, i, rangeError);
    var l := Lex(s, i, rangeError);
    if !Final(l.token) { LexemesAreLexical(s, l.next, rangeError); }
  }

  lemma AcceptKeepsLexical(p: State, t: Token)
    requires Lexical(p.toks)
    ensures Lexical(p.Accept(t).toks)
  {
  }

  /** The room a state leaves for arrays. */
  function Room(p: State): int {
    MAX_ARRAY_NESTING - p.narrays
  }

  lemma {:induction false} ValueIsBuilt(p: State)
    requires Lexical(p.toks)
    ensures var (v, q) := ParseValue(p); Lexical(q.toks) && (v.Some? ==> Built(v.value, Room(p)))
    decreases |p.toks|, 0
  {
    hide ParseElements, ParseMembers;
    var t := p.Head();
    AcceptKeepsLexical(p, t);
    if StartsValue(t) && p.Accepts(t) {
      if t == OBJECTSTART { ObjectIsBuilt(p.Accept(t)); }
      if t == ARRAYSTART { ArrayIsBuilt(p.Accept(t)); }
    }
  }

  lemma {:induction false} ArrayIsBuilt(p: State)
    requires Lexical(p.toks)
    ensures var (v, q) := ParseElements(p); Lexical(q.toks) && (v.Some? ==> Built(v.value, Room(p)))
    decreases |p.toks|, 2
  {
    hide ElementLoop;
    if p.narrays < MAX_ARRAY_NESTING {
      var q := p.(narrays := p.narrays + 1);
      ElementsAreBuilt(q, [], -1, Room(q));
      AcceptKeepsLexical(ElementLoop(q, [], -1).2, ARRAYEND);
    }
  }

  lemma {:induction false} ElementsAreBuilt(p: State, vs: seq<Value>, ncommas: int, room: int)
    requires Lexical(p.toks) && AllBuilt(vs, room) && Room(p) <= room
    ensures var (r, _, q) := ElementLoop(p, vs, ncommas); Lexical(q.toks) && AllBuilt(r, room)
    decreases |p.toks|, 1
  {
    hide ParseValue, Built;
    ValueIsBuilt(p);
    var (v, q) := ParseValue(p);
    AcceptKeepsLexical(q, COMMA);
    if v.Some? { MoreRoom(v.value, Room(p), room); }
    if !(vs == [] && v.None?) && q.Accepts(COMMA) {
      ElementsAreBuilt(q.Accept(COMMA), if v.Some? then vs + [v.value] else vs, ncommas + 1, room);
    }
  }

  lemma {:induction false} ObjectIsBuilt(p: State)
    requires Lexical(p.toks)
    ensures var (v, q) := ParseMembers(p); Lexical(q.toks) && (v.Some? ==> Built(v.value, Room(p)))
    decreases |p.toks|, 2
  {
    hide MemberLoop;
    MembersAreBuilt(p, [], -1, Room(p));
    AcceptKeepsLexical(MemberLoop(p, [], -1).2, OBJECTEND);
  }

  lemma {:induction false} MembersAreBuilt(p: State, ms: seq<Member>, ncommas: int, room: int)
    requires Lexical(p.toks) && MembersBuilt(ms, room) && Room(p) <= room
    ensures var (r, _, q) := MemberLoop(p, ms, ncommas); Lexical(q.toks) && MembersBuilt(r, room)
    decreases |p.toks|, 1
  {
    hide ParseMember, Built;
    MemberIsBuilt(p);
    var (m, q) := ParseMember(p);
    AcceptKeepsLexical(q, COMMA);
    if m.Some? { MoreRoom(m.value.value, Room(p), room); }
    if q.Accepts(COMMA) {
      MembersAreBuilt(q.Accept(COMMA), if m.Some? then ms + [m.value] else ms, ncommas + 1, room);
    }
  }

  lemma {:induction false} MemberIsBuilt(p: State)
    requires Lexical(p.toks)
    ensures var (m, q) := ParseMember(p);
            Lexical(q.toks) && (m.Some? ==> Units(m.value.name) && Built(m.value.value, Room(p)))
    decreases |p.toks|, 0
  {
    hide ParseValue, Built;
    var q := p.Accept(QSTRING);
    AcceptKeepsLexical(p, QSTRING);
    AcceptKeepsLexical(q, COLON);
    if p.Accepts(QSTRING) && q.Accepts(COLON) { ValueIsBuilt(q.Accept(COLON)); }
  }

  // ----- printing what was built

  ghost predicate NoDoubles(v: Value) {
    match v
    case Double(_) => false
    case Array(vs) => forall i :: 0 <= i < |vs| ==> NoDoubles(vs[i])
    case Object(ms) => forall i :: 0 <= i < |ms| ==> NoDoubles(ms[i].value)
    case _ => true
  }

  lemma {:induction false} BuiltIsPrintable(v: Value, room: nat)
    requires Built(v, room) && NoDoubles(v)
    ensures Printable(v) && ArrayDepth(Written(v)) <= room
    decreases v, 1
  {
    match v
    case Array(vs) => ElementsArePrintable(vs, room - 1);
    case Object(ms) => MembersArePrintable(ms, room);
    case _ =>
  }

  lemma {:induction false} ElementsArePrintable(vs: seq<Value>, room: nat)
    requires AllBuilt(vs, room) && forall i :: 0 <= i < |vs| ==> NoDoubles(vs[i])
    ensures AllPrintable(vs) && ElementsDepth(WrittenElements(vs)) <= room
    decreases vs, 0
  {
    if vs != [] {
      BuiltIsPrintable(vs[0], room);
      ElementsArePrintable(vs[1..], room);
      assert WrittenElements(vs)[1..] == WrittenElements(vs[1..]);
    }
  }

  lemma {:induction false} MembersArePrintable(ms: seq<Member>, room: nat)
    requires MembersBuilt(ms, room) && forall i :: 0 <= i < |ms| ==> NoDoubles(ms[i].value)
    ensures MembersPrintable(ms) && MembersDepth(WrittenMembers(ms)) <= room
    decreases ms, 0
  {
    if ms != [] {
      BuiltIsPrintable(ms[0].value, room);
      MembersArePrintable(ms[1..], room);
      assert WrittenMembers(ms)[1..] == WrittenMembers(ms[1..]);
    }
  }

  /**
   For every text, grammatical or not: if json_parse returns a tree without doubles, printing that
   tree and parsing the result succeeds and returns the same tree.
   */
  lemma ParsePrintParse(text: string, rangeError: string -> bool)
    ensures var v := ParseDocument(Lexemes(text, 0, rangeError)).1;
            v.Some? && NoDoubles(v.value) ==>
              Printable(v.value) &&
              ParseDocument(Lexemes(Print(v.value), 0, rangeError)) == (Success, v, State([Sym(EOF)], 0))
  {
    hide Lexemes, ParseValue, Print, Printable, NoDoubles, Built;
    var toks := Lexemes(text, 0, rangeError);
    LexemesAreLexical(text, 0, rangeError);
    ValueIsBuilt(State(toks, 0));
    var v := ParseDocument(toks).1;
    if v.Some? && NoDoubles(v.value) {
      BuiltIsPrintable(v.value, MAX_ARRAY_NESTING);
      PrintParse(v.value, rangeError);
    }
  }

  lemma NoValueAtEnd(p: State)
    requires p.Head() == ARRAYEND
    ensures ParseValue(p) == (None, p) && !p.Accepts(COMMA) && p.Accept(COMMA) == p
  {
  }

  /** The closing bracket `end` starts with; what is behind it follows the array. */
  ghost predicate Closes(end: seq<Lexeme>) {
    |end| > 1 && end[0] == Sym(ARRAYEND) && end[1].token != UNKNOWN
  }

  /** A value with a comma behind it ends an array in failure, though its bracket is read. */
  lemma TrailingComma(s: Syntax, end: seq<Lexeme>, n: nat)
    requires Closes(end) && n + 1 + ArrayDepth(s) <= MAX_ARRAY_NESTING
    ensures ParseElements(State(TokensOf(s) + ([Sym(COMMA)] + end), n)) == (None, State(end[1..], n))
  {
    hide ParseValue, ParseElements, ElementLoop, TokensOf, State.Accepts, State.Accept, State.Next;
    var v, more := Meaning(s), [Sym(COMMA)] + end;
    var toks := TokensOf(s) + more;
    ParsesValue(s, more, n + 1);
    AcceptsFront(Sym(COMMA), end, n + 1);
    ElementLoopUnfolds(State(toks, n + 1), [], -1);
    assert [] + [v] == [v];
    NoValueAtEnd(State(end, n + 1));
    ElementLoopUnfolds(State(end, n + 1), [v], 0);
    ElementsUnfold(State(toks, n), [v], 1, State(end, n + 1));
    assert end == [end[0]] + end[1..];
    AcceptsFront(end[0], end[1..], n + 1);
  }

  /**
   The parser does accept more than the grammar. For every value, in [[value,]] the trailing comma
   makes the inner array fail, and the outer one takes that for having no elements.
   */
  lemma AbsorbsInnerFailure(s: Syntax)
    requires 2 + ArrayDepth(s) <= MAX_ARRAY_NESTING
    ensures var close := [Sym(ARRAYEND)] + ([Sym(ARRAYEND)] + [Sym(EOF)]);
            var toks := [Sym(ARRAYSTART)] + ([Sym(ARRAYSTART)] + (TokensOf(s) + ([Sym(COMMA)] + close)));
            ParseDocument(toks) == (Success, Some(Array([])), State([Sym(EOF)], 0))
  {
    hide ParseValue, ParseElements, ElementLoop, TokensOf, State.Accepts, State.Accept, State.Next;
    var end := [Sym(ARRAYEND)] + [Sym(EOF)];
    var close := [Sym(ARRAYEND)] + end;
    var value := TokensOf(s) + ([Sym(COMMA)] + close);
    var inner := [Sym(ARRAYSTART)] + value;
    assert close[1..] == end;
    TrailingComma(s, close, 1);
    AcceptsFront(Sym(ARRAYSTART), value, 1);
    ValueReadsArray(State(inner, 1), (None, State(end, 1)));
    ElementLoopUnfolds(State(inner, 1), [], -1);
    ElementsUnfold(State(inner, 0), [], -1, State(end, 1));
    AcceptsFront(Sym(ARRAYEND), [Sym(EOF)], 1);
    AcceptsFront(Sym(ARRAYSTART), inner, 0);
    ValueReadsArray(State([Sym(ARRAYSTART)] + inner, 0), (Some(Array([])), State([Sym(EOF)], 0)));
  }
}
