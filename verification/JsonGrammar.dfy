/**
 The recursive-descent parser as functions over the lexeme stream, and the theorem that it reads
 every grammatical value: the values of sections 3 to 5 of RFC 8259.
 */
module JsonGrammar {
  import opened Common
  import opened JsonNumber
  import opened JsonLexer

  datatype Value =
    | QString(text: string)
    | Integer(n: int)
    | Double(numeral: string)
    | Array(elements: seq<Value>)
    | Object(members: seq<Member>)
    | True
    | False
    | Null
    | StringWord

  datatype Member = Member(name: string, value: Value)

  const LONG_MAX: int := 0x7fff_ffff_ffff_ffff
  const LONG_MIN: int := -LONG_MAX - 1

  /** The value of a digit string. */
  function DigitsValue(s: string): int {
    if s == "" then 0 else 10 * DigitsValue(s[..|s| - 1]) + (s[|s| - 1] as int - '0' as int)
  }

  function Clamp(n: int): int {
    if n < LONG_MIN then LONG_MIN else if n > LONG_MAX then LONG_MAX else n
  }

  /** strtol in base ten: an optional sign, then digits; out-of-range values saturate. */
  function Strtol(s: string): int {
    var i := if At(s, 0) == '-' then 1 else 0;
    var n := DigitsValue(s[i..DigitsEnd(s, i)]);
    Clamp(if i == 1 then -n else n)
  }

  function NumberValue(s: string): Value {
    if IsInteger(s) then Integer(Strtol(s)) else Double(s)
  }

  // ----- the parser

  const MAX_ARRAY_NESTING := 19

  /** The parser's view of its input: `toks[0]` is the lookahead. */
  datatype State = State(toks: seq<Lexeme>, narrays: nat) {

    function Head(): Token {
      if toks == [] then EOF else toks[0].token
    }

    function Next(): (r: State)
      ensures |r.toks| <= |toks| && r.narrays == narrays
    {
      if |toks| < 2 then this else State(toks[1..], narrays)
    }

    /** accept(t) succeeds: the lookahead is `t` and the lexeme after it is not a lexical error. */
    predicate Accepts(t: Token) {
      |toks| >= 2 && toks[0].token == t && toks[1].token != UNKNOWN
    }

    /** The state accept(t) leaves, whether it succeeds or not. */
    function Accept(t: Token): (r: State)
      ensures |r.toks| <= |toks| && r.narrays == narrays
      ensures Accepts(t) ==> |r.toks| < |toks|
    {
      if Head() == t then Next() else this
    }
  }

  /** The lookaheads accept_value tries. BOOLEAN is not among them: see Parser.AcceptValue. */
  predicate StartsValue(t: Token) {
    t in {OBJECTSTART, ARRAYSTART, TRUE, FALSE, NULL, NUMBER, QSTRING, STRING}
  }

  function ParseValue(p: State): (r: (Option<Value>, State))
    ensures |r.1.toks| <= |p.toks| && p.narrays <= r.1.narrays
    ensures r.0.Some? ==> |r.1.toks| < |p.toks|
    decreases |p.toks|, 0
  {
    var t := p.Head();
    if !StartsValue(t) then (None, p)
    else if !p.Accepts(t) then (None, p.Accept(t))
    else
      var q := p.Accept(t);
      match t
      case OBJECTSTART => ParseMembers(q)
      case ARRAYSTART => ParseElements(q)
      case TRUE => (Some(True), q)
      case FALSE => (Some(False), q)
      case NULL => (Some(Null), q)
      case NUMBER => (Some(NumberValue(p.toks[0].text)), q)
      case QSTRING => (Some(QString(p.toks[0].text)), q)
      case _ => (Some(StringWord), q)
  }

  /** accept_array_elements: the opening bracket has been read. */
  function ParseElements(p: State): (r: (Option<Value>, State))
    ensures |r.1.toks| <= |p.toks| && p.narrays <= r.1.narrays
    ensures r.0.Some? ==> |r.1.toks| < |p.toks|
    decreases |p.toks|, 2
  {
    var q := p.(narrays := p.narrays + 1);
    if q.narrays > MAX_ARRAY_NESTING then (None, q)
    else
      var (vs, ncommas, q1) := ElementLoop(q, [], -1);
      var q2 := q1.Accept(ARRAYEND);
      if !q1.Accepts(ARRAYEND) then (None, q2)
      else
        var q3 := q2.(narrays := q2.narrays - 1);
        if |vs| > 0 && |vs| - ncommas != 1 then (None, q3) else (Some(Array(vs)), q3)
  }

  /** The do/while loop of accept_array_elements: values collected and commas counted so far. */
  function ElementLoop(p: State, vs: seq<Value>, ncommas: int): (r: (seq<Value>, int, State))
    ensures |r.2.toks| <= |p.toks| && p.narrays <= r.2.narrays
    decreases |p.toks|, 1
  {
    var (v, q) := ParseValue(p);
    if vs == [] && v.None? then (vs, ncommas, q)
    else
      var vs' := if v.Some? then vs + [v.value] else vs;
      if q.Accepts(COMMA) then ElementLoop(q.Accept(COMMA), vs', ncommas + 1)
      else (vs', ncommas + 1, q.Accept(COMMA))
  }

  /** accept_objects: the opening brace has been read. */
  function ParseMembers(p: State): (r: (Option<Value>, State))
    ensures |r.1.toks| <= |p.toks| && p.narrays <= r.1.narrays
    ensures r.0.Some? ==> |r.1.toks| < |p.toks|
    decreases |p.toks|, 2
  {
    var (ms, ncommas, q) := MemberLoop(p, [], -1);
    if ncommas > 0 && |ms| - ncommas != 1 then (None, q)
    else if !q.Accepts(OBJECTEND) then (None, q.Accept(OBJECTEND))
    else (Some(Object(ms)), q.Accept(OBJECTEND))
  }

  function MemberLoop(p: State, ms: seq<Member>, ncommas: int): (r: (seq<Member>, int, State))
    ensures |r.2.toks| <= |p.toks| && p.narrays <= r.2.narrays
    decreases |p.toks|, 1
  {
    var (m, q) := ParseMember(p);
    var ms' := if m.Some? then ms + [m.value] else ms;
    if q.Accepts(COMMA) then MemberLoop(q.Accept(COMMA), ms', ncommas + 1)
    else (ms', ncommas + 1, q.Accept(COMMA))
  }

  /** accept_object: one name, a colon and a value. */
  function ParseMember(p: State): (r: (Option<Member>, State))
    ensures |r.1.toks| <= |p.toks| && p.narrays <= r.1.narrays
    decreases |p.toks|, 0
  {
    var q := p.Accept(QSTRING);
    if !p.Accepts(QSTRING) then (None, q)
    else if !q.Accepts(COLON) then (None, q.Accept(COLON))
    else
      var (v, q') := ParseValue(q.Accept(COLON));
      (if v.Some? then Some(Member(p.toks[0].text, v.value)) else None, q')
  }

  datatype Status = Success | NoInput | Invalid | TrailingData

  /** json_parse, given every lexeme of the input: its status, the value and the final state. */
  function ParseDocument(toks: seq<Lexeme>): (r: (Status, Option<Value>, State))
  {
    var p := State(toks, 0);
    if p.Head() == UNKNOWN then (NoInput, None, p)
    else
      var (v, q) := ParseValue(p);
      if v.None? then (Invalid, None, q)
      else if q.Head() == EOF then (Success, v, q)
      else if q.Next().Head() != UNKNOWN then (TrailingData, v, q.Next())
      else (Success, v, q.Next())
  }

  // ----- grammatical values

  /** A JSON value as written: strings and numbers by their source text. */
  datatype Syntax =
    | SString(raw: string)
    | SNumber(numeral: string)
    | SArray(elements: seq<Syntax>)
    | SObject(members: seq<SMember>)
    | STrue
    | SFalse
    | SNull
    | SStringWord

  datatype SMember = SMember(name: string, value: Syntax)

  function Sym(t: Token): Lexeme {
    Lexeme(t, "")
  }

  ghost function TokensOf(s: Syntax): (r: seq<Lexeme>)
    ensures r != [] && StartsValue(r[0].token)
    decreases s, 1
  {
    match s
    case SString(raw) => [Lexeme(QSTRING, raw)]
    case SNumber(numeral) => [Lexeme(NUMBER, numeral)]
    case SArray(es) => [Sym(ARRAYSTART)] + ElementTokens(es) + [Sym(ARRAYEND)]
    case SObject(ms) => [Sym(OBJECTSTART)] + MemberTokens(ms) + [Sym(OBJECTEND)]
    case STrue => [Sym(TRUE)]
    case SFalse => [Sym(FALSE)]
    case SNull => [Sym(NULL)]
    case SStringWord => [Sym(STRING)]
  }

  ghost function ElementTokens(es: seq<Syntax>): (r: seq<Lexeme>)
    decreases es, 0
  {
    if es == [] then []
    else if |es| == 1 then TokensOf(es[0])
    else TokensOf(es[0]) + [Sym(COMMA)] + ElementTokens(es[1..])
  }

  ghost function NameTokens(m: SMember): seq<Lexeme> {
    [Lexeme(QSTRING, m.name), Sym(COLON)]
  }

  ghost function MemberTokens(ms: seq<SMember>): (r: seq<Lexeme>)
    decreases ms, 0
  {
    if ms == [] then []
    else if |ms| == 1 then NameTokens(ms[0]) + TokensOf(ms[0].value)
    else NameTokens(ms[0]) + TokensOf(ms[0].value) + [Sym(COMMA)] + MemberTokens(ms[1..])
  }

  /** How many arrays are open at the deepest point of a value. */
  ghost function ArrayDepth(s: Syntax): nat
    decreases s, 1
  {
    match s
    case SArray(es) => 1 + ElementsDepth(es)
    case SObject(ms) => MembersDepth(ms)
    case _ => 0
  }

  ghost function Max(a: nat, b: nat): nat {
    if a < b then b else a
  }

  ghost function ElementsDepth(es: seq<Syntax>): nat
    decreases es, 0
  {
    if es == [] then 0 else Max(ArrayDepth(es[0]), ElementsDepth(es[1..]))
  }

  ghost function MembersDepth(ms: seq<SMember>): nat
    decreases ms, 0
  {
    if ms == [] then 0 else Max(ArrayDepth(ms[0].value), MembersDepth(ms[1..]))
  }

  /** The tree a value denotes. */
  ghost function Meaning(s: Syntax): Value
    decreases s, 1
  {
    match s
    case SString(raw) => QString(raw)
    case SNumber(numeral) => NumberValue(numeral)
    case SArray(es) => Array(Meanings(es))
    case SObject(ms) => Object(MemberMeanings(ms))
    case STrue => True
    case SFalse => False
    case SNull => Null
    case SStringWord => StringWord
  }

  ghost function Meanings(es: seq<Syntax>): (r: seq<Value>)
    ensures |r| == |es|
    decreases es, 0
  {
    if es == [] then [] else [Meaning(es[0])] + Meanings(es[1..])
  }

  ghost function MemberMeanings(ms: seq<SMember>): (r: seq<Member>)
    ensures |r| == |ms|
    decreases ms, 0
  {
    if ms == [] then [] else [Member(ms[0].name, Meaning(ms[0].value))] + MemberMeanings(ms[1..])
  }

  /** Reading one symbol off the front of a stream. */
  lemma AcceptsFront(x: Lexeme, rest: seq<Lexeme>, n: nat)
    requires rest != [] && rest[0].token != UNKNOWN
    ensures State([x] + rest, n).Accepts(x.token)
    ensures State([x] + rest, n).Accept(x.token) == State([x] + rest, n).Next() == State(rest, n)
  {
    assert ([x] + rest)[1..] == rest;
  }

  // One unfolding of each loop, with the states as parameters.

  lemma {:induction false} ElementLoopEmpty(p: State)
    requires p.Head() == ARRAYEND
    ensures ElementLoop(p, [], -1) == ([], -1, p)
  {
  }

  lemma {:induction false} MemberLoopEmpty(p: State)
    requires p.Head() == OBJECTEND
    ensures MemberLoop(p, [], -1) == ([], 0, p)
  {
  }

  lemma {:induction false} ElementLoopEnds(p: State, vs: seq<Value>, ncommas: int, v: Value, q: State)
    requires ParseValue(p) == (Some(v), q) && q.Head() != COMMA
    ensures ElementLoop(p, vs, ncommas) == (vs + [v], ncommas + 1, q)
  {
  }

  lemma {:induction false} ElementLoopRepeats(
    p: State, vs: seq<Value>, ncommas: int, v: Value, q: State, r: (seq<Value>, int, State))
    requires ParseValue(p) == (Some(v), q) && q.Accepts(COMMA)
    requires ElementLoop(q.Accept(COMMA), vs + [v], ncommas + 1) == r
    ensures ElementLoop(p, vs, ncommas) == r
  {
  }

  lemma {:induction false} MemberLoopEnds(p: State, ms: seq<Member>, ncommas: int, m: Member, q: State)
    requires ParseMember(p) == (Some(m), q) && q.Head() != COMMA
    ensures MemberLoop(p, ms, ncommas) == (ms + [m], ncommas + 1, q)
  {
  }

  lemma {:induction false} MemberLoopRepeats(
    p: State, ms: seq<Member>, ncommas: int, m: Member, q: State, r: (seq<Member>, int, State))
    requires ParseMember(p) == (Some(m), q) && q.Accepts(COMMA)
    requires MemberLoop(q.Accept(COMMA), ms + [m], ncommas + 1) == r
    ensures MemberLoop(p, ms, ncommas) == r
  {
  }

  lemma {:induction false} ElementLoopUnfolds(p: State, vs: seq<Value>, ncommas: int)
    ensures var (v, q) := ParseValue(p);
            var vs' := if v.Some? then vs + [v.value] else vs;
            ElementLoop(p, vs, ncommas) ==
            if vs == [] && v.None? then (vs, ncommas, q)
            else if q.Accepts(COMMA) then ElementLoop(q.Accept(COMMA), vs', ncommas + 1)
            else (vs', ncommas + 1, q.Accept(COMMA))
  {
  }

  lemma {:induction false} MemberLoopUnfolds(p: State, ms: seq<Member>, ncommas: int)
    ensures var (m, q) := ParseMember(p);
            var ms' := if m.Some? then ms + [m.value] else ms;
            MemberLoop(p, ms, ncommas) ==
            if q.Accepts(COMMA) then MemberLoop(q.Accept(COMMA), ms', ncommas + 1)
            else (ms', ncommas + 1, q.Accept(COMMA))
  {
  }

  lemma {:induction false} MemberReads(p: State, v: Value, q: State)
    requires p.Accepts(QSTRING) && p.Accept(QSTRING).Accepts(COLON)
    requires ParseValue(p.Accept(QSTRING).Accept(COLON)) == (Some(v), q)
    ensures ParseMember(p) == (Some(Member(p.toks[0].text, v)), q)
  {
  }

  lemma {:induction false} ValueReadsArray(p: State, r: (Option<Value>, State))
    requires p.Accepts(ARRAYSTART) && ParseElements(p.Accept(ARRAYSTART)) == r
    ensures ParseValue(p) == r
  {
  }

  lemma {:induction false} ValueReadsObject(p: State, r: (Option<Value>, State))
    requires p.Accepts(OBJECTSTART) && ParseMembers(p.Accept(OBJECTSTART)) == r
    ensures ParseValue(p) == r
  {
  }

  lemma {:induction false} ValueReadsScalar(s: Syntax, rest: seq<Lexeme>, n: nat)
    requires rest != [] && rest[0].token != UNKNOWN && !s.SArray? && !s.SObject?
    ensures ParseValue(State(TokensOf(s) + rest, n)) == (Some(Meaning(s)), State(rest, n))
  {
    AcceptsFront(TokensOf(s)[0], rest, n);
  }

  lemma {:induction false} ElementsRead(p: State, vs: seq<Value>, q: State)
    requires p.narrays < MAX_ARRAY_NESTING && q.narrays > 0
    requires ElementLoop(p.(narrays := p.narrays + 1), [], -1) == (vs, |vs| - 1, q)
    requires q.Accepts(ARRAYEND)
    ensures ParseElements(p) == (Some(Array(vs)), State(q.Accept(ARRAYEND).toks, q.narrays - 1))
  {
    hide ParseElements, ElementLoop;
    ElementsUnfold(p, vs, |vs| - 1, q);
  }

  lemma {:induction false} ElementsRefused(p: State)
    requires p.narrays >= MAX_ARRAY_NESTING
    ensures ParseElements(p) == (None, State(p.toks, p.narrays + 1))
  {
    hide ElementLoop;
  }

  /** accept_array_elements, given what its loop does. */
  lemma {:induction false} ElementsUnfold(p: State, vs: seq<Value>, ncommas: int, q: State)
    requires p.narrays < MAX_ARRAY_NESTING && ElementLoop(p.(narrays := p.narrays + 1), [], -1) == (vs, ncommas, q)
    ensures ParseElements(p) ==
            var q2 := q.Accept(ARRAYEND);
            if !q.Accepts(ARRAYEND) then (None, q2)
            else (if |vs| > 0 && |vs| - ncommas != 1 then None else Some(Array(vs)), State(q2.toks, q2.narrays - 1))
  {
  }

  lemma {:induction false} MembersRead(p: State, ms: seq<Member>, ncommas: int, q: State)
    requires MemberLoop(p, [], -1) == (ms, ncommas, q)
    requires ncommas == |ms| - 1 || (ms == [] && ncommas == 0)
    requires q.Accepts(OBJECTEND)
    ensures ParseMembers(p) == (Some(Object(ms)), q.Accept(OBJECTEND))
  {
  }

  /**
   The parser consumes exactly the tokens of a grammatical value, builds its tree and leaves the
   array counter as it was, whatever follows.
   */
  lemma {:induction false} ParsesValue(s: Syntax, rest: seq<Lexeme>, n: nat)
    requires rest != [] && rest[0].token != UNKNOWN
    requires n + ArrayDepth(s) <= MAX_ARRAY_NESTING
    ensures ParseValue(State(TokensOf(s) + rest, n)) == (Some(Meaning(s)), State(rest, n))
    decreases s, 1
  {
    match s
    case SArray(es) =>
      var inner := ElementTokens(es) + ([Sym(ARRAYEND)] + rest);
      ParsesArray(es, rest, n);
      AcceptsFront(Sym(ARRAYSTART), inner, n);
      Assoc([Sym(ARRAYSTART)], ElementTokens(es), [Sym(ARRAYEND)] + rest);
      Assoc([Sym(ARRAYSTART)] + ElementTokens(es), [Sym(ARRAYEND)], rest);
      ValueReadsArray(State([Sym(ARRAYSTART)] + inner, n), (Some(Meaning(s)), State(rest, n)));
    case SObject(ms) =>
      var inner := MemberTokens(ms) + ([Sym(OBJECTEND)] + rest);
      ParsesObject(ms, rest, n);
      AcceptsFront(Sym(OBJECTSTART), inner, n);
      Assoc([Sym(OBJECTSTART)], MemberTokens(ms), [Sym(OBJECTEND)] + rest);
      Assoc([Sym(OBJECTSTART)] + MemberTokens(ms), [Sym(OBJECTEND)], rest);
      ValueReadsObject(State([Sym(OBJECTSTART)] + inner, n), (Some(Meaning(s)), State(rest, n)));
    case _ =>
      ValueReadsScalar(s, rest, n);
  }

  /** The tokens of array contents and the closing bracket; they start with no lexical error. */
  lemma {:induction false} ParsesArray(es: seq<Syntax>, rest: seq<Lexeme>, n: nat)
    requires rest != [] && rest[0].token != UNKNOWN
    requires n + 1 + ElementsDepth(es) <= MAX_ARRAY_NESTING
    ensures var inner := ElementTokens(es) + ([Sym(ARRAYEND)] + rest);
            inner[0].token != UNKNOWN &&
            ParseElements(State(inner, n)) == (Some(Array(Meanings(es))), State(rest, n))
    decreases es, 2
  {
    hide ElementLoop, ParseElements, ParseValue, State.Next, State.Accept, State.Accepts, TokensOf;
    var end := [Sym(ARRAYEND)] + rest;
    AcceptsFront(Sym(ARRAYEND), rest, n + 1);
    if es == [] {
      assert ElementTokens(es) + end == end;
      ElementLoopEmpty(State(end, n + 1));
    } else {
      ParsesElements(es, [], end, n + 1);
      assert [] + Meanings(es) == Meanings(es);
    }
    ElementsRead(State(ElementTokens(es) + end, n), Meanings(es), State(end, n + 1));
  }

  lemma {:induction false} ParsesElements(es: seq<Syntax>, vs: seq<Value>, end: seq<Lexeme>, n: nat)
    requires es != [] && end != [] && end[0].token == ARRAYEND
    requires n + ElementsDepth(es) <= MAX_ARRAY_NESTING
    ensures var toks := ElementTokens(es) + end;
            toks[0].token != UNKNOWN &&
            ElementLoop(State(toks, n), vs, |vs| - 1) == (vs + Meanings(es), |vs| + |es| - 1, State(end, n))
    decreases es, 1
  {
    hide ParseValue, ElementLoop, State.Next, State.Accept, State.Accepts;
    var v := Meaning(es[0]);
    if |es| == 1 {
      ParsesValue(es[0], end, n);
      ElementLoopEnds(State(ElementTokens(es) + end, n), vs, |vs| - 1, v, State(end, n));
      assert Meanings(es) == [v];
    } else {
      var more := [Sym(COMMA)] + (ElementTokens(es[1..]) + end);
      ElementTokensSplit(es, end);
      ParsesElements(es[1..], vs + [v], end, n);
      AcceptsFront(Sym(COMMA), ElementTokens(es[1..]) + end, n);
      ParsesValue(es[0], more, n);
      Assoc(vs, [v], Meanings(es[1..]));
      ElementLoopRepeats(State(TokensOf(es[0]) + more, n), vs, |vs| - 1, v, State(more, n),
                         (vs + Meanings(es), |vs| + |es| - 1, State(end, n)));
    }
  }

  lemma ElementTokensSplit(es: seq<Syntax>, end: seq<Lexeme>)
    requires |es| > 1
    ensures ElementTokens(es) + end == TokensOf(es[0]) + ([Sym(COMMA)] + (ElementTokens(es[1..]) + end))
  {
    Assoc(TokensOf(es[0]) + [Sym(COMMA)], ElementTokens(es[1..]), end);
    Assoc(TokensOf(es[0]), [Sym(COMMA)], ElementTokens(es[1..]) + end);
  }

  lemma {:induction false} ParsesObject(ms: seq<SMember>, rest: seq<Lexeme>, n: nat)
    requires rest != [] && rest[0].token != UNKNOWN
    requires n + MembersDepth(ms) <= MAX_ARRAY_NESTING
    ensures var inner := MemberTokens(ms) + ([Sym(OBJECTEND)] + rest);
            inner[0].token != UNKNOWN &&
            ParseMembers(State(inner, n)) == (Some(Object(MemberMeanings(ms))), State(rest, n))
    decreases ms, 2
  {
    hide MemberLoop, ParseMembers, ParseValue, State.Next, State.Accept, State.Accepts, TokensOf;
    var end := [Sym(OBJECTEND)] + rest;
    AcceptsFront(Sym(OBJECTEND), rest, n);
    if ms == [] {
      assert MemberTokens(ms) + end == end;
      MemberLoopEmpty(State(end, n));
      MembersRead(State(end, n), [], 0, State(end, n));
    } else {
      ParsesMembers(ms, [], end, n);
      assert [] + MemberMeanings(ms) == MemberMeanings(ms);
      MembersRead(State(MemberTokens(ms) + end, n), MemberMeanings(ms), |ms| - 1, State(end, n));
    }
  }

  lemma {:induction false} ParsesMember(m: SMember, rest: seq<Lexeme>, n: nat)
    requires rest != [] && rest[0].token != UNKNOWN
    requires n + ArrayDepth(m.value) <= MAX_ARRAY_NESTING
    ensures var toks := NameTokens(m) + TokensOf(m.value) + rest;
            ParseMember(State(toks, n)) == (Some(Member(m.name, Meaning(m.value))), State(rest, n))
    decreases m, 2
  {
    ParsesValue(m.value, rest, n);
    var vtoks := TokensOf(m.value) + rest;
    AcceptsFront(Sym(COLON), vtoks, n);
    AcceptsFront(Lexeme(QSTRING, m.name), [Sym(COLON)] + vtoks, n);
    var toks := [Lexeme(QSTRING, m.name)] + ([Sym(COLON)] + vtoks);
    MemberReads(State(toks, n), Meaning(m.value), State(rest, n));
    assert NameTokens(m) == [Lexeme(QSTRING, m.name)] + [Sym(COLON)];
    Assoc([Lexeme(QSTRING, m.name)], [Sym(COLON)], vtoks);
    Assoc(NameTokens(m), TokensOf(m.value), rest);
  }

  lemma {:induction false} ParsesMembers(ms: seq<SMember>, done: seq<Member>, end: seq<Lexeme>, n: nat)
    requires ms != [] && end != [] && end[0].token == OBJECTEND
    requires n + MembersDepth(ms) <= MAX_ARRAY_NESTING
    ensures var toks := MemberTokens(ms) + end;
            toks[0].token != UNKNOWN &&
            MemberLoop(State(toks, n), done, |done| - 1) ==
              (done + MemberMeanings(ms), |done| + |ms| - 1, State(end, n))
    decreases ms, 1
  {
    hide ParseMember, MemberLoop, ParseValue, State.Next, State.Accept, State.Accepts;
    var m := Member(ms[0].name, Meaning(ms[0].value));
    MemberTokensStart(ms);
    if |ms| == 1 {
      ParsesMember(ms[0], end, n);
      MemberLoopEnds(State(MemberTokens(ms) + end, n), done, |done| - 1, m, State(end, n));
      assert MemberMeanings(ms) == [m];
    } else {
      var first := NameTokens(ms[0]) + TokensOf(ms[0].value);
      var more := [Sym(COMMA)] + (MemberTokens(ms[1..]) + end);
      MemberTokensSplit(ms, end);
      ParsesMembers(ms[1..], done + [m], end, n);
      AcceptsFront(Sym(COMMA), MemberTokens(ms[1..]) + end, n);
      ParsesMember(ms[0], more, n);
      Assoc(done, [m], MemberMeanings(ms[1..]));
      MemberLoopRepeats(State(first + more, n), done, |done| - 1, m, State(more, n),
                        (done + MemberMeanings(ms), |done| + |ms| - 1, State(end, n)));
    }
  }

  lemma MemberTokensStart(ms: seq<SMember>)
    requires ms != []
    ensures MemberTokens(ms) != [] && MemberTokens(ms)[0].token == QSTRING
  {
  }

  lemma MemberTokensSplit(ms: seq<SMember>, end: seq<Lexeme>)
    requires |ms| > 1
    ensures MemberTokens(ms) + end ==
            NameTokens(ms[0]) + TokensOf(ms[0].value) + ([Sym(COMMA)] + (MemberTokens(ms[1..]) + end))
  {
    var first := NameTokens(ms[0]) + TokensOf(ms[0].value);
    Assoc(first + [Sym(COMMA)], MemberTokens(ms[1..]), end);
    Assoc(first, [Sym(COMMA)], MemberTokens(ms[1..]) + end);
  }

  /** A document whose lexemes are those of one grammatical value is accepted with its tree. */
  lemma ParsesDocument(s: Syntax)
    requires ArrayDepth(s) <= MAX_ARRAY_NESTING
    ensures var toks := TokensOf(s) + [Sym(EOF)];
            ParseDocument(toks) == (Success, Some(Meaning(s)), State([Sym(EOF)], 0))
  {
    ParsesValue(s, [Sym(EOF)], 0);
  }
}
