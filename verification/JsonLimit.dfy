/**
 The limit on array nesting. Open brackets are conserved: the array counter plus the brackets still
 ahead never changes. A frame refused for depth leaks its count, so the text it belongs to is never
 consumed whole.
 */
module JsonLimit {
  import opened Common
  import opened JsonLexer
  import opened JsonGrammar
  import opened JsonStream

  /** Opening minus closing array brackets. */
  ghost function Balance(toks: seq<Lexeme>): int {
    if toks == [] then 0 else Bracket(toks[0].token) + Balance(toks[1..])
  }

  function Bracket(t: Token): int {
    if t == ARRAYSTART then 1 else if t == ARRAYEND then -1 else 0
  }

  /** No lexical error. */
  ghost predicate Clean(toks: seq<Lexeme>) {
    forall i :: 0 <= i < |toks| ==> toks[i].token != UNKNOWN
  }

  /** Arrays entered, and those still ahead. */
  ghost function Total(p: State): int {
    p.narrays + Balance(p.toks)
  }

  lemma AcceptBalance(p: State, t: Token)
    requires Clean(p.toks)
    ensures Clean(p.Accept(t).toks)
    ensures Total(p.Accept(t)) == Total(p) - if p.Accepts(t) then Bracket(t) else 0
  {
  }

  lemma CleanSuffix(a: seq<Lexeme>, b: seq<Lexeme>)
    requires Suffix(a, b) && Clean(b)
    ensures Clean(a)
  {
    forall i | 0 <= i < |a| ensures a[i].token != UNKNOWN { assert a[i] == b[|b| - |a| + i]; }
  }

  lemma {:induction false} ValueConserves(p: State)
    requires Clean(p.toks)
    ensures Total(ParseValue(p).1) == Total(p)
    decreases |p.toks|, 0
  {
    hide ParseElements, ParseMembers, Balance, Clean;
    var t := p.Head();
    AcceptBalance(p, t);
    if StartsValue(t) && p.Accepts(t) {
      if t == OBJECTSTART { ObjectConserves(p.Accept(t)); }
      if t == ARRAYSTART { ArrayConserves(p.Accept(t)); }
    }
  }

  /** The bracket has been read and is not yet counted. */
  lemma {:induction false} ArrayConserves(p: State)
    requires Clean(p.toks)
    ensures Total(ParseElements(p).1) == Total(p) + 1
    decreases |p.toks|, 2
  {
    hide ElementLoop, Balance, Clean, Suffix;
    if p.narrays < MAX_ARRAY_NESTING {
      var o := p.(narrays := p.narrays + 1);
      var (vs, n, q) := ElementLoop(o, [], -1);
      ElementsConserve(o, [], -1);
      ElementsSuffix(o, [], -1);
      CleanSuffix(q.toks, o.toks);
      AcceptBalance(q, ARRAYEND);
    }
  }

  lemma {:induction false} ElementsConserve(p: State, vs: seq<Value>, ncommas: int)
    requires Clean(p.toks)
    ensures Total(ElementLoop(p, vs, ncommas).2) == Total(p)
    decreases |p.toks|, 1
  {
    hide ParseValue, ElementLoop, Balance, Clean, Suffix;
    ElementLoopUnfolds(p, vs, ncommas);
    ValueConserves(p);
    ValueSuffix(p);
    var (v, q) := ParseValue(p);
    CleanSuffix(q.toks, p.toks);
    AcceptBalance(q, COMMA);
    if !(vs == [] && v.None?) && q.Accepts(COMMA) {
      ElementsConserve(q.Accept(COMMA), if v.Some? then vs + [v.value] else vs, ncommas + 1);
    }
  }

  lemma {:induction false} ObjectConserves(p: State)
    requires Clean(p.toks)
    ensures Total(ParseMembers(p).1) == Total(p)
    decreases |p.toks|, 2
  {
    hide MemberLoop, Balance, Clean, Suffix;
    var (ms, n, q) := MemberLoop(p, [], -1);
    MembersConserve(p, [], -1);
    MembersSuffix(p, [], -1);
    CleanSuffix(q.toks, p.toks);
    AcceptBalance(q, OBJECTEND);
  }

  lemma {:induction false} MembersConserve(p: State, ms: seq<Member>, ncommas: int)
    requires Clean(p.toks)
    ensures Total(MemberLoop(p, ms, ncommas).2) == Total(p)
    decreases |p.toks|, 1
  {
    hide ParseMember, MemberLoop, Balance, Clean, Suffix;
    MemberLoopUnfolds(p, ms, ncommas);
    MemberConserves(p);
    MemberSuffix(p);
    var (m, q) := ParseMember(p);
    CleanSuffix(q.toks, p.toks);
    AcceptBalance(q, COMMA);
    if q.Accepts(COMMA) {
      MembersConserve(q.Accept(COMMA), if m.Some? then ms + [m.value] else ms, ncommas + 1);
    }
  }

  lemma {:induction false} MemberConserves(p: State)
    requires Clean(p.toks)
    ensures Total(ParseMember(p).1) == Total(p)
    decreases |p.toks|, 0
  {
    hide ParseValue, Balance, Clean;
    var q := p.Accept(QSTRING);
    AcceptBalance(p, QSTRING);
    AcceptBalance(q, COLON);
    if p.Accepts(QSTRING) && q.Accepts(COLON) { ValueConserves(q.Accept(COLON)); }
  }

  // ----- grammatical values

  lemma {:induction false} BalanceAppend(a: seq<Lexeme>, b: seq<Lexeme>)
    ensures Balance(a + b) == Balance(a) + Balance(b)
  {
    if a == [] {
      assert a + b == b;
    } else {
      assert (a + b)[1..] == a[1..] + b;
      BalanceAppend(a[1..], b);
    }
  }

  lemma BalanceOne(x: Lexeme)
    ensures Balance([x]) == Bracket(x.token)
  {
    assert [x][1..] == [];
  }

  lemma {:induction false} ValueBalances(s: Syntax)
    ensures Balance(TokensOf(s)) == 0
    decreases s, 1
  {
    match s
    case SArray(es) =>
      hide Balance;
      ElementsBalance(es);
      BalanceAppend([Sym(ARRAYSTART)], ElementTokens(es));
      BalanceAppend([Sym(ARRAYSTART)] + ElementTokens(es), [Sym(ARRAYEND)]);
      BalanceOne(Sym(ARRAYSTART));
      BalanceOne(Sym(ARRAYEND));
    case SObject(ms) =>
      hide Balance;
      MembersBalance(ms);
      BalanceAppend([Sym(OBJECTSTART)], MemberTokens(ms));
      BalanceAppend([Sym(OBJECTSTART)] + MemberTokens(ms), [Sym(OBJECTEND)]);
      BalanceOne(Sym(OBJECTSTART));
      BalanceOne(Sym(OBJECTEND));
    case _ => BalanceOne(TokensOf(s)[0]);
  }

  lemma {:induction false} ElementsBalance(es: seq<Syntax>)
    ensures Balance(ElementTokens(es)) == 0
    decreases es, 0
  {
    if es != [] {
      ValueBalances(es[0]);
      ElementsBalance(es[1..]);
      BalanceAppend(TokensOf(es[0]), [Sym(COMMA)]);
      BalanceOne(Sym(COMMA));
      BalanceAppend(TokensOf(es[0]) + [Sym(COMMA)], ElementTokens(es[1..]));
    }
  }

  lemma {:induction false} MembersBalance(ms: seq<SMember>)
    ensures Balance(MemberTokens(ms)) == 0
    decreases ms, 0
  {
    if ms != [] {
      var name, value := NameTokens(ms[0]), TokensOf(ms[0].value);
      ValueBalances(ms[0].value);
      MembersBalance(ms[1..]);
      BalanceOne(Lexeme(QSTRING, ms[0].name));
      BalanceOne(Sym(COLON));
      assert name == [Lexeme(QSTRING, ms[0].name)] + [Sym(COLON)];
      BalanceAppend([Lexeme(QSTRING, ms[0].name)], [Sym(COLON)]);
      BalanceAppend(name, value);
      BalanceOne(Sym(COMMA));
      BalanceAppend(name + value, [Sym(COMMA)]);
      BalanceAppend(name + value + [Sym(COMMA)], MemberTokens(ms[1..]));
    }
  }

  // ----- too deep

  ghost predicate Goes(rest: seq<Lexeme>) {
    rest != [] && rest[0].token != UNKNOWN
  }

  /** A value that nests too deep leaves the counter higher than it was. */
  lemma {:induction false} TooDeepLeaks(s: Syntax, rest: seq<Lexeme>, n: nat)
    requires Goes(rest) && n <= MAX_ARRAY_NESTING < n + ArrayDepth(s)
    ensures ParseValue(State(TokensOf(s) + rest, n)).1.narrays > n
    decreases s, 1
  {
    match s
    case SArray(es) =>
      hide ParseElements, ParseValue;
      var inner := ElementTokens(es) + ([Sym(ARRAYEND)] + rest);
      ArrayLeaks(es, rest, n);
      AcceptsFront(Sym(ARRAYSTART), inner, n);
      Assoc([Sym(ARRAYSTART)], ElementTokens(es), [Sym(ARRAYEND)] + rest);
      Assoc([Sym(ARRAYSTART)] + ElementTokens(es), [Sym(ARRAYEND)], rest);
      ValueReadsArray(State([Sym(ARRAYSTART)] + inner, n), ParseElements(State(inner, n)));
    case SObject(ms) =>
      hide ParseMembers, ParseValue;
      var inner := MemberTokens(ms) + ([Sym(OBJECTEND)] + rest);
      MembersLeak(ms, [], [Sym(OBJECTEND)] + rest, n);
      AcceptsFront(Sym(OBJECTSTART), inner, n);
      Assoc([Sym(OBJECTSTART)], MemberTokens(ms), [Sym(OBJECTEND)] + rest);
      Assoc([Sym(OBJECTSTART)] + MemberTokens(ms), [Sym(OBJECTEND)], rest);
      ValueReadsObject(State([Sym(OBJECTSTART)] + inner, n), ParseMembers(State(inner, n)));
      ObjectKeepsLeak(State(inner, n));
  }

  lemma {:induction false} ObjectKeepsLeak(p: State)
    ensures ParseMembers(p).1.narrays == MemberLoop(p, [], -1).2.narrays
  {
    hide MemberLoop;
  }

  /** A refused array leaks its own count. */
  lemma {:induction false} ArrayKeepsLeak(p: State)
    ensures p.narrays >= MAX_ARRAY_NESTING ==> ParseElements(p).1.narrays == p.narrays + 1
    ensures p.narrays < MAX_ARRAY_NESTING ==>
              ParseElements(p).1.narrays >= ElementLoop(p.(narrays := p.narrays + 1), [], -1).2.narrays - 1
  {
    hide ElementLoop;
  }

  lemma {:induction false} ArrayLeaks(es: seq<Syntax>, rest: seq<Lexeme>, n: nat)
    requires Goes(rest) && n <= MAX_ARRAY_NESTING < n + 1 + ElementsDepth(es)
    ensures var inner := ElementTokens(es) + ([Sym(ARRAYEND)] + rest);
            inner[0].token != UNKNOWN && ParseElements(State(inner, n)).1.narrays > n
    decreases es, 2
  {
    hide ElementLoop, ParseElements, ElementTokens;
    var end := [Sym(ARRAYEND)] + rest;
    ElementTokensGo(es, end);
    if n < MAX_ARRAY_NESTING { ElementsLeak(es, [], end, n + 1); }
    ArrayKeepsLeak(State(ElementTokens(es) + end, n));
  }

  lemma {:induction false} ElementsLeak(es: seq<Syntax>, vs: seq<Value>, end: seq<Lexeme>, n: nat)
    requires Goes(end) && end[0].token == ARRAYEND && n <= MAX_ARRAY_NESTING < n + ElementsDepth(es)
    ensures ElementLoop(State(ElementTokens(es) + end, n), vs, |vs| - 1).2.narrays > n
    decreases es, 1
  {
    hide ParseValue, ElementLoop;
    var p := State(ElementTokens(es) + end, n);
    ElementLoopUnfolds(p, vs, |vs| - 1);
    var more := if |es| == 1 then end else [Sym(COMMA)] + (ElementTokens(es[1..]) + end);
    assert p.toks == TokensOf(es[0]) + more by { if |es| > 1 { ElementTokensSplit(es, end); } }
    if n + ArrayDepth(es[0]) > MAX_ARRAY_NESTING {
      TooDeepLeaks(es[0], more, n);
    } else {
      ParsesValue(es[0], more, n);
      ElementTokensGo(es[1..], end);
      AcceptsFront(Sym(COMMA), ElementTokens(es[1..]) + end, n);
      ElementsLeak(es[1..], vs + [Meaning(es[0])], end, n);
    }
  }

  lemma {:induction false} ElementTokensGo(es: seq<Syntax>, end: seq<Lexeme>)
    requires Goes(end)
    ensures Goes(ElementTokens(es) + end)
  {
    if es != [] { assert (ElementTokens(es) + end)[0] == TokensOf(es[0])[0]; }
  }

  lemma {:induction false} MembersLeak(ms: seq<SMember>, done: seq<Member>, end: seq<Lexeme>, n: nat)
    requires Goes(end) && end[0].token == OBJECTEND && n <= MAX_ARRAY_NESTING < n + MembersDepth(ms)
    ensures Goes(MemberTokens(ms) + end)
    ensures MemberLoop(State(MemberTokens(ms) + end, n), done, |done| - 1).2.narrays > n
    decreases ms, 1
  {
    hide ParseValue, ParseMember, MemberLoop;
    var p := State(MemberTokens(ms) + end, n);
    MemberTokensStart(ms);
    MemberLoopUnfolds(p, done, |done| - 1);
    var more := if |ms| == 1 then end else [Sym(COMMA)] + (MemberTokens(ms[1..]) + end);
    assert p.toks == NameTokens(ms[0]) + TokensOf(ms[0].value) + more by { if |ms| > 1 { MemberTokensSplit(ms, end); } }
    if n + ArrayDepth(ms[0].value) > MAX_ARRAY_NESTING {
      MemberLeaks(ms[0], more, n);
    } else {
      ParsesMember(ms[0], more, n);
      MembersLeak(ms[1..], done + [Member(ms[0].name, Meaning(ms[0].value))], end, n);
      AcceptsFront(Sym(COMMA), MemberTokens(ms[1..]) + end, n);
    }
  }

  lemma {:induction false} MemberLeaks(m: SMember, rest: seq<Lexeme>, n: nat)
    requires Goes(rest) && n <= MAX_ARRAY_NESTING < n + ArrayDepth(m.value)
    ensures ParseMember(State(NameTokens(m) + TokensOf(m.value) + rest, n)).1.narrays > n
    decreases m, 2
  {
    hide ParseValue;
    TooDeepLeaks(m.value, rest, n);
    var vtoks := TokensOf(m.value) + rest;
    AcceptsFront(Sym(COLON), vtoks, n);
    AcceptsFront(Lexeme(QSTRING, m.name), [Sym(COLON)] + vtoks, n);
    assert NameTokens(m) == [Lexeme(QSTRING, m.name)] + [Sym(COLON)];
    Assoc([Lexeme(QSTRING, m.name)], [Sym(COLON)], vtoks);
    Assoc(NameTokens(m), TokensOf(m.value), rest);
  }

  // ----- documents

  ghost predicate NoneFinal(toks: seq<Lexeme>) {
    forall i :: 0 <= i < |toks| ==> !Final(toks[i].token)
  }

  lemma {:induction false} ValueNotFinal(s: Syntax)
    ensures NoneFinal(TokensOf(s))
    decreases s, 1
  {
    match s
    case SArray(es) => ElementsNotFinal(es);
    case SObject(ms) => MembersNotFinal(ms);
    case _ =>
  }

  lemma {:induction false} ElementsNotFinal(es: seq<Syntax>)
    ensures NoneFinal(ElementTokens(es))
    decreases es, 0
  {
    if es != [] {
      ValueNotFinal(es[0]);
      ElementsNotFinal(es[1..]);
    }
  }

  lemma {:induction false} MembersNotFinal(ms: seq<SMember>)
    ensures NoneFinal(MemberTokens(ms))
    decreases ms, 0
  {
    if ms != [] {
      ValueNotFinal(ms[0].value);
      MembersNotFinal(ms[1..]);
    }
  }

  lemma EndsAtEof(a: seq<Lexeme>, toks: seq<Lexeme>)
    requires NoneFinal(toks) && Suffix(a, toks + [Sym(EOF)]) && (a == [] || a[0].token == EOF)
    ensures a == [] || a == [Sym(EOF)]
  {
  }

  /** A document of a value that nests too deep is never accepted: some bracket is left over. */
  lemma {:induction false} TooDeepFails(s: Syntax)
    requires ArrayDepth(s) > MAX_ARRAY_NESTING
    ensures ParseDocument(TokensOf(s) + [Sym(EOF)]).0 != Success
  {
    hide ParseValue, Balance, Suffix;
    var toks := TokensOf(s) + [Sym(EOF)];
    var p := State(toks, 0);
    var q := ParseValue(p).1;
    ValueNotFinal(s);
    TooDeepLeaks(s, [Sym(EOF)], 0);
    ValueConserves(p);
    ValueBalances(s);
    BalanceAppend(TokensOf(s), [Sym(EOF)]);
    BalanceOne(Sym(EOF));
    BalanceNone();
    ValueSuffix(p);
    CleanSuffix(q.toks, toks);
    if q.Head() == EOF { EndsAtEof(q.toks, TokensOf(s)); }
  }

  lemma BalanceNone()
    ensures Balance([]) == 0
  {
  }

  /** A document of one grammatical value succeeds if and only if its arrays nest at most 19 deep. */
  lemma {:induction false} DocumentExactly(s: Syntax)
    ensures ParseDocument(TokensOf(s) + [Sym(EOF)]).0 == Success <==> ArrayDepth(s) <= 19
  {
    if ArrayDepth(s) <= MAX_ARRAY_NESTING { ParsesDocument(s); } else { TooDeepFails(s); }
  }
}
