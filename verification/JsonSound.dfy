/**
 When an accepted text is grammatical. A container can absorb the failure of its first element or only
 member; apart from that, and from an extra token before a lexical error, the parser is sound.
 */
module JsonSound {
  import opened Common
  import opened JsonNumber
  import opened JsonLexer
  import opened JsonGrammar
  import opened JsonStream

  // ----- absorbed failures

  /** The value at `p` is a container that absorbs a failure, or has one inside. */
  ghost predicate Absorbs(p: State)
    decreases |p.toks|, 0
  {
    || (p.Accepts(OBJECTSTART) && MembersAbsorb(p.Accept(OBJECTSTART), true))
    || (p.Accepts(ARRAYSTART) && ElementsAbsorb(Opened(p.Accept(ARRAYSTART)), true))
  }

  /** The array counter goes up before the first element. */
  function Opened(p: State): State {
    State(p.toks, p.narrays + 1)
  }

  /** From here on the elements hold an absorbed failure: the first one fails after taking a token. */
  ghost predicate ElementsAbsorb(p: State, first: bool)
    decreases |p.toks|, 1
  {
    var (v, q) := ParseValue(p);
    if v.None? then first && |q.toks| < |p.toks|
    else Absorbs(p) || (q.Accepts(COMMA) && ElementsAbsorb(q.Accept(COMMA), false))
  }

  ghost predicate MembersAbsorb(p: State, first: bool)
    decreases |p.toks|, 1
  {
    var (m, q) := ParseMember(p);
    if m.None? then first && |q.toks| < |p.toks|
    else Absorbs(p.Accept(QSTRING).Accept(COLON)) || (q.Accepts(COMMA) && MembersAbsorb(q.Accept(COMMA), false))
  }

  // ----- how many tokens a tree takes

  /** The tokens of a value with this tree. */
  ghost function Weight(v: Value): nat
    decreases v, 1
  {
    match v
    case Array(vs) => if vs == [] then 2 else 1 + Weights(vs)
    case Object(ms) => if ms == [] then 2 else 1 + MemberWeights(ms)
    case _ => 1
  }

  /** Each element with the comma or bracket behind it. */
  ghost function Weights(vs: seq<Value>): nat
    decreases vs, 0
  {
    if vs == [] then 0 else Weight(vs[0]) + 1 + Weights(vs[1..])
  }

  ghost function MemberWeights(ms: seq<Member>): nat
    decreases ms, 0
  {
    if ms == [] then 0 else Weight(ms[0].value) + 3 + MemberWeights(ms[1..])
  }

  lemma {:induction false} TokensWeigh(s: Syntax)
    ensures |TokensOf(s)| == Weight(Meaning(s))
    decreases s, 1
  {
    match s
    case SArray(es) => ElementTokensWeigh(es);
    case SObject(ms) => MemberTokensWeigh(ms);
    case _ =>
  }

  lemma {:induction false} ElementTokensWeigh(es: seq<Syntax>)
    ensures |ElementTokens(es)| == if es == [] then 0 else Weights(Meanings(es)) - 1
    decreases es, 0
  {
    if es != [] {
      TokensWeigh(es[0]);
      ElementTokensWeigh(es[1..]);
      assert Meanings(es)[1..] == Meanings(es[1..]);
    }
  }

  lemma {:induction false} MemberTokensWeigh(ms: seq<SMember>)
    ensures |MemberTokens(ms)| == if ms == [] then 0 else MemberWeights(MemberMeanings(ms)) - 1
    decreases ms, 0
  {
    if ms != [] {
      TokensWeigh(ms[0].value);
      MemberTokensWeigh(ms[1..]);
      assert MemberMeanings(ms)[1..] == MemberMeanings(ms[1..]);
    }
  }

  // ----- empty containers

  ghost predicate HasEmpty(v: Value)
    decreases v, 1
  {
    match v
    case Array(vs) => vs == [] || AnyEmpty(vs)
    case Object(ms) => ms == [] || AnyEmptyMember(ms)
    case _ => false
  }

  ghost predicate AnyEmpty(vs: seq<Value>)
    decreases vs, 0
  {
    vs != [] && (HasEmpty(vs[0]) || AnyEmpty(vs[1..]))
  }

  ghost predicate AnyEmptyMember(ms: seq<Member>)
    decreases ms, 0
  {
    ms != [] && (HasEmpty(ms[0].value) || AnyEmptyMember(ms[1..]))
  }

  // ----- what the loops count

  lemma {:induction false} ElementLoopCounts(p: State, vs: seq<Value>, ncommas: int)
    ensures var (r, n, _) := ElementLoop(p, vs, ncommas);
            && vs <= r && (vs != [] ==> |r| - n <= |vs| - ncommas)
            && (ParseValue(p).0.Some? ==> |r| > |vs|)
    decreases |p.toks|
  {
    hide ParseValue, ElementLoop;
    ElementLoopUnfolds(p, vs, ncommas);
    var (v, q) := ParseValue(p);
    if !(vs == [] && v.None?) && q.Accepts(COMMA) {
      ElementLoopCounts(q.Accept(COMMA), if v.Some? then vs + [v.value] else vs, ncommas + 1);
    }
  }

  lemma {:induction false} MemberLoopCounts(p: State, ms: seq<Member>, ncommas: int)
    ensures var (r, n, _) := MemberLoop(p, ms, ncommas);
            && ms <= r && |r| - n <= |ms| - ncommas && n > ncommas
            && (ParseMember(p).0.Some? ==> |r| > |ms|)
    decreases |p.toks|
  {
    hide ParseMember, MemberLoop;
    MemberLoopUnfolds(p, ms, ncommas);
    var (m, q) := ParseMember(p);
    if q.Accepts(COMMA) {
      MemberLoopCounts(q.Accept(COMMA), if m.Some? then ms + [m.value] else ms, ncommas + 1);
    }
  }

  // ----- soundness and its exact condition

  /** Symbols carry no text; the lexer only makes such streams. */
  ghost predicate Tidy(toks: seq<Lexeme>) {
    forall i :: 0 <= i < |toks| && !HasValue(toks[i].token) ==> toks[i].text == ""
  }

  /** The tokens from `a` to `b` are those of a value with this tree. */
  ghost predicate Read(a: seq<Lexeme>, v: Value, b: seq<Lexeme>) {
    exists s :: a == TokensOf(s) + b && Meaning(s) == v
  }

  ghost predicate ReadElements(a: seq<Lexeme>, vs: seq<Value>, b: seq<Lexeme>) {
    exists es :: a == ElementTokens(es) + b && Meanings(es) == vs
  }

  ghost predicate ReadMembers(a: seq<Lexeme>, ms: seq<Member>, b: seq<Lexeme>) {
    exists es :: a == MemberTokens(es) + b && MemberMeanings(es) == ms
  }

  ghost predicate ReadMember(a: seq<Lexeme>, m: Member, b: seq<Lexeme>) {
    exists s :: a == NameTokens(s) + TokensOf(s.value) + b && m == Member(s.name, Meaning(s.value))
  }

  /**
   Between two states are at least `weight` tokens: exactly so many if and only if no failure was
   absorbed, and then they were `read`. An absorbed failure leaves an `empty` container.
   */
  ghost predicate Exact(p: State, weight: int, q: State, absorbs: bool, read: bool, empty: bool) {
    && weight <= |p.toks| - |q.toks|
    && (weight == |p.toks| - |q.toks| <==> !absorbs)
    && (if absorbs then empty else read)
  }

  lemma {:induction false} TidySuffix(a: seq<Lexeme>, b: seq<Lexeme>)
    requires Suffix(a, b) && Tidy(b)
    ensures Tidy(a)
  {
    forall i | 0 <= i < |a| && !HasValue(a[i].token) ensures a[i].text == "" { assert a[i] == b[|b| - |a| + i]; }
  }

  lemma {:induction false} AcceptTidy(p: State, t: Token)
    requires Tidy(p.toks)
    ensures Tidy(p.Accept(t).toks)
    ensures p.Accepts(t) ==> p.toks == [p.toks[0]] + p.Accept(t).toks && p.toks[0].token == t
    ensures p.Accepts(t) && !HasValue(t) ==> p.toks[0] == Sym(t)
  {
  }

  lemma {:induction false} ValueExact(p: State)
    requires Tidy(p.toks)
    ensures var (v, q) := ParseValue(p);
            v.Some? ==> Exact(p, Weight(v.value), q, Absorbs(p), Read(p.toks, v.value, q.toks), HasEmpty(v.value))
    decreases |p.toks|, 1
  {
    var (v, q) := ParseValue(p);
    if v.None? { return; }
    var t := p.Head();
    AcceptTidy(p, t);
    if t == OBJECTSTART { ObjectExact(p); }
    else if t == ARRAYSTART { ArrayExact(p); }
    else { ScalarExact(p); }
  }

  lemma {:induction false} ScalarExact(p: State)
    requires Tidy(p.toks) && p.Head() != OBJECTSTART && p.Head() != ARRAYSTART && ParseValue(p).0.Some?
    ensures var (v, q) := ParseValue(p); Exact(p, Weight(v.value), q, Absorbs(p), Read(p.toks, v.value, q.toks), HasEmpty(v.value))
  {
    var (v, q) := ParseValue(p);
    var t := p.Head();
    AcceptTidy(p, t);
    var text := p.toks[0].text;
    var s := match t
      case TRUE => STrue
      case FALSE => SFalse
      case NULL => SNull
      case NUMBER => SNumber(text)
      case QSTRING => SString(text)
      case _ => SStringWord;
    assert p.toks == TokensOf(s) + q.toks && Meaning(s) == v.value;
  }

  // ----- arrays

  lemma {:induction false} ArrayReturns(p: State)
    requires ParseElements(p).0.Some?
    ensures var (vs, n, q) := ElementLoop(Opened(p), [], -1);
            && q.Accepts(ARRAYEND) && (vs == [] || |vs| - n == 1)
            && ParseElements(p).0 == Some(Array(vs)) && ParseElements(p).1.toks == q.Accept(ARRAYEND).toks
  {
    hide ElementLoop;
    var (vs, n, q) := ElementLoop(Opened(p), [], -1);
    if p.narrays < MAX_ARRAY_NESTING { ElementsUnfold(p, vs, n, q); }
  }

  lemma {:induction false} ArrayExact(p: State)
    requires Tidy(p.toks) && p.Accepts(ARRAYSTART) && ParseValue(p).0.Some?
    ensures var (v, q) := ParseValue(p); Exact(p, Weight(v.value), q, Absorbs(p), Read(p.toks, v.value, q.toks), HasEmpty(v.value))
    decreases |p.toks|, 0
  {
    hide ElementLoop, ParseElements, ParseValue, ElementsAbsorb, Exact, Tidy, Suffix;
    var p1 := p.Accept(ARRAYSTART);
    var o := Opened(p1);
    AcceptTidy(p, ARRAYSTART);
    ValueReadsArray(p, ParseElements(p1));
    ArrayReturns(p1);
    var (vs, n, q1) := ElementLoop(o, [], -1);
    ElementsSuffix(o, [], -1);
    TidySuffix(q1.toks, o.toks);
    AcceptTidy(q1, ARRAYEND);
    if vs == [] {
      EmptyArray(o);
    } else {
      ElementsExact(o, [], -1);
      assert vs[0..] == vs;
    }
    ArrayWhole(p, o, vs, q1, ElementsAbsorb(o, true), ParseValue(p).1);
  }

  /** The tokens inside the brackets. */
  ghost function Inside(vs: seq<Value>): int {
    if vs == [] then 0 else Weights(vs) - 1
  }

  /** From the elements to the array. */
  lemma {:induction false} ArrayWhole(p: State, o: State, vs: seq<Value>, q1: State, absorbs: bool, q: State)
    requires p.toks == [Sym(ARRAYSTART)] + o.toks && q1.toks == [Sym(ARRAYEND)] + q.toks
    requires Exact(o, Inside(vs), q1, absorbs, ReadElements(o.toks, vs, q1.toks), vs == [] || AnyEmpty(vs))
    ensures Exact(p, Weight(Array(vs)), q, absorbs, Read(p.toks, Array(vs), q.toks), HasEmpty(Array(vs)))
  {
    if !absorbs {
      var es :| o.toks == ElementTokens(es) + q1.toks && Meanings(es) == vs;
      var s := SArray(es);
      Assoc([Sym(ARRAYSTART)], ElementTokens(es), [Sym(ARRAYEND)] + q.toks);
      Assoc([Sym(ARRAYSTART)] + ElementTokens(es), [Sym(ARRAYEND)], q.toks);
      assert p.toks == TokensOf(s) + q.toks && Meaning(s) == Array(vs);
    }
  }

  /** No elements: the first value failed. */
  lemma {:induction false} EmptyArray(p: State)
    requires var (vs, _, q) := ElementLoop(p, [], -1); vs == []
    ensures var (vs, _, q) := ElementLoop(p, [], -1);
            Exact(p, 0, q, ElementsAbsorb(p, true), ReadElements(p.toks, [], q.toks), true)
  {
    hide ElementLoop, ParseValue;
    ElementLoopCounts(p, [], -1);
    ElementLoopUnfolds(p, [], -1);
    ValueSuffix(p);
    var (v, q) := ParseValue(p);
    if |q.toks| == |p.toks| { assert p.toks == ElementTokens([]) + q.toks; }
  }

  lemma {:induction false} ElementsExact(p: State, vs: seq<Value>, ncommas: int)
    requires Tidy(p.toks) && ncommas == |vs| - 1
    requires var (r, n, q) := ElementLoop(p, vs, ncommas); r != [] && |r| - n == 1 && q.Head() == ARRAYEND
    ensures var (r, _, q) := ElementLoop(p, vs, ncommas);
            && vs < r
            && Exact(p, Inside(r[|vs|..]), q, ElementsAbsorb(p, vs == []), ReadElements(p.toks, r[|vs|..], q.toks),
                     AnyEmpty(r[|vs|..]))
    decreases |p.toks|, 2
  {
    hide ElementLoop, ParseValue, Absorbs, Exact, Tidy, Suffix;
    ElementLoopCounts(p, vs, ncommas);
    ElementLoopUnfolds(p, vs, ncommas);
    var (r, n, q) := ElementLoop(p, vs, ncommas);
    var (v, q0) := ParseValue(p);
    var q1 := q0.Accept(COMMA);
    var vs' := if v.Some? then vs + [v.value] else vs;
    if q0.Accepts(COMMA) { ElementLoopCounts(q1, vs', ncommas + 1); }
    assert v.Some?;
    ValueExact(p);
    ValueSuffix(p);
    TidySuffix(q0.toks, p.toks);
    AcceptTidy(q0, COMMA);
    if q0.Accepts(COMMA) {
      ElementsExact(q1, vs', ncommas + 1);
      assert r[|vs|..] == [v.value] + r[|vs'|..];
      OneMoreElement(p, v.value, q0, q1, r[|vs'|..], q, Absorbs(p), ElementsAbsorb(q1, false));
    } else {
      StaysBeforeComma(q0, ARRAYEND);
      LastElement(p, v.value, q0, Absorbs(p));
      assert r[|vs|..] == [v.value];
    }
  }

  /** A comma that is not accepted is not taken either, unless a lexical error is next. */
  lemma {:induction false} StaysBeforeComma(p: State, t: Token)
    requires !p.Accepts(COMMA) && p.Accept(COMMA).Head() == t && t != COMMA && t != UNKNOWN
    ensures p.Accept(COMMA) == p
  {
  }

  lemma {:induction false} LastElement(p: State, v: Value, q: State, absorbs: bool)
    requires Exact(p, Weight(v), q, absorbs, Read(p.toks, v, q.toks), HasEmpty(v))
    ensures Exact(p, Inside([v]), q, absorbs, ReadElements(p.toks, [v], q.toks), AnyEmpty([v]))
  {
    assert [v][1..] == [] && Weights([v]) == Weight(v) + 1;
    if !absorbs {
      var s :| p.toks == TokensOf(s) + q.toks && Meaning(s) == v;
      assert [s][1..] == [];
      assert p.toks == ElementTokens([s]) + q.toks && Meanings([s]) == [v];
    }
  }

  lemma {:induction false} OneMoreElement(p: State, v: Value, q0: State, q1: State, vs: seq<Value>, q: State, here: bool, later: bool)
    requires Exact(p, Weight(v), q0, here, Read(p.toks, v, q0.toks), HasEmpty(v)) && q0.toks == [Sym(COMMA)] + q1.toks
    requires vs != [] && Exact(q1, Inside(vs), q, later, ReadElements(q1.toks, vs, q.toks), AnyEmpty(vs))
    ensures Exact(p, Inside([v] + vs), q, here || later, ReadElements(p.toks, [v] + vs, q.toks), AnyEmpty([v] + vs))
  {
    assert ([v] + vs)[1..] == vs;
    assert Weights([v] + vs) == Weight(v) + 1 + Weights(vs);
    if !here && !later {
      var s :| p.toks == TokensOf(s) + q0.toks && Meaning(s) == v;
      var es :| q1.toks == ElementTokens(es) + q.toks && Meanings(es) == vs;
      var all := [s] + es;
      assert all[1..] == es;
      ElementTokensSplit(all, q.toks);
      assert p.toks == ElementTokens(all) + q.toks && Meanings(all) == [v] + vs;
    }
  }

  // ----- objects

  lemma {:induction false} ObjectReturns(p: State)
    requires ParseMembers(p).0.Some?
    ensures var (ms, n, q) := MemberLoop(p, [], -1);
            && q.Accepts(OBJECTEND) && (ms == [] || |ms| - n == 1)
            && ParseMembers(p) == (Some(Object(ms)), q.Accept(OBJECTEND))
            && (ms == [] ==> n == 0)
  {
    hide MemberLoop;
    MemberLoopCounts(p, [], -1);
  }

  lemma {:induction false} ObjectExact(p: State)
    requires Tidy(p.toks) && p.Accepts(OBJECTSTART) && ParseValue(p).0.Some?
    ensures var (v, q) := ParseValue(p); Exact(p, Weight(v.value), q, Absorbs(p), Read(p.toks, v.value, q.toks), HasEmpty(v.value))
    decreases |p.toks|, 0
  {
    hide MemberLoop, ParseMembers, ParseValue, MembersAbsorb, Exact, Tidy, Suffix;
    var o := p.Accept(OBJECTSTART);
    AcceptTidy(p, OBJECTSTART);
    ValueReadsObject(p, ParseMembers(o));
    ObjectReturns(o);
    var (ms, n, q1) := MemberLoop(o, [], -1);
    MembersSuffix(o, [], -1);
    TidySuffix(q1.toks, o.toks);
    AcceptTidy(q1, OBJECTEND);
    if ms == [] {
      EmptyObject(o);
    } else {
      MembersExact(o, [], -1);
      assert ms[0..] == ms;
    }
    ObjectWhole(p, o, ms, q1, MembersAbsorb(o, true), ParseValue(p).1);
  }

  ghost function MembersInside(ms: seq<Member>): int {
    if ms == [] then 0 else MemberWeights(ms) - 1
  }

  lemma {:induction false} ObjectWhole(p: State, o: State, ms: seq<Member>, q1: State, absorbs: bool, q: State)
    requires p.toks == [Sym(OBJECTSTART)] + o.toks && q1.toks == [Sym(OBJECTEND)] + q.toks
    requires Exact(o, MembersInside(ms), q1, absorbs, ReadMembers(o.toks, ms, q1.toks), ms == [] || AnyEmptyMember(ms))
    ensures Exact(p, Weight(Object(ms)), q, absorbs, Read(p.toks, Object(ms), q.toks), HasEmpty(Object(ms)))
  {
    if !absorbs {
      var es :| o.toks == MemberTokens(es) + q1.toks && MemberMeanings(es) == ms;
      var s := SObject(es);
      Assoc([Sym(OBJECTSTART)], MemberTokens(es), [Sym(OBJECTEND)] + q.toks);
      Assoc([Sym(OBJECTSTART)] + MemberTokens(es), [Sym(OBJECTEND)], q.toks);
      assert p.toks == TokensOf(s) + q.toks && Meaning(s) == Object(ms);
    }
  }

  /** No members: the only one failed. */
  lemma {:induction false} EmptyObject(p: State)
    requires var (ms, n, q) := MemberLoop(p, [], -1); ms == [] && n == 0 && q.Head() == OBJECTEND
    ensures var (ms, _, q) := MemberLoop(p, [], -1);
            Exact(p, 0, q, MembersAbsorb(p, true), ReadMembers(p.toks, [], q.toks), true)
  {
    hide MemberLoop, ParseMember;
    MemberLoopCounts(p, [], -1);
    MemberLoopUnfolds(p, [], -1);
    MemberSuffix(p);
    var (m, q) := ParseMember(p);
    if q.Accepts(COMMA) {
      MemberLoopCounts(q.Accept(COMMA), [], 0);
    } else {
      StaysBeforeComma(q, OBJECTEND);
    }
    if |q.toks| == |p.toks| { assert p.toks == MemberTokens([]) + q.toks; }
  }

  lemma {:induction false} MemberExact(p: State)
    requires Tidy(p.toks) && ParseMember(p).0.Some?
    ensures var (m, q) := ParseMember(p);
            Exact(p, Weight(m.value.value) + 2, q, Absorbs(p.Accept(QSTRING).Accept(COLON)),
                  ReadMember(p.toks, m.value, q.toks), HasEmpty(m.value.value))
    decreases |p.toks|, 1
  {
    hide ParseValue, Absorbs, Tidy, Suffix;
    var q0 := p.Accept(QSTRING);
    var q1 := q0.Accept(COLON);
    AcceptTidy(p, QSTRING);
    AcceptTidy(q0, COLON);
    ValueExact(q1);
    var (m, q) := ParseMember(p);
    if !Absorbs(q1) {
      var s :| q1.toks == TokensOf(s) + q.toks && Meaning(s) == m.value.value;
      var e := SMember(m.value.name, s);
      Assoc([p.toks[0]], [Sym(COLON)], q1.toks);
      assert NameTokens(e) == [p.toks[0]] + [Sym(COLON)];
      Assoc(NameTokens(e), TokensOf(s), q.toks);
      assert p.toks == NameTokens(e) + TokensOf(e.value) + q.toks && m.value == Member(e.name, Meaning(e.value));
    }
  }

  lemma {:induction false} MembersExact(p: State, ms: seq<Member>, ncommas: int)
    requires Tidy(p.toks) && ncommas == |ms| - 1
    requires var (r, n, q) := MemberLoop(p, ms, ncommas); r != [] && |r| - n == 1 && q.Head() == OBJECTEND
    ensures var (r, _, q) := MemberLoop(p, ms, ncommas);
            && ms < r
            && Exact(p, MembersInside(r[|ms|..]), q, MembersAbsorb(p, ms == []), ReadMembers(p.toks, r[|ms|..], q.toks),
                     AnyEmptyMember(r[|ms|..]))
    decreases |p.toks|, 2
  {
    hide MemberLoop, ParseMember, Absorbs, Exact, Tidy, Suffix;
    MemberLoopCounts(p, ms, ncommas);
    MemberLoopUnfolds(p, ms, ncommas);
    var (r, n, q) := MemberLoop(p, ms, ncommas);
    var (m, q0) := ParseMember(p);
    var q1 := q0.Accept(COMMA);
    var ms' := if m.Some? then ms + [m.value] else ms;
    if q0.Accepts(COMMA) { MemberLoopCounts(q1, ms', ncommas + 1); }
    assert m.Some?;
    MemberExact(p);
    MemberSuffix(p);
    TidySuffix(q0.toks, p.toks);
    AcceptTidy(q0, COMMA);
    var here := Absorbs(p.Accept(QSTRING).Accept(COLON));
    if q0.Accepts(COMMA) {
      MembersExact(q1, ms', ncommas + 1);
      assert r[|ms|..] == [m.value] + r[|ms'|..];
      OneMoreMember(p, m.value, q0, q1, r[|ms'|..], q, here, MembersAbsorb(q1, false));
    } else {
      StaysBeforeComma(q0, OBJECTEND);
      LastMember(p, m.value, q0, here);
      assert r[|ms|..] == [m.value];
    }
  }

  lemma {:induction false} LastMember(p: State, m: Member, q: State, absorbs: bool)
    requires Exact(p, Weight(m.value) + 2, q, absorbs, ReadMember(p.toks, m, q.toks), HasEmpty(m.value))
    ensures Exact(p, MembersInside([m]), q, absorbs, ReadMembers(p.toks, [m], q.toks), AnyEmptyMember([m]))
  {
    assert [m][1..] == [] && MemberWeights([m]) == Weight(m.value) + 3;
    if !absorbs {
      var s :| p.toks == NameTokens(s) + TokensOf(s.value) + q.toks && m == Member(s.name, Meaning(s.value));
      assert [s][1..] == [];
      assert p.toks == MemberTokens([s]) + q.toks && MemberMeanings([s]) == [m];
    }
  }

  lemma {:induction false} OneMoreMember(p: State, m: Member, q0: State, q1: State, ms: seq<Member>, q: State, here: bool, later: bool)
    requires Exact(p, Weight(m.value) + 2, q0, here, ReadMember(p.toks, m, q0.toks), HasEmpty(m.value)) && q0.toks == [Sym(COMMA)] + q1.toks
    requires ms != [] && Exact(q1, MembersInside(ms), q, later, ReadMembers(q1.toks, ms, q.toks), AnyEmptyMember(ms))
    ensures Exact(p, MembersInside([m] + ms), q, here || later, ReadMembers(p.toks, [m] + ms, q.toks), AnyEmptyMember([m] + ms))
  {
    assert ([m] + ms)[1..] == ms;
    if !here && !later {
      var s :| p.toks == NameTokens(s) + TokensOf(s.value) + q0.toks && m == Member(s.name, Meaning(s.value));
      var es :| q1.toks == MemberTokens(es) + q.toks && MemberMeanings(es) == ms;
      var all := [s] + es;
      assert all[1..] == es;
      MemberTokensSplit(all, q.toks);
      assert p.toks == MemberTokens(all) + q.toks && MemberMeanings(all) == [m] + ms;
    }
  }

  /**
   The exact condition of soundness: the tokens consumed for a value are those of a grammatical value
   with the same tree if and only if no failure was absorbed.
   */
  lemma {:induction false} SoundExactly(p: State)
    requires Tidy(p.toks) && ParseValue(p).0.Some?
    ensures var (v, q) := ParseValue(p); Read(p.toks, v.value, q.toks) <==> !Absorbs(p)
  {
    hide ParseValue, Absorbs;
    ValueExact(p);
    var (v, q) := ParseValue(p);
    if s :| p.toks == TokensOf(s) + q.toks && Meaning(s) == v.value { TokensWeigh(s); }
  }

  /** In particular a tree without empty containers was always read from a grammatical value. */
  lemma {:induction false} SoundWithoutEmpty(p: State)
    requires Tidy(p.toks) && ParseValue(p).0.Some? && !HasEmpty(ParseValue(p).0.value)
    ensures var (v, q) := ParseValue(p); Read(p.toks, v.value, q.toks) && !Absorbs(p)
  {
    hide ParseValue, Absorbs, HasEmpty;
    ValueExact(p);
  }
}
