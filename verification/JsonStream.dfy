/** The parser only ever drops lexemes from the front of its stream. */
module JsonStream {
  import opened Common
  import opened JsonLexer
  import opened JsonGrammar

  /** What may be left of `b`: a suffix, but never nothing, since the last lexeme stays. */
  ghost predicate Suffix<T>(a: seq<T>, b: seq<T>) {
    |a| <= |b| && a == b[|b| - |a|..] && (b != [] ==> a != [])
  }

  lemma SuffixTrans<T>(a: seq<T>, b: seq<T>, c: seq<T>)
    requires Suffix(a, b) && Suffix(b, c)
    ensures Suffix(a, c)
  {
  }

  lemma AcceptSuffix(p: State, t: Token)
    ensures Suffix(p.Accept(t).toks, p.toks)
  {
  }

  lemma {:induction false} ValueSuffix(p: State)
    ensures Suffix(ParseValue(p).1.toks, p.toks)
    decreases |p.toks|, 0
  {
    hide ParseElements, ParseMembers, Suffix;
    var t := p.Head();
    var q := p.Accept(t);
    AcceptSuffix(p, t);
    SuffixRefl(p.toks);
    if StartsValue(t) && p.Accepts(t) {
      if t == OBJECTSTART {
        ObjectSuffix(q);
        SuffixTrans(ParseMembers(q).1.toks, q.toks, p.toks);
      }
      if t == ARRAYSTART {
        ArraySuffix(q);
        SuffixTrans(ParseElements(q).1.toks, q.toks, p.toks);
      }
    }
  }

  lemma SuffixRefl<T>(a: seq<T>)
    ensures Suffix(a, a)
  {
  }

  lemma {:induction false} ArraySuffix(p: State)
    ensures Suffix(ParseElements(p).1.toks, p.toks)
    decreases |p.toks|, 2
  {
    hide ElementLoop, Suffix;
    SuffixRefl(p.toks);
    if p.narrays < MAX_ARRAY_NESTING {
      var o := p.(narrays := p.narrays + 1);
      ElementsSuffix(o, [], -1);
      var q := ElementLoop(o, [], -1).2;
      AcceptSuffix(q, ARRAYEND);
      SuffixTrans(q.Accept(ARRAYEND).toks, q.toks, p.toks);
    }
  }

  lemma {:induction false} ElementsSuffix(p: State, vs: seq<Value>, ncommas: int)
    ensures Suffix(ElementLoop(p, vs, ncommas).2.toks, p.toks)
    decreases |p.toks|, 1
  {
    hide ParseValue, ElementLoop, Suffix;
    ElementLoopUnfolds(p, vs, ncommas);
    ValueSuffix(p);
    var (v, q) := ParseValue(p);
    var r := q.Accept(COMMA);
    AcceptSuffix(q, COMMA);
    SuffixTrans(r.toks, q.toks, p.toks);
    if !(vs == [] && v.None?) && q.Accepts(COMMA) {
      var vs' := if v.Some? then vs + [v.value] else vs;
      ElementsSuffix(r, vs', ncommas + 1);
      SuffixTrans(ElementLoop(r, vs', ncommas + 1).2.toks, r.toks, p.toks);
    }
  }

  lemma {:induction false} ObjectSuffix(p: State)
    ensures Suffix(ParseMembers(p).1.toks, p.toks)
    decreases |p.toks|, 2
  {
    hide MemberLoop, Suffix;
    MembersSuffix(p, [], -1);
    var q := MemberLoop(p, [], -1).2;
    AcceptSuffix(q, OBJECTEND);
    SuffixTrans(q.Accept(OBJECTEND).toks, q.toks, p.toks);
  }

  lemma {:induction false} MembersSuffix(p: State, ms: seq<Member>, ncommas: int)
    ensures Suffix(MemberLoop(p, ms, ncommas).2.toks, p.toks)
    decreases |p.toks|, 1
  {
    hide ParseMember, MemberLoop, Suffix;
    MemberLoopUnfolds(p, ms, ncommas);
    MemberSuffix(p);
    var (m, q) := ParseMember(p);
    var r := q.Accept(COMMA);
    AcceptSuffix(q, COMMA);
    SuffixTrans(r.toks, q.toks, p.toks);
    if q.Accepts(COMMA) {
      var ms' := if m.Some? then ms + [m.value] else ms;
      MembersSuffix(r, ms', ncommas + 1);
      SuffixTrans(MemberLoop(r, ms', ncommas + 1).2.toks, r.toks, p.toks);
    }
  }

  lemma {:induction false} MemberSuffix(p: State)
    ensures Suffix(ParseMember(p).1.toks, p.toks)
    decreases |p.toks|, 0
  {
    hide ParseValue, Suffix;
    var q := p.Accept(QSTRING);
    var r := q.Accept(COLON);
    AcceptSuffix(p, QSTRING);
    AcceptSuffix(q, COLON);
    SuffixTrans(r.toks, q.toks, p.toks);
    if p.Accepts(QSTRING) && q.Accepts(COLON) {
      ValueSuffix(r);
      SuffixTrans(ParseValue(r).1.toks, r.toks, p.toks);
    }
  }
}
