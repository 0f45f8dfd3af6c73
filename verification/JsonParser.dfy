/**
 The JSON parser as it runs: a cursor over the input, one token of lookahead, and recursive descent
 with its loops. Each method is tied to the lexeme stream and to the parse functions over it.
 */
module JsonParser {
  import opened Common
  import opened JsonNumber
  import opened JsonLexer
  import opened JsonGrammar

  lemma StartsAtCons(s: string, p: nat, c: char, rest: string)
    ensures StartsAt(s, p, [c] + rest) <==> p < |s| && s[p] == c && StartsAt(s, p + 1, rest)
  {
    if p + 1 + |rest| <= |s| {
      assert s[p..p + 1 + |rest|] == [s[p]] + s[p + 1..p + 1 + |rest|];
    }
  }

  /** Hex digits are ordinary characters, so reading them one by one or as a unit is the same. */
  lemma HexDigitsAreOrdinary(s: string, i: nat)
    requires FourHexAt(s, i)
    ensures ClosingQuote(s, i) == ClosingQuote(s, i + 4)
  {
    assert ClosingQuote(s, i) == ClosingQuote(s, i + 1) && ClosingQuote(s, i + 2) == ClosingQuote(s, i + 3);
    assert ClosingQuote(s, i + 1) == ClosingQuote(s, i + 2) && ClosingQuote(s, i + 3) == ClosingQuote(s, i + 4);
  }

  lemma FormFeedIsUnknown(s: string, p: nat, rangeError: string -> bool)
    requires p < |s| && s[p] == FORM_FEED
    ensures TokenAt(s, p, rangeError).token == UNKNOWN
  {
  }

  // accept_value tries one token after another. After failing on those in `tried`, the state is
  // either untouched or stuck on a lexical error behind the lookahead.

  ghost predicate Tried(p: State, q: State, tried: set<Token>) {
    || (q == p && p.Head() !in tried)
    || (p.Head() in tried && !p.Accepts(p.Head()) && q == p.Accept(p.Head()) && Final(q.Head()))
  }

  /** The lexer's numbers need no third case: the `die` after isreal is not reached. */
  lemma NumberIsOneKind(s: string, rangeError: string -> bool)
    requires IsNumber(s, rangeError) && !IsInteger(s)
    ensures IsReal(s, rangeError)
  {
  }

  lemma TriedOne(p: State, q: State, tried: set<Token>, t: Token)
    requires Tried(p, q, tried) && !Final(t) && t !in tried && |p.toks| > 0 && (|p.toks| > 1 <==> !Final(p.Head()))
    ensures q.Accepts(t) ==> q == p && p.Head() == t
    ensures !q.Accepts(t) ==> Tried(p, q.Accept(t), tried + {t})
  {
  }

  lemma TriedAll(p: State, q: State, tried: set<Token>)
    requires Tried(p, q, tried) && tried == {OBJECTSTART, ARRAYSTART, TRUE, FALSE, NULL, NUMBER, QSTRING, STRING}
    ensures ParseValue(p) == (None, q)
  {
  }

  lemma {:induction false} ReadsScalar(p: State, t: Token)
    requires p.Accepts(t) && t in {TRUE, FALSE, NULL, NUMBER, QSTRING, STRING}
    ensures ParseValue(p) ==
            (Some(match t
                  case TRUE => True
                  case FALSE => False
                  case NULL => Null
                  case NUMBER => NumberValue(p.toks[0].text)
                  case QSTRING => QString(p.toks[0].text)
                  case _ => StringWord), p.Accept(t))
  {
  }

  /** A value is returned only after a successful accept, so its lookahead is no lexical error. */
  lemma {:induction false} ParsedLookahead(p: State)
    ensures ParseValue(p).0.Some? ==> ParseValue(p).1.Head() != UNKNOWN
  {
  }

  class Parser {
    const mem: string
    const rangeError: string -> bool
    var nread: nat
    var token: Token
    var valueStart: nat
    var valueEnd: nat
    var saved: string
    var narrays: nat
    var value: Option<Value>

    ghost predicate Valid()
      reads this`nread, this`token, this`valueStart, this`valueEnd
    {
      && nread <= |mem|
      && valueStart <= valueEnd <= |mem|
      && (!HasValue(token) && token != UNKNOWN ==> valueStart == valueEnd)
      && (token == EOF ==> nread == |mem|)
      && (token == NUMBER ==> IsNumber(mem[valueStart..valueEnd], rangeError))
    }

    /** The lookahead and every lexeme still to be read. */
    ghost function Stream(): (r: seq<Lexeme>)
      requires Valid()
      reads this`nread, this`token, this`valueStart, this`valueEnd
      ensures r != [] && r[0].token == token && (|r| > 1 <==> !Final(token))
    {
      if Final(token) then [Lexeme(token, "")]
      else [Lexeme(token, mem[valueStart..valueEnd])] + Lexemes(mem, nread, rangeError)
    }

    ghost function Abs(): State
      requires Valid()
      reads this`nread, this`token, this`valueStart, this`valueEnd, this`narrays
    {
      State(Stream(), narrays)
    }

    /** The termination measure: bytes left, then whether the end has been seen. */
    ghost function Measure(): nat
      requires Valid()
      reads this`nread, this`token, this`valueStart, this`valueEnd
    {
      2 * (|mem| - nread) + if token == EOF then 0 else 1
    }

    constructor (src: string, rangeError: string -> bool)
      ensures Valid() && mem == src && this.rangeError == rangeError
      ensures nread == 0 && token == ERROR && narrays == 0 && value == None
    {
      mem := src;
      this.rangeError := rangeError;
      nread, token, valueStart, valueEnd := 0, ERROR, 0, 0;
      saved, narrays, value := "", 0, None;
    }

    method GetC() returns (c: Option<char>)
      requires nread <= |mem|
      modifies this`nread
      ensures if old(nread) < |mem| then c == Some(mem[old(nread)]) && nread == old(nread) + 1
              else c == None && nread == old(nread)
    {
      if nread == |mem| { return None; }
      c := Some(mem[nread]);
      nread := nread + 1;
    }

    /** The automaton with one character of memory finds the closing quote of the unit grammar. */
    method GetQString() returns (t: Token)
      requires nread <= |mem|
      modifies this`nread, this`valueStart, this`valueEnd
      ensures old(nread) <= nread <= |mem| && (t == UNKNOWN || t == QSTRING)
      ensures valueStart == old(nread) && valueStart <= valueEnd <= |mem|
      ensures t == QSTRING <==> ClosingQuote(mem, old(nread)).Some?
      ensures t == QSTRING ==> valueEnd == ClosingQuote(mem, old(nread)).value && nread == valueEnd + 1
    {
      valueStart, valueEnd := nread, nread;
      var prev := '\0';
      ghost var start := nread;
      ghost var goal := ClosingQuote(mem, start);
      while true
        invariant start == valueStart <= nread == valueEnd <= |mem|
        invariant prev == '\\' ==> start < nread && mem[nread - 1] == '\\' && goal == ClosingQuote(mem, nread - 1)
        invariant prev != '\\' ==> goal == ClosingQuote(mem, nread)
        decreases |mem| - nread
      {
        var r := GetC();
        if r.None? { return UNKNOWN; }
        var c := r.value;
        if prev == '\\' && (c == 'u' || c == 'U') {
          if !FourHexAt(mem, nread) { return UNKNOWN; }
          HexDigitsAreOrdinary(mem, nread);
        }
        if c == '\0' { return UNKNOWN; }
        if prev == '\\' && !(IsShortEscape(c) || c == 'u') { return UNKNOWN; }
        if c == '\\' && prev == '\\' {
          prev := '\0';
        } else if c == '"' && prev != '\\' {
          return QSTRING;
        } else {
          prev := c;
        }
        if c == '\t' || c == '\n' { return UNKNOWN; }
        valueEnd := valueEnd + 1;
      }
    }

    /** get_true, get_false, get_null, get_string and get_boolean, which differ in their letters only. */
    method GetRest(rest: string, t: Token) returns (r: Token)
      requires nread <= |mem| && t != UNKNOWN
      modifies this`nread
      ensures old(nread) <= nread <= |mem|
      ensures r == if StartsAt(mem, old(nread), rest) then t else UNKNOWN
      ensures r == t ==> nread == old(nread) + |rest|
    {
      var i := 0;
      ghost var start := nread;
      while i < |rest|
        invariant i <= |rest| && nread == start + i <= |mem|
        invariant mem[start..nread] == rest[..i]
      {
        var c := GetC();
        if c != Some(rest[i]) {
          return UNKNOWN;
        }
        assert mem[start..nread] == mem[start..nread - 1] + [mem[nread - 1]];
        i := i + 1;
      }
      assert rest[..i] == rest;
      return t;
    }

    method GetNumber() returns (ok: bool)
      requires nread < |mem| && IsNumberChar(mem[nread])
      modifies this`nread, this`valueStart, this`valueEnd, this`token
      ensures old(nread) < nread <= |mem| && valueStart <= valueEnd <= |mem|
      ensures var l := NumberAt(mem, old(nread), rangeError);
              token == l.token && ok == (token != UNKNOWN) && (token == UNKNOWN || token == NUMBER) &&
              (ok ==> nread == l.next && mem[valueStart..valueEnd] == l.text && IsNumber(l.text, rangeError))
    {
      valueStart, valueEnd := nread, nread;
      ghost var start := nread;
      while true
        invariant start == valueStart <= nread == valueEnd <= |mem|
        invariant nread == start ==> nread < |mem| && IsNumberChar(mem[nread])
        invariant NumberEnd(mem, start) == NumberEnd(mem, nread)
        decreases |mem| - nread
      {
        var c := GetC();
        if c.None? { break; }
        if c.value == '\0' {
          token := UNKNOWN;
          return false;
        }
        if IsNumberChar(c.value) {
          valueEnd := valueEnd + 1;
        } else {
          nread := nread - 1;
          break;
        }
      }
      if !IsNumber(mem[valueStart..valueEnd], rangeError) {
        token := UNKNOWN;
        return false;
      }
      token := NUMBER;
      return true;
    }

    /** The loop at the head of nextsym: the first character that is not blank, or a form feed. */
    method SkipWhite() returns (c: Option<char>)
      requires nread <= |mem|
      modifies this`nread
      ensures old(nread) <= nread <= |mem|
      ensures c.None? ==> nread == |mem| == SkipBlanks(mem, old(nread))
      ensures c.Some? ==> old(nread) < nread && nread - 1 == SkipBlanks(mem, old(nread)) && c.value == mem[nread - 1]
    {
      ghost var start := nread;
      c := GetC();
      while c.Some? && IsSpace(c.value) && c.value != FORM_FEED
        invariant start <= nread <= |mem|
        invariant if c.None? then nread == |mem| else start < nread && c.value == mem[nread - 1]
        invariant SkipBlanks(mem, start) == SkipBlanks(mem, if c.None? then nread else nread - 1)
        decreases |mem| - nread, c.Some?
      {
        c := GetC();
      }
    }

    /** A keyword whose first letter has been read. */
    method GetWord(word: string, t: Token)
      requires 0 < nread <= |mem| && word != "" && mem[nread - 1] == word[0] && t != UNKNOWN
      modifies this`nread, this`token
      ensures old(nread) <= nread <= |mem|
      ensures var l := Keyword(mem, old(nread) - 1, word, t);
              token == l.token && (token != UNKNOWN ==> nread == l.next)
    {
      StartsAtCons(mem, nread - 1, word[0], word[1..]);
      assert [word[0]] + word[1..] == word;
      var r := GetRest(word[1..], t);
      token := r;
    }

    /** The switch of nextsym, on the character `c` just read. */
    method ReadToken(c: char)
      requires 0 < nread <= |mem| && mem[nread - 1] == c && valueStart == valueEnd == 0
      modifies this`nread, this`valueStart, this`valueEnd, this`token
      ensures old(nread) <= nread <= |mem| && valueStart <= valueEnd <= |mem|
      ensures var l := TokenAt(mem, old(nread) - 1, rangeError);
              token == l.token && (token != UNKNOWN ==> nread == l.next && mem[valueStart..valueEnd] == l.text)
      ensures token != EOF && (!HasValue(token) && token != UNKNOWN ==> valueStart == valueEnd)
      ensures token == NUMBER ==> IsNumber(mem[valueStart..valueEnd], rangeError)
    {
      hide ClosingQuote, Keyword, NumberAt, IsNumber;
      match c {
        case '[' => token := ARRAYSTART;
        case ']' => token := ARRAYEND;
        case '{' => token := OBJECTSTART;
        case '}' => token := OBJECTEND;
        case ':' => token := COLON;
        case ',' => token := COMMA;
        case '"' =>
          var t := GetQString();
          token := t;
        case 't' => GetWord("true", TRUE);
        case 'f' => GetWord("false", FALSE);
        case 'n' => GetWord("null", NULL);
        case 's' => GetWord("string", STRING);
        case 'b' => GetWord("boolean", BOOLEAN);
        case _ =>
          if c == '-' || IsDigit(c) {
            nread := nread - 1;
            var _ := GetNumber();
          } else {
            token := UNKNOWN;
          }
      }
    }

    /** nextsym: the next lexeme becomes the lookahead and the measure drops, unless at the end. */
    method NextSym() returns (ok: bool)
      requires Valid()
      modifies this`nread, this`valueStart, this`valueEnd, this`token
      ensures Valid()
      ensures old(token) == EOF ==> !ok && Stream() == old(Stream()) && Measure() == old(Measure())
      ensures old(token) != EOF ==>
                Stream() == Lexemes(mem, old(nread), rangeError) && ok == (token != UNKNOWN) && Measure() < old(Measure())
      ensures !Final(old(token)) ==> Stream() == old(Stream())[1..]
    {
      hide TokenAt, SkipBlanks;
      if token == EOF { return false; }
      token, valueStart, valueEnd := UNKNOWN, 0, 0;
      ghost var start := nread;
      var c := SkipWhite();
      if c.None? {
        token := EOF;
      } else if c.value == FORM_FEED {
        FormFeedIsUnknown(mem, nread - 1, rangeError);
      } else {
        ReadToken(c.value);
      }
      return token != UNKNOWN;
    }

    /** accept: on a match the lookahead's text is saved and the next lexeme is read. */
    method Accept(t: Token) returns (ok: bool)
      requires Valid() && !Final(t) && t != BOOLEAN
      modifies this`nread, this`valueStart, this`valueEnd, this`token, this`saved
      ensures Valid() && ok == old(Abs()).Accepts(t) && Abs() == old(Abs()).Accept(t)
      ensures Measure() <= old(Measure()) && (ok ==> Measure() < old(Measure()))
      ensures ok && HasValue(t) ==> saved == old(Stream())[0].text
      ensures ok && t == NUMBER ==> IsNumber(saved, rangeError)
    {
      if token == t {
        if HasValue(t) { saved := mem[valueStart..valueEnd]; }
        ok := NextSym();
        return ok;
      }
      return false;
    }

    /**
     accept_value. `frames` counts the active calls of AcceptArrayElements: it never exceeds the
     array counter, so no more than MAX_ARRAY_NESTING + 1 of them are ever active.
     A BOOLEAN lookahead ends the C process, because the token table has no row for it; here the
     call returns no value.
     */
    method AcceptValue(ghost frames: nat) returns (v: Option<Value>)
      requires Valid() && frames <= narrays && frames <= MAX_ARRAY_NESTING
      modifies this`nread, this`valueStart, this`valueEnd, this`token, this`saved, this`narrays
      ensures Valid() && (v, Abs()) == ParseValue(old(Abs()))
      ensures Measure() <= old(Measure()) && (v.Some? ==> Measure() < old(Measure()))
      decreases Measure(), 0
    {
      hide ParseValue, ParseElements, ParseMembers, Stream, Lexemes;
      ghost var s := Abs();
      var ok := Try(OBJECTSTART, s, {});
      if ok { v := AcceptObjects(frames); ValueReadsObject(s, (v, Abs())); return; }
      ok := Try(ARRAYSTART, s, {OBJECTSTART});
      if ok { v := AcceptArrayElements(frames + 1); ValueReadsArray(s, (v, Abs())); return; }
      assert {OBJECTSTART} + {ARRAYSTART} == {OBJECTSTART, ARRAYSTART};
      v := AcceptScalar(s);
    }

    /** accept, as the next attempt of accept_value on the state `s` it started in. */
    method Try(t: Token, ghost s: State, ghost tried: set<Token>) returns (ok: bool)
      requires Valid() && Tried(s, Abs(), tried) && StartsValue(t) && t !in tried
      requires |s.toks| > 0 && (|s.toks| > 1 <==> !Final(s.Head()))
      modifies this`nread, this`valueStart, this`valueEnd, this`token, this`saved
      ensures Valid()
      ensures ok ==> s.Accepts(t) && Abs() == s.Accept(t) && Measure() < old(Measure())
      ensures ok && HasValue(t) ==> saved == s.toks[0].text
      ensures ok && t == NUMBER ==> IsNumber(saved, rangeError)
      ensures !ok ==> Tried(s, Abs(), tried + {t}) && Measure() <= old(Measure())
    {
      hide Stream, Tried;
      TriedOne(s, Abs(), tried, t);
      ok := Accept(t);
    }

    /** The part of accept_value after the opening brace and bracket have been tried. */
    method AcceptScalar(ghost s: State) returns (v: Option<Value>)
      requires Valid() && Tried(s, Abs(), {OBJECTSTART, ARRAYSTART})
      requires |s.toks| > 0 && (|s.toks| > 1 <==> !Final(s.Head()))
      modifies this`nread, this`valueStart, this`valueEnd, this`token, this`saved
      ensures Valid() && (v, Abs()) == ParseValue(s)
      ensures Measure() <= old(Measure()) && (v.Some? ==> Measure() < old(Measure()))
    {
      hide ParseValue, Stream, Lexemes, Tried, IsNumber, IsReal, Strtol, Final, Valid, Abs, Measure, State.Accept, State.Accepts;
      ghost var tried := {OBJECTSTART, ARRAYSTART};
      var ok := Try(TRUE, s, tried);
      if ok { ReadsScalar(s, TRUE); return Some(True); }
      tried := tried + {TRUE};
      ok := Try(FALSE, s, tried);
      if ok { ReadsScalar(s, FALSE); return Some(False); }
      tried := tried + {FALSE};
      ok := Try(NULL, s, tried);
      if ok { ReadsScalar(s, NULL); return Some(Null); }
      tried := tried + {NULL};
      ok := Try(NUMBER, s, tried);
      if ok {
        ReadsScalar(s, NUMBER);
        if IsInteger(saved) { return Some(Integer(Strtol(saved))); }
        assert IsReal(saved, rangeError) by { NumberIsOneKind(saved, rangeError); }
        return Some(Double(saved));
      }
      tried := tried + {NUMBER};
      ok := Try(QSTRING, s, tried);
      if ok { ReadsScalar(s, QSTRING); return Some(QString(saved)); }
      tried := tried + {QSTRING};
      ok := Try(STRING, s, tried);
      if ok { ReadsScalar(s, STRING); return Some(StringWord); }
      TriedAll(s, Abs(), tried + {STRING});
      return None;
    }

    /** accept_array_elements, as the `frames`-th active call. */
    method AcceptArrayElements(ghost frames: nat) returns (v: Option<Value>)
      requires Valid() && 1 <= frames <= narrays + 1 && frames <= MAX_ARRAY_NESTING + 1
      modifies this`nread, this`valueStart, this`valueEnd, this`token, this`saved, this`narrays
      ensures Valid() && (v, Abs()) == ParseElements(old(Abs()))
      ensures Measure() <= old(Measure())
      decreases Measure(), 2
    {
      hide ParseValue, ParseElements, ElementLoop, Stream, Valid, Measure, State.Accepts, State.Accept;
      ghost var s0 := Abs();
      narrays := narrays + 1;
      if narrays > MAX_ARRAY_NESTING { ElementsRefused(s0); return None; }
      assert Abs() == s0.(narrays := s0.narrays + 1);
      var vs, ncommas := ReadElements(frames);
      ElementsUnfold(s0, vs, ncommas, Abs());
      var end := Accept(ARRAYEND);
      if !end { return None; }
      narrays := narrays - 1;
      if |vs| > 0 && |vs| - ncommas != 1 { return None; }
      return Some(Array(vs));
    }

    /** The do/while loop of accept_array_elements. */
    method ReadElements(ghost frames: nat) returns (vs: seq<Value>, ncommas: int)
      requires Valid() && frames <= narrays && frames <= MAX_ARRAY_NESTING
      modifies this`nread, this`valueStart, this`valueEnd, this`token, this`saved, this`narrays
      ensures Valid() && ElementLoop(old(Abs()), [], -1) == (vs, ncommas, Abs())
      ensures Measure() <= old(Measure()) && old(narrays) <= narrays
      decreases Measure(), 1
    {
      hide ParseValue, Stream, ElementLoop;
      vs, ncommas := [], -1;
      ghost var goal := ElementLoop(Abs(), [], -1);
      while true
        invariant Valid() && old(narrays) <= narrays && Measure() <= old(Measure())
        invariant ElementLoop(Abs(), vs, ncommas) == goal
        decreases Measure()
      {
        ElementLoopUnfolds(Abs(), vs, ncommas);
        var e := AcceptValue(frames);
        if vs == [] && e.None? { return; }
        if e.Some? { vs := vs + [e.value]; }
        ncommas := ncommas + 1;
        var comma := Accept(COMMA);
        if !comma { return; }
      }
    }

    /** accept_object. */
    method AcceptObject(ghost frames: nat) returns (m: Option<Member>)
      requires Valid() && frames <= narrays && frames <= MAX_ARRAY_NESTING
      modifies this`nread, this`valueStart, this`valueEnd, this`token, this`saved, this`narrays
      ensures Valid() && (m, Abs()) == ParseMember(old(Abs()))
      ensures Measure() <= old(Measure())
      decreases Measure(), 1
    {
      hide ParseValue;
      var ok := Accept(QSTRING);
      if !ok { return None; }
      var name := saved;
      ok := Accept(COLON);
      if !ok { return None; }
      var v := AcceptValue(frames);
      return if v.Some? then Some(Member(name, v.value)) else None;
    }

    /** accept_objects. */
    method AcceptObjects(ghost frames: nat) returns (v: Option<Value>)
      requires Valid() && frames <= narrays && frames <= MAX_ARRAY_NESTING
      modifies this`nread, this`valueStart, this`valueEnd, this`token, this`saved, this`narrays
      ensures Valid() && (v, Abs()) == ParseMembers(old(Abs()))
      ensures Measure() <= old(Measure())
      decreases Measure(), 3
    {
      hide ParseMember, MemberLoop, Stream;
      ghost var s0 := Abs();
      var ms, ncommas := ReadMembers(frames);
      assert MemberLoop(s0, [], -1) == (ms, ncommas, Abs());
      if ncommas > 0 && |ms| - ncommas != 1 { return None; }
      var end := Accept(OBJECTEND);
      if !end { return None; }
      return Some(Object(ms));
    }

    /** The do/while loop of accept_objects. */
    method ReadMembers(ghost frames: nat) returns (ms: seq<Member>, ncommas: int)
      requires Valid() && frames <= narrays && frames <= MAX_ARRAY_NESTING
      modifies this`nread, this`valueStart, this`valueEnd, this`token, this`saved, this`narrays
      ensures Valid() && MemberLoop(old(Abs()), [], -1) == (ms, ncommas, Abs())
      ensures Measure() <= old(Measure()) && old(narrays) <= narrays
      decreases Measure(), 2
    {
      hide ParseMember, Stream, MemberLoop;
      ms, ncommas := [], -1;
      ghost var goal := MemberLoop(Abs(), [], -1);
      while true
        invariant Valid() && old(narrays) <= narrays && Measure() <= old(Measure())
        invariant MemberLoop(Abs(), ms, ncommas) == goal
        decreases Measure()
      {
        MemberLoopUnfolds(Abs(), ms, ncommas);
        var m := AcceptObject(frames);
        if m.Some? { ms := ms + [m.value]; }
        ncommas := ncommas + 1;
        var comma := Accept(COMMA);
        if !comma { return; }
      }
    }

    /** json_parse on a fresh parser computes ParseDocument of the input's lexemes, on every input. */
    method Parse() returns (status: Status)
      requires Valid() && nread == 0 && token == ERROR && narrays == 0 && value == None
      modifies this
      ensures Valid()
      ensures (status, value, Abs()) == ParseDocument(Lexemes(mem, 0, rangeError))
    {
      hide ParseValue, Stream, Lexemes;
      var ok := NextSym();
      if !ok { return NoInput; }
      ghost var s := Abs();
      var v := AcceptValue(0);
      value := v;
      if v.None? { return Invalid; }
      ghost var q := Abs();
      ParsedLookahead(s);
      ok := NextSym();
      if ok { return TrailingData; }
      return Success;
    }
  }
}
