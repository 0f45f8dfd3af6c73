/** The JSON printer: what it writes is a grammatical text of the tree, so parsing gives the tree back. */
module JsonPrint {
  import opened Common
  import opened JsonNumber
  import opened JsonLexer
  import opened JsonGrammar
  import opened JsonText

  // ----- integers in decimal

  function Digit(n: nat): char
    requires n < 10
  {
    ('0' as int + n) as char
  }

  function Digits(n: nat): (s: string)
    ensures s != "" && AllDigits(s)
  {
    if n < 10 then [Digit(n)] else Digits(n / 10) + [Digit(n % 10)]
  }

  /** printf of a long with %ld. */
  function Decimal(n: int): string {
    if n < 0 then "-" + Digits(-n) else Digits(n)
  }

  ghost function Pow10(k: nat): nat {
    if k == 0 then 1 else 10 * Pow10(k - 1)
  }

  lemma {:induction false} DigitsAre(n: nat)
    ensures DigitsValue(Digits(n)) == n
    ensures Digits(n)[0] == '0' ==> Digits(n) == "0"
  {
    if n >= 10 {
      DigitsAre(n / 10);
      var s := Digits(n);
      assert s[..|s| - 1] == Digits(n / 10);
      assert s[0] == Digits(n / 10)[0];
      assert "0"[..0] == "" && DigitsValue("0") == 0;
    } else {
      assert [Digit(n)][..0] == "";
    }
  }

  lemma {:induction false} DigitsLength(n: nat, k: nat)
    requires k > 0 && n < Pow10(k)
    ensures |Digits(n)| <= k
  {
    if n >= 10 { DigitsLength(n / 10, k - 1); }
  }

  lemma {:induction false} Pow10Add(a: nat, b: nat)
    ensures Pow10(a + b) == Pow10(a) * Pow10(b)
  {
    if a > 0 { Pow10Add(a - 1, b); }
  }

  lemma LongLength(n: nat)
    requires n <= LONG_MAX + 1
    ensures |Digits(n)| <= 20
  {
    assert Pow10(2) == 100 && Pow10(3) == 1000 && Pow10(4) == 10000;
    Pow10Add(4, 4);
    Pow10Add(8, 8);
    Pow10Add(4, 16);
    DigitsLength(n, 20);
  }

  lemma StrtolOf(m: string, d: string)
    requires m == "" || m == "-"
    requires d != "" && AllDigits(d)
    ensures Strtol(m + d) == Clamp(if m == "" then DigitsValue(d) else -DigitsValue(d))
  {
    hide DigitsValue, Clamp;
    var s := m + d;
    assert forall k :: |m| <= k < |s| ==> s[k] == d[k - |m|];
    DigitsEndIs(s, |m|, |s|);
    assert s[|m|..|s|] == d;
    assert IsDigit(d[0]);
  }

  lemma DigitsAreRfc(m: string, d: string)
    requires m == "" || m == "-"
    requires d != "" && AllDigits(d) && (d[0] == '0' ==> d == "0")
    ensures RfcInteger(m + d) && NumberValue(m + d) == Integer(Strtol(m + d))
  {
    hide Strtol, IsInteger;
    assert m + d == m + d + "" + "";
    assert RfcParts(m + d, m, d, "", "");
    RfcIntegerIsAccepted(m + d);
  }

  lemma DecimalParses(n: int)
    requires LONG_MIN <= n <= LONG_MAX
    ensures RfcInteger(Decimal(n)) && |Decimal(n)| < NUMBER_BUFFER
    ensures NumberValue(Decimal(n)) == Integer(n)
  {
    hide NumberValue, RfcInteger, Strtol;
    var k := if n < 0 then -n else n;
    var m := if n < 0 then "-" else "";
    DigitsAre(k);
    LongLength(k);
    DigitsAreRfc(m, Digits(k));
    StrtolOf(m, Digits(k));
    assert Decimal(n) == m + Digits(k);
  }

  // ----- trees

  /** The trees the round trip is about: no doubles, legal strings, longs. */
  ghost predicate Printable(v: Value)
    decreases v, 1
  {
    match v
    case QString(text) => Units(text)
    case Integer(n) => -9223372036854775808 <= n <= 9223372036854775807
    case Double(_) => false
    case Array(vs) => AllPrintable(vs)
    case Object(ms) => MembersPrintable(ms)
    case _ => true
  }

  ghost predicate AllPrintable(vs: seq<Value>)
    decreases vs, 0
  {
    vs == [] || (Printable(vs[0]) && AllPrintable(vs[1..]))
  }

  ghost predicate MembersPrintable(ms: seq<Member>)
    decreases ms, 0
  {
    ms == [] || (Units(ms[0].name) && Printable(ms[0].value) && MembersPrintable(ms[1..]))
  }

  function Print(v: Value): string
    requires Printable(v)
    decreases v, 1
  {
    match v
    case QString(text) => "\"" + text + "\""
    case Integer(n) => Decimal(n)
    case Array(vs) => if vs == [] then "[ ]\n" else "[\n" + PrintElements(vs) + "]\n"
    case Object(ms) => "{\n" + PrintMembers(ms) + "\n}"
    case True => "true"
    case False => "false"
    case Null => "null"
    case StringWord => "string"
  }

  function PrintElements(vs: seq<Value>): string
    requires AllPrintable(vs)
    decreases vs, 0
  {
    if vs == [] then ""
    else if |vs| == 1 then Print(vs[0])
    else Print(vs[0]) + ",\n" + PrintElements(vs[1..])
  }

  function PrintName(m: Member): string {
    "\"" + m.name + "\" :"
  }

  function PrintMembers(ms: seq<Member>): string
    requires MembersPrintable(ms)
    decreases ms, 0
  {
    if ms == [] then ""
    else if |ms| == 1 then PrintName(ms[0]) + Print(ms[0].value)
    else PrintName(ms[0]) + Print(ms[0].value) + ",\n" + PrintMembers(ms[1..])
  }

  /** The value a tree is printed as. */
  ghost function Written(v: Value): Syntax
    requires Printable(v)
    decreases v, 1
  {
    match v
    case QString(text) => SString(text)
    case Integer(n) => SNumber(Decimal(n))
    case Array(vs) => SArray(WrittenElements(vs))
    case Object(ms) => SObject(WrittenMembers(ms))
    case True => STrue
    case False => SFalse
    case Null => SNull
    case StringWord => SStringWord
  }

  ghost function WrittenElements(vs: seq<Value>): (r: seq<Syntax>)
    requires AllPrintable(vs)
    ensures |r| == |vs|
    decreases vs, 0
  {
    if vs == [] then [] else [Written(vs[0])] + WrittenElements(vs[1..])
  }

  ghost function WrittenMembers(ms: seq<Member>): (r: seq<SMember>)
    requires MembersPrintable(ms)
    ensures |r| == |ms|
    decreases ms, 0
  {
    if ms == [] then [] else [SMember(ms[0].name, Written(ms[0].value))] + WrittenMembers(ms[1..])
  }

  lemma {:induction false} WrittenMeans(v: Value, rangeError: string -> bool)
    requires Printable(v)
    ensures Meaning(Written(v)) == v && WellFormed(Written(v), rangeError)
    decreases v, 1
  {
    match v
    case Integer(n) =>
      DecimalParses(n);
      var m, i :| RfcParts(Decimal(n), m, i, "", "");
    case Array(vs) => WrittenElementsMean(vs, rangeError);
    case Object(ms) => WrittenMembersMean(ms, rangeError);
    case _ =>
  }

  lemma {:induction false} WrittenElementsMean(vs: seq<Value>, rangeError: string -> bool)
    requires AllPrintable(vs)
    ensures Meanings(WrittenElements(vs)) == vs && AllWellFormed(WrittenElements(vs), rangeError)
    decreases vs, 0
  {
    if vs != [] {
      WrittenMeans(vs[0], rangeError);
      WrittenElementsMean(vs[1..], rangeError);
      assert WrittenElements(vs)[1..] == WrittenElements(vs[1..]);
    }
  }

  lemma {:induction false} WrittenMembersMean(ms: seq<Member>, rangeError: string -> bool)
    requires MembersPrintable(ms)
    ensures MemberMeanings(WrittenMembers(ms)) == ms && MembersWellFormed(WrittenMembers(ms), rangeError)
    decreases ms, 0
  {
    if ms != [] {
      WrittenMeans(ms[0].value, rangeError);
      WrittenMembersMean(ms[1..], rangeError);
      assert WrittenMembers(ms)[1..] == WrittenMembers(ms[1..]);
    }
  }

  // ----- the printed text spells the tokens

  /** The blanks of two texts put together: those at the seam join. */
  ghost function Join(wa: seq<string>, wb: seq<string>): (ws: seq<string>)
    requires wa != [] && wb != []
    ensures |ws| == |wa| + |wb| - 1
    ensures Blanks(wa) && Blanks(wb) ==> Blanks(ws)
  {
    var seam := wa[|wa| - 1] + wb[0];
    assert IsBlank(wa[|wa| - 1]) && IsBlank(wb[0]) ==> IsBlank(seam);
    wa[..|wa| - 1] + [seam] + wb[1..]
  }

  lemma {:induction false} LayoutAppend(a: seq<Lexeme>, wa: seq<string>, b: seq<Lexeme>, wb: seq<string>)
    requires |wa| == |a| + 1 && |wb| == |b| + 1
    ensures Layout(a, wa) + Layout(b, wb) == Layout(a + b, Join(wa, wb))
    decreases |a|
  {
    hide Layout;
    var ws := Join(wa, wb);
    if a == [] {
      LayoutPrepend(wa, b, wb);
    } else {
      LayoutAppend(a[1..], wa[1..], b, wb);
      assert ws[1..] == Join(wa[1..], wb) && ws[0] == wa[0];
      LayoutCons(a, wa);
      assert (a + b)[1..] == a[1..] + b && (a + b)[0] == a[0];
      LayoutCons(a + b, ws);
      hide Join;
      Assoc(Spell(a[0]), Layout(a[1..], wa[1..]), Layout(b, wb));
      Assoc(wa[0], Spell(a[0]) + Layout(a[1..], wa[1..]), Layout(b, wb));
    }
  }

  lemma LayoutPrepend(wa: seq<string>, b: seq<Lexeme>, wb: seq<string>)
    requires |wa| == 1 && |wb| == |b| + 1
    ensures Layout([], wa) + Layout(b, wb) == Layout([] + b, Join(wa, wb))
  {
    var ws := Join(wa, wb);
    assert [] + b == b;
    assert ws[1..] == wb[1..] && ws[0] == wa[0] + wb[0];
    if b != [] { Assoc(wa[0], wb[0], Spell(b[0]) + Layout(b[1..], wb[1..])); }
  }

  lemma LayoutCons(a: seq<Lexeme>, wa: seq<string>)
    requires |wa| == |a| + 1 && a != []
    ensures Layout(a, wa) == wa[0] + (Spell(a[0]) + Layout(a[1..], wa[1..]))
  {
  }

  lemma SpellsAppend(s: string, a: seq<Lexeme>, t: string, b: seq<Lexeme>)
    requires Spells(s, a) && Spells(t, b)
    ensures Spells(s + t, a + b)
  {
    hide Layout;
    var wa :| |wa| == |a| + 1 && Blanks(wa) && s == Layout(a, wa);
    var wb :| |wb| == |b| + 1 && Blanks(wb) && t == Layout(b, wb);
    LayoutAppend(a, wa, b, wb);
    assert |Join(wa, wb)| == |a + b| + 1;
  }

  /** One lexeme with blanks around it. */
  lemma SpellsOne(x: Lexeme, before: string, after: string)
    requires IsBlank(before) && IsBlank(after)
    ensures Spells(before + Spell(x) + after, [x])
  {
    var ws := [before, after];
    assert [x][1..] == [] && ws[1..] == [after];
    assert Layout([x], ws) == before + (Spell(x) + after);
    assert Blanks(ws);
  }

  lemma SpellsSymbol(t: Token, text: string, after: string)
    requires text == Spell(Sym(t)) + after && IsBlank(after)
    ensures Spells(text, [Sym(t)])
  {
    SpellsOne(Sym(t), "", after);
    assert "" + Spell(Sym(t)) + after == text;
  }

  lemma SpellsWord(x: Lexeme)
    ensures Spells(Spell(x), [x])
  {
    SpellsOne(x, "", "");
    assert "" + Spell(x) + "" == Spell(x);
  }

  lemma {:induction false} PrintSpells(v: Value)
    requires Printable(v)
    ensures Spells(Print(v), TokensOf(Written(v)))
    decreases v, 1
  {
    hide Spells;
    match v
    case Array(vs) => PrintSpellsArray(vs);
    case Object(ms) => PrintSpellsObject(ms);
    case Double(_) => assert false;
    case _ => SpellsWord(TokensOf(Written(v))[0]);
  }

  lemma {:induction false} PrintSpellsArray(vs: seq<Value>)
    requires AllPrintable(vs)
    ensures Spells(Print(Array(vs)), TokensOf(SArray(WrittenElements(vs))))
    decreases vs, 1
  {
    hide Spells;
    var inner := ElementTokens(WrittenElements(vs));
    if vs == [] {
      SpellsSymbol(ARRAYSTART, "[ ", " ");
      SpellsSymbol(ARRAYEND, "]\n", "\n");
      SpellsAppend("[ ", [Sym(ARRAYSTART)], "]\n", [Sym(ARRAYEND)]);
      assert "[ " + "]\n" == "[ ]\n";
      assert [Sym(ARRAYSTART)] + inner + [Sym(ARRAYEND)] == [Sym(ARRAYSTART)] + [Sym(ARRAYEND)];
    } else {
      SpellsSymbol(ARRAYSTART, "[\n", "\n");
      SpellsSymbol(ARRAYEND, "]\n", "\n");
      PrintSpellsElements(vs);
      SpellsAppend("[\n", [Sym(ARRAYSTART)], PrintElements(vs), inner);
      SpellsAppend("[\n" + PrintElements(vs), [Sym(ARRAYSTART)] + inner, "]\n", [Sym(ARRAYEND)]);
    }
  }

  lemma {:induction false} PrintSpellsElements(vs: seq<Value>)
    requires vs != [] && AllPrintable(vs)
    ensures Spells(PrintElements(vs), ElementTokens(WrittenElements(vs)))
    decreases vs, 0
  {
    hide Spells;
    var es := WrittenElements(vs);
    PrintSpells(vs[0]);
    if |vs| > 1 {
      PrintSpellsElements(vs[1..]);
      SpellsSymbol(COMMA, ",\n", "\n");
      SpellsAppend(Print(vs[0]), TokensOf(es[0]), ",\n", [Sym(COMMA)]);
      assert es[1..] == WrittenElements(vs[1..]);
      SpellsAppend(Print(vs[0]) + ",\n", TokensOf(es[0]) + [Sym(COMMA)], PrintElements(vs[1..]), ElementTokens(es[1..]));
    }
  }

  lemma {:induction false} PrintSpellsObject(ms: seq<Member>)
    requires MembersPrintable(ms)
    ensures Spells(Print(Object(ms)), TokensOf(SObject(WrittenMembers(ms))))
    decreases ms, 1
  {
    hide Spells;
    var inner := MemberTokens(WrittenMembers(ms));
    SpellsSymbol(OBJECTSTART, "{\n", "\n");
    SpellsOne(Sym(OBJECTEND), "\n", "");
    assert "\n" + Spell(Sym(OBJECTEND)) + "" == "\n}";
    if ms == [] {
      SpellsAppend("{\n", [Sym(OBJECTSTART)], "\n}", [Sym(OBJECTEND)]);
      assert "{\n" + PrintMembers(ms) + "\n}" == "{\n" + "\n}";
      assert [Sym(OBJECTSTART)] + inner + [Sym(OBJECTEND)] == [Sym(OBJECTSTART)] + [Sym(OBJECTEND)];
    } else {
      PrintSpellsMembers(ms);
      SpellsAppend("{\n", [Sym(OBJECTSTART)], PrintMembers(ms), inner);
      SpellsAppend("{\n" + PrintMembers(ms), [Sym(OBJECTSTART)] + inner, "\n}", [Sym(OBJECTEND)]);
    }
  }

  lemma PrintSpellsName(m: Member, s: SMember)
    requires s.name == m.name
    ensures Spells(PrintName(m), NameTokens(s))
  {
    hide Spells;
    var name := Lexeme(QSTRING, m.name);
    SpellsOne(name, "", " ");
    assert "" + Spell(name) + " " == "\"" + m.name + "\" ";
    SpellsSymbol(COLON, ":", "");
    SpellsAppend("\"" + m.name + "\" ", [name], ":", [Sym(COLON)]);
    assert "\"" + m.name + "\" " + ":" == PrintName(m);
    assert [name] + [Sym(COLON)] == NameTokens(s);
  }

  lemma {:induction false} PrintSpellsMembers(ms: seq<Member>)
    requires ms != [] && MembersPrintable(ms)
    ensures Spells(PrintMembers(ms), MemberTokens(WrittenMembers(ms)))
    decreases ms, 0
  {
    hide Spells;
    var ss := WrittenMembers(ms);
    PrintSpells(ms[0].value);
    PrintSpellsName(ms[0], ss[0]);
    SpellsAppend(PrintName(ms[0]), NameTokens(ss[0]), Print(ms[0].value), TokensOf(ss[0].value));
    if |ms| > 1 {
      var text := PrintName(ms[0]) + Print(ms[0].value);
      var toks := NameTokens(ss[0]) + TokensOf(ss[0].value);
      PrintSpellsMembers(ms[1..]);
      SpellsSymbol(COMMA, ",\n", "\n");
      SpellsAppend(text, toks, ",\n", [Sym(COMMA)]);
      assert ss[1..] == WrittenMembers(ms[1..]);
      SpellsAppend(text + ",\n", toks + [Sym(COMMA)], PrintMembers(ms[1..]), MemberTokens(ss[1..]));
    }
  }

  /**
   Print/parse identity: parsing the printed text of a tree returns the tree, ends at the end of
   the input and leaves no array open.
   */
  lemma PrintParse(v: Value, rangeError: string -> bool)
    requires Printable(v) && ArrayDepth(Written(v)) <= 19
    ensures ParseDocument(Lexemes(Print(v), 0, rangeError)) == (Success, Some(v), State([Sym(EOF)], 0))
  {
    WrittenMeans(v, rangeError);
    PrintSpells(v);
    AcceptsGrammaticalText(Written(v), Print(v), rangeError);
  }
}
