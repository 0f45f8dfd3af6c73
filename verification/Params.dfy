/** Request parameters: name/value pairs from a query string, and fields of a posted form. */
module Params {
  import opened Common
  import opened Bytes
  import opened Rfc1738

  const AMP: byte := 38
  const EQUALS: byte := 61
  const PLUS: byte := 43
  const SPACE: byte := 32
  const NAME_MAX: nat := 100
  const VALUE_MAX: nat := 500

  datatype Pair = Pair(name: Text, value: Text)

  // ----- meta_pair.c

  /** What pair_find finds: the first pair of a name. */
  function IndexOfName(ps: seq<Pair>, name: Text): (i: nat)
    ensures i <= |ps| && (i < |ps| ==> ps[i].name == name)
    ensures forall k :: 0 <= k < i ==> ps[k].name != name
  {
    if ps == [] || ps[0].name == name then 0 else 1 + IndexOfName(ps[1..], name)
  }

  function Lookup(ps: seq<Pair>, name: Text): Option<Text> {
    var i := IndexOfName(ps, name);
    if i < |ps| then Some(ps[i].value) else None
  }

  /** pair_set: the value of the name is replaced where it is, or the pair appended. */
  function SetPair(ps: seq<Pair>, p: Pair): seq<Pair> {
    var i := IndexOfName(ps, p.name);
    if i < |ps| then ps[i := p] else ps + [p]
  }

  lemma LookupAfterSet(ps: seq<Pair>, p: Pair, name: Text)
    ensures Lookup(SetPair(ps, p), name) == if name == p.name then Some(p.value) else Lookup(ps, name)
  {
    var i, j := IndexOfName(ps, p.name), IndexOfName(ps, name);
    var qs := SetPair(ps, p);
    if name == p.name { NameIs(qs, name, i); }
    else if j < |ps| { NameIs(qs, name, j); }
    else { NameIs(qs, name, |qs|); }
  }

  lemma NameIs(ps: seq<Pair>, name: Text, i: nat)
    requires i <= |ps| && (i < |ps| ==> ps[i].name == name) && forall k :: 0 <= k < i ==> ps[k].name != name
    ensures IndexOfName(ps, name) == i
  {
    assert IndexOfName(ps, name) <= i;
    assert IndexOfName(ps, name) >= i;
  }

  class Pairs {
    var element: array<Pair>
    var used: nat

    ghost predicate Valid()
      reads this
    {
      used <= element.Length && element.Length > 0
    }

    ghost function Contents(): seq<Pair>
      requires Valid()
      reads this, element
    {
      element[..used]
    }

    constructor (nelem: nat)
      requires nelem > 0
      ensures Valid() && Contents() == [] && fresh(element)
    {
      element := new Pair[nelem](_ => Pair([], []));
      used := 0;
    }

    method FindName(name: Text) returns (i: nat)
      requires Valid()
      ensures i == IndexOfName(Contents(), name)
    {
      i := 0;
      while i < used && element[i].name != name
        invariant 0 <= i <= used && forall k :: 0 <= k < i ==> element[k].name != name
      {
        i := i + 1;
      }
      NameIs(Contents(), name, i);
    }

    method Get(name: Text) returns (r: Option<Text>)
      requires Valid()
      ensures r == Lookup(Contents(), name)
    {
      var i := FindName(name);
      return if i < used then Some(element[i].value) else None;
    }

    /** pair_add, with pair_extend when the array is full. */
    method Add(p: Pair)
      requires Valid()
      modifies this, element
      ensures Valid() && Contents() == old(Contents()) + [p] && (element == old(element) || fresh(element))
    {
      if used == element.Length {
        var bigger := new Pair[3 * element.Length](_ => Pair([], []));
        forall i | 0 <= i < used { bigger[i] := element[i]; }
        assert bigger[..used] == element[..used];
        element := bigger;
      }
      element[used] := p;
      used := used + 1;
    }

    method Set(p: Pair)
      requires Valid()
      modifies this, element
      ensures Valid() && Contents() == SetPair(old(Contents()), p) && (element == old(element) || fresh(element))
    {
      var i := FindName(p.name);
      if i == used {
        Add(p);
      } else {
        element[i] := p;
      }
    }
  }

  // ----- request.c: the query string

  datatype Status = Ok | BadRequest | TooLarge | OsError | Aborted

  /** get_uri_param_name: everything before the first equals sign. */
  function ParamName(s: Text): Text {
    s[..Find(s, EQUALS)]
  }

  /** get_uri_param_value: from behind the first equals sign to the next ampersand. */
  function ParamValue(s: Text): Text
    requires EQUALS in s
  {
    var v := s[Find(s, EQUALS) + 1..];
    v[..Find(v, AMP)]
  }

  /**
   set_one_uri_param: the pair it stores, or why it does not. An empty value decodes to nothing, which is
   taken for a failure; what is reported then depends on `stale`, whether errno holds EINVAL from before.
   */
  function OneParam(s: Text, stale: bool): (r: (Status, Pair))
    requires EQUALS in s
  {
    var name, value := ParamName(s), ParamValue(s);
    if |name| > NAME_MAX || |value| > VALUE_MAX then (TooLarge, Pair([], []))
    else if Decode(value).None? then (BadRequest, Pair([], []))
    else if value == [] then (if stale then BadRequest else OsError, Pair([], []))
    else if name == [] then (Aborted, Pair([], []))
    else (Ok, Pair(name, BeforeNul(Decode(value).value)))
  }

  /** A parameter starts with its name, an equals sign and its value; an ampersand or nothing follows. */
  lemma ParamParts(s: Text) returns (rest: Text)
    requires 61 in s
    ensures s == ParamName(s) + [61] + ParamValue(s) + rest
    ensures 61 !in ParamName(s) && 38 !in ParamValue(s) && (rest == [] || rest[0] == 38)
  {
    hide Find;
    var i := Find(s, EQUALS);
    var v := s[i + 1..];
    rest := v[Find(v, AMP)..];
    assert s == s[..i] + [s[i]] + v && v == ParamValue(s) + rest;
  }

  /** Every status, by the limits and by what the value means. */
  lemma OneParamExactly(s: Text, stale: bool)
    requires EQUALS in s
    ensures var (status, p) := OneParam(s, stale); var name, value := ParamName(s), ParamValue(s);
            var fits := |name| <= 100 && |value| <= 500;
            && (status == TooLarge <==> !fits)
            && (status == BadRequest <==> fits && ((forall b :: !Means(value, b)) || (value == [] && stale)))
            && (status == OsError <==> fits && value == [] && !stale)
            && (status == Aborted <==> fits && value != [] && name == [] && exists b :: Means(value, b))
            && (forall b :: fits && value != [] && name != [] && Means(value, b) ==> status == Ok && p == Pair(name, BeforeNul(b)))
  {
    hide ParamName, ParamValue, Means, Decode, BeforeNul;
    var value := ParamValue(s);
    forall b ensures Decode(value) == Some(b) <==> Means(value, b) { DecodeExactly(value, b); }
    if Decode(value).Some? { assert Means(value, Decode(value).value); }
    DecodedEmpty(value);
  }

  /** set_uri_params as a function of the text and the pairs stored before. */
  function AllParams(s: Text, ps: seq<Pair>, stale: bool): (Status, seq<Pair>)
    decreases |s|
  {
    if s == [] then (Aborted, ps)
    else if EQUALS !in s then (Ok, ps)
    else
      var (status, p) := OneParam(s, stale);
      if status != Ok then (status, ps)
      else
        var qs := SetPair(ps, p);
        var a := Find(s, AMP);
        if a == |s| then (Ok, qs) else AllParams(s[a + 1..], qs, stale)
  }

  /** set_one_uri_param. */
  method SetOneParam(store: Pairs, s: Text, stale: bool) returns (status: Status)
    requires store.Valid() && EQUALS in s
    modifies store, store.element
    ensures store.Valid() && (store.element == old(store.element) || fresh(store.element))
    ensures var (st, p) := OneParam(s, stale);
            status == st && store.Contents() == if st == Ok then SetPair(old(store.Contents()), p) else old(store.Contents())
  {
    var name := ParamName(s);
    if |name| > NAME_MAX { return TooLarge; }
    var value := ParamValue(s);
    if |value| > VALUE_MAX { return TooLarge; }
    DecodedShort(value, 0);
    var decoded, _ := DecodeInto(VALUE_MAX + 1, value);
    if decoded.None? { return BadRequest; }
    if decoded.value == [] {
      DecodedEmpty(value);
      return if stale then BadRequest else OsError;
    }
    if name == [] { return Aborted; }
    store.Set(Pair(name, BeforeNul(decoded.value)));
    return Ok;
  }

  lemma {:induction false} DecodedShort(s: Text, i: nat)
    requires i <= |s|
    ensures var d := DecodeFrom(s, i); d.Some? ==> |d.value| <= |s| - i
    decreases |s| - i
  {
    if i < |s| {
      if s[i] == PERCENT {
        if Escape(s, i).Some? { DecodedShort(s, i + 3); }
      } else {
        DecodedShort(s, i + 1);
      }
    }
  }

  lemma DecodedEmpty(s: Text)
    ensures Decode(s) == Some([]) <==> s == []
  {
  }

  /** set_uri_params computes AllParams. A text that ends after an ampersand trips an assertion. */
  method SetUriParams(store: Pairs, text: Text, stale: bool) returns (status: Status)
    requires store.Valid()
    modifies store, store.element
    ensures store.Valid() && (status, store.Contents()) == AllParams(text, old(store.Contents()), stale)
  {
    var s := text;
    ghost var goal := AllParams(text, store.Contents(), stale);
    while true
      invariant store.Valid() && (store.element == old(store.element) || fresh(store.element))
      invariant AllParams(s, store.Contents(), stale) == goal
      decreases |s|
    {
      if s == [] { return Aborted; }
      if EQUALS !in s { return Ok; }
      hide OneParam, SetPair;
      status := SetOneParam(store, s, stale);
      if status != Ok { return; }
      var a := Find(s, AMP);
      if a == |s| { return Ok; }
      s := s[a + 1..];
    }
  }

  // ----- the round trip

  /** The separators do not occur in a plain name. */
  ghost predicate Plain(p: Pair) {
    p.name != [] && 61 !in p.name && 38 !in p.name
  }

  /** A pair that survives: a plain name, a non-empty NUL-free value, within the limits. */
  ghost predicate Legal(p: Pair) {
    Plain(p) && |p.name| <= 100 && p.value != [] && 0 !in p.value && |Encode(p.value)| <= 500
  }

  ghost predicate AllLegal(ps: seq<Pair>) {
    forall i :: 0 <= i < |ps| ==> Legal(ps[i])
  }

  function Field(p: Pair): Text {
    p.name + [61] + Encode(p.value)
  }

  /** name=value&name=value, values encoded; 61 is the equals sign and 38 the ampersand. */
  function Join(ps: seq<Pair>): Text {
    if ps == [] then [] else if |ps| == 1 then Field(ps[0]) else Field(ps[0]) + [38] + Join(ps[1..])
  }

  /** What follows a field: nothing, or an ampersand and more. */
  ghost predicate Follows(rest: Text) {
    rest == [] || rest[0] == 38
  }

  lemma FindPast(a: Text, rest: Text, c: byte)
    requires c !in a && (rest == [] || rest[0] == c)
    ensures Find(a + rest, c) == |a| && (a + rest)[..|a|] == a
  {
    hide Find;
    FindIs(a + rest, c, |a|);
  }

  lemma NameSplits(name: Text, value: Text, rest: Text)
    requires EQUALS !in name && AMP !in value && Follows(rest)
    ensures var s := name + [EQUALS] + value + rest;
            EQUALS in s && ParamName(s) == name && ParamValue(s) == value
  {
    hide Find;
    var s := name + [EQUALS] + value + rest;
    assert s == name + ([EQUALS] + value + rest);
    assert s[|name|] == EQUALS;
    FindPast(name, [EQUALS] + value + rest, EQUALS);
    assert s[|name| + 1..] == value + rest;
    FindPast(value, rest, AMP);
  }

  lemma FieldHasNoAmp(p: Pair)
    requires Plain(p)
    ensures AMP !in Encode(p.value) && AMP !in Field(p)
  {
    hide Encode;
    EncodedAlphabet(p.value);
  }

  lemma FieldParts(p: Pair, rest: Text)
    requires Plain(p) && Follows(rest)
    ensures var s := Field(p) + rest;
            EQUALS in s && ParamName(s) == p.name && ParamValue(s) == Encode(p.value) && Find(s, AMP) == |Field(p)|
  {
    hide Encode, Find, ParamName, ParamValue;
    FieldHasNoAmp(p);
    NameSplits(p.name, Encode(p.value), rest);
    FindPast(Field(p), rest, AMP);
  }

  lemma OneParamRoundTrip(p: Pair, rest: Text, stale: bool)
    requires Legal(p) && Follows(rest)
    ensures EQUALS in Field(p) + rest && OneParam(Field(p) + rest, stale) == (Ok, p)
  {
    FieldParts(p, rest);
    RoundTrip(p.value);
    EncodedLength(p.value);
    FindIs(p.value, 0, |p.value|);
    assert p.value[..|p.value|] == p.value;
  }

  /** All pairs set one after the other. */
  function SetAll(ps: seq<Pair>, added: seq<Pair>): seq<Pair>
    decreases added
  {
    if added == [] then ps else SetAll(SetPair(ps, added[0]), added[1..])
  }

  /** One turn of the loop of set_uri_params over a field that parses to `p`. */
  lemma ParamsStep(p: Pair, rest: Text, ps: seq<Pair>, stale: bool)
    requires Legal(p) && Follows(rest)
    ensures AllParams(Field(p) + rest, ps, stale)
         == if rest == [] then (Ok, SetPair(ps, p)) else AllParams(rest[1..], SetPair(ps, p), stale)
  {
    hide OneParam, SetPair, Find, Field, Encode, ParamName, ParamValue;
    var s := Field(p) + rest;
    OneParamRoundTrip(p, rest, stale);
    FieldParts(p, rest);
    if rest != [] { assert s[|Field(p)| + 1..] == rest[1..]; }
  }

  /** Parsing the joined text stores every pair, in order. */
  lemma {:induction false} ParamsRoundTrip(added: seq<Pair>, ps: seq<Pair>, stale: bool)
    requires added != [] && AllLegal(added)
    ensures AllParams(Join(added), ps, stale) == (Ok, SetAll(ps, added))
    decreases added
  {
    hide AllParams, SetPair, Field, Legal;
    var p := added[0];
    var qs := SetPair(ps, p);
    if |added| == 1 {
      assert Field(p) + [] == Field(p);
      ParamsStep(p, [], ps, stale);
      assert SetAll(qs, added[1..]) == qs;
    } else {
      var rest := [AMP] + Join(added[1..]);
      assert Join(added) == Field(p) + rest;
      ParamsStep(p, rest, ps, stale);
      ParamsRoundTrip(added[1..], qs, stale);
      assert rest[1..] == Join(added[1..]);
    }
  }

  /** Behind good parameters the rest of a text is treated as a text of its own: they stay stored whatever it is. */
  lemma {:induction false} ParamsUpTo(added: seq<Pair>, rest: Text, ps: seq<Pair>, stale: bool)
    requires added != [] && AllLegal(added)
    ensures AllParams(Join(added) + ([38] + rest), ps, stale) == AllParams(rest, SetAll(ps, added), stale)
    decreases added
  {
    hide AllParams, SetPair, Field, Legal;
    var p := added[0];
    if |added| == 1 {
      ParamsStep(p, [38] + rest, ps, stale);
      assert ([38] + rest)[1..] == rest;
      assert SetAll(SetPair(ps, p), added[1..]) == SetPair(ps, p);
    } else {
      var more := [38] + (Join(added[1..]) + ([38] + rest));
      assert Join(added) + ([38] + rest) == Field(p) + more;
      ParamsStep(p, more, ps, stale);
      assert more[1..] == Join(added[1..]) + ([38] + rest);
      ParamsUpTo(added[1..], rest, SetPair(ps, p), stale);
    }
  }

  /** What ends a text: nothing behind an ampersand, no equals sign, or a parameter that is refused. */
  lemma {:induction false} ParamsStop(s: Text, ps: seq<Pair>, stale: bool)
    ensures s == [] ==> AllParams(s, ps, stale) == (Aborted, ps)
    ensures s != [] && 61 !in s ==> AllParams(s, ps, stale) == (Ok, ps)
    ensures 61 in s && OneParam(s, stale).0 != Ok ==> AllParams(s, ps, stale) == (OneParam(s, stale).0, ps)
  {
  }

  /** The value of the last pair with the name. */
  function LastValue(ps: seq<Pair>, name: Text): Option<Text> {
    if ps == [] then None
    else if ps[|ps| - 1].name == name then Some(ps[|ps| - 1].value)
    else LastValue(ps[..|ps| - 1], name)
  }

  lemma {:induction false} SetAllAppend(ps: seq<Pair>, added: seq<Pair>, p: Pair)
    ensures SetAll(ps, added + [p]) == SetPair(SetAll(ps, added), p)
    decreases added
  {
    if added == [] {
      assert (added + [p])[1..] == [];
    } else {
      assert (added + [p])[1..] == added[1..] + [p];
      SetAllAppend(SetPair(ps, added[0]), added[1..], p);
    }
  }

  lemma {:induction false} LookupSetAll(added: seq<Pair>, name: Text)
    ensures Lookup(SetAll([], added), name) == LastValue(added, name)
    decreases added
  {
    if added != [] {
      var n := |added| - 1;
      LookupSetAll(added[..n], name);
      assert added == added[..n] + [added[n]];
      SetAllAppend([], added[..n], added[n]);
      LookupAfterSet(SetAll([], added[..n]), added[n], name);
    }
  }

  /** Query strings: after parsing, every name looks up the value it was given last. */
  lemma QueryRoundTrip(added: seq<Pair>, name: Text, stale: bool)
    requires added != [] && AllLegal(added)
    ensures var (status, ps) := AllParams(Join(added), [], stale);
            status == Ok && Lookup(ps, name) == LastValue(added, name)
  {
    ParamsRoundTrip(added, [], stale);
    LookupSetAll(added, name);
  }
}
