/** Fields of a posted form, read by position and by name out of the request's entity. */
module Form {
  import opened Common
  import opened Bytes
  import opened Rfc1738
  import opened Params

  const FIELD_NAME_MAX: nat := 10239

  function Ampersands(s: Text): nat {
    if s == [] then 0 else (if s[0] == AMP then 1 else 0) + Ampersands(s[1..])
  }

  /** How many fields the entity has: ampersands separate them, and an empty entity has none. */
  function Count(s: Text): nat {
    if s == [] then 0 else 1 + Ampersands(s)
  }

  /** The entity from field `n` on; nothing is left if there are fewer fields. */
  function FieldAt(s: Text, n: nat): Text {
    if n == 0 || s == [] then s else FieldAt(s[1..], if s[0] == AMP then n - 1 else n)
  }

  /** A field's name runs to the next equals sign, wherever that is. Without one it has no name. */
  function NameOf(s: Text, n: nat): Text {
    var f := FieldAt(s, n);
    if n < Count(s) && EQUALS in f then ParamName(f) else []
  }

  /** A field without a name has no value. */
  function EncodedValueOf(s: Text, n: nat): Text {
    var f := FieldAt(s, n);
    if NameOf(s, n) == [] then [] else ParamValue(f)
  }

  /**
   What a caller finds in its buffer. Garbled: success is reported although the decoding failed. The
   buffer starts with `text`; unless it `ended` in a NUL of its own, what stood there before follows.
   */
  datatype Value = Missing | Garbled(text: Text, ended: bool) | Found(text: Text)

  function PlusToSpace(s: Text): (r: Text)
    ensures |r| == |s|
  {
    if s == [] then [] else [if s[0] == PLUS then SPACE else s[0]] + PlusToSpace(s[1..])
  }

  function ValueOf(s: Text, n: nat, destsize: nat): Value {
    var v := EncodedValueOf(s, n);
    if v == [] then Missing
    else
      var d := Decode(v);
      var put := Put(v, 0, destsize);
      if d.Some? && |d.value| < destsize then Found(PlusToSpace(BeforeNul(d.value)))
      else Garbled(PlusToSpace(BeforeNul(put)), 0 in put)
  }

  /** What strcmp sees of a field's name. */
  function SeenName(s: Text, n: nat): Text {
    var name := NameOf(s, n);
    BeforeNul(if |name| > FIELD_NAME_MAX then name[..FIELD_NAME_MAX] else name)
  }

  /** The search from field `n` on: a nameless field ends it. */
  function Search(s: Text, name: Text, n: nat, destsize: nat): Value
    decreases Count(s) - n
  {
    if n >= Count(s) || NameOf(s, n) == [] then Missing
    else if SeenName(s, n) == name then ValueOf(s, n, destsize)
    else Search(s, name, n + 1, destsize)
  }

  // ----- the operations

  lemma {:induction false} AmpersandsPrefix(s: Text, i: nat)
    requires i < |s|
    ensures Ampersands(s[..i + 1]) == Ampersands(s[..i]) + if s[i] == AMP then 1 else 0
  {
    if i == 0 {
      assert s[..1][1..] == [];
      assert s[..0] == [];
    } else {
      assert s[..i + 1][1..] == s[1..][..i];
      assert s[..i][1..] == s[1..][..i - 1];
      AmpersandsPrefix(s[1..], i - 1);
    }
  }

  method FieldCount(entity: Text) returns (n: nat)
    ensures n == Count(entity)
  {
    n := 0;
    if |entity| > 0 { n := 1; }
    ghost var first := n;
    for i := 0 to |entity|
      invariant n == first + Ampersands(entity[..i])
    {
      AmpersandsPrefix(entity, i);
      if entity[i] == AMP { n := n + 1; }
    }
    assert entity[..|entity|] == entity;
  }

  method FieldStart(entity: Text, n: nat) returns (start: nat)
    ensures start <= |entity| && entity[start..] == FieldAt(entity, n)
  {
    start := 0;
    var idx := n;
    assert entity[0..] == entity;
    while idx > 0 && start < |entity|
      invariant start <= |entity| && FieldAt(entity[start..], idx) == FieldAt(entity, n)
    {
      assert entity[start..][1..] == entity[start + 1..];
      if entity[start] == AMP { idx := idx - 1; }
      start := start + 1;
    }
  }

  /** strchr bounded by the end of the entity. */
  method Scan(entity: Text, start: nat, c: byte) returns (cb: nat)
    requires start <= |entity|
    ensures cb == Find(entity[start..], c)
  {
    cb := 0;
    while start + cb < |entity| && entity[start + cb] != c
      invariant start + cb <= |entity| && forall k :: 0 <= k < cb ==> entity[start..][k] != c
    {
      cb := cb + 1;
    }
    FindIs(entity[start..], c, cb);
  }

  method NameLength(entity: Text, n: nat) returns (cb: nat)
    ensures cb == |NameOf(entity, n)|
  {
    var fields := FieldCount(entity);
    if n >= fields { return 0; }
    var start := FieldStart(entity, n);
    cb := Scan(entity, start, EQUALS);
    if start + cb == |entity| { return 0; }
    assert entity[start..][cb] == EQUALS;
  }

  method ValueLength(entity: Text, n: nat) returns (cb: nat)
    ensures cb == |EncodedValueOf(entity, n)|
  {
    hide FieldAt, Count, Find;
    var start := FieldStart(entity, n);
    cb := NameLength(entity, n);
    if cb == 0 { return; }
    start := start + cb + 1;
    assert entity[start..] == FieldAt(entity, n)[cb + 1..];
    cb := Scan(entity, start, AMP);
  }

  method FieldName(entity: Text, n: nat, destsize: nat) returns (r: Option<Text>)
    ensures var name := NameOf(entity, n);
            r == if name == [] then None else Some(if destsize < |name| then name[..destsize] else name)
  {
    var start := FieldStart(entity, n);
    var cb := NameLength(entity, n);
    if cb == 0 { return None; }
    ghost var f := FieldAt(entity, n);
    if destsize < cb { cb := destsize; }
    assert entity[start..start + cb] == f[..cb];
    assert NameOf(entity, n)[..cb] == f[..cb];
    return Some(entity[start..start + cb]);
  }

  lemma {:induction false} PlusPrefix(s: Text, i: nat)
    requires i < |s|
    ensures PlusToSpace(s[..i + 1]) == PlusToSpace(s[..i]) + [if s[i] == PLUS then SPACE else s[i]]
  {
    if i == 0 {
      assert s[..1][1..] == [];
      assert s[..0] == [];
    } else {
      assert s[..i + 1][1..] == s[1..][..i];
      assert s[..i][1..] == s[1..][..i - 1];
      PlusPrefix(s[1..], i - 1);
    }
  }

  /** The loop that replaces plus signs in the caller's buffer, up to the terminator. */
  method ReplacePlus(dest: Text) returns (r: Text)
    ensures r == PlusToSpace(BeforeNul(dest))
  {
    r := dest;
    var i := 0;
    assert dest[..0] == [] && PlusToSpace([]) == [];
    while i < |r| && r[i] != 0
      invariant i <= |r| == |dest| && r[i..] == dest[i..] && r[..i] == PlusToSpace(dest[..i])
      invariant forall k :: 0 <= k < i ==> dest[k] != 0
    {
      PlusPrefix(dest, i);
      assert r[i] == r[i..][0] == dest[i];
      ghost var before := r;
      if r[i] == PLUS { r := r[i := SPACE]; }
      assert r[..i + 1] == before[..i] + [r[i]];
      assert r[i + 1..] == before[i..][1..];
      i := i + 1;
    }
    if i < |r| { assert r[i] == r[i..][0] == dest[i]; }
    FindIs(dest, 0, i);
    r := r[..i];
  }

  method FieldValue(entity: Text, n: nat, destsize: nat) returns (r: Value)
    ensures r == ValueOf(entity, n, destsize)
  {
    hide Decode, PlusToSpace, FieldAt, Count, BeforeNul, Find, Put;
    var start := FieldStart(entity, n);
    var namelen := NameLength(entity, n);
    var valuelen := ValueLength(entity, n);
    if namelen == 0 || valuelen == 0 { return Missing; }
    start := start + namelen + 1;
    assert entity[start..start + valuelen] == EncodedValueOf(entity, n) by {
      assert entity[start..] == FieldAt(entity, n)[namelen + 1..];
    }
    var dest, put := DecodeInto(destsize, entity[start..start + valuelen]);
    var text := ReplacePlus(put);
    return if dest.None? then Garbled(text, 0 in put) else Found(text);
  }

  method FieldValueByName(entity: Text, name: Text, destsize: nat) returns (r: Value)
    ensures r == Search(entity, name, 0, destsize)
  {
    var count := FieldCount(entity);
    if count == 0 { return Missing; }
    for i := 0 to count
      invariant Search(entity, name, i, destsize) == Search(entity, name, 0, destsize)
    {
      var sz := FieldName(entity, i, FIELD_NAME_MAX);
      if sz.None? { return Missing; }
      if BeforeNul(sz.value) == name {
        r := FieldValue(entity, i, destsize);
        return;
      }
    }
    return Missing;
  }

  // ----- the round trip

  ghost predicate FormPair(p: Pair) {
    Plain(p) && |p.name| <= 10239 && 0 !in p.name && p.value != [] && 0 !in p.value
  }

  ghost predicate FormPairs(ps: seq<Pair>) {
    forall i :: 0 <= i < |ps| ==> FormPair(ps[i])
  }

  lemma {:induction false} AmpersandsPast(a: Text, rest: Text)
    requires AMP !in a
    ensures Ampersands(a + rest) == Ampersands(rest)
  {
    if a == [] {
      assert a + rest == rest;
    } else {
      assert (a + rest)[1..] == a[1..] + rest;
      AmpersandsPast(a[1..], rest);
    }
  }

  lemma {:induction false} FieldAtPast(a: Text, rest: Text, n: nat)
    requires AMP !in a && n > 0
    ensures FieldAt(a + [AMP] + rest, n) == FieldAt(rest, n - 1)
  {
    var s := a + [AMP] + rest;
    if a == [] {
      assert s[1..] == rest;
    } else {
      assert s[1..] == a[1..] + [AMP] + rest;
      FieldAtPast(a[1..], rest, n);
    }
  }

  /** A joined list has one field per pair, and field `n` starts the joined rest of the list. */
  lemma {:induction false} JoinedFields(ps: seq<Pair>, n: nat)
    requires FormPairs(ps)
    ensures Count(Join(ps)) == |ps|
    ensures n < |ps| ==> FieldAt(Join(ps), n) == Join(ps[n..])
  {
    hide Field, Encode;
    if ps == [] { return; }
    var f := Field(ps[0]);
    FieldHasNoAmp(ps[0]);
    FieldNotEmpty(ps[0]);
    if |ps| == 1 {
      assert f + [] == f;
      AmpersandsPast(f, []);
      assert ps[0..] == ps;
      return;
    }
    var rest := Join(ps[1..]);
    assert Join(ps) == f + ([AMP] + rest) == f + [AMP] + rest;
    AmpersandsPast(f, [AMP] + rest);
    assert ([AMP] + rest)[1..] == rest;
    JoinedFields(ps[1..], if n > 0 then n - 1 else 0);
    if n == 0 {
      assert ps[0..] == ps;
    } else {
      FieldAtPast(f, rest, n);
      if n < |ps| { assert ps[1..][n - 1..] == ps[n..]; }
    }
  }

  /** Field `n` starts behind the n-th ampersand. */
  lemma {:induction false} FieldAtExactly(s: Text, n: nat) returns (before: Text)
    requires n <= Ampersands(s)
    ensures s == before + FieldAt(s, n) && Ampersands(before) == n && (n == 0 ==> before == []) && (n > 0 ==> before[|before| - 1] == 38)
  {
    if n == 0 || s == [] {
      before := [];
    } else {
      var rest := FieldAtExactly(s[1..], if s[0] == AMP then n - 1 else n);
      before := [s[0]] + rest;
      assert before[1..] == rest;
    }
  }

  lemma FieldNotEmpty(p: Pair)
    ensures Field(p) != []
  {
    assert EQUALS in Field(p);
  }

  /** A joined list starts with its first field. */
  lemma JoinStarts(ps: seq<Pair>) returns (rest: Text)
    requires ps != []
    ensures Join(ps) == Field(ps[0]) + rest && Follows(rest)
  {
    hide Field;
    rest := if |ps| == 1 then [] else [AMP] + Join(ps[1..]);
    assert Join(ps) == Field(ps[0]) + rest;
  }

  lemma PartsOf(ps: seq<Pair>, n: nat)
    requires FormPairs(ps) && n < |ps|
    ensures NameOf(Join(ps), n) == ps[n].name && EncodedValueOf(Join(ps), n) == Encode(ps[n].value)
  {
    hide Field, Encode, Join, FieldAt, Count, ParamName, ParamValue, Find;
    JoinedFields(ps, n);
    var rest := JoinStarts(ps[n..]);
    assert ps[n..][0] == ps[n];
    FieldParts(ps[n], rest);
  }

  /** What a caller gets for a pair: the value with its plus signs turned to spaces, cut if it does not fit. */
  function Delivered(p: Pair, destsize: nat): Value {
    if |p.value| < destsize then Found(PlusToSpace(p.value)) else Garbled(PlusToSpace(p.value[..destsize]), false)
  }

  lemma FieldRoundTrip(ps: seq<Pair>, n: nat, destsize: nat)
    requires FormPairs(ps) && n < |ps|
    ensures SeenName(Join(ps), n) == ps[n].name && ValueOf(Join(ps), n, destsize) == Delivered(ps[n], destsize)
  {
    hide Join, NameOf, EncodedValueOf, Encode, BeforeNul, Decode, Put;
    PartsOf(ps, n);
    RoundTrip(ps[n].value);
    assert Encode(ps[n].value) != [] by { EncodedLength(ps[n].value); }
    BeforeNulWhole(ps[n].name);
    BeforeNulWhole(ps[n].value);
    var v := ps[n].value;
    PutEncoded([], v, destsize);
    assert [] + Encode(v) == Encode(v);
    if |v| >= destsize { BeforeNulWhole(v[..destsize]); }
  }

  lemma {:induction false} SearchStep(s: Text, name: Text, n: nat, destsize: nat)
    ensures Search(s, name, n, destsize) ==
            if n >= Count(s) || NameOf(s, n) == [] then Missing
            else if SeenName(s, n) == name then ValueOf(s, n, destsize)
            else Search(s, name, n + 1, destsize)
  {
  }

  lemma {:induction false} IndexStep(ps: seq<Pair>, name: Text, n: nat)
    requires n < |ps|
    ensures IndexOfName(ps[n..], name) == if ps[n].name == name then 0 else 1 + IndexOfName(ps[n + 1..], name)
  {
    assert ps[n..][1..] == ps[n + 1..];
  }

  lemma {:induction false} SearchFrom(ps: seq<Pair>, name: Text, n: nat, destsize: nat)
    requires FormPairs(ps) && n <= |ps|
    ensures var i := n + IndexOfName(ps[n..], name);
            Search(Join(ps), name, n, destsize) == if i < |ps| then Delivered(ps[i], destsize) else Missing
    decreases |ps| - n
  {
    hide Join, NameOf, SeenName, ValueOf, Count, Delivered, Search, IndexOfName, EncodedValueOf, Encode;
    JoinedFields(ps, n);
    SearchStep(Join(ps), name, n, destsize);
    if n < |ps| {
      FieldRoundTrip(ps, n, destsize);
      PartsOf(ps, n);
      SearchFrom(ps, name, n + 1, destsize);
      IndexStep(ps, name, n);
    }
  }

  /** A plus sign, 43, becomes a blank, 32; every other byte stays. */
  lemma {:induction false} PlusExactly(s: Text, i: nat)
    requires i < |s|
    ensures PlusToSpace(s)[i] == if s[i] == 43 then 32 else s[i]
  {
    if i > 0 {
      PlusExactly(s[1..], i - 1);
      assert PlusToSpace(s)[i] == PlusToSpace(s[1..])[i - 1];
    }
  }

  lemma {:induction false} PlusFree(s: Text)
    ensures PlusToSpace(s) == s <==> 43 !in s
  {
    if s != [] {
      PlusFree(s[1..]);
      assert s == [s[0]] + s[1..];
      assert PlusToSpace(s)[1..] == PlusToSpace(s[1..]);
    }
  }

  /**
   Forms: looking a name up in the joined text finds the first pair of that name, and its value comes
   back exactly if it fits the buffer and holds no plus sign.
   */
  lemma FormRoundTrip(ps: seq<Pair>, name: Text, destsize: nat)
    requires FormPairs(ps)
    ensures var i, r := IndexOfName(ps, name), Search(Join(ps), name, 0, destsize);
            && (i == |ps| ==> r == Missing)
            && (i < |ps| ==> r == Delivered(ps[i], destsize))
            && (i < |ps| ==> (r == Found(ps[i].value) <==> |ps[i].value| < destsize && 43 !in ps[i].value))
  {
    hide Search, Join;
    assert ps[0..] == ps;
    SearchFrom(ps, name, 0, destsize);
    var i := IndexOfName(ps, name);
    if i < |ps| { PlusFree(ps[i].value); }
  }
}
