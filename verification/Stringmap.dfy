/** The string map: a hash table that numbers the strings it is given, from one on. */
module Stringmap {
  import opened Common
  import opened Bytes

  /** The djb2 hash in 64-bit arithmetic. */
  function HashFrom(h: nat, s: Text): nat
    decreases s
  {
    if s == [] then h else HashFrom((33 * h + s[0]) % TWO64, s[1..])
  }

  function Hash(s: Text): nat {
    HashFrom(5381, s)
  }

  /** The recurrence of the hash: 5381 for the empty string, then times 33 plus the byte, in 64 bits. */
  lemma {:induction false} HashSteps(h: nat, s: Text, b: byte)
    ensures Hash([]) == 5381
    ensures HashFrom(h, s + [b]) == (33 * HashFrom(h, s) + b) % 0x1_0000_0000_0000_0000
    decreases s
  {
    if s == [] {
      assert ([] + [b])[1..] == [];
    } else {
      assert (s + [b])[1..] == s[1..] + [b];
      HashSteps((33 * h + s[0]) % TWO64, s[1..], b);
    }
  }

  datatype Entry = Entry(s: Text, hashval: nat, id: nat)

  /** Bucket `b` of `n` after the strings of `names` were added in this order. */
  function Bucket(names: seq<Text>, n: nat, b: nat): seq<Entry>
    requires n > 0
  {
    if names == [] then []
    else
      var k := |names| - 1;
      var h := Hash(names[k]);
      Bucket(names[..k], n, b) + (if h % n == b then [Entry(names[k], h, k + 1)] else [])
  }

  ghost predicate Distinct(names: seq<Text>) {
    forall i, j :: 0 <= i < j < |names| ==> names[i] != names[j]
  }

  /** What a bucket holds is a numbered name that hashes to it. */
  lemma {:induction false} BucketSound(names: seq<Text>, n: nat, b: nat, i: nat)
    requires n > 0 && i < |Bucket(names, n, b)|
    ensures var e := Bucket(names, n, b)[i];
            1 <= e.id <= |names| && names[e.id - 1] == e.s && e.hashval == Hash(e.s) && e.hashval % n == b
  {
    var k := |names| - 1;
    if i < |Bucket(names[..k], n, b)| { BucketSound(names[..k], n, b, i); }
  }

  /** Every name is in the bucket of its hash. */
  lemma {:induction false} BucketComplete(names: seq<Text>, n: nat, k: nat)
    requires n > 0 && k < |names|
    ensures Entry(names[k], Hash(names[k]), k + 1) in Bucket(names, n, Hash(names[k]) % n)
  {
    var last := |names| - 1;
    if k < last {
      BucketComplete(names[..last], n, k);
      assert names[..last][k] == names[k];
    }
  }

  method ComputeHash(s: Text) returns (h: nat)
    ensures h == Hash(s)
  {
    h := 5381;
    var i := 0;
    assert s[0..] == s;
    while i < |s|
      invariant 0 <= i <= |s| && HashFrom(h, s[i..]) == Hash(s)
    {
      assert s[i..][0] == s[i] && s[i..][1..] == s[i + 1..];
      h := (33 * h + s[i]) % TWO64;
      i := i + 1;
    }
  }

  /** The strings of all buckets below `k`, in table order. */
  function Listed(names: seq<Text>, n: nat, k: nat): seq<Text>
    requires n > 0
  {
    if k == 0 then [] else Listed(names, n, k - 1) + Strings(Bucket(names, n, k - 1))
  }

  function Strings(es: seq<Entry>): (r: seq<Text>)
    ensures |r| == |es| && forall i :: 0 <= i < |r| ==> r[i] == es[i].s
  {
    seq(|es|, i requires 0 <= i < |es| => es[i].s)
  }

  lemma {:induction false} ListedNone(names: seq<Text>, n: nat)
    requires n > 0
    ensures Listed(names, n, 0) == []
  {
  }

  lemma {:induction false} ListedNext(names: seq<Text>, n: nat, k: nat)
    requires n > 0
    ensures Listed(names, n, k + 1) == Listed(names, n, k) + Strings(Bucket(names, n, k))
  {
  }

  lemma StringsAppend(a: seq<Entry>, b: seq<Entry>)
    ensures Strings(a + b) == Strings(a) + Strings(b)
  {
  }

  /** What adding `x` as number `id` appends to bucket `b`. */
  function Extra(x: Text, id: nat, n: nat, b: nat): seq<Entry>
    requires n > 0
  {
    if Hash(x) % n == b then [Entry(x, Hash(x), id)] else []
  }

  lemma {:induction false} BucketGrows(names: seq<Text>, x: Text, n: nat, b: nat)
    requires n > 0
    ensures Bucket(names + [x], n, b) == Bucket(names, n, b) + Extra(x, |names| + 1, n, b)
  {
    hide Hash;
    assert (names + [x])[..|names|] == names;
  }

  lemma ExtraStrings(x: Text, id: nat, n: nat, b: nat)
    requires n > 0
    ensures multiset(Strings(Extra(x, id, n, b))) == if Hash(x) % n == b then multiset{x} else multiset{}
  {
    hide Hash;
    if Hash(x) % n == b { assert Strings(Extra(x, id, n, b)) == [x]; }
    else { assert Strings(Extra(x, id, n, b)) == []; }
  }

  /** Adding a name adds it once to the listing, in the part of its bucket. */
  lemma {:induction false} ListedGrows(names: seq<Text>, x: Text, n: nat, k: nat)
    requires n > 0
    ensures multiset(Listed(names + [x], n, k)) ==
            multiset(Listed(names, n, k)) + (if Hash(x) % n < k then multiset{x} else multiset{})
  {
    hide Hash, Bucket, Strings, Extra;
    if k > 0 {
      var b := k - 1;
      ListedGrows(names, x, n, b);
      BucketGrows(names, x, n, b);
      StringsAppend(Bucket(names, n, b), Extra(x, |names| + 1, n, b));
      ExtraStrings(x, |names| + 1, n, b);
    }
  }

  /** The listing of the whole table holds each name exactly as often as it was added. */
  lemma {:induction false} ListedAll(names: seq<Text>, n: nat)
    requires n > 0
    ensures multiset(Listed(names, n, n)) == multiset(names)
  {
    hide Listed, Hash;
    if names == [] {
      ListedEmpty(n, n);
    } else {
      var k := |names| - 1;
      ListedAll(names[..k], n);
      ListedGrows(names[..k], names[k], n, n);
      BelowModulus(Hash(names[k]), n);
      assert names == names[..k] + [names[k]];
    }
  }

  lemma BelowModulus(h: nat, n: nat)
    requires n > 0
    ensures h % n < n
  {
  }

  lemma {:induction false} ListedEmpty(n: nat, k: nat)
    requires n > 0
    ensures Listed([], n, k) == []
  {
    if k > 0 { ListedEmpty(n, k - 1); }
  }

  class Map {
    const table: array<seq<Entry>>
    var lastId: nat
    ghost var names: seq<Text>

    /** The table holds exactly the numbered names; `names[k]` has the number k + 1. */
    ghost predicate Valid()
      reads this, table
    {
      && table.Length > 0 && lastId == |names| && Distinct(names)
      && (forall i :: 0 <= i < |names| ==> names[i] != [])
      && (forall b :: 0 <= b < table.Length ==> table[b] == Bucket(names, table.Length, b))
    }

    constructor (n: nat)
      requires n > 0
      ensures Valid() && names == [] && fresh(table) && table.Length == n
    {
      table := new seq<Entry>[n](_ => []);
      lastId, names := 0, [];
    }

    /** sm_locate. */
    method Locate(s: Text) returns (r: Option<nat>)
      requires Valid() && s != []
      ensures r.Some? <==> s in names
      ensures r.Some? ==> 1 <= r.value <= lastId && names[r.value - 1] == s
    {
      var h := ComputeHash(s);
      var b := h % table.Length;
      var i := 0;
      while i < |table[b]|
        invariant 0 <= i <= |table[b]|
        invariant forall j :: 0 <= j < i ==> table[b][j].s != s
      {
        BucketSound(names, table.Length, b, i);
        if table[b][i].hashval == h && table[b][i].s == s {
          return Some(table[b][i].id);
        }
        i := i + 1;
      }
      if k :| 0 <= k < |names| && names[k] == s { BucketComplete(names, table.Length, k); }
      return None;
    }

    /** stringmap_add: a known string keeps its number, a new one gets the next. */
    method Add(s: Text) returns (id: nat)
      requires Valid() && s != []
      modifies this, table
      ensures Valid() && names == if s in old(names) then old(names) else old(names) + [s]
      ensures 1 <= id <= lastId && names[id - 1] == s
    {
      var known := Locate(s);
      if known.Some? { return known.value; }
      var h := ComputeHash(s);
      var b := h % table.Length;
      lastId := lastId + 1;
      ghost var before := names;
      table[b] := table[b] + [Entry(s, h, lastId)];
      names := names + [s];
      forall c | 0 <= c < table.Length ensures table[c] == Bucket(names, table.Length, c) {
        BucketGrows(before, s, table.Length, c);
      }
      return lastId;
    }

    /** stringmap_tolist: every string exactly once. */
    method ToList() returns (r: seq<Text>)
      requires Valid()
      ensures multiset(r) == multiset(names)
    {
      hide Hash, Bucket, Strings, Listed, Distinct;
      r := [];
      ListedNone(names, table.Length);
      for k := 0 to table.Length
        invariant r == Listed(names, table.Length, k)
      {
        ListedNext(names, table.Length, k);
        r := r + Strings(table[k]);
      }
      ListedAll(names, table.Length);
    }

    /** The inner loop of stringmap_subset: adds the strings of one bucket that `other` does not have. */
    method AddMissing(bucket: seq<Entry>, other: Map, ghost seen: seq<Text>)
      requires Valid() && other.Valid() && other != this && other.table != table
      requires IsDifference(names, seen, other.names) && forall i :: 0 <= i < |bucket| ==> bucket[i].s != []
      modifies this, table
      ensures Valid() && IsDifference(names, seen + Strings(bucket), other.names)
    {
      for i := 0 to |bucket|
        invariant Valid() && other.Valid()
        invariant IsDifference(names, seen + Strings(bucket[..i]), other.names)
      {
        hide Valid;
        var s := bucket[i].s;
        assert Strings(bucket[..i + 1]) == Strings(bucket[..i]) + [s];
        var there := other.Locate(s);
        if there.None? {
          var _ := Add(s);
        }
      }
      assert bucket[..|bucket|] == bucket;
    }

    /** stringmap_subset: the strings of this map that `other` does not have. */
    method Subset(other: Map) returns (sm: Map)
      requires Valid() && other.Valid()
      ensures sm.Valid() && fresh(sm) && fresh(sm.table) && IsDifference(sm.names, names, other.names)
    {
      hide Hash, Strings;
      sm := new Map(table.Length);
      for k := 0 to table.Length
        invariant sm.Valid() && fresh(sm) && fresh(sm.table)
        invariant IsDifference(sm.names, Listed(names, table.Length, k), other.names)
      {
        forall i | 0 <= i < |table[k]| ensures table[k][i].s != [] { BucketSound(names, table.Length, k, i); }
        sm.AddMissing(table[k], other, Listed(names, table.Length, k));
      }
      ListedAll(names, table.Length);
      SameMembers(Listed(names, table.Length, table.Length), names);
    }
  }

  /** `r` has exactly the members of `a` that `b` has not. */
  ghost predicate IsDifference(r: seq<Text>, a: seq<Text>, b: seq<Text>) {
    forall s :: s in r <==> s in a && s !in b
  }

  lemma SameMembers(a: seq<Text>, b: seq<Text>)
    requires multiset(a) == multiset(b)
    ensures forall s :: s in a <==> s in b
  {
    assert forall s :: s in a <==> s in multiset(a);
    assert forall s :: s in b <==> s in multiset(b);
  }
}
