/** The cache: items by number, in chains by the number's remainder. */
module Cache {
  import opened Common

  datatype Item<T> = Item(id: nat, data: T, size: nat)

  /** Chain `b` of `n` after the items were added in this order. */
  function Chain<T>(items: seq<Item<T>>, n: nat, b: nat): seq<Item<T>>
    requires n > 0
  {
    if items == [] then []
    else
      var k := |items| - 1;
      Chain(items[..k], n, b) + (if items[k].id % n == b then [items[k]] else [])
  }

  lemma {:induction false} ChainMembers<T>(items: seq<Item<T>>, n: nat, b: nat, x: Item<T>)
    requires n > 0
    ensures x in Chain(items, n, b) <==> x in items && x.id % n == b
  {
    if items != [] {
      var k := |items| - 1;
      ChainMembers(items[..k], n, b, x);
      assert items == items[..k] + [items[k]];
    }
  }

  lemma {:induction false} ChainGrows<T>(items: seq<Item<T>>, x: Item<T>, n: nat, b: nat)
    requires n > 0
    ensures Chain(items + [x], n, b) == Chain(items, n, b) + if x.id % n == b then [x] else []
  {
    assert (items + [x])[..|items|] == items;
  }

  datatype Outcome = Added | NoSpace | Aborted

  class Store<T> {
    const table: array<seq<Item<T>>>
    const maxBytes: nat
    /** Set at creation and never counted up, so nothing is ever evicted. */
    const currentBytes: nat := 0
    ghost var items: seq<Item<T>>

    ghost predicate Valid()
      reads this, table
    {
      && table.Length > 0
      && (forall i, j :: 0 <= i < j < |items| ==> items[i].id != items[j].id)
      && (forall b :: 0 <= b < table.Length ==> table[b] == Chain(items, table.Length, b))
    }

    constructor (n: nat, maxBytes: nat)
      requires n > 0
      ensures Valid() && items == [] && fresh(table) && table.Length == n && this.maxBytes == maxBytes
    {
      table := new seq<Item<T>>[n](_ => []);
      this.maxBytes := maxBytes;
      items := [];
    }

    /** find_entry and the lookup of cache_get. */
    method Get(id: nat) returns (r: Option<Item<T>>)
      requires Valid()
      ensures r.Some? ==> r.value in items && r.value.id == id
      ensures r.None? ==> forall x :: x in items ==> x.id != id
    {
      var b := id % table.Length;
      var i := 0;
      while i < |table[b]|
        invariant 0 <= i <= |table[b]| && forall j :: 0 <= j < i ==> table[b][j].id != id
      {
        ChainMembers(items, table.Length, b, table[b][i]);
        if table[b][i].id == id { return Some(table[b][i]); }
        i := i + 1;
      }
      forall x | x in items ensures x.id != id { ChainMembers(items, table.Length, b, x); }
      return None;
    }

    /** cache_add: the size is checked first; a number that is there already ends the process. */
    method Add(id: nat, data: T, size: nat) returns (r: Outcome)
      requires Valid()
      modifies this, table
      ensures Valid() && items == if r == Added then old(items) + [Item(id, data, size)] else old(items)
      ensures r == NoSpace <==> size > maxBytes
      ensures r == Aborted <==> size <= maxBytes && exists x :: x in old(items) && x.id == id
    {
      if size > maxBytes || currentBytes + size > maxBytes { return NoSpace; }
      var there := Get(id);
      if there.Some? { return Aborted; }
      var b := id % table.Length;
      ghost var before := items;
      var item := Item(id, data, size);
      table[b] := table[b] + [item];
      items := items + [item];
      forall c | 0 <= c < table.Length ensures table[c] == Chain(items, table.Length, c) {
        ChainGrows(before, item, table.Length, c);
      }
      return Added;
    }
  }
}

/** The file cache: the string map numbers the aliases, the cache holds the files by number. */
module Filecache {
  import opened Common
  import opened Bytes
  import S = Stringmap
  import C = Cache

  /** A file: its alias, and what stat and read gave. */
  datatype FileInfo = FileInfo(alias: Text, contents: seq<byte>, size: nat)

  ghost function AsMap(items: seq<C.Item<FileInfo>>): map<Text, FileInfo> {
    if items == [] then map[]
    else AsMap(items[..|items| - 1])[items[|items| - 1].data.alias := items[|items| - 1].data]
  }

  lemma AsMapGrows(items: seq<C.Item<FileInfo>>, x: C.Item<FileInfo>)
    ensures AsMap(items + [x]) == AsMap(items)[x.data.alias := x.data]
  {
    assert (items + [x])[..|items|] == items;
  }

  /** The items carry the names, in order. */
  ghost predicate Labelled(items: seq<C.Item<FileInfo>>, names: seq<Text>) {
    |items| == |names| && forall k :: 0 <= k < |items| ==> items[k].id == k + 1 && items[k].data.alias == names[k]
  }

  /** The map of a labelled sequence has exactly the names, each with its item. */
  lemma {:induction false} LabelledMap(items: seq<C.Item<FileInfo>>, names: seq<Text>, a: Text)
    requires Labelled(items, names) && S.Distinct(names)
    ensures a in AsMap(items) <==> a in names
    ensures forall k :: 0 <= k < |names| && names[k] == a ==> AsMap(items)[a] == items[k].data
  {
    if items != [] {
      var n := |items| - 1;
      LabelledMap(items[..n], names[..n], a);
      assert names == names[..n] + [names[n]];
      assert forall k :: 0 <= k < n ==> names[..n][k] == names[k];
    }
  }

  lemma IsMap(m: S.Map)
    requires m.Valid()
    ensures S.Distinct(m.names) && m.lastId == |m.names|
  {
  }

  lemma LabelledGrows(items: seq<C.Item<FileInfo>>, names: seq<Text>, x: C.Item<FileInfo>)
    requires Labelled(items, names)
    ensures x.id == |names| + 1 ==> Labelled(items + [x], names + [x.data.alias])
    ensures !Labelled(items, names + [x.data.alias])
  {
  }

  /** The number the string map returns is in use in the cache exactly for a known alias. */
  lemma NumberKnown(items: seq<C.Item<FileInfo>>, names: seq<Text>, names': seq<Text>, a: Text, id: nat)
    requires Labelled(items, names) && S.Distinct(names') && 1 <= id <= |names'| && names'[id - 1] == a
    requires names' == if a in names then names else names + [a]
    ensures a in names <==> exists x :: x in items && x.id == id
    ensures a !in names ==> id == |names| + 1
  {
    if a in names { assert items[id - 1] in items; }
    else { assert names'[|names|] == a; }
  }

  class Index {
    var filenames: S.Map
    var metacache: C.Store<FileInfo>
    const nelem: nat
    const bytes: nat
    /** sizeof(struct fileinfo_tag): what the cache is asked to hold for each file. */
    const charge: nat

    ghost predicate Valid()
      reads this, filenames, filenames.table, metacache, metacache.table
    {
      && nelem > 0 && filenames.Valid() && metacache.Valid() && metacache.maxBytes == bytes
      && filenames.table != metacache.table as object
    }

    /** The two levels agree: number by number, the cache holds the file of the alias. */
    ghost predicate Agree()
      reads this, filenames, metacache
    {
      Labelled(metacache.items, filenames.names)
    }

    /** The simple map the two levels stand for. */
    ghost function Files(): (m: map<Text, FileInfo>)
      reads this, metacache
    {
      AsMap(metacache.items)
    }

    constructor (nelem: nat, bytes: nat, charge: nat)
      requires nelem > 0
      ensures Valid() && Agree() && Files() == map[] && this.bytes == bytes && this.charge == charge
      ensures fresh(filenames) && fresh(filenames.table) && fresh(metacache) && fresh(metacache.table)
    {
      this.nelem, this.bytes, this.charge := nelem, bytes, charge;
      var names := new S.Map(nelem);
      var store := new C.Store<FileInfo>(nelem, bytes);
      filenames, metacache := names, store;
    }

    /**
     filecache_add, once the file is read. An alias that is there already ends the process. If the
     limit is below one file, the alias is numbered and the file refused, so that the levels no
     longer agree; otherwise they do.
     */
    method Add(fi: FileInfo) returns (r: C.Outcome)
      requires Valid() && Agree() && fi.alias != []
      modifies filenames, filenames.table, metacache, metacache.table
      ensures Valid()
      ensures r == C.NoSpace <==> charge > bytes
      ensures r == C.Aborted <==> charge <= bytes && fi.alias in old(Files())
      ensures r == C.Added ==> Files() == old(Files())[fi.alias := fi]
      ensures r != C.Added ==> Files() == old(Files()) && metacache.items == old(metacache.items)
      ensures filenames.names == if fi.alias in old(Files()) then old(filenames.names) else old(filenames.names) + [fi.alias]
      ensures Agree() <==> charge <= bytes || fi.alias in old(Files())
    {
      hide AsMap, S.Map.Valid, C.Store.Valid;
      ghost var names, items := filenames.names, metacache.items;
      IsMap(filenames);
      LabelledMap(items, names, fi.alias);
      var id := filenames.Add(fi.alias);
      IsMap(filenames);
      NumberKnown(items, names, filenames.names, fi.alias, id);
      r := metacache.Add(id, fi, charge);
      AsMapGrows(items, C.Item(id, fi, charge));
      LabelledGrows(items, names, C.Item(id, fi, charge));
    }

    /** filecache_exists asks the string map only. */
    method Exists(alias: Text) returns (there: bool)
      requires Valid() && alias != []
      ensures there == (alias in filenames.names)
      ensures Agree() ==> there == (alias in Files())
    {
      LabelledHas(alias);
      var id := filenames.Locate(alias);
      return id.Some?;
    }

    lemma LabelledHas(alias: Text)
      requires Valid()
      ensures Agree() ==> (alias in Files() <==> alias in filenames.names)
    {
      if Agree() { LabelledMap(metacache.items, filenames.names, alias); }
    }

    /** filecache_get asks both levels; filecache_stat does the same. */
    method Get(alias: Text) returns (r: Option<FileInfo>)
      requires Valid() && alias != []
      ensures Agree() ==> r == if alias in Files() then Some(Files()[alias]) else None
      ensures alias !in filenames.names ==> r == None
      ensures forall k :: 0 <= k < |filenames.names| && filenames.names[k] == alias ==> IsFileOf(k + 1, r)
    {
      IsMap(filenames);
      var id := filenames.Locate(alias);
      if Agree() { LabelledMap(metacache.items, filenames.names, alias); }
      if id.None? { return None; }
      var item := metacache.Get(id.value);
      if Agree() { assert metacache.items[id.value - 1].id == id.value; }
      if item.None? { return None; }
      if Agree() { SameId(item.value, id.value); }
      return Some(item.value.data);
    }

    /** What the cache has under a number, or nothing. */
    ghost predicate IsFileOf(id: nat, r: Option<FileInfo>)
      reads this, metacache
    {
      match r
      case Some(f) => exists x :: x in metacache.items && x.id == id && x.data == f
      case None => forall x :: x in metacache.items ==> x.id != id
    }

    /** A file that was refused for its size: filecache_exists says yes, filecache_get fails. */
    method RefusedStillExists(fi: FileInfo) returns (there: bool, f: Option<FileInfo>)
      requires Valid() && Agree() && fi.alias != [] && fi.alias !in Files() && charge > bytes
      modifies filenames, filenames.table, metacache, metacache.table
      ensures there && f == None
    {
      hide AsMap, S.Map.Valid, C.Store.Valid, Labelled;
      ghost var names, items := filenames.names, metacache.items;
      IsMap(filenames);
      LabelledHas(fi.alias);
      NumbersBelow(items, names);
      var r := Add(fi);
      there := Exists(fi.alias);
      f := Get(fi.alias);
      assert filenames.names[|names|] == fi.alias && metacache.items == items;
    }

    lemma NumbersBelow(items: seq<C.Item<FileInfo>>, names: seq<Text>)
      requires Labelled(items, names)
      ensures forall x :: x in items ==> x.id <= |names|
    {
    }

    lemma SameId(x: C.Item<FileInfo>, id: nat)
      requires Agree() && x in metacache.items && x.id == id
      ensures 1 <= id <= |metacache.items| && metacache.items[id - 1] == x
    {
      var k :| 0 <= k < |metacache.items| && metacache.items[k] == x;
    }

    /** filecache_invalidate: both levels start afresh. */
    method Invalidate()
      requires Valid()
      modifies this
      ensures Valid() && Agree() && Files() == map[]
      ensures fresh(filenames) && fresh(filenames.table) && fresh(metacache) && fresh(metacache.table)
    {
      var names := new S.Map(nelem);
      var store := new C.Store<FileInfo>(nelem, bytes);
      filenames, metacache := names, store;
    }

    /**
     Whole runs: with a limit of at least one file, every answer is the one a single map from
     aliases to files would give, up to the call that ends the process.
     */
    method Run(ops: seq<Op>) returns (answers: seq<Answer>)
      requires Valid() && Agree() && charge <= bytes
      requires forall i :: 0 <= i < |ops| ==> ops[i].Valid()
      modifies this, filenames, filenames.table, metacache, metacache.table
      ensures answers == SimpleRun(old(Files()), ops)
      decreases ops
    {
      if ops == [] { return []; }
      hide Simple, Valid, Agree, Files, Op.Valid;
      var a := Call(ops[0]);
      if a == Died { return [a]; }
      var rest := Run(ops[1..]);
      return [a] + rest;
    }

    method Call(op: Op) returns (a: Answer)
      requires Valid() && Agree() && charge <= bytes && op.Valid()
      modifies this, filenames, filenames.table, metacache, metacache.table
      ensures (Files(), a) == Simple(old(Files()), op)
      ensures a != Died ==> Valid() && Agree()
      ensures filenames == old(filenames) || fresh(filenames)
      ensures filenames.table == old(filenames.table) || fresh(filenames.table)
      ensures metacache == old(metacache) || fresh(metacache)
      ensures metacache.table == old(metacache.table) || fresh(metacache.table)
    {
      match op
      case AddFile(fi) =>
        var r := Add(fi);
        a := if r == C.Added then Stored else Died;
      case Lookup(alias) =>
        var there := Exists(alias);
        var f := Get(alias);
        a := Found(there, f);
      case Clear =>
        Invalidate();
        a := Stored;
    }
  }

  datatype Op = AddFile(fi: FileInfo) | Lookup(alias: Text) | Clear {
    predicate Valid() {
      match this
      case AddFile(fi) => fi.alias != []
      case Lookup(alias) => alias != []
      case Clear => true
    }
  }

  /** A lookup answers with what filecache_exists and filecache_get say. */
  datatype Answer = Stored | Died | Found(there: bool, file: Option<FileInfo>)

  function Simple(m: map<Text, FileInfo>, op: Op): (map<Text, FileInfo>, Answer) {
    match op
    case AddFile(fi) => if fi.alias in m then (m, Died) else (m[fi.alias := fi], Stored)
    case Lookup(alias) => (m, Found(alias in m, if alias in m then Some(m[alias]) else None))
    case Clear => (map[], Stored)
  }

  function SimpleRun(m: map<Text, FileInfo>, ops: seq<Op>): seq<Answer>
    decreases ops
  {
    if ops == [] then [] else
    var (m', a) := Simple(m, ops[0]);
    [a] + if a == Died then [] else SimpleRun(m', ops[1..])
  }
}
