/**
 The doubly linked list with a cached tail. The first node is a head without data; in C its data
 pointer holds the last node, here that pointer is the field `last`.
 */
module LinkedList {
  import opened Common
  import opened SortSpec

  ghost predicate Distinct<T>(s: seq<T>) {
    forall i, j :: 0 <= i < j < |s| ==> s[i] != s[j]
  }

  /** A sequence without its k-th element. */
  function Without<T>(s: seq<T>, k: nat): (r: seq<T>)
    requires k < |s|
    ensures |r| == |s| - 1 && forall i :: 0 <= i < |r| ==> r[i] == s[if i < k then i else i + 1]
  {
    s[..k] + s[k + 1..]
  }

  /** The elements that fail `p`, in order. */
  function Reject<T>(s: seq<T>, p: T -> bool): seq<T> {
    if s == [] then []
    else if p(s[0]) then Reject(s[1..], p)
    else [s[0]] + Reject(s[1..], p)
  }

  lemma {:induction false} RejectUnfolds<T>(x: T, rest: seq<T>, p: T -> bool)
    ensures Reject([x] + rest, p) == if p(x) then Reject(rest, p) else [x] + Reject(rest, p)
  {
    assert ([x] + rest)[1..] == rest;
  }

  lemma WithoutMiddle<T>(a: seq<T>, x: T, c: seq<T>)
    ensures (a + [x] + c)[|a|] == x && Without(a + [x] + c, |a|) == a + c
  {
  }

  lemma {:induction false} RejectEmpty<T>(rest: seq<T>, p: T -> bool)
    ensures rest == [] ==> Reject(rest, p) == []
  {
  }

  lemma WithoutDistinct<T>(s: seq<T>, k: nat)
    requires k < |s| && Distinct(s)
    ensures Distinct(Without(s, k))
  {
  }

  class Node<T(0,!new)> {
    var next: Node?<T>
    var prev: Node?<T>
    var data: T
    var last: Node?<T>
    ghost var spine: seq<Node<T>>
    ghost var repr: set<Node<T>>

    /** The nodes of the list whose head this is, linked both ways, with the tail cached. */
    ghost predicate Valid()
      reads this, repr`next, repr`prev
      ensures Valid() ==> this in repr
    {
      Linked() && (if spine == [] then last == null || last == this else last == spine[|spine| - 1])
    }

    /** The two chains, without the cached tail. */
    ghost predicate Linked()
      reads this, repr`next, repr`prev
    {
      && this in repr && (forall i :: 0 <= i < |spine| ==> spine[i] in repr)
      && this !in spine && Distinct(spine)
      && next == At(spine, 0)
      && (forall i {:trigger spine[i].next} :: 0 <= i < |spine| ==> spine[i].next == At(spine, i + 1))
      && (forall i {:trigger spine[i].prev} :: 0 <= i < |spine| ==> spine[i].prev == Before(spine, i))
    }

    ghost function Contents(): (s: seq<T>)
      requires Valid()
      reads this, repr
      ensures |s| == |spine| && forall i :: 0 <= i < |s| ==> s[i] == spine[i].data
    {
      seq(|spine|, i requires Valid() && 0 <= i < |spine| reads this, repr => spine[i].data)
    }

    /** list_new. */
    constructor ()
      ensures Valid() && spine == [] && Contents() == [] && fresh(repr) && last == null
    {
      next, prev, last := null, null, null;
      spine, repr := [], {this};
    }

    /** list_add: appends behind the cached tail. */
    method Add(x: T)
      requires Valid()
      modifies repr
      ensures Valid() && fresh(repr - old(repr))
      ensures Contents() == old(Contents()) + [x]
    {
      hide Appended, Valid, Linked;
      ghost var s0, c0 := spine, Contents();
      var node := NewLast(x);
      spine, repr := spine + [node], repr + {node};
      AppendedIsValid(node, s0);
      ContentsIs(c0 + [x]);
    }

    /** A new node for `x`, linked in behind the others. */
    method NewLast(x: T) returns (node: Node<T>)
      requires Valid()
      modifies this`next, this`last, repr`next
      ensures fresh(node) && node.data == x && Appended(node, spine) && Holds(spine, repr, old(Contents()))
      ensures this in repr
    {
      node := Link(x);
    }

    /** The body of list_add, whatever the cache holds. */
    method Link(x: T) returns (node: Node<T>)
      modifies this`next, this`last, (if last == null then {} else {last})`next
      ensures fresh(node) && node.data == x && node.next == null && last == node
      ensures old(last) == null ==> next == node && node.prev == this
      ensures old(last) != null ==> node.prev == old(last) && old(last).next == node
      ensures old(last) != null && old(last) != this ==> next == old(next)
    {
      node := new Node<T>();
      node.data := x;
      if last != null {
        node.prev := last;
        last.next := node;
      } else {
        next := node;
        node.prev := this;
      }
      last := node;
    }

    /** The nodes of `s` are in the footprint and carry the data. */
    ghost predicate Holds(s: seq<Node<T>>, footprint: set<Node<T>>, c: seq<T>)
      reads s
    {
      |s| == |c| && forall i :: 0 <= i < |s| ==> s[i] in footprint && s[i].data == c[i]
    }

    /** `node` stands behind the nodes of `s`. */
    ghost predicate Appended(node: Node<T>, s: seq<Node<T>>)
      reads this, node, s
    {
      && this !in s && node !in s && node != this && Distinct(s)
      && last == node && node.next == null && node.prev == Before(s, |s|)
      && next == (if s == [] then node else s[0])
      && (forall i {:trigger s[i].next} :: 0 <= i < |s| ==> s[i].next == if i + 1 < |s| then s[i + 1] else node)
      && (forall i {:trigger s[i].prev} :: 0 <= i < |s| ==> s[i].prev == Before(s, i))
    }

    lemma AppendedIsValid(node: Node<T>, s: seq<Node<T>>)
      requires Appended(node, s) && spine == s + [node] && this in repr && node in repr
      requires forall i :: 0 <= i < |s| ==> s[i] in repr
      ensures Valid()
    {
      forall i {:trigger spine[i].next} | 0 <= i < |spine| ensures spine[i].next == At(spine, i + 1) {
        if i < |s| { assert spine[i] == s[i]; }
      }
      forall i {:trigger spine[i].prev} | 0 <= i < |spine| ensures spine[i].prev == Before(spine, i) {
        if i < |s| { assert spine[i] == s[i]; }
      }
    }

    lemma ContentsIs(c: seq<T>)
      requires Valid() && |c| == |spine| && forall i :: 0 <= i < |c| ==> spine[i].data == c[i]
      ensures Contents() == c
    {
    }

    /** The links around the k-th node of `s` lead past it; all others are in place. */
    ghost predicate Bypassed(s: seq<Node<T>>, k: nat)
      requires k < |s|
      reads this, s
    {
      && this !in s && Distinct(s)
      && next == (if k == 0 then At(s, 1) else At(s, 0))
      && (forall i {:trigger s[i].next} :: 0 <= i < |s| && i != k ==> s[i].next == At(s, if i + 1 == k then k + 1 else i + 1))
      && (forall i {:trigger s[i].prev} :: 0 <= i < |s| && i != k ==> s[i].prev == Before(s, if i == k + 1 then k else i))
      && (if |s| == 1 then last == this else last == s[if k == |s| - 1 then k - 1 else |s| - 1])
    }

    ghost function At(s: seq<Node<T>>, i: int): Node?<T> {
      if 0 <= i < |s| then s[i] else null
    }

    ghost function Before(s: seq<Node<T>>, i: int): Node<T> {
      if 0 < i <= |s| then s[i - 1] else this
    }

    lemma BypassedNext(s: seq<Node<T>>, k: nat, i: nat)
      requires k < |s| && Bypassed(s, k) && spine == Without(s, k) && i < |spine|
      ensures spine[i].next == At(spine, i + 1)
    {
      var j := if i < k then i else i + 1;
      assert s[j].next == At(s, if j + 1 == k then k + 1 else j + 1);
    }

    lemma BypassedPrev(s: seq<Node<T>>, k: nat, i: nat)
      requires k < |s| && Bypassed(s, k) && spine == Without(s, k) && i < |spine|
      ensures spine[i].prev == Before(spine, i)
    {
      var j := if i < k then i else i + 1;
      assert s[j].prev == Before(s, if j == k + 1 then k else j);
    }

    lemma BypassedIsValid(s: seq<Node<T>>, k: nat)
      requires k < |s| && Bypassed(s, k) && spine == Without(s, k)
      requires this in repr && forall i :: 0 <= i < |s| ==> s[i] in repr
      ensures Valid()
    {
      forall i {:trigger spine[i].next} | 0 <= i < |spine| ensures spine[i].next == At(spine, i + 1) { BypassedNext(s, k, i); }
      forall i {:trigger spine[i].prev} | 0 <= i < |spine| ensures spine[i].prev == Before(spine, i) { BypassedPrev(s, k, i); }
      assert this !in spine;
      WithoutDistinct(s, k);
    }

    /** list_remove_node: unlinks the k-th node and returns its successor. */
    method RemoveNode(node: Node<T>, ghost k: nat) returns (succ: Node?<T>)
      requires Valid() && k < |spine| && spine[k] == node
      modifies repr
      ensures Valid() && repr == old(repr) && spine == Without(old(spine), k) && succ == At(spine, k)
      ensures Contents() == Without(old(Contents()), k)
      ensures spine == [] ==> last == this
    {
      ghost var s0, c0 := spine, Contents();
      succ := Unlink(node, k);
      assert forall i :: 0 <= i < |s0| ==> s0[i] in repr && s0[i].data == c0[i];
      spine := Without(spine, k);
      assert Bypassed(s0, k);
      BypassedIsValid(s0, k);
      hide Valid;
      ContentsIs(Without(c0, k));
    }

    method Unlink(node: Node<T>, ghost k: nat) returns (succ: Node?<T>)
      requires Valid() && k < |spine| && spine[k] == node
      modifies repr`next, repr`prev, this`last
      ensures Bypassed(spine, k) && succ == At(spine, k + 1)
      ensures |spine| == 1 ==> last == this
    {
      assert node.prev == Before(spine, k) && node.next == At(spine, k + 1);
      if last == node { last := node.prev; }
      if node.next != null { node.next.prev := node.prev; }
      node.prev.next := node.next;
      succ := node.next;
    }

    /** The loop of find_new_files: deleting while iterating leaves exactly the elements that fail `p`. */
    method DeleteIf(p: T -> bool)
      requires Valid()
      modifies repr
      ensures Valid() && repr == old(repr) && Contents() == Reject(old(Contents()), p)
      ensures spine == [] ==> last == if old(spine) == [] then old(last) else this
    {
      var node := next;
      ghost var kept, rest := [], Contents();
      assert [] + rest == rest && [] + Reject(rest, p) == Reject(rest, p);
      hide Valid, Contents, Reject, Without;
      while node != null
        invariant Valid() && repr == old(repr)
        invariant Contents() == kept + rest && node == At(spine, |kept|)
        invariant kept + Reject(rest, p) == Reject(old(Contents()), p)
        invariant spine == [] ==> last == if old(spine) == [] then old(last) else this
        decreases |rest|
      {
        node, kept := DeleteOrKeep(node, p, kept, rest);
        rest := rest[1..];
      }
      AtEnd(spine, |kept|);
      RejectEmpty(rest, p);
    }

    /** One turn of the loop: `kept` has been looked at, `rest` has not. */
    method DeleteOrKeep(node: Node<T>, p: T -> bool, ghost kept: seq<T>, ghost rest: seq<T>)
      returns (succ: Node?<T>, ghost kept': seq<T>)
      requires Valid() && Contents() == kept + rest && node == At(spine, |kept|)
      modifies repr
      ensures Valid() && repr == old(repr) && rest != []
      ensures Contents() == kept' + rest[1..] && succ == At(spine, |kept'|)
      ensures kept' + Reject(rest[1..], p) == kept + Reject(rest, p)
      ensures old(spine) != [] && (spine == [] ==> last == this)
    {
      hide Reject, Without;
      AtEnd(spine, |kept|);
      ghost var x, more := rest[0], rest[1..];
      assert rest == [x] + more && node.data == x && node.next == At(spine, |kept| + 1);
      Assoc(kept, [x], more);
      WithoutMiddle(kept, x, more);
      RejectUnfolds(x, more, p);
      hide Valid, Contents;
      if p(node.data) {
        succ := RemoveNode(node, |kept|);
        return succ, kept;
      }
      Assoc(kept, [x], Reject(more, p));
      return node.next, kept + [x];
    }

    lemma AtEnd(s: seq<Node<T>>, k: nat)
      ensures At(s, k) == null <==> k >= |s|
    {
    }

    /** list_merge: the data of `src` in order behind those of this list. The nodes of `src` are freed. */
    method Merge(src: Node<T>)
      requires Valid() && src.Valid() && repr !! src.repr
      modifies repr
      ensures Valid() && fresh(repr - old(repr)) && Contents() == old(Contents()) + old(src.Contents())
      ensures old(src.Contents()) == [] ==> last == old(last)
    {
      var node := src.next;
      ghost var c, k := src.Contents(), 0;
      assert c[..0] == [];
      while node != null
        invariant Valid() && src.Valid() && src.Contents() == c && repr !! src.repr && fresh(repr - old(repr))
        invariant 0 <= k <= |src.spine| && node == At(src.spine, k)
        invariant Contents() == old(Contents()) + c[..k] && (k == 0 ==> last == old(last))
        decreases |src.spine| - k
      {
        Add(node.data);
        assert c[..k + 1] == c[..k] + [c[k]];
        node := node.next;
        k := k + 1;
      }
      assert c[..k] == c;
    }

    /**
     list_insert: puts an element in front. The cached tail is right afterwards exactly unless the
     list had been emptied by removals, which leaves the head in the cache.
     */
    method Insert(x: T)
      requires Valid()
      modifies repr
      ensures fresh(repr - old(repr)) && |spine| == |old(spine)| + 1 && spine[1..] == old(spine)
      ensures Valid() <==> !(old(spine) == [] && old(last) == this)
      ensures Valid() ==> Contents() == [x] + old(Contents())
      ensures !Valid() ==> next == spine[0] && spine[0].data == x && spine[0].next == null && last == this
    {
      hide Fronted, Linked;
      ghost var s0, c0 := spine, Contents();
      var node := NewFront(x);
      if last == null { last := node; }
      spine, repr := [node] + spine, repr + {node};
      FrontedIsLinked(node, s0);
      if Valid() { FrontContents(x, node, s0, c0); }
    }

    /** On an emptied list, the element that list_insert puts in is dropped by the next list_add. */
    method LosesInserted(x: T, y: T)
      requires Valid() && spine == [] && last == this
      modifies repr
      ensures next != null && next.data == y && next.next == null && last == next
    {
      Insert(x);
      var node := Link(y);
    }

    lemma FrontContents(x: T, node: Node<T>, s: seq<Node<T>>, c: seq<T>)
      requires Valid() && spine == [node] + s && node.data == x && |c| == |s|
      requires forall i :: 0 <= i < |s| ==> s[i].data == c[i]
      ensures Contents() == [x] + c
    {
      hide Valid;
      ContentsIs([x] + c);
    }

    /** A new node for `x`, linked in before the others. */
    method NewFront(x: T) returns (node: Node<T>)
      requires Valid()
      modifies this`next, repr`prev
      ensures fresh(node) && node.data == x && Fronted(node, spine) && Holds(spine, repr, old(Contents()))
      ensures next == node && node.next == At(spine, 0)
      ensures this in repr
    {
      node := new Node<T>();
      node.data := x;
      node.next := next;
      node.prev := this;
      if next != null { next.prev := node; }
      next := node;
    }

    /** `node` stands between the head and the nodes of `s`. */
    ghost predicate Fronted(node: Node<T>, s: seq<Node<T>>)
      reads this, node, s
    {
      && this !in s && node !in s && node != this && Distinct(s)
      && next == node && node.prev == this && node.next == At(s, 0)
      && (forall i {:trigger s[i].next} :: 0 <= i < |s| ==> s[i].next == At(s, i + 1))
      && (forall i {:trigger s[i].prev} :: 0 <= i < |s| ==> s[i].prev == if i == 0 then node else s[i - 1])
    }

    lemma FrontedIsLinked(node: Node<T>, s: seq<Node<T>>)
      requires Fronted(node, s) && spine == [node] + s && this in repr && node in repr
      requires forall i :: 0 <= i < |s| ==> s[i] in repr
      ensures Linked()
    {
      forall i {:trigger spine[i].next} | 0 <= i < |spine| ensures spine[i].next == At(spine, i + 1) {
        if i > 0 { assert s[i - 1].next == At(s, i); }
      }
      forall i {:trigger spine[i].prev} | 0 <= i < |spine| ensures spine[i].prev == Before(spine, i) {
        if i > 0 { assert spine[i] == s[i - 1] && s[i - 1].prev == if i == 1 then node else s[i - 2]; }
      }
    }

    /** list_sort: bubble sort by exchanging data. The result is sorted and stable. */
    method Sort(cmp: Compare<T>)
      requires Valid() && TotalPreorder(cmp)
      modifies repr`data
      ensures Valid() && Sorted(Contents(), cmp) && StablePermutation(old(Contents()), Contents(), cmp)
      ensures Contents() == StableSorted(old(Contents()), cmp)
    {
      hide Valid, Sorted, StablePermutation, Inversions, NeighboursSorted;
      ghost var c0 := Contents();
      StableRefl(c0, cmp);
      var sorted := false;
      while !sorted
        invariant Valid() && StablePermutation(c0, Contents(), cmp)
        invariant sorted ==> NeighboursSorted(Contents(), |Contents()|, cmp)
        decreases Inversions(Contents(), cmp), !sorted
      {
        sorted := Pass(c0, cmp);
      }
      SortedFromNeighbours(Contents(), cmp);
      IsStableSorted(c0, Contents(), cmp);
    }

    /** One pass over the list; it reports whether nothing was exchanged. */
    method Pass(ghost c0: seq<T>, cmp: Compare<T>) returns (sorted: bool)
      requires Valid() && TotalPreorder(cmp) && StablePermutation(c0, Contents(), cmp)
      modifies repr`data
      ensures Valid() && StablePermutation(c0, Contents(), cmp)
      ensures sorted ==> NeighboursSorted(Contents(), |Contents()|, cmp) && Contents() == old(Contents())
      ensures !sorted ==> Inversions(Contents(), cmp) < old(Inversions(Contents(), cmp))
    {
      hide Valid, StablePermutation, Inversions, NeighboursSorted, TotalPreorder, Swap;
      sorted := true;
      NeighboursNone(Contents(), cmp);
      FirstIs();
      var node := next;
      ghost var k := 0;
      while node != null
        invariant Valid() && StablePermutation(c0, Contents(), cmp) && node == At(spine, k) && |spine| == |Contents()|
        invariant sorted ==> Contents() == old(Contents()) && NeighboursSorted(Contents(), k, cmp)
        invariant !sorted ==> Inversions(Contents(), cmp) < old(Inversions(Contents(), cmp))
        decreases |spine| - k
      {
        AtEnd(spine, k);
        NodeIs(k);
        if node.next == null { break; }
        AtEnd(spine, k + 1);
        NodeIs(k + 1);
        if cmp(node.data, node.next.data) > 0 {
          SwapLowers(Contents(), k, cmp);
          SwapIsStable(c0, Contents(), k, cmp);
          SwapData(node, k);
          sorted := false;
        } else {
          NeighboursNext(Contents(), k, cmp);
        }
        node := node.next;
        k := k + 1;
      }
      AtEnd(spine, k);
      AtEnd(spine, k + 1);
      NeighboursAll(Contents(), k, cmp);
    }

    lemma FirstIs()
      requires Valid()
      ensures next == At(spine, 0) && |spine| == |Contents()|
    {
    }

    lemma NodeIs(k: nat)
      requires Valid() && k < |spine|
      ensures spine[k] in repr && spine[k].next == At(spine, k + 1) && spine[k].data == Contents()[k]
    {
    }

    method SwapData(node: Node<T>, ghost k: nat)
      requires Valid() && k + 1 < |spine| && node == spine[k] && node.next != null
      modifies repr`data
      ensures Valid() && Contents() == Swap(old(Contents()), k)
    {
      ghost var c := Contents();
      NodeIs(k);
      NodeIs(k + 1);
      var x := node.data;
      node.data, node.next.data := node.next.data, x;
      ContentsIs(Swap(c, k));
    }
  }

  // ----- whole runs

  datatype Op<!T> =
    | Append(x: T)
    | Prepend(x: T)
    | RemoveAt(k: nat)
    | Delete(p: T -> bool)
    | MergeIn(xs: seq<T>)
    | SortBy(cmp: Compare<T>)

  /** What a list stands for: its elements, and whether it ever had any. */
  datatype Model<T> = Model(items: seq<T>, used: bool)

  /** What a call does to the sequence; removing behind the end finds no node and does nothing. */
  function Items<T>(s: seq<T>, op: Op<T>): seq<T> {
    match op
    case Append(x) => s + [x]
    case Prepend(x) => [x] + s
    case RemoveAt(k) => if k < |s| then Without(s, k) else s
    case Delete(p) => Reject(s, p)
    case MergeIn(xs) => s + xs
    case SortBy(cmp) => StableSorted(s, cmp)
  }

  function Effect<T>(m: Model<T>, op: Op<T>): Model<T> {
    var s := Items(m.items, op);
    Model(s, m.used || s != [])
  }

  function Effects<T>(m: Model<T>, ops: seq<Op<T>>): Model<T> {
    if ops == [] then m else Effect(Effects(m, ops[..|ops| - 1]), ops[|ops| - 1])
  }

  /** An emptied list takes no list_insert, and a sort needs an order. */
  ghost predicate Permitted<T(!new)>(m: Model<T>, op: Op<T>) {
    match op
    case Prepend(_) => m.items == [] ==> !m.used
    case SortBy(cmp) => TotalPreorder(cmp)
    case _ => true
  }

  ghost predicate AllPermitted<T(!new)>(m: Model<T>, ops: seq<Op<T>>) {
    forall i {:trigger ops[i]} :: 0 <= i < |ops| ==> Permitted(Effects(m, ops[..i]), ops[i])
  }

  ghost predicate Stands<T(0,!new)>(l: Node<T>, m: Model<T>)
    reads l, l.repr
  {
    l.Valid() && l.Contents() == m.items && (if m.items == [] then l.last == l <==> m.used else m.used)
  }

  /** Steps along the list to its k-th node, as list_first and list_next do. */
  method Find<T(0,!new)>(l: Node<T>, k: nat) returns (node: Node?<T>)
    requires l.Valid()
    ensures node == l.At(l.spine, k)
  {
    node := l.next;
    var i := 0;
    while i < k && node != null
      invariant 0 <= i <= k && node == l.At(l.spine, i)
      decreases k - i
    {
      node := node.next;
      i := i + 1;
    }
    l.AtEnd(l.spine, i);
    l.AtEnd(l.spine, k);
  }

  /** A new list of these elements. */
  method Build<T(0,!new)>(xs: seq<T>) returns (l: Node<T>)
    ensures fresh(l) && fresh(l.repr) && l.Valid() && l.Contents() == xs
  {
    hide Node.Valid, Node.Contents;
    l := new Node<T>();
    for i := 0 to |xs|
      invariant fresh(l) && fresh(l.repr) && l.Valid() && l.Contents() == xs[..i]
    {
      l.Add(xs[i]);
    }
    assert xs[..|xs|] == xs;
  }

  /** One call. */
  method Do<T(0,!new)>(l: Node<T>, op: Op<T>, ghost m: Model<T>)
    requires Stands(l, m) && Permitted(m, op)
    modifies l.repr
    ensures Stands(l, Effect(m, op)) && fresh(l.repr - old(l.repr))
  {
    hide Node.Linked, Node.Contents, Reject, StableSorted;
    l.FirstIs();
    match op
    case Append(x) => l.Add(x);
    case Prepend(x) => l.Insert(x);
    case Delete(p) => l.DeleteIf(p);
    case SortBy(cmp) => l.Sort(cmp);
    case MergeIn(xs) =>
      var src := Build(xs);
      l.Merge(src);
    case RemoveAt(k) =>
      var node := Find(l, k);
      l.AtEnd(l.spine, k);
      if node != null {
        var _ := l.RemoveNode(node, k);
      }
    l.FirstIs();
  }

  /**
   Any mix of calls, emptying and refilling the list as often as it may: the heap structure stays in
   order and holds the sequence the calls describe. Only list_insert on an emptied list is left out.
   */
  method RunList<T(0,!new)>(l: Node<T>, ops: seq<Op<T>>, ghost m: Model<T>)
    requires Stands(l, m) && AllPermitted(m, ops)
    modifies l.repr
    ensures Stands(l, Effects(m, ops)) && fresh(l.repr - old(l.repr))
  {
    hide Stands, Permitted, Effect;
    assert ops[..0] == [];
    for i := 0 to |ops|
      invariant Stands(l, Effects(m, ops[..i])) && fresh(l.repr - old(l.repr))
    {
      assert ops[..i + 1][..i] == ops[..i];
      Do(l, ops[i], Effects(m, ops[..i]));
    }
    assert ops[..|ops|] == ops;
  }

  /** The real input: an element added and removed again leaves a list that loses what is inserted next. */
  method EmptiedListLoses<T(0,!new)>(w: T, x: T, y: T) returns (l: Node<T>)
    ensures l.next != null && l.next.data == y && l.next.next == null
  {
    l := new Node<T>();
    l.Add(w);
    l.FirstIs();
    var node := Find(l, 0);
    var _ := l.RemoveNode(node, 0);
    l.LosesInserted(x, y);
  }
}
