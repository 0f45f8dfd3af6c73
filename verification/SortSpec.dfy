/**
 What a stable sort is, and why exchanging neighbours that are out of order gets there: it keeps
 every class of equal elements in order and removes exactly one inversion.
 */
module SortSpec {

  type Compare<!T> = (T, T) -> int

  ghost predicate TotalPreorder<T(!new)>(cmp: Compare<T>) {
    && (forall x, y :: cmp(x, y) > 0 <==> cmp(y, x) < 0)
    && (forall x, y, z :: cmp(x, y) <= 0 && cmp(y, z) <= 0 ==> cmp(x, z) <= 0)
  }

  ghost predicate Sorted<T>(s: seq<T>, cmp: Compare<T>) {
    forall i, j :: 0 <= i < j < |s| ==> cmp(s[i], s[j]) <= 0
  }

  ghost predicate NeighboursSorted<T>(s: seq<T>, n: nat, cmp: Compare<T>) {
    forall i {:trigger s[i]} :: 0 <= i && i + 1 < |s| && i < n ==> cmp(s[i], s[i + 1]) <= 0
  }

  // How a pass extends the sorted stretch.

  lemma NeighboursNone<T>(s: seq<T>, cmp: Compare<T>)
    ensures NeighboursSorted(s, 0, cmp)
  {
  }

  lemma NeighboursNext<T>(s: seq<T>, k: nat, cmp: Compare<T>)
    requires k + 1 < |s| && cmp(s[k], s[k + 1]) <= 0
    ensures NeighboursSorted(s, k, cmp) ==> NeighboursSorted(s, k + 1, cmp)
  {
  }

  lemma NeighboursAll<T>(s: seq<T>, k: nat, cmp: Compare<T>)
    ensures NeighboursSorted(s, k, cmp) && k + 1 >= |s| ==> NeighboursSorted(s, |s|, cmp)
  {
  }

  lemma {:induction false} NeighboursSuffice<T(!new)>(s: seq<T>, cmp: Compare<T>, i: nat, j: nat)
    requires TotalPreorder(cmp) && NeighboursSorted(s, |s|, cmp) && i < j < |s|
    ensures cmp(s[i], s[j]) <= 0
    decreases j - i
  {
    assert cmp(s[i], s[i + 1]) <= 0;
    if i + 1 < j { NeighboursSuffice(s, cmp, i + 1, j); }
  }

  lemma SortedFromNeighbours<T(!new)>(s: seq<T>, cmp: Compare<T>)
    requires TotalPreorder(cmp) && NeighboursSorted(s, |s|, cmp)
    ensures Sorted(s, cmp)
  {
    forall i, j | 0 <= i < j < |s| ensures cmp(s[i], s[j]) <= 0 { NeighboursSuffice(s, cmp, i, j); }
  }

  /** The elements equal to `x`, in order. */
  ghost function Class<T>(x: T, s: seq<T>, cmp: Compare<T>): seq<T> {
    if s == [] then [] else (if cmp(x, s[0]) == 0 then [s[0]] else []) + Class(x, s[1..], cmp)
  }

  /** The same elements, and equal ones in the same order. */
  ghost predicate StablePermutation<T(!new)>(s: seq<T>, t: seq<T>, cmp: Compare<T>) {
    multiset(s) == multiset(t) && forall x :: Class(x, s, cmp) == Class(x, t, cmp)
  }

  ghost function CountBelow<T>(x: T, s: seq<T>, cmp: Compare<T>): nat {
    if s == [] then 0 else (if cmp(x, s[0]) > 0 then 1 else 0) + CountBelow(x, s[1..], cmp)
  }

  /** The pairs that are out of order. */
  ghost function Inversions<T>(s: seq<T>, cmp: Compare<T>): nat {
    if s == [] then 0 else CountBelow(s[0], s[1..], cmp) + Inversions(s[1..], cmp)
  }

  function Swap<T>(s: seq<T>, k: nat): (r: seq<T>)
    requires k + 1 < |s|
    ensures |r| == |s|
  {
    s[k := s[k + 1]][k + 1 := s[k]]
  }

  lemma SwapTail<T>(s: seq<T>, k: nat)
    requires 0 < k && k + 1 < |s|
    ensures Swap(s, k)[0] == s[0] && Swap(s, k)[1..] == Swap(s[1..], k - 1)
  {
  }

  lemma SwapFront<T>(s: seq<T>)
    requires 1 < |s|
    ensures s[1..][1..] == s[2..] && Swap(s, 0)[1..][1..] == s[2..]
    ensures Swap(s, 0)[0] == s[1] && Swap(s, 0)[1..][0] == s[0] && s[1..][0] == s[1]
  {
  }

  lemma {:induction false} CountSwap<T>(x: T, s: seq<T>, k: nat, cmp: Compare<T>)
    requires k + 1 < |s|
    ensures CountBelow(x, Swap(s, k), cmp) == CountBelow(x, s, cmp)
  {
    if k == 0 {
      SwapFront(s);
    } else {
      SwapTail(s, k);
      CountSwap(x, s[1..], k - 1, cmp);
    }
  }

  /** Exchanging an inverted pair of neighbours removes exactly that inversion. */
  lemma {:induction false} SwapLowers<T(!new)>(s: seq<T>, k: nat, cmp: Compare<T>)
    requires TotalPreorder(cmp) && k + 1 < |s| && cmp(s[k], s[k + 1]) > 0
    ensures Inversions(Swap(s, k), cmp) == Inversions(s, cmp) - 1
  {
    if k == 0 {
      SwapFront(s);
      assert cmp(s[1], s[0]) < 0;
    } else {
      SwapTail(s, k);
      SwapLowers(s[1..], k - 1, cmp);
      CountSwap(s[0], s[1..], k - 1, cmp);
    }
  }

  lemma NotBothEqual<T(!new)>(x: T, a: T, b: T, cmp: Compare<T>)
    requires TotalPreorder(cmp) && cmp(a, b) > 0
    ensures cmp(x, a) != 0 || cmp(x, b) != 0
  {
    assert cmp(x, a) == 0 ==> cmp(a, x) <= 0;
  }

  lemma {:induction false} ClassSwap<T(!new)>(x: T, s: seq<T>, k: nat, cmp: Compare<T>)
    requires TotalPreorder(cmp) && k + 1 < |s| && cmp(s[k], s[k + 1]) > 0
    ensures Class(x, Swap(s, k), cmp) == Class(x, s, cmp)
  {
    if k == 0 {
      SwapFront(s);
      NotBothEqual(x, s[0], s[1], cmp);
    } else {
      SwapTail(s, k);
      ClassSwap(x, s[1..], k - 1, cmp);
    }
  }

  /** The exchange is a stable permutation. */
  lemma SwapIsStable<T(!new)>(s0: seq<T>, s: seq<T>, k: nat, cmp: Compare<T>)
    requires TotalPreorder(cmp) && k + 1 < |s| && cmp(s[k], s[k + 1]) > 0 && StablePermutation(s0, s, cmp)
    ensures StablePermutation(s0, Swap(s, k), cmp)
  {
    forall x ensures Class(x, s0, cmp) == Class(x, Swap(s, k), cmp) { ClassSwap(x, s, k, cmp); }
  }

  lemma {:induction false} ClassHasMember<T>(x: T, s: seq<T>, cmp: Compare<T>) returns (j: nat)
    requires Class(x, s, cmp) != []
    ensures j < |s| && cmp(x, s[j]) == 0
  {
    if cmp(x, s[0]) == 0 { return 0; }
    j := ClassHasMember(x, s[1..], cmp);
    j := j + 1;
  }

  /** The first element of a sorted sequence is below every element of the same classes. */
  lemma FirstBelow<T(!new)>(t: seq<T>, u: seq<T>, cmp: Compare<T>)
    requires TotalPreorder(cmp) && Sorted(u, cmp) && t != [] && u != []
    requires Class(t[0], t, cmp) == Class(t[0], u, cmp)
    ensures cmp(u[0], t[0]) <= 0
  {
    assert cmp(t[0], t[0]) == 0;
    var j := ClassHasMember(t[0], u, cmp);
    assert cmp(u[j], t[0]) <= 0 && cmp(u[0], u[j]) <= 0;
  }

  lemma OwnClass<T(!new)>(s: seq<T>, cmp: Compare<T>)
    requires TotalPreorder(cmp) && s != []
    ensures Class(s[0], s, cmp) != []
  {
    assert cmp(s[0], s[0]) == 0;
  }

  lemma SortedTail<T>(s: seq<T>, cmp: Compare<T>)
    requires s != [] && Sorted(s, cmp)
    ensures Sorted(s[1..], cmp)
  {
  }

  lemma SameFirst<T(!new)>(t: seq<T>, u: seq<T>, cmp: Compare<T>)
    requires TotalPreorder(cmp) && Sorted(t, cmp) && Sorted(u, cmp) && t != [] && u != []
    requires Class(t[0], t, cmp) == Class(t[0], u, cmp) && Class(u[0], t, cmp) == Class(u[0], u, cmp)
    ensures t[0] == u[0]
  {
    FirstBelow(t, u, cmp);
    FirstBelow(u, t, cmp);
    hide Sorted;
    assert Class(t[0], t, cmp)[0] == t[0] && Class(t[0], u, cmp)[0] == u[0];
  }

  /** Sorted and stable leaves one result only, so the postcondition of the sort determines it. */
  lemma {:induction false} StableSortUnique<T(!new)>(t: seq<T>, u: seq<T>, cmp: Compare<T>)
    requires TotalPreorder(cmp) && Sorted(t, cmp) && Sorted(u, cmp)
    requires forall x :: Class(x, t, cmp) == Class(x, u, cmp)
    ensures t == u
  {
    if t == [] || u == [] {
      if t != [] { OwnClass(t, cmp); }
      if u != [] { OwnClass(u, cmp); }
    } else {
      SameFirst(t, u, cmp);
      SortedTail(t, cmp);
      SortedTail(u, cmp);
      hide Sorted, Class, TotalPreorder;
      forall x ensures Class(x, t[1..], cmp) == Class(x, u[1..], cmp) {
        SameTail(x, t, u, cmp);
      }
      StableSortUnique(t[1..], u[1..], cmp);
      assert t == [t[0]] + t[1..] && u == [u[0]] + u[1..];
    }
  }

  lemma {:induction false} SameTail<T>(x: T, t: seq<T>, u: seq<T>, cmp: Compare<T>)
    requires t != [] && u != [] && t[0] == u[0] && Class(x, t, cmp) == Class(x, u, cmp)
    ensures Class(x, t[1..], cmp) == Class(x, u[1..], cmp)
  {
    var h := if cmp(x, t[0]) == 0 then [t[0]] else [];
    assert (h + Class(x, t[1..], cmp))[|h|..] == Class(x, t[1..], cmp);
    assert (h + Class(x, u[1..], cmp))[|h|..] == Class(x, u[1..], cmp);
  }

  // ----- the simple sort the bubble sort refines

  /** `x` goes before everything it does not exceed: it came first. */
  function InsertStable<T>(x: T, s: seq<T>, cmp: Compare<T>): seq<T> {
    if s == [] || cmp(x, s[0]) <= 0 then [x] + s else [s[0]] + InsertStable(x, s[1..], cmp)
  }

  function StableSorted<T>(s: seq<T>, cmp: Compare<T>): seq<T> {
    if s == [] then [] else InsertStable(s[0], StableSorted(s[1..], cmp), cmp)
  }

  lemma {:induction false} InsertSame<T>(x: T, s: seq<T>, cmp: Compare<T>)
    ensures multiset(InsertStable(x, s, cmp)) == multiset{x} + multiset(s)
  {
    if s != [] {
      InsertSame(x, s[1..], cmp);
      assert s == [s[0]] + s[1..];
    }
  }

  lemma {:induction false} InsertSorted<T(!new)>(x: T, s: seq<T>, cmp: Compare<T>)
    requires TotalPreorder(cmp) && Sorted(s, cmp)
    ensures Sorted(InsertStable(x, s, cmp), cmp)
  {
    if s != [] {
      if cmp(x, s[0]) <= 0 {
        FirstIsLeast(x, s, cmp);
      } else {
        SortedTail(s, cmp);
        InsertSorted(x, s[1..], cmp);
        InsertSame(x, s[1..], cmp);
        var t := InsertStable(x, s[1..], cmp);
        forall j | 0 <= j < |t| ensures cmp(s[0], t[j]) <= 0 { assert t[j] in multiset(t); }
        SortedCons(s[0], t, cmp);
      }
    }
  }

  lemma SortedCons<T>(x: T, s: seq<T>, cmp: Compare<T>)
    requires Sorted(s, cmp) && forall j :: 0 <= j < |s| ==> cmp(x, s[j]) <= 0
    ensures Sorted([x] + s, cmp)
  {
  }

  lemma FirstIsLeast<T(!new)>(x: T, s: seq<T>, cmp: Compare<T>)
    requires TotalPreorder(cmp) && Sorted(s, cmp) && s != [] && cmp(x, s[0]) <= 0
    ensures Sorted([x] + s, cmp)
  {
    forall j | 0 <= j < |s| ensures cmp(x, s[j]) <= 0 { if j > 0 { assert cmp(s[0], s[j]) <= 0; } }
    SortedCons(x, s, cmp);
  }

  lemma {:induction false} InsertClass<T(!new)>(z: T, x: T, s: seq<T>, cmp: Compare<T>)
    requires TotalPreorder(cmp)
    ensures Class(z, InsertStable(x, s, cmp), cmp) == Class(z, [x] + s, cmp)
  {
    assert ([x] + s)[1..] == s;
    if s != [] && cmp(x, s[0]) > 0 {
      InsertClass(z, x, s[1..], cmp);
      assert ([x] + s[1..])[1..] == s[1..];
      assert InsertStable(x, s, cmp)[1..] == InsertStable(x, s[1..], cmp);
      NotBothEqual(z, x, s[0], cmp);
    }
  }

  lemma StableRefl<T(!new)>(s: seq<T>, cmp: Compare<T>)
    ensures StablePermutation(s, s, cmp)
  {
  }

  lemma SortedNone<T>(cmp: Compare<T>)
    ensures Sorted([], cmp)
  {
  }

  lemma {:induction false} InsertIsStable<T(!new)>(x: T, s: seq<T>, t: seq<T>, cmp: Compare<T>)
    requires TotalPreorder(cmp) && StablePermutation(s, t, cmp)
    ensures StablePermutation([x] + s, InsertStable(x, t, cmp), cmp)
  {
    hide TotalPreorder;
    InsertSame(x, t, cmp);
    forall z ensures Class(z, [x] + s, cmp) == Class(z, InsertStable(x, t, cmp), cmp) {
      InsertClass(z, x, t, cmp);
      hide InsertStable;
      assert ([x] + s)[1..] == s && ([x] + t)[1..] == t;
    }
  }

  /** The insertion sort sorts, and is stable. */
  lemma {:induction false} StableSortedSorts<T(!new)>(s: seq<T>, cmp: Compare<T>)
    requires TotalPreorder(cmp)
    ensures Sorted(StableSorted(s, cmp), cmp) && StablePermutation(s, StableSorted(s, cmp), cmp)
  {
    SortedNone(cmp);
    StableRefl(s, cmp);
    hide InsertStable, Sorted, StablePermutation, TotalPreorder;
    if s != [] {
      StableSortedSorts(s[1..], cmp);
      InsertSorted(s[0], StableSorted(s[1..], cmp), cmp);
      InsertIsStable(s[0], s[1..], StableSorted(s[1..], cmp), cmp);
      assert s == [s[0]] + s[1..];
    }
  }

  /** Whatever is sorted and stable is what the insertion sort gives. */
  lemma IsStableSorted<T(!new)>(s: seq<T>, t: seq<T>, cmp: Compare<T>)
    requires TotalPreorder(cmp) && Sorted(t, cmp) && StablePermutation(s, t, cmp)
    ensures t == StableSorted(s, cmp)
  {
    hide Sorted, StableSorted, Class, TotalPreorder;
    StableSortedSorts(s, cmp);
    StableSortUnique(t, StableSorted(s, cmp), cmp);
  }
}
