/** cstring_split: the words of a text between delimiters. */
module Split {
  import opened Bytes
  import opened GrowString

  datatype Range = Range(lo: nat, hi: nat)

  /** strspn (`inside` true) and strcspn: where the stretch of delimiters or of other bytes ends. */
  function Span(s: Text, delim: Text, i: nat, inside: bool): (j: nat)
    requires i <= |s|
    ensures i <= j <= |s|
    ensures forall k :: i <= k < j ==> (s[k] in delim <==> inside)
    ensures j < |s| ==> (s[j] in delim <==> !inside)
    decreases |s| - i
  {
    if i == |s| || (s[i] in delim) != inside then i else Span(s, delim, i + 1, inside)
  }

  /** The words from `i` on. */
  function Words(s: Text, delim: Text, i: nat): seq<Range>
    requires i <= |s|
    decreases |s| - i
  {
    var lo := Span(s, delim, i, true);
    if lo == |s| then []
    else
      var hi := Span(s, delim, lo, false);
      [Range(lo, hi)] + Words(s, delim, hi)
  }

  // ----- an independent account of what the words are

  /** A non-empty stretch without delimiters that cannot be made longer. */
  ghost predicate Maximal(s: Text, delim: Text, r: Range) {
    && r.lo < r.hi <= |s|
    && (forall k :: r.lo <= k < r.hi ==> s[k] !in delim)
    && (r.lo == 0 || s[r.lo - 1] in delim)
    && (r.hi == |s| || s[r.hi] in delim)
  }

  ghost predicate Ordered(rs: seq<Range>) {
    forall i, j :: 0 <= i < j < |rs| ==> rs[i].hi <= rs[j].lo
  }

  ghost predicate Covered(rs: seq<Range>, k: nat) {
    exists i :: 0 <= i < |rs| && rs[i].lo <= k < rs[i].hi
  }

  /** Maximal stretches, in order, that miss no byte from `i` on that is no delimiter. */
  ghost predicate AllRuns(s: Text, delim: Text, i: nat, rs: seq<Range>) {
    && (forall k :: 0 <= k < |rs| ==> Maximal(s, delim, rs[k]) && i <= rs[k].lo)
    && Ordered(rs)
    && (forall k :: i <= k < |s| && s[k] !in delim ==> Covered(rs, k))
  }

  /** No word straddles `i`. */
  ghost predicate Edge(s: Text, delim: Text, i: nat) {
    i <= |s| && (i == 0 || i == |s| || s[i] in delim)
  }

  lemma {:induction false} WordsAreRuns(s: Text, delim: Text, i: nat)
    requires Edge(s, delim, i)
    ensures AllRuns(s, delim, i, Words(s, delim, i))
    decreases |s| - i
  {
    hide Span;
    var lo := Span(s, delim, i, true);
    if lo < |s| {
      var hi := Span(s, delim, lo, false);
      WordsAreRuns(s, delim, hi);
      MoreRuns(s, delim, i, Range(lo, hi), Words(s, delim, hi));
    }
  }

  lemma MoreRuns(s: Text, delim: Text, i: nat, r: Range, rs: seq<Range>)
    requires Edge(s, delim, i) && i <= r.lo && AllRuns(s, delim, r.hi, rs)
    requires Maximal(s, delim, r) && forall k :: i <= k < r.lo ==> s[k] in delim
    ensures AllRuns(s, delim, i, [r] + rs)
  {
    var all := [r] + rs;
    forall k | i <= k < |s| && s[k] !in delim
      ensures Covered(all, k)
    {
      if k < r.hi {
        assert all[0] == r;
      } else {
        assert Covered(rs, k);
        var j :| 0 <= j < |rs| && rs[j].lo <= k < rs[j].hi;
        assert all[j + 1] == rs[j];
      }
    }
  }

  /** The first of all runs is the one the spans find. */
  lemma FirstRun(s: Text, delim: Text, i: nat, rs: seq<Range>)
    requires Edge(s, delim, i) && AllRuns(s, delim, i, rs)
    ensures var lo := Span(s, delim, i, true);
            && (rs == [] <==> lo == |s|)
            && (rs != [] ==> rs[0] == Range(lo, Span(s, delim, lo, false)))
  {
    hide Span;
    var lo := Span(s, delim, i, true);
    if rs != [] {
      assert Maximal(s, delim, rs[0]);
      assert s[rs[0].lo] !in delim;
      assert lo <= rs[0].lo;
    }
    if lo < |s| {
      assert Covered(rs, lo);
      var j :| 0 <= j < |rs| && rs[j].lo <= lo < rs[j].hi;
      assert j == 0;
    }
  }

  lemma RestOfRuns(s: Text, delim: Text, i: nat, rs: seq<Range>)
    requires rs != [] && AllRuns(s, delim, i, rs)
    ensures AllRuns(s, delim, rs[0].hi, rs[1..])
  {
    var rest := rs[1..];
    forall k | rs[0].hi <= k < |s| && s[k] !in delim
      ensures Covered(rest, k)
    {
      assert Maximal(s, delim, rs[0]);
      assert Covered(rs, k);
      var j :| 0 <= j < |rs| && rs[j].lo <= k < rs[j].hi;
      assert rest[j - 1] == rs[j];
    }
  }

  lemma {:induction false} RunsAreWords(s: Text, delim: Text, i: nat, rs: seq<Range>)
    requires Edge(s, delim, i) && AllRuns(s, delim, i, rs)
    ensures rs == Words(s, delim, i)
    decreases |s| - i
  {
    hide Span;
    FirstRun(s, delim, i, rs);
    if rs != [] {
      assert Maximal(s, delim, rs[0]);
      RestOfRuns(s, delim, i, rs);
      RunsAreWords(s, delim, rs[0].hi, rs[1..]);
      assert rs == [rs[0]] + rs[1..];
    }
  }

  /** The words are exactly the maximal delimiter-free runs, all of them, in order. */
  lemma WordsExactly(s: Text, delim: Text, rs: seq<Range>)
    ensures AllRuns(s, delim, 0, rs) <==> rs == Words(s, delim, 0)
  {
    WordsAreRuns(s, delim, 0);
    if AllRuns(s, delim, 0, rs) { RunsAreWords(s, delim, 0, rs); }
  }

  // ----- the operation

  /** The word that starts at `i`, and what is left behind the delimiters after it. */
  lemma WordsFrom(s: Text, delim: Text, i: nat)
    requires i < |s| && s[i] !in delim
    ensures var hi := Span(s, delim, i, false); var next := Span(s, delim, hi, true);
            && i < hi && (next < |s| ==> s[next] !in delim)
            && Words(s, delim, i) == [Range(i, hi)] + Words(s, delim, next)
  {
    var hi := Span(s, delim, i, false);
    SkipFirst(s, delim, hi);
  }

  lemma SkipFirst(s: Text, delim: Text, i: nat)
    requires i <= |s|
    ensures Words(s, delim, i) == Words(s, delim, Span(s, delim, i, true))
  {
    var lo := Span(s, delim, i, true);
    assert Span(s, delim, lo, true) == lo;
  }

  /** The first pass: how many words. */
  method CountWords(s: Text, delim: Text, first: nat) returns (nelem: nat)
    requires first <= |s| && (first < |s| ==> s[first] !in delim)
    ensures nelem == |Words(s, delim, first)|
  {
    hide Span;
    nelem := 0;
    var i := first;
    while i < |s|
      invariant first <= i <= |s| && (i < |s| ==> s[i] !in delim)
      invariant nelem + |Words(s, delim, i)| == |Words(s, delim, first)|
      decreases |s| - i
    {
      WordsFrom(s, delim, i);
      var hi := Span(s, delim, i, false);
      i := Span(s, delim, hi, true);
      nelem := nelem + 1;
    }
  }

  /** Strings that share nothing. */
  ghost predicate Separate(dest: seq<CString>)
    reads dest
  {
    forall i, j {:trigger dest[i].data, dest[j].data} :: 0 <= i < j < |dest| ==>
      dest[i] != dest[j] && dest[i].data != dest[j].data
  }

  /** cstring_multinew. */
  method MultiNew(nelem: nat) returns (dest: seq<CString>)
    ensures |dest| == nelem && Separate(dest)
    ensures forall k :: 0 <= k < nelem ==>
      fresh(dest[k]) && fresh(dest[k].data) && dest[k].Valid() && dest[k].Contents() == []
  {
    dest := [];
    while |dest| < nelem
      invariant |dest| <= nelem && Separate(dest)
      invariant forall k :: 0 <= k < |dest| ==>
        fresh(dest[k]) && fresh(dest[k].data) && dest[k].Valid() && dest[k].Contents() == []
      decreases nelem - |dest|
    {
      var c := new CString();
      dest := dest + [c];
    }
  }

  /** cstring_pcat to one of several strings. */
  method AppendTo(dest: seq<CString>, i: nat, word: Text)
    requires i < |dest| && Separate(dest) && (forall k :: 0 <= k < |dest| ==> dest[k].Valid()) && 0 !in word
    modifies dest[i], dest[i].data
    ensures Separate(dest) && forall k :: 0 <= k < |dest| ==> dest[k].Valid()
    ensures dest[i].data == old(dest[i].data) || fresh(dest[i].data)
    ensures forall k :: 0 <= k < |dest| && k != i ==> dest[k].data == old(dest[k].data)
    ensures dest[i].Contents() == old(dest[i].Contents()) + word
    ensures forall k :: 0 <= k < |dest| && k != i ==> dest[k].Contents() == old(dest[k].Contents())
  {
    hide CString.Valid, CString.Contents;
    var c := dest[i];
    c.Append(word);
    forall k | 0 <= k < |dest|
      ensures dest[k].Valid()
      ensures k != i ==> dest[k].Contents() == old(dest[k].Contents()) && dest[k].data == old(dest[k].data)
    {
      if k != i { assert dest[k] != c && old(dest[k].data) != old(c.data); }
    }
  }

  /** The bytes of a word. */
  function TextOf(s: Text, r: Range): Text {
    if r.lo <= r.hi <= |s| then s[r.lo..r.hi] else []
  }

  lemma NoMoreWords(s: Text, delim: Text)
    ensures Words(s, delim, |s|) == []
  {
  }

  /** Both passes agree: every word has its string, and no string is left over. */
  method SplitText(s: Text, delim: Text) returns (dest: seq<CString>)
    requires 0 !in s
    ensures var words := Words(s, delim, 0);
            && |dest| == |words|
            && forall k :: 0 <= k < |dest| ==> dest[k].Valid() && dest[k].Contents() == TextOf(s, words[k])
  {
    hide Span, Words, CString.Valid, CString.Contents;
    ghost var words := Words(s, delim, 0);
    var first := Span(s, delim, 0, true);
    SkipFirst(s, delim, 0);
    NoMoreWords(s, delim);
    if first == |s| { return []; }
    var nelem := CountWords(s, delim, first);
    dest := MultiNew(nelem);
    var i, at := 0, first;
    while at < |s|
      invariant first <= at <= |s| && (at < |s| ==> s[at] !in delim)
      invariant i <= nelem == |dest| && Words(s, delim, at) == words[i..]
      invariant Separate(dest)
      invariant forall k :: 0 <= k < nelem ==> fresh(dest[k]) && fresh(dest[k].data) && dest[k].Valid()
      invariant forall k :: i <= k < nelem ==> dest[k].Contents() == []
      invariant forall k :: 0 <= k < i ==> dest[k].Contents() == TextOf(s, words[k])
      decreases |s| - at
    {
      WordsFrom(s, delim, at);
      var end := Span(s, delim, at, false);
      assert words[i] == words[i..][0] == Range(at, end);
      AppendTo(dest, i, s[at..end]);
      at := Span(s, delim, end, true);
      assert words[i + 1..] == words[i..][1..];
      i := i + 1;
    }
  }
}
