/** The growable string. */
module GrowString {
  import opened Bytes

  const INITIAL_SIZE: nat := 256

  function Max(a: nat, b: nat): nat {
    if a < b then b else a
  }

  function Pow2(n: nat): nat {
    if n == 0 then 1 else 2 * Pow2(n - 1)
  }

  /** cstring_extend: the capacity after room was asked for `n` bytes and a terminator. */
  function NewSize(len: nat, size: nat, n: nat): (r: nat)
    requires len < size
    ensures len + n < r
    ensures r == size <==> len + n < size
    ensures r != size ==> 2 * size <= r <= 2 * (len + n)
  {
    if len + n + 1 <= size then size
    else if 2 * size < len + n + 1 then size + n
    else 2 * size
  }

  /** Moving the tail to the right and then filling the gap. */
  lemma Inserted(a: Text, b: Text, c: Text, offset: nat, len: nat, src: Text)
    requires offset <= len && len + |src| < |a|
    requires b == a[..offset + |src|] + a[offset..len] + a[len + |src|..]
    requires c == b[..offset] + src + b[offset + |src|..]
    ensures |c| == |a| && c[..len + |src|] == a[..len][..offset] + src + a[..len][offset..]
  {
    assert b[offset + |src|..len + |src|] == a[offset..len];
    assert c[offset + |src|..len + |src|] == b[offset + |src|..len + |src|];
    assert c[..offset] == a[..offset];
    assert c[offset..offset + |src|] == src;
    assert c[..len + |src|] == c[..offset] + c[offset..offset + |src|] + c[offset + |src|..len + |src|];
  }

  class CString {
    var data: array<byte>
    var len: nat
    /** Bytes moved by all reallocations so far. */
    ghost var copied: nat
    /** How many reallocations there were. */
    ghost var growths: nat
    /** The longest text room was ever asked for. */
    ghost var peak: nat

    ghost predicate Valid()
      reads this, data
    {
      && len < data.Length && data[len] == 0 && 0 !in data[..len]
      && len <= peak
      && copied + INITIAL_SIZE <= data.Length <= Max(INITIAL_SIZE, 2 * peak)
      && Pow2(growths) * INITIAL_SIZE <= data.Length
    }

    ghost function Contents(): Text
      requires Valid()
      reads this, data
    {
      data[..len]
    }

    constructor ()
      ensures Valid() && Contents() == [] && fresh(data) && peak == 0
    {
      data := new byte[INITIAL_SIZE](_ => 0);
      len, copied, growths, peak := 0, 0, 0, 0;
    }

    /** Room for `n` more bytes; the text stays. */
    method Extend(n: nat)
      requires Valid()
      modifies this
      ensures Valid() && Contents() == old(Contents()) && len == old(len) && (data == old(data) || fresh(data))
      ensures data.Length == NewSize(len, old(data.Length), n)
      ensures peak == Max(old(peak), len + n)
      ensures copied == old(copied) + if data.Length == old(data.Length) then 0 else old(data.Length)
    {
      var newsize := data.Length;
      if len + n + 1 > data.Length {
        newsize := data.Length * 2;
        if newsize < len + n + 1 {
          newsize := data.Length + n;
        }
        var bigger := new byte[newsize];
        forall i | 0 <= i < data.Length { bigger[i] := data[i]; }
        assert bigger[..len] == data[..len];
        copied := copied + data.Length;
        growths := growths + 1;
        data := bigger;
      }
      peak := Max(peak, len + n);
    }

    /** has_room_for, and cstring_extend when there is none. */
    method Reserve(n: nat)
      requires Valid()
      modifies this
      ensures Valid() && Contents() == old(Contents()) && len == old(len) && (data == old(data) || fresh(data))
      ensures data.Length == NewSize(len, old(data.Length), n)
      ensures peak == Max(old(peak), len + n)
    {
      if n <= data.Length - len - 1 {
        peak := Max(peak, len + n);
      } else {
        Extend(n);
      }
    }

    /** memcpy of a whole text to place `at`. */
    method CopyTo(at: nat, src: Text)
      requires at + |src| <= data.Length
      modifies data
      ensures data[..] == old(data[..at]) + src + old(data[at + |src|..])
    {
      forall i | 0 <= i < |src| { data[at + i] := src[i]; }
    }

    /** cstring_pcat, and cstring_concat, which differs only in how it finds the length. */
    method Append(src: Text)
      requires Valid() && 0 !in src
      modifies this, data
      ensures Valid() && Contents() == old(Contents()) + src && (data == old(data) || fresh(data))
      ensures peak == Max(old(peak), len)
    {
      Reserve(|src|);
      CopyTo(len, src);
      assert data[..][..len + |src|] == old(Contents()) + src;
      len := len + |src|;
      data[len] := 0;
    }

    method AppendByte(c: byte)
      requires Valid() && c != 0
      modifies this, data
      ensures Valid() && Contents() == old(Contents()) + [c] && (data == old(data) || fresh(data))
      ensures peak == Max(old(peak), len)
    {
      Reserve(1);
      data[len] := c;
      len := len + 1;
      data[len] := 0;
    }

    method Set(src: Text)
      requires Valid() && 0 !in src
      modifies this, data
      ensures Valid() && Contents() == src && (data == old(data) || fresh(data))
      ensures peak == Max(old(peak), len)
    {
      data[0] := 0;
      len := 0;
      Reserve(|src|);
      CopyTo(0, src);
      assert data[..][..|src|] == src;
      len := |src|;
      data[len] := 0;
    }

    /** memmove of the tail, then memcpy into the gap. */
    method Splice(offset: nat, src: Text)
      requires offset <= len && len + |src| < data.Length
      modifies data
      ensures data[..len + |src|] == old(data[..len][..offset]) + src + old(data[..len][offset..])
    {
      ghost var a := data[..];
      CopyTo(offset + |src|, data[offset..len]);
      ghost var b := data[..];
      assert b == a[..offset + |src|] + a[offset..len] + a[len + |src|..];
      CopyTo(offset, src);
      assert data[..] == b[..offset] + src + b[offset + |src|..];
      Inserted(a, b, data[..], offset, len, src);
      assert data[..][..len + |src|] == data[..len + |src|];
      assert a[..len] == old(data[..len]);
    }

    method Insert(offset: nat, src: Text)
      requires Valid() && 0 !in src && offset <= len
      modifies this, data
      ensures Valid() && (data == old(data) || fresh(data))
      ensures Contents() == old(Contents()[..offset]) + src + old(Contents()[offset..])
      ensures peak == Max(old(peak), len)
    {
      Reserve(|src|);
      Splice(offset, src);
      ghost var text := data[..len + |src|];
      assert 0 !in text;
      len := len + |src|;
      data[len] := 0;
    }
  }

  // ----- whole runs

  datatype Op = Append(text: Text) | AppendByte(c: byte) | Insert(offset: nat, text: Text) | Set(text: Text)

  /** What the callers owe: no NUL bytes, and an insertion inside the text. */
  ghost predicate Allowed(t: Text, op: Op) {
    match op
    case AppendByte(c) => c != 0
    case Insert(offset, text) => 0 !in text && offset <= |t|
    case _ => 0 !in op.text
  }

  function Apply(t: Text, op: Op): Text
    requires op.Insert? ==> op.offset <= |t|
  {
    match op
    case Append(text) => t + text
    case AppendByte(c) => t + [c]
    case Insert(offset, text) => t[..offset] + text + t[offset..]
    case Set(text) => text
  }

  ghost predicate AllAllowed(t: Text, ops: seq<Op>)
    decreases |ops|
  {
    ops == [] || (Allowed(t, ops[0]) && AllAllowed(Apply(t, ops[0]), ops[1..]))
  }

  ghost function ApplyAll(t: Text, ops: seq<Op>): Text
    requires AllAllowed(t, ops)
    decreases |ops|
  {
    if ops == [] then t else ApplyAll(Apply(t, ops[0]), ops[1..])
  }

  /** The longest text of a run. */
  ghost function Longest(t: Text, ops: seq<Op>): (r: nat)
    requires AllAllowed(t, ops)
    ensures r >= |t|
    decreases |ops|
  {
    if ops == [] then |t| else Max(|t|, Longest(Apply(t, ops[0]), ops[1..]))
  }

  /** Without cstring_set texts only grow, so the last one is the longest. */
  lemma {:induction false} LongestIsLast(t: Text, ops: seq<Op>)
    requires AllAllowed(t, ops) && forall i :: 0 <= i < |ops| ==> !ops[i].Set?
    ensures Longest(t, ops) == |ApplyAll(t, ops)|
    decreases |ops|
  {
    if ops != [] {
      LongestIsLast(Apply(t, ops[0]), ops[1..]);
    }
  }

  method Do(s: CString, op: Op)
    requires s.Valid() && Allowed(s.Contents(), op)
    modifies s, s.data
    ensures s.Valid() && (s.data == old(s.data) || fresh(s.data))
    ensures s.Contents() == Apply(old(s.Contents()), op)
    ensures s.peak == Max(old(s.peak), s.len)
  {
    match op
    case Append(text) => s.Append(text);
    case AppendByte(c) => s.AppendByte(c);
    case Insert(offset, text) => s.Insert(offset, text);
    case Set(text) => s.Set(text);
  }

  /**
   Any run on a new string. It holds the text it should; the capacity is below twice the longest text;
   all reallocations together moved less than the final capacity; and there are logarithmically many.
   */
  method Run(ops: seq<Op>) returns (s: CString)
    requires AllAllowed([], ops)
    ensures s.Valid() && s.Contents() == ApplyAll([], ops)
    ensures s.len < s.data.Length <= Max(256, 2 * Longest([], ops))
    ensures s.copied + 256 <= s.data.Length
    ensures Pow2(s.growths) * 256 <= s.data.Length
  {
    s := new CString();
    var i := 0;
    ghost var longest := Longest([], ops);
    ghost var goal := ApplyAll([], ops);
    assert ops[0..] == ops;
    while i < |ops|
      invariant 0 <= i <= |ops| && s.Valid() && fresh(s) && fresh(s.data)
      invariant AllAllowed(s.Contents(), ops[i..]) && ApplyAll(s.Contents(), ops[i..]) == goal
      invariant Max(s.peak, Longest(s.Contents(), ops[i..])) == longest
    {
      assert ops[i..][1..] == ops[i + 1..];
      Do(s, ops[i]);
      i := i + 1;
    }
  }
}
