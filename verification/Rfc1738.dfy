/** URL encoding as in section 2.2 of RFC 1738. */
module Rfc1738 {
  import opened Common
  import opened Bytes

  const PERCENT: byte := 37

  predicate IsAlnum(b: byte) {
    48 <= b <= 57 || 65 <= b <= 90 || 97 <= b <= 122
  }

  function HexDigit(n: nat): byte
    requires n < 16
  {
    if n > 9 then 55 + n else 48 + n
  }

  /** hexchar2int. */
  function HexValue(b: byte): (r: Option<nat>)
    ensures r.Some? ==> r.value < 16
  {
    if 48 <= b <= 57 then Some(b - 48)
    else if 97 <= b <= 102 then Some(b - 87)
    else if 65 <= b <= 70 then Some(b - 55)
    else None
  }

  /** A C string read at `i`: its terminator stands at the end. */
  function At(s: seq<byte>, i: nat): byte {
    if i < |s| then s[i] else 0
  }

  function EncodeByte(b: byte): seq<byte> {
    if IsAlnum(b) then [b] else [PERCENT, HexDigit(b / 16), HexDigit(b % 16)]
  }

  function Encode(s: seq<byte>): seq<byte> {
    if s == [] then [] else EncodeByte(s[0]) + Encode(s[1..])
  }

  /** The byte an escape at `i` stands for: nothing unless two hex digits follow the percent sign. */
  function Escape(s: seq<byte>, i: nat): (r: Option<byte>)
    ensures r.Some? ==> i + 3 <= |s|
  {
    if At(s, i) != PERCENT then None
    else
      match (HexValue(At(s, i + 1)), HexValue(At(s, i + 2)))
      case (Some(h), Some(l)) => Some(16 * h + l)
      case _ => None
  }

  /** The text from `i` on, decoded; nothing if it holds a bad escape. */
  function DecodeFrom(s: seq<byte>, i: nat): Option<seq<byte>>
    requires i <= |s|
    decreases |s| - i
  {
    if i == |s| then Some([])
    else if s[i] == PERCENT then
      match Escape(s, i)
      case None => None
      case Some(b) => Prepend(b, DecodeFrom(s, i + 3))
    else Prepend(s[i], DecodeFrom(s, i + 1))
  }

  function Prepend(b: byte, r: Option<seq<byte>>): Option<seq<byte>> {
    match r
    case None => None
    case Some(t) => Some([b] + t)
  }

  function Decode(s: seq<byte>): Option<seq<byte>> {
    DecodeFrom(s, 0)
  }

  // ----- what a text means, by section 2.2 of RFC 1738

  /** Two hex digits, each in either case, that spell a byte. */
  ghost predicate HexPair(high: byte, low: byte, b: byte) {
    HexChar(high, b / 16) && HexChar(low, b % 16)
  }

  /** A byte that is no percent sign stands for itself; a percent sign for the byte its two digits spell. */
  ghost predicate Means(text: seq<byte>, bytes: seq<byte>) {
    if text == [] then bytes == []
    else if text[0] != 37 then bytes != [] && bytes[0] == text[0] && Means(text[1..], bytes[1..])
    else |text| >= 3 && bytes != [] && HexPair(text[1], text[2], bytes[0]) && Means(text[3..], bytes[1..])
  }

  lemma HexValueIs(c: byte, d: nat)
    requires d < 16
    ensures HexValue(c) == Some(d) <==> HexChar(c, d)
  {
  }

  lemma EscapeIs(s: seq<byte>, i: nat, b: byte)
    ensures Escape(s, i) == Some(b) <==> i + 3 <= |s| && s[i] == 37 && HexPair(s[i + 1], s[i + 2], b)
  {
    hide HexChar;
    HexValueIs(At(s, i + 1), b / 16);
    HexValueIs(At(s, i + 2), b % 16);
    NulIsNoDigit();
  }

  lemma NulIsNoDigit()
    ensures HexValue(0) == None
  {
  }

  /** Decoding gives exactly what a text means, and fails where it means nothing. */
  lemma {:induction false} DecodeMeans(s: seq<byte>, i: nat, bytes: seq<byte>)
    requires i <= |s|
    ensures DecodeFrom(s, i) == Some(bytes) <==> Means(s[i..], bytes)
    decreases |s| - i
  {
    hide HexChar, HexPair, Escape, HexValue;
    if i < |s| {
      var rest := if bytes == [] then [] else bytes[1..];
      assert bytes != [] ==> bytes == [bytes[0]] + rest;
      assert s[i..][0] == s[i] && s[i..][1..] == s[i + 1..];
      if s[i] != 37 {
        DecodeMeans(s, i + 1, rest);
      } else {
        if bytes != [] { EscapeIs(s, i, bytes[0]); }
        if i + 3 <= |s| {
          assert s[i..][1] == s[i + 1] && s[i..][2] == s[i + 2] && s[i..][3..] == s[i + 3..];
          DecodeMeans(s, i + 3, rest);
        }
      }
    }
  }

  lemma DecodeExactly(s: seq<byte>, bytes: seq<byte>)
    ensures Decode(s) == Some(bytes) <==> Means(s, bytes)
  {
    DecodeMeans(s, 0, bytes);
    assert s[0..] == s;
  }

  /** The encoding of a byte: itself if it is a letter or digit, else an escape with upper-case digits. */
  lemma EncodeByteExactly(b: byte)
    ensures EncodeByte(b) ==
            if 48 <= b <= 57 || 65 <= b <= 90 || 97 <= b <= 122 then [b] else [37, HexCode(b / 16, true), HexCode(b % 16, true)]
  {
    UpperDigit(b / 16);
    UpperDigit(b % 16);
  }

  lemma UpperDigit(d: nat)
    requires d < 16
    ensures HexDigit(d) == HexCode(d, true)
  {
  }

  function Others(s: seq<byte>): nat {
    if s == [] then 0 else (if IsAlnum(s[0]) then 0 else 1) + Others(s[1..])
  }

  lemma {:induction false} EncodeAppend(a: seq<byte>, b: seq<byte>)
    ensures Encode(a + b) == Encode(a) + Encode(b)
  {
    if a == [] {
      assert a + b == b && [] + Encode(b) == Encode(b);
    } else {
      assert (a + b)[1..] == a[1..] + b;
      EncodeAppend(a[1..], b);
    }
  }

  lemma {:induction false} EncodedLength(s: seq<byte>)
    ensures |Encode(s)| == |s| + 2 * Others(s)
  {
    if s != [] { EncodedLength(s[1..]); }
  }

  /** The output is letters, digits and percent signs only. */
  lemma {:induction false} EncodedAlphabet(s: seq<byte>)
    ensures forall i :: 0 <= i < |Encode(s)| ==> IsAlnum(Encode(s)[i]) || Encode(s)[i] == PERCENT
  {
    if s != [] { EncodedAlphabet(s[1..]); }
  }

  /** Decoding inverts encoding for every byte string. */
  lemma {:induction false} RoundTripFrom(pre: seq<byte>, s: seq<byte>)
    ensures DecodeFrom(pre + Encode(s), |pre|) == Some(s)
    decreases |s|
  {
    var t := pre + Encode(s);
    if s != [] {
      var e := EncodeByte(s[0]);
      assert t == (pre + e) + Encode(s[1..]);
      RoundTripFrom(pre + e, s[1..]);
      EncodedAt(pre, s[0], Encode(s[1..]));
      assert s == [s[0]] + s[1..];
    }
  }

  lemma RoundTrip(s: seq<byte>)
    ensures Decode(Encode(s)) == Some(s)
  {
    RoundTripFrom([], s);
    assert [] + Encode(s) == Encode(s);
  }

  lemma {:induction false} EncodePrefix(s: seq<byte>, i: nat)
    requires i < |s|
    ensures Encode(s[..i + 1]) == Encode(s[..i]) + EncodeByte(s[i])
    ensures |Encode(s)| >= |Encode(s[..i + 1])|
  {
    assert s[..i + 1] == s[..i] + [s[i]];
    EncodeAppend(s[..i], [s[i]]);
    assert [s[i]][1..] == [];
    EncodeAppend(s[..i + 1], s[i + 1..]);
    assert s == s[..i + 1] + s[i + 1..];
  }

  lemma {:induction false} EncodeGrows(s: seq<byte>, i: nat, j: nat)
    requires i <= j <= |s|
    ensures |Encode(s[..j])| >= |Encode(s[..i])| + (j - i)
  {
    hide Encode;
    if i < j {
      EncodePrefix(s, j - 1);
      EncodeGrows(s, i, j - 1);
    }
  }

  /** The destination is full exactly before a NUL, which C takes for the end of the text. */
  ghost predicate StopsAt(src: seq<byte>, destsize: nat, i: nat) {
    i < |src| && |Encode(src[..i])| == destsize && src[i] == 0
  }

  /** If the encoding of `i` bytes is short of the destination and the next does not fit, nothing stops there. */
  lemma StopsNowhere(src: seq<byte>, destsize: nat, i: nat)
    requires i < |src| && (|Encode(src[..i])| == destsize ==> src[i] != 0)
    requires |Encode(src[..i])| <= destsize < |Encode(src[..i + 1])|
    ensures forall j: nat :: !StopsAt(src, destsize, j)
  {
    hide Encode;
    forall j | 0 <= j < |src| && |Encode(src[..j])| == destsize
      ensures j == i
    {
      if j < i { EncodeGrows(src, j, i); } else if j > i { EncodeGrows(src, i + 1, j); }
    }
  }

  /**
   rfc1738_encode. Whenever the encoding fits the destination it is produced whole. Otherwise nothing
   is, unless a NUL stands exactly where the destination is full: then the part before it. `past` tells
   whether the terminator is written behind the destination.
   */
  method EncodeInto(destsize: nat, src: seq<byte>) returns (r: Option<seq<byte>>, past: bool)
    requires destsize > 0 && src != []
    ensures |Encode(src)| <= destsize ==> r == Some(Encode(src))
    ensures |Encode(src)| > destsize ==>
              match r
              case Some(t) => exists i: nat :: StopsAt(src, destsize, i) && t == Encode(src[..i])
              case None => forall i: nat :: !StopsAt(src, destsize, i)
    ensures past <==> r.Some? && |r.value| == destsize
  {
    var i, dest := 0, [];
    assert src[..0] == [];
    while i < |src| && |dest| < destsize
      invariant 0 <= i <= |src| && dest == Encode(src[..i]) && |dest| <= destsize
    {
      EncodePrefix(src, i);
      hide Encode;
      if IsAlnum(src[i]) {
        dest := dest + [src[i]];
      } else if destsize - |dest| > 2 {
        dest := dest + [PERCENT, HexDigit(src[i] / 16), HexDigit(src[i] % 16)];
      } else {
        StopsNowhere(src, destsize, i);
        return None, false;
      }
      i := i + 1;
    }
    if i < |src| { EncodePrefix(src, i); } else { assert src[..i] == src; }
    hide Encode;
    if At(src, i) != 0 {
      StopsNowhere(src, destsize, i);
      return None, false;
    }
    if i < |src| { assert StopsAt(src, destsize, i); }
    return Some(dest), |dest| == destsize;
  }

  /** The bytes rfc1738_decode writes before it stops, at the end, a bad escape or a full destination. */
  function Put(s: seq<byte>, i: nat, room: nat): (r: seq<byte>)
    requires i <= |s|
    ensures |r| <= room
    decreases |s| - i
  {
    if room == 0 || i == |s| then []
    else if s[i] == PERCENT then
      match Escape(s, i)
      case None => []
      case Some(b) => [b] + Put(s, i + 3, room - 1)
    else [s[i]] + Put(s, i + 1, room - 1)
  }

  /**
   rfc1738_decode of a whole C string: it fails exactly on a bad escape or when the result and its
   terminator do not fit. The remaining length never drops below zero. `put` is what it wrote in any case.
   */
  method DecodeInto(destsize: nat, src: seq<byte>) returns (r: Option<seq<byte>>, put: seq<byte>)
    ensures r == var d := Decode(src); if d.Some? && |d.value| < destsize then d else None
    ensures forall bytes :: r == Some(bytes) <==> Means(src, bytes) && |bytes| < destsize
    ensures put == Put(src, 0, destsize) && (r.Some? ==> put == r.value)
  {
    var i, dest := 0, [];
    ghost var goal, all := Decode(src), Put(src, 0, destsize);
    forall bytes ensures goal == Some(bytes) <==> Means(src, bytes) { DecodeExactly(src, bytes); }
    hide Means;
    JoinedNothing(goal);
    assert [] + all == all;
    while |dest| < destsize && i < |src|
      invariant 0 <= i <= |src| && |dest| <= destsize
      invariant goal == Joined(dest, DecodeFrom(src, i))
      invariant all == dest + Put(src, i, destsize - |dest|)
    {
      if src[i] == PERCENT {
        var c := Escape(src, i);
        if c.None? {
          assert dest + [] == dest;
          return None, dest;
        }
        JoinedStep(dest, c.value, DecodeFrom(src, i + 3));
        Assoc(dest, [c.value], Put(src, i + 3, destsize - |dest| - 1));
        dest := dest + [c.value];
        i := i + 3;
      } else {
        JoinedStep(dest, src[i], DecodeFrom(src, i + 1));
        Assoc(dest, [src[i]], Put(src, i + 1, destsize - |dest| - 1));
        dest := dest + [src[i]];
        i := i + 1;
      }
    }
    assert dest + [] == dest;
    if |dest| == destsize { return None, dest; }
    return Some(dest), dest;
  }

  /** What was written is the meaning of a part of the text, which ends where it is said to. */
  lemma {:induction false} PutMeans(s: seq<byte>, i: nat, room: nat) returns (j: nat)
    requires i <= |s|
    ensures i <= j <= |s| && Means(s[i..j], Put(s, i, room))
    ensures |Put(s, i, room)| == room || j == |s| || (s[j] == 37 && forall b: byte :: Escape(s, j) != Some(b))
    decreases |s| - i
  {
    hide HexPair, Escape;
    j := i;
    if room > 0 && i < |s| {
      if s[i] != 37 {
        j := PutMeans(s, i + 1, room - 1);
        assert s[i..j][0] == s[i] && s[i..j][1..] == s[i + 1..j];
      } else if Escape(s, i).Some? {
        EscapeIs(s, i, Escape(s, i).value);
        j := PutMeans(s, i + 3, room - 1);
        assert s[i..j][1] == s[i + 1] && s[i..j][2] == s[i + 2] && s[i..j][3..] == s[i + 3..j];
      }
    }
  }

  lemma {:induction false} PutOne(pre: seq<byte>, b: byte, rest: seq<byte>, room: nat)
    requires room > 0
    ensures var e := EncodeByte(b); var t := pre + e + rest;
            Put(t, |pre|, room) == [b] + Put(t, |pre + e|, room - 1)
  {
    EncodedAt(pre, b, rest);
  }

  lemma PutNone(t: seq<byte>, i: nat, room: nat)
    requires i <= |t|
    ensures i == |t| || room == 0 ==> Put(t, i, room) == []
  {
  }

  /** Of an encoding, as many bytes are decoded as there is room for. */
  lemma {:induction false} PutEncoded(pre: seq<byte>, s: seq<byte>, room: nat)
    ensures Put(pre + Encode(s), |pre|, room) == if |s| < room then s else s[..room]
    decreases |s|
  {
    hide Put, EncodeByte;
    PutNone(pre + Encode(s), |pre|, room);
    if s != [] && room > 0 {
      var e := EncodeByte(s[0]);
      Assoc(pre, e, Encode(s[1..]));
      PutEncoded(pre + e, s[1..], room - 1);
      PutOne(pre, s[0], Encode(s[1..]), room);
      assert s == [s[0]] + s[1..];
    }
  }

  /** The first byte of an encoding, in place. */
  lemma EncodedAt(pre: seq<byte>, b: byte, rest: seq<byte>)
    ensures var t := pre + EncodeByte(b) + rest; var i := |pre|;
            && i < |t|
            && (IsAlnum(b) ==> t[i] == b && t[i] != PERCENT)
            && (!IsAlnum(b) ==> t[i] == PERCENT && Escape(t, i) == Some(b))
  {
    var t, e := pre + EncodeByte(b) + rest, EncodeByte(b);
    assert t[|pre|] == e[0];
    if !IsAlnum(b) { assert t[|pre| + 1] == e[1] && t[|pre| + 2] == e[2]; }
  }

  lemma JoinedNothing(r: Option<seq<byte>>)
    ensures Joined([], r) == r
  {
    if r.Some? { assert [] + r.value == r.value; }
  }

  ghost function Joined(a: seq<byte>, r: Option<seq<byte>>): Option<seq<byte>> {
    match r
    case None => None
    case Some(t) => Some(a + t)
  }

  lemma JoinedStep(a: seq<byte>, b: byte, r: Option<seq<byte>>)
    ensures Joined(a, Prepend(b, r)) == Joined(a + [b], r)
  {
    if r.Some? { assert a + ([b] + r.value) == a + [b] + r.value; }
  }
}
