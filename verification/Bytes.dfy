/** Bytes and the byte orders of the wire format. */
module Bytes {

  type byte = b: int | 0 <= b < 256

  /** A C string: its bytes before the terminator. */
  type Text = seq<byte>

  const TWO64: nat := 0x1_0000_0000_0000_0000

  /** strchr: the first place of `c`, or the end. */
  function Find(s: Text, c: byte): (r: nat)
    ensures r <= |s| && (r < |s| ==> s[r] == c)
    ensures forall k :: 0 <= k < r ==> s[k] != c
  {
    if s == [] || s[0] == c then 0 else 1 + Find(s[1..], c)
  }

  lemma FindIs(s: Text, c: byte, j: nat)
    requires j <= |s| && (j < |s| ==> s[j] == c) && forall k :: 0 <= k < j ==> s[k] != c
    ensures Find(s, c) == j
  {
    assert Find(s, c) <= j;
    assert Find(s, c) >= j;
  }

  /** The C string in a buffer: everything before the first NUL. */
  function BeforeNul(s: Text): Text {
    s[..Find(s, 0)]
  }

  lemma BeforeNulWhole(s: Text)
    requires 0 !in s
    ensures BeforeNul(s) == s
  {
    FindIs(s, 0, |s|);
    assert s[..|s|] == s;
  }

  // ----- hexadecimal digits, as the standards list them

  const LOWER_HEX := "0123456789abcdef"
  const UPPER_HEX := "0123456789ABCDEF"

  /** `b` is the character of the digit `d`, in either case. */
  predicate HexChar(b: byte, d: nat)
    requires d < 16
  {
    b == LOWER_HEX[d] as int || b == UPPER_HEX[d] as int
  }

  function HexCode(d: nat, upper: bool): (b: byte)
    requires d < 16
    ensures HexChar(b, d)
  {
    if upper then UPPER_HEX[d] as int else LOWER_HEX[d] as int
  }

  // ----- byte orders

  function Pow256(k: nat): (r: nat)
    ensures r > 0
  {
    if k == 0 then 1 else 256 * Pow256(k - 1)
  }

  /** Network byte order: the `w` bytes of `n`, most significant first. */
  function BigEndian(n: nat, w: nat): (s: seq<byte>)
    ensures |s| == w
  {
    if w == 0 then [] else BigEndian(n / 256, w - 1) + [n % 256]
  }

  /** How a little-endian host keeps `n` in `w` bytes of memory. */
  function LittleEndian(n: nat, w: nat): (s: seq<byte>)
    ensures |s| == w
  {
    if w == 0 then [] else [n % 256] + LittleEndian(n / 256, w - 1)
  }

  function FromBigEndian(s: seq<byte>): nat {
    if s == [] then 0 else 256 * FromBigEndian(s[..|s| - 1]) + s[|s| - 1]
  }

  function FromLittleEndian(s: seq<byte>): nat {
    if s == [] then 0 else s[0] + 256 * FromLittleEndian(s[1..])
  }

  lemma {:induction false} BigEndianInverse(n: nat, w: nat)
    requires n < Pow256(w)
    ensures FromBigEndian(BigEndian(n, w)) == n
  {
    if w > 0 {
      BigEndianInverse(n / 256, w - 1);
      var s := BigEndian(n, w);
      assert s[..|s| - 1] == BigEndian(n / 256, w - 1);
    }
  }

  lemma {:induction false} FromBigEndianInverse(s: seq<byte>)
    ensures FromBigEndian(s) < Pow256(|s|) && BigEndian(FromBigEndian(s), |s|) == s
  {
    if s != [] {
      FromBigEndianInverse(s[..|s| - 1]);
      var k := FromBigEndian(s[..|s| - 1]);
      assert (256 * k + s[|s| - 1]) / 256 == k && (256 * k + s[|s| - 1]) % 256 == s[|s| - 1];
      assert s == s[..|s| - 1] + [s[|s| - 1]];
    }
  }

  lemma {:induction false} LittleEndianInverse(s: seq<byte>)
    ensures FromLittleEndian(s) < Pow256(|s|) && LittleEndian(FromLittleEndian(s), |s|) == s
  {
    if s != [] {
      LittleEndianInverse(s[1..]);
      var k := FromLittleEndian(s[1..]);
      assert (s[0] + 256 * k) / 256 == k && (s[0] + 256 * k) % 256 == s[0];
      assert s == [s[0]] + s[1..];
    }
  }

  // ----- the conversions of connection.c on a little-endian host

  /** htons, htonl: the host integer whose memory holds the network bytes of `n`. */
  function HostToNet(n: nat, w: nat): nat {
    FromLittleEndian(BigEndian(n, w))
  }

  /** ntohs, ntohl. */
  function NetToHost(n: nat, w: nat): nat {
    FromBigEndian(LittleEndian(n, w))
  }

  const TWO32: nat := 0x1_0000_0000

  /** htonll, built from two 32-bit conversions. */
  function Htonll(n: nat): nat {
    HostToNet(n % TWO32, 4) * TWO32 + HostToNet(n / TWO32, 4)
  }

  function Ntohll(n: nat): nat {
    NetToHost(n % TWO32, 4) * TWO32 + NetToHost(n / TWO32, 4)
  }

  lemma {:induction false} BigEndianSplit(hi: nat, lo: nat, v: nat, w: nat)
    requires lo < Pow256(w)
    ensures BigEndian(hi * Pow256(w) + lo, v + w) == BigEndian(hi, v) + BigEndian(lo, w)
  {
    if w == 0 {
      assert BigEndian(lo, w) == [];
    } else {
      var p := Pow256(w - 1);
      var n := hi * Pow256(w) + lo;
      assert n == 256 * (hi * p) + lo;
      assert n / 256 == hi * p + lo / 256 && n % 256 == lo % 256;
      BigEndianSplit(hi, lo / 256, v, w - 1);
    }
  }

  lemma {:induction false} LittleEndianSplit(hi: nat, lo: nat, v: nat, w: nat)
    requires lo < Pow256(w)
    ensures LittleEndian(hi * Pow256(w) + lo, v + w) == LittleEndian(lo, w) + LittleEndian(hi, v)
  {
    if w == 0 {
      assert LittleEndian(lo, w) == [];
    } else {
      var p := Pow256(w - 1);
      var n := hi * Pow256(w) + lo;
      assert n == 256 * (hi * p) + lo;
      assert n / 256 == hi * p + lo / 256 && n % 256 == lo % 256;
      LittleEndianSplit(hi, lo / 256, v, w - 1);
    }
  }

  lemma Pow256Four()
    ensures Pow256(4) == TWO32
  {
    assert Pow256(2) == 65536;
  }

  /** The memory of the converted integer is the network byte order: 16 and 32 bits. */
  lemma HostToNetBytes(n: nat, w: nat)
    ensures HostToNet(n, w) < Pow256(w) && LittleEndian(HostToNet(n, w), w) == BigEndian(n, w)
  {
    LittleEndianInverse(BigEndian(n, w));
  }

  /** The same for 64 bits, where the halves are swapped as well. */
  lemma HtonllBytes(n: nat)
    requires n < Pow256(8)
    ensures LittleEndian(Htonll(n), 8) == BigEndian(n, 8)
  {
    Pow256Four();
    var hi, lo := n / TWO32, n % TWO32;
    HostToNetBytes(hi, 4);
    HostToNetBytes(lo, 4);
    LittleEndianSplit(HostToNet(lo, 4), HostToNet(hi, 4), 4, 4);
    BigEndianSplit(hi, lo, 4, 4);
    assert n == hi * TWO32 + lo;
  }

  lemma ScaleProduct(p: int, n: int)
    ensures 256 * (p * n) == (256 * p) * n
    ensures 256 * (n * p) == n * (256 * p)
  {
  }

  lemma {:induction false} FromLittleEndianAppend(a: seq<byte>, b: seq<byte>)
    ensures FromLittleEndian(a + b) == FromLittleEndian(a) + Pow256(|a|) * FromLittleEndian(b)
  {
    if a == [] {
      assert a + b == b;
    } else {
      assert (a + b)[1..] == a[1..] + b;
      FromLittleEndianAppend(a[1..], b);
      var p, n, k := Pow256(|a| - 1), FromLittleEndian(b), FromLittleEndian(a[1..]);
      assert FromLittleEndian(a + b) == a[0] + 256 * (k + p * n);
      assert FromLittleEndian(a) == a[0] + 256 * k && Pow256(|a|) == 256 * p;
      hide *;
      ScaleProduct(p, n);
    }
  }

  lemma {:induction false} FromBigEndianAppend(a: seq<byte>, b: seq<byte>)
    ensures FromBigEndian(a + b) == FromBigEndian(a) * Pow256(|b|) + FromBigEndian(b)
  {
    if b == [] {
      assert a + b == a;
    } else {
      var b' := b[..|b| - 1];
      assert (a + b)[..|a + b| - 1] == a + b';
      FromBigEndianAppend(a, b');
      var p, n, k := Pow256(|b'|), FromBigEndian(a), FromBigEndian(b');
      assert FromBigEndian(a + b) == 256 * (n * p + k) + b[|b| - 1];
      assert FromBigEndian(b) == 256 * k + b[|b| - 1] && Pow256(|b|) == 256 * p;
      hide *;
      ScaleProduct(p, n);
    }
  }

  /** Reading 64 network bytes into host memory and converting gives the number back. */
  lemma NtohllBytes(s: seq<byte>)
    requires |s| == 8
    ensures Ntohll(FromLittleEndian(s)) == FromBigEndian(s)
  {
    hide FromBigEndian, FromLittleEndian, LittleEndian, Pow256;
    Pow256Four();
    var a, b := s[..4], s[4..];
    assert s == a + b;
    LittleEndianInverse(a);
    LittleEndianInverse(b);
    FromLittleEndianAppend(a, b);
    FromBigEndianAppend(a, b);
    var la, lb := FromLittleEndian(a), FromLittleEndian(b);
    assert (la + TWO32 * lb) % TWO32 == la && (la + TWO32 * lb) / TWO32 == lb;
  }

  /** And for 16 and 32 bits. */
  lemma NetToHostBytes(s: seq<byte>)
    ensures NetToHost(FromLittleEndian(s), |s|) == FromBigEndian(s)
  {
    LittleEndianInverse(s);
  }
}
