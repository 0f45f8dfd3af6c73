/**
 The tag/length/value format of the beep protocol: a self-delimiting code, its writers and its
 readers over a buffered connection.
 */
module BeepCodec {
  import opened Common
  import opened Bytes
  import opened Connection

  datatype Kind =
    | I8 | U8 | I16 | U16 | I32 | U32 | I64 | U64 | DATETIME | BOOL
    | STRING | BLOB | NULL | ARRAYSTART | ARRAYEND | OBJECTSTART | OBJECTEND

  datatype Shape = Numeric(width: nat, signed: bool) | Truth | Sized | Bare

  function ShapeOf(k: Kind): Shape {
    match k
    case I8 => Numeric(1, true)
    case U8 => Numeric(1, false)
    case I16 => Numeric(2, true)
    case U16 => Numeric(2, false)
    case I32 => Numeric(4, true)
    case U32 => Numeric(4, false)
    case I64 => Numeric(8, true)
    case U64 => Numeric(8, false)
    case DATETIME => Numeric(8, true)
    case BOOL => Truth
    case STRING => Sized
    case BLOB => Sized
    case _ => Bare
  }

  function Tag(k: Kind): byte {
    match k
    case I8 => 'c' as int
    case U8 => 'C' as int
    case I16 => 'h' as int
    case U16 => 'H' as int
    case I32 => 'i' as int
    case U32 => 'I' as int
    case I64 => 'l' as int
    case U64 => 'L' as int
    case DATETIME => 'D' as int
    case BOOL => 'b' as int
    case STRING => 'Q' as int
    case BLOB => 'X' as int
    case NULL => 'Z' as int
    case ARRAYSTART => '[' as int
    case ARRAYEND => ']' as int
    case OBJECTSTART => '{' as int
    case OBJECTEND => '}' as int
  }

  datatype Value =
    | Number(kind: Kind, n: int)
    | Flag(b: bool)
    | Data(kind: Kind, s: seq<byte>)
    | Mark(kind: Kind)
  {
    function KindOf(): Kind {
      if Flag? then BOOL else kind
    }

    /** In the range of its C type; strings and blobs non-empty and below 4 GB. */
    ghost predicate Valid() {
      match this
      case Number(k, n) => ShapeOf(k).Numeric? && InRange(ShapeOf(k), n)
      case Flag(_) => true
      case Data(k, s) => ShapeOf(k) == Sized && 0 < |s| < Pow256(4)
      case Mark(k) => ShapeOf(k) == Bare
    }

    /** Fits the destination a reader offers; a string needs room for its terminator. */
    ghost predicate Fits(destsize: nat) {
      Data? ==> |s| + (if kind == STRING then 1 else 0) <= destsize
    }
  }

  predicate Room(k: Kind, len: nat, destsize: nat) {
    if k == STRING then len < destsize else len <= destsize
  }

  ghost predicate InRange(shape: Shape, n: int)
    requires shape.Numeric?
  {
    var m := Pow256(shape.width);
    if shape.signed then -(m / 2) <= n < m / 2 else 0 <= n < m
  }

  /** The cast to the unsigned type of the same width. */
  function ToUnsigned(n: int, w: nat): (u: nat)
    ensures u < Pow256(w)
  {
    n % Pow256(w)
  }

  /** The same bits read as the type of the shape. */
  function FromUnsigned(shape: Shape, u: nat): int
    requires shape.Numeric?
  {
    var m := Pow256(shape.width);
    if shape.signed && u >= m / 2 then u - m else u
  }

  lemma PowEven(w: nat)
    requires w > 0
    ensures Pow256(w) % 2 == 0 && Pow256(w) >= 256
  {
    assert Pow256(w) == 256 * Pow256(w - 1);
  }

  lemma CastInverse(shape: Shape, n: int)
    requires shape.Numeric? && shape.width > 0 && InRange(shape, n)
    ensures FromUnsigned(shape, ToUnsigned(n, shape.width)) == n
  {
    var m := Pow256(shape.width);
    PowEven(shape.width);
    if n < 0 { ModNegative(n, m); } else { ModSmall(n, m); }
  }

  lemma CastRange(shape: Shape, u: nat)
    requires shape.Numeric? && shape.width > 0 && u < Pow256(shape.width)
    ensures InRange(shape, FromUnsigned(shape, u)) && ToUnsigned(FromUnsigned(shape, u), shape.width) == u
  {
    var m := Pow256(shape.width);
    PowEven(shape.width);
    if shape.signed && u >= m / 2 { ModNegative(u - m, m); } else { ModSmall(u, m); }
  }

  lemma ModSmall(n: int, m: nat)
    requires 0 <= n < m
    ensures n % m == n
  {
  }

  lemma ModNegative(n: int, m: int)
    requires m > 0 && -m <= n < 0
    ensures n % m == n + m
  {
    assert n == (-1) * m + (n + m);
  }

  function FlagByte(b: bool): byte {
    if b then 't' as int else 'f' as int
  }

  function Payload(v: Value): seq<byte> {
    match v
    case Number(k, n) =>
      var w := if ShapeOf(k).Numeric? then ShapeOf(k).width else 0;
      BigEndian(ToUnsigned(n, w), w)
    case Flag(b) => [FlagByte(b)]
    case Data(_, s) => BigEndian(|s|, 4) + s
    case Mark(_) => []
  }

  function Encode(v: Value): seq<byte> {
    [Tag(v.KindOf())] + Payload(v)
  }

  function EncodeAll(vs: seq<Value>): seq<byte> {
    if vs == [] then [] else Encode(vs[0]) + EncodeAll(vs[1..])
  }

  // ----- the bytes on the wire, one kind at a time

  /** A number of 16, 32 or 64 bits, most significant byte first. */
  function Wire16(n: nat): seq<byte>
    requires n < 65536
  {
    [n / 256, n % 256]
  }

  function Wire32(n: nat): seq<byte>
    requires n < 4294967296
  {
    Wire16(n / 65536) + Wire16(n % 65536)
  }

  function Wire64(n: nat): seq<byte>
    requires n < 18446744073709551616
  {
    Wire32(n / 4294967296) + Wire32(n % 4294967296)
  }

  /** The ranges of the C types. */
  ghost predicate InTypeRange(v: Value) {
    match v
    case Number(I8, n) => -128 <= n < 128
    case Number(U8, n) => 0 <= n < 256
    case Number(I16, n) => -32768 <= n < 32768
    case Number(U16, n) => 0 <= n < 65536
    case Number(I32, n) => -2147483648 <= n < 2147483648
    case Number(U32, n) => 0 <= n < 4294967296
    case Number(I64, n) => -9223372036854775808 <= n < 9223372036854775808
    case Number(U64, n) => 0 <= n < 18446744073709551616
    case Number(DATETIME, n) => -9223372036854775808 <= n < 9223372036854775808
    case Flag(_) => true
    case Data(STRING, s) => 0 < |s| < 4294967296
    case Data(BLOB, s) => 0 < |s| < 4294967296
    case Mark(NULL) => true
    case Mark(ARRAYSTART) => true
    case Mark(ARRAYEND) => true
    case Mark(OBJECTSTART) => true
    case Mark(OBJECTEND) => true
    case _ => false
  }

  /** Two's complement: a negative number is sent as itself plus the modulus of its type. */
  function Complement(n: int, modulus: int): (u: nat)
    requires -modulus <= n < modulus
  {
    if n < 0 then n + modulus else n
  }

  /** What each writer puts on the wire: cC, hH, iI, lL and D for numbers, bt or bf, Q and X with a length, Z and brackets. */
  ghost function Wire(v: Value): seq<byte>
    requires InTypeRange(v)
  {
    match v
    case Number(I8, n) => [99, Complement(n, 256)]
    case Number(U8, n) => [67, n]
    case Number(I16, n) => [104] + Wire16(Complement(n, 65536))
    case Number(U16, n) => [72] + Wire16(n)
    case Number(I32, n) => [105] + Wire32(Complement(n, 4294967296))
    case Number(U32, n) => [73] + Wire32(n)
    case Number(I64, n) => [108] + Wire64(Complement(n, 18446744073709551616))
    case Number(U64, n) => [76] + Wire64(n)
    case Number(DATETIME, n) => [68] + Wire64(Complement(n, 18446744073709551616))
    case Flag(b) => [98, if b then 116 else 102]
    case Data(STRING, s) => [81] + (Wire32(|s|) + s)
    case Data(BLOB, s) => [88] + (Wire32(|s|) + s)
    case Mark(NULL) => [90]
    case Mark(ARRAYSTART) => [91]
    case Mark(ARRAYEND) => [93]
    case Mark(OBJECTSTART) => [123]
    case Mark(OBJECTEND) => [125]
  }

  lemma Powers()
    ensures Pow256(1) == 256 && Pow256(2) == 65536 && Pow256(4) == 4294967296 && Pow256(8) == 18446744073709551616
  {
    assert Pow256(1) == 256 * Pow256(0) && Pow256(2) == 256 * Pow256(1);
    assert Pow256(3) == 256 * Pow256(2) && Pow256(4) == 256 * Pow256(3) && Pow256(5) == 256 * Pow256(4);
    assert Pow256(6) == 256 * Pow256(5) && Pow256(7) == 256 * Pow256(6) && Pow256(8) == 256 * Pow256(7);
  }

  lemma ValidExactly(v: Value)
    ensures v.Valid() <==> InTypeRange(v)
  {
    Powers();
    hide Pow256;
  }

  lemma WireOrder(n: nat)
    ensures n < 65536 ==> BigEndian(n, 2) == Wire16(n)
    ensures n < 4294967296 ==> BigEndian(n, 4) == Wire32(n)
    ensures n < 18446744073709551616 ==> BigEndian(n, 8) == Wire64(n)
  {
    Powers();
    hide Pow256;
    if n < 18446744073709551616 {
      BigEndianSplit(n / 4294967296, n % 4294967296, 4, 4);
      Quarters(n / 4294967296);
      Quarters(n % 4294967296);
    }
    if n < 4294967296 { Quarters(n); }
    if n < 65536 { Pairs(n); }
  }

  lemma Quarters(n: nat)
    requires n < 4294967296
    ensures BigEndian(n, 4) == Wire32(n)
  {
    Powers();
    hide Pow256, BigEndian;
    BigEndianSplit(n / 65536, n % 65536, 2, 2);
    Pairs(n / 65536);
    Pairs(n % 65536);
  }

  lemma Pairs(n: nat)
    requires n < 65536
    ensures BigEndian(n, 2) == Wire16(n)
  {
    assert BigEndian(n, 2) == BigEndian(n / 256, 1) + [n % 256];
    assert BigEndian(n / 256, 1) == BigEndian(n / 256 / 256, 0) + [n / 256 % 256];
  }

  lemma ComplementIs(n: int, m: int)
    requires m > 0 && -m <= n < m
    ensures n % m == Complement(n, m)
  {
    if n < 0 { ModNegative(n, m); } else { ModSmall(n, m); }
  }

  /** The model's encoding is what goes over the wire, for every kind. */
  lemma EncodeIsWire(v: Value)
    requires v.Valid()
    ensures InTypeRange(v) && Encode(v) == Wire(v)
  {
    ValidExactly(v);
    match v
    case Number(k, n) => NumberIsWire(v);
    case Data(_, s) =>
      WireOrder(|s|);
      hide BigEndian, Wire32;
    case _ =>
  }

  lemma NumberIsWire(v: Value)
    requires v.Number? && v.Valid() && InTypeRange(v)
    ensures Encode(v) == Wire(v)
  {
    Powers();
    var w := ShapeOf(v.kind).width;
    var m := Pow256(w);
    ComplementIs(v.n, m);
    var u := ToUnsigned(v.n, w);
    WireOrder(u);
    if w == 1 { OneByte(u); ModSmall(u, 256); }
    hide BigEndian, Pow256, Wire64, Wire32, Wire16;
  }

  // ----- the code is self-delimiting

  lemma TagsDiffer(j: Kind, k: Kind)
    ensures Tag(j) == Tag(k) ==> j == k
  {
  }

  lemma BigEndianInjective(m: nat, n: nat, w: nat)
    requires m < Pow256(w) && n < Pow256(w) && BigEndian(m, w) == BigEndian(n, w)
    ensures m == n
  {
    BigEndianInverse(m, w);
    BigEndianInverse(n, w);
  }

  lemma SamePrefix<T>(a: seq<T>, x: seq<T>, b: seq<T>, y: seq<T>)
    requires a + x == b + y && |a| == |b|
    ensures a == b && x == y
  {
    assert a == (a + x)[..|a|] && b == (b + y)[..|b|];
    assert x == (a + x)[|a|..] && y == (b + y)[|b|..];
  }

  /** A stream starts with at most one value: the tag fixes its kind, and that its length. */
  lemma DecodesUniquely(a: Value, x: seq<byte>, b: Value, y: seq<byte>)
    requires a.Valid() && b.Valid() && Encode(a) + x == Encode(b) + y
    ensures a == b && x == y
  {
    hide BigEndian, Pow256, Tag;
    var tag, other := [Tag(a.KindOf())], [Tag(b.KindOf())];
    Assoc(tag, Payload(a), x);
    Assoc(other, Payload(b), y);
    SamePrefix(tag, Payload(a) + x, other, Payload(b) + y);
    TagsDiffer(a.KindOf(), b.KindOf());
    match a
    case Number(k, n) =>
      var shape := ShapeOf(k);
      SamePrefix(Payload(a), x, Payload(b), y);
      BigEndianInjective(ToUnsigned(n, shape.width), ToUnsigned(b.n, shape.width), shape.width);
      CastInverse(shape, n);
      CastInverse(shape, b.n);
    case Flag(_) => SamePrefix(Payload(a), x, Payload(b), y);
    case Data(_, s) =>
      Assoc(BigEndian(|s|, 4), s, x);
      Assoc(BigEndian(|b.s|, 4), b.s, y);
      SamePrefix(BigEndian(|s|, 4), s + x, BigEndian(|b.s|, 4), b.s + y);
      BigEndianInjective(|s|, |b.s|, 4);
      SamePrefix(s, x, b.s, y);
    case Mark(_) => SamePrefix(Payload(a), x, Payload(b), y);
  }

  ghost predicate AllValid(vs: seq<Value>) {
    forall i :: 0 <= i < |vs| ==> vs[i].Valid()
  }

  /** The same for sequences: how a stream splits into so many values is fixed by its bytes. */
  lemma {:induction false} SelfDelimiting(vs: seq<Value>, x: seq<byte>, ws: seq<Value>, y: seq<byte>)
    requires AllValid(vs) && AllValid(ws) && |vs| == |ws|
    requires EncodeAll(vs) + x == EncodeAll(ws) + y
    ensures vs == ws && x == y
  {
    hide Encode, Value.Valid;
    if vs == [] {
      assert x == EncodeAll(vs) + x && y == EncodeAll(ws) + y;
    } else {
      Assoc(Encode(vs[0]), EncodeAll(vs[1..]), x);
      Assoc(Encode(ws[0]), EncodeAll(ws[1..]), y);
      DecodesUniquely(vs[0], EncodeAll(vs[1..]) + x, ws[0], EncodeAll(ws[1..]) + y);
      SelfDelimiting(vs[1..], x, ws[1..], y);
      assert vs == [vs[0]] + vs[1..] && ws == [ws[0]] + ws[1..];
    }
  }

  /** And without knowing how many: an encoding belongs to one sequence of values. */
  lemma {:induction false} EncodingDetermines(vs: seq<Value>, ws: seq<Value>)
    requires AllValid(vs) && AllValid(ws) && EncodeAll(vs) == EncodeAll(ws)
    ensures vs == ws
  {
    hide Encode, Value.Valid;
    if vs != [] { EncodeNotEmpty(vs[0]); }
    if ws != [] { EncodeNotEmpty(ws[0]); }
    if vs != [] && ws != [] {
      DecodesUniquely(vs[0], EncodeAll(vs[1..]), ws[0], EncodeAll(ws[1..]));
      EncodingDetermines(vs[1..], ws[1..]);
      assert vs == [vs[0]] + vs[1..] && ws == [ws[0]] + ws[1..];
    }
  }

  lemma EncodeNotEmpty(v: Value)
    ensures Encode(v) != []
  {
  }

  // ----- writers

  /** connection_write_u16, _u32 and _u64: the memory of the converted integer is written. */
  method WriteUint(conn: Conn, n: nat, w: nat) returns (ok: bool)
    requires conn.Separate() && conn.WriteInv() && (w == 2 || w == 4 || w == 8) && n < Pow256(w)
    modifies conn`outgoing, conn`written, conn`writeFailed, conn.sock`writeEvents, conn.sock`sent, conn.writebuf, conn.writebuf.data
    ensures conn.WriteInv() && conn.written == old(conn.written) + BigEndian(n, w)
    ensures Wrote(ok, old(conn.writeFailed), conn.writeFailed, conn.sock.sent, conn.written)
    ensures Roomy(old(conn.writebuf.Contents()), BigEndian(n, w), conn.writebuf.data.Length) ==>
              ok && Gathered(old(conn.writebuf.Contents()), BigEndian(n, w), conn.writebuf.Contents(),
                             old(conn.sock.writeEvents), conn.sock.writeEvents)
  {
    var memory := LittleEndian(if w == 8 then Htonll(n) else HostToNet(n, w), w);
    assert memory == BigEndian(n, w) by { if w == 8 { HtonllBytes(n); } else { HostToNetBytes(n, w); } }
    ok := conn.Write(memory);
  }

  /** What every writer promises about failure: the first one leaves a prefix of the stream sent. */
  ghost predicate Wrote(ok: bool, failedBefore: bool, failed: bool, sent: seq<byte>, written: seq<byte>) {
    && (ok ==> failed == failedBefore)
    && (!ok ==> failed && (!failedBefore ==> sent <= written))
  }

  /** What is to be written fits behind what is in the buffer. */
  ghost predicate Roomy(held: seq<byte>, s: seq<byte>, size: nat) {
    |held| + |s| <= size
  }

  /** Then it is only buffered, and no event is used. */
  ghost predicate Gathered<E>(held: seq<byte>, s: seq<byte>, now: seq<byte>, events: seq<E>, later: seq<E>) {
    now == held + s && later == events
  }

  lemma GatheredTwice(held: seq<byte>, a: seq<byte>, b: seq<byte>, size: nat)
    ensures Roomy(held, a + b, size) <==> Roomy(held, a, size) && Roomy(held + a, b, size)
    ensures held + (a + b) == held + a + b
  {
  }

  /** The writebuf functions: a tag, then the payload. */
  method WriteValue(conn: Conn, v: Value) returns (ok: bool)
    requires conn.Separate() && conn.WriteInv() && v.Valid()
    modifies conn`outgoing, conn`written, conn`writeFailed, conn.sock`writeEvents, conn.sock`sent, conn.writebuf, conn.writebuf.data
    ensures conn.WriteInv() && (ok ==> conn.written == old(conn.written) + Encode(v))
    ensures Wrote(ok, old(conn.writeFailed), conn.writeFailed, conn.sock.sent, conn.written)
    ensures ok ==> InTypeRange(v) && conn.written == old(conn.written) + Wire(v)
    ensures !ok ==> old(conn.written) <= conn.written <= old(conn.written) + Encode(v)
    ensures Roomy(old(conn.writebuf.Contents()), Encode(v), conn.writebuf.data.Length) ==>
              ok && Gathered(old(conn.writebuf.Contents()), Encode(v), conn.writebuf.Contents(),
                             old(conn.sock.writeEvents), conn.sock.writeEvents)
  {
    EncodeIsWire(v);
    hide BigEndian, Pow256, Payload, Value.Valid, Wire, InTypeRange;
    var tag := [Tag(v.KindOf())];
    Assoc(conn.written, tag, Payload(v));
    GatheredTwice(conn.writebuf.Contents(), tag, Payload(v), conn.writebuf.data.Length);
    ok := conn.Write(tag);
    if !ok { return; }
    ok := WritePayload(conn, v);
  }

  /** In one or two writes, or none. */
  method WritePayload(conn: Conn, v: Value) returns (ok: bool)
    requires conn.Separate() && conn.WriteInv() && v.Valid()
    modifies conn`outgoing, conn`written, conn`writeFailed, conn.sock`writeEvents, conn.sock`sent, conn.writebuf, conn.writebuf.data
    ensures conn.WriteInv() && (ok ==> conn.written == old(conn.written) + Payload(v))
    ensures Wrote(ok, old(conn.writeFailed), conn.writeFailed, conn.sock.sent, conn.written)
    ensures !ok ==> old(conn.written) <= conn.written <= old(conn.written) + Payload(v)
    ensures Roomy(old(conn.writebuf.Contents()), Payload(v), conn.writebuf.data.Length) ==>
              ok && Gathered(old(conn.writebuf.Contents()), Payload(v), conn.writebuf.Contents(),
                             old(conn.sock.writeEvents), conn.sock.writeEvents)
  {
    hide BigEndian, Pow256;
    match v
    case Number(k, n) =>
      var w := ShapeOf(k).width;
      if w == 1 {
        OneByte(ToUnsigned(n, 1));
        ok := conn.Write([ToUnsigned(n, 1) % 256]);
      } else {
        ok := WriteUint(conn, ToUnsigned(n, w), w);
      }
    case Flag(b) =>
      ok := conn.Write([FlagByte(b)]);
    case Data(_, s) =>
      Assoc(conn.written, BigEndian(|s|, 4), s);
      GatheredTwice(conn.writebuf.Contents(), BigEndian(|s|, 4), s, conn.writebuf.data.Length);
      ok := WriteUint(conn, |s|, 4);
      if !ok { return; }
      ok := conn.Write(s);
    case Mark(_) =>
      assert conn.written + [] == conn.written && conn.writebuf.Contents() + [] == conn.writebuf.Contents();
      ok := true;
  }

  lemma OneByte(u: nat)
    requires u < Pow256(1)
    ensures u < 256 && BigEndian(u, 1) == [u % 256]
  {
    assert Pow256(1) == 256 * Pow256(0);
    assert BigEndian(u, 1) == BigEndian(u / 256, 0) + [u % 256];
  }

  // ----- readers

  /** What every reader promises about failure: a read failed, or the stream did not start as it should. */
  ghost predicate Known(ok: bool, failedBefore: bool, failed: bool, mismatch: bool) {
    (ok ==> failed == failedBefore) && (!ok ==> failed || mismatch)
  }

  /** With nothing left on the socket, a success comes out of the buffer alone. */
  ghost predicate Still<E>(inbox: seq<byte>, events: seq<E>, ok: bool, inboxNow: seq<byte>, eventsNow: seq<E>) {
    inbox == [] && ok ==> inboxNow == [] && eventsNow == events
  }

  /** connection_read_u16, _u32 and _u64: a short read is a failure. */
  method ReadUint(conn: Conn, w: nat) returns (r: Option<nat>)
    requires conn.Separate() && conn.ReadInv() && (w == 2 || w == 4 || w == 8)
    modifies conn`incoming, conn`delivered, conn.sock`inbox, conn.sock`readEvents, conn.sock`received,
             conn.sock`readFailed, conn.readbuf, conn.readbuf.data
    ensures conn.ReadInv()
    ensures r.Some? ==> r.value < Pow256(w) && old(conn.Pending()) == BigEndian(r.value, w) + conn.Pending()
    ensures w <= |old(conn.Buffered())| ==>
              r.Some? && old(conn.Buffered()) == BigEndian(r.value, w) + conn.Buffered()
    ensures Known(r.Some?, old(conn.sock.readFailed), conn.sock.readFailed, false)
    ensures r.Some? <==> w <= |old(conn.Buffered())| ||
                         w - |old(conn.Buffered())| <= old(conn.Delivery(conn.Reach(w - |conn.Buffered()|)))
    ensures w <= |old(conn.Buffered())| ==>
              conn.sock.inbox == old(conn.sock.inbox) && conn.sock.readEvents == old(conn.sock.readEvents)
    ensures |old(conn.Buffered())| < w <= conn.readbuf.data.Length && r.Some? ==>
              && |conn.sock.inbox| == |old(conn.sock.inbox)| - old(conn.Delivery(conn.readbuf.data.Length))
              && conn.sock.readEvents == old(conn.Later(conn.readbuf.data.Length))
    ensures Still(old(conn.sock.inbox), old(conn.sock.readEvents), r.Some?, conn.sock.inbox, conn.sock.readEvents)
  {
    var memory := conn.Read(w);
    if memory.None? || |memory.value| != w {
      conn.sock.readFailed := true;
      return None;
    }
    var raw := FromLittleEndian(memory.value);
    var n := if w == 8 then Ntohll(raw) else NetToHost(raw, w);
    assert n == FromBigEndian(memory.value) by {
      if w == 8 { NtohllBytes(memory.value); } else { NetToHostBytes(memory.value); }
    }
    FromBigEndianInverse(memory.value);
    return Some(n);
  }

  /**
   expect: reads the tag. On another byte it steps back, which puts the stream back exactly when
   that byte was not the last one buffered.
   */
  method Expect(conn: Conn, tag: byte) returns (ok: bool)
    requires conn.Separate() && conn.ReadInv()
    modifies conn`incoming, conn`delivered, conn.sock`inbox, conn.sock`readEvents, conn.sock`received,
             conn.sock`readFailed, conn.readbuf, conn.readbuf.data
    ensures conn.ReadInv()
    ensures ok ==> old(conn.Pending()) == [tag] + conn.Pending()
    ensures old(conn.Buffered()) != [] ==>
              ok == (old(conn.Buffered())[0] == tag) &&
              (ok ==> old(conn.Buffered()) == [tag] + conn.Buffered())
    ensures !ok && |old(conn.Buffered())| > 1 ==>
              conn.Pending() == old(conn.Pending()) && conn.delivered == old(conn.delivered)
    ensures !ok && |old(conn.Buffered())| == 1 ==>
              conn.Pending() == old(conn.Pending())[1..] && |conn.delivered| == |old(conn.delivered)| + 1
    ensures var p := old(conn.Pending());
            Known(ok, old(conn.sock.readFailed), conn.sock.readFailed, p != [] && p[0] != tag)
    ensures !ok && old(conn.Buffered()) == [] && old(conn.Delivery(conn.readbuf.data.Length)) > 1 ==>
              conn.Pending() == old(conn.Pending()) && conn.delivered == old(conn.delivered)
    ensures !ok && old(conn.Buffered()) == [] && old(conn.Delivery(conn.readbuf.data.Length)) == 1 ==>
              conn.Pending() == old(conn.Pending())[1..] && |conn.delivered| == |old(conn.delivered)| + 1
    ensures Still(old(conn.sock.inbox), old(conn.sock.readEvents), ok, conn.sock.inbox, conn.sock.readEvents)
  {
    ghost var all, held, before := conn.Pending(), conn.Buffered(), conn.delivered;
    var c := conn.GetC();
    if c.None? { return false; }
    if c.value == tag { return true; }
    assert all[1..] == conn.Pending();
    ghost var after := conn.delivered;
    ok := conn.UngetC();
    assert ok ==> conn.delivered == after[..|after| - 1] == before;
    return false;
  }

  /** The payload of a numeric kind. */
  method ReadNumber(conn: Conn, kind: Kind) returns (r: Option<Value>)
    requires conn.Separate() && conn.ReadInv() && ShapeOf(kind).Numeric?
    modifies conn`incoming, conn`delivered, conn.sock`inbox, conn.sock`readEvents, conn.sock`received,
             conn.sock`readFailed, conn.readbuf, conn.readbuf.data
    ensures conn.ReadInv()
    ensures r.Some? ==> r.value.Valid() && r.value.Number? && r.value.kind == kind
    ensures r.Some? ==> old(conn.Pending()) == Payload(r.value) + conn.Pending()
    ensures r.None? ==> |old(conn.Buffered())| < ShapeOf(kind).width
    ensures Known(r.Some?, old(conn.sock.readFailed), conn.sock.readFailed, false)
    ensures Still(old(conn.sock.inbox), old(conn.sock.readEvents), r.Some?, conn.sock.inbox, conn.sock.readEvents)
  {
    hide Conn.ReadInv, Conn.Pending, Conn.Buffered, BigEndian, Pow256;
    var shape := ShapeOf(kind);
    var u := 0;
    if shape.width == 1 {
      var c := conn.GetC();
      if c.None? { return None; }
      u := c.value;
      OneByteBound(u);
    } else {
      var n := ReadUint(conn, shape.width);
      if n.None? { return None; }
      u := n.value;
    }
    CastRange(shape, u);
    return Some(Number(kind, FromUnsigned(shape, u)));
  }

  lemma OneByteBound(u: byte)
    ensures u < Pow256(1) && BigEndian(u, 1) == [u]
  {
    assert Pow256(1) == 256 * Pow256(0);
    OneByte(u);
  }

  method ReadFlag(conn: Conn) returns (r: Option<Value>)
    requires conn.Separate() && conn.ReadInv()
    modifies conn`incoming, conn`delivered, conn.sock`inbox, conn.sock`readEvents, conn.sock`received,
             conn.sock`readFailed, conn.readbuf, conn.readbuf.data
    ensures conn.ReadInv()
    ensures r.Some? ==> r.value.Flag? && old(conn.Pending()) == Payload(r.value) + conn.Pending()
    ensures r.None? ==> var s := old(conn.Buffered()); s == [] || (s[0] != FlagByte(true) && s[0] != FlagByte(false))
    ensures var p := old(conn.Pending());
            Known(r.Some?, old(conn.sock.readFailed), conn.sock.readFailed,
                  p != [] && p[0] != FlagByte(true) && p[0] != FlagByte(false))
    ensures Still(old(conn.sock.inbox), old(conn.sock.readEvents), r.Some?, conn.sock.inbox, conn.sock.readEvents)
  {
    hide Conn.ReadInv, Conn.Pending, Conn.Buffered;
    var c := conn.GetC();
    if c.None? { return None; }
    if c.value == FlagByte(true) { return Some(Flag(true)); }
    if c.value == FlagByte(false) { return Some(Flag(false)); }
    return None;
  }

  /** A length and that many bytes. A length of zero ends the C process: membuf_read refuses it. */
  method ReadData(conn: Conn, kind: Kind, destsize: nat) returns (r: Option<Value>)
    requires conn.Separate() && conn.ReadInv() && ShapeOf(kind) == Sized
    modifies conn`incoming, conn`delivered, conn.sock`inbox, conn.sock`readEvents, conn.sock`received,
             conn.sock`readFailed, conn.readbuf, conn.readbuf.data
    ensures conn.ReadInv()
    ensures r.Some? ==> r.value.Valid() && r.value.Data? && r.value.kind == kind && r.value.Fits(destsize)
    ensures r.Some? ==> old(conn.Pending()) == Payload(r.value) + conn.Pending()
    ensures r.None? ==> NoSized(kind, destsize, old(conn.Buffered()))
    ensures Known(r.Some?, old(conn.sock.readFailed), conn.sock.readFailed, NoSized(kind, destsize, old(conn.Pending())))
    ensures Still(old(conn.sock.inbox), old(conn.sock.readEvents), r.Some?, conn.sock.inbox, conn.sock.readEvents)
  {
    hide Conn.ReadInv, Conn.Pending, Conn.Buffered, BigEndian, Pow256, NoSized;
    ghost var held := conn.Buffered();
    ghost var stream := conn.Pending();
    var len := ReadUint(conn, 4);
    if |held| < 4 { TooShort(kind, destsize, held); }
    if len.None? { return None; }
    ghost var after := conn.Buffered();
    ghost var size := BigEndian(len.value, 4);
    if |held| >= 4 { LengthFixed(kind, destsize, held, len.value, after); }
    LengthFixed(kind, destsize, stream, len.value, conn.Pending());
    if len.value == 0 || !Room(kind, len.value, destsize) { return None; }
    var s := conn.Read(len.value);
    if s.None? || |s.value| != len.value {
      conn.sock.readFailed := true;
      return None;
    }
    Assoc(size, s.value, conn.Pending());
    return Some(Data(kind, s.value));
  }

  /** The bytes do not start with the length and contents of a sized value that fits. */
  ghost predicate NoSized(kind: Kind, destsize: nat, held: seq<byte>) {
    forall s: seq<byte> :: 0 < |s| < Pow256(4) && Room(kind, |s|, destsize) ==> !(BigEndian(|s|, 4) + s <= held)
  }

  lemma TooShort(kind: Kind, destsize: nat, held: seq<byte>)
    requires |held| < 4
    ensures NoSized(kind, destsize, held)
  {
    hide BigEndian;
  }

  /** Any sized value some bytes start with has the length that the first four of them say. */
  lemma LengthFixed(kind: Kind, destsize: nat, held: seq<byte>, len: nat, after: seq<byte>)
    requires len < Pow256(4) && held == BigEndian(len, 4) + after
    ensures len == 0 || !Room(kind, len, destsize) || |after| < len ==> NoSized(kind, destsize, held)
  {
    hide BigEndian, Pow256;
    forall s: seq<byte> | 0 < |s| < Pow256(4) && Room(kind, |s|, destsize) && BigEndian(|s|, 4) + s <= held
      ensures |s| == len && len <= |after|
    {
      assert (BigEndian(|s|, 4) + s)[..4] == held[..4];
      BigEndianInjective(|s|, len, 4);
    }
  }

  /**
   The readbuf functions. A value that is returned is the one the stream starts with, and exactly
   its bytes are consumed. Nothing is returned only when the buffered bytes do not start with a
   whole value of the kind that fits the destination; and, unless a read failed or came up short,
   only when the whole stream does not.
   */
  method ReadValue(conn: Conn, kind: Kind, destsize: nat) returns (r: Option<Value>)
    requires conn.Separate() && conn.ReadInv()
    modifies conn`incoming, conn`delivered, conn.sock`inbox, conn.sock`readEvents, conn.sock`received,
             conn.sock`readFailed, conn.readbuf, conn.readbuf.data
    ensures conn.ReadInv()
    ensures r.Some? ==> r.value.Valid() && r.value.KindOf() == kind && r.value.Fits(destsize)
    ensures r.Some? ==> old(conn.Pending()) == Encode(r.value) + conn.Pending()
    ensures r.Some? ==> InTypeRange(r.value) && old(conn.Pending()) == Wire(r.value) + conn.Pending()
    ensures r.None? ==> NotHeld(kind, destsize, old(conn.Buffered()))
    ensures Known(r.Some?, old(conn.sock.readFailed), conn.sock.readFailed, NotHeld(kind, destsize, old(conn.Pending())))
    ensures Still(old(conn.sock.inbox), old(conn.sock.readEvents), r.Some?, conn.sock.inbox, conn.sock.readEvents)
  {
    hide Conn.ReadInv, Conn.Pending, Conn.Buffered, Tag, Payload, NoneBehind, NotHeld, Wire, InTypeRange, Value.Valid, Value.Fits;
    ghost var held := conn.Buffered();
    var ok := Expect(conn, Tag(kind));
    if !ok {
      WrongTag(kind, destsize, held);
      WrongTag(kind, destsize, old(conn.Pending()));
      return None;
    }
    ghost var tag := [Tag(kind)];
    ghost var rest, stream := conn.Buffered(), conn.Pending();
    r := ReadPayload(conn, kind, destsize);
    if r.Some? {
      EncodeIsWire(r.value);
      Assoc(tag, Payload(r.value), conn.Pending());
    } else {
      if held != [] { NoPayload(kind, destsize, rest); } else { WrongTag(kind, destsize, held); }
      if !conn.sock.readFailed { NoPayload(kind, destsize, stream); }
    }
  }

  /** What follows the tag. */
  method ReadPayload(conn: Conn, kind: Kind, destsize: nat) returns (r: Option<Value>)
    requires conn.Separate() && conn.ReadInv()
    modifies conn`incoming, conn`delivered, conn.sock`inbox, conn.sock`readEvents, conn.sock`received,
             conn.sock`readFailed, conn.readbuf, conn.readbuf.data
    ensures conn.ReadInv()
    ensures r.Some? ==> r.value.Valid() && r.value.KindOf() == kind && r.value.Fits(destsize)
    ensures r.Some? ==> old(conn.Pending()) == Payload(r.value) + conn.Pending()
    ensures r.None? ==> NoneBehind(kind, destsize, old(conn.Buffered()))
    ensures Known(r.Some?, old(conn.sock.readFailed), conn.sock.readFailed, NoneBehind(kind, destsize, old(conn.Pending())))
    ensures Still(old(conn.sock.inbox), old(conn.sock.readEvents), r.Some?, conn.sock.inbox, conn.sock.readEvents)
  {
    hide Conn.ReadInv, Conn.Pending, Conn.Buffered, BigEndian, Pow256, NoSized;
    match ShapeOf(kind) {
      case Numeric(_, _) => r := ReadNumber(conn, kind);
      case Truth => r := ReadFlag(conn);
      case Sized => r := ReadData(conn, kind, destsize);
      case Bare =>
        r := Some(Mark(kind));
        assert Payload(Mark(kind)) + conn.Pending() == conn.Pending();
    }
  }

  /** No value of the kind that fits the destination is a prefix of the buffered bytes. */
  ghost predicate NotHeld(kind: Kind, destsize: nat, held: seq<byte>) {
    forall v: Value :: v.Valid() && v.KindOf() == kind && v.Fits(destsize) ==> !(Encode(v) <= held)
  }

  lemma WrongTag(kind: Kind, destsize: nat, held: seq<byte>)
    ensures held == [] || held[0] != Tag(kind) ==> NotHeld(kind, destsize, held)
  {
    hide BigEndian;
    forall v: Value | v.KindOf() == kind && Encode(v) <= held
      ensures held != [] && held[0] == Tag(kind)
    {
      assert Encode(v)[0] == Tag(kind);
    }
  }

  /** The bytes behind a tag do not start with a payload of its kind. */
  ghost predicate NoneBehind(kind: Kind, destsize: nat, rest: seq<byte>) {
    match ShapeOf(kind)
    case Numeric(w, _) => |rest| < w
    case Truth => rest == [] || (rest[0] != FlagByte(true) && rest[0] != FlagByte(false))
    case Sized => NoSized(kind, destsize, rest)
    case Bare => false
  }

  lemma NotThere(v: Value, destsize: nat, rest: seq<byte>)
    requires v.Valid() && v.Fits(destsize) && NoneBehind(v.KindOf(), destsize, rest)
    ensures !(Payload(v) <= rest)
  {
    hide Pow256, BigEndian;
    match v
    case Data(k, s) => assert Room(k, |s|, destsize);
    case _ =>
  }

  lemma NoPayload(kind: Kind, destsize: nat, rest: seq<byte>)
    requires NoneBehind(kind, destsize, rest)
    ensures NotHeld(kind, destsize, [Tag(kind)] + rest)
  {
    hide Pow256, BigEndian, Tag, Payload, NoneBehind, Value.Valid, Value.Fits;
    forall v: Value | v.Valid() && v.KindOf() == kind && v.Fits(destsize)
      ensures !(Encode(v) <= [Tag(kind)] + rest)
    {
      NotThere(v, destsize, rest);
      PayloadPrefix([Tag(kind)], Payload(v), rest);
    }
  }

  lemma PayloadPrefix(t: seq<byte>, a: seq<byte>, b: seq<byte>)
    ensures t + a <= t + b ==> a <= b
  {
    if t + a <= t + b {
      assert (t + b)[..|t + a|] == t + a;
      assert b[..|a|] == (t + b)[|t|..|t| + |a|] == (t + a)[|t|..] == a;
    }
  }
}
