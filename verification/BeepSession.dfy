/** The beep client and server: sending and receiving users, and whole sessions over two streams. */
module BeepSession {
  import opened Common
  import opened Bytes
  import opened Connection
  import opened BeepCodec
  import S = Socket

  const BEEP_VERSION: nat := 1
  const BEEP_USER_ADD: nat := 1
  const NAME_SIZE: nat := 51
  const EMAIL_SIZE: nat := 501

  /** A user record; strings without their terminator. */
  datatype User = User(id: int, name: seq<byte>, nick: seq<byte>, email: seq<byte>, created: int) {
    ghost predicate Valid() {
      && IsInt64(id) && IsInt64(created)
      && 0 < |name| <= 50 && 0 < |nick| <= 50 && 0 < |email| <= 500
    }
  }

  ghost predicate IsInt64(n: int) {
    InRange(Numeric(8, true), n)
  }

  function UserValues(u: User): seq<Value> {
    [Mark(OBJECTSTART), Number(I64, u.id), Data(STRING, u.name), Data(STRING, u.nick),
     Data(STRING, u.email), Number(I64, u.created), Mark(OBJECTEND)]
  }

  function IdValues(id: int): seq<Value> {
    [Mark(OBJECTSTART), Number(I64, id), Mark(OBJECTEND)]
  }

  function Shorts(a: nat, b: nat): seq<byte> {
    BigEndian(a, 2) + BigEndian(b, 2)
  }

  function UserMessage(u: User): seq<byte> {
    Shorts(BEEP_VERSION, BEEP_USER_ADD) + EncodeAll(UserValues(u))
  }

  function ReplyMessage(id: int): seq<byte> {
    Shorts(BEEP_VERSION, BEEP_USER_ADD) + BigEndian(0, 2) + EncodeAll(IdValues(id))
  }

  /** Eight bytes behind the tag of a signed 64-bit number. */
  ghost function WireLong(n: int): seq<byte>
    requires -9223372036854775808 <= n < 9223372036854775808
  {
    [108] + Wire64(Complement(n, 18446744073709551616))
  }

  ghost function WireString(s: seq<byte>): seq<byte>
    requires |s| < 4294967296
  {
    [81] + (Wire32(|s|) + s)
  }

  lemma LongRange(n: int)
    ensures IsInt64(n) <==> -9223372036854775808 <= n < 9223372036854775808
  {
    Powers();
  }

  /** The header of a request and of its answer: version 1, request 1, and for the answer status 0. */
  lemma HeaderBytes()
    ensures Shorts(BEEP_VERSION, BEEP_USER_ADD) == [0, 1, 0, 1]
    ensures Shorts(BEEP_VERSION, BEEP_USER_ADD) + BigEndian(0, 2) == [0, 1, 0, 1, 0, 0]
  {
    WireOrder(BEEP_VERSION);
    WireOrder(BEEP_USER_ADD);
    WireOrder(0);
    hide BigEndian;
  }

  lemma ValueBytes(u: User)
    requires u.Valid()
    ensures FitsLong(u.id) && FitsLong(u.created)
    ensures Encode(Number(I64, u.id)) == WireLong(u.id) && Encode(Number(I64, u.created)) == WireLong(u.created)
    ensures Encode(Data(STRING, u.name)) == WireString(u.name) && Encode(Data(STRING, u.nick)) == WireString(u.nick)
    ensures Encode(Data(STRING, u.email)) == WireString(u.email)
    ensures Encode(Mark(OBJECTSTART)) == [123] && Encode(Mark(OBJECTEND)) == [125]
  {
    LongRange(u.id);
    LongRange(u.created);
    UserValuesValid(u);
    var vs := UserValues(u);
    hide Encode;
    EncodeIsWire(vs[0]);
    EncodeIsWire(vs[1]);
    EncodeIsWire(vs[2]);
    EncodeIsWire(vs[3]);
    EncodeIsWire(vs[4]);
    EncodeIsWire(vs[5]);
    EncodeIsWire(vs[6]);
  }

  ghost predicate FitsLong(n: int) {
    -9223372036854775808 <= n < 9223372036854775808
  }

  /** A user message, byte by byte: the header, an opening brace, the fields in order and a closing brace. */
  ghost function UserBytes(u: User): seq<byte>
    requires FitsLong(u.id) && FitsLong(u.created) && |u.name| <= 50 && |u.nick| <= 50 && |u.email| <= 500
  {
    [0, 1, 0, 1] + ([123] + (WireLong(u.id) + (WireString(u.name) + (WireString(u.nick) +
      (WireString(u.email) + (WireLong(u.created) + [125]))))))
  }

  /** A reply: the header, status zero and the id in braces. */
  ghost function ReplyBytes(id: int): seq<byte>
    requires FitsLong(id)
  {
    [0, 1, 0, 1, 0, 0] + ([123] + (WireLong(id) + [125]))
  }

  lemma EncodeCons(v: Value, rest: seq<Value>)
    ensures EncodeAll([v] + rest) == Encode(v) + EncodeAll(rest)
  {
    assert ([v] + rest)[1..] == rest;
  }

  lemma UserMessageBytes(u: User)
    requires u.Valid()
    ensures FitsLong(u.id) && FitsLong(u.created) && UserMessage(u) == UserBytes(u)
  {
    HeaderBytes();
    ValueBytes(u);
    var v := UserValues(u);
    hide Encode, EncodeAll, BigEndian, WireLong, WireString, Shorts;
    assert v == [v[0]] + ([v[1]] + ([v[2]] + ([v[3]] + ([v[4]] + ([v[5]] + [v[6]])))));
    EncodeCons(v[0], [v[1]] + ([v[2]] + ([v[3]] + ([v[4]] + ([v[5]] + [v[6]])))));
    EncodeCons(v[1], [v[2]] + ([v[3]] + ([v[4]] + ([v[5]] + [v[6]]))));
    EncodeCons(v[2], [v[3]] + ([v[4]] + ([v[5]] + [v[6]])));
    EncodeCons(v[3], [v[4]] + ([v[5]] + [v[6]]));
    EncodeCons(v[4], [v[5]] + [v[6]]);
    EncodeCons(v[5], [v[6]]);
    EncodeOne(v[6]);
  }

  lemma ReplyMessageBytes(id: int)
    requires IsInt64(id)
    ensures FitsLong(id) && ReplyMessage(id) == ReplyBytes(id)
  {
    HeaderBytes();
    LongRange(id);
    var v := IdValues(id);
    EncodeIsWire(v[0]);
    EncodeIsWire(v[1]);
    EncodeIsWire(v[2]);
    hide Encode, EncodeAll, BigEndian, Wire64, Shorts;
    assert v == [v[0]] + ([v[1]] + [v[2]]);
    EncodeCons(v[0], [v[1]] + [v[2]]);
    EncodeCons(v[1], [v[2]]);
    EncodeOne(v[2]);
  }

  lemma UserValuesValid(u: User)
    requires u.Valid()
    ensures AllValid(UserValues(u))
  {
    assert Pow256(2) == 65536 && Pow256(4) == 256 * (256 * Pow256(2));
  }

  lemma {:induction false} EncodeAllAppend(a: seq<Value>, b: seq<Value>)
    ensures EncodeAll(a + b) == EncodeAll(a) + EncodeAll(b)
  {
    if a == [] {
      assert a + b == b;
      assert EncodeAll(b) == [] + EncodeAll(b);
    } else {
      assert (a + b)[0] == a[0] && (a + b)[1..] == a[1..] + b;
      EncodeAllAppend(a[1..], b);
      Assoc(Encode(a[0]), EncodeAll(a[1..]), EncodeAll(b));
    }
  }

  // ----- sequences of values

  lemma {:induction false} PrefixEncoded(vs: seq<Value>, i: nat, held: seq<byte>, size: nat)
    requires i < |vs|
    ensures EncodeAll(vs[..i + 1]) == EncodeAll(vs[..i]) + Encode(vs[i])
    ensures Roomy(held, EncodeAll(vs), size) ==> Roomy(held + EncodeAll(vs[..i]), Encode(vs[i]), size)
  {
    hide Encode, EncodeAll;
    assert vs[..i + 1] == vs[..i] + [vs[i]] && vs == vs[..i + 1] + vs[i + 1..];
    EncodeAllAppend(vs[..i], [vs[i]]);
    EncodeOne(vs[i]);
    EncodeAllAppend(vs[..i + 1], vs[i + 1..]);
  }

  method WriteAll(conn: Conn, vs: seq<Value>) returns (ok: bool)
    requires conn.Separate() && conn.WriteInv() && AllValid(vs)
    modifies conn`outgoing, conn`written, conn`writeFailed, conn.sock`writeEvents, conn.sock`sent, conn.writebuf, conn.writebuf.data
    ensures conn.WriteInv() && (ok ==> conn.written == old(conn.written) + EncodeAll(vs))
    ensures Wrote(ok, old(conn.writeFailed), conn.writeFailed, conn.sock.sent, conn.written)
    ensures Roomy(old(conn.writebuf.Contents()), EncodeAll(vs), conn.writebuf.data.Length) ==>
              ok && Gathered(old(conn.writebuf.Contents()), EncodeAll(vs), conn.writebuf.Contents(),
                             old(conn.sock.writeEvents), conn.sock.writeEvents)
  {
    hide Encode, Value.Valid, Roomy;
    var i := 0;
    ghost var held, size := conn.writebuf.Contents(), conn.writebuf.data.Length;
    assert conn.written == conn.written + EncodeAll(vs[..0]) && held == held + EncodeAll(vs[..0]);
    while i < |vs|
      invariant 0 <= i <= |vs| && conn.WriteInv()
      invariant conn.writeFailed == old(conn.writeFailed)
      invariant conn.written == old(conn.written) + EncodeAll(vs[..i])
      invariant Roomy(held, EncodeAll(vs), size) ==>
                  conn.writebuf.Contents() == held + EncodeAll(vs[..i]) && conn.sock.writeEvents == old(conn.sock.writeEvents)
    {
      PrefixEncoded(vs, i, held, size);
      Assoc(old(conn.written), EncodeAll(vs[..i]), Encode(vs[i]));
      Assoc(held, EncodeAll(vs[..i]), Encode(vs[i]));
      ok := WriteValue(conn, vs[i]);
      if !ok { return; }
      i := i + 1;
    }
    assert vs[..i] == vs;
    return true;
  }

  lemma EncodeOne(v: Value)
    ensures EncodeAll([v]) == Encode(v)
  {
    assert [v][1..] == [];
    assert EncodeAll([v]) == Encode(v) + [];
  }

  /** A reader and the size of its destination. */
  datatype Slot = Slot(kind: Kind, destsize: nat)

  ghost predicate Fill(vs: seq<Value>, slots: seq<Slot>) {
    |vs| == |slots| &&
    forall i :: 0 <= i < |vs| ==> vs[i].Valid() && vs[i].KindOf() == slots[i].kind && vs[i].Fits(slots[i].destsize)
  }

  /** The stream does not start with values for all slots. */
  ghost predicate NoneHeld(slots: seq<Slot>, stream: seq<byte>) {
    forall vs :: Fill(vs, slots) ==> !(EncodeAll(vs) <= stream)
  }

  lemma ValuesSplit(vs: seq<Value>, k: nat)
    requires k < |vs|
    ensures EncodeAll(vs) == EncodeAll(vs[..k]) + (Encode(vs[k]) + EncodeAll(vs[k + 1..]))
  {
    hide Encode;
    assert vs == vs[..k] + vs[k..];
    EncodeAllAppend(vs[..k], vs[k..]);
    assert vs[k..][0] == vs[k] && vs[k..][1..] == vs[k + 1..];
  }

  /** Values that have the same kinds as those read before agree with them, so the next one comes next. */
  lemma NextComesNext(slots: seq<Slot>, read: seq<Value>, rest: seq<byte>, vs: seq<Value>)
    requires |read| < |slots| && Fill(read, slots[..|read|]) && Fill(vs, slots)
    requires EncodeAll(vs) <= EncodeAll(read) + rest
    ensures Encode(vs[|read|]) <= rest
  {
    hide Encode, Value.Valid, Value.Fits, EncodeAll;
    var k := |read|;
    var more := (EncodeAll(read) + rest)[|EncodeAll(vs)|..];
    ValuesSplit(vs, k);
    var last := EncodeAll(vs[k + 1..]) + more;
    Assoc(EncodeAll(vs[..k]), Encode(vs[k]) + EncodeAll(vs[k + 1..]), more);
    Assoc(Encode(vs[k]), EncodeAll(vs[k + 1..]), more);
    SelfDelimiting(vs[..k], Encode(vs[k]) + last, read, rest);
  }

  /** If the values before a slot have been read and the slot's value is not there, no others fill the slots. */
  lemma StuckAt(slots: seq<Slot>, read: seq<Value>, rest: seq<byte>)
    requires |read| < |slots| && Fill(read, slots[..|read|])
    requires NotHeld(slots[|read|].kind, slots[|read|].destsize, rest)
    ensures NoneHeld(slots, EncodeAll(read) + rest)
  {
    hide Encode, Value.Valid, Value.Fits, EncodeAll;
    forall vs | Fill(vs, slots)
      ensures !(EncodeAll(vs) <= EncodeAll(read) + rest)
    {
      if EncodeAll(vs) <= EncodeAll(read) + rest { NextComesNext(slots, read, rest, vs); }
    }
  }

  lemma OneMore(slots: seq<Slot>, vs: seq<Value>, v: Value, rest: seq<byte>)
    requires |vs| < |slots| && Fill(vs, slots[..|vs|])
    requires v.Valid() && v.KindOf() == slots[|vs|].kind && v.Fits(slots[|vs|].destsize)
    ensures Fill(vs + [v], slots[..|vs| + 1]) && EncodeAll(vs + [v]) + rest == EncodeAll(vs) + (Encode(v) + rest)
  {
    hide Encode, EncodeAll, Value.Valid, Value.Fits, Value.KindOf;
    EncodeAllAppend(vs, [v]);
    EncodeOne(v);
    Assoc(EncodeAll(vs), Encode(v), rest);
    assert slots[..|vs| + 1] == slots[..|vs|] + [slots[|vs|]];
  }

  lemma AllBuffered(conn: Conn)
    requires conn.ReadInv()
    ensures conn.sock.inbox == [] ==> conn.Pending() == conn.Buffered()
    ensures conn.Buffered() == [] ==> conn.Pending() == conn.sock.inbox
  {
  }

  method ReadAll(conn: Conn, slots: seq<Slot>) returns (r: Option<seq<Value>>)
    requires conn.Separate() && conn.ReadInv()
    modifies conn`incoming, conn`delivered, conn.sock`inbox, conn.sock`readEvents, conn.sock`received,
             conn.sock`readFailed, conn.readbuf, conn.readbuf.data
    ensures conn.ReadInv()
    ensures r.Some? ==> Fill(r.value, slots) && old(conn.Pending()) == EncodeAll(r.value) + conn.Pending()
    ensures Known(r.Some?, old(conn.sock.readFailed), conn.sock.readFailed, NoneHeld(slots, old(conn.Pending())))
    ensures old(conn.sock.inbox) == [] && r.None? ==> NoneHeld(slots, old(conn.Pending()))
    ensures Still(old(conn.sock.inbox), old(conn.sock.readEvents), r.Some?, conn.sock.inbox, conn.sock.readEvents)
  {
    hide Conn.ReadInv, Conn.Pending, Conn.Buffered, Encode, Value.Valid, Value.Fits, NotHeld, NoneHeld, Value.KindOf;
    var vs := [];
    ghost var all := conn.Pending();
    assert all == EncodeAll([]) + all;
    while |vs| < |slots|
      invariant |vs| <= |slots| && conn.ReadInv()
      invariant Fill(vs, slots[..|vs|]) && all == EncodeAll(vs) + conn.Pending()
      invariant conn.sock.readFailed == old(conn.sock.readFailed)
      invariant Still(old(conn.sock.inbox), old(conn.sock.readEvents), true, conn.sock.inbox, conn.sock.readEvents)
    {
      AllBuffered(conn);
      var slot := slots[|vs|];
      ghost var rest := conn.Pending();
      var v := ReadValue(conn, slot.kind, slot.destsize);
      if v.None? {
        if !conn.sock.readFailed || old(conn.sock.inbox) == [] { StuckAt(slots, vs, rest); }
        return None;
      }
      OneMore(slots, vs, v.value, conn.Pending());
      vs := vs + [v.value];
    }
    assert slots[..|vs|] == slots;
    return Some(vs);
  }

  /** Values that were written are read back, unless a read fails or comes up short. */
  method ReadBack(conn: Conn, slots: seq<Slot>, ghost vs: seq<Value>, ghost rest: seq<byte>) returns (r: Option<seq<Value>>)
    requires conn.Separate() && conn.ReadInv() && Fill(vs, slots) && conn.Pending() == EncodeAll(vs) + rest
    modifies conn`incoming, conn`delivered, conn.sock`inbox, conn.sock`readEvents, conn.sock`received,
             conn.sock`readFailed, conn.readbuf, conn.readbuf.data
    ensures conn.ReadInv()
    ensures (r == Some(vs) && conn.Pending() == rest) || (r == None && conn.sock.readFailed)
    ensures old(conn.sock.inbox) == [] ==> r == Some(vs)
  {
    hide Conn.ReadInv, Conn.Pending, Conn.Buffered, EncodeAll, Value.Valid, Value.Fits, Value.KindOf;
    r := ReadAll(conn, slots);
    if r.Some? { SelfDelimiting(vs, rest, r.value, conn.Pending()); }
  }

  /** Nothing is buffered, a message of this length fits, and the next `n` writes are taken at once. */
  ghost predicate Ready(conn: Conn, n: nat, len: nat)
    reads conn.writebuf, conn.writebuf.data, conn.sock`writeEvents
  {
    && conn.writebuf.Valid() && conn.writebuf.Contents() == [] && len <= conn.writebuf.data.Length
    && S.PromptWrites(conn.sock.writeEvents, n, conn.writebuf.data.Length)
  }

  lemma PromptFlush(conn: Conn, n: nat, len: nat)
    requires Ready(conn, n, len) && n > 0 && len > 0
    ensures conn.Takes(len) && conn.LaterWrites(len) == conn.sock.writeEvents[1..]
    ensures S.PromptWrites(conn.sock.writeEvents[1..], n - 1, conn.writebuf.data.Length)
  {
    S.PromptWrite(conn.sock.writeEvents, n, conn.writebuf.data.Length, conn.retriesWrites, len);
    S.FitsTakes(conn.sock.writeEvents, conn.retriesWrites, len);
  }

  // ----- user.c

  /** user_send: after success exactly the user message has been sent. */
  method UserSend(conn: Conn, u: User) returns (ok: bool)
    requires conn.Separate() && conn.WriteInv() && u.Valid()
    modifies conn`outgoing, conn`written, conn`writeFailed, conn.sock`writeEvents, conn.sock`sent, conn.writebuf, conn.writebuf.data
    ensures conn.WriteInv()
    ensures ok ==> conn.written == old(conn.written) + UserMessage(u) && conn.writeFailed == old(conn.writeFailed)
    ensures ok && !conn.writeFailed ==> conn.sock.sent == conn.written
    ensures ok ==> FitsLong(u.id) && FitsLong(u.created) && conn.written == old(conn.written) + UserBytes(u)
    ensures !ok ==> conn.writeFailed
    ensures old(Ready(conn, 1, |UserMessage(u)|)) ==> ok && conn.sock.writeEvents == old(conn.sock.writeEvents)[1..]
  {
    UserMessageBytes(u);
    hide EncodeAll, Conn.Takes, Conn.LaterWrites, UserBytes, FitsLong;
    GatheredTwice(conn.writebuf.Contents(), Shorts(BEEP_VERSION, BEEP_USER_ADD), EncodeAll(UserValues(u)), conn.writebuf.data.Length);
    if Ready(conn, 1, |UserMessage(u)|) { PromptFlush(conn, 1, |UserMessage(u)|); }
    ok := WriteShorts(conn, BEEP_VERSION, BEEP_USER_ADD);
    if !ok { return; }
    UserValuesValid(u);
    ok := WriteAll(conn, UserValues(u));
    if !ok { return; }
    Assoc(old(conn.written), Shorts(BEEP_VERSION, BEEP_USER_ADD), EncodeAll(UserValues(u)));
    ok := conn.Flush();
  }

  /** writebuf_header. */
  method WriteShorts(conn: Conn, a: nat, b: nat) returns (ok: bool)
    requires conn.Separate() && conn.WriteInv() && a < 65536 && b < 65536
    modifies conn`outgoing, conn`written, conn`writeFailed, conn.sock`writeEvents, conn.sock`sent, conn.writebuf, conn.writebuf.data
    ensures conn.WriteInv() && (ok ==> conn.written == old(conn.written) + Shorts(a, b))
    ensures Wrote(ok, old(conn.writeFailed), conn.writeFailed, conn.sock.sent, conn.written)
    ensures Roomy(old(conn.writebuf.Contents()), Shorts(a, b), conn.writebuf.data.Length) ==>
              ok && Gathered(old(conn.writebuf.Contents()), Shorts(a, b), conn.writebuf.Contents(),
                             old(conn.sock.writeEvents), conn.sock.writeEvents)
  {
    hide BigEndian;
    GatheredTwice(conn.writebuf.Contents(), BigEndian(a, 2), BigEndian(b, 2), conn.writebuf.data.Length);
    assert Pow256(2) == 65536;
    ok := WriteUint(conn, a, 2);
    if !ok { return; }
    ok := WriteUint(conn, b, 2);
    Assoc(old(conn.written), BigEndian(a, 2), BigEndian(b, 2));
  }

  /** All that is pending waits on the socket, fits the buffer, and is delivered by the next read. */
  ghost predicate Whole(conn: Conn)
    reads conn`incoming, conn`delivered, conn.sock, conn.readbuf, conn.readbuf.data
  {
    && conn.ReadInv() && conn.Buffered() == [] && 0 < |conn.sock.inbox| <= conn.readbuf.data.Length
    && S.PromptReads(conn.sock.readEvents, 1, conn.readbuf.data.Length)
  }

  lemma WholeArrives(conn: Conn)
    requires Whole(conn)
    ensures conn.Delivery(conn.readbuf.data.Length) == |conn.sock.inbox|
    ensures conn.Later(conn.readbuf.data.Length) == conn.sock.readEvents[1..]
  {
    S.PromptRead(conn.sock.readEvents, 1, conn.readbuf.data.Length, conn.retriesReads, |conn.sock.inbox|);
  }

  /** readbuf_header. */
  method ReadShorts(conn: Conn) returns (r: Option<(nat, nat)>)
    requires conn.Separate() && conn.ReadInv()
    modifies conn`incoming, conn`delivered, conn.sock`inbox, conn.sock`readEvents, conn.sock`received,
             conn.sock`readFailed, conn.readbuf, conn.readbuf.data
    ensures conn.ReadInv()
    ensures r.Some? ==> r.value.0 < 65536 && r.value.1 < 65536
    ensures r.Some? ==> old(conn.Pending()) == Shorts(r.value.0, r.value.1) + conn.Pending()
    ensures Known(r.Some?, old(conn.sock.readFailed), conn.sock.readFailed, false)
    ensures old(Whole(conn)) && |old(conn.sock.inbox)| >= 4 ==>
              r.Some? && conn.sock.inbox == [] && conn.sock.readEvents == old(conn.sock.readEvents)[1..]
  {
    hide Conn.ReadInv, Conn.Pending, Conn.Buffered, BigEndian, Conn.Delivery, Conn.Later;
    assert Pow256(2) == 65536;
    AllBuffered(conn);
    if Whole(conn) { WholeArrives(conn); }
    var a := ReadUint(conn, 2);
    if a.None? { return None; }
    AllBuffered(conn);
    var b := ReadUint(conn, 2);
    if b.None? { return None; }
    Assoc(BigEndian(a.value, 2), BigEndian(b.value, 2), conn.Pending());
    return Some((a.value, b.value));
  }

  const USER_SLOTS: seq<Slot> :=
    [Slot(OBJECTSTART, 0), Slot(I64, 0), Slot(STRING, NAME_SIZE), Slot(STRING, NAME_SIZE),
     Slot(STRING, EMAIL_SIZE), Slot(I64, 0), Slot(OBJECTEND, 0)]

  const ID_SLOTS: seq<Slot> := [Slot(OBJECTSTART, 0), Slot(I64, 0), Slot(OBJECTEND, 0)]

  // What fills a slot of each kind.

  lemma LongSlot(v: Value)
    requires v.Valid() && v.KindOf() == I64
    ensures v == Number(I64, v.n) && IsInt64(v.n)
  {
  }

  lemma StringSlot(v: Value, destsize: nat)
    requires v.Valid() && v.KindOf() == STRING && v.Fits(destsize)
    ensures v == Data(STRING, v.s) && 0 < |v.s| < destsize
  {
  }

  lemma MarkSlot(v: Value, kind: Kind)
    requires v.Valid() && v.KindOf() == kind && (kind == OBJECTSTART || kind == OBJECTEND)
    ensures v == Mark(kind)
  {
  }

  lemma UserFromValues(vs: seq<Value>)
    requires Fill(vs, USER_SLOTS)
    ensures vs[1].Number? && vs[2].Data? && vs[3].Data? && vs[4].Data? && vs[5].Number?
    ensures var u := User(vs[1].n, vs[2].s, vs[3].s, vs[4].s, vs[5].n); u.Valid() && vs == UserValues(u)
  {
    hide Value.Valid, Value.KindOf, Value.Fits, InRange;
    MarkSlot(vs[0], OBJECTSTART);
    LongSlot(vs[1]);
    StringSlot(vs[2], NAME_SIZE);
    StringSlot(vs[3], NAME_SIZE);
    StringSlot(vs[4], EMAIL_SIZE);
    LongSlot(vs[5]);
    MarkSlot(vs[6], OBJECTEND);
  }

  lemma IdFromValues(vs: seq<Value>)
    requires Fill(vs, ID_SLOTS)
    ensures vs[1].Number? && IsInt64(vs[1].n) && vs == IdValues(vs[1].n)
  {
    hide Value.Valid, Value.KindOf, Value.Fits, InRange;
    MarkSlot(vs[0], OBJECTSTART);
    LongSlot(vs[1]);
    MarkSlot(vs[2], OBJECTEND);
  }

  /** The stream does not start with the fields of a user. */
  ghost predicate NoUser(stream: seq<byte>) {
    forall u: User :: u.Valid() ==> !(EncodeAll(UserValues(u)) <= stream)
  }

  ghost predicate NoId(stream: seq<byte>) {
    forall id: int :: IsInt64(id) ==> !(EncodeAll(IdValues(id)) <= stream)
  }

  lemma NoValuesNoUser(stream: seq<byte>)
    ensures NoneHeld(USER_SLOTS, stream) ==> NoUser(stream)
  {
    hide EncodeAll;
    forall u: User | u.Valid()
      ensures Fill(UserValues(u), USER_SLOTS)
    {
      UserValuesValid(u);
    }
  }

  lemma NoValuesNoId(stream: seq<byte>)
    ensures NoneHeld(ID_SLOTS, stream) ==> NoId(stream)
  {
    hide EncodeAll;
    forall id: int | IsInt64(id)
      ensures Fill(IdValues(id), ID_SLOTS)
    {
    }
  }

  /** user_recv: a user that is returned is the one the stream starts with. */
  method UserRecv(conn: Conn) returns (r: Option<User>)
    requires conn.Separate() && conn.ReadInv()
    modifies conn`incoming, conn`delivered, conn.sock`inbox, conn.sock`readEvents, conn.sock`received,
             conn.sock`readFailed, conn.readbuf, conn.readbuf.data
    ensures conn.ReadInv()
    ensures r.Some? ==> r.value.Valid() && old(conn.Pending()) == EncodeAll(UserValues(r.value)) + conn.Pending()
    ensures Known(r.Some?, old(conn.sock.readFailed), conn.sock.readFailed, NoUser(old(conn.Pending())))
    ensures old(conn.sock.inbox) == [] && r.None? ==> NoUser(old(conn.Pending()))
    ensures Still(old(conn.sock.inbox), old(conn.sock.readEvents), r.Some?, conn.sock.inbox, conn.sock.readEvents)
  {
    hide Conn.ReadInv, Conn.Pending, Conn.Buffered, EncodeAll, NoUser, NoneHeld;
    NoValuesNoUser(conn.Pending());
    var vs := ReadAll(conn, USER_SLOTS);
    if vs.None? { return None; }
    var v := vs.value;
    UserFromValues(v);
    return Some(User(v[1].n, v[2].s, v[3].s, v[4].s, v[5].n));
  }

  // ----- main.c: the server

  ghost predicate NoUserMessage(stream: seq<byte>) {
    forall u: User :: u.Valid() ==> !(UserMessage(u) <= stream)
  }

  lemma ShortsDiffer(a: nat, b: nat, c: nat, d: nat)
    requires a < 65536 && b < 65536 && c < 65536 && d < 65536 && Shorts(a, b) == Shorts(c, d)
    ensures a == c && b == d
  {
    hide BigEndian;
    assert Pow256(2) == 65536;
    SamePrefix(BigEndian(a, 2), BigEndian(b, 2), BigEndian(c, 2), BigEndian(d, 2));
    BigEndianInjective(a, c, 2);
    BigEndianInjective(b, d, 2);
  }

  /** A stream with another header, or none of the fields behind it, holds no user message. */
  lemma OtherMessage(version: nat, code: nat, rest: seq<byte>)
    requires version < 65536 && code < 65536
    ensures version != BEEP_VERSION || code != BEEP_USER_ADD || NoUser(rest) ==> NoUserMessage(Shorts(version, code) + rest)
  {
    hide EncodeAll, BigEndian;
    var h, h0 := Shorts(version, code), Shorts(BEEP_VERSION, BEEP_USER_ADD);
    forall u: User | u.Valid() && UserMessage(u) <= h + rest
      ensures version == BEEP_VERSION && code == BEEP_USER_ADD && EncodeAll(UserValues(u)) <= rest
    {
      PrefixParts(h0, EncodeAll(UserValues(u)), h, rest);
      ShortsDiffer(version, code, BEEP_VERSION, BEEP_USER_ADD);
    }
  }

  lemma PrefixParts(a: seq<byte>, x: seq<byte>, b: seq<byte>, y: seq<byte>)
    requires a + x <= b + y && |a| == |b|
    ensures a == b && x <= y
  {
    var z := (b + y)[|a + x|..];
    Assoc(a, x, z);
    assert a + (x + z) == b + y;
    SamePrefix(a, x + z, b, y);
  }

  /** One turn of beep_callback with user_add_handler; `id` is what the database returns for the user. */
  method Serve(conn: Conn, id: int) returns (r: Option<User>)
    requires conn.Separate() && conn.ReadInv() && conn.WriteInv() && IsInt64(id)
    modifies conn, conn.sock, conn.readbuf, conn.readbuf.data, conn.writebuf, conn.writebuf.data
    ensures conn.ReadInv() && conn.WriteInv()
    ensures r.Some? ==> r.value.Valid() && old(conn.Pending()) == UserMessage(r.value) + conn.Pending()
    ensures r.Some? ==> conn.written == old(conn.written) + ReplyMessage(id) && conn.writeFailed == old(conn.writeFailed)
    ensures r.Some? && !conn.writeFailed ==> conn.sock.sent == conn.written
    ensures r.Some? ==> conn.sock.readFailed == old(conn.sock.readFailed)
    ensures r.None? ==> conn.sock.readFailed || conn.writeFailed || NoUserMessage(old(conn.Pending()))
    ensures old(Whole(conn)) && |old(conn.sock.inbox)| >= 4 && old(Ready(conn, 2, |ReplyMessage(id)|)) ==>
              if r.None? then NoUserMessage(old(conn.Pending()))
              else conn.sock.readEvents == old(conn.sock.readEvents)[1..] && conn.sock.writeEvents == old(conn.sock.writeEvents)[2..]
  {
    hide Conn.ReadInv, Conn.WriteInv, Conn.Pending, Conn.Buffered, EncodeAll, BigEndian, NoUser, NoUserMessage, Shorts, ReplyMessage;
    ghost var all := conn.Pending();
    var h := ReadShorts(conn);
    if h.None? { return None; }
    ghost var rest := conn.Pending();
    OtherMessage(h.value.0, h.value.1, rest);
    if h.value.0 != BEEP_VERSION || h.value.1 != BEEP_USER_ADD { return None; }
    var u := UserRecv(conn);
    if u.None? { return None; }
    Assoc(Shorts(BEEP_VERSION, BEEP_USER_ADD), EncodeAll(UserValues(u.value)), conn.Pending());
    var ok := SendReply(conn, id);
    if !ok { return None; }
    return u;
  }

  lemma ReadyLess(conn: Conn, n: nat, len: nat, less: nat)
    requires Ready(conn, n, len) && less <= len
    ensures Ready(conn, n, less)
  {
  }

  lemma IdNotEmpty(id: int)
    ensures EncodeAll(IdValues(id)) != []
  {
    hide Encode;
    EncodeNotEmpty(Mark(OBJECTSTART));
  }

  /** A message has been flushed at the cost of one event, and the next one can follow. */
  ghost predicate Sent(conn: Conn, n: nat, len: nat, events: seq<S.WriteEvent>)
    requires n > 0 && n <= |events|
    reads conn.writebuf, conn.writebuf.data, conn.sock`writeEvents
  {
    Ready(conn, n - 1, len) && conn.sock.writeEvents == events[1..]
  }

  /** writebuf_reply with its flush. */
  method SendStatus(conn: Conn, ghost n: nat, ghost len: nat) returns (ok: bool)
    requires conn.Separate() && conn.WriteInv()
    modifies conn`outgoing, conn`written, conn`writeFailed, conn.sock`writeEvents, conn.sock`sent, conn.writebuf, conn.writebuf.data
    ensures conn.WriteInv() && (!ok ==> conn.writeFailed)
    ensures ok ==> conn.written == old(conn.written) + (Shorts(BEEP_VERSION, BEEP_USER_ADD) + BigEndian(0, 2))
    ensures ok ==> conn.writeFailed == old(conn.writeFailed) && (!conn.writeFailed ==> conn.sock.sent == conn.written)
    ensures n > 0 && len >= 6 && old(Ready(conn, n, len)) ==> ok && Sent(conn, n, len, old(conn.sock.writeEvents))
  {
    hide BigEndian, Conn.Takes, Conn.LaterWrites, S.PromptWrites;
    ghost var head := Shorts(BEEP_VERSION, BEEP_USER_ADD);
    assert 0 < Pow256(2);
    Assoc(conn.written, head, BigEndian(0, 2));
    GatheredTwice(conn.writebuf.Contents(), head, BigEndian(0, 2), conn.writebuf.data.Length);
    if n > 0 && len >= 6 && Ready(conn, n, len) { ReadyLess(conn, n, len, 6); PromptFlush(conn, n, 6); }
    ok := WriteShorts(conn, BEEP_VERSION, BEEP_USER_ADD);
    if !ok { return; }
    ok := WriteUint(conn, 0, 2);
    if !ok { return; }
    ok := conn.Flush();
  }

  /** The new id in braces, and another flush. */
  method SendId(conn: Conn, id: int, ghost n: nat, ghost len: nat) returns (ok: bool)
    requires conn.Separate() && conn.WriteInv() && IsInt64(id)
    modifies conn`outgoing, conn`written, conn`writeFailed, conn.sock`writeEvents, conn.sock`sent, conn.writebuf, conn.writebuf.data
    ensures conn.WriteInv() && (!ok ==> conn.writeFailed)
    ensures ok ==> conn.written == old(conn.written) + EncodeAll(IdValues(id))
    ensures ok ==> conn.writeFailed == old(conn.writeFailed) && (!conn.writeFailed ==> conn.sock.sent == conn.written)
    ensures n > 0 && len >= |EncodeAll(IdValues(id))| && old(Ready(conn, n, len)) ==> ok && Sent(conn, n, len, old(conn.sock.writeEvents))
  {
    hide EncodeAll, Conn.Takes, Conn.LaterWrites, S.PromptWrites;
    ghost var size := |EncodeAll(IdValues(id))|;
    IdNotEmpty(id);
    if n > 0 && len >= size && Ready(conn, n, len) { ReadyLess(conn, n, len, size); PromptFlush(conn, n, size); }
    assert AllValid(IdValues(id));
    ok := WriteAll(conn, IdValues(id));
    if !ok { return; }
    ok := conn.Flush();
  }

  /** The whole reply. */
  method SendReply(conn: Conn, id: int) returns (ok: bool)
    requires conn.Separate() && conn.WriteInv() && IsInt64(id)
    modifies conn`outgoing, conn`written, conn`writeFailed, conn.sock`writeEvents, conn.sock`sent, conn.writebuf, conn.writebuf.data
    ensures conn.WriteInv()
    ensures ok ==> conn.written == old(conn.written) + ReplyMessage(id) && conn.writeFailed == old(conn.writeFailed)
    ensures ok && !conn.writeFailed ==> conn.sock.sent == conn.written
    ensures ok ==> FitsLong(id) && conn.written == old(conn.written) + ReplyBytes(id)
    ensures !ok ==> conn.writeFailed
    ensures old(Ready(conn, 2, |ReplyMessage(id)|)) ==> ok && conn.sock.writeEvents == old(conn.sock.writeEvents)[2..]
  {
    ReplyMessageBytes(id);
    hide EncodeAll, BigEndian, Conn.WriteInv, Ready, InRange, ReplyBytes, FitsLong;
    ghost var head := Shorts(BEEP_VERSION, BEEP_USER_ADD) + BigEndian(0, 2);
    ghost var len, events := |ReplyMessage(id)|, conn.sock.writeEvents;
    Assoc(conn.written, head, EncodeAll(IdValues(id)));
    ReadyEvents(conn, 2, len);
    ok := SendStatus(conn, 2, len);
    if !ok { return; }
    ok := SendId(conn, id, 1, len);
    if |events| >= 2 { assert events[1..][1..] == events[2..]; }
  }

  lemma ReadyEvents(conn: Conn, n: nat, len: nat)
    ensures Ready(conn, n, len) ==> n <= |conn.sock.writeEvents|
  {
  }

  // ----- bdb_client.c: the client's side of the answer

  /** readbuf_read_id; where a read fails the C function returns zero, this one nothing. */
  method ReadId(conn: Conn) returns (r: Option<int>)
    requires conn.Separate() && conn.ReadInv()
    modifies conn`incoming, conn`delivered, conn.sock`inbox, conn.sock`readEvents, conn.sock`received,
             conn.sock`readFailed, conn.readbuf, conn.readbuf.data
    ensures conn.ReadInv()
    ensures r.Some? ==> IsInt64(r.value) && old(conn.Pending()) == EncodeAll(IdValues(r.value)) + conn.Pending()
    ensures Known(r.Some?, old(conn.sock.readFailed), conn.sock.readFailed, NoId(old(conn.Pending())))
    ensures old(conn.sock.inbox) == [] && r.None? ==> NoId(old(conn.Pending()))
    ensures Still(old(conn.sock.inbox), old(conn.sock.readEvents), r.Some?, conn.sock.inbox, conn.sock.readEvents)
  {
    hide Conn.ReadInv, Conn.Pending, EncodeAll, NoId, NoneHeld;
    NoValuesNoId(conn.Pending());
    var vs := ReadAll(conn, ID_SLOTS);
    if vs.None? { return None; }
    IdFromValues(vs.value);
    return Some(vs.value[1].n);
  }

  ghost predicate NoReply(stream: seq<byte>) {
    forall id: int :: IsInt64(id) ==> !(ReplyMessage(id) <= stream)
  }

  lemma OtherReply(a: nat, b: nat, status: nat, rest: seq<byte>)
    requires status < Pow256(2)
    ensures status != 0 || NoId(rest) ==> NoReply(Shorts(a, b) + BigEndian(status, 2) + rest)
  {
    hide EncodeAll, BigEndian;
    var h, h0 := Shorts(a, b), Shorts(BEEP_VERSION, BEEP_USER_ADD);
    assert 0 < Pow256(2);
    forall id: int | IsInt64(id) && ReplyMessage(id) <= h + BigEndian(status, 2) + rest
      ensures status == 0 && EncodeAll(IdValues(id)) <= rest
    {
      PrefixParts(h0 + BigEndian(0, 2), EncodeAll(IdValues(id)), h + BigEndian(status, 2), rest);
      SamePrefix(h0, BigEndian(0, 2), h, BigEndian(status, 2));
      BigEndianInjective(0, status, 2);
    }
  }

  /** readbuf_reply, the status test and the id. */
  method ReceiveReply(conn: Conn) returns (r: Option<int>, ghost head: seq<byte>)
    requires conn.Separate() && conn.ReadInv()
    modifies conn`incoming, conn`delivered, conn.sock`inbox, conn.sock`readEvents, conn.sock`received,
             conn.sock`readFailed, conn.readbuf, conn.readbuf.data
    ensures conn.ReadInv()
    ensures r.Some? ==> |head| == 6 && IsInt64(r.value)
    ensures r.Some? ==> old(conn.Pending()) == head + EncodeAll(IdValues(r.value)) + conn.Pending()
    ensures Known(r.Some?, old(conn.sock.readFailed), conn.sock.readFailed, NoReply(old(conn.Pending())))
    ensures old(Whole(conn)) && |old(conn.sock.inbox)| >= 6 ==>
              if r.None? then NoReply(old(conn.Pending())) else conn.sock.readEvents == old(conn.sock.readEvents)[1..]
  {
    hide Conn.ReadInv, Conn.Pending, Conn.Buffered, EncodeAll, BigEndian, NoId, NoReply;
    AllBuffered(conn);
    var h := ReadShorts(conn);
    if h.None? { return None, []; }
    AllBuffered(conn);
    var status := ReadUint(conn, 2);
    if status.None? { return None, []; }
    head := Shorts(h.value.0, h.value.1) + BigEndian(status.value, 2);
    Assoc(Shorts(h.value.0, h.value.1), BigEndian(status.value, 2), conn.Pending());
    OtherReply(h.value.0, h.value.1, status.value, conn.Pending());
    if status.value != 0 { return None, []; }
    r := ReadId(conn);
    if r.Some? { Assoc(head, EncodeAll(IdValues(r.value)), conn.Pending()); }
  }

  // ----- sessions

  /** The network: bytes sent on one side arrive, in order, on the other. */
  method Carry(to: Conn, bytes: seq<byte>)
    requires to.Separate() && to.ReadInv()
    modifies to.sock`inbox
    ensures to.ReadInv() && to.Pending() == old(to.Pending()) + bytes && to.sock.inbox == old(to.sock.inbox) + bytes
  {
    ghost var held := to.Buffered();
    Assoc(held, to.sock.inbox, bytes);
    to.sock.inbox := to.sock.inbox + bytes;
  }

  ghost predicate Apart(c: Conn, s: Conn) {
    && c != s && c.sock != s.sock
    && c.readbuf != s.readbuf && c.readbuf != s.writebuf && c.writebuf != s.readbuf && c.writebuf != s.writebuf
    && c.readbuf.data != s.readbuf.data && c.readbuf.data != s.writebuf.data
    && c.writebuf.data != s.readbuf.data && c.writebuf.data != s.writebuf.data
  }

  /** Between exchanges: all sent, nothing pending on either side, no failed call. */
  ghost predicate Quiet(conn: Conn)
    reads conn, conn.sock, conn.readbuf, conn.readbuf.data, conn.writebuf, conn.writebuf.data
  {
    && conn.Separate() && conn.ReadInv() && conn.WriteInv()
    && conn.Pending() == [] && conn.sock.sent == conn.written && !Failed(conn)
  }

  /** Some call on this connection has failed. */
  ghost predicate Failed(conn: Conn)
    reads conn`writeFailed, conn.sock`readFailed
  {
    conn.writeFailed || conn.sock.readFailed
  }

  lemma UserMessagesDiffer(u: User, v: User, rest: seq<byte>)
    requires u.Valid() && v.Valid() && UserMessage(u) == UserMessage(v) + rest
    ensures u == v && rest == []
  {
    hide EncodeAll, BigEndian;
    var h := Shorts(BEEP_VERSION, BEEP_USER_ADD);
    UserValuesValid(u);
    UserValuesValid(v);
    Assoc(h, EncodeAll(UserValues(v)), rest);
    SamePrefix(h, EncodeAll(UserValues(u)), h, EncodeAll(UserValues(v)) + rest);
    assert EncodeAll(UserValues(u)) + [] == EncodeAll(UserValues(u));
    SelfDelimiting(UserValues(u), [], UserValues(v), rest);
    assert UserValues(u)[1] == UserValues(v)[1] && UserValues(u)[2] == UserValues(v)[2] && UserValues(u)[3] == UserValues(v)[3];
    assert UserValues(u)[4] == UserValues(v)[4] && UserValues(u)[5] == UserValues(v)[5];
  }

  lemma RepliesDiffer(i: int, j: int, head: seq<byte>, rest: seq<byte>)
    requires IsInt64(i) && IsInt64(j) && |head| == 6 && ReplyMessage(i) == head + EncodeAll(IdValues(j)) + rest
    ensures i == j && rest == []
  {
    hide EncodeAll, BigEndian;
    var h := Shorts(BEEP_VERSION, BEEP_USER_ADD) + BigEndian(0, 2);
    Assoc(head, EncodeAll(IdValues(j)), rest);
    SamePrefix(h, EncodeAll(IdValues(i)), head, EncodeAll(IdValues(j)) + rest);
    assert EncodeAll(IdValues(i)) + [] == EncodeAll(IdValues(i));
    SelfDelimiting(IdValues(i), [], IdValues(j), rest);
    assert IdValues(i)[1] == IdValues(j)[1];
  }

  /** The next `n` reads and `m` writes of a connection go through at once. */
  ghost predicate Prompt(conn: Conn, n: nat, m: nat)
    reads conn.sock`readEvents, conn.sock`writeEvents
  {
    && S.PromptReads(conn.sock.readEvents, n, conn.readbuf.data.Length)
    && S.PromptWrites(conn.sock.writeEvents, m, conn.writebuf.data.Length)
  }

  /** The messages of an exchange fit the buffers they pass through. */
  ghost predicate FitBuffers(c: Conn, s: Conn, u: User, id: int) {
    && |UserMessage(u)| <= c.writebuf.data.Length && |UserMessage(u)| <= s.readbuf.data.Length
    && |ReplyMessage(id)| <= s.writebuf.data.Length && |ReplyMessage(id)| <= c.readbuf.data.Length
  }

  lemma PromptReady(conn: Conn, n: nat, m: nat, k: nat, len: nat)
    requires Quiet(conn) && Prompt(conn, n, m) && len <= conn.writebuf.data.Length && k <= m
    ensures Ready(conn, k, len)
  {
  }

  lemma PromptWhole(conn: Conn, n: nat, m: nat)
    requires Prompt(conn, n, m) && n > 0 && conn.ReadInv() && conn.Buffered() == []
    requires 0 < |conn.sock.inbox| <= conn.readbuf.data.Length
    ensures Whole(conn)
  {
  }

  lemma QuietIsEmpty(conn: Conn)
    requires Quiet(conn)
    ensures conn.Buffered() == [] && conn.sock.inbox == []
  {
  }

  lemma MessageLengths(u: User, id: int)
    ensures |UserMessage(u)| >= 4 && |ReplyMessage(id)| >= 6
  {
    hide EncodeAll, BigEndian;
  }

  /** Between the request and its answer: the message waits on the server's socket, and is all there is. */
  ghost predicate Asked(s: Conn, message: seq<byte>)
    reads s, s.sock, s.readbuf, s.readbuf.data, s.writebuf, s.writebuf.data
  {
    && s.Separate() && s.ReadInv() && s.WriteInv() && s.Buffered() == [] && s.sock.inbox == message
    && s.sock.sent == s.written && !Failed(s)
  }

  /** The client sends, and the network carries. */
  method Ask(c: Conn, s: Conn, u: User, ghost k: nat) returns (ok: bool)
    requires Apart(c, s) && Quiet(c) && Quiet(s) && u.Valid()
    modifies c, c.sock, c.readbuf, c.readbuf.data, c.writebuf, c.writebuf.data, s.sock`inbox
    ensures ok ==> Quiet(c) && Asked(s, UserMessage(u))
    ensures !ok ==> Failed(c)
    ensures k > 0 && old(Prompt(c, k, k)) && |UserMessage(u)| <= c.writebuf.data.Length ==> ok && Prompt(c, k, k - 1)
  {
    hide Conn.ReadInv, Conn.WriteInv, Conn.Pending, Conn.Buffered, UserMessage, EncodeAll, Ready, UserBytes, FitsLong, User.Valid;
    var n := |c.sock.sent|;
    ghost var sent0 := c.sock.sent;
    if k > 0 && Prompt(c, k, k) && |UserMessage(u)| <= c.writebuf.data.Length { PromptReady(c, k, k, 1, |UserMessage(u)|); }
    QuietIsEmpty(s);
    ok := UserSend(c, u);
    if !ok { return; }
    assert c.sock.sent == sent0 + UserMessage(u);
    Carry(s, c.sock.sent[n..]);
    AllBuffered(s);
  }

  /** The server serves. */
  method Answer(s: Conn, ghost u: User, id: int, ghost k: nat) returns (got: Option<User>)
    requires u.Valid() && Asked(s, UserMessage(u)) && IsInt64(id)
    modifies s, s.sock, s.readbuf, s.readbuf.data, s.writebuf, s.writebuf.data
    ensures got.Some? ==> got.value == u && Quiet(s) && s.sock.sent == old(s.sock.sent) + ReplyMessage(id)
    ensures got.None? ==> Failed(s)
    ensures k > 0 && old(Prompt(s, k, 2 * k)) &&
            |UserMessage(u)| <= s.readbuf.data.Length && |ReplyMessage(id)| <= s.writebuf.data.Length ==>
              got.Some? && Prompt(s, k - 1, 2 * k - 2)
  {
    hide Conn.ReadInv, Conn.WriteInv, Conn.Pending, Conn.Buffered, UserMessage, ReplyMessage, EncodeAll, InRange, Ready, Whole;
    MessageLengths(u, id);
    AllBuffered(s);
    if k > 0 && Prompt(s, k, 2 * k) && |UserMessage(u)| <= s.readbuf.data.Length && |ReplyMessage(id)| <= s.writebuf.data.Length {
      PromptWhole(s, k, 2 * k);
      ServerReady(s, k, |ReplyMessage(id)|);
    }
    got := Serve(s, id);
    if got.Some? { UserMessagesDiffer(u, got.value, s.Pending()); }
  }

  lemma ServerReady(s: Conn, k: nat, len: nat)
    requires s.WriteInv() && s.sock.sent == s.written && !s.writeFailed
    requires Prompt(s, k, 2 * k) && k > 0 && len <= s.writebuf.data.Length
    ensures Ready(s, 2, len)
  {
  }

  /** The request half of an exchange. */
  method Request(c: Conn, s: Conn, u: User, id: int, ghost k: nat) returns (got: Option<User>)
    requires Apart(c, s) && Quiet(c) && Quiet(s) && u.Valid() && IsInt64(id)
    modifies c, c.sock, c.readbuf, c.readbuf.data, c.writebuf, c.writebuf.data
    modifies s, s.sock, s.readbuf, s.readbuf.data, s.writebuf, s.writebuf.data
    ensures got.Some? ==> got.value == u && Quiet(c) && Quiet(s) && s.sock.sent == old(s.sock.sent) + ReplyMessage(id)
    ensures got.None? ==> Failed(c) || Failed(s)
    ensures k > 0 && old(Prompt(c, k, k)) && old(Prompt(s, k, 2 * k)) && FitBuffers(c, s, u, id) ==>
              got.Some? && Prompt(c, k, k - 1) && Prompt(s, k - 1, 2 * k - 2)
  {
    hide Quiet, Asked, User.Valid, InRange, ReplyMessage, UserMessage, S.PromptReads, S.PromptWrites;
    var ok := Ask(c, s, u, k);
    if !ok { return None; }
    got := Answer(s, u, id, k);
  }

  /** The reply half: the network carries the server's reply, the client reads it. */
  method Reply(c: Conn, reply: seq<byte>, ghost id: int, ghost k: nat) returns (newId: Option<int>)
    requires Quiet(c) && IsInt64(id) && reply == ReplyMessage(id)
    modifies c`incoming, c`delivered, c.sock`inbox, c.sock`readEvents, c.sock`received, c.sock`readFailed,
             c.readbuf, c.readbuf.data
    ensures newId.Some? ==> newId.value == id && Quiet(c)
    ensures newId.None? ==> Failed(c)
    ensures k > 0 && old(Prompt(c, k, k - 1)) && |ReplyMessage(id)| <= c.readbuf.data.Length ==>
              newId.Some? && Prompt(c, k - 1, k - 1)
  {
    hide Conn.ReadInv, Conn.WriteInv, Conn.Pending, Conn.Buffered, ReplyMessage, EncodeAll, InRange, Whole;
    ghost var prompt := k > 0 && Prompt(c, k, k - 1) && |ReplyMessage(id)| <= c.readbuf.data.Length;
    MessageLengths(User(0, [], [], [], 0), id);
    QuietIsEmpty(c);
    Carry(c, reply);
    assert c.Pending() == ReplyMessage(id) && c.sock.inbox == ReplyMessage(id);
    if prompt { PromptWhole(c, k, k - 1); }
    ghost var head;
    newId, head := ReceiveReply(c);
    if newId.Some? { RepliesDiffer(id, newId.value, head, c.Pending()); }
  }

  /**
   One exchange from a quiet state. Unless a call fails, the server got the user that was sent, the
   client got the id the server answered with, and both streams are drained again. No call fails when
   each message arrives in one delivery and fits the buffers.
   */
  method Exchange(c: Conn, s: Conn, u: User, id: int, ghost k: nat) returns (got: Option<User>, newId: Option<int>)
    requires Apart(c, s) && Quiet(c) && Quiet(s) && u.Valid() && IsInt64(id)
    modifies c, c.sock, c.readbuf, c.readbuf.data, c.writebuf, c.writebuf.data
    modifies s, s.sock, s.readbuf, s.readbuf.data, s.writebuf, s.writebuf.data
    ensures got.Some? ==> got.value == u
    ensures newId.Some? ==> got.Some? && newId.value == id && Quiet(c) && Quiet(s)
    ensures newId.None? ==> Failed(c) || Failed(s)
    ensures k > 0 && old(Prompt(c, k, k)) && old(Prompt(s, k, 2 * k)) && FitBuffers(c, s, u, id) ==>
              newId.Some? && Prompt(c, k - 1, k - 1) && Prompt(s, k - 1, 2 * k - 2)
  {
    hide Quiet, User.Valid, ReplyMessage, UserMessage, InRange, Prompt;
    newId := None;
    var n := |s.sock.sent|;
    got := Request(c, s, u, id, k);
    if got.None? { return; }
    newId := Reply(c, s.sock.sent[n..], id, k);
  }

  /**
   A session. In every run the k-th exchange that completes answers the k-th request: the users
   received and the ids read are those of the requests, in order, and the streams are drained
   after each. A session ends early only at an exchange with a failed call, and not at all when the
   sockets are prompt and the messages fit the buffers.
   */
  method Session(c: Conn, s: Conn, users: seq<User>, ids: seq<int>) returns (got: seq<User>, newIds: seq<int>)
    requires Apart(c, s) && Quiet(c) && Quiet(s) && |users| == |ids|
    requires forall i :: 0 <= i < |users| ==> users[i].Valid() && IsInt64(ids[i])
    modifies c, c.sock, c.readbuf, c.readbuf.data, c.writebuf, c.writebuf.data
    modifies s, s.sock, s.readbuf, s.readbuf.data, s.writebuf, s.writebuf.data
    ensures |newIds| <= |got| <= |users| && |got| <= |newIds| + 1
    ensures got == users[..|got|] && newIds == ids[..|newIds|]
    ensures |newIds| == |users| ==> Quiet(c) && Quiet(s)
    ensures |newIds| < |users| ==> Failed(c) || Failed(s)
    ensures (&& old(Prompt(c, |users|, |users|)) && old(Prompt(s, |users|, 2 * |users|))
             && forall i :: 0 <= i < |users| ==> FitBuffers(c, s, users[i], ids[i])) ==>
              |newIds| == |users|
  {
    hide Quiet, User.Valid, Prompt, FitBuffers;
    got, newIds := [], [];
    ghost var prompt := Prompt(c, |users|, |users|) && Prompt(s, |users|, 2 * |users|)
      && forall i :: 0 <= i < |users| ==> FitBuffers(c, s, users[i], ids[i]);
    while |newIds| < |users|
      invariant |got| == |newIds| <= |users| && got == users[..|got|] && newIds == ids[..|newIds|]
      invariant Quiet(c) && Quiet(s)
      invariant prompt ==> Prompt(c, |users| - |got|, |users| - |got|) && Prompt(s, |users| - |got|, 2 * (|users| - |got|))
    {
      var k := |got|;
      var u, id := Exchange(c, s, users[k], ids[k], |users| - k);
      if u.None? { return; }
      got := got + [u.value];
      if id.None? { return; }
      newIds := newIds + [id.value];
    }
  }
}
