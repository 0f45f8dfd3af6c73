/** Whole runs of a buffered connection: it refines two plain byte streams. */
module ConnectionRun {
  import opened Common
  import opened Bytes
  import opened Connection

  datatype Op = GetByte | UngetByte | ReadBytes(n: nat) | WriteBytes(s: seq<byte>) | FlushAll

  /** The bytes a sequence of calls writes. */
  function WrittenBy(ops: seq<Op>): seq<byte> {
    if ops == [] then [] else
    WrittenBy(ops[..|ops| - 1]) + (match ops[|ops| - 1] case WriteBytes(s) => s case _ => [])
  }

  /**
   Runs calls on a new connection up to the first that fails. Whatever the socket does, what the
   caller was given is a prefix of what the peer sent, in order, and the rest is still pending;
   every received byte is counted; and the socket has sent a prefix of what was written, the whole
   of it but for what the write buffer holds.
   */
  method Run(conn: Conn, ops: seq<Op>) returns (got: seq<byte>, done: nat)
    requires conn.Valid() && conn.delivered == [] && conn.written == [] && !conn.writeFailed && !conn.sock.readFailed
    requires forall i :: 0 <= i < |ops| && ops[i].ReadBytes? ==> ops[i].n != 0
    modifies conn, conn.sock, conn.readbuf, conn.readbuf.data, conn.writebuf, conn.writebuf.data
    ensures conn.Valid() && done <= |ops| && got <= conn.delivered
    ensures conn.delivered + conn.Pending() == old(conn.Pending())
    ensures conn.sock.received == conn.delivered + conn.readbuf.Contents() && conn.incoming == |conn.sock.received|
    ensures done == |ops| ==> got == conn.delivered && conn.written == WrittenBy(ops)
    ensures done == |ops| ==> !conn.writeFailed && !conn.sock.readFailed
    ensures conn.sock.sent <= conn.written <= WrittenBy(if done == |ops| then ops else ops[..done + 1])
    ensures !conn.writeFailed ==> conn.sock.sent + conn.writebuf.Contents() == conn.written && conn.outgoing == |conn.sock.sent|
    ensures done < |ops| ==> MayFail(conn, ops[done])
  {
    hide Conn.ReadInv, Conn.WriteInv, Conn.Pending, Conn.Buffered, MayFail;
    got, done := [], 0;
    ghost var all := conn.Pending();
    assert ops[..0] == [];
    while done < |ops|
      invariant conn.Valid() && done <= |ops| && got == conn.delivered && !conn.writeFailed && !conn.sock.readFailed
      invariant got + conn.Pending() == all && conn.written == WrittenBy(ops[..done])
    {
      assert ops[..done + 1][..done] == ops[..done];
      var ok;
      got, ok := Step(conn, ops[done], got);
      if !ok {
        Accounts(conn);
        return;
      }
      done := done + 1;
    }
    Accounts(conn);
    assert ops[..done] == ops;
  }

  /** Why a call failed: the socket did, or there was no byte left in the buffer to step back to. */
  ghost predicate MayFail(conn: Conn, op: Op)
    reads conn`writeFailed, conn.sock`readFailed, conn.readbuf`nread
  {
    match op
    case GetByte => conn.sock.readFailed
    case ReadBytes(_) => conn.sock.readFailed
    case UngetByte => conn.readbuf.nread == 0
    case WriteBytes(_) => conn.writeFailed
    case FlushAll => conn.writeFailed
  }

  /** One call. */
  method Step(conn: Conn, op: Op, given: seq<byte>) returns (got: seq<byte>, ok: bool)
    requires conn.Valid() && given == conn.delivered && !conn.writeFailed && !conn.sock.readFailed && (op.ReadBytes? ==> op.n != 0)
    modifies conn, conn.sock, conn.readbuf, conn.readbuf.data, conn.writebuf, conn.writebuf.data
    ensures conn.Valid() && conn.delivered + conn.Pending() == old(conn.delivered + conn.Pending())
    ensures got <= conn.delivered && (ok ==> got == conn.delivered && !conn.writeFailed && !conn.sock.readFailed)
    ensures conn.written == old(conn.written) + (match op case WriteBytes(s) => s case _ => [])
    ensures conn.sock.sent <= conn.written && (!ok ==> MayFail(conn, op))
  {
    hide Conn.ReadInv, Conn.Pending, Conn.Buffered;
    got, ok := given, true;
    ghost var before := conn.delivered;
    ghost var rest := conn.Pending();
    match op
    case GetByte =>
      var c := conn.GetC();
      if c.None? { return got, false; }
      Assoc(before, [c.value], conn.Pending());
      got := got + [c.value];
    case UngetByte =>
      ok := conn.UngetC();
      if ok {
        Assoc(conn.delivered, [before[|conn.delivered|]], rest);
        assert conn.delivered == before[..|before| - 1];
        got := got[..|got| - 1];
      }
    case ReadBytes(n) =>
      ghost var held := conn.Buffered();
      PendingSplit(conn);
      var r := conn.Read(n);
      if r.None? {
        Assoc(before, held, conn.Pending());
        return got, false;
      }
      Assoc(before, r.value, conn.Pending());
      got := got + r.value;
    case WriteBytes(s) =>
      ok := conn.Write(s);
    case FlushAll =>
      ok := conn.Flush();
      assert conn.written == conn.written + [];
  }

  /** What the invariants say about the bytes on the socket. */
  lemma Accounts(conn: Conn)
    requires conn.Valid()
    ensures conn.sock.received == conn.delivered + conn.readbuf.Contents() && conn.incoming == |conn.sock.received|
    ensures !conn.writeFailed ==> conn.sock.sent + conn.writebuf.Contents() == conn.written && conn.outgoing == |conn.sock.sent|
    ensures !conn.writeFailed ==> conn.sock.sent <= conn.written
  {
  }

  lemma PendingSplit(conn: Conn)
    requires conn.ReadInv()
    ensures conn.Pending() == conn.Buffered() + conn.sock.inbox
    ensures conn.Buffered() == conn.readbuf.Contents()
  {
  }
}
