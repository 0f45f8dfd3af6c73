/**
 The buffered connection. `delivered` and `written` are the two byte streams a caller sees; the
 invariants tie them to what the socket received and sent, whatever the buffers hold.
 */
module Connection {
  import opened Common
  import opened Bytes
  import M = Membuf
  import S = Socket

  const NEWLINE: byte := 10

  /** Where connection_gets stops: after the first newline, or at `max` bytes; never, if the stream ends before. */
  function LineEnd(s: seq<byte>, max: nat): (r: Option<nat>)
    ensures r.Some? ==> r.value <= |s| && r.value <= max && (max > 0 ==> r.value > 0)
  {
    if max == 0 then Some(0)
    else if s == [] then None
    else if s[0] == NEWLINE then Some(1)
    else
      match LineEnd(s[1..], max - 1)
      case None => None
      case Some(k) => Some(k + 1)
  }

  /** The line ends at the first byte 10, or at the limit if there is none before it. */
  lemma {:induction false} LineEndExactly(s: seq<byte>, max: nat, k: nat)
    ensures LineEnd(s, max) == Some(k) <==>
            k <= |s| && k <= max && (k == max || (k > 0 && s[k - 1] == 10)) && forall i :: 0 <= i < k - 1 ==> s[i] != 10
  {
    if max > 0 && s != [] && s[0] != 10 && k > 0 {
      LineEndExactly(s[1..], max - 1, k - 1);
      if 1 < k <= |s| { assert s[1..][k - 2] == s[k - 1]; }
      assert forall i :: 0 < i < k - 1 && i < |s| ==> s[i] == s[1..][i - 1];
    }
  }

  /** The line so far has no newline, so the search goes on behind it. */
  lemma {:induction false} LineEndSkips(a: seq<byte>, b: seq<byte>, max: nat)
    requires |a| <= max && NEWLINE !in a
    ensures var r := LineEnd(b, max - |a|);
            LineEnd(a + b, max) == if r.Some? then Some(|a| + r.value) else None
  {
    if a == [] {
      assert a + b == b;
    } else {
      assert (a + b)[1..] == a[1..] + b;
      LineEndSkips(a[1..], b, max - 1);
    }
  }

  /** The bytes before the read position stay the last ones delivered when more are read. */
  lemma Passed(data: seq<byte>, n: nat, s: seq<byte>, delivered: seq<byte>)
    requires n <= |delivered| && n + |s| <= |data|
    requires data[..n] == delivered[|delivered| - n..] && data[n..n + |s|] == s
    ensures data[..n + |s|] == (delivered + s)[|delivered| - n..]
  {
    assert data[..n + |s|] == data[..n] + data[n..n + |s|];
    assert (delivered + s)[|delivered| - n..] == delivered[|delivered| - n..] + s;
  }

  class Conn {
    const sock: S.Stream
    const readbuf: M.Buffer
    const writebuf: M.Buffer
    const retriesReads: nat
    const retriesWrites: nat
    var incoming: nat
    var outgoing: nat
    ghost var delivered: seq<byte>
    ghost var written: seq<byte>
    ghost var writeFailed: bool

    ghost predicate Separate() {
      readbuf != writebuf && readbuf.data != writebuf.data && readbuf.data.Length > 0
    }

    /** Every received byte was delivered or is buffered; the bytes before the read position can be ungot. */
    ghost predicate ReadInv()
      reads this`incoming, this`delivered, sock`received, readbuf, readbuf.data
    {
      && readbuf.Valid()
      && sock.received == delivered + readbuf.Contents()
      && incoming == |sock.received|
      && readbuf.nread <= |delivered|
      && readbuf.data[..readbuf.nread] == delivered[|delivered| - readbuf.nread..]
    }

    /** Until a write fails, the bytes written are those sent followed by those buffered. */
    ghost predicate WriteInv()
      reads this`outgoing, this`written, this`writeFailed, sock`sent, writebuf, writebuf.data
    {
      && writebuf.Valid() && writebuf.nread == 0
      && (!writeFailed ==> written == sock.sent + writebuf.Contents() && outgoing == |sock.sent|)
    }

    ghost predicate Valid()
      reads this, sock, readbuf, readbuf.data, writebuf, writebuf.data
    {
      Separate() && ReadInv() && WriteInv()
    }

    ghost function Buffered(): seq<byte>
      requires ReadInv()
      reads this`incoming, this`delivered, sock`received, readbuf, readbuf.data
    {
      readbuf.Contents()
    }

    /** What the peer has sent and the caller has not yet read. */
    ghost function Pending(): seq<byte>
      requires ReadInv()
      reads this`incoming, this`delivered, sock`inbox, sock`received, readbuf, readbuf.data
    {
      Buffered() + sock.inbox
    }

    /** How many bytes the next read of the socket brings, with room for so many. */
    ghost function Delivery(room: nat): (n: nat)
      reads sock`inbox, sock`readEvents
      ensures n <= room && n <= |sock.inbox|
    {
      S.Delivered(sock.readEvents, retriesReads, S.Min(room, |sock.inbox|))
    }

    /** The events left after that read. */
    ghost function Later(room: nat): seq<S.ReadEvent>
      reads sock`inbox, sock`readEvents
    {
      S.AfterRead(sock.readEvents, retriesReads, S.Min(room, |sock.inbox|))
    }

    /** The room for a socket read that is to bring `missing` bytes: the buffer, or the caller's own. */
    ghost function Reach(missing: nat): nat {
      if readbuf.data.Length < missing then missing else readbuf.data.Length
    }

    /** The kernel will take this many bytes within the retries, before the socket fails. */
    ghost predicate Takes(count: nat)
      reads sock`writeEvents
    {
      S.Fits(sock.writeEvents, retriesWrites, count)
    }

    /** The events left after such a write. */
    ghost function LaterWrites(count: nat): seq<S.WriteEvent>
      reads sock`writeEvents
    {
      S.AfterWrite(sock.writeEvents, retriesWrites, count)
    }

    /** A new connection, with the empty buffers that are assigned to it. */
    constructor (sock: S.Stream, rb: M.Buffer, wb: M.Buffer, retriesReads: nat, retriesWrites: nat)
      requires sock.received == [] && sock.sent == [] && !sock.readFailed
      requires rb != wb && rb.data != wb.data && rb.data.Length > 0
      requires rb.Valid() && rb.nwritten == 0 && wb.Valid() && wb.nwritten == 0
      ensures Valid() && this.sock == sock && readbuf == rb && writebuf == wb
      ensures delivered == [] && written == [] && !writeFailed && !sock.readFailed
    {
      this.sock, readbuf, writebuf := sock, rb, wb;
      this.retriesReads, this.retriesWrites := retriesReads, retriesWrites;
      incoming, outgoing, delivered, written, writeFailed := 0, 0, [], [], false;
      new;
      assert rb.nread == 0 && rb.data[..0] == [] && rb.Contents() == [] && wb.Contents() == [];
    }

    // ----- reading

    /** fill_read_buffer. */
    method Fill() returns (ok: bool)
      requires Separate() && ReadInv() && readbuf.Contents() == []
      modifies this`incoming, sock`inbox, sock`readEvents, sock`received, sock`readFailed, readbuf, readbuf.data
      ensures ReadInv() && Pending() == old(Pending())
      ensures ok ==> readbuf.Contents() != [] && sock.readFailed == old(sock.readFailed)
      ensures !ok ==> sock.readFailed && readbuf.Contents() == []
      ensures ok <==> old(Delivery(readbuf.data.Length)) > 0
      ensures ok ==> |readbuf.Contents()| == old(Delivery(readbuf.data.Length))
      ensures sock.readEvents == old(Later(readbuf.data.Length))
    {
      readbuf.Reset();
      var r := sock.Read(readbuf.data.Length, retriesReads);
      if r.None? { return false; }
      incoming := incoming + |r.value|;
      readbuf.SetWritten(r.value);
      return true;
    }

    method GetC() returns (c: Option<byte>)
      requires Separate() && ReadInv()
      modifies this`incoming, this`delivered, sock`inbox, sock`readEvents, sock`received, sock`readFailed, readbuf, readbuf.data
      ensures ReadInv()
      ensures c.Some? ==> old(Pending()) == [c.value] + Pending() && delivered == old(delivered) + [c.value]
      ensures c.Some? ==> sock.readFailed == old(sock.readFailed)
      ensures c.None? ==> Pending() == old(Pending()) && delivered == old(delivered) && sock.readFailed
      ensures old(Buffered()) != [] ==> c.Some? && old(Buffered()) == [c.value] + Buffered()
      ensures c.Some? ==> (readbuf.nread > 0 <==> Buffered() != [])
      ensures c.Some? <==> old(Buffered()) != [] || old(Delivery(readbuf.data.Length)) > 0
      ensures old(Buffered()) != [] ==> sock.inbox == old(sock.inbox) && sock.readEvents == old(sock.readEvents)
      ensures old(Buffered()) == [] && c.Some? ==> |Buffered()| + 1 == old(Delivery(readbuf.data.Length))
    {
      if readbuf.CanRead() == 0 {
        var ok := Fill();
        if !ok { return None; }
      }
      ghost var before := readbuf.Contents();
      var one := ReadBuffered(1);
      Assoc(one, readbuf.Contents(), sock.inbox);
      assert one == [one[0]];
      return Some(one[0]);
    }

    /** connection_ungetc: succeeds while the buffer still holds a later byte, and takes back the last byte. */
    method UngetC() returns (ok: bool)
      requires Separate() && ReadInv()
      modifies this`delivered, readbuf`nread
      ensures ReadInv() && ok == (old(readbuf.nread) > 0)
      ensures ok ==> |old(delivered)| == |delivered| + 1
      ensures ok ==> delivered + [old(delivered)[|delivered|]] == old(delivered)
      ensures ok ==> Pending() == [old(delivered)[|delivered|]] + old(Pending())
      ensures !ok ==> Pending() == old(Pending()) && delivered == old(delivered) && readbuf.nread == 0
    {
      ghost var last := if delivered == [] then 0 else delivered[|delivered| - 1];
      ghost var n := readbuf.nread;
      ghost var passed := readbuf.data[..n];
      ok := readbuf.Unget();
      if ok {
        assert last == passed[n - 1] == readbuf.data[n - 1];
        delivered := delivered[..|delivered| - 1];
        assert old(delivered) == delivered + [last];
        assert readbuf.data[..readbuf.nread] == passed[..n - 1];
      }
    }

    /**
     connection_read: from the buffer, then from one more read of the socket. Success delivers at
     least one byte; a failure drops what was buffered.
     */
    method Read(count: nat) returns (r: Option<seq<byte>>)
      requires Separate() && ReadInv() && count != 0
      modifies this`incoming, this`delivered, sock`inbox, sock`readEvents, sock`received, sock`readFailed, readbuf, readbuf.data
      ensures ReadInv()
      ensures r.Some? ==> 0 < |r.value| <= count && sock.readFailed == old(sock.readFailed)
      ensures r.Some? ==> old(Pending()) == r.value + Pending() && delivered == old(delivered) + r.value
      ensures r.None? ==> sock.readFailed && delivered == old(delivered + readbuf.Contents()) && Pending() == old(sock.inbox)
      ensures count <= |old(Buffered())| ==> r.Some? && |r.value| == count && old(Buffered()) == r.value + Buffered()
      ensures count <= |old(Buffered())| ==> sock.inbox == old(sock.inbox) && sock.readEvents == old(sock.readEvents)
      ensures count > |old(Buffered())| ==>
                var b := |old(Buffered())|;
                var n := old(Delivery(Reach(count - |Buffered()|)));
                && (r.Some? <==> n > 0)
                && (r.Some? ==> |r.value| == b + S.Min(count - b, n))
                && (r.Some? && count - b <= readbuf.data.Length ==>
                      |sock.inbox| == |old(sock.inbox)| - n && sock.readEvents == old(Later(readbuf.data.Length)))
    {
      var first := ReadBuffered(count);
      Assoc(first, readbuf.Contents(), sock.inbox);
      if |first| == count { return Some(first); }
      assert old(Pending()) == first + sock.inbox && old(readbuf.Contents()) == first;
      if readbuf.data.Length < count - |first| {
        var direct := ReadDirect(count - |first|);
        if direct.None? { return None; }
        Assoc(first, direct.value, Pending());
        Assoc(old(delivered), first, direct.value);
        return Some(first + direct.value);
      }
      var ok := Fill();
      if !ok { return None; }
      var second := ReadBuffered(count - |first|);
      Assoc(second, readbuf.Contents(), sock.inbox);
      Assoc(first, second, Pending());
      Assoc(old(delivered), first, second);
      return Some(first + second);
    }

    /** read_from_socket, past an empty read buffer. */
    method ReadDirect(count: nat) returns (r: Option<seq<byte>>)
      requires Separate() && ReadInv() && readbuf.Contents() == []
      modifies this`incoming, this`delivered, sock`inbox, sock`readEvents, sock`received, sock`readFailed
      ensures ReadInv() && readbuf.Contents() == []
      ensures r.Some? ==> 0 < |r.value| <= count && sock.readFailed == old(sock.readFailed)
      ensures r.Some? ==> old(sock.inbox) == r.value + Pending() && delivered == old(delivered) + r.value
      ensures r.None? ==> sock.readFailed && delivered == old(delivered) && sock.inbox == old(sock.inbox)
      ensures r.Some? <==> old(Delivery(count)) > 0
      ensures r.Some? ==> |r.value| == old(Delivery(count))
    {
      r := sock.Read(count, retriesReads);
      if r.None? { return; }
      incoming := incoming + |r.value|;
      delivered := delivered + r.value;
      assert Pending() == sock.inbox;
    }

    /** copy_from_readbuf. */
    method ReadBuffered(count: nat) returns (s: seq<byte>)
      requires Separate() && ReadInv() && count != 0
      modifies this`delivered, readbuf
      ensures ReadInv() && delivered == old(delivered) + s
      ensures old(readbuf.Contents()) == s + readbuf.Contents()
      ensures |s| == count || (|s| < count && readbuf.Contents() == [] && readbuf.nread == 0)
      ensures old(readbuf.Contents()) != [] ==> s != []
      ensures if readbuf.Contents() == [] then readbuf.nread == 0 else readbuf.nread == old(readbuf.nread) + |s|
    {
      ghost var n, d := readbuf.nread, readbuf.data[..];
      s := readbuf.Read(count);
      Assoc(delivered, s, readbuf.Contents());
      if readbuf.Contents() != [] { Passed(d, n, s, delivered); }
      delivered := delivered + s;
    }

    /** connection_gets: one line of the pending stream, however it is cut into reads. */
    method Gets(destsize: nat) returns (r: Option<seq<byte>>)
      requires Separate() && ReadInv() && destsize > 0
      modifies this`incoming, this`delivered, sock`inbox, sock`readEvents, sock`received, sock`readFailed, readbuf, readbuf.data
      ensures ReadInv()
      ensures r.Some? ==> old(Pending()) == r.value + Pending() && LineEnd(old(Pending()), destsize) == Some(|r.value|)
      ensures r.Some? ==> delivered == old(delivered) + r.value && sock.readFailed == old(sock.readFailed)
      ensures r.None? ==> sock.readFailed && |delivered| >= |old(delivered)|
      ensures r.None? ==> var line := delivered[|old(delivered)|..];
                          && delivered == old(delivered) + line && old(Pending()) == line + Pending()
                          && NEWLINE !in line && |line| < destsize
    {
      hide ReadInv, Pending;
      var line := [];
      ghost var all := Pending();
      while |line| < destsize
        invariant Separate() && ReadInv() && |line| <= destsize && NEWLINE !in line
        invariant all == line + Pending() && delivered == old(delivered) + line
        invariant sock.readFailed == old(sock.readFailed)
      {
        ghost var rest := Pending();
        var c := GetC();
        if c.None? { return None; }
        LineEndSkips(line, rest, destsize);
        Assoc(line, [c.value], Pending());
        Assoc(old(delivered), line, [c.value]);
        line := line + [c.value];
        if c.value == NEWLINE { return Some(line); }
      }
      LineEndSkips(line, Pending(), destsize);
      return Some(line);
    }

    // ----- writing

    /** connection_flush: on success everything written has been sent. */
    method Flush() returns (ok: bool)
      requires Separate() && WriteInv()
      modifies this`outgoing, this`writeFailed, sock`writeEvents, sock`sent, writebuf
      ensures WriteInv() && (old(writeFailed) ==> writeFailed)
      ensures ok ==> writeFailed == old(writeFailed) && writebuf.Contents() == [] && (!writeFailed ==> sock.sent == written)
      ensures !ok ==> writeFailed && (!old(writeFailed) ==> sock.sent <= written)
      ensures ok <==> old(writebuf.Contents()) == [] || old(Takes(|writebuf.Contents()|))
      ensures sock.writeEvents == old(LaterWrites(|writebuf.Contents()|))
    {
      var count := writebuf.CanRead();
      if count == 0 { return true; }
      var bytes := writebuf.data[..count];
      assert bytes == writebuf.Contents();
      ok := sock.Write(bytes, retriesWrites);
      if ok {
        outgoing := outgoing + count;
        writebuf.Reset();
      } else {
        writeFailed := true;
      }
    }

    /** connection_write: appends to the written stream; on failure the socket holds a prefix of it. */
    method Write(buf: seq<byte>) returns (ok: bool)
      requires Separate() && WriteInv()
      modifies this`outgoing, this`written, this`writeFailed, sock`writeEvents, sock`sent, writebuf, writebuf.data
      ensures WriteInv() && written == old(written) + buf && (old(writeFailed) ==> writeFailed)
      ensures ok ==> writeFailed == old(writeFailed)
      ensures !ok ==> writeFailed && (!old(writeFailed) ==> sock.sent <= written)
      ensures |old(writebuf.Contents())| + |buf| <= writebuf.data.Length ==>
                ok && writebuf.Contents() == old(writebuf.Contents()) + buf && sock.writeEvents == old(sock.writeEvents)
      ensures |old(writebuf.Contents())| + |buf| > writebuf.data.Length ==>
                var n := |old(writebuf.Contents())|;
                (ok <==> && (n == 0 || old(Takes(|writebuf.Contents()|)))
                         && (|buf| <= writebuf.data.Length || S.Fits(old(LaterWrites(|writebuf.Contents()|)), retriesWrites, |buf|)))
    {
      hide S.Fits, S.AfterWrite, S.Taken;
      if writebuf.CanWrite() < |buf| {
        ok := Flush();
        if !ok {
          written := written + buf;
          return false;
        }
      }
      if writebuf.CanWrite() >= |buf| {
        var n := writebuf.Write(buf);
        assert buf[..n] == buf;
        written := written + buf;
        return true;
      }
      ok := sock.Write(buf, retriesWrites);
      written := written + buf;
      if ok {
        outgoing := outgoing + |buf|;
      } else {
        writeFailed := true;
      }
    }
  }
}
