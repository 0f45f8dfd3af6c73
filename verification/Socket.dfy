/**
 A TCP socket. The peer's bytes wait in `inbox`; `readEvents` and `writeEvents` say what the kernel
 does at each system call, so a statement for all of them is one for every fragmentation.
 */
module Socket {
  import opened Common
  import opened Bytes

  datatype ReadEvent = PollFails(again: bool) | ReadFails(again: bool) | Delivers(most: nat)
  datatype WriteEvent = PollOutFails(again: bool) | WriteFails | Takes(most: nat)

  function Min(a: nat, b: nat): nat {
    if a < b then a else b
  }

  // ----- what a script does to a call

  /** How many bytes a read gets that has room for `room`: the first delivery within the retries, else none. */
  function Delivered(events: seq<ReadEvent>, retries: nat, room: nat): (n: nat)
    ensures n <= room
  {
    if events == [] then 0
    else if events[0].Delivers? && Min(events[0].most, room) > 0 then Min(events[0].most, room)
    else if !events[0].Delivers? && !events[0].again then 0
    else if retries == 0 then 0
    else Delivered(events[1..], retries - 1, room)
  }

  /** The events left after that read. */
  function AfterRead(events: seq<ReadEvent>, retries: nat, room: nat): seq<ReadEvent> {
    if events == [] then []
    else if events[0].Delivers? && Min(events[0].most, room) > 0 then events[1..]
    else if (!events[0].Delivers? && !events[0].again) || retries == 0 then events[1..]
    else AfterRead(events[1..], retries - 1, room)
  }

  /** How many of `count` bytes a write gets rid of. */
  function Taken(events: seq<WriteEvent>, retries: nat, count: nat): (n: nat)
    ensures n <= count
  {
    if count == 0 || events == [] || !Passing(events[0]) then 0
    else
      var n := if events[0].Takes? then Min(events[0].most, count) else 0;
      if retries == 0 then n else n + Taken(events[1..], retries - 1, count - n)
  }

  function AfterWrite(events: seq<WriteEvent>, retries: nat, count: nat): seq<WriteEvent> {
    if count == 0 || events == [] then events
    else if !Passing(events[0]) || retries == 0 then events[1..]
    else
      var n := if events[0].Takes? then Min(events[0].most, count) else 0;
      AfterWrite(events[1..], retries - 1, count - n)
  }

  // ----- when a call succeeds

  /** A timeout, or nothing to read: worth another try. */
  predicate Transient(e: ReadEvent) {
    match e
    case Delivers(most) => most == 0
    case _ => e.again
  }

  /** Within the retries there is a delivery, with nothing but timeouts before it. */
  ghost predicate Arrives(events: seq<ReadEvent>, retries: nat, room: nat) {
    && room > 0
    && exists i {:trigger events[i]} ::
         && 0 <= i < |events| && i <= retries && events[i].Delivers? && events[i].most > 0
         && forall k :: 0 <= k < i ==> Transient(events[k])
  }

  lemma ArrivesUnfolds(events: seq<ReadEvent>, retries: nat, room: nat)
    ensures Arrives(events, retries, room) <==>
            room > 0 && events != [] &&
            ((events[0].Delivers? && events[0].most > 0) ||
             (Transient(events[0]) && retries > 0 && Arrives(events[1..], retries - 1, room)))
  {
    if events != [] && retries > 0 && room > 0 {
      var rest := events[1..];
      if Transient(events[0]) && Arrives(rest, retries - 1, room) {
        var i :| 0 <= i < |rest| && i <= retries - 1 && rest[i].Delivers? && rest[i].most > 0
          && forall k :: 0 <= k < i ==> Transient(rest[k]);
        assert events[i + 1] == rest[i];
        assert forall k :: 0 < k < i + 1 ==> events[k] == rest[k - 1];
      }
      if Arrives(events, retries, room) {
        var i :| 0 <= i < |events| && i <= retries && events[i].Delivers? && events[i].most > 0
          && forall k :: 0 <= k < i ==> Transient(events[k]);
        if i > 0 {
          assert rest[i - 1] == events[i];
          assert forall k :: 0 <= k < i - 1 ==> rest[k] == events[k + 1];
        }
      }
    }
  }

  predicate Passing(e: WriteEvent) {
    match e
    case PollOutFails(again) => again
    case WriteFails => false
    case Takes(_) => true
  }

  /** How much the kernel offers to take in these events. */
  ghost function Offered(events: seq<WriteEvent>): nat {
    if events == [] then 0 else (if events[0].Takes? then events[0].most else 0) + Offered(events[1..])
  }

  /** Some events within the retries, none of them a failure, take `count` bytes. */
  ghost predicate Fits(events: seq<WriteEvent>, retries: nat, count: nat) {
    exists i {:trigger events[..i]} ::
      && 0 <= i <= |events| && i <= retries + 1 && Offered(events[..i]) >= count
      && forall k :: 0 <= k < i ==> Passing(events[k])
  }

  lemma OfferedFirst(events: seq<WriteEvent>, i: nat)
    requires 0 < i <= |events|
    ensures Offered(events[..i]) == (if events[0].Takes? then events[0].most else 0) + Offered(events[1..][..i - 1])
  {
    assert events[..i][1..] == events[1..][..i - 1];
  }

  lemma FitsUnfolds(events: seq<WriteEvent>, retries: nat, count: nat)
    requires count > 0
    ensures events == [] || !Passing(events[0]) ==> !Fits(events, retries, count)
    ensures events != [] && Passing(events[0]) ==>
              var n := if events[0].Takes? then events[0].most else 0;
              Fits(events, retries, count) <==> n >= count || (retries > 0 && Fits(events[1..], retries - 1, count - n))
  {
    assert events[..0] == [];
    if events != [] && Passing(events[0]) {
      var n := if events[0].Takes? then events[0].most else 0;
      var rest := events[1..];
      assert rest[..0] == [];
      OfferedFirst(events, 1);
      assert n >= count ==> Offered(events[..1]) >= count;
      if n < count && retries > 0 && Fits(rest, retries - 1, count - n) {
        var i :| 0 <= i <= |rest| && i <= retries && Offered(rest[..i]) >= count - n && forall k :: 0 <= k < i ==> Passing(rest[k]);
        OfferedFirst(events, i + 1);
        assert forall k :: 0 < k < i + 1 ==> events[k] == rest[k - 1];
      }
      if Fits(events, retries, count) && n < count {
        var i :| 0 <= i <= |events| && i <= retries + 1 && Offered(events[..i]) >= count && forall k :: 0 <= k < i ==> Passing(events[k]);
        OfferedFirst(events, i);
        assert i > 1;
        assert forall k :: 0 <= k < i - 1 ==> rest[k] == events[k + 1];
        assert Offered(rest[..i - 1]) >= count - n;
      }
    }
  }

  lemma {:induction false} ArrivesDelivers(events: seq<ReadEvent>, retries: nat, room: nat)
    ensures Arrives(events, retries, room) <==> Delivered(events, retries, room) > 0
  {
    hide Arrives;
    ArrivesUnfolds(events, retries, room);
    if events != [] && retries > 0 { ArrivesDelivers(events[1..], retries - 1, room); }
  }

  lemma {:induction false} FitsTakes(events: seq<WriteEvent>, retries: nat, count: nat)
    requires count > 0
    ensures Fits(events, retries, count) <==> Taken(events, retries, count) == count
  {
    hide Fits;
    FitsUnfolds(events, retries, count);
    if events != [] && Passing(events[0]) && retries > 0 {
      var n := if events[0].Takes? then Min(events[0].most, count) else 0;
      if n < count { FitsTakes(events[1..], retries - 1, count - n); }
    }
  }

  /** One turn of the loop of tcp_write. */
  lemma {:induction false} WriteUnfolds(events: seq<WriteEvent>, retries: nat, count: nat)
    requires count > 0 && events != []
    ensures var n := if events[0].Takes? then Min(events[0].most, count) else 0;
            if !Passing(events[0]) then Taken(events, retries, count) == 0 && AfterWrite(events, retries, count) == events[1..]
            else if retries == 0 then Taken(events, retries, count) == n && AfterWrite(events, retries, count) == events[1..]
            else
              && Taken(events, retries, count) == n + Taken(events[1..], retries - 1, count - n)
              && AfterWrite(events, retries, count) == AfterWrite(events[1..], retries - 1, count - n)
              && (n == count ==> Taken(events, retries, count) == n && AfterWrite(events, retries, count) == events[1..])
  {
  }

  lemma NothingToTake(retries: nat, count: nat)
    ensures Taken([], retries, count) == 0 && AfterWrite([], retries, count) == []
  {
  }

  lemma SliceGrows(s: seq<byte>, a: seq<byte>, pos: nat, n: nat)
    requires pos + n <= |s|
    ensures a + s[..pos] + s[pos..pos + n] == a + s[..pos + n]
  {
  }

  // ----- prompt scripts

  /** The next `n` reads each deliver at once all there is, up to `room`. */
  ghost predicate PromptReads(events: seq<ReadEvent>, n: nat, room: nat) {
    n <= |events| && forall i :: 0 <= i < n ==> events[i].Delivers? && events[i].most >= room
  }

  /** The next `n` writes each take up to `room` at once. */
  ghost predicate PromptWrites(events: seq<WriteEvent>, n: nat, room: nat) {
    n <= |events| && forall i :: 0 <= i < n ==> events[i].Takes? && events[i].most >= room
  }

  lemma PromptRead(events: seq<ReadEvent>, n: nat, room: nat, retries: nat, k: nat)
    requires PromptReads(events, n, room) && n > 0 && 0 < k <= room
    ensures Delivered(events, retries, k) == k && AfterRead(events, retries, k) == events[1..]
    ensures PromptReads(events[1..], n - 1, room)
  {
  }

  lemma PromptWrite(events: seq<WriteEvent>, n: nat, room: nat, retries: nat, k: nat)
    requires PromptWrites(events, n, room) && n > 0 && 0 < k <= room
    ensures Taken(events, retries, k) == k && AfterWrite(events, retries, k) == events[1..]
    ensures PromptWrites(events[1..], n - 1, room)
  {
    var e := events[0];
    assert e.Takes? && Min(e.most, k) == k;
  }

  class Stream {
    var inbox: seq<byte>
    var readEvents: seq<ReadEvent>
    var writeEvents: seq<WriteEvent>
    ghost var received: seq<byte>
    var sent: seq<byte>
    /** Some read call on this socket, or on the connection over it, has failed or come up short. */
    ghost var readFailed: bool

    constructor (inbox: seq<byte>, readEvents: seq<ReadEvent>, writeEvents: seq<WriteEvent>)
      ensures this.inbox == inbox && received == [] && sent == [] && !readFailed
    {
      this.inbox, this.readEvents, this.writeEvents := inbox, readEvents, writeEvents;
      received, sent, readFailed := [], [], false;
    }

    /**
     tcp_read: the first bytes that arrive, at least one. It succeeds exactly if some come within the
     retries and before a failure that is not a timeout.
     */
    method Read(count: nat, retries: nat) returns (r: Option<seq<byte>>)
      modifies this`inbox, this`readEvents, this`received, this`readFailed
      ensures r.None? ==> inbox == old(inbox) && received == old(received) && readFailed
      ensures r.Some? ==> 0 < |r.value| <= count && readFailed == old(readFailed)
      ensures r.Some? ==> old(inbox) == r.value + inbox && received == old(received) + r.value
      ensures var room := Min(count, |old(inbox)|);
              && (r.Some? <==> Arrives(old(readEvents), retries, room))
              && (r.Some? <==> Delivered(old(readEvents), retries, room) > 0)
              && (r.Some? ==> |r.value| == Delivered(old(readEvents), retries, room))
              && readEvents == AfterRead(old(readEvents), retries, room)
    {
      var left := retries;
      ghost var room := Min(count, |inbox|);
      ArrivesDelivers(readEvents, retries, room);
      hide Arrives;
      while true
        invariant inbox == old(inbox) && received == old(received) && readFailed == old(readFailed)
        invariant Delivered(readEvents, left, room) == Delivered(old(readEvents), retries, room)
        invariant AfterRead(readEvents, left, room) == AfterRead(old(readEvents), retries, room)
        decreases left
      {
        if readEvents == [] { break; }
        var event := readEvents[0];
        readEvents := readEvents[1..];
        if (event.PollFails? || event.ReadFails?) && !event.again { break; }
        if event.Delivers? {
          var n := Min(event.most, Min(count, |inbox|));
          if n > 0 {
            r := Some(inbox[..n]);
            received := received + inbox[..n];
            inbox := inbox[n..];
            return;
          }
        }
        if left == 0 { break; }
        left := left - 1;
      }
      readFailed := true;
      return None;
    }

    /**
     tcp_write: a prefix of `buf` is sent, all of it exactly on success. It succeeds exactly if the
     kernel takes that much within the retries and before a failure that is not a timeout.
     */
    method Write(buf: seq<byte>, retries: nat) returns (ok: bool)
      requires buf != []
      modifies this`writeEvents, this`sent
      ensures old(sent) <= sent <= old(sent) + buf
      ensures ok <==> sent == old(sent) + buf
      ensures ok <==> Fits(old(writeEvents), retries, |buf|)
      ensures sent == old(sent) + buf[..Taken(old(writeEvents), retries, |buf|)]
      ensures writeEvents == AfterWrite(old(writeEvents), retries, |buf|)
    {
      var left, pos := retries, 0;
      FitsTakes(writeEvents, retries, |buf|);
      hide Fits, Taken, AfterWrite;
      while true
        invariant 0 <= pos < |buf| && sent == old(sent) + buf[..pos]
        invariant pos + Taken(writeEvents, left, |buf| - pos) == Taken(old(writeEvents), retries, |buf|)
        invariant AfterWrite(writeEvents, left, |buf| - pos) == AfterWrite(old(writeEvents), retries, |buf|)
        decreases left
      {
        NothingToTake(left, |buf| - pos);
        if writeEvents == [] { return false; }
        WriteUnfolds(writeEvents, left, |buf| - pos);
        var event := writeEvents[0];
        writeEvents := writeEvents[1..];
        if event.WriteFails? || (event.PollOutFails? && !event.again) { return false; }
        if event.Takes? {
          var n := Min(event.most, |buf| - pos);
          SliceGrows(buf, old(sent), pos, n);
          sent := sent + buf[pos..pos + n];
          pos := pos + n;
          if pos == |buf| { return true; }
        }
        if left == 0 { return false; }
        left := left - 1;
      }
    }
  }
}
