/** The fixed-size byte buffer: written at the end, read from the front, reset when drained. */
module Membuf {
  import opened Bytes

  class Buffer {
    const data: array<byte>
    var nread: nat
    var nwritten: nat

    /** A drained buffer is at its start again: without this, CanWrite would promise too much. */
    ghost predicate Valid()
      reads this
    {
      nread <= nwritten <= data.Length && (nread == nwritten ==> nread == 0)
    }

    ghost function Contents(): (s: seq<byte>)
      requires Valid()
      reads this, data
    {
      data[nread..nwritten]
    }

    constructor (size: nat)
      requires size > 0
      ensures Valid() && fresh(data) && data.Length == size && Contents() == [] && nread == 0
    {
      data := new byte[size];
      nread, nwritten := 0, 0;
    }

    function CanRead(): (n: nat)
      requires Valid()
      reads this, data
      ensures n == |Contents()|
    {
      nwritten - nread
    }

    function CanWrite(): (n: nat)
      requires Valid()
      reads this
      ensures nwritten + n <= data.Length
      ensures nread == 0 ==> n == data.Length - nwritten
    {
      if nread == nwritten then data.Length else data.Length - nwritten
    }

    method Reset()
      modifies this
      ensures Valid() && Contents() == [] && nread == 0
    {
      nread, nwritten := 0, 0;
    }

    /** Bytes that a system call put at the start of the buffer, followed by membuf_set_written. */
    method SetWritten(src: seq<byte>)
      requires Valid() && nwritten == 0 && |src| <= data.Length
      modifies this, data
      ensures Valid() && Contents() == src && nread == 0
    {
      forall i | 0 <= i < |src| { data[i] := src[i]; }
      nwritten := |src|;
    }

    /** Steps back over the byte read last; fails when the buffer has been reset since. */
    method Unget() returns (ok: bool)
      requires Valid()
      modifies this`nread
      ensures Valid() && ok == (old(nread) > 0)
      ensures ok ==> nread == old(nread) - 1 && Contents() == [data[nread]] + old(Contents())
      ensures !ok ==> nread == old(nread)
    {
      if nread > 0 {
        nread := nread - 1;
        return true;
      }
      return false;
    }

    /** Reads as much as is there, up to `count`. */
    method Read(count: nat) returns (dest: seq<byte>)
      requires Valid() && count != 0
      modifies this
      ensures Valid() && old(Contents()) == dest + Contents()
      ensures |dest| == if count < |old(Contents())| then count else |old(Contents())|
      ensures Contents() != [] ==> nread == old(nread) + |dest| && dest == data[old(nread)..nread]
    {
      var n := if CanRead() < count then CanRead() else count;
      dest := data[nread..nread + n];
      nread := nread + n;
      if nwritten == nread {
        nwritten, nread := 0, 0;
      }
    }

    /** Appends as much as there is room for. */
    method Write(src: seq<byte>) returns (n: nat)
      requires Valid()
      modifies this`nwritten, data
      ensures n == if |src| > old(CanWrite()) then old(CanWrite()) else |src|
      ensures Valid() && Contents() == old(Contents()) + src[..n]
    {
      n := if |src| > CanWrite() then CanWrite() else |src|;
      forall i | 0 <= i < n { data[nwritten + i] := src[i]; }
      nwritten := nwritten + n;
    }
  }
}
