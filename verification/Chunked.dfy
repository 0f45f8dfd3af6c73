/** The decoder of HTTP chunked transfer coding, section 3.6.1 of RFC 2616. */
module Chunked {
  import opened Common
  import opened Bytes
  import opened Connection

  const LINE_BUFFER := 1024

  predicate IsSpaceByte(b: byte) {
    b == 32 || 9 <= b <= 13
  }

  predicate IsHexByte(b: byte) {
    48 <= b <= 57 || 65 <= b <= 70 || 97 <= b <= 102
  }

  function HexDigit(b: byte): (n: nat)
    requires IsHexByte(b)
    ensures n < 16
  {
    if b <= 57 then b - 48 else if b <= 70 then b - 55 else b - 87
  }

  predicate AllHex(s: seq<byte>) {
    forall i :: 0 <= i < |s| ==> IsHexByte(s[i])
  }

  function HexValue(s: seq<byte>): nat
    requires AllHex(s)
  {
    if s == [] then 0 else 16 * HexValue(s[..|s| - 1]) + HexDigit(s[|s| - 1])
  }

  function TrimLeft(s: seq<byte>): seq<byte> {
    if s != [] && IsSpaceByte(s[0]) then TrimLeft(s[1..]) else s
  }

  function TrimRight(s: seq<byte>): seq<byte> {
    if s != [] && IsSpaceByte(s[|s| - 1]) then TrimRight(s[..|s| - 1]) else s
  }

  predicate AllSpace(s: seq<byte>) {
    TrimLeft(s) == []
  }

  /** hextosize_t: what strtoull in base 16 takes whole, without a minus sign and within 64 bits. */
  function HexToSize(s: seq<byte>): Option<nat> {
    var u := AfterPrefix(AfterSign(s));
    if u != [] && AllHex(u) && HexValue(u) < TWO64 then Some(HexValue(u)) else None
  }

  function AfterSign(s: seq<byte>): seq<byte> {
    if s != [] && s[0] == 43 then s[1..] else s
  }

  function AfterPrefix(t: seq<byte>): seq<byte> {
    if |t| > 2 && t[0] == 48 && (t[1] == 120 || t[1] == 88) && IsHexByte(t[2]) then t[2..] else t
  }

  function SizeOfLine(line: seq<byte>): Option<nat> {
    HexToSize(TrimRight(TrimLeft(BeforeNul(line))))
  }

  /**
   What get_chunklen finds: a chunk length, with the bytes its line and a blank line before it take; no
   length; or a line that fills its buffer without a terminator, so that C reads past it.
   */
  datatype Head = Head(len: nat, used: nat) | BadHead | OpenLine

  /** The buffer is full and holds no NUL. */
  predicate Open(line: seq<byte>) {
    |line| == LINE_BUFFER && 0 !in line
  }

  function HeadOfLine(line: seq<byte>, used: nat): (r: Head)
    ensures r.Head? ==> r.used == used && r.len < TWO64
  {
    if Open(line) then OpenLine
    else
      match SizeOfLine(line)
      case None => BadHead
      case Some(n) => Head(n, used)
  }

  /** get_chunklen as a function of the stream. */
  function ChunkHead(s: seq<byte>): (r: Head)
    ensures r.Head? ==> 0 < r.used <= |s|
  {
    match LineEnd(s, LINE_BUFFER)
    case None => BadHead
    case Some(k) =>
      if Open(s[..k]) || !AllSpace(BeforeNul(s[..k])) then HeadOfLine(s[..k], k)
      else
        match LineEnd(s[k..], LINE_BUFFER)
        case None => BadHead
        case Some(j) => HeadOfLine(s[k..][..j], k + j)
  }

  /**
   What read_chunked_response comes to. Overrun: the sum of the sizes wrapped around and passed for
   small, so the next bytes go past the buffer. Overread: a size line was not terminated.
   */
  datatype Outcome = Body(content: seq<byte>) | Refused | Overrun | Overread

  /** The test on the size of the next chunk, with size_t arithmetic. */
  function Admit(total: nat, len: nat, max: nat): (r: Option<Outcome>)
    ensures r.Some? ==> !r.value.Body?
  {
    if (total + len) % TWO64 > max then Some(Refused)
    else if total + len >= TWO64 then Some(Overrun)
    else None
  }

  /** read_chunked_response as a function of the stream: the outcome, and the bytes left behind a body. */
  function Decode(s: seq<byte>, max: nat, content: seq<byte>): (r: (Outcome, seq<byte>))
    decreases |s|
  {
    match ChunkHead(s)
    case BadHead => (Refused, [])
    case OpenLine => (Overread, [])
    case Head(len, used) =>
      var rest := s[used..];
      if len == 0 then (if content == [] then (Refused, []) else (Body(content), rest))
      else
        match Admit(|content|, len, max)
        case Some(o) => (o, [])
        case None =>
          if |rest| < len then (Refused, [])
          else Decode(rest[len..], max, content + rest[..len])
  }

  /** A total that wraps around is never caught: what is left of it is below what was read already. */
  lemma AdmitExactly(total: nat, len: nat, max: nat)
    requires total <= max < TWO64 && len < TWO64
    ensures Admit(total, len, max) == Some(Overrun) <==> total + len >= TWO64
    ensures Admit(total, len, max) == Some(Overrun) <==> total + len >= TWO64 && total + len - TWO64 <= max
    ensures Admit(total, len, max) == None <==> total + len <= max
  {
    if total + len >= TWO64 { SmallSum(total + len - TWO64); WrapsOnce(total + len); } else { SmallSum(total + len); }
  }

  lemma WrapsOnce(n: nat)
    requires TWO64 <= n < 2 * TWO64
    ensures n % TWO64 == n - TWO64
  {
  }

  /** The purpose of the limit: a body never exceeds it. */
  lemma {:induction false} BodyWithinLimit(s: seq<byte>, max: nat, content: seq<byte>)
    requires |content| <= max < TWO64
    ensures var r := Decode(s, max, content).0; r.Body? ==> |r.content| <= max
    decreases |s|
  {
    hide ChunkHead, Admit;
    match ChunkHead(s)
    case Head(len, used) =>
      var rest := s[used..];
      HeadBelow(s);
      AdmitExactly(|content|, len, max);
      if len != 0 && Admit(|content|, len, max).None? && len <= |rest| {
        BodyWithinLimit(rest[len..], max, content + rest[..len]);
      }
    case _ =>
  }

  lemma HeadBelow(s: seq<byte>)
    ensures ChunkHead(s).Head? ==> ChunkHead(s).len < TWO64
  {
    hide LineEnd, AllSpace, BeforeNul, HeadOfLine;
  }

  // ----- the code over a connection

  method GetChunkLen(conn: Conn) returns (r: Head)
    requires conn.Separate() && conn.ReadInv()
    modifies conn`incoming, conn`delivered, conn.sock`inbox, conn.sock`readEvents, conn.sock`received,
             conn.sock`readFailed, conn.readbuf, conn.readbuf.data
    ensures conn.ReadInv() && (old(conn.sock.readFailed) ==> conn.sock.readFailed)
    ensures r == ChunkHead(old(conn.Pending())) || (r == BadHead && conn.sock.readFailed)
    ensures r.Head? ==> conn.Pending() == old(conn.Pending())[r.used..]
  {
    hide LineEnd, HeadOfLine, AllSpace, BeforeNul, Open, Conn.ReadInv, Conn.Pending, Conn.Buffered, Conn.Delivery, Conn.Later;
    ghost var all := conn.Pending();
    var line := conn.Gets(LINE_BUFFER);
    if line.None? { return BadHead; }
    var buf, k := line.value, |line.value|;
    assert all[..|buf|] == buf && all[|buf|..] == conn.Pending();
    if !Open(buf) && AllSpace(BeforeNul(buf)) {
      line := conn.Gets(LINE_BUFFER);
      if line.None? { return BadHead; }
      buf := line.value;
      assert all[k..][..|buf|] == buf && all[k..][|buf|..] == conn.Pending();
      assert all[k + |buf|..] == all[k..][|buf|..];
      k := k + |buf|;
    }
    return HeadOfLine(buf, k);
  }

  /** The inner loop: reads a whole chunk in as many pieces as the connection delivers. */
  method ReadChunk(conn: Conn, len: nat) returns (r: Option<seq<byte>>)
    requires conn.Separate() && conn.ReadInv() && len > 0
    modifies conn`incoming, conn`delivered, conn.sock`inbox, conn.sock`readEvents, conn.sock`received,
             conn.sock`readFailed, conn.readbuf, conn.readbuf.data
    ensures conn.ReadInv() && (old(conn.sock.readFailed) ==> conn.sock.readFailed)
    ensures r.Some? ==> |r.value| == len && old(conn.Pending()) == r.value + conn.Pending()
    ensures r.None? ==> conn.sock.readFailed
  {
    hide Conn.ReadInv, Conn.Pending;
    var got := [];
    ghost var all := conn.Pending();
    while |got| < len
      invariant conn.Separate() && conn.ReadInv() && |got| <= len && all == got + conn.Pending()
      invariant old(conn.sock.readFailed) ==> conn.sock.readFailed
    {
      var piece := conn.Read(len - |got|);
      if piece.None? { return None; }
      Assoc(got, piece.value, conn.Pending());
      got := got + piece.value;
    }
    return Some(got);
  }

  /**
   read_chunked_response: however the socket cuts the stream, the run computes Decode of the bytes
   the peer sent, and gives up otherwise only on a failed read. A body is within the limit.
   */
  method ReadChunked(conn: Conn, max: nat) returns (r: Outcome)
    requires conn.Separate() && conn.ReadInv() && max < TWO64
    modifies conn`incoming, conn`delivered, conn.sock`inbox, conn.sock`readEvents, conn.sock`received,
             conn.sock`readFailed, conn.readbuf, conn.readbuf.data
    ensures conn.ReadInv() && (old(conn.sock.readFailed) ==> conn.sock.readFailed)
    ensures r == Decode(old(conn.Pending()), max, []).0 || (r == Refused && conn.sock.readFailed)
    ensures r.Body? ==> conn.Pending() == Decode(old(conn.Pending()), max, []).1 && |r.content| <= max
  {
    hide ChunkHead, Conn.ReadInv, Conn.Pending, Admit;
    var content := [];
    BodyWithinLimit(conn.Pending(), max, []);
    ghost var goal := Decode(conn.Pending(), max, []);
    while true
      invariant conn.Separate() && conn.ReadInv() && Decode(conn.Pending(), max, content) == goal
      invariant old(conn.sock.readFailed) ==> conn.sock.readFailed
      decreases |conn.Pending()|
    {
      ghost var s := conn.Pending();
      var head := GetChunkLen(conn);
      if head == BadHead { return Refused; }
      if head == OpenLine { return Overread; }
      ghost var rest := conn.Pending();
      if head.len == 0 {
        return if content == [] then Refused else Body(content);
      }
      var stop := Admit(|content|, head.len, max);
      if stop.Some? { return stop.value; }
      var chunk := ReadChunk(conn, head.len);
      if chunk.None? { return Refused; }
      assert rest[..head.len] == chunk.value && rest[head.len..] == conn.Pending();
      content := content + chunk.value;
    }
  }

  // ----- the coding of section 3.6.1 of RFC 2616, without extensions

  /** The digits of a number in base 16, in either case, with any zeros before them. */
  ghost predicate HexSpells(s: seq<byte>, n: nat) {
    s != [] && HexChar(s[|s| - 1], n % 16) && if |s| == 1 then n < 16 else HexSpells(s[..|s| - 1], n / 16)
  }

  /** A size as it stands in a line: its digits fit the line buffer, and its value a size_t. */
  ghost predicate SizeSpelled(size: seq<byte>, n: nat) {
    HexSpells(size, n) && |size| + 2 < 1024 && n < 0x1_0000_0000_0000_0000
  }

  /** A chunk with its size. */
  datatype Chunk = Chunk(size: seq<byte>, data: seq<byte>) {
    ghost predicate Valid() {
      SizeSpelled(size, |data|)
    }
  }

  lemma DigitIs(b: byte, d: nat)
    requires d < 16
    ensures HexChar(b, d) <==> IsHexByte(b) && HexDigit(b) == d
  {
  }

  lemma {:induction false} SpelledValue(s: seq<byte>, n: nat)
    ensures HexSpells(s, n) <==> s != [] && AllHex(s) && HexValue(s) == n
  {
    if s != [] {
      hide HexChar;
      var k := |s| - 1;
      DigitIs(s[k], n % 16);
      assert s == s[..k] + [s[k]];
      if k == 0 {
        assert s[..k] == [] && HexValue([]) == 0;
      } else {
        SpelledValue(s[..k], n / 16);
      }
    }
  }

  /** A printer of sizes. */
  function Hex(n: nat, upper: bool): seq<byte> {
    (if n < 16 then [] else Hex(n / 16, upper)) + [HexCode(n % 16, upper)]
  }

  function Zeros(k: nat): seq<byte> {
    if k == 0 then [] else ['0' as int] + Zeros(k - 1)
  }

  lemma {:induction false} HexEnd(n: nat, upper: bool)
    ensures var h := Hex(n, upper);
            h == (if n < 16 then [] else Hex(n / 16, upper)) + [HexCode(n % 16, upper)] && HexChar(h[|h| - 1], n % 16)
  {
    hide HexChar;
  }

  lemma {:induction false} SpellsMore(s: seq<byte>, b: byte, n: nat)
    requires HexChar(b, n % 16) && (if s == [] then n < 16 else HexSpells(s, n / 16))
    ensures HexSpells(s + [b], n)
  {
    hide HexChar;
    assert (s + [b])[..|s|] == s;
  }

  lemma {:induction false} HexIsSpelled(n: nat, upper: bool, k: nat)
    ensures HexSpells(Zeros(k) + Hex(n, upper), n)
  {
    hide HexChar, HexSpells, Hex, HexCode;
    HexEnd(n, upper);
    var b := HexCode(n % 16, upper);
    if n >= 16 {
      HexIsSpelled(n / 16, upper, k);
      Assoc(Zeros(k), Hex(n / 16, upper), [b]);
      HexNotEmpty(n / 16, upper);
      SpellsMore(Zeros(k) + Hex(n / 16, upper), b, n);
    } else {
      assert Hex(n, upper) == [b];
      if k > 0 { ZerosSpelled(k); }
      SpellsMore(Zeros(k), b, n);
    }
  }

  lemma HexNotEmpty(n: nat, upper: bool)
    ensures Hex(n, upper) != []
  {
  }

  lemma {:induction false} ZerosSpelled(k: nat)
    requires k > 0
    ensures HexSpells(Zeros(k), 0)
  {
    ZerosEnd(k);
    if k > 1 { ZerosSpelled(k - 1); }
  }

  lemma {:induction false} ZerosEnd(k: nat)
    requires k > 0
    ensures |Zeros(k)| == k && Zeros(k)[k - 1] == '0' as int && Zeros(k)[..k - 1] == Zeros(k - 1)
  {
    if k > 1 { ZerosEnd(k - 1); }
  }

  const CRLF: seq<byte> := [13, 10]

  ghost predicate ValidChunks(cs: seq<Chunk>) {
    forall i :: 0 <= i < |cs| ==> cs[i].Valid() && cs[i].data != []
  }

  function Content(cs: seq<Chunk>): seq<byte> {
    if cs == [] then [] else cs[0].data + Content(cs[1..])
  }

  /** The chunks one after the other, then the last-chunk line; the trailer follows. */
  function Encode(cs: seq<Chunk>, last: Chunk): seq<byte> {
    if cs == [] then last.size + CRLF
    else cs[0].size + CRLF + cs[0].data + CRLF + Encode(cs[1..], last)
  }

  lemma TrimsLine(size: seq<byte>)
    requires size != [] && AllHex(size)
    ensures TrimLeft(size + CRLF) == size + CRLF && TrimRight(size + CRLF) == size
  {
    var line := size + CRLF;
    assert line[..|size| + 1] == size + [13] && (size + [13])[..|size|] == size;
    assert TrimRight(line) == TrimRight(size + [13]) == TrimRight(size) == size;
  }

  /** The line of a chunk size, as get_chunklen reads it. */
  lemma SizeLine(size: seq<byte>, n: nat, rest: seq<byte>)
    requires SizeSpelled(size, n)
    ensures LineEnd(size + CRLF + rest, LINE_BUFFER) == Some(|size| + 2)
    ensures !AllSpace(BeforeNul(size + CRLF)) && SizeOfLine(size + CRLF) == Some(n)
  {
    SpelledValue(size, n);
    hide HexValue, HexSpells;
    assert LineEnd(size + CRLF + rest, LINE_BUFFER) == Some(|size| + 2) by {
      LineEndSkips(size + [13], [10] + rest, LINE_BUFFER);
      assert size + [13] + ([10] + rest) == size + CRLF + rest;
    }
    BeforeNulWhole(size + CRLF);
    TrimsLine(size);
  }

  lemma HeadOfChunk(size: seq<byte>, n: nat, rest: seq<byte>)
    requires SizeSpelled(size, n)
    ensures ChunkHead(size + CRLF + rest) == Head(n, |size| + 2)
    ensures ChunkHead(CRLF + (size + CRLF + rest)) == Head(n, |size| + 4)
  {
    hide LineEnd, SizeOfLine, AllSpace, BeforeNul, HexSpells;
    SizeLine(size, n, rest);
    var s := size + CRLF + rest;
    assert s[..|size| + 2] == size + CRLF;
    var t := CRLF + s;
    BlankLine(s);
    assert t[..2] == CRLF && t[2..] == s;
  }

  lemma BlankLine(rest: seq<byte>)
    ensures LineEnd(CRLF + rest, LINE_BUFFER) == Some(2) && AllSpace(BeforeNul(CRLF))
  {
    LineEndSkips([13], [10] + rest, LINE_BUFFER);
    assert [13] + ([10] + rest) == CRLF + rest;
    BeforeNulWhole(CRLF);
  }

  lemma {:induction false} DecodeStep(s: seq<byte>, used: nat, data: seq<byte>, next: seq<byte>, max: nat, content: seq<byte>)
    requires used <= |s| && ChunkHead(s) == Head(|data|, used) && s[used..] == data + next
    requires data != [] && |content| + |data| < TWO64
    ensures Decode(s, max, content) ==
            if |content| + |data| > max then (Refused, []) else Decode(next, max, content + data)
  {
    hide ChunkHead;
    assert (data + next)[..|data|] == data && (data + next)[|data|..] == next;
    SmallSum(|content| + |data|);
  }

  lemma SmallSum(n: nat)
    requires n < TWO64
    ensures n % TWO64 == n
  {
  }

  /** A chunk line, with or without the line end that closes the previous chunk before it. */
  lemma HeadAt(blank: seq<byte>, size: seq<byte>, n: nat, rest: seq<byte>)
    requires blank == [] || blank == CRLF
    requires SizeSpelled(size, n)
    ensures var s := blank + (size + CRLF + rest); var used := |blank| + |size| + 2;
            ChunkHead(s) == Head(n, used) && s[used..] == rest
  {
    hide ChunkHead, HexSpells;
    HeadOfChunk(size, n, rest);
    Behind(blank, size + CRLF, rest);
    NothingBefore(size + CRLF + rest);
  }

  lemma Behind(a: seq<byte>, b: seq<byte>, rest: seq<byte>)
    ensures (a + (b + rest))[|a| + |b|..] == rest
  {
  }

  lemma NothingBefore(s: seq<byte>)
    ensures [] + s == s
  {
  }

  /** One chunk of an encoding. */
  lemma DecodeOne(c: Chunk, next: seq<byte>, max: nat, content: seq<byte>, blank: seq<byte>)
    requires c.Valid() && c.data != [] && |content| + |c.data| < TWO64 && (blank == [] || blank == CRLF)
    ensures Decode(blank + (c.size + CRLF + (c.data + next)), max, content) ==
            if |content| + |c.data| > max then (Refused, []) else Decode(next, max, content + c.data)
  {
    hide ChunkHead, Decode;
    HeadAt(blank, c.size, |c.data|, c.data + next);
    DecodeStep(blank + (c.size + CRLF + (c.data + next)), |blank| + |c.size| + 2, c.data, next, max, content);
  }

  lemma DecodeLast(last: Chunk, tail: seq<byte>, max: nat, content: seq<byte>, blank: seq<byte>)
    requires last.Valid() && last.data == [] && |content| <= max && |content| < TWO64 && (blank == [] || blank == CRLF)
    ensures Decode(blank + (last.size + CRLF + tail), max, content) ==
            if content == [] then (Refused, []) else (Body(content), tail)
  {
    hide ChunkHead;
    HeadAt(blank, last.size, 0, tail);
  }

  lemma {:induction false} DecodeEncode(cs: seq<Chunk>, last: Chunk, tail: seq<byte>, max: nat, content: seq<byte>, blank: seq<byte>)
    requires ValidChunks(cs) && last.Valid() && last.data == []
    requires |content| + |Content(cs)| < TWO64 && |content| <= max && (blank == [] || blank == CRLF)
    ensures Decode(blank + (Encode(cs, last) + tail), max, content) ==
            var all := content + Content(cs);
            if all == [] || |all| > max then (Refused, []) else (Body(all), tail)
  {
    hide Decode, Chunk.Valid;
    if cs == [] {
      DecodeLast(last, tail, max, content, blank);
      assert content + Content(cs) == content;
    } else {
      var c, more := cs[0], Encode(cs[1..], last);
      var next := CRLF + (more + tail);
      Regroup(c, more, tail);
      assert Content(cs) == c.data + Content(cs[1..]);
      DecodeOne(c, next, max, content, blank);
      if |content| + |c.data| <= max {
        DecodeEncode(cs[1..], last, tail, max, content + c.data, CRLF);
      }
      Assoc(content, c.data, Content(cs[1..]));
    }
  }

  lemma Regroup(c: Chunk, more: seq<byte>, tail: seq<byte>)
    ensures c.size + CRLF + c.data + CRLF + more + tail == c.size + CRLF + (c.data + (CRLF + (more + tail)))
  {
    var h := c.size + CRLF;
    Assoc(CRLF, more, tail);
    Assoc(c.data, CRLF + more, tail);
    Assoc(c.data, CRLF, more);
    Assoc(h, c.data + CRLF + more, tail);
    Assoc(h, c.data + CRLF, more);
    Assoc(h, c.data, CRLF);
  }

  /**
   Decoding inverts encoding, exactly when there is a chunk and the content is within the limit:
   then the content comes back whole and the trailer is left. An empty body is refused, although
   the coding allows it.
   */
  lemma ChunkedRoundTrip(cs: seq<Chunk>, last: Chunk, trailer: seq<byte>, max: nat)
    requires ValidChunks(cs) && last.Valid() && last.data == [] && |Content(cs)| < TWO64
    ensures Decode(Encode(cs, last) + trailer, max, []) ==
            if cs == [] || |Content(cs)| > max then (Refused, []) else (Body(Content(cs)), trailer)
  {
    DecodeEncode(cs, last, trailer, max, [], []);
    assert [] + (Encode(cs, last) + trailer) == Encode(cs, last) + trailer;
    assert [] + Content(cs) == Content(cs);
  }

  /** The same over a connection: what was encoded is read back, unless a read fails. */
  method ReadEncoded(conn: Conn, max: nat, ghost cs: seq<Chunk>, ghost last: Chunk, ghost trailer: seq<byte>) returns (r: Outcome)
    requires conn.Separate() && conn.ReadInv() && max < TWO64
    requires ValidChunks(cs) && last.Valid() && last.data == [] && |Content(cs)| < TWO64
    requires conn.Pending() == Encode(cs, last) + trailer
    modifies conn`incoming, conn`delivered, conn.sock`inbox, conn.sock`readEvents, conn.sock`received,
             conn.sock`readFailed, conn.readbuf, conn.readbuf.data
    ensures conn.ReadInv()
    ensures cs != [] && |Content(cs)| <= max ==>
              (r == Body(Content(cs)) && conn.Pending() == trailer) || (r == Refused && conn.sock.readFailed)
    ensures cs == [] || |Content(cs)| > max ==> r == Refused
  {
    hide Decode, Conn.ReadInv, Conn.Pending;
    ChunkedRoundTrip(cs, last, trailer, max);
    r := ReadChunked(conn, max);
  }

  /**
   The limit does not hold against a size that wraps around: behind any chunk within the limit, a size
   line that brings the total to 2^64 or more is taken for a small one.
   */
  lemma {:induction false} WrapOverruns(c: Chunk, size: seq<byte>, n: nat, tail: seq<byte>, max: nat)
    requires c.Valid() && 0 < |c.data| <= max < TWO64
    requires SizeSpelled(size, n)
    requires |c.data| + n >= TWO64
    ensures Decode(c.size + CRLF + (c.data + (CRLF + (size + CRLF + tail))), max, []).0 == Overrun
  {
    hide ChunkHead, HexSpells, Admit;
    var next := CRLF + (size + CRLF + tail);
    NothingBefore(c.size + CRLF + (c.data + next));
    DecodeOne(c, next, max, [], []);
    assert [] + c.data == c.data;
    AdmitExactly(|c.data|, n, max);
    HeadAt(CRLF, size, n, tail);
  }

  /** The size line fffffffffffffff8 behind a chunk of at least eight bytes is such an input. */
  lemma {:induction false} OverrunInput(c: Chunk, tail: seq<byte>, max: nat)
    requires c.Valid() && 8 <= |c.data| <= max < TWO64
    ensures var size := Hex(0xffff_ffff_ffff_fff8, false);
            Decode(c.size + CRLF + (c.data + (CRLF + (size + CRLF + tail))), max, []).0 == Overrun
  {
    hide Decode;
    var n := 0xffff_ffff_ffff_fff8;
    HexIsSpelled(n, false, 0);
    assert Zeros(0) + Hex(n, false) == Hex(n, false);
    Pow16Sixteen();
    HexShort(n, false, 16);
    WrapOverruns(c, Hex(n, false), n, tail, max);
  }

  function Pow16(n: nat): nat {
    if n == 0 then 1 else 16 * Pow16(n - 1)
  }

  lemma {:induction false} Pow16Adds(m: nat, n: nat)
    ensures Pow16(m + n) == Pow16(m) * Pow16(n)
  {
    if m > 0 { Pow16Adds(m - 1, n); }
  }

  lemma Pow16Sixteen()
    ensures Pow16(16) == TWO64
  {
    assert Pow16(4) == 16 * (16 * (16 * (16 * Pow16(0))));
    Pow16Adds(4, 4);
    Pow16Adds(8, 8);
  }

  lemma {:induction false} HexShort(n: nat, upper: bool, k: nat)
    requires k > 0 && n < Pow16(k)
    ensures |Hex(n, upper)| <= k
  {
    if n >= 16 { HexShort(n / 16, upper, k - 1); }
  }

  /** Sizes printed in either case, with any zeros that fit the line, are read as the numbers they were. */
  lemma PrintedSize(n: nat, upper: bool, k: nat, rest: seq<byte>)
    requires n < TWO64 && k < 1000
    ensures var size := Zeros(k) + Hex(n, upper);
            SizeOfLine(size + CRLF) == Some(n) && ChunkHead(size + CRLF + rest) == Head(n, |size| + 2)
  {
    hide ChunkHead, SizeOfLine, HexSpells, Hex;
    HexIsSpelled(n, upper, k);
    Pow16Sixteen();
    HexShort(n, upper, 16);
    if k > 0 { ZerosEnd(k); }
    SizeLine(Zeros(k) + Hex(n, upper), n, rest);
    HeadOfChunk(Zeros(k) + Hex(n, upper), n, rest);
  }

  /** A line of 1024 bytes or more that has no NUL among them is not terminated. */
  lemma LongLineIsOpen(s: seq<byte>)
    requires |s| >= 1024 && 10 !in s[..1023] && 0 !in s[..1024]
    ensures ChunkHead(s) == OpenLine
  {
    assert forall i :: 0 <= i < 1023 ==> s[i] == s[..1023][i];
    LineEndExactly(s, 1024, 1024);
  }

  // ----- every line that has a size

  ghost predicate Spaces(s: seq<byte>) {
    forall i :: 0 <= i < |s| ==> s[i] in {9, 10, 11, 12, 13, 32}
  }

  /** What strtoull takes whole: a plus sign or none, 0x or 0X or neither, and digits. */
  ghost predicate SizeText(s: seq<byte>, n: nat) {
    exists sign: seq<byte>, prefix: seq<byte>, digits: seq<byte> :: SizeParts(s, sign, prefix, digits, n)
  }

  ghost predicate SizeParts(s: seq<byte>, sign: seq<byte>, prefix: seq<byte>, digits: seq<byte>, n: nat) {
    && s == sign + prefix + digits && (sign == [] || sign == [43])
    && (prefix == [] || prefix == [48, 120] || prefix == [48, 88]) && HexSpells(digits, n)
  }

  lemma SignTaken(sign: seq<byte>, t: seq<byte>)
    requires (sign == [] || sign == [43]) && t != [] && t[0] != 43
    ensures AfterSign(sign + t) == t
  {
    assert sign == [] ==> sign + t == t;
    assert sign == [43] ==> (sign + t)[1..] == t;
  }

  lemma PrefixTaken(prefix: seq<byte>, digits: seq<byte>)
    requires (prefix == [] || prefix == [48, 120] || prefix == [48, 88]) && digits != [] && AllHex(digits)
    ensures AfterPrefix(prefix + digits) == digits
  {
    if prefix == [] {
      assert prefix + digits == digits;
    } else {
      assert (prefix + digits)[2..] == digits;
    }
  }

  lemma SignSplit(s: seq<byte>)
    ensures s == (if s != [] && s[0] == 43 then [43] else []) + AfterSign(s)
  {
  }

  lemma PrefixSplit(t: seq<byte>) returns (prefix: seq<byte>)
    ensures (prefix == [] || prefix == [48, 120] || prefix == [48, 88]) && t == prefix + AfterPrefix(t)
  {
    prefix := if AfterPrefix(t) == t then [] else t[..2];
    assert AfterPrefix(t) != t ==> t[..2] == [48, 120] || t[..2] == [48, 88];
  }

  lemma SizeTextExactly(s: seq<byte>, n: nat)
    ensures HexToSize(s) == Some(n) <==> n < TWO64 && SizeText(s, n)
  {
    hide AfterSign, AfterPrefix, HexSpells;
    var t := AfterSign(s);
    var u := AfterPrefix(t);
    SpelledValue(u, n);
    if HexToSize(s) == Some(n) {
      SignSplit(s);
      var sign := if s != [] && s[0] == 43 then [43] else [];
      var prefix := PrefixSplit(t);
      Assoc(sign, prefix, u);
      assert SizeParts(s, sign, prefix, u, n);
    }
    if sign: seq<byte>, prefix: seq<byte>, digits: seq<byte> :| SizeParts(s, sign, prefix, digits, n) {
      SpelledValue(digits, n);
      hide HexValue;
      Assoc(sign, prefix, digits);
      SignTaken(sign, prefix + digits);
      PrefixTaken(prefix, digits);
    }
  }

  lemma {:induction false} TrimsLeft(a: seq<byte>, t: seq<byte>)
    requires Spaces(a) && t != [] && !IsSpaceByte(t[0])
    ensures TrimLeft(a + t) == t
  {
    if a == [] {
      assert a + t == t;
    } else {
      assert (a + t)[1..] == a[1..] + t && a[0] in {9, 10, 11, 12, 13, 32};
      TrimsLeft(a[1..], t);
    }
  }

  lemma {:induction false} TrimsRight(t: seq<byte>, b: seq<byte>)
    requires Spaces(b) && t != [] && !IsSpaceByte(t[|t| - 1])
    ensures TrimRight(t + b) == t
  {
    if b == [] {
      assert t + b == t;
    } else {
      var k := |b| - 1;
      assert (t + b)[..|t| + k] == t + b[..k] && b[k] in {9, 10, 11, 12, 13, 32};
      TrimsRight(t, b[..k]);
    }
  }

  lemma {:induction false} TrimmedLeft(s: seq<byte>) returns (a: seq<byte>)
    ensures Spaces(a) && s == a + TrimLeft(s)
  {
    if s != [] && IsSpaceByte(s[0]) {
      a := TrimmedLeft(s[1..]);
      a := [s[0]] + a;
    } else {
      a := [];
    }
  }

  lemma {:induction false} TrimmedRight(s: seq<byte>) returns (b: seq<byte>)
    ensures Spaces(b) && s == TrimRight(s) + b
  {
    if s != [] && IsSpaceByte(s[|s| - 1]) {
      b := TrimmedRight(s[..|s| - 1]);
      b := b + [s[|s| - 1]];
    } else {
      b := [];
    }
  }

  /** The first and last byte of a size are no spaces. */
  lemma SizeTextEnds(t: seq<byte>, n: nat)
    requires SizeText(t, n)
    ensures t != [] && !IsSpaceByte(t[0]) && !IsSpaceByte(t[|t| - 1])
  {
    var sign: seq<byte>, prefix: seq<byte>, digits: seq<byte> :| SizeParts(t, sign, prefix, digits, n);
    SpelledValue(digits, n);
    assert t[|t| - 1] == digits[|digits| - 1];
    assert t[0] == if sign != [] then 43 else if prefix != [] then 48 else digits[0];
  }

  /** A line has the size `n` exactly if it is a size with spaces around it, up to the first NUL. */
  lemma SizeOfLineExactly(line: seq<byte>, n: nat)
    ensures SizeOfLine(line) == Some(n) <==>
            n < TWO64 && exists a: seq<byte>, t: seq<byte>, b: seq<byte> ::
              BeforeNul(line) == a + (t + b) && Spaces(a) && Spaces(b) && SizeText(t, n)
  {
    hide HexToSize, SizeText, BeforeNul;
    var s := BeforeNul(line);
    var l := TrimLeft(s);
    var r := TrimRight(l);
    SizeTextExactly(r, n);
    if SizeOfLine(line) == Some(n) {
      var a := TrimmedLeft(s);
      var b := TrimmedRight(l);
      assert s == a + (r + b);
    }
    if a: seq<byte>, t: seq<byte>, b: seq<byte> :| s == a + (t + b) && Spaces(a) && Spaces(b) && SizeText(t, n) {
      SizeTextEnds(t, n);
      TrimsLeft(a, t + b);
      TrimsRight(t, b);
    }
  }
}
