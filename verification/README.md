# Verification of highlander

Highlander is a C library for web servers (`meta`, `http`), with a JSON parser (`json`) and a binary
client and server (`apps/beep`). This project models its six hardest components in Dafny and proves
what they are for. `dafny verify dfyconfig.toml` checks the whole project.

- **JSON** (`JsonNumber`, `JsonLexer`, `JsonGrammar`, `JsonText`, `JsonPrint`, `JsonParser`,
  `JsonReparse`, `JsonStream`, `JsonSound`, `JsonLimit`, `JsonDocument`, `JsonValue`). The lexer and the
  recursive-descent parser are a class with the C fields; its methods are proved to terminate on every
  input and to compute a recursive description over the lexeme stream.
  About that description: a grammatical text is accepted with its tree if and only if its arrays nest
  at most 19 deep; an accepted text is grammatical if and only if no container absorbed a failure and
  no token is left over; printing is inverted by parsing; and whatever the parser returns for any text,
  printing and parsing it again returns the same.
- **Connections and codecs** (`Bytes`, `Membuf`, `Socket`, `Connection`, `ConnectionRun`, `Chunked`,
  `BeepCodec`, `BeepSession`). The socket follows an arbitrary script of deliveries, timeouts and
  failures, so every statement holds for every fragmentation. The buffered connection refines two byte
  streams, with an exact condition for every failure; chunked decoding inverts chunked encoding and
  keeps its limit except where a sum wraps around; the tag/length/value codec is self-delimiting; and in
  a session of any length every answer belongs to its request.
- **Resource pool** (`Pool`, `PoolProgress`). Worker threads are a step machine whose schedules are arbitrary:
  conservation, exclusiveness, safety if and only if there are no more workers than resources, and that
  every worker gives back what it takes.
- **Lists and indexes** (`LinkedList`, `SortSpec`, `Stringmap`, `Filecache`). The linked list with its
  cached tail refines a sequence until an emptied list is inserted into, its bubble sort is the stable
  sort, and the two-level file index answers like one map.
- **URLs and forms** (`Rfc1738`, `Params`, `Form`). Encoding, joining, splitting and decoding round-trip;
  query strings give the last duplicate, forms the first, and forms lose plus signs.
- **Growable string** (`GrowString`, `Split`). Capacity and amortised copying over whole runs, and
  splitting into exactly the maximal delimiter-free runs.

Where code and comments disagree the model follows the code. Examples: the comment on `get_qstring`
says escaped backslashes are read as one, but the raw contents are kept; the form reader documents
fields separated by ampersands, but looks for the equals sign beyond the next ampersand; the comment
on `set_uri_params` separates parameters with semicolons and promises to support empty values, but
the code separates them with ampersands and refuses an empty value.

## Model

| member | source | states |
|---|---|---|
| `JsonNumber.NumberFilterIsRfc` | json/json.c:211-374 | for every text of number characters that starts with `-` or a digit, isinteger holds exactly for the integers of section 6 of RFC 8259, and isnumber exactly for its numbers below 512 characters that are integers or in range |
| `JsonNumber.RealIsRfc` | json/json.c:299-359 | what isreal accepts is a number of the RFC and in range |
| `JsonNumber.RfcIsReal` | json/json.c:299-359 | every number of the RFC that is no integer and in range passes isreal: no filter before strtold rejects one |
| `JsonNumber.FilteredHasShape` | json/json.c:321-346 | the leading-zero, dot and strtold tests together leave only texts made of minus, int, frac and exp |
| `JsonLexer.ClosingQuoteEndsUnits` | json/json.c:476-541 | the closing quote is found exactly where legal contents (ordinary characters, two-character escapes, backslash-u with four hex digits) run up to it |
| `JsonLexer.Lex` | json/json.c:669-727 | a token advances the position, and only the end of the input gives EOF |
| `JsonLexer.Alphabets` | json/json.c:452-541 | the digits, hex digits, escapes, ordinary characters and blanks of the lexer, as literal alphabets |
| `JsonParser.Parser.GetQString` | json/json.c:488-541 | the automaton with one character of memory returns a string exactly when the unit grammar finds a closing quote, and records exactly the contents |
| `JsonParser.Parser.GetNumber` | json/json.c:618-658 | reads the longest run of number characters, steps back over the next one, and accepts exactly what the filter accepts |
| `JsonParser.Parser.GetRest` | json/json.c:543-608 | the keyword readers accept exactly the rest of their word |
| `JsonParser.Parser.SkipWhite` | json/json.c:679-688 | stops at the first character that is not blank, or at a form feed |
| `JsonParser.Parser.ReadToken` | json/json.c:690-723 | the switch yields the token that starts at the character just read, and the position behind it |
| `JsonParser.Parser.NextSym` | json/json.c:669-727 | the lookahead becomes the next lexeme of the text; the measure 2*(size-nread) + (not at EOF) drops strictly, except at EOF, where nothing changes and the call fails |
| `JsonParser.Parser.Accept` | json/json.c:762-773 | succeeds exactly when the lookahead matches and no lexical error follows; saves the text of strings and numbers; a success strictly lowers the measure |
| `JsonGrammar.ParsesValue` | json/json.c:833-877 | for every grammatical value and whatever follows, accept_value consumes exactly its tokens, builds its tree and restores the array counter |
| `JsonGrammar.ParsesArray` | json/json.c:784-830 | the same for array contents up to the closing bracket, with the comma count and the nesting limit |
| `JsonGrammar.ParsesObject` | json/json.c:912-949 | the same for object members up to the closing brace |
| `JsonGrammar.ParsesMember` | json/json.c:884-907 | the same for one name, colon and value |
| `JsonGrammar.ParsesDocument` | json/json.c:981-999 | a document of one grammatical value ends in success with lookahead EOF and no open array |
| `JsonText.LexesLayout` | json/json.c:669-727 | lexing any layout of legal lexemes, with any blanks between them, gives those lexemes and then EOF |
| `JsonText.AcceptsGrammaticalText` | json/json.c:981-999 | completeness: every text of every grammatical value with arrays nested at most 19 deep is accepted with the tree it denotes |
| `JsonParser.Parser.AcceptValue` | json/json.c:833-877 | on every input, grammatical or not, terminates and does what the recursive description does; a returned value strictly lowers the measure; active array frames never exceed the counter |
| `JsonParser.Parser.AcceptArrayElements` | json/json.c:784-830 | as above for arrays; at most 20 such frames are ever active |
| `JsonParser.Parser.ReadElements` | json/json.c:796-812 | the do/while loop terminates and collects the values and commas of the description |
| `JsonParser.Parser.AcceptObject` | json/json.c:884-907 | as above for one member |
| `JsonParser.Parser.AcceptObjects` | json/json.c:912-949 | as above for objects |
| `JsonParser.Parser.ReadMembers` | json/json.c:922-930 | the do/while loop terminates and collects the members and commas of the description |
| `JsonParser.Parser.Parse` | json/json.c:981-999 | json_parse computes status, tree and final state of the description, for every input |
| `JsonPrint.DecimalParses` | json/json.c:1116-1137 | the text printed for any long is an integer of the RFC, fits the number buffer and reads back as the same long |
| `JsonPrint.PrintSpells` | json/json.c:1058-1137 | what the printer writes spells exactly the tokens of the tree, with blanks between them |
| `JsonPrint.PrintParse` | json/json.c:1058-1137 | print/parse identity for every tree without doubles, with legal strings, longs and arrays at most 19 deep; it ends at EOF with no open array |
| `JsonReparse.ValueIsBuilt` | json/json.c:833-877 | every tree the parser returns, from any token stream, has legal strings, longs and at most 19 nested arrays |
| `JsonReparse.ParsePrintParse` | json/json.c:981-1137 | for every text at all: a tree without doubles that parsing returns is printed to a text that parses to the same tree |
| `JsonReparse.AbsorbsInnerFailure` | json/json.c:784-830 | a family of texts accepted although not grammatical: for every value v that fits, [[v,]] succeeds and gives the empty array; `JsonDocument.SuccessExactly` says which accepted texts these are in all |
| `JsonStream.ValueSuffix` | json/json.c:762-949 | the parser only drops lexemes from the front, and never the last one |
| `JsonSound.ValueExact` | json/json.c:784-949 | a value returned took at least the tokens its tree has, exactly so many if and only if no failure was absorbed; then they are the tokens of a grammatical value with that tree, otherwise the tree has an empty container |
| `JsonSound.SoundExactly` | json/json.c:784-949 | the tokens consumed for a value are those of a grammatical value with its tree if and only if no container absorbed the failure of its first element or only member after it had taken a token |
| `JsonSound.SoundWithoutEmpty` | json/json.c:784-949 | a tree without empty arrays and objects was always read from a grammatical value |
| `JsonLimit.ValueConserves` | json/json.c:784-877 | without lexical errors the array counter plus the brackets still ahead is the same before and after a value |
| `JsonLimit.TooDeepLeaks` | json/json.c:784-793 | a grammatical value that nests too deep leaves the counter higher than it was |
| `JsonLimit.DocumentExactly` | json/json.c:981-999 | a document of one grammatical value succeeds if and only if its arrays nest at most 19 deep |
| `JsonDocument.LexemesSpell` | json/json.c:669-727 | the lexemes of any text without lexical error are legal, and the text spells them with blanks between |
| `JsonDocument.AcceptsExactly` | json/json.c:981-999 | a grammatical text is accepted, with the tree it denotes, if and only if its arrays nest at most 19 deep |
| `JsonDocument.SuccessExactly` | json/json.c:981-999 | for every text json_parse accepts: it is grammatical with the tree returned if and only if no failure was absorbed and no extra token stands before a lexical error |
| `JsonDocument.SuccessWithoutEmpty` | json/json.c:981-999 | a text consumed whole to a tree without empty containers is grammatical |
| `JsonDocument.RecognisesExactly` | json/json.c:981-999 | for every text: it is grammatical and at most 19 deep if and only if it is accepted, nothing was absorbed and nothing is left over |
| `JsonDocument.ExtraTokenSucceeds` | json/json.c:993-998 | a value, any one token and a lexical error end in success with the value |
| `JsonDocument.ExtraTokenRefused` | json/json.c:993-998 | a value, any one token and no lexical error behind it are refused as trailing data |
| `JsonDocument.NothingToParse` | json/json.c:981-992 | a text is reported to have no input exactly if it starts with a lexical error; one of blanks is invalid |
| `JsonValue.IntegersAreNumerals` | json/json.c:242-273 | the integers of the grammar are exactly the decimal numerals of the naturals, with or without a minus sign |
| `JsonValue.MeaningDenotes` | json/json.c:376-432 | the tree built for a well-formed value is the one it denotes: numerals become the nearest long of their sign and value, other numbers keep their text, at any depth |
| `JsonValue.DenotesOne` | json/json.c:376-432 | a value denotes one tree only |
| `JsonValue.ParsesAsDenoted` | json/json.c:981-999 | json_parse of a grammatical text up to 19 arrays deep returns a tree if and only if the text denotes it |
| `JsonValue.RealParses` | json/json.c:850-857 | every in-range number of the RFC that is no integer, below 512 characters, parses to exactly its own text |
| `JsonValue.LongParses` | json/json.c:850-857 | every numeral parses to the long of its sign and value, and past the range to 9223372036854775807 or -9223372036854775808 |
| `Bytes.HtonllBytes` | meta/src/connection.c:37-43 | on a little-endian host the memory of htonll(n) is the big-endian bytes of n, for every 64-bit n |
| `Bytes.NtohllBytes` | meta/src/connection.c:28-34 | ntohll of eight network bytes read into memory is the number they spell |
| `Bytes.HostToNetBytes` | meta/src/connection.c:419-444 | the same for the 16- and 32-bit conversions of the writers |
| `Bytes.NetToHostBytes` | meta/src/connection.c:406-436 | and of the readers |
| `Membuf.Buffer.constructor` | meta/src/meta_membuf.c:30-45 | a new buffer is empty |
| `Membuf.Buffer.CanRead` | meta/src/meta_membuf.c:60-67 | is the length of the contents |
| `Membuf.Buffer.CanWrite` | meta/src/meta_membuf.c:76-85 | never exceeds the room behind the written bytes; it relies on a drained buffer being at its start |
| `Membuf.Buffer.SetWritten` | meta/src/meta_membuf.c:69-73 | the bytes placed in the buffer become its contents |
| `Membuf.Buffer.Reset` | meta/src/meta_membuf.c:88-92 | empties the buffer |
| `Membuf.Buffer.Unget` | meta/src/meta_membuf.c:94-104 | succeeds exactly when the read position is not at the start, and puts the last byte back in front |
| `Membuf.Buffer.Read` | meta/src/meta_membuf.c:124-147 | splits the old contents into what is returned, as much as asked for and there, and what is left; a drained buffer is reset |
| `Membuf.Buffer.Write` | meta/src/meta_membuf.c:149-164 | appends as much as there is room for |
| `Socket.Stream.Read` | meta/src/gensocket.c:671-697 | delivers a non-empty prefix of the peer's bytes, exactly if some arrive within the retries and before a failure that is no timeout, and then exactly the first delivery; otherwise nothing is consumed |
| `Socket.Stream.Write` | meta/src/gensocket.c:576-604 | sends exactly as much as the kernel takes within the retries and before a failure that is no timeout; succeeds exactly if that is all |
| `Socket.ArrivesDelivers` | meta/src/gensocket.c:671-697 | the loop of tcp_read brings bytes if and only if a delivery stands within the retries, behind timeouts only |
| `Socket.FitsTakes` | meta/src/gensocket.c:576-604 | the loop of tcp_write sends all if and only if some first events within the retries take that much and none of them fails |
| `Connection.Conn.constructor` | meta/src/connection.c:226-242 | a connection with empty buffers satisfies both invariants |
| `Connection.Conn.Fill` | meta/src/connection.c:102-124 | moves received bytes to the buffer and changes nothing for the reader; succeeds exactly if bytes arrive within the retries, and holds exactly the first delivery |
| `Connection.Conn.GetC` | meta/src/connection.c:281-298 | delivers the first pending byte exactly if one is buffered or arrives within the retries; otherwise changes nothing; says how much is buffered afterwards |
| `Connection.Conn.UngetC` | meta/src/connection.c:468-473 | succeeds exactly when the read position is not at the start of the buffer, and then takes back the byte delivered last |
| `Connection.Conn.ReadBuffered` | meta/src/connection.c:134-137 | delivers as much of the buffer as asked for and there, and keeps the receive accounting |
| `Connection.Conn.ReadDirect` | meta/src/connection.c:349-362 | delivers bytes straight from the socket past an empty buffer, counted as received |
| `Connection.Conn.Read` | meta/src/connection.c:364-402 | delivers what is buffered and at most one delivery more, exactly so many bytes; succeeds exactly if enough was buffered or bytes arrive; a failure drops exactly what was buffered |
| `Connection.Conn.Gets` | meta/src/connection.c:567-588 | delivers exactly one line of the pending stream, or as much as fits, however reads are cut; fails only with the socket, and then has consumed a newline-free part of the line |
| `Connection.LineEndExactly` | meta/src/connection.c:567-588 | a line ends at its first byte 10, or at the limit if none comes before it |
| `Connection.Conn.Flush` | meta/src/connection.c:245-263 | on success all written bytes are on the socket, on failure a prefix of them; succeeds exactly if the kernel takes the buffer within the retries |
| `Connection.Conn.Write` | meta/src/connection.c:313-331 | appends to the written stream, on failure the socket holds a prefix of it; only buffers what fits, and otherwise fails exactly if the flush before it or the direct write fails |
| `ConnectionRun.Run` | meta/src/connection.c:245-402 | refinement over whole runs: for any calls and any socket, delivered plus pending is what the peer sent, received bytes are delivered plus buffered and counted, sent plus write buffer is what was written in order; a run stops only for a failure of the socket or an ungetc at the buffer's start |
| `ConnectionRun.Step` | meta/src/connection.c:281-402 | every single call keeps both streams, and says why it failed |
| `Chunked.GetChunkLen` | http/src/response.c:1515-1529 | returns the size in the next line, skipping the blank line that closes a chunk, and consumes exactly those lines; a line that fills its buffer without a NUL is its own outcome; fails otherwise only with the socket or on a bad size |
| `Chunked.ReadChunk` | http/src/response.c:1556-1576 | terminates and returns exactly the next bytes of the stream, in however many reads they come |
| `Chunked.ReadChunked` | http/src/response.c:1539-1587 | for every fragmentation, comes to exactly the outcome the stream decodes to, or fails with the socket; a body is within the limit and leaves exactly the rest |
| `Chunked.AdmitExactly` | http/src/response.c:1549-1552 | the size test lets a chunk pass within the limit, refuses it above, and misses it exactly when the sum reaches 2^64: a wrapped sum always passes |
| `Chunked.BodyWithinLimit` | http/src/response.c:1539-1587 | a body never exceeds max_contentlen |
| `Chunked.HeadOfChunk` | meta/src/meta_convert.c:162-196 | a line with the hex digits of n, each in either case and with any zeros before them, is read as n, also after the line end of the previous chunk |
| `Chunked.SpelledValue` | meta/src/meta_convert.c:162-196 | the value read from digits is n if and only if they spell n over the alphabets 0123456789abcdef and 0123456789ABCDEF |
| `Chunked.PrintedSize` | meta/src/meta_convert.c:162-196 | for every n below 2^64, printed in either case with leading zeros, the line has the size n |
| `Chunked.SizeTextExactly` | meta/src/meta_convert.c:162-196 | exactly the texts of an optional plus sign, an optional 0x or 0X and hex digits of a number below 2^64 have that size |
| `Chunked.SizeOfLineExactly` | http/src/response.c:1507-1529 | a line has a size exactly if it is such a text between spaces, up to the first NUL |
| `Chunked.LongLineIsOpen` | http/src/response.c:1515-1529 | a line of 1024 bytes without NUL is left unterminated |
| `Chunked.DecodeEncode` | http/src/response.c:1539-1587 | decoding the rest of an encoding appends exactly its content, refused exactly when the total is empty or exceeds the limit |
| `Chunked.ChunkedRoundTrip` | http/src/response.c:1507-1587 | decoding inverts the encoding of section 3.6.1 of RFC 2616 for all chunk lists, sizes in hex digits of either case: content and trailer come back exactly if there is a chunk and the total is within the limit |
| `Chunked.ReadEncoded` | http/src/response.c:1539-1587 | the same over a connection: an encoded body is read back whole with the trailer left, unless a read fails |
| `Chunked.WrapOverruns` | http/src/response.c:1549-1568 | behind any chunk within the limit, any size line that brings the total to 2^64 or more overruns the buffer |
| `Chunked.OverrunInput` | http/src/response.c:1549-1568 | the size line fffffffffffffff8 behind a chunk of eight bytes or more is such an input |
| `BeepCodec.CastInverse` | apps/beep/cbuf.c:7-77 | the casts between signed and unsigned types of each width lose nothing |
| `BeepCodec.ValidExactly` | apps/beep/cbuf.c:7-244 | a value is valid exactly if it is in the range of its C type, as literal bounds |
| `BeepCodec.EncodeIsWire` | apps/beep/cbuf.c:7-244 | the bytes of each of the 17 kinds, with literal tags and flag bytes, most significant byte first, negatives as themselves plus the modulus |
| `BeepCodec.DecodesUniquely` | apps/beep/cbuf.c:165-244 | a stream starts with at most one value, and what follows it is fixed too |
| `BeepCodec.SelfDelimiting` | apps/beep/cbuf.c:7-244 | how a stream splits into a given number of values is fixed by its bytes |
| `BeepCodec.EncodingDetermines` | apps/beep/cbuf.c:7-244 | an encoding belongs to one sequence of values only |
| `BeepCodec.WriteUint` | meta/src/connection.c:419-460 | writes the big-endian bytes of the number; only buffers them when they fit |
| `BeepCodec.WriteValue` | apps/beep/cbuf.c:7-244 | writes exactly the wire bytes of the value: literal tag, length and payload; a failure leaves a prefix written; only buffers them when they fit |
| `BeepCodec.WritePayload` | apps/beep/cbuf.c:7-244 | writes exactly the payload of the value |
| `BeepCodec.ReadUint` | meta/src/connection.c:406-454 | a number returned is the one whose big-endian bytes the stream starts with; succeeds if and only if the buffered bytes and the next delivery reach its width |
| `BeepCodec.Expect` | apps/beep/cbuf.c:249-264 | consumes the tag if it is next; a mismatch puts the stream back exactly when the byte was not the last one buffered or delivered, and loses that byte when it was |
| `BeepCodec.ReadNumber` | apps/beep/cbuf.c:266-344 | returns the number whose payload comes next, in the range of its type; nothing only when a read fails or is short |
| `BeepCodec.ReadFlag` | apps/beep/cbuf.c:383-402 | returns the flag whose byte comes next; nothing only on another byte or a failed read |
| `BeepCodec.ReadData` | apps/beep/cbuf.c:436-477 | returns the sized value that comes next and fits; nothing only when a read fails or the stream starts with no such value |
| `BeepCodec.ReadValue` | apps/beep/cbuf.c:266-477 | a value returned is the one whose wire bytes the stream starts with and exactly those are consumed; nothing is returned only when a read failed or came up short, or the stream does not start with a value of the kind that fits; never when the value is whole in the buffer |
| `BeepCodec.ReadPayload` | apps/beep/cbuf.c:266-477 | the same behind the tag |
| `BeepSession.WriteAll` | apps/beep/user.c:138-157 | writes exactly the encodings of the values in order |
| `BeepSession.ReadAll` | apps/beep/user.c:160-173 | reads exactly one value per slot; fails only when a read fails or no values for the slots start the stream |
| `BeepSession.ReadBack` | apps/beep/user.c:160-173 | values that were written are read back, the rest left, unless a read fails or comes up short; always when all is buffered |
| `BeepSession.UserSend` | apps/beep/user.c:138-157 | on success exactly the user message has been sent, byte by byte as literals and fields in order; one prompt write suffices |
| `BeepSession.UserMessageBytes` | apps/beep/user.c:138-157 | a user message is 0 1 0 1, an opening brace, id, name, nick, email and created in wire bytes, and a closing brace |
| `BeepSession.ReplyMessageBytes` | apps/beep/main.c:66-84 | a reply is 0 1 0 1 0 0, an opening brace, the id in wire bytes and a closing brace |
| `BeepSession.UserRecv` | apps/beep/user.c:160-173 | a user returned is the one the stream starts with; none only when a read fails or the stream starts with no user |
| `BeepSession.WriteShorts` | apps/beep/cbuf.c:79-91 | writes the two shorts of the header |
| `BeepSession.ReadShorts` | apps/beep/cbuf.c:93-105 | reads them back |
| `BeepSession.SendReply` | apps/beep/main.c:66-84 | on success exactly the reply message has been sent, byte by byte; otherwise a write failed; two prompt writes suffice |
| `BeepSession.SendStatus` | apps/beep/cbuf.c:124-139 | on success exactly the reply header and status have been sent |
| `BeepSession.SendId` | apps/beep/main.c:76-84 | on success exactly the id in braces has been sent |
| `BeepSession.Serve` | apps/beep/main.c:51-119 | consumes exactly one user message and sends exactly one reply; refuses only on a failed call or when the stream starts with no user message |
| `BeepSession.ReadId` | apps/beep/bdb_client.c:41-51 | an id returned is the one the stream starts with |
| `BeepSession.ReceiveReply` | apps/beep/bdb_client.c:53-83 | reads exactly one reply; refuses only on a failed read or when the stream starts with no reply |
| `BeepSession.UserMessagesDiffer` | apps/beep/user.c:138-157 | a user message that starts with another is that other, with nothing behind it |
| `BeepSession.RepliesDiffer` | apps/beep/bdb_client.c:41-83 | the same for replies and ids |
| `BeepSession.Request` | apps/beep/main.c:91-119 | unless a call fails, the server gets the user that was sent, both sides are drained, and exactly the reply for the id has been sent; no call fails on prompt sockets |
| `BeepSession.Ask` | apps/beep/user.c:138-157 | unless a write fails, exactly the user message waits on the server side and the client is drained |
| `BeepSession.Answer` | apps/beep/main.c:51-119 | unless a call fails, the server gets that user, is drained and has sent exactly the reply |
| `BeepSession.Reply` | apps/beep/bdb_client.c:41-83 | unless a call fails, the client reads the id of the reply and is drained |
| `BeepSession.Exchange` | apps/beep/bdb_client.c:53-83 | one exchange answers its request and drains both streams; it is incomplete only if some call failed, and complete when each message comes in one delivery and fits the buffers |
| `BeepSession.Session` | apps/beep/main.c:91-119 | over any number of exchanges the k-th user received and the k-th id read are those of the k-th request; a session ends early only if some call failed, and completes when the sockets are prompt and the messages fit the buffers |
| `Pool.ResourcePool.constructor` | meta/src/meta_pool.c:30-49 | a new pool has no resources and the given number of slots |
| `Pool.ResourcePool.Add` | meta/src/meta_pool.c:76-92 | appends the resource behind the others |
| `Pool.ResourcePool.Fill` | http/src/http_server.c:285-344 | after the loop every slot holds its resource |
| `Pool.ResourcePool.Get` | meta/src/meta_pool.c:94-125 | takes the first resource there is and empties its slot, or finds none and changes nothing |
| `Pool.ResourcePool.Recycle` | meta/src/meta_pool.c:127-155 | fills the first empty slot, or dies when there is none |
| `PoolMachine.StepConserves` | http/src/highlander.c:314-339 | each step of a worker that does not crash keeps pooled plus held, for both pools |
| `PoolMachine.Conservation` | http/src/highlander.c:314-339 | in every interleaving that has not crashed, pooled plus held is the initial multiset |
| `PoolMachine.EmptySlotsAreHeld` | meta/src/meta_pool.c:94-155 | in every such state the empty slots are as many as the held resources |
| `PoolMachine.RecycleNeverDies` | meta/src/meta_pool.c:127-155 | recycling by a holder never finds the pool full |
| `PoolMachine.GetFailsWhenAllHeld` | meta/src/meta_pool.c:94-125 | a get fails exactly when every resource of the pool is held |
| `PoolMachine.Exclusive` | http/src/http_server.c:571-617 | no resource has two holders, and none is both held and pooled |
| `PoolMachine.NeverFails` | http/src/http_server.c:285-344 | with at least as many resources as workers no call fails in any interleaving |
| `PoolMachine.OneTooMany` | http/src/http_server.c:571-599 | with more workers than resources some interleaving crashes |
| `PoolMachine.SafeExactly` | http/src/http_server.c:285-344 | with N of each, every interleaving of the workers is safe if and only if there are at most N workers |
| `PoolProgress.StepMovesOn` | http/src/highlander.c:314-339 | a step takes a worker from nothing to a request out of the pool, to both, to the response with the request back in its pool, to nothing with the response back; no other worker moves |
| `PoolProgress.PhaseCounts` | http/src/highlander.c:314-339 | in every interleaving without a crash a worker holds nothing, a request, both or a response by the number of its turns modulo four |
| `PoolProgress.FullTurn` | http/src/highlander.c:314-339 | four steps of an idle worker in a row succeed exactly if both pools have a resource, and then leave every worker and the contents of both pools as they were |
| `PoolProgress.ReturnsExactly` | http/src/http_server.c:571-617 | from every state reached without a crash some schedule brings all workers to rest with both pools as at the start, exactly unless a worker waits for a response that never existed |
| `LinkedList.Node.constructor` | meta/src/meta_list.c:14-26 | a new list is empty and valid |
| `LinkedList.Node.Add` | meta/src/meta_list.c:49-86 | appends, keeps both chains and the cached tail, also after the list was emptied |
| `LinkedList.Node.Unlink` | meta/src/meta_list.c:93-119 | the links lead past the node, the tail is right (the head itself once the list is empty), and the successor is returned |
| `LinkedList.Node.RemoveNode` | meta/src/meta_list.c:93-119 | the list without exactly that node, valid, with the iterator at its successor; an emptied list caches its head |
| `LinkedList.Node.DeleteIf` | apps/webcache/find_files.c:64-91 | deleting while iterating leaves exactly the elements that are not to be deleted, in order |
| `LinkedList.Node.Merge` | meta/src/meta_list.c:269-285 | the elements of the second list behind those of the first, in order |
| `LinkedList.Node.Insert` | meta/src/meta_list.c:349-380 | puts the element in front; the list stays valid if and only if it was not an emptied list, whose cached tail goes stale |
| `LinkedList.Node.Link` | meta/src/meta_list.c:66-81 | what list_add does to the pointers, whatever the cache holds |
| `LinkedList.Node.LosesInserted` | meta/src/meta_list.c:349-380 | on an emptied list, what list_insert puts in is dropped by the next list_add |
| `LinkedList.EmptiedListLoses` | meta/src/meta_list.c:49-133 | the state is reached: new list, one element added and removed, one inserted, one added leaves only the last |
| `LinkedList.Node.Pass` | meta/src/meta_list.c:433-446 | one pass either exchanges nothing and shows all neighbours in order, or strictly lowers the number of inversions; stable in both cases |
| `LinkedList.Node.Sort` | meta/src/meta_list.c:422-448 | terminates; for any total preorder the result is sorted, a permutation and stable, and equal to a stable insertion sort |
| `LinkedList.Node.SwapData` | meta/src/meta_list.c:435-444 | exchanges two neighbouring elements and no others |
| `LinkedList.RunList` | meta/src/meta_list.c:49-133 | refinement over whole runs: any mix of adding, inserting, removing by position, deleting by predicate, merging and sorting does to the list what it does to a sequence, but for inserting into an emptied list |
| `LinkedList.Do` | meta/src/meta_list.c:49-448 | every single call does to the list what it does to the sequence, and keeps the cached tail |
| `SortSpec.SwapLowers` | meta/src/meta_list.c:422-448 | exchanging an inverted pair of neighbours removes exactly one inversion |
| `SortSpec.SwapIsStable` | meta/src/meta_list.c:422-448 | and keeps the elements and the order of equal ones |
| `SortSpec.StableSortUnique` | meta/src/meta_list.c:422-448 | sorted and stable determine the result: two such arrangements are equal |
| `SortSpec.StableSortedSorts` | meta/src/meta_list.c:422-448 | the insertion sort it is compared with is sorted and stable |
| `SortSpec.IsStableSorted` | meta/src/meta_list.c:422-448 | whatever is sorted and stable equals that insertion sort |
| `Stringmap.ComputeHash` | meta/src/meta_stringmap.c:15-24 | the loop computes the djb2 hash in 64-bit arithmetic |
| `Stringmap.HashSteps` | meta/src/meta_stringmap.c:15-24 | the hash starts at 5381 and each byte makes it 33 times itself plus the byte, modulo 2^64 |
| `Stringmap.BucketSound` | meta/src/meta_stringmap.c:130-205 | everything in a bucket is a numbered name that hashes to it |
| `Stringmap.BucketComplete` | meta/src/meta_stringmap.c:130-205 | every name is in the bucket of its hash, with its number |
| `Stringmap.ListedAll` | meta/src/meta_stringmap.c:269-302 | the buckets together list each name exactly as often as it was added |
| `Stringmap.Map.constructor` | meta/src/meta_stringmap.c:80-98 | a new map has no names |
| `Stringmap.Map.Locate` | meta/src/meta_stringmap.c:130-152 | finds a string exactly if it was added, and its number names it |
| `Stringmap.Map.Add` | meta/src/meta_stringmap.c:154-205 | a known string keeps its number, a new one gets the next; no other number changes, and numbers are 1 to last_id |
| `Stringmap.Map.ToList` | meta/src/meta_stringmap.c:269-302 | lists each string exactly once |
| `Stringmap.Map.Subset` | meta/src/meta_stringmap.c:237-267 | the result holds exactly the strings of the first map that the second has not |
| `Cache.ChainMembers` | meta/src/meta_cache.c:291-313 | an item is in the chain of its number's remainder and in no other |
| `Cache.Store.Get` | meta/src/meta_cache.c:291-344 | finds the item of the number exactly if it was added |
| `Cache.Store.Add` | meta/src/meta_cache.c:175-254 | adds the item; refuses exactly when its size exceeds the limit and aborts exactly on a number in use |
| `Filecache.Index.constructor` | meta/src/meta_filecache.c:108-129 | a new file cache is empty and its levels agree |
| `Filecache.Index.Add` | meta/src/meta_filecache.c:141-183 | adds the file to both levels; fails exactly when one entry exceeds the limit, aborts exactly on a known alias; the levels still agree if and only if an entry fits or the alias was known |
| `Filecache.Index.Exists` | meta/src/meta_filecache.c:215-227 | asks the string map only; while the levels agree that is the simple map's answer |
| `Filecache.Index.Get` | meta/src/meta_filecache.c:229-286 | returns what the cache has under the alias's number, and nothing exactly if there is none; while the levels agree, exactly the file last added under the alias |
| `Filecache.Index.RefusedStillExists` | meta/src/meta_filecache.c:141-248 | after a file was refused for its size, filecache_exists says yes and filecache_get fails |
| `Filecache.Index.Invalidate` | meta/src/meta_filecache.c:186-207 | both levels start afresh and agree |
| `Filecache.Index.Call` | meta/src/meta_filecache.c:141-286 | every call answers as one simple map does and keeps the levels in agreement until the process dies |
| `Filecache.Index.Run` | meta/src/meta_filecache.c:141-286 | refinement over whole runs: with a limit of at least one entry, the two-level index gives the answers of one simple map to any sequence of calls |
| `Rfc1738.EncodedLength` | http/src/rfc1738.c:82-128 | the encoding is as long as the text plus twice its non-alphanumerics |
| `Rfc1738.EncodedAlphabet` | http/src/rfc1738.c:16-41 | the encoding consists of letters, digits and percent signs |
| `Rfc1738.RoundTrip` | http/src/rfc1738.c:82-164 | decoding inverts encoding for every byte string |
| `Rfc1738.DecodeExactly` | http/src/rfc1738.c:47-164 | decoding gives exactly the bytes a text means by section 2.2 of RFC 1738, hex digits in either case, and fails where it means nothing |
| `Rfc1738.EncodeByteExactly` | http/src/rfc1738.c:16-41 | a letter or digit stands for itself, every other byte is a percent sign and two upper-case hex digits |
| `Rfc1738.EncodeInto` | http/src/rfc1738.c:82-128 | produces the whole encoding whenever it fits, and otherwise nothing unless a NUL stands exactly where the destination is full; says when the terminator goes past the destination |
| `Rfc1738.DecodeInto` | http/src/rfc1738.c:130-164 | returns bytes exactly if the text means them and they fit with their terminator; the remaining length never underflows; says what was written in any case |
| `Rfc1738.PutEncoded` | http/src/rfc1738.c:130-164 | of an encoding, exactly as many bytes are decoded as there is room for |
| `Rfc1738.PutMeans` | http/src/rfc1738.c:130-164 | what was written is the meaning of the text up to where the room, the text or a good escape ended |
| `Params.Pairs.constructor` | meta/src/meta_pair.c:13-29 | a new pair list is empty |
| `Params.Pairs.FindName` | meta/src/meta_pair.h:51-62 | the first pair of the name, or the end |
| `Params.Pairs.Get` | meta/src/meta_pair.h:86-97 | the value of the first pair of the name |
| `Params.Pairs.Add` | meta/src/meta_pair.c:47-116 | appends the pair, growing the array when it is full; the other pairs stay |
| `Params.Pairs.Set` | meta/src/meta_pair.c:63-86 | replaces the value where the name is, or appends the pair |
| `Params.LookupAfterSet` | meta/src/meta_pair.c:63-86 | after setting, the name has the new value and every other name its old one |
| `Params.SetOneParam` | http/src/request.c:1691-1766 | stores the pair the text starts with, or reports which limit or escape is at fault and stores nothing; an empty value is reported by whatever errno held before |
| `Params.ParamParts` | http/src/request.c:1691-1717 | a parameter is its name up to the first equals sign and its value up to the next ampersand, bytes 61 and 38 |
| `Params.OneParamExactly` | http/src/request.c:1734-1766 | every status by the limits 100 and 500, the meaning of the value and errno, and the pair stored on success |
| `Params.SetUriParams` | http/src/request.c:1776-1787 | terminates and stores the parameters in order up to the first bad one, with its status |
| `Params.OneParamRoundTrip` | http/src/request.c:1747-1766 | an encoded field parses to its pair, whatever field follows |
| `Params.ParamsRoundTrip` | http/src/request.c:1776-1787 | for any non-empty list of legal pairs, parsing the joined text stores exactly those pairs in order |
| `Params.ParamsUpTo` | http/src/request.c:1776-1787 | good parameters stay stored whatever follows them, and the rest is treated as a text of its own |
| `Params.ParamsStop` | http/src/request.c:1683-1787 | what ends a text: no equals sign, a refused parameter, or nothing behind an ampersand |
| `Params.QueryRoundTrip` | http/src/request.c:1776-1787 | after that every name looks up the value it was given last |
| `Form.FieldCount` | http/src/request.c:741-759 | the loop counts the fields between ampersands |
| `Form.FieldStart` | http/src/request.c:762-777 | the loop finds where the n-th field starts |
| `Form.FieldAtExactly` | http/src/request.c:762-777 | field n starts behind the n-th ampersand |
| `Form.NameLength` | http/src/request.c:779-809 | the length of the field's name; zero without an equals sign up to the end of the entity |
| `Form.ValueLength` | http/src/request.c:811-839 | the length of the encoded value; zero without a name |
| `Form.FieldName` | http/src/request.c:841-864 | the name, cut to the destination |
| `Form.ReplacePlus` | http/src/request.c:888-893 | turns plus signs into spaces up to the terminator |
| `Form.PlusExactly` | http/src/request.c:888-893 | byte 43 becomes byte 32 and every other byte stays |
| `Form.FieldValue` | http/src/request.c:866-896 | the decoded value with its plus signs turned into spaces; success is reported even when decoding failed, with what was written by then |
| `Form.FieldValueByName` | http/src/request.c:901-924 | the value of the first field of the name; a nameless field ends the search |
| `Form.JoinedFields` | http/src/request.c:741-777 | a joined list has one field per pair, and field n starts the joined rest |
| `Form.FieldRoundTrip` | http/src/request.c:841-896 | field n of a joined list has the name and value of pair n |
| `Form.FormRoundTrip` | http/src/request.c:741-924 | looking a name up in joined pairs finds its first pair, and its value comes back if and only if it fits the buffer and holds no plus sign; a value that does not fit is cut |
| `GrowString.NewSize` | meta/src/cstring.c:29-58 | the new capacity holds the request and its terminator, is unchanged exactly if there was room, and otherwise at least doubles and is at most twice the text asked for |
| `GrowString.CString.constructor` | meta/src/cstring.c:163-180 | a new string is empty and valid |
| `GrowString.CString.Extend` | meta/src/cstring.c:29-58 | keeps the text, makes room, and counts the bytes moved |
| `GrowString.CString.Reserve` | meta/src/cstring.c:20-58 | room for the request, the text unchanged |
| `GrowString.CString.Append` | meta/src/cstring.c:109-147 | appends the text and its terminator, within the capacity |
| `GrowString.CString.AppendByte` | meta/src/cstring.c:149-161 | appends the byte and the terminator, within the capacity |
| `GrowString.CString.Set` | meta/src/cstring.c:199-217 | the text is replaced |
| `GrowString.CString.Insert` | meta/src/cstring.c:513-531 | the text is put in at the offset and the rest moved behind it |
| `GrowString.LongestIsLast` | meta/src/cstring.c:109-161 | in a run of appends and insertions the final text is the longest |
| `GrowString.Run` | meta/src/cstring.c:23-217 | over any run: the text is right, len < size, the capacity is at most twice the longest text or the initial 256, all reallocations together moved less than the final capacity, and their number is logarithmic in it |
| `Split.WordsExactly` | meta/src/cstring.c:402-448 | the words are exactly the maximal delimiter-free runs, all of them, in order; no other list is |
| `Split.CountWords` | meta/src/cstring.c:417-421 | the first pass counts the words |
| `Split.MultiNew` | meta/src/cstring.c:271-288 | so many new, empty strings that share nothing |
| `Split.SplitText` | meta/src/cstring.c:402-448 | both passes agree: as many strings as words, each holding its word |

## Left out

- JSON doubles: a real number keeps its source text; the value strtold computes and `%Lg` printing, which loses digits, are not modelled, and ERANGE is an arbitrary predicate on texts.
- The strict grammar: grammatical texts here are those of RFC 8259 and what the lexer adds, the word `string`, vertical tabs as blanks, and control characters other than NUL, tab and newline in strings.
- JsonParser.Parser.AcceptValue: a lookahead `boolean` ends the C process, because the token table has no row for it; the model returns no value there.
- JsonParser.Parser.GetC: characters from 0x80 on are plain characters; in C 0xFF can look like the end of the input where char is signed.
- JSON error numbers, line numbers and the deallocation of trees.
- Memory: allocation never fails, and freeing is not modelled.
- The operating system: poll, read and write are scripts of events, one per call, over which every statement is quantified; TLS, addresses and timeouts in milliseconds are not modelled.
- BeepCodec.ReadData: a length of zero ends the C process, since the buffer refuses an empty read; the model reports failure. Writers of empty strings are therefore outside `Value.Valid`.
- Float and double transport.
- BeepSession.ReadId: C returns zero for a failed read and the client goes on; the model reports no id and ends the session.
- BeepSession.Serve: the id the database assigns is a parameter; the loop of beep_callback is the loop of `Session`, one request at a time.
- Chunked.ReadChunked: what C does after it wrote or read past a buffer is not described; the model ends there with the outcome Overrun or Overread. Chunk extensions and trailers are not interpreted.
- PoolMachine.Step: a request handler is one step between acquiring and releasing, and the recycling that a shutdown may do a second time is left out. The mutex makes each pool call atomic.
- Insertion before or behind an iterator (list_insert_before, list_insert_after), list copies and searches.
- Cache eviction, pinning, the hot list and cache_remove: the byte count is set to zero and never updated, so nothing is ever evicted.
- stringmap_invalidate, which frees buckets without clearing them, and the wrap-around of last_id after 2^64 strings; the file cache's invalidate replaces both levels and is modelled.
- Params.SetUriParams: assertion failures are shown as the status Aborted; that storing a pair leaves errno alone is taken for granted.
- Form.FieldValue: the entity is taken to end in a NUL, as the decoder reads up to two bytes behind a percent sign; an ampersand or the end stops it there. What the caller's buffer held before the call is not modelled.
- cstring_vprintf, cstring_cut and cstring_replace, stripping, case and searching. GrowString.CString.Append stands for both cstring_pcat and cstring_concat.
- HTTP headers, cookies, dates, cache control, page dispatch, configuration files, HTML generation and the web cache's database.
