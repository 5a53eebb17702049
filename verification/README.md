# phase0, verified models

phase0 is a C++ coroutine server framework: fibers scheduled on worker threads, blocking system
calls turned into waits for epoll events and timers, growable byte buffers, and an HTTP/1.1 server
with a push parser. This project models its protocol and state-keeping core in Dafny and proves
what the code promises. `dafny verify dfyconfig.toml` checks everything.

- **HTTP parsing** (`HttpBody`, `HttpFraming`, `HttpPersistence`, `HttpErrors`, `HttpParserExec`,
  `HttpChunked`, `HttpLanguage`, `HttpLength`, `HttpMethod`, `HttpUrl`, `HttpUrlGrammar`). Message bodies
  are a transition for each byte; the parser object, with its marks and jumps, is proved to do the same in any
  buffers. How a body is framed, and whether the connection persists, is compared with the rules of RFC 7230,
  and the chunked decoder accepts exactly the messages of its section 4.1 that have no trailer fields. Number
  scanners, the method matcher and the two-pass URL parser each have an exact description of what they accept,
  the last one as a grammar of positions and byte ranges.
- **Byte arrays** (`Blocks`, `ByteArray`, `Codec`, `Bits`, `Stream`). A chain of blocks with a cached current
  block agrees with a flat byte sequence and a cursor; typed codecs round-trip on it; scatter and
  gather views and partial socket transfers amount to reads and writes.
- **Timers** (`TimerSpec`, `Timers`). The ordered set of timers and the wake-up flag, on values and as
  objects whose deadlines are updated in place.
- **Scheduling** (`Scheduler`, `IoSpec`, `IoReports`, `IoManager`, `Idle`, `Hook`, `HookCalls`,
  `HookTiming`, `HookTimers`, `HookExample`). The task queue for any number of workers; event registrations mirrored in epoll; how long
  the idle fiber waits; and on top of them the protocol by which a blocking call parks its fiber and is woken by
  an event, a timeout or a cancellation, with its timers in a timer manager.
- **URL coding and parameters** (`UrlCoding`, `Params`). Percent-coding with lazy copying, and the
  key=value scanner with its case-insensitive map.

Stateful components come twice where that helps: as functions on values, about which the properties are
proved, and as classes with the source's fields whose methods are proved to do to the objects what the
functions do to the values.

## What the proofs found

- `TimerManager`: a refresh inserts without an announcement, so one that wraps around 64 bits can
  leave a due timer unannounced (`TimerSpec.AwakeIsExact`, `TimerSpec.RefreshCanLose`).
- `do_io`: the timers of all retries of a call share one TimerInfo. A timer that expired before its
  park was resumed can no longer be cancelled and may time out a later retry early: exactly then
  (`HookTiming.LateIsExact`, `HookTiming.EarlyIsExact`), unavoidably if its callback stands ahead of
  the fiber (`HookTiming.DoomedIsMarkedEarly`), and in a run that is given (`HookExample.StaleTimerHappens`).
- `ByteArray::read` of no bytes at the capacity looks at a null block; a written list crashes on
  reading back exactly if it ends with an empty string at a block's end (`ByteArray.ByteArray.RoundTrip`,
  `ByteArray.EmptyStringFillsABlock`).
- The HTTP parser frames some bodies against section 3.3.3 of RFC 7230, which `HttpFraming.FramingIsExact`
  delimits: it reads a body after a 1xx, 204 or 304 response that announces one, it skips the body of a
  request if the callback says so, and it does not see a transfer coding that is not the one word "chunked"
  (`HttpFraming.NotModifiedWaitsForBody`, `HttpFraming.SkippedRequestHasBody`,
  `HttpFraming.GzipChunkedIsReadByLength`, `HttpFraming.GzipIsReadByLength`).
- Whether a connection persists differs from section 6.3 of RFC 7230 on HTTP/1.0 with both "close" and
  "keep-alive", and on later versions that end in .0 (`HttpPersistence.PersistenceIsExact`).
- `http_parser_parse_url` keeps offsets and lengths in 16 bits and does not check them: a longer path is
  accepted with a truncated span (`HttpUrl.Url.ParseUrl`, `HttpUrl.LongPathIsCut`).
- `writeFixSize` and `readFixSize` return a size as an int. Success with 2^31 bytes looks like failure, and
  nothing transferred of 2^63 + 5 bytes looks like success; `Stream.ResultIsTelling` delimits both for all
  lengths (`Stream.ResultIsTruncated`, `Stream.NothingLooksLikeSuccess`).
- `IOManager::idle` cuts the wait for the next timer to an int before it takes the minimum, so that with a
  timer of 2^31 milliseconds it waits without a limit (`Idle.Wait`, `Idle.LongTimerIsOverslept`).
- A task queued behind another one wakes nobody by itself, even if the other is pinned to a busy worker
  (`SchedulerSpec.SignalIsExact`), which a reached state shows (`SchedulerSpec.NobodyIsWoken`).
- The table of unreserved characters contains `=`, which its comment does not list; keys with an
  equals sign are therefore cut (`Params.RoundTripIsExact`, `Params.KeyIsCut`). The model follows the table.
- A header-size limit of 2^32 - 1 is never exceeded, since the 32-bit count wraps first
  (`HttpChunked.LimitIsEnforced`, `HttpLanguage.LongLineIsAccepted`).

## Model

| member | source | states |
|---|---|---|
| HttpFraming.ScanTransferEncoding | src/http/http_parser.cc:1406-1657 | a Transfer-Encoding value on one line sets the chunked flag if and only if it is the word "chunked", in any case, with nothing but spaces after it |
| HttpFraming.FramingIsExact | src/http/http_parser.cc:1757-1869 | for messages that keep the protocol, requests and responses, whether or not a response answers a HEAD request and whatever the callback says about that, the parser's decision after the header section is one that section 3.3.3 of RFC 7230 allows if and only if a condition on the header section holds: without a body, nothing announces one; else there is no transfer coding, or chunked is the last one and stands in a field of its own, or another is last and the flags happen to give the same |
| HttpFraming.DecisionIs | src/http/http_parser.cc:1757-1869 | the parser's decision by the flags and the length alone, through both states and the callback's answer |
| HttpFraming.UpgradeIsExact | src/http/http_parser.cc:1777-1838 | the parser hands over to another protocol exactly for a request with both signs of an upgrade, a 101 response with both, a CONNECT request without both, or at the callback's word, and only if no body comes first that is wanted |
| HttpFraming.NothingAfterClose | src/http/http_parser.cc:1826-1869 | a body read until the connection closes is never followed by another message |
| HttpFraming.NotModifiedWaitsForBody | src/http/http_parser.cc:1850-1859 | a witness: after a 304 response with Content-Length 5 the parser waits for five bytes |
| HttpFraming.SkippedRequestHasBody | src/http/http_parser.cc:1800-1817 | a witness: a request with Content-Length 5 whose body the callback skips is read as having none, where the rules give five bytes |
| HttpFraming.GzipChunkedIsReadByLength | src/http/http_parser.cc:1414-1420 | a witness: with "gzip, chunked" and Content-Length 5 the parser reads five bytes, where the rules allow chunked or an error |
| HttpFraming.GzipIsReadByLength | src/http/http_parser.cc:1414-1420 | a witness: a response with "gzip" and Content-Length 5 is read by its length, where the rules say until the connection closes |
| HttpBody.StepKeepsInv | src/http/http_parser.cc:1757-2076 | no byte, in any state, trips the parser's assertions on nread, F_CHUNKED and content_length; an error sets errno and consumes nothing |
| HttpBody.RunKeepsInv | src/http/http_parser.cc:638-2086 | the same for any number of bytes, and a run never claims more bytes than it was given |
| HttpBody.RunSplit | src/http/http_parser.cc:1826-2076 | split independence: running `a + b` ends in the state, with the observed body bytes and notifications, of running `a` and then `b` |
| HttpBody.PiecesAreTheWhole | src/http/http_parser.cc:638-2086 | cutting a stream into any list of pieces does not change the outcome |
| HttpPersistence.MessageEnds | src/http/http_parser.cc:2111-2127 | whatever its body, empty, skipped, of a given length or in chunks, the last byte of a message leaves the parser waiting for the next request or response if the version and the two tokens keep the connection open and the end was marked, and dead otherwise |
| HttpPersistence.PersistenceIsExact | src/http/http_parser.cc:2111-2127 | these conditions are those of section 6.3 of RFC 7230 if and only if it is not HTTP/1.0 with both tokens, nor a later version ending in .0 with neither or both, nor HTTP/0.x with keep-alive |
| HttpPersistence.UnmarkedEndsByUpgrade | src/http/http_parser.cc:1826-1869 | a response whose end nothing marks never completes, unless it goes over to another protocol at the end of its header section |
| HttpPersistence.FirstByte | src/http/http_parser.cc:708-730 | the first byte after a message: over the limit, skipped, taken as the start of a message, or refused with HPE_CLOSED_CONNECTION |
| HttpPersistence.SecondMessage | src/http/http_parser.cc:708-730 | a second message on the connection is taken up exactly if the first one left it open, and refused with HPE_CLOSED_CONNECTION otherwise |
| HttpErrors.ErrorIsExact | src/http/http_parser.cc:683-2076 | the error that a byte raises, in every state: each error code exactly for the bytes, lengths and flags it stands for, and none otherwise |
| HttpErrors.MessageShows | src/http/http_parser.cc:1826-1914 | a message of a given length shows the application headers_complete, exactly its bytes, and message_complete with the last one and no earlier; one that lasts until the connection closes is never complete |
| HttpParserExec.JumpChunkData | src/http/http_parser.cc:2007-2028 | the jump of `p` over chunk data equals going byte by byte, for every prefix that fits in the chunk |
| HttpParserExec.JumpIdentity | src/http/http_parser.cc:1873-1908 | the jump over an identity body equals going byte by byte, up to the message's end |
| HttpParserExec.JumpToEof | src/http/http_parser.cc:1910-1914 | the jump over a body that lasts to the end of the file equals going byte by byte |
| HttpParserExec.Parser.OnByte | src/http/http_parser.cc:1757-2045 | one pass of the switch outside body data does to the object's fields and callbacks what the byte-wise transition does |
| HttpParserExec.Parser.OnIdentityData | src/http/http_parser.cc:1873-1908 | the identity-body state with its mark and jump advances the run by all bytes it took; at most one mark is pending |
| HttpParserExec.Parser.OnChunkData | src/http/http_parser.cc:2007-2028 | the same for chunk data |
| HttpParserExec.Parser.Execute | src/http/http_parser.cc:638-2086 | http_parser_execute on any non-empty buffer ends in the state of the byte-wise run and delivers its items; on an error exactly the pending body data is not handed over |
| HttpParserExec.Parser.ExecuteEof | src/http/http_parser.cc:655-679 | a call with no bytes completes a body that lasts to the end of the file, is silent between messages and in an error state, and is an error anywhere else |
| HttpParserExec.Parser.Feed | src/http/http_parser.cc:638-2086 | a stream delivered in any non-empty buffers ends as if delivered in one, and unless it failed the callbacks saw the same bytes and notifications |
| HttpChunked.SizeDigitsAreExact | src/http/http_parser.cc:1925-1976 | a chunk size of any number of hexadecimal digits within the header limit is accepted if and only if its value is at most 2^64 - 17, and then content_length is that value |
| HttpChunked.LimitIsEnforced | src/http/http_parser.cc:154-161 | some input exceeds the header-size limit if and only if the limit is not 2^32 - 1, where the 32-bit count wraps first |
| HttpChunked.EncodedMessageParses | src/http/http_parser.cc:1925-2045 | every well-formed chunked message, with extensions and leading zeros, is read to its last byte and delivers exactly its data and notifications |
| HttpChunked.HexNumeralIsShort | src/http/http_parser.cc:1941-1976 | the hexadecimal numeral of a number below 16^k has at most k digits, so a 64-bit size needs at most 16 |
| HttpChunked.ChunkedRoundTrip | src/http/http_parser.cc:1925-2045 | any list of non-empty buffers, sent as chunks and received in any pieces, arrives as exactly their concatenation, with message_complete once |
| HttpLanguage.LanguageIsTheGrammar | src/http/http_parser.cc:1925-2045 | the parser completes a chunked message on the last byte of an input if and only if the input is the encoding of a well-formed message, at every header-size limit |
| HttpLanguage.LongLineIsAccepted | src/http/http_parser.cc:154-161 | a witness: at a limit of 2^32 - 1 a size line of more bytes than that is accepted |
| HttpLanguage.AcceptedIsEncoded | src/http/http_parser.cc:1925-2045 | an input that completes a message is decoded into the chunks it encodes |
| HttpLanguage.NotBeforeTheEnd | src/http/http_parser.cc:1991-2005 | no proper prefix of an encoded message completes it |
| HttpLength.ScanContentLength | src/http/http_parser.cc:1423-1437 | a Content-Length value is accepted if and only if it is a decimal numeral, trailing spaces allowed, of at most 18446744073709551609, and is then held exactly; a second one is rejected |
| HttpLength.TooLarge | src/http/http_parser.cc:1540-1555 | once the test before the multiplication fails, no continuation of the digits is an acceptable numeral |
| HttpMethod.GuessIsPrefix | src/http/http_parser.cc:963-1014 | through every table-driven switch, the letters read so far are the first letters of the guessed method's name |
| HttpMethod.EveryNameIsGuessed | src/http/http_parser.cc:920-1014 | each of the 34 names ends with the guess being that method |
| HttpMethod.Settled | src/http/http_parser.cc:920-1014 | after its last switch, every longer beginning of a name keeps its guess |
| HttpMethod.MethodMatcher.OnByte | src/http/http_parser.cc:920-1014 | one byte keeps the matcher's state equal to what the bytes taken so far say |
| HttpMethod.MethodMatcher.Execute | src/http/http_parser.cc:920-1014 | the states over a whole buffer, stopping only when a method or an error was found |
| HttpMethod.MethodMatcher.StatesAreExact | src/http/http_parser.cc:963-1014 | the URL state is reached if and only if a method name and a space were read (after line breaks); the error state if and only if no name can be completed |
| HttpUrl.UrlCharAdvances | src/http/http_parser.cc:490-636 | every accepted byte keeps the rank of the URL state or raises it, so fields come in order and at most once |
| HttpUrl.HostCharAdvances | src/http/http_parser.cc:2176-2256 | the same for the states of the authority |
| HttpUrl.Url.Classify | src/http/http_parser.cc:2345-2416 | the first pass accepts exactly the strings whose last state is not dead, and stores the low 16 bits of spans that are exactly the bytes labelled with each field, in buffers of any length |
| HttpUrl.Url.ParseHost | src/http/http_parser.cc:2258-2338 | the second pass accepts exactly the authorities that end properly, and splits them into user info, host and port at exactly the labelled bytes, of which it stores the low 16 bits |
| HttpUrl.Url.ConvertPort | src/http/http_parser.cc:2438-2463 | a port of digits is accepted if and only if its decimal value is at most 65535, and then is that value |
| HttpUrl.FirstPassPartitions | src/http/http_parser.cc:2345-2416 | without a host: fields lie in the buffer, are disjoint, and leave out only delimiters |
| HttpUrl.SecondPassPartitions | src/http/http_parser.cc:2258-2338 | the same after the authority has been split |
| HttpUrl.FirstPassIsFramed | src/http/http_parser.cc:490-636 | a schema starts the buffer and is followed by `://`; a query follows `?`, a fragment `#` |
| HttpUrl.SplitUrlIsWellFormed | src/http/http_parser.cc:2345-2466 | both passes together: coverage, delimiters and a port of digits only |
| HttpUrl.FieldsAreLabels | src/http/http_parser.cc:2345-2416 | a field is reported if and only if some byte carries its label, with exactly the labelled bytes as its span |
| HttpUrl.AuthorityIs | src/http/http_parser.cc:2258-2338 | whether an authority is acceptable, read off its labels, agrees with the fields found in it |
| HttpUrl.AcceptableIs | src/http/http_parser.cc:2418-2466 | acceptability of a URL with a host, read off the labels alone, is what the checks after the two passes decide |
| HttpUrl.ReportDecides | src/http/http_parser.cc:2345-2466 | if the authority fits in 16 bits, what is stored after both passes decides acceptability as the labels of the whole buffer do |
| HttpUrl.ReportIsExact | src/http/http_parser.cc:2345-2466 | if all fields fit in 16 bits, what is stored covers exactly the bytes of each field, leaves out delimiters only, and stands where the delimiters are |
| HttpUrl.ReportFits | src/http/include/http_parser.h:360-368 | if what is stored of an acceptable URL is exact, all its fields fit in 16 bits, even where the second pass runs over a truncated authority |
| HttpUrl.LongPathIsCut | src/http/http_parser.cc:2409-2417 | a witness for every length: a path of n bytes is acceptable, and fits if and only if n < 65536 |
| HttpUrl.Url.ParseUrl | src/http/http_parser.cc:2345-2466 | http_parser_parse_url, on a buffer of any length: while the authority fits in 16 bits, it returns 0 if and only if the labels make an acceptable URL, with the port the value of its digits; what it reports of an acceptable URL is exact if and only if all fields fit in 16 bits, and then the fields partition the buffer up to delimiters and the delimiters stand where RFC 3986 has them; a schema has a host, and CONNECT has host and port only |
| HttpUrlGrammar.FirstPassIs | src/http/http_parser.cc:490-636 | the first pass by positions and byte ranges: it accepts exactly the strings whose bytes may stand in their section, and its fields are exactly the schema before the colon, the authority up to a slash or question mark, the path up to a question or number sign, the query up to a number sign and the fragment after a run of them |
| HttpUrlGrammar.SecondPassIs | src/http/http_parser.cc:2176-2338 | the second pass likewise: user information up to the first at sign, a name or an address with a zone in brackets, and digits after a colon |
| HttpUrlGrammar.AcceptableIsUrl | src/http/http_parser.cc:2345-2466 | http_parser_parse_url accepts exactly the strings of that grammar, said without its state machines |
| HttpUrlGrammar.ExactFieldsAre | src/http/http_parser.cc:2345-2416 | reported exactly, the fields of an accepted URL are those of the grammar |
| HttpUrlGrammar.OriginFormIs | src/http/http_parser.cc:507-516 | a string that begins with a slash or an asterisk is accepted if and only if all its bytes are visible ASCII |
| Blocks.PatchBlock | src/utils/bytearray.cc:368-409 | overwriting inside one block is overwriting the flat sequence at the block's start plus the offset |
| Blocks.WriteAtIs | src/utils/bytearray.cc:368-409 | what a write leaves, byte by byte: the new bytes from the cursor on, the old ones elsewhere, the length grown to the end of the write |
| ByteArray.ByteArray.constructor | src/utils/bytearray.cc:27-36 | a new array is one block with the cursor at its start |
| ByteArray.ByteArray.NullExactlyAtCapacity | src/utils/bytearray.cc:27-36 | the current block is null exactly when the cursor is at the capacity |
| ByteArray.ByteArray.Write | src/utils/bytearray.cc:368-409 | writing replaces the bytes after the cursor in the flat sequence, grows as needed, and moves the cursor past them |
| ByteArray.ByteArray.Read | src/utils/bytearray.cc:411-445 | reading returns the flat bytes after the cursor or fails without effect; the null current block is touched if and only if nothing is read at the capacity |
| ByteArray.ByteArray.SetPosition | src/utils/bytearray.cc:484-505 | positioning succeeds up to the capacity, never shortens the visible bytes, and re-establishes the current block |
| ByteArray.ByteArray.Clear | src/utils/bytearray.cc:353-366 | everything but the first block is dropped and nothing stays visible |
| ByteArray.ByteArray.AddCapacity | src/utils/bytearray.cc:555-591 | the fewest whole blocks that make the bytes fit are appended, and the contents stay |
| ByteArray.ByteArray.ToString | src/utils/bytearray.cc:593-603 | the readable bytes, the cursor staying where it is |
| ByteArray.ByteArray.GetReadBuffers | src/utils/bytearray.cc:622-657 | the vectors gathered are the readable bytes after the cursor, at most the length asked for |
| ByteArray.ByteArray.GetWriteBuffers | src/utils/bytearray.cc:702-736 | the vectors cover the bytes after the cursor, the visible bytes staying as they are |
| ByteArray.VectorsHold | src/utils/bytearray.cc:622-657 | gathering the vectors from any block and offset gives the flat bytes there |
| ByteArray.ByteArray.Fill | src/utils/bytearray.cc:702-736 | filling any part of the vectors is overwriting the flat sequence at the cursor, as write would |
| ByteArray.ByteArray.Receive | src/stream/SocketStream.cc:27-41 | what the socket puts into the vectors is in the flat sequence at the cursor |
| ByteArray.ByteArray.WriteVint | src/utils/bytearray.cc:151-177 | the emitted bytes are the variable-length encoding of the value |
| ByteArray.ByteArray.ReadVint | src/utils/bytearray.cc:261-299 | the loop of shifts and bitwise ors reads what the decoder of the flat bytes reads, and fails where it fails |
| ByteArray.ByteArray.WriteValue | src/utils/bytearray.cc:63-217 | each typed writer appends exactly the encoding of its value, on hosts of either byte order |
| ByteArray.ByteArray.ReadValue | src/utils/bytearray.cc:219-351 | each typed reader returns what the decoder says of the bytes after the cursor and uses up as many |
| ByteArray.ByteArray.WriteAll | src/utils/bytearray.cc:63-217 | a list of values is written as the concatenation of their encodings |
| ByteArray.ByteArray.ReadBack | src/utils/bytearray.cc:219-351 | reading the kinds of a written list from its start gives the list if and only if every string is shorter than its prefix can count and the list does not end with an empty string at the end of a block |
| ByteArray.ByteArray.RoundTrip | src/utils/bytearray.cc:63-351 | write all, rewind, read all, for every list of values their types can hold: the same values and nothing left over, under exactly that condition |
| ByteArray.EmptyStringFillsABlock | src/utils/bytearray.cc:411-445 | a witness: one empty string with a 16-bit length in blocks of two bytes |
| Codec.StoredOrder | src/utils/bytearray.cc:67-119 | swapping where the orders differ stores the requested byte order on either kind of host |
| Codec.LoadedOrder | src/utils/bytearray.cc:233-255 | loading undoes storing, with or without the swap |
| Codec.EndianRoundTrip | src/utils/bytearray.cc:67-119 | a fixed-width value of either byte order is read back whatever follows |
| Codec.ZigzagRoundTrip | src/utils/bytearray.cc:121-147 | zigzag with wrap-around arithmetic maps every signed value to its rank and back, the smallest one included |
| Codec.VintFits | src/utils/bytearray.cc:151-177 | a 32-bit value takes at most 5 bytes and a 64-bit value at most 10, so the writers' local arrays suffice |
| Codec.VintRoundTrip | src/utils/bytearray.cc:261-299 | a variable-length value is read back whatever follows |
| Bits.OrIsPlus | src/utils/bytearray.cc:261-299 | or-ing a multiple of 2^j into a number below 2^j is adding it, bit by bit and at any width |
| Codec.OrGroup | src/utils/bytearray.cc:261-299 | in the reading loop the bits or-ed in lie above those there, so that the "or" is the sum and nothing wraps around, for every group of either width |
| Bits.XorAllOnes | src/utils/bytearray.cc:145-147 | exclusive or with all ones is subtraction from all ones, at any width |
| Codec.UnzigzagIs | src/utils/bytearray.cc:145-147 | the shift, the mask and the exclusive or of the zigzag decoder by the parity of the value, for both widths |
| Codec.TwosComplement | src/utils/bytearray.cc:63-119 | storing a signed value in n bytes and reading it back as signed gives it back if and only if it fits in them |
| Codec.DecodeEncode | src/utils/bytearray.cc:63-351 | an encoded value of any kind, followed by anything, decodes to itself and uses up exactly its bytes |
| Codec.Prefix16IsExact | src/utils/bytearray.cc:193-197 | a string with a 16-bit length is read back if and only if it is shorter than 65536 bytes |
| Codec.WritableIs | src/utils/bytearray.cc:63-215 | the values that can be written are the integers of the four widths and two variable lengths, in their ranges, and all strings |
| Codec.FixedBytes | src/utils/bytearray.cc:63-120 | the bytes written for a fixed-width integer are the digits of it in base 256, a negative one from 256^n down, in either order |
| Codec.FixedReads | src/utils/bytearray.cc:219-255 | reading any n bytes gives the value whose encoding they are; fewer use up nothing |
| Codec.VintDigits | src/utils/bytearray.cc:151-177 | the bytes of a variable-length integer are its digits in base 128, all but the last one marked, and as few as there can be |
| Codec.VintWritten | src/utils/bytearray.cc:149-177 | a signed number is written as twice its value, or for a negative one twice its distance from zero less one |
| Codec.VintRead | src/utils/bytearray.cc:261-299 | the reader ends with the first byte below 128, or after five or ten bytes whatever they are |
| Codec.StringBytes | src/utils/bytearray.cc:193-215 | a string is written as its length in two, four or eight bytes or of variable length, cut to that width, and its bytes |
| Codec.StringReads | src/utils/bytearray.cc:317-366 | and read as that length and as many bytes; if there are fewer, the length is used up all the same |
| Stream.SocketStream.Write | src/stream/SocketStream.cc:52-66 | what a partial send transfers is the next readable bytes, and the cursor moves over exactly them |
| Stream.SocketStream.Read | src/stream/SocketStream.cc:27-41 | what a partial receive transfers replaces the bytes after the cursor, and the cursor moves over exactly them |
| Stream.SocketStream.WriteFixSize | src/stream/stream.cc:56-69 | over any sequence of partial transfers the bytes from the cursor on are sent once and in order; the result is the length as an int if all were sent and the last call's if not |
| Stream.SocketStream.ReadFixSize | src/stream/stream.cc:24-37 | what arrived is in the array after the cursor in order, complete or not; the result likewise |
| Stream.ResultIsExact | src/stream/stream.cc:24-69 | for every 64-bit length and every outcome: the result equals the length exactly if all was transferred, if and only if the length is below 2^31 or not all was transferred; the result is positive exactly if all was transferred, if and only if not all was or the low 32 bits of the length are a positive int, and from 2^63 on if and only if they are not |
| Stream.ResultIsTelling | src/stream/stream.cc:24-69 | comparing the result with the length tells success from failure in every outcome if and only if the length is below 2^31 or, being no int64_t, is never transferred; the sign of the result tells them apart if and only if lengths that an int64_t can hold are positive as an int |
| Stream.ResultIsTruncated | src/stream/stream.cc:24-69 | a witness: all of 2^31 bytes transferred comes back as a negative number |
| Stream.NothingLooksLikeSuccess | src/stream/stream.cc:24-69 | a witness: of 2^63 + 5 bytes nothing is transferred and the result is 5 |
| TimerSpec.FindIsExact | src/timer/timer.cc:81-104 | in a sorted set a search finds exactly the members |
| TimerSpec.ChangeOutside | src/timer/timer.cc:32-79 | a deadline changed while its timer is outside the set leaves the set sorted |
| TimerSpec.AddIsExact | src/timer/timer.cc:113-118 | a new timer joins under now + ms, in 64 bits; onTimerInsertedAtFront is called exactly if it comes before every other and nothing was announced since the last look |
| TimerSpec.CancelIsExact | src/timer/timer.cc:18-30 | cancel succeeds exactly on timers with a callback, its find never fails, and only that timer leaves the set |
| TimerSpec.RefreshIsExact | src/timer/timer.cc:32-49 | refresh moves exactly a live timer to now + ms, without an announcement |
| TimerSpec.ResetIsExact | src/timer/timer.cc:51-79 | reset re-times exactly a live timer, from now or from where its period began, with the announcement of a new first timer |
| TimerSpec.NextIsExact | src/timer/timer.cc:138-157 | no timer is due before the returned wait has passed, and the first one is due then |
| TimerSpec.RolloverIsExact | src/timer/timer.cc:226-235 | the clock counts as rolled over if and only if it went back by more than an hour, or at all within its first hour |
| TimerSpec.CountIsExact | src/timer/timer.cc:185-192 | without rollover the timers taken are exactly those due by now, wherever the probe's address lies; on rollover all of them |
| TimerSpec.FireIsExact | src/timer/timer.cc:194-207 | the loop over the expired timers re-arms exactly the recurring ones at now + ms and takes the callback of the others |
| TimerSpec.ExpiryIsExact | src/timer/timer.cc:159-208 | listExpiredCb returns the callbacks of the timers due in deadline order, keeps exactly the later timers and the re-armed ones, and changes nothing else |
| TimerSpec.ExecKeepsInv | src/timer/timer.cc:18-208 | after every operation the set is strictly sorted by deadline and address, and a timer born with a callback is in it if and only if it still has one |
| TimerSpec.OperationIs | src/timer/timer.cc:18-128 | each operation in plain numbers: the deadline modulo 2^64 that the timer gets, or that it leaves the set; every other timer stays as it is |
| TimerSpec.LookIs | src/timer/timer.cc:159-208 | of the timers taken, a recurring one stays in the set and is due its period from now, any other has lost its callback and its place |
| TimerSpec.AwakeIsExact | src/timer/timer.cc:18-224 | since getNextTimer, an operation leaves an earlier first deadline unannounced if and only if it is a refresh whose new deadline lies before the one waited for while nothing was announced |
| TimerSpec.RefreshCanLose | src/timer/timer.cc:32-49 | the concrete case: a timer of 2^64 - 1 ms refreshed at time 5 is due at time 4 by wrap-around, and nobody is told |
| TimerSpec.StepKeepsCalm | src/timer/timer.cc:18-224 | with a clock that does not go back, but for the readings made before the lock is taken, and no wrap-around, every deadline in the set is its period after some past moment |
| TimerSpec.NoLostWakeup | src/timer/timer.cc:138-224 | after any history, from getNextTimer until the next listExpiredCb: if the first deadline is earlier than the one the answer was based on then m_tickled is set, and the announcement is made at most once, exactly when it is set |
| Timers.TimerManager.LowerBound | src/timer/timer.cc:186-186 | std::set::lower_bound over the objects is that of the values |
| Timers.TimerManager.Cancel | src/timer/timer.cc:18-30 | Timer::cancel on the objects does to their values what the model's cancel does; nothing past the end is erased |
| Timers.TimerManager.Refresh | src/timer/timer.cc:32-49 | Timer::refresh likewise; the deadline is assigned while the timer is outside the set |
| Timers.TimerManager.Reset | src/timer/timer.cc:51-79 | Timer::reset likewise |
| Timers.TimerManager.AddToSet | src/timer/timer.cc:210-224 | the private addTimer likewise |
| Timers.TimerManager.AddTimer | src/timer/timer.cc:113-118 | TimerManager::addTimer likewise, with a new object |
| Timers.TimerManager.GetNextTimer | src/timer/timer.cc:138-157 | getNextTimer likewise |
| Timers.TimerManager.DetectClockRollover | src/timer/timer.cc:226-235 | the wrapped comparison, and the new time of the last look |
| Timers.TimerManager.FireAll | src/timer/timer.cc:194-207 | the loop over the expired objects collects their callbacks and does to them what the model's loop does |
| Timers.TimerManager.ListExpired | src/timer/timer.cc:159-208 | listExpiredCb on the objects does what the model does, whatever the probe's address |
| SchedulerSpec.ScheduleKeepsInv | src/fiber/include/scheduler.h:88-98 | queueing keeps every accepted task in exactly one place, in order of acceptance |
| SchedulerSpec.ScheduledIs | src/fiber/include/scheduler.h:89-98 | what is scheduled goes to the end of the queue for the worker it names, and an empty callable is dropped |
| SchedulerSpec.TakenIs | src/fiber/scheduler.cc:98-122 | a worker takes the first task that is for any worker or for it, and leaves the others in their order |
| SchedulerSpec.TicklesAre | src/fiber/scheduler.cc:98-127 | how often each step signals: once on scheduling to an empty queue, once when a worker leaves something in the queue, once for each worker on stopping, and not otherwise |
| SchedulerSpec.EndsAre | src/fiber/scheduler.cc:129-175 | a task that ends is counted as ended and its worker is free; stop sets the flag; nothing else changes |
| SchedulerSpec.TakeQueue | src/fiber/scheduler.cc:98-122 | a worker takes a task it may run and leaves the others in order |
| SchedulerSpec.TakeKeepsInv | src/fiber/scheduler.cc:98-122 | selection keeps conservation, the active count, pinning and order of service |
| SchedulerSpec.FinishKeepsInv | src/fiber/scheduler.cc:129-160 | the end of a task keeps them too |
| SchedulerSpec.ExecKeepsInv | src/fiber/scheduler.cc:93-161 | every step of any number of workers keeps: each accepted task is in exactly one of queue, one worker, or finished; the active count is the number of running tasks; a pinned task is taken by its thread only |
| SchedulerSpec.ExecExtends | src/fiber/scheduler.cc:93-161 | tasks keep their numbers, takers and ends for ever, and stopping is never taken back |
| SchedulerSpec.NeverOvertaken | src/fiber/scheduler.cc:100-119 | once a worker has taken a task, every earlier task it may run has been taken |
| SchedulerSpec.SignalIsExact | src/fiber/include/scheduler.h:25-38 | for as long as a task waits, the workers have been signalled since it was queued if and only if the queue was empty then, or a worker has looked, or stop was called; so a task queued behind another wakes nobody by itself |
| SchedulerSpec.NobodyIsWoken | src/fiber/include/scheduler.h:25-38 | a reached state: with worker 1 busy and a task pinned to it queued, a task for any worker is queued and signals nobody |
| SchedulerSpec.SignalledWhileQueued | src/fiber/scheduler.cc:98-127 | over any run during which a task stays queued, signals are given exactly by a worker that looks and by stop |
| SchedulerSpec.StoppingIsExact | src/fiber/scheduler.cc:211-215 | stopping() holds if and only if stop was called and every accepted task has ended |
| SchedulerSpec.StoppingIsForever | src/fiber/scheduler.cc:211-226 | once stopping() holds and nobody outside schedules, no step changes anything but signals |
| Schedulers.Scheduler.ScheduleNoLock | src/fiber/include/scheduler.h:88-98 | an empty callable is dropped, any other goes to the end; the waiting workers are woken exactly if the queue was empty |
| Schedulers.Scheduler.Schedule | src/fiber/include/scheduler.h:25-38 | schedule is the model's step |
| Schedulers.Scheduler.TakeTask | src/fiber/scheduler.cc:95-127 | the selection loop takes the first eligible task, and signals exactly if it leaves something in the queue |
| Schedulers.Scheduler.Finish | src/fiber/scheduler.cc:129-160 | the accounting after a task is the model's step |
| Schedulers.Scheduler.IsStopping | src/fiber/scheduler.cc:211-215 | the three tests mean that all accepted tasks have ended |
| Schedulers.Scheduler.Stop | src/fiber/scheduler.cc:165-209 | stop sets the flag and wakes every worker once, unless nothing is left to do |
| IoSpec.AddIsExact | src/fiber/iomannager.cc:158-213 | addEvent fails its assertion if and only if the event is armed already; else it registers exactly one waiter, or only grows the table if epoll_ctl fails |
| IoSpec.AddKeepsWaiters | src/fiber/iomannager.cc:158-213 | arming an event, growing the table included, leaves every other waiter where it is |
| IoSpec.GrowKeepsInv | src/fiber/iomannager.cc:144-156 | growing the table to one and a half times the descriptor keeps the invariant |
| IoSpec.DelIsExact | src/fiber/iomannager.cc:215-252 | delEvent takes effect if and only if the event is armed and epoll_ctl works, and then forgets exactly its waiter |
| IoSpec.FireIsExact | src/fiber/iomannager.cc:84-101 | triggerEvent queues the waiter of the event as the last task and touches no other |
| IoSpec.CancelIsExact | src/fiber/iomannager.cc:254-289 | cancelEvent takes effect if and only if the event is armed and epoll_ctl works, and then schedules exactly its waiter |
| IoSpec.CancelAllIsExact | src/fiber/iomannager.cc:291-334 | cancelAll schedules exactly the waiters of the descriptor, and its assertions hold |
| IoSpec.TriggerAllIsExact | src/fiber/iomannager.cc:457-466 | triggering several events of a descriptor fails an assertion if and only if one is not armed; else exactly their waiters are scheduled |
| IoSpec.DeliverIsExact | src/fiber/iomannager.cc:421-466 | one report fails the assertion in triggerEvent if and only if it names an event that is not armed along with one that is; else exactly the waiters of reported events are scheduled |
| IoSpec.ReportsAreHandled | src/fiber/iomannager.cc:410-467 | reports on distinct descriptors, for armed events, never fail an assertion, the earlier ones not spoiling the later |
| IoSpec.HonestIsArmed | src/fiber/iomannager.cc:424-437 | a kernel that reports only watched events, errors and hang-ups reports only armed ones |
| IoReports.ReportsWakeExactly | src/fiber/iomannager.cc:418-462 | a pass of the event loop over honest reports schedules, of those who wait, exactly those whose event is reported on their descriptor, or an error or a hang-up is, and epoll_ctl works; the others go on waiting |
| IoSpec.ExecKeepsInv | src/fiber/iomannager.cc:158-467 | after every step: pending count = armed bits, a bit is armed if and only if its context holds a scheduler and exactly one of fiber and callback, epoll's masks equal the armed bits; no assertion fails |
| IoSpec.EveryRegistrationIsSettled | src/fiber/iomannager.cc:158-334 | over every run: registrations made = waiting + deleted + scheduled, each in exactly one of these, a scheduled one queued exactly once |
| IoSpec.StoppingIsExact | src/fiber/iomannager.cc:351-351 | stopping() holds if and only if stop was called, every registration was deleted or scheduled, and every task has ended |
| Idle.ForeverIsExact | src/fiber/iomannager.cc:353-357 | getNextTimer answers ~0 if and only if no timer is set or the first one is 2^64 - 1 away |
| Idle.StopsIsExact | src/fiber/iomannager.cc:353-357 | the idle fiber ends if and only if stop was called, every registration was deleted or scheduled, every task has ended, and getNextTimer answers ~0 |
| Idle.Wait | src/fiber/iomannager.cc:376-397 | however often epoll_wait is interrupted, every wait the idle fiber asks for lies between 0 and getNextTimer's answer if and only if that answer is ~0 or, taken modulo 2^32, below 2^31 |
| Idle.NobodyIsOverslept | src/fiber/iomannager.cc:376-397 | when it is, no wait outlasts the first deadline |
| Idle.LongTimerIsOverslept | src/fiber/iomannager.cc:380-388 | a witness: with one timer of 2^31 milliseconds the idle fiber asks epoll_wait to wait without a limit |
| IoManagers.FdContext.TriggerEvent | src/fiber/iomannager.cc:84-101 | triggerEvent on the object clears the bit and the context and queues the waiter |
| IoManagers.IOManager.ContextResize | src/fiber/iomannager.cc:144-156 | new entries are fresh unused contexts, the old ones stay |
| IoManagers.IOManager.AddEvent | src/fiber/iomannager.cc:158-213 | addEvent on the objects does what the model does; it aborts exactly if the event is armed already |
| IoManagers.IOManager.DelEvent | src/fiber/iomannager.cc:215-252 | delEvent likewise |
| IoManagers.IOManager.CancelEvent | src/fiber/iomannager.cc:254-289 | cancelEvent likewise; the assertion in triggerEvent holds |
| IoManagers.IOManager.CancelAll | src/fiber/iomannager.cc:291-334 | cancelAll likewise |
| IoManagers.IOManager.Deliver | src/fiber/iomannager.cc:421-466 | the body of the event loop likewise, aborting exactly where the model does |
| IoManagers.IOManager.DeliverEach | src/fiber/iomannager.cc:410-467 | the event loop over all reports of one epoll_wait likewise, no assertion failing |
| HookSpec.FireKeepsAgree | src/fiber/iomannager.cc:84-101 | an event that fires queues the fiber parked on it, which was not queued before |
| HookSpec.TakenIsReady | src/fiber/scheduler.cc:109-118 | a fiber taken from the queue was new or parked on a registration that was scheduled: the assertion that it is ready holds, and it is not in the queue a second time |
| HookSpec.TakeKeepsInv | src/hook/hook.cc:151-161 | resuming after the yield keeps the protocol's invariant |
| HookSpec.BlockKeepsInv | src/hook/hook.cc:117-151 | parking, with its timer and with addEvent failing or not, keeps the invariant |
| HookSpec.RunTimerKeepsInv | src/hook/hook.cc:125-136 | the timer's callback keeps the invariant |
| HookSpec.ExecKeepsInv | src/hook/hook.cc:111-163 | every step of every fiber, timer, event, cancelEvent, cancelAll and delEvent keeps the invariant |
| HookSpec.ParkedOnce | src/hook/hook.cc:139-151 | a parked fiber is in exactly one place: waiting, in the queue once, or forgotten by delEvent |
| HookSpec.TimeoutIsPending | src/hook/hook.cc:123-137 | a timed call that waits has a timer that has yet to run, unless its callback ran and epoll_ctl failed it |
| HookSpec.TimerWakes | src/hook/hook.cc:127-135 | when the callback runs while the call is in progress, the call is marked and its fiber waits no longer |
| HookSpec.OnlyTimersCancel | src/hook/hook.cc:125-136 | nothing but the callback of an expired timer of the call marks it |
| HookSpec.StaleTimerCancels | src/hook/hook.cc:109-161 | an expired timer of an earlier retry cancels the present park although its own timer is still in the set |
| HookCalls.BeginIs | src/hook/hook.cc:108-111 | a call begins with its descriptor, event and timeout, unmarked and without a timer |
| HookCalls.BlockIs | src/hook/hook.cc:117-151 | parking: a timed call gets a timer due its timeout from now, and the fiber waits on a new registration; if addEvent fails the timer is cancelled, a transfer has failed and a connect goes on to its result |
| HookCalls.TakeIs | src/hook/hook.cc:151-161 | the first task of the queue is taken; a resumed call cancels its timer, has timed out if marked, and else a connect returns and a transfer tries again |
| HookCalls.RunTimerIs | src/hook/hook.cc:125-136 | the callback marks its call if that is in progress and unmarked, and then wakes whoever waits for its event if epoll_ctl works, and nobody else |
| HookCalls.ManagerIs | src/fiber/iomannager.cc:228-333 | cancelling one event, closing a descriptor, deleting an event and a pass of the event loop: exactly who is scheduled, of the fibers that wait, who is deleted, and who waits on |
| HookCalls.ConnectParksOnce | src/hook/hook.cc:279-337 | over every run a connect parks at most once |
| HookCalls.ConnectWaitsToWrite | src/hook/hook.cc:279-337 | over every run a connect waits until its socket can be written |
| HookCalls.FailedIsExact | src/hook/hook.cc:140-149 | over every run a call has failed if and only if it is a transfer for which addEvent has failed |
| HookTiming.LateIsExact | src/hook/hook.cc:151-161 | after every step a timer is late, its callback on the way although its park is over, if and only if it was late and did not run, or this step resumed its park after it had expired, so that timer->cancel() came too late |
| HookTiming.LateAfterResume | src/hook/hook.cc:151-161 | after a resume the late timers of the call are exactly its timers that had expired by then, the park's own and those of earlier parks |
| HookTiming.MarkedIsExact | src/hook/hook.cc:125-136 | over every run a call is marked if and only if the callback of a timer of it ran while it was in progress |
| HookTiming.TimedOutIsExact | src/hook/hook.cc:152-161 | over every run a call has reported a timeout if and only if it is over and the callback of a timer of it ran while it was in progress |
| HookTiming.EarlyIsExact | src/hook/hook.cc:109-161 | over every run a call is marked by another timer than that of its present park if and only if the run has the callback of a late timer mark it: one late to begin with, or one whose cancelling came too late on the way |
| HookTiming.UnmarkedInPark | src/hook/hook.cc:123-151 | while a fiber is parked and no timer of its call is late, every run that does not run the timer of the park leaves the call unmarked |
| HookTiming.NotBeforeDue | src/hook/hook.cc:123-151 | and no run marks it before that timer is due |
| HookTiming.TimeoutTakesItsTime | src/hook/hook.cc:123-151 | a call that parks with no late timer is not marked as timed out, while parked, before its timeout has passed since |
| HookTiming.DoomedIsMarkedEarly | src/hook/hook.cc:109-161 | if the callback of a timer of an earlier park runs or stands ahead of the parked fiber and of the present park's timer, then whatever happens the call has been marked early by the time the fiber leaves the park |
| HookTimers.ExpireIsListed | src/timer/timer.cc:159-208 | while the timers of the calls are those of a TimerManager, a timer may expire if and only if listExpiredCb, called now with any probe, takes it, and it hands over just the callbacks of these timers in deadline order |
| HookTimers.LookTies | src/timer/timer.cc:159-208 | a call of listExpiredCb is the expiry of all timers that may expire, one after the other, and leaves both with the same timers |
| HookTimers.StepTies | src/hook/hook.cc:123-153 | every other step leaves the timers that addTimer and cancel leave, called by do_io as the step does: when it parks, when addEvent fails, and after the yield |
| HookTimers.EveryRunIsTied | src/hook/hook.cc:109-161 | over every run of calls, looks at the set and questions how long to wait, the calls make the steps of a run, the manager's operations are steady, and both have the same timers throughout |
| HookExample.DoomedHappens | src/hook/hook.cc:109-161 | such a state is reached, five milliseconds into a run |
| HookExample.StaleTimerHappens | src/hook/hook.cc:109-161 | the concrete run: a call parked at time 5 for five milliseconds is marked as timed out at time 5 |
| UrlCoding.RoundTrip | src/utils/utils.cc:157-240 | decoding an encoded string gives it back if and only if it is not the case that spaces became plus signs, plus signs stay, and the string has a space |
| UrlCoding.DecodeEncodeIs | src/utils/utils.cc:157-240 | what comes back for every combination of the two space_as_plus arguments |
| UrlCoding.EncodedAlphabet | src/utils/utils.cc:132-182 | an encoded string has no reserved character but percent and plus signs, and an equals sign only if the string had one |
| UrlCoding.EncodedBytes | src/utils/utils.cc:132-198 | every byte of a string is encoded on its own: letters, digits, and - . _ ~ = as themselves, a space as a plus sign if that is asked for, any other as a percent sign and two upper-case digits |
| UrlCoding.DecodedBytes | src/utils/utils.cc:200-260 | decoding by its first character: a plus sign, a complete escape in digits of either case, or anything else |
| UrlCoding.PlainDecodes | src/utils/utils.cc:216-228 | a string without complete escapes decodes to itself, malformed percent signs included |
| UrlCoding.UrlEncode | src/utils/utils.cc:157-198 | the lazily copying loop equals the character-wise encoding, and is inverted by decoding under exactly that condition |
| UrlCoding.UrlDecode | src/utils/utils.cc:200-240 | the lazily copying loop equals the character-wise decoding, incomplete escapes kept |
| Params.SameKey | src/http/http.cc:63-66 | two keys are equivalent in the map if and only if they are equal in lower case up to the first NUL |
| Params.OrderIsStrict | src/http/http.cc:63-66 | the comparison is antisymmetric |
| Params.OrderIsTransitive | src/http/http.cc:63-66 | and transitive, so it orders a map |
| Params.InsertAllIs | src/http/http.cc:211-240 | inserting fields keeps what the map has, then the first field of each key |
| Params.JoinedFieldsAre | src/http/http.cc:211-240 | parsing any list joined from encoded keys and values gives its fields, each key cut at its first equals sign |
| Params.RoundTripIsExact | src/http/http.cc:211-240 | parsing gives the list back if and only if no key has an equals sign |
| Params.KeyIsCut | src/http/http.cc:211-240 | a witness: the key "a=b" with the value "c" comes back as "a" with "b=c" |
| Params.EveryKeyFindsItsValue | src/http/http.cc:90-96 | each key, compared ignoring case, finds the value of its first field, and any other key the default |
| Params.QueryComesFirst | src/http/http.cc:204-260 | with a form body, parameters of the query win over those of the body |
| Params.FormIs | src/http/http.cc:246-260 | the body is taken for a form if and only if application/x-www-form-urlencoded occurs, in any case, in the content-type field |
| Params.HttpRequest.ParseParam | src/http/http.cc:211-240 | the scanner inserts exactly the fields of the text, its position strictly increasing |
| Params.HttpRequest.InitQueryParam | src/http/http.cc:204-244 | the query is parsed once |
| Params.HttpRequest.InitBodyParam | src/http/http.cc:246-260 | the body is parsed once, and only for a form content type |
| Params.HttpRequest.GetParam | src/http/http.cc:90-96 | getParam parses what has not been parsed and looks the key up |

## Left out

- HTTP header fields and values beyond the Content-Length digits, trailer fields, the status line and the version: the parser model stops with the outcome Beyond at a byte that starts one.
- Callbacks that return an error or pause the parser: callbacks return 0, except that on_headers_complete may ask to skip the body or announce an upgrade.
- HttpFraming.FramingIsExact: for messages that do not go over to another protocol, as the answer to a CONNECT request does; a Transfer-Encoding value is one line without obsolete folding, and the header section has been read up to its last line.
- HttpParserExec.Parser.Execute: body data pending when a run fails is not handed over, as in the source, so split independence of what is delivered is stated for runs without an error.
- HttpUrl.Url.ParseUrl: when the authority of an unacceptable URL does not fit in 16 bits, whether it is rejected all the same; HttpUrl.Url.ParseHost says what the second pass decides on the stretch it then runs over.
- HttpUrl.Url.ConvertPort: the result for a stretch that is not of digits, which only such an authority can lead to.
- The sizes of `size_t` and of host memory: positions and lengths of a ByteArray are unbounded.
- Float and double codecs, hexadecimal dumps and files of ByteArray.
- The positional forms of read and getReadBuffers: away from the cursor they start at the current block, not at the block of the position.
- The cost of std::set and std::map: a set is a sorted sequence, the parameter map is keyed by folded keys.
- TimerSpec.NoLostWakeup: every operation is one step; the clock times of a new timer and of the look at the set, which the source reads before it takes the lock, may lie before those of operations that overtook them.
- Condition timers and weak pointers, except for the life of a TimerInfo in Hook, which ends with its call.
- Context switches, stacks and exceptions of fibers: running a task is a step that ends when the fiber yields or ends.
- Threads being started and joined, the idle fiber beyond its wait and its end, and the pipe that wakes epoll_wait: tickle is a count.
- IoSpec.ExecKeepsInv: one worker in the event loop and look-up and growth of the table as one step; with several workers the source does not establish these invariants.
- addEvent from outside a scheduler thread, and descriptors that are negative or closed behind the manager's back.
- HookSpec.ExecKeepsInv: do_io and connect_with_timeout are modelled on values, as steps between two yields, and not as a loop of statements, because between two yields other fibers run; one worker; two fibers do not wait for the same event of a descriptor at once, which would fail the assertion in addEvent.
- HookTiming.TimeoutTakesItsTime: on a clock that neither wraps nor goes back, on which HookTimers ties the timers to those of the manager; TimerSpec.CountIsExact and TimerSpec.RolloverIsExact say what listExpiredCb does on another.
- sleep, usleep, nanosleep and the plain wrappers, FdManager, and the results of the system calls beyond "would block".
- Cookies, which use the same scanner with another separator and trimming, and typed parameter access.
- Sockets, addresses, servlets, sessions, configuration and logging.
