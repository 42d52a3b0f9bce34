# shock_prototype request parser, in Dafny

This project models the request side of `HTTP_Client` from shock_prototype,
a non-blocking, fixed-memory HTTP/1.x request parser for an Arduino with a
CC3000 radio. Bytes from the socket land in a ring buffer. Each call to
`read` takes at most one token off the buffer (a method, a path, a version,
a header name or value, or a run of body bytes) and reports a status, the
bytes, and the request state the bytes belong to. Header fields are
classified against small closed vocabularies by a prefix matcher, and
Content-Length values go through an overflow-checked decimal accumulator.

The files follow the structure of the source, leaf first:

- `bytes.dfy` (`Bytes`): byte and 64-bit types, the byte constants the
  parser uses, `Option`.
- `ring_buffer.dfy` (`RingBuffer`): `RingBuffer<S>` as an array plus two
  cursors, with the source's cursor encoding. The class updates itself in
  place; here the buffer is an immutable value (the array and both
  cursors), and each operation returns the updated buffer, so that the
  HTTP client's step function can compose them. `Contents` is the
  abstraction: the bytes held, oldest first. Every operation is stated
  against it.
- `int_parser.dfy` (`IntParsing`): the checked 64-bit add and multiply, and
  the `IntParser` accumulator with its sticky `invalid` and `overflowed`
  flags. All 64-bit arithmetic is written modulo 2^64.
- `string_comparator.dfy` (`StringComparator`): the immutable vocabulary
  and the matching session. The session is a sequence of liveness flags
  plus a count. A null or moved-from session is `Null`.
- `http_client.dfy` (`HttpClient`): the client context as a record, and
  `connect`, `disconnect`, `state`, `getTransition`, `read`, `readBody`,
  `readTerminated`, `processState` and `checkState` as pure functions that
  return the updated client.
- `http_client_properties.dfy` (`HttpClientProperties`): properties across
  several calls, namely:
  - how tokens are scanned and classified;
  - the BEFORE_HEADER look-ahead;
  - the invariant every call keeps;
  - two behaviours of the code as written that stall or lose data.

The parser accepts a subset of the request line and header fields of
RFC 7230 (section 3.1.1 and section 3.2). It also handles a subset of the
Transfer-Encoding and Content-Length framing of sections 3.3.1 and 3.3.2:
chunked bodies are recognised and refused. It accepts the lone-LF line
ending that section 3.5 allows. The differences from the full grammar are
listed under "Left out".

Behaviours of the code that a reader might not expect, which the model
keeps as written:

- `hasMatch` looks only at the first alive candidate. It succeeds only if
  that candidate's length equals the count. It does not search for the
  first alive candidate of the right length. Feeding a candidate exactly
  therefore reports it only when no earlier candidate has it as a prefix
  (`ShorterCandidateHidden`, `ExactCandidateMatches`). The three
  vocabularies the parser uses are prefix-free, so for them the two
  readings agree (`VocabulariesPrefixFree`, `MatchIffCandidate`).
- `connect` does not reset everything:
  - it leaves the recognised version as it was;
  - when the client is already in METHOD, `state(METHOD)` is a no-op, so
    the integer parser and the session survive.
- The integer parser is reset only when the state actually changes, not
  on every entry to a state.
- Chunk-boundary independence does not hold. In VERSION or HEADER_VALUE,
  any CR/LF line ending split across polls, where the read that takes
  the CR drains the buffer, stalls the parser for good. Emptying resets
  the cursors to (0, 0), so the CR is put back into the last cell of the
  array. The next arrival then lands before it, and every later read
  copies the lone CR and puts it back (`SplitLineEndingSticks`,
  `VersionLineSplitAfterCarriageReturn`, `StuckForever`).
- `readBody` with nothing left to read, on a full buffer with equal
  non-zero cursors, empties the buffer through the zero-length advance
  (`EmptyBodyDiscardsBufferedBytes`). No client the parser can produce
  gets there: the read that enters BODY with length 0 finishes the request
  at once (`BodyAlwaysPending`, `EmptyBodyKeepsPipelinedBytes`).
- A `read()` then `putBack()` of the same byte restores the contents only
  when the array holds at least two bytes. With S = 1 the buffer is left
  empty, which `PutBackLoses` captures.
- On a full buffer, `putBack` writes the put-back byte over the newest
  one, and the buffer then holds that one byte. `PutBack` states exactly
  that.

## Model

| member | source | states |
|---|---|---|
| RingBuffer.Capacity | src/RingBuffer.h:56 | the capacity is the array size S and bounds the number of bytes held |
| RingBuffer.Available | src/RingBuffer.h:57-67 | `available()` is the number of bytes held, at most S; it is 0 exactly for the empty cursor encoding and S exactly for the full encodings |
| RingBuffer.Fullness | src/RingBuffer.h:25-26 | the cursor encodings of "empty" and "full" mean no bytes held and S bytes held, in both directions |
| RingBuffer.Together | src/RingBuffer.h:45-53 | `availableTogether()` is min(bytes held, S - start): the front bytes that sit contiguously before the physical end of the array; it is 0 only when empty and is everything when the data does not wrap |
| RingBuffer.AdvanceStart | src/RingBuffer.h:28-37 | dropping n front bytes leaves the rest of the contents; emptying resets the cursors to (0, 0); a zero advance on a full buffer with equal non-zero cursors empties it |
| RingBuffer.AdvanceStartContents | src/RingBuffer.h:28-37 | each cursor branch of `advanceStart` removes exactly the first n bytes, including the wrap of the start cursor at S |
| RingBuffer.AdvanceToSeam | src/RingBuffer.h:34-35 | advancing wrapped data exactly to the end of the array wraps the start cursor to 0 and leaves the bytes wrapped to the front |
| RingBuffer.AdvanceWithinWrap | src/RingBuffer.h:29 | advancing wrapped data within its tail segment leaves the rest of the segment followed by the wrapped bytes |
| RingBuffer.ReadByte | src/RingBuffer.h:114-122 | `read()` returns the oldest byte and removes it (FIFO across the wrap), or returns -1 and changes nothing when empty |
| RingBuffer.Peek | src/RingBuffer.h:160-166 | `peek()` returns the byte `read()` would return, or -1 when empty |
| RingBuffer.ReadBlock | src/RingBuffer.h:124-134 | `read(dest, n)` copies and removes exactly the first min(n, contiguous available) bytes |
| RingBuffer.MemCcpyCount | src/RingBuffer.h:144-153 | the count `memccpy` copies ends just after the first occurrence of the stop byte, or is the whole span when it does not occur |
| RingBuffer.ReadUntil | src/RingBuffer.h:136-158 | `readUntil` copies and removes k <= min(n, contiguous available) front bytes; k ends just after the first stop byte within the bound, and otherwise k is the bound |
| RingBuffer.SpanIsFront | src/RingBuffer.h:144-145 | the contiguous span copied from the start cursor is the front of the contents |
| RingBuffer.PutBack | src/RingBuffer.h:168-174 | `putBack(c)` prepends c; it loses everything when the new cursors read (0, 0), and on a full buffer it leaves only c |
| RingBuffer.PutBackContents | src/RingBuffer.h:168-174 | the cursor arithmetic of `putBack` yields exactly those contents in each case |
| RingBuffer.PutBackThenRead | src/RingBuffer.h:168-174 | after a `putBack(c)` that loses nothing, `peek` and `read` return c, the count grew by one, and what remains is the old contents |
| RingBuffer.ReadThenPutBack | src/RingBuffer.h:114-122 | on an array of at least two bytes, putting back the byte `read()` just returned restores the contents |
| RingBuffer.PutBackLosesContents | src/RingBuffer.h:168-174 | with cursors (1, 0) over [7, 8, 9] the buffer holds [8, 9] and is not full, yet putting back 5 leaves it empty |
| RingBuffer.ZeroReadEmptiesFullBuffer | src/RingBuffer.h:28-33 | a zero-length `read(dest, 0)` on the full buffer with cursors (1, 1) copies nothing and discards all three bytes |
| RingBuffer.WriteWindow | src/RingBuffer.h:71-87 | writing starts at the end cursor, or at 0 when it sits at S, and the window is min(free space, S - that position) slots: none exactly when the buffer is full, all S when it is empty |
| RingBuffer.ReadFrom | src/RingBuffer.h:70-112 | `readFrom` appends min(offered, contiguous free slots) bytes at the tail and returns that count; it returns 0 on a full buffer, takes at least one byte when there is room, and never moves the start cursor |
| RingBuffer.ReadFromContents | src/RingBuffer.h:94-110 | writing the offered bytes into the window and advancing the end cursor (wrapping past S) appends exactly those bytes |
| RingBuffer.ReadFromIntoEmpty | src/RingBuffer.h:73-75 | filling an empty buffer from index 0 makes its contents the bytes written |
| RingBuffer.ReadFromWrapping | src/RingBuffer.h:79-82 | with the end cursor at S, writing from index 0 appends the bytes after the old contents |
| RingBuffer.ReadFromAfterEnd | src/RingBuffer.h:83-84 | writing after an unwrapped end cursor appends the bytes |
| RingBuffer.ReadFromIntoGap | src/RingBuffer.h:85-86 | writing into the gap of wrapped data appends the bytes |
| RingBuffer.Clear | src/RingBuffer.h:176-179 | `clear()` yields the empty buffer over the same array |
| IntParsing.AddWithOverflowCheck | src/IntParser.cpp:3-10 | the wrapped-sum comparison succeeds iff a + b < 2^64, and the stored sum is a + b, or a + b - 2^64 when it wraps |
| IntParsing.MultWithOverflowCheck | src/IntParser.cpp:15-41 | the split multiply succeeds iff a * b < 2^64, and then stores a * b |
| IntParsing.SplitCheckExact | src/IntParser.cpp:29-40 | the top partial product exceeds 32 bits only when the full product overflows; otherwise the shift does not wrap and the shifted top plus the bottom product is the full product |
| IntParsing.SplitProduct | src/IntParser.cpp:29-32 | both 32-bit halves fit, neither partial product wraps, and the product is the shifted top product plus the bottom product |
| IntParsing.LargeFactors | src/IntParser.cpp:18-27 | when the smaller operand exceeds 32 bits, the product overflows, so the early failure is exact |
| IntParsing.Fresh | src/IntParser.h:10-12 | a constructed parser has both flags clear and value 0 |
| IntParsing.Reset | src/IntParser.cpp:43-48 | `reset()` clears both flags and the value, whatever the parser held |
| IntParsing.Next | src/IntParser.cpp:50-72 | `next` does nothing once a flag is set; a non-digit sets `invalid` and keeps the value; a digit gives value*10 + d, or sets `overflowed` exactly when that reaches 2^64 |
| IntParsing.Value | src/IntParser.h:17 | `value` always hands out the raw value and succeeds iff neither flag is set |
| IntParsing.Feed | src/IntParser.cpp:52-54 | feeding bytes changes nothing once a flag is set, and `invalid` never becomes unset |
| IntParsing.FeedAppend | src/HTTP_Server.cpp:336-338 | feeding a value in two pieces is feeding it whole |
| IntParsing.FeedDigits | src/IntParser.cpp:61-71 | over a run of digits the parser never sets `invalid`; it sets `overflowed` iff the decimal value reaches 2^64, and below that it holds exactly that value |
| IntParsing.FeedNonDigit | src/IntParser.cpp:56-59 | a non-digit after digits sets `invalid` iff the digits fit in 64 bits (otherwise `overflowed` stays the only flag), and later bytes change nothing |
| IntParsing.ValueAfterFeed | src/IntParser.cpp:50-71 | `value` after a run of bytes succeeds iff the run is all digits with decimal value below 2^64, and then returns that value |
| IntParsing.MaxValueParses | src/IntParser.cpp:61-71 | the digits of 2^64 - 1 parse to exactly that value with no flag |
| IntParsing.NonDigitIndex | src/IntParser.cpp:56-59 | the index found is the first byte that is not a digit: every byte before it is a digit |
| IntParsing.FeedJudged | src/IntParser.cpp:50-72 | after a run of bytes, `overflowed` is set iff its digits reach 2^64 before any non-digit, `invalid` is set iff a non-digit comes first, and otherwise the value is the run's decimal value |
| IntParsing.OneMoreDigitOverflows | src/IntParser.cpp:61-71 | a 1 in front of the digits of 2^64 - 1 sets `overflowed`, not `invalid`, and `value` fails |
| StringComparator.CharAt | src/StringComparator.cpp:90-93 | a candidate's byte at a position, its NUL terminator at its length, and -1 (no byte) beyond |
| StringComparator.Create | src/StringComparator.cpp:95-98 | `create()` gives a session bound to the vocabulary with every candidate alive and count 0 |
| StringComparator.Default | src/StringComparator.h:21 | a value-initialised session has no vocabulary and reports no match |
| StringComparator.Move | src/StringComparator.cpp:12-35 | moving hands the flags, count and vocabulary to the destination and leaves the source null, which never matches |
| StringComparator.Reset | src/StringComparator.cpp:37-47 | `reset()` makes every candidate alive with count 0 and leaves a null session alone |
| StringComparator.Next | src/StringComparator.cpp:49-62 | `next(c)` kills exactly the alive candidates whose byte at the count differs from c, then counts one byte; a null session is left alone |
| StringComparator.Feed | src/HTTP_Server.cpp:332-334 | feeding a run keeps the vocabulary and flag count and raises the count by the run's length |
| StringComparator.FeedAppend | src/HTTP_Server.cpp:332-334 | feeding a token in two pieces is feeding it whole |
| StringComparator.FirstAlive | src/StringComparator.cpp:70-72 | the candidate `hasMatch` inspects is alive and no earlier one is, or none is alive |
| StringComparator.HasMatch | src/StringComparator.cpp:64-77 | `hasMatch` writes the index of the first alive candidate and succeeds iff that candidate's length equals the count; it fails when none is alive or the session is null |
| StringComparator.FeedMonotone | src/StringComparator.cpp:56-58 | a dead candidate stays dead whatever is fed after |
| StringComparator.AliveIffPrefix | src/StringComparator.cpp:59 | after feeding w to a fresh session, a candidate is alive iff w is a prefix of the candidate followed by its NUL |
| StringComparator.AliveIffPrefixNulFree | src/StringComparator.cpp:59 | for a word without NUL bytes, alive means the word is a prefix of the candidate |
| StringComparator.MatchIsExact | src/StringComparator.cpp:70-75 | a reported match names the candidate equal to the bytes fed |
| StringComparator.ExactCandidateMatches | src/StringComparator.cpp:64-77 | feeding exactly candidate j reports (true, j) when no earlier candidate has j as a prefix |
| StringComparator.MatchIffCandidate | src/StringComparator.cpp:64-77 | over a prefix-free, NUL-free vocabulary, a fresh session fed w matches iff w is a candidate, and then names it |
| StringComparator.ShorterCandidateHidden | src/StringComparator.cpp:70-75 | with candidates "ab" then "a", feeding "a" reports no match, with index 0 |
| StringComparator.NullSessionInert | src/StringComparator.cpp:37-77 | on a null session, reset and next do nothing and no match is reported |
| HttpClient.NewClient | src/HTTP_Server.h:67-90 | a constructed client is disconnected and in METHOD, not chunked, with content length 0, an empty buffer, a fresh integer parser and a null session, and it satisfies the invariant |
| HttpClient.SetState | src/HTTP_Server.cpp:107-130 | `state(s)` is a no-op for the current state; otherwise it resets the integer parser and installs the version, header-name or transfer-coding session, keeps the session for other header values, and installs a null session in the other states |
| HttpClient.Connect | src/HTTP_Server.cpp:92-100 | `connect()` sets connected, empties the buffer, sets the header to UNKNOWN, the content length to 0 and chunked to false, and enters METHOD; the version is kept, and already being in METHOD keeps the parser and session |
| HttpClient.Disconnect | src/HTTP_Server.cpp:102-105 | `disconnect()` clears the connected flag and nothing else |
| HttpClient.Transition | src/HTTP_Server.cpp:132-165 | the delimiter and next state of each delimited state: METHOD then SP then PATH, PATH then SP then VERSION, a header name then ':' then HEADER_VALUE, and a version or header value then LF then BEFORE_HEADER |
| HttpClient.ProcessState | src/HTTP_Server.cpp:312-340 | a non-empty token goes to the integer parser for Content-Length values and to the session for versions, header names and other header values; METHOD and PATH tokens change nothing |
| HttpClient.Classify | src/HTTP_Server.cpp:343-412 | only the version, header or chunked flag changes, each only in its own state; with no match the version or header is recorded as UNKNOWN and a transfer coding is unsupported; a match records one of the two versions, one of the two headers, or chunked; a failure changes nothing |
| HttpClient.CheckState | src/HTTP_Server.cpp:343-431 | `checkState` outcomes: an unknown version or name is non-fatal; an unknown transfer coding is unsupported; a Content-Length value is stored iff the parser holds no flag, overflow is unsupported and a non-digit is a bad request; the bad-index branches never fire when the session fits the state; only the version (in VERSION), the header (in HEADER_NAME), the chunked flag (for Transfer-Encoding) and the content length (for a valid Content-Length) can change, and a failure changes nothing |
| HttpClient.ScanToken | src/HTTP_Server.cpp:258-293 | the bytes copied out are exactly those `readUntil` yields, the token is a prefix of them that stops short of a copied delimiter, and the token never contains the delimiter |
| HttpClient.Finish | src/HTTP_Server.cpp:295-309 | the reply carries the token length, the copied bytes and the state read in; an incomplete token reports INCOMPLETE; the state advances to the next one exactly on OKAY; a completed token advances with the session fitting the next state; a failed token leaves version, header, chunked flag and content length as they were, and each of them changes only in its own state |
| HttpClient.Conclude | src/HTTP_Server.cpp:298-307 | a completed token: on failure the client is returned unchanged and the state stays; on success the state becomes the next one; version, header, chunked flag and content length each change only in the state that owns them; the session fits the next state and the bad-index failure cannot occur |
| HttpClient.AdvanceFits | src/HTTP_Server.cpp:298-307 | finalising a token successfully and entering the following state keeps the session fitting the state |
| HttpClient.ReadTerminated | src/HTTP_Server.cpp:248-310 | a delimited read reports the state it read in, and keeps the invariant without reporting FAIL_INVALID_STATE |
| HttpClient.ReadBody | src/HTTP_Server.cpp:229-246 | a chunked body is unsupported; otherwise min(n, content length, contiguous available) front bytes are copied and counted off the content length, and the request is done with OKAY iff the length reaches 0 |
| HttpClient.BeforeHeaderStep | src/HTTP_Server.cpp:190-217 | the look-ahead for empty, lone CR, CR LF, CR then other, LF and other leading bytes: it waits with the buffer unchanged, or enters BODY or HEADER_NAME having consumed exactly the line ending or the stray CR |
| HttpClient.LookAheadFits | src/HTTP_Server.cpp:205-215 | the look-ahead leaves the client in a state whose session fits |
| HttpClient.Read | src/HTTP_Server.cpp:167-227 | a zero-length read is refused with the client unchanged; any other read reports a state other than DONE and keeps the invariant without FAIL_INVALID_STATE |
| HttpClient.Dispatch | src/HTTP_Server.cpp:219-226 | after the look-ahead the read reports the state it ran in and keeps the invariant |
| HttpClientProperties.ScanReportsFront | src/HTTP_Server.cpp:259-293 | every scan copies a front slice of the buffered bytes within the bound, and the token is a prefix of it without the delimiter |
| HttpClientProperties.ScanDelimited | src/HTTP_Server.cpp:266-288 | with the delimiter in reach, the copy ends at its first occurrence; for LF one CR before it is dropped from the token; after ':' one space is skipped, and a ':' with nothing after it is put back with no transition |
| HttpClientProperties.ColonLookAhead | src/HTTP_Server.cpp:276-288 | after a ':' the peek sees nothing iff nothing follows, the ':' is then put back alone, and otherwise it sees the next byte, a space being consumed |
| HttpClientProperties.ScanUndelimited | src/HTTP_Server.cpp:263-293 | without the delimiter in reach, the whole bound is copied and the token stays open; a trailing CR before an LF delimiter is put back and left out of the token |
| HttpClientProperties.VocabulariesPrefixFree | src/HTTP_Server.cpp:76-90 | the version, header-name and transfer-coding vocabularies have 2, 2 and 1 NUL-free candidates, none a prefix of another |
| HttpClientProperties.ReadIsScanThenFinish | src/HTTP_Server.cpp:220-226 | a read in a delimited state is a scan with the state's delimiter followed by classification |
| HttpClientProperties.CheckVersion | src/HTTP_Server.cpp:346-380 | a complete version token records HTTP/1.0, HTTP/1.1 or UNKNOWN as the token names, with OKAY |
| HttpClientProperties.FinishVersion | src/HTTP_Server.cpp:295-307 | one version piece either leaves the session fed the whole token so far, or records the version it names and moves to BEFORE_HEADER |
| HttpClientProperties.VersionClassified | src/HTTP_Server.cpp:343-380 | over several reads, a version token is absorbed until its LF and then recorded as the version the whole token names; an unknown version is not an error |
| HttpClientProperties.CheckHeaderName | src/HTTP_Server.cpp:352-395 | a complete header name records TRANSFER_ENCODING, CONTENT_LENGTH or UNKNOWN as the name names, with OKAY |
| HttpClientProperties.FinishHeaderName | src/HTTP_Server.cpp:276-307 | one header-name piece either leaves the session fed the name so far, or records the header, enters HEADER_VALUE with a fresh parser, and installs the transfer-coding session for Transfer-Encoding and keeps the name session otherwise |
| HttpClientProperties.HeaderNameClassified | src/HTTP_Server.cpp:343-395 | over several reads, a header name is absorbed until its ':' and the next byte, and the header recorded is the one the whole name names |
| HttpClientProperties.CheckTransferCoding | src/HTTP_Server.cpp:355-407 | a complete Transfer-Encoding value is accepted, marking the body chunked, iff it is exactly "chunked"; otherwise it is unsupported |
| HttpClientProperties.FinishTransferCoding | src/HTTP_Server.cpp:295-307 | one transfer-coding piece waits, or completes with OKAY iff the whole value is "chunked", and on failure the state does not advance |
| HttpClientProperties.TransferCodingJudged | src/HTTP_Server.cpp:355-407 | over several reads, a Transfer-Encoding value succeeds exactly for "chunked" and is otherwise FAIL_UNSUPPORTED without advancing |
| HttpClientProperties.FinishContentLength | src/HTTP_Server.cpp:414-429 | one Content-Length piece waits with the parser fed the value so far, or completes with OKAY iff the whole value is digits below 2^64, storing it; it is unsupported iff the digits reach 2^64 before any non-digit, and a bad request iff a non-digit comes first |
| HttpClientProperties.ContentLengthJudged | src/HTTP_Server.cpp:414-429 | over several reads, the content length is stored exactly when the whole value is digits below 2^64; once the LF arrives the read is FAIL_UNSUPPORTED iff the digits reach 2^64 before any non-digit and FAIL_BAD_REQUEST iff a non-digit comes first, without advancing |
| HttpClientProperties.FinishUnclassified | src/HTTP_Server.cpp:312-329 | method, path and unknown-header value pieces wait or advance and change no recorded field |
| HttpClientProperties.UnclassifiedTokenAdvances | src/HTTP_Server.cpp:312-329 | a read of such a token reports OKAY and advances, or INCOMPLETE and stays, and never changes version, header, chunked or content length |
| HttpClientProperties.LookAheadResolves | src/HTTP_Server.cpp:190-217 | in BEFORE_HEADER, nothing or a lone CR waits with the buffer unchanged; CR LF or LF leads to a body read; any other byte leads to a header-name read |
| HttpClientProperties.ConsistencyIsInvariant | src/HTTP_Server.cpp:343-431 | a new client satisfies the invariant, `connect`, `disconnect` and every read keep it, and so no read reports FAIL_INVALID_STATE |
| HttpClientProperties.StuckReadChangesNothing | src/HTTP_Server.cpp:289-293 | with a CR in the last array cell, a read in VERSION or HEADER_VALUE copies the CR, puts it back, reports INCOMPLETE with no bytes, and leaves the client exactly as it was |
| HttpClientProperties.SeamSurvivesArrival | src/RingBuffer.h:70-112 | bytes arriving after such a CR land before it in the array and never move the start cursor off it |
| HttpClientProperties.StuckSurvivesArrival | src/RingBuffer.h:70-112 | a stuck client stays stuck whatever bytes arrive |
| HttpClientProperties.StuckRound | src/HTTP_Server.cpp:289-293 | one round of receiving and reading keeps a stuck client stuck in its state and yields the stalled reply |
| HttpClientProperties.StuckForever | src/HTTP_Server.cpp:289-293 | once stuck, alternately receiving any chunks and reading yields only INCOMPLETE replies with no bytes, one per chunk |
| HttpClientProperties.DrainParksCarriageReturn | src/HTTP_Server.cpp:258-293 | a LF scan that drains an unwrapped buffer ending in CR copies everything, completes no token, and leaves only the CR, in the last cell with the end cursor at 0 |
| HttpClientProperties.ParkedCarriageReturnMeetsArrival | src/RingBuffer.h:70-112 | the parked CR is the whole contents, and any arrival lands in front of it and leaves it at the seam |
| HttpClientProperties.ParkedClientMeetsArrival | src/RingBuffer.h:70-112 | a client in VERSION or HEADER_VALUE holding only that parked CR is stuck after any arrival |
| HttpClientProperties.OpenScanWaits | src/HTTP_Server.cpp:263-310 | in VERSION or HEADER_VALUE, a scan that completes no token makes the read report INCOMPLETE, stay in its state and keep the scanned buffer |
| HttpClientProperties.DrainedReadParks | src/HTTP_Server.cpp:248-310 | the read that drains such a buffer in VERSION or HEADER_VALUE reports INCOMPLETE, keeps the state, and leaves the CR parked in the last cell |
| HttpClientProperties.SplitLineEndingSticks | src/HTTP_Server.cpp:289-293 | after that read, any arrival of at least one byte leaves the client stuck on the CR |
| HttpClientProperties.VersionLineSplitAfterCarriageReturn | src/HTTP_Server.cpp:289-293 | on a 16-byte buffer, "HTTP/1.1" CR, one read, then LF leaves a stuck client whose buffer holds exactly CR LF |
| HttpClientProperties.VersionLineDrained | src/HTTP_Server.cpp:289-293 | the same, for any client in VERSION holding those nine bytes from index 0 |
| HttpClientProperties.LineFeedJoinsCarriageReturn | src/RingBuffer.h:70-112 | a LF offered to a buffer that holds only a CR is taken and placed right after it |
| HttpClientProperties.BodyAlwaysPending | src/HTTP_Server.cpp:204-246 | a new client, `connect`, `disconnect` and every read keep the invariant that a client in BODY is chunked or has a positive length left |
| HttpClientProperties.ReadKeepsBodyPending | src/HTTP_Server.cpp:190-227 | one read keeps that invariant, through the look-ahead and the dispatch |
| HttpClientProperties.DispatchKeepsBodyPending | src/HTTP_Server.cpp:229-246 | a body read leaves BODY as its length reaches 0, and a token read never enters BODY |
| HttpClientProperties.EmptyBodyKeepsPipelinedBytes | src/HTTP_Server.cpp:203-246 | with no body framing, the read that sees the blank line reports OKAY with no bytes, reaches DONE, and keeps every byte after the blank line |
| HttpClientProperties.EmptyBodyDiscardsBufferedBytes | src/HTTP_Server.cpp:235-241 | latent in `readBody`: a body read with length 0 on a full buffer with equal cursors reports OKAY with no bytes, reaches DONE, and leaves the buffer empty; no reachable client meets this precondition |

## Left out

- `FAIL_NULL_ARG` and the NULL-argument checks of `read`: arguments are values here, so they cannot be NULL.
- `FAIL_HARDWARE`, `FAIL_WIFI`, `FAIL_DHCP` and `FAIL_TIMEOUT`: the parser never produces them.
- `HTTP_Server::begin`, `HTTP_Server::connect` and `HTTP_Server::tick`: these are radio hardware, Wi-Fi, DHCP, delays and the socket poll loop. `HttpClientProperties.Serve` is only an abstract polling loop used to state the livelock.
- The logging macros and `HTTPClientStateToString` / `HTTPStatusToString`: they only print flash strings.
- `PROGMEM`, `pgm_read_byte` and `strlen_P`: the vocabularies are plain byte-sequence constants.
- `new[]` / `delete[]` inside `StringComparison`: the flags are an owned sequence.
- The deleted copy constructor and copy assignment of `StringComparison`, and the `const` vocabulary of `StringComparator`: these are guarantees of the C++ type system. In a value model every session is already unshared, and a `Comparator` cannot be changed.
- Self-move-assignment (`this == &other`): values have no identity.
- `StringComparator.CharAt`: past the NUL terminator the source reads whatever memory follows the string. The model yields -1, which equals no byte. For the three vocabularies the parser uses, no candidate can stay alive past its terminator unless a NUL byte was fed.
- The virtual `process()` hook: it is application code.
- The `#if 0` bulk-read path of `readFrom`: it is compiled out.
- The real byte source of `readFrom` (`connected()`, `available()`, `read()`): it is the finite sequence of bytes the source would yield before reporting none.
- `HTTP_BUFFER_SIZE`: the capacity is a parameter of at least 2 bytes. The header requires it to be at least the radio's receive-buffer size, which is not part of this model.
- `HttpClient.Read`: DONE is excluded. `getTransition` leaves the delimiter and next state unset there, so a read in DONE has no defined behaviour.
- `HttpClient.Connected`: it returns the flag and has no contract, since there is nothing to state beyond the field.
- `HttpClient.NewClient`: the version and header have no initialiser in the class and are `None` until first assigned. The session is modelled as the zero-initialised one of a statically allocated client.
- Optional whitespace around field values (RFC 7230 section 3.2.3): the source skips at most one SP after ':' and never trims trailing whitespace or tabs. So "Content-Length:\t5" and "Content-Length: 5 " end in FAIL_BAD_REQUEST, and the model does the same.
- Case-insensitive field names (RFC 7230 section 3.2): names are matched byte for byte. So "content-length: 5" is an UNKNOWN header, in the source and in the model.
- Chunk-boundary independence: it is refuted by `SplitLineEndingSticks` and `StuckForever` for any CR/LF split across polls that drains the buffer. It is not proved for the splits that avoid the stall.
- `HttpClient.CheckState`: the last Content-Length branch (no flag set yet `value` fails) is kept as written, although `Value`'s contract shows it cannot be taken.
