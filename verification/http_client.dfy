/**
  The request side of `HTTP_Client`: a non-blocking HTTP/1.x request parser
  over a fixed-capacity ring buffer. Each call to `Read` drains at most one
  token from the buffer and returns a status, the bytes reported, and the
  state the bytes belong to.

  The grammar accepted is a subset of the request line and header fields
  of RFC 7230 (section 3.1.1 and section 3.2) and of the Transfer-Encoding
  and Content-Length framing of sections 3.3.1 and 3.3.2 (chunked bodies
  are recognised and refused), plus the lone-LF line ending that section
  3.5 allows. At most one space is skipped after ':', no other optional
  whitespace is trimmed, and header names are matched byte for byte, so
  case-insensitive names and trailing whitespace are not accepted.

  The C++ class mutates its fields; here a client is a value and every
  member returns the updated client.
 */
module HttpClient {
  import opened Bytes
  import RingBuffer
  import IntParsing
  import SC = StringComparator

  datatype Status =
    | Okay
    | Incomplete
    | FailInvalidState
    | FailInvalidArg
    | FailBadRequest
    | FailUnsupported

  /** The request states, in the order a request passes through them. */
  datatype ClientState =
    | Method
    | Path
    | Version
    | BeforeHeader
    | HeaderName
    | HeaderValue
    | Body
    | Done

  datatype HttpVersion = UnknownVersion | Http10 | Http11

  datatype HttpHeader = UnknownHeader | TransferEncoding | ContentLength

  const HTTP_1_0: seq<uint8> := Ascii("HTTP/1.0")
  const HTTP_1_1: seq<uint8> := Ascii("HTTP/1.1")
  const TRANSFER_ENCODING: seq<uint8> := Ascii("Transfer-Encoding")
  const CONTENT_LENGTH: seq<uint8> := Ascii("Content-Length")
  const CHUNKED: seq<uint8> := Ascii("chunked")

  /** The three vocabularies, shared read-only by every client. */
  const VersionComparator: SC.Comparator := SC.Comparator([HTTP_1_0, HTTP_1_1])
  const HeaderComparator: SC.Comparator := SC.Comparator([TRANSFER_ENCODING, CONTENT_LENGTH])
  const TransferEncodingComparator: SC.Comparator := SC.Comparator([CHUNKED])

  /** The per-connection parsing context. `version` and `header` have no
      initialiser in the class, so they are `None` until first assigned. */
  datatype Client = Client(
    connected: bool,
    buffer: RingBuffer.Ring,
    state: ClientState,
    version: Option<HttpVersion>,
    header: Option<HttpHeader>,
    chunked: bool,
    intParser: IntParsing.IntParser,
    contentLength: uint64,
    comparison: SC.Session)

  /** What one `read` call hands back: the status, the value left in
      `*n_buf`, the bytes copied into `buf` (of which the first `count` are
      the token), and the value written to `*current` (`None` when the
      call returned before writing it). */
  datatype Reply = Reply(status: Status, count: nat, written: seq<uint8>, current: Option<ClientState>)

  datatype Step = Step(client: Client, reply: Reply)

  /** The shape every client keeps: cursors in range, a buffer of at least
      two bytes (`HTTP_BUFFER_SIZE` is at least the radio's receive buffer
      size), and one liveness flag per candidate in the session. */
  predicate Valid(c: Client)
  {
    RingBuffer.Valid(c.buffer) && |c.buffer.cells| >= 2 && SC.WellFormed(c.comparison)
  }

  /** The session a client holds is the one its state classifies with: the
      version vocabulary in VERSION, the header-name vocabulary in
      HEADER_NAME, and in HEADER_VALUE the transfer-coding vocabulary for
      Transfer-Encoding and the header-name session left over from the
      name for every other header. */
  predicate SessionFits(c: Client)
  {
    && (c.state == Version ==>
          c.comparison.Live? && c.comparison.vocab == VersionComparator.strings)
    && (c.state == HeaderName ==>
          c.comparison.Live? && c.comparison.vocab == HeaderComparator.strings)
    && (c.state == HeaderValue ==>
          && c.header.Some? && c.comparison.Live?
          && c.comparison.vocab == if c.header == Some(TransferEncoding)
                                   then TransferEncodingComparator.strings
                                   else HeaderComparator.strings)
  }

  /** The invariant every client keeps between calls. */
  predicate Consistent(c: Client)
  {
    Valid(c) && SessionFits(c)
  }

  /** A client as constructed: not connected, in METHOD, not chunked, no
      content length, an empty buffer over the given storage, and the
      zero-initialised session of an object with static storage. */
  function NewClient(cells: seq<uint8>): (c: Client)
    requires |cells| >= 2
    ensures Consistent(c) && !c.connected && c.state == Method
    ensures !c.chunked && c.contentLength == 0
    ensures RingBuffer.Contents(c.buffer) == [] && RingBuffer.Capacity(c.buffer) == |cells|
    ensures c.version.None? && c.header.None?
    ensures c.comparison.Null? && c.intParser == IntParsing.Fresh()
  {
    Client(false, RingBuffer.Ring(cells, 0, 0), Method, None, None, false,
           IntParsing.Fresh(), 0, SC.Null)
  }

  /** `connected()`. */
  function Connected(c: Client): bool
  {
    c.connected
  }

  /** `state(s)`: entering a different state resets the integer parser and
      installs the session the new state classifies with. Re-entering the
      current state changes nothing. */
  function SetState(c: Client, s: ClientState): (c': Client)
    requires Valid(c)
    ensures Valid(c')
    ensures s == c.state ==> c' == c
    ensures s != c.state ==>
      && c'.state == s
      && !c'.intParser.overflowed && !c'.intParser.invalid && c'.intParser.value == 0
      && c'.buffer == c.buffer && c'.connected == c.connected && c'.version == c.version
      && c'.header == c.header && c'.chunked == c.chunked && c'.contentLength == c.contentLength
    ensures s != c.state && s == Version ==> c'.comparison == SC.Create(VersionComparator)
    ensures s != c.state && s == HeaderName ==> c'.comparison == SC.Create(HeaderComparator)
    ensures s != c.state && s == HeaderValue ==>
      c'.comparison == if c.header == Some(TransferEncoding)
                       then SC.Create(TransferEncodingComparator) else c.comparison
    ensures s != c.state && s !in {Version, HeaderName, HeaderValue} ==> c'.comparison.Null?
  {
    if s == c.state then c
    else
      var c1 := c.(state := s, intParser := IntParsing.Reset(c.intParser));
      match s
      case Version => c1.(comparison := SC.Create(VersionComparator))
      case HeaderName => c1.(comparison := SC.Create(HeaderComparator))
      case HeaderValue =>
        if c.header == Some(TransferEncoding)
        then c1.(comparison := SC.Create(TransferEncodingComparator))
        else c1
      case _ => c1.(comparison := SC.Default())
  }

  /** `connect()`: marks the client connected, empties the buffer and clears
      the framing fields, then asks for METHOD. The recognised version is
      not cleared, and when the client is already in METHOD the integer
      parser and the session are kept as they were. */
  function Connect(c: Client): (c': Client)
    requires Valid(c)
    ensures Valid(c') && c'.connected && c'.state == Method
    ensures Consistent(c')
    ensures RingBuffer.Contents(c'.buffer) == [] && c'.buffer.cells == c.buffer.cells
    ensures c'.header == Some(UnknownHeader) && c'.contentLength == 0 && !c'.chunked
    ensures c'.version == c.version
    ensures c.state == Method ==> c'.intParser == c.intParser && c'.comparison == c.comparison
    ensures c.state != Method ==> c'.comparison.Null? && c'.intParser == IntParsing.Fresh()
  {
    var c1 := c.(connected := true, buffer := RingBuffer.Clear(c.buffer),
                 header := Some(UnknownHeader), contentLength := 0, chunked := false);
    SetState(c1, Method)
  }

  /** `disconnect()`: only the flag changes. */
  function Disconnect(c: Client): (c': Client)
    ensures !c'.connected && c' == c.(connected := false)
  {
    c.(connected := false)
  }

  /** The states whose tokens end at a single delimiter byte. */
  predicate IsTerminated(s: ClientState)
  {
    s != BeforeHeader && s != Body && s != Done
  }

  /** `getTransition`: the delimiter that ends the current token and the
      state that follows it. BODY and DONE leave both outputs unset, so they
      are excluded here. */
  function Transition(s: ClientState): (t: (uint8, ClientState))
    requires IsTerminated(s)
    ensures t.0 in {SP, LF, COLON} && t.1 in {Path, Version, BeforeHeader, HeaderValue}
    ensures t.0 == COLON <==> s == HeaderName
    ensures t.0 == LF <==> s in {Version, HeaderValue}
    ensures t.1 == BeforeHeader <==> t.0 == LF
    ensures s == Method ==> t == (SP, Path)
    ensures s == Path ==> t == (SP, Version)
    ensures s == HeaderName ==> t.1 == HeaderValue
  {
    match s
    case Method => (SP, Path)
    case Path => (SP, Version)
    case Version => (LF, BeforeHeader)
    case HeaderName => (COLON, HeaderValue)
    case HeaderValue => (LF, BeforeHeader)
  }

  /** `processState(buf, n)`: hand the token to whatever classifies the
      current state. Content-Length values go to the integer parser;
      versions, header names and every other header value go to the
      session (for an unrecognised header that is still the header-name
      session). METHOD and PATH tokens are not classified. */
  function ProcessState(c: Client, token: seq<uint8>): (c': Client)
    requires Valid(c)
    ensures Valid(c')
    ensures c' == c.(comparison := c'.comparison, intParser := c'.intParser)
    ensures |token| == 0 || c.state !in {Version, HeaderName, HeaderValue} ==> c' == c
    ensures |token| > 0 && c.state == HeaderValue && c.header == Some(ContentLength) ==>
      c'.intParser == IntParsing.Feed(c.intParser, token) && c'.comparison == c.comparison
    ensures |token| > 0 && c.state in {Version, HeaderName, HeaderValue}
            && !(c.state == HeaderValue && c.header == Some(ContentLength)) ==>
      c'.comparison == SC.Feed(c.comparison, token) && c'.intParser == c.intParser
  {
    if |token| == 0 then c
    else
      match c.state
      case Version => c.(comparison := SC.Feed(c.comparison, token))
      case HeaderName => c.(comparison := SC.Feed(c.comparison, token))
      case HeaderValue =>
        if c.header != Some(ContentLength)
        then c.(comparison := SC.Feed(c.comparison, token))
        else c.(intParser := IntParsing.Feed(c.intParser, token))
      case _ => c
  }

  /** The classification half of `checkState`: what the session's match
      means for the current state. Only the version, the header name and
      the chunked flag can change, each only in its own state; an unmatched
      version or header name is recorded as unknown, an unmatched transfer
      coding is unsupported, and a failure leaves the client as it was. */
  function Classify(c: Client): (res: (Client, Status))
    requires SC.WellFormed(c.comparison)
    ensures res.0 == c.(version := res.0.version, header := res.0.header, chunked := res.0.chunked)
    ensures res.0.version != c.version ==> c.state == Version
    ensures res.0.header != c.header ==> c.state == HeaderName
    ensures res.0.chunked != c.chunked ==>
      c.state == HeaderValue && c.header == Some(TransferEncoding) && res.0.chunked
    ensures res.1 in {Okay, FailInvalidState, FailUnsupported}
    ensures res.1 != Okay ==> res.0 == c
    ensures res.1 == FailUnsupported <==>
      c.state == HeaderValue && c.header == Some(TransferEncoding) && !SC.HasMatch(c.comparison).matched
    ensures res.1 == FailInvalidState ==> SC.HasMatch(c.comparison).matched
    ensures !SC.HasMatch(c.comparison).matched ==>
      && (c.state == Version ==> res.0.version == Some(UnknownVersion))
      && (c.state == HeaderName ==> res.0.header == Some(UnknownHeader))
      && (c.state != Version && c.state != HeaderName ==> res.0 == c)
    ensures SC.HasMatch(c.comparison).matched && res.1 == Okay ==>
      && (c.state == Version ==> res.0.version in {Some(Http10), Some(Http11)})
      && (c.state == HeaderName ==> res.0.header in {Some(TransferEncoding), Some(ContentLength)})
      && (c.state == HeaderValue && c.header == Some(TransferEncoding) ==> res.0.chunked)
    ensures c.state !in {Version, HeaderName, HeaderValue} ==> res == (c, Okay)
  {
    var m := SC.HasMatch(c.comparison);
    if !m.matched then
      match c.state
      case Version => (c.(version := Some(UnknownVersion)), Okay)
      case HeaderName => (c.(header := Some(UnknownHeader)), Okay)
      case HeaderValue =>
        (c, if c.header == Some(TransferEncoding) then FailUnsupported else Okay)
      case _ => (c, Okay)
    else
      var idx := m.idx.value;
      match c.state
      case Version =>
        if idx == 0 then (c.(version := Some(Http10)), Okay)
        else if idx == 1 then (c.(version := Some(Http11)), Okay)
        else (c, FailInvalidState)
      case HeaderName =>
        if idx == 0 then (c.(header := Some(TransferEncoding)), Okay)
        else if idx == 1 then (c.(header := Some(ContentLength)), Okay)
        else (c, FailInvalidState)
      case HeaderValue =>
        if c.header != Some(TransferEncoding) then (c, Okay)
        else if idx == 0 then (c.(chunked := true), Okay)
        else (c, FailInvalidState)
      case _ => (c, Okay)
  }

  /** `checkState()`: finalise the token just completed. An unknown version
      or header name is recorded as UNKNOWN; an unknown transfer coding is
      unsupported; a Content-Length value is stored when the integer parser
      holds a trustworthy value, and otherwise overflow is unsupported and
      a non-digit is a bad request. The state itself never changes here. */
  function CheckState(c: Client): (res: (Client, Status))
    requires SC.WellFormed(c.comparison)
    ensures res.0.state == c.state && res.0.buffer == c.buffer
    ensures res.0.comparison == c.comparison && res.0.intParser == c.intParser
    ensures res.0.connected == c.connected
    ensures res.0 == c.(version := res.0.version, header := res.0.header,
                        chunked := res.0.chunked, contentLength := res.0.contentLength)
    ensures res.1 != Okay ==> res.0 == c
    ensures res.0.version != c.version ==> c.state == Version
    ensures res.0.chunked != c.chunked ==> c.state == HeaderValue && c.header == Some(TransferEncoding)
    ensures res.0.contentLength != c.contentLength ==>
      c.state == HeaderValue && c.header == Some(ContentLength) && res.1 == Okay
    ensures c.state != HeaderName ==> res.0.header == c.header
    ensures c.state == HeaderName && res.1 == Okay ==> res.0.header.Some?
    ensures SessionFits(c) ==> res.1 != FailInvalidState
    ensures c.state !in {Version, HeaderName, HeaderValue} ==> res == (c, Okay)
    ensures c.state in {Version, HeaderName} ==> res.1 in {Okay, FailInvalidState}
    ensures c.state == HeaderValue && c.header == Some(TransferEncoding) ==>
      && (!SC.HasMatch(c.comparison).matched ==> res.1 == FailUnsupported)
      && (res.1 == Okay ==> res.0.chunked)
    ensures c.state == HeaderValue && c.header == Some(ContentLength) ==>
      && (res.1 == Okay <==> !c.intParser.overflowed && !c.intParser.invalid)
      && (res.1 == Okay ==> res.0.contentLength == c.intParser.value)
      && (c.intParser.overflowed ==> res.1 == FailUnsupported)
      && (c.intParser.invalid && !c.intParser.overflowed ==> res.1 == FailBadRequest)
    ensures (c.state == HeaderValue && c.header != Some(TransferEncoding)
             && c.header != Some(ContentLength)) ==> res == (c, Okay)
  {
    var first := Classify(c);
    if first.1 != Okay then first
    else if c.state == HeaderValue && c.header == Some(ContentLength) then
      var (ok, len) := IntParsing.Value(c.intParser);
      if ok then (first.0.(contentLength := len), Okay)
      else if c.intParser.overflowed then (first.0, FailUnsupported)
      else if c.intParser.invalid then (first.0, FailBadRequest)
      else (first.0, FailInvalidState)
    else first
  }

  /** What the buffer half of `readTerminated` leaves behind: the buffer,
      the token to classify, the bytes copied out, and whether the
      delimiter completed the token. */
  datatype Scan = Scan(buffer: RingBuffer.Ring, token: seq<uint8>, written: seq<uint8>, transition: bool)

  /** The buffer half of `readTerminated(buf, n)`: copy the contiguous bytes
      up to and including the delimiter `term` and report the token without
      its delimiter. Before a LF delimiter one CR is dropped; a CR that ends
      the copied bytes is put back to wait for its LF; after a ':' one space
      is skipped, and a ':' that ends the buffered bytes is put back to wait
      for the next one. */
  function ScanToken(b: RingBuffer.Ring, term: uint8, n: nat): (sc: Scan)
    requires RingBuffer.Valid(b) && |b.cells| >= 2 && n >= 1 && term in {SP, LF, COLON}
    ensures RingBuffer.Valid(sc.buffer) && |sc.buffer.cells| == |b.cells|
    ensures sc.written == RingBuffer.ReadUntil(b, term, n).1
    ensures |sc.token| <= |sc.written| && sc.token == sc.written[..|sc.token|]
    ensures |sc.written| > 0 && sc.written[|sc.written| - 1] == term ==> |sc.token| < |sc.written|
    ensures term !in sc.token
  {
    var (b1, data) := RingBuffer.ReadUntil(b, term, n);
    var k := |data|;
    if k == 0 then Scan(b1, [], data, false)
    else if data[k - 1] == term then
      assert |data[..k - 1]| < k;
      if term == LF then
        var count := if k >= 2 && data[k - 2] == CR then k - 2 else k - 1;
        Scan(b1, data[..count], data, true)
      else if term == COLON then
        var p := RingBuffer.Peek(b1);
        if p < 0 then Scan(RingBuffer.PutBack(b1, COLON), data[..k - 1], data, false)
        else if p == SP as int then Scan(RingBuffer.ReadByte(b1).0, data[..k - 1], data, true)
        else Scan(b1, data[..k - 1], data, true)
      else Scan(b1, data[..k - 1], data, true)
    else if term == LF && data[k - 1] == CR then
      Scan(RingBuffer.PutBack(b1, CR), data[..k - 1], data, false)
    else Scan(b1, data, data, false)
  }

  /** The tail of `readTerminated`: install the scanned buffer, feed the
      token to the classifier, and when the delimiter was seen finalise the
      token and advance to `next` on success. */
  function Finish(c: Client, sc: Scan, next: ClientState): (st: Step)
    requires Valid(c) && RingBuffer.Valid(sc.buffer) && |sc.buffer.cells| >= 2
    ensures Valid(st.client) && st.client.buffer == sc.buffer
    ensures st.reply == Reply(st.reply.status, |sc.token|, sc.written, Some(c.state))
    ensures !sc.transition ==> st.reply.status == Incomplete && st.client.state == c.state
    ensures st.client.state == (if st.reply.status == Okay then next else c.state)
    ensures st.client.connected == c.connected
    ensures st.reply.status != Okay ==>
      && st.client.version == c.version && st.client.header == c.header
      && st.client.chunked == c.chunked && st.client.contentLength == c.contentLength
    ensures st.client.version != c.version ==> c.state == Version
    ensures st.client.header != c.header ==> c.state == HeaderName
    ensures st.client.chunked != c.chunked ==>
      c.state == HeaderValue && c.header == Some(TransferEncoding) && st.client.chunked
    ensures st.client.contentLength != c.contentLength ==>
      c.state == HeaderValue && c.header == Some(ContentLength)
    ensures IsTerminated(c.state) && next == Transition(c.state).1 && SessionFits(c) ==>
      SessionFits(st.client) && st.reply.status != FailInvalidState
  {
    var c1 := ProcessState(c.(buffer := sc.buffer), sc.token);
    var reply := Reply(if sc.transition then Okay else Incomplete, |sc.token|, sc.written,
                       Some(c.state));
    if !sc.transition then Step(c1, reply)
    else
      var (c2, event) := Conclude(c1, next);
      Step(c2, reply.(status := event))
  }

  /** The completed-token half of `readTerminated`: `checkState`, then the
      state change on success. A failure leaves the client as it was, and
      each recorded field changes only in the state that owns it. */
  function Conclude(c: Client, next: ClientState): (res: (Client, Status))
    requires Valid(c)
    ensures Valid(res.0) && res.0.buffer == c.buffer && res.0.connected == c.connected
    ensures res.0.state == (if res.1 == Okay then next else c.state)
    ensures res.1 != Okay ==> res.0 == c
    ensures res.0.version != c.version ==> c.state == Version
    ensures res.0.header != c.header ==> c.state == HeaderName
    ensures res.0.chunked != c.chunked ==>
      c.state == HeaderValue && c.header == Some(TransferEncoding) && res.0.chunked
    ensures res.0.contentLength != c.contentLength ==>
      c.state == HeaderValue && c.header == Some(ContentLength)
    ensures IsTerminated(c.state) && next == Transition(c.state).1 && SessionFits(c) ==>
      SessionFits(res.0) && res.1 != FailInvalidState
  {
    AdvanceFits(c, next);
    var (c2, event) := CheckState(c);
    if event != Okay then (c2, event)
    else
      var c3 := SetState(c2, next);
      assert c3 == c2.(state := c3.state, intParser := c3.intParser, comparison := c3.comparison);
      (c3, Okay)
  }

  /** Finalising a token and entering the state after it keeps the session
      fitting the state. */
  lemma AdvanceFits(c: Client, next: ClientState)
    requires Valid(c)
    ensures (IsTerminated(c.state) && next == Transition(c.state).1 && SessionFits(c)
             && CheckState(c).1 == Okay) ==> SessionFits(SetState(CheckState(c).0, next))
  {
    var (c2, event) := CheckState(c);
    if event == Okay && c.state == HeaderName && SessionFits(c) {
      assert c2.header.Some? && c2.comparison == c.comparison;
    }
  }

  /** `readTerminated(buf, n)`: scan one token up to the state's delimiter,
      feed it to the classifier, and when the delimiter was seen finalise
      the token and advance on success. */
  function ReadTerminated(c: Client, n: nat): (st: Step)
    requires Valid(c) && IsTerminated(c.state) && n >= 1
    ensures Valid(st.client)
    ensures st.reply.current == Some(c.state)
    ensures Consistent(c) ==> Consistent(st.client) && st.reply.status != FailInvalidState
  {
    var t := Transition(c.state);
    Finish(c, ScanToken(c.buffer, t.0, n), t.1)
  }

  /** `readBody(buf, n)`: refuse chunked bodies; otherwise copy at most
      min(n, remaining content length) contiguous bytes, count them off the
      remaining length, and finish the request when it reaches 0. A chunked
      refusal leaves `*n_buf` as the caller set it. */
  function ReadBody(c: Client, n: nat): (st: Step)
    requires Valid(c) && c.state == Body
    ensures Valid(st.client)
    ensures c.chunked ==> st == Step(c, Reply(FailUnsupported, n, [], Some(Body)))
    ensures !c.chunked ==>
      var w := st.reply.written;
      var cl' := st.client.contentLength;
      && st.reply.count == |w| && |w| <= Min(n, c.contentLength)
      && |w| == Min(Min(n, c.contentLength), RingBuffer.Together(c.buffer))
      && w == RingBuffer.Contents(c.buffer)[..|w|]
      && cl' == c.contentLength - |w|
      && (st.reply.status == Okay <==> cl' == 0)
      && st.reply.status in {Okay, Incomplete}
      && st.client.state == (if cl' == 0 then Done else Body)
      && RingBuffer.Contents(st.client.buffer) ==
           if |w| == 0 && RingBuffer.IsFull(c.buffer) && c.buffer.start == c.buffer.end then []
           else RingBuffer.Contents(c.buffer)[|w|..]
  {
    if c.chunked then Step(c, Reply(FailUnsupported, n, [], Some(Body)))
    else
      var (b1, data) := RingBuffer.ReadBlock(c.buffer, Min(n, c.contentLength));
      var left := c.contentLength - |data|;
      var c1 := c.(buffer := b1, contentLength := left);
      if left == 0 then Step(SetState(c1, Done), Reply(Okay, |data|, data, Some(Body)))
      else Step(c1, Reply(Incomplete, |data|, data, Some(Body)))
  }

  /** The BEFORE_HEADER look-ahead of `read`: decide whether the header
      block has ended without consuming a byte that might still be the
      start of a CR LF pair. The flag says whether `read` goes on to read a
      token; when it is false the call ends INCOMPLETE. */
  function BeforeHeaderStep(c: Client): (res: (bool, Client))
    requires Valid(c) && c.state == BeforeHeader
    ensures Valid(res.1)
    ensures res.0 ==> res.1.state in {Body, HeaderName}
    ensures !res.0 ==> res.1.state == BeforeHeader
    ensures
      var b := RingBuffer.Contents(c.buffer);
      var b' := RingBuffer.Contents(res.1.buffer);
      && (|b| == 0 ==> res == (false, c))
      && (b == [CR] ==> !res.0 && res.1.state == BeforeHeader && b' == b)
      && (|b| >= 2 && b[0] == CR && b[1] == LF ==> res.0 && res.1.state == Body && b' == b[2..])
      && (|b| >= 2 && b[0] == CR && b[1] != LF ==>
            res.0 && res.1.state == HeaderName && b' == b[1..])
      && (|b| >= 1 && b[0] == LF ==> res.0 && res.1.state == Body && b' == b[1..])
      && (|b| >= 1 && b[0] != CR && b[0] != LF ==>
            res.0 && res.1.state == HeaderName && b' == b)
  {
    var p := RingBuffer.Peek(c.buffer);
    if p < 0 then (false, c)
    else if p == CR as int then
      var b1 := RingBuffer.ReadByte(c.buffer).0;
      var p2 := RingBuffer.Peek(b1);
      if p2 < 0 then (false, c.(buffer := RingBuffer.PutBack(b1, CR)))
      else if p2 == LF as int then (true, SetState(c.(buffer := RingBuffer.ReadByte(b1).0), Body))
      else (true, SetState(c.(buffer := b1), HeaderName))
    else if p == LF as int then
      (true, SetState(c.(buffer := RingBuffer.ReadByte(c.buffer).0), Body))
    else (true, SetState(c, HeaderName))
  }

  /** The look-ahead leaves BEFORE_HEADER only for BODY, which classifies
      nothing, or for HEADER_NAME with a fresh header-name session. */
  lemma LookAheadFits(c: Client)
    requires Valid(c) && c.state == BeforeHeader
    ensures SessionFits(BeforeHeaderStep(c).1)
  {
  }

  /** `read(buf, n_buf, current)`: one non-blocking step of the parser. A
      zero-length output buffer is refused. In BEFORE_HEADER the look-ahead
      runs first; then BODY reads counted bytes and every other state reads
      one delimited token. `current` reports the state after the
      look-ahead. DONE has no transition in the source, so it is excluded. */
  function Read(c: Client, n: nat): (st: Step)
    requires Valid(c) && c.state != Done
    ensures Valid(st.client)
    ensures n == 0 ==> st == Step(c, Reply(FailInvalidArg, 0, [], None))
    ensures n > 0 ==> st.reply.current.Some? && st.reply.current.value != Done
    ensures Consistent(c) ==> Consistent(st.client) && st.reply.status != FailInvalidState
  {
    if n == 0 then Step(c, Reply(FailInvalidArg, 0, [], None))
    else
      var pre := if c.state == BeforeHeader then LookAheadFits(c); BeforeHeaderStep(c) else (true, c);
      if !pre.0 then Step(pre.1, Reply(Incomplete, 0, [], Some(BeforeHeader)))
      else Dispatch(pre.1, n)
  }

  /** The part of `read` after the look-ahead: BODY reads counted bytes,
      every other state reads one delimited token. */
  function Dispatch(c: Client, n: nat): (st: Step)
    requires Valid(c) && c.state != BeforeHeader && c.state != Done && n >= 1
    ensures Valid(st.client)
    ensures st.reply.current == Some(c.state)
    ensures Consistent(c) ==> Consistent(st.client) && st.reply.status != FailInvalidState
  {
    if c.state == Body then ReadBody(c, n) else ReadTerminated(c, n)
  }
}
