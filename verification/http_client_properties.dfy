/**
  Properties of the request parser: what a token scan removes from the
  buffer and reports, how the header look-ahead resolves line endings, how
  Content-Length and Transfer-Encoding values are judged, the invariant
  every call keeps, and two behaviours of the code as written that lose
  progress or data.
 */
module HttpClientProperties {
  import opened Bytes
  import RingBuffer
  import IntParsing
  import SC = StringComparator
  import opened HttpClient

  // ---------------------------------------------------------------------
  // Token scanning
  // ---------------------------------------------------------------------

  /** Every scan copies a front slice of the buffered bytes, within the
      requested length and the contiguous span, and the token it reports is
      a prefix of those bytes that never contains the delimiter. */
  lemma ScanReportsFront(b: RingBuffer.Ring, term: uint8, n: nat)
    requires RingBuffer.Valid(b) && |b.cells| >= 2 && n >= 1 && term in {SP, LF, COLON}
    ensures
      var sc := ScanToken(b, term, n);
      var k := |sc.written|;
      && k <= Min(n, RingBuffer.Together(b))
      && sc.written == RingBuffer.Contents(b)[..k]
      && |sc.token| <= k && sc.token == sc.written[..|sc.token|]
      && term !in sc.token
  {
  }

  /** When the delimiter lies within reach, the copied bytes end at its
      first occurrence and the buffer keeps what follows, except that one
      space after a ':' is skipped and a ':' with nothing after it is put
      back. A space or LF delimiter always completes the token; a ':' does
      when another byte is already buffered. */
  lemma ScanDelimited(b: RingBuffer.Ring, term: uint8, n: nat)
    requires RingBuffer.Valid(b) && |b.cells| >= 2 && n >= 1 && term in {SP, LF, COLON}
    requires term in RingBuffer.Contents(b)[..Min(n, RingBuffer.Together(b))]
    ensures
      var sc := ScanToken(b, term, n);
      var bs := RingBuffer.Contents(b);
      var k := |sc.written|;
      && 0 < k && sc.written[k - 1] == term && term !in sc.written[..k - 1]
      && (term == SP ==>
            && sc.transition && |sc.token| == k - 1
            && RingBuffer.Contents(sc.buffer) == bs[k..])
      && (term == LF ==>
            && sc.transition
            && |sc.token| == (if k >= 2 && sc.written[k - 2] == CR then k - 2 else k - 1)
            && RingBuffer.Contents(sc.buffer) == bs[k..])
      && (term == COLON ==>
            && |sc.token| == k - 1
            && (sc.transition <==> |bs| > k)
            && RingBuffer.Contents(sc.buffer) ==
                 if |bs| == k then [COLON]
                 else if bs[k] == SP then bs[k + 1..]
                 else bs[k..])
  {
    var bs := RingBuffer.Contents(b);
    var (b1, data) := RingBuffer.ReadUntil(b, term, n);
    var k := |data|;
    assert ScanToken(b, term, n).written == data;
    assert 0 < k && data[k - 1] == term;
    assert RingBuffer.Contents(b1) == bs[k..];
    if term == COLON {
      ColonLookAhead(b1, bs, k);
    }
  }

  /** The look-ahead after a ':' on what the buffer keeps. */
  lemma ColonLookAhead(b1: RingBuffer.Ring, bs: seq<uint8>, k: nat)
    requires RingBuffer.Valid(b1) && |b1.cells| >= 2 && k <= |bs| && 0 < k
    requires RingBuffer.Contents(b1) == bs[k..]
    requires !RingBuffer.IsFull(b1) && !RingBuffer.PutBackLoses(b1)
    ensures RingBuffer.Peek(b1) < 0 <==> |bs| == k
    ensures RingBuffer.Peek(b1) < 0 ==> RingBuffer.Contents(RingBuffer.PutBack(b1, COLON)) == [COLON]
    ensures RingBuffer.Peek(b1) >= 0 ==> RingBuffer.Peek(b1) == bs[k] as int
    ensures RingBuffer.Peek(b1) == SP as int ==>
      RingBuffer.Contents(RingBuffer.ReadByte(b1).0) == bs[k + 1..]
  {
    if |bs| > k {
      assert RingBuffer.Contents(b1)[0] == bs[k];
      assert RingBuffer.Contents(b1)[1..] == bs[k + 1..];
    }
  }

  /** When no delimiter lies within reach, the whole reachable span is
      copied and the token stays open. A trailing CR before a LF delimiter
      is left out of the token and put back in front of the rest. */
  lemma ScanUndelimited(b: RingBuffer.Ring, term: uint8, n: nat)
    requires RingBuffer.Valid(b) && |b.cells| >= 2 && n >= 1 && term in {SP, LF, COLON}
    requires term !in RingBuffer.Contents(b)[..Min(n, RingBuffer.Together(b))]
    ensures
      var sc := ScanToken(b, term, n);
      var bs := RingBuffer.Contents(b);
      var k := |sc.written|;
      && k == Min(n, RingBuffer.Together(b)) && !sc.transition
      && if term == LF && k > 0 && sc.written[k - 1] == CR
         then |sc.token| == k - 1 && RingBuffer.Contents(sc.buffer) == [CR] + bs[k..]
         else sc.token == sc.written && RingBuffer.Contents(sc.buffer) == bs[k..]
  {
    var bs := RingBuffer.Contents(b);
    var (b1, data) := RingBuffer.ReadUntil(b, term, n);
    var k := |data|;
    var sc := ScanToken(b, term, n);
    if k == 0 {
      RingBuffer.Fullness(b);
      assert sc == Scan(b1, [], data, false);
      assert RingBuffer.Contents(b1) == bs[k..];
    } else {
      assert data[k - 1] != term by {
        assert data == bs[..Min(n, RingBuffer.Together(b))];
      }
      assert RingBuffer.Contents(b1) == bs[k..];
      if term == LF && data[k - 1] == CR {
        assert sc == Scan(RingBuffer.PutBack(b1, CR), data[..k - 1], data, false);
        assert !RingBuffer.IsFull(b1) && !RingBuffer.PutBackLoses(b1);
      } else {
        assert sc == Scan(b1, data, data, false);
      }
    }
  }

  // ---------------------------------------------------------------------
  // The vocabularies
  // ---------------------------------------------------------------------

  /** The three vocabularies hold NUL-free candidates, none a prefix of
      another, so the first-alive shortcut of `hasMatch` never hides an
      exact match in them. */
  lemma VocabulariesPrefixFree()
    ensures |VersionComparator.strings| == 2 && |HeaderComparator.strings| == 2
    ensures |TransferEncodingComparator.strings| == 1
    ensures SC.ValidVocab(VersionComparator.strings) && SC.PrefixFree(VersionComparator.strings)
    ensures SC.ValidVocab(HeaderComparator.strings) && SC.PrefixFree(HeaderComparator.strings)
    ensures SC.ValidVocab(TransferEncodingComparator.strings)
    ensures SC.PrefixFree(TransferEncodingComparator.strings)
  {
    var v := VersionComparator.strings;
    assert v[0][7] != v[1][7];
    var h := HeaderComparator.strings;
    assert h[0][0] != h[1][0];
  }

  // ---------------------------------------------------------------------
  // Classifying tokens
  // ---------------------------------------------------------------------

  /** The version a request line names, as RFC 7230 section 2.6 spells it. */
  function RecognisedVersion(word: seq<uint8>): HttpVersion
  {
    if word == HTTP_1_0 then Http10
    else if word == HTTP_1_1 then Http11
    else UnknownVersion
  }

  /** The header a field name names; the parser compares names exactly, so
      a different letter case is an unknown header. */
  function RecognisedHeader(word: seq<uint8>): HttpHeader
  {
    if word == TRANSFER_ENCODING then TransferEncoding
    else if word == CONTENT_LENGTH then ContentLength
    else UnknownHeader
  }

  /** A read in a delimited state is a scan of the buffer followed by
      classification of the scanned token. */
  lemma ReadIsScanThenFinish(c: Client, n: nat)
    requires Valid(c) && IsTerminated(c.state) && n >= 1
    ensures Read(c, n) == Finish(c, ScanToken(c.buffer, Transition(c.state).0, n), Transition(c.state).1)
  {
  }

  /** Finalising a complete version token records the version it names. */
  lemma CheckVersion(c: Client, word: seq<uint8>)
    requires c.state == Version
    requires c.comparison == SC.Feed(SC.Create(VersionComparator), word)
    ensures CheckState(c) == (c.(version := Some(RecognisedVersion(word))), Okay)
  {
    VocabulariesPrefixFree();
    SC.MatchIffCandidate(VersionComparator, word);
    var m := SC.HasMatch(c.comparison);
    assert HTTP_1_0[7] != HTTP_1_1[7];
    if word == HTTP_1_0 {
      assert m == SC.MatchResult(true, Some(0));
    } else if word == HTTP_1_1 {
      assert m == SC.MatchResult(true, Some(1));
    } else {
      assert !m.matched;
    }
  }

  /** Classification of one version token piece, whatever the buffer. */
  lemma FinishVersion(c: Client, prior: seq<uint8>, sc: Scan)
    requires Valid(c) && c.state == Version
    requires RingBuffer.Valid(sc.buffer) && |sc.buffer.cells| >= 2
    requires c.comparison == SC.Feed(SC.Create(VersionComparator), prior)
    ensures
      var st := Finish(c, sc, BeforeHeader);
      var word := prior + sc.token;
      && st.reply.status == (if sc.transition then Okay else Incomplete)
      && (!sc.transition ==>
            && st.client.state == Version
            && st.client.comparison == SC.Feed(SC.Create(VersionComparator), word))
      && (sc.transition ==>
            st.client.state == BeforeHeader && st.client.version == Some(RecognisedVersion(word)))
  {
    var word := prior + sc.token;
    SC.FeedAppend(SC.Create(VersionComparator), prior, sc.token);
    if sc.token == [] {
      assert word == prior;
    }
    var c1 := ProcessState(c.(buffer := sc.buffer), sc.token);
    assert c1.comparison == SC.Feed(SC.Create(VersionComparator), word);
    CheckVersion(c1, word);
  }

  /** A version token may arrive over several reads: while the LF is
      missing the session has absorbed every byte so far, and once it
      arrives the version recorded is the one the whole token names. An
      unknown version is not an error. */
  lemma VersionClassified(c: Client, prior: seq<uint8>, n: nat)
    requires Valid(c) && c.state == Version && n >= 1
    requires c.comparison == SC.Feed(SC.Create(VersionComparator), prior)
    ensures Read(c, n).reply.count <= |Read(c, n).reply.written|
    ensures
      var st := Read(c, n);
      var word := prior + st.reply.written[..st.reply.count];
      && st.reply.status in {Okay, Incomplete}
      && (st.reply.status == Incomplete ==>
            && st.client.state == Version
            && st.client.comparison == SC.Feed(SC.Create(VersionComparator), word))
      && (st.reply.status == Okay ==>
            st.client.state == BeforeHeader && st.client.version == Some(RecognisedVersion(word)))
  {
    var sc := ScanToken(c.buffer, LF, n);
    ScanReportsFront(c.buffer, LF, n);
    ReadIsScanThenFinish(c, n);
    FinishVersion(c, prior, sc);
    var st := Read(c, n);
    assert st == Finish(c, sc, BeforeHeader);
    assert st.reply.written[..st.reply.count] == sc.token;
  }

  /** Finalising a complete header name records the header it names. */
  lemma CheckHeaderName(c: Client, word: seq<uint8>)
    requires c.state == HeaderName
    requires c.comparison == SC.Feed(SC.Create(HeaderComparator), word)
    ensures CheckState(c) == (c.(header := Some(RecognisedHeader(word))), Okay)
  {
    VocabulariesPrefixFree();
    SC.MatchIffCandidate(HeaderComparator, word);
    var m := SC.HasMatch(c.comparison);
    assert |TRANSFER_ENCODING| != |CONTENT_LENGTH|;
    if word == TRANSFER_ENCODING {
      assert m == SC.MatchResult(true, Some(0));
    } else if word == CONTENT_LENGTH {
      assert m == SC.MatchResult(true, Some(1));
    } else {
      assert !m.matched;
    }
  }

  /** Classification of one header-name piece. */
  lemma FinishHeaderName(c: Client, prior: seq<uint8>, sc: Scan)
    requires Valid(c) && c.state == HeaderName
    requires RingBuffer.Valid(sc.buffer) && |sc.buffer.cells| >= 2
    requires c.comparison == SC.Feed(SC.Create(HeaderComparator), prior)
    ensures
      var st := Finish(c, sc, HeaderValue);
      var word := prior + sc.token;
      && st.reply.status == (if sc.transition then Okay else Incomplete)
      && (!sc.transition ==>
            && st.client.state == HeaderName
            && st.client.comparison == SC.Feed(SC.Create(HeaderComparator), word))
      && (sc.transition ==>
            && st.client.state == HeaderValue
            && st.client.header == Some(RecognisedHeader(word))
            && st.client.intParser == IntParsing.Fresh()
            && st.client.comparison ==
                 if RecognisedHeader(word) == TransferEncoding
                 then SC.Create(TransferEncodingComparator)
                 else SC.Feed(SC.Create(HeaderComparator), word))
  {
    var word := prior + sc.token;
    SC.FeedAppend(SC.Create(HeaderComparator), prior, sc.token);
    if sc.token == [] {
      assert word == prior;
    }
    var c1 := ProcessState(c.(buffer := sc.buffer), sc.token);
    assert c1.comparison == SC.Feed(SC.Create(HeaderComparator), word);
    CheckHeaderName(c1, word);
  }

  /** A header name may arrive over several reads; once its ':' and the
      byte after it are buffered, the header recorded is the one the whole
      name names, the value state begins with a fresh integer parser, and a
      Transfer-Encoding value gets the transfer-coding vocabulary. An
      unknown header name is not an error. */
  lemma HeaderNameClassified(c: Client, prior: seq<uint8>, n: nat)
    requires Valid(c) && c.state == HeaderName && n >= 1
    requires c.comparison == SC.Feed(SC.Create(HeaderComparator), prior)
    ensures Read(c, n).reply.count <= |Read(c, n).reply.written|
    ensures
      var st := Read(c, n);
      var word := prior + st.reply.written[..st.reply.count];
      && st.reply.status in {Okay, Incomplete}
      && (st.reply.status == Incomplete ==>
            && st.client.state == HeaderName
            && st.client.comparison == SC.Feed(SC.Create(HeaderComparator), word))
      && (st.reply.status == Okay ==>
            && st.client.state == HeaderValue
            && st.client.header == Some(RecognisedHeader(word))
            && st.client.intParser == IntParsing.Fresh()
            && (RecognisedHeader(word) == TransferEncoding ==>
                  st.client.comparison == SC.Create(TransferEncodingComparator)))
  {
    var sc := ScanToken(c.buffer, COLON, n);
    ScanReportsFront(c.buffer, COLON, n);
    ReadIsScanThenFinish(c, n);
    FinishHeaderName(c, prior, sc);
    var st := Read(c, n);
    assert st == Finish(c, sc, HeaderValue);
    assert st.reply.written[..st.reply.count] == sc.token;
  }

  /** Finalising a complete Transfer-Encoding value accepts exactly
      "chunked". */
  lemma CheckTransferCoding(c: Client, word: seq<uint8>)
    requires c.state == HeaderValue && c.header == Some(TransferEncoding)
    requires c.comparison == SC.Feed(SC.Create(TransferEncodingComparator), word)
    ensures CheckState(c) == if word == CHUNKED then (c.(chunked := true), Okay)
                             else (c, FailUnsupported)
  {
    VocabulariesPrefixFree();
    SC.MatchIffCandidate(TransferEncodingComparator, word);
  }

  /** Judging one Transfer-Encoding value piece. */
  lemma FinishTransferCoding(c: Client, prior: seq<uint8>, sc: Scan)
    requires Valid(c) && c.state == HeaderValue && c.header == Some(TransferEncoding)
    requires RingBuffer.Valid(sc.buffer) && |sc.buffer.cells| >= 2
    requires c.comparison == SC.Feed(SC.Create(TransferEncodingComparator), prior)
    ensures
      var st := Finish(c, sc, BeforeHeader);
      var word := prior + sc.token;
      && (!sc.transition ==>
            && st.reply.status == Incomplete && st.client.state == HeaderValue
            && st.client.comparison == SC.Feed(SC.Create(TransferEncodingComparator), word))
      && (sc.transition ==>
            && (st.reply.status == Okay <==> word == CHUNKED)
            && (st.reply.status == Okay ==> st.client.state == BeforeHeader && st.client.chunked)
            && (st.reply.status != Okay ==>
                  st.reply.status == FailUnsupported && st.client.state == HeaderValue))
  {
    var word := prior + sc.token;
    SC.FeedAppend(SC.Create(TransferEncodingComparator), prior, sc.token);
    if sc.token == [] {
      assert word == prior;
    }
    var c1 := ProcessState(c.(buffer := sc.buffer), sc.token);
    assert c1.comparison == SC.Feed(SC.Create(TransferEncodingComparator), word);
    CheckTransferCoding(c1, word);
  }

  /** A Transfer-Encoding value is accepted only when it is exactly
      "chunked", which marks the body chunked; any other coding is
      unsupported and the state does not advance (RFC 7230 section 3.3.1
      lets a server answer an unknown coding with 501). */
  lemma TransferCodingJudged(c: Client, prior: seq<uint8>, n: nat)
    requires Valid(c) && c.state == HeaderValue && c.header == Some(TransferEncoding) && n >= 1
    requires c.comparison == SC.Feed(SC.Create(TransferEncodingComparator), prior)
    ensures Read(c, n).reply.count <= |Read(c, n).reply.written|
    ensures
      var st := Read(c, n);
      var word := prior + st.reply.written[..st.reply.count];
      && st.reply.status in {Okay, Incomplete, FailUnsupported}
      && (st.reply.status == Incomplete ==>
            && st.client.state == HeaderValue
            && st.client.comparison == SC.Feed(SC.Create(TransferEncodingComparator), word))
      && (st.reply.status == Okay ==>
            word == CHUNKED && st.client.state == BeforeHeader && st.client.chunked)
      && (st.reply.status == FailUnsupported ==>
            word != CHUNKED && st.client.state == HeaderValue)
  {
    var sc := ScanToken(c.buffer, LF, n);
    ScanReportsFront(c.buffer, LF, n);
    ReadIsScanThenFinish(c, n);
    FinishTransferCoding(c, prior, sc);
    var st := Read(c, n);
    assert st == Finish(c, sc, BeforeHeader);
    assert st.reply.written[..st.reply.count] == sc.token;
  }

  /** Judging one Content-Length value piece. */
  lemma FinishContentLength(c: Client, prior: seq<uint8>, sc: Scan)
    requires Valid(c) && c.state == HeaderValue && c.header == Some(ContentLength)
    requires RingBuffer.Valid(sc.buffer) && |sc.buffer.cells| >= 2
    requires c.intParser == IntParsing.Feed(IntParsing.Fresh(), prior)
    ensures
      var st := Finish(c, sc, BeforeHeader);
      var word := prior + sc.token;
      && (!sc.transition ==>
            && st.reply.status == Incomplete && st.client.state == HeaderValue
            && st.client.intParser == IntParsing.Feed(IntParsing.Fresh(), word))
      && (sc.transition ==>
            && (st.reply.status == Okay <==>
                  IntParsing.AllDigits(word) && IntParsing.DecimalValue(word) < TWO_64)
            && (st.reply.status == Okay ==>
                  && st.client.state == BeforeHeader
                  && st.client.contentLength == IntParsing.DecimalValue(word))
            && (IntParsing.AllDigits(word) && IntParsing.DecimalValue(word) >= TWO_64 ==>
                  st.reply.status == FailUnsupported)
            && (st.reply.status == FailUnsupported <==> IntParsing.Judge(word) == IntParsing.TooLarge)
            && (st.reply.status == FailBadRequest <==> IntParsing.Judge(word) == IntParsing.NotNumber)
            && (st.reply.status != Okay ==>
                  && st.reply.status in {FailUnsupported, FailBadRequest}
                  && st.client.state == HeaderValue))
  {
    var word := prior + sc.token;
    IntParsing.FeedAppend(IntParsing.Fresh(), prior, sc.token);
    if sc.token == [] {
      assert word == prior;
    }
    var c1 := ProcessState(c.(buffer := sc.buffer), sc.token);
    assert c1.intParser == IntParsing.Feed(IntParsing.Fresh(), word);
    IntParsing.ValueAfterFeed(word);
    IntParsing.FeedJudged(word);
    if IntParsing.AllDigits(word) {
      IntParsing.FeedDigits(word);
    }
    if sc.transition {
      var st := Finish(c, sc, BeforeHeader);
      assert (st.client, st.reply.status) == Conclude(c1, BeforeHeader);
      assert CheckState(c1).1 == st.reply.status;
    }
  }

  /** A Content-Length value may arrive over several reads; once its LF
      arrives the length is stored exactly when the whole value is a run of
      digits below 2^64. A value whose digits reach 2^64 before any other
      byte is unsupported, one with a non-digit before that point is a bad
      request (`IntParsing.Judge`), and on failure the state does not
      advance. */
  lemma ContentLengthJudged(c: Client, prior: seq<uint8>, n: nat)
    requires Valid(c) && c.state == HeaderValue && c.header == Some(ContentLength) && n >= 1
    requires c.intParser == IntParsing.Feed(IntParsing.Fresh(), prior)
    ensures Read(c, n).reply.count <= |Read(c, n).reply.written|
    ensures
      var st := Read(c, n);
      var word := prior + st.reply.written[..st.reply.count];
      && st.reply.status in {Okay, Incomplete, FailUnsupported, FailBadRequest}
      && (st.reply.status == Incomplete ==>
            && st.client.state == HeaderValue
            && st.client.intParser == IntParsing.Feed(IntParsing.Fresh(), word))
      && (st.reply.status == Okay ==>
            && IntParsing.AllDigits(word) && IntParsing.DecimalValue(word) < TWO_64
            && st.client.state == BeforeHeader
            && st.client.contentLength == IntParsing.DecimalValue(word))
      && (st.reply.status in {FailUnsupported, FailBadRequest} ==>
            && st.client.state == HeaderValue
            && !(IntParsing.AllDigits(word) && IntParsing.DecimalValue(word) < TWO_64))
      && (st.reply.status != Incomplete ==>
            && (st.reply.status == Okay <==> IntParsing.Judge(word).Number?)
            && (st.reply.status == FailUnsupported <==> IntParsing.Judge(word) == IntParsing.TooLarge)
            && (st.reply.status == FailBadRequest <==> IntParsing.Judge(word) == IntParsing.NotNumber))
  {
    var sc := ScanToken(c.buffer, LF, n);
    ScanReportsFront(c.buffer, LF, n);
    ReadIsScanThenFinish(c, n);
    FinishContentLength(c, prior, sc);
    var st := Read(c, n);
    assert st == Finish(c, sc, BeforeHeader);
    assert st.reply.written[..st.reply.count] == sc.token;
  }

  /** Finalising a token nothing classifies. */
  lemma FinishUnclassified(c: Client, sc: Scan)
    requires Valid(c) && RingBuffer.Valid(sc.buffer) && |sc.buffer.cells| >= 2
    requires c.state == Method || c.state == Path
             || (c.state == HeaderValue && c.header == Some(UnknownHeader))
    ensures
      var st := Finish(c, sc, Transition(c.state).1);
      && st.reply.status == (if sc.transition then Okay else Incomplete)
      && st.client.state == (if sc.transition then Transition(c.state).1 else c.state)
      && st.client.version == c.version && st.client.header == c.header
      && st.client.chunked == c.chunked && st.client.contentLength == c.contentLength
  {
  }

  /** Method and path tokens, and the values of headers the parser does not
      know, are never judged: the read either waits for more bytes or
      advances to the next state, and no recorded field changes. */
  lemma UnclassifiedTokenAdvances(c: Client, n: nat)
    requires Valid(c) && n >= 1
    requires c.state == Method || c.state == Path
             || (c.state == HeaderValue && c.header == Some(UnknownHeader))
    ensures
      var st := Read(c, n);
      && st.reply.status in {Okay, Incomplete}
      && st.client.state == (if st.reply.status == Okay then Transition(c.state).1 else c.state)
      && st.client.version == c.version && st.client.header == c.header
      && st.client.chunked == c.chunked && st.client.contentLength == c.contentLength
  {
    var sc := ScanToken(c.buffer, Transition(c.state).0, n);
    ReadIsScanThenFinish(c, n);
    FinishUnclassified(c, sc);
  }

  // ---------------------------------------------------------------------
  // The header look-ahead
  // ---------------------------------------------------------------------

  /** In BEFORE_HEADER a read with nothing buffered, or with only a CR, waits
      without consuming anything; a buffered CR LF or lone LF ends the header
      block and the read continues as a body read; any other byte (a CR
      not followed by LF is dropped) starts a header name. */
  lemma LookAheadResolves(c: Client, n: nat)
    requires Valid(c) && c.state == BeforeHeader && n >= 1
    ensures
      var b := RingBuffer.Contents(c.buffer);
      var st := Read(c, n);
      && (b == [] || b == [CR] ==>
            && st.reply == Reply(Incomplete, 0, [], Some(BeforeHeader))
            && st.client.state == BeforeHeader
            && RingBuffer.Contents(st.client.buffer) == b)
      && ((|b| >= 2 && b[..2] == [CR, LF]) || (|b| >= 1 && b[0] == LF) ==>
            st.reply.current == Some(Body))
      && (|b| >= 2 && b[0] == CR && b[1] != LF ==> st.reply.current == Some(HeaderName))
      && (|b| >= 1 && b[0] != CR && b[0] != LF ==> st.reply.current == Some(HeaderName))
  {
    var b := RingBuffer.Contents(c.buffer);
    if |b| >= 2 && b[..2] == [CR, LF] {
      assert b[0] == CR && b[1] == LF;
    }
  }

  // ---------------------------------------------------------------------
  // The invariant
  // ---------------------------------------------------------------------

  /** Every client the parser can produce keeps its session fitting its
      state: a fresh client does, `connect` restores it, and each read keeps
      it. Under it the "bad index" branches of `checkState` never fire, so
      no read reports FAIL_INVALID_STATE. */
  lemma ConsistencyIsInvariant(cells: seq<uint8>, c: Client, n: nat)
    requires |cells| >= 2
    ensures Consistent(NewClient(cells))
    ensures Consistent(c) ==> Consistent(Connect(c)) && Consistent(Disconnect(c))
    ensures Consistent(c) && c.state != Done ==>
      Consistent(Read(c, n).client) && Read(c, n).reply.status != FailInvalidState
  {
  }

  // ---------------------------------------------------------------------
  // Behaviour as written that loses progress or data
  // ---------------------------------------------------------------------

  /** A buffer whose start cursor points at a CR in the last cell of the
      array, with the bytes after it wrapped to the front. */
  predicate CarriageReturnAtSeam(b: RingBuffer.Ring)
  {
    && RingBuffer.Valid(b) && |b.cells| >= 2
    && b.start == |b.cells| - 1 && b.cells[|b.cells| - 1] == CR
    && 1 <= b.end <= |b.cells| - 1
  }

  /** Such a buffer in a state whose tokens end at LF. */
  predicate StuckOnCarriageReturn(c: Client)
  {
    Valid(c) && (c.state == Version || c.state == HeaderValue) && CarriageReturnAtSeam(c.buffer)
  }

  /** At the seam the contiguous span holds only the CR: a scan for LF
      copies it, puts it back, and leaves the buffer exactly as it was. */
  lemma SeamScan(b: RingBuffer.Ring, n: nat)
    requires CarriageReturnAtSeam(b) && n >= 1
    ensures RingBuffer.Contents(b) == [CR] + b.cells[..b.end]
    ensures ScanToken(b, LF, n) == Scan(b, [], [CR], false)
  {
    var S := |b.cells|;
    assert RingBuffer.Contents(b) == b.cells[S - 1..] + b.cells[..b.end];
    assert b.cells[S - 1..] == [CR];
    assert RingBuffer.Together(b) == 1;
    var (b1, data) := RingBuffer.ReadUntil(b, LF, n);
    assert data == [CR];
    assert b1 == RingBuffer.Ring(b.cells, 0, b.end);
    assert b.cells[S - 1 := CR] == b.cells;
    assert RingBuffer.PutBack(b1, CR) == b;
  }

  /** The stuck read copies one byte, reports none, and leaves the client
      exactly as it was, although the LF may already be buffered right
      after the CR. */
  lemma StuckReadChangesNothing(c: Client, n: nat)
    requires StuckOnCarriageReturn(c) && n >= 1
    ensures RingBuffer.Contents(c.buffer) == [CR] + c.buffer.cells[..c.buffer.end]
    ensures Read(c, n) == Step(c, Reply(Incomplete, 0, [CR], Some(c.state)))
  {
    SeamScan(c.buffer, n);
    ReadIsScanThenFinish(c, n);
    assert Transition(c.state).0 == LF;
    assert ProcessState(c.(buffer := c.buffer), []) == c;
  }

  /** Receiving more bytes keeps the CR at the seam: they land between the
      end cursor and the CR, and the start cursor does not move. */
  lemma SeamSurvivesArrival(b: RingBuffer.Ring, offered: seq<uint8>)
    requires CarriageReturnAtSeam(b)
    ensures CarriageReturnAtSeam(RingBuffer.ReadFrom(b, offered).0)
  {
    var S := |b.cells|;
    var b' := RingBuffer.ReadFrom(b, offered).0;
    assert RingBuffer.Contents(b) == b.cells[S - 1..] + b.cells[..b.end];
    var contents' := RingBuffer.Contents(b');
    assert |contents'| >= 2 && contents'[0] == CR && b'.start == S - 1;
    if b'.start < b'.end {
      assert false;
    } else {
      assert contents' == b'.cells[S - 1..] + b'.cells[..b'.end];
      assert b'.end != 0;
    }
  }

  /** The seam is reachable by an ordinary split. When a scan for LF drains
      an unwrapped buffer whose last byte is a CR, the emptied buffer's
      cursors reset to (0, 0), so the CR is put back into the last cell with
      the end cursor left at 0. */
  lemma DrainParksCarriageReturn(b: RingBuffer.Ring, n: nat)
    requires RingBuffer.Valid(b) && |b.cells| >= 2 && b.start < b.end
    requires RingBuffer.Contents(b)[|RingBuffer.Contents(b)| - 1] == CR
    requires LF !in RingBuffer.Contents(b) && n >= |RingBuffer.Contents(b)|
    ensures
      var sc := ScanToken(b, LF, n);
      var s := RingBuffer.Contents(b);
      && sc.buffer == RingBuffer.Ring(b.cells[|b.cells| - 1 := CR], |b.cells| - 1, 0)
      && !sc.transition && sc.token == s[..|s| - 1] && sc.written == s
  {
    var s := RingBuffer.Contents(b);
    var (b1, data) := RingBuffer.ReadUntil(b, LF, n);
    assert |data| == |s|;
    assert data == s;
    assert b1 == RingBuffer.Ring(b.cells, 0, 0);
  }

  /** A CR parked in the last cell with the end cursor at 0 is the whole
      contents, and it is at the seam as soon as any byte arrives: the
      arrival fills the cells from the front, up to the one before the CR. */
  lemma ParkedCarriageReturnMeetsArrival(cells: seq<uint8>, offered: seq<uint8>)
    requires |cells| >= 2 && cells[|cells| - 1] == CR && |offered| >= 1
    ensures RingBuffer.Contents(RingBuffer.Ring(cells, |cells| - 1, 0)) == [CR]
    ensures CarriageReturnAtSeam(RingBuffer.ReadFrom(RingBuffer.Ring(cells, |cells| - 1, 0), offered).0)
  {
    var b := RingBuffer.Ring(cells, |cells| - 1, 0);
    assert cells[|cells| - 1..] == [CR];
    assert RingBuffer.WriteWindow(b) == (0, |cells| - 1);
  }

  /** The same for a client in a state whose tokens end at LF. */
  lemma ParkedClientMeetsArrival(c: Client, offered: seq<uint8>)
    requires Valid(c) && (c.state == Version || c.state == HeaderValue) && |offered| >= 1
    requires c.buffer == RingBuffer.Ring(c.buffer.cells, |c.buffer.cells| - 1, 0)
    requires c.buffer.cells[|c.buffer.cells| - 1] == CR
    ensures RingBuffer.Contents(c.buffer) == [CR]
    ensures StuckOnCarriageReturn(c.(buffer := RingBuffer.ReadFrom(c.buffer, offered).0))
  {
    ParkedCarriageReturnMeetsArrival(c.buffer.cells, offered);
  }

  /** The read that drains such a buffer reports INCOMPLETE, stays in its
      state, and leaves only the CR, parked in the last cell. */
  lemma DrainedReadParks(c: Client, n: nat)
    requires Valid(c) && (c.state == Version || c.state == HeaderValue)
    requires c.buffer.start < c.buffer.end
    requires RingBuffer.Contents(c.buffer)[|RingBuffer.Contents(c.buffer)| - 1] == CR
    requires LF !in RingBuffer.Contents(c.buffer) && n >= |RingBuffer.Contents(c.buffer)|
    ensures Read(c, n).reply.status == Incomplete && Read(c, n).client.state == c.state
    ensures Read(c, n).client.buffer ==
      RingBuffer.Ring(c.buffer.cells[|c.buffer.cells| - 1 := CR], |c.buffer.cells| - 1, 0)
  {
    DrainParksCarriageReturn(c.buffer, n);
    OpenScanWaits(c, n);
  }

  /** A LF scan that completes no token makes the read report INCOMPLETE,
      stay in its state, and keep the scanned buffer. */
  lemma OpenScanWaits(c: Client, n: nat)
    requires Valid(c) && (c.state == Version || c.state == HeaderValue) && n >= 1
    requires !ScanToken(c.buffer, LF, n).transition
    ensures Read(c, n).reply.status == Incomplete && Read(c, n).client.state == c.state
    ensures Read(c, n).client.buffer == ScanToken(c.buffer, LF, n).buffer
  {
    ReadIsScanThenFinish(c, n);
    assert Transition(c.state).0 == LF;
  }

  /** A CR/LF line ending split across two polls stalls the parser for
      good: the read that drains the buffer up to the CR reports INCOMPLETE
      in the same state, and the next arrival, however long, meets a client
      that is `StuckOnCarriageReturn` (and so stalls by `StuckForever`). */
  lemma SplitLineEndingSticks(c: Client, n: nat, offered: seq<uint8>)
    requires Valid(c) && (c.state == Version || c.state == HeaderValue)
    requires c.buffer.start < c.buffer.end
    requires RingBuffer.Contents(c.buffer)[|RingBuffer.Contents(c.buffer)| - 1] == CR
    requires LF !in RingBuffer.Contents(c.buffer) && n >= |RingBuffer.Contents(c.buffer)|
    requires |offered| >= 1
    ensures Read(c, n).reply.status == Incomplete && Read(c, n).client.state == c.state
    ensures RingBuffer.Contents(Read(c, n).client.buffer) == [CR]
    ensures
      var c1 := Read(c, n).client;
      StuckOnCarriageReturn(c1.(buffer := RingBuffer.ReadFrom(c1.buffer, offered).0))
  {
    DrainedReadParks(c, n);
    ParkedClientMeetsArrival(Read(c, n).client, offered);
  }

  /** The bytes "HTTP/1.1" and a CR: a version line whose LF is late. */
  const VersionLineBeforeLF: seq<uint8> := [0x48, 0x54, 0x54, 0x50, 0x2F, 0x31, 0x2E, 0x31, CR]

  /** A 16-byte buffer in VERSION receives "HTTP/1.1\r", one read drains
      it, then the LF arrives. The buffer now holds exactly the CR LF that
      would end the token, yet the client is stuck. */
  lemma VersionLineSplitAfterCarriageReturn()
    ensures
      var c0 := SetState(NewClient(seq(16, _ => 0)), Version);
      var c1 := c0.(buffer := RingBuffer.ReadFrom(c0.buffer, VersionLineBeforeLF).0);
      var st := Read(c1, 16);
      var c2 := st.client.(buffer := RingBuffer.ReadFrom(st.client.buffer, [LF]).0);
      && st.reply.status == Incomplete
      && StuckOnCarriageReturn(c2) && RingBuffer.Contents(c2.buffer) == [CR, LF]
  {
    var c0 := SetState(NewClient(seq(16, _ => 0)), Version);
    assert RingBuffer.IsEmpty(c0.buffer);
    var c1 := c0.(buffer := RingBuffer.ReadFrom(c0.buffer, VersionLineBeforeLF).0);
    assert RingBuffer.Contents(c1.buffer) == VersionLineBeforeLF && c1.buffer.start == 0;
    VersionLineDrained(c1);
  }

  lemma VersionLineDrained(c1: Client)
    requires Valid(c1) && c1.state == Version && |c1.buffer.cells| == 16
    requires RingBuffer.Contents(c1.buffer) == VersionLineBeforeLF && c1.buffer.start == 0
    ensures
      var st := Read(c1, 16);
      var c2 := st.client.(buffer := RingBuffer.ReadFrom(st.client.buffer, [LF]).0);
      && st.reply.status == Incomplete
      && StuckOnCarriageReturn(c2) && RingBuffer.Contents(c2.buffer) == [CR, LF]
  {
    assert LF !in VersionLineBeforeLF && VersionLineBeforeLF[8] == CR;
    SplitLineEndingSticks(c1, 16, [LF]);
    LineFeedJoinsCarriageReturn(Read(c1, 16).client.buffer);
  }

  /** A LF arriving at a buffer that holds only a CR lands right after it. */
  lemma LineFeedJoinsCarriageReturn(b: RingBuffer.Ring)
    requires RingBuffer.Valid(b) && |b.cells| >= 2 && RingBuffer.Contents(b) == [CR]
    ensures RingBuffer.Contents(RingBuffer.ReadFrom(b, [LF]).0) == [CR, LF]
  {
    RingBuffer.Fullness(b);
    assert [LF][..1] == [LF];
  }

  /** Receiving more bytes never unsticks the client. */
  lemma StuckSurvivesArrival(c: Client, offered: seq<uint8>)
    requires StuckOnCarriageReturn(c)
    ensures StuckOnCarriageReturn(c.(buffer := RingBuffer.ReadFrom(c.buffer, offered).0))
  {
    SeamSurvivesArrival(c.buffer, offered);
  }

  /** A connection served by alternately receiving a chunk of bytes and
      issuing one read of at most n bytes, as a polling loop would. */
  function Serve(c: Client, chunks: seq<seq<uint8>>, n: nat): seq<Reply>
    requires Valid(c) && n >= 1
    decreases |chunks|
  {
    if |chunks| == 0 || c.state == Done then []
    else
      var st := Read(c.(buffer := RingBuffer.ReadFrom(c.buffer, chunks[0]).0), n);
      [st.reply] + Serve(st.client, chunks[1..], n)
  }

  /** One round of `Serve`: receive the first chunk, then read once. */
  lemma ServeStep(c: Client, chunks: seq<seq<uint8>>, n: nat)
    requires Valid(c) && n >= 1 && |chunks| > 0 && c.state != Done
    ensures
      var st := Read(c.(buffer := RingBuffer.ReadFrom(c.buffer, chunks[0]).0), n);
      Serve(c, chunks, n) == [st.reply] + Serve(st.client, chunks[1..], n)
  {
  }

  /** k replies that each report INCOMPLETE with no bytes, the CR copied
      out and put back. */
  function Stalled(k: nat, s: ClientState): (rs: seq<Reply>)
    ensures |rs| == k
    ensures forall i :: 0 <= i < k ==> rs[i] == Reply(Incomplete, 0, [CR], Some(s))
  {
    if k == 0 then [] else [Reply(Incomplete, 0, [CR], Some(s))] + Stalled(k - 1, s)
  }

  /** Chunk-boundary independence fails: once stuck, no sequence of later
      arrivals lets the parser make progress, and every read reports
      INCOMPLETE with no bytes. */
  lemma {:induction false} StuckForever(c: Client, chunks: seq<seq<uint8>>, n: nat)
    requires StuckOnCarriageReturn(c) && n >= 1
    ensures Serve(c, chunks, n) == Stalled(|chunks|, c.state)
    decreases |chunks|
  {
    if |chunks| > 0 {
      var c1 := c.(buffer := RingBuffer.ReadFrom(c.buffer, chunks[0]).0);
      StuckRound(c, chunks, n);
      StuckForever(c1, chunks[1..], n);
      assert Stalled(|chunks|, c.state) ==
        [Reply(Incomplete, 0, [CR], Some(c.state))] + Stalled(|chunks| - 1, c.state);
    }
  }

  /** One round of serving a stuck client: it stays stuck, in the same
      state, and the round's reply is the stalled one. */
  lemma StuckRound(c: Client, chunks: seq<seq<uint8>>, n: nat)
    requires StuckOnCarriageReturn(c) && n >= 1 && |chunks| > 0
    ensures
      var c1 := c.(buffer := RingBuffer.ReadFrom(c.buffer, chunks[0]).0);
      && StuckOnCarriageReturn(c1) && c1.state == c.state
      && Serve(c, chunks, n) == [Reply(Incomplete, 0, [CR], Some(c.state))] + Serve(c1, chunks[1..], n)
  {
    var c1 := c.(buffer := RingBuffer.ReadFrom(c.buffer, chunks[0]).0);
    StuckSurvivesArrival(c, chunks[0]);
    StuckReadChangesNothing(c1, n);
    ServeStep(c, chunks, n);
  }

  /** A client in BODY always has a body left to read: a chunked one, or
      a positive remaining length. */
  predicate BodyPending(c: Client)
  {
    c.state == Body ==> c.chunked || c.contentLength > 0
  }

  /** Every client the parser can produce has a body pending when in BODY:
      the look-ahead that enters BODY hands over to `readBody` in the same
      read, which finishes the request at once when nothing is left, and a
      body read leaves BODY as its remaining length reaches 0. */
  lemma BodyAlwaysPending(cells: seq<uint8>, c: Client, n: nat)
    requires |cells| >= 2
    ensures BodyPending(NewClient(cells))
    ensures Valid(c) ==> BodyPending(Connect(c))
    ensures BodyPending(c) ==> BodyPending(Disconnect(c))
    ensures Valid(c) && c.state != Done && BodyPending(c) ==> BodyPending(Read(c, n).client)
  {
    if Valid(c) && c.state != Done && BodyPending(c) && n >= 1 {
      ReadKeepsBodyPending(c, n);
    }
  }

  lemma ReadKeepsBodyPending(c: Client, n: nat)
    requires Valid(c) && c.state != Done && BodyPending(c) && n >= 1
    ensures BodyPending(Read(c, n).client)
  {
    if c.state == BeforeHeader {
      var pre := BeforeHeaderStep(c);
      if pre.0 {
        assert Read(c, n) == Dispatch(pre.1, n);
        DispatchKeepsBodyPending(pre.1, n);
      }
    } else {
      assert Read(c, n) == Dispatch(c, n);
      DispatchKeepsBodyPending(c, n);
    }
  }

  /** A body read leaves BODY exactly when its remaining length reaches 0,
      and a token read never enters BODY. */
  lemma DispatchKeepsBodyPending(c: Client, n: nat)
    requires Valid(c) && c.state != BeforeHeader && c.state != Done && n >= 1
    ensures BodyPending(Dispatch(c, n).client)
  {
    if c.state != Body {
      assert Transition(c.state).1 != Body;
    }
  }

  /** What a request with no Content-Length and no Transfer-Encoding does
      as written: the read that sees the blank line ending the header block
      reports OKAY with no body bytes, reaches DONE, and keeps whatever
      follows the blank line in the buffer. */
  lemma EmptyBodyKeepsPipelinedBytes(c: Client, n: nat)
    requires Valid(c) && c.state == BeforeHeader && !c.chunked && c.contentLength == 0 && n >= 1
    requires
      var b := RingBuffer.Contents(c.buffer);
      (|b| >= 1 && b[0] == LF) || (|b| >= 2 && b[0] == CR && b[1] == LF)
    ensures Read(c, n).reply == Reply(Okay, 0, [], Some(Body))
    ensures Read(c, n).client.state == Done
    ensures
      var b := RingBuffer.Contents(c.buffer);
      RingBuffer.Contents(Read(c, n).client.buffer) == if b[0] == LF then b[1..] else b[2..]
  {
    var pre := BeforeHeaderStep(c);
    RingBuffer.Fullness(c.buffer);
    RingBuffer.Fullness(pre.1.buffer);
    assert !RingBuffer.IsFull(pre.1.buffer);
    assert Read(c, n) == ReadBody(pre.1, n);
  }

  /** Latent in `readBody` and `advanceStart`: a body read with nothing left
      to read on a full buffer with equal non-zero cursors asks the buffer
      for zero bytes, and that zero-length advance empties it while the
      read reports OKAY. `BodyAlwaysPending` shows that no client reachable
      from `NewClient` meets this precondition, so the parser as a whole
      never loses bytes this way; the property is about the two functions
      on their own. */
  lemma EmptyBodyDiscardsBufferedBytes(c: Client, n: nat)
    requires Valid(c) && c.state == Body && !c.chunked && c.contentLength == 0
    requires RingBuffer.IsFull(c.buffer) && c.buffer.start == c.buffer.end
    ensures |RingBuffer.Contents(c.buffer)| == |c.buffer.cells|
    ensures Read(c, n) == Step(Read(c, n).client, Reply(if n == 0 then FailInvalidArg else Okay, 0, [],
                                                        if n == 0 then None else Some(Body)))
    ensures n > 0 ==> Read(c, n).client.state == Done
    ensures n > 0 ==> RingBuffer.Contents(Read(c, n).client.buffer) == []
  {
    RingBuffer.Fullness(c.buffer);
  }
}
