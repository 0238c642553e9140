/** What becomes of every response that is written, told from its method, status and headers. */
module Http1Outcomes {

  import opened Bytes
  import opened Http1
  import opened Http1Chunks
  import opened Http1Framing
  import opened Http1Heads
  import opened Http1Refusals

  /** A head as a server may write it, within the size of a head. */
  predicate Written(status: int, reason: seq<Byte>, headers: seq<Header>) {
    && 100 <= status <= 599 && Clean(reason) && AllValid(headers)
    && |WriteHead(status, reason, headers)| + 4 <= MAX_HEADER_BYTES
  }

  function Message(status: int, reason: seq<Byte>, headers: seq<Header>, rest: seq<Byte>): seq<Byte>
    requires 100 <= status <= 599
  {
    WriteHead(status, reason, headers) + HEAD_END + rest
  }

  // ---------------------------------------------------------------- heads

  lemma WrittenIsTaken(config: Config, status: int, reason: seq<Byte>, headers: seq<Header>, rest: seq<Byte>)
    requires Written(status, reason, headers)
    ensures TakeHead(config, INITIAL.Append(Message(status, reason, headers, rest)))
         == ApplyHead(config, INITIAL.Append(rest), ReadHead(WriteHead(status, reason, headers)))
  {
    hide ReadHead, ApplyHead, Find, OccursAt, JoinLines, ValidHeader, StatusLine, Clean;
    var head := WriteHead(status, reason, headers);
    CleanStatusLine(status, reason);
    HeadEnds(StatusLine(status, reason), headers, rest);
    var st := INITIAL.Append(Message(status, reason, headers, rest));
    assert st.buffer == head + HEAD_END + rest;
    assert st.buffer[..|head|] == head && st.buffer[|head| + 4..] == rest && [] + rest == rest;
  }

  /** A head of more than 16384 bytes, its blank line included, is too large. */
  lemma OversizedHead(config: Config, status: int, reason: seq<Byte>, headers: seq<Header>, rest: seq<Byte>,
                      isComplete: bool)
    requires 100 <= status <= 599 && Clean(reason) && AllValid(headers)
    requires |WriteHead(status, reason, headers)| + 4 > 16384
    ensures Consume(config, INITIAL, Message(status, reason, headers, rest), isComplete).0 == Error(ResponseTooLarge)
  {
    hide ReadHead, ApplyHead, Find, OccursAt, JoinLines, ValidHeader, StatusLine, Clean;
    CleanStatusLine(status, reason);
    HeadEnds(StatusLine(status, reason), headers, rest);
    var st := INITIAL.Append(Message(status, reason, headers, rest));
    assert st.buffer == WriteHead(status, reason, headers) + HEAD_END + rest;
  }

  lemma RedirectLine(status: int, reason: seq<Byte>)
    requires 300 <= status <= 399
    ensures ReadStatusLine(StatusLine(status, reason)) == Err(RedirectDenied)
  {
    var line := StatusLine(status, reason);
    var version, code, tail := Ascii("HTTP/1.1"), Digits3(status), [SP] + reason;
    Digits3Value(status);
    assert line == version + ([SP] + code + tail);
    assert forall i | 0 <= i < |version| :: version[i] != SP;
    NextTokenIs(version, [SP] + code + tail);
    NextTokenIs(code, tail);
  }

  /** Every redirection is refused, 304 included, whatever its headers and whatever was asked. */
  lemma RedirectIsRefused(config: Config, status: int, reason: seq<Byte>, headers: seq<Header>, rest: seq<Byte>,
                          isComplete: bool)
    requires Written(status, reason, headers) && 300 <= status <= 399
    ensures Consume(config, INITIAL, Message(status, reason, headers, rest), isComplete).0 == Error(RedirectDenied)
  {
    hide TakeHead, TakeBody, Message, JoinLines, ValidHeader, StatusLine, Clean, ReadStatusLine, SplitLines,
      ValidHeadBytes;
    var first := StatusLine(status, reason);
    CleanStatusLine(status, reason);
    LinesRoundTrip(first, headers);
    RedirectLine(status, reason);
    WrittenIsTaken(config, status, reason, headers, rest);
  }

  /** More than 64 headers are too much. */
  lemma TooManyHeaders(config: Config, status: int, reason: seq<Byte>, headers: seq<Header>, rest: seq<Byte>,
                       isComplete: bool)
    requires Written(status, reason, headers) && !(300 <= status <= 399) && |headers| > 64
    ensures Consume(config, INITIAL, Message(status, reason, headers, rest), isComplete).0 == Error(ResponseTooLarge)
  {
    hide TakeHead, TakeBody, Message, JoinLines, ValidHeader, StatusLine, Clean, ReadStatusLine, SplitLines,
      ValidHeadBytes, HeaderLines;
    var first := StatusLine(status, reason);
    CleanStatusLine(status, reason);
    LinesRoundTrip(first, headers);
    StatusLineRoundTrip(status, reason);
    HeaderLinesCount(headers);
    assert ([first] + HeaderLines(headers))[1..] == HeaderLines(headers);
    WrittenIsTaken(config, status, reason, headers, rest);
  }

  lemma {:induction false} HeaderLinesCount(headers: seq<Header>)
    ensures |HeaderLines(headers)| == |headers|
    decreases |headers|
  {
    if headers != [] { HeaderLinesCount(headers[..|headers| - 1]); }
  }

  /** Interim responses leave no trace: what follows is read as if they had not come. */
  lemma InterimIsSkipped(config: Config, status: int, reason: seq<Byte>, headers: seq<Header>, rest: seq<Byte>,
                         isComplete: bool)
    requires Written(status, reason, headers) && |headers| <= 64 && 100 <= status <= 199 && status != 101
    ensures Consume(config, INITIAL, Message(status, reason, headers, rest), isComplete)
         == Consume(config, INITIAL, rest, isComplete)
  {
    hide TakeHead, TakeBody, ReadHead, Message, WriteHead, AllValid, Clean;
    HeadRoundTrip(status, reason, headers);
    WrittenIsTaken(config, status, reason, headers, rest);
  }

  /** Switching protocols is refused. */
  lemma SwitchIsRefused(config: Config, reason: seq<Byte>, headers: seq<Header>, rest: seq<Byte>, isComplete: bool)
    requires Written(101, reason, headers) && |headers| <= 64
    ensures Consume(config, INITIAL, Message(101, reason, headers, rest), isComplete).0 == Error(InvalidResponse)
  {
    hide TakeHead, TakeBody, ReadHead, Message, WriteHead, AllValid, Clean;
    HeadRoundTrip(101, reason, headers);
    WrittenIsTaken(config, 101, reason, headers, rest);
  }

  // ---------------------------------------------------------------- bodies

  /** A final head that is written and not refused for itself. */
  predicate Final(status: int, reason: seq<Byte>, headers: seq<Header>) {
    Written(status, reason, headers) && |headers| <= 64 && 200 <= status && !(300 <= status <= 399)
  }

  lemma FinalIsFramed(config: Config, status: int, reason: seq<Byte>, headers: seq<Header>, body: seq<Byte>,
                      isComplete: bool)
    requires Final(status, reason, headers)
    ensures Consume(config, INITIAL, Message(status, reason, headers, body), isComplete).0
         == match FramingOf(config, status, headers)
            case Err(e) => Error(e)
            case Ok(framing) =>
              Settle(TakeBody(config, State(body, Some(status), headers, Some(framing), [])).0, isComplete)
  {
    hide TakeHead, TakeBody, ReadHead, Message, WriteHead, AllValid, Clean, FramingOf;
    HeadRoundTrip(status, reason, headers);
    WrittenIsTaken(config, status, reason, headers, body);
    assert INITIAL.Append(body).buffer == body;
  }

  /** Answers to HEAD and 204 have no body, whatever their headers announce; bytes after the head are refused. */
  lemma BodilessOutcome(config: Config, status: int, reason: seq<Byte>, headers: seq<Header>, body: seq<Byte>,
                        isComplete: bool)
    requires Final(status, reason, headers) && (config.requestMethod == "HEAD" || status == 204)
    ensures Consume(config, INITIAL, Message(status, reason, headers, body), isComplete).0
         == if body == [] then Response(Parsed(status, headers, [])) else Error(InvalidResponse)
  {
    hide Consume, Message, FramingOf, Final;
    FinalIsFramed(config, status, reason, headers, body, isComplete);
    FramingIsAnnounced(config, status, headers);
    assert Frames(config, status, headers, Empty);
  }

  /** A body of announced length within the limit is returned once it is there, and more than it is refused. */
  lemma LengthOutcome(
    config: Config, status: int, reason: seq<Byte>, headers: seq<Header>, length: nat, body: seq<Byte>,
    isComplete: bool)
    requires Final(status, reason, headers) && config.requestMethod != "HEAD" && status != 204
    requires AnnouncesLength(headers, length)
    ensures Consume(config, INITIAL, Message(status, reason, headers, body), isComplete).0
         == if length > config.maximumBodyBytes then Error(ResponseTooLarge)
            else if |body| == length then Response(Parsed(status, headers, body))
            else if |body| < length && !isComplete then Pending
            else Error(InvalidResponse)
  {
    hide Consume, Message, FramingOf, AnnouncesLength;
    FinalIsFramed(config, status, reason, headers, body, isComplete);
    FramingIsAnnounced(config, status, headers);
    assert length <= config.maximumBodyBytes ==> Frames(config, status, headers, ContentLength(length));
  }

  /**
   * A chunked body is returned exactly when the bytes are a stream that carries it within the limit, and is
   * too large exactly when chunks that fit are followed by a size that does not.
   */
  lemma ChunkedOutcome(config: Config, status: int, reason: seq<Byte>, headers: seq<Header>, bytes: seq<Byte>,
                       isComplete: bool)
    requires Final(status, reason, headers) && config.requestMethod != "HEAD" && status != 204
    requires AnnouncesChunks(headers)
    ensures var outcome := Consume(config, INITIAL, Message(status, reason, headers, bytes), isComplete).0;
            && (forall body :: outcome == Response(Parsed(status, headers, body))
                               <==> Carries(bytes, body) && (|body| <= config.maximumBodyBytes || body == []))
            && (outcome.Response? ==> outcome.response.status == status && outcome.response.headers == headers)
            && (outcome == Error(ResponseTooLarge) <==> Overflows(bytes, 0, config.maximumBodyBytes))
  {
    hide Consume, Message, FramingOf, AnnouncesChunks, Carries, WalkChunks, Overflows;
    TooLargeIff(bytes, config.maximumBodyBytes);
    FinalIsFramed(config, status, reason, headers, bytes, isComplete);
    FramingIsAnnounced(config, status, headers);
    assert Frames(config, status, headers, Chunked);
    forall body
      ensures WalkChunks(bytes, [], config.maximumBodyBytes).last.LastChunk?
              && WalkChunks(bytes, [], config.maximumBodyBytes).decoded == body
              <==> Carries(bytes, body) && (|body| <= config.maximumBodyBytes || body == [])
    {
      CarriedIsDecoded(bytes, body, config.maximumBodyBytes);
    }
  }

  lemma CarriedIsDecoded(bytes: seq<Byte>, body: seq<Byte>, maximum: int)
    ensures WalkChunks(bytes, [], maximum).last.LastChunk? && WalkChunks(bytes, [], maximum).decoded == body
            <==> Carries(bytes, body) && (|body| <= maximum || body == [])
  {
    hide WalkChunks, EncodeStream;
    if WalkChunks(bytes, [], maximum).last.LastChunk? {
      DecodedIsCarried(bytes, [], maximum);
      var added :| Carries(bytes, added) && WalkChunks(bytes, [], maximum).decoded == [] + added
                   && (|[] + added| <= maximum || added == []);
      assert [] + added == added;
    }
    if Carries(bytes, body) && (|body| <= maximum || body == []) {
      var chunks, last :| ValidStream(chunks, last) && bytes == EncodeStream(chunks, last) && body == Joined(chunks);
      DecodeEncoded(chunks, last, [], maximum);
      assert [] + body == body;
    }
  }

  /** A body that may come but is announced by nothing, by both headers or by a repeated one is refused. */
  lemma UnframedOutcome(config: Config, status: int, reason: seq<Byte>, headers: seq<Header>, body: seq<Byte>,
                        isComplete: bool)
    requires Final(status, reason, headers) && config.requestMethod != "HEAD" && status != 204
    requires !AnnouncesChunks(headers) && forall length: nat :: !AnnouncesLength(headers, length)
    ensures Consume(config, INITIAL, Message(status, reason, headers, body), isComplete).0 == Error(InvalidResponse)
  {
    hide Consume, Message, FramingOf, AnnouncesChunks, AnnouncesLength;
    FinalIsFramed(config, status, reason, headers, body, isComplete);
    FramingIsAnnounced(config, status, headers);
    assert forall framing :: !Frames(config, status, headers, framing);
  }

  predicate Twice(headers: seq<Header>, name: string) {
    exists i, j :: 0 <= i < j < |headers| && Named(headers[i], name) && Named(headers[j], name)
  }

  /** In particular when neither header, both, or a second of either is there. */
  lemma WhenUnframed(headers: seq<Header>)
    requires || (NoneNamed(headers, "content-length") <==> NoneNamed(headers, "transfer-encoding"))
             || Twice(headers, "content-length") || Twice(headers, "transfer-encoding")
    ensures !AnnouncesChunks(headers) && forall length: nat :: !AnnouncesLength(headers, length)
  {
    hide Named, IsLength, Lower, Ascii;
  }
}
