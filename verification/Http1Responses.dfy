/** What a returned response was made of, and the responses that fragments can spoil. */
module Http1Responses {

  import opened Bytes
  import opened Http1
  import opened Http1Fragments
  import opened Http1Chunks
  import opened Http1Framing
  import opened Http1Theorems
  import opened Http1Heads

  // ---------------------------------------------------------------- heads, then a body

  /** A head that announces nothing yet: any 1xx but 101. */
  predicate IsInterim(head: seq<Byte>) {
    ReadHead(head).Ok? && 100 <= ReadHead(head).value.status <= 199 && ReadHead(head).value.status != 101
  }

  /** Interim heads and a final one, each with its blank line. */
  function Block(interim: seq<seq<Byte>>, final: seq<Byte>): seq<Byte> {
    if interim == [] then final + HEAD_END else interim[0] + HEAD_END + Block(interim[1..], final)
  }

  /** The heads that leave a parser with this status, these headers and this framing. */
  ghost predicate Announces(config: Config, interim: seq<seq<Byte>>, final: seq<Byte>, st: State) {
    && (forall i | 0 <= i < |interim| :: IsInterim(interim[i]))
    && ReadHead(final).Ok? && var head := ReadHead(final).value;
       && !(100 <= head.status <= 199)
       && st.status == Some(head.status) && st.headers == head.headers && st.framing.Some?
       && Frames(config, head.status, head.headers, st.framing.value)
  }

  /** One head taken off the buffer was an interim head or the final one. */
  lemma TakenHead(config: Config, st: State) returns (head: seq<Byte>)
    requires st.framing.None? && TakeHead(config, st).HeadTaken?
    ensures var next := TakeHead(config, st).state;
            && st.buffer == head + HEAD_END + next.buffer && next.decoded == st.decoded
            && (next.framing.None? ==> IsInterim(head) && next == st.(buffer := next.buffer))
            && (next.framing.Some? ==> Announces(config, [], head, next))
  {
    hide ReadHead, FramingOf, Find, OccursAt, Frames;
    var k := Find(st.buffer, HEAD_END, 0).value;
    head := st.buffer[..k];
    HeadEndAt(st.buffer);
    assert st.buffer == head + HEAD_END + st.buffer[k + 4..];
    if ReadHead(head).Ok? { FramingIsAnnounced(config, ReadHead(head).value.status, ReadHead(head).value.headers); }
  }

  lemma HeadEndAt(s: seq<Byte>)
    requires Find(s, HEAD_END, 0).Some?
    ensures var k := Find(s, HEAD_END, 0).value; s[k..k + 4] == HEAD_END
  {
  }

  lemma {:induction false} TakenHeads(config: Config, st: State) returns (interim: seq<seq<Byte>>, final: seq<Byte>)
    requires st.framing.None? && TakeHeads(config, st).Ready?
    ensures var next := TakeHeads(config, st).state;
            && st.buffer == Block(interim, final) + next.buffer && next.decoded == st.decoded
            && Announces(config, interim, final, next)
    decreases |st.buffer|
  {
    hide TakeHead, ReadHead, FramingOf, Frames;
    var next := TakeHead(config, st).state;
    var head := TakenHead(config, st);
    if next.framing.Some? {
      interim, final := [], head;
    } else {
      var rest;
      rest, final := TakenHeads(config, next);
      interim := [head] + rest;
      assert interim[1..] == rest;
      assert head + HEAD_END + (Block(rest, final) + TakeHeads(config, st).state.buffer)
          == Block(interim, final) + TakeHeads(config, st).state.buffer;
    }
  }

  /** The body bytes of a response, delimited as its framing says. */
  ghost predicate Delimits(config: Config, framing: Framing, bytes: seq<Byte>, body: seq<Byte>) {
    match framing
    case Empty => bytes == [] && body == []
    case ContentLength(length) => bytes == body && |body| == length
    case Chunked => Carries(bytes, body) && (|body| <= config.maximumBodyBytes || body == [])
  }

  lemma TakenBody(config: Config, st: State)
    requires st.decoded == [] && TakeBody(config, st).0.Response?
    ensures st.status.Some? && st.framing.Some?
    ensures var response := TakeBody(config, st).0.response;
            && response.status == st.status.value && response.headers == st.headers
            && Delimits(config, st.framing.value, st.buffer, response.body)
  {
    hide WalkChunks, Carries;
    if st.framing == Some(Chunked) {
      DecodedIsCarried(st.buffer, [], config.maximumBodyBytes);
      var added :| Carries(st.buffer, added) && WalkChunks(st.buffer, [], config.maximumBodyBytes).decoded == [] + added
                   && (|[] + added| <= config.maximumBodyBytes || added == []);
      assert [] + added == added;
    }
  }

  /** `bytes` are interim heads, a final head and a body that make up `response`. */
  ghost predicate Spells(config: Config, bytes: seq<Byte>, response: Parsed) {
    exists interim, final, framing, body ::
      && bytes == Block(interim, final) + body
      && Announces(config, interim, final, State(body, Some(response.status), response.headers, Some(framing), []))
      && Delimits(config, framing, body, response.body)
  }

  lemma ConsumedIsSpelled(config: Config, data: seq<Byte>, isComplete: bool)
    requires Consume(config, INITIAL, data, isComplete).0.Response?
    ensures Spells(config, data, Consume(config, INITIAL, data, isComplete).0.response)
  {
    hide TakeHeads, TakeBody, Delimits, Block, Announces;
    var st := INITIAL.Append(data);
    assert st.buffer == data;
    var next := TakeHeads(config, st).state;
    var interim, final := TakenHeads(config, st);
    var response := TakeBody(config, next).0.response;
    TakenBody(config, next);
    assert next == State(next.buffer, Some(response.status), response.headers, Some(next.framing.value), []);
    assert data == Block(interim, final) + next.buffer;
  }

  /**
   * A response returned by a new parser, over any fragments and after any interim heads, was spelled by
   * the bytes of the fragments looked at: heads, then a body delimited as the final head says.
   */
  lemma ReturnedIsSpelled(config: Config, fragments: seq<seq<Byte>>, isComplete: bool)
    requires fragments != [] && Feed(config, INITIAL, fragments, isComplete).0.Response?
    ensures Spells(config, Flatten(fragments[..Used(config, INITIAL, fragments)]),
                   Feed(config, INITIAL, fragments, isComplete).0.response)
  {
    hide Consume, Feed, Used, Spells;
    var k := Used(config, INITIAL, fragments);
    FeedIsOneShot(config, INITIAL, fragments, isComplete);
    ConsumedIsSpelled(config, Flatten(fragments[..k]), k == |fragments| && isComplete);
  }

  // ---------------------------------------------------------------- the responses that a cut can spoil

  /** Every written response with a 128-digit size line parses in one call and is refused at some cut. */
  lemma LongLineIsRefused(
    config: Config, status: int, reason: seq<Byte>, headers: seq<Header>, chunks: seq<Chunk>, last: seq<Byte>)
    returns (p: seq<Byte>)
    requires 200 <= status <= 599 && !(300 <= status <= 399)
    requires Clean(reason) && AllValid(headers) && |headers| <= MAX_HEADERS
    requires |WriteHead(status, reason, headers)| + 4 <= MAX_HEADER_BYTES
    requires MayHaveBody(config, status) && AnnouncesChunks(headers)
    requires ValidStream(chunks, last) && |Joined(chunks)| <= config.maximumBodyBytes && HasLongLine(chunks, last)
    ensures var s := WriteHead(status, reason, headers) + HEAD_END + EncodeStream(chunks, last);
            && Consume(config, INITIAL, s, true).0 == Response(Parsed(status, headers, Joined(chunks)))
            && LongSizeLine(config, INITIAL, s) && p < s
            && Consume(config, INITIAL, p, false).0 == Error(InvalidResponse)
  {
    hide Consume, TakeHeads, WriteHead, FramingOf, ValidStream, EncodeStream, HasLongLine, AllValid, Clean, RefusedCut;
    var s := WriteHead(status, reason, headers) + HEAD_END + EncodeStream(chunks, last);
    ChunkedRoundTrip(config, status, reason, headers, chunks, last);
    FramingIsAnnounced(config, status, headers);
    assert Frames(config, status, headers, Chunked);
    HeadIsTaken(config, status, reason, headers, EncodeStream(chunks, last));
    p := RefusedPrefix(config, INITIAL, s, true);
    NoEarlyOutcome(config, INITIAL, s, p, true);
  }

  const GET := Config("GET", 4096)
  const CHUNKED_HEADERS := [Header(Ascii("transfer-encoding"), Ascii("chunked"))]

  function Zeros(n: nat): seq<Byte> { seq(n, _ => 0x30) }

  lemma {:induction false} ZerosAreZero(n: nat)
    ensures AllHex(Zeros(n)) && HexValue(Zeros(n)) == 0
  {
    if n > 0 {
      ZerosAreZero(n - 1);
      assert Zeros(n)[..n - 1] == Zeros(n - 1);
    }
  }

  lemma LowerIsSame(s: seq<Byte>)
    requires forall i | 0 <= i < |s| :: !(0x41 <= s[i] <= 0x5a)
    ensures Lower(s) == s
  {
  }

  lemma ExampleIsChunked()
    ensures MayHaveBody(GET, 200) && AnnouncesChunks(CHUNKED_HEADERS)
  {
    LowerIsSame(Ascii("transfer-encoding"));
    LowerIsSame(Ascii("chunked"));
    assert |Ascii("content-length")| != |Ascii("transfer-encoding")|;
    assert OnlyNamed(CHUNKED_HEADERS, "transfer-encoding", 0);
  }

  lemma ExampleIsValid()
    ensures AllValid(CHUNKED_HEADERS) && Clean(Ascii("OK"))
    ensures |WriteHead(200, Ascii("OK"), CHUNKED_HEADERS)| == 43
  {
    var h := CHUNKED_HEADERS[0];
    assert IsToken(h.name);
    assert CHUNKED_HEADERS[1..] == [];
    assert |HeaderLine(h)| == 26;
    assert JoinLines(HeaderLine(h), []) == HeaderLine(h);
  }

  /** The empty chunked body whose last size is spelled with 128 zeros, cut before the final LF of that line. */
  lemma LongLineExample()
    ensures var head, last := WriteHead(200, Ascii("OK"), CHUNKED_HEADERS) + HEAD_END, Zeros(128);
            && Consume(GET, INITIAL, head + (last + CRLF + CRLF), true).0 == Response(Parsed(200, CHUNKED_HEADERS, []))
            && LongSizeLine(GET, INITIAL, head + (last + CRLF + CRLF))
            && Consume(GET, INITIAL, head + (last + [CR]), false).0 == Error(InvalidResponse)
  {
    hide Consume, TakeHeads, WriteHead, FramingOf, AllHex, HexValue, AllValid, Clean, Zeros;
    var head, last, none: seq<Chunk> := WriteHead(200, Ascii("OK"), CHUNKED_HEADERS), Zeros(128), [];
    var s, p := head + HEAD_END + EncodeStream(none, last), head + HEAD_END + (last + [CR]);
    ExampleIsChunked();
    ExampleIsValid();
    ZerosAreZero(128);
    ZerosLength(128);
    FramingIsAnnounced(GET, 200, CHUNKED_HEADERS);
    assert Frames(GET, 200, CHUNKED_HEADERS, Chunked);
    ChunkedRoundTrip(GET, 200, Ascii("OK"), CHUNKED_HEADERS, none, last);
    HeadIsTaken(GET, 200, Ascii("OK"), CHUNKED_HEADERS, EncodeStream(none, last));
    HeadIsTaken(GET, 200, Ascii("OK"), CHUNKED_HEADERS, last + [CR]);
    assert ValidStream(none, last) && HasLongLine(none, last) && CutsLongLine(none, last, last + [CR]);
    assert p < s by { assert s[..|p|] == p; }
    assert RefusedCut(GET, INITIAL, s, p);
    NoEarlyOutcome(GET, INITIAL, s, p, true);
  }

  lemma ZerosLength(n: nat)
    ensures |Zeros(n)| == n
  {
  }
}
