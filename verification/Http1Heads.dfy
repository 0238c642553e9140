/** Writing a response head and reading it back; whole responses. */
module Http1Heads {

  import opened Bytes
  import opened Http1
  import opened Http1Chunks
  import opened Http1Framing

  predicate Clean(s: seq<Byte>) { forall i | 0 <= i < |s| :: IsText(s[i]) }

  predicate Blank(b: Byte) { b == SP || b == TAB }

  predicate ValidHeader(h: Header) {
    IsToken(h.name) && Clean(h.value) && (h.value == [] || (!Blank(h.value[0]) && !Blank(h.value[|h.value| - 1])))
  }

  function Digits3(n: int): seq<Byte>
    requires 100 <= n <= 999
  {
    [0x30 + n / 100, 0x30 + n / 10 % 10, 0x30 + n % 10]
  }

  function StatusLine(status: int, reason: seq<Byte>): seq<Byte>
    requires 100 <= status <= 599
  {
    Ascii("HTTP/1.1") + [SP] + Digits3(status) + [SP] + reason
  }

  function HeaderLine(h: Header): seq<Byte> { h.name + [COLON, SP] + h.value }

  function JoinLines(first: seq<Byte>, headers: seq<Header>): seq<Byte>
    decreases |headers|
  {
    if headers == [] then first else first + CRLF + JoinLines(HeaderLine(headers[0]), headers[1..])
  }

  /** A head as a server writes it, without its terminating blank line. */
  function WriteHead(status: int, reason: seq<Byte>, headers: seq<Header>): seq<Byte>
    requires 100 <= status <= 599
  {
    JoinLines(StatusLine(status, reason), headers)
  }

  predicate AllValid(headers: seq<Header>) { forall i | 0 <= i < |headers| :: ValidHeader(headers[i]) }

  // ---------------------------------------------------------------- lines

  lemma CleanHeaderLine(h: Header)
    requires ValidHeader(h)
    ensures Clean(HeaderLine(h)) && HeaderLine(h) != []
  {
  }

  lemma FirstLineEnds(line: seq<Byte>, tail: seq<Byte>)
    requires Clean(line)
    ensures Find(line + CRLF + tail, CRLF, 0) == Some(|line|)
  {
    var b := line + CRLF + tail;
    assert OccursAt(b, CRLF, |line|);
    forall i: nat | i < |line| ensures !OccursAt(b, CRLF, i) {
      if i + 2 <= |b| { assert b[i..i + 2][0] == line[i]; }
    }
    FindIs(b, CRLF, |line|);
  }

  lemma NoLineEnd(line: seq<Byte>)
    requires Clean(line)
    ensures Find(line, CRLF, 0) == None
  {
    forall i: nat ensures !OccursAt(line, CRLF, i) {
      if i + 2 <= |line| { assert line[i..i + 2][0] == line[i]; }
    }
  }

  lemma {:induction false} ValidHeadAppend(line: seq<Byte>, tail: seq<Byte>)
    requires Clean(line) && ValidHeadBytes(tail)
    ensures ValidHeadBytes(line + tail)
    decreases |line|
  {
    if line == [] {
      assert line + tail == tail;
    } else {
      assert (line + tail)[1..] == line[1..] + tail;
      ValidHeadAppend(line[1..], tail);
    }
  }

  function HeaderLines(headers: seq<Header>): seq<seq<Byte>> {
    seq(|headers|, i requires 0 <= i < |headers| => HeaderLine(headers[i]))
  }

  lemma PrependLine(first: seq<Byte>, tail: seq<Byte>)
    requires Clean(first) && ValidHeadBytes(tail)
    ensures ValidHeadBytes(first + CRLF + tail)
    ensures SplitLines(first + CRLF + tail) == [first] + SplitLines(tail)
  {
    hide Find, OccursAt;
    var whole := first + CRLF + tail;
    FirstLineEnds(first, tail);
    assert whole[..|first|] == first && whole[|first| + 2..] == tail;
    assert ValidHeadBytes(CRLF + tail) by { assert (CRLF + tail)[2..] == tail; }
    assert whole == first + (CRLF + tail);
    ValidHeadAppend(first, CRLF + tail);
  }

  lemma OnlyLine(first: seq<Byte>)
    requires Clean(first)
    ensures ValidHeadBytes(first) && SplitLines(first) == [first]
  {
    NoLineEnd(first);
    assert first + [] == first;
    ValidHeadAppend(first, []);
  }

  /** The written head is valid and splits back into exactly its lines. */
  lemma {:induction false} LinesRoundTrip(first: seq<Byte>, headers: seq<Header>)
    requires Clean(first) && AllValid(headers)
    ensures ValidHeadBytes(JoinLines(first, headers))
    ensures SplitLines(JoinLines(first, headers)) == [first] + HeaderLines(headers)
    decreases |headers|
  {
    hide ValidHeadBytes, SplitLines, HeaderLine, Clean, ValidHeader;
    if headers == [] {
      OnlyLine(first);
    } else {
      var line := HeaderLine(headers[0]);
      CleanHeaderLine(headers[0]);
      LinesRoundTrip(line, headers[1..]);
      PrependLine(first, JoinLines(line, headers[1..]));
      assert HeaderLines(headers) == [line] + HeaderLines(headers[1..]);
    }
  }

  // ---------------------------------------------------------------- fields

  lemma {:induction false} TrimKeeps(value: seq<Byte>)
    requires value == [] || (!Blank(value[0]) && !Blank(value[|value| - 1]))
    ensures TrimRight(TrimLeft([SP] + value)) == value
  {
    assert ([SP] + value)[1..] == value;
    assert TrimLeft(value) == value;
  }

  lemma HeaderRoundTrip(h: Header)
    requires ValidHeader(h)
    ensures ReadHeader(HeaderLine(h)) == Some(h)
  {
    var line := HeaderLine(h);
    assert OccursAt(line, [COLON], |h.name|);
    forall i: nat | i < |h.name| ensures !OccursAt(line, [COLON], i) {
      assert line[i..i + 1][0] == h.name[i];
    }
    FindIs(line, [COLON], |h.name|);
    assert line[..|h.name|] == h.name;
    assert line[|h.name| + 1..] == [SP] + h.value;
    assert line[0] == h.name[0];
    TrimKeeps(h.value);
  }

  lemma {:induction false} HeaderLinesRoundTrip(headers: seq<Header>)
    requires AllValid(headers)
    ensures ReadHeaderLines(HeaderLines(headers)) == Some(headers)
    decreases |headers|
  {
    hide ReadHeader, HeaderLine, ValidHeader;
    if headers != [] {
      var init := headers[..|headers| - 1];
      HeaderLinesRoundTrip(init);
      HeaderRoundTrip(headers[|headers| - 1]);
      assert HeaderLines(headers)[..|headers| - 1] == HeaderLines(init);
      assert init + [headers[|headers| - 1]] == headers;
    }
  }

  // ---------------------------------------------------------------- status line

  lemma {:induction false} TokenEnds(token: seq<Byte>, tail: seq<Byte>)
    requires forall i | 0 <= i < |token| :: token[i] != SP
    requires tail == [] || tail[0] == SP
    ensures TokenLength(token + tail) == |token|
    decreases |token|
  {
    if token == [] {
      assert token + tail == tail;
    } else {
      assert (token + tail)[1..] == token[1..] + tail;
      TokenEnds(token[1..], tail);
    }
  }

  lemma NextTokenIs(token: seq<Byte>, tail: seq<Byte>)
    requires token != [] && forall i | 0 <= i < |token| :: token[i] != SP
    requires tail == [] || tail[0] == SP
    ensures NextToken(token + tail) == (token, tail)
    ensures NextToken([SP] + token + tail) == (token, tail)
  {
    TokenEnds(token, tail);
    assert SkipSpaces(token + tail) == token + tail;
    assert ([SP] + token + tail)[1..] == token + tail;
    assert (token + tail)[..|token|] == token && (token + tail)[|token|..] == tail;
  }

  lemma ThreeDigits(x: Byte, y: Byte, z: Byte)
    requires IsDigit(x) && IsDigit(y) && IsDigit(z)
    ensures DigitsValue([x, y, z]) == (x as int - 0x30) * 100 + (y as int - 0x30) * 10 + (z as int - 0x30)
  {
    assert [x, y, z][..2] == [x, y] && [x, y][..1] == [x] && [x][..0] == [];
    assert DigitsValue([x]) == x as int - 0x30;
    assert DigitsValue([x, y]) == (x as int - 0x30) * 10 + (y as int - 0x30);
  }

  lemma Digits3Value(n: int)
    requires 100 <= n <= 999
    ensures AllDigits(Digits3(n)) && ReadInt(Digits3(n)) == Some(n)
  {
    hide DigitsValue;
    ThreeDigits(0x30 + n / 100, 0x30 + n / 10 % 10, 0x30 + n % 10);
    assert n / 100 * 100 + n / 10 % 10 * 10 + n % 10 == n;
  }

  lemma CleanStatusLine(status: int, reason: seq<Byte>)
    requires 100 <= status <= 599 && Clean(reason)
    ensures Clean(StatusLine(status, reason)) && StatusLine(status, reason) != []
  {
  }

  lemma StatusLineRoundTrip(status: int, reason: seq<Byte>)
    requires 100 <= status <= 599 && !(300 <= status <= 399)
    ensures ReadStatusLine(StatusLine(status, reason)) == Ok(status)
  {
    var line := StatusLine(status, reason);
    var version, code, tail := Ascii("HTTP/1.1"), Digits3(status), [SP] + reason;
    Digits3Value(status);
    assert line == version + ([SP] + code + tail);
    assert forall i | 0 <= i < |version| :: version[i] != SP;
    NextTokenIs(version, [SP] + code + tail);
    NextTokenIs(code, tail);
  }

  /** Reading inverts writing, for every status, reason and header list the reader admits. */
  lemma HeadRoundTrip(status: int, reason: seq<Byte>, headers: seq<Header>)
    requires 100 <= status <= 599 && !(300 <= status <= 399)
    requires Clean(reason) && AllValid(headers) && |headers| <= MAX_HEADERS
    ensures ReadHead(WriteHead(status, reason, headers)) == Ok(Head(status, headers))
  {
    var first := StatusLine(status, reason);
    CleanStatusLine(status, reason);
    LinesRoundTrip(first, headers);
    assert ([first] + HeaderLines(headers))[1..] == HeaderLines(headers);
    StatusLineRoundTrip(status, reason);
    HeaderLinesRoundTrip(headers);
  }

  // ---------------------------------------------------------------- whole responses

  lemma NotInLine(first: seq<Byte>, rest: seq<Byte>, i: nat)
    requires Clean(first) && rest != [] && rest[0] != CR
    requires i < |first| + 2
    ensures !OccursAt(first + CRLF + rest, HEAD_END, i)
  {
    var b, n := first + CRLF + rest, |first| + 2;
    if i + 4 <= |b| {
      if i < |first| {
        assert b[i..i + 4][0] == first[i];
      } else {
        assert b[i..i + 4][0] == b[i] && b[i..i + 4][n - i] == rest[0];
      }
    }
  }

  lemma NotAfterLine(first: seq<Byte>, rest: seq<Byte>, i: nat)
    requires |first| + 2 <= i
    ensures OccursAt(first + CRLF + rest, HEAD_END, i) <==> OccursAt(rest, HEAD_END, i - |first| - 2)
  {
    var b, n := first + CRLF + rest, |first| + 2;
    if i + 4 <= |b| { assert b[i..i + 4] == rest[i - n..i - n + 4]; }
  }

  lemma EndAfterLine(first: seq<Byte>, rest: seq<Byte>, k: nat)
    requires Clean(first) && rest != [] && rest[0] != CR
    requires Find(rest, HEAD_END, 0) == Some(k)
    ensures Find(first + CRLF + rest, HEAD_END, 0) == Some(|first| + 2 + k)
  {
    hide OccursAt, Clean;
    var b, n := first + CRLF + rest, |first| + 2;
    forall i: nat | i <= n + k ensures OccursAt(b, HEAD_END, i) <==> i == n + k {
      if i < n { NotInLine(first, rest, i); } else { NotAfterLine(first, rest, i); }
    }
    FindIs(b, HEAD_END, n + k);
  }

  lemma EndOfOnlyLine(first: seq<Byte>, tail: seq<Byte>)
    requires Clean(first)
    ensures Find(first + HEAD_END + tail, HEAD_END, 0) == Some(|first|)
  {
    var b := first + HEAD_END + tail;
    assert OccursAt(b, HEAD_END, |first|);
    forall i: nat | i < |first| ensures !OccursAt(b, HEAD_END, i) {
      assert b[i..i + 4][0] == first[i];
    }
    FindIs(b, HEAD_END, |first|);
  }

  /** No blank line hides inside a written head, so its end is the first one. */
  lemma {:induction false} HeadEnds(first: seq<Byte>, headers: seq<Header>, tail: seq<Byte>)
    requires first != [] && Clean(first) && AllValid(headers)
    ensures Find(JoinLines(first, headers) + HEAD_END + tail, HEAD_END, 0) == Some(|JoinLines(first, headers)|)
    decreases |headers|
  {
    hide Find, HeaderLine, ValidHeader;
    if headers == [] {
      EndOfOnlyLine(first, tail);
    } else {
      var line := HeaderLine(headers[0]);
      CleanHeaderLine(headers[0]);
      HeadEnds(line, headers[1..], tail);
      JoinStarts(line, headers[1..]);
      var inner := JoinLines(line, headers[1..]);
      EndAfterLine(first, inner + HEAD_END + tail, |inner|);
      assert JoinLines(first, headers) + HEAD_END + tail == first + CRLF + (inner + HEAD_END + tail);
    }
  }

  lemma JoinStarts(first: seq<Byte>, headers: seq<Header>)
    requires first != [] && Clean(first)
    ensures JoinLines(first, headers) != [] && JoinLines(first, headers)[0] == first[0]
  {
  }

  /** A new parser given a written head and then `body` has that body left to parse. */
  lemma HeadIsTaken(config: Config, status: int, reason: seq<Byte>, headers: seq<Header>, body: seq<Byte>)
    requires 200 <= status <= 599 && !(300 <= status <= 399)
    requires Clean(reason) && AllValid(headers) && |headers| <= MAX_HEADERS
    requires |WriteHead(status, reason, headers)| + 4 <= MAX_HEADER_BYTES
    requires FramingOf(config, status, headers).Ok?
    ensures TakeHeads(config, INITIAL.Append(WriteHead(status, reason, headers) + HEAD_END + body))
            == Ready(State(body, Some(status), headers, Some(FramingOf(config, status, headers).value), []))
  {
    hide ReadHead, FramingOf, TakeHeads, Find, JoinLines, ValidHeader, StatusLine, Clean;
    HeadRoundTrip(status, reason, headers);
    CleanStatusLine(status, reason);
    HeadEnds(StatusLine(status, reason), headers, body);
    FirstHeadIsTaken(config, WriteHead(status, reason, headers), body);
  }

  lemma FirstHeadIsTaken(config: Config, head: seq<Byte>, body: seq<Byte>)
    requires Find(head + HEAD_END + body, HEAD_END, 0) == Some(|head|)
    requires |head| + 4 <= MAX_HEADER_BYTES
    requires ReadHead(head).Ok? && 200 <= ReadHead(head).value.status
    requires FramingOf(config, ReadHead(head).value.status, ReadHead(head).value.headers).Ok?
    ensures var h := ReadHead(head).value;
            TakeHeads(config, INITIAL.Append(head + HEAD_END + body))
            == Ready(State(body, Some(h.status), h.headers, Some(FramingOf(config, h.status, h.headers).value), []))
  {
    hide ReadHead, FramingOf, Find, OccursAt;
    var st := INITIAL.Append(head + HEAD_END + body);
    assert st.buffer == head + HEAD_END + body;
    assert st.buffer[..|head|] == head && st.buffer[|head| + 4..] == body;
    assert TakeHead(config, st).HeadTaken?;
  }

  /**
   * Chunked round trip: a body within the limit, cut into any nonempty chunks with any spelling
   * of their sizes, comes back exactly, with the status and headers that were sent.
   */
  lemma ChunkedRoundTrip(config: Config, status: int, reason: seq<Byte>, headers: seq<Header>, chunks: seq<Chunk>,
                         last: seq<Byte>)
    requires 200 <= status <= 599 && !(300 <= status <= 399)
    requires Clean(reason) && AllValid(headers) && |headers| <= MAX_HEADERS
    requires |WriteHead(status, reason, headers)| + 4 <= MAX_HEADER_BYTES
    requires MayHaveBody(config, status) && AnnouncesChunks(headers)
    requires ValidStream(chunks, last) && |Joined(chunks)| <= config.maximumBodyBytes
    ensures Consume(config, INITIAL, WriteHead(status, reason, headers) + HEAD_END + EncodeStream(chunks, last), true).0
            == Response(Parsed(status, headers, Joined(chunks)))
  {
    hide TakeHeads, TakeBody, FramingOf, WriteHead, EncodeStream, ValidStream, Joined, Clean, AllValid;
    FramingIsAnnounced(config, status, headers);
    assert Frames(config, status, headers, Chunked);
    HeadIsTaken(config, status, reason, headers, EncodeStream(chunks, last));
    StreamIsDecoded(config, status, headers, chunks, last);
  }

  lemma StreamIsDecoded(config: Config, status: int, headers: seq<Header>, chunks: seq<Chunk>, last: seq<Byte>)
    requires ValidStream(chunks, last) && |Joined(chunks)| <= config.maximumBodyBytes
    ensures TakeBody(config, State(EncodeStream(chunks, last), Some(status), headers, Some(Chunked), [])).0
            == Response(Parsed(status, headers, Joined(chunks)))
  {
    hide WalkChunks, EncodeStream, ValidStream, Joined;
    DecodeEncoded(chunks, last, [], config.maximumBodyBytes);
    var walk := WalkChunks(EncodeStream(chunks, last), [], config.maximumBodyBytes);
    assert walk.decoded == Joined(chunks);
  }

  /** Length-delimited round trip. */
  lemma LengthRoundTrip(config: Config, status: int, reason: seq<Byte>, headers: seq<Header>, body: seq<Byte>)
    requires 200 <= status <= 599 && !(300 <= status <= 399)
    requires Clean(reason) && AllValid(headers) && |headers| <= MAX_HEADERS
    requires |WriteHead(status, reason, headers)| + 4 <= MAX_HEADER_BYTES
    requires MayHaveBody(config, status) && AnnouncesLength(headers, |body|) && |body| <= config.maximumBodyBytes
    ensures Consume(config, INITIAL, WriteHead(status, reason, headers) + HEAD_END + body, true).0
            == Response(Parsed(status, headers, body))
  {
    hide TakeHeads, FramingOf, WriteHead, Clean, AllValid;
    FramingIsAnnounced(config, status, headers);
    assert Frames(config, status, headers, ContentLength(|body|));
    HeadIsTaken(config, status, reason, headers, body);
  }
}
