/** The chunked coding of section 7.1 of RFC 9112, without extensions or trailers. */
module Http1Chunks {

  import opened Bytes
  import opened Http1

  /** One chunk as it is written: any spelling of its size, then its data. */
  datatype Chunk = Chunk(line: seq<Byte>, data: seq<Byte>)

  predicate SizeLine(line: seq<Byte>, size: nat) {
    1 <= |line| <= MAX_SIZE_LINE && AllHex(line) && HexValue(line) == size < INT_LIMIT
  }

  predicate ValidChunk(c: Chunk) { c.data != [] && SizeLine(c.line, |c.data|) }

  predicate ValidStream(chunks: seq<Chunk>, last: seq<Byte>) {
    SizeLine(last, 0) && forall i | 0 <= i < |chunks| :: ValidChunk(chunks[i])
  }

  function Encode(c: Chunk): seq<Byte> { c.line + CRLF + c.data + CRLF }

  function EncodeStream(chunks: seq<Chunk>, last: seq<Byte>): seq<Byte> {
    if chunks == [] then last + CRLF + CRLF else Encode(chunks[0]) + EncodeStream(chunks[1..], last)
  }

  function Joined(chunks: seq<Chunk>): seq<Byte> {
    if chunks == [] then [] else chunks[0].data + Joined(chunks[1..])
  }

  // ---------------------------------------------------------------- one chunk

  lemma SizeLineEnds(line: seq<Byte>, tail: seq<Byte>)
    requires AllHex(line)
    ensures Find(line + CRLF + tail, CRLF, 0) == Some(|line|)
  {
    var b := line + CRLF + tail;
    assert OccursAt(b, CRLF, |line|);
    forall i: nat | i < |line| ensures !OccursAt(b, CRLF, i) {
      if i + 2 <= |b| { assert b[i..i + 2][0] == line[i]; }
    }
    FindIs(b, CRLF, |line|);
  }

  lemma NextOfEncoded(c: Chunk, tail: seq<Byte>, room: int)
    requires ValidChunk(c) && |c.data| <= room
    ensures NextChunk(Encode(c) + tail, room) == OneChunk(c.data, |Encode(c)|)
  {
    hide Find, OccursAt, HexValue;
    var b := Encode(c) + tail;
    var k := |c.line|;
    assert b == c.line + CRLF + (c.data + CRLF + tail);
    SizeLineEnds(c.line, c.data + CRLF + tail);
    assert ReadSize(c.line) == Some(|c.data|);
    assert b[..k] == c.line;
    assert b[k + 2..k + 2 + |c.data|] == c.data;
    assert b[k + 2 + |c.data|..k + 4 + |c.data|] == CRLF;
  }

  lemma NextOfLast(last: seq<Byte>, room: int)
    requires SizeLine(last, 0)
    ensures NextChunk(last + CRLF + CRLF, room) == LastChunk
  {
    var b := last + CRLF + CRLF;
    SizeLineEnds(last, CRLF);
    assert b[..|last|] == last;
    assert b[|last| + 2..|last| + 4] == CRLF;
  }

  /** What the decoder took off the buffer was one well-formed chunk. */
  lemma OneChunkIsEncoded(buffer: seq<Byte>, room: int)
    requires NextChunk(buffer, room).OneChunk?
    ensures var step := NextChunk(buffer, room);
            exists c :: ValidChunk(c) && c.data == step.data && buffer == Encode(c) + buffer[step.size..]
  {
    hide Find, HexValue;
    var step := NextChunk(buffer, room);
    var k := Find(buffer, CRLF, 0).value;
    var c := Chunk(buffer[..k], step.data);
    assert ValidChunk(c);
    assert buffer[k..k + 2] == CRLF;
    assert buffer == Encode(c) + buffer[step.size..];
  }

  lemma LastIsEncoded(buffer: seq<Byte>, room: int)
    requires NextChunk(buffer, room).LastChunk?
    ensures exists last :: SizeLine(last, 0) && buffer == last + CRLF + CRLF
  {
    var k := Find(buffer, CRLF, 0).value;
    assert SizeLine(buffer[..k], 0);
    assert buffer == buffer[..k] + CRLF + CRLF;
  }

  // ---------------------------------------------------------------- whole streams

  lemma WalkEncoded(c: Chunk, tail: seq<Byte>, decoded: seq<Byte>, maximum: int)
    requires ValidChunk(c) && |decoded| + |c.data| <= maximum
    ensures WalkChunks(Encode(c) + tail, decoded, maximum) == WalkChunks(tail, decoded + c.data, maximum)
  {
    NextOfEncoded(c, tail, maximum - |decoded|);
    assert (Encode(c) + tail)[|Encode(c)|..] == tail;
  }

  lemma WalkLast(last: seq<Byte>, decoded: seq<Byte>, maximum: int)
    requires SizeLine(last, 0)
    ensures WalkChunks(last + CRLF + CRLF, decoded, maximum) == ChunkWalk(LastChunk, last + CRLF + CRLF, decoded)
  {
    NextOfLast(last, maximum - |decoded|);
  }

  /** Decoding inverts every encoding of every body that fits. */
  lemma {:induction false} DecodeEncoded(chunks: seq<Chunk>, last: seq<Byte>, decoded: seq<Byte>, maximum: int)
    requires ValidStream(chunks, last)
    requires |decoded| + |Joined(chunks)| <= maximum || chunks == []
    ensures WalkChunks(EncodeStream(chunks, last), decoded, maximum)
            == ChunkWalk(LastChunk, last + CRLF + CRLF, decoded + Joined(chunks))
    decreases |chunks|
  {
    hide WalkChunks, ValidChunk, SizeLine;
    if chunks == [] {
      WalkLast(last, decoded, maximum);
      assert decoded + Joined(chunks) == decoded;
    } else {
      var c, tail := chunks[0], EncodeStream(chunks[1..], last);
      WalkEncoded(c, tail, decoded, maximum);
      DecodeEncoded(chunks[1..], last, decoded + c.data, maximum);
      assert decoded + c.data + Joined(chunks[1..]) == decoded + Joined(chunks);
    }
  }

  /** `buffer` is a well-formed stream carrying `body`. */
  ghost predicate Carries(buffer: seq<Byte>, body: seq<Byte>) {
    exists chunks, last :: ValidStream(chunks, last) && buffer == EncodeStream(chunks, last) && body == Joined(chunks)
  }

  lemma CarriesLast(last: seq<Byte>)
    requires SizeLine(last, 0)
    ensures Carries(last + CRLF + CRLF, [])
  {
    var none: seq<Chunk> := [];
    assert ValidStream(none, last) && last + CRLF + CRLF == EncodeStream(none, last) && Joined(none) == [];
  }

  lemma CarriesMore(c: Chunk, tail: seq<Byte>, body: seq<Byte>)
    requires ValidChunk(c) && Carries(tail, body)
    ensures Carries(Encode(c) + tail, c.data + body)
  {
    var chunks, last :| ValidStream(chunks, last) && tail == EncodeStream(chunks, last) && body == Joined(chunks);
    var more := [c] + chunks;
    assert more[1..] == chunks;
    assert ValidStream(more, last) && Encode(c) + tail == EncodeStream(more, last) && c.data + body == Joined(more);
  }

  /** Whatever the decoder accepts was a well-formed stream, and its data is what was added. */
  lemma {:induction false} DecodedIsCarried(buffer: seq<Byte>, decoded: seq<Byte>, maximum: int)
    requires WalkChunks(buffer, decoded, maximum).last.LastChunk?
    ensures exists added :: Carries(buffer, added) && WalkChunks(buffer, decoded, maximum).decoded == decoded + added
                            && (|decoded + added| <= maximum || added == [])
    decreases |buffer|
  {
    hide ValidChunk, SizeLine, Encode, Carries, NextChunk;
    var step := NextChunk(buffer, maximum - |decoded|);
    if step.LastChunk? {
      LastIsEncoded(buffer, maximum - |decoded|);
      var last :| SizeLine(last, 0) && buffer == last + CRLF + CRLF;
      CarriesLast(last);
      assert decoded + [] == decoded;
    } else {
      OneChunkIsEncoded(buffer, maximum - |decoded|);
      var tail := buffer[step.size..];
      var c :| ValidChunk(c) && c.data == step.data && buffer == Encode(c) + tail;
      DecodedIsCarried(tail, decoded + step.data, maximum);
      var added :| Carries(tail, added)
                   && WalkChunks(tail, decoded + step.data, maximum).decoded == decoded + step.data + added
                   && (|decoded + step.data + added| <= maximum || added == []);
      CarriesMore(c, tail, added);
      assert decoded + step.data + added == decoded + (step.data + added);
    }
  }

  /** The decoder accepts exactly the well-formed streams within the limit, and returns what they carry. */
  lemma AcceptsExactly(buffer: seq<Byte>, body: seq<Byte>, maximum: nat)
    ensures (WalkChunks(buffer, [], maximum).last.LastChunk? && WalkChunks(buffer, [], maximum).decoded == body)
            <==> Carries(buffer, body) && |body| <= maximum
  {
    if WalkChunks(buffer, [], maximum).last.LastChunk? && WalkChunks(buffer, [], maximum).decoded == body {
      DecodedIsCarried(buffer, [], maximum);
      var added :| Carries(buffer, added) && body == [] + added && (|[] + added| <= maximum || added == []);
      assert body == added;
    }
    if Carries(buffer, body) && |body| <= maximum {
      var chunks, last :| ValidStream(chunks, last) && buffer == EncodeStream(chunks, last) && body == Joined(chunks);
      DecodeEncoded(chunks, last, [], maximum);
      assert [] + body == body;
    }
  }

  // ---------------------------------------------------------------- prefixes

  /** `p` stops between the CR and the LF of a size line of the greatest length. */
  predicate CutsLongLine(chunks: seq<Chunk>, last: seq<Byte>, p: seq<Byte>) {
    if chunks == [] then |last| == MAX_SIZE_LINE && p == last + [CR]
    else
      var code := Encode(chunks[0]);
      || (|chunks[0].line| == MAX_SIZE_LINE && p == chunks[0].line + [CR])
      || (code <= p && CutsLongLine(chunks[1..], last, p[|code|..]))
  }

  lemma CutInSizeLine(line: seq<Byte>, p: seq<Byte>, room: int)
    requires AllHex(line) && |line| <= MAX_SIZE_LINE
    requires p <= line + [CR]
    ensures NextChunk(p, room)
            == if p == line + [CR] && |line| == MAX_SIZE_LINE then BadChunk(InvalidResponse) else NeedMore
  {
    forall i: nat ensures !OccursAt(p, CRLF, i) {
      if i + 2 <= |p| { assert p[i..i + 2][0] == line[i]; }
    }
  }

  lemma CutAfterSizeLine(c: Chunk, p: seq<Byte>, room: int)
    requires ValidChunk(c) && |c.data| <= room
    requires c.line + CRLF <= p < Encode(c)
    ensures NextChunk(p, room) == NeedMore
  {
    var tail := p[|c.line| + 2..];
    assert p == c.line + CRLF + tail;
    SizeLineEnds(c.line, tail);
    assert p[..|c.line|] == c.line;
  }

  lemma CutInChunk(c: Chunk, p: seq<Byte>, room: int)
    requires ValidChunk(c) && |c.data| <= room
    requires p < Encode(c)
    ensures NextChunk(p, room)
            == if |c.line| == MAX_SIZE_LINE && p == c.line + [CR] then BadChunk(InvalidResponse) else NeedMore
  {
    if |p| <= |c.line| + 1 {
      assert p <= c.line + [CR] by { assert (c.line + [CR]) <= Encode(c); }
      CutInSizeLine(c.line, p, room);
    } else {
      assert c.line + CRLF <= Encode(c);
      CutAfterSizeLine(c, p, room);
    }
  }

  lemma CutInLast(last: seq<Byte>, p: seq<Byte>, room: int)
    requires SizeLine(last, 0)
    requires p < last + CRLF + CRLF
    ensures NextChunk(p, room)
            == if |last| == MAX_SIZE_LINE && p == last + [CR] then BadChunk(InvalidResponse) else NeedMore
  {
    if |p| <= |last| + 1 {
      assert p <= last + [CR] by { assert last + [CR] <= last + CRLF + CRLF; }
      CutInSizeLine(last, p, room);
    } else {
      var tail := p[|last| + 2..];
      assert p == last + CRLF + tail;
      SizeLineEnds(last, tail);
      assert p[..|last|] == last;
    }
  }

  /** On a proper prefix the decoder waits, except at the one cut it refuses. */
  lemma {:induction false} PrefixWaits(chunks: seq<Chunk>, last: seq<Byte>, p: seq<Byte>, decoded: seq<Byte>,
                                       maximum: int)
    requires ValidStream(chunks, last)
    requires |decoded| + |Joined(chunks)| <= maximum || chunks == []
    requires p < EncodeStream(chunks, last)
    ensures WalkChunks(p, decoded, maximum).last
            == if CutsLongLine(chunks, last, p) then BadChunk(InvalidResponse) else NeedMore
    decreases |chunks|
  {
    hide NextChunk, ValidChunk, SizeLine;
    var room := maximum - |decoded|;
    if chunks == [] {
      CutInLast(last, p, room);
    } else {
      var c, code, tail := chunks[0], Encode(chunks[0]), EncodeStream(chunks[1..], last);
      assert p <= code + tail;
      if |p| < |code| {
        assert p < code;
        CutInChunk(c, p, room);
      } else {
        var rest := p[|code|..];
        assert p == code + rest && rest < tail;
        WalkEncoded(c, rest, decoded, maximum);
        PrefixWaits(chunks[1..], last, rest, decoded + c.data, maximum);
        assert !(p == c.line + [CR]);
      }
    }
  }
}
