/** Which heads and chunked bodies are too large, told from their own bytes. */
module Http1Refusals {

  import opened Bytes
  import opened Http1
  import opened Http1Chunks

  /** Complete chunks, one after another. */
  function Run(chunks: seq<Chunk>): seq<Byte> {
    if chunks == [] then [] else Encode(chunks[0]) + Run(chunks[1..])
  }

  predicate AllChunks(chunks: seq<Chunk>) { forall i | 0 <= i < |chunks| :: ValidChunk(chunks[i]) }

  /** The buffer opens with the size line of a chunk that does not fit. */
  predicate OpensTooLarge(buffer: seq<Byte>, line: seq<Byte>, size: nat, room: int) {
    0 < size && size > room && SizeLine(line, size) && line + CRLF <= buffer
  }

  /** Chunks that fit, then the size line of one that does not, whatever follows. */
  predicate OverflowsAfter(
    buffer: seq<Byte>, chunks: seq<Chunk>, line: seq<Byte>, size: nat, decoded: nat, maximum: int)
  {
    && AllChunks(chunks) && (chunks == [] || decoded + |Joined(chunks)| <= maximum)
    && Run(chunks) <= buffer
    && OpensTooLarge(buffer[|Run(chunks)|..], line, size, maximum - decoded - |Joined(chunks)|)
  }

  ghost predicate Overflows(buffer: seq<Byte>, decoded: nat, maximum: int) {
    exists chunks, line, size: nat :: OverflowsAfter(buffer, chunks, line, size, decoded, maximum)
  }

  lemma TooLargeIsOpened(buffer: seq<Byte>, room: int) returns (line: seq<Byte>, size: nat)
    requires NextChunk(buffer, room) == BadChunk(ResponseTooLarge)
    ensures OpensTooLarge(buffer, line, size, room)
  {
    hide HexValue;
    var k := Find(buffer, CRLF, 0).value;
    line, size := buffer[..k], ReadSize(buffer[..k]).value;
    assert buffer[k..k + 2] == CRLF;
    assert line + CRLF == buffer[..k + 2];
  }

  lemma OpenedIsTooLarge(buffer: seq<Byte>, line: seq<Byte>, size: nat, room: int)
    requires OpensTooLarge(buffer, line, size, room)
    ensures NextChunk(buffer, room) == BadChunk(ResponseTooLarge)
  {
    hide Find, OccursAt, HexValue;
    var tail := buffer[|line| + 2..];
    assert buffer == line + CRLF + tail;
    SizeLineEnds(line, tail);
    assert buffer[..|line|] == line;
  }

  lemma {:induction false} OverflowIsRefused(
    buffer: seq<Byte>, chunks: seq<Chunk>, line: seq<Byte>, size: nat, decoded: seq<Byte>, maximum: int)
    requires OverflowsAfter(buffer, chunks, line, size, |decoded|, maximum)
    ensures WalkChunks(buffer, decoded, maximum).last == BadChunk(ResponseTooLarge)
    decreases |chunks|
  {
    hide NextChunk, ValidChunk, OpensTooLarge, Encode;
    if chunks == [] {
      assert buffer[0..] == buffer;
      OpenedIsTooLarge(buffer, line, size, maximum - |decoded|);
    } else {
      var c, rest := chunks[0], chunks[1..];
      var tail := buffer[|Encode(c)|..];
      var front := Encode(c) + Run(rest);
      assert front == Run(chunks) == buffer[..|front|];
      assert Encode(c) == front[..|Encode(c)|] == buffer[..|Encode(c)|];
      assert buffer == Encode(c) + tail;
      assert tail[..|Run(rest)|] == front[|Encode(c)|..] == Run(rest);
      assert tail[|Run(rest)|..] == buffer[|Run(chunks)|..];
      WalkEncoded(c, tail, decoded, maximum);
      OverflowIsRefused(tail, rest, line, size, decoded + c.data, maximum);
    }
  }

  lemma OverflowsMore(c: Chunk, tail: seq<Byte>, decoded: seq<Byte>, maximum: int)
    requires ValidChunk(c) && |decoded| + |c.data| <= maximum && Overflows(tail, |decoded + c.data|, maximum)
    ensures Overflows(Encode(c) + tail, |decoded|, maximum)
  {
    hide ValidChunk, OpensTooLarge, Encode;
    var chunks, line, size: nat :| OverflowsAfter(tail, chunks, line, size, |decoded + c.data|, maximum);
    var more, buffer := [c] + chunks, Encode(c) + tail;
    assert more[1..] == chunks && Run(more) == Encode(c) + Run(chunks) && Joined(more) == c.data + Joined(chunks);
    assert tail == Run(chunks) + tail[|Run(chunks)|..];
    assert buffer[..|Run(more)|] == Run(more);
    assert buffer[|Run(more)|..] == tail[|Run(chunks)|..];
    assert OverflowsAfter(buffer, more, line, size, |decoded|, maximum);
  }

  lemma {:induction false} RefusedIsOverflow(buffer: seq<Byte>, decoded: seq<Byte>, maximum: int)
    requires WalkChunks(buffer, decoded, maximum).last == BadChunk(ResponseTooLarge)
    ensures Overflows(buffer, |decoded|, maximum)
    decreases |buffer|
  {
    hide NextChunk, ValidChunk, OpensTooLarge, Encode, Overflows;
    var room := maximum - |decoded|;
    var step := NextChunk(buffer, room);
    if step.OneChunk? {
      RefusedIsOverflow(buffer[step.size..], decoded + step.data, maximum);
      OneChunkIsEncoded(buffer, room);
      var c :| ValidChunk(c) && c.data == step.data && buffer == Encode(c) + buffer[step.size..];
      OverflowsMore(c, buffer[step.size..], decoded, maximum);
    } else {
      var line, size := TooLargeIsOpened(buffer, room);
      OverflowsAtOnce(buffer, line, size, decoded, maximum);
    }
  }

  lemma OverflowsAtOnce(buffer: seq<Byte>, line: seq<Byte>, size: nat, decoded: seq<Byte>, maximum: int)
    requires OpensTooLarge(buffer, line, size, maximum - |decoded|)
    ensures Overflows(buffer, |decoded|, maximum)
  {
    hide OpensTooLarge;
    var none: seq<Chunk> := [];
    assert buffer[0..] == buffer && Run(none) == [] && Joined(none) == [];
    assert OverflowsAfter(buffer, none, line, size, |decoded|, maximum);
  }

  /** A chunked body is too large exactly when complete chunks that fit are followed by a size that does not. */
  lemma TooLargeIff(buffer: seq<Byte>, maximum: int)
    ensures WalkChunks(buffer, [], maximum).last == BadChunk(ResponseTooLarge) <==> Overflows(buffer, 0, maximum)
  {
    hide WalkChunks, OverflowsAfter;
    if WalkChunks(buffer, [], maximum).last == BadChunk(ResponseTooLarge) { RefusedIsOverflow(buffer, [], maximum); }
    if chunks, line, size: nat :| OverflowsAfter(buffer, chunks, line, size, 0, maximum) {
      OverflowIsRefused(buffer, chunks, line, size, [], maximum);
    }
  }

  /** More than 16384 bytes without a complete head among the first 16384 are too large. */
  lemma LongHeadIsRefused(config: Config, data: seq<Byte>, isComplete: bool)
    requires |data| > 16384 && forall k: nat | k + 4 <= 16384 :: !OccursAt(data, [CR, LF, CR, LF], k)
    ensures Consume(config, INITIAL, data, isComplete).0 == Error(ResponseTooLarge)
  {
    hide OccursAt;
    assert INITIAL.Append(data).buffer == data;
  }
}
