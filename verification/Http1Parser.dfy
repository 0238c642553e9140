/** The parser as the program runs it: fields updated in place, loops over offsets. */
module Http1Parser {

  import opened Bytes
  import opened Http1

  /** The byte scan of a head. */
  method ScanHeadBytes(bytes: seq<Byte>) returns (valid: bool)
    ensures valid <==> ValidHeadBytes(bytes)
  {
    var index := 0;
    while index < |bytes|
      invariant 0 <= index <= |bytes|
      invariant ValidHeadBytes(bytes) <==> ValidHeadBytes(bytes[index..])
    {
      if bytes[index] == CR {
        if !(index + 1 < |bytes| && bytes[index + 1] == LF) { return false; }
        assert bytes[index..][2..] == bytes[index + 2..];
        index := index + 2;
      } else {
        if !(bytes[index] == TAB || 0x20 <= bytes[index] <= 0x7e) { return false; }
        assert bytes[index..][1..] == bytes[index + 1..];
        index := index + 1;
      }
    }
    assert bytes[index..] == [];
    return true;
  }

  type Fields = map<seq<Byte>, seq<seq<Byte>>>

  function Lookup(fields: Fields, name: seq<Byte>): seq<seq<Byte>> {
    if name in fields then fields[name] else []
  }

  /** The header loop; its dictionary answers every lower-case name with that header's values in order. */
  method ParseHeaders(lines: seq<seq<Byte>>) returns (result: Result<seq<Header>, HttpError>, fields: Fields)
    ensures result == ReadHeaders(lines)
    ensures result.Ok? ==> forall name :: Lookup(fields, name) == ValuesOf(result.value, name)
  {
    hide ReadHeader, Lower;
    fields := map[];
    if |lines| > MAX_HEADERS { return Err(ResponseTooLarge), fields; }
    var list: seq<Header> := [];
    for i := 0 to |lines|
      invariant ReadHeaderLines(lines[..i]) == Some(list)
      invariant forall name :: Lookup(fields, name) == ValuesOf(list, name)
    {
      assert lines[..i + 1][..i] == lines[..i];
      var header := ReadHeader(lines[i]);
      if header.None? {
        RefusedLine(lines, i + 1);
        return Err(InvalidResponse), fields;
      }
      var key := Lower(header.value.name);
      assert (list + [header.value])[..|list|] == list;
      fields := fields[key := Lookup(fields, key) + [header.value.value]];
      list := list + [header.value];
    }
    assert lines[..|lines|] == lines;
    result := Ok(list);
  }

  lemma {:induction false} RefusedLine(lines: seq<seq<Byte>>, n: nat)
    requires n <= |lines| && ReadHeaderLines(lines[..n]).None?
    ensures ReadHeaderLines(lines).None?
    decreases |lines|
  {
    if n < |lines| {
      assert lines[..|lines| - 1][..n] == lines[..n];
      RefusedLine(lines[..|lines| - 1], n);
    } else {
      assert lines[..n] == lines;
    }
  }

  class BoundedHttp1ResponseParser {
    const config: Config
    var buffer: seq<Byte>
    var statusCode: Option<int>
    var headers: seq<Header>
    var framing: Option<Framing>
    var decodedBody: seq<Byte>

    ghost function Contents(): State
      reads this
    {
      State(buffer, statusCode, headers, framing, decodedBody)
    }

    constructor (config: Config)
      ensures this.config == config && Contents() == INITIAL
    {
      this.config := config;
      buffer, statusCode, headers, framing, decodedBody := [], None, [], None, [];
    }

    /** Appends a fragment and parses all it can: exactly `Http1.Consume`. */
    method Feed(data: seq<Byte>, isComplete: bool) returns (outcome: Outcome)
      modifies this
      ensures (outcome, Contents()) == Consume(config, old(Contents()), data, isComplete)
    {
      buffer := buffer + data;
      while framing.None?
        invariant TakeHeads(config, Contents()) == TakeHeads(config, old(Contents()).Append(data))
        decreases framing.None?, |buffer|
      {
        var step := ParseHeadIfAvailable();
        match step {
          case Ok(taken) =>
            if !taken { return if isComplete then Error(InvalidResponse) else Pending; }
          case Err(e) =>
            return Error(e);
        }
      }
      outcome := ParseBodyIfAvailable();
      if outcome.Pending? && isComplete { outcome := Error(InvalidResponse); }
    }

    /** Takes one head off the buffer, or says there is none yet. */
    method ParseHeadIfAvailable() returns (taken: Result<bool, HttpError>)
      requires framing.None?
      modifies this
      ensures match TakeHead(config, old(Contents()))
              case NoHead => taken == Ok(false) && Contents() == old(Contents())
              case HeadFault(e, st) => taken == Err(e) && Contents() == st
              case HeadTaken(st) => taken == Ok(true) && Contents() == st
    {
      hide Find, OccursAt, ValidHeadBytes, SplitLines, ReadStatusLine, ReadHeaders, FramingOf, ValuesOf;
      var found := Find(buffer, HEAD_END, 0);
      if found.None? {
        return if |buffer| <= MAX_HEADER_BYTES then Ok(false) else Err(ResponseTooLarge);
      }
      if found.value + 4 > MAX_HEADER_BYTES { return Err(ResponseTooLarge); }
      var head := buffer[..found.value];
      buffer := buffer[found.value + 4..];
      var valid := ScanHeadBytes(head);
      if !valid { return Err(InvalidResponse); }
      var lines := SplitLines(head);
      var status := ReadStatusLine(lines[0]);
      if status.Err? { return Err(status.error); }
      var parsed, fields := ParseHeaders(lines[1..]);
      if parsed.Err? { return Err(parsed.error); }
      if 100 <= status.value <= 199 {
        return if status.value == 101 then Err(InvalidResponse) else Ok(true);
      }
      statusCode := Some(status.value);
      headers := parsed.value;
      var chosen := ChooseFraming(status.value, fields, parsed.value);
      if chosen.Err? { return Err(chosen.error); }
      framing := Some(chosen.value);
      return Ok(true);
    }

    /** The framing decision, from the dictionary of fields. */
    method ChooseFraming(status: int, fields: Fields, ghost list: seq<Header>) returns (r: Result<Framing, HttpError>)
      requires forall name :: Lookup(fields, name) == ValuesOf(list, name)
      ensures r == FramingOf(config, status, list)
    {
      if config.requestMethod == "HEAD" || 100 <= status <= 199 || status == 204 || status == 304 { return Ok(Empty); }
      var lengths := Lookup(fields, Ascii("content-length"));
      var encodings := Lookup(fields, Ascii("transfer-encoding"));
      if !(lengths == [] || encodings == []) { return Err(InvalidResponse); }
      if lengths != [] {
        if |lengths| != 1 || !AllDigits(lengths[0]) { return Err(InvalidResponse); }
        var length := ReadInt(lengths[0]);
        if length.None? { return Err(InvalidResponse); }
        return if length.value <= config.maximumBodyBytes then Ok(ContentLength(length.value))
               else Err(ResponseTooLarge);
      }
      if encodings != [] {
        return if |encodings| == 1 && Lower(encodings[0]) == Ascii("chunked") then Ok(Chunked)
               else Err(InvalidResponse);
      }
      return Err(InvalidResponse);
    }

    method ParseBodyIfAvailable() returns (outcome: Outcome)
      modifies this
      ensures (outcome, Contents()) == TakeBody(config, old(Contents()))
    {
      if statusCode.None? || framing.None? { return Pending; }
      match framing.value {
        case Empty =>
          if buffer != [] { return Error(InvalidResponse); }
          return Response(Parsed(statusCode.value, headers, []));
        case ContentLength(length) =>
          if |buffer| < length { return Pending; }
          if |buffer| != length { return Error(InvalidResponse); }
          return Response(Parsed(statusCode.value, headers, buffer));
        case Chunked =>
          outcome := ParseChunked(statusCode.value);
      }
    }

    /** The chunk loop: an offset moves over the buffer, which is trimmed once on the way out. */
    method ParseChunked(status: int) returns (outcome: Outcome)
      modifies this`buffer, this`decodedBody
      ensures var walk := WalkChunks(old(buffer), old(decodedBody), config.maximumBodyBytes);
              && outcome == ChunkOutcome(walk.last, status, headers, walk.decoded)
              && buffer == walk.rest && decodedBody == walk.decoded
    {
      hide NextChunk;
      var offset := 0;
      ghost var walk := WalkChunks(buffer, decodedBody, config.maximumBodyBytes);
      assert buffer[0..] == buffer;
      while true
        invariant 0 <= offset <= |buffer| && buffer == old(buffer)
        invariant WalkChunks(buffer[offset..], decodedBody, config.maximumBodyBytes) == walk
        decreases |buffer| - offset
      {
        var step := ReadChunkAt(offset);
        if step.OneChunk? {
          decodedBody := decodedBody + step.data;
          assert buffer[offset..][step.size..] == buffer[offset + step.size..];
          offset := offset + step.size;
        } else {
          outcome := ChunkOutcome(step, status, headers, decodedBody);
          break;
        }
      }
      buffer := buffer[offset..];
    }

    /** The guards on the chunk that starts at `offset`, in the program's order and with its indices. */
    method ReadChunkAt(offset: nat) returns (step: ChunkStep)
      requires offset <= |buffer|
      ensures step == NextChunk(buffer[offset..], config.maximumBodyBytes - |decodedBody|)
    {
      hide Find, OccursAt, ReadSize;
      FindShift(buffer, CRLF, offset);
      ghost var rest := buffer[offset..];
      var found := Find(buffer, CRLF, offset);
      if found.None? {
        return if |buffer| - offset <= MAX_SIZE_LINE then NeedMore else BadChunk(InvalidResponse);
      }
      var lineEnd := found.value;
      if !(lineEnd > offset && lineEnd - offset <= MAX_SIZE_LINE) { return BadChunk(InvalidResponse); }
      assert rest[..lineEnd - offset] == buffer[offset..lineEnd];
      var size := ReadSize(buffer[offset..lineEnd]);
      if size.None? { return BadChunk(InvalidResponse); }
      var contentStart := lineEnd + 2;
      if size.value == 0 {
        if |buffer| < contentStart + 2 { return NeedMore; }
        assert rest[contentStart - offset..contentStart - offset + 2] == buffer[contentStart..contentStart + 2];
        return if buffer[contentStart..contentStart + 2] == CRLF && |buffer| == contentStart + 2
          then LastChunk else BadChunk(InvalidResponse);
      }
      if size.value > config.maximumBodyBytes - |decodedBody| { return BadChunk(ResponseTooLarge); }
      var contentEnd := contentStart + size.value;
      if |buffer| < contentEnd + 2 { return NeedMore; }
      assert rest[contentEnd - offset..contentEnd - offset + 2] == buffer[contentEnd..contentEnd + 2];
      assert rest[contentStart - offset..contentEnd - offset] == buffer[contentStart..contentEnd];
      return if buffer[contentEnd..contentEnd + 2] == CRLF
        then OneChunk(buffer[contentStart..contentEnd], contentEnd + 2 - offset) else BadChunk(InvalidResponse);
    }
  }
}
