/** The value-level behaviour of the bounded HTTP/1.1 response parser. */
module Http1 {

  import opened Bytes

  const CRLF: seq<Byte> := [CR, LF]
  const HEAD_END: seq<Byte> := [CR, LF, CR, LF]
  const MAX_HEADER_BYTES := 16384
  const MAX_HEADERS := 64
  const MAX_SIZE_LINE := 128
  const INT_LIMIT := 0x8000_0000_0000_0000

  const SP: Byte := 0x20
  const TAB: Byte := 0x09
  const COLON: Byte := 0x3a

  datatype HttpError = InvalidResponse | ResponseTooLarge | RedirectDenied

  datatype Header = Header(name: seq<Byte>, value: seq<Byte>)

  datatype Framing = ContentLength(length: nat) | Chunked | Empty

  datatype Parsed = Parsed(status: int, headers: seq<Header>, body: seq<Byte>)

  datatype Outcome = Pending | Response(response: Parsed) | Error(error: HttpError)

  datatype Config = Config(requestMethod: string, maximumBodyBytes: int)

  datatype State = State(
    buffer: seq<Byte>,
    status: Option<int>,
    headers: seq<Header>,
    framing: Option<Framing>,
    decoded: seq<Byte>)
  {
    function Append(data: seq<Byte>): State { this.(buffer := buffer + data) }
  }

  const INITIAL := State([], None, [], None, [])

  // ---------------------------------------------------------------- numbers

  predicate AllHex(s: seq<Byte>) { forall i | 0 <= i < |s| :: IsHexDigit(s[i]) }

  function HexValue(s: seq<Byte>): (r: nat)
    requires AllHex(s)
  {
    if s == [] then 0 else HexValue(s[..|s| - 1]) * 16 + HexDigitValue(s[|s| - 1])
  }

  /** A chunk-size line: hexadecimal digits whose value fits a signed 64-bit integer. */
  function ReadSize(line: seq<Byte>): Option<nat> {
    if AllHex(line) && HexValue(line) < INT_LIMIT then Some(HexValue(line)) else None
  }

  /** The library's decimal integer reader: an optional sign, digits, and no overflow. */
  function ReadInt(s: seq<Byte>): (r: Option<int>)
    ensures r.Some? && AllDigits(s) ==> r.value == DigitsValue(s)
  {
    var signed := s != [] && (s[0] == 0x2b || s[0] == 0x2d);
    var digits := if signed then s[1..] else s;
    if digits == [] || !AllDigits(digits) then None
    else
      var value: int := if signed && s[0] == 0x2d then -(DigitsValue(digits) as int) else DigitsValue(digits);
      if -INT_LIMIT <= value < INT_LIMIT then Some(value) else None
  }

  // ---------------------------------------------------------------- head

  predicate IsText(b: Byte) { b == TAB || 0x20 <= b <= 0x7e }

  /** Head bytes are text broken only by complete CR LF pairs. */
  predicate ValidHeadBytes(b: seq<Byte>) {
    if b == [] then true
    else if b[0] == CR then |b| >= 2 && b[1] == LF && ValidHeadBytes(b[2..])
    else IsText(b[0]) && ValidHeadBytes(b[1..])
  }

  function SplitLines(b: seq<Byte>): (r: seq<seq<Byte>>)
    ensures |r| >= 1
    decreases |b|
  {
    match Find(b, CRLF, 0)
    case None => [b]
    case Some(k) => [b[..k]] + SplitLines(b[k + 2..])
  }

  /** The first run of non-space bytes, and what follows it. */
  function NextToken(line: seq<Byte>): (seq<Byte>, seq<Byte>) {
    var text := SkipSpaces(line);
    var n := TokenLength(text);
    (text[..n], text[n..])
  }

  function SkipSpaces(line: seq<Byte>): seq<Byte> {
    if line != [] && line[0] == SP then SkipSpaces(line[1..]) else line
  }

  function TokenLength(line: seq<Byte>): (n: nat)
    ensures n <= |line|
  {
    if line == [] || line[0] == SP then 0 else 1 + TokenLength(line[1..])
  }

  /** The status code, or the reason the status line is refused. */
  function ReadStatusLine(line: seq<Byte>): Result<int, HttpError> {
    var (version, rest) := NextToken(line);
    var (code, _) := NextToken(rest);
    if version == [] || code == [] then Err(InvalidResponse)
    else
      var status := ReadInt(code);
      if version == Ascii("HTTP/1.1") && |code| == 3 && AllDigits(code) && status.Some?
         && 100 <= status.value <= 599 && !(300 <= status.value <= 399)
      then Ok(status.value)
      else if status.Some? && 300 <= status.value <= 399 then Err(RedirectDenied)
      else Err(InvalidResponse)
  }

  predicate IsTokenByte(b: Byte) {
    IsDigit(b) || 0x41 <= b <= 0x5a || 0x61 <= b <= 0x7a
    || b in {0x21, 0x23, 0x24, 0x25, 0x26, 0x27, 0x2a, 0x2b, 0x2d, 0x2e, 0x5e, 0x5f, 0x60, 0x7c, 0x7e}
  }

  predicate IsToken(s: seq<Byte>) { s != [] && forall i | 0 <= i < |s| :: IsTokenByte(s[i]) }

  function TrimLeft(s: seq<Byte>): seq<Byte> {
    if s != [] && (s[0] == SP || s[0] == TAB) then TrimLeft(s[1..]) else s
  }

  function TrimRight(s: seq<Byte>): seq<Byte> {
    if s != [] && (s[|s| - 1] == SP || s[|s| - 1] == TAB) then TrimRight(s[..|s| - 1]) else s
  }

  function ReadHeader(line: seq<Byte>): Option<Header> {
    if line != [] && (line[0] == SP || line[0] == TAB) then None
    else match Find(line, [COLON], 0)
      case None => None
      case Some(k) =>
        if IsToken(line[..k]) then Some(Header(line[..k], TrimRight(TrimLeft(line[k + 1..])))) else None
  }

  function ReadHeaderLines(lines: seq<seq<Byte>>): Option<seq<Header>> {
    if lines == [] then Some([])
    else
      var init, last := ReadHeaderLines(lines[..|lines| - 1]), ReadHeader(lines[|lines| - 1]);
      if init.Some? && last.Some? then Some(init.value + [last.value]) else None
  }

  function ReadHeaders(lines: seq<seq<Byte>>): Result<seq<Header>, HttpError> {
    if |lines| > MAX_HEADERS then Err(ResponseTooLarge)
    else match ReadHeaderLines(lines)
      case None => Err(InvalidResponse)
      case Some(headers) => Ok(headers)
  }

  /** The values of every header with the given lower-case name, in order. */
  function ValuesOf(headers: seq<Header>, name: seq<Byte>): seq<seq<Byte>> {
    if headers == [] then []
    else
      var init, last := ValuesOf(headers[..|headers| - 1], name), headers[|headers| - 1];
      if Lower(last.name) == name then init + [last.value] else init
  }

  /** How the body is delimited, section 6.3 of RFC 9112. */
  function FramingOf(config: Config, status: int, headers: seq<Header>): Result<Framing, HttpError> {
    if config.requestMethod == "HEAD" || 100 <= status <= 199 || status == 204 || status == 304 then Ok(Empty)
    else
      var lengths := ValuesOf(headers, Ascii("content-length"));
      var encodings := ValuesOf(headers, Ascii("transfer-encoding"));
      if lengths != [] && encodings != [] then Err(InvalidResponse)
      else if lengths != [] then
        if |lengths| == 1 && AllDigits(lengths[0]) && ReadInt(lengths[0]).Some? then
          var length := ReadInt(lengths[0]).value;
          if length <= config.maximumBodyBytes then Ok(ContentLength(length)) else Err(ResponseTooLarge)
        else Err(InvalidResponse)
      else if |encodings| == 1 && Lower(encodings[0]) == Ascii("chunked") then Ok(Chunked)
      else Err(InvalidResponse)
  }

  datatype Head = Head(status: int, headers: seq<Header>)

  /** One head, its terminating blank line already removed. */
  function ReadHead(head: seq<Byte>): Result<Head, HttpError> {
    if !ValidHeadBytes(head) then Err(InvalidResponse)
    else
      var lines := SplitLines(head);
      match ReadStatusLine(lines[0])
      case Err(e) => Err(e)
      case Ok(status) =>
        match ReadHeaders(lines[1..])
        case Err(e) => Err(e)
        case Ok(headers) => Ok(Head(status, headers))
  }

  datatype HeadStep = NoHead | HeadFault(error: HttpError, state: State) | HeadTaken(state: State)

  /** One attempt to take a head off the front of the buffer. */
  function TakeHead(config: Config, st: State): (r: HeadStep)
    ensures r.HeadTaken? ==> |r.state.buffer| < |st.buffer|
  {
    match Find(st.buffer, HEAD_END, 0)
    case None => if |st.buffer| <= MAX_HEADER_BYTES then NoHead else HeadFault(ResponseTooLarge, st)
    case Some(k) =>
      if k + 4 > MAX_HEADER_BYTES then HeadFault(ResponseTooLarge, st)
      else ApplyHead(config, st.(buffer := st.buffer[k + 4..]), ReadHead(st.buffer[..k]))
  }

  /** What a head does to the state: interim heads leave no trace, 101 is refused. */
  function ApplyHead(config: Config, st: State, head: Result<Head, HttpError>): (r: HeadStep)
    ensures !r.NoHead? ==> r.state.buffer == st.buffer && r.state.decoded == st.decoded
    ensures !r.NoHead?
  {
    match head
    case Err(e) => HeadFault(e, st)
    case Ok(h) =>
      if 100 <= h.status <= 199 then
        if h.status == 101 then HeadFault(InvalidResponse, st) else HeadTaken(st)
      else
        var known := st.(status := Some(h.status), headers := h.headers);
        match FramingOf(config, h.status, h.headers)
        case Err(e) => HeadFault(e, known)
        case Ok(framing) => HeadTaken(known.(framing := Some(framing)))
  }

  datatype Heads = Ready(state: State) | Waiting(state: State) | Fault(error: HttpError, state: State)

  /** Takes heads until the framing is known. */
  function TakeHeads(config: Config, st: State): (r: Heads)
    ensures r.Ready? ==> r.state.framing.Some?
    ensures r.Waiting? ==> r.state.framing.None?
    ensures st.framing.Some? ==> r == Ready(st)
    decreases |st.buffer|
  {
    if st.framing.Some? then Ready(st)
    else match TakeHead(config, st)
      case NoHead => Waiting(st)
      case HeadFault(e, s) => Fault(e, s)
      case HeadTaken(s) => TakeHeads(config, s)
  }

  // ---------------------------------------------------------------- body

  datatype ChunkStep = NeedMore | BadChunk(error: HttpError) | LastChunk | OneChunk(data: seq<Byte>, size: nat)

  /** The chunk at the front of `buffer`; `size` counts its encoded bytes. */
  function NextChunk(buffer: seq<Byte>, room: int): (r: ChunkStep)
    ensures r.OneChunk? ==> 0 < r.size <= |buffer| && 0 < |r.data| <= room
  {
    match Find(buffer, CRLF, 0)
    case None => if |buffer| <= MAX_SIZE_LINE then NeedMore else BadChunk(InvalidResponse)
    case Some(k) =>
      if k == 0 || k > MAX_SIZE_LINE then BadChunk(InvalidResponse)
      else match ReadSize(buffer[..k])
        case None => BadChunk(InvalidResponse)
        case Some(size) =>
          if size == 0 then
            if |buffer| < k + 4 then NeedMore
            else if buffer[k + 2..k + 4] == CRLF && |buffer| == k + 4 then LastChunk
            else BadChunk(InvalidResponse)
          else if size > room then BadChunk(ResponseTooLarge)
          else
            var end := k + 2 + size;
            if |buffer| < end + 2 then NeedMore
            else if buffer[end..end + 2] == CRLF then OneChunk(buffer[k + 2..end], end + 2)
            else BadChunk(InvalidResponse)
  }

  datatype ChunkWalk = ChunkWalk(last: ChunkStep, rest: seq<Byte>, decoded: seq<Byte>)

  /** Decodes every complete chunk at the front of `buffer`. */
  function WalkChunks(buffer: seq<Byte>, decoded: seq<Byte>, maximum: int): (r: ChunkWalk)
    ensures !r.last.OneChunk?
    decreases |buffer|
  {
    var step := NextChunk(buffer, maximum - |decoded|);
    if step.OneChunk? then WalkChunks(buffer[step.size..], decoded + step.data, maximum)
    else ChunkWalk(step, buffer, decoded)
  }

  function ChunkOutcome(step: ChunkStep, status: int, headers: seq<Header>, decoded: seq<Byte>): Outcome
    requires !step.OneChunk?
  {
    match step
    case NeedMore => Pending
    case BadChunk(e) => Error(e)
    case LastChunk => Response(Parsed(status, headers, decoded))
  }

  function TakeBody(config: Config, st: State): (Outcome, State) {
    if st.status.None? || st.framing.None? then (Pending, st)
    else match st.framing.value
      case Empty =>
        (if st.buffer == [] then Response(Parsed(st.status.value, st.headers, [])) else Error(InvalidResponse), st)
      case ContentLength(length) =>
        (if |st.buffer| < length then Pending
         else if |st.buffer| == length then Response(Parsed(st.status.value, st.headers, st.buffer))
         else Error(InvalidResponse), st)
      case Chunked =>
        var walk := WalkChunks(st.buffer, st.decoded, config.maximumBodyBytes);
        (ChunkOutcome(walk.last, st.status.value, st.headers, walk.decoded),
         st.(buffer := walk.rest, decoded := walk.decoded))
  }

  function Settle(outcome: Outcome, isComplete: bool): Outcome {
    if outcome.Pending? && isComplete then Error(InvalidResponse) else outcome
  }

  /** One `consume` call: the fragment is appended and everything complete is parsed. */
  function Consume(config: Config, st: State, data: seq<Byte>, isComplete: bool): (Outcome, State) {
    match TakeHeads(config, st.Append(data))
    case Waiting(s) => (Settle(Pending, isComplete), s)
    case Fault(e, s) => (Error(e), s)
    case Ready(s) =>
      var (outcome, s') := TakeBody(config, s);
      (Settle(outcome, isComplete), s')
  }
}
