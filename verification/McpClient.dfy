/** The protocol messages of MCP discovery: requests, replies and the decoder bound to one request. */
module McpClient {

  import opened Bytes

  datatype Version = Modern | Legacy

  datatype Kind = Discover | Initialize | Acknowledge(version: Version) | ListTools(version: Version)

  datatype Decoder = Decoder(id: Option<nat>, kind: Kind)

  datatype ClientError =
    | UnsupportedResponseMode | InvalidContentType | UnexpectedHttpStatus | InvalidJson | InvalidEnvelope
    | MismatchedResponseId | UnsupportedProtocolVersion | MethodNotFound | RequestRejected | PeerUnavailable
    | RemoteFailure | ToolListTooLarge

  datatype BindingFault = InvalidName | SchemaTooLarge | InvalidSchema

  /** A listed tool, and the fault found when it is bound to a route, if any. */
  datatype Tool = Tool(name: seq<Byte>, schema: seq<Byte>, fault: Option<BindingFault>)

  datatype ContentType = JsonContent | EventStream | OtherContent

  /** What a result says under the keys the client looks at. */
  datatype Payload =
    | RpcError(code: int)
    | RpcResult(complete: bool, supported: Option<seq<Version>>, selected: Option<Version>,
                tools: Result<seq<Tool>, ClientError>)

  datatype Message = NotJson | NotResponse | Response(id: Option<nat>, payload: Payload)

  datatype Reply = Reply(status: nat, emptyBody: bool, content: ContentType, message: Message)

  datatype ClientResponse =
    | Acknowledged | Discovered(version: Version) | Initialized(version: Version) | Listed(tools: seq<Tool>)

  predicate IsSuccess(status: nat) { 200 <= status < 300 }

  /** The revision a request is routed under. */
  function Routing(kind: Kind): Option<Version> {
    match kind
    case Discover => Some(Modern)
    case Initialize => None
    case Acknowledge(version) => Some(version)
    case ListTools(version) => Some(version)
  }

  function ClassifyRemote(code: int): ClientError {
    if code == -32022 then UnsupportedProtocolVersion
    else if code == -32601 then MethodNotFound
    else if code in {-32700, -32600, -32602, -32020} then RequestRejected
    else if code == -32603 then PeerUnavailable
    else RemoteFailure
  }

  /** The highest revision both sides know, whatever order the peer lists them in. */
  function Select(supported: seq<Version>): Option<Version> {
    if Modern in supported then Some(Modern) else if Legacy in supported then Some(Legacy) else None
  }

  function DecodeResult(kind: Kind, payload: Payload): Result<ClientResponse, ClientError>
    requires payload.RpcResult?
  {
    match kind
    case Discover =>
      if payload.supported.None? then Err(InvalidEnvelope)
      else if Select(payload.supported.value).None? then Err(UnsupportedProtocolVersion)
      else Ok(Discovered(Select(payload.supported.value).value))
    case Initialize =>
      if payload.selected.None? then Err(UnsupportedProtocolVersion) else Ok(Initialized(payload.selected.value))
    case ListTools(_) => if payload.tools.Ok? then Ok(Listed(payload.tools.value)) else Err(payload.tools.error)
    case Acknowledge(_) => Err(InvalidEnvelope)
  }

  function DecodeReply(decoder: Decoder, reply: Reply): Result<ClientResponse, ClientError> {
    if decoder.kind.Acknowledge? then
      if reply.status == 202 && reply.emptyBody then Ok(Acknowledged)
      else if !IsSuccess(reply.status) then Err(UnexpectedHttpStatus)
      else Err(InvalidEnvelope)
    else match reply.content
      case EventStream => Err(UnsupportedResponseMode)
      case OtherContent => Err(InvalidContentType)
      case JsonContent => DecodeMessage(decoder, reply)
  }

  function DecodeMessage(decoder: Decoder, reply: Reply): Result<ClientResponse, ClientError> {
    match reply.message
    case NotJson => Err(InvalidJson)
    case NotResponse => Err(InvalidEnvelope)
    case Response(id, payload) =>
      if id != decoder.id then Err(MismatchedResponseId)
      else match payload
        case RpcError(code) => Err(ClassifyRemote(code))
        case RpcResult(complete, _, _, _) =>
          if !IsSuccess(reply.status) then Err(UnexpectedHttpStatus)
          else if Routing(decoder.kind) == Some(Modern) && !complete then Err(UnsupportedResponseMode)
          else DecodeResult(decoder.kind, payload)
  }

  /** Token characters, then only padding; at least one token character. */
  predicate TokenByte(b: Byte) {
    IsDigit(b) || 0x41 <= b <= 0x5a || 0x61 <= b <= 0x7a || b in [0x2d, 0x2e, 0x5f, 0x7e, 0x2b, 0x2f]
  }

  const PADDING: Byte := 0x3d

  predicate ValidBearer(token: seq<Byte>) {
    var found := Find(token, [PADDING], 0);
    var padding := if found.Some? then found.value else |token|;
    && padding != 0
    && (forall i | 0 <= i < padding :: TokenByte(token[i]))
    && (forall i | padding <= i < |token| :: token[i] == PADDING)
  }
}
