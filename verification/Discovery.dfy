/** The configuration-time MCP discovery operation: negotiate a revision, then list the tools. */
module Discovery {

  import opened Bytes
  import opened McpClient

  type Secret = seq<Byte>

  datatype DiscoveryError =
    | InvalidState | SecretUnavailable | InvalidRequest | EndpointPolicy | DeadlineExceeded | Unavailable
    | ResponseTooLarge | UnsupportedProtocol | UnsupportedMode | Rejected | InvalidResponse
    | ToolLimitExceeded | InvalidToolSchema

  datatype TransportError =
    | Policy | TlsFailed | TransportDeadline | ConnectionFailed | TooLarge | BadResponse
    | RequestTooLarge | InvalidLimits | UnsupportedEndpoint | InvalidMessage

  datatype DiscoveryState =
    | Ready
    | AwaitingDiscovery(decoder: Decoder)
    | AwaitingInitialization(decoder: Decoder)
    | AwaitingAcknowledgement(version: Version, decoder: Decoder)
    | AwaitingTools(version: Version, decoder: Decoder)
    | Complete

  datatype Request = Request(id: Option<nat>, kind: Kind, bearer: Option<Secret>, deadline: int)

  datatype Outcome = Outcome(version: Version, tools: seq<Tool>)

  datatype Transition = Http(request: Request) | Finished(result: Result<Outcome, DiscoveryError>)

  /** Whether the next message encodes and fits the transport's bounds. */
  datatype Build = Build(encodes: bool, fits: bool)

  /** The fields of the operation; `bearer` says whether it authenticates. */
  datatype Operation = Operation(
    bearer: bool, deadline: Option<int>, secrets: seq<Secret>, nextId: nat, state: DiscoveryState)

  const U64_MAX := 0xffff_ffff_ffff_ffff

  function New(bearer: bool): Operation { Operation(bearer, None, [], 1, Ready) }

  function ClassifyBinding(fault: BindingFault): DiscoveryError {
    if fault.InvalidName? then InvalidResponse else InvalidToolSchema
  }

  function ClassifyClient(error: ClientError): DiscoveryError {
    match error
    case UnsupportedResponseMode => UnsupportedMode
    case UnsupportedProtocolVersion | MethodNotFound => UnsupportedProtocol
    case PeerUnavailable => Unavailable
    case UnexpectedHttpStatus | RequestRejected | RemoteFailure => Rejected
    case ToolListTooLarge => ToolLimitExceeded
    case InvalidContentType | InvalidJson | InvalidEnvelope | MismatchedResponseId => InvalidResponse
  }

  function ClassifyTransport(error: TransportError): DiscoveryError {
    match error
    case Policy | TlsFailed => EndpointPolicy
    case TransportDeadline => DeadlineExceeded
    case ConnectionFailed => Unavailable
    case TooLarge => ResponseTooLarge
    case BadResponse => InvalidResponse
    case RequestTooLarge | InvalidLimits | UnsupportedEndpoint | InvalidMessage => InvalidRequest
  }

  /** The tools in the order received, or the first one's fault. */
  function FirstFault(tools: seq<Tool>): Option<BindingFault> {
    if tools == [] then None
    else if tools[0].fault.Some? then tools[0].fault
    else FirstFault(tools[1..])
  }

  function CompileResult(version: Version, tools: seq<Tool>): Result<Outcome, DiscoveryError> {
    match FirstFault(tools)
    case Some(fault) => Err(ClassifyBinding(fault))
    case None => Ok(Outcome(version, tools))
  }

  // ---------------------------------------------------------------- one step

  function Finish(op: Operation, result: Result<Outcome, DiscoveryError>): (Operation, Transition) {
    (op.(state := Complete, deadline := None, secrets := []), Finished(result))
  }

  /** The authenticated request for one message, or why it cannot be sent. */
  function Compose(op: Operation, id: Option<nat>, kind: Kind, fits: bool): Result<Request, DiscoveryError> {
    if op.bearer && (op.secrets == [] || !ValidBearer(op.secrets[0])) then Err(SecretUnavailable)
    else if op.deadline.None? then Err(InvalidState)
    else if !fits then Err(InvalidRequest)
    else Ok(Request(id, kind, if op.bearer then Some(op.secrets[0]) else None, op.deadline.value))
  }

  function Awaiting(kind: Kind, decoder: Decoder): DiscoveryState {
    match kind
    case Discover => AwaitingDiscovery(decoder)
    case Initialize => AwaitingInitialization(decoder)
    case Acknowledge(version) => AwaitingAcknowledgement(version, decoder)
    case ListTools(version) => AwaitingTools(version, decoder)
  }

  function NextId(id: nat): nat { if id >= U64_MAX then id else id + 1 }

  /** Sends a message; an acknowledgement takes no identifier and needs a legacy revision. */
  function Send(op: Operation, kind: Kind, build: Build): (Operation, Transition) {
    var numbered := !kind.Acknowledge?;
    var id := if numbered then Some(op.nextId) else None;
    var op' := if numbered then op.(nextId := NextId(op.nextId)) else op;
    if kind == Acknowledge(Modern) || !build.encodes then Finish(op', Err(InvalidRequest))
    else match Compose(op', id, kind, build.fits)
      case Err(e) => Finish(op', Err(e))
      case Ok(request) => (op'.(state := Awaiting(kind, Decoder(id, kind))), Http(request))
  }

  function Start(op: Operation, deadline: int, secrets: seq<Secret>, build: Build): (Operation, Transition) {
    if !op.state.Ready? then Finish(op, Err(InvalidState))
    else if |secrets| != (if op.bearer then 1 else 0) then Finish(op, Err(SecretUnavailable))
    else Send(op.(deadline := Some(deadline), secrets := secrets), Discover, build)
  }

  function Resume(op: Operation, completion: Result<Reply, TransportError>, build: Build): (Operation, Transition) {
    if completion.Err? then Finish(op, Err(ClassifyTransport(completion.error)))
    else if op.state.Ready? || op.state.Complete? then Finish(op, Err(InvalidState))
    else Advance(op, DecodeReply(op.state.decoder, completion.value), build)
  }

  function Advance(op: Operation, response: Result<ClientResponse, ClientError>, build: Build): (Operation, Transition)
    requires !op.state.Ready? && !op.state.Complete?
  {
    match (op.state, response)
    case (AwaitingDiscovery(_), Ok(Discovered(version))) => Send(op, ListTools(version), build)
    case (AwaitingDiscovery(_), Err(UnsupportedProtocolVersion)) => Send(op, Initialize, build)
    case (AwaitingDiscovery(_), Err(MethodNotFound)) => Send(op, Initialize, build)
    case (AwaitingInitialization(_), Ok(Initialized(version))) => Send(op, Acknowledge(version), build)
    case (AwaitingAcknowledgement(version, _), Ok(Acknowledged)) => Send(op, ListTools(version), build)
    case (AwaitingTools(version, _), Ok(Listed(tools))) => Finish(op, CompileResult(version, tools))
    case (_, Ok(_)) => Finish(op, Err(InvalidResponse))
    case (_, Err(error)) => Finish(op, Err(ClassifyClient(error)))
  }

  // ---------------------------------------------------------------- the object

  datatype Scheme = HttpScheme | HttpsScheme | WebSocket | WebSocketSecure

  /** Discovery is refused for an endpoint that does not speak HTTP. */
  method Configure(scheme: Scheme, bearer: bool) returns (r: Option<McpDiscoveryOperation>)
    ensures r.Some? <==> scheme == HttpScheme || scheme == HttpsScheme
    ensures r.Some? ==> fresh(r.value) && r.value.Snapshot() == New(bearer)
  {
    if scheme != HttpScheme && scheme != HttpsScheme { return None; }
    var operation := new McpDiscoveryOperation(bearer);
    return Some(operation);
  }

  class McpDiscoveryOperation {

    const bearer: bool
    var deadline: Option<int>
    var secrets: seq<Secret>
    var nextRequestId: nat
    var state: DiscoveryState

    function Snapshot(): Operation reads this { Operation(bearer, deadline, secrets, nextRequestId, state) }

    constructor (bearer: bool)
      ensures Snapshot() == New(bearer)
    {
      this.bearer := bearer;
      deadline, secrets, nextRequestId, state := None, [], 1, Ready;
    }

    method FinishWith(result: Result<Outcome, DiscoveryError>) returns (t: Transition)
      modifies this
      ensures (Snapshot(), t) == Finish(old(Snapshot()), result)
    {
      state, deadline, secrets := Complete, None, [];
      t := Finished(result);
    }

    method TakeId() returns (id: nat)
      modifies this
      ensures id == old(nextRequestId)
      ensures Snapshot() == old(Snapshot()).(nextId := NextId(id))
    {
      id := nextRequestId;
      if nextRequestId < U64_MAX { nextRequestId := nextRequestId + 1; }
    }

    method SendMessage(kind: Kind, build: Build) returns (t: Transition)
      modifies this
      ensures (Snapshot(), t) == Send(old(Snapshot()), kind, build)
    {
      hide ValidBearer;
      var id: Option<nat> := None;
      if !kind.Acknowledge? {
        var taken := TakeId();
        id := Some(taken);
      }
      if kind == Acknowledge(Modern) || !build.encodes {
        t := FinishWith(Err(InvalidRequest));
        return;
      }
      var request := Compose(Snapshot(), id, kind, build.fits);
      if request.Err? {
        t := FinishWith(Err(request.error));
        return;
      }
      state := Awaiting(kind, Decoder(id, kind));
      t := Http(request.value);
    }

    method StartWith(deadline: int, secrets: seq<Secret>, build: Build) returns (t: Transition)
      modifies this
      ensures (Snapshot(), t) == Start(old(Snapshot()), deadline, secrets, build)
    {
      hide Send;
      if !state.Ready? {
        t := FinishWith(Err(InvalidState));
      } else if |secrets| != (if bearer then 1 else 0) {
        t := FinishWith(Err(SecretUnavailable));
      } else {
        this.deadline, this.secrets := Some(deadline), secrets;
        t := SendMessage(Discover, build);
      }
    }

    /** Takes the state out before looking at the completion, as every branch sets it again. */
    method ResumeWith(completion: Result<Reply, TransportError>, build: Build) returns (t: Transition)
      modifies this
      ensures (Snapshot(), t) == Resume(old(Snapshot()), completion, build)
    {
      hide ValidBearer, DecodeReply, CompileResult;
      var taken := state;
      state := Complete;
      if completion.Err? {
        t := FinishWith(Err(ClassifyTransport(completion.error)));
        return;
      }
      if taken.Ready? || taken.Complete? {
        t := FinishWith(Err(InvalidState));
        return;
      }
      var response := DecodeReply(taken.decoder, completion.value);
      if taken.AwaitingDiscovery? && response.Ok? && response.value.Discovered? {
        t := SendMessage(ListTools(response.value.version), build);
      } else if taken.AwaitingDiscovery? && response.Err?
        && (response.error.UnsupportedProtocolVersion? || response.error.MethodNotFound?) {
        t := SendMessage(Initialize, build);
      } else if taken.AwaitingInitialization? && response.Ok? && response.value.Initialized? {
        t := SendMessage(Acknowledge(response.value.version), build);
      } else if taken.AwaitingAcknowledgement? && response.Ok? && response.value.Acknowledged? {
        t := SendMessage(ListTools(taken.version), build);
      } else if taken.AwaitingTools? && response.Ok? && response.value.Listed? {
        t := FinishWith(CompileResult(taken.version, response.value.tools));
      } else if response.Ok? {
        t := FinishWith(Err(InvalidResponse));
      } else {
        t := FinishWith(Err(ClassifyClient(response.error)));
      }
    }
  }
}
