/** What each reply leads to, told from its own content, and the dialogues that end in a result. */
module DiscoveryProgress {

  import opened Bytes
  import opened McpClient
  import opened Discovery
  import opened DiscoveryRuns

  // ---------------------------------------------------------------- what a reply says

  /** A JSON-RPC response to the request with this identifier. */
  predicate Answers(reply: Reply, id: Option<nat>) {
    reply.content.JsonContent? && reply.message.Response? && reply.message.id == id
  }

  /** It brings a result, complete if the request was a modern one. */
  predicate BringsResult(reply: Reply, id: Option<nat>, modern: bool) {
    && Answers(reply, id) && 200 <= reply.status <= 299
    && reply.message.payload.RpcResult? && (modern ==> reply.message.payload.complete)
  }

  predicate BringsError(reply: Reply, id: Option<nat>, codes: set<int>) {
    Answers(reply, id) && reply.message.payload.RpcError? && reply.message.payload.code in codes
  }

  /** A discovery result that lists revisions. */
  predicate Offers(reply: Reply) { BringsResult(reply, Some(1), true) && reply.message.payload.supported.Some? }

  predicate Knows(reply: Reply, version: Version)
    requires Offers(reply)
  {
    version in reply.message.payload.supported.value
  }

  /** The request due after this reply to the last one, if any: same credential, same deadline. */
  function Due(last: Request, reply: Reply): Option<Request> {
    match last.kind
    case Discover =>
      if Offers(reply) && Knows(reply, Modern) then Some(last.(id := Some(2), kind := ListTools(Modern)))
      else if Offers(reply) && Knows(reply, Legacy) then Some(last.(id := Some(2), kind := ListTools(Legacy)))
      else if Offers(reply) || BringsError(reply, Some(1), {-32022, -32601})
      then Some(last.(id := Some(2), kind := Initialize))
      else None
    case Initialize =>
      if BringsResult(reply, Some(2), false) && reply.message.payload.selected == Some(Legacy)
      then Some(last.(id := None, kind := Acknowledge(Legacy))) else None
    case Acknowledge(_) =>
      if reply.status == 202 && reply.emptyBody then Some(last.(id := Some(3), kind := ListTools(Legacy))) else None
    case ListTools(_) => None
  }

  /** The reply lists tools that can all be bound. */
  predicate Reports(last: Request, reply: Reply, tools: seq<Tool>) {
    && last.kind.ListTools? && BringsResult(reply, last.id, last.kind.version == Modern)
    && reply.message.payload.tools == Ok(tools)
    && forall i | 0 <= i < |tools| :: tools[i].fault.None?
  }

  /** What is reported about a reply after which nothing is due and which brings no usable tools. */
  function Complaint(last: Request, reply: Reply): DiscoveryError {
    if last.kind.Acknowledge? then if 200 <= reply.status <= 299 then InvalidResponse else Rejected
    else if reply.content.EventStream? then UnsupportedMode
    else if !Answers(reply, last.id) then InvalidResponse
    else if reply.message.payload.RpcError? then
      var code := reply.message.payload.code;
      if code == -32022 || code == -32601 then UnsupportedProtocol else if code == -32603 then Unavailable else Rejected
    else if !(200 <= reply.status <= 299) then Rejected
    else if last.kind in {Discover, ListTools(Modern)} && !reply.message.payload.complete then UnsupportedMode
    else match last.kind
      case Discover => InvalidResponse
      case Initialize => if reply.message.payload.selected.None? then UnsupportedProtocol else InvalidRequest
      case ListTools(_) =>
        match reply.message.payload.tools
        case Ok(tools) => FaultOf(tools)
        case Err(ToolListTooLarge) => ToolLimitExceeded
        case Err(InvalidEnvelope) => InvalidResponse
        case Err(error) => ClassifyClient(error)
  }

  /** The first tool that cannot be bound decides. */
  function FaultOf(tools: seq<Tool>): DiscoveryError {
    if tools == [] then InvalidResponse
    else match tools[0].fault
      case None => FaultOf(tools[1..])
      case Some(InvalidName) => InvalidResponse
      case Some(SchemaTooLarge) => InvalidToolSchema
      case Some(InvalidSchema) => InvalidToolSchema
  }

  lemma {:induction false} FaultIsFirst(tools: seq<Tool>)
    ensures FirstFault(tools).Some? ==> ClassifyBinding(FirstFault(tools).value) == FaultOf(tools)
    decreases |tools|
  {
    if tools != [] { FaultIsFirst(tools[1..]); }
  }

  // ---------------------------------------------------------------- one reply

  predicate CanBeSent(build: Build) { build.encodes && build.fits }

  lemma Sends(op: Operation, kind: Kind, build: Build)
    requires op.deadline.Some? && |op.secrets| == (if op.bearer then 1 else 0)
    requires op.bearer ==> ValidBearer(op.secrets[0])
    requires op.nextId < 10
    ensures var id := if kind.Acknowledge? then None else Some(op.nextId);
            Send(op, kind, build).1 ==
            if kind != Acknowledge(Modern) && CanBeSent(build)
            then Http(Request(id, kind, Credential(op), op.deadline.value)) else Finished(Err(InvalidRequest))
  {
    hide ValidBearer;
  }

  /** What follows a reply to `last`; a due message that does not encode or fit is not sent. */
  predicate Follows(last: Request, reply: Reply, build: Build, t: Transition) {
    if Due(last, reply).Some? then
      t == if CanBeSent(build) then Http(Due(last, reply).value) else Finished(Err(InvalidRequest))
    else if last.kind.ListTools? && BringsResult(reply, last.id, last.kind.version == Modern)
            && reply.message.payload.tools.Ok? && Reports(last, reply, reply.message.payload.tools.value)
    then t == Finished(Ok(Outcome(last.kind.version, reply.message.payload.tools.value)))
    else t == Finished(Err(Complaint(last, reply)))
  }

  lemma AfterDiscover(op: Operation, last: Request, reply: Reply, build: Build)
    requires HoldsMaterial(op) && op.state == AwaitingDiscovery(Decoder(Some(1), Discover)) && op.nextId == 2
    requires last == Request(Some(1), Discover, Credential(op), op.deadline.value)
    ensures Follows(last, reply, build, Resume(op, Ok(reply), build).1)
  {
    hide ValidBearer, Send;
    Sends(op, Initialize, build);
    Sends(op, ListTools(Modern), build);
    Sends(op, ListTools(Legacy), build);
  }

  lemma AfterInitialize(op: Operation, last: Request, reply: Reply, build: Build)
    requires HoldsMaterial(op) && op.state == AwaitingInitialization(Decoder(Some(2), Initialize)) && op.nextId == 3
    requires last == Request(Some(2), Initialize, Credential(op), op.deadline.value)
    ensures Follows(last, reply, build, Resume(op, Ok(reply), build).1)
  {
    hide ValidBearer, Send;
    if Answers(reply, Some(2)) && reply.message.payload.RpcResult? && reply.message.payload.selected.Some? {
      var version := reply.message.payload.selected.value;
      Sends(op, Acknowledge(version), build);
      assert version == Modern || version == Legacy;
    }
  }

  lemma AfterAcknowledge(op: Operation, last: Request, reply: Reply, build: Build)
    requires HoldsMaterial(op) && op.nextId == 3
    requires op.state == AwaitingAcknowledgement(Legacy, Decoder(None, Acknowledge(Legacy)))
    requires last == Request(None, Acknowledge(Legacy), Credential(op), op.deadline.value)
    ensures Follows(last, reply, build, Resume(op, Ok(reply), build).1)
  {
    hide ValidBearer, Send;
    Sends(op, ListTools(Legacy), build);
  }

  lemma AfterListTools(op: Operation, last: Request, reply: Reply, build: Build)
    requires HoldsMaterial(op) && last.kind.ListTools?
    requires op.state == AwaitingTools(last.kind.version, Decoder(last.id, last.kind))
    ensures Follows(last, reply, build, Resume(op, Ok(reply), build).1)
  {
    hide ValidBearer, FirstFault, FaultOf;
    if reply.content.JsonContent? && reply.message.Response? && reply.message.payload.RpcResult?
       && reply.message.payload.tools.Ok? {
      NoFault(reply.message.payload.tools.value);
      FaultIsFirst(reply.message.payload.tools.value);
    }
  }

  /**
   * After every run that awaits a reply: the reply's content alone decides what follows.  A listed
   * revision leads to the tools of the highest known one; no common revision, -32022 and -32601 fall back
   * to initialization; a legacy selection is acknowledged, an empty 202 leads to the tools; usable tools
   * are reported under the revision they were asked for; anything else is the complaint named above.
   */
  lemma ReplyDecides(bearer: bool, inputs: seq<Input>, reply: Reply, build: Build)
    requires IsAwaiting(After(bearer, inputs))
    ensures var requests := Requests(bearer, inputs);
            && requests != []
            && Follows(requests[|requests| - 1], reply, build,
                       Step(After(bearer, inputs), CallResume(Ok(reply), build)).1)
  {
    hide After, Requests, ValidBearer, Follows, Resume;
    RunKeepsInv(bearer, inputs);
    var op, requests := After(bearer, inputs), Requests(bearer, inputs);
    var last := requests[|requests| - 1];
    match op.state
    case AwaitingDiscovery(_) => AfterDiscover(op, last, reply, build);
    case AwaitingInitialization(_) => AfterInitialize(op, last, reply, build);
    case AwaitingAcknowledgement(_, _) => AfterAcknowledge(op, last, reply, build);
    case AwaitingTools(_, _) => AfterListTools(op, last, reply, build);
  }

  // ---------------------------------------------------------------- whole dialogues

  /** One valid secret for a bearer endpoint, none otherwise. */
  predicate Provides(bearer: bool, secrets: seq<Secret>) {
    |secrets| == (if bearer then 1 else 0) && (bearer ==> ValidBearer(secrets[0]))
  }

  /** Starting a fresh operation asks for the revisions, exactly with the right secrets. */
  lemma StartDecides(bearer: bool, deadline: int, secrets: seq<Secret>, build: Build)
    ensures Step(New(bearer), CallStart(deadline, secrets, build)).1 ==
            if |secrets| != (if bearer then 1 else 0) then Finished(Err(SecretUnavailable))
            else if !build.encodes then Finished(Err(InvalidRequest))
            else if !Provides(bearer, secrets) then Finished(Err(SecretUnavailable))
            else if !build.fits then Finished(Err(InvalidRequest))
            else Http(Request(Some(1), Discover, if bearer then Some(secrets[0]) else None, deadline))
  {
    hide ValidBearer;
  }

  lemma Continues(bearer: bool, inputs: seq<Input>, input: Input)
    ensures var (op, t) := Step(After(bearer, inputs), input);
            && After(bearer, inputs + [input]) == op
            && Requests(bearer, inputs + [input]) == Requests(bearer, inputs) + Sent(t)
            && (t.Http? ==> IsAwaiting(op))
  {
    hide ValidBearer, DecodeReply;
    assert (inputs + [input])[..|inputs|] == inputs;
  }

  /** The run that starts and then receives these replies. */
  function Exchange(deadline: int, secrets: seq<Secret>, replies: seq<Reply>): seq<Input> {
    if replies == [] then [CallStart(deadline, secrets, Build(true, true))]
    else Exchange(deadline, secrets, replies[..|replies| - 1])
         + [CallResume(Ok(replies[|replies| - 1]), Build(true, true))]
  }

  /** One more reply leads to the request due after it. */
  lemma Proceeds(bearer: bool, deadline: int, secrets: seq<Secret>, replies: seq<Reply>, asked: seq<Request>,
                 reply: Reply)
    requires IsAwaiting(After(bearer, Exchange(deadline, secrets, replies))) && asked != []
    requires Requests(bearer, Exchange(deadline, secrets, replies)) == asked
    requires Due(asked[|asked| - 1], reply).Some?
    ensures var inputs := Exchange(deadline, secrets, replies + [reply]);
            && IsAwaiting(After(bearer, inputs))
            && Requests(bearer, inputs) == asked + [Due(asked[|asked| - 1], reply).value]
  {
    hide ValidBearer, Due, Complaint, BringsResult, After, Requests, Step;
    var inputs, input := Exchange(deadline, secrets, replies), CallResume(Ok(reply), Build(true, true));
    assert (replies + [reply])[..|replies|] == replies;
    ReplyDecides(bearer, inputs, reply, Build(true, true));
    Continues(bearer, inputs, input);
  }

  lemma Begun(bearer: bool, deadline: int, secrets: seq<Secret>)
    requires Provides(bearer, secrets)
    ensures var inputs := Exchange(deadline, secrets, []);
            && IsAwaiting(After(bearer, inputs))
            && Requests(bearer, inputs) ==
               [Request(Some(1), Discover, if bearer then Some(secrets[0]) else None, deadline)]
  {
    hide ValidBearer, Step;
    var input := CallStart(deadline, secrets, Build(true, true));
    StartDecides(bearer, deadline, secrets, Build(true, true));
    Continues(bearer, [], input);
    assert Exchange(deadline, secrets, []) == [] + [input];
  }

  /** A peer that lists a known revision is asked for its tools under the highest one, and they are the result. */
  lemma ModernDialogue(
    bearer: bool, deadline: int, secrets: seq<Secret>, discovered: Reply, version: Version, listed: Reply,
    tools: seq<Tool>)
    requires Provides(bearer, secrets) && Offers(discovered) && Knows(discovered, version)
    requires version == Legacy ==> !Knows(discovered, Modern)
    requires var credential := if bearer then Some(secrets[0]) else None;
             Reports(Request(Some(2), ListTools(version), credential, deadline), listed, tools)
    ensures var inputs := Exchange(deadline, secrets, [discovered]);
            && Requests(bearer, inputs) ==
               Dialogue(false, version, if bearer then Some(secrets[0]) else None, deadline)
            && Step(After(bearer, inputs), CallResume(Ok(listed), Build(true, true))).1 ==
               Finished(Ok(Outcome(version, tools)))
  {
    hide ValidBearer, After, Requests, Step, Complaint;
    Begun(bearer, deadline, secrets);
    var credential := if bearer then Some(secrets[0]) else None;
    var first := Request(Some(1), Discover, credential, deadline);
    Proceeds(bearer, deadline, secrets, [], [first], discovered);
    assert [] + [discovered] == [discovered];
    ReplyDecides(bearer, Exchange(deadline, secrets, [discovered]), listed, Build(true, true));
  }

  /** A peer without a common revision is initialized, acknowledged and asked for its tools. */
  lemma LegacyDialogue(
    bearer: bool, deadline: int, secrets: seq<Secret>, refused: Reply, chosen: Reply, accepted: Reply, listed: Reply,
    tools: seq<Tool>)
    requires Provides(bearer, secrets)
    requires || BringsError(refused, Some(1), {-32022, -32601})
             || (Offers(refused) && !Knows(refused, Modern) && !Knows(refused, Legacy))
    requires BringsResult(chosen, Some(2), false) && chosen.message.payload.selected == Some(Legacy)
    requires accepted.status == 202 && accepted.emptyBody
    requires var credential := if bearer then Some(secrets[0]) else None;
             Reports(Request(Some(3), ListTools(Legacy), credential, deadline), listed, tools)
    ensures var inputs := Exchange(deadline, secrets, [refused, chosen, accepted]);
            && Requests(bearer, inputs) ==
               Dialogue(true, Legacy, if bearer then Some(secrets[0]) else None, deadline)
            && Step(After(bearer, inputs), CallResume(Ok(listed), Build(true, true))).1 ==
               Finished(Ok(Outcome(Legacy, tools)))
  {
    hide ValidBearer, After, Requests, Step, Complaint, Exchange;
    Begun(bearer, deadline, secrets);
    var credential := if bearer then Some(secrets[0]) else None;
    var d := Dialogue(true, Legacy, credential, deadline);
    Proceeds(bearer, deadline, secrets, [], d[..1], refused);
    assert [] + [refused] == [refused] && d[..1] + [d[1]] == d[..2];
    Proceeds(bearer, deadline, secrets, [refused], d[..2], chosen);
    assert [refused] + [chosen] == [refused, chosen] && d[..2] + [d[2]] == d[..3];
    Proceeds(bearer, deadline, secrets, [refused, chosen], d[..3], accepted);
    assert [refused, chosen] + [accepted] == [refused, chosen, accepted] && d[..3] + [d[3]] == d;
    ReplyDecides(bearer, Exchange(deadline, secrets, [refused, chosen, accepted]), listed, Build(true, true));
  }
}
