/** What holds of a discovery operation through every sequence of calls, in order or not. */
module DiscoveryRuns {

  import opened Bytes
  import opened McpClient
  import opened Discovery

  datatype Input =
    | CallStart(deadline: int, secrets: seq<Secret>, build: Build)
    | CallResume(completion: Result<Reply, TransportError>, build: Build)

  function Step(op: Operation, input: Input): (Operation, Transition) {
    match input
    case CallStart(deadline, secrets, build) => Start(op, deadline, secrets, build)
    case CallResume(completion, build) => Resume(op, completion, build)
  }

  function After(bearer: bool, inputs: seq<Input>): Operation {
    if inputs == [] then New(bearer)
    else Step(After(bearer, inputs[..|inputs| - 1]), inputs[|inputs| - 1]).0
  }

  function Sent(t: Transition): seq<Request> { if t.Http? then [t.request] else [] }

  /** Every request issued so far, in order. */
  function Requests(bearer: bool, inputs: seq<Input>): seq<Request> {
    if inputs == [] then []
    else
      var rest := inputs[..|inputs| - 1];
      Requests(bearer, rest) + Sent(Step(After(bearer, rest), inputs[|inputs| - 1]).1)
  }

  /** The two dialogues discovery can have, modern and legacy. */
  function Dialogue(legacy: bool, version: Version, bearer: Option<Secret>, deadline: int): seq<Request> {
    if legacy then
      [Request(Some(1), Discover, bearer, deadline), Request(Some(2), Initialize, bearer, deadline),
       Request(None, Acknowledge(Legacy), bearer, deadline), Request(Some(3), ListTools(Legacy), bearer, deadline)]
    else
      [Request(Some(1), Discover, bearer, deadline), Request(Some(2), ListTools(version), bearer, deadline)]
  }

  predicate Begins(requests: seq<Request>, legacy: bool, version: Version, bearer: Option<Secret>, deadline: int) {
    requests <= Dialogue(legacy, version, bearer, deadline)
  }

  ghost predicate IsDialogue(requests: seq<Request>) {
    exists legacy, version, bearer, deadline :: Begins(requests, legacy, version, bearer, deadline)
  }

  predicate IsAwaiting(op: Operation) { !op.state.Ready? && !op.state.Complete? }

  function Credential(op: Operation): Option<Secret>
    requires op.bearer ==> op.secrets != []
  {
    if op.bearer then Some(op.secrets[0]) else None
  }

  /** The deadline and the secrets are held exactly while a reply is awaited. */
  predicate HoldsMaterial(op: Operation) {
    if IsAwaiting(op) then
      op.deadline.Some? && |op.secrets| == (if op.bearer then 1 else 0) && (op.bearer ==> ValidBearer(op.secrets[0]))
    else
      op.deadline.None? && op.secrets == []
  }

  /** Where the dialogue stands in each awaiting state. */
  predicate Stands(op: Operation, requests: seq<Request>)
    requires HoldsMaterial(op) && IsAwaiting(op)
  {
    var legacy := Dialogue(true, Legacy, Credential(op), op.deadline.value);
    match op.state
    case AwaitingDiscovery(decoder) =>
      requests == legacy[..1] && op.nextId == 2 && decoder == Decoder(Some(1), Discover)
    case AwaitingInitialization(decoder) =>
      requests == legacy[..2] && op.nextId == 3 && decoder == Decoder(Some(2), Initialize)
    case AwaitingAcknowledgement(version, decoder) =>
      version == Legacy && requests == legacy[..3] && op.nextId == 3 && decoder == Decoder(None, Acknowledge(Legacy))
    case AwaitingTools(version, decoder) =>
      || (version == Legacy && requests == legacy && op.nextId == 4 && decoder == Decoder(Some(3), ListTools(Legacy)))
      || (&& requests == Dialogue(false, version, Credential(op), op.deadline.value)
          && op.nextId == 3 && decoder == Decoder(Some(2), ListTools(version)))
  }

  ghost predicate Inv(op: Operation, requests: seq<Request>) {
    && HoldsMaterial(op)
    && (op.state.Ready? ==> op.nextId == 1 && requests == [])
    && (op.state.Complete? ==> IsDialogue(requests))
    && (IsAwaiting(op) ==> Stands(op, requests))
  }

  lemma StandsIsDialogue(op: Operation, requests: seq<Request>)
    requires HoldsMaterial(op) && IsAwaiting(op) && Stands(op, requests)
    ensures IsDialogue(requests)
  {
    hide ValidBearer;
    var bearer, deadline := Credential(op), op.deadline.value;
    if op.state.AwaitingTools? && op.nextId == 3 {
      assert Begins(requests, false, op.state.version, bearer, deadline);
    } else {
      assert Begins(requests, true, Legacy, bearer, deadline);
    }
  }

  lemma InvIsDialogue(op: Operation, requests: seq<Request>)
    requires Inv(op, requests)
    ensures IsDialogue(requests)
  {
    hide ValidBearer, Stands;
    if op.state.Ready? {
      assert Begins([], true, Legacy, None, 0);
    } else if IsAwaiting(op) {
      StandsIsDialogue(op, requests);
    }
  }

  lemma FinishKeepsInv(op: Operation, requests: seq<Request>, result: Result<Outcome, DiscoveryError>)
    requires IsDialogue(requests)
    ensures Inv(Finish(op, result).0, requests)
  {
    hide ValidBearer, Stands, IsDialogue;
  }

  /** A sent message has the next identifier; sending fails into `Complete`. */
  lemma SendOutcome(op: Operation, kind: Kind, build: Build)
    requires op.deadline.Some? && |op.secrets| == (if op.bearer then 1 else 0)
    requires op.nextId < 10
    ensures var (op', t) := Send(op, kind, build);
            if t.Http? then
              && HoldsMaterial(op') && kind != Acknowledge(Modern)
              && op' == op.(nextId := op'.nextId, state := op'.state)
              && op'.nextId == (if kind.Acknowledge? then op.nextId else op.nextId + 1)
              && var id := if kind.Acknowledge? then None else Some(op.nextId);
                 && op'.state == Awaiting(kind, Decoder(id, kind))
                 && t.request == Request(id, kind, Credential(op'), op'.deadline.value)
            else op'.state.Complete? && HoldsMaterial(op')
  {
    hide ValidBearer;
  }

  lemma StartKeepsInv(op: Operation, requests: seq<Request>, input: Input)
    requires Inv(op, requests) && input.CallStart?
    ensures var (op', t) := Step(op, input); Inv(op', requests + Sent(t))
  {
    hide ValidBearer, Send, IsDialogue;
    InvIsDialogue(op, requests);
    assert requests + [] == requests;
    if op.state.Ready? && |input.secrets| == (if op.bearer then 1 else 0) {
      SendOutcome(op.(deadline := Some(input.deadline), secrets := input.secrets), Discover, input.build);
    }
  }

  /** Each reply that continues the dialogue extends it by the message due next. */
  lemma SendKeepsInv(op: Operation, requests: seq<Request>, kind: Kind, build: Build)
    requires Inv(op, requests) && IsAwaiting(op)
    requires match op.state
             case AwaitingDiscovery(_) => kind.ListTools? || kind.Initialize?
             case AwaitingInitialization(_) => kind.Acknowledge?
             case AwaitingAcknowledgement(version, _) => kind == ListTools(version)
             case _ => false
    ensures var (op', t) := Send(op, kind, build); Inv(op', requests + Sent(t))
  {
    hide ValidBearer, Send, IsDialogue;
    InvIsDialogue(op, requests);
    SendOutcome(op, kind, build);
    assert requests + [] == requests;
  }

  lemma ResumeKeepsInv(op: Operation, requests: seq<Request>, input: Input)
    requires Inv(op, requests) && input.CallResume?
    ensures var (op', t) := Step(op, input); Inv(op', requests + Sent(t))
  {
    hide ValidBearer, Send, IsDialogue, Stands, DecodeReply, CompileResult, Inv;
    var t := Step(op, input).1;
    InvIsDialogue(op, requests);
    assert requests + [] == requests;
    if input.completion.Err? || !IsAwaiting(op) {
      FinishKeepsInv(op, requests, t.result);
    } else {
      var response := DecodeReply(op.state.decoder, input.completion.value);
      match (op.state, response)
      case (AwaitingDiscovery(_), Ok(Discovered(version))) =>
        SendKeepsInv(op, requests, ListTools(version), input.build);
      case (AwaitingDiscovery(_), Err(UnsupportedProtocolVersion)) =>
        SendKeepsInv(op, requests, Initialize, input.build);
      case (AwaitingDiscovery(_), Err(MethodNotFound)) => SendKeepsInv(op, requests, Initialize, input.build);
      case (AwaitingInitialization(_), Ok(Initialized(version))) =>
        SendKeepsInv(op, requests, Acknowledge(version), input.build);
      case (AwaitingAcknowledgement(version, _), Ok(Acknowledged)) =>
        SendKeepsInv(op, requests, ListTools(version), input.build);
      case (AwaitingTools(version, _), Ok(Listed(tools))) =>
        FinishKeepsInv(op, requests, CompileResult(version, tools));
      case (_, Ok(_)) => FinishKeepsInv(op, requests, Err(InvalidResponse));
      case (_, Err(error)) => FinishKeepsInv(op, requests, Err(ClassifyClient(error)));
    }
  }

  lemma {:induction false} RunKeepsInv(bearer: bool, inputs: seq<Input>)
    ensures Inv(After(bearer, inputs), Requests(bearer, inputs))
    decreases |inputs|
  {
    hide Inv, Step;
    if inputs == [] {
      NewIsInv(bearer);
    } else {
      var rest, last := inputs[..|inputs| - 1], inputs[|inputs| - 1];
      RunKeepsInv(bearer, rest);
      if last.CallStart? {
        StartKeepsInv(After(bearer, rest), Requests(bearer, rest), last);
      } else {
        ResumeKeepsInv(After(bearer, rest), Requests(bearer, rest), last);
      }
    }
  }

  lemma NewIsInv(bearer: bool)
    ensures Inv(New(bearer), [])
  {
  }

  // ---------------------------------------------------------------- what runs guarantee

  /**
   * Every run issues at most four requests, a beginning of one of the two dialogues: identifiers
   * strictly increase, and all requests carry one deadline and one credential.
   */
  lemma RequestsAreDialogue(bearer: bool, inputs: seq<Input>)
    ensures var requests := Requests(bearer, inputs);
            && |requests| <= 4 && IsDialogue(requests)
            && (forall i, j | 0 <= i < j < |requests| && requests[i].id.Some? && requests[j].id.Some? ::
                  requests[i].id.value < requests[j].id.value)
            && (forall i, j | 0 <= i < j < |requests| ::
                  requests[i].deadline == requests[j].deadline && requests[i].bearer == requests[j].bearer)
  {
    hide Requests, After, Inv, IsDialogue;
    RunKeepsInv(bearer, inputs);
    var requests := Requests(bearer, inputs);
    InvIsDialogue(After(bearer, inputs), requests);
    DialogueIncreases(requests);
  }

  lemma DialogueIncreases(requests: seq<Request>)
    requires IsDialogue(requests)
    ensures |requests| <= 4
    ensures forall i, j | 0 <= i < j < |requests| && requests[i].id.Some? && requests[j].id.Some? ::
              requests[i].id.value < requests[j].id.value
    ensures forall i, j | 0 <= i < j < |requests| ::
              requests[i].deadline == requests[j].deadline && requests[i].bearer == requests[j].bearer
  {
    var legacy, version, bearer, deadline :| Begins(requests, legacy, version, bearer, deadline);
    var whole := Dialogue(legacy, version, bearer, deadline);
    assert forall i | 0 <= i < |requests| :: requests[i] == whole[i];
  }

  /** Between calls the deadline and the secrets are set exactly while a reply is awaited. */
  lemma MaterialIsScoped(bearer: bool, inputs: seq<Input>)
    ensures HoldsMaterial(After(bearer, inputs))
  {
    hide Requests, After, HoldsMaterial, Stands, IsDialogue;
    RunKeepsInv(bearer, inputs);
  }

  predicate Fails(t: Transition, error: DiscoveryError) { t == Finished(Err(error)) }

  /**
   * `InvalidState` is reported exactly by a start that is not the first call and by a reply nobody awaits:
   * no request ever finds its deadline missing.  A transport failure nobody awaits is misuse too, but it is
   * the failure that is reported.
   */
  lemma InvalidStateIsMisuse(bearer: bool, inputs: seq<Input>, input: Input)
    ensures var op := After(bearer, inputs);
            Fails(Step(op, input).1, InvalidState)
            <==> (if input.CallStart? then !op.state.Ready? else input.completion.Ok? && !IsAwaiting(op))
    ensures input.CallResume? && input.completion.Err? ==>
              Fails(Step(After(bearer, inputs), input).1, ClassifyTransport(input.completion.error))
  {
    hide Requests, After, ValidBearer, DecodeReply, Stands, IsDialogue;
    RunKeepsInv(bearer, inputs);
  }

  /** `SecretUnavailable` is reported only by the start: once sent, the credential never goes missing. */
  lemma SecretUnavailableAtStart(bearer: bool, inputs: seq<Input>, input: Input)
    ensures var op := After(bearer, inputs);
            Fails(Step(op, input).1, SecretUnavailable)
            <==> && input.CallStart? && op.state.Ready?
                 && (|input.secrets| != (if bearer then 1 else 0)
                     || (bearer && input.build.encodes && !ValidBearer(input.secrets[0])))
  {
    hide Requests, After, ValidBearer, DecodeReply, Stands, IsDialogue;
    RunKeepsInv(bearer, inputs);
    BearerIsFixed(bearer, inputs);
  }

  lemma {:induction false} BearerIsFixed(bearer: bool, inputs: seq<Input>)
    ensures After(bearer, inputs).bearer == bearer
    decreases |inputs|
  {
    hide DecodeReply, ValidBearer, CompileResult;
    if inputs != [] { BearerIsFixed(bearer, inputs[..|inputs| - 1]); }
  }

  // ---------------------------------------------------------------- negotiation

  /** A reply that settles on `version`: the modern one lists it, the legacy one selects it. */
  predicate Settles(input: Input, version: Version) {
    && input.CallResume? && input.completion.Ok?
    && var message := input.completion.value.message;
       && message.Response? && message.payload.RpcResult?
       && ((&& message.id == Some(1) && message.payload.supported.Some?
            && Select(message.payload.supported.value) == Some(version))
           || (message.id == Some(2) && message.payload.selected == Some(version) && version == Legacy))
  }

  ghost predicate Settled(inputs: seq<Input>, version: Version) {
    exists i :: 0 <= i < |inputs| && Settles(inputs[i], version)
  }

  predicate KnowsVersion(op: Operation, version: Version) {
    (op.state.AwaitingAcknowledgement? || op.state.AwaitingTools?) && op.state.version == version
  }

  lemma StepSettles(op: Operation, requests: seq<Request>, input: Input, version: Version)
    requires Inv(op, requests) && KnowsVersion(Step(op, input).0, version)
    ensures KnowsVersion(op, version) || Settles(input, version)
  {
    hide ValidBearer, IsDialogue, CompileResult;
  }

  lemma {:induction false} VersionIsSettled(bearer: bool, inputs: seq<Input>, version: Version)
    requires KnowsVersion(After(bearer, inputs), version)
    ensures Settled(inputs, version)
    decreases |inputs|
  {
    hide Step, Inv, Settles, Requests;
    if inputs != [] {
      var rest, last := inputs[..|inputs| - 1], inputs[|inputs| - 1];
      RunKeepsInv(bearer, rest);
      StepSettles(After(bearer, rest), Requests(bearer, rest), last, version);
      if KnowsVersion(After(bearer, rest), version) {
        VersionIsSettled(bearer, rest, version);
        var i :| 0 <= i < |rest| && Settles(rest[i], version);
        assert inputs[i] == rest[i];
      }
    }
  }

  /**
   * A reported result names the revision an earlier reply settled on and under which the tools were
   * asked for, and it lists, in order, the tools of the reply to that very request.
   */
  lemma ResultIsNegotiated(bearer: bool, inputs: seq<Input>, input: Input, outcome: Outcome)
    requires Step(After(bearer, inputs), input).1 == Finished(Ok(outcome))
    ensures Settled(inputs, outcome.version)
    ensures var requests := Requests(bearer, inputs);
            && requests != []
            && var last := requests[|requests| - 1];
               && last.kind == ListTools(outcome.version) && last.id.Some?
               && input.CallResume? && input.completion.Ok?
               && var message := input.completion.value.message;
                  && message.Response? && message.id == last.id && message.payload.RpcResult?
                  && message.payload.tools == Ok(outcome.tools)
    ensures forall i | 0 <= i < |outcome.tools| :: outcome.tools[i].fault.None?
  {
    hide Requests, After, IsDialogue, Settled, ValidBearer, FirstFault;
    RunKeepsInv(bearer, inputs);
    var op := After(bearer, inputs);
    NoFault(outcome.tools);
    assert op.state.AwaitingTools?;
    VersionIsSettled(bearer, inputs, op.state.version);
  }

  lemma {:induction false} NoFault(tools: seq<Tool>)
    ensures FirstFault(tools).None? <==> forall i | 0 <= i < |tools| :: tools[i].fault.None?
    decreases |tools|
  {
    if tools != [] {
      NoFault(tools[1..]);
      assert forall i | 1 <= i < |tools| :: tools[i] == tools[1..][i - 1];
    }
  }
}
