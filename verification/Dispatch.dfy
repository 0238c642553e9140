/** Resolving, authorizing, auditing and running one invocation, and listing what may be invoked. */
module Dispatch {

  import opened Bytes
  import opened Grants
  import Names

  type Input = seq<Byte>
  type Code = seq<Byte>

  datatype Invocation = Invocation(triple: Triple, input: Input)

  datatype AuditOutcome =
    | CapabilityNotFound | Denied(reason: Denial) | InvalidInput | Started | Succeeded | HandlerFailed(code: Code)

  datatype DispatchError = AuditUnavailable | NotFound | AccessDenied(reason: Denial) | BadInput | Handler(code: Code)

  /** A registered capability: the inputs its schema accepts, and its handler. */
  datatype Capability = Capability(accepts: Input -> bool, handler: Input -> Result<Input, Code>)

  type Registry = map<Id, Capability>

  /** What a dispatch does to the outside: an audit record, accepted or not, or a run of the handler. */
  datatype Action = Record(outcome: AuditOutcome, accepted: bool) | Run(input: Input)

  datatype Effect = Effect(actions: seq<Action>, result: Result<Input, DispatchError>)

  /** One record that ends the dispatch: its own failure hides the result. */
  function Report(outcome: AuditOutcome, accepted: bool, result: Result<Input, DispatchError>): Effect {
    Effect([Record(outcome, accepted)], if accepted then result else Err(AuditUnavailable))
  }

  function Finish(handled: Result<Input, Code>, accepted: bool): Effect {
    match handled
    case Ok(output) => Report(Succeeded, accepted, Ok(output))
    case Err(code) => Report(HandlerFailed(code), accepted, Err(Handler(code)))
  }

  /** `first` and `last` say whether the audit sink accepts the first and the last record. */
  function Dispatched(registry: Registry, decision: Decision, invocation: Invocation, first: bool, last: bool): Effect {
    var id := invocation.triple.capability;
    if id !in registry then Report(CapabilityNotFound, first, Err(NotFound))
    else if decision.Deny? then Report(Denied(decision.reason), first, Err(AccessDenied(decision.reason)))
    else if !registry[id].accepts(invocation.input) then Report(InvalidInput, first, Err(BadInput))
    else if !first then Report(Started, false, Err(AuditUnavailable))
    else
      var rest := Finish(registry[id].handler(invocation.input), last);
      Effect([Record(Started, true), Run(invocation.input)] + rest.actions, rest.result)
  }

  /** The invocation names a registered capability, is allowed, and its input passes the schema. */
  predicate MayRun(registry: Registry, decision: Decision, invocation: Invocation) {
    var id := invocation.triple.capability;
    id in registry && decision == Allow && registry[id].accepts(invocation.input)
  }

  /** When each answer is given, and when the handler runs. */
  lemma AnswersIff(registry: Registry, decision: Decision, invocation: Invocation, first: bool, last: bool)
    ensures var e := Dispatched(registry, decision, invocation, first, last);
            var id, runs := invocation.triple.capability, first && MayRun(registry, decision, invocation);
            && (Run(invocation.input) in e.actions <==> runs)
            && (runs && last ==>
                  match registry[id].handler(invocation.input)
                  case Ok(output) => e.result == Ok(output)
                  case Err(code) => e.result == Err(Handler(code)))
            && (e.result.Ok? || (e.result.Err? && e.result.error.Handler?) ==> runs && last)
            && (e.result == Err(NotFound) <==> first && id !in registry)
            && (forall reason ::
                  e.result == Err(AccessDenied(reason)) <==> first && id in registry && decision == Deny(reason))
            && (e.result == Err(BadInput) <==>
                  first && id in registry && decision == Allow && !registry[id].accepts(invocation.input))
            && (e.result == Err(AuditUnavailable) <==> exists k :: 0 <= k < |e.actions| && Refused(e.actions[k]))
  {
    var e := Dispatched(registry, decision, invocation, first, last);
    assert e.actions[|e.actions| - 1].Record?;
    assert e.result == Err(AuditUnavailable) ==> Refused(e.actions[|e.actions| - 1]);
  }

  predicate Refused(a: Action) { a.Record? && !a.accepted }

  /** With a working audit sink, the invocation is not refused: it reaches its input check. */
  predicate Authorizes(registry: Registry, decision: Decision, invocation: Invocation) {
    var e := Dispatched(registry, decision, invocation, true, true);
    !e.result.Err? || e.result.error.BadInput? || e.result.error.Handler?
  }

  lemma AuthorizesIff(registry: Registry, decision: Decision, invocation: Invocation)
    ensures Authorizes(registry, decision, invocation)
      <==> invocation.triple.capability in registry && decision == Allow
  {
  }

  predicate MayInvoke(policy: GrantPolicy, principal: Id, adapter: Id, id: Id)
    reads policy
  {
    Evaluated(policy.grants, policy.poisoned, Triple(principal, adapter, id)) == Allow
  }

  /** What a dispatch of the capability, with any input, would be told now. */
  predicate AuthorizesNow(registry: Registry, policy: GrantPolicy, principal: Id, adapter: Id, id: Id, input: Input)
    reads policy
  {
    var triple := Triple(principal, adapter, id);
    Authorizes(registry, Evaluated(policy.grants, policy.poisoned, triple), Invocation(triple, input))
  }

  class Dispatcher {

    const registry: Registry
    const policy: GrantPolicy
    var actions: seq<Action>

    constructor (registry: Registry, policy: GrantPolicy)
      ensures this.registry == registry && this.policy == policy && actions == []
    {
      this.registry, this.policy := registry, policy;
      actions := [];
    }

    method Audit(outcome: AuditOutcome, accepted: bool) returns (ok: bool)
      modifies this
      ensures ok == accepted && actions == old(actions) + [Record(outcome, accepted)]
    {
      actions := actions + [Record(outcome, accepted)];
      return accepted;
    }

    /** A run of the handler is the only one, was allowed, and follows the record of its start. */
    method DispatchOne(invocation: Invocation, first: bool, last: bool) returns (result: Result<Input, DispatchError>)
      modifies this
      ensures var decision := Evaluated(policy.grants, policy.poisoned, invocation.triple);
              var effect := Dispatched(registry, decision, invocation, first, last);
              && actions == old(actions) + effect.actions && result == effect.result
              && forall k | |old(actions)| <= k < |actions| && actions[k].Run? ::
                   k == |old(actions)| + 1 && actions[k - 1] == Record(Started, true) && decision == Allow
    {
      hide Evaluated;
      var id, ok := invocation.triple.capability, true;
      if id !in registry {
        ok := Audit(CapabilityNotFound, first);
        return Err(if ok then NotFound else AuditUnavailable);
      }
      var decision := policy.Evaluate(invocation.triple);
      if decision.Deny? {
        ok := Audit(Denied(decision.reason), first);
        return Err(if ok then AccessDenied(decision.reason) else AuditUnavailable);
      }
      if !registry[id].accepts(invocation.input) {
        ok := Audit(InvalidInput, first);
        return Err(if ok then BadInput else AuditUnavailable);
      }
      ok := Audit(Started, first);
      if !ok { return Err(AuditUnavailable); }
      actions := actions + [Run(invocation.input)];
      var handled := registry[id].handler(invocation.input);
      if handled.Ok? {
        ok := Audit(Succeeded, last);
        result := if ok then Ok(handled.value) else Err(AuditUnavailable);
      } else {
        ok := Audit(HandlerFailed(handled.error), last);
        result := Err(if ok then Handler(handled.error) else AuditUnavailable);
      }
    }

    /** Lists, in identifier order, exactly the capabilities that dispatch would authorize now, whatever the input. */
    method ListCapabilities(principal: Id, adapter: Id) returns (r: Option<seq<Id>>)
      ensures r.None? <==> policy.poisoned && registry != map[]
      ensures r.Some? ==> forall i, j | 0 <= i < j < |r.value| :: Names.Less(r.value[i], r.value[j])
      ensures r.Some? ==> forall id, input ::
        id in r.value <==> AuthorizesNow(registry, policy, principal, adapter, id, input)
    {
      hide Names.IsLeast, Names.Less, Dispatched;
      var allowed: seq<Id>, remaining := [], registry.Keys;
      while remaining != {}
        invariant remaining <= registry.Keys
        invariant forall i, j | 0 <= i < j < |allowed| :: Names.Less(allowed[i], allowed[j])
        invariant forall i, id | 0 <= i < |allowed| && id in remaining :: Names.Less(allowed[i], id)
        invariant forall id ::
          id in allowed <==> id in registry.Keys - remaining && MayInvoke(policy, principal, adapter, id)
        invariant policy.poisoned ==> remaining == registry.Keys
        decreases |remaining|
      {
        ghost var least := Names.LeastExists(remaining);
        var id :| id in remaining && Names.IsLeast(id, remaining);
        var decision := policy.Evaluate(Triple(principal, adapter, id));
        if decision == Deny(PolicyUnavailable) { return None; }
        Names.LeastIsBelow(id, remaining);
        remaining := remaining - {id};
        if decision == Allow { allowed := allowed + [id]; }
      }
      forall id, input ensures id in allowed <==> AuthorizesNow(registry, policy, principal, adapter, id, input) {
        var triple := Triple(principal, adapter, id);
        AuthorizesIff(registry, Evaluated(policy.grants, policy.poisoned, triple), Invocation(triple, input));
      }
      return Some(allowed);
    }
  }
}
