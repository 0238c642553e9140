/** Any number of invocations in flight, interleaved with changes to the grants. */
module DispatchRuns {

  import opened Bytes
  import opened Grants
  import opened Dispatch

  /** How far an invocation has come. */
  datatype Call =
    | Resolved(invocation: Invocation)
    | Authorized(invocation: Invocation)
    | Starting(invocation: Invocation)
    | Running(invocation: Invocation)
    | Reporting(outcome: AuditOutcome, result: Result<Input, DispatchError>)
    | Done(result: Result<Input, DispatchError>)

  datatype Entry = Entry(call: nat, outcome: AuditOutcome)

  datatype State = State(grants: Nested, poisoned: bool, log: seq<Entry>, calls: map<nat, Call>)

  datatype Step =
    | ChangeGrant(triple: Triple, add: bool)
    | Poison
    | Arrive(call: nat, invocation: Invocation)
    | Evaluate(call: nat)
    | CheckInput(call: nat)
    | Audit(call: nat, accepted: bool)
    | Invoke(call: nat)

  const INITIAL := State(map[], false, [], map[])

  predicate Enabled(registry: Registry, s: State, step: Step) {
    match step
    case ChangeGrant(_, _) => true
    case Poison => true
    case Arrive(call, _) => call !in s.calls
    case Evaluate(call) => call in s.calls && s.calls[call].Resolved?
    case CheckInput(call) =>
      call in s.calls && s.calls[call].Authorized? && s.calls[call].invocation.triple.capability in registry
    case Audit(call, _) => call in s.calls && (s.calls[call].Starting? || s.calls[call].Reporting?)
    case Invoke(call) =>
      call in s.calls && s.calls[call].Running? && s.calls[call].invocation.triple.capability in registry
  }

  function Moved(registry: Registry, s: State, step: Step): Call
    requires Enabled(registry, s, step) && !step.ChangeGrant? && !step.Poison?
  {
    match step
    case Arrive(_, invocation) =>
      if invocation.triple.capability in registry then Resolved(invocation)
      else Reporting(CapabilityNotFound, Err(NotFound))
    case Evaluate(call) => (
      var invocation := s.calls[call].invocation;
      match Evaluated(s.grants, s.poisoned, invocation.triple)
      case Allow => Authorized(invocation)
      case Deny(reason) => Reporting(Denied(reason), Err(AccessDenied(reason)))
    )
    case CheckInput(call) =>
      var invocation := s.calls[call].invocation;
      if registry[invocation.triple.capability].accepts(invocation.input) then Starting(invocation)
      else Reporting(InvalidInput, Err(BadInput))
    case Audit(call, accepted) =>
      if !accepted then Done(Err(AuditUnavailable))
      else if s.calls[call].Starting? then Running(s.calls[call].invocation)
      else Done(s.calls[call].result)
    case Invoke(call) => (
      var invocation := s.calls[call].invocation;
      match registry[invocation.triple.capability].handler(invocation.input)
      case Ok(output) => Reporting(Succeeded, Ok(output))
      case Err(code) => Reporting(HandlerFailed(code), Err(Handler(code)))
    )
  }

  function Logged(s: State, step: Step): seq<Entry>
    requires step.Audit? ==> step.call in s.calls
  {
    if step.Audit? && step.accepted && s.calls[step.call].Starting? then s.log + [Entry(step.call, Started)]
    else if step.Audit? && step.accepted && s.calls[step.call].Reporting? then
      s.log + [Entry(step.call, s.calls[step.call].outcome)]
    else s.log
  }

  function Next(registry: Registry, s: State, step: Step): State
    requires Enabled(registry, s, step)
  {
    match step
    case ChangeGrant(t, add) =>
      if s.poisoned then s else s.(grants := if add then Granted(s.grants, t) else Revoked(s.grants, t))
    case Poison => s.(poisoned := true)
    case _ => s.(calls := s.calls[step.call := Moved(registry, s, step)], log := Logged(s, step))
  }

  predicate Legal(registry: Registry, steps: seq<Step>)
    decreases |steps|, 0
  {
    steps == [] || (
      var rest := steps[..|steps| - 1];
      Legal(registry, rest) && Enabled(registry, After(registry, rest), steps[|steps| - 1]))
  }

  function After(registry: Registry, steps: seq<Step>): State
    requires Legal(registry, steps)
    decreases |steps|, 1
  {
    if steps == [] then INITIAL
    else Next(registry, After(registry, steps[..|steps| - 1]), steps[|steps| - 1])
  }

  lemma {:induction false} LegalPrefix(registry: Registry, steps: seq<Step>, k: nat)
    requires Legal(registry, steps) && k <= |steps|
    ensures Legal(registry, steps[..k])
    ensures k < |steps| ==> Enabled(registry, After(registry, steps[..k]), steps[k])
    decreases |steps|
  {
    hide Enabled, Next;
    var n := |steps|;
    if k == n {
      assert steps[..n] == steps;
    } else if k < n - 1 {
      LegalPrefix(registry, steps[..n - 1], k);
      assert steps[..n - 1][..k] == steps[..k] && steps[..n - 1][k] == steps[k];
    }
  }

  lemma LegalSnoc(registry: Registry, steps: seq<Step>, k: nat)
    requires k < |steps| && Legal(registry, steps[..k]) && Enabled(registry, After(registry, steps[..k]), steps[k])
    ensures Legal(registry, steps[..k + 1])
    ensures After(registry, steps[..k + 1]) == Next(registry, After(registry, steps[..k]), steps[k])
  {
    hide Next, Enabled;
    assert steps[..k + 1][..k] == steps[..k];
  }

  // ---------------------------------------------------------------- the grants reflect their history

  /** The last change made to the triple: `Some(true)` for a grant, `Some(false)` for a revocation. */
  function LastChange(registry: Registry, steps: seq<Step>, t: Triple): Option<bool>
    requires Legal(registry, steps)
  {
    if steps == [] then None
    else
      var rest, last := steps[..|steps| - 1], steps[|steps| - 1];
      if last.ChangeGrant? && last.triple == t && !After(registry, rest).poisoned then Some(last.add)
      else LastChange(registry, rest, t)
  }

  lemma {:induction false} GrantsReflectHistory(registry: Registry, steps: seq<Step>, t: Triple)
    requires Legal(registry, steps)
    ensures var g := After(registry, steps).grants;
            Pruned(g) && (Contains(g, t) <==> LastChange(registry, steps, t) == Some(true))
    decreases |steps|
  {
    hide Contains, Pruned, Granted, Revoked, Moved, Enabled;
    if steps == [] {
      EmptyGrants(t);
    } else {
      var rest, last := steps[..|steps| - 1], steps[|steps| - 1];
      GrantsReflectHistory(registry, rest, t);
      if last.ChangeGrant? {
        var g := After(registry, rest).grants;
        GrantRefines(g, last.triple);
        RevokeRefines(g, last.triple);
        GrantedContains(g, last.triple, t);
        RevokedContains(g, last.triple, t);
      }
    }
  }

  lemma EmptyGrants(t: Triple)
    ensures Pruned(map[]) && !Contains(map[], t)
  {
  }

  // ---------------------------------------------------------------- handlers run only when authorized

  /** At step `i` the call was evaluated while the last change to its triple was a grant. */
  predicate AuthorizedAt(registry: Registry, steps: seq<Step>, call: nat, t: Triple, i: nat)
    requires Legal(registry, steps)
  {
    && i < |steps| && steps[i] == Evaluate(call) && Legal(registry, steps[..i])
    && LastChange(registry, steps[..i], t) == Some(true)
  }

  ghost predicate WasAuthorized(registry: Registry, steps: seq<Step>, call: nat, t: Triple)
    requires Legal(registry, steps)
  {
    exists i: nat :: AuthorizedAt(registry, steps, call, t, i)
  }

  /** And at a later step `j` its start was recorded. */
  ghost predicate WasStarted(registry: Registry, steps: seq<Step>, call: nat, t: Triple)
    requires Legal(registry, steps)
  {
    exists i: nat, j: nat ::
      AuthorizedAt(registry, steps, call, t, i) && i < j < |steps| && steps[j] == Audit(call, true)
  }

  ghost predicate CallInv(registry: Registry, steps: seq<Step>, call: nat)
    requires Legal(registry, steps)
  {
    var s := After(registry, steps);
    call in s.calls ==>
      match s.calls[call]
      case Authorized(invocation) => WasAuthorized(registry, steps, call, invocation.triple)
      case Starting(invocation) => WasAuthorized(registry, steps, call, invocation.triple)
      case Running(invocation) => WasStarted(registry, steps, call, invocation.triple) && Entry(call, Started) in s.log
      case _ => true
  }

  lemma AuthorizedLater(registry: Registry, steps: seq<Step>, call: nat, t: Triple, i: nat)
    requires steps != [] && Legal(registry, steps)
    requires AuthorizedAt(registry, steps[..|steps| - 1], call, t, i)
    ensures AuthorizedAt(registry, steps, call, t, i)
  {
    hide Legal, LastChange;
    assert steps[..|steps| - 1][..i] == steps[..i];
  }

  /** A call that is not the step's own stays as it is, and so does what was true of it. */
  lemma InvCarries(registry: Registry, steps: seq<Step>, call: nat)
    requires steps != [] && Legal(registry, steps)
    requires CallInv(registry, steps[..|steps| - 1], call)
    requires call in After(registry, steps[..|steps| - 1]).calls
    requires After(registry, steps).calls == After(registry, steps[..|steps| - 1]).calls
          || (call in After(registry, steps).calls
            && After(registry, steps).calls[call] == After(registry, steps[..|steps| - 1]).calls[call])
    requires Entry(call, Started) in After(registry, steps[..|steps| - 1]).log
      ==> Entry(call, Started) in After(registry, steps).log
    ensures CallInv(registry, steps, call)
  {
    hide Legal, LastChange, After, AuthorizedAt;
    var rest := steps[..|steps| - 1];
    assert Legal(registry, rest) by { LegalPrefix(registry, steps, |steps| - 1); }
    var was := After(registry, rest).calls[call];
    if was.Running? {
      var i: nat, j: nat :| AuthorizedAt(registry, rest, call, was.invocation.triple, i) && i < j < |rest|
        && rest[j] == Audit(call, true);
      AuthorizedLater(registry, steps, call, was.invocation.triple, i);
      assert steps[j] == rest[j];
    } else if was.Authorized? || was.Starting? {
      var i: nat :| AuthorizedAt(registry, rest, call, was.invocation.triple, i);
      AuthorizedLater(registry, steps, call, was.invocation.triple, i);
    }
  }

  lemma OwnStep(registry: Registry, steps: seq<Step>, call: nat)
    requires steps != [] && Legal(registry, steps)
    requires CallInv(registry, steps[..|steps| - 1], call)
    requires var last := steps[|steps| - 1]; !last.ChangeGrant? && !last.Poison? && last.call == call
    ensures CallInv(registry, steps, call)
  {
    hide LastChange, AuthorizedAt, Evaluated;
    var n := |steps| - 1;
    var rest, last := steps[..n], steps[n];
    var s := After(registry, rest);
    if last.Evaluate? && Evaluated(s.grants, s.poisoned, s.calls[call].invocation.triple).Allow? {
      EvaluatedIsGranted(registry, steps, call);
      assert AuthorizedAt(registry, steps, call, s.calls[call].invocation.triple, n);
    } else if last.CheckInput? {
      var t := s.calls[call].invocation.triple;
      var i: nat :| AuthorizedAt(registry, rest, call, t, i);
      AuthorizedLater(registry, steps, call, t, i);
    } else if last.Audit? && last.accepted && s.calls[call].Starting? {
      var t := s.calls[call].invocation.triple;
      var i: nat :| AuthorizedAt(registry, rest, call, t, i);
      AuthorizedLater(registry, steps, call, t, i);
      AuthorizedBefore(registry, rest, call, t, i);
      assert AuthorizedAt(registry, steps, call, t, i) && i < n < |steps| && steps[n] == Audit(call, true);
    }
  }

  lemma AuthorizedBefore(registry: Registry, steps: seq<Step>, call: nat, t: Triple, i: nat)
    requires Legal(registry, steps) && AuthorizedAt(registry, steps, call, t, i)
    ensures i < |steps|
  {
  }

  lemma EvaluatedIsGranted(registry: Registry, steps: seq<Step>, call: nat)
    requires steps != [] && Legal(registry, steps) && steps[|steps| - 1] == Evaluate(call)
    requires var s := After(registry, steps[..|steps| - 1]);
             Evaluated(s.grants, s.poisoned, s.calls[call].invocation.triple).Allow?
    ensures AuthorizedAt(registry, steps, call, After(registry, steps[..|steps| - 1]).calls[call].invocation.triple,
      |steps| - 1)
  {
    hide Contains, LastChange;
    var rest := steps[..|steps| - 1];
    GrantsReflectHistory(registry, rest, After(registry, rest).calls[call].invocation.triple);
  }

  lemma {:induction false} RunKeepsCallInv(registry: Registry, steps: seq<Step>, call: nat)
    requires Legal(registry, steps)
    ensures CallInv(registry, steps, call)
    decreases |steps|
  {
    hide CallInv, Moved, Granted, Revoked;
    if steps == [] {
      NothingYet(registry, call);
    } else {
      var rest, last := steps[..|steps| - 1], steps[|steps| - 1];
      RunKeepsCallInv(registry, rest, call);
      if last.ChangeGrant? || last.Poison? || last.call != call {
        if call in After(registry, rest).calls {
          InvCarries(registry, steps, call);
        } else {
          Absent(registry, steps, call);
        }
      } else {
        OwnStep(registry, steps, call);
      }
    }
  }

  lemma NothingYet(registry: Registry, call: nat)
    ensures CallInv(registry, [], call)
  {
  }

  lemma Absent(registry: Registry, steps: seq<Step>, call: nat)
    requires Legal(registry, steps) && call !in After(registry, steps).calls
    ensures CallInv(registry, steps, call)
  {
    hide After, Legal;
  }

  // ---------------------------------------------------------------- a revocation in between

  /** Step `j` granted or revoked the triple, and the lock let it. */
  predicate ChangedAt(registry: Registry, steps: seq<Step>, t: Triple, add: bool, j: nat) {
    && j < |steps| && steps[j] == ChangeGrant(t, add)
    && Legal(registry, steps[..j]) && !After(registry, steps[..j]).poisoned
  }

  /** After step `i` the triple was revoked and not granted again. */
  ghost predicate RevokedSince(registry: Registry, steps: seq<Step>, t: Triple, i: nat) {
    exists j :: i < j < |steps| && ChangedAt(registry, steps, t, false, j)
      && forall m | j < m < |steps| :: !ChangedAt(registry, steps, t, true, m)
  }

  lemma ChangedSnoc(registry: Registry, steps: seq<Step>, t: Triple, add: bool, j: nat)
    requires steps != [] && j < |steps| - 1
    ensures ChangedAt(registry, steps, t, add, j) <==> ChangedAt(registry, steps[..|steps| - 1], t, add, j)
  {
    hide Legal, After;
    assert steps[..|steps| - 1][..j] == steps[..j];
  }

  lemma RevokedSnoc(registry: Registry, steps: seq<Step>, t: Triple, i: nat)
    requires steps != [] && i < |steps| - 1
    ensures var n := |steps| - 1;
            RevokedSince(registry, steps, t, i)
            <==> || ChangedAt(registry, steps, t, false, n)
                 || (!ChangedAt(registry, steps, t, true, n) && RevokedSince(registry, steps[..n], t, i))
  {
    var n := |steps| - 1;
    forall j: nat, add | j < n
      ensures ChangedAt(registry, steps, t, add, j) <==> ChangedAt(registry, steps[..n], t, add, j)
    {
      ChangedSnoc(registry, steps, t, add, j);
    }
    RevokedCases(registry, steps, t, i);
  }

  lemma RevokedCases(registry: Registry, steps: seq<Step>, t: Triple, i: nat)
    requires steps != [] && i < |steps| - 1
    requires forall j: nat, add | j < |steps| - 1 ::
               ChangedAt(registry, steps, t, add, j) <==> ChangedAt(registry, steps[..|steps| - 1], t, add, j)
    ensures var n := |steps| - 1;
            RevokedSince(registry, steps, t, i)
            <==> || ChangedAt(registry, steps, t, false, n)
                 || (!ChangedAt(registry, steps, t, true, n) && RevokedSince(registry, steps[..n], t, i))
  {
    hide ChangedAt;
    var n := |steps| - 1;
    if RevokedSince(registry, steps, t, i) {
      var j: nat :| i < j < |steps| && ChangedAt(registry, steps, t, false, j)
        && forall m | j < m < |steps| :: !ChangedAt(registry, steps, t, true, m);
      if j < n {
        assert ChangedAt(registry, steps[..n], t, false, j) && !ChangedAt(registry, steps, t, true, n);
        forall m | j < m < n ensures !ChangedAt(registry, steps[..n], t, true, m) {
          assert !ChangedAt(registry, steps, t, true, m);
        }
      }
    }
    if RevokedSince(registry, steps[..n], t, i) && !ChangedAt(registry, steps, t, true, n) {
      var j: nat :| i < j < n && ChangedAt(registry, steps[..n], t, false, j)
        && forall m | j < m < n :: !ChangedAt(registry, steps[..n], t, true, m);
      assert ChangedAt(registry, steps, t, false, j);
      forall m | j < m < |steps| ensures !ChangedAt(registry, steps, t, true, m) {
        if m < n { assert !ChangedAt(registry, steps[..n], t, true, m); }
      }
    }
  }

  /** From a granted triple on, it stays granted exactly as long as no revocation is the last word. */
  lemma {:induction false} GrantedUntilRevoked(registry: Registry, steps: seq<Step>, t: Triple, i: nat)
    requires Legal(registry, steps) && i < |steps| && !steps[i].ChangeGrant?
    requires Legal(registry, steps[..i]) && LastChange(registry, steps[..i], t) == Some(true)
    ensures LastChange(registry, steps, t) == Some(true) <==> !RevokedSince(registry, steps, t, i)
    decreases |steps|
  {
    hide After, RevokedSince;
    var n := |steps| - 1;
    var rest := steps[..n];
    if i == n {
      NotRevokedYet(registry, steps, t);
    } else {
      assert rest[..i] == steps[..i];
      GrantedUntilRevoked(registry, rest, t, i);
      RevokedSnoc(registry, steps, t, i);
    }
  }

  lemma NotRevokedYet(registry: Registry, steps: seq<Step>, t: Triple)
    requires steps != []
    ensures !RevokedSince(registry, steps, t, |steps| - 1)
  {
  }

  /**
   * A handler runs while its triple is granted if and only if no revocation came, and stayed, between
   * its evaluation and its run.
   */
  lemma RunsWhileGrantedIff(registry: Registry, steps: seq<Step>, k: nat, t: Triple, i: nat)
    requires Legal(registry, steps) && k < |steps| && steps[k].Invoke?
    requires Legal(registry, steps[..k]) && AuthorizedAt(registry, steps[..k], steps[k].call, t, i)
    ensures Contains(After(registry, steps[..k]).grants, t) <==> !RevokedSince(registry, steps[..k], t, i)
  {
    hide After, Legal, LastChange, RevokedSince, Contains;
    GrantedUntilRevoked(registry, steps[..k], t, i);
    GrantsReflectHistory(registry, steps[..k], t);
  }

  /**
   * In every run, a handler is invoked only for a call that was evaluated while the last change to its
   * triple was a grant, and whose start was recorded after that and before the handler runs.  Its
   * triple is still granted then if and only if no later revocation stands.
   */
  lemma HandlerIsAuthorized(registry: Registry, steps: seq<Step>, k: nat)
    requires Legal(registry, steps) && k < |steps| && steps[k].Invoke?
    ensures Legal(registry, steps[..k])
    ensures var s, call := After(registry, steps[..k]), steps[k].call;
            && call in s.calls && s.calls[call].Running?
            && var t := s.calls[call].invocation.triple;
               && WasStarted(registry, steps[..k], call, t) && Entry(call, Started) in s.log
               && forall i | AuthorizedAt(registry, steps[..k], call, t, i) ::
                    Contains(s.grants, t) <==> !RevokedSince(registry, steps[..k], t, i)
  {
    hide Legal, After, WasStarted, AuthorizedAt, RevokedSince, Contains;
    LegalPrefix(registry, steps, k);
    var call := steps[k].call;
    RunKeepsCallInv(registry, steps[..k], call);
    var t := After(registry, steps[..k]).calls[call].invocation.triple;
    forall i | AuthorizedAt(registry, steps[..k], call, t, i)
      ensures Contains(After(registry, steps[..k]).grants, t) <==> !RevokedSince(registry, steps[..k], t, i)
    {
      RunsWhileGrantedIff(registry, steps, k, t, i);
    }
  }

  /** A run in which a revocation comes after the evaluation and does not stop the handler. */
  function LateRevocation(call: nat, invocation: Invocation): seq<Step> {
    [ChangeGrant(invocation.triple, true), Arrive(call, invocation), Evaluate(call),
     ChangeGrant(invocation.triple, false), CheckInput(call), Audit(call, true), Invoke(call)]
  }

  /** It is legal for every registered capability and accepted input, and the handler runs ungranted. */
  lemma LateRevocationRuns(registry: Registry, call: nat, invocation: Invocation)
    requires var id := invocation.triple.capability; id in registry && registry[id].accepts(invocation.input)
    ensures var steps := LateRevocation(call, invocation);
            && Legal(registry, steps) && Legal(registry, steps[..6])
            && steps[6] == Invoke(call) && AuthorizedAt(registry, steps[..6], call, invocation.triple, 2)
            && !Contains(After(registry, steps[..6]).grants, invocation.triple)
  {
    hide Legal, After, Granted, Revoked, Contains, LastChange;
    var steps, t := LateRevocation(call, invocation), invocation.triple;
    assert steps[..7] == steps;
    LateRevocationStarts(registry, call, invocation);
    RevokedContains(Granted(map[], t), t, t);
    LegalSnoc(registry, steps, 3);
    LegalSnoc(registry, steps, 4);
    LegalSnoc(registry, steps, 5);
    LegalSnoc(registry, steps, 6);
    assert steps[..6][..2] == steps[..2];
  }

  lemma LateRevocationStarts(registry: Registry, call: nat, invocation: Invocation)
    requires invocation.triple.capability in registry
    ensures var steps, t := LateRevocation(call, invocation), invocation.triple;
            && Legal(registry, steps[..2]) && Legal(registry, steps[..3])
            && LastChange(registry, steps[..2], t) == Some(true)
            && After(registry, steps[..3]) == State(Granted(map[], t), false, [], map[call := Authorized(invocation)])
  {
    hide Legal, After, Granted, Contains, LastChange;
    var steps, t := LateRevocation(call, invocation), invocation.triple;
    assert steps[..0] == [];
    EmptyRun(registry);
    LegalSnoc(registry, steps, 0);
    LegalSnoc(registry, steps, 1);
    GrantedContains(map[], t, t);
    LegalSnoc(registry, steps, 2);
    GrantsReflectHistory(registry, steps[..2], t);
  }

  lemma EmptyRun(registry: Registry)
    ensures Legal(registry, []) && After(registry, []) == INITIAL
  {
  }

  // ---------------------------------------------------------------- and only once

  function Rank(s: State, call: nat): nat {
    if call !in s.calls then 0
    else match s.calls[call]
      case Resolved(_) => 1
      case Authorized(_) => 2
      case Starting(_) => 3
      case Running(_) => 4
      case Reporting(_, _) => 5
      case Done(_) => 6
  }

  lemma RankGrows(registry: Registry, s: State, step: Step, call: nat)
    requires Enabled(registry, s, step)
    ensures Rank(Next(registry, s, step), call) >= Rank(s, call)
  {
  }

  lemma {:induction false} RankKept(registry: Registry, steps: seq<Step>, k: nat, call: nat)
    requires Legal(registry, steps) && k <= |steps|
    ensures Legal(registry, steps[..k]) && Rank(After(registry, steps), call) >= Rank(After(registry, steps[..k]), call)
    decreases |steps|
  {
    hide Next, Enabled, Rank;
    var n := |steps|;
    if k == n {
      assert steps[..n] == steps;
    } else {
      RankKept(registry, steps[..n - 1], k, call);
      assert steps[..n - 1][..k] == steps[..k];
      RankGrows(registry, After(registry, steps[..n - 1]), steps[n - 1], call);
    }
  }

  /** No call is evaluated twice, and no handler is invoked twice for one call. */
  lemma HandlerRunsOnce(registry: Registry, steps: seq<Step>, k: nat, m: nat)
    requires Legal(registry, steps) && k < m < |steps| && (steps[k].Invoke? || steps[k].Evaluate?)
    ensures steps[m] != steps[k]
  {
    hide Legal, After;
    var call := steps[k].call;
    LegalPrefix(registry, steps, k);
    LegalPrefix(registry, steps, k + 1);
    LegalPrefix(registry, steps, m);
    LegalSnoc(registry, steps, k);
    RankKept(registry, steps[..m], k + 1, call);
    assert steps[..m][..k + 1] == steps[..k + 1];
  }

  // ---------------------------------------------------------------- every answer is audited

  /** The record that goes with a result. */
  predicate Records(outcome: AuditOutcome, result: Result<Input, DispatchError>) {
    match outcome
    case CapabilityNotFound => result == Err(NotFound)
    case Denied(reason) => result == Err(AccessDenied(reason))
    case InvalidInput => result == Err(BadInput)
    case Succeeded => result.Ok?
    case HandlerFailed(code) => result == Err(Handler(code))
    case Started => false
  }

  ghost predicate Audited(log: seq<Entry>, call: nat, result: Result<Input, DispatchError>) {
    result == Err(AuditUnavailable) || exists outcome :: Entry(call, outcome) in log && Records(outcome, result)
  }

  ghost predicate AnswerAudited(log: seq<Entry>, call: nat, at: Call) {
    && (at.Reporting? ==> Records(at.outcome, at.result))
    && (at.Done? ==> Audited(log, call, at.result))
  }

  ghost predicate AnswersAudited(s: State) {
    forall call | call in s.calls :: AnswerAudited(s.log, call, s.calls[call])
  }

  lemma StepAudits(registry: Registry, s: State, step: Step)
    requires Enabled(registry, s, step) && AnswersAudited(s)
    ensures AnswersAudited(Next(registry, s, step))
  {
    hide Granted, Revoked, Evaluated;
    var s' := Next(registry, s, step);
    assert forall e | e in s.log :: e in s'.log;
    if step.Audit? && step.accepted && s.calls[step.call].Reporting? {
      assert Entry(step.call, s.calls[step.call].outcome) in s'.log;
    }
  }

  /** After every run, whatever a dispatch answered was recorded, unless recording it was what failed. */
  lemma {:induction false} EveryAnswerIsAudited(registry: Registry, steps: seq<Step>)
    requires Legal(registry, steps)
    ensures AnswersAudited(After(registry, steps))
    decreases |steps|
  {
    hide Next, Enabled, AnswersAudited;
    if steps == [] {
      NoAnswers();
    } else {
      EveryAnswerIsAudited(registry, steps[..|steps| - 1]);
      StepAudits(registry, After(registry, steps[..|steps| - 1]), steps[|steps| - 1]);
    }
  }

  lemma NoAnswers()
    ensures AnswersAudited(INITIAL)
  {
  }

  // ---------------------------------------------------------------- no invocation gets stuck

  predicate Registered(registry: Registry, at: Call) {
    !at.Reporting? && !at.Done? ==> at.invocation.triple.capability in registry
  }

  predicate AllRegistered(registry: Registry, s: State) {
    forall call | call in s.calls :: Registered(registry, s.calls[call])
  }

  lemma {:induction false} RunKeepsRegistered(registry: Registry, steps: seq<Step>)
    requires Legal(registry, steps)
    ensures AllRegistered(registry, After(registry, steps))
    decreases |steps|
  {
    hide Granted, Revoked, Evaluated;
    if steps != [] { RunKeepsRegistered(registry, steps[..|steps| - 1]); }
  }

  /** In every reachable state each unfinished call has a step it can take. */
  lemma NeverStuck(registry: Registry, steps: seq<Step>, call: nat) returns (step: Step)
    requires Legal(registry, steps) && call in After(registry, steps).calls && !After(registry, steps).calls[call].Done?
    ensures Enabled(registry, After(registry, steps), step)
    ensures Rank(Next(registry, After(registry, steps), step), call) > Rank(After(registry, steps), call)
  {
    hide After, Legal, Evaluated;
    RunKeepsRegistered(registry, steps);
    var s := After(registry, steps);
    assert Registered(registry, s.calls[call]);
    step := match s.calls[call]
      case Resolved(_) => Evaluate(call)
      case Authorized(_) => CheckInput(call)
      case Running(_) => Invoke(call)
      case _ => Audit(call, true);
  }

  // ---------------------------------------------------------------- one call alone is one dispatch

  /** The state after `steps`, if each is enabled in turn. */
  function RunFrom(registry: Registry, s: State, steps: seq<Step>): Option<State>
    decreases |steps|
  {
    if steps == [] then Some(s)
    else if Enabled(registry, s, steps[0]) then RunFrom(registry, Next(registry, s, steps[0]), steps[1..])
    else None
  }

  lemma RunCons(registry: Registry, s: State, step: Step, rest: seq<Step>)
    requires Enabled(registry, s, step)
    ensures RunFrom(registry, s, [step] + rest) == RunFrom(registry, Next(registry, s, step), rest)
  {
    hide Next, Enabled;
    assert ([step] + rest)[1..] == rest;
  }

  /** The records among a dispatch's actions that the sink accepted. */
  function Accepted(call: nat, actions: seq<Action>): seq<Entry> {
    if actions == [] then []
    else
      var first := if actions[0].Record? && actions[0].accepted then [Entry(call, actions[0].outcome)] else [];
      first + Accepted(call, actions[1..])
  }

  /** A call alone, from the record it is about to make, ends as a single report does. */
  lemma ReportAlone(registry: Registry, s: State, call: nat, outcome: AuditOutcome,
                    result: Result<Input, DispatchError>, accepted: bool)
    requires call in s.calls && s.calls[call] == Reporting(outcome, result)
    ensures EndsAs(s, call, Report(outcome, accepted, result), RunFrom(registry, s, [Audit(call, accepted)]))
  {
    hide RunFrom;
    RunLast(registry, s, Audit(call, accepted));
    OneRecord(call, outcome, accepted);
    assert s.log + [] == s.log;
  }

  lemma OneRecord(call: nat, outcome: AuditOutcome, accepted: bool)
    ensures Accepted(call, [Record(outcome, accepted)]) == if accepted then [Entry(call, outcome)] else []
  {
    assert [Record(outcome, accepted)][1..] == [];
  }

  lemma RunLast(registry: Registry, s: State, step: Step)
    requires Enabled(registry, s, step)
    ensures RunFrom(registry, s, [step]) == Some(Next(registry, s, step))
  {
    hide Next, Enabled;
    assert [step][1..] == [];
  }

  predicate EndsAs(s: State, call: nat, effect: Effect, end: Option<State>) {
    end == Some(s.(calls := s.calls[call := Done(effect.result)], log := s.log + Accepted(call, effect.actions)))
  }

  lemma EndsAsMoved(s: State, mid: State, call: nat, effect: Effect, end: Option<State>)
    requires call in mid.calls && mid == s.(calls := s.calls[call := mid.calls[call]]) && EndsAs(mid, call, effect, end)
    ensures EndsAs(s, call, effect, end)
  {
    hide Accepted;
    assert mid.calls[call := Done(effect.result)] == s.calls[call := Done(effect.result)];
  }

  /** What a dispatch has still to do once its start was recorded. */
  lemma RunningAlone(registry: Registry, s: State, call: nat, invocation: Invocation, last: bool)
    requires call in s.calls && s.calls[call] == Running(invocation) && invocation.triple.capability in registry
    ensures EndsAs(s, call, Finish(registry[invocation.triple.capability].handler(invocation.input), last),
                   RunFrom(registry, s, [Invoke(call)] + [Audit(call, last)]))
  {
    hide RunFrom, EndsAs;
    var s' := Next(registry, s, Invoke(call));
    RunCons(registry, s, Invoke(call), [Audit(call, last)]);
    ReportAlone(registry, s', call, s'.calls[call].outcome, s'.calls[call].result, last);
    EndsAsMoved(s, s', call, Finish(registry[invocation.triple.capability].handler(invocation.input), last),
                RunFrom(registry, s', [Audit(call, last)]));
  }

  /** The steps a call takes when nothing comes between them: from its start, its evaluation, its arrival. */
  function AloneFromStart(call: nat, first: bool, last: bool): seq<Step> {
    if first then [Audit(call, true)] + ([Invoke(call)] + [Audit(call, last)]) else [Audit(call, false)]
  }

  function AloneFromInput(registry: Registry, call: nat, invocation: Invocation, first: bool, last: bool): seq<Step>
    requires invocation.triple.capability in registry
  {
    var accepted := registry[invocation.triple.capability].accepts(invocation.input);
    [CheckInput(call)] + if accepted then AloneFromStart(call, first, last) else [Audit(call, first)]
  }

  function AloneFromEvaluation(registry: Registry, decision: Decision, call: nat, invocation: Invocation, first: bool,
                               last: bool): seq<Step>
    requires invocation.triple.capability in registry
  {
    [Evaluate(call)] + if decision.Deny? then [Audit(call, first)]
                       else AloneFromInput(registry, call, invocation, first, last)
  }

  function Alone(registry: Registry, decision: Decision, call: nat, invocation: Invocation, first: bool,
                 last: bool): seq<Step>
  {
    [Arrive(call, invocation)] + if invocation.triple.capability !in registry then [Audit(call, first)]
                                 else AloneFromEvaluation(registry, decision, call, invocation, first, last)
  }

  lemma StartingAlone(registry: Registry, s: State, call: nat, invocation: Invocation, first: bool, last: bool)
    requires call in s.calls && s.calls[call] == Starting(invocation) && invocation.triple.capability in registry
    requires registry[invocation.triple.capability].accepts(invocation.input)
    ensures EndsAs(s, call, Dispatched(registry, Allow, invocation, first, last),
                   RunFrom(registry, s, AloneFromStart(call, first, last)))
  {
    hide RunFrom, Accepted;
    var s' := Next(registry, s, Audit(call, first));
    if first {
      var finish := Finish(registry[invocation.triple.capability].handler(invocation.input), last);
      RunCons(registry, s, Audit(call, true), [Invoke(call)] + [Audit(call, last)]);
      RunningAlone(registry, s', call, invocation, last);
      StartedRecords(call, invocation.input, finish.actions);
      assert s.log + [Entry(call, Started)] + Accepted(call, finish.actions)
        == s.log + ([Entry(call, Started)] + Accepted(call, finish.actions));
      assert s'.calls[call := Done(finish.result)] == s.calls[call := Done(finish.result)];
    } else {
      RunLast(registry, s, Audit(call, false));
      OneRecord(call, Started, false);
      assert s.log + [] == s.log;
    }
  }

  lemma StartedRecords(call: nat, input: Input, rest: seq<Action>)
    ensures Accepted(call, [Record(Started, true), Run(input)] + rest) == [Entry(call, Started)] + Accepted(call, rest)
  {
    var actions := [Record(Started, true), Run(input)] + rest;
    assert actions[1..][1..] == rest;
    assert Accepted(call, actions[1..]) == [] + Accepted(call, rest);
  }

  lemma InputAlone(registry: Registry, s: State, call: nat, invocation: Invocation, first: bool, last: bool)
    requires call in s.calls && s.calls[call] == Authorized(invocation) && invocation.triple.capability in registry
    ensures EndsAs(s, call, Dispatched(registry, Allow, invocation, first, last),
                   RunFrom(registry, s, AloneFromInput(registry, call, invocation, first, last)))
  {
    hide RunFrom, EndsAs, AloneFromStart;
    var s' := Next(registry, s, CheckInput(call));
    if registry[invocation.triple.capability].accepts(invocation.input) {
      RunCons(registry, s, CheckInput(call), AloneFromStart(call, first, last));
      StartingAlone(registry, s', call, invocation, first, last);
    } else {
      RunCons(registry, s, CheckInput(call), [Audit(call, first)]);
      ReportAlone(registry, s', call, InvalidInput, Err(BadInput), first);
    }
    EndsAsMoved(s, s', call, Dispatched(registry, Allow, invocation, first, last),
                RunFrom(registry, s, AloneFromInput(registry, call, invocation, first, last)));
  }

  lemma EvaluationAlone(registry: Registry, s: State, call: nat, invocation: Invocation, first: bool, last: bool)
    requires call in s.calls && s.calls[call] == Resolved(invocation) && invocation.triple.capability in registry
    ensures var decision := Evaluated(s.grants, s.poisoned, invocation.triple);
            EndsAs(s, call, Dispatched(registry, decision, invocation, first, last),
                   RunFrom(registry, s, AloneFromEvaluation(registry, decision, call, invocation, first, last)))
  {
    hide RunFrom, EndsAs, AloneFromInput, Evaluated;
    var decision := Evaluated(s.grants, s.poisoned, invocation.triple);
    var s' := Next(registry, s, Evaluate(call));
    if decision.Deny? {
      RunCons(registry, s, Evaluate(call), [Audit(call, first)]);
      ReportAlone(registry, s', call, Denied(decision.reason), Err(AccessDenied(decision.reason)), first);
    } else {
      RunCons(registry, s, Evaluate(call), AloneFromInput(registry, call, invocation, first, last));
      InputAlone(registry, s', call, invocation, first, last);
    }
    EndsAsMoved(s, s', call, Dispatched(registry, decision, invocation, first, last),
                RunFrom(registry, s, AloneFromEvaluation(registry, decision, call, invocation, first, last)));
  }

  /** A call that is not interleaved with anything does what one call of dispatch does. */
  lemma AloneIsDispatch(registry: Registry, s: State, call: nat, invocation: Invocation, first: bool, last: bool)
    requires call !in s.calls
    ensures var decision := Evaluated(s.grants, s.poisoned, invocation.triple);
            EndsAs(s, call, Dispatched(registry, decision, invocation, first, last),
                   RunFrom(registry, s, Alone(registry, decision, call, invocation, first, last)))
  {
    hide RunFrom, EndsAs, AloneFromEvaluation, Evaluated;
    var decision := Evaluated(s.grants, s.poisoned, invocation.triple);
    var s' := Next(registry, s, Arrive(call, invocation));
    if invocation.triple.capability !in registry {
      RunCons(registry, s, Arrive(call, invocation), [Audit(call, first)]);
      ReportAlone(registry, s', call, CapabilityNotFound, Err(NotFound), first);
    } else {
      RunCons(registry, s, Arrive(call, invocation),
        AloneFromEvaluation(registry, decision, call, invocation, first, last));
      EvaluationAlone(registry, s', call, invocation, first, last);
    }
    EndsAsMoved(s, s', call, Dispatched(registry, decision, invocation, first, last),
                RunFrom(registry, s, Alone(registry, decision, call, invocation, first, last)));
  }
}
