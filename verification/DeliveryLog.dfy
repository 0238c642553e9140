/** The bounded in-memory delivery log, and any number of deliveries recorded in it. */
module DeliveryLog {

  import opened Bytes
  import opened Backoff
  import opened Delivery
  import opened Tally

  datatype RecordState = Pending | Closed(outcome: Outcome)

  datatype Record = Record(
    route: seq<Byte>, acceptedAt: nat, attempts: nat, state: RecordState, updatedAt: nat, result: Option<Metadata>)

  datatype LogError = Conflict | CapacityExhausted | NotFound | InvalidTransition

  datatype Log = Log(limit: nat, records: map<DeliveryId, Record>, terminalOrder: seq<DeliveryId>)

  predicate IsClosed(log: Log, id: DeliveryId) { id in log.records && log.records[id].state.Closed? }

  /** The log is within its limit, and the order list holds exactly the closed records, once each. */
  ghost predicate LogInv(log: Log) {
    && 1 <= log.limit && |log.records| <= log.limit
    && AllDistinct(log.terminalOrder)
    && (forall id :: id in log.terminalOrder <==> IsClosed(log, id))
  }

  function NewRecord(route: seq<Byte>, at: nat): Record { Record(route, at, 0, Pending, at, None) }

  /**
   * Accepting a delivery.  A full log makes room by dropping the record that closed first; it never
   * drops a pending one, and refuses when every record is pending.
   */
  function Insert(log: Log, id: DeliveryId, route: seq<Byte>, at: nat): (Result<(), LogError>, Log) {
    if id in log.records then (Err(Conflict), log)
    else if |log.records| < log.limit then (Ok(()), log.(records := log.records[id := NewRecord(route, at)]))
    else if log.terminalOrder == [] then (Err(CapacityExhausted), log)
    else
      var kept := log.records - {log.terminalOrder[0]};
      (Ok(()), Log(log.limit, kept[id := NewRecord(route, at)], log.terminalOrder[1..]))
  }

  function PutAttempt(log: Log, id: DeliveryId, attempts: nat, at: nat): (Result<(), LogError>, Log) {
    if id !in log.records then (Err(NotFound), log)
    else
      var r := log.records[id];
      if r.state.Closed? || attempts <= r.attempts then (Err(InvalidTransition), log)
      else
        var updated := r.(attempts := attempts, state := Pending, updatedAt := at, result := None);
        (Ok(()), log.(records := log.records[id := updated]))
  }

  function PutOutcome(log: Log, id: DeliveryId, outcome: Outcome, at: nat, result: Option<Metadata>)
    : (Result<(), LogError>, Log)
  {
    if id !in log.records then (Err(NotFound), log)
    else
      var r := log.records[id];
      if r.state.Closed? || outcome.UnknownAfterCrash? then (Err(InvalidTransition), log)
      else (Ok(()), log.(records := log.records[id := r.(state := Closed(outcome), updatedAt := at, result := result)],
                         terminalOrder := log.terminalOrder + [id]))
  }

  function Put(log: Log, effect: Persistence): (Result<(), LogError>, Log) {
    match effect
    case RecordAttempt(id, attempts, at) => PutAttempt(log, id, attempts, at)
    case RecordOutcome(id, outcome, at, result) => PutOutcome(log, id, outcome, at, result)
  }

  /** The log as the program holds it. */
  class InMemoryDeliveryLog {
    const limit: nat
    var records: map<DeliveryId, Record>
    var terminalOrder: seq<DeliveryId>

    ghost function Contents(): Log
      reads this
    {
      Log(limit, records, terminalOrder)
    }

    ghost predicate Valid()
      reads this
    {
      LogInv(Contents())
    }

    constructor (limit: nat)
      requires 1 <= limit
      ensures Valid() && Contents() == Log(limit, map[], [])
    {
      this.limit, records, terminalOrder := limit, map[], [];
    }

    method InsertIntent(id: DeliveryId, route: seq<Byte>, acceptedAt: nat) returns (result: Result<(), LogError>)
      requires Valid()
      modifies this
      ensures Valid() && (result, Contents()) == Insert(old(Contents()), id, route, acceptedAt)
    {
      InsertKeepsInv(Contents(), id, route, acceptedAt);
      if id in records { return Err(Conflict); }
      while |records| >= limit
        invariant || (records == old(records) && terminalOrder == old(terminalOrder))
                  || (|old(records)| == limit && |records| < limit && old(terminalOrder) != []
                      && records == old(records) - {old(terminalOrder)[0]} && terminalOrder == old(terminalOrder)[1..])
        decreases |terminalOrder|
      {
        if terminalOrder == [] { return Err(CapacityExhausted); }
        var expired := terminalOrder[0];
        assert IsClosed(old(Contents()), expired);
        terminalOrder := terminalOrder[1..];
        if expired in records && records[expired].state.Closed? {
          Shrinks(records, expired);
          records := records - {expired};
        }
      }
      records := records[id := NewRecord(route, acceptedAt)];
      result := Ok(());
    }

    method RecordTheAttempt(id: DeliveryId, attempts: nat, at: nat) returns (result: Result<(), LogError>)
      requires Valid()
      modifies this`records
      ensures Valid() && (result, Contents()) == PutAttempt(old(Contents()), id, attempts, at)
    {
      PutKeepsInv(Contents(), RecordAttempt(id, attempts, at));
      if id !in records { return Err(NotFound); }
      if records[id].state.Closed? || attempts <= records[id].attempts { return Err(InvalidTransition); }
      records := records[id := records[id].(attempts := attempts, state := Pending, updatedAt := at, result := None)];
      result := Ok(());
    }

    method RecordTheOutcome(id: DeliveryId, outcome: Outcome, at: nat, metadata: Option<Metadata>)
      returns (result: Result<(), LogError>)
      requires Valid()
      modifies this
      ensures Valid() && (result, Contents()) == PutOutcome(old(Contents()), id, outcome, at, metadata)
    {
      PutKeepsInv(Contents(), RecordOutcome(id, outcome, at, metadata));
      if id !in records { return Err(NotFound); }
      if records[id].state.Closed? || outcome.UnknownAfterCrash? { return Err(InvalidTransition); }
      records := records[id := records[id].(state := Closed(outcome), updatedAt := at, result := metadata)];
      terminalOrder := terminalOrder + [id];
      result := Ok(());
    }
  }

  // ---------------------------------------------------------------- the log keeps its invariant

  lemma Shrinks(m: map<DeliveryId, Record>, id: DeliveryId)
    requires id in m
    ensures |m - {id}| == |m| - 1
  {
    assert (m - {id}).Keys == m.Keys - {id};
  }

  lemma Grows(m: map<DeliveryId, Record>, id: DeliveryId, r: Record)
    ensures |m[id := r]| == if id in m then |m| else |m| + 1
  {
    assert m[id := r].Keys == m.Keys + {id};
  }

  lemma InsertKeepsInv(log: Log, id: DeliveryId, route: seq<Byte>, at: nat)
    requires LogInv(log)
    ensures LogInv(Insert(log, id, route, at).1)
  {
    var after := Insert(log, id, route, at).1;
    Grows(log.records, id, NewRecord(route, at));
    if id !in log.records && |log.records| >= log.limit && log.terminalOrder != [] {
      var first, rest := log.terminalOrder[0], log.terminalOrder[1..];
      assert first in log.terminalOrder;
      Shrinks(log.records, first);
      Grows(log.records - {first}, id, NewRecord(route, at));
      forall x ensures x in rest <==> IsClosed(after, x) {
        assert log.terminalOrder == [first] + rest;
        assert x in log.terminalOrder <==> IsClosed(log, x);
      }
    }
  }

  lemma PutKeepsInv(log: Log, effect: Persistence)
    requires LogInv(log)
    ensures LogInv(Put(log, effect).1)
  {
    var after := Put(log, effect).1;
    var id := effect.delivery;
    if id in log.records && Put(log, effect).0.Ok? {
      Grows(log.records, id, after.records[id]);
      assert id !in log.terminalOrder;
      forall x ensures x in after.terminalOrder <==> IsClosed(after, x) {
        assert x in log.terminalOrder <==> IsClosed(log, x);
      }
    }
  }

  // ---------------------------------------------------------------- many deliveries, one log

  /** What the log was told about a delivery: its intent, then its attempts and outcome, the last at step `heard`. */
  datatype Told = Told(route: seq<Byte>, acceptedAt: nat, effects: seq<Persistence>, heard: nat)

  datatype System = System(log: Log, live: map<DeliveryId, Lifecycle>, told: map<DeliveryId, Told>, clock: nat)

  datatype Step =
    | Accept(id: DeliveryId, route: seq<Byte>, retry: RetryPolicy, at: nat)
    | Deliver(target: DeliveryId, input: Input)

  /** The number of the last attempt told. */
  function LastAttempt(effects: seq<Persistence>): nat {
    if effects == [] then 0
    else match effects[|effects| - 1]
      case RecordAttempt(_, attempts, _) => attempts
      case RecordOutcome(_, _, _, _) => LastAttempt(effects[..|effects| - 1])
  }

  /** The record holds the intent and the state, time and metadata of the last effect. */
  predicate Reflects(r: Record, t: Told) {
    && r.route == t.route && r.acceptedAt == t.acceptedAt && r.attempts == LastAttempt(t.effects)
    && if t.effects == [] then r.state == Pending && r.updatedAt == t.acceptedAt && r.result == None
       else match t.effects[|t.effects| - 1]
         case RecordAttempt(_, _, at) => r.state == Pending && r.updatedAt == at && r.result == None
         case RecordOutcome(_, outcome, at, result) =>
           r.state == Closed(outcome) && r.updatedAt == at && r.result == result
  }

  /** An open delivery has a pending record with the same attempt count, and every record tells what was told. */
  predicate Agrees(sys: System, id: DeliveryId)
    requires id in sys.live
  {
    var l := sys.live[id];
    && Inv(l) && l.delivery == id
    && (!l.phase.Terminal? ==>
          id in sys.log.records && sys.log.records[id].state.Pending? && sys.log.records[id].attempts == l.attempts)
    && id in sys.told && (id in sys.log.records ==> Reflects(sys.log.records[id], sys.told[id]))
  }

  /** The order list is the closed deliveries in the order in which they closed. */
  predicate InOrder(sys: System) {
    var order := sys.log.terminalOrder;
    && (forall i | 0 <= i < |order| :: order[i] in sys.told && sys.told[order[i]].heard < sys.clock)
    && (forall i, j | 0 <= i < j < |order| :: sys.told[order[i]].heard < sys.told[order[j]].heard)
  }

  ghost predicate SystemInv(sys: System) {
    && LogInv(sys.log) && InOrder(sys) && (forall id | id in sys.log.records :: id in sys.live)
    && forall id | id in sys.live :: Agrees(sys, id)
  }

  /** One step of the runtime: what the log answers, and the state after it. */
  function Perform(sys: System, step: Step): (Result<(), LogError>, System) {
    match step
    case Accept(id, route, retry, at) =>
      var (answer, log) := Insert(sys.log, id, route, at);
      (answer, if answer.Err? then sys
               else System(log, sys.live[id := Fresh(id, retry)], sys.told[id := Told(route, at, [], sys.clock)],
                           sys.clock + 1))
    case Deliver(id, input) =>
      if id !in sys.live then (Ok(()), sys)
      else
        var (t, l) := Next(sys.live[id], input.time, input.event);
        var moved := sys.live[id := l];
        if t.Some? && t.value.persistence.Some? then
          var effect := t.value.persistence.value;
          var (answer, log) := Put(sys.log, effect);
          (answer, System(log, moved, Tell(sys.told, id, effect, sys.clock), sys.clock + 1))
        else (Ok(()), System(sys.log, moved, sys.told, sys.clock + 1))
  }

  function Tell(told: map<DeliveryId, Told>, id: DeliveryId, effect: Persistence, at: nat): map<DeliveryId, Told> {
    if id in told then told[id := told[id].(effects := told[id].effects + [effect], heard := at)] else told
  }

  predicate ValidStep(step: Step) { step.Accept? ==> ValidPolicy(step.retry) }

  lemma FreshReflects(step: Step, clock: nat)
    requires step.Accept? && ValidStep(step)
    ensures Reflects(NewRecord(step.route, step.at), Told(step.route, step.at, [], clock))
    ensures Inv(Fresh(step.id, step.retry))
  {
  }

  /** Making room drops a closed record, so every other delivery still agrees with the log. */
  lemma AcceptAgrees(sys: System, step: Step, id: DeliveryId)
    requires SystemInv(sys) && step.Accept? && ValidStep(step) && id in Perform(sys, step).1.live
    ensures Agrees(Perform(sys, step).1, id)
  {
    hide Reflects, Inv, InOrder;
    FreshReflects(step, sys.clock);
    if id in sys.live { assert Agrees(sys, id); }
    if sys.log.terminalOrder != [] {
      assert sys.log.terminalOrder[0] in sys.log.terminalOrder;
      assert IsClosed(sys.log, sys.log.terminalOrder[0]);
    }
  }

  lemma NotInOrder(log: Log, id: DeliveryId)
    requires LogInv(log) && !IsClosed(log, id)
    ensures forall i | 0 <= i < |log.terminalOrder| :: log.terminalOrder[i] != id
  {
    assert id !in log.terminalOrder;
  }

  lemma AcceptInOrder(sys: System, step: Step)
    requires LogInv(sys.log) && InOrder(sys) && step.Accept?
    ensures InOrder(Perform(sys, step).1)
  {
    hide LogInv;
    if step.id !in sys.log.records { NotInOrder(sys.log, step.id); }
  }

  lemma AcceptKeepsInv(sys: System, step: Step)
    requires SystemInv(sys) && step.Accept? && ValidStep(step)
    ensures SystemInv(Perform(sys, step).1)
  {
    hide LogInv, Agrees, InOrder;
    var after := Perform(sys, step).1;
    InsertKeepsInv(sys.log, step.id, step.route, step.at);
    AcceptInOrder(sys, step);
    forall id | id in after.live ensures Agrees(after, id) { AcceptAgrees(sys, step, id); }
  }

  lemma PutReflects(log: Log, told: Told, effect: Persistence, at: nat)
    requires effect.delivery in log.records && Reflects(log.records[effect.delivery], told)
    ensures var (answer, after) := Put(log, effect);
            && effect.delivery in after.records
            && (answer.Ok? ==>
                  Reflects(after.records[effect.delivery], told.(effects := told.effects + [effect], heard := at)))
  {
    var effects := told.effects + [effect];
    assert effects[..|effects| - 1] == told.effects;
  }

  /** Telling an open delivery's effect keeps the closing order. */
  lemma TellInOrder(sys: System, id: DeliveryId, effect: Persistence, live: map<DeliveryId, Lifecycle>)
    requires LogInv(sys.log) && InOrder(sys) && id in sys.told && effect.delivery == id && !IsClosed(sys.log, id)
    requires Put(sys.log, effect).0.Ok?
    ensures InOrder(System(Put(sys.log, effect).1, live, Tell(sys.told, id, effect, sys.clock), sys.clock + 1))
  {
    hide LogInv;
    NotInOrder(sys.log, id);
  }

  /** The effect of an open delivery is granted, and its record and the closing order follow. */
  lemma EffectIsGranted(sys: System, id: DeliveryId, input: Input)
    requires SystemInv(sys) && id in sys.live
    requires var t := Next(sys.live[id], input.time, input.event).0; t.Some? && t.value.persistence.Some?
    ensures var (t, n) := Next(sys.live[id], input.time, input.event);
            var effect := t.value.persistence.value;
            var (answer, log) := Put(sys.log, effect);
            var after := System(log, sys.live[id := n], Tell(sys.told, id, effect, sys.clock), sys.clock + 1);
            && answer.Ok? && effect.delivery == id && LogInv(log) && InOrder(after) && Agrees(after, id)
  {
    hide RetryDelay, Reflects, InOrder;
    var l := sys.live[id];
    assert Agrees(sys, id);
    NextKeepsInv(l, input);
    NextContinues(l, input);
    var (t, n) := Next(l, input.time, input.event);
    var effect := t.value.persistence.value;
    assert Effect(t)[0] == effect;
    PutKeepsInv(sys.log, effect);
    PutReflects(sys.log, sys.told[id], effect, sys.clock);
    TellInOrder(sys, id, effect, sys.live[id := n]);
  }

  lemma QuietStep(sys: System, id: DeliveryId, input: Input)
    requires SystemInv(sys) && id in sys.live
    requires var t := Next(sys.live[id], input.time, input.event).0; !(t.Some? && t.value.persistence.Some?)
    ensures var n := Next(sys.live[id], input.time, input.event).1;
            var after := System(sys.log, sys.live[id := n], sys.told, sys.clock + 1);
            InOrder(after) && Agrees(after, id)
  {
    hide RetryDelay, Reflects;
    assert Agrees(sys, id);
    NextKeepsInv(sys.live[id], input);
    NextContinues(sys.live[id], input);
  }

  /** What one open delivery asks of the log is always granted, and leaves the others alone. */
  lemma DeliverIsLegal(sys: System, step: Step)
    requires SystemInv(sys) && step.Deliver?
    ensures Perform(sys, step).0.Ok? && SystemInv(Perform(sys, step).1)
  {
    hide Next, Reflects, InOrder, LogInv, Inv;
    var id := step.target;
    if id in sys.live {
      var after := Perform(sys, step).1;
      var t := Next(sys.live[id], step.input.time, step.input.event).0;
      if t.Some? && t.value.persistence.Some? {
        EffectIsGranted(sys, id, step.input);
      } else {
        QuietStep(sys, id, step.input);
      }
      forall x | x in after.live ensures Agrees(after, x) {
        if x != id { assert Agrees(sys, x); }
      }
    }
  }

  function Performed(sys: System, steps: seq<Step>): System
    decreases |steps|
  {
    if steps == [] then sys else Performed(Perform(sys, steps[0]).1, steps[1..])
  }

  /**
   * In every interleaving of any number of deliveries over one bounded log, with old records dropped
   * to make room, no attempt or outcome is ever refused by the log.
   */
  lemma {:induction false} EveryEffectIsLegal(sys: System, steps: seq<Step>, k: nat)
    requires SystemInv(sys) && k < |steps|
    requires forall i | 0 <= i < |steps| :: ValidStep(steps[i])
    ensures SystemInv(Performed(sys, steps[..k]))
    ensures steps[k].Deliver? ==> Perform(Performed(sys, steps[..k]), steps[k]).0.Ok?
    decreases k
  {
    hide Perform, SystemInv, ValidStep;
    if k == 0 {
      assert steps[..0] == [];
      if steps[0].Deliver? { DeliverIsLegal(sys, steps[0]); }
    } else {
      if steps[0].Accept? { AcceptKeepsInv(sys, steps[0]); } else { DeliverIsLegal(sys, steps[0]); }
      assert steps[..k][1..] == steps[1..][..k - 1];
      EveryEffectIsLegal(Perform(sys, steps[0]).1, steps[1..], k - 1);
    }
  }

  /** An empty log with no deliveries, as a runtime starts. */
  function Empty(limit: nat): System { System(Log(limit, map[], []), map[], map[], 0) }

  /** So from an empty log of any limit, no attempt or outcome of any run is ever refused. */
  lemma EveryRunIsLegal(limit: nat, steps: seq<Step>, k: nat)
    requires 1 <= limit && k < |steps| && steps[k].Deliver?
    requires forall i | 0 <= i < |steps| :: ValidStep(steps[i])
    ensures Perform(Performed(Empty(limit), steps[..k]), steps[k]).0.Ok?
  {
    hide Perform, Performed, ValidStep;
    EmptyInv(limit);
    EveryEffectIsLegal(Empty(limit), steps, k);
  }

  /** And at any point of any run, every record still in the log is the last thing told about its delivery. */
  lemma RecordsTellTheLast(limit: nat, steps: seq<Step>, id: DeliveryId)
    requires 1 <= limit && forall i | 0 <= i < |steps| :: ValidStep(steps[i])
    ensures var sys := Performed(Empty(limit), steps);
            id in sys.log.records ==> id in sys.told && Reflects(sys.log.records[id], sys.told[id])
  {
    hide Perform, Performed, ValidStep, Reflects, LogInv, Inv;
    EmptyInv(limit);
    RunKeepsInv(Empty(limit), steps);
    var sys := Performed(Empty(limit), steps);
    if id in sys.log.records { assert Agrees(sys, id); }
  }

  /** A record is dropped only to make room, and then it is the one that closed first. */
  lemma DropsTheOldest(limit: nat, steps: seq<Step>, step: Step, id: DeliveryId)
    requires 1 <= limit && ValidStep(step) && forall i | 0 <= i < |steps| :: ValidStep(steps[i])
    requires var sys := Performed(Empty(limit), steps);
             id in sys.log.records && id !in Perform(sys, step).1.log.records
    ensures var sys := Performed(Empty(limit), steps);
            && step.Accept? && |sys.log.records| == limit && IsClosed(sys.log, id) && id in sys.told
            && forall other | IsClosed(sys.log, other) && other != id ::
                 other in sys.told && sys.told[id].heard < sys.told[other].heard
  {
    hide Performed;
    EmptyInv(limit);
    RunKeepsInv(Empty(limit), steps);
    LimitIsKept(Empty(limit), steps);
    Dropped(Performed(Empty(limit), steps), step, id);
  }

  lemma Dropped(sys: System, step: Step, id: DeliveryId)
    requires SystemInv(sys) && id in sys.log.records && id !in Perform(sys, step).1.log.records
    ensures step.Accept? && |sys.log.records| == sys.log.limit && IsClosed(sys.log, id) && id in sys.told
    ensures forall other | IsClosed(sys.log, other) && other != id ::
              other in sys.told && sys.told[id].heard < sys.told[other].heard
  {
    hide Next, Reflects, Inv, Agrees;
    var order := sys.log.terminalOrder;
    assert order != [] && id == order[0] && id in order;
    forall other | IsClosed(sys.log, other) && other != id
      ensures other in sys.told && sys.told[id].heard < sys.told[other].heard
    {
      assert other in order;
      var j :| 0 <= j < |order| && order[j] == other;
      assert 0 < j;
    }
  }

  lemma {:induction false} LimitIsKept(sys: System, steps: seq<Step>)
    ensures Performed(sys, steps).log.limit == sys.log.limit
    decreases |steps|
  {
    hide Next;
    if steps != [] { LimitIsKept(Perform(sys, steps[0]).1, steps[1..]); }
  }

  lemma {:induction false} RunKeepsInv(sys: System, steps: seq<Step>)
    requires SystemInv(sys) && forall i | 0 <= i < |steps| :: ValidStep(steps[i])
    ensures SystemInv(Performed(sys, steps))
    decreases |steps|
  {
    hide Perform, SystemInv, ValidStep;
    if steps != [] {
      if steps[0].Accept? { AcceptKeepsInv(sys, steps[0]); } else { DeliverIsLegal(sys, steps[0]); }
      RunKeepsInv(Perform(sys, steps[0]).1, steps[1..]);
    }
  }

  lemma EmptyInv(limit: nat)
    requires 1 <= limit
    ensures SystemInv(Empty(limit))
  {
  }

  /** A known delivery conflicts; a full log refuses a new one exactly when none of its records is closed. */
  lemma RefusesOnlyWhenAllPending(log: Log, id: DeliveryId, route: seq<Byte>, at: nat)
    requires LogInv(log)
    ensures Insert(log, id, route, at).0 == Err(Conflict) <==> id in log.records
    ensures Insert(log, id, route, at).0 == Err(CapacityExhausted)
            <==> && id !in log.records && |log.records| == log.limit
                 && forall x | x in log.records :: log.records[x].state.Pending?
    ensures forall x | x in log.records && log.records[x].state.Pending? ::
              x in Insert(log, id, route, at).1.records && Insert(log, id, route, at).1.records[x] == log.records[x]
  {
    if log.terminalOrder != [] { assert IsClosed(log, log.terminalOrder[0]); }
    forall x | x in log.records ensures log.records[x].state.Closed? <==> x in log.terminalOrder {
      assert x in log.terminalOrder <==> IsClosed(log, x);
    }
  }
}
