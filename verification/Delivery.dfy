/** The retry state machine of one accepted delivery. */
module Delivery {

  import opened Bytes
  import opened Backoff

  const MAX_INSTANT := 0xffff_ffff_ffff_ffff * 1_000_000_000 + 999_999_999

  type U16 = n: nat | n < 65536

  type DeliveryId = seq<Byte>

  datatype Failure =
    | Cancelled | DeadlineExceeded | EndpointPolicy | SecretUnavailable
    | TransportUnavailable | ReceiverRejected | RetryExhausted | Internal

  datatype RetryableFailure = Deadline | Secret | Transport | Receiver

  function AsFailure(f: RetryableFailure): Failure {
    match f
    case Deadline => DeadlineExceeded
    case Secret => SecretUnavailable
    case Transport => TransportUnavailable
    case Receiver => ReceiverRejected
  }

  datatype Category = Succeeded | Unsuccessful | Invalid

  datatype Metadata = Metadata(category: Category, bytes: nat)

  datatype Outcome = Delivered | Failed(failure: Failure) | LostOnShutdown | UnknownAfterCrash

  datatype Event =
    | Drive
    | Succeed(result: Option<Metadata>)
    | Retry(retryable: RetryableFailure)
    | Fail(failure: Failure)
    | FailWithResult(failed: Failure, metadata: Metadata)
    | Cancel
    | ShutdownDeadline

  datatype Time = Time(monotonic: nat, unixMs: nat)

  datatype Phase = Ready | InFlight | WaitingRetry(deadline: nat) | Terminal

  datatype Persistence =
    | RecordAttempt(delivery: DeliveryId, attempts: nat, at: nat)
    | RecordOutcome(delivery: DeliveryId, outcome: Outcome, at: nat, result: Option<Metadata>)

  datatype RuntimeAction =
    | NoAction
    | StartAttempt(attempts: nat)
    | Wait
    | Publish(outcome: Outcome, result: Option<Metadata>)

  datatype Transition = Transition(persistence: Option<Persistence>, action: RuntimeAction, nextDeadline: Option<nat>)

  const QUIET := Transition(None, NoAction, None)

  /** The state of one delivery. */
  datatype Lifecycle = Lifecycle(delivery: DeliveryId, retry: RetryPolicy, attempts: U16, phase: Phase)

  function Fresh(delivery: DeliveryId, retry: RetryPolicy): Lifecycle { Lifecycle(delivery, retry, 0, Ready) }

  function SaturatingAdd(t: nat, d: nat): nat { Min(t + d, MAX_INSTANT) }

  /** 16-bit counting that stops at the greatest value. */
  function NextAttempt(attempts: U16): U16 { if attempts < 65535 then attempts + 1 else attempts }

  function Started(l: Lifecycle, time: Time): (Transition, Lifecycle) {
    var n := NextAttempt(l.attempts);
    (Transition(Some(RecordAttempt(l.delivery, n, time.unixMs)), StartAttempt(n), None),
     l.(attempts := n, phase := InFlight))
  }

  function Ended(l: Lifecycle, time: Time, outcome: Outcome, result: Option<Metadata>): (Transition, Lifecycle) {
    (Transition(Some(RecordOutcome(l.delivery, outcome, time.unixMs, result)), Publish(outcome, result), None),
     l.(phase := Terminal))
  }

  function Driven(l: Lifecycle, time: Time): (Option<Transition>, Lifecycle) {
    match l.phase
    case Ready => var (t, n) := Started(l, time); (Some(t), n)
    case WaitingRetry(deadline) =>
      if time.monotonic >= deadline then var (t, n) := Started(l, time); (Some(t), n)
      else (Some(Transition(None, Wait, Some(deadline))), l)
    case InFlight => (None, l)
    case Terminal => (Some(QUIET), l)
  }

  /** One transition; `None` is the error for an event the phase does not admit. */
  function Next(l: Lifecycle, time: Time, event: Event): (Option<Transition>, Lifecycle) {
    if l.phase.Terminal? then (Some(QUIET), l)
    else match event
      case Drive => Driven(l, time)
      case Cancel => var (t, n) := Ended(l, time, Failed(Cancelled), None); (Some(t), n)
      case ShutdownDeadline => var (t, n) := Ended(l, time, LostOnShutdown, None); (Some(t), n)
      case Succeed(result) =>
        if !l.phase.InFlight? then (None, l) else var (t, n) := Ended(l, time, Delivered, result); (Some(t), n)
      case Fail(failure) =>
        if !l.phase.InFlight? then (None, l) else var (t, n) := Ended(l, time, Failed(failure), None); (Some(t), n)
      case FailWithResult(failure, result) =>
        if !l.phase.InFlight? then (None, l)
        else var (t, n) := Ended(l, time, Failed(failure), Some(result)); (Some(t), n)
      case Retry(failure) =>
        if !l.phase.InFlight? then (None, l)
        else if l.attempts <= l.retry.retries then
          var deadline := SaturatingAdd(time.monotonic, RetryDelay(l.retry, l.delivery, l.attempts));
          (Some(Transition(None, Wait, Some(deadline))), l.(phase := WaitingRetry(deadline)))
        else var (t, n) := Ended(l, time, Failed(AsFailure(failure)), None); (Some(t), n)
  }

  /** The machine as the program holds it. */
  class DeliveryLifecycle {
    const delivery: DeliveryId
    const retry: RetryPolicy
    var attempts: U16
    var phase: Phase

    ghost function Contents(): Lifecycle
      reads this
    {
      Lifecycle(delivery, retry, attempts, phase)
    }

    constructor (delivery: DeliveryId, retry: RetryPolicy)
      ensures Contents() == Fresh(delivery, retry)
    {
      this.delivery, this.retry, attempts, phase := delivery, retry, 0, Ready;
    }

    method Apply(time: Time, event: Event) returns (result: Option<Transition>)
      modifies this
      ensures (result, Contents()) == Next(old(Contents()), time, event)
    {
      if phase.Terminal? { return Some(QUIET); }
      match event {
        case Drive => result := DriveIt(time);
        case Cancel => var t := Finish(time, Failed(Cancelled), None); result := Some(t);
        case ShutdownDeadline => var t := Finish(time, LostOnShutdown, None); result := Some(t);
        case Succeed(r) =>
          if !phase.InFlight? { return None; }
          var t := Finish(time, Delivered, r);
          result := Some(t);
        case Fail(failure) =>
          if !phase.InFlight? { return None; }
          var t := Finish(time, Failed(failure), None);
          result := Some(t);
        case FailWithResult(failure, r) =>
          if !phase.InFlight? { return None; }
          var t := Finish(time, Failed(failure), Some(r));
          result := Some(t);
        case Retry(failure) =>
          if !phase.InFlight? { return None; }
          if attempts <= retry.retries {
            var deadline := SaturatingAdd(time.monotonic, RetryDelay(retry, delivery, attempts));
            phase := WaitingRetry(deadline);
            result := Some(Transition(None, Wait, Some(deadline)));
          } else {
            var t := Finish(time, Failed(AsFailure(failure)), None);
            result := Some(t);
          }
      }
    }

    method DriveIt(time: Time) returns (result: Option<Transition>)
      modifies this
      ensures (result, Contents()) == Driven(old(Contents()), time)
    {
      match phase {
        case Ready => var t := Start(time); result := Some(t);
        case WaitingRetry(deadline) =>
          if time.monotonic >= deadline { var t := Start(time); result := Some(t); }
          else { result := Some(Transition(None, Wait, Some(deadline))); }
        case InFlight => result := None;
        case Terminal => result := Some(QUIET);
      }
    }

    method Start(time: Time) returns (t: Transition)
      modifies this
      ensures (t, Contents()) == Started(old(Contents()), time)
    {
      attempts := NextAttempt(attempts);
      phase := InFlight;
      t := Transition(Some(RecordAttempt(delivery, attempts, time.unixMs)), StartAttempt(attempts), None);
    }

    method Finish(time: Time, outcome: Outcome, result: Option<Metadata>) returns (t: Transition)
      modifies this
      ensures (t, Contents()) == Ended(old(Contents()), time, outcome, result)
    {
      phase := Terminal;
      t := Transition(Some(RecordOutcome(delivery, outcome, time.unixMs, result)), Publish(outcome, result), None);
    }
  }

  // ---------------------------------------------------------------- runs

  datatype Input = Input(time: Time, event: Event)

  /** How far a delivery has come, phase by phase. */
  predicate Inv(l: Lifecycle) {
    && ValidPolicy(l.retry)
    && match l.phase
       case Ready => l.attempts == 0
       case InFlight => 1 <= l.attempts <= l.retry.retries + 1
       case WaitingRetry(_) => 1 <= l.attempts <= l.retry.retries
       case Terminal => l.attempts <= l.retry.retries + 1
  }

  lemma NextKeepsInv(l: Lifecycle, input: Input)
    requires Inv(l)
    ensures Inv(Next(l, input.time, input.event).1)
    ensures Next(l, input.time, input.event).1.(attempts := 0, phase := Ready) == l.(attempts := 0, phase := Ready)
  {
  }

  function Effect(t: Option<Transition>): seq<Persistence> {
    if t.Some? && t.value.persistence.Some? then [t.value.persistence.value] else []
  }

  function Final(l: Lifecycle, inputs: seq<Input>): (r: Lifecycle)
    requires Inv(l)
    ensures Inv(r)
    decreases |inputs|
  {
    if inputs == [] then l
    else
      NextKeepsInv(l, inputs[0]);
      Final(Next(l, inputs[0].time, inputs[0].event).1, inputs[1..])
  }

  /** Every persistence effect of a run, in order. */
  function Effects(l: Lifecycle, inputs: seq<Input>): seq<Persistence>
    requires Inv(l)
    decreases |inputs|
  {
    if inputs == [] then []
    else
      NextKeepsInv(l, inputs[0]);
      var (t, n) := Next(l, inputs[0].time, inputs[0].event);
      Effect(t) + Effects(n, inputs[1..])
  }

  /** How many transitions of a run change the state. */
  function Changes(l: Lifecycle, inputs: seq<Input>): nat
    requires Inv(l)
    decreases |inputs|
  {
    if inputs == [] then 0
    else
      NextKeepsInv(l, inputs[0]);
      var n := Next(l, inputs[0].time, inputs[0].event).1;
      (if n == l then 0 else 1) + Changes(n, inputs[1..])
  }

  /** The effects still to come from `l`: attempts numbered on from its own, then at most one outcome. */
  predicate Continues(l: Lifecycle, effects: seq<Persistence>, end: Lifecycle) {
    var n := end.attempts - l.attempts;
    var closes := !l.phase.Terminal? && end.phase.Terminal?;
    && n >= 0 && (l.phase.Terminal? ==> n == 0 && end.phase.Terminal?)
    && |effects| == n + (if closes then 1 else 0)
    && (forall i | 0 <= i < n ::
          effects[i].RecordAttempt? && effects[i].delivery == l.delivery && effects[i].attempts == l.attempts + i + 1)
    && (closes ==>
          effects[n].RecordOutcome? && effects[n].delivery == l.delivery && effects[n].outcome != UnknownAfterCrash)
  }

  lemma NextContinues(l: Lifecycle, input: Input)
    requires Inv(l)
    ensures var (t, n) := Next(l, input.time, input.event); Continues(l, Effect(t), n)
  {
    hide RetryDelay;
  }

  lemma ContinuesOn(l: Lifecycle, first: seq<Persistence>, mid: Lifecycle, rest: seq<Persistence>, end: Lifecycle)
    requires Continues(l, first, mid) && Continues(mid, rest, end) && mid.delivery == l.delivery
    ensures Continues(l, first + rest, end)
  {
  }

  lemma {:induction false} RunContinues(l: Lifecycle, inputs: seq<Input>)
    requires Inv(l)
    ensures Continues(l, Effects(l, inputs), Final(l, inputs))
    ensures Final(l, inputs).retry == l.retry && Final(l, inputs).delivery == l.delivery
    decreases |inputs|
  {
    if inputs != [] {
      hide Next, Effect, Continues;
      var (t, n) := Next(l, inputs[0].time, inputs[0].event);
      NextKeepsInv(l, inputs[0]);
      NextContinues(l, inputs[0]);
      RunContinues(n, inputs[1..]);
      ContinuesOn(l, Effect(t), n, Effects(n, inputs[1..]), Final(n, inputs[1..]));
    }
  }

  /** Transitions that may still change the state. */
  function Budget(l: Lifecycle): int {
    var left := 2 * (l.retry.retries + 1 - l.attempts);
    if l.phase.Terminal? then 0 else if l.phase.InFlight? then left + 1 else left
  }

  lemma {:induction false} ChangesWithinBudget(l: Lifecycle, inputs: seq<Input>)
    requires Inv(l)
    ensures Changes(l, inputs) <= Budget(l)
    decreases |inputs|
  {
    hide RetryDelay;
    if inputs != [] {
      NextKeepsInv(l, inputs[0]);
      ChangesWithinBudget(Next(l, inputs[0].time, inputs[0].event).1, inputs[1..]);
    }
  }

  /**
   * Every run of a delivery: attempts are recorded as 1, 2, ..., n with n at most retries + 1, then
   * at most one outcome, then nothing; and at most 2 * retries + 2 transitions change the state.
   */
  lemma RunShape(delivery: DeliveryId, retry: RetryPolicy, inputs: seq<Input>)
    requires ValidPolicy(retry)
    ensures var l := Fresh(delivery, retry);
            var effects, end := Effects(l, inputs), Final(l, inputs);
            && end.attempts <= retry.retries + 1
            && |effects| == end.attempts + (if end.phase.Terminal? then 1 else 0)
            && (forall i | 0 <= i < end.attempts :: effects[i].RecordAttempt? && effects[i].attempts == i + 1)
            && (end.phase.Terminal? ==> effects[end.attempts].RecordOutcome?)
            && (forall i | 0 <= i < |effects| :: effects[i].delivery == delivery)
            && Changes(l, inputs) <= 2 * retry.retries + 2
  {
    RunContinues(Fresh(delivery, retry), inputs);
    ChangesWithinBudget(Fresh(delivery, retry), inputs);
  }

  /** What ends a wait: a cancellation, the shutdown, or a drive at or after the deadline. */
  predicate EndsWait(input: Input, deadline: nat) {
    input.event.Cancel? || input.event.ShutdownDeadline? || (input.event.Drive? && input.time.monotonic >= deadline)
  }

  lemma WaitEnds(l: Lifecycle, input: Input)
    requires Inv(l) && l.phase.WaitingRetry?
    ensures var n := Next(l, input.time, input.event).1;
            if EndsWait(input, l.phase.deadline) then n.attempts > l.attempts || n.phase.Terminal?
            else n == l && Effect(Next(l, input.time, input.event).0) == []
  {
    hide RetryDelay;
  }

  /** A waiting delivery is left exactly as it is, and records nothing, by the inputs that do not end its wait. */
  lemma {:induction false} WaitingHolds(l: Lifecycle, inputs: seq<Input>)
    requires Inv(l) && l.phase.WaitingRetry?
    ensures Final(l, inputs) == l <==> forall i | 0 <= i < |inputs| :: !EndsWait(inputs[i], l.phase.deadline)
    ensures Final(l, inputs) != l ==> Final(l, inputs).attempts > l.attempts || Final(l, inputs).phase.Terminal?
    ensures Final(l, inputs) == l ==> Effects(l, inputs) == []
    decreases |inputs|
  {
    hide RetryDelay, Next, EndsWait;
    if inputs != [] {
      NextKeepsInv(l, inputs[0]);
      WaitEnds(l, inputs[0]);
      var n := Next(l, inputs[0].time, inputs[0].event).1;
      RunContinues(n, inputs[1..]);
      if n == l {
        WaitingHolds(l, inputs[1..]);
        assert forall i | 1 <= i < |inputs| :: inputs[i] == inputs[1..][i - 1];
      }
    }
  }

  /**
   * Attempts are spaced: after attempt k fails retryably, whatever happens in between, the next
   * attempt starts no sooner than the backoff delay for k after the failure.
   */
  lemma AttemptsAreSpaced(
    l: Lifecycle, failed: Time, why: RetryableFailure, waiting: Lifecycle, between: seq<Input>, started: Time)
    requires Inv(l) && l.phase.InFlight? && l.attempts <= l.retry.retries
    requires Inv(waiting) && waiting == Next(l, failed, Retry(why)).1
    requires Final(waiting, between).attempts == l.attempts
    requires Next(Final(waiting, between), started, Drive).1.attempts == l.attempts + 1
    ensures started.monotonic >= SaturatingAdd(failed.monotonic, RetryDelay(l.retry, l.delivery, l.attempts))
  {
    WaitingHolds(waiting, between);
  }
}
