/** How a run of a delivery ends, and what starts its attempts. */
module DeliveryOutcomes {

  import opened Bytes
  import opened Backoff
  import opened Delivery

  datatype Ending = Ending(outcome: Outcome, metadata: Option<Metadata>)

  /** The ending an event brings to a delivery that is still open, given whether an attempt is in flight. */
  function Closing(event: Event, inFlight: bool, retriesLeft: bool): Option<Ending> {
    match event
    case Cancel => Some(Ending(Failed(Cancelled), None))
    case ShutdownDeadline => Some(Ending(LostOnShutdown, None))
    case Drive => None
    case Succeed(result) => if inFlight then Some(Ending(Delivered, result)) else None
    case Fail(failure) => if inFlight then Some(Ending(Failed(failure), None)) else None
    case FailWithResult(failure, metadata) => if inFlight then Some(Ending(Failed(failure), Some(metadata))) else None
    case Retry(failure) =>
      if !inFlight || retriesLeft then None
      else match failure
        case Deadline => Some(Ending(Failed(DeadlineExceeded), None))
        case Secret => Some(Ending(Failed(SecretUnavailable), None))
        case Transport => Some(Ending(Failed(TransportUnavailable), None))
        case Receiver => Some(Ending(Failed(ReceiverRejected), None))
  }

  /** What input `k` of the run brings, if the delivery is still open then. */
  function ClosingAt(l: Lifecycle, inputs: seq<Input>, k: nat): Option<Ending>
    requires Inv(l) && k < |inputs|
  {
    var before := Final(l, inputs[..k]);
    if before.phase.Terminal? then None
    else Closing(inputs[k].event, before.phase.InFlight?, before.attempts <= before.retry.retries)
  }

  /** The record of an ending and the action that publishes it. */
  function Ended(l: Lifecycle, ending: Ending, at: nat): Transition {
    var record := RecordOutcome(l.delivery, ending.outcome, at, ending.metadata);
    Transition(Some(record), Publish(ending.outcome, ending.metadata), None)
  }

  lemma NextCloses(l: Lifecycle, input: Input)
    requires Inv(l) && !l.phase.Terminal?
    ensures var (t, n) := Next(l, input.time, input.event);
            var ending := Closing(input.event, l.phase.InFlight?, l.attempts <= l.retry.retries);
            && (n.phase.Terminal? <==> ending.Some?)
            && (ending.Some? ==> t == Some(Ended(l, ending.value, input.time.unixMs)))
  {
    hide RetryDelay;
  }

  lemma FinalOfRest(l: Lifecycle, inputs: seq<Input>, k: nat)
    requires Inv(l) && 0 < k < |inputs|
    ensures var n := Next(l, inputs[0].time, inputs[0].event).1;
            Inv(n) && ClosingAt(l, inputs, k) == ClosingAt(n, inputs[1..], k - 1)
            && Final(l, inputs[..k]) == Final(n, inputs[1..][..k - 1])
  {
    hide Next, Closing;
    NextKeepsInv(l, inputs[0]);
    assert inputs[..k][1..] == inputs[1..][..k - 1];
  }

  /** The ending is published by input `k` and stays the last record of the run. */
  predicate EndsAt(l: Lifecycle, inputs: seq<Input>, k: nat, ending: Ending)
    requires Inv(l) && k < |inputs|
  {
    var effects, ended := Effects(l, inputs), Ended(l, ending, inputs[k].time.unixMs);
    && Next(Final(l, inputs[..k]), inputs[k].time, inputs[k].event).0 == Some(ended)
    && effects != [] && effects[|effects| - 1] == ended.persistence.value
  }

  lemma {:induction false} TerminalStays(l: Lifecycle, inputs: seq<Input>)
    requires Inv(l) && l.phase.Terminal?
    ensures Final(l, inputs) == l && Effects(l, inputs) == []
    decreases |inputs|
  {
    if inputs != [] { TerminalStays(l, inputs[1..]); }
  }

  lemma {:induction false} ClosedIsEnded(l: Lifecycle, inputs: seq<Input>, k: nat)
    requires Inv(l) && k < |inputs| && ClosingAt(l, inputs, k).Some?
    ensures Final(l, inputs).phase.Terminal? && EndsAt(l, inputs, k, ClosingAt(l, inputs, k).value)
    decreases k
  {
    hide Next, Closing;
    var (t, n) := Next(l, inputs[0].time, inputs[0].event);
    NextKeepsInv(l, inputs[0]);
    if k == 0 {
      assert inputs[..0] == [];
      NextCloses(l, inputs[0]);
      TerminalStays(n, inputs[1..]);
    } else {
      FinalOfRest(l, inputs, k);
      ClosedIsEnded(n, inputs[1..], k - 1);
      hide ClosingAt;
      assert Effects(l, inputs) == Effect(t) + Effects(n, inputs[1..]);
    }
  }

  lemma {:induction false} EndedIsClosed(l: Lifecycle, inputs: seq<Input>) returns (k: nat)
    requires Inv(l) && !l.phase.Terminal? && Final(l, inputs).phase.Terminal?
    ensures k < |inputs| && ClosingAt(l, inputs, k).Some?
    decreases |inputs|
  {
    hide Next, Closing;
    var n := Next(l, inputs[0].time, inputs[0].event).1;
    NextKeepsInv(l, inputs[0]);
    NextCloses(l, inputs[0]);
    if n.phase.Terminal? {
      assert inputs[..0] == [];
      k := 0;
    } else {
      var j := EndedIsClosed(n, inputs[1..]);
      k := j + 1;
      FinalOfRest(l, inputs, k);
    }
  }

  lemma ClosesOnce(l: Lifecycle, inputs: seq<Input>, j: nat, k: nat)
    requires Inv(l) && j < k < |inputs| && ClosingAt(l, inputs, j).Some?
    ensures ClosingAt(l, inputs, k).None?
  {
    hide Closing, EndsAt, Final;
    assert inputs[..k][..j] == inputs[..j];
    ClosedIsEnded(l, inputs[..k], j);
  }

  /**
   * A run closes the delivery if and only if some input closes it, and only one does.  The ending of that
   * input is the last record of the run, at that input's wall-clock time, and it is what is published.
   */
  lemma RunEndsAsClosed(l: Lifecycle, inputs: seq<Input>)
    requires Inv(l) && !l.phase.Terminal?
    ensures Final(l, inputs).phase.Terminal? <==> exists k :: 0 <= k < |inputs| && ClosingAt(l, inputs, k).Some?
    ensures forall k | 0 <= k < |inputs| && ClosingAt(l, inputs, k).Some? ::
              EndsAt(l, inputs, k, ClosingAt(l, inputs, k).value)
    ensures forall j, k | 0 <= j < k < |inputs| && ClosingAt(l, inputs, j).Some? :: ClosingAt(l, inputs, k).None?
  {
    hide Final, ClosingAt, EndsAt;
    forall j, k | 0 <= j < k < |inputs| && ClosingAt(l, inputs, j).Some? ensures ClosingAt(l, inputs, k).None? {
      ClosesOnce(l, inputs, j, k);
    }
    if Final(l, inputs).phase.Terminal? { var k := EndedIsClosed(l, inputs); }
    forall k | 0 <= k < |inputs| && ClosingAt(l, inputs, k).Some?
      ensures Final(l, inputs).phase.Terminal? && EndsAt(l, inputs, k, ClosingAt(l, inputs, k).value)
    {
      ClosedIsEnded(l, inputs, k);
    }
  }

  // ---------------------------------------------------------------- attempts

  /** When a drive starts an attempt, and what else it may do. */
  lemma DriveStartsWhenDue(l: Lifecycle, time: Time)
    requires Inv(l) && !l.phase.Terminal?
    ensures var (t, n) := Next(l, time, Drive);
            if l.phase.Ready? || (l.phase.WaitingRetry? && time.monotonic >= l.phase.deadline) then
              && n == l.(attempts := l.attempts + 1, phase := InFlight)
              && t == Some(Transition(Some(RecordAttempt(l.delivery, l.attempts + 1, time.unixMs)),
                                      StartAttempt(l.attempts + 1), None))
            else if l.phase.WaitingRetry? then n == l && t == Some(Transition(None, Wait, Some(l.phase.deadline)))
            else n == l && t == None
  {
  }

  /** A new delivery starts its first attempt at its first drive, whatever else comes before that does not close it. */
  lemma {:induction false} FirstDriveStarts(delivery: DeliveryId, retry: RetryPolicy, before: seq<Input>, time: Time)
    requires ValidPolicy(retry)
    requires forall i | 0 <= i < |before| ::
               !before[i].event.Drive? && !before[i].event.Cancel? && !before[i].event.ShutdownDeadline?
    ensures var l := Final(Fresh(delivery, retry), before);
            && l == Fresh(delivery, retry)
            && Next(l, time, Drive).0
               == Some(Transition(Some(RecordAttempt(delivery, 1, time.unixMs)), StartAttempt(1), None))
    decreases |before|
  {
    hide RetryDelay;
    if before != [] { FirstDriveStarts(delivery, retry, before[1..], time); }
  }

  /** A failure that may be retried waits, and until exactly when, while retries are left. */
  lemma RetryWaits(l: Lifecycle, failed: Time, why: RetryableFailure)
    requires Inv(l) && l.phase.InFlight? && l.attempts <= l.retry.retries
    ensures var deadline := SaturatingAdd(failed.monotonic, RetryDelay(l.retry, l.delivery, l.attempts));
            Next(l, failed, Retry(why))
            == (Some(Transition(None, Wait, Some(deadline))), l.(phase := WaitingRetry(deadline)))
  {
    hide RetryDelay;
  }

  /**
   * After attempt k fails and may be retried, whatever comes in between that does not end the wait, the
   * next drive starts attempt k + 1 if and only if the backoff delay for k has passed since the failure.
   */
  lemma NextAttemptIffDue(l: Lifecycle, failed: Time, why: RetryableFailure, between: seq<Input>, started: Time)
    requires Inv(l) && l.phase.InFlight? && l.attempts <= l.retry.retries
    requires var deadline := SaturatingAdd(failed.monotonic, RetryDelay(l.retry, l.delivery, l.attempts));
             forall i | 0 <= i < |between| :: !EndsWait(between[i], deadline)
    ensures var waiting := Next(l, failed, Retry(why)).1;
            && Inv(waiting)
            && var (t, n) := Next(Final(waiting, between), started, Drive);
               && (n.attempts == l.attempts + 1 && n.phase.InFlight?
                   <==> started.monotonic
                        >= SaturatingAdd(failed.monotonic, RetryDelay(l.retry, l.delivery, l.attempts)))
               && (n.attempts == l.attempts || n.attempts == l.attempts + 1)
  {
    hide RetryDelay, Next, EndsWait;
    NextKeepsInv(l, Input(failed, Retry(why)));
    RetryWaits(l, failed, why);
    var waiting := Next(l, failed, Retry(why)).1;
    WaitingHolds(waiting, between);
    DriveStartsWhenDue(waiting, started);
  }

  /** An open delivery refuses exactly a result with no attempt in flight and a drive during one. */
  lemma RefusedIff(l: Lifecycle, input: Input)
    requires Inv(l)
    ensures var (t, n) := Next(l, input.time, input.event);
            && (t.None? <==> && !l.phase.Terminal?
                             && if l.phase.InFlight? then input.event.Drive?
                                else !input.event.Drive? && !input.event.Cancel? && !input.event.ShutdownDeadline?)
            && (t.None? ==> n == l)
            && (l.phase.Terminal? ==> t == Some(QUIET) && n == l)
  {
    hide RetryDelay;
  }
}
