/**
 * The lock-and-condition protocol around the native egress handle.
 *
 * Every stretch of code run under the lock is one step of one thread; a thread that waits on the
 * condition is asleep until a broadcast or a spurious wake-up.  A schedule is any list of actions.
 */
module EgressHandle {

  import opened Tally

  datatype Pc =
    | CallStart       // about to enter withHandle
    | InOperation     // the operation has the handle
    | CallDone        // the operation returned
    | CallRefused     // threw `stopped`
    | StopStart       // about to (re)check `stopping`
    | StopAsleep      // waits for another stop to finish
    | DrainAwake      // set `stopping`; about to recheck the active operations
    | DrainAsleep     // set `stopping`; waits for the active operations
    | StopNative      // took the handle; the native stop is running
    | StopReturned    // the native stop returned
    | StopDone        // stop returned

  datatype State = State(
    handle: bool, stopping: bool, active: int, pcs: seq<Pc>, nativeStops: nat, nativeReturns: nat)

  predicate Initial(s: State) {
    && s.handle && !s.stopping && s.active == 0 && s.nativeStops == 0 && s.nativeReturns == 0
    && forall i | 0 <= i < |s.pcs| :: s.pcs[i] == CallStart || s.pcs[i] == StopStart
  }

  predicate Finished(pc: Pc) { pc.CallDone? || pc.CallRefused? || pc.StopDone? }

  predicate Asleep(pc: Pc) { pc.StopAsleep? || pc.DrainAsleep? }

  function Woken(pc: Pc): Pc {
    match pc
    case StopAsleep => StopStart
    case DrainAsleep => DrainAwake
    case _ => pc
  }

  function Broadcast(s: State): State { s.(pcs := Map(Woken, s.pcs)) }

  function At(s: State, t: nat, pc: Pc): State
    requires t < |s.pcs|
  {
    s.(pcs := s.pcs[t := pc])
  }

  /** The tail of `stop` once `stopping` is set: wait for the operations or take the handle. */
  function Drain(s: State, t: nat): State
    requires t < |s.pcs|
  {
    if s.active > 0 then At(s, t, DrainAsleep)
    else At(s, t, StopNative).(handle := false, nativeStops := s.nativeStops + 1)
  }

  predicate CanAdvance(s: State, t: nat) { t < |s.pcs| && !Finished(s.pcs[t]) && !Asleep(s.pcs[t]) }

  /** The next step of thread `t`. */
  function Advance(s: State, t: nat): State
    requires CanAdvance(s, t)
  {
    match s.pcs[t]
    case CallStart =>
      if s.handle && !s.stopping then At(s, t, InOperation).(active := s.active + 1) else At(s, t, CallRefused)
    case InOperation =>
      var left := At(s, t, CallDone).(active := s.active - 1);
      if left.active == 0 then Broadcast(left) else left
    case StopStart =>
      if s.stopping then At(s, t, StopAsleep)
      else if !s.handle then At(s, t, StopDone)
      else Drain(s.(stopping := true), t)
    case DrainAwake => Drain(s, t)
    case StopNative => At(s, t, StopReturned).(nativeReturns := s.nativeReturns + 1)
    case StopReturned => Broadcast(At(s, t, StopDone).(stopping := false))
  }

  datatype Action = Run(thread: nat) | Wake(thread: nat)

  predicate Enabled(s: State, a: Action) {
    match a
    case Run(t) => CanAdvance(s, t)
    case Wake(t) => t < |s.pcs| && Asleep(s.pcs[t])
  }

  /** One scheduler choice; a choice that is not enabled changes nothing. */
  function Step(s: State, a: Action): State {
    if !Enabled(s, a) then s
    else match a
      case Run(t) => Advance(s, t)
      case Wake(t) => At(s, t, Woken(s.pcs[t]))
  }

  function Schedule(s: State, actions: seq<Action>): State
    decreases |actions|
  {
    if actions == [] then s else Schedule(Step(s, actions[0]), actions[1..])
  }

  // ---------------------------------------------------------------- invariant

  /** What every reachable state satisfies. */
  predicate Inv(s: State) {
    && s.active == Count(InOperation, s.pcs)
    && Count(DrainAwake, s.pcs) + Count(DrainAsleep, s.pcs) == One(s.stopping && s.handle)
    && Count(StopNative, s.pcs) + Count(StopReturned, s.pcs) == One(s.stopping && !s.handle)
    && s.nativeStops == One(!s.handle)
    && s.nativeReturns + Count(StopNative, s.pcs) == s.nativeStops
    && (!s.handle ==> s.active == 0)
    && (Count(StopDone, s.pcs) > 0 ==> !s.handle && s.nativeReturns == 1)
    && (Count(CallRefused, s.pcs) > 0 ==> s.stopping || !s.handle)
    && (Count(StopAsleep, s.pcs) > 0 ==> s.stopping)
    && (Count(DrainAsleep, s.pcs) > 0 ==> s.active > 0)
  }

  lemma InitialInv(s: State)
    requires Initial(s)
    ensures Inv(s)
  {
    forall pc: Pc | pc != CallStart && pc != StopStart ensures Count(pc, s.pcs) == 0 { CountAbsent(pc, s.pcs); }
  }

  /** A broadcast moves the sleepers to their checks and nobody else. */
  lemma {:induction false} BroadcastCounts(pcs: seq<Pc>, x: Pc)
    ensures Count(x, Map(Woken, pcs))
            == match x
               case StopAsleep => 0
               case DrainAsleep => 0
               case StopStart => Count(StopStart, pcs) + Count(StopAsleep, pcs)
               case DrainAwake => Count(DrainAwake, pcs) + Count(DrainAsleep, pcs)
               case _ => Count(x, pcs)
    decreases |pcs|
  {
    if pcs != [] {
      assert Map(Woken, pcs)[1..] == Map(Woken, pcs[1..]);
      BroadcastCounts(pcs[1..], x);
    }
  }

  lemma BroadcastMoves(pcs: seq<Pc>)
    ensures forall x :: x != StopStart && x != DrainAwake && x != StopAsleep && x != DrainAsleep
                        ==> Count(x, Map(Woken, pcs)) == Count(x, pcs)
    ensures Count(StopAsleep, Map(Woken, pcs)) == Count(DrainAsleep, Map(Woken, pcs)) == 0
    ensures Count(DrainAwake, Map(Woken, pcs)) == Count(DrainAwake, pcs) + Count(DrainAsleep, pcs)
  {
    forall x: Pc | x != StopStart && x != DrainAwake && x != StopAsleep && x != DrainAsleep
      ensures Count(x, Map(Woken, pcs)) == Count(x, pcs)
    {
      BroadcastCounts(pcs, x);
    }
    BroadcastCounts(pcs, StopAsleep);
    BroadcastCounts(pcs, DrainAsleep);
    BroadcastCounts(pcs, DrainAwake);
  }

  lemma CallStartKeepsInv(s: State, t: nat)
    requires Inv(s) && CanAdvance(s, t) && s.pcs[t].CallStart?
    ensures Inv(Advance(s, t))
  {
    hide Count;
    MoveCounts(s.pcs, t, InOperation);
    MoveCounts(s.pcs, t, CallRefused);
  }

  lemma CallEndKeepsInv(s: State, t: nat)
    requires Inv(s) && CanAdvance(s, t) && s.pcs[t].InOperation?
    ensures Inv(Advance(s, t))
  {
    hide Count, Map;
    MoveCounts(s.pcs, t, CallDone);
    BroadcastMoves(s.pcs[t := CallDone]);
  }

  lemma DrainKeepsInv(s: State, t: nat)
    requires Inv(s) && t < |s.pcs| && s.pcs[t].DrainAwake?
    ensures Inv(Drain(s, t))
  {
    hide Count;
    MoveCounts(s.pcs, t, DrainAsleep);
    MoveCounts(s.pcs, t, StopNative);
  }

  lemma StopKeepsInv(s: State, t: nat)
    requires Inv(s) && CanAdvance(s, t) && s.pcs[t].StopStart?
    ensures Inv(Advance(s, t))
  {
    hide Count;
    MoveCounts(s.pcs, t, StopAsleep);
    MoveCounts(s.pcs, t, StopDone);
    MoveCounts(s.pcs, t, DrainAwake);
    if s.handle && !s.stopping {
      var claimed := At(s, t, DrainAwake).(stopping := true);
      DrainKeepsInv(claimed, t);
      assert claimed.pcs[t := DrainAsleep] == s.pcs[t := DrainAsleep]
        && claimed.pcs[t := StopNative] == s.pcs[t := StopNative];
      assert Drain(claimed, t) == Drain(s.(stopping := true), t);
    }
  }

  lemma NativeKeepsInv(s: State, t: nat)
    requires Inv(s) && CanAdvance(s, t) && (s.pcs[t].StopNative? || s.pcs[t].StopReturned?)
    ensures Inv(Advance(s, t))
  {
    hide Count, Map;
    MoveCounts(s.pcs, t, StopReturned);
    MoveCounts(s.pcs, t, StopDone);
    BroadcastMoves(s.pcs[t := StopDone]);
  }

  lemma StepKeepsInv(s: State, a: Action)
    requires Inv(s)
    ensures Inv(Step(s, a))
  {
    if Enabled(s, a) {
      var t := a.thread;
      if a.Wake? {
        hide Count;
        MoveCounts(s.pcs, t, Woken(s.pcs[t]));
      } else {
        hide Inv;
        match s.pcs[t] {
          case CallStart => CallStartKeepsInv(s, t);
          case InOperation => CallEndKeepsInv(s, t);
          case StopStart => StopKeepsInv(s, t);
          case DrainAwake => DrainKeepsInv(s, t);
          case StopNative => NativeKeepsInv(s, t);
          case StopReturned => NativeKeepsInv(s, t);
        }
      }
    }
  }

  lemma {:induction false} ScheduleKeepsInv(s: State, actions: seq<Action>)
    requires Inv(s)
    ensures Inv(Schedule(s, actions))
    decreases |actions|
  {
    if actions != [] {
      StepKeepsInv(s, actions[0]);
      ScheduleKeepsInv(Step(s, actions[0]), actions[1..]);
    }
  }

  // ---------------------------------------------------------------- safety

  /**
   * In every interleaving of any number of operations and stops: the native stop is called at most
   * once, never while an operation has the handle; a stop that returned did so after the native stop
   * returned; an operation is refused only once a stop has begun; and no sleeper has been forgotten.
   */
  lemma Safety(initial: State, actions: seq<Action>, i: nat, j: nat)
    requires Initial(initial)
    requires i < |Schedule(initial, actions).pcs| && j < |Schedule(initial, actions).pcs|
    ensures var s := Schedule(initial, actions);
            && s.nativeStops <= 1
            && (s.pcs[i].InOperation? ==> s.handle && !s.pcs[j].StopNative? && !s.pcs[j].StopReturned?)
            && (s.pcs[i].StopNative? && s.pcs[j].StopNative? ==> i == j)
            && (s.pcs[i].StopDone? ==> s.nativeStops == 1 && s.nativeReturns == 1)
            && (s.pcs[i].CallRefused? ==> s.stopping || !s.handle)
            && (s.pcs[i].StopAsleep? ==> s.stopping)
            && (s.pcs[i].DrainAsleep? ==> s.active > 0)
  {
    var s := Schedule(initial, actions);
    InitialInv(initial);
    ScheduleKeepsInv(initial, actions);
    hide Schedule, Count;
    CountMember(s.pcs, i);
    CountMember(s.pcs, j);
    if s.pcs[i] == s.pcs[j] {
      if i < j { CountTwo(s.pcs, i, j); } else if j < i { CountTwo(s.pcs, j, i); }
    }
  }

  predicate Closing(s: State) { s.stopping || !s.handle }

  lemma NoStartStep(s: State, a: Action, i: nat)
    requires Inv(s) && Closing(s) && i < |s.pcs|
    ensures Closing(Step(s, a)) && |Step(s, a).pcs| == |s.pcs|
    ensures Step(s, a).pcs[i].InOperation? ==> s.pcs[i].InOperation?
  {
    hide Count;
    if Enabled(s, a) { CountMember(s.pcs, a.thread); }
  }

  /** Once a stop has begun no operation starts, in any continuation, and nothing undoes the stop. */
  lemma {:induction false} NoLateStart(s: State, actions: seq<Action>, i: nat)
    requires Inv(s) && Closing(s) && i < |s.pcs|
    ensures Closing(Schedule(s, actions)) && |Schedule(s, actions).pcs| == |s.pcs|
    ensures Schedule(s, actions).pcs[i].InOperation? ==> s.pcs[i].InOperation?
    decreases |actions|
  {
    hide Step, Inv, Closing;
    if actions != [] {
      NoStartStep(s, actions[0], i);
      StepKeepsInv(s, actions[0]);
      NoLateStart(Step(s, actions[0]), actions[1..], i);
    }
  }

  /** From the start of any schedule: an operation that has not begun when a stop has can only be refused. */
  lemma StoppedIsRefused(initial: State, actions: seq<Action>, more: seq<Action>, i: nat)
    requires Initial(initial)
    requires var s := Schedule(initial, actions); Closing(s) && i < |s.pcs| && s.pcs[i].CallStart?
    ensures var s, end := Schedule(initial, actions), Schedule(Schedule(initial, actions), more);
            |end.pcs| == |s.pcs| && Closing(end) && (end.pcs[i].CallStart? || end.pcs[i].CallRefused?)
  {
    hide Schedule, Inv;
    InitialInv(initial);
    ScheduleKeepsInv(initial, actions);
    RefusedForGood(Schedule(initial, actions), more, i);
  }

  lemma {:induction false} RefusedForGood(s: State, actions: seq<Action>, i: nat)
    requires Inv(s) && Closing(s) && i < |s.pcs| && (s.pcs[i].CallStart? || s.pcs[i].CallRefused?)
    ensures var end := Schedule(s, actions);
            |end.pcs| == |s.pcs| && Closing(end) && (end.pcs[i].CallStart? || end.pcs[i].CallRefused?)
    decreases |actions|
  {
    hide Step, Inv, Closing;
    if actions != [] {
      RefusedStep(s, actions[0], i);
      StepKeepsInv(s, actions[0]);
      RefusedForGood(Step(s, actions[0]), actions[1..], i);
    }
  }

  lemma RefusedStep(s: State, a: Action, i: nat)
    requires Inv(s) && Closing(s) && i < |s.pcs| && (s.pcs[i].CallStart? || s.pcs[i].CallRefused?)
    ensures var next := Step(s, a);
            |next.pcs| == |s.pcs| && Closing(next) && (next.pcs[i].CallStart? || next.pcs[i].CallRefused?)
  {
    hide Inv, Map;
    NoStartStep(s, a, i);
  }

  // ---------------------------------------------------------------- every call returns

  /** No deadlock and no lost wake-up: while a call is unfinished, some thread is awake and can run. */
  lemma SomeoneRuns(s: State, t: nat) returns (u: nat)
    requires Inv(s) && t < |s.pcs| && !Finished(s.pcs[t])
    ensures CanAdvance(s, u)
  {
    CountMember(s.pcs, t);
    if !Asleep(s.pcs[t]) {
      u := t;
    } else if s.active > 0 {
      u := CountWitness(InOperation, s.pcs);
    } else if s.handle {
      u := CountWitness(DrainAwake, s.pcs);
    } else if Count(StopNative, s.pcs) > 0 {
      u := CountWitness(StopNative, s.pcs);
    } else {
      u := CountWitness(StopReturned, s.pcs);
    }
  }

  /** Steps still to take before the call is over. */
  function Stage(pc: Pc): nat {
    match pc
    case CallStart => 2
    case InOperation => 1
    case StopStart => 4
    case StopAsleep => 4
    case DrainAwake => 3
    case DrainAsleep => 3
    case StopNative => 2
    case StopReturned => 1
    case _ => 0
  }

  function Checking(pc: Pc): nat { One(pc.StopStart? || pc.DrainAwake?) }

  function Measure(s: State): nat { Sum(Stage, s.pcs) * (|s.pcs| + 1) + Sum(Checking, s.pcs) }

  /** One thread moved, and the sleepers may have been woken when that thread's stage ended. */
  predicate Moves(s: State, next: State, t: nat)
    requires t < |s.pcs|
  {
    && |next.pcs| == |s.pcs|
    && var moved := s.pcs[t := next.pcs[t]];
       if Stage(next.pcs[t]) < Stage(s.pcs[t]) then next.pcs == moved || next.pcs == Map(Woken, moved)
       else
         next.pcs == moved && Stage(next.pcs[t]) == Stage(s.pcs[t]) && Checking(next.pcs[t]) < Checking(s.pcs[t])
  }

  lemma CallMoves(s: State, t: nat)
    requires CanAdvance(s, t) && (s.pcs[t].CallStart? || s.pcs[t].InOperation?)
    ensures Moves(s, Advance(s, t), t)
  {
    hide Map;
  }

  lemma StopMoves(s: State, t: nat)
    requires CanAdvance(s, t) && (s.pcs[t].StopStart? || s.pcs[t].DrainAwake?)
    ensures Moves(s, Advance(s, t), t)
  {
    hide Map;
  }

  lemma NativeMoves(s: State, t: nat)
    requires CanAdvance(s, t) && (s.pcs[t].StopNative? || s.pcs[t].StopReturned?)
    ensures Moves(s, Advance(s, t), t)
  {
    hide Map;
  }

  lemma AdvanceMoves(s: State, t: nat)
    requires CanAdvance(s, t)
    ensures Moves(s, Advance(s, t), t)
  {
    hide Moves, Advance;
    match s.pcs[t] {
      case CallStart => CallMoves(s, t);
      case InOperation => CallMoves(s, t);
      case StopStart => StopMoves(s, t);
      case DrainAwake => StopMoves(s, t);
      case StopNative => NativeMoves(s, t);
      case StopReturned => NativeMoves(s, t);
    }
  }

  /** Every step of a thread makes progress: a stage ends, or one awake waiter goes to sleep. */
  lemma AdvanceDecreases(s: State, t: nat)
    requires CanAdvance(s, t)
    ensures Measure(Advance(s, t)) < Measure(s)
  {
    AdvanceMoves(s, t);
    hide Sum, Map, Advance, Stage, Checking;
    var next := Advance(s, t);
    var moved := s.pcs[t := next.pcs[t]];
    SumUpdate(Stage, s.pcs, t, next.pcs[t]);
    SumUpdate(Checking, s.pcs, t, next.pcs[t]);
    if Stage(next.pcs[t]) < Stage(s.pcs[t]) {
      StageSums(moved);
      CheckingBound(next.pcs);
      ScaledGap(Sum(Stage, next.pcs), Sum(Stage, s.pcs), |s.pcs| + 1);
    }
  }

  lemma StageSums(pcs: seq<Pc>)
    ensures Sum(Stage, Map(Woken, pcs)) == Sum(Stage, pcs)
  {
    SumMap(Stage, Woken, pcs);
  }

  lemma CheckingBound(pcs: seq<Pc>)
    ensures Sum(Checking, pcs) <= |pcs|
  {
    SumBound(Checking, pcs);
  }

  /** A run in which every choice is an enabled thread step. */
  predicate Busy(s: State, threads: seq<nat>)
    decreases |threads|
  {
    threads == [] || (CanAdvance(s, threads[0]) && Busy(Advance(s, threads[0]), threads[1..]))
  }

  function After(s: State, threads: seq<nat>): State
    requires Busy(s, threads)
    decreases |threads|
  {
    if threads == [] then s else After(Advance(s, threads[0]), threads[1..])
  }

  /**
   * Without spurious wake-ups every run stops after a bounded number of steps, and a run that can
   * go no further has finished every operation and every stop.
   */
  lemma {:induction false} EveryCallReturns(s: State, threads: seq<nat>)
    requires Inv(s) && Busy(s, threads)
    ensures |threads| <= Measure(s)
    ensures var end := After(s, threads);
            (forall u :: !CanAdvance(end, u)) ==> forall i | 0 <= i < |end.pcs| :: Finished(end.pcs[i])
    decreases |threads|
  {
    if threads == [] {
      forall i | 0 <= i < |s.pcs| && !Finished(s.pcs[i]) ensures exists u :: CanAdvance(s, u) {
        var u := SomeoneRuns(s, i);
      }
    } else {
      AdvanceDecreases(s, threads[0]);
      StepKeepsInv(s, Run(threads[0]));
      EveryCallReturns(Advance(s, threads[0]), threads[1..]);
    }
  }
}
