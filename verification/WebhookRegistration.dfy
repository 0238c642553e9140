/**
 * The lock-and-condition protocol around a webhook registration's native handle.
 *
 * Every stretch of code run under the lock is one step of one thread.  The final release runs when
 * no call holds the registration any more.
 */
module WebhookRegistration {

  import opened Tally

  datatype Pc =
    | LifeStart         // about to enter lifecycle
    | LifeUsing         // the native lifecycle query has the handle
    | LifeReported      // returned what the native call said
    | LifeDetached      // returned `detached` without a native call
    | DisableStart      // about to enter disable
    | DisableNative     // the native disable has the handle
    | DisableNothing    // returned: there was no handle
    | DisableBusy       // threw `busy`
    | DisableFailed     // threw: the native disable failed
    | DrainAwake        // the native disable succeeded; about to recheck the active calls
    | DrainAsleep       // the native disable succeeded; waits for the active calls
    | Releasing         // the native release has the handle
    | DisableDone       // returned after the release

  datatype State = State(handle: bool, disabling: bool, active: int, pcs: seq<Pc>, releases: nat)

  predicate Initial(s: State) {
    && s.handle && !s.disabling && s.active == 0 && s.releases == 0
    && forall i | 0 <= i < |s.pcs| :: s.pcs[i] == LifeStart || s.pcs[i] == DisableStart
  }

  predicate Finished(pc: Pc) {
    || pc.LifeReported? || pc.LifeDetached?
    || pc.DisableNothing? || pc.DisableBusy? || pc.DisableFailed? || pc.DisableDone?
  }

  function Woken(pc: Pc): Pc { if pc.DrainAsleep? then DrainAwake else pc }

  function Broadcast(s: State): State { s.(pcs := Map(Woken, s.pcs)) }

  function At(s: State, t: nat, pc: Pc): State
    requires t < |s.pcs|
  {
    s.(pcs := s.pcs[t := pc])
  }

  /** The tail of a successful disable: wait for the active calls or go and release. */
  function Drain(s: State, t: nat): State
    requires t < |s.pcs|
  {
    if s.active > 0 then At(s, t, DrainAsleep) else Broadcast(At(s, t, Releasing))
  }

  predicate CanAdvance(s: State, t: nat) { t < |s.pcs| && !Finished(s.pcs[t]) && !s.pcs[t].DrainAsleep? }

  /** The next step of thread `t`; `ok` is what a native disable reports. */
  function Advance(s: State, t: nat, ok: bool): State
    requires CanAdvance(s, t)
  {
    match s.pcs[t]
    case LifeStart => if s.handle then At(s, t, LifeUsing).(active := s.active + 1) else At(s, t, LifeDetached)
    case LifeUsing =>
      var left := At(s, t, LifeReported).(active := s.active - 1);
      if left.active == 0 then Broadcast(left) else left
    case DisableStart =>
      if !s.handle then At(s, t, DisableNothing)
      else if s.disabling then At(s, t, DisableBusy)
      else At(s, t, DisableNative).(disabling := true, active := s.active + 1)
    case DisableNative =>
      var left := s.(active := s.active - 1, disabling := false);
      if ok then Drain(left.(handle := false), t) else Broadcast(At(left, t, DisableFailed))
    case DrainAwake => Drain(s, t)
    case Releasing => At(s, t, DisableDone).(releases := s.releases + 1)
  }

  datatype Action = Run(thread: nat, ok: bool) | Wake(thread: nat) | FinalRelease

  predicate AllFinished(s: State) { forall i | 0 <= i < |s.pcs| :: Finished(s.pcs[i]) }

  predicate Enabled(s: State, a: Action) {
    match a
    case Run(t, _) => CanAdvance(s, t)
    case Wake(t) => t < |s.pcs| && s.pcs[t].DrainAsleep?
    case FinalRelease => AllFinished(s)
  }

  /** The release when the registration is dropped. */
  function Dropped(s: State): State {
    s.(handle := false, releases := if s.handle then s.releases + 1 else s.releases)
  }

  function Step(s: State, a: Action): State {
    if !Enabled(s, a) then s
    else match a
      case Run(t, ok) => Advance(s, t, ok)
      case Wake(t) => At(s, t, DrainAwake)
      case FinalRelease => Dropped(s)
  }

  function Schedule(s: State, actions: seq<Action>): State
    decreases |actions|
  {
    if actions == [] then s else Schedule(Step(s, actions[0]), actions[1..])
  }

  // ---------------------------------------------------------------- invariant

  /** What every reachable state satisfies. */
  predicate Inv(s: State) {
    && s.active == Count(LifeUsing, s.pcs) + Count(DisableNative, s.pcs)
    && Count(DisableNative, s.pcs) == One(s.disabling)
    && (s.disabling ==> s.handle)
    && Count(DrainAwake, s.pcs) + Count(DrainAsleep, s.pcs) + Count(Releasing, s.pcs) + s.releases == One(!s.handle)
    && (Count(Releasing, s.pcs) + s.releases > 0 ==> s.active == 0)
    && (Count(DrainAsleep, s.pcs) > 0 ==> s.active > 0)
    && (Count(DisableDone, s.pcs) > 0 ==> s.releases == 1)
    && (Count(LifeDetached, s.pcs) + Count(DisableNothing, s.pcs) > 0 ==> !s.handle)
  }

  lemma InitialInv(s: State)
    requires Initial(s)
    ensures Inv(s)
  {
    forall pc: Pc | pc != LifeStart && pc != DisableStart ensures Count(pc, s.pcs) == 0 { CountAbsent(pc, s.pcs); }
  }

  /** A broadcast moves the sleepers to their checks and nobody else. */
  lemma {:induction false} BroadcastCounts(pcs: seq<Pc>, x: Pc)
    ensures Count(x, Map(Woken, pcs))
            == match x
               case DrainAsleep => 0
               case DrainAwake => Count(DrainAwake, pcs) + Count(DrainAsleep, pcs)
               case _ => Count(x, pcs)
    decreases |pcs|
  {
    if pcs != [] {
      assert Map(Woken, pcs)[1..] == Map(Woken, pcs[1..]);
      BroadcastCounts(pcs[1..], x);
    }
  }

  lemma BroadcastMoves(pcs: seq<Pc>)
    ensures forall x :: x != DrainAwake && x != DrainAsleep ==> Count(x, Map(Woken, pcs)) == Count(x, pcs)
    ensures Count(DrainAsleep, Map(Woken, pcs)) == 0
    ensures Count(DrainAwake, Map(Woken, pcs)) == Count(DrainAwake, pcs) + Count(DrainAsleep, pcs)
  {
    forall x: Pc | x != DrainAwake && x != DrainAsleep ensures Count(x, Map(Woken, pcs)) == Count(x, pcs) {
      BroadcastCounts(pcs, x);
    }
    BroadcastCounts(pcs, DrainAsleep);
    BroadcastCounts(pcs, DrainAwake);
  }

  lemma LifecycleStartKeepsInv(s: State, t: nat, ok: bool)
    requires Inv(s) && CanAdvance(s, t) && s.pcs[t].LifeStart?
    ensures Inv(Advance(s, t, ok))
  {
    hide Count;
    MoveCounts(s.pcs, t, LifeUsing);
    MoveCounts(s.pcs, t, LifeDetached);
  }

  lemma LifecycleEndKeepsInv(s: State, t: nat, ok: bool)
    requires Inv(s) && CanAdvance(s, t) && s.pcs[t].LifeUsing?
    ensures Inv(Advance(s, t, ok))
  {
    hide Count, Map;
    MoveCounts(s.pcs, t, LifeReported);
    BroadcastMoves(s.pcs[t := LifeReported]);
  }

  lemma DisableKeepsInv(s: State, t: nat, ok: bool)
    requires Inv(s) && CanAdvance(s, t) && (s.pcs[t].DisableStart? || s.pcs[t].Releasing?)
    ensures Inv(Advance(s, t, ok))
  {
    hide Count;
    MoveCounts(s.pcs, t, DisableNothing);
    MoveCounts(s.pcs, t, DisableBusy);
    MoveCounts(s.pcs, t, DisableNative);
    MoveCounts(s.pcs, t, DisableDone);
  }

  lemma DrainKeepsInv(s: State, t: nat)
    requires Inv(s) && t < |s.pcs| && s.pcs[t].DrainAwake?
    ensures Inv(Drain(s, t))
  {
    hide Count, Map;
    MoveCounts(s.pcs, t, DrainAsleep);
    MoveCounts(s.pcs, t, Releasing);
    BroadcastMoves(s.pcs[t := Releasing]);
  }

  lemma NativeKeepsInv(s: State, t: nat, ok: bool)
    requires Inv(s) && CanAdvance(s, t) && s.pcs[t].DisableNative?
    ensures Inv(Advance(s, t, ok))
  {
    hide Count, Map;
    MoveCounts(s.pcs, t, DrainAwake);
    MoveCounts(s.pcs, t, DisableFailed);
    BroadcastMoves(s.pcs[t := DisableFailed]);
    if ok {
      var detached := At(s, t, DrainAwake).(active := s.active - 1, disabling := false, handle := false);
      DrainKeepsInv(detached, t);
      assert detached.pcs[t := DrainAsleep] == s.pcs[t := DrainAsleep]
        && detached.pcs[t := Releasing] == s.pcs[t := Releasing];
    }
  }

  /** Dropping the registration once every call is over leaves it released exactly once. */
  lemma DropReleasesOnce(s: State)
    requires Inv(s) && AllFinished(s)
    ensures Inv(Dropped(s)) && Dropped(s).releases == 1 && !Dropped(s).handle
  {
    CountAbsent(LifeUsing, s.pcs);
    CountAbsent(DisableNative, s.pcs);
    CountAbsent(DrainAwake, s.pcs);
    CountAbsent(DrainAsleep, s.pcs);
    CountAbsent(Releasing, s.pcs);
  }

  lemma StepKeepsInv(s: State, a: Action)
    requires Inv(s)
    ensures Inv(Step(s, a))
  {
    if Enabled(s, a) {
      if a.FinalRelease? {
        DropReleasesOnce(s);
      } else if a.Wake? {
        hide Count;
        MoveCounts(s.pcs, a.thread, DrainAwake);
      } else {
        hide Inv;
        match s.pcs[a.thread] {
          case LifeStart => LifecycleStartKeepsInv(s, a.thread, a.ok);
          case LifeUsing => LifecycleEndKeepsInv(s, a.thread, a.ok);
          case DisableStart => DisableKeepsInv(s, a.thread, a.ok);
          case Releasing => DisableKeepsInv(s, a.thread, a.ok);
          case DisableNative => NativeKeepsInv(s, a.thread, a.ok);
          case DrainAwake => DrainKeepsInv(s, a.thread);
        }
      }
    }
  }

  lemma {:induction false} ScheduleKeepsInv(s: State, actions: seq<Action>)
    requires Inv(s)
    ensures Inv(Schedule(s, actions))
    decreases |actions|
  {
    if actions != [] {
      StepKeepsInv(s, actions[0]);
      ScheduleKeepsInv(Step(s, actions[0]), actions[1..]);
    }
  }

  // ---------------------------------------------------------------- safety

  /**
   * In every interleaving of lifecycle, disable and the final release: the handle is released at
   * most once, and not begun while any native call has it; at most one native disable runs; the
   * disable that detached the handle returns after its release, and any other that returns without
   * error found no handle.
   */
  lemma Safety(initial: State, actions: seq<Action>, i: nat, j: nat)
    requires Initial(initial)
    requires i < |Schedule(initial, actions).pcs| && j < |Schedule(initial, actions).pcs|
    ensures var s := Schedule(initial, actions);
            && s.releases <= 1
            && (s.pcs[i].LifeUsing? || s.pcs[i].DisableNative? ==> s.releases == 0 && !s.pcs[j].Releasing?)
            && (s.pcs[i].DisableNative? && s.pcs[j].DisableNative? ==> i == j)
            && (s.pcs[i].DisableDone? ==> s.releases == 1 && !s.handle)
            && (s.pcs[i].LifeDetached? || s.pcs[i].DisableNothing? ==> !s.handle)
            && (s.pcs[i].DrainAsleep? ==> s.active > 0)
  {
    var s := Schedule(initial, actions);
    InitialInv(initial);
    ScheduleKeepsInv(initial, actions);
    hide Schedule, Count;
    CountMember(s.pcs, i);
    CountMember(s.pcs, j);
    if s.pcs[i] == s.pcs[j] {
      if i < j { CountTwo(s.pcs, i, j); } else if j < i { CountTwo(s.pcs, j, i); }
    }
  }

  /** A failed native disable keeps the handle, releases nothing and frees the way for another. */
  lemma FailedDisableKeepsHandle(s: State, t: nat)
    requires Inv(s) && t < |s.pcs| && s.pcs[t].DisableNative?
    ensures var next := Advance(s, t, false);
            next.handle && !next.disabling && next.releases == s.releases == 0 && next.pcs[t].DisableFailed?
  {
    hide Count;
    CountMember(s.pcs, t);
  }

  lemma DetachedStep(s: State, a: Action, i: nat)
    requires Inv(s) && !s.handle && i < |s.pcs|
    ensures !Step(s, a).handle && |Step(s, a).pcs| == |s.pcs|
    ensures s.pcs[i].LifeStart? ==> Step(s, a).pcs[i].LifeStart? || Step(s, a).pcs[i].LifeDetached?
    ensures s.pcs[i].LifeDetached? ==> Step(s, a).pcs[i].LifeDetached?
  {
    hide Count;
    if Enabled(s, a) && !a.FinalRelease? { CountMember(s.pcs, a.thread); }
  }

  /** Once the handle is gone it stays gone, and a lifecycle that starts later reports detached. */
  lemma {:induction false} DetachedForGood(s: State, actions: seq<Action>, i: nat)
    requires Inv(s) && !s.handle && i < |s.pcs|
    ensures !Schedule(s, actions).handle && |Schedule(s, actions).pcs| == |s.pcs|
    ensures s.pcs[i].LifeStart? ==> Schedule(s, actions).pcs[i].LifeStart? || Schedule(s, actions).pcs[i].LifeDetached?
    ensures s.pcs[i].LifeDetached? ==> Schedule(s, actions).pcs[i].LifeDetached?
    decreases |actions|
  {
    hide Step, Inv;
    if actions != [] {
      DetachedStep(s, actions[0], i);
      StepKeepsInv(s, actions[0]);
      DetachedForGood(Step(s, actions[0]), actions[1..], i);
    }
  }

  /**
   * From the start of any schedule: once some disable has returned without error, whether it released
   * the handle or found none, a lifecycle that has not begun can only report detached, in every
   * continuation.
   */
  lemma DisabledIsDetached(initial: State, actions: seq<Action>, more: seq<Action>, i: nat, j: nat)
    requires Initial(initial)
    requires var s := Schedule(initial, actions);
             && i < |s.pcs| && j < |s.pcs|
             && (s.pcs[i].DisableDone? || s.pcs[i].DisableNothing?) && s.pcs[j].LifeStart?
    ensures var s, end := Schedule(initial, actions), Schedule(Schedule(initial, actions), more);
            |end.pcs| == |s.pcs| && !end.handle && (end.pcs[j].LifeStart? || end.pcs[j].LifeDetached?)
  {
    hide Schedule, Inv;
    InitialInv(initial);
    ScheduleKeepsInv(initial, actions);
    Safety(initial, actions, i, j);
    DetachedForGood(Schedule(initial, actions), more, j);
  }

  // ---------------------------------------------------------------- a disable that finds no handle

  /** The thread has detached the handle and not yet returned from its release. */
  predicate Detaching(pc: Pc) { pc.DrainAwake? || pc.DrainAsleep? || pc.Releasing? }

  /** While no handle is left, it has been released exactly when no thread is still detaching it. */
  lemma ReleasedUnlessDetaching(s: State)
    requires Inv(s) && !s.handle
    ensures s.releases == 1 <==> forall k | 0 <= k < |s.pcs| :: !Detaching(s.pcs[k])
  {
    hide Count;
    if forall k | 0 <= k < |s.pcs| :: !Detaching(s.pcs[k]) {
      CountAbsent(DrainAwake, s.pcs);
      CountAbsent(DrainAsleep, s.pcs);
      CountAbsent(Releasing, s.pcs);
    } else {
      var k :| 0 <= k < |s.pcs| && Detaching(s.pcs[k]);
      CountMember(s.pcs, k);
    }
  }

  /**
   * A disable that finds no handle returns without error at once.  The handle has been released by
   * then if and only if no other disable is still draining or releasing it.
   */
  lemma NothingToDisableIff(initial: State, actions: seq<Action>, i: nat)
    requires Initial(initial)
    requires var s := Schedule(initial, actions); i < |s.pcs| && s.pcs[i].DisableNothing?
    ensures var s := Schedule(initial, actions);
            !s.handle && (s.releases == 1 <==> forall k | 0 <= k < |s.pcs| :: !Detaching(s.pcs[k]))
  {
    hide Schedule, Inv;
    InitialInv(initial);
    ScheduleKeepsInv(initial, actions);
    Safety(initial, actions, i, i);
    ReleasedUnlessDetaching(Schedule(initial, actions));
  }

  const ONE_LIFECYCLE_TWO_DISABLES := State(true, false, 0, [LifeStart, DisableStart, DisableStart], 0)
  const EARLY_RETURN := [Run(0, true), Run(1, true), Run(1, true), Run(2, true)]

  /** The second of two disables returns while a lifecycle still has the handle and nothing is released. */
  lemma EarlyReturn()
    ensures Initial(ONE_LIFECYCLE_TWO_DISABLES)
    ensures var s := Schedule(ONE_LIFECYCLE_TWO_DISABLES, EARLY_RETURN);
            s.pcs == [LifeUsing, DrainAsleep, DisableNothing] && s.active == 1 && s.releases == 0
  {
    var s0 := ONE_LIFECYCLE_TWO_DISABLES;
    var s1 := Step(s0, Run(0, true));
    var s2 := Step(s1, Run(1, true));
    var s3 := Step(s2, Run(1, true));
    var s4 := Step(s3, Run(2, true));
    assert s1 == State(true, false, 1, [LifeUsing, DisableStart, DisableStart], 0);
    assert s2 == State(true, true, 2, [LifeUsing, DisableNative, DisableStart], 0);
    assert s3 == State(false, false, 1, [LifeUsing, DrainAsleep, DisableStart], 0);
    assert s4 == State(false, false, 1, [LifeUsing, DrainAsleep, DisableNothing], 0);
    ScheduleFour(s0, Run(0, true), Run(1, true), Run(1, true), Run(2, true));
  }

  lemma ScheduleFour(s: State, a: Action, b: Action, c: Action, d: Action)
    ensures Schedule(s, [a, b, c, d]) == Step(Step(Step(Step(s, a), b), c), d)
  {
    hide Step;
    assert [a, b, c, d][1..] == [b, c, d] && [b, c, d][1..] == [c, d] && [c, d][1..] == [d] && [d][1..] == [];
    var s2 := Step(Step(s, a), b);
    assert Schedule(s2, [c, d]) == Schedule(Step(s2, c), [d]) == Step(Step(s2, c), d);
    assert Schedule(s, [a, b, c, d]) == Schedule(Step(s, a), [b, c, d]) == Schedule(s2, [c, d]);
  }

  // ---------------------------------------------------------------- every call returns

  /** No deadlock and no lost wake-up. */
  lemma SomeoneRuns(s: State, t: nat) returns (u: nat)
    requires Inv(s) && t < |s.pcs| && !Finished(s.pcs[t])
    ensures CanAdvance(s, u)
  {
    CountMember(s.pcs, t);
    if !s.pcs[t].DrainAsleep? {
      u := t;
    } else if Count(LifeUsing, s.pcs) > 0 {
      u := CountWitness(LifeUsing, s.pcs);
    } else {
      u := CountWitness(DisableNative, s.pcs);
    }
  }

  function Stage(pc: Pc): nat {
    match pc
    case LifeStart => 2
    case LifeUsing => 1
    case DisableStart => 4
    case DisableNative => 3
    case DrainAwake => 2
    case DrainAsleep => 2
    case Releasing => 1
    case _ => 0
  }

  function Checking(pc: Pc): nat { One(pc.DrainAwake?) }

  function Measure(s: State): nat { Sum(Stage, s.pcs) * (|s.pcs| + 1) + Sum(Checking, s.pcs) }

  /** One thread moved, and the sleepers may have been woken when that thread's stage ended. */
  predicate Moves(s: State, next: State, t: nat)
    requires t < |s.pcs|
  {
    && |next.pcs| == |s.pcs|
    && var moved := s.pcs[t := next.pcs[t]];
       if Stage(next.pcs[t]) < Stage(s.pcs[t]) then next.pcs == moved || next.pcs == Map(Woken, moved)
       else
         next.pcs == moved && Stage(next.pcs[t]) == Stage(s.pcs[t]) && Checking(next.pcs[t]) < Checking(s.pcs[t])
  }

  lemma LifecycleMoves(s: State, t: nat, ok: bool)
    requires CanAdvance(s, t) && (s.pcs[t].LifeStart? || s.pcs[t].LifeUsing?)
    ensures Moves(s, Advance(s, t, ok), t)
  {
    hide Map;
  }

  lemma DisableMoves(s: State, t: nat, ok: bool)
    requires CanAdvance(s, t) && (s.pcs[t].DisableStart? || s.pcs[t].DisableNative?)
    ensures Moves(s, Advance(s, t, ok), t)
  {
    hide Map;
  }

  lemma DrainMoves(s: State, t: nat, ok: bool)
    requires CanAdvance(s, t) && (s.pcs[t].DrainAwake? || s.pcs[t].Releasing?)
    ensures Moves(s, Advance(s, t, ok), t)
  {
    hide Map;
  }

  lemma AdvanceMoves(s: State, t: nat, ok: bool)
    requires CanAdvance(s, t)
    ensures Moves(s, Advance(s, t, ok), t)
  {
    hide Moves, Advance;
    match s.pcs[t] {
      case LifeStart => LifecycleMoves(s, t, ok);
      case LifeUsing => LifecycleMoves(s, t, ok);
      case DisableStart => DisableMoves(s, t, ok);
      case DisableNative => DisableMoves(s, t, ok);
      case DrainAwake => DrainMoves(s, t, ok);
      case Releasing => DrainMoves(s, t, ok);
    }
  }

  /** Every step of a thread makes progress: a stage ends, or one awake waiter goes to sleep. */
  lemma AdvanceDecreases(s: State, t: nat, ok: bool)
    requires CanAdvance(s, t)
    ensures Measure(Advance(s, t, ok)) < Measure(s)
  {
    AdvanceMoves(s, t, ok);
    hide Sum, Map, Advance, Stage, Checking;
    var next := Advance(s, t, ok);
    var moved := s.pcs[t := next.pcs[t]];
    SumUpdate(Stage, s.pcs, t, next.pcs[t]);
    SumUpdate(Checking, s.pcs, t, next.pcs[t]);
    if Stage(next.pcs[t]) < Stage(s.pcs[t]) {
      StageSums(moved);
      CheckingBound(next.pcs);
      ScaledGap(Sum(Stage, next.pcs), Sum(Stage, s.pcs), |s.pcs| + 1);
    }
  }

  lemma StageSums(pcs: seq<Pc>)
    ensures Sum(Stage, Map(Woken, pcs)) == Sum(Stage, pcs)
  {
    SumMap(Stage, Woken, pcs);
  }

  lemma CheckingBound(pcs: seq<Pc>)
    ensures Sum(Checking, pcs) <= |pcs|
  {
    SumBound(Checking, pcs);
  }

  /** A run in which every choice is an enabled thread step. */
  predicate Busy(s: State, steps: seq<(nat, bool)>)
    decreases |steps|
  {
    steps == [] || (CanAdvance(s, steps[0].0) && Busy(Advance(s, steps[0].0, steps[0].1), steps[1..]))
  }

  function After(s: State, steps: seq<(nat, bool)>): State
    requires Busy(s, steps)
    decreases |steps|
  {
    if steps == [] then s else After(Advance(s, steps[0].0, steps[0].1), steps[1..])
  }

  /**
   * Without spurious wake-ups every run stops after a bounded number of steps; one that can go no
   * further has finished every call, and dropping the registration then leaves one release in all.
   */
  lemma {:induction false} ReleasedExactlyOnce(s: State, steps: seq<(nat, bool)>)
    requires Inv(s) && Busy(s, steps)
    ensures |steps| <= Measure(s)
    ensures var end := After(s, steps);
            (forall u :: !CanAdvance(end, u)) ==> AllFinished(end) && Dropped(end).releases == 1
    decreases |steps|
  {
    if steps == [] {
      forall i | 0 <= i < |s.pcs| && !Finished(s.pcs[i]) ensures exists u :: CanAdvance(s, u) {
        var u := SomeoneRuns(s, i);
      }
      if AllFinished(s) { DropReleasesOnce(s); }
    } else {
      AdvanceDecreases(s, steps[0].0, steps[0].1);
      StepKeepsInv(s, Run(steps[0].0, steps[0].1));
      ReleasedExactlyOnce(Advance(s, steps[0].0, steps[0].1), steps[1..]);
    }
  }
}
