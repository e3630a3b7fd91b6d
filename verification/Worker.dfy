/** run_sync_worker: syncing on wake-ups and polls without losing a wake-up. */
module SyncWorker {

  datatype Pc = Checking | Syncing | Waiting | Clearing | Exited

  datatype State = State(pc: Pc, wake: bool, stop: bool)

  /** `Trigger` and `RequestStop` are other threads' steps, the rest the worker's. */
  datatype Step = Trigger | RequestStop | StartSync | Exit | SyncDone | WakeUp | TimeOut | Clear

  const INITIAL := State(Checking, false, false)

  predicate Enabled(s: State, step: Step) {
    match step
    case Trigger => true
    case RequestStop => true
    case StartSync => s.pc.Checking? && !s.stop
    case Exit => s.pc.Checking? && s.stop
    case SyncDone => s.pc.Syncing?
    case WakeUp => s.pc.Waiting? && s.wake
    case TimeOut => s.pc.Waiting?
    case Clear => s.pc.Clearing?
  }

  function Apply(s: State, step: Step): State
    requires Enabled(s, step)
  {
    match step
    case Trigger => s.(wake := true)
    case RequestStop => s.(stop := true)
    case StartSync => s.(pc := Syncing)
    case Exit => s.(pc := Exited)
    case SyncDone => s.(pc := Waiting)
    case WakeUp => s.(pc := Clearing)
    case TimeOut => s.(pc := Clearing)
    case Clear => s.(pc := Checking, wake := false)
  }

  predicate IsRun(steps: seq<Step>)
    decreases |steps|, 0
  {
    steps == [] || (IsRun(steps[..|steps| - 1]) && Enabled(After(steps[..|steps| - 1]), steps[|steps| - 1]))
  }

  function After(steps: seq<Step>): State
    requires IsRun(steps)
    decreases |steps|, 1
  {
    if steps == [] then INITIAL else Apply(After(steps[..|steps| - 1]), steps[|steps| - 1])
  }

  /** There was a trigger after the last sync started. */
  predicate Owed(steps: seq<Step>) {
    exists i | 0 <= i < |steps| :: steps[i] == Trigger && forall j | i < j < |steps| :: steps[j] != StartSync
  }

  /** A sync is owed only while the event is set, or the worker is about to start one. */
  lemma {:induction false} WakeUpNotLost(steps: seq<Step>)
    requires IsRun(steps) && Owed(steps)
    ensures After(steps).wake || After(steps).pc.Checking? || After(steps).pc.Exited?
  {
    var n := |steps| - 1;
    var i :| 0 <= i < |steps| && steps[i] == Trigger && forall j | i < j < |steps| :: steps[j] != StartSync;
    if i < n {
      assert steps[..n][i] == Trigger && forall j | i < j < n :: steps[..n][j] != StartSync;
      WakeUpNotLost(steps[..n]);
    }
  }

  /** While a sync is owed, the wait does not have to time out. */
  lemma OwedSyncNeedsNoTimeOut(steps: seq<Step>)
    requires IsRun(steps) && Owed(steps) && After(steps).pc.Waiting?
    ensures Enabled(After(steps), WakeUp)
  {
    WakeUpNotLost(steps);
  }

  /** The worker's own steps until it starts a sync. */
  function StepsToStart(pc: Pc): nat {
    match pc case Syncing => 4 case Waiting => 3 case Clearing => 2 case Checking => 1 case Exited => 0
  }

  predicate ByWorker(step: Step) { step != Trigger && step != RequestStop }

  function WorkerSteps(steps: seq<Step>): nat {
    if steps == [] then 0 else WorkerSteps(steps[..|steps| - 1]) + if ByWorker(steps[|steps| - 1]) then 1 else 0
  }

  /** Without a stop, four steps of the worker after any point include the start of a sync. */
  lemma {:induction false} KeepsStarting(before: seq<Step>, more: seq<Step>)
    requires IsRun(before + more) && RequestStop !in before + more
    ensures IsRun(before) && !After(before + more).stop && !After(before + more).pc.Exited?
    ensures StartSync in more
         || WorkerSteps(more) + StepsToStart(After(before + more).pc) <= StepsToStart(After(before).pc)
  {
    var all := before + more;
    if more == [] {
      assert all == before;
      NeverStops(before);
    } else {
      var n := |more| - 1;
      assert all[..|all| - 1] == before + more[..n] && all[|all| - 1] == more[n];
      KeepsStarting(before, more[..n]);
      NeverStops(all);
    }
  }

  lemma {:induction false} NeverStops(steps: seq<Step>)
    requires IsRun(steps) && RequestStop !in steps
    ensures !After(steps).stop && !After(steps).pc.Exited?
  {
    if steps != [] { NeverStops(steps[..|steps| - 1]); }
  }

  /** The worker's own next step once the wait does not time out. */
  ghost predicate CanGoOn(s: State) { exists step :: ByWorker(step) && step != TimeOut && Enabled(s, step) }

  /** After a trigger, without a single time-out: until a sync starts the worker can always take another step,
      and its fourth one at the latest starts the sync. */
  lemma TriggerIsServed(before: seq<Step>, more: seq<Step>)
    requires IsRun(before + [Trigger] + more) && RequestStop !in before + [Trigger] + more && TimeOut !in more
    ensures StartSync in more || (WorkerSteps(more) < 4 && CanGoOn(After(before + [Trigger] + more)))
  {
    var all := before + [Trigger] + more;
    KeepsStarting(before + [Trigger], more);
    if StartSync !in more {
      OwedAfterTrigger(before, more);
      WakeUpNotLost(all);
      GoesOn(After(all));
    }
  }

  lemma OwedAfterTrigger(before: seq<Step>, more: seq<Step>)
    requires StartSync !in more
    ensures Owed(before + [Trigger] + more)
  {
    var all := before + [Trigger] + more;
    assert all[|before|] == Trigger;
    forall j | |before| < j < |all| ensures all[j] != StartSync { assert all[j] == more[j - |before| - 1]; }
  }

  /** A set event, or a worker that does not wait for one, leaves a step other than a time-out. */
  lemma GoesOn(s: State)
    requires !s.stop && !s.pc.Exited? && (s.wake || s.pc.Checking?)
    ensures CanGoOn(s)
  {
    var step := match s.pc
                case Checking => StartSync
                case Syncing => SyncDone
                case Waiting => WakeUp
                case Clearing => Clear
                case Exited => Exit;
    assert ByWorker(step) && step != TimeOut && Enabled(s, step);
  }

  /** Triggers and stops are never held back, and each sets its own flag. */
  lemma AnybodyMayStep(steps: seq<Step>)
    requires IsRun(steps)
    ensures IsRun(steps + [Trigger]) && After(steps + [Trigger]) == State(After(steps).pc, true, After(steps).stop)
    ensures IsRun(steps + [RequestStop])
         && After(steps + [RequestStop]) == State(After(steps).pc, After(steps).wake, true)
  {
    assert (steps + [Trigger])[..|steps|] == steps && (steps + [RequestStop])[..|steps|] == steps;
  }

  /** Until it has ended the worker can take a step of its own, a time-out where nothing wakes it. */
  lemma WorkerMayStep(steps: seq<Step>)
    requires IsRun(steps) && !After(steps).pc.Exited?
    ensures exists step :: ByWorker(step) && IsRun(steps + [step])
  {
    var s := After(steps);
    var step := match s.pc
                case Checking => if s.stop then Exit else StartSync
                case Syncing => SyncDone
                case Waiting => TimeOut
                case Clearing => Clear
                case Exited => Exit;
    assert (steps + [step])[..|steps|] == steps;
    assert ByWorker(step) && IsRun(steps + [step]);
  }

  /** After a stop no sync starts, and the worker's fourth step at the latest ends it. */
  lemma {:induction false} StopIsServed(before: seq<Step>, more: seq<Step>)
    requires IsRun(before + [RequestStop] + more)
    ensures StartSync !in more && WorkerSteps(more) <= 4
    ensures WorkerSteps(more) == 4 ==> After(before + [RequestStop] + more).pc.Exited?
  {
    StopCountsDown(before, more);
  }

  lemma {:induction false} StopCountsDown(before: seq<Step>, more: seq<Step>)
    requires IsRun(before + [RequestStop] + more)
    ensures StartSync !in more && After(before + [RequestStop] + more).stop
    ensures WorkerSteps(more) + StepsToStart(After(before + [RequestStop] + more).pc) <= 4
  {
    var all := before + [RequestStop] + more;
    if more == [] {
      assert all == before + [RequestStop] && all[|before|] == RequestStop;
    } else {
      var n := |more| - 1;
      assert all[..|all| - 1] == before + [RequestStop] + more[..n] && all[|all| - 1] == more[n];
      StopCountsDown(before, more[..n]);
      assert more == more[..n] + [more[n]];
    }
  }

  /** The event is set exactly when some trigger came after it was last cleared: nothing else wakes the worker. */
  lemma {:induction false} WokenByTriggers(steps: seq<Step>)
    requires IsRun(steps)
    ensures After(steps).wake <==>
      exists i | 0 <= i < |steps| :: steps[i] == Trigger && forall j | i < j < |steps| :: steps[j] != Clear
  {
    if steps != [] {
      var n := |steps| - 1;
      WokenByTriggers(steps[..n]);
      forall i | 0 <= i < n ensures steps[..n][i] == steps[i] {}
    }
  }
}
