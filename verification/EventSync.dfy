/** `EventSync`: a manual-reset event over a mutex and a condition variable, as interleaved steps of
    any number of threads. */
module EventSyncs {
  import opened Options
  import opened Runs

  /** Where a thread stands. The names say which call it is in and what it does next. */
  datatype Pc =
    | Idle
    | WaitEnter | WaitCheck | Asleep | Woken | WaitLeave
    | SetEnter | SetStore | SetNotify | SetLeave
    | ResetEnter | ResetStore | ResetLeave
  {
    /** Inside the critical section. */
    predicate HoldsLock() {
      WaitCheck? || WaitLeave? || SetStore? || SetNotify? || SetLeave? || ResetStore? || ResetLeave?
    }

    /** Asking for the mutex: on entry, or again after being woken. */
    predicate WantsLock() {
      WaitEnter? || Woken? || SetEnter? || ResetEnter?
    }

    predicate InWait() {
      WaitEnter? || WaitCheck? || Asleep? || Woken? || WaitLeave?
    }

    function WithLock(): Pc
      requires WantsLock()
    {
      match this
      case WaitEnter => WaitCheck
      case Woken => WaitCheck
      case SetEnter => SetStore
      case ResetEnter => ResetStore
    }
  }

  datatype State = State(signal: bool, owner: Option<nat>, pcs: seq<Pc>) {
    function Move(i: nat, pc: Pc): State
      requires i < |pcs|
    {
      this.(pcs := pcs[i := pc])
    }
  }

  /** One atomic step of one thread. */
  datatype Step =
    | CallWait(i: nat)
    | CallSet(i: nat)
    | CallReset(i: nat)
    | Acquire(i: nat)
    | Check(i: nat)                         // the predicate of condition.wait; sleeping releases the mutex
    | Store(i: nat)                         // _signal = true, or _signal = false
    | Notify(i: nat, woken: Option<nat>)    // notify_one; which sleeper wakes is the scheduler's choice
    | Release(i: nat)
    | Spurious(i: nat)                      // a sleeper wakes without being notified

  predicate Enabled(s: State, step: Step) {
    && step.i < |s.pcs|
    && var pc := s.pcs[step.i];
       match step
       case CallWait(_) => pc.Idle?
       case CallSet(_) => pc.Idle?
       case CallReset(_) => pc.Idle?
       case Acquire(_) => pc.WantsLock() && s.owner.None?
       case Check(_) => pc.WaitCheck?
       case Store(_) => pc.SetStore? || pc.ResetStore?
       case Notify(_, woken) =>
         && pc.SetNotify?
         && (woken.Some? ==> woken.value < |s.pcs| && s.pcs[woken.value].Asleep?)
         && (woken.None? ==> forall j :: 0 <= j < |s.pcs| ==> !s.pcs[j].Asleep?)
       case Release(_) => pc.WaitLeave? || pc.SetLeave? || pc.ResetLeave?
       case Spurious(_) => pc.Asleep?
  }

  function After(s: State, step: Step): State
    requires Enabled(s, step)
  {
    var pc := s.pcs[step.i];
    match step
    case CallWait(i) => s.Move(i, WaitEnter)
    case CallSet(i) => s.Move(i, SetEnter)
    case CallReset(i) => s.Move(i, ResetEnter)
    case Acquire(i) => s.Move(i, pc.WithLock()).(owner := Some(i))
    case Check(i) => if s.signal then s.Move(i, WaitLeave) else s.Move(i, Asleep).(owner := None)
    case Store(i) =>
      if pc.SetStore? then s.Move(i, SetNotify).(signal := true)
      else s.Move(i, ResetLeave).(signal := false)
    case Notify(i, woken) => (if woken.Some? then s.Move(woken.value, Woken) else s).Move(i, SetLeave)
    case Release(i) => s.Move(i, Idle).(owner := None)
    case Spurious(i) => s.Move(i, Woken)
  }

  function Init(threads: nat, signal: bool): State {
    State(signal, None, seq(threads, _ => Idle))
  }

  function Next(s: State, step: Step): Option<State> {
    if Enabled(s, step) then Some(After(s, step)) else None
  }

  /** `steps` can be taken one after another from `s`. */
  predicate IsRun(s: State, steps: seq<Step>) {
    Go(Next, s, steps).Some?
  }

  function End(s: State, steps: seq<Step>): State
    requires IsRun(s, steps)
  {
    Go(Next, s, steps).value
  }

  // ---------- what every step keeps ----------

  /** The mutex works, and what a thread has seen or stored in its critical section still holds there. */
  predicate Safe(s: State) {
    && (forall i :: 0 <= i < |s.pcs| ==> (s.pcs[i].HoldsLock() <==> s.owner == Some(i)))
    && (s.owner.Some? ==> s.owner.value < |s.pcs|)
    && (forall i :: 0 <= i < |s.pcs| && (s.pcs[i].WaitLeave? || s.pcs[i].SetNotify? || s.pcs[i].SetLeave?) ==> s.signal)
    && (forall i :: 0 <= i < |s.pcs| && s.pcs[i].ResetLeave? ==> !s.signal)
  }

  lemma StepKeepsSafe(s: State, step: Step)
    requires Safe(s) && Enabled(s, step)
    ensures Safe(After(s, step))
  {
  }

  lemma {:induction false} RunKeepsSafe(s: State, steps: seq<Step>)
    requires Safe(s) && IsRun(s, steps)
    ensures Safe(End(s, steps))
    decreases |steps|
  {
    if steps != [] {
      StepKeepsSafe(s, steps[0]);
      RunKeepsSafe(After(s, steps[0]), steps[1..]);
    }
  }

  /** Every return from `Wait`, in every interleaving, happens while the event is signalled: nobody
      can reset it between the waiter's check and its release of the mutex. */
  lemma WaitReturnsOnlyWhenSignalled(threads: nat, signal: bool, steps: seq<Step>, i: nat)
    requires IsRun(Init(threads, signal), steps)
    requires var s := End(Init(threads, signal), steps);
             Enabled(s, Release(i)) && s.pcs[i].WaitLeave?
    ensures End(Init(threads, signal), steps).signal
  {
    RunKeepsSafe(Init(threads, signal), steps);
  }

  /** The steps of calls already under way, as opposed to new calls and spurious wake-ups. */
  predicate Continues(step: Step) {
    step.Acquire? || step.Check? || step.Store? || step.Notify? || step.Release?
  }

  /** No deadlock: as long as some call is under way and not asleep, some call can go on. */
  lemma SomeCallGoesOn(s: State, i: nat) returns (step: Step)
    requires Safe(s) && i < |s.pcs| && !s.pcs[i].Idle? && !s.pcs[i].Asleep?
    ensures Continues(step) && Enabled(s, step)
  {
    if s.owner.None? {
      return Acquire(i);
    }
    var o := s.owner.value;
    match s.pcs[o]
    case WaitCheck => return Check(o);
    case SetStore => return Store(o);
    case ResetStore => return Store(o);
    case SetNotify =>
      if j :| 0 <= j < |s.pcs| && s.pcs[j].Asleep? {
        return Notify(o, Some(j));
      } else {
        return Notify(o, None);
      }
    case _ => return Release(o);
  }

  // ---------- sleepers ----------

  function SleeperSet(s: State): set<nat> {
    set i | 0 <= i < |s.pcs| && s.pcs[i].Asleep?
  }

  function Notifications(steps: seq<Step>): nat {
    if steps == [] then 0 else (if steps[0].Notify? then 1 else 0) + Notifications(steps[1..])
  }

  /** The event is signalled before every step of the run, and after the last one. */
  predicate SignalledThroughout(s: State, steps: seq<Step>)
    requires IsRun(s, steps)
    decreases |steps|
  {
    s.signal && (steps == [] || SignalledThroughout(After(s, steps[0]), steps[1..]))
  }

  predicate NoneSpurious(steps: seq<Step>) {
    forall k :: 0 <= k < |steps| ==> !steps[k].Spurious?
  }

  function Less(n: int, k: int): int {
    if n > k then n - k else 0
  }

  lemma StepOnSleepers(s: State, step: Step)
    requires Enabled(s, step) && s.signal
    ensures SleeperSet(After(s, step)) <= SleeperSet(s)
    ensures !step.Spurious? ==>
              |SleeperSet(After(s, step))| == Less(|SleeperSet(s)|, if step.Notify? then 1 else 0)
    ensures step.Spurious? ==> |SleeperSet(After(s, step))| == |SleeperSet(s)| - 1
  {
    var before, after := SleeperSet(s), SleeperSet(After(s, step));
    match step {
      case Notify(i, woken) =>
        if woken.Some? {
          WakingRemoves(s, woken.value, After(s, step));
        } else {
          assert before == {} && after == {};
        }
      case Spurious(i) =>
        WakingRemoves(s, i, After(s, step));
      case _ =>
        OthersChangeNoSleeper(s, step);
    }
  }

  lemma OthersChangeNoSleeper(s: State, step: Step)
    requires Enabled(s, step) && !step.Notify? && !step.Spurious? && (step.Check? ==> s.signal)
    ensures SleeperSet(After(s, step)) == SleeperSet(s)
  {
    var t := After(s, step);
    assert |t.pcs| == |s.pcs| && forall j :: 0 <= j < |s.pcs| && j != step.i ==> t.pcs[j] == s.pcs[j];
    assert !s.pcs[step.i].Asleep? && !t.pcs[step.i].Asleep?;
  }

  lemma WakingRemoves(s: State, i: nat, t: State)
    requires i < |s.pcs| == |t.pcs| && s.pcs[i].Asleep?
    requires forall j :: 0 <= j < |s.pcs| ==> (t.pcs[j].Asleep? <==> s.pcs[j].Asleep? && j != i)
    ensures SleeperSet(t) == SleeperSet(s) - {i} && |SleeperSet(t)| == |SleeperSet(s)| - 1
  {
    assert i in SleeperSet(s);
    assert SleeperSet(t) == SleeperSet(s) - {i};
  }

  lemma FallingAsleepAdds(s: State, i: nat, t: State)
    requires i < |s.pcs| == |t.pcs| && !s.pcs[i].Asleep?
    requires forall j :: 0 <= j < |s.pcs| ==> (t.pcs[j].Asleep? <==> s.pcs[j].Asleep? || j == i)
    ensures |SleeperSet(t)| == |SleeperSet(s)| + 1
  {
    assert SleeperSet(t) == SleeperSet(s) + {i};
  }

  /** While the event stays signalled nobody falls asleep, and each `Set` wakes one sleeper: of `n`
      sleepers, `k` calls leave `n - k`, or none. Spurious wake-ups can only leave fewer. */
  lemma {:induction false} EachSetWakesOne(s: State, steps: seq<Step>)
    requires IsRun(s, steps) && SignalledThroughout(s, steps)
    ensures SleeperSet(End(s, steps)) <= SleeperSet(s)
    ensures |SleeperSet(End(s, steps))| <= Less(|SleeperSet(s)|, Notifications(steps))
    ensures NoneSpurious(steps) ==> |SleeperSet(End(s, steps))| == Less(|SleeperSet(s)|, Notifications(steps))
    decreases |steps|
  {
    if steps != [] {
      StepOnSleepers(s, steps[0]);
      EachSetWakesOne(After(s, steps[0]), steps[1..]);
    }
  }

  // Without `Reset`: no thread is about to switch the signal off, and none calls `Reset`.

  predicate NoResetUnderWay(s: State) {
    forall i :: 0 <= i < |s.pcs| ==> !s.pcs[i].ResetEnter? && !s.pcs[i].ResetStore?
  }

  predicate NoResetCalled(steps: seq<Step>) {
    forall k :: 0 <= k < |steps| ==> !steps[k].CallReset?
  }

  /** The waiters that find the event off, and go to sleep. */
  function Newcomers(s: State, steps: seq<Step>): nat
    requires IsRun(s, steps)
    decreases |steps|
  {
    if steps == [] then 0
    else (if steps[0].Check? && !s.signal then 1 else 0) + Newcomers(After(s, steps[0]), steps[1..])
  }

  /** A signalled event stays so until a `Reset`, and lets every newcomer through. */
  lemma {:induction false} StaysSignalled(s: State, steps: seq<Step>)
    requires IsRun(s, steps) && NoResetUnderWay(s) && NoResetCalled(steps) && s.signal
    ensures SignalledThroughout(s, steps) && Newcomers(s, steps) == 0
    decreases |steps|
  {
    if steps != [] {
      StaysSignalled(After(s, steps[0]), steps[1..]);
    }
  }

  lemma StepBeforeSignal(s: State, step: Step)
    requires Safe(s) && Enabled(s, step) && !s.signal
    ensures !step.Notify?
    ensures |SleeperSet(After(s, step))| ==
            |SleeperSet(s)| + (if step.Check? then 1 else 0) - (if step.Spurious? then 1 else 0)
  {
    if step.Check? {
      FallingAsleepAdds(s, step.i, After(s, step));
    } else if step.Spurious? {
      WakingRemoves(s, step.i, After(s, step));
    } else if !step.Notify? {
      OthersChangeNoSleeper(s, step);
    }
  }

  /** Without `Reset`, and whether or not the event is signalled yet, each `Set` wakes one sleeper: `k`
      notifications leave all but `k` of the waiters that slept at first or lay down before the first
      store, or none. Spurious wake-ups can only leave fewer. */
  lemma {:induction false} WithoutResetEachSetWakesOne(s: State, steps: seq<Step>)
    requires Safe(s) && IsRun(s, steps) && NoResetUnderWay(s) && NoResetCalled(steps)
    ensures |SleeperSet(End(s, steps))| <= Less(|SleeperSet(s)| + Newcomers(s, steps), Notifications(steps))
    ensures NoneSpurious(steps) ==>
              |SleeperSet(End(s, steps))| == Less(|SleeperSet(s)| + Newcomers(s, steps), Notifications(steps))
    decreases |steps|
  {
    if s.signal {
      StaysSignalled(s, steps);
      EachSetWakesOne(s, steps);
    } else if steps != [] {
      StepKeepsSafe(s, steps[0]);
      StepBeforeSignal(s, steps[0]);
      WithoutResetEachSetWakesOne(After(s, steps[0]), steps[1..]);
    }
  }
}
