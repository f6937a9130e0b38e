/** What single calls of an `EventSync` do, and that calls under way come to an end. */
module EventSyncCalls {
  import opened Options
  import opened Runs
  import opened EventSyncs

  // ---------- calls finish ----------

  /** More than a call can still take of its own steps; waking a sleeper is paid for in advance. */
  function StepsLeft(pc: Pc): nat {
    match pc
    case Idle => 0
    case Asleep => 0
    case WaitEnter => 3
    case Woken => 3
    case WaitCheck => 2
    case WaitLeave => 1
    case SetEnter => 7
    case SetStore => 6
    case SetNotify => 5
    case SetLeave => 1
    case ResetEnter => 3
    case ResetStore => 2
    case ResetLeave => 1
  }

  function AllStepsLeft(pcs: seq<Pc>): nat {
    if pcs == [] then 0 else StepsLeft(pcs[0]) + AllStepsLeft(pcs[1..])
  }

  lemma {:induction false} OneMoved(pcs: seq<Pc>, i: nat, pc: Pc)
    requires i < |pcs|
    ensures AllStepsLeft(pcs[i := pc]) == AllStepsLeft(pcs) - StepsLeft(pcs[i]) + StepsLeft(pc)
  {
    if i > 0 {
      assert pcs[i := pc][1..] == pcs[1..][i - 1 := pc];
      OneMoved(pcs[1..], i - 1, pc);
    } else {
      assert pcs[i := pc][1..] == pcs[1..];
    }
  }

  lemma StepUsesUp(s: State, step: Step)
    requires Enabled(s, step) && Continues(step)
    ensures AllStepsLeft(After(s, step).pcs) < AllStepsLeft(s.pcs)
  {
    var i := step.i;
    var t := After(s, step);
    if step.Notify? && step.woken.Some? {
      var between := s.pcs[step.woken.value := Woken];
      OneMoved(s.pcs, step.woken.value, Woken);
      OneMoved(between, i, SetLeave);
      assert t.pcs == between[i := SetLeave];
    } else {
      OneMoved(s.pcs, i, t.pcs[i]);
      assert t.pcs == s.pcs[i := t.pcs[i]];
    }
  }

  lemma {:induction false} AtMostSevenEach(pcs: seq<Pc>)
    ensures AllStepsLeft(pcs) <= 7 * |pcs|
  {
    if pcs != [] {
      AtMostSevenEach(pcs[1..]);
    }
  }

  lemma {:induction false} RunUsesUp(s: State, steps: seq<Step>)
    requires IsRun(s, steps) && forall k :: 0 <= k < |steps| ==> Continues(steps[k])
    ensures |steps| + AllStepsLeft(End(s, steps).pcs) <= AllStepsLeft(s.pcs)
    ensures |End(s, steps).pcs| == |s.pcs|
    decreases |steps|
  {
    if steps != [] {
      StepUsesUp(s, steps[0]);
      RunUsesUp(After(s, steps[0]), steps[1..]);
    }
  }

  /** Nothing that goes on can still be done. */
  ghost predicate AtRest(s: State) {
    forall step: Step :: Continues(step) ==> !Enabled(s, step)
  }

  /** Whatever the schedule, the calls under way take no more than 7 steps a thread; when none of them
      can take another, every thread has returned or sleeps in `Wait`. */
  lemma CallsFinish(s: State, steps: seq<Step>)
    requires Safe(s) && IsRun(s, steps) && forall k :: 0 <= k < |steps| ==> Continues(steps[k])
    ensures |steps| <= 7 * |s.pcs|
    ensures AtRest(End(s, steps)) <==>
            forall i :: 0 <= i < |End(s, steps).pcs| ==> End(s, steps).pcs[i].Idle? || End(s, steps).pcs[i].Asleep?
  {
    RunUsesUp(s, steps);
    AtMostSevenEach(s.pcs);
    RunKeepsSafe(s, steps);
    var t := End(s, steps);
    forall i: nat | i < |t.pcs| && !t.pcs[i].Idle? && !t.pcs[i].Asleep?
      ensures !AtRest(t)
    {
      var step := SomeCallGoesOn(t, i);
    }
  }

  /** On a signalled event that nobody resets, every `Wait` under way that is not asleep returns,
      whatever the schedule: when nothing goes on any more, its thread is idle. */
  lemma SignalledWaitReturns(s: State, steps: seq<Step>, i: nat)
    requires Safe(s) && s.signal && NoResetUnderWay(s)
    requires IsRun(s, steps) && forall k :: 0 <= k < |steps| ==> Continues(steps[k])
    requires i < |s.pcs| && !s.pcs[i].Asleep? && AtRest(End(s, steps))
    ensures i < |End(s, steps).pcs| && End(s, steps).pcs[i].Idle? && End(s, steps).signal
  {
    CallsFinish(s, steps);
    StaysSignalled(s, steps);
    EachSetWakesOne(s, steps);
    SignalledInTheEnd(s, steps);
    assert i !in SleeperSet(s) && i !in SleeperSet(End(s, steps));
    RunUsesUp(s, steps);
  }

  lemma {:induction false} SignalledInTheEnd(s: State, steps: seq<Step>)
    requires IsRun(s, steps) && SignalledThroughout(s, steps)
    ensures End(s, steps).signal
    decreases |steps|
  {
    if steps != [] {
      SignalledInTheEnd(After(s, steps[0]), steps[1..]);
    }
  }

  // ---------- one call taken alone ----------

  lemma LastStep(s: State, step: Step)
    requires Enabled(s, step)
    ensures IsRun(s, [step]) && End(s, [step]) == After(s, step)
  {
    GoCons(Next, s, step, []);
    assert [step] + [] == [step];
  }

  lemma FirstStep(s: State, step: Step, rest: seq<Step>)
    requires Enabled(s, step) && IsRun(After(s, step), rest)
    ensures IsRun(s, [step] + rest) && End(s, [step] + rest) == End(After(s, step), rest)
  {
    GoCons(Next, s, step, rest);
  }

  /** `Wait` on a signalled event goes straight through and changes nothing; otherwise it goes to sleep
      without the mutex. */
  lemma WaitAlone(s: State, i: nat)
    requires i < |s.pcs| && s.pcs[i].Idle? && s.owner.None?
    ensures s.signal ==> var steps := [CallWait(i)] + ([Acquire(i)] + ([Check(i)] + [Release(i)]));
                         IsRun(s, steps) && End(s, steps) == s
    ensures !s.signal ==> var steps := [CallWait(i)] + ([Acquire(i)] + [Check(i)]);
                          IsRun(s, steps) && End(s, steps) == s.Move(i, Asleep)
  {
    var s1 := After(s, CallWait(i));
    var s2 := After(s1, Acquire(i));
    var s3 := After(s2, Check(i));
    if s.signal {
      LastStep(s3, Release(i));
      FirstStep(s2, Check(i), [Release(i)]);
      FirstStep(s1, Acquire(i), [Check(i)] + [Release(i)]);
      FirstStep(s, CallWait(i), [Acquire(i)] + ([Check(i)] + [Release(i)]));
      assert After(s3, Release(i)).pcs == s.pcs;
    } else {
      LastStep(s2, Check(i));
      FirstStep(s1, Acquire(i), [Check(i)]);
      FirstStep(s, CallWait(i), [Acquire(i)] + [Check(i)]);
      assert s3.pcs == s.pcs[i := Asleep];
    }
  }

  /** A woken sleeper asks for the mutex again; it returns if it finds the event signalled, and goes back
      to sleep otherwise. */
  lemma WokenAlone(s: State, i: nat)
    requires i < |s.pcs| && s.pcs[i].Woken? && s.owner.None?
    ensures s.signal ==> var steps := [Acquire(i)] + ([Check(i)] + [Release(i)]);
                         IsRun(s, steps) && End(s, steps) == s.Move(i, Idle)
    ensures !s.signal ==> var steps := [Acquire(i)] + [Check(i)];
                          IsRun(s, steps) && End(s, steps) == s.Move(i, Asleep)
  {
    var s1 := After(s, Acquire(i));
    var s2 := After(s1, Check(i));
    if s.signal {
      LastStep(s2, Release(i));
      FirstStep(s1, Check(i), [Release(i)]);
      FirstStep(s, Acquire(i), [Check(i)] + [Release(i)]);
      assert After(s2, Release(i)) == s.Move(i, Idle);
    } else {
      LastStep(s1, Check(i));
      FirstStep(s, Acquire(i), [Check(i)]);
      assert s2 == s.Move(i, Asleep);
    }
  }

  /** `Reset` switches the signal off and changes nothing else. */
  lemma ResetAlone(s: State, i: nat)
    requires i < |s.pcs| && s.pcs[i].Idle? && s.owner.None?
    ensures var steps := [CallReset(i)] + ([Acquire(i)] + ([Store(i)] + [Release(i)]));
            IsRun(s, steps) && End(s, steps) == s.(signal := false)
  {
    var s1 := After(s, CallReset(i));
    var s2 := After(s1, Acquire(i));
    var s3 := After(s2, Store(i));
    LastStep(s3, Release(i));
    FirstStep(s2, Store(i), [Release(i)]);
    FirstStep(s1, Acquire(i), [Store(i)] + [Release(i)]);
    FirstStep(s, CallReset(i), [Acquire(i)] + ([Store(i)] + [Release(i)]));
    assert After(s3, Release(i)) == s.(signal := false);
  }

  /** `Set` switches the signal on and wakes a sleeper, any of them, if there is one. */
  lemma SetAlone(s: State, i: nat, woken: Option<nat>)
    requires i < |s.pcs| && s.pcs[i].Idle? && s.owner.None?
    requires woken.Some? ==> woken.value < |s.pcs| && s.pcs[woken.value].Asleep?
    requires woken.None? ==> SleeperSet(s) == {}
    ensures var steps := [CallSet(i)] + ([Acquire(i)] + ([Store(i)] + ([Notify(i, woken)] + [Release(i)])));
            IsRun(s, steps)
            && End(s, steps) == if woken.Some? then s.(signal := true).Move(woken.value, Woken) else s.(signal := true)
  {
    assert woken.None? ==> forall j :: 0 <= j < |s.pcs| && s.pcs[j].Asleep? ==> j in SleeperSet(s);
    var s1 := After(s, CallSet(i));
    var s2 := After(s1, Acquire(i));
    var s3 := After(s2, Store(i));
    var s4 := After(s3, Notify(i, woken));
    LastStep(s4, Release(i));
    FirstStep(s3, Notify(i, woken), [Release(i)]);
    FirstStep(s2, Store(i), [Notify(i, woken)] + [Release(i)]);
    FirstStep(s1, Acquire(i), [Store(i)] + ([Notify(i, woken)] + [Release(i)]));
    FirstStep(s, CallSet(i), [Acquire(i)] + ([Store(i)] + ([Notify(i, woken)] + [Release(i)])));
    if woken.Some? {
      assert After(s4, Release(i)).pcs == s.pcs[woken.value := Woken];
    } else {
      assert After(s4, Release(i)).pcs == s.pcs;
    }
  }
}
