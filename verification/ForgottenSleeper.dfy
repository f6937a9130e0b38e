/** Waiters that sleep on although their `EventSync` is signalled. */
module ForgottenSleepers {
  import opened Options
  import opened Runs
  import opened EventSyncs
  import opened EventSyncCalls

  /** Thread `i` sleeps although the event is signalled, and no `Set` is about to wake anyone. */
  predicate Forgotten(s: State, i: nat) {
    && i < |s.pcs| && s.pcs[i].Asleep? && s.signal
    && forall j :: 0 <= j < |s.pcs| ==> !s.pcs[j].SetNotify?
  }

  /** Only these threads ever call `Wait`. */
  predicate OnlyWaiters(steps: seq<Step>, waiters: set<nat>) {
    forall k :: 0 <= k < |steps| && steps[k].CallWait? ==> steps[k].i in waiters
  }

  predicate WaitersIn(s: State, waiters: set<nat>) {
    forall i :: 0 <= i < |s.pcs| && s.pcs[i].InWait() ==> i in waiters
  }

  ghost predicate NoneForgotten(s: State) {
    forall i :: !Forgotten(s, i)
  }

  /** There are never two waiters besides a third thread that calls `Set`. */
  predicate FewEnough(waiters: set<nat>, threads: nat) {
    threads <= 2 || forall i, j :: i in waiters && j in waiters ==> i == j
  }

  lemma LoneWaiterStep(s: State, step: Step, waiters: set<nat>)
    requires Safe(s) && Enabled(s, step) && WaitersIn(s, waiters) && NoneForgotten(s)
    requires step.CallWait? ==> step.i in waiters
    requires FewEnough(waiters, |s.pcs|)
    ensures WaitersIn(After(s, step), waiters) && NoneForgotten(After(s, step))
  {
    var t := After(s, step);
    if step.Notify? {
      forall i: nat | i < |s.pcs| && s.pcs[i].Asleep?
        ensures !t.pcs[i].Asleep?
      {
        assert i in waiters && step.woken.value in waiters;
      }
    } else {
      forall i: nat | i < |t.pcs| && t.pcs[i].Asleep? && t.signal
        ensures !Forgotten(t, i)
      {
        assert !Forgotten(s, i);
        if s.pcs[i].Asleep? && s.signal {
          var j :| 0 <= j < |s.pcs| && s.pcs[j].SetNotify?;
          assert s.owner == Some(j);
          assert t.pcs[j].SetNotify?;
        } else {
          assert t.pcs[step.i].SetNotify?;
        }
      }
    }
  }

  lemma {:induction false} LoneWaiterRun(s: State, steps: seq<Step>, waiters: set<nat>)
    requires Safe(s) && IsRun(s, steps) && WaitersIn(s, waiters) && NoneForgotten(s)
    requires OnlyWaiters(steps, waiters) && FewEnough(waiters, |s.pcs|)
    ensures NoneForgotten(End(s, steps))
    decreases |steps|
  {
    if steps != [] {
      StepKeepsSafe(s, steps[0]);
      LoneWaiterStep(s, steps[0], waiters);
      LoneWaiterRun(After(s, steps[0]), steps[1..], waiters);
    }
  }

  /** A thread calls `Wait` on an event that is not signalled. */
  lemma FallsAsleep(s: State, i: nat) returns (steps: seq<Step>)
    requires i < |s.pcs| && s.pcs[i].Idle? && s.owner.None? && !s.signal
    ensures IsRun(s, steps) && End(s, steps) == s.Move(i, Asleep) && OnlyWaiters(steps, {i})
  {
    WaitAlone(s, i);
    steps := [CallWait(i)] + ([Acquire(i)] + [Check(i)]);
  }

  /** A thread calls `Set` and wakes one sleeper. */
  lemma SetsAndWakes(s: State, i: nat, j: nat) returns (steps: seq<Step>)
    requires i < |s.pcs| && j < |s.pcs| && s.pcs[i].Idle? && s.pcs[j].Asleep? && s.owner.None?
    ensures IsRun(s, steps) && End(s, steps) == s.(signal := true).Move(j, Woken) && OnlyWaiters(steps, {})
  {
    SetAlone(s, i, Some(j));
    steps := [CallSet(i)] + ([Acquire(i)] + ([Store(i)] + ([Notify(i, Some(j))] + [Release(i)])));
  }

  /** Two waiters, one `Set`: the second is forgotten. */
  lemma SecondIsForgotten(threads: nat, a: nat, b: nat, c: nat) returns (steps: seq<Step>)
    requires a < threads && b < threads && c < threads && a != b && b != c && a != c
    ensures IsRun(Init(threads, false), steps) && OnlyWaiters(steps, {a, b})
    ensures Forgotten(End(Init(threads, false), steps), b)
  {
    var s := Init(threads, false);
    var one := FallsAsleep(s, a);
    var two := FallsAsleep(End(s, one), b);
    var three := SetsAndWakes(End(End(s, one), two), c, a);
    GoOn(Next, s, one, two);
    GoOn(Next, s, one + two, three);
    steps := (one + two) + three;
  }

  /** A manual-reset event should release every waiter. With `notify_one`, no waiter is ever forgotten,
      in any interleaving, exactly when no more than one thread waits, or there are no more than two
      threads in all. */
  lemma NoneForgottenExactlyWhen(threads: nat, waiters: set<nat>)
    requires forall i :: i in waiters ==> i < threads
    ensures |waiters| <= 1 || threads <= 2 <==>
            (forall signal: bool, steps: seq<Step> ::
               IsRun(Init(threads, signal), steps) && OnlyWaiters(steps, waiters)
               ==> NoneForgotten(End(Init(threads, signal), steps)))
  {
    if |waiters| <= 1 || threads <= 2 {
      forall i, j | i in waiters && j in waiters && threads > 2
        ensures i == j
      {
        assert |waiters - {i}| == |waiters| - 1;
      }
      forall signal: bool, steps: seq<Step> | IsRun(Init(threads, signal), steps) && OnlyWaiters(steps, waiters)
        ensures NoneForgotten(End(Init(threads, signal), steps))
      {
        LoneWaiterRun(Init(threads, signal), steps, waiters);
      }
    } else {
      var a :| a in waiters;
      assert |waiters - {a}| == |waiters| - 1;
      var b :| b in waiters - {a};
      var c := if a != 0 && b != 0 then 0 else if a != 1 && b != 1 then 1 else 2;
      var steps := SecondIsForgotten(threads, a, b, c);
      assert OnlyWaiters(steps, waiters);
      assert !NoneForgotten(End(Init(threads, false), steps));
    }
  }

  /** No `Set` is under way that could still wake someone. */
  predicate NoSetUnderWay(s: State) {
    forall j :: 0 <= j < |s.pcs| ==> !s.pcs[j].SetEnter? && !s.pcs[j].SetStore? && !s.pcs[j].SetNotify?
  }

  /** A sleeper sleeps on, whatever else happens, until the next call of `Set`. */
  lemma {:induction false} SleepsUntilNextSet(s: State, steps: seq<Step>, i: nat)
    requires IsRun(s, steps) && NoSetUnderWay(s) && i < |s.pcs| && s.pcs[i].Asleep?
    requires NoneSpurious(steps) && forall k :: 0 <= k < |steps| ==> !steps[k].CallSet?
    ensures i < |End(s, steps).pcs| && End(s, steps).pcs[i].Asleep?
    decreases |steps|
  {
    if steps != [] {
      SleepsUntilNextSet(After(s, steps[0]), steps[1..], i);
    }
  }
}
