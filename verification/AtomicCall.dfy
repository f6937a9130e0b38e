/** What single calls on an atomic pointer do, and that calls under way come to an end. */
module AtomicCalls {
  import opened Options
  import opened Runs
  import opened AtomicSharedPtrs

  // ---------- one call taken alone ----------

  lemma LastStep(s: State, step: Step)
    requires Enabled(s, step)
    ensures IsRun(s, [step]) && End(s, [step]) == After(s, step)
  {
    GoCons(Next, s, step, []);
    assert [step] + [] == [step];
  }

  lemma FirstStep(s: State, step: Step, rest: seq<Step>)
    requires Enabled(s, step) && IsRun(After(s, step), rest)
    ensures IsRun(s, [step] + rest) && End(s, [step] + rest) == End(After(s, step), rest)
  {
    GoCons(Next, s, step, rest);
  }

  /** `s` after one call from start to end: what the cell holds then, and what the caller has got. */
  function Called(s: State, i: nat, cell: nat, op: Op, content: Ptr, reply: Reply): State
    requires cell < |s.cells|
  {
    State(s.cells[cell := Cell(content, None)],
          s.threads,
          s.history + [Invoked(i, cell, op)] + [Returned(i, |s.log|, reply)],
          s.log + [Entry(i, cell, op, |s.history|)])
  }

  /** Thread `i` calls and takes the lock. */
  function Locked(s: State, i: nat, cell: nat, op: Op): State
    requires cell < |s.cells| && i < |s.threads|
  {
    State(s.cells[cell := Cell(s.cells[cell].content, Some(i))],
          s.threads[i := Inside(Call(cell, op, Alone), |s.log|, Start)],
          s.history + [Invoked(i, cell, op)],
          s.log + [Entry(i, cell, op, |s.history|)])
  }

  lemma CallsAndLocks(s: State, i: nat, cell: nat, op: Op, rest: seq<Step>)
    requires i < |s.threads| && s.threads[i].Idle? && cell < |s.cells| && s.cells[cell].lockedBy.None?
    requires IsRun(Locked(s, i, cell, op), rest)
    ensures var steps := [Invoke(i, Call(cell, op, Alone))] + ([Acquire(i)] + rest);
            IsRun(s, steps) && End(s, steps) == End(Locked(s, i, cell, op), rest)
  {
    var called := After(s, Invoke(i, Call(cell, op, Alone)));
    assert After(called, Acquire(i)) == Locked(s, i, cell, op);
    FirstStep(called, Acquire(i), rest);
    FirstStep(s, Invoke(i, Call(cell, op, Alone)), [Acquire(i)] + rest);
  }

  /** The statements of the critical section of an operation. */
  function WorkSteps(i: nat, op: Op): seq<Step> {
    match op
    case Exchange(_) => [Work(i)] + [Work(i)]
    case CompareExchange(_, _) => [Work(i)] + ([Work(i)] + [Work(i)])
    case _ => [Work(i)]
  }

  lemma WorksAndLeaves(s: State, i: nat, cell: nat, op: Op, content: Ptr, reply: Reply, u: State, works: seq<Step>)
    requires i < |s.threads| && s.threads[i].Idle? && cell < |s.cells| && s.cells[cell].lockedBy.None?
    requires IsRun(Locked(s, i, cell, op), works)
    requires u == End(Locked(s, i, cell, op), works)
    requires u.cells == s.cells[cell := Cell(content, Some(i))]
    requires u.threads == s.threads[i := Inside(Call(cell, op, Alone), |s.log|, Finished(reply))]
    requires u.history == s.history + [Invoked(i, cell, op)] && u.log == s.log + [Entry(i, cell, op, |s.history|)]
    ensures var steps := [Invoke(i, Call(cell, op, Alone))] + ([Acquire(i)] + (works + [Release(i)]));
            IsRun(s, steps) && End(s, steps) == Called(s, i, cell, op, content, reply)
  {
    LastStep(u, Release(i));
    GoOn(Next, Locked(s, i, cell, op), works, [Release(i)]);
    CallsAndLocks(s, i, cell, op, works + [Release(i)]);
    var t := After(u, Release(i));
    assert t.threads == s.threads;
    assert t.cells == s.cells[cell := Cell(content, None)];
  }

  /** A call on an unlocked cell that nobody disturbs, for every operation: the content it leaves, and
      what its caller gets. Nothing else changes. */
  lemma CallAlone(s: State, i: nat, cell: nat, op: Op)
    requires i < |s.threads| && s.threads[i].Idle? && cell < |s.cells| && s.cells[cell].lockedBy.None?
    ensures var steps := [Invoke(i, Call(cell, op, Alone))] + ([Acquire(i)] + (WorkSteps(i, op) + [Release(i)]));
            var c := s.cells[cell].content;
            && IsRun(s, steps)
            && match op
               case Load => End(s, steps) == Called(s, i, cell, op, c, Got(c))
               case Store(v) => End(s, steps) == Called(s, i, cell, op, v, Done)
               case Reset => End(s, steps) == Called(s, i, cell, op, Ptr(0, 0), Done)
               case Exchange(v) => End(s, steps) == Called(s, i, cell, op, v, Got(c))
               case CompareExchange(expected, v) =>
                 && (c.raw == expected.raw ==> End(s, steps) == Called(s, i, cell, op, v, Compared(true, v)))
                 && (c.raw != expected.raw ==> End(s, steps) == Called(s, i, cell, op, c, Compared(false, c)))
  {
    var c := s.cells[cell].content;
    var s0 := Locked(s, i, cell, op);
    var s1 := After(s0, Work(i));
    match op
    case Load =>
      LastStep(s0, Work(i));
      WorksAndLeaves(s, i, cell, op, c, Got(c), s1, [Work(i)]);
    case Store(v) =>
      LastStep(s0, Work(i));
      WorksAndLeaves(s, i, cell, op, v, Done, s1, [Work(i)]);
    case Reset =>
      LastStep(s0, Work(i));
      WorksAndLeaves(s, i, cell, op, Ptr(0, 0), Done, s1, [Work(i)]);
    case Exchange(v) =>
      LastStep(s1, Work(i));
      FirstStep(s0, Work(i), [Work(i)]);
      WorksAndLeaves(s, i, cell, op, v, Got(c), After(s1, Work(i)), [Work(i)] + [Work(i)]);
    case CompareExchange(expected, v) =>
      var s2 := After(s1, Work(i));
      LastStep(s2, Work(i));
      FirstStep(s1, Work(i), [Work(i)]);
      FirstStep(s0, Work(i), [Work(i)] + [Work(i)]);
      if c.raw == expected.raw {
        WorksAndLeaves(s, i, cell, op, v, Compared(true, v), After(s2, Work(i)), [Work(i)] + ([Work(i)] + [Work(i)]));
      } else {
        WorksAndLeaves(s, i, cell, op, c, Compared(false, c), After(s2, Work(i)), [Work(i)] + ([Work(i)] + [Work(i)]));
      }
  }

  // ---------- calls finish ----------

  /** The steps of calls already under way. */
  predicate Continues(step: Step) {
    !step.Invoke?
  }

  function WorkLeft(op: Op, phase: Phase): nat {
    match phase
    case Start => if op.CompareExchange? then 3 else if op.Exchange? then 2 else 1
    case HasRead(_) => if op.CompareExchange? then 2 else 1
    case HasCompared(_) => 1
    case Finished(_) => 0
  }

  /** The steps a call has left: its lock, its work, its unlock, and the store half of a copy. */
  function StepsLeft(pc: Pc): nat {
    match pc
    case Idle => 0
    case Entering(call, _) => 1 + WorkLeft(call.op, Start) + 1 + if call.role.CopyTo? then 3 else 0
    case Inside(call, _, phase) => WorkLeft(call.op, phase) + 1 + if call.role.CopyTo? then 3 else 0
  }

  function AllStepsLeft(pcs: seq<Pc>): nat {
    if pcs == [] then 0 else StepsLeft(pcs[0]) + AllStepsLeft(pcs[1..])
  }

  lemma {:induction false} OneMoved(pcs: seq<Pc>, i: nat, pc: Pc)
    requires i < |pcs|
    ensures AllStepsLeft(pcs[i := pc]) == AllStepsLeft(pcs) - StepsLeft(pcs[i]) + StepsLeft(pc)
  {
    if i > 0 {
      assert pcs[i := pc][1..] == pcs[1..][i - 1 := pc];
      OneMoved(pcs[1..], i - 1, pc);
    } else {
      assert pcs[i := pc][1..] == pcs[1..];
    }
  }

  lemma StepUsesOne(s: State, step: Step)
    requires Enabled(s, step) && Continues(step)
    ensures AllStepsLeft(After(s, step).threads) == AllStepsLeft(s.threads) - 1
  {
    var t := After(s, step);
    OneMoved(s.threads, step.i, t.threads[step.i]);
    assert t.threads == s.threads[step.i := t.threads[step.i]];
    assert StepsLeft(t.threads[step.i]) == StepsLeft(s.threads[step.i]) - 1;
  }

  lemma {:induction false} RunUses(s: State, steps: seq<Step>)
    requires IsRun(s, steps) && forall k :: 0 <= k < |steps| ==> Continues(steps[k])
    ensures |steps| + AllStepsLeft(End(s, steps).threads) == AllStepsLeft(s.threads)
    decreases |steps|
  {
    if steps != [] {
      StepUsesOne(s, steps[0]);
      RunUses(After(s, steps[0]), steps[1..]);
    }
  }

  /** No deadlock: as long as some call is under way, some call can go on. */
  lemma SomeCallGoesOn(contents: seq<Ptr>, s: State, i: nat) returns (step: Step)
    requires Inv(contents, s) && i < |s.threads| && !s.threads[i].Idle?
    ensures Continues(step) && Enabled(s, step)
  {
    assert ThreadFits(contents, s, i);
    var j := i;
    if s.threads[i].Entering? {
      var cell := s.threads[i].call.cell;
      if s.cells[cell].lockedBy.None? {
        return Acquire(i);
      }
      assert CellFits(contents, s, cell);
      j := s.cells[cell].lockedBy.value;
    }
    assert ThreadFits(contents, s, j);
    if s.threads[j].phase.Finished? {
      return Release(j);
    } else {
      return Work(j);
    }
  }

  lemma {:induction false} NoneLeftExactlyWhenIdle(pcs: seq<Pc>)
    ensures AllStepsLeft(pcs) == 0 <==> forall i :: 0 <= i < |pcs| ==> pcs[i].Idle?
  {
    if pcs != [] {
      NoneLeftExactlyWhenIdle(pcs[1..]);
      assert forall i :: 0 <= i < |pcs[1..]| ==> pcs[1..][i] == pcs[i + 1];
      assert forall i :: 0 < i < |pcs| ==> pcs[i] == pcs[1..][i - 1];
    }
  }

  /** Every call returns, whatever the schedule: in every state a run can reach, as long as nobody calls
      anything new, the number of steps left is fixed, and as long as it is not 0 another step can be
      taken. When it is 0, every thread is idle. */
  lemma CallsFinish(contents: seq<Ptr>, s: State, calls: seq<Step>, steps: seq<Step>)
    requires IsInit(contents, s) && IsRun(s, calls)
    requires IsRun(End(s, calls), steps) && forall k :: 0 <= k < |steps| ==> Continues(steps[k])
    ensures var left := AllStepsLeft(End(s, calls).threads);
            var t := End(End(s, calls), steps);
            && |steps| <= left
            && (|steps| == left <==> forall i :: 0 <= i < |t.threads| ==> t.threads[i].Idle?)
            && (|steps| < left ==> exists step: Step :: Continues(step) && Enabled(t, step))
  {
    var t := End(End(s, calls), steps);
    InitFits(contents, s);
    RunKeepsInv(contents, s, calls);
    RunKeepsInv(contents, End(s, calls), steps);
    RunUses(End(s, calls), steps);
    NoneLeftExactlyWhenIdle(t.threads);
    if i: nat :| i < |t.threads| && !t.threads[i].Idle? {
      var step := SomeCallGoesOn(contents, t, i);
    }
  }
}
