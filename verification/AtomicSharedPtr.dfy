/** `atomic_shared_ptr`: cells holding a shared pointer each, every access behind the cell's own lock.
    Any number of threads work on any number of cells, their steps interleaved in any way. */
module AtomicSharedPtrs {
  import opened Options
  import opened Runs

  /** A `shared_ptr`: the address `get()` returns, and the control block that owns the object. */
  datatype Ptr = Ptr(raw: nat, control: nat)

  const NULL := Ptr(0, 0)

  datatype Op = Load | Store(v: Ptr) | Reset | Exchange(v: Ptr) | CompareExchange(expected: Ptr, v: Ptr)

  /** What a call gives back. A compare-exchange also writes to its `expected` argument. */
  datatype Reply = Done | Got(v: Ptr) | Compared(success: bool, expected: Ptr)

  // ---------- the sequential register ----------

  /** A rule for one operation on a register nobody else touches: the content it leaves and its reply. */
  type Rule = (Ptr, Op) -> (Ptr, Reply)

  /** The rule of the code. The comparison looks at addresses only, and `expected` receives the
      register's new content whether or not it succeeds. */
  function Register(content: Ptr, op: Op): (r: (Ptr, Reply)) {
    match op
    case Load => (content, Got(content))
    case Store(v) => (v, Done)
    case Reset => (NULL, Done)
    case Exchange(v) => (v, Got(content))
    case CompareExchange(expected, v) =>
      if content.raw == expected.raw then (v, Compared(true, v)) else (content, Compared(false, content))
  }

  // ---------- threads and cells ----------

  /** A copy between cells is two calls: a load, and a store elsewhere of the value loaded. */
  datatype Role = Alone | CopyTo(there: nat) | CopyFrom(there: nat)

  /** One call on one cell. */
  datatype Call = Call(cell: nat, op: Op, role: Role)

  /** How far a call has come inside its critical section. */
  datatype Phase = Start | HasRead(t: Ptr) | HasCompared(success: bool) | Finished(reply: Reply)

  datatype Pc =
    | Idle
    | Entering(call: Call, invokedAt: nat)
    | Inside(call: Call, at: nat, phase: Phase)

  datatype Cell = Cell(content: Ptr, lockedBy: Option<nat>)

  /** The visible history. A return names the call it ends by its place in the order of locking. */
  datatype Event = Invoked(thread: nat, cell: nat, op: Op) | Returned(thread: nat, at: nat, reply: Reply)

  /** One call, entered into the log when it takes the lock of its cell. */
  datatype Entry = Entry(thread: nat, cell: nat, op: Op, invokedAt: nat)

  datatype State = State(cells: seq<Cell>, threads: seq<Pc>, history: seq<Event>, log: seq<Entry>)

  /** All cells unlocked and holding `contents`, any number of threads, nothing called yet. */
  predicate IsInit(contents: seq<Ptr>, s: State) {
    && |s.cells| == |contents|
    && (forall c :: 0 <= c < |contents| ==> s.cells[c] == Cell(contents[c], None))
    && (forall i :: 0 <= i < |s.threads| ==> s.threads[i].Idle?)
    && s.history == [] && s.log == []
  }

  datatype Step = Invoke(i: nat, call: Call) | Acquire(i: nat) | Work(i: nat) | Release(i: nat)

  /** One statement of the code between lock and unlock. */
  function WorkOn(content: Ptr, op: Op, phase: Phase): Option<(Ptr, Phase)> {
    match (op, phase)
    case (Load, Start) => Some((content, Finished(Got(content))))
    case (Store(v), Start) => Some((v, Finished(Done)))
    case (Reset, Start) => Some((NULL, Finished(Done)))
    case (Exchange(_), Start) => Some((content, HasRead(content)))
    case (Exchange(v), HasRead(t)) => Some((v, Finished(Got(t))))
    case (CompareExchange(_, _), Start) => Some((content, HasRead(content)))
    case (CompareExchange(expected, v), HasRead(_)) =>
      if content.raw == expected.raw then Some((v, HasCompared(true))) else Some((content, HasCompared(false)))
    case (CompareExchange(_, _), HasCompared(success)) => Some((content, Finished(Compared(success, content))))
    case _ => None
  }

  predicate CallFits(call: Call, cells: nat) {
    && call.cell < cells
    && (!call.role.Alone? ==> call.role.there < cells && call.role.there != call.cell)
    && (call.role.CopyTo? ==> call.op.Load?)
    && (call.role.CopyFrom? ==> call.op.Store?)
  }

  predicate Enabled(s: State, step: Step) {
    && step.i < |s.threads|
    && var pc := s.threads[step.i];
       match step
       case Invoke(_, call) => pc.Idle? && CallFits(call, |s.cells|) && !call.role.CopyFrom?
       case Acquire(_) => pc.Entering? && pc.call.cell < |s.cells| && s.cells[pc.call.cell].lockedBy.None?
       case Work(_) =>
         && pc.Inside? && pc.call.cell < |s.cells|
         && WorkOn(s.cells[pc.call.cell].content, pc.call.op, pc.phase).Some?
       case Release(_) =>
         && pc.Inside? && pc.call.cell < |s.cells| && pc.phase.Finished?
         && (pc.call.role.CopyTo? ==> pc.phase.reply.Got?)
  }

  function After(s: State, step: Step): State
    requires Enabled(s, step)
  {
    var i, pc := step.i, s.threads[step.i];
    match step
    case Invoke(_, call) =>
      s.(threads := s.threads[i := Entering(call, |s.history|)],
         history := s.history + [Invoked(i, call.cell, call.op)])
    case Acquire(_) =>
      var call := pc.call;
      s.(threads := s.threads[i := Inside(call, |s.log|, Start)],
         cells := s.cells[call.cell := s.cells[call.cell].(lockedBy := Some(i))],
         log := s.log + [Entry(i, call.cell, call.op, pc.invokedAt)])
    case Work(_) =>
      var call := pc.call;
      var (content, phase) := WorkOn(s.cells[call.cell].content, call.op, pc.phase).value;
      s.(threads := s.threads[i := pc.(phase := phase)],
         cells := s.cells[call.cell := s.cells[call.cell].(content := content)])
    case Release(_) =>
      var call := pc.call;
      var history := s.history + [Returned(i, pc.at, pc.phase.reply)];
      var unlocked := s.(cells := s.cells[call.cell := s.cells[call.cell].(lockedBy := None)]);
      if !call.role.CopyTo? then unlocked.(threads := s.threads[i := Idle], history := history)
      else
        var store := Call(call.role.there, Store(pc.phase.reply.v), CopyFrom(call.cell));
        unlocked.(threads := s.threads[i := Entering(store, |history|)],
                  history := history + [Invoked(i, store.cell, store.op)])
  }

  function Next(s: State, step: Step): Option<State> {
    if Enabled(s, step) then Some(After(s, step)) else None
  }

  /** `steps` can be taken one after another from `s`. */
  predicate IsRun(s: State, steps: seq<Step>) {
    Go(Next, s, steps).Some?
  }

  function End(s: State, steps: seq<Step>): State
    requires IsRun(s, steps)
  {
    Go(Next, s, steps).value
  }

  // ---------- linearizability ----------

  /** What a cell holds after the calls of a log, run one after another on registers with this rule. */
  function Replay(rule: Rule, contents: seq<Ptr>, log: seq<Entry>, cell: nat): Ptr
    requires cell < |contents|
    decreases |log|
  {
    if log == [] then contents[cell]
    else
      var last := |log| - 1;
      var before := Replay(rule, contents, log[..last], cell);
      if log[last].cell == cell then rule(before, log[last].op).0 else before
  }

  /** The reply such registers give to the call at place `at` of the log. */
  function ExpectedReply(rule: Rule, contents: seq<Ptr>, log: seq<Entry>, at: nat): Reply
    requires at < |log| && log[at].cell < |contents|
  {
    rule(Replay(rule, contents, log[..at], log[at].cell), log[at].op).1
  }

  /** Every entry of the log is a call that was invoked, and no call is entered twice. */
  predicate EntriesInvoked(history: seq<Event>, log: seq<Entry>) {
    && (forall k :: 0 <= k < |log| ==>
          && log[k].invokedAt < |history|
          && history[log[k].invokedAt] == Invoked(log[k].thread, log[k].cell, log[k].op))
    && (forall j, k :: 0 <= j < k < |log| ==> log[j].invokedAt != log[k].invokedAt)
  }

  /** Every return ends a call of the log, once, after its invocation, with the sequential reply. */
  predicate RepliesSequential(rule: Rule, contents: seq<Ptr>, history: seq<Event>, log: seq<Entry>) {
    && (forall k :: 0 <= k < |log| ==> log[k].cell < |contents|)
    && (forall r :: 0 <= r < |history| && history[r].Returned? ==>
          && history[r].at < |log| && log[history[r].at].thread == history[r].thread
          && log[history[r].at].invokedAt < r
          && history[r].reply == ExpectedReply(rule, contents, log, history[r].at))
    && (forall q, r :: 0 <= q < r < |history| && history[q].Returned? && history[r].Returned? ==>
          history[q].at != history[r].at)
  }

  /** A call that returned before another was invoked comes before it in the log. */
  predicate KeepsRealTime(history: seq<Event>, log: seq<Entry>) {
    forall r, k :: 0 <= r < |history| && history[r].Returned? && 0 <= k < |log| && r < log[k].invokedAt
                   ==> history[r].at < k
  }

  /** The log, which is the order in which the locks were taken, linearizes the history. */
  predicate Linearizes(rule: Rule, contents: seq<Ptr>, history: seq<Event>, log: seq<Entry>) {
    && EntriesInvoked(history, log)
    && RepliesSequential(rule, contents, history, log)
    && KeepsRealTime(history, log)
  }

  // ---------- the invariant ----------

  /** Where a call stands in its critical section, measured against the sequential register. */
  predicate PhaseFits(before: Ptr, op: Op, phase: Phase, content: Ptr) {
    var (after, reply) := Register(before, op);
    match phase
    case Start => content == before
    case HasRead(t) => content == before && t == before && (op.Exchange? || op.CompareExchange?)
    case HasCompared(success) => op.CompareExchange? && content == after && success == (before.raw == op.expected.raw)
    case Finished(r) => content == after && r == reply
  }

  predicate ThreadFits(contents: seq<Ptr>, s: State, i: nat)
    requires i < |s.threads| && |s.cells| == |contents|
  {
    match s.threads[i]
    case Idle => true
    case Entering(call, invokedAt) =>
      && CallFits(call, |s.cells|)
      && invokedAt < |s.history| && s.history[invokedAt] == Invoked(i, call.cell, call.op)
      && (forall k :: 0 <= k < |s.log| ==> s.log[k].invokedAt != invokedAt)
    case Inside(call, at, phase) =>
      && CallFits(call, |s.cells|)
      && s.cells[call.cell].lockedBy == Some(i)
      && at < |s.log| && s.log[at].thread == i && s.log[at].cell == call.cell && s.log[at].op == call.op
      && (forall k :: at < k < |s.log| ==> s.log[k].cell != call.cell)
      && (forall r :: 0 <= r < |s.history| && s.history[r].Returned? ==> s.history[r].at != at)
      && PhaseFits(Replay(Register, contents, s.log[..at], call.cell), call.op, phase, s.cells[call.cell].content)
  }

  predicate CellFits(contents: seq<Ptr>, s: State, c: nat)
    requires c < |s.cells| == |contents|
  {
    match s.cells[c].lockedBy
    case None => s.cells[c].content == Replay(Register, contents, s.log, c)
    case Some(i) => i < |s.threads| && s.threads[i].Inside? && s.threads[i].call.cell == c
  }

  predicate Inv(contents: seq<Ptr>, s: State) {
    && |s.cells| == |contents|
    && Linearizes(Register, contents, s.history, s.log)
    && (forall i :: 0 <= i < |s.threads| ==> ThreadFits(contents, s, i))
    && (forall c :: 0 <= c < |s.cells| ==> CellFits(contents, s, c))
  }

  // ---------- every step keeps it ----------

  lemma ReplayOneMore(contents: seq<Ptr>, log: seq<Entry>, e: Entry, cell: nat)
    requires cell < |contents|
    ensures Replay(Register, contents, log + [e], cell) ==
            var before := Replay(Register, contents, log, cell);
            if e.cell == cell then Register(before, e.op).0 else before
  {
    assert (log + [e])[..|log|] == log;
  }

  /** Entries of other cells do not matter. */
  lemma {:induction false} ReplayUpTo(contents: seq<Ptr>, log: seq<Entry>, at: nat, cell: nat)
    requires at < |log| && log[at].cell == cell < |contents|
    requires forall k :: at < k < |log| ==> log[k].cell != cell
    ensures Replay(Register, contents, log, cell) == Register(Replay(Register, contents, log[..at], cell), log[at].op).0
    decreases |log|
  {
    var last := |log| - 1;
    if at < last {
      ReplayUpTo(contents, log[..last], at, cell);
      assert log[..last][..at] == log[..at];
    }
  }

  lemma InvokeKeepsThread(contents: seq<Ptr>, s: State, step: Step, i: nat)
    requires Enabled(s, step) && step.Invoke? && i < |s.threads| && |s.cells| == |contents|
    requires ThreadFits(contents, s, i)
    requires forall k :: 0 <= k < |s.log| ==> s.log[k].invokedAt < |s.history|
    ensures ThreadFits(contents, After(s, step), i)
  {
    var t := After(s, step);
    assert t.log == s.log && t.cells == s.cells;
    assert s.history <= t.history;
  }

  lemma InvokeKeepsInv(contents: seq<Ptr>, s: State, step: Step)
    requires Inv(contents, s) && Enabled(s, step) && step.Invoke?
    ensures Inv(contents, After(s, step))
  {
    var t := After(s, step);
    assert Linearizes(Register, contents, t.history, t.log) by {
      LongerHistory(contents, s.history, s.log, t.history[|s.history|]);
    }
    forall i | 0 <= i < |t.threads|
      ensures ThreadFits(contents, t, i)
    {
      assert ThreadFits(contents, s, i);
      InvokeKeepsThread(contents, s, step, i);
    }
    forall c | 0 <= c < |t.cells|
      ensures CellFits(contents, t, c)
    {
      assert CellFits(contents, s, c);
    }
  }

  lemma AcquireKeepsThread(contents: seq<Ptr>, s: State, step: Step, i: nat)
    requires Enabled(s, step) && step.Acquire? && i < |s.threads| && |s.cells| == |contents|
    requires ThreadFits(contents, s, i) && ThreadFits(contents, s, step.i)
    requires CellFits(contents, s, s.threads[step.i].call.cell)
    requires forall r :: 0 <= r < |s.history| && s.history[r].Returned? ==> s.history[r].at < |s.log|
    requires i != step.i && s.threads[i].Entering? ==> s.threads[i].invokedAt != s.threads[step.i].invokedAt
    ensures ThreadFits(contents, After(s, step), i)
  {
    var t := After(s, step);
    assert t.history == s.history;
    if i == step.i {
      assert t.log[..|s.log|] == s.log;
    } else if s.threads[i].Inside? {
      var other := s.threads[i];
      assert other.call.cell != s.threads[step.i].call.cell;
      assert t.cells[other.call.cell] == s.cells[other.call.cell];
      assert t.log[..other.at] == s.log[..other.at];
    }
  }

  lemma AcquireKeepsCell(contents: seq<Ptr>, s: State, step: Step, c: nat)
    requires Enabled(s, step) && step.Acquire? && c < |s.cells| == |contents|
    requires CellFits(contents, s, c)
    ensures CellFits(contents, After(s, step), c)
  {
    ReplayOneMore(contents, s.log, After(s, step).log[|s.log|], c);
  }

  lemma AcquireKeepsInv(contents: seq<Ptr>, s: State, step: Step)
    requires Inv(contents, s) && Enabled(s, step) && step.Acquire?
    ensures Inv(contents, After(s, step))
  {
    var t := After(s, step);
    var e := t.log[|s.log|];
    assert ThreadFits(contents, s, step.i) && CellFits(contents, s, e.cell);
    assert Linearizes(Register, contents, t.history, t.log) by {
      LongerLog(contents, s.history, s.log, e);
    }
    forall i | 0 <= i < |t.threads|
      ensures ThreadFits(contents, t, i)
    {
      assert ThreadFits(contents, s, i);
      AcquireKeepsThread(contents, s, step, i);
    }
    forall c | 0 <= c < |t.cells|
      ensures CellFits(contents, t, c)
    {
      assert CellFits(contents, s, c);
      AcquireKeepsCell(contents, s, step, c);
    }
  }

  lemma LongerLog(contents: seq<Ptr>, history: seq<Event>, log: seq<Entry>, e: Entry)
    requires Linearizes(Register, contents, history, log)
    requires e.cell < |contents| && e.invokedAt < |history|
    requires history[e.invokedAt] == Invoked(e.thread, e.cell, e.op)
    requires forall k :: 0 <= k < |log| ==> log[k].invokedAt != e.invokedAt
    ensures Linearizes(Register, contents, history, log + [e])
  {
    forall r | 0 <= r < |history| && history[r].Returned?
      ensures ExpectedReply(Register, contents, log + [e], history[r].at)
              == ExpectedReply(Register, contents, log, history[r].at)
    {
      assert (log + [e])[..history[r].at] == log[..history[r].at];
    }
  }

  /** Each statement of the critical section takes the call one step along the sequential operation. */
  lemma WorkFollowsRegister(before: Ptr, op: Op, phase: Phase, content: Ptr)
    requires PhaseFits(before, op, phase, content) && WorkOn(content, op, phase).Some?
    ensures var (content', phase') := WorkOn(content, op, phase).value; PhaseFits(before, op, phase', content')
  {
  }

  lemma WorkKeepsOthers(contents: seq<Ptr>, s: State, step: Step, i: nat)
    requires Enabled(s, step) && step.Work? && i < |s.threads| && i != step.i && |s.cells| == |contents|
    requires ThreadFits(contents, s, i) && ThreadFits(contents, s, step.i)
    ensures ThreadFits(contents, After(s, step), i)
  {
    if s.threads[i].Inside? {
      assert After(s, step).cells[s.threads[i].call.cell] == s.cells[s.threads[i].call.cell];
    }
  }

  lemma WorkKeepsInv(contents: seq<Ptr>, s: State, step: Step)
    requires Inv(contents, s) && Enabled(s, step) && step.Work?
    ensures Inv(contents, After(s, step))
  {
    var t := After(s, step);
    var pc := s.threads[step.i];
    var here := pc.call.cell;
    assert ThreadFits(contents, s, step.i);
    WorkFollowsRegister(Replay(Register, contents, s.log[..pc.at], here), pc.call.op, pc.phase, s.cells[here].content);
    assert t.history == s.history && t.log == s.log;
    forall i | 0 <= i < |t.threads|
      ensures ThreadFits(contents, t, i)
    {
      assert ThreadFits(contents, s, i);
      if i != step.i {
        WorkKeepsOthers(contents, s, step, i);
      }
    }
    forall c | 0 <= c < |t.cells|
      ensures CellFits(contents, t, c)
    {
      assert CellFits(contents, s, c);
    }
  }

  lemma ReleaseKeepsInv(contents: seq<Ptr>, s: State, step: Step)
    requires Inv(contents, s) && Enabled(s, step) && step.Release?
    ensures Inv(contents, After(s, step))
  {
    var t := After(s, step);
    var pc := s.threads[step.i];
    assert ThreadFits(contents, s, step.i);
    var returned := s.history + [Returned(step.i, pc.at, pc.phase.reply)];
    assert Linearizes(Register, contents, t.history, t.log) by {
      LongerHistory(contents, s.history, s.log, Returned(step.i, pc.at, pc.phase.reply));
      if pc.call.role.CopyTo? {
        LongerHistory(contents, returned, s.log, t.history[|returned|]);
      }
    }
    forall i | 0 <= i < |t.threads|
      ensures ThreadFits(contents, t, i)
    {
      assert ThreadFits(contents, s, i);
      ReleaseKeepsThread(contents, s, step, i);
    }
    forall c | 0 <= c < |t.cells|
      ensures CellFits(contents, t, c)
    {
      assert CellFits(contents, s, c);
      if c == pc.call.cell {
        ReplayUpTo(contents, s.log, pc.at, c);
      }
    }
  }

  lemma ReleaseKeepsThread(contents: seq<Ptr>, s: State, step: Step, i: nat)
    requires Enabled(s, step) && step.Release? && i < |s.threads| && |s.cells| == |contents|
    requires ThreadFits(contents, s, i) && ThreadFits(contents, s, step.i)
    requires forall k :: 0 <= k < |s.log| ==> s.log[k].invokedAt < |s.history|
    ensures ThreadFits(contents, After(s, step), i)
  {
    var t := After(s, step);
    var pc := s.threads[step.i];
    assert t.log == s.log;
    assert s.history <= t.history;
    if i == step.i {
    } else if s.threads[i].Inside? {
      var other := s.threads[i];
      assert other.call.cell != pc.call.cell && other.at != pc.at;
      assert t.cells[other.call.cell] == s.cells[other.call.cell];
      forall r | 0 <= r < |t.history| && t.history[r].Returned?
        ensures t.history[r].at != other.at
      {
        assert r < |s.history| ==> t.history[r] == s.history[r];
      }
    }
  }

  lemma LongerHistory(contents: seq<Ptr>, history: seq<Event>, log: seq<Entry>, e: Event)
    requires Linearizes(Register, contents, history, log)
    requires e.Returned? ==>
               && e.at < |log| && log[e.at].thread == e.thread
               && e.reply == ExpectedReply(Register, contents, log, e.at)
               && forall r :: 0 <= r < |history| && history[r].Returned? ==> history[r].at != e.at
    ensures Linearizes(Register, contents, history + [e], log)
  {
  }

  lemma {:induction false} RunKeepsInv(contents: seq<Ptr>, s: State, steps: seq<Step>)
    requires Inv(contents, s) && IsRun(s, steps)
    ensures Inv(contents, End(s, steps))
    decreases |steps|
  {
    if steps != [] {
      match steps[0] {
        case Invoke(_, _) => InvokeKeepsInv(contents, s, steps[0]);
        case Acquire(_) => AcquireKeepsInv(contents, s, steps[0]);
        case Work(_) => WorkKeepsInv(contents, s, steps[0]);
        case Release(_) => ReleaseKeepsInv(contents, s, steps[0]);
      }
      RunKeepsInv(contents, After(s, steps[0]), steps[1..]);
    }
  }

  lemma InitFits(contents: seq<Ptr>, s: State)
    requires IsInit(contents, s)
    ensures Inv(contents, s)
  {
    assert Linearizes(Register, contents, [], []);
    forall i | 0 <= i < |s.threads|
      ensures ThreadFits(contents, s, i)
    {
      assert s.threads[i] == Idle;
    }
    forall c | 0 <= c < |s.cells|
      ensures CellFits(contents, s, c)
    {
      assert Replay(Register, contents, [], c) == contents[c];
    }
  }

  /** Every interleaving of any number of threads is linearizable, in the order in which the calls
      took their locks, to sequential registers. */
  lemma EveryRunIsLinearizable(contents: seq<Ptr>, s: State, steps: seq<Step>)
    requires IsInit(contents, s) && IsRun(s, steps)
    ensures Linearizes(Register, contents, End(s, steps).history, End(s, steps).log)
  {
    InitFits(contents, s);
    RunKeepsInv(contents, s, steps);
  }
}
