/** The compare-exchange of the code against that of the standard, over every run. */
module CompareExchanges {
  import opened Options
  import opened Runs
  import opened AtomicSharedPtrs

  /** The rule of the Concurrency TS (ISO/IEC TS 19571, clause 4): the comparison is of equivalent
      pointers, which have the same address and share ownership or are both empty (control block 0),
      and `expected` is written on failure only. */
  function StandardRegister(content: Ptr, op: Op): (r: (Ptr, Reply)) {
    match op
    case CompareExchange(expected, v) =>
      if content == expected then (v, Compared(true, expected)) else (content, Compared(false, content))
    case _ => Register(content, op)
  }

  /** The call at place `at` finds the expected address but either not the expected owner, or a new
      pointer to put there that is not the expected one. */
  predicate Diverges(contents: seq<Ptr>, log: seq<Entry>, at: nat)
    requires at < |log| && log[at].cell < |contents|
  {
    var content, op := Replay(Register, contents, log[..at], log[at].cell), log[at].op;
    && op.CompareExchange?
    && content.raw == op.expected.raw
    && (content.control != op.expected.control || op.v != op.expected)
  }

  // ---------- every call of the log has returned or is under way ----------

  predicate IsReturned(history: seq<Event>, at: nat) {
    exists r :: 0 <= r < |history| && history[r].Returned? && history[r].at == at
  }

  predicate UnderWay(s: State, at: nat)
    requires at < |s.log|
  {
    var i := s.log[at].thread;
    i < |s.threads| && s.threads[i].Inside? && s.threads[i].at == at
  }

  predicate Accounted(s: State) {
    forall at :: 0 <= at < |s.log| ==> IsReturned(s.history, at) || UnderWay(s, at)
  }

  lemma StepKeepsAccounted(s: State, step: Step)
    requires Accounted(s) && Enabled(s, step)
    ensures Accounted(After(s, step))
  {
    var t := After(s, step);
    forall at | 0 <= at < |t.log|
      ensures IsReturned(t.history, at) || UnderWay(t, at)
    {
      if at < |s.log| {
        assert t.log[at] == s.log[at];
        if IsReturned(s.history, at) {
          var r :| 0 <= r < |s.history| && s.history[r].Returned? && s.history[r].at == at;
          assert t.history[r] == s.history[r];
        } else if s.log[at].thread == step.i && step.Release? {
          assert t.history[|s.history|].at == at;
        }
      }
    }
  }

  lemma {:induction false} RunKeepsAccounted(s: State, steps: seq<Step>)
    requires Accounted(s) && IsRun(s, steps)
    ensures Accounted(End(s, steps))
    decreases |steps|
  {
    if steps != [] {
      StepKeepsAccounted(s, steps[0]);
      RunKeepsAccounted(After(s, steps[0]), steps[1..]);
    }
  }

  /** A call that another one followed on the same cell has returned. */
  lemma EarlierReturned(contents: seq<Ptr>, s: State, j: nat, k: nat)
    requires Inv(contents, s) && Accounted(s)
    requires j < k < |s.log| && s.log[j].cell == s.log[k].cell
    ensures IsReturned(s.history, j)
  {
    var i := s.log[j].thread;
    assert i < |s.threads| ==> ThreadFits(contents, s, i);
  }

  // ---------- the two rules side by side ----------

  /** As long as no call on a cell diverges, both rules leave the same in it. */
  lemma {:induction false} SameUpTo(contents: seq<Ptr>, log: seq<Entry>, upTo: nat, cell: nat)
    requires cell < |contents| && upTo <= |log|
    requires forall j :: 0 <= j < upTo && log[j].cell == cell ==> !Diverges(contents, log, j)
    ensures Replay(StandardRegister, contents, log[..upTo], cell) == Replay(Register, contents, log[..upTo], cell)
  {
    if upTo > 0 {
      SameUpTo(contents, log, upTo - 1, cell);
      assert log[..upTo][..upTo - 1] == log[..upTo - 1];
    }
  }

  /** Replies that follow both rules come from calls that do not diverge. */
  lemma {:induction false} NoneDiverges(contents: seq<Ptr>, s: State, at: nat)
    requires Inv(contents, s) && Accounted(s)
    requires Linearizes(StandardRegister, contents, s.history, s.log)
    requires at < |s.log| && IsReturned(s.history, at)
    ensures !Diverges(contents, s.log, at)
    decreases at
  {
    var cell := s.log[at].cell;
    forall j | 0 <= j < at && s.log[j].cell == cell
      ensures !Diverges(contents, s.log, j)
    {
      EarlierReturned(contents, s, j, at);
      NoneDiverges(contents, s, j);
    }
    SameUpTo(contents, s.log, at, cell);
    var r :| 0 <= r < |s.history| && s.history[r].Returned? && s.history[r].at == at;
    assert s.history[r].reply == ExpectedReply(Register, contents, s.log, at);
    assert s.history[r].reply == ExpectedReply(StandardRegister, contents, s.log, at);
  }

  /** A run of the code, linearized in lock order, is also a run of standard registers exactly when
      none of its finished calls diverges. One that does is seen in its own reply. */
  lemma StandardExactlyWhen(contents: seq<Ptr>, s: State, steps: seq<Step>)
    requires IsInit(contents, s) && IsRun(s, steps)
    ensures var t := End(s, steps);
            && Linearizes(Register, contents, t.history, t.log)
            && (Linearizes(StandardRegister, contents, t.history, t.log) <==>
                forall r :: 0 <= r < |t.history| && t.history[r].Returned? ==>
                  !Diverges(contents, t.log, t.history[r].at))
  {
    var t := End(s, steps);
    InitFits(contents, s);
    RunKeepsInv(contents, s, steps);
    RunKeepsAccounted(s, steps);
    if Linearizes(StandardRegister, contents, t.history, t.log) {
      forall r | 0 <= r < |t.history| && t.history[r].Returned?
        ensures !Diverges(contents, t.log, t.history[r].at)
      {
        NoneDiverges(contents, t, t.history[r].at);
      }
    } else if forall r :: 0 <= r < |t.history| && t.history[r].Returned?
                 ==> !Diverges(contents, t.log, t.history[r].at) {
      forall r | 0 <= r < |t.history| && t.history[r].Returned?
        ensures t.history[r].reply == ExpectedReply(StandardRegister, contents, t.log, t.history[r].at)
      {
        SameReply(contents, t, r);
      }
    }
  }

  lemma SameReply(contents: seq<Ptr>, s: State, r: nat)
    requires Inv(contents, s) && Accounted(s)
    requires r < |s.history| && s.history[r].Returned?
    requires forall q :: 0 <= q < |s.history| && s.history[q].Returned? ==> !Diverges(contents, s.log, s.history[q].at)
    ensures s.history[r].reply == ExpectedReply(StandardRegister, contents, s.log, s.history[r].at)
  {
    var at := s.history[r].at;
    var cell := s.log[at].cell;
    forall j | 0 <= j < at && s.log[j].cell == cell
      ensures !Diverges(contents, s.log, j)
    {
      EarlierReturned(contents, s, j, at);
    }
    SameUpTo(contents, s.log, at, cell);
  }
}
