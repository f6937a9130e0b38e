/** Copies between atomic pointers: a load from one cell, then a store into another. */
module AtomicCopies {
  import opened Options
  import opened Runs
  import opened AtomicSharedPtrs

  // ---------- what can go wrong ----------

  /** Thread `i` is taking the lock for the store half of a copy, and its source no longer holds the
      value it is about to store. */
  predicate Stale(s: State, i: nat) {
    && i < |s.threads| && s.threads[i].Entering?
    && var call := s.threads[i].call;
       && call.role.CopyFrom? && call.op.Store?
       && Enabled(s, Acquire(i))
       && call.role.there < |s.cells| && s.cells[call.role.there].content != call.op.v
  }

  /** Only `writers` call anything but loads, and only `copiers` copy. */
  predicate AllowedBy(steps: seq<Step>, writers: set<nat>, copiers: set<nat>) {
    forall k :: 0 <= k < |steps| && steps[k].Invoke? ==>
      && (steps[k].call.role.CopyTo? ==> steps[k].i in copiers)
      && (!steps[k].call.op.Load? ==> steps[k].i in writers)
  }

  // ---------- when it cannot ----------

  /** No copy is under way. */
  predicate NoCopies(s: State) {
    forall i :: 0 <= i < |s.threads| && !s.threads[i].Idle? ==> s.threads[i].call.role.Alone?
  }

  lemma {:induction false} NoCopiesInRun(s: State, steps: seq<Step>)
    requires NoCopies(s) && IsRun(s, steps)
    requires |s.cells| <= 1 || forall k :: 0 <= k < |steps| && steps[k].Invoke? ==> !steps[k].call.role.CopyTo?
    ensures NoCopies(End(s, steps))
    decreases |steps|
  {
    if steps != [] {
      NoCopiesInRun(After(s, steps[0]), steps[1..]);
    }
  }

  /** Whatever is under way and may change a cell belongs to a thread of `busy`. */
  predicate ChangesBy(s: State, busy: set<nat>) {
    forall i :: 0 <= i < |s.threads| && !s.threads[i].Idle? ==>
      (s.threads[i].call.role.Alone? && s.threads[i].call.op.Load?) || i in busy
  }

  /** From its load to its store, thread `i` of a copy carries what the source holds. */
  predicate CarriesSource(s: State, i: nat)
    requires i < |s.threads|
  {
    match s.threads[i]
    case Idle => true
    case Entering(call, _) =>
      && (call.role.CopyTo? ==> call.op.Load?)
      && (call.role.CopyFrom? ==>
            call.op.Store? && call.role.there < |s.cells| && s.cells[call.role.there].content == call.op.v)
    case Inside(call, _, phase) =>
      call.role.CopyTo? ==>
        && call.op.Load?
        && (phase.Finished? ==> call.cell < |s.cells| && phase.reply == Got(s.cells[call.cell].content))
  }

  predicate LoneChanger(s: State, busy: set<nat>) {
    ChangesBy(s, busy) && forall i :: 0 <= i < |s.threads| ==> CarriesSource(s, i)
  }

  lemma OwnStepCarries(s: State, step: Step)
    requires Enabled(s, step) && CarriesSource(s, step.i)
    ensures CarriesSource(After(s, step), step.i)
  {
  }

  /** Only the work of another thread on something else than a load changes a content. */
  lemma OtherStepCarries(s: State, step: Step, i: nat)
    requires Enabled(s, step) && i < |s.threads| && i != step.i && CarriesSource(s, i)
    requires s.threads[i].Idle? || !step.Work? || s.threads[step.i].call.op.Load?
    ensures CarriesSource(After(s, step), i)
  {
    var t := After(s, step);
    assert t.threads[i] == s.threads[i];
    assert !s.threads[i].Idle? ==> forall c :: 0 <= c < |s.cells| ==> t.cells[c].content == s.cells[c].content;
  }

  lemma LoneChangerStep(s: State, step: Step, busy: set<nat>)
    requires LoneChanger(s, busy) && Enabled(s, step)
    requires forall i, j :: i in busy && j in busy ==> i == j
    requires step.Invoke? && (step.call.role.CopyTo? || !step.call.op.Load?) ==> step.i in busy
    ensures LoneChanger(After(s, step), busy)
  {
    var t := After(s, step);
    forall i | 0 <= i < |t.threads|
      ensures CarriesSource(t, i)
    {
      assert CarriesSource(s, i);
      if i == step.i {
        OwnStepCarries(s, step);
      } else if s.threads[i].Idle? || !step.Work? || s.threads[step.i].call.op.Load? {
        OtherStepCarries(s, step, i);
      }
    }
  }

  lemma {:induction false} LoneChangerRun(s: State, steps: seq<Step>, writers: set<nat>, copiers: set<nat>)
    requires LoneChanger(s, writers + copiers) && IsRun(s, steps) && AllowedBy(steps, writers, copiers)
    requires forall i, j :: i in writers + copiers && j in writers + copiers ==> i == j
    ensures LoneChanger(End(s, steps), writers + copiers)
    decreases |steps|
  {
    if steps != [] {
      LoneChangerStep(s, steps[0], writers + copiers);
      LoneChangerRun(After(s, steps[0]), steps[1..], writers, copiers);
    }
  }

  // ---------- when it can ----------

  /** A thread that is about to enter a cell with a load or a store takes the lock, does it and leaves. */
  lemma EntersAndLeaves(s: State, i: nat) returns (steps: seq<Step>)
    requires i < |s.threads| && s.threads[i].Entering? && CallFits(s.threads[i].call, |s.cells|)
    requires s.cells[s.threads[i].call.cell].lockedBy.None?
    requires s.threads[i].call.op.Load? || s.threads[i].call.op.Store?
    ensures IsRun(s, steps) && AllowedBy(steps, {}, {})
    ensures var call := s.threads[i].call;
            var content := if call.op.Load? then s.cells[call.cell].content else call.op.v;
            var t := End(s, steps);
            && t.cells == s.cells[call.cell := Cell(content, None)]
            && |t.threads| == |s.threads|
            && (forall j :: 0 <= j < |t.threads| && j != i ==> t.threads[j] == s.threads[j])
            && if !call.role.CopyTo? then t.threads[i] == Idle
               else
                 && t.threads[i].Entering?
                 && t.threads[i].call == Call(call.role.there, Store(content), CopyFrom(call.cell))
  {
    var s1 := After(s, Acquire(i));
    var s2 := After(s1, Work(i));
    GoCons(Next, s2, Release(i), []);
    GoCons(Next, s1, Work(i), [Release(i)]);
    GoCons(Next, s, Acquire(i), [Work(i)] + [Release(i)]);
    steps := [Acquire(i)] + ([Work(i)] + [Release(i)]);
  }

  /** A whole store into an unlocked cell by an idle thread. */
  lemma Stores(s: State, i: nat, cell: nat, v: Ptr) returns (steps: seq<Step>)
    requires i < |s.threads| && s.threads[i].Idle? && cell < |s.cells| && s.cells[cell].lockedBy.None?
    ensures IsRun(s, steps) && AllowedBy(steps, {i}, {})
    ensures End(s, steps).cells == s.cells[cell := Cell(v, None)] && End(s, steps).threads == s.threads
  {
    var step := Invoke(i, Call(cell, Store(v), Alone));
    var rest := EntersAndLeaves(After(s, step), i);
    GoCons(Next, s, step, rest);
    steps := [step] + rest;
  }

  /** The load half of a copy by an idle thread. */
  lemma LoadsForCopy(s: State, i: nat, a: nat, b: nat) returns (steps: seq<Step>)
    requires i < |s.threads| && s.threads[i].Idle? && a < |s.cells| && b < |s.cells| && a != b
    requires s.cells[a].lockedBy.None?
    ensures IsRun(s, steps) && AllowedBy(steps, {}, {i})
    ensures var t := End(s, steps);
            && t.cells == s.cells
            && |t.threads| == |s.threads|
            && (forall j :: 0 <= j < |t.threads| && j != i ==> t.threads[j] == s.threads[j])
            && t.threads[i].Entering? && t.threads[i].call == Call(b, Store(s.cells[a].content), CopyFrom(a))
  {
    var step := Invoke(i, Call(a, Load, CopyTo(b)));
    var rest := EntersAndLeaves(After(s, step), i);
    GoCons(Next, s, step, rest);
    steps := [step] + rest;
    assert End(s, steps).cells == s.cells;
  }

  /** A copy that nobody disturbs leaves in the target what the source holds, and nothing else changes. */
  lemma CopyAlone(s: State, i: nat, a: nat, b: nat) returns (steps: seq<Step>)
    requires i < |s.threads| && s.threads[i].Idle? && a < |s.cells| && b < |s.cells| && a != b
    requires s.cells[a].lockedBy.None? && s.cells[b].lockedBy.None?
    ensures IsRun(s, steps) && AllowedBy(steps, {}, {i}) && End(s, steps).threads == s.threads
    ensures End(s, steps).cells == s.cells[b := Cell(s.cells[a].content, None)]
  {
    var load := LoadsForCopy(s, i, a, b);
    var store := EntersAndLeaves(End(s, load), i);
    GoOn(Next, s, load, store);
    steps := load + store;
  }

  /** The store half of a copy overwrites whatever came in between. One thread copies cell `a` to cell
      `b` while another stores `w` into `a` and then into `b`: cell `b` ends up with the value `a` had
      before either store. */
  lemma CopyIsNotAtomic(contents: seq<Ptr>, s: State, i: nat, j: nat, a: nat, b: nat, w: Ptr) returns (steps: seq<Step>)
    requires IsInit(contents, s) && i < |s.threads| && j < |s.threads| && i != j
    requires a < |contents| && b < |contents| && a != b
    ensures IsRun(s, steps) && End(s, steps).threads == s.threads
    ensures End(s, steps).cells == s.cells[a := Cell(w, None)][b := Cell(contents[a], None)]
  {
    var load := LoadsForCopy(s, i, a, b);
    var s2 := End(s, load);
    var first := Stores(s2, j, a, w);
    var s3 := End(s2, first);
    var second := Stores(s3, j, b, w);
    var s4 := End(s3, second);
    var store := EntersAndLeaves(s4, i);
    GoOn(Next, s3, second, store);
    GoOn(Next, s2, first, second + store);
    GoOn(Next, s, load, first + (second + store));
    steps := load + (first + (second + store));
    assert End(s, steps).threads[i] == s.threads[i];
  }

  /** With two cells that differ, a copying thread and another that may change its source, by a store
      or by a copy of its own, some run makes the copy stale. */
  lemma GoesStale(contents: seq<Ptr>, s: State, i: nat, j: nat, writers: set<nat>, copiers: set<nat>)
    returns (steps: seq<Step>)
    requires IsInit(contents, s) && |contents| >= 2 && contents[0] != NULL && contents[1] == NULL
    requires i < |s.threads| && j < |s.threads| && i != j
    requires i in copiers && j in writers + copiers
    ensures IsRun(s, steps) && AllowedBy(steps, writers, copiers)
    ensures Stale(End(s, steps), i)
  {
    var load := LoadsForCopy(s, i, 0, 1);
    var s2 := End(s, load);
    var change;
    if j in writers {
      change := Stores(s2, j, 0, NULL);
    } else {
      var other := LoadsForCopy(s2, j, 1, 0);
      var store := EntersAndLeaves(End(s2, other), j);
      GoOn(Next, s2, other, store);
      change := other + store;
    }
    GoOn(Next, s, load, change);
    steps := load + change;
  }

  lemma Starts(contents: seq<Ptr>, threads: nat) returns (s: State)
    ensures IsInit(contents, s) && |s.threads| == threads
  {
    s := State(seq(|contents|, c requires 0 <= c < |contents| => Cell(contents[c], None)),
               seq(threads, _ => Idle), [], []);
  }

  /** No copy ever stores a value its source no longer holds, in any run, exactly when there are no two
      cells, or nobody copies, or no thread besides a single copier changes anything. */
  lemma NeverStaleExactlyWhen(cells: nat, threads: nat, writers: set<nat>, copiers: set<nat>)
    requires forall i :: i in writers + copiers ==> i < threads
    ensures cells <= 1 || copiers == {} || |writers + copiers| <= 1 <==>
            (forall contents: seq<Ptr>, s: State, steps: seq<Step> ::
               |contents| == cells && |s.threads| == threads && IsInit(contents, s) && IsRun(s, steps)
               && AllowedBy(steps, writers, copiers)
               ==> forall i :: !Stale(End(s, steps), i))
  {
    var changers := writers + copiers;
    if cells <= 1 || copiers == {} || |changers| <= 1 {
      forall contents: seq<Ptr>, s: State, steps: seq<Step>, i |
        |contents| == cells && |s.threads| == threads && IsInit(contents, s) && IsRun(s, steps)
        && AllowedBy(steps, writers, copiers)
        ensures !Stale(End(s, steps), i)
      {
        NeverStale(contents, s, steps, writers, copiers, i);
      }
    } else {
      var i :| i in copiers;
      assert |changers - {i}| == |changers| - 1;
      var j :| j in changers - {i};
      var contents := [Ptr(1, 1)] + seq(cells - 1, _ => NULL);
      var s := Starts(contents, threads);
      var steps := GoesStale(contents, s, i, j, writers, copiers);
    }
  }

  lemma NeverStale(contents: seq<Ptr>, s: State, steps: seq<Step>, writers: set<nat>, copiers: set<nat>, i: nat)
    requires IsInit(contents, s) && IsRun(s, steps) && AllowedBy(steps, writers, copiers)
    requires |contents| <= 1 || copiers == {} || |writers + copiers| <= 1
    ensures !Stale(End(s, steps), i)
  {
    if |contents| <= 1 || copiers == {} {
      NoCopiesInRun(s, steps);
    } else {
      forall j, k | j in writers + copiers && k in writers + copiers
        ensures j == k
      {
        assert |(writers + copiers) - {j}| == |writers + copiers| - 1;
      }
      LoneChangerRun(s, steps, writers, copiers);
      assert i < |End(s, steps).threads| ==> CarriesSource(End(s, steps), i);
    }
  }
}
