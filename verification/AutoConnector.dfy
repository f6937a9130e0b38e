/** `AutoConnector`: a polling loop that asks inactive units to connect, each at its own interval. */
module AutoConnectors {

  const NANOS_PER_MILLI := 1_000_000

  /** `TimeSpan::ToMiliSeconds`: the cast truncates towards zero. */
  function ToMilliSeconds(nanos: int): int {
    if nanos >= 0 then nanos / NANOS_PER_MILLI else -(-nanos / NANOS_PER_MILLI)
  }

  /** What one turn of the loop finds at one unit: its flags, and the clock when it is asked. */
  datatype Look = Look(active: bool, connected: bool, now: int)

  /** What the loop does to a unit: when it last tried to connect (or was registered), every connect
      request so far, and how many disconnect requests. */
  datatype Progress = Progress(timepoint: int, requests: seq<int>, disconnects: nat)

  function Poll(p: Progress, interval: int, look: Look): Progress {
    if look.active then
      if look.connected then p else p.(disconnects := p.disconnects + 1)
    else if ToMilliSeconds(look.now - p.timepoint) >= interval then
      p.(timepoint := look.now, requests := p.requests + [look.now])
    else p
  }

  function Polled(p: Progress, interval: int, looks: seq<Look>): Progress {
    if looks == [] then p
    else Poll(Polled(p, interval, looks[..|looks| - 1]), interval, looks[|looks| - 1])
  }

  // ---------- the code ----------

  class ConnectUnit {
    const interval: int
    var timepoint: int
    // What the unit's NetUnit has been asked to do.
    var requests: seq<int>
    var disconnects: nat

    function State(): Progress
      reads this
    {
      Progress(timepoint, requests, disconnects)
    }

    constructor (interval: int, now: int)
      ensures this.interval == interval && State() == Progress(now, [], 0)
    {
      this.interval := interval;
      timepoint, requests, disconnects := now, [], 0;
    }

    method CheckConnection(active: bool, connected: bool) returns (skip: bool)
      modifies this`disconnects
      ensures skip == active
      ensures disconnects == old(disconnects) + if active && !connected then 1 else 0
    {
      if active {
        if !connected {
          disconnects := disconnects + 1;
        }
        return true;
      }
      return false;
    }

    method TryConnect(now: int)
      modifies this`timepoint, this`requests
      ensures State() == Poll(old(State()), interval, Look(false, false, now))
    {
      var elapsed := now - timepoint;
      if ToMilliSeconds(elapsed) >= interval {
        timepoint := now;
        requests := requests + [now];
      }
    }
  }

  class AutoConnector {
    var connectList: seq<ConnectUnit>

    predicate Valid()
      reads this
    {
      forall i, j :: 0 <= i < j < |connectList| ==> connectList[i] != connectList[j]
    }

    constructor ()
      ensures Valid() && connectList == []
    {
      connectList := [];
    }

    /** A unit starts its first interval when it is registered. */
    method Register(interval: int, now: int)
      requires Valid()
      modifies this
      ensures Valid() && |connectList| == |old(connectList)| + 1
      ensures connectList[..|old(connectList)|] == old(connectList) && fresh(connectList[|old(connectList)|])
      ensures connectList[|old(connectList)|].interval == interval
      ensures connectList[|old(connectList)|].State() == Progress(now, [], 0)
    {
      var unit := new ConnectUnit(interval, now);
      connectList := connectList + [unit];
    }

    /** One turn of the loop: `looks[u]` is what it finds at unit `u`. */
    method Turn(looks: seq<Look>)
      requires Valid() && |looks| == |connectList|
      modifies connectList
      ensures forall u :: 0 <= u < |connectList| ==>
                connectList[u].State() == Poll(old(connectList[u].State()), connectList[u].interval, looks[u])
      ensures forall u :: 0 <= u < |connectList| && looks[u].active ==>
                && connectList[u].requests == old(connectList[u].requests)
                && connectList[u].timepoint == old(connectList[u].timepoint)
      ensures forall u :: 0 <= u < |connectList| ==>
                connectList[u].disconnects
                == old(connectList[u].disconnects) + if looks[u].active && !looks[u].connected then 1 else 0
      ensures forall u :: 0 <= u < |connectList| && connectList[u].requests != old(connectList[u].requests) ==>
                && connectList[u].requests == old(connectList[u].requests) + [looks[u].now]
                && connectList[u].timepoint == looks[u].now
    {
      for i := 0 to |connectList|
        invariant forall u :: 0 <= u < |connectList| ==>
                    connectList[u].State()
                    == if u < i then Poll(old(connectList[u].State()), connectList[u].interval, looks[u])
                       else old(connectList[u].State())
      {
        var conn := connectList[i];
        var skip := conn.CheckConnection(looks[i].active, looks[i].connected);
        if skip {
          continue;
        }
        conn.TryConnect(looks[i].now);
      }
    }

    /** The loop, for as many turns as it is let run. `trace[k][u]` is what turn `k` finds at unit `u`. */
    method Run(trace: seq<seq<Look>>)
      requires Valid()
      requires forall k :: 0 <= k < |trace| ==> |trace[k]| == |connectList|
      modifies connectList
      ensures forall u :: 0 <= u < |connectList| ==>
                connectList[u].State() == Polled(old(connectList[u].State()), connectList[u].interval, Column(trace, u))
      ensures forall u :: 0 <= u < |connectList| ==>
                RequestedAtInactiveLooks(old(connectList[u].State()), connectList[u].State(), Column(trace, u))
    {
      for k := 0 to |trace|
        invariant forall u :: 0 <= u < |connectList| ==>
                    connectList[u].State()
                    == Polled(old(connectList[u].State()), connectList[u].interval, Column(trace[..k], u))
      {
        Turn(trace[k]);
        forall u | 0 <= u < |connectList|
          ensures Column(trace[..k + 1], u)[..k] == Column(trace[..k], u)
          ensures Column(trace[..k + 1], u)[k] == trace[k][u]
        {
        }
      }
      assert trace[..|trace|] == trace;
      forall u | 0 <= u < |connectList|
        ensures RequestedAtInactiveLooks(old(connectList[u].State()), connectList[u].State(), Column(trace, u))
      {
        RequestsComeFromLooks(old(connectList[u].State()), connectList[u].interval, Column(trace, u));
      }
    }
  }

  /** The looks at one unit. */
  function Column(trace: seq<seq<Look>>, u: nat): (c: seq<Look>)
    requires forall k :: 0 <= k < |trace| ==> u < |trace[k]|
    ensures |c| == |trace|
  {
    seq(|trace|, k requires 0 <= k < |trace| => trace[k][u])
  }

  // ---------- where requests come from ----------

  /** The requests made since `before` are the clock values of the looks at places `at`, in that order,
      and each of these found the unit inactive. */
  predicate MadeAt(before: seq<int>, after: seq<int>, looks: seq<Look>, at: seq<nat>) {
    && |after| == |before| + |at| && after[..|before|] == before
    && (forall j, k :: 0 <= j < k < |at| ==> at[j] < at[k])
    && forall k :: 0 <= k < |at| ==>
         at[k] < |looks| && !looks[at[k]].active && after[|before| + k] == looks[at[k]].now
  }

  /** Every request since `before` was made at a look of its own that found the unit inactive; and the
      time point has moved only if there was one, to the latest of them. */
  ghost predicate RequestedAtInactiveLooks(before: Progress, after: Progress, looks: seq<Look>) {
    && (exists at: seq<nat> :: MadeAt(before.requests, after.requests, looks, at))
    && (after.timepoint != before.timepoint ==>
          && |after.requests| > |before.requests|
          && after.timepoint == after.requests[|after.requests| - 1])
  }

  lemma {:induction false} PlacesOfRequests(p: Progress, interval: int, looks: seq<Look>) returns (at: seq<nat>)
    ensures var q := Polled(p, interval, looks);
            && MadeAt(p.requests, q.requests, looks, at)
            && q.timepoint == if at == [] then p.timepoint else q.requests[|q.requests| - 1]
    decreases |looks|
  {
    if looks == [] {
      return [];
    }
    var last := |looks| - 1;
    at := PlacesOfRequests(p, interval, looks[..last]);
    if Polled(p, interval, looks).requests != Polled(p, interval, looks[..last]).requests {
      at := at + [last];
    }
  }

  lemma RequestsComeFromLooks(p: Progress, interval: int, looks: seq<Look>)
    ensures RequestedAtInactiveLooks(p, Polled(p, interval, looks), looks)
  {
    var at := PlacesOfRequests(p, interval, looks);
  }

  /** Looks at an active unit leave its requests and its time point alone, however many there are. */
  lemma {:induction false} ActiveUnitsAreLeftAlone(p: Progress, interval: int, looks: seq<Look>)
    requires forall k :: 0 <= k < |looks| ==> looks[k].active
    ensures var q := Polled(p, interval, looks); q.requests == p.requests && q.timepoint == p.timepoint
  {
    if looks != [] {
      ActiveUnitsAreLeftAlone(p, interval, looks[..|looks| - 1]);
    }
  }

  /** Truncation towards zero: a millisecond counts when it is complete, on either side of zero. */
  lemma WholeMilliSeconds(nanos: int)
    ensures ToMilliSeconds(-nanos) == -ToMilliSeconds(nanos)
    ensures nanos >= 0 ==> 0 <= nanos - ToMilliSeconds(nanos) * NANOS_PER_MILLI < NANOS_PER_MILLI
  {
  }

  // ---------- spacing ----------

  /** The clock never goes back, from `start` through all looks. */
  predicate NonDecreasing(start: int, looks: seq<Look>) {
    && (looks != [] ==> start <= looks[0].now)
    && forall k :: 0 < k < |looks| ==> looks[k - 1].now <= looks[k].now
  }

  /** The time of the `k`-th request, with the registration counted as number 0. */
  function Mark(start: int, requests: seq<int>, k: nat): int
    requires k <= |requests|
  {
    if k == 0 then start else requests[k - 1]
  }

  lemma MarksBefore(start: int, requests: seq<int>, next: int)
    ensures forall k :: 0 <= k <= |requests| ==> Mark(start, requests + [next], k) == Mark(start, requests, k)
  {
  }

  /** The unit's time point is the time of its latest request. */
  lemma {:induction false} TimepointIsLastMark(start: int, interval: int, looks: seq<Look>)
    ensures var p := Polled(Progress(start, [], 0), interval, looks);
            p.timepoint == Mark(start, p.requests, |p.requests|)
    decreases |looks|
  {
    if looks != [] {
      TimepointIsLastMark(start, interval, looks[..|looks| - 1]);
    }
  }

  lemma EnoughMilliSeconds(elapsed: int, interval: int)
    requires interval >= 1 || elapsed >= 0
    ensures ToMilliSeconds(elapsed) >= interval ==> elapsed >= interval * NANOS_PER_MILLI
    ensures interval >= 1 && ToMilliSeconds(elapsed) < interval ==> elapsed < interval * NANOS_PER_MILLI
  {
  }

  /** No look happens before the time point when the clock does not go back. */
  lemma {:induction false} ClockPassesTimepoint(start: int, interval: int, looks: seq<Look>)
    requires NonDecreasing(start, looks)
    ensures var p := Polled(Progress(start, [], 0), interval, looks);
            start <= p.timepoint <= if looks == [] then start else looks[|looks| - 1].now
    decreases |looks|
  {
    if looks != [] {
      ClockPassesTimepoint(start, interval, looks[..|looks| - 1]);
    }
  }

  /** Two consecutive requests, and registration and the first one, are at least the interval apart.
      With a positive interval this holds whatever the clock does; with none, as long as it does not go back. */
  lemma {:induction false} RequestsAreSpaced(start: int, interval: int, looks: seq<Look>)
    requires interval >= 1 || NonDecreasing(start, looks)
    ensures var p := Polled(Progress(start, [], 0), interval, looks);
            forall k :: 0 <= k < |p.requests| ==>
              p.requests[k] - Mark(start, p.requests, k) >= interval * NANOS_PER_MILLI
    decreases |looks|
  {
    if looks != [] {
      var last := |looks| - 1;
      var before := Polled(Progress(start, [], 0), interval, looks[..last]);
      RequestsAreSpaced(start, interval, looks[..last]);
      TimepointIsLastMark(start, interval, looks[..last]);
      if interval < 1 {
        ClockPassesTimepoint(start, interval, looks[..last]);
        assert before.timepoint <= looks[last].now;
      }
      EnoughMilliSeconds(looks[last].now - before.timepoint, interval);
      MarksBefore(start, before.requests, looks[last].now);
      assert Polled(Progress(start, [], 0), interval, looks) == Poll(before, interval, looks[last]);
    }
  }

  /** So `m` gaps span at least `m` intervals. */
  lemma {:induction false} GapsAddUp(start: int, interval: int, looks: seq<Look>, i: nat, j: nat)
    requires interval >= 1 || NonDecreasing(start, looks)
    requires i <= j <= |Polled(Progress(start, [], 0), interval, looks).requests|
    ensures var requests := Polled(Progress(start, [], 0), interval, looks).requests;
            Mark(start, requests, j) - Mark(start, requests, i) >= (j - i) * (interval * NANOS_PER_MILLI)
    decreases j - i
  {
    if i < j {
      GapsAddUp(start, interval, looks, i, j - 1);
      RequestsAreSpaced(start, interval, looks);
      var gap := interval * NANOS_PER_MILLI;
      assert (j - i) * gap == (j - 1 - i) * gap + gap;
    }
  }

  /** The unit stays inactive, and the clock advances by at most `d` from look to look. */
  predicate KeptTrying(start: int, looks: seq<Look>, d: int) {
    && (forall k :: 0 <= k < |looks| ==> !looks[k].active)
    && (looks != [] ==> start <= looks[0].now <= start + d)
    && forall k :: 0 < k < |looks| ==> looks[k - 1].now <= looks[k].now <= looks[k - 1].now + d
  }

  function LastLook(start: int, looks: seq<Look>): int {
    if looks == [] then start else looks[|looks| - 1].now
  }

  /** Then two consecutive requests are less than interval + `d` apart, and so is now from the latest:
      in fact less than an interval. */
  lemma {:induction false} RequestsAreNotLate(start: int, interval: int, looks: seq<Look>, d: int)
    requires interval >= 1 && d >= 0 && KeptTrying(start, looks, d)
    ensures var p := Polled(Progress(start, [], 0), interval, looks);
            && 0 <= LastLook(start, looks) - p.timepoint < interval * NANOS_PER_MILLI
            && forall k :: 0 <= k < |p.requests| ==>
                 p.requests[k] - Mark(start, p.requests, k) < interval * NANOS_PER_MILLI + d
    decreases |looks|
  {
    if looks != [] {
      var last := |looks| - 1;
      var before := Polled(Progress(start, [], 0), interval, looks[..last]);
      assert LastLook(start, looks[..last]) <= looks[last].now <= LastLook(start, looks[..last]) + d;
      RequestsAreNotLate(start, interval, looks[..last], d);
      TimepointIsLastMark(start, interval, looks[..last]);
      EnoughMilliSeconds(looks[last].now - before.timepoint, interval);
      MarksBefore(start, before.requests, looks[last].now);
    }
  }

  lemma {:induction false} LateGapsAddUp(start: int, interval: int, looks: seq<Look>, d: int, j: nat)
    requires interval >= 1 && d >= 0 && KeptTrying(start, looks, d)
    requires j <= |Polled(Progress(start, [], 0), interval, looks).requests|
    ensures var requests := Polled(Progress(start, [], 0), interval, looks).requests;
            Mark(start, requests, j) - start <= j * (interval * NANOS_PER_MILLI + d)
    decreases j
  {
    if j > 0 {
      LateGapsAddUp(start, interval, looks, d, j - 1);
      RequestsAreNotLate(start, interval, looks, d);
      var gap := interval * NANOS_PER_MILLI + d;
      assert j * gap == (j - 1) * gap + gap;
    }
  }

  /** How often a unit that stays inactive is asked: the time since its registration lies between
      `n` intervals and `n + 1` intervals each stretched by one delay of the loop. */
  lemma RequestRate(start: int, interval: int, looks: seq<Look>, d: int)
    requires interval >= 1 && d >= 0 && KeptTrying(start, looks, d)
    ensures var n := |Polled(Progress(start, [], 0), interval, looks).requests|;
            n * (interval * NANOS_PER_MILLI) <= LastLook(start, looks) - start
            < (n + 1) * (interval * NANOS_PER_MILLI + d)
  {
    var p := Polled(Progress(start, [], 0), interval, looks);
    var n := |p.requests|;
    GapsAddUp(start, interval, looks, 0, n);
    LateGapsAddUp(start, interval, looks, d, n);
    RequestsAreNotLate(start, interval, looks, d);
    TimepointIsLastMark(start, interval, looks);
    OneGapMore(n, interval * NANOS_PER_MILLI + d, p.timepoint - start, LastLook(start, looks) - p.timepoint);
  }

  lemma OneGapMore(n: nat, gap: int, a: int, b: int)
    requires a <= n * gap && b < gap
    ensures a + b < (n + 1) * gap
  {
  }
}
