/** The offline tracker of a camera: it forgets old outages as it goes, and still decides as
    if it remembered them all.
 */
module Offline {
  import opened Prelude

  datatype Transition = WentOffline | WentOnline

  datatype Thresholds = Thresholds(offlineTimeout: nat, retryOutage: nat, retryCount: nat, retryWindow: nat)

  function Recent(starts: seq<nat>, window: nat, now: nat): seq<nat> {
    if starts == [] then []
    else
      var rest := Recent(starts[1..], window, now);
      if Elapsed(starts[0], now) <= window then [starts[0]] + rest else rest
  }

  /** The variables of a tracker; or those of one that never forgets. */
  datatype Tracked = Tracked(outageStarts: seq<nat>, outageStartedAt: Option<nat>, offline: bool)

  const FRESH := Tracked([], None, false)

  datatype Call = Started(now: nat) | Recovered(now: nat) | Evaluate(now: nat)

  // ---------------------------------------------------------------------------
  // The tracker
  // ---------------------------------------------------------------------------

  datatype Stepped = Stepped(state: Tracked, out: Option<Transition>)

  function Prune(th: Thresholds, s: Tracked, now: nat): Tracked {
    s.(outageStarts := Recent(s.outageStarts, th.retryWindow, now))
  }

  /** A recovery ends the outage; only a long one is remembered. */
  function EndOutage(th: Thresholds, s: Tracked, now: nat): Tracked {
    var long := s.outageStartedAt.Some? && Elapsed(s.outageStartedAt.value, now) >= th.retryOutage;
    s.(outageStarts := if long then s.outageStarts + [s.outageStartedAt.value] else s.outageStarts,
       outageStartedAt := None)
  }

  predicate Continuous(th: Thresholds, s: Tracked, now: nat) {
    s.outageStartedAt.Some? && Elapsed(s.outageStartedAt.value, now) >= th.offlineTimeout
  }

  function Step(th: Thresholds, s: Tracked, c: Call): Stepped {
    match c
    case Started(now) =>
      Stepped(if s.outageStartedAt.None? then s.(outageStartedAt := Some(now)) else s, None)
    case Recovered(now) =>
      var t := Prune(th, EndOutage(th, s, now), now);
      if t.offline then Stepped(t.(offline := false), Some(WentOnline)) else Stepped(t, None)
    case Evaluate(now) =>
      var t := Prune(th, s, now);
      if (Continuous(th, t, now) || |t.outageStarts| >= th.retryCount) && !t.offline
      then Stepped(t.(offline := true), Some(WentOffline))
      else Stepped(t, None)
  }

  class OfflineTracker {
    const th: Thresholds
    var outageStarts: seq<nat>
    var outageStartedAt: Option<nat>
    var offline: bool

    function State(): Tracked
      reads this
    {
      Tracked(outageStarts, outageStartedAt, offline)
    }

    constructor (th: Thresholds)
      ensures this.th == th && State() == FRESH
    {
      this.th := th;
      outageStarts, outageStartedAt, offline := [], None, false;
    }

    method OnOutageStarted(now: nat)
      modifies this
      ensures State() == Step(th, old(State()), Started(now)).state
    {
      if outageStartedAt.None? {
        outageStartedAt := Some(now);
      }
    }

    method OnOutageRecovered(now: nat) returns (out: Option<Transition>)
      modifies this
      ensures Stepped(State(), out) == Step(th, old(State()), Recovered(now))
    {
      if outageStartedAt.Some? {
        var started := outageStartedAt.value;
        outageStartedAt := None;
        if Elapsed(started, now) >= th.retryOutage {
          outageStarts := outageStarts + [started];
        }
      }
      PruneStarts(now);
      if offline {
        offline := false;
        return Some(WentOnline);
      }
      out := None;
    }

    method Evaluate(now: nat) returns (out: Option<Transition>)
      modifies this
      ensures Stepped(State(), out) == Step(th, old(State()), Call.Evaluate(now))
    {
      PruneStarts(now);
      var continuous := outageStartedAt.Some? && Elapsed(outageStartedAt.value, now) >= th.offlineTimeout;
      var burst := |outageStarts| >= th.retryCount;
      if (continuous || burst) && !offline {
        offline := true;
        return Some(WentOffline);
      }
      out := None;
    }

    method PruneStarts(now: nat)
      modifies this
      ensures State() == Prune(th, old(State()), now)
    {
      var kept: seq<nat> := [];
      var i := 0;
      while i < |outageStarts|
        modifies {}
        invariant i <= |outageStarts|
        invariant Recent(outageStarts, th.retryWindow, now) == kept + Recent(outageStarts[i..], th.retryWindow, now)
      {
        assert outageStarts[i..][1..] == outageStarts[i + 1..];
        if Elapsed(outageStarts[i], now) <= th.retryWindow {
          kept := kept + [outageStarts[i]];
        }
        i := i + 1;
      }
      outageStarts := kept;
    }
  }

  // ---------------------------------------------------------------------------
  // Forgetting does not matter
  // ---------------------------------------------------------------------------

  /** The same tracker without pruning: it counts the recent ones among all long outages. */
  function FullStep(th: Thresholds, s: Tracked, c: Call): Stepped {
    match c
    case Started(now) =>
      Stepped(if s.outageStartedAt.None? then s.(outageStartedAt := Some(now)) else s, None)
    case Recovered(now) =>
      var t := EndOutage(th, s, now);
      if t.offline then Stepped(t.(offline := false), Some(WentOnline)) else Stepped(t, None)
    case Evaluate(now) =>
      if (Continuous(th, s, now) || |Recent(s.outageStarts, th.retryWindow, now)| >= th.retryCount) && !s.offline
      then Stepped(s.(offline := true), Some(WentOffline))
      else Stepped(s, None)
  }

  /** A whole trace: the state at its end and the transitions on the way. */
  datatype Ran = Ran(state: Tracked, out: seq<Transition>)

  function After(r: Ran, s: Stepped): Ran {
    Ran(s.state, if s.out.Some? then r.out + [s.out.value] else r.out)
  }

  function Run(th: Thresholds, calls: seq<Call>): Ran {
    if calls == [] then Ran(FRESH, [])
    else
      var before := Run(th, calls[..|calls| - 1]);
      After(before, Step(th, before.state, calls[|calls| - 1]))
  }

  function FullRun(th: Thresholds, calls: seq<Call>): Ran {
    if calls == [] then Ran(FRESH, [])
    else
      var before := FullRun(th, calls[..|calls| - 1]);
      After(before, FullStep(th, before.state, calls[|calls| - 1]))
  }

  ghost predicate ClockRuns(calls: seq<Call>) {
    forall i, j :: 0 <= i < j < |calls| ==> calls[i].now <= calls[j].now
  }

  lemma RecentCons(s: nat, rest: seq<nat>, window: nat, now: nat)
    ensures Recent([s] + rest, window, now)
         == if Elapsed(s, now) <= window then [s] + Recent(rest, window, now) else Recent(rest, window, now)
  {
    assert ([s] + rest)[1..] == rest;
  }

  /** What is recent later was recent before. */
  lemma {:induction false} RecentTwice(starts: seq<nat>, window: nat, t: nat, now: nat)
    requires t <= now
    ensures Recent(Recent(starts, window, t), window, now) == Recent(starts, window, now)
    decreases |starts|
  {
    if starts != [] {
      RecentTwice(starts[1..], window, t, now);
      RecentCons(starts[0], Recent(starts[1..], window, t), window, now);
    }
  }

  lemma {:induction false} RecentSnoc(starts: seq<nat>, s: nat, window: nat, now: nat)
    ensures Recent(starts + [s], window, now)
         == if Elapsed(s, now) <= window then Recent(starts, window, now) + [s] else Recent(starts, window, now)
    decreases |starts|
  {
    if starts == [] {
      assert [] + [s] == [s] + [];
      RecentCons(s, [], window, now);
    } else {
      hide Elapsed;
      assert starts + [s] == [starts[0]] + (starts[1..] + [s]);
      RecentCons(starts[0], starts[1..] + [s], window, now);
      RecentSnoc(starts[1..], s, window, now);
    }
  }

  /** The pruned list holds what matters from some moment `t` on: everything that is recent
      at any later moment. */
  ghost predicate Agrees(th: Thresholds, pruned: Tracked, full: Tracked, t: nat) {
    && pruned.outageStartedAt == full.outageStartedAt && pruned.offline == full.offline
    && forall now: nat :: t <= now ==>
         Recent(pruned.outageStarts, th.retryWindow, now) == Recent(full.outageStarts, th.retryWindow, now)
  }

  lemma PruneAgrees(th: Thresholds, pruned: Tracked, full: Tracked, t: nat, now: nat)
    requires Agrees(th, pruned, full, t) && t <= now
    ensures Agrees(th, Prune(th, pruned, now), full, now)
    ensures Prune(th, pruned, now).outageStarts == Recent(full.outageStarts, th.retryWindow, now)
  {
    forall later: nat | now <= later
      ensures Recent(Prune(th, pruned, now).outageStarts, th.retryWindow, later)
           == Recent(full.outageStarts, th.retryWindow, later)
    {
      RecentTwice(pruned.outageStarts, th.retryWindow, now, later);
    }
  }

  lemma EndOutageAgrees(th: Thresholds, pruned: Tracked, full: Tracked, t: nat, now: nat)
    requires Agrees(th, pruned, full, t)
    ensures Agrees(th, EndOutage(th, pruned, now), EndOutage(th, full, now), t)
  {
    hide Recent;
    if pruned.outageStartedAt.Some? {
      var s := pruned.outageStartedAt.value;
      forall later: nat | t <= later
        ensures Recent(pruned.outageStarts + [s], th.retryWindow, later)
          == Recent(full.outageStarts + [s], th.retryWindow, later)
      {
        RecentSnoc(pruned.outageStarts, s, th.retryWindow, later);
        RecentSnoc(full.outageStarts, s, th.retryWindow, later);
      }
    }
  }

  lemma StepAgrees(th: Thresholds, pruned: Tracked, full: Tracked, t: nat, c: Call)
    requires Agrees(th, pruned, full, t) && t <= c.now
    ensures Agrees(th, Step(th, pruned, c).state, FullStep(th, full, c).state, c.now)
    ensures Step(th, pruned, c).out == FullStep(th, full, c).out
  {
    hide Recent;
    match c
    case Started(now) =>
    case Recovered(now) =>
      EndOutageAgrees(th, pruned, full, t, now);
      PruneAgrees(th, EndOutage(th, pruned, now), EndOutage(th, full, now), t, now);
    case Evaluate(now) =>
      PruneAgrees(th, pruned, full, t, now);
  }

  function LastTime(calls: seq<Call>): nat {
    if calls == [] then 0 else calls[|calls| - 1].now
  }

  /** While the clock does not run backwards, a tracker that prunes emits exactly what one
      that remembers every long outage would. */
  lemma {:induction false} ForgettingDoesNotMatter(th: Thresholds, calls: seq<Call>)
    requires ClockRuns(calls)
    ensures Run(th, calls).out == FullRun(th, calls).out
    ensures Agrees(th, Run(th, calls).state, FullRun(th, calls).state, LastTime(calls))
  {
    if calls != [] {
      hide Agrees, Step, FullStep;
      var n := |calls| - 1;
      ForgettingDoesNotMatter(th, calls[..n]);
      StepAgrees(th, Run(th, calls[..n]).state, FullRun(th, calls[..n]).state, LastTime(calls[..n]), calls[n]);
    }
  }

  lemma RunSnoc(th: Thresholds, calls: seq<Call>, c: Call)
    ensures Run(th, calls + [c]) == After(Run(th, calls), Step(th, Run(th, calls).state, c))
    ensures FullRun(th, calls + [c]) == After(FullRun(th, calls), FullStep(th, FullRun(th, calls).state, c))
  {
    hide Step, FullStep;
    assert (calls + [c])[..|calls|] == calls;
  }

  /** Were it to run backwards, the two could differ: the outage that is pruned at 100 would
      have counted at 40.  The monotonic clock of the original never does that; the trace only
      shows that the requirement is needed. */
  lemma {:induction false} ForgettingNeedsTheClock()
    ensures
      var th := Thresholds(1000, 0, 1, 50);
      var calls := [Started(10)] + [Recovered(20)] + [Evaluate(100)] + [Evaluate(40)];
      Run(th, calls).out == [] && FullRun(th, calls).out == [WentOffline]
  {
    hide Recent, Run, FullRun;
    var th := Thresholds(1000, 0, 1, 50);
    var a := [Started(10)];
    var b := a + [Recovered(20)];
    RunNothing(th);
    assert [] + [Started(10)] == a;
    RunSnoc(th, [], Started(10));
    RunSnoc(th, a, Recovered(20));
    RunSnoc(th, b, Evaluate(100));
    RunSnoc(th, b + [Evaluate(100)], Evaluate(40));
    NothingIsRecent(50);
    assert [] + [10] == [10];
    RecentSnoc([], 10, 50, 20);
    RecentSnoc([], 10, 50, 100);
    RecentSnoc([], 10, 50, 40);
  }

  lemma RunNothing(th: Thresholds)
    ensures Run(th, []) == Ran(FRESH, []) == FullRun(th, [])
  {
  }

  lemma NothingIsRecent(window: nat)
    ensures forall now: nat :: Recent([], window, now) == []
  {
  }

  // ---------------------------------------------------------------------------
  // When transitions are emitted, said without any variables
  // ---------------------------------------------------------------------------

  /** When the outage under way started: at the first start since the last recovery. */
  function OutageSince(calls: seq<Call>): Option<nat> {
    if calls == [] then None
    else
      var n := |calls| - 1;
      match calls[n]
      case Recovered(_) => None
      case Evaluate(_) => OutageSince(calls[..n])
      case Started(now) => if OutageSince(calls[..n]).Some? then OutageSince(calls[..n]) else Some(now)
  }

  /** The starts of all long outages that are over. */
  function LongOutages(th: Thresholds, calls: seq<Call>): seq<nat> {
    if calls == [] then []
    else
      var n := |calls| - 1;
      var before, since := LongOutages(th, calls[..n]), OutageSince(calls[..n]);
      if calls[n].Recovered? && since.Some? && Elapsed(since.value, calls[n].now) >= th.retryOutage
      then before + [since.value]
      else before
  }

  /** How many starts there were at `from` or later. */
  function StartsFrom(starts: seq<nat>, from: int): nat {
    if starts == [] then 0
    else StartsFrom(starts[1..], from) + if from <= starts[0] then 1 else 0
  }

  lemma {:induction false} RecentAreCounted(starts: seq<nat>, window: nat, now: nat)
    ensures |Recent(starts, window, now)| == StartsFrom(starts, now - window)
  {
    if starts != [] {
      RecentAreCounted(starts[1..], window, now);
    }
  }

  /** A continuous outage, or a burst: enough long ones that started within the window. */
  predicate Alarming(th: Thresholds, calls: seq<Call>, now: nat) {
    || (OutageSince(calls).Some? && Elapsed(OutageSince(calls).value, now) >= th.offlineTimeout)
    || StartsFrom(LongOutages(th, calls), now - th.retryWindow) >= th.retryCount
  }

  /** Some evaluation since the last recovery found an alarm. */
  predicate KnownOffline(th: Thresholds, calls: seq<Call>) {
    calls != [] &&
    var n := |calls| - 1;
    match calls[n]
    case Recovered(_) => false
    case Started(_) => KnownOffline(th, calls[..n])
    case Evaluate(now) => KnownOffline(th, calls[..n]) || Alarming(th, calls[..n], now)
  }

  /** An evaluation that finds the first alarm since the last recovery says offline; a recovery
      behind one says online; and nothing else is ever said. */
  function Said(th: Thresholds, before: seq<Call>, c: Call): seq<Transition> {
    match c
    case Started(_) => []
    case Recovered(_) => if KnownOffline(th, before) then [WentOnline] else []
    case Evaluate(now) => if Alarming(th, before, now) && !KnownOffline(th, before) then [WentOffline] else []
  }

  function AllSaid(th: Thresholds, calls: seq<Call>): seq<Transition> {
    if calls == [] then []
    else AllSaid(th, calls[..|calls| - 1]) + Said(th, calls[..|calls| - 1], calls[|calls| - 1])
  }

  lemma {:induction false} FullRunSays(th: Thresholds, calls: seq<Call>)
    ensures FullRun(th, calls) ==
      Ran(Tracked(LongOutages(th, calls), OutageSince(calls), KnownOffline(th, calls)), AllSaid(th, calls))
  {
    if calls != [] {
      hide Recent, Elapsed, StartsFrom;
      var n := |calls| - 1;
      FullRunSays(th, calls[..n]);
      RecentAreCounted(LongOutages(th, calls[..n]), th.retryWindow, calls[n].now);
      assert AllSaid(th, calls[..n]) + [] == AllSaid(th, calls[..n]);
    }
  }

  /** While the clock does not run backwards, the tracker says offline at exactly those
      evaluations that find the first alarm since the last recovery, and online at exactly the
      recoveries behind one. */
  lemma {:induction false} TrackerSays(th: Thresholds, calls: seq<Call>)
    requires ClockRuns(calls)
    ensures Run(th, calls).out == AllSaid(th, calls)
  {
    hide Run, FullRun, AllSaid;
    ForgettingDoesNotMatter(th, calls);
    FullRunSays(th, calls);
  }

  // ---------------------------------------------------------------------------
  // Transitions
  // ---------------------------------------------------------------------------

  /** Offline first, then in turn. */
  ghost predicate Alternate(out: seq<Transition>) {
    forall i :: 0 <= i < |out| ==> out[i] == if i % 2 == 0 then WentOffline else WentOnline
  }

  /** On every trace, whatever the clock does, transitions alternate, and the tracker is
      offline exactly after an odd number of them. */
  lemma {:induction false} TransitionsAlternate(th: Thresholds, calls: seq<Call>)
    ensures Alternate(Run(th, calls).out)
    ensures Run(th, calls).state.offline <==> |Run(th, calls).out| % 2 == 1
  {
    if calls != [] {
      hide Recent;
      TransitionsAlternate(th, calls[..|calls| - 1]);
    }
  }
}
