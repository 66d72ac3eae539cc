/** What clips hold: the ring of the motion message that they answer and what was kept since;
    and that every motion message is answered.
 */
module ClipHistory {
  import opened Prelude
  import opened Annexb
  import opened Rtp
  import opened Depacketizer
  import opened SyncGate
  import opened Clips
  import opened ClipFrames
  import opened ClipLife

  // ---------------------------------------------------------------------------
  // What a clip holds
  // ---------------------------------------------------------------------------

  /** A clip that is under way in front of message `n`, over the units accepted until then.  It
      answers motion message `j` and was started by packet `k`.  Its preroll is what the ring
      held at `j`, which reaches back to the first unit that was not too old at the last
      pruning: from its first IDR on, behind the parameter sets known at `k`.  It goes on with
      every unit since that was not too old already when the ring was pruned behind it. */
  ghost predicate ComposedAt(cfg: ClipConfig, events: seq<Event>, j: nat, k: nat, n: nat, c: Clip,
                             accepted: seq<Unit>, prunedAt: seq<nat>)
    requires n <= |events| && |prunedAt| == |accepted|
  {
    var asked, snapshot := c.request.accepted, c.request.snapshot;
    && LivesAt(cfg, events, j, k, n, c)
    && asked <= |accepted|
    && snapshot == RingOf(cfg, accepted[..asked], prunedAt[..asked])
    && RingIsRecent(cfg, snapshot, accepted[..asked], events[j].now)
    && (snapshot != [] ==> !TooOld(cfg, snapshot[0], prunedAt[asked - 1]))
    && c.sps.Some? && c.pps.Some? && IsSps(c.sps.value) && IsPps(c.pps.value)
    && var from := asked - |FromIdr(snapshot)|;
       && asked - |snapshot| <= from && 0 <= from
       && c.written == (if from < asked then [c.sps.value, c.pps.value] else [])
                       + NalsOf(accepted[from..asked]) + KeptNals(cfg, accepted[asked..], prunedAt[asked..])
       && (from < asked ==> accepted[from].hasIdr)
       && forall i :: asked - |snapshot| <= i < from ==> !accepted[i].hasIdr
  }

  ghost predicate Composed(
      cfg: ClipConfig, events: seq<Event>, n: nat, c: Clip, accepted: seq<Unit>, prunedAt: seq<nat>)
    requires n <= |events| && |prunedAt| == |accepted|
  {
    exists j: nat, k: nat :: ComposedAt(cfg, events, j, k, n, c, accepted, prunedAt)
  }

  /** A finished clip: composed in front of the first tick at or after a deadline. */
  ghost predicate FinishedComposed(
      cfg: ClipConfig, events: seq<Event>, f: Finished, accepted: seq<Unit>, prunedAt: seq<nat>)
    requires |prunedAt| == |accepted|
  {
    exists t: nat :: t < |events| && EndedAt(cfg, events, t, f) && Composed(cfg, events, t, f.clip, accepted, prunedAt)
  }

  lemma {:induction false} FromIdrIs(units: seq<Unit>)
    ensures
      var r := FromIdr(units);
      && IsSuffix(r, units) && (r != [] ==> r[0].hasIdr)
      && forall i :: 0 <= i < |units| - |r| ==> !units[i].hasIdr
  {
    if !(units == [] || units[0].hasIdr) {
      FromIdrIs(units[1..]);
      var r := FromIdr(units);
      forall i | 0 <= i < |units| - |r|
        ensures !units[i].hasIdr
      {
        if i > 0 {
          assert units[i] == units[1..][i - 1];
        }
      }
    }
  }

  lemma {:induction false} NoNals(units: seq<Unit>)
    ensures NalsOf(units) == [] <==> forall i :: 0 <= i < |units| ==> units[i].nals == []
  {
    if units != [] {
      var n := |units| - 1;
      NoNals(units[..n]);
      assert forall i :: 0 <= i < n ==> units[..n][i] == units[i];
    }
  }

  /** A request comes to nothing if and only if a parameter set is missing and there is not a
      NAL unit in the ring from its first IDR on. */
  lemma {:induction false} RefusesOnlyNothing(
      cfg: ClipConfig, r: Request, sps: Option<Bytes>, pps: Option<Bytes>, now: nat)
    ensures TryStart(cfg, r, sps, pps, now).None? <==>
      && (sps.None? || pps.None?)
      && forall i, j :: 0 <= j <= i < |r.snapshot| && r.snapshot[j].hasIdr ==> r.snapshot[i].nals == []
  {
    hide FromIdr, NalsOf, Preroll;
    var units := FromIdr(r.snapshot);
    FromIdrIs(r.snapshot);
    NoNals(units);
    var gone := |r.snapshot| - |units|;
    assert forall i :: 0 <= i < |units| ==> units[i] == r.snapshot[gone + i];
    if NalsOf(units) == [] {
      forall i, j | 0 <= j <= i < |r.snapshot| && r.snapshot[j].hasIdr
        ensures r.snapshot[i].nals == []
      {
        assert units[i - gone] == r.snapshot[i];
      }
    } else {
      var k :| 0 <= k < |units| && units[k].nals != [];
      assert r.snapshot[gone].hasIdr && r.snapshot[gone + k].nals != [];
    }
  }

  /** The ring at a motion message. */
  lemma {:induction false} AskedRing(
      cfg: ClipConfig, events: seq<Event>, j: nat, r: Request, accepted: seq<Unit>, prunedAt: seq<nat>)
    requires ClockRuns(events) && |prunedAt| == |accepted| && AskedAt(cfg, events, j, r)
    requires accepted <= Run(cfg, events).accepted && prunedAt <= Run(cfg, events).prunedAt
    requires r.accepted <= |accepted|
    ensures r.snapshot == RingOf(cfg, accepted[..r.accepted], prunedAt[..r.accepted])
    ensures RingIsRecent(cfg, r.snapshot, accepted[..r.accepted], events[j].now)
    ensures r.snapshot != [] ==> r.accepted > 0 && !TooOld(cfg, r.snapshot[0], prunedAt[r.accepted - 1])
  {
    hide Run, TooOld;
    var k := r.accepted;
    RunGrows(cfg, events, j);
    assert accepted[..k] == At(cfg, events, j).accepted && prunedAt[..k] == At(cfg, events, j).prunedAt;
    RingIsPruned(cfg, events[..j]);
    RunRingIsRecent(cfg, events[..j]);
    RingLater(cfg, r.snapshot, accepted[..k], LastTime(events[..j]), events[j].now);
    if k > 0 {
      PruneDrops(cfg, accepted[..k], prunedAt[k - 1]);
    }
  }

  /** What the preroll is made of. */
  lemma {:induction false} PrerollIs(snapshot: seq<Unit>, accepted: seq<Unit>, asked: nat)
    requires asked <= |accepted| && IsSuffix(snapshot, accepted[..asked])
    ensures
      var from := asked - |FromIdr(snapshot)|;
      && asked - |snapshot| <= from && 0 <= from && accepted[from..asked] == FromIdr(snapshot)
      && (from < asked ==> accepted[from].hasIdr)
      && forall i :: asked - |snapshot| <= i < from ==> !accepted[i].hasIdr
  {
    FromIdrIs(snapshot);
    hide FromIdr;
    var units := FromIdr(snapshot);
    var from := asked - |units|;
    assert accepted[from..asked] == units;
    forall i | asked - |snapshot| <= i < from
      ensures !accepted[i].hasIdr
    {
      assert accepted[..asked][i] == snapshot[i - (asked - |snapshot|)];
    }
    if units != [] {
      assert accepted[from] == units[0];
    }
  }

  lemma {:induction false} GoodIsComposed(
      cfg: ClipConfig, events: seq<Event>, n: nat, c: Clip, accepted: seq<Unit>, prunedAt: seq<nat>)
    requires ClockRuns(events) && n <= |events| && |prunedAt| == |accepted|
    requires GoodClip(cfg, c, accepted, prunedAt) && Lives(cfg, events, n, c)
    requires accepted <= Run(cfg, events).accepted && prunedAt <= Run(cfg, events).prunedAt
    ensures Composed(cfg, events, n, c, accepted, prunedAt)
  {
    hide Run, FromIdr, NalsOf, KeptNals, RingOf, TooOld, StartedAt, AskedAt, NotDue;
    var j: nat, k: nat :| LivesAt(cfg, events, j, k, n, c);
    AskedRing(cfg, events, j, c.request, accepted, prunedAt);
    PrerollIs(c.request.snapshot, accepted, c.request.accepted);
    assert ComposedAt(cfg, events, j, k, n, c, accepted, prunedAt);
  }

  /** On every run whose clock does not go back, every clip, under way or finished, has its
      motion message, its first unit and its deadlines; it is composed of the ring of that
      moment and of what was kept since; and it ends at the first tick at or after a deadline,
      with the units accepted until then, and not before. */
  lemma {:induction false} ClipComposition(cfg: ClipConfig, events: seq<Event>)
    requires ClockRuns(events)
    ensures
      var s := Run(cfg, events);
      && |s.prunedAt| == |s.accepted|
      && (s.clip.Some? ==> Composed(cfg, events, |events|, s.clip.value, s.accepted, s.prunedAt))
      && forall i :: 0 <= i < |s.finished| ==>
           var f := s.finished[i];
           f.accepted <= |s.accepted|
             && FinishedComposed(cfg, events, f, s.accepted[..f.accepted], s.prunedAt[..f.accepted])
  {
    hide Run, GoodClip, Composed, Lives, ClockRuns, EndedAt;
    RunIsGood(cfg, events);
    RunIsAccounted(cfg, events, |events|);
    assert events[..|events|] == events;
    var s := Run(cfg, events);
    if s.clip.Some? {
      GoodIsComposed(cfg, events, |events|, s.clip.value, s.accepted, s.prunedAt);
    }
    forall i | 0 <= i < |s.finished|
      ensures s.finished[i].accepted <= |s.accepted|
      ensures FinishedComposed(cfg, events, s.finished[i], s.accepted[..s.finished[i].accepted],
        s.prunedAt[..s.finished[i].accepted])
    {
      var f := s.finished[i];
      assert GoodFinished(cfg, f, s.accepted, s.prunedAt) && Ended(cfg, events, |events|, f);
      var t: nat :| t < |events| && EndedAt(cfg, events, t, f) && Lives(cfg, events, t, f.clip);
      GoodIsComposed(cfg, events, t, f.clip, s.accepted[..f.accepted], s.prunedAt[..f.accepted]);
    }
  }

  lemma {:induction false} AllKept(cfg: ClipConfig, units: seq<Unit>, prunedAt: seq<nat>)
    requires |prunedAt| == |units| && forall i :: 0 <= i < |units| ==> !TooOld(cfg, units[i], prunedAt[i])
    ensures KeptNals(cfg, units, prunedAt) == NalsOf(units)
    decreases |units|
  {
    hide TooOld;
    if units != [] {
      var n := |units| - 1;
      AllKept(cfg, units[..n], prunedAt[..n]);
    }
  }

  /** When no unit since the request was too old already, the clip is one unbroken stretch of
      the accepted units. */
  lemma {:induction false} UnbrokenStretch(cfg: ClipConfig, events: seq<Event>, j: nat, k: nat, n: nat, c: Clip,
                                            accepted: seq<Unit>, prunedAt: seq<nat>)
    requires n <= |events| && |prunedAt| == |accepted| && ComposedAt(cfg, events, j, k, n, c, accepted, prunedAt)
    requires forall i :: c.request.accepted <= i < |accepted| ==> !TooOld(cfg, accepted[i], prunedAt[i])
    ensures
      var from := c.request.accepted - |FromIdr(c.request.snapshot)|;
      c.written == (if from < c.request.accepted then [c.sps.value, c.pps.value] else []) + NalsOf(accepted[from..])
  {
    hide LivesAt, FromIdr, NalsOf, KeptNals, TooOld, RingIsRecent, RingOf;
    var asked := c.request.accepted;
    var from := asked - |FromIdr(c.request.snapshot)|;
    AllKept(cfg, accepted[asked..], prunedAt[asked..]);
    NalsOfAppend(accepted[from..asked], accepted[asked..]);
    assert accepted[from..] == accepted[from..asked] + accepted[asked..];
  }

  // ---------------------------------------------------------------------------
  // Every motion message is answered
  // ---------------------------------------------------------------------------

  ghost predicate ClipFor(s: State, r: Request) {
    || (s.clip.Some? && s.clip.value.request == r)
    || exists i :: 0 <= i < |s.finished| && s.finished[i].clip.request == r
  }

  /** Nothing has been accepted since the request. */
  ghost predicate Waiting(s: State, r: Request) {
    s.request == Some(r) && s.clip.None? && r == RequestNow(s)
  }

  lemma AnswerStays(cfg: ClipConfig, s: State, e: Event, r: Request, t: nat)
    requires Good(cfg, s, t) && ClipFor(s, r)
    ensures ClipFor(Step(cfg, s, e), r)
  {
    hide Push, Decode, Prune, Preroll, NalsOf, Latest, HasIdr, Due, GoodClip, GoodFinished, TypedSets;
    var q := Step(cfg, s, e);
    assert s.clip.Some? ==> s.request.None?;
    if s.clip.Some? && s.clip.value.request == r {
      assert q.clip.None? ==> q.finished[|s.finished|].clip.request == r;
    } else {
      var i :| 0 <= i < |s.finished| && s.finished[i].clip.request == r;
      assert q.finished[i].clip.request == r;
    }
  }

  lemma CompleteAnswers(cfg: ClipConfig, s: State, now: nat, later: nat, r: Request, t: nat)
    requires Good(cfg, s, t) && t <= now <= later && Waiting(s, r)
    ensures Waiting(Complete(cfg, s, now, later), r) || ClipFor(Complete(cfg, s, now, later), r)
  {
    hide Accept, GoodClip, GoodFinished, Latest, HasIdr;
    if s.nals != [] {
      var sps, pps := Latest(SPS, s.sps, s.nals), Latest(PPS, s.pps, s.nals);
      LatestIsTyped(SPS, s.sps, s.nals);
      LatestIsTyped(PPS, s.pps, s.nals);
      var u := s.(sps := sps, pps := pps, nals := []);
      if s.synced {
        AcceptKeepsGood(cfg, u, Unit(now, s.nals, HasIdr(s.nals)), later, t);
      } else if HasIdr(s.nals) && sps.Some? && pps.Some? {
        AcceptKeepsGood(cfg, u.(synced := true), Unit(now, [sps.value, pps.value] + s.nals, true), later, t);
      }
    }
  }

  lemma StepAnswers(cfg: ClipConfig, s: State, e: Event, r: Request, t: nat)
    requires Good(cfg, s, t) && t <= e.now <= e.later && Waiting(s, r)
    ensures Waiting(Step(cfg, s, e), r) || ClipFor(Step(cfg, s, e), r)
  {
    hide Good, Complete, Push, Decode;
    if e.msg.RtpMsg? && Decode(e.msg.bytes).Ok? {
      var pkt := Decode(e.msg.bytes).value;
      var d := Push(s.dep, pkt.payload);
      if d.nals.Ok? {
        var u := s.(expectedSeq := Some(NextSeq(pkt.sequenceNumber)), dep := d.state, nals := s.nals + d.nals.value);
        SameGood(cfg, s, u, t);
        CompleteAnswers(cfg, u, e.now, e.later, r, t);
      }
    }
  }

  lemma SameGood(cfg: ClipConfig, s: State, u: State, t: nat)
    requires Good(cfg, s, t)
    requires u == s.(expectedSeq := u.expectedSeq, dep := u.dep, nals := u.nals)
    ensures Good(cfg, u, t)
  {
    hide GoodClip, GoodFinished, TypedSets;
  }

  /** A motion message that comes while no clip is under way gets its clip with the very next
      accepted unit: one that starts with the ring of that moment. */
  lemma {:induction false} MotionIsAnswered(cfg: ClipConfig, events: seq<Event>, j: nat)
    requires ClockRuns(events) && j < |events| && events[j].msg == Motion(true) && Run(cfg, events[..j]).clip.None?
    ensures
      var r := RequestNow(Run(cfg, events[..j]));
      Waiting(Run(cfg, events), r) || ClipFor(Run(cfg, events), r)
    ensures |Run(cfg, events[..j]).accepted| < |Run(cfg, events).accepted| ==>
      ClipFor(Run(cfg, events), RequestNow(Run(cfg, events[..j])))
    decreases |events|
  {
    hide Step, Good, ClipFor;
    var n := |events| - 1;
    var r := RequestNow(Run(cfg, events[..j]));
    if j == n {
      MotionWaits(cfg, Run(cfg, events[..n]), events[n]);
    } else {
      assert events[..n][..j] == events[..j] && events[..n][j] == events[j];
      MotionIsAnswered(cfg, events[..n], j);
      RunIsGood(cfg, events[..n]);
      var s := Run(cfg, events[..n]);
      if Waiting(s, r) {
        StepAnswers(cfg, s, events[n], r, LastTime(events[..n]));
      } else {
        AnswerStays(cfg, s, events[n], r, LastTime(events[..n]));
      }
    }
  }

  lemma MotionWaits(cfg: ClipConfig, s: State, e: Event)
    requires e.msg == Motion(true) && s.clip.None?
    ensures Waiting(Step(cfg, s, e), RequestNow(s))
  {
  }

  // ---------------------------------------------------------------------------
  // A ring of no seconds
  // ---------------------------------------------------------------------------

  ghost predicate Silent(s: State) {
    && s.ring == [] && (s.request.Some? ==> s.request.value.snapshot == [])
    && (s.clip.Some? ==> s.clip.value.written == [])
    && forall i :: 0 <= i < |s.finished| ==> s.finished[i].clip.written == []
  }

  /** With a ring of no seconds, and a clock that moves at all between completing a unit and
      pruning the ring, nothing is ever written: every clip stays empty. */
  lemma {:induction false} NoRingNoClip(cfg: ClipConfig, events: seq<Event>)
    requires cfg.ringSecs == 0 && forall i :: 0 <= i < |events| ==> events[i].now < events[i].later
    ensures Silent(Run(cfg, events))
  {
    if events != [] {
      hide Step, Silent;
      var n := |events| - 1;
      NoRingNoClip(cfg, events[..n]);
      StepIsSilent(cfg, Run(cfg, events[..n]), events[n]);
    } else {
      assert Silent(FRESH);
    }
  }

  lemma CompleteIsSilent(cfg: ClipConfig, s: State, now: nat, later: nat)
    requires cfg.ringSecs == 0 && now < later && Silent(s)
    ensures Silent(Complete(cfg, s, now, later))
  {
    hide Prune, NalsOf, FromIdr, Latest, HasIdr;
    forall u: Unit | u.ts == now
      ensures Prune([] + [u], cfg.ringSecs, later) == []
    {
      NewestIsKept(cfg, [], u, later);
    }
    NoRingNoPreroll();
  }

  lemma StepIsSilent(cfg: ClipConfig, s: State, e: Event)
    requires cfg.ringSecs == 0 && e.now < e.later && Silent(s)
    ensures Silent(Step(cfg, s, e))
  {
    hide Complete, Push, Decode, Due;
    if e.msg.RtpMsg? && Decode(e.msg.bytes).Ok? {
      var pkt := Decode(e.msg.bytes).value;
      var d := Push(s.dep, pkt.payload);
      if d.nals.Ok? {
        var next := Some(NextSeq(pkt.sequenceNumber));
        CompleteIsSilent(cfg, s.(expectedSeq := next, dep := d.state, nals := s.nals + d.nals.value), e.now, e.later);
      }
    }
  }

  lemma NoRingNoPreroll()
    ensures FromIdr([]) == [] && NalsOf([]) == []
  {
  }
}
