/** The life of a clip, message by message: the motion message that asked for it, the unit that
    started it, and the tick that ended it.
 */
module ClipLife {
  import opened Prelude
  import opened Annexb
  import opened Rtp
  import opened Depacketizer
  import opened SyncGate
  import opened Clips
  import opened ClipFrames

  /** The state in front of message `n`. */
  function At(cfg: ClipConfig, events: seq<Event>, n: nat): State
    requires n <= |events|
  {
    Run(cfg, events[..n])
  }

  function RequestNow(s: State): Request {
    Request(s.ring, |s.accepted|)
  }

  /** The request that motion message `j` leaves: the ring at that moment. */
  ghost predicate AskedAt(cfg: ClipConfig, events: seq<Event>, j: nat, r: Request) {
    && j < |events| && events[j].msg == Motion(true)
    && At(cfg, events, j).clip.None?
    && r == RequestNow(At(cfg, events, j))
  }

  function HardStop(cfg: ClipConfig, start: nat): Option<nat> {
    if cfg.maxClipSecs.Some? then Some(start + 1_000_000_000 * cfg.maxClipSecs.value) else None
  }

  /** Packet `k` completed the first unit accepted since the request, and that started the clip:
      under the last parameter sets completed by then, with deadlines counted from then. */
  ghost predicate StartedAt(cfg: ClipConfig, events: seq<Event>, k: nat, c: Clip) {
    && k < |events| && events[k].msg.RtpMsg?
    && At(cfg, events, k).request == Some(c.request) && At(cfg, events, k).clip.None?
    && |At(cfg, events, k).accepted| == c.request.accepted
    && |At(cfg, events, k + 1).accepted| == c.request.accepted + 1
    && c.sps == Latest(SPS, None, HeardBy(events[..k + 1])) && c.pps == Latest(PPS, None, HeardBy(events[..k + 1]))
    && c.stopAt == events[k].later + 1_000_000_000 * cfg.postSecs && c.hardStopAt == HardStop(cfg, events[k].later)
  }

  /** No tick behind message `k` and in front of message `to` was at or after a deadline. */
  ghost predicate NotDue(events: seq<Event>, k: nat, to: nat, c: Clip)
    requires to <= |events|
  {
    forall i :: k < i < to && events[i].msg.Tick? ==> !Due(c, events[i].now)
  }

  /** A clip under way in front of message `n`. */
  ghost predicate LivesAt(cfg: ClipConfig, events: seq<Event>, j: nat, k: nat, n: nat, c: Clip)
    requires n <= |events|
  {
    j < k < n && AskedAt(cfg, events, j, c.request) && StartedAt(cfg, events, k, c) && NotDue(events, k, n, c)
  }

  /** Tick `t` was the first at or after a deadline of the clip, and finished it with the units
      accepted until then. */
  ghost predicate EndedAt(cfg: ClipConfig, events: seq<Event>, t: nat, f: Finished) {
    && t < |events| && events[t].msg == Tick && Due(f.clip, events[t].now)
    && At(cfg, events, t).clip == Some(f.clip) && f.accepted == |At(cfg, events, t).accepted|
  }

  ghost predicate Asked(cfg: ClipConfig, events: seq<Event>, n: nat, r: Request) {
    exists j: nat :: j < n && AskedAt(cfg, events, j, r)
  }

  ghost predicate Lives(cfg: ClipConfig, events: seq<Event>, n: nat, c: Clip)
    requires n <= |events|
  {
    exists j: nat, k: nat :: LivesAt(cfg, events, j, k, n, c)
  }

  ghost predicate Ended(cfg: ClipConfig, events: seq<Event>, n: nat, f: Finished)
    requires n <= |events|
  {
    exists t: nat :: t < n && EndedAt(cfg, events, t, f) && Lives(cfg, events, t, f.clip)
  }

  // ---------------------------------------------------------------------------
  // What one message can do
  // ---------------------------------------------------------------------------

  /** In sync the parameter sets are known, and nothing has been accepted behind a request. */
  ghost predicate Ready(s: State) {
    && (s.synced ==> s.sps.Some? && s.pps.Some?)
    && (s.request.Some? ==> s.clip.None? && s.request.value.accepted == |s.accepted|)
  }

  ghost predicate SameTerms(c: Clip, d: Clip) {
    c.request == d.request && c.sps == d.sps && c.pps == d.pps && c.stopAt == d.stopAt && c.hardStopAt == d.hardStopAt
  }

  ghost predicate Started(cfg: ClipConfig, s: State, r: State, later: nat)
    requires r.clip.Some?
  {
    var c := r.clip.value;
    && s.request == Some(c.request) && s.clip.None? && |r.accepted| == |s.accepted| + 1
    && c.sps == r.sps && c.pps == r.pps
    && c.stopAt == later + 1_000_000_000 * cfg.postSecs && c.hardStopAt == HardStop(cfg, later)
  }

  /** What completing a unit can do to requests and clips. */
  lemma CompleteDoes(cfg: ClipConfig, s: State, now: nat, later: nat)
    requires Ready(s)
    ensures
      var r := Complete(cfg, s, now, later);
      && Ready(r)
      && (r.request.Some? ==> r.request == s.request)
      && (s.clip.Some? ==> r.clip.Some? && SameTerms(r.clip.value, s.clip.value))
      && (s.clip.None? && r.clip.Some? ==> Started(cfg, s, r, later))
      && r.finished == s.finished
  {
    hide Prune, Preroll, NalsOf, Latest, HasIdr;
    if s.nals != [] {
      LatestStaysKnown(SPS, s.sps, s.nals);
      LatestStaysKnown(PPS, s.pps, s.nals);
    }
  }

  lemma {:induction false} LatestStaysKnown(t: u8, known: Option<Bytes>, nals: seq<Bytes>)
    ensures known.Some? ==> Latest(t, known, nals).Some?
  {
    if nals != [] {
      LatestStaysKnown(t, known, nals[..|nals| - 1]);
    }
  }

  /** What one message can do to requests and clips. */
  lemma StepDoes(cfg: ClipConfig, s: State, e: Event)
    requires Ready(s)
    ensures
      var r := Step(cfg, s, e);
      && Ready(r)
      && (r.request.Some? ==>
           r.request == s.request || (e.msg == Motion(true) && s.clip.None? && r.request.value == RequestNow(s)))
      && (s.clip.Some? && r.clip.Some? ==>
           SameTerms(r.clip.value, s.clip.value) && (e.msg.Tick? ==> !Due(r.clip.value, e.now)))
      && (s.clip.None? && r.clip.Some? ==> e.msg.RtpMsg? && Started(cfg, s, r, e.later))
      && (if s.clip.Some? && e.msg.Tick? && Due(s.clip.value, e.now)
          then r.clip.None? && r.finished == s.finished + [Finished(s.clip.value, |s.accepted|)]
          else r.finished == s.finished)
  {
    hide Push, Decode, Complete;
    if e.msg.RtpMsg? && Decode(e.msg.bytes).Ok? {
      var pkt := Decode(e.msg.bytes).value;
      var d := Push(s.dep, pkt.payload);
      if d.nals.Ok? {
        var t := s.(expectedSeq := Some(NextSeq(pkt.sequenceNumber)), dep := d.state, nals := s.nals + d.nals.value);
        CompleteDoes(cfg, t, e.now, e.later);
      }
    }
  }

  // ---------------------------------------------------------------------------
  // Every clip is accounted for
  // ---------------------------------------------------------------------------

  ghost predicate Accounted(cfg: ClipConfig, events: seq<Event>, n: nat, s: State)
    requires n <= |events|
  {
    && Ready(s)
    && (s.request.Some? ==> Asked(cfg, events, n, s.request.value))
    && (s.clip.Some? ==> Lives(cfg, events, n, s.clip.value))
    && forall i :: 0 <= i < |s.finished| ==> Ended(cfg, events, n, s.finished[i])
  }

  lemma NextState(cfg: ClipConfig, events: seq<Event>, n: nat)
    requires n < |events|
    ensures At(cfg, events, n + 1) == Step(cfg, At(cfg, events, n), events[n])
  {
    hide Step;
    assert events[..n + 1][..n] == events[..n];
  }

  lemma LivesOn(cfg: ClipConfig, events: seq<Event>, n: nat, c: Clip, d: Clip)
    requires n < |events| && Lives(cfg, events, n, c) && SameTerms(d, c)
    requires events[n].msg.Tick? ==> !Due(d, events[n].now)
    ensures Lives(cfg, events, n + 1, d)
  {
    hide At, HeardBy, Latest, HardStop;
    var j: nat, k: nat :| LivesAt(cfg, events, j, k, n, c);
    assert LivesAt(cfg, events, j, k, n + 1, d);
  }

  lemma {:induction false} ClipStarts(cfg: ClipConfig, events: seq<Event>, n: nat)
    requires n < |events| && Ready(At(cfg, events, n)) && events[n].msg.RtpMsg?
    requires At(cfg, events, n).request.Some? ==> Asked(cfg, events, n, At(cfg, events, n).request.value)
    requires At(cfg, events, n + 1).clip.Some?
    requires Started(cfg, At(cfg, events, n), At(cfg, events, n + 1), events[n].later)
    ensures Lives(cfg, events, n + 1, At(cfg, events, n + 1).clip.value)
  {
    hide Run, HeardBy, Latest, HardStop, RequestNow;
    var c := At(cfg, events, n + 1).clip.value;
    KnownSets(cfg, events[..n + 1]);
    var j: nat :| j < n && AskedAt(cfg, events, j, c.request);
    assert LivesAt(cfg, events, j, n, n + 1, c);
  }

  lemma EndedStays(cfg: ClipConfig, events: seq<Event>, n: nat, f: Finished)
    requires n < |events| && Ended(cfg, events, n, f)
    ensures Ended(cfg, events, n + 1, f)
  {
    hide At, Due, Lives;
    var t: nat :| t < n && EndedAt(cfg, events, t, f) && Lives(cfg, events, t, f.clip);
  }

  lemma ClipEnds(cfg: ClipConfig, events: seq<Event>, n: nat)
    requires n < |events| && events[n].msg.Tick?
    requires var s := At(cfg, events, n);
      s.clip.Some? && Due(s.clip.value, events[n].now) && Lives(cfg, events, n, s.clip.value)
    ensures var s := At(cfg, events, n); Ended(cfg, events, n + 1, Finished(s.clip.value, |s.accepted|))
  {
    hide At, Due, Lives;
    var s := At(cfg, events, n);
    assert EndedAt(cfg, events, n, Finished(s.clip.value, |s.accepted|));
  }

  lemma AskedStays(cfg: ClipConfig, events: seq<Event>, n: nat, r: Request)
    requires n < |events|
    requires Asked(cfg, events, n, r) || AskedAt(cfg, events, n, r)
    ensures Asked(cfg, events, n + 1, r)
  {
    hide AskedAt;
  }

  lemma {:induction false} NextIsAccounted(cfg: ClipConfig, events: seq<Event>, n: nat)
    requires n < |events| && Accounted(cfg, events, n, At(cfg, events, n))
    ensures Accounted(cfg, events, n + 1, At(cfg, events, n + 1))
  {
    hide At, Step, Asked, Lives, Ended, Started, Due;
    var s, r, e := At(cfg, events, n), At(cfg, events, n + 1), events[n];
    NextState(cfg, events, n);
    StepDoes(cfg, s, e);
    if r.request.Some? {
      AskedStays(cfg, events, n, r.request.value);
    }
    if r.clip.Some? {
      if s.clip.Some? {
        LivesOn(cfg, events, n, s.clip.value, r.clip.value);
      } else {
        ClipStarts(cfg, events, n);
      }
    }
    forall i | 0 <= i < |s.finished|
      ensures Ended(cfg, events, n + 1, s.finished[i])
    {
      EndedStays(cfg, events, n, s.finished[i]);
    }
    if s.clip.Some? && e.msg.Tick? && Due(s.clip.value, e.now) {
      ClipEnds(cfg, events, n);
    }
  }

  /** On every run: each request and each clip has its motion message; a clip started with the
      unit accepted right behind its request, with its deadlines counted from then; one under
      way has seen no tick at or after a deadline; and a finished one ended at the first. */
  lemma {:induction false} RunIsAccounted(cfg: ClipConfig, events: seq<Event>, n: nat)
    requires n <= |events|
    ensures Accounted(cfg, events, n, At(cfg, events, n))
  {
    hide Accounted;
    if n == 0 {
      NothingToAccountFor(cfg, events);
    } else {
      RunIsAccounted(cfg, events, n - 1);
      NextIsAccounted(cfg, events, n - 1);
    }
  }

  lemma NothingToAccountFor(cfg: ClipConfig, events: seq<Event>)
    ensures Accounted(cfg, events, 0, At(cfg, events, 0))
  {
  }

  // ---------------------------------------------------------------------------
  // The ring on every run
  // ---------------------------------------------------------------------------

  /** The ring that pruning the whole past, when it was pruned last, would have left. */
  function RingOf(cfg: ClipConfig, accepted: seq<Unit>, prunedAt: seq<nat>): seq<Unit>
    requires |prunedAt| == |accepted|
  {
    if accepted == [] then [] else Prune(accepted, cfg.ringSecs, prunedAt[|prunedAt| - 1])
  }

  /** What one message can do to the ring. */
  lemma StepPrunes(cfg: ClipConfig, s: State, e: Event)
    requires |s.prunedAt| == |s.accepted|
    ensures
      var r := Step(cfg, s, e);
      || (r.ring == s.ring && r.accepted == s.accepted && r.prunedAt == s.prunedAt)
      || exists u :: r.accepted == s.accepted + [u] && r.prunedAt == s.prunedAt + [e.later]
                     && r.ring == Prune(s.ring + [u], cfg.ringSecs, e.later)
  {
    hide Push, Decode, Prune, TryStart, Latest, HasIdr, Due;
  }

  lemma {:induction false} RunGrows(cfg: ClipConfig, events: seq<Event>, j: nat)
    requires j <= |events|
    ensures |Run(cfg, events).prunedAt| == |Run(cfg, events).accepted|
    ensures |At(cfg, events, j).prunedAt| == |At(cfg, events, j).accepted|
    ensures At(cfg, events, j).accepted <= Run(cfg, events).accepted
    ensures At(cfg, events, j).prunedAt <= Run(cfg, events).prunedAt
    decreases |events|
  {
    if events == [] {
    } else {
      hide Step;
      var n := |events| - 1;
      RunGrows(cfg, events[..n], if j <= n then j else n);
      StepPrunes(cfg, Run(cfg, events[..n]), events[n]);
      if j <= n {
        assert events[..n][..j] == events[..j];
      } else {
        assert events[..j] == events;
      }
    }
  }

  /** On every run whose clock does not go back, the ring is exactly what its last pruning would
      have left of everything accepted; so it reaches back to the first unit that was not too
      old then. */
  lemma {:induction false} RingIsPruned(cfg: ClipConfig, events: seq<Event>)
    requires ClockRuns(events)
    ensures
      var s := Run(cfg, events);
      |s.prunedAt| == |s.accepted| && s.ring == RingOf(cfg, s.accepted, s.prunedAt)
  {
    hide Step, Prune;
    RunGrows(cfg, events, 0);
    if events != [] {
      var n := |events| - 1;
      RingIsPruned(cfg, events[..n]);
      RunGrows(cfg, events[..n], 0);
      RunRingIsRecent(cfg, events[..n]);
      var s, e := Run(cfg, events[..n]), events[n];
      StepPrunes(cfg, s, e);
      var r := Run(cfg, events);
      if r.accepted != s.accepted {
        var u :| r.accepted == s.accepted + [u] && r.prunedAt == s.prunedAt + [e.later]
                 && r.ring == Prune(s.ring + [u], cfg.ringSecs, e.later);
        PruneAll(cfg, s.ring, s.accepted, u, LastTime(events[..n]), e.later);
      }
    }
  }

  lemma PruneAll(cfg: ClipConfig, ring: seq<Unit>, accepted: seq<Unit>, u: Unit, t: nat, later: nat)
    requires RingIsRecent(cfg, ring, accepted, t) && t <= later
    ensures Prune(accepted + [u], cfg.ringSecs, later) == Prune(ring + [u], cfg.ringSecs, later)
  {
    hide Prune;
    var gone := |accepted| - |ring|;
    RingLater(cfg, ring, accepted, t, later);
    assert forall i :: 0 <= i < gone ==> (accepted + [u])[i] == accepted[i];
    PruneSkips(cfg, accepted + [u], gone, later);
    assert (accepted + [u])[gone..] == ring + [u];
  }
}
