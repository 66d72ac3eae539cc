/** Motion clips of the first pipeline, `run_stream`: a ring of recent access units, and a clip
    that starts with what the ring held when motion began.
 */
module Clips {
  import opened Prelude
  import opened Annexb
  import opened Rtp
  import opened Depacketizer
  import opened SyncGate

  /** An access unit and when it was completed. */
  datatype Unit = Unit(ts: nat, nals: seq<Bytes>, hasIdr: bool)

  datatype ClipConfig = ClipConfig(ringSecs: nat, postSecs: nat, maxClipSecs: Option<nat>)

  datatype Msg = Tick | Gap | Motion(active: bool) | RtpMsg(bytes: Bytes)

  /** A message, the clock when it is handled, and the clock again when the ring is pruned. */
  datatype Event = Event(msg: Msg, now: nat, later: nat)

  /** A request that waits for the next access unit: the ring when motion began, and how many
      units had been accepted by then. */
  datatype Request = Request(snapshot: seq<Unit>, accepted: nat)

  datatype Clip = Clip(
    request: Request,
    sps: Option<Bytes>,
    pps: Option<Bytes>,
    written: seq<Bytes>,
    stopAt: nat,
    hardStopAt: Option<nat>)

  datatype Finished = Finished(clip: Clip, accepted: nat)

  /** The variables of the loop; with all units ever accepted, when the ring was pruned behind
      each of them, and all finished clips. */
  datatype State = State(
    expectedSeq: Option<u16>,
    dep: DepState,
    synced: bool,
    sps: Option<Bytes>,
    pps: Option<Bytes>,
    nals: seq<Bytes>,
    ring: seq<Unit>,
    request: Option<Request>,
    clip: Option<Clip>,
    accepted: seq<Unit>,
    prunedAt: seq<nat>,
    finished: seq<Finished>)

  const FRESH := State(None, IDLE, false, None, None, [], [], None, None, [], [], [])

  /** The clocks of this module count nanoseconds. */
  function Nanos(secs: nat): nat {
    1_000_000_000 * secs
  }

  // ---------------------------------------------------------------------------
  // The step
  // ---------------------------------------------------------------------------

  /** `prune_ring`: from the front, up to the first unit that is young enough. */
  function Prune(ring: seq<Unit>, ringSecs: nat, now: nat): seq<Unit> {
    if ring == [] || Elapsed(ring[0].ts, now) <= Nanos(ringSecs) then ring
    else Prune(ring[1..], ringSecs, now)
  }

  /** From the first unit that holds an IDR on. */
  function FromIdr(units: seq<Unit>): seq<Unit> {
    if units == [] || units[0].hasIdr then units else FromIdr(units[1..])
  }

  function NalsOf(units: seq<Unit>): seq<Bytes> {
    if units == [] then [] else NalsOf(units[..|units| - 1]) + units[|units| - 1].nals
  }

  /** What a clip starts with. */
  function Preroll(snapshot: seq<Unit>, sps: Option<Bytes>, pps: Option<Bytes>): seq<Bytes> {
    var units := FromIdr(snapshot);
    (if units != [] && sps.Some? && pps.Some? then [sps.value, pps.value] else []) + NalsOf(units)
  }

  /** `try_start_clip`. */
  function TryStart(cfg: ClipConfig, r: Request, sps: Option<Bytes>, pps: Option<Bytes>, now: nat): Option<Clip> {
    if NalsOf(FromIdr(r.snapshot)) == [] && (sps.None? || pps.None?) then None
    else
      Some(Clip(r, sps, pps, Preroll(r.snapshot, sps, pps), now + Nanos(cfg.postSecs),
                if cfg.maxClipSecs.Some? then Some(now + Nanos(cfg.maxClipSecs.value)) else None))
  }

  /** `should_finalize_clip`. */
  predicate Due(c: Clip, now: nat) {
    c.stopAt <= now || (c.hardStopAt.Some? && c.hardStopAt.value <= now)
  }

  /** Everything half-assembled is dropped; the ring, a clip and a request stay. */
  function Resync(s: State, expectedSeq: Option<u16>): State {
    s.(dep := IDLE, synced := false, expectedSeq := expectedSeq, nals := [])
  }

  function Enter(cfg: ClipConfig, s: State, u: Unit, later: nat): State {
    s.(ring := Prune(s.ring + [u], cfg.ringSecs, later), accepted := s.accepted + [u], prunedAt := s.prunedAt + [later])
  }

  function StartRequested(cfg: ClipConfig, s: State, later: nat): State {
    var start := if s.request.Some? && s.clip.None? then TryStart(cfg, s.request.value, s.sps, s.pps, later) else None;
    if start.Some? then s.(request := None, clip := start) else s
  }

  function WriteNewest(s: State): State {
    if s.clip.Some? && s.ring != []
    then s.(clip := Some(s.clip.value.(written := s.clip.value.written + s.ring[|s.ring| - 1].nals)))
    else s
  }

  /** An access unit enters the ring, may start a clip, and goes into the active one. */
  function Accept(cfg: ClipConfig, s: State, u: Unit, later: nat): State {
    WriteNewest(StartRequested(cfg, Enter(cfg, s, u, later), later))
  }

  /** The marker: the access unit is built, and dropped when the stream is not in sync. */
  function Complete(cfg: ClipConfig, s: State, now: nat, later: nat): State {
    if s.nals == [] then s
    else
      var sps, pps := Latest(SPS, s.sps, s.nals), Latest(PPS, s.pps, s.nals);
      var hasIdr := HasIdr(s.nals);
      var t := s.(sps := sps, pps := pps, nals := []);
      if s.synced then Accept(cfg, t, Unit(now, s.nals, hasIdr), later)
      else if hasIdr && sps.Some? && pps.Some? then
        Accept(cfg, t.(synced := true), Unit(now, [sps.value, pps.value] + s.nals, true), later)
      else t
  }

  /** A packet out of sequence is itself dropped. */
  function StepPacket(cfg: ClipConfig, s: State, pkt: RtpPacket, now: nat, later: nat): State {
    if s.expectedSeq.Some? && s.expectedSeq.value != pkt.sequenceNumber
    then Resync(s, Some(NextSeq(pkt.sequenceNumber)))
    else
      var d := Push(s.dep, pkt.payload);
      if d.nals.Err? then Resync(s, None)
      else
        var t := s.(expectedSeq := Some(NextSeq(pkt.sequenceNumber)), dep := d.state, nals := s.nals + d.nals.value);
        if pkt.marker then Complete(cfg, t, now, later) else t
  }

  function Step(cfg: ClipConfig, s: State, e: Event): State {
    match e.msg
    case Tick =>
      if s.clip.Some? && Due(s.clip.value, e.now)
      then s.(clip := None, finished := s.finished + [Finished(s.clip.value, |s.accepted|)])
      else s
    case Gap => Resync(s, None)
    case Motion(active) =>
      if active && s.clip.None? then s.(request := Some(Request(s.ring, |s.accepted|))) else s
    case RtpMsg(bytes) =>
      match Decode(bytes)
      case Err(_) => Resync(s, None)
      case Ok(pkt) => StepPacket(cfg, s, pkt, e.now, e.later)
  }

  function Run(cfg: ClipConfig, events: seq<Event>): State {
    if events == [] then FRESH
    else Step(cfg, Run(cfg, events[..|events| - 1]), events[|events| - 1])
  }

  // ---------------------------------------------------------------------------
  // The ring
  // ---------------------------------------------------------------------------

  /** The clock of a run does not go back. */
  ghost predicate ClockRuns(events: seq<Event>) {
    && (forall i :: 0 <= i < |events| ==> events[i].now <= events[i].later)
    && (forall i, j :: 0 <= i < j < |events| ==> events[i].later <= events[j].now)
  }

  function LastTime(events: seq<Event>): nat {
    if events == [] then 0 else events[|events| - 1].later
  }

  predicate IsSuffix(a: seq<Unit>, b: seq<Unit>) {
    |a| <= |b| && a == b[|b| - |a|..]
  }

  predicate TooOld(cfg: ClipConfig, u: Unit, now: nat) {
    now - u.ts > 1_000_000_000 * cfg.ringSecs
  }

  /** The ring holds all accepted units but some that are too old already. */
  ghost predicate RingIsRecent(cfg: ClipConfig, ring: seq<Unit>, accepted: seq<Unit>, now: nat) {
    && IsSuffix(ring, accepted)
    && forall i :: 0 <= i < |accepted| - |ring| ==> TooOld(cfg, accepted[i], now)
  }

  /** Pruning drops a prefix, all of it too old, and stops at a unit that is not. */
  lemma {:induction false} PruneDrops(cfg: ClipConfig, ring: seq<Unit>, now: nat)
    ensures
      var left := Prune(ring, cfg.ringSecs, now);
      && RingIsRecent(cfg, left, ring, now)
      && (left != [] ==> !TooOld(cfg, left[0], now))
    decreases |ring|
  {
    if ring != [] && TooOld(cfg, ring[0], now) {
      PruneDrops(cfg, ring[1..], now);
      var left := Prune(ring, cfg.ringSecs, now);
      forall i | 0 <= i < |ring| - |left|
        ensures TooOld(cfg, ring[i], now)
      {
        if i > 0 {
          assert ring[i] == ring[1..][i - 1];
        }
      }
    }
  }

  lemma {:induction false} PruneSkips(cfg: ClipConfig, units: seq<Unit>, k: nat, now: nat)
    requires k <= |units| && forall i :: 0 <= i < k ==> TooOld(cfg, units[i], now)
    ensures Prune(units, cfg.ringSecs, now) == Prune(units[k..], cfg.ringSecs, now)
    decreases k
  {
    if k == 0 {
      assert units[0..] == units;
    } else {
      assert TooOld(cfg, units[0], now);
      PruneSkips(cfg, units[1..], k - 1, now);
      assert units[1..][k - 1..] == units[k..];
    }
  }

  /** Behind a ring that is no younger, a unit survives its own pruning, at the end of the
      ring, if and only if it is not too old by then; otherwise the ring is left empty. */
  lemma {:induction false} NewestIsKept(cfg: ClipConfig, ring: seq<Unit>, u: Unit, now: nat)
    requires forall i :: 0 <= i < |ring| ==> ring[i].ts <= u.ts
    ensures
      var left := Prune(ring + [u], cfg.ringSecs, now);
      if TooOld(cfg, u, now) then left == [] else left != [] && left[|left| - 1] == u
  {
    PruneDrops(cfg, ring + [u], now);
    var left := Prune(ring + [u], cfg.ringSecs, now);
    assert (ring + [u])[|ring|] == u;
    if TooOld(cfg, u, now) {
      forall i | 0 <= i < |ring| + 1
        ensures TooOld(cfg, (ring + [u])[i], now)
      {
      }
      PruneSkips(cfg, ring + [u], |ring| + 1, now);
      assert (ring + [u])[|ring| + 1..] == [];
    }
  }

  lemma RingAfterUnit(cfg: ClipConfig, ring: seq<Unit>, accepted: seq<Unit>, u: Unit, t: nat, later: nat)
    requires RingIsRecent(cfg, ring, accepted, t) && t <= later
    ensures RingIsRecent(cfg, Prune(ring + [u], cfg.ringSecs, later), accepted + [u], later)
  {
    var left := Prune(ring + [u], cfg.ringSecs, later);
    var all, gone := accepted + [u], |accepted| - |ring|;
    PruneDrops(cfg, ring + [u], later);
    hide Prune;
    assert all[gone..] == ring + [u];
    forall i | 0 <= i < |all| - |left|
      ensures TooOld(cfg, all[i], later)
    {
      if i < gone {
        assert TooOld(cfg, accepted[i], t);
      } else {
        assert (ring + [u])[i - gone] == all[i];
      }
    }
  }

  lemma RingLater(cfg: ClipConfig, ring: seq<Unit>, accepted: seq<Unit>, t: nat, now: nat)
    requires RingIsRecent(cfg, ring, accepted, t) && t <= now
    ensures RingIsRecent(cfg, ring, accepted, now)
  {
    forall i | 0 <= i < |accepted| - |ring|
      ensures TooOld(cfg, accepted[i], now)
    {
      assert TooOld(cfg, accepted[i], t);
    }
  }

  lemma RingStep(cfg: ClipConfig, s: State, e: Event, t: nat)
    requires RingIsRecent(cfg, s.ring, s.accepted, t) && t <= e.later
    ensures var r := Step(cfg, s, e); RingIsRecent(cfg, r.ring, r.accepted, e.later)
  {
    hide RingIsRecent, Push, Decode, TryStart, Latest, HasIdr, Prune;
    RingLater(cfg, s.ring, s.accepted, t, e.later);
    forall u: Unit
      ensures RingIsRecent(cfg, Prune(s.ring + [u], cfg.ringSecs, e.later), s.accepted + [u], e.later)
    {
      RingAfterUnit(cfg, s.ring, s.accepted, u, t, e.later);
    }
  }

  lemma {:induction false} RunRingIsRecent(cfg: ClipConfig, events: seq<Event>)
    requires ClockRuns(events)
    ensures RingIsRecent(cfg, Run(cfg, events).ring, Run(cfg, events).accepted, LastTime(events))
  {
    if events != [] {
      hide RingIsRecent, Step;
      var n := |events| - 1;
      RunRingIsRecent(cfg, events[..n]);
      RingStep(cfg, Run(cfg, events[..n]), events[n], LastTime(events[..n]));
    } else {
      assert RingIsRecent(cfg, [], [], 0);
    }
  }

  /** The ring stands for the whole past: at any moment to come, pruning it gives what pruning
      everything ever accepted would give. */
  lemma {:induction false} RingForgetsOnlyTheOld(cfg: ClipConfig, events: seq<Event>, now: nat)
    requires ClockRuns(events) && LastTime(events) <= now
    ensures Prune(Run(cfg, events).ring, cfg.ringSecs, now) == Prune(Run(cfg, events).accepted, cfg.ringSecs, now)
  {
    hide Run;
    var s := Run(cfg, events);
    RunRingIsRecent(cfg, events);
    RingLater(cfg, s.ring, s.accepted, LastTime(events), now);
    PruneSkips(cfg, s.accepted, |s.accepted| - |s.ring|, now);
  }

  // ---------------------------------------------------------------------------
  // What a clip holds
  // ---------------------------------------------------------------------------

  predicate TypedSets(sps: Option<Bytes>, pps: Option<Bytes>) {
    (sps.Some? ==> IsSps(sps.value)) && (pps.Some? ==> IsPps(pps.value))
  }

  /** The NAL units of those units that were not too old when the ring was pruned behind them. */
  function KeptNals(cfg: ClipConfig, units: seq<Unit>, prunedAt: seq<nat>): seq<Bytes>
    requires |prunedAt| == |units|
  {
    if units == [] then []
    else
      var n := |units| - 1;
      KeptNals(cfg, units[..n], prunedAt[..n]) + if TooOld(cfg, units[n], prunedAt[n]) then [] else units[n].nals
  }

  /** A clip over the units accepted so far: the preroll of its request, and what was kept
      since. */
  ghost predicate GoodClip(cfg: ClipConfig, c: Clip, accepted: seq<Unit>, prunedAt: seq<nat>)
    requires |prunedAt| == |accepted|
  {
    var k := c.request.accepted;
    && k <= |accepted|
    && c.sps.Some? && c.pps.Some? && TypedSets(c.sps, c.pps)
    && c.written == Preroll(c.request.snapshot, c.sps, c.pps) + KeptNals(cfg, accepted[k..], prunedAt[k..])
  }

  ghost predicate GoodFinished(cfg: ClipConfig, f: Finished, accepted: seq<Unit>, prunedAt: seq<nat>)
    requires |prunedAt| == |accepted|
  {
    f.accepted <= |accepted| && GoodClip(cfg, f.clip, accepted[..f.accepted], prunedAt[..f.accepted])
  }

  /** All units were completed by `t`. */
  ghost predicate CompletedBy(units: seq<Unit>, t: nat) {
    forall i :: 0 <= i < |units| ==> units[i].ts <= t
  }

  ghost predicate Good(cfg: ClipConfig, s: State, t: nat) {
    && (s.synced ==> s.sps.Some? && s.pps.Some?)
    && TypedSets(s.sps, s.pps)
    && CompletedBy(s.ring, t)
    && |s.prunedAt| == |s.accepted|
    && (s.request.Some? ==> s.clip.None? && s.request.value.accepted == |s.accepted|)
    && (s.clip.Some? ==> GoodClip(cfg, s.clip.value, s.accepted, s.prunedAt))
    && forall i :: 0 <= i < |s.finished| ==> GoodFinished(cfg, s.finished[i], s.accepted, s.prunedAt)
  }

  lemma {:induction false} NalsOfSnoc(units: seq<Unit>, u: Unit)
    ensures NalsOf(units + [u]) == NalsOf(units) + u.nals
  {
    assert (units + [u])[..|units|] == units;
  }

  lemma NothingHasNals()
    ensures NalsOf([]) == []
  {
  }

  lemma {:induction false} NalsOfAppend(a: seq<Unit>, b: seq<Unit>)
    ensures NalsOf(a + b) == NalsOf(a) + NalsOf(b)
    decreases |b|
  {
    hide NalsOf;
    if b == [] {
      NothingHasNals();
      assert a + b == a && NalsOf(a) + [] == NalsOf(a);
    } else {
      var m := |b| - 1;
      NalsOfAppend(a, b[..m]);
      NalsOfSnoc(a + b[..m], b[m]);
      NalsOfSnoc(b[..m], b[m]);
      assert a + b == a + b[..m] + [b[m]] && b == b[..m] + [b[m]];
    }
  }

  lemma KeptSnoc(cfg: ClipConfig, units: seq<Unit>, prunedAt: seq<nat>, u: Unit, later: nat)
    requires |prunedAt| == |units|
    ensures KeptNals(cfg, units + [u], prunedAt + [later])
         == KeptNals(cfg, units, prunedAt) + if TooOld(cfg, u, later) then [] else u.nals
  {
    hide TooOld;
    assert (units + [u])[..|units|] == units && (prunedAt + [later])[..|units|] == prunedAt;
  }

  function Grown(cfg: ClipConfig, c: Clip, u: Unit, later: nat): Clip {
    if TooOld(cfg, u, later) then c else c.(written := c.written + u.nals)
  }

  /** One more accepted unit, written or not. */
  lemma ClipGrows(cfg: ClipConfig, c: Clip, accepted: seq<Unit>, prunedAt: seq<nat>, u: Unit, later: nat)
    requires |prunedAt| == |accepted| && GoodClip(cfg, c, accepted, prunedAt)
    ensures GoodClip(cfg, Grown(cfg, c, u, later), accepted + [u], prunedAt + [later])
  {
    hide KeptNals, Preroll, TooOld;
    var k := c.request.accepted;
    assert (accepted + [u])[k..] == accepted[k..] + [u];
    assert (prunedAt + [later])[k..] == prunedAt[k..] + [later];
    KeptSnoc(cfg, accepted[k..], prunedAt[k..], u, later);
    assert c.written + [] == c.written;
  }

  /** With the parameter sets known, a request always starts a clip; it is due when the time
      behind motion, or the longest time a clip may take, has passed since then. */
  lemma RequestStarts(
      cfg: ClipConfig, r: Request, sps: Option<Bytes>, pps: Option<Bytes>, now: nat, accepted: seq<Unit>,
      prunedAt: seq<nat>)
    requires sps.Some? && pps.Some? && TypedSets(sps, pps)
    requires |prunedAt| == |accepted| && r.accepted == |accepted|
    ensures
      var start := TryStart(cfg, r, sps, pps, now);
      && start.Some? && start.value.request == r && start.value.sps == sps && start.value.pps == pps
      && GoodClip(cfg, start.value, accepted, prunedAt)
      && forall t: nat :: Due(start.value, t) <==>
           || now + 1_000_000_000 * cfg.postSecs <= t
           || (cfg.maxClipSecs.Some? && now + 1_000_000_000 * cfg.maxClipSecs.value <= t)
  {
    hide NalsOf, Preroll;
    assert accepted[|accepted|..] == [] && prunedAt[|accepted|..] == [];
    NothingKept(cfg);
  }

  lemma NothingKept(cfg: ClipConfig)
    ensures KeptNals(cfg, [], []) == []
  {
  }

  lemma FinishedStays(cfg: ClipConfig, f: Finished, accepted: seq<Unit>, prunedAt: seq<nat>, u: Unit, later: nat)
    requires |prunedAt| == |accepted| && GoodFinished(cfg, f, accepted, prunedAt)
    ensures GoodFinished(cfg, f, accepted + [u], prunedAt + [later])
  {
    hide GoodClip;
    assert (accepted + [u])[..f.accepted] == accepted[..f.accepted];
    assert (prunedAt + [later])[..f.accepted] == prunedAt[..f.accepted];
  }

  lemma PruneKeepsCompleted(cfg: ClipConfig, ring: seq<Unit>, u: Unit, later: nat)
    requires CompletedBy(ring, u.ts)
    ensures CompletedBy(Prune(ring + [u], cfg.ringSecs, later), u.ts)
  {
    PruneDrops(cfg, ring + [u], later);
    hide Prune;
    var left := Prune(ring + [u], cfg.ringSecs, later);
    forall i | 0 <= i < |left|
      ensures left[i].ts <= u.ts
    {
      assert left[i] == (ring + [u])[|ring| + 1 - |left| + i];
    }
  }

  /** Accepting a unit: it goes into the clip if and only if it is not too old already; and a
      waiting request becomes a clip. */
  lemma AcceptKeepsGood(cfg: ClipConfig, s: State, u: Unit, later: nat, t: nat)
    requires Good(cfg, s, t) && s.synced && t <= u.ts <= later
    ensures
      var r := Accept(cfg, s, u, later);
      && Good(cfg, r, later) && r.request.None?
      && (s.request.Some? ==> r.clip.Some? && r.clip.value.request == s.request.value)
      && (s.clip.Some? ==> r.clip == Some(Grown(cfg, s.clip.value, u, later)))
      && (TooOld(cfg, u, later) ==> r.ring == [])
  {
    hide TryStart, GoodClip, GoodFinished, TypedSets, Prune, TooOld;
    var r := Accept(cfg, s, u, later);
    NewestIsKept(cfg, s.ring, u, later);
    PruneKeepsCompleted(cfg, s.ring, u, later);
    if s.request.Some? {
      RequestStarts(cfg, s.request.value, s.sps, s.pps, later, s.accepted, s.prunedAt);
      ClipGrows(cfg, TryStart(cfg, s.request.value, s.sps, s.pps, later).value, s.accepted, s.prunedAt, u, later);
    } else if s.clip.Some? {
      ClipGrows(cfg, s.clip.value, s.accepted, s.prunedAt, u, later);
    }
    forall i | 0 <= i < |s.finished|
      ensures GoodFinished(cfg, r.finished[i], r.accepted, r.prunedAt)
    {
      FinishedStays(cfg, s.finished[i], s.accepted, s.prunedAt, u, later);
    }
  }

  lemma {:induction false} LatestIsTyped(t: u8, known: Option<Bytes>, nals: seq<Bytes>)
    requires known.Some? ==> NalType(known.value) == Some(t)
    ensures var l := Latest(t, known, nals); (l.Some? ==> NalType(l.value) == Some(t)) && (known.Some? ==> l.Some?)
  {
    if nals != [] {
      LatestIsTyped(t, known, nals[..|nals| - 1]);
    }
  }

  lemma GoodLater(cfg: ClipConfig, s: State, t: nat, now: nat)
    requires Good(cfg, s, t) && t <= now
    ensures Good(cfg, s, now)
  {
    hide GoodClip, GoodFinished, TypedSets;
  }

  lemma CompleteKeepsGood(cfg: ClipConfig, s: State, now: nat, later: nat, t: nat)
    requires Good(cfg, s, t) && t <= now <= later
    ensures Good(cfg, Complete(cfg, s, now, later), later)
  {
    hide Accept, GoodClip, GoodFinished, Latest, HasIdr;
    GoodLater(cfg, s, t, later);
    if s.nals != [] {
      var sps, pps := Latest(SPS, s.sps, s.nals), Latest(PPS, s.pps, s.nals);
      LatestIsTyped(SPS, s.sps, s.nals);
      LatestIsTyped(PPS, s.pps, s.nals);
      var u := s.(sps := sps, pps := pps, nals := []);
      if s.synced {
        AcceptKeepsGood(cfg, u, Unit(now, s.nals, HasIdr(s.nals)), later, t);
      } else if HasIdr(s.nals) && sps.Some? && pps.Some? {
        AcceptKeepsGood(cfg, u.(synced := true), Unit(now, [sps.value, pps.value] + s.nals, true), later, t);
      }
    }
  }

  lemma {:induction false} StepKeepsGood(cfg: ClipConfig, s: State, e: Event, t: nat)
    requires Good(cfg, s, t) && t <= e.now <= e.later
    ensures Good(cfg, Step(cfg, s, e), e.later)
  {
    hide GoodClip, TypedSets, Complete, Push, Decode, Due;
    GoodLater(cfg, s, t, e.later);
    if e.msg.Tick? {
      WholeList(s.accepted);
      WholeList(s.prunedAt);
    } else if e.msg.RtpMsg? && Decode(e.msg.bytes).Ok? {
      var pkt := Decode(e.msg.bytes).value;
      var d := Push(s.dep, pkt.payload);
      if d.nals.Ok? {
        var next := Some(NextSeq(pkt.sequenceNumber));
        CompleteKeepsGood(cfg, s.(expectedSeq := next, dep := d.state, nals := s.nals + d.nals.value),
                          e.now, e.later, t);
      }
    }
  }

  lemma WholeList<T>(list: seq<T>)
    ensures list[..|list|] == list
  {
  }

  lemma {:induction false} RunIsGood(cfg: ClipConfig, events: seq<Event>)
    requires ClockRuns(events)
    ensures Good(cfg, Run(cfg, events), LastTime(events))
  {
    if events != [] {
      hide Good, Step;
      var n := |events| - 1;
      RunIsGood(cfg, events[..n]);
      StepKeepsGood(cfg, Run(cfg, events[..n]), events[n], LastTime(events[..n]));
    }
  }
}
