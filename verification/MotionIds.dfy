/** Event ids of motion: the edge-detecting poller of each camera, and the latch behind it that
    gives a continuous period of motion one id.
 */
module MotionIds {
  import opened Prelude

  datatype Motion = Motion(camera: string, rule: string, active: bool, ts: int, eventId: string) {
    function Key(): (string, string) {
      (camera, rule)
    }
  }

  datatype EndedMotion = EndedMotion(eventId: string, endedAt: int)

  type Key = (string, string)

  // ---------------------------------------------------------------------------
  // The latch
  // ---------------------------------------------------------------------------

  datatype Latch = Latch(active: map<Key, string>, ended: map<Key, EndedMotion>)

  const EMPTY := Latch(map[], map[])

  datatype Normalized = Normalized(latch: Latch, out: Motion)

  function Normalize(grace: int, s: Latch, e: Motion): Normalized {
    var key := e.Key();
    if e.active then
      if key in s.active then Normalized(s, e.(eventId := s.active[key]))
      else
        var reuse := key in s.ended && 0 <= e.ts - s.ended[key].endedAt <= grace;
        var out := if reuse then e.(eventId := s.ended[key].eventId) else e;
        Normalized(Latch(s.active[key := out.eventId], s.ended - {key}), out)
    else
      var out := if key in s.active then e.(eventId := s.active[key]) else e;
      Normalized(Latch(s.active - {key}, s.ended[key := EndedMotion(out.eventId, out.ts)]), out)
  }

  class MotionEventIdLatch {
    const graceWindow: int
    var active: map<Key, string>
    var ended: map<Key, EndedMotion>

    function State(): Latch
      reads this
    {
      Latch(active, ended)
    }

    constructor (graceWindow: int)
      ensures this.graceWindow == graceWindow && State() == EMPTY
    {
      this.graceWindow := graceWindow;
      active, ended := map[], map[];
    }

    method NormalizeEvent(event: Motion) returns (out: Motion)
      modifies this
      ensures Normalized(State(), out) == Normalize(graceWindow, old(State()), event)
    {
      var key := event.Key();
      out := event;
      if event.active {
        if key in active {
          out := out.(eventId := active[key]);
        } else {
          if key in ended {
            var delta := event.ts - ended[key].endedAt;
            if delta >= 0 && delta <= graceWindow {
              out := out.(eventId := ended[key].eventId);
            }
          }
          ended := ended - {key};
          active := active[key := out.eventId];
        }
      } else {
        if key in active {
          out := out.(eventId := active[key]);
          active := active - {key};
        }
        ended := ended[key := EndedMotion(out.eventId, event.ts)];
      }
    }
  }

  /** A whole trace through the latch. */
  datatype Trace = Trace(latch: Latch, outs: seq<Motion>)

  function NormalizeAll(grace: int, events: seq<Motion>): (t: Trace)
    ensures |t.outs| == |events|
  {
    if events == [] then Trace(EMPTY, [])
    else
      var n := |events| - 1;
      var before := NormalizeAll(grace, events[..n]);
      var last := Normalize(grace, before.latch, events[n]);
      Trace(last.latch, before.outs + [last.out])
  }

  // ---------------------------------------------------------------------------
  // What the latch does, said without any state
  // ---------------------------------------------------------------------------

  /** The last event of a key. */
  function Latest(events: seq<Motion>, key: Key): Option<Motion> {
    if events == [] then None
    else
      var n := |events| - 1;
      if events[n].Key() == key then Some(events[n]) else Latest(events[..n], key)
  }

  /** An event belongs to the period of the one before it when motion was still on, or when
      it starts again within the grace window. */
  predicate Continues(grace: int, previous: Option<Motion>, e: Motion) {
    previous.Some? && (previous.value.active || (e.active && 0 <= e.ts - previous.value.ts <= grace))
  }

  function IdFor(grace: int, previous: Option<Motion>, e: Motion): string {
    if Continues(grace, previous, e) then previous.value.eventId else e.eventId
  }

  /** The latch remembers of each key exactly the last event forwarded for it; so no key is
      both active and ended. */
  ghost predicate Remembers(s: Latch, outs: seq<Motion>) {
    forall key :: RemembersKey(s, Latest(outs, key), key)
  }

  ghost predicate RemembersKey(s: Latch, last: Option<Motion>, key: Key) {
    && (key in s.active <==> last.Some? && last.value.active)
    && (key in s.active ==> s.active[key] == last.value.eventId)
    && (key in s.ended <==> last.Some? && !last.value.active)
    && (key in s.ended ==> s.ended[key] == EndedMotion(last.value.eventId, last.value.ts))
  }

  lemma LatestSnoc(outs: seq<Motion>, e: Motion, key: Key)
    ensures Latest(outs + [e], key) == if e.Key() == key then Some(e) else Latest(outs, key)
  {
    assert (outs + [e])[..|outs|] == outs;
  }

  lemma NormalizeRemembers(grace: int, s: Latch, outs: seq<Motion>, e: Motion)
    requires Remembers(s, outs)
    ensures
      var r := Normalize(grace, s, e);
      && r.out == e.(eventId := IdFor(grace, Latest(outs, e.Key()), e))
      && Remembers(r.latch, outs + [r.out])
  {
    hide Latest;
    var r := Normalize(grace, s, e);
    assert RemembersKey(s, Latest(outs, e.Key()), e.Key());
    forall key
      ensures RemembersKey(r.latch, Latest(outs + [r.out], key), key)
    {
      LatestSnoc(outs, r.out, key);
      assert RemembersKey(s, Latest(outs, key), key);
    }
  }

  /** On every trace, the forwarded event is the incoming one under the id of the period it
      continues, or under its own when it begins one. */
  lemma {:induction false} IdsFollowPeriods(grace: int, events: seq<Motion>)
    ensures
      var t := NormalizeAll(grace, events);
      && Remembers(t.latch, t.outs)
      && forall i :: 0 <= i < |events| ==>
           t.outs[i] == events[i].(eventId := IdFor(grace, Latest(t.outs[..i], events[i].Key()), events[i]))
  {
    if events == [] {
      assert Remembers(EMPTY, []);
    } else {
      hide Remembers, Normalize, IdFor, Latest;
      var n := |events| - 1;
      IdsFollowPeriods(grace, events[..n]);
      var before, t := NormalizeAll(grace, events[..n]), NormalizeAll(grace, events);
      NormalizeRemembers(grace, before.latch, before.outs, events[n]);
      forall i | 0 <= i < |events|
        ensures t.outs[i] == events[i].(eventId := IdFor(grace, Latest(t.outs[..i], events[i].Key()), events[i]))
      {
        assert t.outs[..i] == before.outs[..i];
        assert i < n ==> events[..n][i] == events[i];
        assert before.outs[..n] == before.outs;
      }
    }
  }

  /** No key is both active and ended. */
  lemma {:induction false} ActiveOrEnded(grace: int, events: seq<Motion>)
    ensures NormalizeAll(grace, events).latch.active.Keys !! NormalizeAll(grace, events).latch.ended.Keys
  {
    IdsFollowPeriods(grace, events);
    hide NormalizeAll, Latest;
    var t := NormalizeAll(grace, events);
    forall key | key in t.latch.active
      ensures key !in t.latch.ended
    {
      assert RemembersKey(t.latch, Latest(t.outs, key), key);
    }
  }

  lemma NormalizeTwice(grace: int, s: Latch, e: Motion)
    ensures Normalize(grace, s, Normalize(grace, s, e).out) == Normalize(grace, s, e)
  {
  }

  /** Normalizing a normalized trace changes nothing. */
  lemma {:induction false} NormalizingIsIdempotent(grace: int, events: seq<Motion>)
    ensures NormalizeAll(grace, NormalizeAll(grace, events).outs) == NormalizeAll(grace, events)
  {
    if events != [] {
      hide Normalize;
      var n := |events| - 1;
      NormalizingIsIdempotent(grace, events[..n]);
      var before := NormalizeAll(grace, events[..n]);
      NormalizeTwice(grace, before.latch, events[n]);
      assert NormalizeAll(grace, events).outs[..n] == before.outs;
    }
  }

  // ---------------------------------------------------------------------------
  // Keys do not interfere
  // ---------------------------------------------------------------------------

  function OfKey(events: seq<Motion>, key: Key): seq<Motion> {
    if events == [] then []
    else
      var n := |events| - 1;
      OfKey(events[..n], key) + if events[n].Key() == key then [events[n]] else []
  }

  lemma OfKeySnoc(events: seq<Motion>, e: Motion, key: Key)
    ensures OfKey(events + [e], key) == OfKey(events, key) + if e.Key() == key then [e] else []
  {
    assert (events + [e])[..|events|] == events;
  }

  /** Two latches that agree on a key. */
  ghost predicate AgreeOn(s: Latch, t: Latch, key: Key) {
    && (key in s.active <==> key in t.active) && (key in s.active ==> s.active[key] == t.active[key])
    && (key in s.ended <==> key in t.ended) && (key in s.ended ==> s.ended[key] == t.ended[key])
  }

  lemma NormalizeAgrees(grace: int, s: Latch, t: Latch, e: Motion, key: Key)
    requires AgreeOn(s, t, key)
    ensures e.Key() == key ==> Normalize(grace, s, e).out == Normalize(grace, t, e).out
    ensures AgreeOn(Normalize(grace, s, e).latch, if e.Key() == key then Normalize(grace, t, e).latch else t, key)
    ensures Normalize(grace, s, e).out.Key() == e.Key()
  {
  }

  lemma NormalizeAllSnoc(grace: int, events: seq<Motion>, e: Motion)
    ensures
      var before := NormalizeAll(grace, events);
      var last := Normalize(grace, before.latch, e);
      NormalizeAll(grace, events + [e]) == Trace(last.latch, before.outs + [last.out])
  {
    hide Normalize;
    assert (events + [e])[..|events|] == events;
  }

  ghost predicate Apart(grace: int, events: seq<Motion>, key: Key) {
    var all, own := NormalizeAll(grace, events), NormalizeAll(grace, OfKey(events, key));
    OfKey(all.outs, key) == own.outs && AgreeOn(all.latch, own.latch, key)
  }

  lemma {:induction false} OneMoreEvent(grace: int, front: seq<Motion>, e: Motion, key: Key)
    requires Apart(grace, front, key)
    ensures Apart(grace, front + [e], key)
  {
    hide AgreeOn, Normalize, OfKey, NormalizeAll;
    NormalizeAllSnoc(grace, front, e);
    OfKeySnoc(front, e, key);
    var all, own := NormalizeAll(grace, front), NormalizeAll(grace, OfKey(front, key));
    NormalizeAgrees(grace, all.latch, own.latch, e, key);
    OfKeySnoc(all.outs, Normalize(grace, all.latch, e).out, key);
    if e.Key() == key {
      NormalizeAllSnoc(grace, OfKey(front, key), e);
    } else {
      assert OfKey(front, key) + [] == OfKey(front, key);
      assert OfKey(all.outs, key) + [] == OfKey(all.outs, key);
    }
  }

  lemma NothingApart(grace: int, key: Key)
    ensures Apart(grace, [], key)
  {
  }

  lemma {:induction false} AllApart(grace: int, events: seq<Motion>, key: Key)
    ensures Apart(grace, events, key)
  {
    hide Apart;
    if events == [] {
      NothingApart(grace, key);
    } else {
      var n := |events| - 1;
      AllApart(grace, events[..n], key);
      OneMoreEvent(grace, events[..n], events[n], key);
      assert events == events[..n] + [events[n]];
    }
  }

  /** What is forwarded for one camera and rule depends on the events of that camera and rule
      alone. */
  lemma {:induction false} KeysDoNotInterfere(grace: int, events: seq<Motion>, key: Key)
    ensures OfKey(NormalizeAll(grace, events).outs, key) == NormalizeAll(grace, OfKey(events, key)).outs
  {
    hide NormalizeAll, OfKey;
    AllApart(grace, events, key);
  }

  // ---------------------------------------------------------------------------
  // The poller
  // ---------------------------------------------------------------------------

  datatype Tracking = Tracking(state: map<string, bool>, eventIds: map<string, string>)

  const UNTRACKED := Tracking(map[], map[])

  datatype Observed = Observed(tracking: Tracking, edge: Option<Motion>)

  /** One observation of a rule; `newId` is the id that would be generated. */
  function Observe(camera: string, t: Tracking, rule: string, isMotion: bool, newId: string, ts: int): Observed {
    var previous := rule in t.state && t.state[rule];
    if previous == isMotion then Observed(t, None)
    else
      var id := if !isMotion && rule in t.eventIds then t.eventIds[rule] else newId;
      var ids := if isMotion then t.eventIds[rule := id] else t.eventIds - {rule};
      Observed(Tracking(t.state[rule := isMotion], ids), Some(Motion(camera, rule, isMotion, ts, id)))
  }

  class MotionPoller {
    const cameraId: string
    var state: map<string, bool>
    var eventIds: map<string, string>

    function Now(): Tracking
      reads this
    {
      Tracking(state, eventIds)
    }

    constructor (cameraId: string)
      ensures this.cameraId == cameraId && Now() == UNTRACKED
    {
      this.cameraId := cameraId;
      state, eventIds := map[], map[];
    }

    /** After the subscription was lost: everything is forgotten, and nothing is emitted. */
    method ResetMotionTracking()
      modifies this
      ensures Now() == UNTRACKED
    {
      state, eventIds := map[], map[];
    }

    method OnObservation(rule: string, isMotion: bool, newId: string, ts: int) returns (edge: Option<Motion>)
      modifies this
      ensures Observed(Now(), edge) == Observe(cameraId, old(Now()), rule, isMotion, newId, ts)
    {
      var prev := if rule in state then state[rule] else false;
      if prev == isMotion {
        return None;
      }
      state := state[rule := isMotion];
      var eventId := newId;
      if isMotion {
        eventIds := eventIds[rule := eventId];
      } else if rule in eventIds {
        eventId := eventIds[rule];
        eventIds := eventIds - {rule};
      }
      edge := Some(Motion(cameraId, rule, isMotion, ts, eventId));
    }
  }

  // ---------------------------------------------------------------------------
  // Pollers and latch together
  // ---------------------------------------------------------------------------

  /** What happens at the cameras: an observation, or the silent loss of a subscription. */
  datatype Happening =
    | Seen(camera: string, rule: string, isMotion: bool, newId: string, ts: int)
    | Lost(camera: string)

  /** The pollers of all cameras, and the edges they have published in order. */
  datatype Cameras = Cameras(pollers: map<string, Tracking>, edges: seq<Motion>)

  function PollerOf(c: Cameras, camera: string): Tracking {
    if camera in c.pollers then c.pollers[camera] else UNTRACKED
  }

  function Happen(c: Cameras, h: Happening): Cameras {
    match h
    case Lost(camera) => Cameras(c.pollers[camera := UNTRACKED], c.edges)
    case Seen(camera, rule, isMotion, newId, ts) =>
      var o := Observe(camera, PollerOf(c, camera), rule, isMotion, newId, ts);
      Cameras(c.pollers[camera := o.tracking], if o.edge.Some? then c.edges + [o.edge.value] else c.edges)
  }

  function HappenAll(hs: seq<Happening>): Cameras {
    if hs == [] then Cameras(map[], [])
    else Happen(HappenAll(hs[..|hs| - 1]), hs[|hs| - 1])
  }

  // ---------------------------------------------------------------------------
  // What the pollers emit, said without their variables
  // ---------------------------------------------------------------------------

  /** What was last seen of a rule since its camera was last lost; initially off. */
  function Previous(hs: seq<Happening>, camera: string, rule: string): bool {
    if hs == [] then false
    else
      var n := |hs| - 1;
      match hs[n]
      case Lost(c) => if c == camera then false else Previous(hs[..n], camera, rule)
      case Seen(c, r, isMotion, _, _) => if c == camera && r == rule then isMotion else Previous(hs[..n], camera, rule)
  }

  /** The new id of the observation that began the period under way. */
  function PeriodId(hs: seq<Happening>, camera: string, rule: string): Option<string> {
    if !Previous(hs, camera, rule) then None
    else
      var n := |hs| - 1;
      if hs[n].Seen? && hs[n].camera == camera && hs[n].rule == rule && !Previous(hs[..n], camera, rule)
      then Some(hs[n].newId)
      else PeriodId(hs[..n], camera, rule)
  }

  /** An observation is an edge exactly when it differs from the one before.  A start is under
      its own new id, an end under the id of its start. */
  function EdgeOf(before: seq<Happening>, h: Happening): seq<Motion> {
    if h.Lost? || h.isMotion == Previous(before, h.camera, h.rule) then []
    else
      var started := PeriodId(before, h.camera, h.rule);
      [Motion(h.camera, h.rule, h.isMotion, h.ts, if !h.isMotion && started.Some? then started.value else h.newId)]
  }

  function EdgesOf(hs: seq<Happening>): seq<Motion> {
    if hs == [] then [] else EdgesOf(hs[..|hs| - 1]) + EdgeOf(hs[..|hs| - 1], hs[|hs| - 1])
  }

  /** A poller tracks of a rule what was last seen of it, and the id of its period. */
  ghost predicate Knows(t: Tracking, hs: seq<Happening>, camera: string, rule: string) {
    && (rule in t.state && t.state[rule] <==> Previous(hs, camera, rule))
    && (rule in t.eventIds <==> Previous(hs, camera, rule))
    && (rule in t.eventIds ==> PeriodId(hs, camera, rule) == Some(t.eventIds[rule]))
  }

  ghost predicate AllKnow(c: Cameras, hs: seq<Happening>) {
    forall camera, rule :: Knows(PollerOf(c, camera), hs, camera, rule)
  }

  lemma {:induction false} HappenKnows(c: Cameras, hs: seq<Happening>)
    requires hs != [] && AllKnow(c, hs[..|hs| - 1])
    ensures
      var n := |hs| - 1;
      AllKnow(Happen(c, hs[n]), hs) && Happen(c, hs[n]).edges == c.edges + EdgeOf(hs[..n], hs[n])
  {
    var n := |hs| - 1;
    var h := hs[n];
    if h.Seen? {
      assert Knows(PollerOf(c, h.camera), hs[..n], h.camera, h.rule);
    }
    forall camera, rule
      ensures Knows(PollerOf(Happen(c, h), camera), hs, camera, rule)
    {
      assert Knows(PollerOf(c, camera), hs[..n], camera, rule);
    }
    assert c.edges + [] == c.edges;
  }

  /** Over every trace of all cameras, the pollers emit exactly the edges: nothing else, none
      left out. */
  lemma {:induction false} PollersEmitTheEdges(hs: seq<Happening>)
    ensures HappenAll(hs).edges == EdgesOf(hs) && AllKnow(HappenAll(hs), hs)
  {
    if hs != [] {
      hide AllKnow, Happen, EdgeOf;
      PollersEmitTheEdges(hs[..|hs| - 1]);
      HappenKnows(HappenAll(hs[..|hs| - 1]), hs);
    } else {
      NothingKnown();
    }
  }

  lemma NothingKnown()
    ensures AllKnow(Cameras(map[], []), [])
  {
  }

  /** Starts and ends in turn, a start first. */
  ghost predicate InTurn(edges: seq<Motion>) {
    forall i :: 0 <= i < |edges| ==> edges[i].active == (i % 2 == 0)
  }

  predicate NeverLost(hs: seq<Happening>, camera: string) {
    forall i :: 0 <= i < |hs| ==> hs[i] != Lost(camera)
  }

  lemma {:induction false} OfKeyAppend(a: seq<Motion>, b: seq<Motion>, key: Key)
    ensures OfKey(a + b, key) == OfKey(a, key) + OfKey(b, key)
    decreases |b|
  {
    if b == [] {
      assert a + b == a && OfKey(a, key) + [] == OfKey(a, key);
    } else {
      var m := |b| - 1;
      OfKeyAppend(a, b[..m], key);
      OfKeySnoc(a + b[..m], b[m], key);
      assert a + b == a + b[..m] + [b[m]];
    }
  }

  lemma OfKeyOne(e: Motion, key: Key)
    ensures OfKey([e], key) == if e.Key() == key then [e] else []
  {
    assert [e][..0] == [];
  }

  lemma EdgesSnoc(hs: seq<Happening>, h: Happening)
    ensures EdgesOf(hs + [h]) == EdgesOf(hs) + EdgeOf(hs, h)
  {
    hide EdgeOf;
    assert (hs + [h])[..|hs|] == hs;
  }

  lemma PreviousSnoc(hs: seq<Happening>, h: Happening, camera: string, rule: string)
    ensures Previous(hs + [h], camera, rule) ==
      if h == Lost(camera) then false
      else if h.Seen? && h.camera == camera && h.rule == rule then h.isMotion
      else Previous(hs, camera, rule)
  {
    assert (hs + [h])[..|hs|] == hs;
  }

  /** One more happening, in turn. */
  lemma {:induction false} TurnNext(hs: seq<Happening>, h: Happening, front: seq<Motion>, camera: string, rule: string)
    requires InTurn(front) && (Previous(hs, camera, rule) <==> |front| % 2 == 1) && h != Lost(camera)
    ensures
      var edges := front + OfKey(EdgeOf(hs, h), (camera, rule));
      InTurn(edges) && (Previous(hs + [h], camera, rule) <==> |edges| % 2 == 1)
  {
    hide Previous, PeriodId, OfKey;
    PreviousSnoc(hs, h, camera, rule);
    var last := EdgeOf(hs, h);
    if last == [] {
      OfKeyNothing((camera, rule));
    } else {
      OfKeyOne(last[0], (camera, rule));
      assert last == [last[0]];
    }
  }

  /** While motion is off and the camera is not lost, the edges of a rule are a start, an end, a
      start and so on. */
  lemma {:induction false} EdgesAreInTurn(
      before: seq<Happening>, since: seq<Happening>, camera: string, rule: string) returns (edges: seq<Motion>)
    requires !Previous(before, camera, rule) && NeverLost(since, camera)
    ensures OfKey(EdgesOf(before + since), (camera, rule)) == OfKey(EdgesOf(before), (camera, rule)) + edges
    ensures InTurn(edges) && (Previous(before + since, camera, rule) <==> |edges| % 2 == 1)
    decreases |since|
  {
    hide Previous, OfKey, EdgesOf, EdgeOf;
    var key := (camera, rule);
    if since == [] {
      edges := [];
      assert before + since == before;
      assert OfKey(EdgesOf(before), key) + [] == OfKey(EdgesOf(before), key);
    } else {
      var m := |since| - 1;
      var hs, h := before + since[..m], since[m];
      var front := EdgesAreInTurn(before, since[..m], camera, rule);
      TurnNext(hs, h, front, camera, rule);
      EdgesSnoc(hs, h);
      OfKeyAppend(EdgesOf(hs), EdgeOf(hs, h), key);
      assert before + since == hs + [h];
      edges := front + OfKey(EdgeOf(hs, h), key);
    }
  }

  lemma OfKeyNothing(key: Key)
    ensures OfKey([], key) == []
  {
  }

  // ---------------------------------------------------------------------------
  // Every end closes its start
  // ---------------------------------------------------------------------------

  ghost predicate TrackedIsOn(c: Cameras, outs: seq<Motion>) {
    forall camera, rule :: TrackedRule(PollerOf(c, camera), outs, camera, rule)
  }

  /** While a poller tracks a rule's motion, the last event forwarded for it was a start. */
  ghost predicate TrackedRule(t: Tracking, outs: seq<Motion>, camera: string, rule: string) {
    && (rule in t.eventIds <==> rule in t.state && t.state[rule])
    && (rule in t.eventIds ==> Latest(outs, (camera, rule)).Some? && Latest(outs, (camera, rule)).value.active)
  }

  /** Each forwarded end closes a start that was forwarded before, and carries its id. */
  ghost predicate EndsCloseStarts(outs: seq<Motion>) {
    forall i :: 0 <= i < |outs| && !outs[i].active ==> ClosesStart(Latest(outs[..i], outs[i].Key()), outs[i])
  }

  predicate ClosesStart(previous: Option<Motion>, e: Motion) {
    previous.Some? && previous.value.active && previous.value.eventId == e.eventId
  }

  lemma EndsSnoc(outs: seq<Motion>, e: Motion)
    requires EndsCloseStarts(outs)
    requires !e.active ==> ClosesStart(Latest(outs, e.Key()), e)
    ensures EndsCloseStarts(outs + [e])
  {
    hide ClosesStart, Latest;
    var all := outs + [e];
    forall i | 0 <= i < |all| && !all[i].active
      ensures ClosesStart(Latest(all[..i], all[i].Key()), all[i])
    {
      if i < |outs| {
        assert all[..i] == outs[..i];
      } else {
        assert all[..i] == outs;
      }
    }
  }

  /** Over everything that can happen, silent losses included: every end that is forwarded
      finds its start still latched and carries the id of the latest forwarded start; and each
      poller tracks ids for exactly the rules whose motion it believes to be on. */
  lemma {:induction false} EveryEndClosesItsStart(grace: int, hs: seq<Happening>)
    ensures
      var c := HappenAll(hs);
      EndsCloseStarts(NormalizeAll(grace, c.edges).outs) && TrackedIsOn(c, NormalizeAll(grace, c.edges).outs)
  {
    if hs != [] {
      hide EndsCloseStarts, TrackedIsOn, NormalizeAll;
      EveryEndClosesItsStart(grace, hs[..|hs| - 1]);
      HappeningKeeps(grace, HappenAll(hs[..|hs| - 1]), hs[|hs| - 1]);
    } else {
      NothingHappened(grace);
    }
  }

  lemma NothingHappened(grace: int)
    ensures EndsCloseStarts(NormalizeAll(grace, []).outs) && TrackedIsOn(Cameras(map[], []), [])
    ensures NormalizeAll(grace, []).outs == []
  {
  }

  lemma {:induction false} HappeningKeeps(grace: int, c: Cameras, h: Happening)
    requires EndsCloseStarts(NormalizeAll(grace, c.edges).outs) && TrackedIsOn(c, NormalizeAll(grace, c.edges).outs)
    ensures
      var d := Happen(c, h);
      EndsCloseStarts(NormalizeAll(grace, d.edges).outs) && TrackedIsOn(d, NormalizeAll(grace, d.edges).outs)
  {
    hide EndsCloseStarts, NormalizeAll, Latest, Normalize;
    var t := NormalizeAll(grace, c.edges);
    var d := Happen(c, h);
    if h.Seen? && Observe(h.camera, PollerOf(c, h.camera), h.rule, h.isMotion, h.newId, h.ts).edge.Some? {
      var e := Observe(h.camera, PollerOf(c, h.camera), h.rule, h.isMotion, h.newId, h.ts).edge.value;
      IdsFollowPeriods(grace, c.edges);
      NormalizeRemembers(grace, t.latch, t.outs, e);
      NormalizeAllSnoc(grace, c.edges, e);
      var out := Normalize(grace, t.latch, e).out;
      assert TrackedRule(PollerOf(c, h.camera), t.outs, h.camera, h.rule);
      EndsSnoc(t.outs, out);
      forall camera, rule
        ensures TrackedRule(PollerOf(d, camera), t.outs + [out], camera, rule)
      {
        LatestSnoc(t.outs, out, (camera, rule));
        assert TrackedRule(PollerOf(c, camera), t.outs, camera, rule);
      }
    } else {
      forall camera, rule
        ensures TrackedRule(PollerOf(d, camera), t.outs, camera, rule)
      {
        assert TrackedRule(PollerOf(c, camera), t.outs, camera, rule);
      }
    }
  }
}
