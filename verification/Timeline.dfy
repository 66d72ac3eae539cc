/** When access units are delivered: each one at the clock of the message whose packet carried
    its marker; and when segments are closed.
 */
module Timeline {
  import opened Prelude
  import opened Annexb
  import opened Rtp
  import opened Depacketizer
  import opened SyncGate
  import opened TsMux
  import opened Assembly
  import opened Stream
  import opened Live
  import opened Rotation
  import opened Epochs
  import opened Conservation

  /** An access unit in a segment, and when it got there. */
  datatype Delivery = Delivery(au: AccessUnit, at: nat)

  function Zip(aus: seq<AccessUnit>, times: seq<nat>): seq<Delivery> {
    seq(Min(|aus|, |times|), i requires 0 <= i < Min(|aus|, |times|) => Delivery(aus[i], times[i]))
  }

  /** All deliveries of published segments, in order. */
  function LogOf(published: seq<Segment>): seq<Delivery> {
    if published == [] then []
    else
      var last := published[|published| - 1];
      LogOf(published[..|published| - 1]) + Zip(last.aus, last.deliveredAt)
  }

  function Log(p: Publication): seq<Delivery> {
    LogOf(p.published) + if p.segment.Some? then Zip(p.segment.value.aus, p.segment.value.deliveredAt) else []
  }

  /** What the last of some messages completes: the frame of a packet that is taken in and carries
      the marker, at the clock of that message. */
  function CompletedBy(g: Gate, events: seq<Event>): seq<Delivery>
    requires events != []
  {
    var e, d := events[|events| - 1], Divide(events);
    if e.msg.RtpMsg? && Decode(e.msg.bytes).Ok? && d.current != [] && d.current[|d.current| - 1].marker then
      var au := FrameAu(GateFor(g, AllUnits(d.closed)), d.current);
      if au.Some? then [Delivery(au.value, e.now)] else []
    else []
  }

  function Deliveries(g: Gate, events: seq<Event>): seq<Delivery> {
    if events == [] then [] else Deliveries(g, events[..|events| - 1]) + CompletedBy(g, events)
  }

  // ---------------------------------------------------------------------------
  // Segments log exactly the deliveries
  // ---------------------------------------------------------------------------

  lemma LogOfSnoc(published: seq<Segment>, s: Segment)
    ensures LogOf(published + [s]) == LogOf(published) + Zip(s.aus, s.deliveredAt)
  {
    hide Zip;
    assert (published + [s])[..|published|] == published;
  }

  lemma FinalizeLogs(p: Publication, now: nat, cut: bool)
    ensures Log(Finalize(p, now, cut)) == Log(p)
  {
    if PublishesSegment(p) {
      LogOfSnoc(p.published, Close(p.segment.value, now, cut));
    } else if p.segment.Some? {
      assert LogOf(p.published) + [] == LogOf(p.published);
    }
  }

  lemma DiscontinuityLogs(p: Publication, now: nat)
    ensures Log(HandleDiscontinuity(p, now)) == Log(p)
  {
    FinalizeLogs(p, now, true);
    hide Finalize, LogOf, Zip;
  }

  lemma DeliverLogs(cfg: Config, p: Publication, au: AccessUnit, now: nat)
    requires TimedPublication(cfg, p) && (p.segment.Some? || au.hasIdr)
    ensures Log(Deliver(cfg, p, au, now)) == Log(p) + [Delivery(au, now)]
  {
    hide TimedSegments, LogOf, TargetSecs;
    FinalizeLogs(p, now, false);
    var q := Rotate(cfg, p, au, now);
    assert Log(q) == Log(p);
    if q.segment.Some? {
      var o := q.segment.value;
      assert Zip(o.aus + [au], o.deliveredAt + [now]) == Zip(o.aus, o.deliveredAt) + [Delivery(au, now)];
    } else {
      assert Zip([] + [au], [] + [now]) == [Delivery(au, now)];
      assert LogOf(q.published) + [] == LogOf(q.published);
    }
  }

  lemma InterruptLogs(s: State, now: nat)
    ensures Log(Interrupt(s, now).pub) == Log(s.pub)
  {
    DiscontinuityLogs(s.pub, now);
  }

  /** The state behind the check of the sequence number. */
  lemma ResumeRefines(cfg: Config, g: Gate, s: State, d: Division, pkt: RtpPacket, now: nat)
    requires Good(s) && Refines(g, s, d)
    ensures
      var f := if Follows(d.current, pkt) then d else EndEpoch(d);
      Refines(g, Resume(s, pkt, now), f) && Log(Resume(s, pkt, now).pub) == Log(s.pub)
  {
    hide Good, Yield, GateAt, FeedAll, GroupsMatch, Log;
    assert (s.expectedSeq.Some? && s.expectedSeq.value != pkt.sequenceNumber) <==> !Follows(d.current, pkt);
    InterruptRefines(g, s, d, now);
    InterruptLogs(s, now);
    hide Refines, Interrupt;
  }

  /** What a packet completes behind an epoch under way. */
  lemma {:induction false} FeedCompletes(g: Gate, t: State, f: Division, pkt: RtpPacket)
    requires Refines(g, t, f) && AllDepacketize(f.closed) && Depacketizes(f.current)
    ensures
      var fed := Feed(t.asm, pkt);
      var e := f.current + [pkt];
      && (fed.Went? <==> Depacketizes(e))
      && (fed.Went? ==> fed.au == if pkt.marker then FrameAu(GateFor(g, AllUnits(f.closed)), e) else None)
  {
    hide FeedAll, GateAt, GateFor, AllUnits, GroupsMatch, Yield, Feed, FrameAu, FrameAus, StateAfter, AllDepacketize,
         ExpectedAfter;
    GateAtIs(g, f.closed);
    AcceptedIffDepacketizes(g, f.closed, f.current, pkt);
    var gate := GateFor(g, AllUnits(f.closed));
    AcceptedPacketsYield(gate, f.current);
    if Depacketizes(f.current + [pkt]) {
      FeedYields(gate, f.current, pkt);
    }
  }

  lemma FollowedDepacketizes(events: seq<Event>, pkt: RtpPacket)
    ensures
      var d := Divide(events);
      var f := if Follows(d.current, pkt) then d else EndEpoch(d);
      AllDepacketize(f.closed) && Depacketizes(f.current)
  {
    hide Divide, Depacketizes, Follows;
    EpochsDepacketize(events);
    NoPacketsDepacketize();
    NothingIsEpoch();
  }

  lemma NothingIsEpoch()
    ensures Depacketizes([])
  {
    NoPacketsDepacketize();
  }

  /** One packet. */
  lemma {:induction false} PacketLogs(cfg: Config, front: seq<Event>, e: Event, pkt: RtpPacket)
    requires e.msg.RtpMsg? && Decode(e.msg.bytes) == Ok(pkt)
    ensures
      var g := SeedGate(cfg);
      Log(StepPacket(cfg, Run(cfg, front), pkt, e.now).pub) == Log(Run(cfg, front).pub) + CompletedBy(g, front + [e])
  {
    hide Run, Good, Refines, Feed, Log, Follows, Depacketizes, AllDepacketize, FrameAu, TimedPublication, Deliver,
         SeedGate, Interrupt, GateFor, AllUnits, Decode, Resume;
    var g, s, d := SeedGate(cfg), Run(cfg, front), Divide(front);
    RunRefines(cfg, front);
    RunIsGood(cfg, front);
    ResumeRefines(cfg, g, s, d, pkt, e.now);
    FollowedDepacketizes(front, pkt);
    var t := Resume(s, pkt, e.now);
    var f := if Follows(d.current, pkt) then d else EndEpoch(d);
    FeedCompletes(g, t, f, pkt);
    DivideSnoc(front, e);
    DividedPacket(d, pkt);
    InterruptLogs(t, e.now);
    ResumeIsFine(cfg, front, pkt, e.now);
    var fed := Feed(t.asm, pkt);
    if fed.Went? && fed.au.Some? {
      DeliverLogs(cfg, t.pub, fed.au.value, e.now);
    }
    assert Log(s.pub) + [] == Log(s.pub);
  }

  lemma DivideSnoc(front: seq<Event>, e: Event)
    ensures Divide(front + [e]) == DivideMsg(Divide(front), e.msg)
  {
    hide DivideMsg;
    assert (front + [e])[..|front|] == front;
  }

  lemma DividedPacket(d: Division, pkt: RtpPacket)
    ensures
      var f := if Follows(d.current, pkt) then d else EndEpoch(d);
      if Depacketizes(f.current + [pkt]) then DividePacket(d, pkt) == Division(f.closed, f.current + [pkt])
      else DividePacket(d, pkt).current == []
  {
    hide Depacketizes, Follows;
  }

  lemma ResumeIsFine(cfg: Config, front: seq<Event>, pkt: RtpPacket, now: nat)
    ensures
      var t := Resume(Run(cfg, front), pkt, now);
      var fed := Feed(t.asm, pkt);
      && TimedPublication(cfg, t.pub)
      && (fed.Went? && fed.au.Some? ==> t.pub.segment.Some? || fed.au.value.hasIdr)
  {
    hide Run, TimedPublication, Good, Feed, HandleDiscontinuity;
    RunIsTimed(cfg, front);
    RunIsGood(cfg, front);
    DiscontinuityKeepsTimed(cfg, Run(cfg, front).pub, now);
    PacketKeepsGood(cfg, Run(cfg, front), pkt, now);
  }

  /** On every run, the access units of all segments, the open one included, are exactly the
      frames that were completed, each recorded at the clock of the message with its marker. */
  lemma {:induction false} RunLogsDeliveries(cfg: Config, events: seq<Event>)
    ensures Log(Run(cfg, events).pub) == Deliveries(SeedGate(cfg), events)
  {
    if events != [] {
      hide Log, CompletedBy, StepPacket, SeedGate, Interrupt;
      var n := |events| - 1;
      RunLogsDeliveries(cfg, events[..n]);
      assert events == events[..n] + [events[n]];
      var s, e := Run(cfg, events[..n]), events[n];
      InterruptLogs(s, e.now);
      assert Log(s.pub) + [] == Log(s.pub);
      if e.msg.RtpMsg? && Decode(e.msg.bytes).Ok? {
        PacketLogs(cfg, events[..n], e, Decode(e.msg.bytes).value);
      } else {
        OthersCompleteNothing(SeedGate(cfg), events);
      }
    } else {
      NothingLogged();
    }
  }

  lemma OthersCompleteNothing(g: Gate, events: seq<Event>)
    requires events != []
    requires var m := events[|events| - 1].msg; !(m.RtpMsg? && Decode(m.bytes).Ok?)
    ensures CompletedBy(g, events) == []
  {
    hide Divide, Decode, FrameAu;
  }

  lemma NothingLogged()
    ensures Log(NEW_PUBLICATION) == []
  {
  }

  /** The same for the published segments of a whole session. */
  lemma {:induction false} SessionLogsDeliveries(cfg: Config, events: seq<Event>, end: nat)
    ensures LogOf(Session(cfg, events, end).published) == Deliveries(SeedGate(cfg), events)
  {
    hide Run, LogOf, Zip, Deliveries;
    RunLogsDeliveries(cfg, events);
    FinalizeLogs(Run(cfg, events).pub, end, false);
    var p := Session(cfg, events, end);
    assert LogOf(p.published) + [] == LogOf(p.published);
  }

  // ---------------------------------------------------------------------------
  // Discontinuities
  // ---------------------------------------------------------------------------

  /** How often a message interrupts: a gap, an unreadable packet, a packet out of sequence, one
      that fails in the depacketizer, and twice when it is both. */
  function Interruptions(d: Division, m: Msg): nat {
    match m
    case Motion => 0
    case Gap => 1
    case RtpMsg(bytes) =>
      match Decode(bytes)
      case Err(_) => 1
      case Ok(pkt) =>
        var f := if Follows(d.current, pkt) then d.current else [];
        (if Follows(d.current, pkt) then 0 else 1) + (if Depacketizes(f + [pkt]) then 0 else 1)
  }

  /** The interruptions since the first access unit of a run. */
  function InterruptionsSince(g: Gate, events: seq<Event>): nat {
    if events == [] then 0
    else
      var front := events[..|events| - 1];
      InterruptionsSince(g, front)
      + if Deliveries(g, front) == [] then 0 else Interruptions(Divide(front), events[|events| - 1].msg)
  }

  lemma OutputIsLogged(p: Publication)
    requires GoodPublication(p) && (p.segment.Some? ==> |p.segment.value.deliveredAt| == |p.segment.value.aus|)
    requires forall i :: 0 <= i < |p.published| ==> |p.published[i].deliveredAt| == |p.published[i].aus|
    ensures Log(p) == [] <==> p.published == [] && p.segment.None?
  {
    if p.published != [] {
      assert GoodSegment(p.published, |p.published| - 1);
    }
  }

  lemma {:induction false} RunIsLogged(cfg: Config, events: seq<Event>)
    ensures
      var p := Run(cfg, events).pub;
      Deliveries(SeedGate(cfg), events) == [] <==> p.published == [] && p.segment.None?
  {
    hide Run, Log, GoodPublication, SeedGate, RotatedInto;
    RunLogsDeliveries(cfg, events);
    RunIsTimed(cfg, events);
    RunIsGood(cfg, events);
    var p := Run(cfg, events).pub;
    forall i | 0 <= i < |p.published|
      ensures |p.published[i].deliveredAt| == |p.published[i].aus|
    {
      assert TimedSegment(cfg, p.published[i]);
    }
    OutputIsLogged(p);
  }

  lemma InterruptCounts(s: State, now: nat)
    requires GoodPublication(s.pub)
    ensures
      var p, q := s.pub, Interrupt(s, now).pub;
      var silent := p.published == [] && p.segment.None?;
      && q.discontinuityCount == p.discontinuityCount + (if silent then 0 else 1)
      && (q.published == [] && q.segment.None? <==> silent)
  {
    hide GoodSegments, LastUncut;
  }

  lemma AbsorbCounts(cfg: Config, t: State, pkt: RtpPacket, now: nat)
    requires GoodPublication(t.pub)
    ensures
      var p, q := t.pub, Absorb(cfg, t, pkt, now).pub;
      var silent := p.published == [] && p.segment.None?;
      q.discontinuityCount == p.discontinuityCount + if Feed(t.asm, pkt).Went? || silent then 0 else 1
  {
    hide GoodSegments, LastUncut, Feed;
    InterruptCounts(t, now);
  }

  lemma {:induction false} PacketCounts(cfg: Config, front: seq<Event>, pkt: RtpPacket, now: nat, bytes: Bytes)
    requires Decode(bytes) == Ok(pkt)
    ensures
      var s := Run(cfg, front);
      var silent := s.pub.published == [] && s.pub.segment.None?;
      StepPacket(cfg, s, pkt, now).pub.discontinuityCount
        == s.pub.discontinuityCount + if silent then 0 else Interruptions(Divide(front), RtpMsg(bytes))
  {
    hide Run, Good, Refines, Feed, Follows, Depacketizes, AllDepacketize, SeedGate, Interrupt, GoodPublication, Absorb,
         Decode;
    var g, s, d := SeedGate(cfg), Run(cfg, front), Divide(front);
    RunRefines(cfg, front);
    RunIsGood(cfg, front);
    GoodIsPublication(s);
    ResumeRefines(cfg, g, s, d, pkt, now);
    PacketKeepsGood(cfg, s, pkt, now);
    SameFollows(g, s, d, pkt);
    FollowedDepacketizes(front, pkt);
    EndedIsNothing(d);
    var t := Resume(s, pkt, now);
    var f := if Follows(d.current, pkt) then d else EndEpoch(d);
    GoodIsPublication(t);
    FeedCompletes(g, t, f, pkt);
    InterruptCounts(s, now);
    AbsorbCounts(cfg, t, pkt, now);
  }

  lemma GoodIsPublication(s: State)
    requires Good(s)
    ensures GoodPublication(s.pub)
  {
  }

  lemma SameFollows(g: Gate, s: State, d: Division, pkt: RtpPacket)
    requires Refines(g, s, d)
    ensures s.expectedSeq.Some? && s.expectedSeq.value != pkt.sequenceNumber <==> !Follows(d.current, pkt)
  {
  }

  lemma EndedIsNothing(d: Division)
    ensures EndEpoch(d).current == []
  {
  }

  /** On every run the discontinuity count is the number of interruptions since the first access
      unit was delivered. */
  lemma {:induction false} CountsInterruptions(cfg: Config, events: seq<Event>)
    ensures Run(cfg, events).pub.discontinuityCount == InterruptionsSince(SeedGate(cfg), events)
  {
    if events != [] {
      hide Interrupt, StepPacket, SeedGate, Deliveries, Good, Interruptions;
      var n := |events| - 1;
      var front, e := events[..n], events[n];
      CountsInterruptions(cfg, front);
      RunIsLogged(cfg, front);
      RunIsGood(cfg, front);
      GoodIsPublication(Run(cfg, front));
      InterruptCounts(Run(cfg, front), e.now);
      if e.msg.RtpMsg? && Decode(e.msg.bytes).Ok? {
        PacketCounts(cfg, front, Decode(e.msg.bytes).value, e.now, e.msg.bytes);
      } else {
        OneInterruption(Divide(front), e.msg);
      }
    }
  }

  lemma OneInterruption(d: Division, m: Msg)
    requires !(m.RtpMsg? && Decode(m.bytes).Ok?)
    ensures Interruptions(d, m) == if m.Motion? then 0 else 1
  {
  }

  // ---------------------------------------------------------------------------
  // When segments are closed, and how long they are
  // ---------------------------------------------------------------------------

  /** Message `x` closed segment `i`, at its clock. */
  ghost predicate ClosedAt(cfg: Config, events: seq<Event>, i: nat, x: nat, s: Segment) {
    && x < |events| && s.closedAt == events[x].now
    && |Run(cfg, events[..x]).pub.published| == i && |Run(cfg, events[..x + 1]).pub.published| == i + 1
  }

  ghost predicate OneMore(before: seq<Segment>, after: seq<Segment>, now: nat) {
    after == before || (|after| == |before| + 1 && before <= after && after[|before|].closedAt == now)
  }

  lemma DiscontinuityCloses(p: Publication, now: nat)
    ensures OneMore(p.published, HandleDiscontinuity(p, now).published, now)
    ensures HandleDiscontinuity(p, now).segment.None?
    ensures p.segment.None? ==> HandleDiscontinuity(p, now).published == p.published
  {
  }

  lemma DeliverCloses(cfg: Config, p: Publication, au: AccessUnit, now: nat)
    ensures OneMore(p.published, Deliver(cfg, p, au, now).published, now)
    ensures p.segment.None? ==> Deliver(cfg, p, au, now).published == p.published
  {
    hide TargetSecs;
  }

  lemma StepCloses(cfg: Config, s: State, e: Event)
    ensures OneMore(s.pub.published, Step(cfg, s, e).pub.published, e.now)
  {
    hide OneMore, Decode, Feed, HandleDiscontinuity, Deliver, Start;
    NoneMore(s.pub.published, e.now);
    DiscontinuityCloses(s.pub, e.now);
    if e.msg.RtpMsg? && Decode(e.msg.bytes).Ok? {
      var pkt := Decode(e.msg.bytes).value;
      var t := Resume(s, pkt, e.now);
      DiscontinuityCloses(t.pub, e.now);
      var fed := Feed(t.asm, pkt);
      if fed.Went? && fed.au.Some? {
        DeliverCloses(cfg, t.pub, fed.au.value, e.now);
      }
    }
  }

  lemma NoneMore(published: seq<Segment>, now: nat)
    ensures OneMore(published, published, now)
  {
  }

  lemma {:induction false} EachIsClosed(cfg: Config, events: seq<Event>, i: nat) returns (x: nat)
    requires i < |Run(cfg, events).pub.published|
    ensures ClosedAt(cfg, events, i, x, Run(cfg, events).pub.published[i])
    decreases |events|
  {
    hide Step;
    var n := |events| - 1;
    StepCloses(cfg, Run(cfg, events[..n]), events[n]);
    assert events[..n + 1] == events;
    if i < |Run(cfg, events[..n]).pub.published| {
      x := EachIsClosed(cfg, events[..n], i);
      assert events[..n][..x] == events[..x] && events[..n][..x + 1] == events[..x + 1];
    } else {
      x := n;
    }
  }

  /** Exactly when a listed duration exceeds the target duration of the index: when the segment
      was closed later than the target after its first access unit was delivered.  A message
      closed it, by rotation or by a cut, or the end of the session did. */
  lemma {:induction false} ExceedsTarget(cfg: Config, events: seq<Event>, end: nat, i: nat)
    requires i < |Session(cfg, events, end).published|
    ensures
      var s := Session(cfg, events, end).published[i];
      && s.deliveredAt != [] && s.durationMs == Max(Elapsed(s.deliveredAt[0], s.closedAt), 1)
      && (s.durationMs > 1000 * TargetSecs(cfg) <==> Elapsed(s.deliveredAt[0], s.closedAt) > 1000 * TargetSecs(cfg))
      && ((exists x :: ClosedAt(cfg, events, i, x, s))
          || (i == |Run(cfg, events).pub.published| && s.closedAt == end && !s.cut))
  {
    hide Run, TargetSecs, LastUncut;
    SessionIsTimed(cfg, events, end);
    SessionIsGood(cfg, events, end);
    var published := Session(cfg, events, end).published;
    assert GoodSegment(published, i) && TimedSegment(cfg, published[i]);
    TargetIsPositive(cfg);
    if i < |Run(cfg, events).pub.published| {
      var x := EachIsClosed(cfg, events, i);
      assert ClosedAt(cfg, events, i, x, published[i]);
    }
  }

  // ---------------------------------------------------------------------------
  // A run on which the target is exceeded
  // ---------------------------------------------------------------------------

  /** An IDR picture in a single packet, behind a gate that knows both parameter sets. */
  lemma FeedIdr(g: Gate, pkt: RtpPacket)
    requires g.requireIdr && g.sps.Some? && g.pps.Some? && pkt.marker
    requires pkt.payload != [] && pkt.payload[0] % 0x20 == IDR
    ensures
      var fed := Feed(Assembly(IDLE, g, [], None), pkt);
      && fed.Went? && fed.state == Assembly(IDLE, g.(synced := true), [], None)
      && fed.au.Some? && fed.au.value.hasIdr
  {
    var nal: Bytes := FromRaw(pkt.payload);
    FromRawType(pkt.payload);
    var d := Push(IDLE, pkt.payload);
    assert d == DepStep(IDLE, Ok([nal]));
    OneIdr(g, nal);
  }

  lemma OneIdr(g: Gate, nal: Bytes)
    requires g.sps.Some? && g.pps.Some? && IsIdr(nal)
    ensures PushNals(g, [nal]) == GateStep(g.(synced := true), [g.sps.value, g.pps.value, nal])
    ensures HasIdr([] + [g.sps.value, g.pps.value, nal])
  {
    var list: seq<Bytes> := [nal];
    assert list[..0] == [];
    assert PushNals(g, []) == GateStep(g, []);
    var out: seq<Bytes> := [] + [g.sps.value, g.pps.value, nal];
    assert out == [g.sps.value, g.pps.value, nal];
    assert IsIdr(out[2]);
  }

  /** Two IDR pictures in single packets, `wait` milliseconds apart, with a target of one second
      and both parameter sets given from outside: the listed duration is `wait`, which can
      exceed the target by any amount. */
  lemma {:induction false} TargetCanBeExceeded(cfg: Config, w0: Wire, w1: Wire, wait: nat)
    requires cfg.segmentSecs == 1 && cfg.seed.Some? && 1000 < wait
    requires w0.Valid() && w0.marker && w0.payload != [] && w0.payload[0] % 0x20 == IDR
    requires w1.Valid() && w1.marker && w1.payload != [] && w1.payload[0] % 0x20 == IDR
    requires w1.sequenceNumber == NextSeq(w0.sequenceNumber)
    ensures
      var published := Run(cfg, [Event(RtpMsg(w0.Encode()), 0)] + [Event(RtpMsg(w1.Encode()), wait)]).pub.published;
      |published| == 1 && published[0].durationMs == wait > 1000 * TargetSecs(cfg)
  {
    hide Decode, Feed, Deliver, Wire.Encode;
    var e0, e1 := Event(RtpMsg(w0.Encode()), 0), Event(RtpMsg(w1.Encode()), wait);
    DecodeInvertsEncode(w0);
    DecodeInvertsEncode(w1);
    var g := Reset(SeedGate(cfg));
    FeedIdr(g, w0.Packet());
    FeedIdr(g.(synced := true), w1.Packet());
    assert ([e0] + [e1])[..1] == [e0] && [e0][..0] == [];
    var first := Feed(Assembly(IDLE, g, [], None), w0.Packet()).au.value;
    var second := Feed(Assembly(IDLE, g.(synced := true), [], None), w1.Packet()).au.value;
    assert Run(cfg, []) == Initial(cfg);
    assert Run(cfg, [e0]) == Step(cfg, Initial(cfg), e0);
    TwoIdrs(cfg, first, second, wait);
  }
}
