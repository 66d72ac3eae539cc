/** What every session publishes, said without any state: the frames of each epoch, and with
    them exactly what the gate lets through.
 */
module Conservation {
  import opened Prelude
  import opened Annexb
  import opened Rtp
  import opened Depacketizer
  import opened SyncGate
  import opened TsMux
  import opened Assembly
  import opened Stream
  import opened Live
  import opened Epochs

  // ---------------------------------------------------------------------------
  // What an epoch yields, said without any state
  // ---------------------------------------------------------------------------

  /** Every NAL unit of some epochs, let through or not. */
  function AllUnits(closed: seq<Epoch>): seq<Bytes> {
    if closed == [] then [] else AllUnits(closed[..|closed| - 1]) + Units(closed[|closed| - 1])
  }

  /** A closed gate that knows the last SPS and PPS among what was heard. */
  function GateFor(g: Gate, heard: seq<Bytes>): Gate {
    Gate(g.requireIdr, !g.requireIdr, Latest(SPS, g.sps, heard), Latest(PPS, g.pps, heard))
  }

  /** The frames of the last of some epochs. */
  function EpochAus(g: Gate, before: seq<Epoch>, e: Epoch): seq<AccessUnit> {
    FrameAus(GateFor(g, AllUnits(before)), e)
  }

  /** The frames of each epoch, leaving out epochs without any. */
  function StreamGroups(g: Gate, closed: seq<Epoch>): seq<seq<AccessUnit>> {
    if closed == [] then []
    else
      var n := |closed| - 1;
      var aus := EpochAus(g, closed[..n], closed[n]);
      StreamGroups(g, closed[..n]) + (if aus == [] then [] else [aus])
  }

  ghost predicate AllDepacketize(closed: seq<Epoch>) {
    forall k :: 0 <= k < |closed| ==> Depacketizes(closed[k])
  }

  lemma {:induction false} GateAtIs(g: Gate, closed: seq<Epoch>)
    requires AllDepacketize(closed)
    ensures Reset(GateAt(g, closed)) == GateFor(g, AllUnits(closed))
    decreases |closed|
  {
    hide FeedAll, PushAll, Units, FrameAus, StateAfter, Open, Emissions, Depacketizes;
    if closed != [] {
      var n := |closed| - 1;
      GateAtIs(g, closed[..n]);
      assert Depacketizes(closed[n]);
      EpochEnds(g, closed[..n], closed[n]);
      LatestAppend(SPS, g.sps, AllUnits(closed[..n]), Units(closed[n]));
      LatestAppend(PPS, g.pps, AllUnits(closed[..n]), Units(closed[n]));
    }
  }

  /** What one epoch leaves behind. */
  lemma {:induction false} EpochEnds(g: Gate, before: seq<Epoch>, e: Epoch)
    requires Reset(GateAt(g, before)) == GateFor(g, AllUnits(before)) && Depacketizes(e)
    ensures
      var gate := GateFor(g, AllUnits(before));
      var r := FeedAll(Start(GateAt(g, before)), e);
      && r.Some? && r.value.aus == EpochAus(g, before, e)
      && r.value.state.gate ==
           Gate(g.requireIdr, Open(gate, Units(e), |Units(e)|),
                Latest(SPS, gate.sps, Units(e)), Latest(PPS, gate.pps, Units(e)))
      && r.value.state.nals == EmittedSince(gate, e, FrameStart(e))
  {
    hide FeedAll, PushAll, PushNals, Units, FrameAus, Open, GateAt, AllUnits, Latest, EmittedSince, FrameStart;
    var gate := GateFor(g, AllUnits(before));
    AcceptedPacketsYield(gate, e);
    GateEmits(gate, Units(e));
  }

  lemma {:induction false} YieldIs(g: Gate, closed: seq<Epoch>)
    requires AllDepacketize(closed)
    ensures Yield(g, closed) == StreamGroups(g, closed)
    decreases |closed|
  {
    hide FeedAll, GateAt, AllUnits, FrameAus, Depacketizes;
    if closed != [] {
      var n := |closed| - 1;
      YieldIs(g, closed[..n]);
      GateAtIs(g, closed[..n]);
      assert Depacketizes(closed[n]);
      EpochEnds(g, closed[..n], closed[n]);
    }
  }

  lemma AfterEpochsIs(g: Gate, closed: seq<Epoch>, e: Epoch)
    requires AllDepacketize(closed) && Depacketizes(e)
    ensures AusAfter(g, closed, e) == EpochAus(g, closed, e)
  {
    hide FeedAll, GateAt, AllUnits, FrameAus, Depacketizes;
    GateAtIs(g, closed);
    EpochEnds(g, closed, e);
  }

  lemma EpochsDepacketize(events: seq<Event>)
    ensures AllDepacketize(Divide(events).closed) && Depacketizes(Divide(events).current)
  {
    hide Depacketizes, Divide;
    DivisionIsEpochs(events);
  }

  /** On every run: between two cuts the segments carry exactly one epoch's frames, and since
      the last cut those of the epoch under way.  A frame runs from marker to marker; it holds
      what the gate lets through, each NAL unit once and in its place. */
  lemma {:induction false} SegmentsCarryFrames(cfg: Config, events: seq<Event>)
    ensures
      var p, d, g := Run(cfg, events).pub, Divide(events), SeedGate(cfg);
      && GroupsOf(p.published).done == StreamGroups(g, d.closed)
      && GroupsOf(p.published).open + OpenAus(p) == EpochAus(g, d.closed, d.current)
  {
    hide Run, Divide, GroupsOf, StreamGroups, EpochAus, AreEpochs, AllDepacketize, Depacketizes, AusAfter, Yield;
    SegmentsCarryEpochs(cfg, events);
    EpochsDepacketize(events);
    YieldIs(SeedGate(cfg), Divide(events).closed);
    AfterEpochsIs(SeedGate(cfg), Divide(events).closed, Divide(events).current);
  }

  lemma {:induction false} SessionCarriesFrames(cfg: Config, events: seq<Event>, end: nat)
    ensures
      var p, d, g := Session(cfg, events, end), Divide(events), SeedGate(cfg);
      && GroupsOf(p.published).done == StreamGroups(g, d.closed)
      && GroupsOf(p.published).open == EpochAus(g, d.closed, d.current)
  {
    hide Session, Divide, GroupsOf, StreamGroups, EpochAus, AreEpochs, AllDepacketize, Depacketizes, AusAfter, Yield;
    SessionCarriesEpochs(cfg, events, end);
    EpochsDepacketize(events);
    YieldIs(SeedGate(cfg), Divide(events).closed);
    AfterEpochsIs(SeedGate(cfg), Divide(events).closed, Divide(events).current);
  }

  // ---------------------------------------------------------------------------
  // Nothing is lost
  // ---------------------------------------------------------------------------

  /** The access units of segments, in order. */
  function SegmentAus(published: seq<Segment>): seq<AccessUnit> {
    if published == [] then [] else SegmentAus(published[..|published| - 1]) + published[|published| - 1].aus
  }

  function Flatten(done: seq<seq<AccessUnit>>): seq<AccessUnit> {
    if done == [] then [] else Flatten(done[..|done| - 1]) + done[|done| - 1]
  }

  lemma {:induction false} GroupsFlatten(published: seq<Segment>)
    ensures SegmentAus(published) == Flatten(GroupsOf(published).done) + GroupsOf(published).open
    decreases |published|
  {
    if published != [] {
      var n := |published| - 1;
      GroupsFlatten(published[..n]);
      var front, aus := GroupsOf(published[..n]), published[n].aus;
      hide GroupsOf;
      assert published == published[..n] + [published[n]];
      GroupsSnoc(published[..n], published[n]);
      assert Flatten(front.done) + (front.open + aus) == Flatten(front.done) + front.open + aus;
      if published[n].cut {
        assert (front.done + [front.open + aus])[..|front.done|] == front.done;
        assert Flatten(front.done + [front.open + aus]) + [] == Flatten(front.done) + (front.open + aus);
      }
    }
  }

  /** What the gate lets through of each epoch, up to its last marker. */
  function KeptNals(g: Gate, epochs: seq<Epoch>): seq<Bytes> {
    if epochs == [] then []
    else
      var n := |epochs| - 1;
      KeptNals(g, epochs[..n]) + EmittedBefore(GateFor(g, AllUnits(epochs[..n])), epochs[n])
  }

  lemma {:induction false} AuNalsAppend(a: seq<AccessUnit>, b: seq<AccessUnit>)
    ensures AuNals(a + b) == AuNals(a) + AuNals(b)
    decreases |b|
  {
    if b == [] {
      assert a + b == a && AuNals(a) + [] == AuNals(a);
    } else {
      var m := |b| - 1;
      assert (a + b)[..|a + b| - 1] == a + b[..m];
      AuNalsAppend(a, b[..m]);
    }
  }

  lemma FlattenSnoc(done: seq<seq<AccessUnit>>, last: seq<AccessUnit>)
    ensures Flatten(done + if last == [] then [] else [last]) == Flatten(done) + last
  {
    if last == [] {
      assert done + [] == done;
    } else {
      assert (done + [last])[..|done|] == done;
    }
  }

  lemma {:induction false} GroupsHoldKept(g: Gate, closed: seq<Epoch>)
    requires AllDepacketize(closed)
    ensures AuNals(Flatten(StreamGroups(g, closed))) == KeptNals(g, closed)
    decreases |closed|
  {
    hide Depacketizes, EmittedBefore, FrameAus, AllUnits, AuNals, Flatten, GateFor;
    if closed == [] {
      NothingFlattened();
    } else {
      var n := |closed| - 1;
      GroupsHoldKept(g, closed[..n]);
      assert Depacketizes(closed[n]);
      EpochHoldsKept(g, closed[..n], closed[n]);
      FlattenSnoc(StreamGroups(g, closed[..n]), EpochAus(g, closed[..n], closed[n]));
      AuNalsAppend(Flatten(StreamGroups(g, closed[..n])), EpochAus(g, closed[..n], closed[n]));
    }
  }

  lemma NothingFlattened()
    ensures Flatten([]) == [] && AuNals([]) == []
  {
  }

  lemma EpochHoldsKept(g: Gate, before: seq<Epoch>, e: Epoch)
    requires Depacketizes(e)
    ensures AuNals(EpochAus(g, before, e)) == EmittedBefore(GateFor(g, AllUnits(before)), e)
  {
    hide PushAll, FrameAus, AuNals, AllUnits, EmittedBefore, EmittedSince, FrameStart, Units, Emissions, Concat,
         Payloads, GateFor;
    FramesHoldTheStream(GateFor(g, AllUnits(before)), e);
  }

  /** Conservation, over every session with any losses: read in order, the published segments
      hold exactly what the gate lets through of each epoch up to the epoch's last marker.  Of
      what the gate lets through only a frame that a cut, or the end, took before its marker is
      missing; nothing is doubled and nothing moved. */
  lemma {:induction false} SessionHoldsTheStream(cfg: Config, events: seq<Event>, end: nat)
    ensures
      var d := Divide(events);
      AuNals(SegmentAus(Session(cfg, events, end).published)) == KeptNals(SeedGate(cfg), d.closed + [d.current])
  {
    hide Session, Divide, GroupsOf, StreamGroups, EpochAus, AllDepacketize, Depacketizes, KeptNals, AuNals, SegmentAus,
         Flatten;
    var d, g := Divide(events), SeedGate(cfg);
    var published := Session(cfg, events, end).published;
    SessionCarriesFrames(cfg, events, end);
    EpochsDepacketize(events);
    GroupsFlatten(published);
    GroupsHoldKept(g, d.closed);
    EpochHoldsKept(g, d.closed, d.current);
    AuNalsAppend(Flatten(GroupsOf(published).done), GroupsOf(published).open);
    KeptSnoc(g, d.closed, d.current);
  }

  lemma KeptSnoc(g: Gate, closed: seq<Epoch>, e: Epoch)
    ensures KeptNals(g, closed + [e]) == KeptNals(g, closed) + EmittedBefore(GateFor(g, AllUnits(closed)), e)
  {
    hide EmittedBefore, AllUnits, GateFor;
    assert (closed + [e])[..|closed|] == closed;
  }
}
