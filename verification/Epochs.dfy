/** The streaming pipeline refines a batch description.

    An epoch is a maximal run of packets whose sequence numbers follow each other modulo 2^16
    and whose payloads depacketize from scratch, without a gap message or an unreadable packet
    in between.  Each epoch is depacketized and cut into access units on its own; only the
    parameter sets carry over.  What the pipeline publishes between two cuts is exactly what
    one epoch yields.
 */
module Epochs {
  import opened Prelude
  import opened Rtp
  import opened Depacketizer
  import opened SyncGate
  import opened TsMux
  import opened Assembly
  import opened Live

  type Epoch = seq<RtpPacket>

  /** The epochs that are over, and the one under way. */
  datatype Division = Division(closed: seq<Epoch>, current: Epoch)

  function EndEpoch(d: Division): Division {
    if d.current == [] then d else Division(d.closed + [d.current], [])
  }

  predicate Follows(e: Epoch, pkt: RtpPacket) {
    e == [] || pkt.sequenceNumber == NextSeq(e[|e| - 1].sequenceNumber)
  }

  /** All payloads, taken from an idle depacketizer, are accepted. */
  predicate Depacketizes(e: Epoch) {
    PushAll(IDLE, Payloads(e)).nals.Ok?
  }

  function DividePacket(d: Division, pkt: RtpPacket): Division {
    var f := if Follows(d.current, pkt) then d else EndEpoch(d);
    if Depacketizes(f.current + [pkt]) then Division(f.closed, f.current + [pkt]) else EndEpoch(f)
  }

  function DivideMsg(d: Division, m: Msg): Division {
    match m
    case Motion => d
    case Gap => EndEpoch(d)
    case RtpMsg(bytes) =>
      match Decode(bytes)
      case Err(_) => EndEpoch(d)
      case Ok(pkt) => DividePacket(d, pkt)
  }

  /** The division of a run's messages; it does not depend on gates, clocks or segments. */
  function Divide(events: seq<Event>): Division {
    if events == [] then Division([], [])
    else DivideMsg(Divide(events[..|events| - 1]), events[|events| - 1].msg)
  }

  /** An epoch has contiguous sequence numbers and depacketizes from scratch. */
  ghost predicate IsEpoch(e: Epoch) {
    && (forall i :: 0 <= i < |e| - 1 ==> e[i + 1].sequenceNumber == NextSeq(e[i].sequenceNumber))
    && Depacketizes(e)
  }

  ghost predicate AreEpochs(d: Division) {
    && (forall k :: 0 <= k < |d.closed| ==> d.closed[k] != [] && IsEpoch(d.closed[k]))
    && IsEpoch(d.current)
  }

  lemma NoPacketsDepacketize()
    ensures IsEpoch([])
  {
    assert Payloads([]) == [];
  }

  lemma EndEpochKeeps(d: Division)
    requires AreEpochs(d)
    ensures AreEpochs(EndEpoch(d)) && EndEpoch(d).current == []
  {
    hide IsEpoch;
    NoPacketsDepacketize();
  }

  lemma DivideMsgKeeps(d: Division, m: Msg)
    requires AreEpochs(d)
    ensures AreEpochs(DivideMsg(d, m))
  {
    EndEpochKeeps(d);
    if m.RtpMsg? && Decode(m.bytes).Ok? {
      var pkt := Decode(m.bytes).value;
      var f := if Follows(d.current, pkt) then d else EndEpoch(d);
      EndEpochKeeps(f);
      if Depacketizes(f.current + [pkt]) {
        assert IsEpoch(f.current + [pkt]);
      }
    }
  }

  lemma {:induction false} DivisionIsEpochs(events: seq<Event>)
    ensures AreEpochs(Divide(events))
  {
    if events == [] {
      NoPacketsDepacketize();
    } else {
      hide AreEpochs, DivideMsg;
      DivisionIsEpochs(events[..|events| - 1]);
      DivideMsgKeeps(Divide(events[..|events| - 1]), events[|events| - 1].msg);
    }
  }

  // ---------------------------------------------------------------------------
  // What the epochs yield
  // ---------------------------------------------------------------------------

  /** The gate at the start of epoch `|closed|`: closed, with the parameter sets seen so far. */
  function GateAt(g: Gate, closed: seq<Epoch>): Gate {
    if closed == [] then g
    else
      var n := |closed| - 1;
      var before := GateAt(g, closed[..n]);
      var r := FeedAll(Start(before), closed[n]);
      if r.Some? then r.value.state.gate else before
  }

  /** The access units of an epoch whose packets come after the epochs in `closed`.  The last,
      unfinished one is not among them. */
  function AusAfter(g: Gate, closed: seq<Epoch>, e: Epoch): seq<AccessUnit> {
    var r := FeedAll(Start(GateAt(g, closed)), e);
    if r.Some? then r.value.aus else []
  }

  /** The access units of each epoch, leaving out epochs that yield none. */
  function Yield(g: Gate, closed: seq<Epoch>): seq<seq<AccessUnit>> {
    if closed == [] then []
    else
      var n := |closed| - 1;
      var aus := AusAfter(g, closed[..n], closed[n]);
      Yield(g, closed[..n]) + (if aus == [] then [] else [aus])
  }

  /** The access units of published segments, grouped: a cut ends a group. */
  datatype Groups = Groups(done: seq<seq<AccessUnit>>, open: seq<AccessUnit>)

  function GroupsOf(published: seq<Segment>): Groups {
    if published == [] then Groups([], [])
    else
      var front := GroupsOf(published[..|published| - 1]);
      var last := published[|published| - 1];
      var aus := front.open + last.aus;
      if last.cut then Groups(front.done + [aus], []) else Groups(front.done, aus)
  }

  function OpenAus(p: Publication): seq<AccessUnit> {
    if p.segment.Some? then p.segment.value.aus else []
  }

  /** The variables of the pipeline, said in terms of epochs. */
  ghost predicate Refines(g: Gate, s: State, d: Division) {
    var r := FeedAll(Start(GateAt(g, d.closed)), d.current);
    && r.Some? && s.asm == r.value.state
    && s.expectedSeq == ExpectedAfter(d.current)
    && GroupsMatch(s.pub, Yield(g, d.closed), r.value.aus)
  }

  function ExpectedAfter(e: Epoch): Option<u16> {
    if e == [] then None else Some(NextSeq(e[|e| - 1].sequenceNumber))
  }

  /** Between two cuts the published segments carry one epoch's access units, nothing else;
      the segments since the last cut and the open one carry those of the current epoch. */
  ghost predicate GroupsMatch(p: Publication, finished: seq<seq<AccessUnit>>, current: seq<AccessUnit>) {
    && GroupsOf(p.published).done == finished
    && GroupsOf(p.published).open + OpenAus(p) == current
    && (p.segment.None? ==> GroupsOf(p.published).open == [])
  }

  // ---------------------------------------------------------------------------
  // Every step keeps the refinement
  // ---------------------------------------------------------------------------

  lemma GroupsSnoc(published: seq<Segment>, s: Segment)
    ensures
      var front := GroupsOf(published);
      GroupsOf(published + [s]) ==
        if s.cut then Groups(front.done + [front.open + s.aus], []) else Groups(front.done, front.open + s.aus)
  {
    assert (published + [s])[..|published|] == published;
  }

  /** A cut ends the current group, unless nothing was written in it. */
  lemma CutGroups(p: Publication, now: nat, finished: seq<seq<AccessUnit>>, current: seq<AccessUnit>)
    requires GoodPublication(p) && GroupsMatch(p, finished, current)
    ensures GroupsMatch(HandleDiscontinuity(p, now), finished + (if current == [] then [] else [current]), [])
  {
    hide GoodSegments, LastUncut;
    if p.segment.Some? {
      GroupsSnoc(p.published, Close(p.segment.value, now, true));
      hide GroupsOf;
      assert current != [];
    } else {
      assert current == [] && finished + [] == finished;
    }
  }

  /** A delivered access unit becomes the last one of the current group, whether or not it
      makes the segment rotate. */
  lemma DeliverGroups(
      cfg: Config, p: Publication, au: AccessUnit, now: nat, finished: seq<seq<AccessUnit>>, current: seq<AccessUnit>)
    requires GoodPublication(p) && GroupsMatch(p, finished, current)
    requires p.segment.Some? || au.hasIdr
    ensures GroupsMatch(Deliver(cfg, p, au, now), finished, current + [au])
  {
    hide GoodSegments, LastUncut, GroupsOf;
    var open := GroupsOf(p.published).open;
    if ShouldRotate(cfg, p.segment, au, now) {
      GroupsSnoc(p.published, Close(p.segment.value, now, false));
      assert open + OpenAus(p) + [au] == current + [au];
    } else {
      assert open + (OpenAus(p) + [au]) == open + OpenAus(p) + [au];
    }
  }

  lemma YieldSnoc(g: Gate, closed: seq<Epoch>, e: Epoch)
    requires FeedAll(Start(GateAt(g, closed)), e).Some?
    ensures
      var r := FeedAll(Start(GateAt(g, closed)), e).value;
      && GateAt(g, closed + [e]) == r.state.gate
      && Yield(g, closed + [e]) == Yield(g, closed) + (if r.aus == [] then [] else [r.aus])
  {
    hide FeedAll, Start;
    assert (closed + [e])[..|closed|] == closed;
  }

  lemma InterruptRefines(g: Gate, s: State, d: Division, now: nat)
    requires Good(s) && Refines(g, s, d)
    ensures Refines(g, Interrupt(s, now), EndEpoch(d))
  {
    var start := Start(GateAt(g, d.closed));
    var r := FeedAll(start, d.current).value;
    CutGroups(s.pub, now, Yield(g, d.closed), r.aus);
    hide Good, GoodPublication, HandleDiscontinuity, GroupsMatch;
    if d.current == [] {
      FeedAllEmpty(start);
      assert Yield(g, d.closed) + [] == Yield(g, d.closed);
    } else {
      YieldSnoc(g, d.closed, d.current);
      FeedAllEmpty(Start(GateAt(g, d.closed + [d.current])));
    }
  }

  lemma AcceptedIffDepacketizes(g: Gate, closed: seq<Epoch>, e: Epoch, pkt: RtpPacket)
    requires FeedAll(Start(GateAt(g, closed)), e).Some?
    ensures
      var fed := Feed(FeedAll(Start(GateAt(g, closed)), e).value.state, pkt);
      && (fed.Went? <==> Depacketizes(e + [pkt]))
      && (fed.Went? ==>
           var aus := FeedAll(Start(GateAt(g, closed)), e).value.aus;
           FeedAll(Start(GateAt(g, closed)), e + [pkt]) == Some(Assembled(fed.state, aus + OptionSeq(fed.au))))
  {
    var start := Start(GateAt(g, closed));
    FeedAllSnoc(start, e, pkt);
    FeedAllFollowsDepacketizer(start, e + [pkt]);
    hide FeedAll, Feed;
  }

  /** A packet that continues the current epoch or starts one. */
  lemma FittingPacketRefines(cfg: Config, g: Gate, t: State, f: Division, pkt: RtpPacket, now: nat)
    requires Good(t) && Refines(g, t, f) && Follows(f.current, pkt)
    requires Feed(t.asm, pkt).Went? && Feed(t.asm, pkt).au.Some? ==>
      t.pub.segment.Some? || Feed(t.asm, pkt).au.value.hasIdr
    ensures
      var fed := Feed(t.asm, pkt);
      && (fed.Failed? ==> !Depacketizes(f.current + [pkt]))
      && (fed.Went? ==>
           var pub := if fed.au.Some? then Deliver(cfg, t.pub, fed.au.value, now) else t.pub;
           Depacketizes(f.current + [pkt])
           && Refines(g, State(Some(NextSeq(pkt.sequenceNumber)), fed.state, pub),
             Division(f.closed, f.current + [pkt])))
  {
    AcceptedIffDepacketizes(g, f.closed, f.current, pkt);
    hide Feed, FeedAll, Deliver, GroupsMatch, GoodPublication, Depacketizes, NextSeq, Yield, GateAt, Start;
    var fed := Feed(t.asm, pkt);
    var aus := FeedAll(Start(GateAt(g, f.closed)), f.current).value.aus;
    if fed.Went? {
      if fed.au.Some? {
        DeliverGroups(cfg, t.pub, fed.au.value, now, Yield(g, f.closed), aus);
      } else {
        assert aus + [] == aus;
      }
    }
  }

  lemma PacketRefines(cfg: Config, g: Gate, s: State, d: Division, pkt: RtpPacket, now: nat)
    requires Good(s) && Refines(g, s, d)
    ensures Refines(g, StepPacket(cfg, s, pkt, now), DividePacket(d, pkt))
  {
    var lost := s.expectedSeq.Some? && s.expectedSeq.value != pkt.sequenceNumber;
    assert lost <==> !Follows(d.current, pkt);
    var t := if lost then Interrupt(s, now) else s;
    var f := if Follows(d.current, pkt) then d else EndEpoch(d);
    if lost {
      InterruptRefines(g, s, d, now);
    }
    PacketKeepsGood(cfg, s, pkt, now);
    FittingPacketRefines(cfg, g, t, f, pkt, now);
    hide Good, Refines, Feed, Deliver, Interrupt, Depacketizes, NextSeq;
    if Feed(t.asm, pkt).Failed? {
      InterruptRefines(g, t, f, now);
    }
  }

  lemma {:induction false} RunRefines(cfg: Config, events: seq<Event>)
    ensures Refines(SeedGate(cfg), Run(cfg, events), Divide(events))
  {
    var g := SeedGate(cfg);
    if events == [] {
      FeedAllEmpty(Start(g));
    } else {
      var n := |events| - 1;
      var s, d, e := Run(cfg, events[..n]), Divide(events[..n]), events[n];
      RunRefines(cfg, events[..n]);
      RunIsGood(cfg, events[..n]);
      hide Good, Refines, Interrupt, StepPacket, DividePacket;
      InterruptRefines(g, s, d, e.now);
      if e.msg.RtpMsg? && Decode(e.msg.bytes).Ok? {
        PacketRefines(cfg, g, s, d, Decode(e.msg.bytes).value, e.now);
      }
    }
  }

  /** The packets that the pipeline takes in: those after which it expects a successor. */
  function Taken(cfg: Config, events: seq<Event>): seq<RtpPacket> {
    if events == [] then []
    else
      var n := |events| - 1;
      var m := events[n].msg;
      Taken(cfg, events[..n])
      + if m.RtpMsg? && Decode(m.bytes).Ok? && Run(cfg, events).expectedSeq.Some? then [Decode(m.bytes).value] else []
  }

  function PacketsOf(d: Division): seq<RtpPacket> {
    Concat(d.closed) + d.current
  }

  lemma EndEpochMovesNothing(d: Division)
    ensures PacketsOf(EndEpoch(d)) == PacketsOf(d)
  {
    if d.current != [] {
      ConcatAppend(d.closed, [d.current]);
      ConcatOne(d.current);
    }
  }

  lemma DividePacketAdds(d: Division, pkt: RtpPacket)
    ensures
      var r := DividePacket(d, pkt);
      PacketsOf(r) == PacketsOf(d) + if ExpectedAfter(r.current).Some? then [pkt] else []
  {
    hide Depacketizes, Concat;
    EndEpochMovesNothing(d);
    EndEpochMovesNothing(EndEpoch(d));
  }

  /** Every packet that is taken in is in exactly one epoch, and in its place. */
  lemma {:induction false} EpochsKeepEveryPacket(cfg: Config, events: seq<Event>)
    ensures Taken(cfg, events) == PacketsOf(Divide(events))
  {
    if events != [] {
      hide Run, Decode, DividePacket, PacketsOf;
      var n := |events| - 1;
      EpochsKeepEveryPacket(cfg, events[..n]);
      RunRefines(cfg, events);
      EndEpochMovesNothing(Divide(events[..n]));
      if events[n].msg.RtpMsg? && Decode(events[n].msg.bytes).Ok? {
        DividePacketAdds(Divide(events[..n]), Decode(events[n].msg.bytes).value);
      }
    }
  }

  /** On every run, whatever packets, gaps and errors come in: what the published segments
      carry between two cuts is exactly what one epoch yields, epoch after epoch, nothing lost,
      repeated or moved, and no access unit is built from packets of two epochs. */
  lemma {:induction false} SegmentsCarryEpochs(cfg: Config, events: seq<Event>)
    ensures
      var p, d, g := Run(cfg, events).pub, Divide(events), SeedGate(cfg);
      && AreEpochs(d)
      && GroupsOf(p.published).done == Yield(g, d.closed)
      && GroupsOf(p.published).open + OpenAus(p) == AusAfter(g, d.closed, d.current)
  {
    DivisionIsEpochs(events);
    RunRefines(cfg, events);
    hide AreEpochs;
  }

  /** The end of a session publishes what was still open, and adds nothing. */
  lemma {:induction false} SessionCarriesEpochs(cfg: Config, events: seq<Event>, end: nat)
    ensures
      var p, d, g := Session(cfg, events, end), Divide(events), SeedGate(cfg);
      && GroupsOf(p.published).done == Yield(g, d.closed)
      && GroupsOf(p.published).open == AusAfter(g, d.closed, d.current)
  {
    SegmentsCarryEpochs(cfg, events);
    RunIsGood(cfg, events);
    var p := Run(cfg, events).pub;
    hide GroupsOf, Run, GoodSegments, LastUncut, AreEpochs;
    if p.segment.Some? {
      GroupsSnoc(p.published, Close(p.segment.value, end, false));
    } else {
      assert GroupsOf(p.published).open + [] == GroupsOf(p.published).open;
    }
  }

  // ---------------------------------------------------------------------------
  // Motion messages
  // ---------------------------------------------------------------------------

  function WithoutMotion(events: seq<Event>): seq<Event> {
    if events == [] then []
    else
      var n := |events| - 1;
      WithoutMotion(events[..n]) + if events[n].msg.Motion? then [] else [events[n]]
  }

  /** Motion messages make no difference, wherever they come. */
  lemma {:induction false} MotionMakesNoDifference(events: seq<Event>)
    ensures Divide(WithoutMotion(events)) == Divide(events)
  {
    hide DivideMsg;
    if events != [] {
      var n := |events| - 1;
      MotionMakesNoDifference(events[..n]);
      var front, e := WithoutMotion(events[..n]), events[n];
      if e.msg.Motion? {
        assert front + [] == front;
        MotionDividesNothing(Divide(front));
      } else {
        assert (front + [e])[..|front|] == front;
      }
    }
  }

  lemma MotionDividesNothing(d: Division)
    ensures DivideMsg(d, Motion) == d
  {
  }
}
