/** Which access units the first pipeline accepts, said without its variables: the frames
    between the marker bits of each unbroken stretch of packets, from the first one on that
    holds an IDR when both parameter sets are known.
 */
module ClipFrames {
  import opened Prelude
  import opened Annexb
  import opened Rtp
  import opened Depacketizer
  import opened SyncGate
  import opened Assembly
  import opened Stream
  import opened Clips

  /** A packet and when it came in. */
  datatype Arrival = Arrival(pkt: RtpPacket, now: nat)

  function Packets(e: seq<Arrival>): (p: seq<RtpPacket>)
    ensures |p| == |e| && forall i :: 0 <= i < |e| ==> p[i] == e[i].pkt
  {
    seq(|e|, i requires 0 <= i < |e| => e[i].pkt)
  }

  predicate Depacketizes(e: seq<Arrival>) {
    PushAll(IDLE, Payloads(Packets(e))).nals.Ok?
  }

  /** The stretches of packets that are over, the one under way, and the number that would
      continue it.  A packet with another number ends the stretch and is itself lost. */
  datatype Listening = Listening(closed: seq<seq<Arrival>>, current: seq<Arrival>, expected: Option<u16>)

  function EndStretch(v: Listening, expected: Option<u16>): Listening {
    Listening(if v.current == [] then v.closed else v.closed + [v.current], [], expected)
  }

  function HearPacket(v: Listening, a: Arrival): Listening {
    var next := Some(NextSeq(a.pkt.sequenceNumber));
    if v.expected.Some? && v.expected.value != a.pkt.sequenceNumber then EndStretch(v, next)
    else if Depacketizes(v.current + [a]) then Listening(v.closed, v.current + [a], next)
    else EndStretch(v, None)
  }

  function Hear(v: Listening, e: Event): Listening {
    match e.msg
    case Tick => v
    case Motion(_) => v
    case Gap => EndStretch(v, None)
    case RtpMsg(bytes) =>
      match Decode(bytes)
      case Err(_) => EndStretch(v, None)
      case Ok(pkt) => HearPacket(v, Arrival(pkt, e.now))
  }

  function Listen(events: seq<Event>): Listening {
    if events == [] then Listening([], [], None)
    else Hear(Listen(events[..|events| - 1]), events[|events| - 1])
  }

  // ---------------------------------------------------------------------------
  // Frames
  // ---------------------------------------------------------------------------

  /** The NAL units between two markers, and when the second one came in. */
  datatype Frame = Frame(nals: seq<Bytes>, completedAt: nat)

  /** The NAL units of the packets from `s` on. */
  function UnitsSince(e: seq<RtpPacket>, s: nat): seq<Bytes>
    requires s <= |e|
  {
    Behind(Units(e), |Units(e[..s])|)
  }

  /** One frame for each marker, unless there was no NAL unit since the one before. */
  function FramesOf(e: seq<Arrival>): seq<Frame> {
    if e == [] then []
    else
      var n := |e| - 1;
      var nals := UnitsSince(Packets(e), FrameStart(Packets(e[..n])));
      FramesOf(e[..n]) + if e[n].pkt.marker && nals != [] then [Frame(nals, e[n].now)] else []
  }

  function FrameNals(frames: seq<Frame>): seq<Bytes> {
    if frames == [] then [] else FrameNals(frames[..|frames| - 1]) + frames[|frames| - 1].nals
  }

  function AllFrames(closed: seq<seq<Arrival>>): seq<Frame> {
    if closed == [] then [] else AllFrames(closed[..|closed| - 1]) + FramesOf(closed[|closed| - 1])
  }

  // ---------------------------------------------------------------------------
  // Which frames are accepted
  // ---------------------------------------------------------------------------

  /** Frame `j` brings its stretch into sync: it holds an IDR, and an SPS and a PPS were among
      the frames so far, those of earlier stretches included. */
  predicate Opens(heard: seq<Bytes>, frames: seq<Frame>, j: nat)
    requires j < |frames|
  {
    && HasIdr(frames[j].nals)
    && Latest(SPS, None, heard + FrameNals(frames[..j + 1])).Some?
    && Latest(PPS, None, heard + FrameNals(frames[..j + 1])).Some?
  }

  predicate InSync(heard: seq<Bytes>, frames: seq<Frame>, i: nat)
    requires i <= |frames|
  {
    exists j :: 0 <= j < i && Opens(heard, frames, j)
  }

  /** The units of a stretch: nothing before the frame that brings it into sync; that frame
      behind the last parameter sets; and every frame since as it is. */
  function Admitted(heard: seq<Bytes>, frames: seq<Frame>): seq<Unit> {
    if frames == [] then []
    else
      var n := |frames| - 1;
      var f := frames[n];
      Admitted(heard, frames[..n]) +
        if InSync(heard, frames, n) then [Unit(f.completedAt, f.nals, HasIdr(f.nals))]
        else if Opens(heard, frames, n) then
          var all := heard + FrameNals(frames[..n + 1]);
          [Unit(f.completedAt, [Latest(SPS, None, all).value, Latest(PPS, None, all).value] + f.nals, true)]
        else []
  }

  function AllAdmitted(closed: seq<seq<Arrival>>): seq<Unit> {
    if closed == [] then []
    else
      var n := |closed| - 1;
      AllAdmitted(closed[..n]) + Admitted(FrameNals(AllFrames(closed[..n])), FramesOf(closed[n]))
  }

  // ---------------------------------------------------------------------------
  // The pipeline accepts exactly those
  // ---------------------------------------------------------------------------

  /** The variables that admission depends on, in terms of frames. */
  ghost predicate Described(s: State, heard: seq<Bytes>, frames: seq<Frame>, before: seq<Unit>) {
    && s.sps == Latest(SPS, None, heard + FrameNals(frames))
    && s.pps == Latest(PPS, None, heard + FrameNals(frames))
    && s.synced == InSync(heard, frames, |frames|)
    && s.accepted == before + Admitted(heard, frames)
  }

  lemma FramesSnoc(heard: seq<Bytes>, frames: seq<Frame>, f: Frame)
    ensures FrameNals(frames + [f]) == FrameNals(frames) + f.nals
    ensures InSync(heard, frames + [f], |frames|) <==> InSync(heard, frames, |frames|)
    ensures InSync(heard, frames + [f], |frames| + 1) <==>
      InSync(heard, frames, |frames|) || Opens(heard, frames + [f], |frames|)
  {
    hide HasIdr, Latest;
    var all := frames + [f];
    assert all[..|frames|] == frames;
    forall j | 0 <= j < |frames|
      ensures Opens(heard, all, j) <==> Opens(heard, frames, j)
    {
      assert all[..j + 1] == frames[..j + 1];
    }
  }

  lemma AdmittedSnoc(heard: seq<Bytes>, frames: seq<Frame>, f: Frame)
    ensures
      var all := heard + FrameNals(frames + [f]);
      Admitted(heard, frames + [f]) == Admitted(heard, frames) +
        if InSync(heard, frames, |frames|) then [Unit(f.completedAt, f.nals, HasIdr(f.nals))]
        else if Opens(heard, frames + [f], |frames|) then
          assert (frames + [f])[..|frames| + 1] == frames + [f];
          [Unit(f.completedAt, [Latest(SPS, None, all).value, Latest(PPS, None, all).value] + f.nals, true)]
        else []
  {
    hide HasIdr, Latest, Opens, InSync;
    FramesSnoc(heard, frames, f);
    assert (frames + [f])[..|frames|] == frames && (frames + [f])[..|frames| + 1] == frames + [f];
  }

  lemma OpensLast(heard: seq<Bytes>, frames: seq<Frame>, f: Frame)
    ensures
      var all := heard + FrameNals(frames + [f]);
      Opens(heard, frames + [f], |frames|) <==>
        HasIdr(f.nals) && Latest(SPS, None, all).Some? && Latest(PPS, None, all).Some?
  {
    hide HasIdr, Latest, FrameNals;
    assert (frames + [f])[..|frames| + 1] == frames + [f];
  }

  /** A completed frame. */
  lemma {:induction false} CompleteAdmits(
      cfg: ClipConfig, s: State, heard: seq<Bytes>, frames: seq<Frame>, before: seq<Unit>, now: nat, later: nat)
    requires Described(s, heard, frames, before) && s.nals != []
    ensures
      var r := Complete(cfg, s, now, later);
      && Described(r, heard, frames + [Frame(s.nals, now)], before)
      && r.nals == [] && r.dep == s.dep && r.expectedSeq == s.expectedSeq
  {
    hide HasIdr, Latest, Opens, InSync, FrameNals, Admitted, Prune, TryStart;
    var f := Frame(s.nals, now);
    FramesSnoc(heard, frames, f);
    AdmittedSnoc(heard, frames, f);
    OpensLast(heard, frames, f);
    LatestAppend(SPS, None, heard + FrameNals(frames), s.nals);
    LatestAppend(PPS, None, heard + FrameNals(frames), s.nals);
    assert heard + FrameNals(frames + [f]) == heard + FrameNals(frames) + s.nals;
    assert before + Admitted(heard, frames) + [] == before + Admitted(heard, frames);
  }

  function Heard(v: Listening): seq<Bytes> {
    FrameNals(AllFrames(v.closed))
  }

  /** All variables but ring and clips, in terms of the stretches. */
  ghost predicate Hears(s: State, v: Listening) {
    && Depacketizes(v.current)
    && s.expectedSeq == v.expected
    && s.dep == PushAll(IDLE, Payloads(Packets(v.current))).state
    && s.nals == UnitsSince(Packets(v.current), FrameStart(Packets(v.current)))
    && Described(s, Heard(v), FramesOf(v.current), AllAdmitted(v.closed))
  }

  lemma NothingComesOfNothing()
    ensures Depacketizes([]) && PushAll(IDLE, Payloads(Packets([]))).state == IDLE
    ensures UnitsSince(Packets([]), FrameStart(Packets([]))) == [] && FramesOf([]) == []
  {
    assert Packets([]) == [] && Payloads([]) == [];
  }

  lemma {:induction false} FrameNalsAppend(a: seq<Frame>, b: seq<Frame>)
    ensures FrameNals(a + b) == FrameNals(a) + FrameNals(b)
    decreases |b|
  {
    if b == [] {
      assert a + b == a && FrameNals(a) + [] == FrameNals(a);
    } else {
      var m := |b| - 1;
      assert (a + b)[..|a + b| - 1] == a + b[..m];
      FrameNalsAppend(a, b[..m]);
    }
  }

  /** Ending a stretch. */
  lemma {:induction false} ResyncHears(s: State, v: Listening, expected: Option<u16>)
    requires Hears(s, v)
    ensures Hears(Resync(s, expected), EndStretch(v, expected))
  {
    hide Depacketizes, PushAll, UnitsSince, FramesOf, Latest, Opens, Packets, Payloads;
    NothingComesOfNothing();
    if v.current != [] {
      var closed := v.closed + [v.current];
      assert closed[..|v.closed|] == v.closed;
      FrameNalsAppend(AllFrames(v.closed), FramesOf(v.current));
      assert Heard(EndStretch(v, expected)) == Heard(v) + FrameNals(FramesOf(v.current));
    }
    assert FrameNals([]) == [] && Heard(EndStretch(v, expected)) + [] == Heard(EndStretch(v, expected));
    assert AllAdmitted(EndStretch(v, expected).closed) + [] == AllAdmitted(EndStretch(v, expected).closed);
  }

  lemma PacketsSnoc(e: seq<Arrival>, a: Arrival)
    ensures Packets(e + [a]) == Packets(e) + [a.pkt]
  {
  }

  lemma {:induction false} UnitsSinceGrow(e: seq<RtpPacket>, pkt: RtpPacket, s: nat)
    requires s <= |e| && PushAll(IDLE, Payloads(e + [pkt])).nals.Ok?
    ensures
      var last := Push(PushAll(IDLE, Payloads(e)).state, pkt.payload).nals;
      last.Ok? && UnitsSince(e + [pkt], s) == UnitsSince(e, s) + last.value
    ensures UnitsSince(e + [pkt], |e| + 1) == []
  {
    hide Units, PushAll, Push;
    UnitsSnoc(e, pkt);
    UnitsOfPrefix(e, s);
    assert (e + [pkt])[..s] == e[..s] && (e + [pkt])[..|e| + 1] == e + [pkt];
  }

  lemma FramesOfSnoc(e: seq<Arrival>, a: Arrival)
    ensures
      var nals := UnitsSince(Packets(e + [a]), FrameStart(Packets(e)));
      FramesOf(e + [a]) == FramesOf(e) + if a.pkt.marker && nals != [] then [Frame(nals, a.now)] else []
  {
    hide UnitsSince;
    assert (e + [a])[..|e|] == e;
  }

  /** A packet that continues its stretch. */
  lemma {:induction false} NextPacketHears(cfg: ClipConfig, s: State, v: Listening, a: Arrival, later: nat)
    requires Hears(s, v) && Depacketizes(v.current + [a])
    ensures
      var d := Push(s.dep, a.pkt.payload);
      && d.nals.Ok?
      && var next := Some(NextSeq(a.pkt.sequenceNumber));
         var t := s.(expectedSeq := next, dep := d.state, nals := s.nals + d.nals.value);
         var r := if a.pkt.marker then Complete(cfg, t, a.now, later) else t;
         Hears(r, Listening(v.closed, v.current + [a], next))
  {
    hide PushAll, Push, UnitsSince, FramesOf, FrameStart, Complete, Described, Packets, AllAdmitted, Payloads, Heard;
    var e := Packets(v.current);
    PacketsSnoc(v.current, a);
    UnitsSnoc(e, a.pkt);
    UnitsSinceGrow(e, a.pkt, FrameStart(e));
    FrameStartSnoc(e, a.pkt);
    FramesOfSnoc(v.current, a);
    var d := Push(s.dep, a.pkt.payload);
    var t := s.(expectedSeq := Some(NextSeq(a.pkt.sequenceNumber)), dep := d.state, nals := s.nals + d.nals.value);
    SameDescribed(s, t, Heard(v), FramesOf(v.current), AllAdmitted(v.closed));
    assert FramesOf(v.current) + [] == FramesOf(v.current);
    if a.pkt.marker {
      if t.nals == [] {
        NothingToComplete(cfg, t, a.now, later);
      } else {
        CompleteAdmits(cfg, t, Heard(v), FramesOf(v.current), AllAdmitted(v.closed), a.now, later);
      }
    }
    HeardAlike(v, v.current + [a], t.expectedSeq);
  }

  lemma HeardAlike(v: Listening, current: seq<Arrival>, expected: Option<u16>)
    ensures Heard(Listening(v.closed, current, expected)) == Heard(v)
  {
  }

  lemma NothingToComplete(cfg: ClipConfig, s: State, now: nat, later: nat)
    requires s.nals == []
    ensures Complete(cfg, s, now, later) == s
  {
  }

  lemma SameDescribed(s: State, t: State, heard: seq<Bytes>, frames: seq<Frame>, before: seq<Unit>)
    requires Described(s, heard, frames, before)
    requires t == s.(expectedSeq := t.expectedSeq, dep := t.dep, nals := t.nals)
    ensures Described(t, heard, frames, before)
  {
  }

  lemma {:induction false} FailingPacketFails(s: State, v: Listening, a: Arrival)
    requires Hears(s, v) && !Depacketizes(v.current + [a])
    ensures Push(s.dep, a.pkt.payload).nals.Err?
  {
    hide PushAll, Push, Described;
    PacketsSnoc(v.current, a);
    assert Payloads(Packets(v.current) + [a.pkt]) == Payloads(Packets(v.current)) + [a.pkt.payload];
    PushAllAppend(IDLE, Payloads(Packets(v.current)), [a.pkt.payload]);
    PushAllOne(s.dep, a.pkt.payload);
  }

  lemma {:induction false} StepHears(cfg: ClipConfig, s: State, v: Listening, e: Event)
    requires Hears(s, v)
    ensures Hears(Step(cfg, s, e), Hear(v, e))
  {
    hide Hears, Push, Decode, Complete, Due, Depacketizes;
    ResyncHears(s, v, None);
    match e.msg
    case Tick => OtherVariables(s, Step(cfg, s, e), v);
    case Motion(_) => OtherVariables(s, Step(cfg, s, e), v);
    case Gap =>
    case RtpMsg(bytes) =>
      if Decode(bytes).Ok? {
        PacketHears(cfg, s, v, Arrival(Decode(bytes).value, e.now), e.later);
      }
  }

  lemma PacketHears(cfg: ClipConfig, s: State, v: Listening, a: Arrival, later: nat)
    requires Hears(s, v)
    ensures Hears(StepPacket(cfg, s, a.pkt, a.now, later), HearPacket(v, a))
  {
    hide Hears, Push, Complete, Depacketizes, Resync, EndStretch;
    SameExpected(s, v);
    ResyncHears(s, v, None);
    ResyncHears(s, v, Some(NextSeq(a.pkt.sequenceNumber)));
    if Depacketizes(v.current + [a]) {
      NextPacketHears(cfg, s, v, a, later);
    } else {
      FailingPacketFails(s, v, a);
    }
  }

  lemma SameExpected(s: State, v: Listening)
    requires Hears(s, v)
    ensures s.expectedSeq == v.expected
  {
  }

  lemma OtherVariables(s: State, t: State, v: Listening)
    requires Hears(s, v) && t == s.(request := t.request, clip := t.clip, finished := t.finished)
    ensures Hears(t, v)
  {
    hide UnitsSince, FramesOf, FrameStart, Admitted, PushAll, Depacketizes;
  }

  lemma {:induction false} RunHears(cfg: ClipConfig, events: seq<Event>)
    ensures Hears(Run(cfg, events), Listen(events))
  {
    if events == [] {
      NothingComesOfNothing();
    } else {
      hide Hears, Step, Hear;
      var n := |events| - 1;
      RunHears(cfg, events[..n]);
      StepHears(cfg, Run(cfg, events[..n]), Listen(events[..n]), events[n]);
    }
  }

  /** On every run the accepted units are exactly those of the stretches of packets, in order:
      of each stretch every frame from the one on that brings it into sync, whole, once, and
      with the time at which its marker came in. */
  lemma {:induction false} AcceptedUnits(cfg: ClipConfig, events: seq<Event>)
    ensures
      var v := Listen(events);
      Run(cfg, events).accepted == AllAdmitted(v.closed) + Admitted(Heard(v), FramesOf(v.current))
  {
    hide Run, Listen, FramesOf, Admitted, AllAdmitted;
    RunHears(cfg, events);
  }

  /** Every NAL unit of the frames completed so far. */
  function HeardBy(events: seq<Event>): seq<Bytes> {
    var v := Listen(events);
    Heard(v) + FrameNals(FramesOf(v.current))
  }

  /** The parameter sets known at any moment are the last ones among the completed frames. */
  lemma {:induction false} KnownSets(cfg: ClipConfig, events: seq<Event>)
    ensures Run(cfg, events).sps == Latest(SPS, None, HeardBy(events))
    ensures Run(cfg, events).pps == Latest(PPS, None, HeardBy(events))
  {
    hide Run, Listen, FramesOf, Admitted, AllAdmitted, Latest;
    RunHears(cfg, events);
  }
}
