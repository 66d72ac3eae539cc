/** From the camera's NAL units to a player's screen: when no packet is lost, the published
    segments, demultiplexed, are the camera's stream from its first decodable IDR on.
 */
module EndToEnd {
  import opened Prelude
  import opened Annexb
  import opened Rtp
  import opened Depacketizer
  import opened SyncGate
  import opened TsMux
  import opened TsDemux
  import opened Assembly
  import opened Live
  import opened Epochs
  import opened Conservation

  // ---------------------------------------------------------------------------
  // A sender after RFC 6184
  // ---------------------------------------------------------------------------

  /** One way to put NAL units into RTP payloads; each NAL unit may be carried differently. */
  datatype Carriage =
    | Single(nal: Bytes)
    | Aggregate(nri: nat, nals: seq<Bytes>)
    | Fragmented(header: u8, parts: seq<Bytes>)
  {
    ghost predicate Valid() {
      match this
      case Single(nal) => nal != [] && 1 <= nal[0] % 0x20 <= 23
      case Aggregate(nri, nals) => nri < 8 && Aggregable(nals)
      case Fragmented(header, parts) => 2 <= |parts| && 1 <= header % 0x20 <= 23
    }

    ghost function Payloads(): seq<Bytes>
      requires Valid()
    {
      match this
      case Single(nal) => [nal]
      case Aggregate(nri, nals) => [[0x20 * nri + 24] + StapBody(nals)]
      case Fragmented(header, parts) => Fragments(header, parts)
    }

    /** The NAL units carried, without start codes. */
    function Nals(): seq<Bytes> {
      match this
      case Single(nal) => [nal]
      case Aggregate(_, nals) => nals
      case Fragmented(header, parts) => [[header] + Concat(parts)]
    }
  }

  /** A picture as the camera sends it. */
  datatype Frame = Frame(timestamp: u32, carriages: seq<Carriage>) {
    ghost predicate Valid() {
      carriages != [] && forall c :: c in carriages ==> c.Valid()
    }
  }

  ghost function CarriagePayloads(cs: seq<Carriage>): seq<Bytes>
    requires forall c :: c in cs ==> c.Valid()
  {
    if cs == [] then [] else CarriagePayloads(cs[..|cs| - 1]) + cs[|cs| - 1].Payloads()
  }

  function CarriageNals(cs: seq<Carriage>): seq<Bytes> {
    if cs == [] then [] else CarriageNals(cs[..|cs| - 1]) + cs[|cs| - 1].Nals()
  }

  /** The RTP packets of a frame: its payloads in order, one time stamp, the marker on the
      last one only. */
  ghost predicate Carries(wires: seq<Wire>, f: Frame)
    requires f.Valid()
  {
    var payloads := CarriagePayloads(f.carriages);
    && |wires| == |payloads|
    && forall i :: 0 <= i < |wires| ==>
         && wires[i].Valid() && wires[i].payload == payloads[i]
         && wires[i].timestamp == f.timestamp && (wires[i].marker <==> i == |wires| - 1)
  }

  // ---------------------------------------------------------------------------
  // What should come out
  // ---------------------------------------------------------------------------

  /** All NAL units of some frames, with start codes. */
  function StreamNals(frames: seq<Frame>): seq<Bytes> {
    if frames == [] then [] else StreamNals(frames[..|frames| - 1]) + FrameNals(frames[|frames| - 1])
  }

  function FrameNals(f: Frame): seq<Bytes> {
    AnnexbAll(CarriageNals(f.carriages))
  }

  /** The access units to publish: for each frame what the gate lets through of it, frames
      that yield nothing left out. */
  function ExpectedAus(g: Gate, frames: seq<Frame>): seq<AccessUnit> {
    if frames == [] then []
    else
      var n := |frames| - 1;
      ExpectedAus(g, frames[..n]) + OptionSeq(ExpectedAu(g, frames[..n], frames[n]))
  }

  function ExpectedAu(g: Gate, before: seq<Frame>, f: Frame): Option<AccessUnit> {
    var out := PushNals(PushNals(g, StreamNals(before)).gate, FrameNals(f)).out;
    if out == [] then None else Some(AccessUnit(f.timestamp, out, HasIdr(out)))
  }

  /** Together the expected access units hold, in order, what the gate emits for the whole
      stream: the NAL units from the first IDR with known parameter sets on, with the latest
      SPS and PPS moved in front of every IDR. */
  lemma {:induction false} ExpectedIsGatedStream(g: Gate, frames: seq<Frame>)
    ensures AuNals(ExpectedAus(g, frames)) == Concat(Emissions(g, StreamNals(frames)))
    decreases |frames|
  {
    GateEmits(g, StreamNals(frames));
    hide Emissions, FrameNals;
    if frames == [] {
      assert PushNals(g, []).out == [];
    } else {
      var n := |frames| - 1;
      var before, f := frames[..n], frames[n];
      ExpectedIsGatedStream(g, before);
      GateEmits(g, StreamNals(before));
      PushNalsAppend(g, StreamNals(before), FrameNals(f));
      AuNalsSnoc(ExpectedAus(g, before), ExpectedAu(g, before, f));
      hide PushNals;
    }
  }

  // ---------------------------------------------------------------------------
  // Depacketizing
  // ---------------------------------------------------------------------------

  lemma SingleDepacketizes(s: DepState, nal: Bytes)
    requires nal != [] && 1 <= nal[0] % 0x20 <= 23
    ensures PushAll(s, [nal]) == DepStep(s, Ok(AnnexbAll([nal])))
  {
    PushAllOne(s, nal);
    hide PushAll, FromRaw;
    assert AnnexbAll([nal]) == [FromRaw(nal)];
  }

  lemma AggregateDepacketizes(s: DepState, nri: nat, nals: seq<Bytes>)
    requires nri < 8 && Aggregable(nals)
    ensures PushAll(s, [[0x20 * nri + 24] + StapBody(nals)]) == DepStep(s, Ok(AnnexbAll(nals)))
  {
    hide PushAll, StapBody, StapNals, AnnexbAll, FromRaw, PushFragment;
    var indicator: u8 := 0x20 * nri + 24;
    assert indicator % 0x20 == 24;
    var payload := [indicator] + StapBody(nals);
    PushAllOne(s, payload);
    StapDecodesEncoding(nals);
    assert payload[1..] == StapBody(nals) && payload[0] == indicator;
  }

  /** From any state, whatever is half-reassembled there: exactly the NAL units carried. */
  lemma CarriageDepacketizes(s: DepState, c: Carriage)
    requires c.Valid()
    ensures PushAll(s, c.Payloads()) == DepStep(if c.Fragmented? then IDLE else s, Ok(AnnexbAll(c.Nals())))
  {
    hide PushAll, StapBody, Fragments, FromRaw;
    match c
    case Single(nal) => SingleDepacketizes(s, nal);
    case Aggregate(nri, nals) => AggregateDepacketizes(s, nri, nals);
    case Fragmented(header, parts) =>
      FragmentsReassemble(s, header, parts);
      assert AnnexbAll([[header] + Concat(parts)]) == [FromRaw([header] + Concat(parts))];
  }

  lemma {:induction false} CarriagesDepacketize(cs: seq<Carriage>)
    requires forall c :: c in cs ==> c.Valid()
    ensures PushAll(IDLE, CarriagePayloads(cs)) == DepStep(IDLE, Ok(AnnexbAll(CarriageNals(cs))))
    decreases |cs|
  {
    if cs != [] {
      var n := |cs| - 1;
      CarriagesDepacketize(cs[..n]);
      CarriageDepacketizes(IDLE, cs[n]);
      hide PushAll, AnnexbAll;
      PushAllAppend(IDLE, CarriagePayloads(cs[..n]), cs[n].Payloads());
      AnnexbAllAppend(CarriageNals(cs[..n]), cs[n].Nals());
    } else {
      assert AnnexbAll([]) == [];
    }
  }

  lemma AnnexbAllAppend(a: seq<Bytes>, b: seq<Bytes>)
    ensures AnnexbAll(a + b) == AnnexbAll(a) + AnnexbAll(b)
  {
    hide FromRaw;
  }

  lemma PayloadsNotEmpty(cs: seq<Carriage>)
    requires cs != [] && forall c :: c in cs ==> c.Valid()
    ensures CarriagePayloads(cs) != []
  {
    assert cs[|cs| - 1].Valid();
    assert cs[|cs| - 1].Payloads() != [];
  }

  // ---------------------------------------------------------------------------
  // Assembling
  // ---------------------------------------------------------------------------

  ghost predicate AllValid(wires: seq<Wire>) {
    forall w :: w in wires ==> w.Valid()
  }

  function Packets(wires: seq<Wire>): (p: seq<RtpPacket>)
    requires AllValid(wires)
    ensures |p| == |wires| && forall i :: 0 <= i < |wires| ==> p[i] == wires[i].Packet()
  {
    seq(|wires|, i requires 0 <= i < |wires| => assert wires[i] in wires; wires[i].Packet())
  }

  /** Packets of one access unit before its marker. */
  ghost predicate Unmarked(pkts: seq<RtpPacket>, ts: u32) {
    forall i :: 0 <= i < |pkts| ==> !pkts[i].marker && pkts[i].timestamp == ts
  }

  lemma {:induction false} FeedUnmarked(gate: Gate, pkts: seq<RtpPacket>, ts: u32)
    requires Unmarked(pkts, ts) && PushAll(IDLE, Payloads(pkts)).nals.Ok?
    ensures
      var d := PushAll(IDLE, Payloads(pkts));
      var r := PushNals(gate, d.nals.value);
      FeedAll(Assembly(IDLE, gate, [], None), pkts)
        == Some(Assembled(Assembly(d.state, r.gate, r.out, if pkts == [] then None else Some(ts)), []))
    decreases |pkts|
  {
    var a := Assembly(IDLE, gate, [], None);
    if pkts == [] {
      assert Payloads(pkts) == [];
    } else {
      var n := |pkts| - 1;
      var front, last := pkts[..n], pkts[n];
      assert pkts == front + [last];
      assert Payloads(pkts) == Payloads(front) + [last.payload];
      PrefixDepacketizes(IDLE, Payloads(front), [last.payload]);
      FeedUnmarked(gate, front, ts);
      FeedAllSnoc(a, front, last);
      StepNals(gate, Payloads(front), last.payload);
      hide FeedAll, Feed, PushAll, PushNals, Push, Payloads;
      FeedStep(FeedAll(a, front).value.state, last, ts);
      var none: seq<AccessUnit> := [];
      assert none + OptionSeq(None) == none;
    }
  }

  /** One packet of an access unit whose time stamp is settled, or settled by it. */
  lemma FeedStep(a: Assembly, pkt: RtpPacket, ts: u32)
    requires Push(a.dep, pkt.payload).nals.Ok? && pkt.timestamp == ts && (a.ts.Some? ==> a.ts.value == ts)
    ensures
      var d := Push(a.dep, pkt.payload);
      var r := PushNals(a.gate, d.nals.value);
      var nals := a.nals + r.out;
      Feed(a, pkt) ==
        if !pkt.marker then Went(Assembly(d.state, r.gate, nals, Some(ts)), None)
        else Went(Assembly(d.state, r.gate, [], None), if nals == [] then None else Some(BuildAccessUnit(nals, ts)))
  {
    hide Push, PushNals, BuildAccessUnit;
  }

  /** The gate sees the NAL units of one more payload. */
  lemma StepNals(gate: Gate, front: seq<Bytes>, last: Bytes)
    requires PushAll(IDLE, front).nals.Ok? && PushAll(IDLE, front + [last]).nals.Ok?
    ensures
      var d0, d := PushAll(IDLE, front), PushAll(IDLE, front + [last]);
      var l := Push(d0.state, last);
      && l.nals.Ok? && d.state == l.state
      && var r0 := PushNals(gate, d0.nals.value);
         var r := PushNals(r0.gate, l.nals.value);
         PushNals(gate, d.nals.value) == GateStep(r.gate, r0.out + r.out)
  {
    PushAllAppend(IDLE, front, [last]);
    PushAllOne(PushAll(IDLE, front).state, last);
    hide PushAll, Push;
    PushNalsAppend(gate, PushAll(IDLE, front).nals.value, Push(PushAll(IDLE, front).state, last).nals.value);
  }

  lemma {:induction false} PrefixDepacketizes(s: DepState, a: seq<Bytes>, b: seq<Bytes>)
    requires PushAll(s, a + b).nals.Ok?
    ensures PushAll(s, a).nals.Ok?
    decreases |a|
  {
    if a != [] {
      assert (a + b)[0] == a[0] && (a + b)[1..] == a[1..] + b;
      hide Push;
      PrefixDepacketizes(Push(s, a[0]).state, a[1..], b);
    }
  }

  /** The packets of a whole frame: one access unit, or none, and a clean slate. */
  lemma FeedFrame(gate: Gate, pkts: seq<RtpPacket>, ts: u32)
    requires pkts != [] && Unmarked(pkts[..|pkts| - 1], ts)
    requires var last := pkts[|pkts| - 1]; last.marker && last.timestamp == ts
    requires PushAll(IDLE, Payloads(pkts)).nals.Ok? && PushAll(IDLE, Payloads(pkts)).state == IDLE
    ensures
      var r := PushNals(gate, PushAll(IDLE, Payloads(pkts)).nals.value);
      FeedAll(Assembly(IDLE, gate, [], None), pkts)
        == Some(Assembled(Assembly(IDLE, r.gate, [], None),
                          if r.out == [] then [] else [BuildAccessUnit(r.out, ts)]))
  {
    var a := Assembly(IDLE, gate, [], None);
    var n := |pkts| - 1;
    var front, last := pkts[..n], pkts[n];
    assert pkts == front + [last];
    assert Payloads(pkts) == Payloads(front) + [last.payload];
    PrefixDepacketizes(IDLE, Payloads(front), [last.payload]);
    FeedUnmarked(gate, front, ts);
    FeedAllSnoc(a, front, last);
    StepNals(gate, Payloads(front), last.payload);
    hide FeedAll, Feed, PushAll, PushNals, Push, Payloads, BuildAccessUnit;
    var before := FeedAll(a, front).value;
    FeedStep(before.state, last, ts);
    var au := Feed(before.state, last).au;
    assert before.aus == [] && before.aus + OptionSeq(au) == OptionSeq(au);
  }

  // ---------------------------------------------------------------------------
  // A run without loss
  // ---------------------------------------------------------------------------

  /** Frame by frame, the packets that carry a stream. */
  ghost predicate CarriesAll(sent: seq<seq<Wire>>, frames: seq<Frame>) {
    && |sent| == |frames|
    && forall j :: 0 <= j < |frames| ==> frames[j].Valid() && Carries(sent[j], frames[j])
  }

  function AllWires(sent: seq<seq<Wire>>): seq<Wire> {
    if sent == [] then [] else AllWires(sent[..|sent| - 1]) + sent[|sent| - 1]
  }

  lemma {:induction false} AllWiresValid(sent: seq<seq<Wire>>, frames: seq<Frame>)
    requires CarriesAll(sent, frames)
    ensures AllValid(AllWires(sent))
    decreases |sent|
  {
    if sent != [] {
      var n := |sent| - 1;
      CarriesAllPrefix(sent, frames);
      AllWiresValid(sent[..n], frames[..n]);
    }
  }

  lemma CarriesAllPrefix(sent: seq<seq<Wire>>, frames: seq<Frame>)
    requires CarriesAll(sent, frames) && sent != []
    ensures |sent| == |frames|
    ensures CarriesAll(sent[..|sent| - 1], frames[..|frames| - 1])
    ensures frames[|frames| - 1].Valid() && Carries(sent[|sent| - 1], frames[|frames| - 1])
  {
    hide Carries;
  }

  /** The parsed packets of one frame. */
  ghost predicate FrameArrives(pkts: seq<RtpPacket>, f: Frame) {
    && f.Valid() && pkts != []
    && Unmarked(pkts[..|pkts| - 1], f.timestamp)
    && pkts[|pkts| - 1].marker && pkts[|pkts| - 1].timestamp == f.timestamp
    && Payloads(pkts) == CarriagePayloads(f.carriages)
  }

  lemma FramePackets(wires: seq<Wire>, f: Frame)
    requires f.Valid() && Carries(wires, f)
    ensures AllValid(wires)
    ensures FrameArrives(Packets(wires), f)
  {
    PayloadsNotEmpty(f.carriages);
    var pkts := Packets(wires);
    assert Payloads(pkts) == CarriagePayloads(f.carriages);
  }

  lemma {:induction false} FeedArrived(gate: Gate, pkts: seq<RtpPacket>, f: Frame)
    requires FrameArrives(pkts, f)
    ensures
      var r := PushNals(gate, FrameNals(f));
      FeedAll(Assembly(IDLE, gate, [], None), pkts)
        == Some(Assembled(Assembly(IDLE, r.gate, [], None),
                          if r.out == [] then [] else [BuildAccessUnit(r.out, f.timestamp)]))
  {
    hide FeedAll, PushAll, CarriagePayloads, PushNals, BuildAccessUnit, Payloads;
    CarriagesDepacketize(f.carriages);
    FeedFrame(gate, pkts, f.timestamp);
  }

  function AllPackets(parts: seq<seq<RtpPacket>>): seq<RtpPacket> {
    if parts == [] then [] else AllPackets(parts[..|parts| - 1]) + parts[|parts| - 1]
  }

  ghost predicate AllArrive(parts: seq<seq<RtpPacket>>, frames: seq<Frame>) {
    |parts| == |frames| && forall j :: 0 <= j < |frames| ==> FrameArrives(parts[j], frames[j])
  }

  lemma AllArrivePrefix(parts: seq<seq<RtpPacket>>, frames: seq<Frame>)
    requires AllArrive(parts, frames) && parts != []
    ensures AllArrive(parts[..|parts| - 1], frames[..|frames| - 1])
    ensures FrameArrives(parts[|parts| - 1], frames[|frames| - 1])
  {
    hide FrameArrives;
  }

  lemma {:induction false} ExpectedSnoc(g: Gate, frames: seq<Frame>)
    requires frames != []
    ensures
      var n := |frames| - 1;
      var r := PushNals(PushNals(g, StreamNals(frames[..n])).gate, FrameNals(frames[n]));
      && PushNals(g, StreamNals(frames)).gate == r.gate
      && ExpectedAus(g, frames) == ExpectedAus(g, frames[..n])
           + (if r.out == [] then [] else [BuildAccessUnit(r.out, frames[n].timestamp)])
  {
    hide PushNals, FrameNals, HasIdr;
    var n := |frames| - 1;
    PushNalsAppend(g, StreamNals(frames[..n]), FrameNals(frames[n]));
  }

  /** All packets of a stream are accepted from scratch and yield the expected access units. */
  lemma {:induction false} FeedStream(gate: Gate, parts: seq<seq<RtpPacket>>, frames: seq<Frame>)
    requires AllArrive(parts, frames)
    ensures FeedAll(Assembly(IDLE, gate, [], None), AllPackets(parts))
         == Some(Assembled(Assembly(IDLE, PushNals(gate, StreamNals(frames)).gate, [], None),
           ExpectedAus(gate, frames)))
    decreases |parts|
  {
    if parts != [] {
      var n := |parts| - 1;
      var front, last := AllPackets(parts[..n]), parts[n];
      AllArrivePrefix(parts, frames);
      FeedStream(gate, parts[..n], frames[..n]);
      ExpectedSnoc(gate, frames);
      hide AllArrive, FrameArrives, FeedAll, PushNals, FrameNals, StreamNals, ExpectedAus, BuildAccessUnit;
      FeedAllAppend(Assembly(IDLE, gate, [], None), front, last);
      FeedArrived(PushNals(gate, StreamNals(frames[..n])).gate, last, frames[n]);
    }
  }

  lemma PacketsAppend(a: seq<Wire>, b: seq<Wire>)
    requires AllValid(a + b)
    ensures AllValid(a) && AllValid(b)
    ensures Packets(a + b) == Packets(a) + Packets(b)
  {
    hide Wire.Valid;
    assert forall w :: w in a ==> w in a + b;
    assert forall w :: w in b ==> w in a + b;
  }

  /** Parsing frame by frame is parsing all packets. */
  lemma {:induction false} ArrivedPackets(sent: seq<seq<Wire>>, frames: seq<Frame>) returns (parts: seq<seq<RtpPacket>>)
    requires CarriesAll(sent, frames)
    requires AllValid(AllWires(sent))
    ensures AllArrive(parts, frames)
    ensures AllPackets(parts) == Packets(AllWires(sent))
    decreases |sent|
  {
    hide *;
    if sent == [] {
      parts := [];
      NothingArrives(sent, frames);
    } else {
      var n := |sent| - 1;
      CarriesAllPrefix(sent, frames);
      FramePackets(sent[n], frames[n]);
      AllWiresSnoc(sent);
      PacketsAppend(AllWires(sent[..n]), sent[n]);
      var front := ArrivedPackets(sent[..n], frames[..n]);
      parts := front + [Packets(sent[n])];
      ArriveSnoc(front, frames[..n], Packets(sent[n]), frames[n]);
      assert frames == frames[..n] + [frames[n]];
    }
  }

  lemma NothingArrives(sent: seq<seq<Wire>>, frames: seq<Frame>)
    requires CarriesAll(sent, frames) && sent == []
    ensures AllArrive([], frames) && AllValid(AllWires(sent)) && AllPackets([]) == Packets(AllWires(sent))
  {
  }

  lemma AllWiresSnoc(sent: seq<seq<Wire>>)
    requires sent != []
    ensures AllWires(sent) == AllWires(sent[..|sent| - 1]) + sent[|sent| - 1]
  {
  }

  lemma ArriveSnoc(parts: seq<seq<RtpPacket>>, frames: seq<Frame>, last: seq<RtpPacket>, f: Frame)
    requires AllArrive(parts, frames) && FrameArrives(last, f)
    ensures AllArrive(parts + [last], frames + [f])
    ensures AllPackets(parts + [last]) == AllPackets(parts) + last
  {
    hide FrameArrives;
    assert (parts + [last])[..|parts|] == parts;
  }

  /** The messages deliver these packets, numbered without a hole modulo 2^16, with any motion
      messages in between. */
  ghost predicate Delivers(events: seq<Event>, wires: seq<Wire>, first: u16) {
    DeliversOnly(WithoutMotion(events), wires, first)
  }

  ghost predicate DeliversOnly(events: seq<Event>, wires: seq<Wire>, first: u16) {
    && |events| == |wires|
    && forall i :: 0 <= i < |wires| ==>
         && wires[i].Valid() && wires[i].sequenceNumber == (first + i) % 0x1_0000
         && events[i].msg == RtpMsg(wires[i].Encode())
  }

  lemma {:induction false} OneEpoch(events: seq<Event>, wires: seq<Wire>, first: u16, pkts: seq<RtpPacket>)
    requires DeliversOnly(events, wires, first)
    requires |pkts| == |wires| && forall i :: 0 <= i < |wires| ==> pkts[i] == wires[i].Packet()
    requires Depacketizes(pkts)
    ensures Divide(events) == Division([], pkts)
    decreases |events|
  {
    if events != [] {
      var n := |events| - 1;
      assert pkts == pkts[..n] + [pkts[n]];
      assert Payloads(pkts) == Payloads(pkts[..n]) + [pkts[n].payload];
      PrefixDepacketizes(IDLE, Payloads(pkts[..n]), [pkts[n].payload]);
      OneEpoch(events[..n], wires[..n], first, pkts[..n]);
      DecodeInvertsEncode(wires[n]);
      SameEpoch(pkts, first);
      hide Decode, Depacketizes, NextSeq, Payloads;
      assert DivideMsg(Divide(events[..n]), events[n].msg) == DividePacket(Divide(events[..n]), pkts[n]);
    }
  }

  lemma SameEpoch(pkts: seq<RtpPacket>, first: u16)
    requires pkts != [] && forall i :: 0 <= i < |pkts| ==> pkts[i].sequenceNumber == (first + i) % 0x1_0000
    ensures Follows(pkts[..|pkts| - 1], pkts[|pkts| - 1])
  {
    var n := |pkts| - 1;
    if n > 0 {
      Successor(first + n - 1);
      assert pkts[n - 1].sequenceNumber == (first + (n - 1)) % 0x1_0000;
    }
  }

  lemma Successor(k: nat)
    ensures (k % 0x1_0000 + 1) % 0x1_0000 == (k + 1) % 0x1_0000
  {
  }

  /** Without a finished group there is no cut. */
  lemma {:induction false} NoGroupNoCut(published: seq<Segment>)
    requires GroupsOf(published).done == []
    ensures forall i :: 0 <= i < |published| ==> !published[i].cut
    decreases |published|
  {
    if published != [] {
      NoGroupNoCut(published[..|published| - 1]);
    }
  }

  /** What a player gets that plays these segments one after the other. */
  function Watch(published: seq<Segment>): Option<seq<Picture>> {
    if published == [] then Some([])
    else
      var front := Watch(published[..|published| - 1]);
      var last := Demux(SegmentBytes(published[|published| - 1].aus));
      if front.None? || last.None? then None else Some(front.value + last.value)
  }

  lemma {:induction false} WatchAll(published: seq<Segment>)
    requires forall s :: s in published ==> s.aus != []
    ensures Watch(published) == Some(Pictures(SegmentAus(published)))
    decreases |published|
  {
    hide Demux, SegmentBytes, PictureOf;
    if published != [] {
      var n := |published| - 1;
      WatchAll(published[..n]);
      SegmentRoundTrip(published[n].aus);
      assert Pictures(SegmentAus(published)) == Pictures(SegmentAus(published[..n])) + Pictures(published[n].aus);
    }
  }

  lemma {:induction false} LossFreeGroups(
      cfg: Config, frames: seq<Frame>, sent: seq<seq<Wire>>, first: u16, events: seq<Event>, end: nat)
    requires CarriesAll(sent, frames) && Delivers(events, AllWires(sent), first)
    ensures GroupsOf(Session(cfg, events, end).published) == Groups([], ExpectedAus(Reset(SeedGate(cfg)), frames))
  {
    hide FeedAll, Depacketizes, Divide, DeliversOnly, GroupsOf, AllArrive, ExpectedAus, StreamNals, PushNals, Session,
         CarriesAll, AllWires, Packets, SeedGate;
    var g := SeedGate(cfg);
    AllWiresValid(sent, frames);
    var parts := ArrivedPackets(sent, frames);
    FeedStream(Reset(g), parts, frames);
    var pkts := Packets(AllWires(sent));
    AcceptedFromScratch(g, pkts);
    OneEpoch(WithoutMotion(events), AllWires(sent), first, pkts);
    MotionMakesNoDifference(events);
    SessionCarriesEpochs(cfg, events, end);
  }

  lemma AcceptedFromScratch(g: Gate, pkts: seq<RtpPacket>)
    requires FeedAll(Start(g), pkts).Some?
    ensures Depacketizes(pkts)
  {
    hide FeedAll, PushAll;
    FeedAllFollowsDepacketizer(Start(g), pkts);
  }

  /** When a camera's frames, in any mix of single packets, aggregates and fragments, arrive
      without loss, the session publishes exactly the expected access units in order: no
      segment is cut or tagged, and a player that demultiplexes the files one after the other
      sees them all, once each, with their time stamps. */
  lemma {:induction false} LossFree(
      cfg: Config, frames: seq<Frame>, sent: seq<seq<Wire>>, first: u16, events: seq<Event>, end: nat)
    requires CarriesAll(sent, frames) && Delivers(events, AllWires(sent), first)
    ensures
      var p := Session(cfg, events, end);
      && (forall s :: s in p.published ==> !s.cut && !s.discontinuity)
      && SegmentAus(p.published) == ExpectedAus(Reset(SeedGate(cfg)), frames)
      && Watch(p.published) == Some(Pictures(ExpectedAus(Reset(SeedGate(cfg)), frames)))
  {
    hide Session, Delivers, CarriesAll, ExpectedAus, GroupsOf, SeedGate, Watch, Pictures, SegmentAus, LastUncut;
    var p := Session(cfg, events, end);
    LossFreeGroups(cfg, frames, sent, first, events, end);
    SessionIsGood(cfg, events, end);
    GroupsFlatten(p.published);
    NoGroupNoCut(p.published);
    var aus := ExpectedAus(Reset(SeedGate(cfg)), frames);
    assert Flatten([]) == [] && [] + aus == aus;
    forall s | s in p.published
      ensures s.aus != [] && !s.cut && !s.discontinuity
    {
      var i :| 0 <= i < |p.published| && p.published[i] == s;
      assert GoodSegment(p.published, i);
    }
    WatchAll(p.published);
  }
}
