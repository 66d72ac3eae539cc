/** A sender after RFC 6184 behind a network that may drop, double, reorder and damage packets:
    what the pipeline makes of it are whole NAL units of the sender, never a truncated or a
    merged one.
 */
module Lossy {
  import opened Prelude
  import opened Annexb
  import opened Rtp
  import opened Depacketizer
  import opened SyncGate
  import opened TsMux
  import opened Assembly
  import opened Stream
  import opened Live
  import opened Epochs
  import opened Positions
  import opened Conservation
  import opened EndToEnd

  // ---------------------------------------------------------------------------
  // A stretch of the sender's payloads
  // ---------------------------------------------------------------------------

  ghost predicate AllCarry(cs: seq<Carriage>) {
    forall c :: c in cs ==> c.Valid()
  }

  /** Payload `a` is the first one of a carriage. */
  ghost predicate StartsAt(cs: seq<Carriage>, a: nat)
    requires AllCarry(cs)
  {
    cs != [] && (a == |CarriagePayloads(cs[..|cs| - 1])| || StartsAt(cs[..|cs| - 1], a))
  }

  /** The NAL units whose payloads all lie among those from `a` up to before `b`. */
  ghost function WholeNals(cs: seq<Carriage>, a: nat, b: nat): seq<Bytes>
    requires AllCarry(cs)
  {
    if cs == [] then []
    else
      var n := |cs| - 1;
      var whole := a <= |CarriagePayloads(cs[..n])| && |CarriagePayloads(cs)| <= b;
      WholeNals(cs[..n], a, b) + if whole then cs[n].Nals() else []
  }

  /** The first packets of a carriage, but not all: nothing comes out yet. */
  lemma PartYields(s: DepState, c: Carriage, k: nat)
    requires c.Valid() && k < |c.Payloads()|
    ensures PushAll(s, c.Payloads()[..k]).nals == Ok([])
  {
    if k > 0 {
      FragmentsUnderWay(s, c.header, c.parts, k);
    }
  }

  /** Packets of a carriage without its first one are refused. */
  lemma TailFails(c: Carriage, j: nat, k: nat)
    requires c.Valid() && 0 < j < k <= |c.Payloads()|
    ensures PushAll(IDLE, c.Payloads()[j..k]).nals.Err?
  {
    var tail := c.Payloads()[j..k];
    FragmentFields(c.header, c.parts, j);
    assert tail[0] == Fragment(c.header, c.parts, j);
  }

  lemma LastCarriage(cs: seq<Carriage>)
    requires AllCarry(cs) && cs != []
    ensures
      var n := |cs| - 1;
      && AllCarry(cs[..n]) && cs[n].Valid() && cs[n].Payloads() != []
      && CarriagePayloads(cs) == CarriagePayloads(cs[..n]) + cs[n].Payloads()
  {
  }

  lemma {:induction false} NothingWholeBehind(cs: seq<Carriage>, a: nat, b: nat)
    requires AllCarry(cs) && |CarriagePayloads(cs)| < a
    ensures WholeNals(cs, a, b) == [] && !StartsAt(cs, a)
    decreases |cs|
  {
    if cs != [] {
      LastCarriage(cs);
      NothingWholeBehind(cs[..|cs| - 1], a, b);
    }
  }

  /** Without the last carriage, when it does not lie in the stretch as a whole. */
  lemma {:induction false} WholeUpTo(cs: seq<Carriage>, a: nat, b: nat)
    requires AllCarry(cs) && |CarriagePayloads(cs)| <= b
    ensures WholeNals(cs, a, b) == WholeNals(cs, a, |CarriagePayloads(cs)|)
    decreases |cs|
  {
    if cs != [] {
      LastCarriage(cs);
      WholeUpTo(cs[..|cs| - 1], a, b);
      WholeUpTo(cs[..|cs| - 1], a, |CarriagePayloads(cs)|);
    }
  }

  ghost predicate Yields(cs: seq<Carriage>, a: nat, b: nat)
    requires AllCarry(cs) && a <= b <= |CarriagePayloads(cs)|
  {
    var r := PushAll(IDLE, CarriagePayloads(cs)[a..b]).nals;
    && (r.Ok? <==> a == b || StartsAt(cs, a))
    && (r.Ok? ==> r.value == AnnexbAll(WholeNals(cs, a, b)))
  }

  /** A stretch of the sender's payloads depacketizes if and only if it starts where a carriage
      does, and then what comes out are exactly the NAL units that lie in it as a whole. */
  lemma {:induction false} StretchYields(cs: seq<Carriage>, a: nat, b: nat)
    requires AllCarry(cs) && a <= b <= |CarriagePayloads(cs)|
    ensures Yields(cs, a, b)
    decreases |cs|
  {
    if cs == [] {
      assert AnnexbAll([]) == [];
    } else {
      var n := |cs| - 1;
      LastCarriage(cs);
      var m := |CarriagePayloads(cs[..n])|;
      if b <= m {
        StretchYields(cs[..n], a, b);
        StretchInFront(cs, a, b);
      } else if a <= m {
        StretchYields(cs[..n], a, m);
        StretchAcross(cs, a, b);
      } else {
        StretchWithin(cs, a, b);
      }
    }
  }

  lemma StretchInFront(cs: seq<Carriage>, a: nat, b: nat)
    requires AllCarry(cs) && cs != [] && a <= b <= |CarriagePayloads(cs[..|cs| - 1])|
    requires Yields(cs[..|cs| - 1], a, b)
    ensures |CarriagePayloads(cs)| > b && Yields(cs, a, b)
  {
    hide PushAll, AnnexbAll, CarriagePayloads;
    var n := |cs| - 1;
    LastCarriage(cs);
    assert CarriagePayloads(cs)[a..b] == CarriagePayloads(cs[..n])[a..b];
    assert WholeNals(cs, a, b) == WholeNals(cs[..n], a, b);
  }

  /** From one of the carriages in front into, or up to the end of, the last one. */
  lemma StretchAcross(cs: seq<Carriage>, a: nat, b: nat)
    requires AllCarry(cs) && cs != [] && a <= |CarriagePayloads(cs[..|cs| - 1])| < b <= |CarriagePayloads(cs)|
    requires Yields(cs[..|cs| - 1], a, |CarriagePayloads(cs[..|cs| - 1])|)
    ensures Yields(cs, a, b)
  {
    hide PushAll, AnnexbAll, CarriagePayloads, Carriage.Payloads, Carriage.Nals;
    var n := |cs| - 1;
    LastCarriage(cs);
    var front, last := CarriagePayloads(cs[..n]), cs[n].Payloads();
    var m := |front|;
    assert CarriagePayloads(cs)[a..b] == front[a..] + last[..b - m];
    assert front[a..m] == front[a..];
    WholeUpTo(cs[..n], a, b);
    if PushAll(IDLE, front[a..]).nals.Err? {
      PushAllFailsEarly(IDLE, front[a..], last[..b - m]);
      assert a < m && !StartsAt(cs, a);
    } else {
      var s := PushAll(IDLE, front[a..]).state;
      PushAllAppend(IDLE, front[a..], last[..b - m]);
      LastYields(s, cs[n], b - m);
      AnnexbAllAppend(WholeNals(cs[..n], a, b), if b == m + |last| then cs[n].Nals() else []);
      assert StartsAt(cs, a);
    }
  }

  lemma LastYields(s: DepState, c: Carriage, k: nat)
    requires c.Valid() && k <= |c.Payloads()|
    ensures PushAll(s, c.Payloads()[..k]).nals == Ok(AnnexbAll(if k == |c.Payloads()| then c.Nals() else []))
  {
    hide PushAll, Carriage.Payloads, Carriage.Nals;
    if k == |c.Payloads()| {
      CarriageDepacketizes(s, c);
      assert c.Payloads()[..k] == c.Payloads();
    } else {
      PartYields(s, c, k);
    }
  }

  lemma {:induction false} PushAllFailsEarly(s: DepState, a: seq<Bytes>, b: seq<Bytes>)
    requires PushAll(s, a).nals.Err?
    ensures PushAll(s, a + b).nals.Err?
    decreases |a|
  {
    hide Push;
    assert a != [];
    assert (a + b)[0] == a[0] && (a + b)[1..] == a[1..] + b;
    if Push(s, a[0]).nals.Ok? {
      PushAllFailsEarly(Push(s, a[0]).state, a[1..], b);
    }
  }

  /** A stretch that begins inside the last carriage. */
  lemma StretchWithin(cs: seq<Carriage>, a: nat, b: nat)
    requires AllCarry(cs) && cs != [] && |CarriagePayloads(cs[..|cs| - 1])| < a <= b <= |CarriagePayloads(cs)|
    ensures Yields(cs, a, b)
  {
    hide AnnexbAll, CarriagePayloads, Carriage.Payloads, Push;
    var n := |cs| - 1;
    LastCarriage(cs);
    var m := |CarriagePayloads(cs[..n])|;
    NothingWholeBehind(cs[..n], a, b);
    assert CarriagePayloads(cs)[a..b] == cs[n].Payloads()[a - m..b - m];
    assert AnnexbAll([]) == [];
    if a < b {
      TailFails(cs[n], a - m, b - m);
    }
  }

  // ---------------------------------------------------------------------------
  // The network
  // ---------------------------------------------------------------------------

  predicate Readable(m: Msg) {
    m.RtpMsg? && Decode(m.bytes).Ok?
  }

  /** A sender and a network.  The sender's packets are its payloads in order, numbered modulo
      2^16, under any time stamps and markers; each readable message `x` is packet `from[x]`. */
  datatype Network = Network(carriages: seq<Carriage>, wires: seq<Wire>, first: u16, from: seq<nat>) {
    ghost predicate Numbered() {
      && AllCarry(carriages) && |wires| == |CarriagePayloads(carriages)|
      && forall i :: 0 <= i < |wires| ==>
           && wires[i].Valid() && wires[i].payload == CarriagePayloads(carriages)[i]
           && wires[i].sequenceNumber == (first + i) % 0x1_0000
    }

    /** Each packet that can be read is one that was sent.  Any packet may be lost, doubled, out
        of order or damaged until it is no RTP packet. */
    ghost predicate Delivered(events: seq<Event>) {
      && |from| == |events|
      && forall x :: 0 <= x < |events| && Readable(events[x].msg) ==>
           from[x] < |wires| && wires[from[x]].Valid() && events[x].msg == RtpMsg(wires[from[x]].Encode())
    }

    /** From one packet to the next, with nothing but motion messages between, the network does
        not jump by 2^16 packets or more: the sequence numbers tell whether it jumped. */
    ghost predicate Tellable(events: seq<Event>)
      requires |from| == |events|
    {
      forall x, y ::
        0 <= x < y < |events| && Readable(events[x].msg) && Readable(events[y].msg) && Quiet(events, x + 1, y) ==>
          -0x1_0000 < from[y] - (from[x] + 1) < 0x1_0000
    }

    ghost predicate Transmits(events: seq<Event>) {
      Numbered() && Delivered(events) && Tellable(events)
    }
  }

  /** Numbers that follow each other modulo 2^16 belong to packets sent one after the other, or
      a multiple of 2^16 packets apart. */
  lemma NumbersFollow(first: u16, i: nat, j: nat)
    ensures (first + j) % 0x1_0000 == NextSeq((first + i) % 0x1_0000) <==> (j - (i + 1)) % 0x1_0000 == 0
  {
  }

  lemma NoJump(first: u16, i: nat, j: nat)
    requires (first + j) % 0x1_0000 == NextSeq((first + i) % 0x1_0000) && -0x1_0000 < j - (i + 1) < 0x1_0000
    ensures j == i + 1
  {
    NumbersFollow(first, i, j);
  }

  lemma SentPacket(net: Network, events: seq<Event>, x: nat, pkt: RtpPacket)
    requires net.Numbered() && net.Delivered(events) && x < |events| && PacketAt(events, x, pkt)
    ensures
      && Readable(events[x].msg) && x < |net.from| && net.from[x] < |CarriagePayloads(net.carriages)|
      && pkt.payload == CarriagePayloads(net.carriages)[net.from[x]]
      && pkt.sequenceNumber == (net.first + net.from[x]) % 0x1_0000
  {
    hide Decode, Wire.Encode, CarriagePayloads;
    DecodeInvertsEncode(net.wires[net.from[x]]);
  }

  lemma SentNext(net: Network, events: seq<Event>, x: nat, y: nat, p: RtpPacket, q: RtpPacket)
    requires net.Transmits(events) && x < y < |events| && Quiet(events, x + 1, y)
    requires PacketAt(events, x, p) && PacketAt(events, y, q) && q.sequenceNumber == NextSeq(p.sequenceNumber)
    ensures net.from[y] == net.from[x] + 1
  {
    hide PacketAt, Quiet, Network.Numbered, NextSeq, Readable;
    SentPacket(net, events, x, p);
    SentPacket(net, events, y, q);
    NoJump(net.first, net.from[x], net.from[y]);
  }

  /** The packets of an epoch were sent one after the other. */
  lemma {:induction false} SentInARow(net: Network, events: seq<Event>, n: nat, e: Epoch, pos: seq<nat>, i: nat)
    requires net.Transmits(events) && n <= |events| && LiesAt(events, n, e, pos) && IsEpoch(e) && i < |e|
    ensures
      var all := CarriagePayloads(net.carriages);
      net.from[pos[i]] == net.from[pos[0]] + i < |all| && e[i].payload == all[net.from[pos[0]] + i]
  {
    hide PacketAt, Quiet, Depacketizes, NextSeq, Network.Numbered, Network.Delivered, Network.Tellable,
         CarriagePayloads;
    SentPacket(net, events, pos[i], e[i]);
    if i > 0 {
      var k := i - 1;
      SentInARow(net, events, n, e, pos, k);
      assert e[k + 1].sequenceNumber == NextSeq(e[k].sequenceNumber);
      assert pos[k] < pos[k + 1] && Quiet(events, pos[k] + 1, pos[k + 1]);
      SentNext(net, events, pos[k], pos[i], e[k], e[i]);
    }
  }

  /** An epoch is a stretch of the sender's packets that starts with the first packet of a
      carriage, and its units are the NAL units that lie in it as a whole. */
  ghost predicate HoldsWhole(net: Network, e: Epoch, pos: seq<nat>)
    requires AllCarry(net.carriages)
  {
    e != [] ==>
      && pos != [] && pos[0] < |net.from|
      && var a := net.from[pos[0]];
      && a + |e| <= |CarriagePayloads(net.carriages)|
      && Payloads(e) == CarriagePayloads(net.carriages)[a..a + |e|]
      && StartsAt(net.carriages, a)
      && Units(e) == AnnexbAll(WholeNals(net.carriages, a, a + |e|))
  }

  lemma {:induction false} EpochHoldsWhole(net: Network, events: seq<Event>, n: nat, e: Epoch, pos: seq<nat>)
    requires net.Transmits(events) && n <= |events| && LiesAt(events, n, e, pos) && IsEpoch(e)
    ensures HoldsWhole(net, e, pos)
  {
    hide AnnexbAll, WholeNals, CarriagePayloads, StartsAt, PushAll, Readable, PacketAt, Quiet, NextSeq,
         Network.Tellable;
    if e != [] {
      var a := net.from[pos[0]];
      var all := CarriagePayloads(net.carriages);
      forall i | 0 <= i < |e|
        ensures a + i < |all| && e[i].payload == all[a + i]
      {
        SentInARow(net, events, n, e, pos, i);
      }
      SentInARow(net, events, n, e, pos, |e| - 1);
      assert Payloads(e) == all[a..a + |e|];
      StretchYields(net.carriages, a, a + |e|);
    }
  }

  /** Whatever the network drops, doubles, reorders or damages: the units of each epoch are
      exactly the sender's NAL units all of whose packets are in that epoch. */
  lemma {:induction false} EpochsHoldWholeUnits(net: Network, events: seq<Event>)
    requires net.Transmits(events)
    ensures
      var d, p := Divide(events), Place(events, |events|);
      && |p.closed| == |d.closed| && HoldsWhole(net, d.current, p.current)
      && forall k :: 0 <= k < |d.closed| ==> HoldsWhole(net, d.closed[k], p.closed[k])
  {
    hide Network.Delivered, Network.Tellable, HoldsWhole, IsEpoch, LiesAt, EndedBefore, Divide, Place;
    var d, p := Divide(events), Place(events, |events|);
    assert events[..|events|] == events;
    EpochsLieAtTheirPlaces(events, |events|);
    DivisionIsEpochs(events);
    EpochHoldsWhole(net, events, |events|, d.current, p.current);
    forall k | 0 <= k < |d.closed|
      ensures HoldsWhole(net, d.closed[k], p.closed[k])
    {
      EpochHoldsWhole(net, events, |events|, d.closed[k], p.closed[k]);
    }
  }

  // ---------------------------------------------------------------------------
  // What is published
  // ---------------------------------------------------------------------------

  /** A NAL unit that was heard, or one of the parameter sets known before. */
  predicate Known(g: Gate, heard: seq<Bytes>, nal: Bytes) {
    nal in heard || Some(nal) == g.sps || Some(nal) == g.pps
  }

  lemma {:induction false} LatestIsKnown(t: u8, initial: Option<Bytes>, nals: seq<Bytes>)
    ensures var l := Latest(t, initial, nals); l == initial || (l.Some? && l.value in nals)
    decreases |nals|
  {
    hide NalType;
    if nals != [] {
      LatestIsKnown(t, initial, nals[..|nals| - 1]);
    }
  }

  lemma EmissionIsKnown(g: Gate, nals: seq<Bytes>, i: nat, nal: Bytes)
    requires i < |nals| && nal in Emission(g, nals, i)
    ensures Known(g, nals, nal)
  {
    hide Latest, NalType, Open;
    LatestIsKnown(SPS, g.sps, nals[..i]);
    LatestIsKnown(PPS, g.pps, nals[..i]);
  }

  lemma {:induction false} InSomePart(parts: seq<seq<Bytes>>, nal: Bytes) returns (i: nat)
    requires nal in Concat(parts)
    ensures i < |parts| && nal in parts[i]
  {
    if nal in parts[0] {
      i := 0;
    } else {
      var j := InSomePart(parts[1..], nal);
      i := j + 1;
    }
  }

  lemma EpochKeepsKnown(g: Gate, before: seq<Bytes>, e: Epoch, nal: Bytes)
    requires nal in EmittedBefore(GateFor(g, before), e)
    ensures Known(g, before + Units(e), nal)
  {
    hide Units, Latest, FrameStart, Emission, Concat;
    var gate := GateFor(g, before);
    var i := InSomePart(Emissions(gate, Units(e))[..|Units(e[..FrameStart(e)])|], nal);
    EmissionIsKnown(gate, Units(e), i, nal);
    LatestIsKnown(SPS, g.sps, before);
    LatestIsKnown(PPS, g.pps, before);
  }

  lemma {:induction false} KeptAreKnown(g: Gate, epochs: seq<Epoch>, nal: Bytes)
    requires nal in KeptNals(g, epochs)
    ensures Known(g, AllUnits(epochs), nal)
    decreases |epochs|
  {
    hide EmittedBefore, Units, GateFor;
    var n := |epochs| - 1;
    if nal in KeptNals(g, epochs[..n]) {
      KeptAreKnown(g, epochs[..n], nal);
    } else {
      EpochKeepsKnown(g, AllUnits(epochs[..n]), epochs[n], nal);
    }
  }

  lemma {:induction false} WholeAreSent(cs: seq<Carriage>, a: nat, b: nat, raw: Bytes)
    requires AllCarry(cs) && raw in WholeNals(cs, a, b)
    ensures raw in CarriageNals(cs)
    decreases |cs|
  {
    hide CarriagePayloads, Carriage.Nals;
    var n := |cs| - 1;
    if raw in WholeNals(cs[..n], a, b) {
      WholeAreSent(cs[..n], a, b, raw);
    }
  }

  /** A NAL unit of the sender, whole, behind its start code. */
  ghost predicate Sent(cs: seq<Carriage>, nal: Bytes) {
    exists raw :: raw in CarriageNals(cs) && nal == FromRaw(raw)
  }

  lemma WholeUnitsAreSent(cs: seq<Carriage>, a: nat, b: nat, nal: Bytes)
    requires AllCarry(cs) && nal in AnnexbAll(WholeNals(cs, a, b))
    ensures Sent(cs, nal)
  {
    hide WholeNals, FromRaw, CarriageNals;
    var raws := WholeNals(cs, a, b);
    var i :| 0 <= i < |raws| && nal == AnnexbAll(raws)[i];
    WholeAreSent(cs, a, b, raws[i]);
  }

  lemma NoUnits()
    ensures Units([]) == []
  {
    assert Payloads([]) == [];
  }

  lemma UnitsAreSent(net: Network, e: Epoch, pos: seq<nat>, nal: Bytes)
    requires AllCarry(net.carriages) && HoldsWhole(net, e, pos) && nal in Units(e)
    ensures Sent(net.carriages, nal)
  {
    hide WholeNals, CarriagePayloads, StartsAt, AnnexbAll, Sent, Units;
    NoUnits();
    var a := net.from[pos[0]];
    WholeUnitsAreSent(net.carriages, a, a + |e|, nal);
  }

  lemma {:induction false} InSomeEpoch(epochs: seq<Epoch>, nal: Bytes) returns (k: nat)
    requires nal in AllUnits(epochs)
    ensures k < |epochs| && nal in Units(epochs[k])
    decreases |epochs|
  {
    hide Units;
    var n := |epochs| - 1;
    if nal in Units(epochs[n]) {
      k := n;
    } else {
      k := InSomeEpoch(epochs[..n], nal);
    }
  }

  /** Every NAL unit of every published segment is a whole NAL unit of the sender, or one of the
      parameter sets that the session was seeded with: none is truncated, and none is put
      together from fragments of two. */
  lemma {:induction false} OnlyWholeUnitsArePublished(
      net: Network, cfg: Config, events: seq<Event>, end: nat, nal: Bytes)
    requires net.Transmits(events)
    requires nal in AuNals(SegmentAus(Session(cfg, events, end).published))
    ensures Sent(net.carriages, nal) || Some(nal) == SeedGate(cfg).sps || Some(nal) == SeedGate(cfg).pps
  {
    hide Network.Delivered, Network.Tellable, HoldsWhole, Divide, Place, AuNals, SegmentAus, Session, KeptNals, Units,
         Sent, SeedGate;
    var d, p := Divide(events), Place(events, |events|);
    EpochsHoldWholeUnits(net, events);
    SessionHoldsTheStream(cfg, events, end);
    var epochs := d.closed + [d.current];
    KeptAreKnown(SeedGate(cfg), epochs, nal);
    if nal in AllUnits(epochs) {
      var k := InSomeEpoch(epochs, nal);
      UnitsAreSent(net, epochs[k], if k < |d.closed| then p.closed[k] else p.current, nal);
    }
  }

  // ---------------------------------------------------------------------------
  // A jump that the numbers do not tell
  // ---------------------------------------------------------------------------

  /** The first fragment of a NAL unit and the last one of any other, packets `i` and `j` of the
      sender. */
  predicate FirstAndLast(
      p: RtpPacket, header: u8, parts: seq<Bytes>, q: RtpPacket, other: u8, rest: seq<Bytes>, first: u16,
      i: nat, j: nat)
  {
    && 2 <= |parts| && p.payload == Fragment(header, parts, 0) && p.sequenceNumber == (first + i) % 0x1_0000
    && 2 <= |rest| && q.payload == Fragment(other, rest, |rest| - 1) && q.sequenceNumber == (first + j) % 0x1_0000
  }

  /** When all packets between these two are lost, their bytes are put together into one NAL
      unit if and only if the loss is a multiple of 2^16 packets; any other loss is noticed, and
      nothing comes out.  So the bound on jumps cannot be weakened. */
  lemma {:induction false} UntoldJumpMerges(
      events: seq<Event>, p: RtpPacket, header: u8, parts: seq<Bytes>, q: RtpPacket, other: u8, rest: seq<Bytes>,
      first: u16, i: nat, j: nat)
    requires |events| == 2 && PacketAt(events, 0, p) && PacketAt(events, 1, q)
    requires FirstAndLast(p, header, parts, q, other, rest, first, i, j)
    ensures
      var merged := FromRaw([header] + parts[0] + rest[|rest| - 1]);
      var d := Divide(events);
      if (j - (i + 1)) % 0x1_0000 == 0 then d.closed == [] && Units(d.current) == [merged] else d.current == []
  {
    hide Fragment, PushAll, Push, Units, NextSeq, Decode, Divide, Depacketizes, FromRaw;
    NumbersFollow(first, i, j);
    TwoMessages(events, p, q);
    FragmentPair(p, header, parts, q, other, rest);
    assert [] + [p] == [p] && [p] + [q] == [p, q] && [] + [q] == [q];
  }

  lemma TwoMessages(events: seq<Event>, p: RtpPacket, q: RtpPacket)
    requires |events| == 2 && PacketAt(events, 0, p) && PacketAt(events, 1, q)
    ensures Divide(events) == DividePacket(DividePacket(Division([], []), p), q)
  {
    hide Decode, DividePacket;
    var one := events[..1];
    assert one[0] == events[0] && one[..0] == [];
    assert Divide(one[..0]) == Division([], []);
    assert Divide(one) == DividePacket(Division([], []), p);
  }

  lemma FirstPush(header: u8, parts: seq<Bytes>)
    requires 2 <= |parts|
    ensures
      Push(IDLE, Fragment(header, parts, 0)) == DepStep(DepState(true, START_CODE + [header] + parts[0]), Ok([]))
  {
    FragmentFields(header, parts, 0);
  }

  lemma LastAloneFails(other: u8, rest: seq<Bytes>)
    requires 2 <= |rest|
    ensures Push(IDLE, Fragment(other, rest, |rest| - 1)).nals.Err?
  {
    FragmentFields(other, rest, |rest| - 1);
  }

  lemma FragmentPair(p: RtpPacket, header: u8, parts: seq<Bytes>, q: RtpPacket, other: u8, rest: seq<Bytes>)
    requires 2 <= |parts| && 2 <= |rest|
    requires p.payload == Fragment(header, parts, 0) && q.payload == Fragment(other, rest, |rest| - 1)
    ensures Depacketizes([p]) && Depacketizes([p, q]) && !Depacketizes([q])
    ensures Units([p, q]) == [FromRaw([header] + parts[0] + rest[|rest| - 1])]
  {
    hide Fragment, FromRaw, PushAll, Push;
    FirstPush(header, parts);
    LastAloneFails(other, rest);
    var buf := START_CODE + [header] + parts[0];
    LastFragment(buf, other, rest);
    assert Payloads([p]) == [p.payload] && Payloads([q]) == [q.payload];
    assert Payloads([p, q]) == [p.payload] + [q.payload];
    PushAllOne(IDLE, p.payload);
    PushAllOne(IDLE, q.payload);
    PushAllOne(DepState(true, buf), q.payload);
    PushAllAppend(IDLE, [p.payload], [q.payload]);
    PrependNothing(Push(DepState(true, buf), q.payload).nals);
    MergedIsRaw(header, parts[0], rest[|rest| - 1]);
  }

  lemma MergedIsRaw(header: u8, a: Bytes, b: Bytes)
    ensures START_CODE + [header] + a + b == FromRaw([header] + a + b)
  {
  }
}
