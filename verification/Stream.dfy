/** What an unbroken run of packets should yield, said without any state: its NAL units
    through the gate, cut into access units at the marker bits.
 */
module Stream {
  import opened Prelude
  import opened Annexb
  import opened Rtp
  import opened Depacketizer
  import opened SyncGate
  import opened TsMux
  import opened Assembly

  /** The NAL units of packets that depacketize from scratch. */
  function Units(e: seq<RtpPacket>): seq<Bytes> {
    var r := PushAll(IDLE, Payloads(e)).nals;
    if r.Ok? then r.value else []
  }

  /** Where the frame under way begins: behind the last packet with a marker. */
  function FrameStart(e: seq<RtpPacket>): (s: nat)
    ensures s <= |e|
  {
    if e == [] then 0
    else if e[|e| - 1].marker then |e|
    else FrameStart(e[..|e| - 1])
  }

  function Behind<T>(s: seq<T>, k: nat): seq<T> {
    if k <= |s| then s[k..] else []
  }

  /** What the gate lets through of the packets from `s` on. */
  function EmittedSince(g: Gate, e: seq<RtpPacket>, s: nat): seq<Bytes>
    requires s <= |e|
  {
    Concat(Behind(Emissions(g, Units(e)), |Units(e[..s])|))
  }

  /** The access unit that the last packet, with a marker, completes: everything let through
      since the marker before, under the time stamp of the first packet since then. */
  function FrameAu(g: Gate, e: seq<RtpPacket>): Option<AccessUnit>
    requires e != []
  {
    var s := FrameStart(e[..|e| - 1]);
    var nals := EmittedSince(g, e, s);
    if nals == [] then None else Some(AccessUnit(e[s].timestamp, nals, HasIdr(nals)))
  }

  /** One access unit for each marker, unless the gate let nothing through. */
  function FrameAus(g: Gate, e: seq<RtpPacket>): seq<AccessUnit> {
    if e == [] then []
    else
      var n := |e| - 1;
      FrameAus(g, e[..n]) + if e[n].marker then OptionSeq(FrameAu(g, e)) else []
  }

  // ---------------------------------------------------------------------------
  // The pipeline yields it
  // ---------------------------------------------------------------------------

  lemma {:induction false} UnitsSnoc(e: seq<RtpPacket>, pkt: RtpPacket)
    requires PushAll(IDLE, Payloads(e + [pkt])).nals.Ok?
    ensures
      var before := PushAll(IDLE, Payloads(e));
      var last := Push(before.state, pkt.payload);
      && before.nals.Ok? && last.nals.Ok?
      && Units(e + [pkt]) == Units(e) + last.nals.value
      && PushAll(IDLE, Payloads(e + [pkt])).state == last.state
  {
    hide Push, PushAll;
    assert Payloads(e + [pkt]) == Payloads(e) + [pkt.payload];
    if PushAll(IDLE, Payloads(e)).nals.Err? {
      PushAllStaysFailed(IDLE, Payloads(e), pkt.payload);
    } else {
      PushAllAppend(IDLE, Payloads(e), [pkt.payload]);
      PushAllOne(PushAll(IDLE, Payloads(e)).state, pkt.payload);
    }
  }

  /** More NAL units add what the gate makes of them, wherever one starts counting. */
  lemma {:induction false} EmissionsGrow(g: Gate, a: seq<Bytes>, b: seq<Bytes>, k: nat)
    requires k <= |a|
    ensures Concat(Emissions(g, a + b)[k..]) == Concat(Emissions(g, a)[k..]) + PushNals(PushNals(g, a).gate, b).out
  {
    hide PushNals, Emission, Concat;
    GateEmits(g, a);
    GateEmits(g, a + b);
    PushNalsAppend(g, a, b);
    var all := Emissions(g, a + b);
    assert (a + b)[..|a|] == a;
    EmissionsOfPrefix(g, a + b, |a|);
    assert all == all[..|a|] + all[|a|..];
    ConcatAppend(all[..|a|], all[|a|..]);
    Cancel(PushNals(g, a).out, Concat(all[|a|..]), PushNals(PushNals(g, a).gate, b).out);
    assert all[k..] == Emissions(g, a)[k..] + all[|a|..];
    ConcatAppend(Emissions(g, a)[k..], all[|a|..]);
  }

  lemma Cancel(a: seq<Bytes>, b: seq<Bytes>, c: seq<Bytes>)
    requires a + b == a + c
    ensures b == c
  {
    assert b == (a + b)[|a|..] && c == (a + c)[|a|..];
  }

  /** The variables after packets, when they are accepted from the start. */
  function StateAfter(g: Gate, e: seq<RtpPacket>): Assembly {
    var s := FrameStart(e);
    Assembly(PushAll(IDLE, Payloads(e)).state, PushNals(g, Units(e)).gate, EmittedSince(g, e, s),
             if s < |e| then Some(e[s].timestamp) else None)
  }

  lemma NothingAfter(g: Gate)
    ensures StateAfter(g, []) == Assembly(IDLE, g, [], None) && FrameAus(g, []) == []
  {
    assert Payloads([]) == [];
    assert Units([]) == [];
    assert Emissions(g, []) == [];
  }

  /** Earlier packets give a prefix of the NAL units. */
  lemma {:induction false} UnitsOfPrefix(e: seq<RtpPacket>, k: nat)
    requires k <= |e| && PushAll(IDLE, Payloads(e)).nals.Ok?
    ensures PushAll(IDLE, Payloads(e[..k])).nals.Ok? && Units(e[..k]) <= Units(e)
    decreases |e|
  {
    hide PushAll, Push;
    if k == |e| {
      assert e[..k] == e;
    } else {
      var n := |e| - 1;
      assert e == e[..n] + [e[n]];
      UnitsSnoc(e[..n], e[n]);
      UnitsOfPrefix(e[..n], k);
      assert e[..n][..k] == e[..k];
    }
  }

  lemma FrameStartSnoc(e: seq<RtpPacket>, pkt: RtpPacket)
    ensures FrameStart(e + [pkt]) == if pkt.marker then |e| + 1 else FrameStart(e)
  {
    assert (e + [pkt])[..|e|] == e;
  }

  lemma {:induction false} EmittedGrows(g: Gate, e: seq<RtpPacket>, pkt: RtpPacket, s: nat)
    requires s <= |e| && PushAll(IDLE, Payloads(e + [pkt])).nals.Ok?
    ensures Push(PushAll(IDLE, Payloads(e)).state, pkt.payload).nals.Ok?
    ensures
      var d := Push(PushAll(IDLE, Payloads(e)).state, pkt.payload).nals.value;
      EmittedSince(g, e + [pkt], s) == EmittedSince(g, e, s) + PushNals(PushNals(g, Units(e)).gate, d).out
  {
    hide Units, PushAll, Push, PushNals, Emission, Concat;
    UnitsSnoc(e, pkt);
    UnitsOfPrefix(e, s);
    assert (e + [pkt])[..s] == e[..s];
    var d := Push(PushAll(IDLE, Payloads(e)).state, pkt.payload).nals.value;
    EmissionsGrow(g, Units(e), d, |Units(e[..s])|);
  }

  lemma NothingSinceEnd(g: Gate, e: seq<RtpPacket>)
    ensures EmittedSince(g, e, |e|) == []
  {
    hide Units, Emission;
    assert e[..|e|] == e;
  }

  lemma {:induction false} FrameAuSnoc(g: Gate, e: seq<RtpPacket>, pkt: RtpPacket)
    ensures
      var s := FrameStart(e);
      var nals := EmittedSince(g, e + [pkt], s);
      var ts := if s < |e| then e[s].timestamp else pkt.timestamp;
      FrameAu(g, e + [pkt]) == if nals == [] then None else Some(BuildAccessUnit(nals, ts))
  {
    hide EmittedSince, HasIdr;
    assert (e + [pkt])[..|e|] == e;
  }

  /** One more packet of a run that is accepted. */
  lemma {:induction false} FeedYields(g: Gate, e: seq<RtpPacket>, pkt: RtpPacket)
    requires PushAll(IDLE, Payloads(e + [pkt])).nals.Ok?
    ensures Feed(StateAfter(g, e), pkt)
      == Went(StateAfter(g, e + [pkt]), if pkt.marker then FrameAu(g, e + [pkt]) else None)
  {
    hide Units, PushAll, Push, PushNals, EmittedSince, FrameStart, FrameAu, BuildAccessUnit;
    UnitsSnoc(e, pkt);
    FrameStartSnoc(e, pkt);
    EmittedGrows(g, e, pkt, FrameStart(e));
    FrameAuSnoc(g, e, pkt);
    NothingSinceEnd(g, e + [pkt]);
    PushNalsAppend(g, Units(e), Push(PushAll(IDLE, Payloads(e)).state, pkt.payload).nals.value);
  }

  lemma FrameAusSnoc(g: Gate, e: seq<RtpPacket>, pkt: RtpPacket)
    ensures FrameAus(g, e + [pkt]) == FrameAus(g, e) + if pkt.marker then OptionSeq(FrameAu(g, e + [pkt])) else []
  {
    hide FrameAu;
    assert (e + [pkt])[..|e|] == e;
  }

  /** From scratch, accepted packets yield exactly the frames between their markers, and leave
      behind exactly what belongs to the frame under way. */
  lemma {:induction false} AcceptedPacketsYield(g: Gate, e: seq<RtpPacket>)
    requires PushAll(IDLE, Payloads(e)).nals.Ok?
    ensures FeedAll(Assembly(IDLE, g, [], None), e) == Some(Assembled(StateAfter(g, e), FrameAus(g, e)))
    decreases |e|
  {
    hide FeedAll, StateAfter, FrameAus, FrameAu, Feed, PushAll, Payloads;
    if e == [] {
      NothingAfter(g);
      FeedAllEmpty(Assembly(IDLE, g, [], None));
    } else {
      var n := |e| - 1;
      assert e == e[..n] + [e[n]];
      UnitsSnoc(e[..n], e[n]);
      AcceptedPacketsYield(g, e[..n]);
      FeedAllSnoc(Assembly(IDLE, g, [], None), e[..n], e[n]);
      FeedYields(g, e[..n], e[n]);
      FrameAusSnoc(g, e[..n], e[n]);
      assert FrameAus(g, e[..n]) + [] == FrameAus(g, e[..n]);
    }
  }

  // ---------------------------------------------------------------------------
  // Conservation
  // ---------------------------------------------------------------------------

  /** What the gate lets through of the packets up to the last marker. */
  function EmittedBefore(g: Gate, e: seq<RtpPacket>): seq<Bytes> {
    var k := |Units(e[..FrameStart(e)])|;
    if k <= |Units(e)| then Concat(Emissions(g, Units(e))[..k]) else []
  }

  /** From any state on, accepted packets only add: what was collected before, and what the
      gate makes of all their NAL units, is in the completed access units and in the one under
      construction, each NAL unit once and in order. */
  lemma {:induction false} FeedingConserves(a: Assembly, e: seq<RtpPacket>)
    requires FeedAll(a, e).Some?
    ensures PushAll(a.dep, Payloads(e)).nals.Ok?
    ensures
      var r := FeedAll(a, e).value;
      var gated := PushNals(a.gate, PushAll(a.dep, Payloads(e)).nals.value);
      && AuNals(r.aus) + r.state.nals == a.nals + gated.out
      && r.state.gate == gated.gate
    decreases |e|
  {
    FeedAllFollowsDepacketizer(a, e);
    hide FeedAll, Feed, PushAll, Push, PushNals, AuNals, Payloads;
    if e == [] {
      NothingFed(a);
    } else {
      var n := |e| - 1;
      var pkt := e[n];
      assert e == e[..n] + [pkt];
      FeedAllSnoc(a, e[..n], pkt);
      FeedAllFollowsDepacketizer(a, e[..n]);
      FeedingConserves(a, e[..n]);
      var before := FeedAll(a, e[..n]).value;
      FeedConserves(before.state, pkt);
      AuNalsSnoc(before.aus, Feed(before.state, pkt).au);
      PayloadsSnoc(e[..n], pkt);
      PushAllAppend(a.dep, Payloads(e[..n]), [pkt.payload]);
      PushAllOne(before.state.dep, pkt.payload);
      PushNalsAppend(a.gate, PushAll(a.dep, Payloads(e[..n])).nals.value,
        Push(before.state.dep, pkt.payload).nals.value);
      var f := Feed(before.state, pkt);
      Regroup(AuNals(before.aus), before.state.nals, if f.au.Some? then f.au.value.nals else [], f.state.nals,
              a.nals, PushNals(a.gate, PushAll(a.dep, Payloads(e[..n])).nals.value).out,
              PushNals(before.state.gate, Push(before.state.dep, pkt.payload).nals.value).out);
    }
  }

  lemma Regroup(done: seq<Bytes>, open: seq<Bytes>, more: seq<Bytes>, rest: seq<Bytes>,
                start: seq<Bytes>, out: seq<Bytes>, last: seq<Bytes>)
    requires done + open == start + out && more + rest == open + last
    ensures done + more + rest == start + (out + last)
  {
    assert done + more + rest == done + (more + rest) == done + open + last == start + out + last;
  }

  lemma PayloadsSnoc(e: seq<RtpPacket>, pkt: RtpPacket)
    ensures Payloads(e + [pkt]) == Payloads(e) + [pkt.payload]
  {
  }

  lemma NothingFed(a: Assembly)
    ensures FeedAll(a, []) == Some(Assembled(a, []))
    ensures PushAll(a.dep, Payloads([])) == DepStep(a.dep, Ok([])) && PushNals(a.gate, []) == GateStep(a.gate, [])
    ensures AuNals([]) == []
  {
    assert Payloads([]) == [];
  }

  lemma FeedConserves(a: Assembly, pkt: RtpPacket)
    requires Feed(a, pkt).Went?
    ensures Push(a.dep, pkt.payload).nals.Ok?
    ensures
      var f := Feed(a, pkt);
      var g := PushNals(a.gate, Push(a.dep, pkt.payload).nals.value);
      (if f.au.Some? then f.au.value.nals else []) + f.state.nals == a.nals + g.out && f.state.gate == g.gate
  {
    hide Push, PushNals;
  }

  /** Of accepted packets, the access units hold exactly what the gate lets through up to the
      last marker; only the frame under way is missing. */
  lemma {:induction false} FramesHoldTheStream(g: Gate, e: seq<RtpPacket>)
    requires PushAll(IDLE, Payloads(e)).nals.Ok?
    ensures AuNals(FrameAus(g, e)) == EmittedBefore(g, e)
    ensures EmittedBefore(g, e) + EmittedSince(g, e, FrameStart(e)) == Concat(Emissions(g, Units(e)))
  {
    hide FeedAll, FrameAus, PushAll, PushNals, Emission, Concat, FrameStart, AuNals;
    AcceptedPacketsYield(g, e);
    FeedingConserves(Assembly(IDLE, g, [], None), e);
    GateEmits(g, Units(e));
    UnitsOfPrefix(e, FrameStart(e));
    var all, k := Emissions(g, Units(e)), |Units(e[..FrameStart(e)])|;
    assert all == all[..k] + all[k..];
    ConcatAppend(all[..k], all[k..]);
    var kept, rest := AuNals(FrameAus(g, e)), Concat(all[k..]);
    assert kept + rest == Concat(all[..k]) + rest;
    CancelEnd(kept, Concat(all[..k]), rest);
  }

  lemma CancelEnd(a: seq<Bytes>, b: seq<Bytes>, c: seq<Bytes>)
    requires a + c == b + c
    ensures a == b
  {
    assert |a| == |b|;
    assert a == (a + c)[..|a|] && b == (b + c)[..|b|];
  }
}
