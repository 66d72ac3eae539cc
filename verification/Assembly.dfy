/** From RTP packets to access units: depacketizer, gate and the access unit under
    construction, as `run_stream_v2` chains them.
 */
module Assembly {
  import opened Prelude
  import opened Annexb
  import opened Rtp
  import opened Depacketizer
  import opened SyncGate
  import opened TsMux

  /** `build_access_unit`. */
  function BuildAccessUnit(nals: seq<Bytes>, rtpTimestamp: u32): AccessUnit {
    AccessUnit(rtpTimestamp, nals, HasIdr(nals))
  }

  /** One of the NAL units, behind its start code, is a coded slice of an IDR picture: type 5 in
      table 7-1 of H.264. */
  predicate HoldsIdr(au: AccessUnit) {
    exists i :: 0 <= i < |au.nals| && IdrSlice(au.nals[i])
  }

  predicate IdrSlice(nal: Bytes) {
    5 <= |nal| && nal[..4] == [0, 0, 0, 1] && nal[4] % 0x20 == 5
  }

  /** The flag tells the truth about the NAL units. */
  predicate Told(au: AccessUnit) {
    au.hasIdr <==> HoldsIdr(au)
  }

  predicate AllTold(aus: seq<AccessUnit>) {
    forall i :: 0 <= i < |aus| ==> Told(aus[i])
  }

  lemma BuiltIsTold(nals: seq<Bytes>, ts: u32)
    ensures Told(BuildAccessUnit(nals, ts))
  {
    assert forall nal :: IsIdr(nal) <==> IdrSlice(nal);
  }

  /** The variables that are cleared together at a discontinuity. */
  datatype Assembly = Assembly(dep: DepState, gate: Gate, nals: seq<Bytes>, ts: Option<u32>)

  /** Cleared, with the parameter sets that the gate keeps. */
  function Start(gate: Gate): Assembly {
    Assembly(IDLE, Reset(gate), [], None)
  }

  /** A packet either fails in the depacketizer or may complete an access unit. */
  datatype Fed = Failed | Went(state: Assembly, au: Option<AccessUnit>)

  function Feed(a: Assembly, pkt: RtpPacket): Fed {
    var d := Push(a.dep, pkt.payload);
    if d.nals.Err? then Failed
    else
      var g := PushNals(a.gate, d.nals.value);
      var nals := a.nals + g.out;
      var ts := if a.ts.Some? then a.ts.value else pkt.timestamp;
      if !pkt.marker then Went(Assembly(d.state, g.gate, nals, Some(ts)), None)
      else Went(Assembly(d.state, g.gate, [], None), if nals == [] then None else Some(BuildAccessUnit(nals, ts)))
  }

  function OptionSeq<T>(o: Option<T>): seq<T> {
    if o.Some? then [o.value] else []
  }

  datatype Assembled = Assembled(state: Assembly, aus: seq<AccessUnit>)

  /** Packets in a row, when none of them fails. */
  function FeedAll(a: Assembly, pkts: seq<RtpPacket>): Option<Assembled> {
    if pkts == [] then Some(Assembled(a, []))
    else FeedNext(FeedAll(a, pkts[..|pkts| - 1]), pkts[|pkts| - 1])
  }

  function FeedNext(front: Option<Assembled>, pkt: RtpPacket): Option<Assembled> {
    if front.None? then None
    else
      var last := Feed(front.value.state, pkt);
      if last.Failed? then None
      else Some(Assembled(last.state, front.value.aus + OptionSeq(last.au)))
  }

  function Payloads(pkts: seq<RtpPacket>): (p: seq<Bytes>)
    ensures |p| == |pkts| && forall i :: 0 <= i < |pkts| ==> p[i] == pkts[i].payload
  {
    seq(|pkts|, i requires 0 <= i < |pkts| => pkts[i].payload)
  }

  /** The NAL units of access units, in order. */
  function AuNals(aus: seq<AccessUnit>): seq<Bytes> {
    if aus == [] then [] else AuNals(aus[..|aus| - 1]) + aus[|aus| - 1].nals
  }

  lemma AuNalsSnoc(aus: seq<AccessUnit>, o: Option<AccessUnit>)
    ensures AuNals(aus + OptionSeq(o)) == AuNals(aus) + (if o.Some? then o.value.nals else [])
  {
    if o.Some? {
      assert (aus + [o.value])[..|aus|] == aus;
    } else {
      assert aus + [] == aus && AuNals(aus) + [] == AuNals(aus);
    }
  }

  function Extend(aus: seq<AccessUnit>, rest: Option<Assembled>): Option<Assembled> {
    if rest.None? then None else Some(Assembled(rest.value.state, aus + rest.value.aus))
  }

  lemma FeedAllSnoc(a: Assembly, pkts: seq<RtpPacket>, pkt: RtpPacket)
    ensures FeedAll(a, pkts + [pkt]) == FeedNext(FeedAll(a, pkts), pkt)
  {
    hide Feed;
    assert (pkts + [pkt])[..|pkts + [pkt]| - 1] == pkts;
  }

  lemma ExtendNext(aus: seq<AccessUnit>, mid: Option<Assembled>, pkt: RtpPacket)
    ensures FeedNext(Extend(aus, mid), pkt) == Extend(aus, FeedNext(mid, pkt))
  {
    hide Feed;
    if mid.Some? {
      var f := Feed(mid.value.state, pkt);
      if f.Went? {
        assert aus + (mid.value.aus + OptionSeq(f.au)) == aus + mid.value.aus + OptionSeq(f.au);
      }
    }
  }

  lemma {:induction false} FeedAllAppend(a: Assembly, p: seq<RtpPacket>, q: seq<RtpPacket>)
    requires FeedAll(a, p).Some?
    ensures
      var first := FeedAll(a, p).value;
      FeedAll(a, p + q) == Extend(first.aus, FeedAll(first.state, q))
    decreases |q|
  {
    var first := FeedAll(a, p).value;
    if q == [] {
      FeedAllEmpty(first.state);
      assert p + q == p && first.aus + [] == first.aus;
    } else {
      hide FeedAll, FeedNext, Extend;
      var m := |q| - 1;
      assert p + q == p + q[..m] + [q[m]] && q == q[..m] + [q[m]];
      FeedAllAppend(a, p, q[..m]);
      FeedAllSnoc(a, p + q[..m], q[m]);
      FeedAllSnoc(first.state, q[..m], q[m]);
      ExtendNext(first.aus, FeedAll(first.state, q[..m]), q[m]);
    }
  }

  lemma FeedAllEmpty(a: Assembly)
    ensures FeedAll(a, []) == Some(Assembled(a, []))
  {
  }

  /** The packets of a run are all accepted exactly when their payloads depacketize from
      the same depacketizer state. */
  lemma {:induction false} FeedAllFollowsDepacketizer(a: Assembly, pkts: seq<RtpPacket>)
    ensures FeedAll(a, pkts).Some? <==> PushAll(a.dep, Payloads(pkts)).nals.Ok?
    ensures FeedAll(a, pkts).Some? ==> FeedAll(a, pkts).value.state.dep == PushAll(a.dep, Payloads(pkts)).state
    decreases |pkts|
  {
    assert Payloads([]) == [];
    if pkts != [] {
      var n := |pkts| - 1;
      var front, last := pkts[..n], pkts[n];
      FeedAllFollowsDepacketizer(a, front);
      assert Payloads(pkts) == Payloads(front) + [last.payload];
      if FeedAll(a, front).Some? {
        FeedFollowsPush(FeedAll(a, front).value.state, last);
      }
      hide Feed, PushAll, Push, Payloads;
      if PushAll(a.dep, Payloads(front)).nals.Ok? {
        PushAllAppend(a.dep, Payloads(front), [last.payload]);
        PushAllOne(PushAll(a.dep, Payloads(front)).state, last.payload);
      } else {
        PushAllStaysFailed(a.dep, Payloads(front), last.payload);
      }
    }
  }

  lemma FeedFollowsPush(a: Assembly, pkt: RtpPacket)
    ensures Feed(a, pkt).Went? <==> Push(a.dep, pkt.payload).nals.Ok?
    ensures Feed(a, pkt).Went? ==> Feed(a, pkt).state.dep == Push(a.dep, pkt.payload).state
  {
    hide PushNals, Push;
  }

  lemma {:induction false} PushAllStaysFailed(s: DepState, a: seq<Bytes>, b: Bytes)
    requires PushAll(s, a).nals.Err?
    ensures PushAll(s, a + [b]).nals.Err?
    decreases |a|
  {
    hide Push;
    assert a != [];
    assert (a + [b])[0] == a[0] && (a + [b])[1..] == a[1..] + [b];
    if Push(s, a[0]).nals.Ok? {
      PushAllStaysFailed(Push(s, a[0]).state, a[1..], b);
    }
  }

  // ---------------------------------------------------------------------------
  // What every packet keeps
  // ---------------------------------------------------------------------------

  /** Nothing is collected while the gate is closed, and the gate demands an IDR. */
  ghost predicate Valid(a: Assembly) {
    && a.dep.Valid()
    && a.gate.requireIdr
    && (!a.gate.synced ==> a.nals == [])
  }

  lemma PushNalOpens(g: Gate, nal: Bytes)
    ensures
      var r := PushNal(g, nal);
      && r.gate.requireIdr == g.requireIdr
      && (g.synced ==> r.gate.synced)
      && (!r.gate.synced ==> r.out == [])
      && (!g.synced && r.gate.synced ==> HasIdr(r.out))
  {
    var r := PushNal(g, nal);
    if !g.synced && r.gate.synced {
      assert IsIdr(r.out[2]);
    }
  }

  lemma {:induction false} PushNalsOpens(g: Gate, nals: seq<Bytes>)
    requires g.requireIdr
    ensures
      var r := PushNals(g, nals);
      && r.gate.requireIdr
      && (g.synced ==> r.gate.synced)
      && (!r.gate.synced ==> r.out == [])
      && (!g.synced && r.gate.synced ==> HasIdr(r.out))
  {
    hide PushNal, HasIdr;
    if nals != [] {
      var n := |nals| - 1;
      PushNalsOpens(g, nals[..n]);
      var before := PushNals(g, nals[..n]);
      PushNalOpens(before.gate, nals[n]);
      HasIdrAppend(before.out, PushNal(before.gate, nals[n]).out);
    }
  }

  /** Once the gate is open and no access unit has been completed since it opened, the one
      under construction holds an IDR: the gate opens only by letting an IDR through. */
  lemma FeedKeepsValid(a: Assembly, pkt: RtpPacket)
    requires Valid(a) && Feed(a, pkt).Went?
    ensures
      var f := Feed(a, pkt);
      && Valid(f.state)
      && (f.au.Some? ==> f.au.value.nals != [] && Told(f.au.value) && f.state.gate.synced)
      && (a.gate.synced ==> f.state.gate.synced)
      && (!a.gate.synced && f.state.gate.synced ==>
            if f.au.Some? then f.au.value.hasIdr else HasIdr(f.state.nals))
      && (f.au.Some? && HasIdr(a.nals) ==> f.au.value.hasIdr)
      && (f.au.None? && HasIdr(a.nals) ==> HasIdr(f.state.nals))
  {
    PushKeepsValid(a.dep, pkt.payload);
    var d := Push(a.dep, pkt.payload);
    PushNalsOpens(a.gate, d.nals.value);
    var out := PushNals(a.gate, d.nals.value).out;
    HasIdrAppend(a.nals, out);
    BuiltIsTold(a.nals + out, if a.ts.Some? then a.ts.value else pkt.timestamp);
  }

  lemma HasIdrAppend(a: seq<Bytes>, b: seq<Bytes>)
    ensures HasIdr(a) || HasIdr(b) ==> HasIdr(a + b)
  {
    if HasIdr(a) {
      var i :| 0 <= i < |a| && IsIdr(a[i]);
      assert IsIdr((a + b)[i]);
    } else if HasIdr(b) {
      var i :| 0 <= i < |b| && IsIdr(b[i]);
      assert IsIdr((a + b)[|a| + i]);
    }
  }
}
