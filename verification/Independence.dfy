/** Every published access unit can be decoded from its own IDRs on: each IDR in it directly
    follows the most recent SPS and PPS of the whole session, on every run, with or without
    losses.
 */
module Independence {
  import opened Prelude
  import opened Annexb
  import opened Rtp
  import opened Depacketizer
  import opened SyncGate
  import opened TsMux
  import opened Assembly
  import opened Stream
  import opened Live
  import opened Epochs
  import opened Conservation

  /** Unit `k` is one of those heard, directly behind the last SPS and PPS heard before it, or
      those of the gate when none was. */
  ghost predicate FollowsLatest(g: Gate, heard: seq<Bytes>, nals: seq<Bytes>, k: nat)
    requires k < |nals|
  {
    && 2 <= k && IsSps(nals[k - 2]) && IsPps(nals[k - 1])
    && HeardBehind(g, heard, nals[k], nals[k - 2], nals[k - 1])
  }

  ghost predicate HeardBehind(g: Gate, heard: seq<Bytes>, nal: Bytes, sps: Bytes, pps: Bytes) {
    exists i :: 0 <= i < |heard| && HeardAt(g, heard, i, nal, sps, pps)
  }

  predicate HeardAt(g: Gate, heard: seq<Bytes>, i: nat, nal: Bytes, sps: Bytes, pps: Bytes)
    requires i < |heard|
  {
    heard[i] == nal && Latest(SPS, g.sps, heard[..i]) == Some(sps) && Latest(PPS, g.pps, heard[..i]) == Some(pps)
  }

  ghost predicate IdrsFollowLatest(g: Gate, heard: seq<Bytes>, nals: seq<Bytes>) {
    forall k :: 0 <= k < |nals| && IsIdr(nals[k]) ==> FollowsLatest(g, heard, nals, k)
  }

  ghost predicate AllFollowLatest(g: Gate, heard: seq<Bytes>, aus: seq<AccessUnit>) {
    forall i :: 0 <= i < |aus| ==> IdrsFollowLatest(g, heard, aus[i].nals)
  }

  lemma FollowAppend(g: Gate, heard: seq<Bytes>, a: seq<Bytes>, b: seq<Bytes>)
    requires IdrsFollowLatest(g, heard, a) && IdrsFollowLatest(g, heard, b)
    ensures IdrsFollowLatest(g, heard, a + b)
  {
    hide HeardAt, NalType;
    var c := a + b;
    forall k | 0 <= k < |c| && IsIdr(c[k])
      ensures FollowsLatest(g, heard, c, k)
    {
      if k < |a| {
        assert FollowsLatest(g, heard, a, k);
      } else {
        assert FollowsLatest(g, heard, b, k - |a|);
      }
    }
  }

  /** Hearing more, before or after, changes nothing. */
  lemma FollowWithin(g: Gate, before: seq<Bytes>, heard: seq<Bytes>, after: seq<Bytes>, nals: seq<Bytes>)
    requires IdrsFollowLatest(GateFor(g, before), heard, nals)
    ensures IdrsFollowLatest(g, before + heard + after, nals)
  {
    hide Latest, NalType;
    var all := before + heard + after;
    forall k | 0 <= k < |nals| && IsIdr(nals[k])
      ensures FollowsLatest(g, all, nals, k)
    {
      assert FollowsLatest(GateFor(g, before), heard, nals, k);
      var i :| 0 <= i < |heard| && HeardAt(GateFor(g, before), heard, i, nals[k], nals[k - 2], nals[k - 1]);
      LatestAppend(SPS, g.sps, before, heard[..i]);
      LatestAppend(PPS, g.pps, before, heard[..i]);
      assert all[..|before| + i] == before + heard[..i];
      assert HeardAt(g, all, |before| + i, nals[k], nals[k - 2], nals[k - 1]);
    }
  }

  lemma {:induction false} LatestIsTyped(t: u8, initial: Option<Bytes>, nals: seq<Bytes>)
    requires initial.Some? ==> NalType(initial.value) == Some(t)
    ensures var l := Latest(t, initial, nals); l.Some? ==> NalType(l.value) == Some(t)
  {
    if nals != [] {
      LatestIsTyped(t, initial, nals[..|nals| - 1]);
    }
  }

  /** A parameter set that is known stays known. */
  lemma {:induction false} LatestStays(t: u8, initial: Option<Bytes>, nals: seq<Bytes>, j: nat)
    requires j <= |nals| && Latest(t, initial, nals[..j]).Some?
    ensures Latest(t, initial, nals).Some?
    decreases |nals|
  {
    hide NalType;
    if j == |nals| {
      assert nals[..j] == nals;
    } else {
      assert nals[..|nals| - 1][..j] == nals[..j];
      LatestStays(t, initial, nals[..|nals| - 1], j);
    }
  }

  /** What one NAL unit leads to, behind a gate that was closed at the start. */
  lemma {:induction false} EmissionFollows(g: Gate, heard: seq<Bytes>, i: nat)
    requires !g.synced && WellTyped(g) && i < |heard|
    ensures IdrsFollowLatest(g, heard, Emission(g, heard, i))
  {
    hide Latest;
    var nal := heard[i];
    var sps, pps := Latest(SPS, g.sps, heard[..i]), Latest(PPS, g.pps, heard[..i]);
    LatestIsTyped(SPS, g.sps, heard[..i]);
    LatestIsTyped(PPS, g.pps, heard[..i]);
    if Open(g, heard, i + 1) {
      var j :| 0 <= j < i + 1 && SyncPoint(g, heard, j);
      assert heard[..i][..j] == heard[..j];
      LatestStays(SPS, g.sps, heard[..i], j);
      LatestStays(PPS, g.pps, heard[..i], j);
      assert HeardAt(g, heard, i, nal, sps.value, pps.value);
    }
  }

  lemma {:induction false} EmissionsFollow(g: Gate, heard: seq<Bytes>, k: nat)
    requires !g.synced && WellTyped(g) && k <= |heard|
    ensures IdrsFollowLatest(g, heard, Concat(Emissions(g, heard)[k..]))
    decreases |heard| - k
  {
    hide IdrsFollowLatest, Emission;
    if k == |heard| {
      NothingFollows(g, heard);
    } else {
      EmissionsFollow(g, heard, k + 1);
      EmissionFollows(g, heard, k);
      assert Emissions(g, heard)[k..][1..] == Emissions(g, heard)[k + 1..];
      FollowAppend(g, heard, Emission(g, heard, k), Concat(Emissions(g, heard)[k + 1..]));
    }
  }

  lemma NothingFollows(g: Gate, heard: seq<Bytes>)
    ensures IdrsFollowLatest(g, heard, [])
  {
  }

  lemma FollowAfter(g: Gate, heard: seq<Bytes>, after: seq<Bytes>, nals: seq<Bytes>)
    requires IdrsFollowLatest(g, heard, nals)
    ensures IdrsFollowLatest(g, heard + after, nals)
  {
    hide NalType, Latest;
    forall k | 0 <= k < |nals| && IsIdr(nals[k])
      ensures FollowsLatest(g, heard + after, nals, k)
    {
      assert FollowsLatest(g, heard, nals, k);
      var i :| 0 <= i < |heard| && HeardAt(g, heard, i, nals[k], nals[k - 2], nals[k - 1]);
      assert (heard + after)[..i] == heard[..i];
      assert HeardAt(g, heard + after, i, nals[k], nals[k - 2], nals[k - 1]);
    }
  }

  lemma AllFollowAfter(g: Gate, heard: seq<Bytes>, after: seq<Bytes>, aus: seq<AccessUnit>)
    requires AllFollowLatest(g, heard, aus)
    ensures AllFollowLatest(g, heard + after, aus)
  {
    hide IdrsFollowLatest;
    forall i | 0 <= i < |aus|
      ensures IdrsFollowLatest(g, heard + after, aus[i].nals)
    {
      FollowAfter(g, heard, after, aus[i].nals);
    }
  }

  lemma FrameFollows(g: Gate, e: Epoch)
    requires !g.synced && WellTyped(g) && e != []
    ensures FrameAu(g, e).Some? ==> IdrsFollowLatest(g, Units(e), FrameAu(g, e).value.nals)
  {
    hide IdrsFollowLatest, Emission, Units, FrameStart;
    var k := |Units(e[..FrameStart(e[..|e| - 1])])|;
    if k <= |Units(e)| {
      EmissionsFollow(g, Units(e), k);
    }
  }

  /** Every frame of packets that are accepted from scratch. */
  lemma {:induction false} FramesFollow(g: Gate, e: Epoch)
    requires !g.synced && WellTyped(g) && Depacketizes(e)
    ensures AllFollowLatest(g, Units(e), FrameAus(g, e))
    decreases |e|
  {
    if e != [] {
      var n := |e| - 1;
      assert e == e[..n] + [e[n]];
      hide IdrsFollowLatest, Units, FrameAu, PushAll;
      UnitsSnoc(e[..n], e[n]);
      FramesFollow(g, e[..n]);
      AllFollowAfter(g, Units(e[..n]), Units(e)[|Units(e[..n])|..], FrameAus(g, e[..n]));
      assert Units(e) == Units(e[..n]) + Units(e)[|Units(e[..n])|..];
      FrameFollows(g, e);
    }
  }

  lemma GateForIsClosed(g: Gate, heard: seq<Bytes>)
    requires WellTyped(g) && g.requireIdr
    ensures !GateFor(g, heard).synced && WellTyped(GateFor(g, heard))
  {
    hide Latest;
    LatestIsTyped(SPS, g.sps, heard);
    LatestIsTyped(PPS, g.pps, heard);
  }

  lemma EpochFollows(g: Gate, before: seq<Epoch>, e: Epoch)
    requires WellTyped(g) && g.requireIdr && Depacketizes(e)
    ensures AllFollowLatest(g, AllUnits(before) + Units(e), EpochAus(g, before, e))
  {
    hide IdrsFollowLatest, AllUnits, Units, FrameAus, Depacketizes, WellTyped, GateFor;
    var heard := AllUnits(before);
    GateForIsClosed(g, heard);
    FramesFollow(GateFor(g, heard), e);
    var aus := EpochAus(g, before, e);
    forall i | 0 <= i < |aus|
      ensures IdrsFollowLatest(g, heard + Units(e), aus[i].nals)
    {
      FollowWithin(g, heard, Units(e), [], aus[i].nals);
      assert heard + Units(e) + [] == heard + Units(e);
    }
  }

  lemma AllFollowAppend(g: Gate, heard: seq<Bytes>, a: seq<AccessUnit>, b: seq<AccessUnit>)
    requires AllFollowLatest(g, heard, a) && AllFollowLatest(g, heard, b)
    ensures AllFollowLatest(g, heard, a + b)
  {
    hide IdrsFollowLatest;
  }

  lemma {:induction false} GroupsFollow(g: Gate, closed: seq<Epoch>)
    requires WellTyped(g) && g.requireIdr && AllDepacketize(closed)
    ensures AllFollowLatest(g, AllUnits(closed), Flatten(StreamGroups(g, closed)))
    decreases |closed|
  {
    if closed != [] {
      hide AllFollowLatest, EpochAus, Units, Depacketizes, WellTyped, Flatten;
      var n := |closed| - 1;
      GroupsFollow(g, closed[..n]);
      assert Depacketizes(closed[n]);
      EpochFollows(g, closed[..n], closed[n]);
      AllFollowAfter(g, AllUnits(closed[..n]), Units(closed[n]), Flatten(StreamGroups(g, closed[..n])));
      FlattenSnoc(StreamGroups(g, closed[..n]), EpochAus(g, closed[..n], closed[n]));
      AllFollowAppend(g, AllUnits(closed), Flatten(StreamGroups(g, closed[..n])), EpochAus(g, closed[..n], closed[n]));
    }
  }

  predicate SeedWellTyped(cfg: Config) {
    cfg.seed.Some? ==> IsSps(cfg.seed.value.0) && IsPps(cfg.seed.value.1)
  }

  /** Every NAL unit of a run's epochs. */
  function Heard(events: seq<Event>): seq<Bytes> {
    AllUnits(Divide(events).closed) + Units(Divide(events).current)
  }

  /** At the start exactly the sets of the seed are known, if there is one. */
  lemma SeedIsKnown(cfg: Config)
    ensures SeedGate(cfg).sps == (if cfg.seed.Some? then Some(cfg.seed.value.0) else None)
    ensures SeedGate(cfg).pps == (if cfg.seed.Some? then Some(cfg.seed.value.1) else None)
    ensures SeedGate(cfg).requireIdr && !SeedGate(cfg).synced
  {
  }

  lemma SeedGateIsTyped(cfg: Config)
    requires SeedWellTyped(cfg)
    ensures WellTyped(SeedGate(cfg)) && SeedGate(cfg).requireIdr
  {
  }

  lemma {:induction false} MemberOfSegments(published: seq<Segment>, i: nat, au: AccessUnit)
    requires i < |published| && au in published[i].aus
    ensures au in SegmentAus(published)
    decreases |published|
  {
    var n := |published| - 1;
    if i < n {
      MemberOfSegments(published[..n], i, au);
    }
  }

  /** In every session that was seeded, if at all, with an SPS and a PPS, whatever is lost: each
      IDR of each access unit of each segment directly follows an SPS and a PPS, and they are
      the last ones heard before it in the whole session. */
  lemma {:induction false} EveryIdrCarriesParameterSets(cfg: Config, events: seq<Event>, end: nat)
    requires SeedWellTyped(cfg)
    ensures
      var published := Session(cfg, events, end).published;
      forall i, au :: 0 <= i < |published| && au in published[i].aus ==>
        IdrsFollowLatest(SeedGate(cfg), Heard(events), au.nals)
  {
    hide Session, Divide, IdrsFollowLatest, SegmentAus, AllUnits, Units, GroupsOf, StreamGroups, EpochAus,
         AllDepacketize, Depacketizes, SeedGate, WellTyped, Flatten;
    var g, d := SeedGate(cfg), Divide(events);
    var published := Session(cfg, events, end).published;
    SeedGateIsTyped(cfg);
    SessionCarriesFrames(cfg, events, end);
    EpochsDepacketize(events);
    GroupsFollow(g, d.closed);
    AllFollowAfter(g, AllUnits(d.closed), Units(d.current), Flatten(GroupsOf(published).done));
    EpochFollows(g, d.closed, d.current);
    GroupsFlatten(published);
    AllFollowAppend(g, Heard(events), Flatten(GroupsOf(published).done), GroupsOf(published).open);
    forall i, au | 0 <= i < |published| && au in published[i].aus
      ensures IdrsFollowLatest(g, Heard(events), au.nals)
    {
      MemberOfSegments(published, i, au);
    }
  }

  // ---------------------------------------------------------------------------
  // Unit by unit
  // ---------------------------------------------------------------------------

  /** What unit `i` of those heard leads to in the published stream: nothing; itself, when it is
      no IDR; or itself behind the last SPS and PPS heard before it, when it is one. */
  predicate PieceAt(g: Gate, heard: seq<Bytes>, i: nat, piece: seq<Bytes>)
    requires i < |heard|
  {
    piece != [] ==>
      if !IsIdr(heard[i]) then piece == [heard[i]]
      else
        var sps, pps := Latest(SPS, g.sps, heard[..i]), Latest(PPS, g.pps, heard[..i]);
        sps.Some? && pps.Some? && IsSps(sps.value) && IsPps(pps.value) && piece == [sps.value, pps.value, heard[i]]
  }

  ghost predicate AllPieces(g: Gate, heard: seq<Bytes>, pieces: seq<seq<Bytes>>) {
    |pieces| == |heard| && forall i :: 0 <= i < |heard| ==> PieceAt(g, heard, i, pieces[i])
  }

  function Nothings(n: nat): (p: seq<seq<Bytes>>)
    ensures |p| == n && forall i :: 0 <= i < n ==> p[i] == []
  {
    seq(n, _ => [])
  }

  /** What each unit of an epoch leads to: up to the last marker what the gate makes of it, and
      nothing behind. */
  function EpochPieces(g: Gate, e: Epoch): (p: seq<seq<Bytes>>)
    ensures |p| == |Units(e)|
  {
    var k := Min(|Units(e[..FrameStart(e)])|, |Units(e)|);
    Emissions(g, Units(e))[..k] + Nothings(|Units(e)| - k)
  }

  function Pieces(g: Gate, epochs: seq<Epoch>): seq<seq<Bytes>> {
    if epochs == [] then []
    else
      var n := |epochs| - 1;
      Pieces(g, epochs[..n]) + EpochPieces(GateFor(g, AllUnits(epochs[..n])), epochs[n])
  }

  lemma {:induction false} ConcatNothings(n: nat)
    ensures Concat(Nothings(n)) == []
  {
    if n > 0 {
      ConcatNothings(n - 1);
      assert Nothings(n)[1..] == Nothings(n - 1);
    }
  }

  lemma {:induction false} EpochPiecesAreKept(g: Gate, e: Epoch)
    requires Depacketizes(e)
    ensures Concat(EpochPieces(g, e)) == EmittedBefore(g, e)
  {
    hide Units, FrameStart, Emissions, Concat;
    UnitsOfPrefix(e, FrameStart(e));
    var k := |Units(e[..FrameStart(e)])|;
    ConcatNothings(|Units(e)| - k);
    ConcatAppend(Emissions(g, Units(e))[..k], Nothings(|Units(e)| - k));
    assert Concat(Emissions(g, Units(e))[..k]) + [] == Concat(Emissions(g, Units(e))[..k]);
  }

  lemma {:induction false} PiecesAreKept(g: Gate, epochs: seq<Epoch>)
    requires AllDepacketize(epochs)
    ensures Concat(Pieces(g, epochs)) == KeptNals(g, epochs)
    decreases |epochs|
  {
    if epochs != [] {
      hide EpochPieces, EmittedBefore, Depacketizes, AllUnits, GateFor, Concat;
      var n := |epochs| - 1;
      PiecesAreKept(g, epochs[..n]);
      assert Depacketizes(epochs[n]);
      var gate := GateFor(g, AllUnits(epochs[..n]));
      EpochPiecesAreKept(gate, epochs[n]);
      ConcatAppend(Pieces(g, epochs[..n]), EpochPieces(gate, epochs[n]));
    }
  }

  lemma {:induction false} EmissionIsPiece(g: Gate, heard: seq<Bytes>, i: nat)
    requires !g.synced && WellTyped(g) && i < |heard|
    ensures PieceAt(g, heard, i, Emission(g, heard, i))
  {
    hide Latest;
    LatestIsTyped(SPS, g.sps, heard[..i]);
    LatestIsTyped(PPS, g.pps, heard[..i]);
    if Open(g, heard, i + 1) {
      var j :| 0 <= j < i + 1 && SyncPoint(g, heard, j);
      assert heard[..i][..j] == heard[..j];
      LatestStays(SPS, g.sps, heard[..i], j);
      LatestStays(PPS, g.pps, heard[..i], j);
    }
  }

  lemma {:induction false} EpochPiecesFit(g: Gate, e: Epoch)
    requires !g.synced && WellTyped(g)
    ensures AllPieces(g, Units(e), EpochPieces(g, e))
  {
    hide Units, FrameStart, Emission, WellTyped;
    forall i | 0 <= i < |Units(e)|
      ensures PieceAt(g, Units(e), i, EpochPieces(g, e)[i])
    {
      EmissionIsPiece(g, Units(e), i);
    }
  }

  /** Pieces behind others, in one list of all units heard. */
  lemma {:induction false} PiecesAppend(
      g: Gate, before: seq<Bytes>, heard: seq<Bytes>, p: seq<seq<Bytes>>, q: seq<seq<Bytes>>)
    requires AllPieces(g, before, p) && AllPieces(GateFor(g, before), heard, q)
    ensures AllPieces(g, before + heard, p + q)
  {
    hide Latest, NalType;
    var all := before + heard;
    forall i | 0 <= i < |all|
      ensures PieceAt(g, all, i, (p + q)[i])
    {
      if i < |before| {
        assert PieceAt(g, before, i, p[i]);
        assert all[..i] == before[..i];
      } else {
        var j := i - |before|;
        assert PieceAt(GateFor(g, before), heard, j, q[j]);
        assert all[..i] == before + heard[..j];
        LatestAppend(SPS, g.sps, before, heard[..j]);
        LatestAppend(PPS, g.pps, before, heard[..j]);
      }
    }
  }

  lemma {:induction false} PiecesFit(g: Gate, epochs: seq<Epoch>)
    requires WellTyped(g) && g.requireIdr
    ensures AllPieces(g, AllUnits(epochs), Pieces(g, epochs))
    decreases |epochs|
  {
    hide PieceAt, EpochPieces, Units, WellTyped, GateFor;
    if epochs != [] {
      var n := |epochs| - 1;
      PiecesFit(g, epochs[..n]);
      var before := AllUnits(epochs[..n]);
      GateForIsClosed(g, before);
      EpochPiecesFit(GateFor(g, before), epochs[n]);
      PiecesAppend(g, before, Units(epochs[n]), Pieces(g, epochs[..n]), EpochPieces(GateFor(g, before), epochs[n]));
    }
  }

  /** The published stream, unit by unit: the NAL units of all segments, in order, are one piece
      for each unit heard, in order; and the piece of an IDR, if any, is that IDR behind the last
      SPS and PPS heard before it. */
  lemma {:induction false} PublishedUnitByUnit(cfg: Config, events: seq<Event>, end: nat)
    requires SeedWellTyped(cfg)
    ensures
      var d, g := Divide(events), SeedGate(cfg);
      var pieces := Pieces(g, d.closed + [d.current]);
      && AuNals(SegmentAus(Session(cfg, events, end).published)) == Concat(pieces)
      && AllPieces(g, Heard(events), pieces)
  {
    hide Session, Divide, SegmentAus, AuNals, Units, KeptNals, AllDepacketize, Depacketizes, SeedGate, WellTyped,
         Pieces, AllPieces;
    var d, g := Divide(events), SeedGate(cfg);
    SeedGateIsTyped(cfg);
    SessionHoldsTheStream(cfg, events, end);
    EpochsDepacketize(events);
    AllWithLast(d.closed, d.current);
    PiecesAreKept(g, d.closed + [d.current]);
    PiecesFit(g, d.closed + [d.current]);
  }

  lemma AllWithLast(closed: seq<Epoch>, e: Epoch)
    requires AllDepacketize(closed) && Depacketizes(e)
    ensures AllDepacketize(closed + [e]) && AllUnits(closed + [e]) == AllUnits(closed) + Units(e)
  {
    hide Depacketizes, Units;
    assert (closed + [e])[..|closed|] == closed;
  }
}
