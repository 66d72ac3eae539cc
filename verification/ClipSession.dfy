/** `run_stream`: the messages of a stream in, clip files out.  Every file operation may fail. */
module ClipSession {
  import opened Prelude
  import opened Annexb
  import opened Rtp
  import opened Depacketizer
  import opened SyncGate
  import opened Clips
  import opened ClipLife
  import opened ClipFile

  // ---------------------------------------------------------------------------
  // The stream
  // ---------------------------------------------------------------------------

  datatype ClipState = ClipState(writer: ClipWriter, stopAt: nat, hardStopAt: Option<nat>)

  class StreamRecorder {
    const cfg: ClipConfig
    const retryCount: nat
    const dep: H264Depacketizer
    var expectedSeq: Option<u16>
    var synced: bool
    var sps: Option<Bytes>
    var pps: Option<Bytes>
    var currentAu: seq<Bytes>
    var ring: seq<Unit>
    var clip: Option<ClipState>
    var clipPending: bool
    var pendingRingSnapshot: Option<seq<Unit>>
    var files: seq<Bytes>
    const storage: Storage
    /** The failures that were there before this run. */
    ghost const start: nat

    ghost function Repr(): set<object>
      reads this
    {
      {this, dep, storage} + (if clip.Some? then {clip.value.writer} else {})
    }

    /** The variables, the active clip and the finished files are those of `s`. */
    ghost predicate Matches(s: State)
      reads this, Repr()
    {
      && expectedSeq == s.expectedSeq && dep.State() == s.dep && synced == s.synced && sps == s.sps && pps == s.pps
      && currentAu == s.nals && ring == s.ring
      && MatchesRequest(s.request)
      && MatchesStart(clip, s.clip)
      && files == FilesOf(s.finished)
    }

    /** As long as nothing has failed, the variables are those of `s`. */
    ghost predicate Agrees(s: State)
      reads this, Repr()
    {
      start <= storage.failures && (start == storage.failures ==> Matches(s))
    }

    ghost predicate WritesToStorage()
      reads this
    {
      clip.Some? ==> clip.value.writer.storage == storage
    }

    ghost predicate MatchesRequest(r: Option<Request>)
      reads this
    {
      && clipPending == r.Some?
      && (r.Some? ==> pendingRingSnapshot == Some(r.value.snapshot))
    }

    constructor (cfg: ClipConfig, retryCount: nat, storage: Storage)
      ensures this.cfg == cfg && this.storage == storage && start == storage.failures
      ensures fresh(Repr() - {storage}) && WritesToStorage() && Matches(FRESH)
    {
      this.cfg, this.retryCount, this.storage, start := cfg, retryCount, storage, storage.failures;
      dep := new H264Depacketizer();
      expectedSeq, synced, sps, pps, currentAu, ring := None, false, None, None, [], [];
      clip, clipPending, pendingRingSnapshot, files := None, false, None, [];
    }

    method Desync(next: Option<u16>)
      modifies this, dep
      ensures dep.State() == IDLE && !synced && expectedSeq == next && currentAu == []
      ensures unchanged(`sps, `pps, `ring, `clip, `clipPending, `pendingRingSnapshot, `files)
    {
      dep.Reset();
      synced := false;
      expectedSeq := next;
      currentAu := [];
    }

    /** `prune_ring`. */
    method PruneRing(now: nat)
      modifies `ring
      ensures ring == Prune(old(ring), cfg.ringSecs, now)
      ensures RingIsRecent(cfg, ring, old(ring), now) && (ring != [] ==> !TooOld(cfg, ring[0], now))
    {
      PruneDrops(cfg, ring, now);
      while ring != []
        invariant Prune(ring, cfg.ringSecs, now) == Prune(old(ring), cfg.ringSecs, now)
        decreases |ring|
      {
        if Elapsed(ring[0].ts, now) > Nanos(cfg.ringSecs) {
          ring := ring[1..];
        } else {
          break;
        }
      }
    }

    /** `build_access_unit`: notes parameter sets on the way. */
    method BuildAccessUnit(nals: seq<Bytes>, now: nat) returns (au: Unit)
      modifies `sps, `pps
      ensures au == Unit(now, nals, HasIdr(nals))
      ensures sps == Latest(SPS, old(sps), nals) && pps == Latest(PPS, old(pps), nals)
    {
      var hasIdr := false;
      var out: seq<Bytes> := [];
      var i := 0;
      while i < |nals|
        invariant i <= |nals| && out == nals[..i] && hasIdr == HasIdr(nals[..i])
        invariant sps == Latest(SPS, old(sps), nals[..i]) && pps == Latest(PPS, old(pps), nals[..i])
      {
        var nal := nals[i];
        ghost var next := nals[..i + 1];
        assert next[..i] == nals[..i] && next[i] == nal;
        HasIdrNext(nals, i);
        hide HasIdr;
        var nt := NalType(nal);
        if nt == Some(SPS) {
          sps := Some(nal);
        } else if nt == Some(PPS) {
          pps := Some(nal);
        } else if nt == Some(IDR) {
          hasIdr := true;
        }
        out := out + [nal];
        i := i + 1;
      }
      assert nals[..i] == nals;
      au := Unit(now, out, hasIdr);
    }

    /** `try_start_clip`: a request becomes a clip that holds the preroll. */
    method TryStartClip(ghost r: Request, now: nat) returns (ok: bool, start: Option<ClipState>)
      modifies storage
      ensures storage.Counts(ok, old(storage.failures))
      ensures ok && start.Some? ==> fresh(start.value.writer) && start.value.writer.storage == storage
      ensures ok && start.Some? ==> start.value.stopAt == now + 1_000_000_000 * cfg.postSecs
      ensures ok && start.Some? ==> start.value.hardStopAt == HardStop(cfg, now)
      ensures ok && pendingRingSnapshot == Some(r.snapshot) ==> MatchesStart(start, TryStart(cfg, r, sps, pps, now))
    {
      hide Preroll, FromIdr, NalsOf, Concat;
      var writer := ClipWriter.Create(storage, 256 * 1024);
      if writer == null {
        return false, None;
      }
      var snapshot := if pendingRingSnapshot.Some? then pendingRingSnapshot.value else [];
      var found, wroteAny := false, false;
      NoPreroll(sps, pps);
      var i := 0;
      while i < |snapshot|
        modifies writer, storage
        invariant i <= |snapshot| && storage.failures == old(storage.failures)
        invariant found == (FromIdr(snapshot[..i]) != []) && wroteAny == (NalsOf(FromIdr(snapshot[..i])) != [])
        invariant writer.Intact() && writer.given == Concat(Preroll(snapshot[..i], sps, pps))
      {
        PrerollNext(snapshot, i, sps, pps);
        var au := snapshot[i];
        i := i + 1;
        if !found {
          if !au.hasIdr {
            continue;
          }
          found := true;
          if sps.Some? && pps.Some? {
            ok := WriteNals(writer, [sps.value, pps.value]);
            if !ok {
              return false, None;
            }
          }
        }
        ok := WriteNals(writer, au.nals);
        if !ok {
          return false, None;
        }
        wroteAny := wroteAny || au.nals != [];
      }
      assert snapshot[..i] == snapshot;
      if !wroteAny {
        if sps.None? || pps.None? {
          return true, None;
        }
      }
      ok := true;
      start := Some(ClipState(writer, now + Nanos(cfg.postSecs),
                              if cfg.maxClipSecs.Some? then Some(now + Nanos(cfg.maxClipSecs.value)) else None));
    }

    /** `write_active_clip_nal_with_retry`: on success at attempt `k` the writer was given `k`
        copies; so the unit is given once if and only if the first attempt succeeds. */
    method WriteNalWithRetry(writer: ClipWriter, nal: Bytes) returns (ok: bool, ghost attempts: nat)
      requires writer.storage == storage
      modifies writer, storage
      ensures 1 <= attempts <= retryCount + 1 && (!ok ==> attempts == retryCount + 1)
      ensures storage.failures == old(storage.failures) + if ok then attempts - 1 else attempts
      ensures writer.given == old(writer.given) + Copies(nal, attempts)
      ensures ok && nal != [] ==>
        (writer.given == old(writer.given) + nal <==> storage.failures == old(storage.failures))
      ensures ok && attempts == 1 && old(writer.Intact()) ==> writer.Intact()
      ensures ok && attempts > 1 ==>
        EndsWith(writer.file + writer.buffered, old(writer.pending) + Copies(nal, attempts))
    {
      hide EndsWith;
      var limit := retryCount + 1;
      var attempt := 1;
      attempts := 0;
      NoCopies(nal);
      while attempt <= limit
        invariant 1 <= attempt <= limit + 1 && attempts == attempt - 1
        invariant storage.failures == old(storage.failures) + attempts
        invariant writer.given == old(writer.given) + Copies(nal, attempts)
        invariant writer.pending == old(writer.pending) + Copies(nal, attempts)
        invariant attempts == 0 ==> (old(writer.Intact()) ==> writer.Intact())
        invariant attempts > 0 ==> |writer.pending| >= writer.maxPendingBytes
      {
        OneMoreCopy(writer.given, old(writer.given), nal, attempts);
        OneMoreCopy(writer.pending, old(writer.pending), nal, attempts);
        ok := writer.WriteNal(nal);
        attempts := attempts + 1;
        if ok {
          CopiesDiffer(old(writer.given), nal, attempts);
          return;
        }
        attempt := attempt + 1;
      }
      ok := false;
    }

    /** The newest unit of the ring goes into the active clip; when a write fails for good the
        clip is dropped. */
    method WriteActive(nals: seq<Bytes>, ghost before: Option<Clip>)
      requires clip.Some? && clip.value.writer.storage == storage
      modifies clip.value.writer, storage, `clip
      ensures old(storage.failures) <= storage.failures
      ensures clip == old(clip) || (clip == None && old(storage.failures) < storage.failures)
      ensures storage.failures == old(storage.failures) && before.Some? && old(MatchesStart(clip, before)) ==>
        MatchesStart(clip, Some(before.value.(written := before.value.written + nals)))
    {
      hide Concat;
      var writer := clip.value.writer;
      ghost var given, failures := writer.given, storage.failures;
      NothingToConcat();
      assert nals[..0] == [];
      var i := 0;
      while i < |nals|
        modifies writer, storage, `clip
        invariant i <= |nals| && failures <= storage.failures && clip == old(clip)
        invariant storage.failures == failures ==>
          writer.given == given + Concat(nals[..i]) && (old(writer.Intact()) ==> writer.Intact())
      {
        ConcatNext(nals, i);
        OneCopy(nals[i]);
        var ok, attempts := WriteNalWithRetry(writer, nals[i]);
        if !ok {
          clip := None;
          return;
        }
        i := i + 1;
      }
      assert nals[..i] == nals;
      if before.Some? {
        ConcatAppend(before.value.written, nals);
      }
    }

    /** A request becomes the active clip. */
    method StartPending(later: nat, ghost s: State) returns (ok: bool)
      requires Agrees(s) && WritesToStorage()
      modifies `clip, `clipPending, `pendingRingSnapshot, storage
      ensures fresh(Repr() - old(Repr())) && WritesToStorage() && storage.Counts(ok, old(storage.failures))
      ensures Agrees(StartRequested(cfg, s, later))
    {
      hide TryStart, MatchesClip, FilesOf;
      ok := true;
      if clipPending && clip.None? {
        ghost var r := if s.request.Some? then s.request.value else Request([], 0);
        var start;
        ok, start := TryStartClip(r, later);
        if ok && start.Some? {
          clip, clipPending, pendingRingSnapshot := start, false, None;
        }
      }
    }

    /** An access unit of a stream in sync. */
    method AcceptUnit(au: Unit, later: nat, ghost s: State) returns (ok: bool)
      requires Agrees(s) && WritesToStorage()
      modifies Repr()
      ensures fresh(Repr() - old(Repr())) && WritesToStorage() && storage.NoWorse(ok, old(storage.failures))
      ensures Agrees(Accept(cfg, s, au, later))
    {
      hide Prune, StartRequested, MatchesClip, FilesOf;
      ring := ring + [au];
      PruneRing(later);
      ghost var t := StartRequested(cfg, Enter(cfg, s, au, later), later);
      ok := StartPending(later, Enter(cfg, s, au, later));
      if ok && clip.Some? && ring != [] {
        WriteActive(ring[|ring| - 1].nals, t.clip);
      }
    }

    /** The marker bit. */
    method CompleteUnit(now: nat, later: nat, ghost s: State) returns (ok: bool)
      requires Agrees(s) && WritesToStorage()
      modifies Repr()
      ensures fresh(Repr() - old(Repr())) && WritesToStorage() && storage.NoWorse(ok, old(storage.failures))
      ensures Agrees(Complete(cfg, s, now, later))
    {
      hide Accept, HasIdr, Latest, MatchesClip, FilesOf;
      if currentAu == [] {
        return true;
      }
      var au := BuildAccessUnit(currentAu, now);
      currentAu := [];
      ghost var t := s.(sps := sps, pps := pps, nals := []);
      if !synced {
        if au.hasIdr && sps.Some? && pps.Some? {
          au := au.(nals := [sps.value, pps.value] + au.nals);
          synced := true;
          t := t.(synced := true);
        } else {
          return true;
        }
      }
      ok := AcceptUnit(au, later, t);
    }

    method HandlePacket(pkt: RtpPacket, now: nat, later: nat, ghost s: State) returns (ok: bool)
      requires Agrees(s) && WritesToStorage()
      modifies Repr()
      ensures fresh(Repr() - old(Repr())) && WritesToStorage() && storage.NoWorse(ok, old(storage.failures))
      ensures Agrees(StepPacket(cfg, s, pkt, now, later))
    {
      hide Complete, Push, MatchesClip, FilesOf, NextSeq;
      if expectedSeq.Some? && expectedSeq.value != pkt.sequenceNumber {
        Desync(Some(NextSeq(pkt.sequenceNumber)));
        return true;
      }
      expectedSeq := Some(NextSeq(pkt.sequenceNumber));
      var nals := dep.PushRtpPayload(pkt.payload);
      if nals.Err? {
        Desync(None);
        return true;
      }
      currentAu := currentAu + nals.value;
      ok := true;
      if pkt.marker {
        ok := CompleteUnit(now, later, s.(expectedSeq := expectedSeq, dep := dep.State(), nals := currentAu));
      }
    }

    /** `finalize_clip`, when it is due. */
    method OnTick(now: nat, ghost s: State) returns (ok: bool)
      requires Agrees(s) && WritesToStorage()
      modifies Repr()
      ensures fresh(Repr() - old(Repr())) && WritesToStorage() && storage.NoWorse(ok, old(storage.failures))
      ensures Agrees(Step(cfg, s, Event(Tick, now, now)))
    {
      ok := true;
      if clip.Some? {
        var c := clip.value;
        if c.stopAt <= now || (c.hardStopAt.Some? && c.hardStopAt.value <= now) {
          var final;
          ok, final := c.writer.Finalize();
          clip := None;
          if ok {
            files := files + [final];
          }
        }
      }
    }

    /** One message. */
    method HandleMessage(e: Event, ghost s: State) returns (ok: bool)
      requires Agrees(s) && WritesToStorage()
      modifies Repr()
      ensures fresh(Repr() - old(Repr())) && WritesToStorage() && storage.NoWorse(ok, old(storage.failures))
      ensures Agrees(Step(cfg, s, e))
    {
      hide StepPacket, MatchesClip, FilesOf, Decode;
      ok := true;
      match e.msg
      case Tick =>
        ok := OnTick(e.now, s);
      case Gap =>
        Desync(None);
      case Motion(active) =>
        if active && clip.None? {
          clipPending := true;
          pendingRingSnapshot := Some(ring);
        }
      case RtpMsg(bytes) =>
        var parsed := ParseSlice(bytes);
        if parsed.Err? {
          Desync(None);
          return;
        }
        ok := HandlePacket(parsed.value, e.now, e.later, s);
    }
  }

  /** The whole run: when no file operation fails, it succeeds, and the finished files are,
      byte for byte, the finished clips. */
  method RunStream(
      cfg: ClipConfig, retryCount: nat, events: seq<Event>, storage: Storage) returns (ok: bool, files: seq<Bytes>)
    modifies storage
    ensures storage.NoWorse(ok, old(storage.failures))
    ensures storage.failures == old(storage.failures) ==> files == FilesOf(Run(cfg, events).finished)
  {
    hide Step, FilesOf, StreamRecorder.MatchesRequest, MatchesStart;
    var recorder := new StreamRecorder(cfg, retryCount, storage);
    var i := 0;
    assert events[..0] == [];
    while i < |events|
      invariant i <= |events|
      invariant recorder.cfg == cfg && recorder.storage == storage && fresh(recorder.Repr() - {storage})
      invariant recorder.start == old(storage.failures) && recorder.WritesToStorage()
      invariant recorder.Agrees(Run(cfg, events[..i]))
    {
      assert events[..i + 1][..i] == events[..i];
      ok := recorder.HandleMessage(events[i], Run(cfg, events[..i]));
      if !ok {
        return false, recorder.files;
      }
      i := i + 1;
    }
    assert events[..i] == events;
    return true, recorder.files;
  }

  /** Writing without a second attempt. */
  method WriteNals(writer: ClipWriter, nals: seq<Bytes>) returns (ok: bool)
    requires writer.Intact()
    modifies writer, writer.storage
    ensures writer.storage.Counts(ok, old(writer.storage.failures))
    ensures ok ==> writer.Intact() && writer.given == old(writer.given) + Concat(nals)
  {
    var i := 0;
    assert nals[..0] == [];
    while i < |nals|
      invariant i <= |nals| && writer.Intact() && writer.storage.failures == old(writer.storage.failures)
      invariant writer.given == old(writer.given) + Concat(nals[..i])
    {
      ConcatNext(nals, i);
      ok := writer.WriteNal(nals[i]);
      if !ok {
        return;
      }
      i := i + 1;
    }
    assert nals[..i] == nals;
    ok := true;
  }

  lemma ConcatNext(nals: seq<Bytes>, i: nat)
    requires i < |nals|
    ensures Concat(nals[..i + 1]) == Concat(nals[..i]) + nals[i]
  {
    hide Concat;
    assert nals[..i + 1] == nals[..i] + [nals[i]];
    ConcatAppend(nals[..i], [nals[i]]);
    ConcatOne(nals[i]);
  }

  lemma NoPreroll(sps: Option<Bytes>, pps: Option<Bytes>)
    ensures forall s: seq<Unit> :: s[..0] == []
    ensures FromIdr([]) == [] && NalsOf([]) == [] && Concat(Preroll([], sps, pps)) == []
  {
  }

  lemma NothingToConcat()
    ensures Concat<u8>([]) == []
  {
  }

  lemma {:induction false} FromIdrNext(units: seq<Unit>, u: Unit)
    ensures FromIdr(units + [u]) ==
      if FromIdr(units) != [] then FromIdr(units) + [u] else if u.hasIdr then [u] else []
    decreases |units|
  {
    if units == [] {
      assert [] + [u] == [u] && [u][1..] == [];
    } else {
      assert (units + [u])[1..] == units[1..] + [u];
      FromIdrNext(units[1..], u);
    }
  }

  lemma FirstOfPreroll(u: Unit)
    ensures NalsOf([]) == [] && NalsOf([u]) == u.nals
  {
    assert [u][..0] == [];
  }

  lemma ConcatThree(a: seq<Bytes>, b: seq<Bytes>, c: seq<Bytes>)
    ensures Concat(a + b + c) == Concat(a) + Concat(b) + Concat(c)
  {
    hide Concat;
    ConcatAppend(a + b, c);
    ConcatAppend(a, b);
  }

  /** The preroll, one unit further into the snapshot. */
  lemma PrerollNext(snapshot: seq<Unit>, i: nat, sps: Option<Bytes>, pps: Option<Bytes>)
    requires i < |snapshot|
    ensures
      var before, after := FromIdr(snapshot[..i]), FromIdr(snapshot[..i + 1]);
      var u := snapshot[i];
      var sets := if before == [] && sps.Some? && pps.Some? then [sps.value, pps.value] else [];
      if before == [] && !u.hasIdr
      then after == before && Preroll(snapshot[..i + 1], sps, pps) == Preroll(snapshot[..i], sps, pps)
      else
        && Concat<u8>([]) == []
        && after != []
        && (NalsOf(after) != [] <==> NalsOf(before) != [] || u.nals != [])
        && Concat(Preroll(snapshot[..i + 1], sps, pps))
          == Concat(Preroll(snapshot[..i], sps, pps)) + Concat(sets) + Concat(u.nals)
  {
    hide FromIdr, NalsOf, Concat;
    assert snapshot[..i + 1] == snapshot[..i] + [snapshot[i]];
    var before, u := FromIdr(snapshot[..i]), snapshot[i];
    FromIdrNext(snapshot[..i], u);
    NothingToConcat();
    if before == [] {
      FirstOfPreroll(u);
    } else {
      NalsOfSnoc(before, u);
    }
    if before != [] || u.hasIdr {
      var sets := if before == [] && sps.Some? && pps.Some? then [sps.value, pps.value] else [];
      ConcatThree(Preroll(snapshot[..i], sps, pps), sets, u.nals);
      assert Preroll(snapshot[..i + 1], sps, pps) == Preroll(snapshot[..i], sps, pps) + sets + u.nals;
    }
  }

  function FilesOf(finished: seq<Finished>): (files: seq<Bytes>)
    ensures |files| == |finished| && forall i :: 0 <= i < |finished| ==> files[i] == Concat(finished[i].clip.written)
  {
    seq(|finished|, i requires 0 <= i < |finished| => Concat(finished[i].clip.written))
  }

  ghost predicate MatchesStart(start: Option<ClipState>, s: Option<Clip>)
    reads if start.Some? then {start.value.writer} else {}
  {
    (start.Some? <==> s.Some?) && (start.Some? ==> MatchesClip(start.value, s.value))
  }

  ghost predicate MatchesClip(c: ClipState, s: Clip)
    reads c.writer
  {
    c.writer.Intact() && c.writer.given == Concat(s.written) && c.stopAt == s.stopAt && c.hardStopAt == s.hardStopAt
  }

  lemma HasIdrNext(nals: seq<Bytes>, i: nat)
    requires i < |nals|
    ensures HasIdr(nals[..i + 1]) <==> HasIdr(nals[..i]) || IsIdr(nals[i])
  {
    if HasIdr(nals[..i]) {
      var j :| 0 <= j < i && IsIdr(nals[..i][j]);
      assert IsIdr(nals[..i + 1][j]);
    }
    if IsIdr(nals[i]) {
      assert IsIdr(nals[..i + 1][i]);
    }
  }
}
