/** `run_stream_v2` itself: RTP bytes in, a directory of segments out.  Every file-system
    call may fail, and the first failure ends the run.
 */
module LivePipeline {
  import opened Prelude
  import opened Annexb
  import opened Rtp
  import opened Depacketizer
  import opened SyncGate
  import opened TsMux
  import opened Assembly
  import opened Live
  import opened Disk
  import opened PlaylistWindow
  import opened Directory
  import opened LiveSession

  class Pipeline {
    const cfg: Config
    const dep: H264Depacketizer
    const syncGate: H264SyncGate
    const output: LiveOutput
    var expectedSeq: Option<u16>
    var currentAuNals: seq<Bytes>
    var currentAuRtpTs: Option<u32>

    ghost function Repr(): set<object>
      reads this, output
    {
      {this, dep, syncGate} + output.Repr()
    }

    /** The half-assembled access unit. */
    function AssemblyNow(): Assembly
      reads this, dep, syncGate
    {
      Assembly(dep.State(), syncGate.State(), currentAuNals, currentAuRtpTs)
    }

    /** The variables and the directory are those of `s`. */
    ghost predicate Matches(s: State)
      reads this, output, Repr()
    {
      output.cfg == cfg && expectedSeq == s.expectedSeq && AssemblyNow() == s.asm && output.Matches(s.pub)
    }

    constructor (cfg: Config, disk: FileSystem)
      requires disk.Valid() && disk.files == map[] && disk.pointer == None && disk.history == [disk.Now()]
      ensures this.cfg == cfg && output.disk == disk && fresh(Repr() - {disk})
      ensures Matches(Initial(cfg))
    {
      hide LiveOutput.Matches, LiveOutput.SafeSoFar;
      this.cfg := cfg;
      dep := new H264Depacketizer();
      syncGate := new H264SyncGate(true);
      output := new LiveOutput(cfg, disk);
      expectedSeq, currentAuNals, currentAuRtpTs := None, [], None;
      new;
      if cfg.seed.Some? {
        var (sps, pps) := cfg.seed.value;
        syncGate.SetSpropParamSets(sps, pps);
      }
    }

    /** What every discontinuity does: the segment is closed, and the half-assembled access
        unit and the expected number are dropped.  (Behind a wrong number the next one is set
        at once.) */
    method Discontinuity(now: nat, ghost s: State) returns (ok: bool)
      requires output.cfg == cfg && syncGate.State() == s.asm.gate && output.Matches(s.pub) && Sound(s.pub)
      modifies Repr()
      ensures output.disk.Counts(ok, old(output.disk.failures))
      ensures output.SafeSoFar() && Repr() <= old(Repr())
      ensures ok ==> Matches(Interrupt(s, now))
    {
      hide LiveOutput.Matches, LiveOutput.SafeSoFar, Sound, Live.HandleDiscontinuity;
      ok := output.HandleDiscontinuity(now, s.pub);
      if ok {
        dep.Reset();
        syncGate.ResetSync();
        expectedSeq := None;
        currentAuNals := [];
        currentAuRtpTs := None;
      }
    }

    /** Every NAL unit of a packet goes through the gate. */
    method PushThroughGate(nals: seq<Bytes>)
      modifies syncGate, `currentAuNals
      ensures
        var g := PushNals(old(syncGate.State()), nals);
        syncGate.State() == g.gate && currentAuNals == old(currentAuNals) + g.out
    {
      var i := 0;
      while i < |nals|
        invariant i <= |nals|
        invariant
          var g := PushNals(old(syncGate.State()), nals[..i]);
          syncGate.State() == g.gate && currentAuNals == old(currentAuNals) + g.out
      {
        hide PushNal;
        var gated := syncGate.Push(nals[i]);
        currentAuNals := currentAuNals + gated;
        assert nals[..i + 1][..i] == nals[..i];
        i := i + 1;
      }
      assert nals[..i] == nals;
    }

    /** Depacketizer, gate and, behind the marker, the completed access unit. */
    method Assemble(pkt: RtpPacket, ghost p: Publication) returns (failed: bool, au: Option<AccessUnit>)
      requires output.Matches(p)
      modifies this, dep, syncGate
      ensures output.Matches(p) && output.Repr() == old(output.Repr()) && Repr() == old(Repr())
      ensures expectedSeq == Some(NextSeq(pkt.sequenceNumber))
      ensures failed ==> syncGate.State() == old(syncGate.State())
      ensures Feed(old(AssemblyNow()), pkt) == if failed then Failed else Went(AssemblyNow(), au)
    {
      hide LiveOutput.Matches, Push, PushNals, BuildAccessUnit;
      expectedSeq := Some(NextSeq(pkt.sequenceNumber));
      if currentAuRtpTs.None? {
        currentAuRtpTs := Some(pkt.timestamp);
      }
      var nals := dep.PushRtpPayload(pkt.payload);
      assert dep !in output.Repr();
      if nals.Err? {
        return true, None;
      }
      PushThroughGate(nals.value);
      if !pkt.marker {
        return false, None;
      }
      if currentAuNals == [] {
        currentAuRtpTs := None;
        return false, None;
      }
      au := Some(BuildAccessUnit(currentAuNals, currentAuRtpTs.value));
      currentAuNals, currentAuRtpTs := [], None;
      failed := false;
    }

    method DeliverUnit(au: AccessUnit, now: nat, ghost s: State) returns (ok: bool)
      requires Matches(s) && GoodPublication(s.pub)
      modifies Repr()
      ensures output.disk.Counts(ok, old(output.disk.failures))
      ensures output.SafeSoFar() && fresh(Repr() - old(Repr()))
      ensures ok ==> Matches(s.(pub := Live.Deliver(cfg, s.pub, au, now)))
    {
      hide LiveOutput.Matches, LiveOutput.SafeSoFar, GoodPublication, Live.Deliver;
      ok := output.Deliver(au, now, s.pub);
    }

    /** What follows the check of the sequence number. */
    method AbsorbPacket(pkt: RtpPacket, now: nat, ghost t: State) returns (ok: bool)
      requires output.cfg == cfg && AssemblyNow() == t.asm && output.Matches(t.pub)
      requires Sound(t.pub) && GoodPublication(t.pub)
      modifies Repr()
      ensures output.disk.Counts(ok, old(output.disk.failures))
      ensures output.SafeSoFar() && fresh(Repr() - old(Repr()))
      ensures ok ==> Matches(Absorb(cfg, t, pkt, now))
    {
      hide LiveOutput.Matches, LiveOutput.SafeSoFar, Interrupt, Sound, GoodPublication, Live.Deliver, Feed, NextSeq;
      var failed, au := Assemble(pkt, t.pub);
      if failed {
        ok := Discontinuity(now, t);
      } else if au.Some? {
        ok := DeliverUnit(au.value, now, State(expectedSeq, AssemblyNow(), t.pub));
      } else {
        MatchesIsSafe(output, t.pub);
        ok := true;
      }
    }

    /** A packet that has been parsed. */
    method HandlePacket(pkt: RtpPacket, now: nat, ghost s: State) returns (ok: bool)
      requires Matches(s) && Good(s)
      modifies Repr()
      ensures output.disk.Counts(ok, old(output.disk.failures))
      ensures output.SafeSoFar() && fresh(Repr() - old(Repr()))
      ensures ok ==> Matches(StepPacket(cfg, s, pkt, now))
    {
      hide LiveOutput.Matches, LiveOutput.SafeSoFar, Live.HandleDiscontinuity, Sound, Good, GoodPublication, Absorb;
      PacketKeepsSound(cfg, s, pkt, now);
      if expectedSeq.Some? && expectedSeq.value != pkt.sequenceNumber {
        ok := Discontinuity(now, s);
        if !ok {
          return;
        }
      }
      ok := AbsorbPacket(pkt, now, Resume(s, pkt, now));
    }

    /** One message of the channel. */
    method HandleMessage(e: Event, ghost s: State) returns (ok: bool)
      requires Matches(s) && Good(s)
      modifies Repr()
      ensures output.disk.Counts(ok, old(output.disk.failures))
      ensures output.SafeSoFar() && fresh(Repr() - old(Repr()))
      ensures ok ==> Matches(Step(cfg, s, e))
    {
      hide LiveOutput.Matches, LiveOutput.SafeSoFar, Live.HandleDiscontinuity, Sound, Good, Decode, StepPacket;
      GoodStateIsSound(s);
      match e.msg
      case Gap =>
        ok := Discontinuity(e.now, s);
      case Motion =>
        MatchesIsSafe(output, s.pub);
        ok := true;
      case RtpMsg(bytes) =>
        var parsed := ParseSlice(bytes);
        if parsed.Err? {
          ok := Discontinuity(e.now, s);
          return;
        }
        ok := HandlePacket(parsed.value, e.now, s);
    }
  }

  lemma MatchesIsSafe(output: LiveOutput, p: Publication)
    requires output.Matches(p)
    ensures output.SafeSoFar()
  {
  }

  lemma AfterTheLastSegment(output: LiveOutput, p: Publication)
    requires output.Matches(p) && p.segment.None?
    ensures output.disk.files == DirectoryFor(output.cfg, p.published) && output.disk.pointer == p.pointer
  {
    hide DirectoryFor, SafeHistory;
  }

  lemma SafeMeans(output: LiveOutput)
    requires output.SafeSoFar()
    ensures output.disk.Valid() && SafeHistory(output.disk.history)
  {
  }

  lemma GoodStateIsSound(s: State)
    requires Good(s)
    ensures Sound(s.pub)
  {
    hide GoodPublication, Sound;
    GoodIsSound(s.pub);
  }

  lemma GoodParts(s: State)
    requires Good(s)
    ensures GoodPublication(s.pub)
  {
    hide GoodPublication;
  }

  lemma PacketKeepsSound(cfg: Config, s: State, pkt: RtpPacket, now: nat)
    requires Good(s)
    ensures Sound(s.pub) && Sound(Resume(s, pkt, now).pub) && GoodPublication(Resume(s, pkt, now).pub)
  {
    hide GoodPublication, Sound, Interrupt;
    GoodStateIsSound(s);
    InterruptKeepsGood(s, now);
    GoodStateIsSound(Interrupt(s, now));
  }

  /** The whole run over a fresh session directory.  Whatever the file system does, readers
      are safe at every moment.  The run succeeds exactly when no call fails, and then the
      directory and `current.json` end up as the session's: exactly the files of the window,
      and the number of the last segment. */
  method RunStreamV2(cfg: Config, events: seq<Event>, end: nat, disk: FileSystem) returns (ok: bool)
    requires disk.Valid() && disk.files == map[] && disk.pointer == None && disk.history == [disk.Now()]
    modifies disk
    ensures disk.Valid() && SafeHistory(disk.history)
    ensures ok <==> disk.failures == old(disk.failures)
    ensures ok ==>
      var published := Session(cfg, events, end).published;
      && disk.files == DirectoryFor(cfg, published)
      && disk.pointer == if published == [] then None else Some(Stopped(|published|))
  {
    hide LiveOutput.Matches, LiveOutput.SafeSoFar, Good, GoodPublication, GoodSegments, Step, DirectoryFor, SafeHistory,
         Initial, Live.Finish;
    var pipeline := new Pipeline(cfg, disk);
    var i := 0;
    assert events[..0] == [];
    while i < |events|
      invariant i <= |events|
      invariant pipeline.cfg == cfg && pipeline.output.disk == disk && fresh(pipeline.Repr() - {disk})
      invariant pipeline.Matches(Run(cfg, events[..i])) && disk.failures == old(disk.failures)
    {
      ghost var s := Run(cfg, events[..i]);
      RunIsGood(cfg, events[..i]);
      ok := pipeline.HandleMessage(events[i], s);
      if !ok {
        SafeMeans(pipeline.output);
        return;
      }
      assert events[..i + 1][..i] == events[..i];
      i := i + 1;
    }
    assert events[..i] == events;
    RunIsGood(cfg, events);
    SessionIsGood(cfg, events, end);
    GoodParts(Run(cfg, events));
    ok := pipeline.output.Finish(end, Run(cfg, events).pub);
    SafeMeans(pipeline.output);
    if ok {
      AfterTheLastSegment(pipeline.output, Session(cfg, events, end));
    }
  }
}
