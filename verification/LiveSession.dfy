/** The publishing half of `run_stream_v2` on a real directory: opening, writing, finalizing
    and cutting segments, with every file-system call free to fail.
 */
module LiveSession {
  import opened Prelude
  import opened TsMux
  import opened Assembly
  import opened Manifest
  import opened Live
  import opened Disk
  import opened Publisher
  import opened PlaylistWindow
  import opened Directory

  /** `CurrentSegment`. */
  datatype CurrentSegment = CurrentSegment(
    seqNo: nat,
    writer: MpegTsSegmentWriter,
    startedAt: nat,
    accessUnitsWritten: nat,
    discontinuity: bool)

  /** The publishing variables at any point of a step: as `GoodPublication`, but between
      closing one segment and writing the first access unit of the next. */
  ghost predicate Sound(p: Publication) {
    && GoodSegments(p.published) && p.latestSeq == |p.published|
    && (p.segment.Some? ==> SoundOpen(p))
    && (p.segment.None? ==> p.nextSeq == |p.published| + 1)
    && (p.pointer.Some? ==> 1 <= p.pointer.value.lastSegmentSeq <= |p.published|)
  }

  ghost predicate SoundOpen(p: Publication)
    requires p.segment.Some?
  {
    var o := p.segment.value;
    && p.nextSeq == |p.published| + 2 && o.seqNo == |p.published| + 1
    && (o.aus != [] ==> o.aus[0].hasIdr && AllTold(o.aus))
    && (o.discontinuity <==> AfterCut(p.published))
  }

  lemma GoodIsSound(p: Publication)
    requires GoodPublication(p)
    ensures Sound(p)
  {
    hide GoodSegments, GoodOpen, SoundOpen, AfterCut, LastUncut;
    LastUncutBound(p.published);
    if p.segment.Some? {
      GoodOpenIsSound(p);
    }
  }

  lemma GoodOpenIsSound(p: Publication)
    requires p.segment.Some? && GoodOpen(p)
    ensures SoundOpen(p)
  {
  }

  /** Closing keeps soundness. */
  lemma FinalizeIsSound(p: Publication, now: nat, cut: bool)
    requires Sound(p) && p.segment.Some? && p.segment.value.aus != []
    ensures
      var s := Close(p.segment.value, now, cut);
      && Sound(Finalize(p, now, cut)) && Finalize(p, now, cut).published == p.published + [s]
      && s.seqNo == |p.published| + 1 && s.aus != [] && HoldsIdr(s.aus[0])
  {
    hide LastUncut;
    var s := Close(p.segment.value, now, cut);
    assert (p.published + [s])[|p.published|] == s;
    GoodSegmentsSnoc(p.published, s);
  }

  class LiveOutput {
    const cfg: Config
    const disk: FileSystem
    const playlist: PlaylistState
    var currentSegment: Option<CurrentSegment>
    var pendingDiscontinuity: bool
    var discontinuityCount: nat
    var latestSegmentSeq: nat

    ghost function Repr(): set<object>
      reads this
    {
      {this, disk, playlist}
      + (if currentSegment.Some? then {currentSegment.value.writer, currentSegment.value.writer.publisher} else {})
    }

    /** Readers have been safe at every moment so far. */
    ghost predicate SafeSoFar()
      reads disk
    {
      disk.Valid() && SafeHistory(disk.history)
    }

    /** The variables and the directory are those of `p`: the directory holds exactly the
        window's files and index, and the temporary file of the open segment. */
    ghost predicate Matches(p: Publication)
      reads this, Repr()
    {
      && SafeSoFar()
      && playlist.targetDurationSecs == TargetSecs(cfg) && playlist.maxSegments == MaxSegments(cfg)
      && playlist.nextSegmentSeq == p.nextSeq && playlist.entries == Window(cfg, p.published)
      && pendingDiscontinuity == p.pendingDiscontinuity
      && discontinuityCount == p.discontinuityCount
      && latestSegmentSeq == p.latestSeq
      && disk.pointer == p.pointer
      && (currentSegment.None? <==> p.segment.None?)
      && (p.segment.None? ==> disk.files == DirectoryFor(cfg, p.published))
      && (p.segment.Some? ==> MatchesOpen(p.segment.value, p.published))
    }

    ghost predicate MatchesOpen(o: OpenSegment, published: seq<Segment>)
      requires currentSegment.Some?
      reads this, Repr()
    {
      var c := currentSegment.value;
      && c.seqNo == o.seqNo && c.startedAt == o.startedAt && c.discontinuity == o.discontinuity
      && c.accessUnitsWritten == |o.aus|
      && c.writer.disk == c.writer.publisher.disk == disk
      && c.writer.Valid() && c.writer.aus == o.aus
      && c.writer.publisher.finalName == SegmentName(o.seqNo)
      && disk.files - {TempName(SegmentName(o.seqNo))} == DirectoryFor(cfg, published)
    }

    constructor (cfg: Config, disk: FileSystem)
      requires disk.Valid() && disk.files == map[] && disk.pointer == None && disk.history == [disk.Now()]
      ensures this.cfg == cfg && this.disk == disk && fresh(Repr() - {disk})
      ensures Matches(NEW_PUBLICATION)
    {
      this.cfg, this.disk := cfg, disk;
      playlist := new PlaylistState(cfg.segmentSecs, cfg.windowSecs);
      currentSegment, pendingDiscontinuity := None, false;
      discontinuityCount, latestSegmentSeq := 0, 0;
      new;
      hide WindowSize, Render, AsBytes, Covers, Max, SegmentName, TempName;
      EmptyIsSafe();
      assert Window(cfg, []) == [] && DirectoryFor(cfg, []) == map[];
    }

    /** `finalize_segment`. */
    method FinalizeSegment(now: nat, ghost p: Publication, ghost cut: bool) returns (ok: bool, published: bool)
      requires Matches(p) && Sound(p)
      modifies Repr()
      ensures disk.Counts(ok, old(disk.failures))
      ensures SafeSoFar() && Repr() <= old(Repr())
      ensures ok ==> Matches(Finalize(p, now, cut)) && published == PublishesSegment(p)
    {
      hide SafeHistory, GoodSegments, DirectoryFor, Window, Close, TargetSecs, MaxSegments, SegmentName, TempName,
           SegmentBytes, Render, AsBytes, IndexName, SeesOnlyTemp, SeesAllOrNothing, LastUncut, IsSegmentFile,
           VideoCounter, Backs, PointerWithin, NewEntry, ListedFiles, Names, Evicted, Suffix;
      if currentSegment.None? {
        return true, false;
      }
      var segment := currentSegment.value;
      currentSegment := None;
      ghost var dir := DirectoryFor(cfg, p.published);
      if segment.accessUnitsWritten == 0 {
        ok := segment.writer.Discard();
        TempKeepsSafe(old(disk.history), disk.history, SegmentName(segment.seqNo));
        return ok, false;
      }
      var durationMs := Elapsed(segment.startedAt, now);
      ghost var s := Close(p.segment.value, now, cut);
      FinalizeIsSound(p, now, cut);
      ClosedSegment(p.segment.value, now, cut);
      PublishedFileIsSafe(cfg, p, old(disk.Now()), s);
      ok := segment.writer.Publish();
      PublishKeepsSafe(old(disk.history), disk.history, SegmentName(segment.seqNo), SegmentBytes(s.aus));
      if !ok {
        return false, false;
      }
      assert disk.files == dir[SegmentName(s.seqNo) := SegmentBytes(s.aus)];
      PublishedFileBacks(cfg, p, s);
      ok := playlist.PushSegment(disk, segment.seqNo, durationMs, segment.discontinuity);
      if !ok {
        return false, false;
      }
      WindowSnoc(cfg, p.published, s);
      DirectorySnoc(cfg, p.published, s);
      EntryFile(s);
      latestSegmentSeq := segment.seqNo;
      published := true;
    }

    /** `handle_discontinuity`. */
    method HandleDiscontinuity(now: nat, ghost p: Publication) returns (ok: bool)
      requires Matches(p) && Sound(p)
      modifies Repr()
      ensures disk.Counts(ok, old(disk.failures))
      ensures SafeSoFar() && Repr() <= old(Repr())
      ensures ok ==> Matches(Live.HandleDiscontinuity(p, now))
    {
      hide SafeHistory, DirectoryFor, Window, TargetSecs, MaxSegments, SegmentName, TempName, IndexName, GoodSegments,
           Close, MatchesOpen, Sound;
      var sawPublishedOutput := latestSegmentSeq > 0 || currentSegment.Some?;
      ghost var q := Finalize(p, now, true);
      var published;
      ok, published := FinalizeSegment(now, p, true);
      if ok && sawPublishedOutput {
        pendingDiscontinuity := true;
        discontinuityCount := discontinuityCount + 1;
      }
    }

    /** `open_segment`, and the flag that the caller clears with it. */
    method OpenSegment(now: nat, ghost p: Publication) returns (ok: bool)
      requires Matches(p) && Sound(p) && p.segment.None?
      modifies Repr()
      ensures disk.Counts(ok, old(disk.failures))
      ensures SafeSoFar() && fresh(Repr() - old(Repr()))
      ensures ok ==> Matches(OpenNew(p, now))
    {
      hide SafeHistory, DirectoryFor, Window, TargetSecs, MaxSegments, SegmentName, TempName, IndexName, GoodSegments,
           SegmentBytes, VideoCounter, SeesOnlyTemp;
      var seqNo, path := playlist.NextSegmentPath();
      NotYetThere(cfg, p.published, seqNo);
      var writer := MpegTsSegmentWriter.Create(disk, path);
      TempKeepsSafe(old(disk.history), disk.history, path);
      if writer == null {
        return false;
      }
      assert disk.files - {TempName(path)} == DirectoryFor(cfg, p.published);
      currentSegment := Some(CurrentSegment(seqNo, writer, now, 0, pendingDiscontinuity));
      pendingDiscontinuity := false;
      ok := true;
    }

    method WriteAccessUnit(au: AccessUnit, ghost now: nat, ghost p: Publication) returns (ok: bool)
      requires Matches(p) && p.segment.Some?
      modifies Repr()
      ensures disk.Counts(ok, old(disk.failures))
      ensures SafeSoFar() && Repr() == old(Repr())
      ensures ok ==> Matches(Write(p, au, now))
    {
      hide SafeHistory, DirectoryFor, Window, TargetSecs, MaxSegments, SegmentName, TempName, IndexName, GoodSegments,
           SegmentBytes, VideoCounter, SeesOnlyTemp;
      var segment := currentSegment.value;
      ok := segment.writer.WriteAccessUnit(au);
      TempKeepsSafe(old(disk.history), disk.history, segment.writer.publisher.finalName);
      if ok {
        currentSegment := Some(segment.(accessUnitsWritten := segment.accessUnitsWritten + 1));
        if pendingDiscontinuity && au.hasIdr && latestSegmentSeq > 0 {
          pendingDiscontinuity := false;
        }
      }
    }

    /** A completed access unit. */
    method Deliver(au: AccessUnit, now: nat, ghost p: Publication) returns (ok: bool)
      requires Matches(p) && GoodPublication(p)
      modifies Repr()
      ensures disk.Counts(ok, old(disk.failures))
      ensures SafeSoFar() && fresh(Repr() - old(Repr()))
      ensures ok ==> Matches(Live.Deliver(cfg, p, au, now))
    {
      hide SafeHistory, DirectoryFor, Window, TargetSecs, MaxSegments, SegmentName, TempName, IndexName, GoodSegments,
           SegmentBytes, VideoCounter, LastUncut, Finalize;
      GoodIsSound(p);
      TargetIsMax(cfg);
      RotationIsSound(cfg, p, au, now);
      ghost var q := Rotate(cfg, p, au, now);
      if ShouldRotateNow(au, now) {
        var published;
        ok, published := FinalizeSegment(now, p, false);
        if !ok {
          return;
        }
        if published {
          ok := PublishReady(Finalize(p, now, false));
          if !ok {
            return;
          }
        }
      }
      assert Matches(q);
      if currentSegment.None? {
        if !au.hasIdr {
          return true;
        }
        ok := OpenSegment(now, q);
        if !ok {
          return;
        }
        q := OpenNew(q, now);
      }
      ok := WriteAccessUnit(au, now, q);
    }

    /** `should_rotate_segment`. */
    predicate ShouldRotateNow(au: AccessUnit, now: nat)
      reads this
    {
      && currentSegment.Some?
      && currentSegment.value.accessUnitsWritten > 0
      && Elapsed(currentSegment.value.startedAt, now) >= 1000 * Max(cfg.segmentSecs, 1)
      && au.hasIdr
    }

    method PublishReady(ghost p: Publication) returns (ok: bool)
      requires Matches(p) && Sound(p) && p.published != [] && p.segment.None?
      requires p.pointer.Some? ==> p.pointer.value.lastSegmentSeq <= p.latestSeq
      modifies disk
      ensures disk.Counts(ok, old(disk.failures))
      ensures SafeSoFar()
      ensures ok ==> Matches(p.(pointer := Some(Ready(p.latestSeq))))
    {
      ok := PublishPointer(Ready(latestSegmentSeq), p);
    }

    /** `write_current_session_pointer`: only behind an index that has reached the number. */
    method PublishPointer(pointer: Pointer, ghost p: Publication) returns (ok: bool)
      requires Matches(p) && Sound(p) && p.published != [] && p.segment.None?
      requires pointer.lastSegmentSeq == p.latestSeq
      modifies disk
      ensures disk.Counts(ok, old(disk.failures))
      ensures SafeSoFar()
      ensures ok ==> Matches(p.(pointer := Some(pointer)))
    {
      hide SafeHistory, DirectoryFor, Window, TargetSecs, MaxSegments, SegmentName, TempName, IndexName, GoodSegments,
           SegmentBytes, VideoCounter, Safe, SafeIndex;
      PointerIsSafe(cfg, p, disk.Now(), pointer);
      ok := disk.PublishPointer(pointer);
      SafeHistorySnoc(old(disk.history), disk.Now());
    }

    /** What follows the loop. */
    method Finish(now: nat, ghost p: Publication) returns (ok: bool)
      requires Matches(p) && GoodPublication(p)
      modifies Repr()
      ensures disk.Counts(ok, old(disk.failures))
      ensures SafeSoFar()
      ensures ok ==> Matches(Live.Finish(p, now))
    {
      hide SafeHistory, DirectoryFor, Window, TargetSecs, MaxSegments, SegmentName, TempName, IndexName, GoodSegments,
           SegmentBytes, VideoCounter, LastUncut;
      GoodIsSound(p);
      ghost var q := Finalize(p, now, false);
      FinalizedIsSound(p, now);
      var published;
      ok, published := FinalizeSegment(now, p, false);
      if !ok {
        return;
      }
      if published {
        ok := PublishReady(q);
        if !ok {
          return;
        }
        q := q.(pointer := Some(Ready(q.latestSeq)));
      }
      if latestSegmentSeq > 0 {
        ok := PublishPointer(Stopped(latestSegmentSeq), q);
      }
    }
  }

  lemma FinalizedIsSound(p: Publication, now: nat)
    requires GoodPublication(p)
    ensures Sound(Finalize(p, now, false))
    ensures p.segment.Some? ==> Finalize(p, now, false).published != []
    ensures Finalize(p, now, false).segment.None?
  {
    hide GoodSegments, LastUncut;
    GoodIsSound(p);
    if p.segment.Some? {
      FinalizeIsSound(p, now, false);
    }
  }

  lemma TargetIsMax(cfg: Config)
    ensures TargetSecs(cfg) == Max(cfg.segmentSecs, 1)
  {
  }

  lemma RotationIsSound(cfg: Config, p: Publication, au: AccessUnit, now: nat)
    requires GoodPublication(p)
    ensures Sound(Rotate(cfg, p, au, now))
    ensures Sound(Finalize(p, now, false))
    ensures p.segment.Some? ==> Finalize(p, now, false).published != []
    ensures Finalize(p, now, false).segment.None?
  {
    hide GoodSegments, LastUncut;
    GoodIsSound(p);
    FinalizedIsSound(p, now);
  }

  lemma {:induction false} PointerIsSafe(cfg: Config, p: Publication, before: Snapshot, pointer: Pointer)
    requires Sound(p) && p.published != [] && pointer.lastSegmentSeq == p.latestSeq
    requires before.pointer == p.pointer
    requires before.files == DirectoryFor(cfg, p.published)
    ensures Safe(Snapshot(before.files, Some(pointer))) && Safe(before)
    ensures Onward(before, Snapshot(before.files, Some(pointer))) && Onward(before, before)
  {
    hide *;
    SoundParts(p);
    SoundLatest(p);
    DirectoryBacks(cfg, p.published);
    DirectoryPointer(cfg, p.published, p.pointer);
    DirectoryPointer(cfg, p.published, Some(pointer));
    BacksParts(before.files, TargetSecs(cfg), Window(cfg, p.published));
    ShownIsSafe(before, TargetSecs(cfg), Window(cfg, p.published));
    ShownIsSafe(Snapshot(before.files, Some(pointer)), TargetSecs(cfg), Window(cfg, p.published));
    OnwardTo(before, pointer);
  }

  lemma OnwardTo(s: Snapshot, pointer: Pointer)
    requires s.pointer.Some? ==> s.pointer.value.lastSegmentSeq <= pointer.lastSegmentSeq
    ensures Onward(s, Snapshot(s.files, Some(pointer))) && Onward(s, s)
  {
  }

  lemma SoundLatest(p: Publication)
    requires Sound(p)
    ensures p.latestSeq == |p.published|
  {
  }

  lemma EmptyIsSafe()
    ensures SafeHistory([Snapshot(map[], None)])
  {
  }

  lemma ClosedSegment(o: OpenSegment, now: nat, cut: bool)
    ensures
      var s := Close(o, now, cut);
      && s.seqNo == o.seqNo && s.aus == o.aus
      && s.Entry() == NewEntry(o.seqNo, Elapsed(o.startedAt, now), o.discontinuity)
  {
  }

  /** A finished segment may appear beside the old index. */
  lemma {:induction false} PublishedFileIsSafe(cfg: Config, p: Publication, before: Snapshot, s: Segment)
    requires Sound(p) && before.pointer == p.pointer && s.seqNo == |p.published| + 1
    requires before.files - {TempName(SegmentName(s.seqNo))} == DirectoryFor(cfg, p.published)
    ensures Safe(Snapshot(before.files[SegmentName(s.seqNo) := SegmentBytes(s.aus)], before.pointer))
  {
    hide *;
    SoundParts(p);
    var name, file := SegmentName(s.seqNo), SegmentBytes(s.aus);
    DirectoryBacks(cfg, p.published);
    DirectoryPointer(cfg, p.published, p.pointer);
    NotYetThere(cfg, p.published, s.seqNo);
    NamesAreDistinct(s.seqNo, 0);
    BacksMore(DirectoryFor(cfg, p.published), before.files, TargetSecs(cfg), Window(cfg, p.published), name, name,
      file);
    BacksParts(before.files[name := file], TargetSecs(cfg), Window(cfg, p.published));
    ShownIsSafe(Snapshot(before.files[name := file], before.pointer), TargetSecs(cfg), Window(cfg, p.published));
  }

  lemma SoundParts(p: Publication)
    requires Sound(p)
    ensures GoodSegments(p.published)
    ensures p.pointer.Some? ==> 1 <= p.pointer.value.lastSegmentSeq <= |p.published|
  {
  }

  lemma BacksParts(files: Files, target: nat, entries: seq<SegmentEntry>)
    ensures Backs(files, target, entries) <==>
      Shows(files, target, entries) && Backed(files, entries) && Increasing(entries)
  {
  }

  /** With its file in place, a finished segment may be listed. */
  lemma {:induction false} PublishedFileBacks(cfg: Config, p: Publication, s: Segment)
    requires Sound(p) && s.seqNo == |p.published| + 1 && s.aus != [] && HoldsIdr(s.aus[0])
    ensures
      var files := DirectoryFor(cfg, p.published)[SegmentName(s.seqNo) := SegmentBytes(s.aus)];
      && Backs(files, TargetSecs(cfg), Window(cfg, p.published))
      && PointerWithin(p.pointer, Window(cfg, p.published))
      && (forall i :: 0 <= i < |Window(cfg, p.published)| ==> Window(cfg, p.published)[i].seqNo < s.seqNo)
      && IsSegmentFile(SegmentBytes(s.aus)) && 1 <= MaxSegments(cfg)
  {
    hide *;
    SoundParts(p);
    var name, file := SegmentName(s.seqNo), SegmentBytes(s.aus);
    var dir := DirectoryFor(cfg, p.published);
    DirectoryBacks(cfg, p.published);
    DirectoryPointer(cfg, p.published, p.pointer);
    NotYetThere(cfg, p.published, s.seqNo);
    NamesAreDistinct(s.seqNo, 0);
    assert dir - {TempName(name)} == dir;
    BacksMore(dir, dir, TargetSecs(cfg), Window(cfg, p.published), name, name, file);
    SegmentFileOf(s.aus);
    WindowHoldsThree(cfg);
  }

  lemma SegmentFileOf(aus: seq<AccessUnit>)
    requires aus != [] && HoldsIdr(aus[0])
    ensures IsSegmentFile(SegmentBytes(aus))
  {
    hide SegmentBytes;
  }
}
