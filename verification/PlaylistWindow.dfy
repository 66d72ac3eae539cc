/** The playlist window: a new segment is listed first, and only then are evicted files
    removed.  Readers see a safe index after every single file-system call, whether or not
    calls fail.
 */
module PlaylistWindow {
  import opened Prelude
  import opened TsMux
  import opened Manifest
  import opened Live
  import opened Disk
  import opened Publisher

  ghost function Names(entries: seq<SegmentEntry>): set<Text> {
    set i | 0 <= i < |entries| :: entries[i].Filename()
  }

  /** A new entry, at least a millisecond long. */
  function NewEntry(seqNo: nat, durationMs: nat, discontinuity: bool): SegmentEntry {
    SegmentEntry(seqNo, Max(durationMs, 1), discontinuity)
  }

  predicate IsEntry(e: SegmentEntry, seqNo: nat, durationMs: nat, discontinuity: bool) {
    e.seqNo == seqNo && e.discontinuity == discontinuity && e.durationMs == if durationMs == 0 then 1 else durationMs
  }

  /** What falls out of a window of `n` entries. */
  function Evicted(all: seq<SegmentEntry>, n: nat): seq<SegmentEntry> {
    if |all| <= n then [] else all[..|all| - n]
  }

  /** The directory once an index has been published. */
  function ListedFiles(files: Files, target: nat, entries: seq<SegmentEntry>): Files {
    (files - {TempName(IndexName())})[IndexName() := AsBytes(Render(target, entries))]
  }

  /** What the directory must provide for the window. */
  ghost predicate Backs(files: Files, target: nat, entries: seq<SegmentEntry>) {
    Shows(files, target, entries) && Backed(files, entries) && Increasing(entries)
  }

  // ---------------------------------------------------------------------------
  // Histories
  // ---------------------------------------------------------------------------

  lemma ExtendSafe(h0: seq<Snapshot>, h1: seq<Snapshot>)
    requires SafeHistory(h0) && h0 != [] && h0 <= h1
    requires forall i :: 0 <= i < |h1| - |h0| ==> Safe(h1[|h0|..][i]) && h1[|h0|..][i].pointer == h0[|h0| - 1].pointer
    ensures SafeHistory(h1)
  {
    hide Safe;
    forall i | 0 <= i < |h1|
      ensures Safe(h1[i]) && (|h0| - 1 <= i ==> h1[i].pointer == h0[|h0| - 1].pointer)
    {
      if i < |h0| {
        assert h1[i] == h0[i];
      } else {
        assert h1[i] == h1[|h0|..][i - |h0|];
      }
    }
    forall i | 0 <= i < |h1| - 1
      ensures Onward(h1[i], h1[i + 1])
    {
      if i + 1 < |h0| {
        assert Onward(h0[i], h0[i + 1]) && h1[i] == h0[i] && h1[i + 1] == h0[i + 1];
      }
    }
  }

  lemma TempKeepsSafe(h0: seq<Snapshot>, h1: seq<Snapshot>, name: Text)
    requires SafeHistory(h0) && h0 != [] && h0 <= h1
    requires SeesOnlyTemp(h0[|h0| - 1], h1[|h0|..], name)
    ensures SafeHistory(h1)
  {
    hide Safe, TempName;
    var before, since := h0[|h0| - 1], h1[|h0|..];
    assert Safe(before) by { hide Onward; }
    forall i | 0 <= i < |since|
      ensures Safe(since[i])
    {
      SafeWithoutTemp(before, since[i], name);
    }
    hide IndexName, SafeHistory;
    ExtendSafe(h0, h1);
  }

  lemma PublishKeepsSafe(h0: seq<Snapshot>, h1: seq<Snapshot>, name: Text, content: Bytes)
    requires SafeHistory(h0) && h0 != [] && h0 <= h1
    requires SeesAllOrNothing(h0[|h0| - 1], h1[|h0|..], name, content)
    requires var s := h0[|h0| - 1]; Safe(Snapshot(s.files[name := content], s.pointer))
    ensures SafeHistory(h1)
  {
    hide Safe, TempName;
    var before, since := h0[|h0| - 1], h1[|h0|..];
    assert Safe(before) by { hide Onward; }
    forall i | 0 <= i < |since|
      ensures Safe(since[i])
    {
      if since[i].files - {TempName(name)} == before.files - {TempName(name)} {
        SafeWithoutTemp(before, since[i], name);
      } else {
        SafeWithoutTemp(Snapshot(before.files[name := content], before.pointer), since[i], name);
      }
    }
    hide IndexName, SafeHistory;
    ExtendSafe(h0, h1);
  }

  // ---------------------------------------------------------------------------
  // Windows
  // ---------------------------------------------------------------------------

  lemma {:induction false} IndexPublished(
      files: Files, target: nat, before: seq<SegmentEntry>, entries: seq<SegmentEntry>, e: SegmentEntry, n: nat)
    requires Backs(files, target, before) && 1 <= n
    requires forall i :: 0 <= i < |before| ==> before[i].seqNo < e.seqNo
    requires e.Filename() in files && IsSegmentFile(files[e.Filename()])
    requires entries == Suffix(before + [e], n)
    ensures Backs(files[IndexName() := AsBytes(Render(target, entries))], target, entries)
    ensures entries != [] && entries[|entries| - 1] == e
  {
    hide IndexName, SegmentName, IsSegmentFile, Render, AsBytes;
    var all := before + [e];
    var k := |all| - |entries|;
    forall i | 0 <= i < |entries|
      ensures entries[i] == all[k + i] && entries[i].Filename() in files && IsSegmentFile(files[entries[i].Filename()])
      ensures entries[i].Filename() != IndexName()
    {
      NamesAreDistinct(entries[i].seqNo, 0);
    }
  }

  /** Removing the file of an older segment. */
  lemma {:induction false} EvictionKeeps(files: Files, target: nat, entries: seq<SegmentEntry>, gone: SegmentEntry)
    requires Backs(files, target, entries)
    requires forall i :: 0 <= i < |entries| ==> gone.seqNo < entries[i].seqNo
    ensures Backs(files - {gone.Filename()}, target, entries)
  {
    hide IndexName, SegmentName, IsSegmentFile, Render, AsBytes;
    NamesAreDistinct(gone.seqNo, 0);
    forall i | 0 <= i < |entries|
      ensures entries[i].Filename() != gone.Filename()
    {
      NamesAreDistinct(gone.seqNo, entries[i].seqNo);
    }
  }

  lemma NamesSnoc(entries: seq<SegmentEntry>, i: nat)
    requires i < |entries|
    ensures Names(entries[..i + 1]) == Names(entries[..i]) + {entries[i].Filename()}
  {
    hide SegmentName;
    var a, b := entries[..i], entries[..i + 1];
    forall name | name in Names(b)
      ensures name in Names(a) + {entries[i].Filename()}
    {
      var j :| 0 <= j < |b| && b[j].Filename() == name;
      if j < i {
        assert a[j].Filename() == name;
      }
    }
    forall name | name in Names(a) + {entries[i].Filename()}
      ensures name in Names(b)
    {
      if name == entries[i].Filename() {
        assert b[i].Filename() == name;
      } else {
        var j :| 0 <= j < |a| && a[j].Filename() == name;
        assert b[j].Filename() == name;
      }
    }
  }

  class PlaylistState {
    const targetDurationSecs: nat
    const maxSegments: nat
    var nextSegmentSeq: nat
    var entries: seq<SegmentEntry>

    constructor (segmentSecs: nat, windowSecs: nat)
      ensures targetDurationSecs == Max(segmentSecs, 1) && maxSegments == WindowSize(targetDurationSecs, windowSecs)
      ensures targetDurationSecs == (if segmentSecs == 0 then 1 else segmentSecs) && 3 <= maxSegments
      ensures Covers(maxSegments, targetDurationSecs, Max(windowSecs, targetDurationSecs))
      ensures forall m :: 3 <= m < maxSegments ==> !Covers(m, targetDurationSecs, Max(windowSecs, targetDurationSecs))
      ensures nextSegmentSeq == 1 && entries == []
    {
      var target := Max(segmentSecs, 1);
      var max := (Max(windowSecs, target) + target - 1) / target + 1;
      targetDurationSecs := target;
      maxSegments := Max(max, 3);
      nextSegmentSeq := 1;
      entries := [];
      WindowSizeIsLeast(target, windowSecs);
    }

    method NextSegmentPath() returns (seqNo: nat, name: Text)
      modifies this
      ensures seqNo == old(nextSegmentSeq) && nextSegmentSeq == seqNo + 1
      ensures name == SegmentName(seqNo) && entries == old(entries)
    {
      seqNo := nextSegmentSeq;
      nextSegmentSeq := nextSegmentSeq + 1;
      name := SegmentName(seqNo);
    }

    /** `publish_entries`. */
    method PublishEntries(disk: FileSystem, shown: seq<SegmentEntry>) returns (ok: bool)
      requires disk.Valid()
      modifies disk
      ensures disk.Counts(ok, old(disk.failures))
      ensures disk.Valid() && old(disk.history) <= disk.history && disk.pointer == old(disk.pointer)
      ensures SeesAllOrNothing(old(disk.Now()), disk.history[|old(disk.history)|..], IndexName(),
        AsBytes(Render(targetDurationSecs, shown)))
      ensures ok ==>
        var index := AsBytes(Render(targetDurationSecs, shown));
        disk.files == (old(disk.files) - {TempName(IndexName())})[IndexName() := index]
      ensures !ok ==> disk.files - {TempName(IndexName())} == old(disk.files) - {TempName(IndexName())}
    {
      var playlist := RenderPlaylist(targetDurationSecs, shown);
      ok := AtomicPublisher.PublishBytes(disk, IndexName(), AsBytes(playlist));
    }

    /** Lists a published segment and evicts what falls out of the window.  If the index
        cannot be published, the old one and all its files are untouched. */
    method PushSegment(disk: FileSystem, seqNo: nat, durationMs: nat, discontinuity: bool) returns (ok: bool)
      requires disk.Valid() && SafeHistory(disk.history)
      requires Backs(disk.files, targetDurationSecs, entries) && PointerWithin(disk.pointer, entries)
        && 1 <= maxSegments
      requires forall i :: 0 <= i < |entries| ==> entries[i].seqNo < seqNo
      requires SegmentName(seqNo) in disk.files && IsSegmentFile(disk.files[SegmentName(seqNo)])
      modifies this, disk
      ensures disk.Counts(ok, old(disk.failures))
      ensures disk.Valid() && old(disk.history) <= disk.history && SafeHistory(disk.history)
      ensures disk.pointer == old(disk.pointer) && nextSegmentSeq == old(nextSegmentSeq)
      ensures ok ==> entries != [] && IsEntry(entries[|entries| - 1], seqNo, durationMs, discontinuity)
      ensures ok ==>
        && entries == Suffix(old(entries) + [NewEntry(seqNo, durationMs, discontinuity)], maxSegments)
        && disk.files == ListedFiles(old(disk.files), targetDurationSecs, entries)
             - Names(Evicted(old(entries) + [NewEntry(seqNo, durationMs, discontinuity)], maxSegments))
      ensures !ok ==>
        if entries == old(entries)
        then disk.files - {TempName(IndexName())} == old(disk.files) - {TempName(IndexName())}
        else entries == Suffix(old(entries) + [NewEntry(seqNo, durationMs, discontinuity)], maxSegments)
             && Backs(disk.files, targetDurationSecs, entries)
    {
      hide IndexName, SafeHistory, Backs, IsSegmentFile, SegmentName, TempName, ListedFiles, Safe, Suffix, Evicted,
           SeesAllOrNothing, Render, AsBytes;
      var e := NewEntry(seqNo, durationMs, discontinuity);
      var nextEntries, evicted := Shift(entries + [e]);
      EvictedAreOlder(disk.files, targetDurationSecs, entries, e, evicted, nextEntries);
      PublishedIsSafe(disk.Now(), targetDurationSecs, entries, e, nextEntries, maxSegments);
      ok := PublishEntries(disk, nextEntries);
      PublishKeepsSafe(old(disk.history), disk.history, IndexName(), AsBytes(Render(targetDurationSecs, nextEntries)));
      if !ok {
        return;
      }
      ListedFilesAre(old(disk.files), targetDurationSecs, nextEntries);
      entries := nextEntries;
      NewestIs(old(entries), e, maxSegments);
      ok := EvictAll(disk, evicted);
      if !ok {
        OtherWindow(old(entries), entries, e);
      }
    }

    /** The entries that stay in the window, and those that fall out of its front. */
    method Shift(all: seq<SegmentEntry>) returns (kept: seq<SegmentEntry>, evicted: seq<SegmentEntry>)
      requires 1 <= maxSegments
      ensures kept == Suffix(all, maxSegments) && evicted == Evicted(all, maxSegments)
      ensures evicted + kept == all
    {
      kept, evicted := all, [];
      while |kept| > maxSegments
        invariant evicted + kept == all
        invariant |kept| >= Min(|all|, maxSegments)
      {
        evicted := evicted + [kept[0]];
        kept := kept[1..];
      }
    }

    /** Removes the files of evicted entries, those that exist. */
    method EvictAll(disk: FileSystem, evicted: seq<SegmentEntry>) returns (ok: bool)
      requires disk.Valid() && SafeHistory(disk.history)
      requires Backs(disk.files, targetDurationSecs, entries) && PointerWithin(disk.pointer, entries)
      requires forall i, j :: 0 <= i < |evicted| && 0 <= j < |entries| ==> evicted[i].seqNo < entries[j].seqNo
      modifies disk
      ensures disk.Counts(ok, old(disk.failures))
      ensures disk.Valid() && old(disk.history) <= disk.history && SafeHistory(disk.history)
      ensures disk.pointer == old(disk.pointer) && Backs(disk.files, targetDurationSecs, entries)
      ensures ok ==> disk.files == old(disk.files) - Names(evicted)
    {
      hide IndexName, SafeHistory, Shows, Backed, Increasing, IsSegmentFile, SegmentName, Render, AsBytes, Safe;
      assert evicted[..0] == [];
      for i := 0 to |evicted|
        invariant disk.Valid() && old(disk.history) <= disk.history && SafeHistory(disk.history)
        invariant disk.pointer == old(disk.pointer) && Backs(disk.files, targetDurationSecs, entries)
        invariant disk.files == old(disk.files) - Names(evicted[..i]) && disk.failures == old(disk.failures)
      {
        var oldName := evicted[i].Filename();
        NamesSnoc(evicted, i);
        if oldName in disk.files {
          EvictionKeeps(disk.files, targetDurationSecs, entries, evicted[i]);
          ShownIsSafe(Snapshot(disk.files - {oldName}, disk.pointer), targetDurationSecs, entries);
          ShownIsSafe(disk.Now(), targetDurationSecs, entries);
          ghost var h := disk.history;
          ok := disk.Remove(oldName);
          SafeHistorySnoc(h, disk.Now());
          if !ok {
            return;
          }
        }
        assert old(disk.files) - Names(evicted[..i]) - {oldName} == old(disk.files) - Names(evicted[..i + 1]);
      }
      assert evicted[..|evicted|] == evicted;
      ok := true;
    }
  }

  // ---------------------------------------------------------------------------
  // Steps of a push
  // ---------------------------------------------------------------------------

  lemma NewestIs(before: seq<SegmentEntry>, e: SegmentEntry, n: nat)
    requires 1 <= n
    ensures var s := Suffix(before + [e], n); s != [] && s[|s| - 1] == e
  {
  }

  /** A sorted window with a newer entry at its end is another window. */
  lemma OtherWindow(before: seq<SegmentEntry>, after: seq<SegmentEntry>, e: SegmentEntry)
    requires forall i :: 0 <= i < |before| ==> before[i].seqNo < e.seqNo
    requires after != [] && after[|after| - 1] == e
    ensures after != before
  {
  }

  /** Publishing the index also takes its temporary file away; the window does not need it. */
  lemma {:induction false} TempOutOfTheWay(files: Files, target: nat, entries: seq<SegmentEntry>)
    requires Backs(files[IndexName() := AsBytes(Render(target, entries))], target, entries)
    ensures Backs(ListedFiles(files, target, entries), target, entries)
  {
    hide IndexName, TempName, SegmentName, IsSegmentFile, Render, AsBytes;
    TempIsNoFinalName(IndexName(), 0);
    forall i | 0 <= i < |entries|
      ensures entries[i].Filename() != TempName(IndexName())
    {
      TempIsNoFinalName(IndexName(), entries[i].seqNo);
    }
  }

  lemma ListedFilesAre(files: Files, target: nat, entries: seq<SegmentEntry>)
    ensures ListedFiles(files, target, entries)
         == (files - {TempName(IndexName())})[IndexName() := AsBytes(Render(target, entries))]
  {
  }

  /** Readers of the new index are safe, with the files that are there when it appears. */
  lemma {:induction false} PublishedIsSafe(
      s: Snapshot, target: nat, before: seq<SegmentEntry>, e: SegmentEntry, entries: seq<SegmentEntry>, n: nat)
    requires Backs(s.files, target, before) && PointerWithin(s.pointer, before) && 1 <= n
    requires forall i :: 0 <= i < |before| ==> before[i].seqNo < e.seqNo
    requires e.Filename() in s.files && IsSegmentFile(s.files[e.Filename()])
    requires entries == Suffix(before + [e], n)
    ensures Safe(Snapshot(s.files[IndexName() := AsBytes(Render(target, entries))], s.pointer))
    ensures Backs(ListedFiles(s.files, target, entries), target, entries)
    ensures PointerWithin(s.pointer, entries) && entries != [] && entries[|entries| - 1] == e
  {
    IndexPublished(s.files, target, before, entries, e, n);
    assert PointerWithin(s.pointer, entries);
    hide IndexName, Suffix, Safe;
    TempOutOfTheWay(s.files, target, entries);
    hide ListedFiles;
    ShownIsSafe(Snapshot(s.files[IndexName() := AsBytes(Render(target, entries))], s.pointer), target, entries);
  }

  lemma {:induction false} EvictedAreOlder(
      files: Files, target: nat, before: seq<SegmentEntry>, e: SegmentEntry, evicted: seq<SegmentEntry>,
      kept: seq<SegmentEntry>)
    requires Backs(files, target, before) && (forall i :: 0 <= i < |before| ==> before[i].seqNo < e.seqNo)
    requires evicted + kept == before + [e]
    ensures forall i, j :: 0 <= i < |evicted| && 0 <= j < |kept| ==> evicted[i].seqNo < kept[j].seqNo
  {
    hide Shows, Backed;
    forall i, j | 0 <= i < |evicted| && 0 <= j < |kept|
      ensures evicted[i].seqNo < kept[j].seqNo
    {
      var all := before + [e];
      assert evicted[i] == all[i] && kept[j] == all[|evicted| + j];
    }
  }
}
