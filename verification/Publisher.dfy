/** Atomic publication through a temporary file, and the segment writer on top of it. */
module Publisher {
  import opened Prelude
  import opened TsMux
  import opened Manifest
  import opened Live
  import opened Disk

  /** Everything seen since `before` differs from it in the temporary file only. */
  ghost predicate SeesOnlyTemp(before: Snapshot, since: seq<Snapshot>, name: Text) {
    forall i :: 0 <= i < |since| ==>
      since[i].pointer == before.pointer && since[i].files - {TempName(name)} == before.files - {TempName(name)}
  }

  /** Everything seen since `before` is, temporary file aside, either as before or has the
      whole new content under the final name. */
  ghost predicate SeesAllOrNothing(before: Snapshot, since: seq<Snapshot>, name: Text, content: Bytes) {
    forall i :: 0 <= i < |since| ==>
      && since[i].pointer == before.pointer
      && (since[i].files - {TempName(name)} == before.files - {TempName(name)}
          || since[i].files - {TempName(name)} == before.files[name := content] - {TempName(name)})
  }

  lemma SliceTwice(h0: seq<Snapshot>, h1: seq<Snapshot>, h2: seq<Snapshot>)
    requires h0 <= h1 <= h2
    ensures h2[|h0|..] == h1[|h0|..] + h2[|h1|..]
  {
    assert h1 == h2[..|h1|];
  }

  lemma TempThenTemp(
      before: Snapshot, mid: Snapshot, h0: seq<Snapshot>, h1: seq<Snapshot>, h2: seq<Snapshot>, name: Text)
    requires h0 <= h1 <= h2 && mid.pointer == before.pointer
    requires mid.files - {TempName(name)} == before.files - {TempName(name)}
    requires SeesOnlyTemp(before, h1[|h0|..], name) && SeesOnlyTemp(mid, h2[|h1|..], name)
    ensures SeesOnlyTemp(before, h2[|h0|..], name)
  {
    SliceTwice(h0, h1, h2);
  }

  lemma TempThenPublish(
      before: Snapshot, mid: Snapshot, h0: seq<Snapshot>, h1: seq<Snapshot>, h2: seq<Snapshot>, name: Text,
      content: Bytes)
    requires h0 <= h1 <= h2 && mid.pointer == before.pointer && name != TempName(name)
    requires mid.files - {TempName(name)} == before.files - {TempName(name)}
    requires SeesOnlyTemp(before, h1[|h0|..], name) && SeesAllOrNothing(mid, h2[|h1|..], name, content)
    ensures SeesAllOrNothing(before, h2[|h0|..], name, content)
  {
    hide TempName;
    SliceTwice(h0, h1, h2);
    var temp := TempName(name);
    assert mid.files[name := content] - {temp} == (mid.files - {temp})[name := content];
    assert before.files[name := content] - {temp} == (before.files - {temp})[name := content];
  }

  class AtomicPublisher {
    const disk: FileSystem
    const finalName: Text
    /** What the buffered writer has not passed on yet. */
    var buffered: Bytes
    ghost var written: Bytes

    ghost predicate Valid()
      reads this, disk
    {
      && disk.Valid()
      && TempName(finalName) in disk.files
      && disk.files[TempName(finalName)] + buffered == written
    }

    constructor Over(disk: FileSystem, finalName: Text)
      requires disk.Valid() && TempName(finalName) in disk.files && disk.files[TempName(finalName)] == []
      ensures this.disk == disk && this.finalName == finalName
      ensures Valid() && written == []
    {
      this.disk, this.finalName, buffered, written := disk, finalName, [], [];
    }

    static method Create(disk: FileSystem, finalName: Text) returns (p: AtomicPublisher?)
      modifies disk
      ensures disk.Counts(p != null, old(disk.failures))
      ensures disk.Valid() && old(disk.history) <= disk.history && disk.pointer == old(disk.pointer)
      ensures SeesOnlyTemp(old(disk.Now()), disk.history[|old(disk.history)|..], finalName)
      ensures disk.files - {TempName(finalName)} == old(disk.files) - {TempName(finalName)}
      ensures p != null ==>
        && fresh(p) && p.disk == disk && p.finalName == finalName
        && p.Valid() && p.written == []
    {
      var ok := disk.Create(TempName(finalName));
      if !ok {
        return null;
      }
      p := new AtomicPublisher.Over(disk, finalName);
    }

    /** The buffered writer passes on whatever it likes. */
    method WriteAll(bytes: Bytes) returns (ok: bool)
      requires Valid()
      modifies this, disk
      ensures disk.Counts(ok, old(disk.failures))
      ensures disk.Valid() && old(disk.history) <= disk.history && disk.pointer == old(disk.pointer)
      ensures SeesOnlyTemp(old(disk.Now()), disk.history[|old(disk.history)|..], finalName)
      ensures disk.files - {TempName(finalName)} == old(disk.files) - {TempName(finalName)}
      ensures ok ==> Valid() && written == old(written) + bytes
    {
      var temp := TempName(finalName);
      var all := buffered + bytes;
      var k: nat :| k <= |all|;
      ok := disk.Append(temp, all[..k]);
      if ok {
        buffered := all[k..];
        written := written + bytes;
        assert old(disk.files)[temp] + all[..k] + all[k..] == written;
      }
    }

    /** Flush, then rename: readers see the old file or the whole new one. */
    method Publish() returns (ok: bool)
      requires Valid()
      modifies this, disk
      ensures disk.Counts(ok, old(disk.failures))
      ensures disk.Valid() && old(disk.history) <= disk.history && disk.pointer == old(disk.pointer)
      ensures SeesAllOrNothing(old(disk.Now()), disk.history[|old(disk.history)|..], finalName, old(written))
      ensures ok ==> disk.files == (old(disk.files) - {TempName(finalName)})[finalName := old(written)]
      ensures !ok ==> disk.files - {TempName(finalName)} == old(disk.files) - {TempName(finalName)}
    {
      TempIsNoFinalName(finalName, 0);
      var temp := TempName(finalName);
      ok := disk.Append(temp, buffered);
      if ok {
        ghost var flushed := disk.files;
        assert flushed - {temp} == old(disk.files) - {temp};
        ok := disk.Rename(temp, finalName);
        assert (flushed - {temp})[finalName := written] - {temp} == old(disk.files)[finalName := written] - {temp};
      }
    }

    method Discard() returns (ok: bool)
      requires Valid()
      modifies disk
      ensures disk.Counts(ok, old(disk.failures))
      ensures disk.Valid() && old(disk.history) <= disk.history && disk.pointer == old(disk.pointer)
      ensures SeesOnlyTemp(old(disk.Now()), disk.history[|old(disk.history)|..], finalName)
      ensures ok ==> disk.files == old(disk.files) - {TempName(finalName)}
    {
      ok := disk.Remove(TempName(finalName));
    }

    static method PublishBytes(disk: FileSystem, finalName: Text, bytes: Bytes) returns (ok: bool)
      requires disk.Valid()
      modifies disk
      ensures disk.Counts(ok, old(disk.failures))
      ensures disk.Valid() && old(disk.history) <= disk.history && disk.pointer == old(disk.pointer)
      ensures SeesAllOrNothing(old(disk.Now()), disk.history[|old(disk.history)|..], finalName, bytes)
      ensures ok ==> disk.files == (old(disk.files) - {TempName(finalName)})[finalName := bytes]
      ensures !ok ==> disk.files - {TempName(finalName)} == old(disk.files) - {TempName(finalName)}
    {
      ghost var before, h0 := disk.Now(), disk.history;
      TempIsNoFinalName(finalName, 0);
      var writer := Create(disk, finalName);
      if writer == null {
        return false;
      }
      ghost var mid, h1 := disk.Now(), disk.history;
      ok := writer.WriteAll(bytes);
      ghost var full, h2 := disk.Now(), disk.history;
      TempThenTemp(before, mid, h0, h1, h2, finalName);
      if !ok {
        return;
      }
      assert [] + bytes == bytes;
      ok := writer.Publish();
      TempThenPublish(before, full, h0, h2, disk.history, finalName, bytes);
    }
  }

  class MpegTsSegmentWriter {
    const publisher: AtomicPublisher
    const disk: FileSystem
    var patCc: u4
    var pmtCc: u4
    var videoCc: u4
    ghost var aus: seq<AccessUnit>

    ghost predicate Valid()
      reads this, publisher, disk, publisher.disk
    {
      && publisher.disk == disk && publisher.Valid()
      && publisher.written == SegmentBytes(aus)
      && videoCc == VideoCounter(aus)
    }

    constructor Over(publisher: AtomicPublisher)
      ensures this.publisher == publisher && disk == publisher.disk
      ensures patCc == pmtCc == videoCc == 0 && aus == []
    {
      this.publisher, disk := publisher, publisher.disk;
      patCc, pmtCc, videoCc, aus := 0, 0, 0, [];
    }

    static method Create(disk: FileSystem, name: Text) returns (w: MpegTsSegmentWriter?)
      modifies disk
      ensures disk.Counts(w != null, old(disk.failures))
      ensures disk.Valid() && old(disk.history) <= disk.history && disk.pointer == old(disk.pointer)
      ensures SeesOnlyTemp(old(disk.Now()), disk.history[|old(disk.history)|..], name)
      ensures disk.files - {TempName(name)} == old(disk.files) - {TempName(name)}
      ensures w != null ==>
        && fresh(w) && fresh(w.publisher) && w.disk == disk && w.publisher.finalName == name
        && w.Valid() && w.aus == []
    {
      hide TsPackets, SectionPayload, CounterAfter;
      ghost var before, h0 := disk.Now(), disk.history;
      var publisher := AtomicPublisher.Create(disk, name);
      if publisher == null {
        return null;
      }
      var writer := new MpegTsSegmentWriter.Over(publisher);
      var pat, patCc := BuildPatPacket(writer.patCc);
      writer.patCc := patCc;
      ghost var mid, h1 := disk.Now(), disk.history;
      var ok := publisher.WriteAll(pat);
      ghost var late, h2 := disk.Now(), disk.history;
      TempThenTemp(before, mid, h0, h1, h2, name);
      if !ok {
        return null;
      }
      var pmt, pmtCc := BuildPmtPacket(writer.pmtCc);
      writer.pmtCc := pmtCc;
      ok := publisher.WriteAll(pmt);
      TempThenTemp(before, late, h0, h2, disk.history, name);
      if !ok {
        return null;
      }
      assert publisher.written == SegmentBytes([]) by {
        assert [] + pat + pmt == Tables() + VideoBytes([]);
      }
      w := writer;
    }

    /** One access unit: its PES packet, cut into transport packets, goes to the end of the file. */
    method WriteAccessUnit(au: AccessUnit) returns (ok: bool)
      requires Valid()
      modifies this, publisher, disk
      ensures disk.Counts(ok, old(disk.failures))
      ensures disk.Valid() && old(disk.history) <= disk.history && disk.pointer == old(disk.pointer)
      ensures SeesOnlyTemp(old(disk.Now()), disk.history[|old(disk.history)|..], publisher.finalName)
      ensures disk.files - {TempName(publisher.finalName)} == old(disk.files) - {TempName(publisher.finalName)}
      ensures ok ==> Valid() && aus == old(aus) + [au]
    {
      hide TsPackets, CounterAfter, BuildPesVideo, SegmentBytes, VideoCounter;
      var payload: Bytes := [];
      assert au.nals[..0] == [];
      for i := 0 to |au.nals|
        modifies {}
        invariant payload == Concat(au.nals[..i])
      {
        assert au.nals[..i + 1] == au.nals[..i] + [au.nals[i]];
        ConcatAppend(au.nals[..i], [au.nals[i]]);
        ConcatOne(au.nals[i]);
        payload := payload + au.nals[i];
      }
      assert au.nals[..|au.nals|] == au.nals;
      var pes := BuildPesVideo(au.rtpTimestamp, payload);
      assert pes == PesOf(au);
      SegmentBytesSnoc(aus, au);
      var ts, cc := PacketizeTs(VIDEO_PID, pes, videoCc, true);
      videoCc := cc;
      ok := publisher.WriteAll(ts);
      if ok {
        aus := aus + [au];
      }
    }

    method Publish() returns (ok: bool)
      requires Valid()
      modifies publisher, disk
      ensures disk.Counts(ok, old(disk.failures))
      ensures disk.Valid() && old(disk.history) <= disk.history && disk.pointer == old(disk.pointer)
      ensures SeesAllOrNothing(old(disk.Now()), disk.history[|old(disk.history)|..], publisher.finalName,
        SegmentBytes(aus))
      ensures ok ==>
        disk.files == (old(disk.files) - {TempName(publisher.finalName)})[publisher.finalName := SegmentBytes(aus)]
      ensures !ok ==> disk.files - {TempName(publisher.finalName)} == old(disk.files) - {TempName(publisher.finalName)}
    {
      hide SegmentBytes, VideoCounter;
      ok := publisher.Publish();
    }

    method Discard() returns (ok: bool)
      requires Valid()
      modifies disk
      ensures disk.Counts(ok, old(disk.failures))
      ensures disk.Valid() && old(disk.history) <= disk.history && disk.pointer == old(disk.pointer)
      ensures SeesOnlyTemp(old(disk.Now()), disk.history[|old(disk.history)|..], publisher.finalName)
      ensures ok ==> disk.files == old(disk.files) - {TempName(publisher.finalName)}
    {
      hide SegmentBytes, VideoCounter;
      ok := publisher.Discard();
    }
  }
}
