/** The session directory that belongs to some published segments, and how one more segment
    changes it.
 */
module Directory {
  import opened Prelude
  import opened TsMux
  import opened Assembly
  import opened Manifest
  import opened Live
  import opened Disk
  import opened Publisher
  import opened PlaylistWindow

  function FileOf(s: Segment): Text {
    SegmentName(s.seqNo)
  }

  function SegmentFiles(shown: seq<Segment>): Files {
    if shown == [] then map[]
    else
      var last := shown[|shown| - 1];
      SegmentFiles(shown[..|shown| - 1])[FileOf(last) := SegmentBytes(last.aus)]
  }

  /** Exactly the files of the window, and the index that lists them. */
  function DirectoryFor(cfg: Config, published: seq<Segment>): Files {
    if published == [] then map[]
    else
      var index := AsBytes(Render(TargetSecs(cfg), Window(cfg, published)));
      SegmentFiles(Suffix(published, MaxSegments(cfg)))[IndexName() := index]
  }

  ghost predicate Ascending(shown: seq<Segment>) {
    forall i, j :: 0 <= i < j < |shown| ==> shown[i].seqNo < shown[j].seqNo
  }

  lemma {:induction false} FileIsThere(shown: seq<Segment>, i: nat)
    requires Ascending(shown) && i < |shown|
    ensures FileOf(shown[i]) in SegmentFiles(shown)
      && SegmentFiles(shown)[FileOf(shown[i])] == SegmentBytes(shown[i].aus)
    decreases |shown|
  {
    hide SegmentBytes, SegmentName, Tables;
    var n := |shown| - 1;
    if i < n {
      FileIsThere(shown[..n], i);
      NamesAreDistinct(shown[i].seqNo, shown[n].seqNo);
    }
  }

  lemma {:induction false} OnlyFilesOfSegments(shown: seq<Segment>, name: Text) returns (i: nat)
    requires name in SegmentFiles(shown)
    ensures i < |shown| && name == FileOf(shown[i])
    decreases |shown|
  {
    hide SegmentBytes, SegmentName, Tables;
    var n := |shown| - 1;
    if name == FileOf(shown[n]) {
      i := n;
    } else {
      i := OnlyFilesOfSegments(shown[..n], name);
    }
  }

  /** Removing the oldest file leaves the files of the others. */
  lemma {:induction false} DropOldest(shown: seq<Segment>)
    requires Ascending(shown) && shown != []
    ensures SegmentFiles(shown[1..]) == SegmentFiles(shown) - {FileOf(shown[0])}
    decreases |shown|
  {
    hide SegmentBytes, SegmentName, Tables;
    var n := |shown| - 1;
    if n == 0 {
      assert shown[..0] == [] && shown[1..] == [];
    } else {
      var front := shown[..n];
      DropOldest(front);
      assert shown[1..][..n - 1] == front[1..] && shown[1..][n - 1] == shown[n];
      NamesAreDistinct(shown[0].seqNo, shown[n].seqNo);
      assert front[0] == shown[0];
    }
  }

  lemma SuffixSnoc(published: seq<Segment>, s: Segment, n: nat)
    requires 1 <= n
    ensures Suffix(published + [s], n) ==
      (if |published| < n then published else Suffix(published, n)[1..]) + [s]
  {
  }

  /** Segment `i` of the window. */
  lemma ShownSegment(published: seq<Segment>, n: nat, i: nat)
    requires GoodSegments(published) && i < |Suffix(published, n)|
    ensures
      var shown := Suffix(published, n);
      && shown[i].aus != [] && HoldsIdr(shown[i].aus[0])
      && shown[i].seqNo == |published| - |shown| + i + 1
  {
    assert GoodSegment(published, |published| - |Suffix(published, n)| + i);
  }

  lemma GoodAscends(published: seq<Segment>, n: nat)
    requires GoodSegments(published)
    ensures Ascending(Suffix(published, n))
  {
    hide Suffix, GoodSegments;
    var shown := Suffix(published, n);
    forall i, j | 0 <= i < j < |shown|
      ensures shown[i].seqNo < shown[j].seqNo
    {
      ShownSegment(published, n, i);
      ShownSegment(published, n, j);
    }
  }

  lemma DirectoryShows(cfg: Config, published: seq<Segment>)
    ensures Shows(DirectoryFor(cfg, published), TargetSecs(cfg), Window(cfg, published))
  {
    hide IndexName, MaxSegments, SegmentFiles, Render, AsBytes, TargetSecs, Segment.Entry, Tables;
    WindowHoldsThree(cfg);
  }

  lemma {:induction false} FileInDirectory(cfg: Config, published: seq<Segment>, s: Segment)
    requires published != [] && s.aus != [] && HoldsIdr(s.aus[0])
    requires var f := SegmentFiles(Suffix(published, MaxSegments(cfg)));
      FileOf(s) in f && f[FileOf(s)] == SegmentBytes(s.aus)
    ensures FileOf(s) in DirectoryFor(cfg, published) && IsSegmentFile(DirectoryFor(cfg, published)[FileOf(s)])
  {
    hide IndexName, MaxSegments, SegmentFiles, Render, AsBytes, TargetSecs, SegmentName, SegmentBytes, Suffix;
    NamesAreDistinct(s.seqNo, 0);
  }

  lemma {:induction false} DirectoryBacked(cfg: Config, published: seq<Segment>)
    requires GoodSegments(published)
    ensures Backed(DirectoryFor(cfg, published), Window(cfg, published))
  {
    hide IndexName, MaxSegments, SegmentFiles, DirectoryFor, SegmentName, IsSegmentFile, GoodSegments, Ascending,
         Tables;
    var shown := Suffix(published, MaxSegments(cfg));
    var w := Window(cfg, published);
    GoodAscends(published, MaxSegments(cfg));
    forall i | 0 <= i < |w|
      ensures w[i].Filename() in DirectoryFor(cfg, published)
      ensures IsSegmentFile(DirectoryFor(cfg, published)[w[i].Filename()])
    {
      FileIsThere(shown, i);
      ShownSegment(published, MaxSegments(cfg), i);
      FileInDirectory(cfg, published, shown[i]);
    }
  }

  /** The directory supports its own window. */
  lemma {:induction false} DirectoryBacks(cfg: Config, published: seq<Segment>)
    requires GoodSegments(published)
    ensures Backs(DirectoryFor(cfg, published), TargetSecs(cfg), Window(cfg, published))
  {
    hide DirectoryFor, Window, Shows, Backed, Tables;
    DirectoryShows(cfg, published);
    DirectoryBacked(cfg, published);
    WindowIsConsecutive(cfg, published);
  }

  /** Nothing in the directory is called like a segment still to come, or like a temporary. */
  lemma {:induction false} NotYetThere(cfg: Config, published: seq<Segment>, seqNo: nat)
    requires GoodSegments(published) && |published| < seqNo
    ensures SegmentName(seqNo) !in DirectoryFor(cfg, published)
    ensures forall name :: TempName(name) !in DirectoryFor(cfg, published)
  {
    hide IndexName, MaxSegments, SegmentName, SegmentBytes, SegmentFiles, Suffix, Render, AsBytes, TargetSecs, TempName,
         GoodSegments, Tables;
    var n := MaxSegments(cfg);
    var shown := Suffix(published, n);
    NamesAreDistinct(seqNo, 0);
    if SegmentName(seqNo) in SegmentFiles(shown) {
      var i := OnlyFilesOfSegments(shown, SegmentName(seqNo));
      NamesAreDistinct(seqNo, shown[i].seqNo);
      ShownSegment(published, n, i);
    }
    forall name
      ensures TempName(name) !in DirectoryFor(cfg, published)
    {
      TempIsNoFinalName(name, 0);
      if TempName(name) in SegmentFiles(shown) {
        var i := OnlyFilesOfSegments(shown, TempName(name));
        TempIsNoFinalName(name, shown[i].seqNo);
      }
    }
  }

  /** The window after one more segment. */
  lemma WindowSnoc(cfg: Config, published: seq<Segment>, s: Segment)
    ensures Window(cfg, published + [s]) == Suffix(Window(cfg, published) + [s.Entry()], MaxSegments(cfg))
    ensures Evicted(Window(cfg, published) + [s.Entry()], MaxSegments(cfg))
         == if |published| < MaxSegments(cfg) then [] else [Suffix(published, MaxSegments(cfg))[0].Entry()]
  {
    assert 3 <= MaxSegments(cfg);
    hide IndexName, MaxSegments, Segment.Entry;
    var n := MaxSegments(cfg);
    SuffixSnoc(published, s, n);
  }

  lemma NamesOfOne(e: SegmentEntry)
    ensures Names([e]) == {e.Filename()} && Names([]) == {}
  {
    hide SegmentName;
    assert [e][0].Filename() in Names([e]);
  }

  lemma NothingShown(n: nat)
    ensures SegmentFiles(Suffix([], n)) == map[]
  {
  }

  lemma PutAndList(base: Files, index: Text, temp: Text, before: Bytes, content: Bytes, name: Text, file: Bytes)
    requires temp !in base && temp != index && name != index && name != temp
    ensures (base[index := before][name := file] - {temp})[index := content] == base[name := file][index := content]
    ensures (base[name := file] - {temp})[index := content] == base[name := file][index := content]
  {
    assert base[index := before][name := file] - {temp} == base[index := before][name := file];
    assert base[name := file] - {temp} == base[name := file];
  }

  /** The temporary index aside, adding a file and listing it. */
  lemma {:induction false} ListedIs(
      cfg: Config, published: seq<Segment>, name: Text, file: Bytes, entries: seq<SegmentEntry>)
    requires GoodSegments(published) && name != IndexName() && name != TempName(IndexName())
    ensures ListedFiles(DirectoryFor(cfg, published)[name := file], TargetSecs(cfg), entries)
         == SegmentFiles(Suffix(published, MaxSegments(cfg)))[name := file]
              [IndexName() := AsBytes(Render(TargetSecs(cfg), entries))]
  {
    hide IndexName, MaxSegments, SegmentFiles, Suffix, Render, AsBytes, TargetSecs, TempName, Window, GoodSegments,
         Tables;
    NotYetThere(cfg, published, |published| + 1);
    TempIsNoFinalName(IndexName(), 0);
    var base := SegmentFiles(Suffix(published, MaxSegments(cfg)));
    NothingShown(MaxSegments(cfg));
    var before, content :=
      AsBytes(Render(TargetSecs(cfg), Window(cfg, published))), AsBytes(Render(TargetSecs(cfg), entries));
    assert TempName(IndexName()) !in base;
    PutAndList(base, IndexName(), TempName(IndexName()), before, content, name, file);
  }

  lemma SwapOldest(base: Files, gone: Text, name: Text, file: Bytes, content: Bytes)
    requires gone != name && gone != IndexName()
    ensures base[name := file][IndexName() := content] - {gone} == (base - {gone})[name := file][IndexName() := content]
  {
  }

  /** The files of the window after one more segment. */
  lemma {:induction false} SegmentFilesSnoc(published: seq<Segment>, s: Segment, n: nat)
    requires GoodSegments(published) && s.seqNo == |published| + 1 && 1 <= n
    ensures SegmentFiles(Suffix(published + [s], n)) ==
      (if |published| < n then SegmentFiles(Suffix(published, n))
       else SegmentFiles(Suffix(published, n)) - {FileOf(Suffix(published, n)[0])})[FileOf(s) := SegmentBytes(s.aus)]
  {
    hide SegmentBytes, FileOf, GoodSegments, SegmentFiles, Ascending, Tables;
    SuffixSnoc(published, s, n);
    GoodAscends(published, n);
    var shown := Suffix(published, n);
    if |published| < n {
      FilesSnoc(published, s);
    } else {
      DropOldest(shown);
      FilesSnoc(shown[1..], s);
    }
  }

  lemma {:induction false} FilesSnoc(shown: seq<Segment>, s: Segment)
    ensures SegmentFiles(shown + [s]) == SegmentFiles(shown)[FileOf(s) := SegmentBytes(s.aus)]
  {
    hide SegmentBytes, FileOf;
    assert (shown + [s])[..|shown|] == shown;
  }

  /** Publishing a segment, listing it and evicting what is too old turns the directory of
      the old segments into that of the new ones. */
  lemma {:induction false} DirectorySnoc(cfg: Config, published: seq<Segment>, s: Segment)
    requires GoodSegments(published) && s.seqNo == |published| + 1
    ensures
      var entries := Window(cfg, published + [s]);
      ListedFiles(DirectoryFor(cfg, published)[FileOf(s) := SegmentBytes(s.aus)], TargetSecs(cfg), entries)
        - Names(Evicted(Window(cfg, published) + [s.Entry()], MaxSegments(cfg)))
      == DirectoryFor(cfg, published + [s])
  {
    hide *;
    var n, target := MaxSegments(cfg), TargetSecs(cfg);
    var shown := Suffix(published, n);
    var entries := Window(cfg, published + [s]);
    WindowHoldsThree(cfg);
    EntryFile(s);
    DirectoryIs(cfg, published + [s]);
    NamesAreDistinct(s.seqNo, 0);
    TempIsNoFinalName(IndexName(), s.seqNo);
    ListedIs(cfg, published, FileOf(s), SegmentBytes(s.aus), entries);
    SegmentFilesSnoc(published, s, n);
    WindowSnoc(cfg, published, s);
    var listed := ListedFiles(DirectoryFor(cfg, published)[FileOf(s) := SegmentBytes(s.aus)], target, entries);
    if |published| < n {
      NamesOfOne(s.Entry());
      assert listed - {} == listed;
    } else {
      OldestIsOlder(published, s, n);
      var gone := shown[0];
      NamesOfOne(gone.Entry());
      NamesAreDistinct(gone.seqNo, s.seqNo);
      NamesAreDistinct(gone.seqNo, 0);
      EntryFile(gone);
      SwapOldest(SegmentFiles(shown), FileOf(gone), FileOf(s), SegmentBytes(s.aus), AsBytes(Render(target, entries)));
    }
  }

  lemma WindowHoldsThree(cfg: Config)
    ensures 3 <= MaxSegments(cfg)
  {
  }

  lemma DirectoryIs(cfg: Config, published: seq<Segment>)
    requires published != []
    ensures DirectoryFor(cfg, published) == SegmentFiles(Suffix(published, MaxSegments(cfg)))
              [IndexName() := AsBytes(Render(TargetSecs(cfg), Window(cfg, published)))]
  {
  }

  lemma EntryFile(s: Segment)
    ensures s.Entry().Filename() == FileOf(s) == SegmentName(s.seqNo)
  {
  }

  lemma OldestIsOlder(published: seq<Segment>, s: Segment, n: nat)
    requires GoodSegments(published) && s.seqNo == |published| + 1 && 1 <= n <= |published|
    ensures Suffix(published, n) != [] && Suffix(published, n)[0].seqNo < s.seqNo
  {
    assert GoodSegment(published, |published| - n);
  }

  /** A window is still supported when a segment to come, and any temporary, are added. */
  lemma {:induction false} BacksMore(
      dir: Files, files: Files, target: nat, entries: seq<SegmentEntry>, temp: Text, name: Text, b: Bytes)
    requires Backs(dir, target, entries) && files - {TempName(temp)} == dir
    requires name !in dir && name != IndexName()
    ensures Backs(files[name := b], target, entries)
  {
    hide IndexName, TempName, SegmentName, IsSegmentFile, Render, AsBytes, Increasing;
    TempIsNoFinalName(temp, 0);
    forall other | other in dir
      ensures other in files && files[other] == dir[other] && other != name
    {
      assert other in files - {TempName(temp)};
    }
    if IndexName() in files {
      assert IndexName() in files - {TempName(temp)};
    }
  }

  /** A good list of segments and the directory behind it make a safe moment. */
  lemma DirectoryPointer(cfg: Config, published: seq<Segment>, pointer: Option<Pointer>)
    requires GoodSegments(published)
    requires pointer.Some? ==> 1 <= pointer.value.lastSegmentSeq <= |published|
    ensures PointerWithin(pointer, Window(cfg, published))
    ensures forall i :: 0 <= i < |Window(cfg, published)| ==> Window(cfg, published)[i].seqNo <= |published|
  {
    hide Window, GoodSegments;
    WindowIsConsecutive(cfg, published);
  }
}
