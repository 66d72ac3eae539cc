/** What a client reads in the index of a session: which segments it lists, how they are tagged
    and how long they are, in terms of the messages that made them.
 */
module Listing {
  import opened Prelude
  import opened TsMux
  import opened Assembly
  import opened Manifest
  import opened Live
  import opened Rotation
  import opened Disk
  import opened Directory

  /** The entry of segment `j`, counted from zero: tagged exactly when the one before was cut, as
      long as it took from its first access unit to its end, at least a millisecond. */
  ghost predicate Lists(item: Item, published: seq<Segment>, j: nat)
    requires j < |published|
  {
    var s := published[j];
    && (item.discontinuity <==> j > 0 && published[j - 1].cut)
    && s.deliveredAt != []
    && item.durationMs == (if s.deliveredAt[0] < s.closedAt then s.closedAt - s.deliveredAt[0] else 1)
    && SegmentNumber(item.uri) == Some(j + 1)
  }

  /** The file behind the entry of segment `j` holds exactly that segment. */
  ghost predicate Serves(files: Files, item: Item, published: seq<Segment>, j: nat)
    requires j < |published|
  {
    item.uri in files && files[item.uri] == SegmentBytes(published[j].aus)
  }

  lemma EntryLists(cfg: Config, published: seq<Segment>, j: nat)
    requires j < |published| && GoodSegment(published, j) && TimedSegment(cfg, published[j])
    ensures Lists(ItemOf(published[j].Entry()), published, j)
  {
    hide SegmentName, SegmentNumber, AllTold, TargetSecs;
    SegmentNameNumber(j + 1);
  }

  lemma EntryServed(cfg: Config, published: seq<Segment>, i: nat)
    requires GoodSegments(published) && published != [] && i < |Suffix(published, MaxSegments(cfg))|
    ensures
      var shown := Suffix(published, MaxSegments(cfg));
      Serves(DirectoryFor(cfg, published), ItemOf(shown[i].Entry()), published, |published| - |shown| + i)
  {
    hide SegmentName, SegmentBytes, SegmentFiles, GoodSegments, Render, AsBytes, Window, TargetSecs, MaxSegments,
         Ascending, IndexName;
    var n := MaxSegments(cfg);
    var shown := Suffix(published, n);
    GoodAscends(published, n);
    FileIsThere(shown, i);
    NamesAreDistinct(shown[i].seqNo, 0);
  }

  /** The index and the files that it lists are all there is. */
  ghost predicate NothingElse(files: Files, items: seq<Item>) {
    forall name :: name in files && name != "index.m3u8" ==> exists i :: 0 <= i < |items| && items[i].uri == name
  }

  lemma {:induction false} OnlyListedFiles(cfg: Config, published: seq<Segment>)
    requires published != []
    ensures NothingElse(DirectoryFor(cfg, published), ItemsOf(Entries(Suffix(published, MaxSegments(cfg)))))
  {
    hide SegmentFiles, Render, AsBytes, Window, TargetSecs, MaxSegments, SegmentName, Suffix;
    var shown := Suffix(published, MaxSegments(cfg));
    var items := ItemsOf(Entries(shown));
    forall name | name in DirectoryFor(cfg, published) && name != "index.m3u8"
      ensures exists i :: 0 <= i < |items| && items[i].uri == name
    {
      var i := OnlyFilesOfSegments(shown, name);
      assert items[i].uri == name;
    }
  }

  lemma WholeIndex(cfg: Config, published: seq<Segment>)
    requires published != []
    ensures
      var files, shown := DirectoryFor(cfg, published), Suffix(published, MaxSegments(cfg));
      && "index.m3u8" in files
      && ParseFile(files["index.m3u8"])
           == Some(Playlist(TargetSecs(cfg), MediaSequence(Entries(shown)), ItemsOf(Entries(shown))))
      && |shown| == Min(|published|, MaxSegments(cfg)) && shown != []
  {
    hide SegmentFiles, Render, AsBytes, ParseFile, TargetSecs, MaxSegments, ItemsOf, Entries;
    WindowHoldsThree(cfg);
    ManifestRoundTrip(TargetSecs(cfg), Window(cfg, published));
  }

  /** The index that any session leaves behind, whatever was lost: it lists the newest segments,
      as many as the window holds, numbered from its media sequence; each with its tag, its
      duration and its file.  No other file is left. */
  lemma {:induction false} IndexTells(cfg: Config, events: seq<Event>, end: nat)
    requires Session(cfg, events, end).published != []
    ensures
      var published := Session(cfg, events, end).published;
      var files := DirectoryFor(cfg, published);
      && "index.m3u8" in files && ParseFile(files["index.m3u8"]).Some?
      && var index := ParseFile(files["index.m3u8"]).value;
         var first := |published| - |index.items|;
         && index.targetDuration == (if cfg.segmentSecs == 0 then 1 else cfg.segmentSecs)
         && |index.items| == Min(|published|, MaxSegments(cfg)) && index.mediaSequence == first + 1
         && (forall i :: 0 <= i < |index.items| ==>
              && Lists(index.items[i], published, first + i)
              && Serves(files, index.items[i], published, first + i))
         && NothingElse(files, index.items)
  {
    hide *;
    var published := Session(cfg, events, end).published;
    SessionIsGood(cfg, events, end);
    SessionIsTimed(cfg, events, end);
    WindowIsLeast(cfg);
    WholeIndex(cfg, published);
    var shown := Suffix(published, MaxSegments(cfg));
    FirstShown(cfg, published);
    OnlyListedFiles(cfg, published);
    forall i | 0 <= i < |shown|
      ensures
        && Lists(ItemsOf(Entries(shown))[i], published, |published| - |shown| + i)
        && Serves(DirectoryFor(cfg, published), ItemsOf(Entries(shown))[i], published, |published| - |shown| + i)
    {
      ShownIs(cfg, published, i);
      EntryLists(cfg, published, |published| - |shown| + i);
      EntryServed(cfg, published, i);
    }
  }

  lemma FirstShown(cfg: Config, published: seq<Segment>)
    requires GoodSegments(published) && published != [] && Suffix(published, MaxSegments(cfg)) != []
    ensures
      var shown := Suffix(published, MaxSegments(cfg));
      && |Entries(shown)| == |shown| <= |published|
      && MediaSequence(Entries(shown)) == |published| - |shown| + 1
  {
    hide MaxSegments, GoodSegments;
    ShownSegment(published, MaxSegments(cfg), 0);
  }

  lemma ShownIs(cfg: Config, published: seq<Segment>, i: nat)
    requires GoodSegments(published) && TimedSegments(cfg, published) && i < |Suffix(published, MaxSegments(cfg))|
    ensures
      var shown := Suffix(published, MaxSegments(cfg));
      var j := |published| - |shown| + i;
      && j < |published| && shown[i] == published[j] && ItemsOf(Entries(shown))[i] == ItemOf(published[j].Entry())
      && GoodSegment(published, j) && TimedSegment(cfg, published[j])
  {
    hide MaxSegments, GoodSegment, TimedSegment, ItemOf, RotatedInto;
  }
}
