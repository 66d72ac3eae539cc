/** A player in front of the session directory: it reads the index, fetches the files that
    the index names and demultiplexes each of them.
 */
module Playback {
  import opened Prelude
  import opened Rtp
  import opened SyncGate
  import opened TsMux
  import opened TsDemux
  import opened Manifest
  import opened Live
  import opened Epochs
  import opened Conservation
  import opened EndToEnd
  import opened Disk
  import opened Directory

  function PlayItems(files: Files, items: seq<Item>): Option<seq<Picture>> {
    if items == [] then Some([])
    else
      var n := |items| - 1;
      var front := PlayItems(files, items[..n]);
      if front.None? || items[n].uri !in files then None
      else
        var last := Demux(files[items[n].uri]);
        if last.None? then None else Some(front.value + last.value)
  }

  /** Nothing can be played before there is an index. */
  function Play(files: Files): Option<seq<Picture>> {
    if "index.m3u8" !in files then None
    else
      var index := ParseFile(files["index.m3u8"]);
      if index.None? then None else PlayItems(files, index.value.items)
  }

  lemma PlayShown(files: Files, target: nat, entries: seq<SegmentEntry>)
    requires entries != [] && Shows(files, target, entries)
    ensures Play(files) == PlayItems(files, ItemsOf(entries))
  {
    hide ParseFile, Render, AsBytes, PlayItems, ItemsOf, Shows;
    IndexReads(files, target, entries);
  }

  ghost predicate Holds(files: Files, shown: seq<Segment>) {
    forall i :: 0 <= i < |shown| ==>
      && FileOf(shown[i]) in files && files[FileOf(shown[i])] == SegmentBytes(shown[i].aus)
      && shown[i].aus != []
  }

  lemma {:induction false} PlaySegments(files: Files, shown: seq<Segment>)
    requires Holds(files, shown)
    ensures PlayItems(files, ItemsOf(Entries(shown))) == Some(Pictures(SegmentAus(shown)))
    decreases |shown|
  {
    hide Demux, SegmentBytes, PictureOf, SegmentName;
    if shown != [] {
      var n := |shown| - 1;
      PlaySegments(files, shown[..n]);
      SegmentRoundTrip(shown[n].aus);
      assert ItemsOf(Entries(shown))[..n] == ItemsOf(Entries(shown[..n]));
      assert Pictures(SegmentAus(shown)) == Pictures(SegmentAus(shown[..n])) + Pictures(shown[n].aus);
    }
  }

  lemma {:induction false} DirectoryHolds(cfg: Config, published: seq<Segment>)
    requires GoodSegments(published) && published != []
    ensures Holds(DirectoryFor(cfg, published), Suffix(published, MaxSegments(cfg)))
  {
    hide IndexName, MaxSegments, SegmentFiles, SegmentName, SegmentBytes, GoodSegments, Ascending, Suffix, Render,
         AsBytes, Window, TargetSecs;
    var n := MaxSegments(cfg);
    var shown := Suffix(published, n);
    GoodAscends(published, n);
    forall i | 0 <= i < |shown|
      ensures FileOf(shown[i]) in DirectoryFor(cfg, published)
      ensures DirectoryFor(cfg, published)[FileOf(shown[i])] == SegmentBytes(shown[i].aus) && shown[i].aus != []
    {
      FileIsThere(shown, i);
      ShownSegment(published, n, i);
      NamesAreDistinct(shown[i].seqNo, 0);
    }
  }

  /** Playing a session directory gives the access units of the window's segments, in order. */
  lemma {:induction false} PlayDirectory(cfg: Config, published: seq<Segment>)
    requires GoodSegments(published) && published != []
    ensures Play(DirectoryFor(cfg, published)) == Some(Pictures(SegmentAus(Suffix(published, MaxSegments(cfg)))))
  {
    hide *;
    var shown := Suffix(published, MaxSegments(cfg));
    WindowNotEmpty(cfg, published);
    DirectoryShows(cfg, published);
    PlayShown(DirectoryFor(cfg, published), TargetSecs(cfg), Window(cfg, published));
    DirectoryHolds(cfg, published);
    PlaySegments(DirectoryFor(cfg, published), shown);
  }

  lemma WindowNotEmpty(cfg: Config, published: seq<Segment>)
    requires published != []
    ensures Window(cfg, published) == Entries(Suffix(published, MaxSegments(cfg))) && Window(cfg, published) != []
  {
  }

  lemma {:induction false} SegmentAusAppend(a: seq<Segment>, b: seq<Segment>)
    ensures SegmentAus(a + b) == SegmentAus(a) + SegmentAus(b)
    decreases |b|
  {
    if b == [] {
      assert a + b == a;
    } else {
      var m := |b| - 1;
      assert (a + b)[..|a + b| - 1] == a + b[..m];
      SegmentAusAppend(a, b[..m]);
    }
  }

  lemma SuffixAus(published: seq<Segment>, n: nat)
    ensures |SegmentAus(Suffix(published, n))| <= |SegmentAus(published)|
    ensures SegmentAus(Suffix(published, n))
      == SegmentAus(published)[|SegmentAus(published)| - |SegmentAus(Suffix(published, n))|..]
  {
    hide SegmentAus;
    if n < |published| {
      var k := |published| - n;
      assert published == published[..k] + published[k..];
      SegmentAusAppend(published[..k], published[k..]);
      EndOf(SegmentAus(published[..k]), SegmentAus(published[k..]));
    }
  }

  lemma EndOf(a: seq<AccessUnit>, b: seq<AccessUnit>)
    ensures (a + b)[|a + b| - |b|..] == b
  {
  }

  /** From RTP packets to the screen.  When no packet and no file-system call is lost, playing
      the directory that a session leaves behind gives the stream's pictures to the very last
      one; and all of them, from the first IDR on, when they fit into the window. */
  lemma {:induction false} LossFreePlayback(
      cfg: Config, frames: seq<Frame>, sent: seq<seq<Wire>>, first: u16, events: seq<Event>, end: nat)
    requires CarriesAll(sent, frames) && Delivers(events, AllWires(sent), first)
    requires ExpectedAus(Reset(SeedGate(cfg)), frames) != []
    ensures
      var published := Session(cfg, events, end).published;
      var shown := Play(DirectoryFor(cfg, published));
      var pictures := Pictures(ExpectedAus(Reset(SeedGate(cfg)), frames));
      && shown.Some? && 1 <= |shown.value| <= |pictures| && shown.value == pictures[|pictures| - |shown.value|..]
      && (|published| <= MaxSegments(cfg) ==> shown.value == pictures)
  {
    hide *;
    var published := Session(cfg, events, end).published;
    var n := MaxSegments(cfg);
    LossFree(cfg, frames, sent, first, events, end);
    SessionIsGood(cfg, events, end);
    NoSegmentsNoAus(published);
    PlayDirectory(cfg, published);
    SuffixAus(published, n);
    WindowKeepsOne(cfg, published);
    SuffixOfAll(published, n);
    PicturesOfSuffix(SegmentAus(published), |SegmentAus(published)| - |SegmentAus(Suffix(published, n))|);
  }

  lemma NoSegmentsNoAus(published: seq<Segment>)
    requires SegmentAus(published) != []
    ensures published != []
  {
  }

  lemma SuffixOfAll(published: seq<Segment>, n: nat)
    ensures |published| <= n ==> Suffix(published, n) == published
  {
  }

  lemma WindowKeepsOne(cfg: Config, published: seq<Segment>)
    requires GoodSegments(published) && published != []
    ensures SegmentAus(Suffix(published, MaxSegments(cfg))) != []
  {
    hide GoodSegments;
    WindowHoldsThree(cfg);
    var shown := Suffix(published, MaxSegments(cfg));
    ShownSegment(published, MaxSegments(cfg), |shown| - 1);
  }

  lemma PicturesOfSuffix(aus: seq<AccessUnit>, k: nat)
    requires k <= |aus|
    ensures Pictures(aus[k..]) == Pictures(aus)[k..] && |Pictures(aus)| == |aus| && |Pictures(aus[k..])| == |aus| - k
  {
    hide PictureOf;
  }
}
