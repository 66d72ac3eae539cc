/** The session directory and `current.json` beside it, as readers see them.

    Every call may fail.  The history holds each state that a reader could have seen, after
    every single call.
 */
module Disk {
  import opened Prelude
  import opened TsMux
  import opened Assembly
  import opened Manifest
  import opened Live

  type Files = map<Text, Bytes>

  /** What a reader sees at one moment: the session directory and `current.json`. */
  datatype Snapshot = Snapshot(files: Files, pointer: Option<Pointer>)

  // ---------------------------------------------------------------------------
  // Safety of what readers see
  // ---------------------------------------------------------------------------

  /** A complete segment whose first access unit holds an IDR slice. */
  ghost predicate IsSegmentFile(b: Bytes) {
    exists aus: seq<AccessUnit> :: aus != [] && HoldsIdr(aus[0]) && b == SegmentBytes(aus)
  }

  predicate IsSegmentName(name: Text) {
    SegmentNumber(name).Some? && name == SegmentName(SegmentNumber(name).value)
  }

  /** Every segment that the visible index names is there, complete. */
  ghost predicate SafeIndex(files: Files) {
    IndexName() in files ==>
      var p := ParseFile(files[IndexName()]);
      && p.Some? && p.value.items != []
      && forall i :: 0 <= i < |p.value.items| ==> SafeItem(files, p.value.items[i])
  }

  ghost predicate SafeItem(files: Files, item: Item) {
    IsSegmentName(item.uri) && item.uri in files && IsSegmentFile(files[item.uri])
  }

  /** A visible pointer goes with a visible index, and its segment number is one that the
      index has reached. */
  ghost predicate SafePointer(s: Snapshot)
    requires SafeIndex(s.files)
  {
    s.pointer.Some? ==>
      && IndexName() in s.files
      && var items := ParseFile(s.files[IndexName()]).value.items;
         1 <= s.pointer.value.lastSegmentSeq <= SegmentNumber(items[|items| - 1].uri).value
  }

  ghost predicate Safe(s: Snapshot) {
    SafeIndex(s.files) && SafePointer(s)
  }

  /** The pointer never disappears and never goes back. */
  ghost predicate Onward(s: Snapshot, t: Snapshot) {
    s.pointer.Some? ==>
      t.pointer.Some? && s.pointer.value.lastSegmentSeq <= t.pointer.value.lastSegmentSeq
  }

  /** Safe at every moment, and onward from each to the next. */
  ghost predicate SafeHistory(h: seq<Snapshot>) {
    && (forall i :: 0 <= i < |h| ==> Safe(h[i]))
    && (forall i :: 0 <= i < |h| - 1 ==> Onward(h[i], h[i + 1]))
  }

  lemma SafeHistorySnoc(h: seq<Snapshot>, s: Snapshot)
    requires SafeHistory(h) && Safe(s) && (h != [] ==> Onward(h[|h| - 1], s))
    ensures SafeHistory(h + [s])
  {
    hide Safe, Onward;
  }

  /** Temporary files play no part in safety. */
  lemma SafeWithoutTemp(s: Snapshot, t: Snapshot, name: Text)
    requires Safe(s) && s.pointer == t.pointer
    requires s.files - {TempName(name)} == t.files - {TempName(name)}
    ensures Safe(t)
  {
    var temp := TempName(name);
    hide IndexName, ParseFile, IsSegmentFile, TempName;
    forall other | other != temp
      ensures other in s.files <==> other in t.files
      ensures other in s.files ==> s.files[other] == t.files[other]
    {
      assert other in s.files <==> other in s.files - {temp};
      assert other in t.files <==> other in t.files - {temp};
    }
    TempIsNoFinalName(name, 0);
    if IndexName() in t.files {
      var items := ParseFile(t.files[IndexName()]).value.items;
      forall i | 0 <= i < |items|
        ensures SafeItem(t.files, items[i])
      {
        assert SafeItem(s.files, items[i]);
        TempIsNoFinalName(name, SegmentNumber(items[i].uri).value);
      }
    }
  }

  // ---------------------------------------------------------------------------
  // What an index shows
  // ---------------------------------------------------------------------------

  /** The visible index lists exactly these entries; without entries there is none. */
  ghost predicate Shows(files: Files, target: nat, entries: seq<SegmentEntry>) {
    if entries == [] then IndexName() !in files
    else IndexName() in files && files[IndexName()] == AsBytes(Render(target, entries))
  }

  ghost predicate Backed(files: Files, entries: seq<SegmentEntry>) {
    forall i :: 0 <= i < |entries| ==>
      entries[i].Filename() in files && IsSegmentFile(files[entries[i].Filename()])
  }

  ghost predicate Increasing(entries: seq<SegmentEntry>) {
    forall i, j :: 0 <= i < j < |entries| ==> entries[i].seqNo < entries[j].seqNo
  }

  ghost predicate PointerWithin(pointer: Option<Pointer>, entries: seq<SegmentEntry>) {
    pointer.Some? ==> entries != [] && 1 <= pointer.value.lastSegmentSeq <= entries[|entries| - 1].seqNo
  }

  lemma {:induction false} EntryIsSafe(files: Files, e: SegmentEntry)
    requires e.Filename() in files && IsSegmentFile(files[e.Filename()])
    ensures SafeItem(files, ItemOf(e)) && SegmentNumber(ItemOf(e).uri) == Some(e.seqNo)
  {
    SegmentNameNumber(e.seqNo);
    hide SegmentName, SegmentNumber, IsSegmentFile;
  }

  lemma IndexReads(files: Files, target: nat, entries: seq<SegmentEntry>)
    requires entries != [] && Shows(files, target, entries)
    ensures IndexName() in files
    ensures ParseFile(files[IndexName()]) == Some(Playlist(target, MediaSequence(entries), ItemsOf(entries)))
  {
    ManifestRoundTrip(target, entries);
    hide IndexName, ParseFile, Render, AsBytes, ItemsOf;
  }

  lemma {:induction false} ItemsAreSafe(files: Files, entries: seq<SegmentEntry>)
    requires Backed(files, entries)
    ensures forall i :: 0 <= i < |entries| ==>
      SafeItem(files, ItemsOf(entries)[i]) && SegmentNumber(ItemsOf(entries)[i].uri) == Some(entries[i].seqNo)
  {
    hide SafeItem, IsSegmentFile, SegmentName, SegmentNumber, ItemOf;
    forall i | 0 <= i < |entries|
      ensures SafeItem(files, ItemsOf(entries)[i]) && SegmentNumber(ItemsOf(entries)[i].uri) == Some(entries[i].seqNo)
    {
      EntryIsSafe(files, entries[i]);
    }
  }

  lemma {:induction false} ShownIsSafe(s: Snapshot, target: nat, entries: seq<SegmentEntry>)
    requires Shows(s.files, target, entries) && Backed(s.files, entries) && PointerWithin(s.pointer, entries)
    ensures Safe(s)
  {
    hide IndexName, Backed, SafeItem, SegmentNumber, ItemsOf, ParseFile;
    if entries != [] {
      IndexReads(s.files, target, entries);
      ItemsAreSafe(s.files, entries);
    }
  }

  // ---------------------------------------------------------------------------
  // The file system
  // ---------------------------------------------------------------------------

  class FileSystem {
    var files: Files
    var pointer: Option<Pointer>
    ghost var history: seq<Snapshot>
    /** How many calls have failed. */
    ghost var failures: nat

    function Now(): Snapshot
      reads this
    {
      Snapshot(files, pointer)
    }

    ghost predicate Valid()
      reads this
    {
      history != [] && history[|history| - 1] == Now()
    }

    /** Since `before`, no call has failed, or exactly one has. */
    ghost predicate Counts(ok: bool, before: nat)
      reads this
    {
      failures == if ok then before else before + 1
    }

    /** A fresh session directory. */
    constructor ()
      ensures Valid() && files == map[] && pointer == None && history == [Now()] && failures == 0
    {
      files, pointer, failures := map[], None, 0;
      history := [Snapshot(map[], None)];
    }

    /** `File::create`: truncates; a failed call may have done so or not. */
    method Create(name: Text) returns (ok: bool)
      modifies this
      ensures Counts(ok, old(failures))
      ensures Valid() && history == old(history) + [Now()] && pointer == old(pointer)
      ensures files - {name} == old(files) - {name}
      ensures ok ==> files == old(files)[name := []]
    {
      ok := *;
      var done: bool := *;
      if ok || done {
        files := files[name := []];
      }
      history := history + [Now()];
      failures := if ok then failures else failures + 1;
    }

    /** Appending; a failed call may have written any part. */
    method Append(name: Text, bytes: Bytes) returns (ok: bool)
      requires name in files
      modifies this
      ensures Counts(ok, old(failures))
      ensures Valid() && history == old(history) + [Now()] && pointer == old(pointer)
      ensures files - {name} == old(files) - {name}
      ensures ok ==> files == old(files)[name := old(files)[name] + bytes]
    {
      ok := *;
      if ok {
        files := files[name := files[name] + bytes];
      } else {
        var k: nat :| k <= |bytes|;
        files := files[name := files[name] + bytes[..k]];
      }
      history := history + [Now()];
      failures := if ok then failures else failures + 1;
    }

    /** `rename`: all or nothing. */
    method Rename(source: Text, target: Text) returns (ok: bool)
      requires source in files && source != target
      modifies this
      ensures Counts(ok, old(failures))
      ensures Valid() && history == old(history) + [Now()] && pointer == old(pointer)
      ensures files == if ok then (old(files) - {source})[target := old(files)[source]] else old(files)
    {
      ok := *;
      if ok {
        files := (files - {source})[target := files[source]];
      }
      history := history + [Now()];
      failures := if ok then failures else failures + 1;
    }

    /** `remove_file`. */
    method Remove(name: Text) returns (ok: bool)
      modifies this
      ensures Counts(ok, old(failures))
      ensures Valid() && history == old(history) + [Now()] && pointer == old(pointer)
      ensures files == if ok then old(files) - {name} else old(files)
    {
      ok := *;
      if ok {
        files := files - {name};
      }
      history := history + [Now()];
      failures := if ok then failures else failures + 1;
    }

    /** The atomic publication of `current.json`. */
    method PublishPointer(p: Pointer) returns (ok: bool)
      modifies this
      ensures Counts(ok, old(failures))
      ensures Valid() && history == old(history) + [Now()] && files == old(files)
      ensures pointer == if ok then Some(p) else old(pointer)
    {
      ok := *;
      if ok {
        pointer := Some(p);
      }
      history := history + [Now()];
      failures := if ok then failures else failures + 1;
    }
  }
}
