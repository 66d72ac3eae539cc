/** Retention of recorded clips: which files `cleanup_old_clips` deletes. */
module Retention {
  import opened Prelude

  /** A clip file: path, modification time and size. */
  datatype Clip = Clip(path: string, mtime: int, size: nat)

  datatype Limits = Limits(maxAgeSecs: Option<nat>, maxFiles: Option<nat>, maxTotalBytes: Option<nat>)

  function Total(clips: seq<Clip>): nat {
    if clips == [] then 0 else clips[0].size + Total(clips[1..])
  }

  function Paths(clips: seq<Clip>): (p: seq<string>)
    ensures |p| == |clips| && forall i :: 0 <= i < |clips| ==> p[i] == clips[i].path
  {
    seq(|clips|, i requires 0 <= i < |clips| => clips[i].path)
  }

  /** The paths of the first `k`, and the others. */
  function Oldest(clips: seq<Clip>, k: nat): (p: seq<string>)
    requires k <= |clips|
  {
    Paths(clips[..k])
  }

  function Rest(clips: seq<Clip>, k: nat): (r: seq<Clip>)
    requires k <= |clips|
    ensures |r| == |clips| - k
  {
    clips[k..]
  }

  /** A directory never lists a path twice. */
  ghost predicate DistinctPaths(clips: seq<Clip>) {
    forall i, j :: 0 <= i < j < |clips| ==> clips[i].path != clips[j].path
  }

  // ---------------------------------------------------------------------------
  // What should go
  // ---------------------------------------------------------------------------

  predicate YoungEnough(l: Limits, now: int, clips: seq<Clip>) {
    l.maxAgeSecs.Some? ==> forall i :: 0 <= i < |clips| ==> now - l.maxAgeSecs.value <= clips[i].mtime
  }

  predicate FewEnough(l: Limits, clips: seq<Clip>) {
    l.maxFiles.Some? ==> |clips| <= l.maxFiles.value
  }

  predicate SmallEnough(l: Limits, clips: seq<Clip>) {
    l.maxTotalBytes.Some? ==> Total(clips) <= l.maxTotalBytes.value
  }

  predicate Meets(l: Limits, now: int, clips: seq<Clip>) {
    YoungEnough(l, now, clips) && FewEnough(l, clips) && SmallEnough(l, clips)
  }

  /** How many of the oldest clips to drop: one after the other, until what is left meets
      every limit. */
  function Excess(l: Limits, now: int, clips: seq<Clip>): (k: nat)
    ensures k <= |clips|
  {
    if clips == [] || Meets(l, now, clips) then 0 else 1 + Excess(l, now, clips[1..])
  }

  /** Nothing is dropped in vain: what is left meets the limits, and dropping any fewer of
      the oldest would not do. */
  lemma {:induction false} ExcessIsLeast(l: Limits, now: int, clips: seq<Clip>, j: nat)
    requires j <= |clips|
    ensures Meets(l, now, clips[Excess(l, now, clips)..])
    ensures j < Excess(l, now, clips) ==> !Meets(l, now, clips[j..])
    decreases |clips|
  {
    hide Meets;
    if clips == [] {
      NothingMeets(l, now);
      assert clips[0..] == [];
    } else if Meets(l, now, clips) {
      assert clips[0..] == clips;
    } else {
      var k := Excess(l, now, clips[1..]);
      assert clips[1..][k..] == clips[1 + k..];
      if j == 0 {
        assert clips[0..] == clips;
        ExcessIsLeast(l, now, clips[1..], 0);
      } else {
        ExcessIsLeast(l, now, clips[1..], j - 1);
        assert clips[1..][j - 1..] == clips[j..];
      }
    }
  }

  lemma NothingMeets(l: Limits, now: int)
    ensures Meets(l, now, [])
  {
  }

  /** The count is the only one with these two properties. */
  lemma ExcessIs(l: Limits, now: int, clips: seq<Clip>, k: nat)
    requires k <= |clips| && Meets(l, now, clips[k..])
    requires forall j :: 0 <= j < k ==> !Meets(l, now, clips[j..])
    ensures k == Excess(l, now, clips)
  {
    hide Excess, Meets;
    ExcessIsLeast(l, now, clips, k);
  }

  // ---------------------------------------------------------------------------
  // Oldest first
  // ---------------------------------------------------------------------------

  ghost predicate OldestFirst(clips: seq<Clip>) {
    forall i, j :: 0 <= i < j < |clips| ==> clips[i].mtime <= clips[j].mtime
  }

  function OfTime(clips: seq<Clip>, t: int): seq<Clip> {
    if clips == [] then []
    else (if clips[0].mtime == t then [clips[0]] else []) + OfTime(clips[1..], t)
  }

  function Insert(c: Clip, clips: seq<Clip>): seq<Clip> {
    if clips == [] || c.mtime <= clips[0].mtime then [c] + clips
    else [clips[0]] + Insert(c, clips[1..])
  }

  /** `sort_by_key` on the modification time: stable. */
  function SortByMtime(clips: seq<Clip>): seq<Clip> {
    if clips == [] then [] else Insert(clips[0], SortByMtime(clips[1..]))
  }

  lemma {:induction false} InsertPermutes(c: Clip, clips: seq<Clip>)
    ensures multiset(Insert(c, clips)) == multiset([c]) + multiset(clips)
    decreases |clips|
  {
    if !(clips == [] || c.mtime <= clips[0].mtime) {
      InsertPermutes(c, clips[1..]);
      assert clips == [clips[0]] + clips[1..];
    }
  }

  lemma {:induction false} InsertOrders(c: Clip, clips: seq<Clip>)
    requires OldestFirst(clips)
    ensures OldestFirst(Insert(c, clips))
    ensures Insert(c, clips) != []
         && Insert(c, clips)[0].mtime == if clips == [] then c.mtime else Min(c.mtime, clips[0].mtime)
    decreases |clips|
  {
    if clips == [] {
    } else if c.mtime <= clips[0].mtime {
      assert forall i :: 1 <= i <= |clips| ==> ([c] + clips)[i] == clips[i - 1];
    } else {
      var rest := clips[1..];
      InsertOrders(c, rest);
      OldestFirstCons(clips[0], Insert(c, rest));
    }
  }

  lemma OldestFirstCons(c: Clip, rest: seq<Clip>)
    requires OldestFirst(rest) && (rest != [] ==> c.mtime <= rest[0].mtime)
    ensures OldestFirst([c] + rest)
  {
    assert forall i :: 1 <= i <= |rest| ==> ([c] + rest)[i] == rest[i - 1];
  }

  lemma OfTimeCons(c: Clip, rest: seq<Clip>, t: int)
    ensures OfTime([c] + rest, t) == (if c.mtime == t then [c] else []) + OfTime(rest, t)
  {
    assert ([c] + rest)[1..] == rest;
  }

  lemma {:induction false} InsertIsStable(c: Clip, clips: seq<Clip>, t: int)
    ensures OfTime(Insert(c, clips), t) == (if c.mtime == t then [c] else []) + OfTime(clips, t)
    decreases |clips|
  {
    OfTimeCons(c, clips, t);
    if !(clips == [] || c.mtime <= clips[0].mtime) {
      InsertIsStable(c, clips[1..], t);
      OfTimeCons(clips[0], Insert(c, clips[1..]), t);
    }
  }

  /** Sorting permutes, orders by time, and leaves clips of the same time in their order. */
  lemma {:induction false} SortSorts(clips: seq<Clip>, t: int)
    ensures OldestFirst(SortByMtime(clips)) && multiset(SortByMtime(clips)) == multiset(clips)
    ensures OfTime(SortByMtime(clips), t) == OfTime(clips, t)
    decreases |clips|
  {
    hide Insert, OldestFirst;
    if clips == [] {
      EmptyIsSorted();
    } else {
      SortSorts(clips[1..], t);
      assert clips == [clips[0]] + clips[1..];
      InsertPermutes(clips[0], SortByMtime(clips[1..]));
      InsertOrders(clips[0], SortByMtime(clips[1..]));
      InsertIsStable(clips[0], SortByMtime(clips[1..]), t);
    }
  }

  lemma EmptyIsSorted()
    ensures OldestFirst([])
  {
  }

  // ---------------------------------------------------------------------------
  // The clean-up
  // ---------------------------------------------------------------------------

  lemma SortKeepsDistinct(clips: seq<Clip>)
    requires DistinctPaths(clips)
    ensures DistinctPaths(SortByMtime(clips))
  {
    var s := SortByMtime(clips);
    SortSorts(clips, 0);
    hide SortByMtime;
    forall i, j | 0 <= i < j < |s|
      ensures s[i].path != s[j].path
    {
      if s[i].path == s[j].path {
        assert s[i] in multiset(s) && s[j] in multiset(s);
        var a :| 0 <= a < |clips| && clips[a] == s[i];
        var b :| 0 <= b < |clips| && clips[b] == s[j];
        assert a == b;
        TwiceInList(s, i, j);
        OnceInList(clips, a);
      }
    }
  }

  lemma TwiceInList(s: seq<Clip>, i: nat, j: nat)
    requires i < j < |s| && s[i] == s[j]
    ensures multiset(s)[s[i]] >= 2
  {
    assert s == s[..i] + [s[i]] + s[i + 1..j] + [s[j]] + s[j + 1..];
  }

  lemma OnceInList(s: seq<Clip>, i: nat)
    requires i < |s| && DistinctPaths(s)
    ensures multiset(s)[s[i]] == 1
  {
    assert s == s[..i] + [s[i]] + s[i + 1..];
    assert s[i] !in s[..i] && s[i] !in s[i + 1..];
  }

  // What each of the three rules drops from a sorted list.

  function Old(cutoff: int, clips: seq<Clip>): (k: nat)
    ensures k <= |clips|
  {
    if clips == [] || cutoff <= clips[0].mtime then 0 else 1 + Old(cutoff, clips[1..])
  }

  lemma {:induction false} OldIs(cutoff: int, clips: seq<Clip>, i: nat)
    requires OldestFirst(clips) && i < |clips|
    ensures clips[i].mtime < cutoff <==> i < Old(cutoff, clips)
    decreases |clips|
  {
    if clips[0].mtime < cutoff && i > 0 {
      OldIs(cutoff, clips[1..], i - 1);
    }
  }

  lemma {:induction false} TotalFrom(clips: seq<Clip>, k: nat)
    requires k < |clips|
    ensures Total(clips[k..]) == clips[k].size + Total(clips[k + 1..])
  {
    assert clips[k..][1..] == clips[k + 1..];
  }

  ghost predicate TooBigBefore(maxBytes: nat, clips: seq<Clip>, k: nat)
    requires k <= |clips|
  {
    forall j :: 0 <= j < k ==> Total(clips[j..]) > maxBytes
  }

  ghost predicate TooBigBetween(l: Limits, sorted: seq<Clip>, b: nat, c: nat)
    requires b <= c <= |sorted|
  {
    forall j :: b <= j < c ==> !SmallEnough(l, sorted[j..])
  }

  /** Dropping `a` for their age, then up to `b` for their number, then up to `c` for their
      size is dropping the shortest prefix that helps. */
  lemma {:induction false} ThreeRules(l: Limits, now: int, sorted: seq<Clip>, a: nat, b: nat, c: nat)
    requires OldestFirst(sorted) && a <= b <= c <= |sorted|
    requires a == if l.maxAgeSecs.Some? then Old(now - l.maxAgeSecs.value, sorted) else 0
    requires b == if l.maxFiles.Some? then Max(a, |sorted| - l.maxFiles.value) else a
    requires SmallEnough(l, Rest(sorted, c)) && TooBigBetween(l, sorted, b, c)
    ensures c == Excess(l, now, sorted)
  {
    hide OldestFirst, Old, SmallEnough;
    forall j | 0 <= j < c
      ensures !Meets(l, now, sorted[j..])
    {
      if j < a {
        OldIs(now - l.maxAgeSecs.value, sorted, j);
        assert sorted[j..][0] == sorted[j];
      }
    }
    if l.maxAgeSecs.Some? {
      forall i | 0 <= i < |sorted| - c
        ensures now - l.maxAgeSecs.value <= sorted[c..][i].mtime
      {
        OldIs(now - l.maxAgeSecs.value, sorted, c + i);
      }
    }
    ExcessIs(l, now, sorted, c);
  }

  // ---------------------------------------------------------------------------
  // The clean-up
  // ---------------------------------------------------------------------------

  method MarkOlder(clips: seq<Clip>, cutoff: int) returns (toDelete: seq<string>)
    requires OldestFirst(clips)
    ensures toDelete == Paths(clips[..Old(cutoff, clips)])
  {
    hide OldestFirst, Old;
    toDelete := [];
    ghost var k := Old(cutoff, clips);
    for i := 0 to |clips|
      invariant toDelete == Paths(clips[..Min(i, k)])
    {
      OldIs(cutoff, clips, i);
      if clips[i].mtime < cutoff {
        toDelete := toDelete + [clips[i].path];
      }
    }
  }

  method RetainUnmarked(clips: seq<Clip>, marked: seq<string>, ghost k: nat) returns (kept: seq<Clip>)
    requires DistinctPaths(clips) && k <= |clips| && marked == Paths(clips[..k])
    ensures kept == clips[k..]
  {
    kept := [];
    for i := 0 to |clips|
      invariant kept == clips[k..Max(i, k)]
    {
      if i < k {
        assert marked[i] == clips[i].path;
      }
      if clips[i].path !in marked {
        kept := kept + [clips[i]];
      }
    }
  }

  method MarkFirst(clips: seq<Clip>, n: nat) returns (paths: seq<string>)
    requires n <= |clips|
    ensures paths == Paths(clips[..n])
  {
    paths := [];
    for i := 0 to n
      invariant paths == Paths(clips[..i])
    {
      paths := paths + [clips[i].path];
    }
  }

  method SumSizes(clips: seq<Clip>) returns (total: nat)
    ensures total == Total(clips)
  {
    total := 0;
    assert clips[0..] == clips;
    for i := 0 to |clips|
      invariant total + Total(clips[i..]) == Total(clips)
    {
      TotalFrom(clips, i);
      total := total + clips[i].size;
    }
  }

  /** The size rule.  The running size never drops below zero. */
  method MarkUntilSmall(clips: seq<Clip>, maxBytes: nat) returns (paths: seq<string>, ghost k: nat)
    ensures k <= |clips| && paths == Oldest(clips, k)
    ensures Total(Rest(clips, k)) <= maxBytes && TooBigBefore(maxBytes, clips, k)
  {
    hide Total;
    assert clips[|clips|..] == [];
    NothingIsSmall();
    paths := [];
    k := 0;
    assert clips[0..] == clips;
    var totalSize := SumSizes(clips);
    if totalSize > maxBytes {
      var currentSize := totalSize;
      var i := 0;
      while i < |clips|
        invariant i <= |clips| && paths == Paths(clips[..i])
        invariant currentSize == Total(clips[i..])
        invariant forall j :: 0 <= j < i ==> Total(clips[j..]) > maxBytes
      {
        if currentSize <= maxBytes {
          break;
        }
        TotalFrom(clips, i);
        paths := paths + [clips[i].path];
        currentSize := currentSize - clips[i].size;
        i := i + 1;
      }
      k := i;
    }
  }

  lemma DropMore(sorted: seq<Clip>, k: nat, n: nat)
    requires k + n <= |sorted|
    ensures Oldest(sorted, k) + Oldest(Rest(sorted, k), n) == Oldest(sorted, k + n)
    ensures Rest(Rest(sorted, k), n) == Rest(sorted, k + n)
  {
  }

  lemma SizeRule(l: Limits, sorted: seq<Clip>, b: nat, k: nat)
    requires b + k <= |sorted| && l.maxTotalBytes.Some?
    requires Total(Rest(Rest(sorted, b), k)) <= l.maxTotalBytes.value
    requires TooBigBefore(l.maxTotalBytes.value, Rest(sorted, b), k)
    ensures SmallEnough(l, Rest(sorted, b + k)) && TooBigBetween(l, sorted, b, b + k)
  {
    assert sorted[b..][k..] == sorted[b + k..];
    forall j | b <= j < b + k
      ensures !SmallEnough(l, sorted[j..])
    {
      assert sorted[j..] == sorted[b..][j - b..];
    }
  }

  lemma NoSizeRule(l: Limits, sorted: seq<Clip>, b: nat)
    requires l.maxTotalBytes.None? && b <= |sorted|
    ensures SmallEnough(l, Rest(sorted, b)) && TooBigBetween(l, sorted, b, b)
  {
  }

  /** The age rule. */
  method MarkByAge(clips: seq<Clip>, l: Limits, now: int) returns (marked: seq<string>, kept: seq<Clip>, ghost a: nat)
    requires OldestFirst(clips) && DistinctPaths(clips)
    ensures a == if l.maxAgeSecs.Some? then Old(now - l.maxAgeSecs.value, clips) else 0
    ensures a <= |clips| && marked == Oldest(clips, a) && kept == Rest(clips, a)
  {
    hide OldestFirst, DistinctPaths, Old;
    marked, a := [], 0;
    if l.maxAgeSecs.Some? {
      var cutoff := now - l.maxAgeSecs.value;
      marked := MarkOlder(clips, cutoff);
      a := Old(cutoff, clips);
    }
    kept := RetainUnmarked(clips, marked, a);
  }

  /** The count rule. */
  method MarkByCount(clips: seq<Clip>, l: Limits) returns (marked: seq<string>, kept: seq<Clip>, ghost n: nat)
    ensures n == if l.maxFiles.Some? then Max(0, |clips| - l.maxFiles.value) else 0
    ensures n <= |clips| && marked == Oldest(clips, n) && kept == Rest(clips, n)
  {
    marked, kept, n := [], clips, 0;
    if l.maxFiles.Some? && |clips| > l.maxFiles.value {
      var excess := |clips| - l.maxFiles.value;
      marked := MarkFirst(clips, excess);
      kept := clips[excess..];
      n := excess;
    }
  }

  /** `cleanup_old_clips`, up to the list of what to delete: the paths of exactly the
      shortest oldest-first prefix without which every configured limit is met. */
  method ClipsToDelete(listed: seq<Clip>, l: Limits, now: int) returns (toDelete: seq<string>)
    requires DistinctPaths(listed)
    ensures
      var sorted := SortByMtime(listed);
      toDelete == Oldest(sorted, Excess(l, now, sorted))
  {
    hide *;
    if listed == [] {
      NothingToSort(l, now);
      return [];
    }
    var sorted := SortByMtime(listed);
    SortSorts(listed, 0);
    SortKeepsDistinct(listed);
    var aged, clips, a := MarkByAge(sorted, l, now);
    var counted, rest, n := MarkByCount(clips, l);
    DropMore(sorted, a, n);
    AgeThenCount(l, |sorted|, a, n);
    toDelete := aged + counted;
    ghost var c := a + n;
    if l.maxTotalBytes.Some? {
      var sized, k := MarkUntilSmall(rest, l.maxTotalBytes.value);
      DropMore(sorted, a + n, k);
      SizeRule(l, sorted, a + n, k);
      toDelete := toDelete + sized;
      c := a + n + k;
    } else {
      NoSizeRule(l, sorted, a + n);
    }
    ThreeRules(l, now, sorted, a, a + n, c);
  }

  lemma AgeThenCount(l: Limits, total: nat, a: nat, n: nat)
    requires a <= total
    requires n == if l.maxFiles.Some? then Max(0, total - a - l.maxFiles.value) else 0
    ensures a + n == if l.maxFiles.Some? then Max(a, total - l.maxFiles.value) else a
  {
  }

  lemma NothingToSort(l: Limits, now: int)
    ensures Oldest(SortByMtime([]), Excess(l, now, SortByMtime([]))) == []
  {
  }

  lemma NothingIsSmall()
    ensures Total([]) == 0
  {
  }

  /** Whatever is deleted is at most as new as whatever stays. */
  lemma OldestGoFirst(listed: seq<Clip>, l: Limits, now: int, i: nat, j: nat)
    requires i < Excess(l, now, SortByMtime(listed)) <= j < |listed|
    ensures |SortByMtime(listed)| == |listed| && SortByMtime(listed)[i].mtime <= SortByMtime(listed)[j].mtime
  {
    hide Excess, SortByMtime;
    SortSorts(listed, 0);
    assert |multiset(listed)| == |listed| && |multiset(SortByMtime(listed))| == |SortByMtime(listed)|;
  }
}
