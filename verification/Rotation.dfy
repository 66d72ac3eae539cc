/** When segments end: rotation waits for the first IDR at or after the target duration, and
    does happen there.
 */
module Rotation {
  import opened Prelude
  import opened Rtp
  import opened TsMux
  import opened Assembly
  import opened Manifest
  import opened Live

  // ---------------------------------------------------------------------------
  // Rotation happens
  // ---------------------------------------------------------------------------

  /** Within a segment, no access unit but the first holds an IDR that was delivered at or
      after the target. */
  ghost predicate Timed(cfg: Config, startedAt: nat, aus: seq<AccessUnit>, deliveredAt: seq<nat>) {
    && |deliveredAt| == |aus| && (aus != [] ==> deliveredAt[0] == startedAt)
    && forall i :: 1 <= i < |aus| && aus[i].hasIdr ==> Elapsed(startedAt, deliveredAt[i]) < 1000 * TargetSecs(cfg)
  }

  ghost predicate TimedSegment(cfg: Config, s: Segment) {
    && Timed(cfg, s.startedAt, s.aus, s.deliveredAt)
    && s.durationMs == Max(Elapsed(s.startedAt, s.closedAt), 1)
  }

  /** A segment that rotation closed has reached the target, and ended when the access unit
      was delivered that starts the next segment. */
  ghost predicate RotatedInto(cfg: Config, s: Segment, nextStart: nat) {
    !s.cut ==> s.closedAt == nextStart && Elapsed(s.startedAt, s.closedAt) >= 1000 * TargetSecs(cfg)
  }

  ghost predicate TimedSegments(cfg: Config, published: seq<Segment>) {
    && (forall i :: 0 <= i < |published| ==> TimedSegment(cfg, published[i]))
    && forall i :: 0 <= i < |published| - 1 ==> RotatedInto(cfg, published[i], published[i + 1].startedAt)
  }

  ghost predicate TimedPublication(cfg: Config, p: Publication) {
    && TimedSegments(cfg, p.published)
    && (p.segment.Some? ==>
         var o := p.segment.value;
         && Timed(cfg, o.startedAt, o.aus, o.deliveredAt)
         && (p.published != [] ==> RotatedInto(cfg, p.published[|p.published| - 1], o.startedAt)))
  }

  lemma TimedSnoc(cfg: Config, published: seq<Segment>, s: Segment)
    requires TimedSegments(cfg, published) && TimedSegment(cfg, s)
    requires published != [] ==> RotatedInto(cfg, published[|published| - 1], s.startedAt)
    ensures TimedSegments(cfg, published + [s])
  {
    hide TimedSegment, RotatedInto;
  }

  lemma FinalizeKeepsTimed(cfg: Config, p: Publication, now: nat, cut: bool)
    requires TimedPublication(cfg, p)
    ensures TimedPublication(cfg, Finalize(p, now, cut))
  {
    hide TimedSegments;
    if PublishesSegment(p) {
      TimedSnoc(cfg, p.published, Close(p.segment.value, now, cut));
    }
  }

  lemma DiscontinuityKeepsTimed(cfg: Config, p: Publication, now: nat)
    requires TimedPublication(cfg, p)
    ensures TimedPublication(cfg, HandleDiscontinuity(p, now))
  {
    hide TimedPublication, Finalize;
    FinalizeKeepsTimed(cfg, p, now, true);
    FlagsDoNotMatter(cfg, Finalize(p, now, true), p.discontinuityCount + 1);
  }

  lemma FlagsDoNotMatter(cfg: Config, p: Publication, count: nat)
    requires TimedPublication(cfg, p)
    ensures TimedPublication(cfg, p.(pendingDiscontinuity := true, discontinuityCount := count))
  {
  }

  lemma DeliverKeepsTimed(cfg: Config, p: Publication, au: AccessUnit, now: nat)
    requires GoodPublication(p) && TimedPublication(cfg, p)
    ensures TimedPublication(cfg, Deliver(cfg, p, au, now))
  {
    hide TimedSegments, GoodSegments, LastUncut, TargetSecs;
    if ShouldRotate(cfg, p.segment, au, now) {
      TimedSnoc(cfg, p.published, Close(p.segment.value, now, false));
    } else if p.segment.Some? {
      var o := p.segment.value;
      assert forall i :: 0 <= i < |o.aus| ==>
        (o.aus + [au])[i] == o.aus[i] && (o.deliveredAt + [now])[i] == o.deliveredAt[i];
    }
  }

  lemma StepKeepsTimed(cfg: Config, s: State, e: Event)
    requires Good(s) && TimedPublication(cfg, s.pub)
    ensures TimedPublication(cfg, Step(cfg, s, e).pub)
  {
    hide TimedPublication, GoodPublication, Feed, Decode, Start, HandleDiscontinuity, Deliver, Valid, NextSeq;
    DiscontinuityKeepsTimed(cfg, s.pub, e.now);
    if e.msg.RtpMsg? && Decode(e.msg.bytes).Ok? {
      var pkt := Decode(e.msg.bytes).value;
      PacketKeepsGood(cfg, s, pkt, e.now);
      var t := Resume(s, pkt, e.now);
      var fed := Feed(t.asm, pkt);
      if fed.Failed? {
        DiscontinuityKeepsTimed(cfg, t.pub, e.now);
      } else if fed.au.Some? {
        DeliverKeepsTimed(cfg, t.pub, fed.au.value, e.now);
      }
    }
  }

  /** On every run, rotation neither comes early nor fails to come: in the open segment and in
      each published one, an IDR at or after the target has started the next segment. */
  lemma {:induction false} RunIsTimed(cfg: Config, events: seq<Event>)
    ensures TimedPublication(cfg, Run(cfg, events).pub)
  {
    if events != [] {
      hide Step, TimedPublication, Good;
      var n := |events| - 1;
      RunIsTimed(cfg, events[..n]);
      RunIsGood(cfg, events[..n]);
      StepKeepsTimed(cfg, Run(cfg, events[..n]), events[n]);
    }
  }

  lemma {:induction false} SessionIsTimed(cfg: Config, events: seq<Event>, end: nat)
    ensures TimedSegments(cfg, Session(cfg, events, end).published)
  {
    hide Run, TimedSegments, Finalize;
    RunIsTimed(cfg, events);
    FinalizeKeepsTimed(cfg, Run(cfg, events).pub, end, false);
  }

  // ---------------------------------------------------------------------------
  // How long a segment gets
  // ---------------------------------------------------------------------------

  lemma ElapsedInParts(a: nat, b: nat, c: nat)
    ensures Elapsed(a, c) <= Elapsed(a, b) + Elapsed(b, c)
  {
  }

  /** A segment that rotation closed has at least the target duration, and is longer by less
      than the wait from its last IDR to the IDR that starts the next segment. */
  lemma {:induction false} RotatedDuration(cfg: Config, events: seq<Event>, end: nat, i: nat, j: nat)
    requires
      var published := Session(cfg, events, end).published;
      && i + 1 < |published| && !published[i].cut && j < |published[i].aus| && published[i].aus[j].hasIdr
    ensures
      var published := Session(cfg, events, end).published;
      var s, next := published[i], published[i + 1];
      && |s.deliveredAt| == |s.aus| && next.aus != [] && next.aus[0].hasIdr
      && next.deliveredAt != [] && next.deliveredAt[0] == s.closedAt
      && 1000 * TargetSecs(cfg) <= s.durationMs == Elapsed(s.startedAt, s.closedAt)
      && s.durationMs < 1000 * TargetSecs(cfg) + Elapsed(s.deliveredAt[j], next.deliveredAt[0])
  {
    hide Session, TargetSecs, LastUncut;
    SessionIsTimed(cfg, events, end);
    SessionIsGood(cfg, events, end);
    var published := Session(cfg, events, end).published;
    var s, next := published[i], published[i + 1];
    assert GoodSegment(published, i + 1) && TimedSegment(cfg, next) && TimedSegment(cfg, s);
    assert RotatedInto(cfg, s, next.startedAt);
    TargetIsPositive(cfg);
    ElapsedInParts(s.startedAt, s.deliveredAt[j], s.closedAt);
  }

  lemma TargetIsPositive(cfg: Config)
    ensures 1 <= TargetSecs(cfg)
  {
  }

  /** Two access units with an IDR, `wait` milliseconds apart. */
  lemma TwoIdrs(cfg: Config, first: AccessUnit, second: AccessUnit, wait: nat)
    requires first.hasIdr && second.hasIdr && 1000 * TargetSecs(cfg) <= wait
    ensures
      var p := Deliver(cfg, Deliver(cfg, NEW_PUBLICATION, first, 0), second, wait);
      |p.published| == 1 && p.published[0].durationMs == wait && !p.published[0].cut
  {
    var p := Deliver(cfg, NEW_PUBLICATION, first, 0);
    assert p.segment.Some? && p.segment.value.aus == [first] && p.segment.value.startedAt == 0;
    TargetIsPositive(cfg);
    hide TargetSecs;
    assert ShouldRotate(cfg, p.segment, second, wait);
  }

  /** Segments that rotation closed are at least as long as the target. */
  ghost predicate LongWhenRotated(cfg: Config, published: seq<Segment>) {
    forall i :: 0 <= i < |published| && !published[i].cut ==> published[i].durationMs >= 1000 * TargetSecs(cfg)
  }

  lemma {:induction false} RunKeepsLong(cfg: Config, events: seq<Event>)
    ensures LongWhenRotated(cfg, Run(cfg, events).pub.published)
  {
    hide Run, TargetSecs, GoodSegments, LastUncut;
    RunIsTimed(cfg, events);
    RunIsGood(cfg, events);
    var p := Run(cfg, events).pub;
    forall i | 0 <= i < |p.published| && !p.published[i].cut
      ensures p.published[i].durationMs >= 1000 * TargetSecs(cfg)
    {
      assert TimedSegment(cfg, p.published[i]);
      if i < |p.published| - 1 {
        assert RotatedInto(cfg, p.published[i], p.published[i + 1].startedAt);
      }
    }
  }

  // ---------------------------------------------------------------------------
  // What a full window spans
  // ---------------------------------------------------------------------------

  function TotalMs(entries: seq<SegmentEntry>): nat {
    if entries == [] then 0 else TotalMs(entries[..|entries| - 1]) + entries[|entries| - 1].durationMs
  }

  lemma {:induction false} TotalAtLeast(entries: seq<SegmentEntry>, each: nat)
    requires forall i :: 0 <= i < |entries| ==> entries[i].durationMs >= each
    ensures TotalMs(entries) >= |entries| * each
  {
    if entries != [] {
      var n := |entries| - 1;
      TotalAtLeast(entries[..n], each);
      assert |entries| * each == n * each + each;
    }
  }

  lemma CeilingCovers(w: nat, t: nat)
    requires 0 < t
    ensures (w + t - 1) / t * t >= w
  {
    var q := (w + t - 1) / t;
    assert w + t - 1 == q * t + (w + t - 1) % t;
  }

  /** A full window of segments that rotation closed spans at least the configured window and
      one target duration more. */
  lemma {:induction false} FullWindowSpans(cfg: Config, events: seq<Event>)
    requires
      var shown := Suffix(Run(cfg, events).pub.published, MaxSegments(cfg));
      |shown| == MaxSegments(cfg) && forall i :: 0 <= i < |shown| ==> !shown[i].cut
    ensures TotalMs(Window(cfg, Run(cfg, events).pub.published)) >= 1000 * (cfg.windowSecs + TargetSecs(cfg))
  {
    var published := Run(cfg, events).pub.published;
    RunKeepsLong(cfg, events);
    var shown := Suffix(published, MaxSegments(cfg));
    var k := |published| - |shown|;
    assert shown == published[k..];
    assert forall i :: k <= i < |published| ==> published[i] == shown[i - k];
    ShownAreLong(cfg, published, k);
    hide MaxSegments, TargetSecs, TotalMs, Entries, Run;
    TotalAtLeast(Window(cfg, published), 1000 * TargetSecs(cfg));
    WindowArithmetic(cfg);
  }

  lemma ShownAreLong(cfg: Config, published: seq<Segment>, k: nat)
    requires k <= |published| && LongWhenRotated(cfg, published)
    requires forall i :: k <= i < |published| ==> !published[i].cut
    ensures forall i :: 0 <= i < |published| - k ==>
      Entries(published[k..])[i].durationMs >= 1000 * TargetSecs(cfg)
  {
    hide TargetSecs;
    forall i | 0 <= i < |published| - k
      ensures Entries(published[k..])[i].durationMs >= 1000 * TargetSecs(cfg)
    {
      assert published[k..][i] == published[k + i];
    }
  }

  lemma WindowArithmetic(cfg: Config)
    ensures MaxSegments(cfg) * (1000 * TargetSecs(cfg)) >= 1000 * (cfg.windowSecs + TargetSecs(cfg))
  {
    var t := TargetSecs(cfg);
    var w := Max(cfg.windowSecs, t);
    CeilingCovers(w, t);
    var c := (w + t - 1) / t;
    Scale(MaxSegments(cfg), c, t, w);
    assert 1000 * (w + t) >= 1000 * (cfg.windowSecs + t);
  }

  lemma {:induction false} Scale(m: nat, c: nat, t: nat, w: nat)
    requires m >= c + 1 && c * t >= w
    ensures m * (1000 * t) >= 1000 * (w + t)
  {
    var d := m - (c + 1);
    assert m * t == (c + 1 + d) * t == c * t + t + d * t;
    assert d * t >= 0;
    assert m * (1000 * t) == 1000 * (m * t);
  }
}
