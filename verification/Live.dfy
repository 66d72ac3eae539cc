/** The live pipeline, `run_stream_v2`, as a step function over its variables, and what
    every step keeps.  File-system calls are taken to succeed here; LivePipeline runs the
    same steps against a directory in which each call may fail.
 */
module Live {
  import opened Prelude
  import opened Annexb
  import opened Rtp
  import opened SyncGate
  import opened TsMux
  import opened Assembly
  import opened Manifest

  datatype Config = Config(segmentSecs: nat, windowSecs: nat, seed: Option<(Bytes, Bytes)>)

  /** One message of the channel. */
  datatype Msg = RtpMsg(bytes: Bytes) | Gap | Motion

  /** A message and the clock, in milliseconds, when it is handled. */
  datatype Event = Event(msg: Msg, now: nat)

  // ---------------------------------------------------------------------------
  // Segments
  // ---------------------------------------------------------------------------

  /** A segment under construction, with the time at which each access unit was delivered. */
  datatype OpenSegment = OpenSegment(
    seqNo: nat,
    startedAt: nat,
    aus: seq<AccessUnit>,
    deliveredAt: seq<nat>,
    discontinuity: bool)

  /** A segment that has been published; `cut` when `handle_discontinuity` closed it. */
  datatype Segment = Segment(
    seqNo: nat,
    aus: seq<AccessUnit>,
    durationMs: nat,
    discontinuity: bool,
    cut: bool,
    startedAt: nat,
    deliveredAt: seq<nat>,
    closedAt: nat)
  {
    function Entry(): SegmentEntry {
      SegmentEntry(seqNo, durationMs, discontinuity)
    }
  }

  datatype Pointer = Ready(lastSegmentSeq: nat) | Stopped(lastSegmentSeq: nat)

  /** The publishing half of the loop variables, with all segments ever published. */
  datatype Publication = Publication(
    nextSeq: nat,
    segment: Option<OpenSegment>,
    pendingDiscontinuity: bool,
    discontinuityCount: nat,
    latestSeq: nat,
    published: seq<Segment>,
    pointer: Option<Pointer>)

  const NEW_PUBLICATION := Publication(1, None, false, 0, 0, [], None)

  function TargetSecs(cfg: Config): nat {
    Max(cfg.segmentSecs, 1)
  }

  /** How many entries the playlist window holds. */
  function MaxSegments(cfg: Config): nat {
    WindowSize(TargetSecs(cfg), cfg.windowSecs)
  }

  function WindowSize(target: nat, windowSecs: nat): nat
    requires 1 <= target
  {
    Max((Max(windowSecs, target) + target - 1) / target + 1, 3)
  }

  predicate ShouldRotate(cfg: Config, segment: Option<OpenSegment>, au: AccessUnit, now: nat) {
    segment.Some? && segment.value.aus != []
    && Elapsed(segment.value.startedAt, now) >= 1000 * TargetSecs(cfg) && au.hasIdr
  }

  function Close(o: OpenSegment, now: nat, cut: bool): Segment {
    Segment(o.seqNo, o.aus, Max(Elapsed(o.startedAt, now), 1), o.discontinuity, cut, o.startedAt, o.deliveredAt, now)
  }

  /** `finalize_segment`. */
  function Finalize(p: Publication, now: nat, cut: bool): Publication {
    if p.segment.None? then p
    else if p.segment.value.aus == [] then p.(segment := None)
    else
      var o := p.segment.value;
      p.(segment := None, latestSeq := o.seqNo, published := p.published + [Close(o, now, cut)])
  }

  /** `handle_discontinuity`. */
  function HandleDiscontinuity(p: Publication, now: nat): Publication {
    var saw := p.latestSeq > 0 || p.segment.Some?;
    var q := Finalize(p, now, true);
    if saw then q.(pendingDiscontinuity := true, discontinuityCount := p.discontinuityCount + 1) else q
  }

  function PublishesSegment(p: Publication): bool {
    p.segment.Some? && p.segment.value.aus != []
  }

  /** The rotation in front of an access unit. */
  function Rotate(cfg: Config, p: Publication, au: AccessUnit, now: nat): Publication {
    if !ShouldRotate(cfg, p.segment, au, now) then p
    else
      var q := Finalize(p, now, false);
      q.(pointer := Some(Ready(q.latestSeq)))
  }

  /** `open_segment`. */
  function OpenNew(p: Publication, now: nat): Publication {
    p.(nextSeq := p.nextSeq + 1,
       segment := Some(OpenSegment(p.nextSeq, now, [], [], p.pendingDiscontinuity)),
       pendingDiscontinuity := false)
  }

  function Write(p: Publication, au: AccessUnit, now: nat): Publication
    requires p.segment.Some?
  {
    var o := p.segment.value;
    p.(segment := Some(o.(aus := o.aus + [au], deliveredAt := o.deliveredAt + [now])),
       pendingDiscontinuity := if au.hasIdr && p.latestSeq > 0 then false else p.pendingDiscontinuity)
  }

  /** A completed access unit: rotate, open, write. */
  function Deliver(cfg: Config, p: Publication, au: AccessUnit, now: nat): Publication {
    var q := Rotate(cfg, p, au, now);
    if q.segment.Some? then Write(q, au, now)
    else if !au.hasIdr then q
    else Write(OpenNew(q, now), au, now)
  }

  /** What follows the loop: the last segment, and the stopped pointer when there was output. */
  function Finish(p: Publication, now: nat): Publication {
    var q := Finalize(p, now, false);
    if q.latestSeq > 0 then q.(pointer := Some(Stopped(q.latestSeq))) else q
  }

  // ---------------------------------------------------------------------------
  // The step
  // ---------------------------------------------------------------------------

  datatype State = State(expectedSeq: Option<u16>, asm: Assembly, pub: Publication)

  function SeedGate(cfg: Config): Gate {
    var g := NewGate(true);
    if cfg.seed.Some? then g.(sps := Some(cfg.seed.value.0), pps := Some(cfg.seed.value.1)) else g
  }

  function Initial(cfg: Config): State {
    State(None, Start(SeedGate(cfg)), NEW_PUBLICATION)
  }

  /** A discontinuity: the segment is closed and everything half-assembled is dropped. */
  function Interrupt(s: State, now: nat): State {
    State(None, Start(s.asm.gate), HandleDiscontinuity(s.pub, now))
  }

  /** A packet that is not the expected one interrupts first. */
  function Resume(s: State, pkt: RtpPacket, now: nat): State {
    var lost := s.expectedSeq.Some? && s.expectedSeq.value != pkt.sequenceNumber;
    if lost then Interrupt(s, now) else s
  }

  function Absorb(cfg: Config, s: State, pkt: RtpPacket, now: nat): State {
    match Feed(s.asm, pkt)
    case Failed => Interrupt(s, now)
    case Went(asm, au) =>
      State(Some(NextSeq(pkt.sequenceNumber)), asm, if au.Some? then Deliver(cfg, s.pub, au.value, now) else s.pub)
  }

  function StepPacket(cfg: Config, s: State, pkt: RtpPacket, now: nat): State {
    Absorb(cfg, Resume(s, pkt, now), pkt, now)
  }

  function Step(cfg: Config, s: State, e: Event): State {
    match e.msg
    case Gap => Interrupt(s, e.now)
    case Motion => s
    case RtpMsg(bytes) =>
      match Decode(bytes)
      case Err(_) => Interrupt(s, e.now)
      case Ok(pkt) => StepPacket(cfg, s, pkt, e.now)
  }

  /** All messages of a run, up to the closing of the channel. */
  function Run(cfg: Config, events: seq<Event>): State {
    if events == [] then Initial(cfg)
    else Step(cfg, Run(cfg, events[..|events| - 1]), events[|events| - 1])
  }

  /** The whole session. */
  function Session(cfg: Config, events: seq<Event>, end: nat): Publication {
    Finish(Run(cfg, events).pub, end)
  }

  // ---------------------------------------------------------------------------
  // What every step keeps
  // ---------------------------------------------------------------------------

  /** The last segment that was closed by rotation or at the end. */
  function LastUncut(published: seq<Segment>): nat {
    if published == [] then 0
    else
      var last := published[|published| - 1];
      if !last.cut then |published| else LastUncut(published[..|published| - 1])
  }

  /** Numbers run from 1 without a hole; every segment starts with an access unit that holds
      an IDR; and a segment is tagged exactly when its predecessor was cut. */
  ghost predicate GoodSegments(published: seq<Segment>) {
    forall i :: 0 <= i < |published| ==> GoodSegment(published, i)
  }

  ghost predicate GoodSegment(published: seq<Segment>, i: nat)
    requires i < |published|
  {
    var s := published[i];
    && s.seqNo == i + 1 && s.aus != [] && s.aus[0].hasIdr && AllTold(s.aus) && s.durationMs >= 1
    && (s.discontinuity <==> i > 0 && published[i - 1].cut)
  }

  ghost predicate AfterCut(published: seq<Segment>) {
    published != [] && published[|published| - 1].cut
  }

  /** The publishing variables between two steps. */
  ghost predicate GoodPublication(p: Publication) {
    && GoodSegments(p.published)
    && p.latestSeq == |p.published|
    && (p.pendingDiscontinuity <==> p.segment.None? && p.published != [])
    && (p.segment.None? ==> p.nextSeq == |p.published| + 1 && (p.published != [] ==> AfterCut(p.published)))
    && (p.segment.Some? ==> GoodOpen(p))
    && (p.pointer.Some? <==> LastUncut(p.published) > 0)
    && (p.pointer.Some? ==> p.pointer.value == Ready(LastUncut(p.published)))
  }

  ghost predicate GoodOpen(p: Publication)
    requires p.segment.Some?
  {
    var o := p.segment.value;
    && p.nextSeq == |p.published| + 2 && o.seqNo == |p.published| + 1
    && o.aus != [] && o.aus[0].hasIdr && AllTold(o.aus)
    && (o.discontinuity <==> AfterCut(p.published))
  }

  /** All variables between two steps. */
  ghost predicate Good(s: State) {
    && Valid(s.asm)
    && GoodPublication(s.pub)
    && (s.expectedSeq.None? ==> s.asm == Start(s.asm.gate))
    && (s.asm.gate.synced ==> s.pub.segment.Some? || HasIdr(s.asm.nals))
  }

  lemma LastUncutBound(published: seq<Segment>)
    ensures LastUncut(published) <= |published|
  {
  }

  lemma LastUncutSnoc(published: seq<Segment>, s: Segment)
    ensures LastUncut(published + [s]) == if s.cut then LastUncut(published) else |published| + 1
  {
    assert (published + [s])[..|published|] == published;
  }

  lemma GoodSegmentsSnoc(published: seq<Segment>, s: Segment)
    requires GoodSegments(published) && GoodSegment(published + [s], |published|)
    ensures GoodSegments(published + [s])
  {
    forall i | 0 <= i < |published| + 1
      ensures GoodSegment(published + [s], i)
    {
      if i < |published| {
        assert GoodSegment(published, i);
      }
    }
  }

  /** Closing the open segment keeps the list of segments good. */
  lemma CloseKeepsGood(p: Publication, now: nat, cut: bool)
    requires GoodPublication(p) && p.segment.Some?
    ensures
      var q := Finalize(p, now, cut);
      && q.published == p.published + [Close(p.segment.value, now, cut)]
      && GoodSegments(q.published) && q.latestSeq == |q.published| && q.nextSeq == |q.published| + 1
      && (AfterCut(q.published) <==> cut)
      && LastUncut(q.published) == (if cut then LastUncut(p.published) else |q.published|)
  {
    var s := Close(p.segment.value, now, cut);
    LastUncutSnoc(p.published, s);
    assert (p.published + [s])[|p.published|] == s;
    GoodSegmentsSnoc(p.published, s);
  }

  lemma DiscontinuityKeepsGood(p: Publication, now: nat)
    requires GoodPublication(p)
    ensures GoodPublication(HandleDiscontinuity(p, now))
  {
    hide GoodSegments, LastUncut;
    if p.segment.Some? {
      CloseKeepsGood(p, now, true);
    }
  }

  /** An access unit is dropped only when no segment is open and it holds no IDR; the reset
      of the pending flag behind the write never changes it. */
  lemma DeliverKeepsGood(cfg: Config, p: Publication, au: AccessUnit, now: nat)
    requires GoodPublication(p) && (p.segment.Some? || au.hasIdr) && Told(au)
    ensures GoodPublication(Deliver(cfg, p, au, now)) && Deliver(cfg, p, au, now).segment.Some?
    ensures
      var q := Rotate(cfg, p, au, now);
      var w := if q.segment.Some? then q else OpenNew(q, now);
      Deliver(cfg, p, au, now).pendingDiscontinuity == w.pendingDiscontinuity == false
  {
    hide GoodSegments, LastUncut;
    if ShouldRotate(cfg, p.segment, au, now) {
      CloseKeepsGood(p, now, false);
      var q := Finalize(p, now, false);
      assert !AfterCut(q.published);
    }
  }

  lemma InterruptKeepsGood(s: State, now: nat)
    requires Good(s)
    ensures Good(Interrupt(s, now))
  {
    DiscontinuityKeepsGood(s.pub, now);
  }

  lemma PacketKeepsGood(cfg: Config, s: State, pkt: RtpPacket, now: nat)
    requires Good(s)
    ensures Good(StepPacket(cfg, s, pkt, now))
    ensures
      var lost := s.expectedSeq.Some? && s.expectedSeq.value != pkt.sequenceNumber;
      var t := if lost then Interrupt(s, now) else s;
      var fed := Feed(t.asm, pkt);
      && Good(t)
      && (fed.Went? && fed.au.Some? ==> Told(fed.au.value) && (t.pub.segment.Some? || fed.au.value.hasIdr))
  {
    var lost := s.expectedSeq.Some? && s.expectedSeq.value != pkt.sequenceNumber;
    var t := if lost then Interrupt(s, now) else s;
    if lost {
      InterruptKeepsGood(s, now);
    }
    hide Feed, GoodPublication, Deliver, HandleDiscontinuity;
    var fed := Feed(t.asm, pkt);
    if fed.Failed? {
      InterruptKeepsGood(t, now);
    } else {
      FeedKeepsValid(t.asm, pkt);
      if fed.au.Some? {
        DeliverKeepsGood(cfg, t.pub, fed.au.value, now);
      }
    }
  }

  lemma {:induction false} StepKeepsGood(cfg: Config, s: State, e: Event)
    requires Good(s)
    ensures Good(Step(cfg, s, e))
  {
    hide Good, Interrupt, StepPacket;
    InterruptKeepsGood(s, e.now);
    if e.msg.RtpMsg? && Decode(e.msg.bytes).Ok? {
      PacketKeepsGood(cfg, s, Decode(e.msg.bytes).value, e.now);
    }
  }

  /** Every reachable state is good. */
  lemma {:induction false} RunIsGood(cfg: Config, events: seq<Event>)
    ensures Good(Run(cfg, events))
  {
    if events != [] {
      hide Good, Step;
      RunIsGood(cfg, events[..|events| - 1]);
      StepKeepsGood(cfg, Run(cfg, events[..|events| - 1]), events[|events| - 1]);
    }
  }

  /** The flag of every access unit tells whether one of its NAL units is an IDR slice, and one
      of the first access unit of each segment is. */
  lemma {:induction false} SegmentsStartWithIdr(cfg: Config, events: seq<Event>)
    ensures
      var p := Run(cfg, events).pub;
      && (forall i :: 0 <= i < |p.published| ==>
           AllTold(p.published[i].aus) && p.published[i].aus != [] && HoldsIdr(p.published[i].aus[0]))
      && (p.segment.Some? ==>
           AllTold(p.segment.value.aus) && p.segment.value.aus != [] && HoldsIdr(p.segment.value.aus[0]))
  {
    hide Run, HoldsIdr, LastUncut;
    RunIsGood(cfg, events);
    var p := Run(cfg, events).pub;
    forall i | 0 <= i < |p.published|
      ensures AllTold(p.published[i].aus) && p.published[i].aus != [] && HoldsIdr(p.published[i].aus[0])
    {
      assert GoodSegment(p.published, i);
    }
  }

  /** After a whole session: the segments are good, all of them have been published, and
      `current.json` holds that the session stopped at exactly the last one. */
  lemma SessionIsGood(cfg: Config, events: seq<Event>, end: nat)
    ensures
      var p := Session(cfg, events, end);
      && GoodSegments(p.published) && p.segment.None? && p.latestSeq == |p.published|
      && p.pointer == if p.published == [] then None else Some(Stopped(|p.published|))
  {
    RunIsGood(cfg, events);
    var p := Run(cfg, events).pub;
    hide GoodSegments, LastUncut;
    if p.segment.Some? {
      CloseKeepsGood(p, end, false);
    } else {
      LastUncutBound(p.published);
    }
  }

  // ---------------------------------------------------------------------------
  // The sliding window
  // ---------------------------------------------------------------------------

  /** The last `n` elements. */
  function Suffix<T>(s: seq<T>, n: nat): seq<T> {
    if |s| <= n then s else s[|s| - n..]
  }

  function Entries(published: seq<Segment>): (e: seq<SegmentEntry>)
    ensures |e| == |published| && forall i :: 0 <= i < |published| ==> e[i] == published[i].Entry()
  {
    seq(|published|, i requires 0 <= i < |published| => published[i].Entry())
  }

  /** `n` segments of the target duration cover a time and one segment more. */
  predicate Covers(n: nat, target: nat, windowSecs: nat) {
    (n - 1) * target >= windowSecs
  }

  /** The window is the least of at least three entries that covers the configured time, which is
      at least one target duration, and one segment more. */
  lemma WindowIsLeast(cfg: Config)
    ensures
      var target := if cfg.segmentSecs == 0 then 1 else cfg.segmentSecs;
      var n := MaxSegments(cfg);
      && TargetSecs(cfg) == target && 3 <= n
      && Covers(n, target, Max(cfg.windowSecs, target))
      && forall m :: 3 <= m < n ==> !Covers(m, target, Max(cfg.windowSecs, target))
  {
    var target := TargetSecs(cfg);
    WindowSizeIsLeast(target, cfg.windowSecs);
  }

  lemma WindowSizeIsLeast(target: nat, windowSecs: nat)
    requires 1 <= target
    ensures
      var n, window := WindowSize(target, windowSecs), Max(windowSecs, target);
      && 3 <= n && Covers(n, target, window)
      && forall m :: 3 <= m < n ==> !Covers(m, target, window)
  {
    var window := Max(windowSecs, target);
    var q := (window + target - 1) / target;
    assert window + target - 1 == q * target + (window + target - 1) % target;
    assert q * target >= window;
    var n := Max(q + 1, 3);
    Times(q, n - 1, target);
    forall m | 3 <= m < n
      ensures !Covers(m, target, window)
    {
      Times(m - 1, q - 1, target);
      assert (q - 1) * target == q * target - target;
    }
  }

  lemma Times(a: nat, b: nat, t: nat)
    requires a <= b
    ensures a * t <= b * t
  {
  }

  /** The entries of the playlist. */
  function Window(cfg: Config, published: seq<Segment>): seq<SegmentEntry> {
    Entries(Suffix(published, MaxSegments(cfg)))
  }

  /** On every run the entries are numbered consecutively from the media sequence, there are
      never more than the window holds, and the last one is the newest segment. */
  lemma WindowIsConsecutive(cfg: Config, published: seq<Segment>)
    requires GoodSegments(published)
    ensures
      var w := Window(cfg, published);
      && |w| == Min(|published|, MaxSegments(cfg))
      && (forall i :: 0 <= i < |w| ==> w[i].seqNo == MediaSequence(w) + i)
      && (w != [] ==> w[|w| - 1].seqNo == |published|)
      && (published != [] ==> w != [])
  {
    var k := |published| - |Suffix(published, MaxSegments(cfg))|;
    var w := Window(cfg, published);
    forall i | 0 <= i < |w|
      ensures w[i].seqNo == k + i + 1
    {
      assert GoodSegment(published, k + i);
    }
    hide MaxSegments;
  }
}
