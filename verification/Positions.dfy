/** Where the epochs of a run lie among its messages. */
module Positions {
  import opened Prelude
  import opened Rtp
  import opened Assembly
  import opened Depacketizer
  import opened SyncGate
  import opened Live
  import opened Epochs

  /** The positions of the packets of each epoch. */
  datatype Placing = Placing(closed: seq<seq<nat>>, current: seq<nat>)

  function EndPlace(p: Placing): Placing {
    if p.current == [] then p else Placing(p.closed + [p.current], [])
  }

  function PlacePacket(p: Placing, d: Division, pkt: RtpPacket, n: nat): Placing {
    var follows := Follows(d.current, pkt);
    var f := if follows then p else EndPlace(p);
    var e := if follows then d else EndEpoch(d);
    if Depacketizes(e.current + [pkt]) then Placing(f.closed, f.current + [n]) else EndPlace(f)
  }

  function PlaceMsg(p: Placing, d: Division, m: Msg, n: nat): Placing {
    match m
    case Motion => p
    case Gap => EndPlace(p)
    case RtpMsg(bytes) =>
      match Decode(bytes)
      case Err(_) => EndPlace(p)
      case Ok(pkt) => PlacePacket(p, d, pkt, n)
  }

  /** The epochs of the first `n` messages. */
  function Place(events: seq<Event>, n: nat): Placing
    requires n <= |events|
  {
    if n == 0 then Placing([], [])
    else PlaceMsg(Place(events, n - 1), Divide(events[..n - 1]), events[n - 1].msg, n - 1)
  }

  /** Nothing but motion messages, which this pipeline ignores. */
  predicate Quiet(events: seq<Event>, from: nat, to: nat)
    requires to <= |events|
  {
    forall x :: from <= x < to ==> events[x].msg.Motion?
  }

  predicate PacketAt(events: seq<Event>, x: nat, pkt: RtpPacket)
    requires x < |events|
  {
    events[x].msg.RtpMsg? && Decode(events[x].msg.bytes) == Ok(pkt)
  }

  /** An epoch at its place among the first `n` messages: packet by packet, with no gap
      message, unreadable or failing packet in between. */
  ghost predicate LiesAt(events: seq<Event>, n: nat, e: Epoch, pos: seq<nat>)
    requires n <= |events|
  {
    && |pos| == |e| && (forall i :: 0 <= i < |pos| ==> pos[i] < n && PacketAt(events, pos[i], e[i]))
    && forall i :: 0 <= i < |pos| - 1 ==> pos[i] < pos[i + 1] && Quiet(events, pos[i] + 1, pos[i + 1])
  }

  /** An epoch that ended: something other than a motion message came behind it, or a packet
      that does not continue it. */
  ghost predicate EndedBefore(events: seq<Event>, e: Epoch, last: nat, next: nat)
    requires next <= |events|
  {
    && last < next
    && (!Quiet(events, last + 1, next)
         || (next < |events| && exists pkt :: PacketAt(events, next, pkt) && !Follows(e, pkt)))
  }

  ghost predicate ClosedLie(events: seq<Event>, n: nat, closed: seq<Epoch>, pos: seq<seq<nat>>)
    requires n <= |events|
  {
    && |pos| == |closed| && (forall k :: 0 <= k < |pos| ==> pos[k] != [] && LiesAt(events, n, closed[k], pos[k]))
    && forall k :: 0 <= k < |pos| - 1 ==> EndedBefore(events, closed[k], pos[k][|pos[k]| - 1], pos[k + 1][0])
  }

  ghost predicate CurrentLies(events: seq<Event>, n: nat, d: Division, p: Placing)
    requires n <= |events| && ClosedLie(events, n, d.closed, p.closed)
  {
    && LiesAt(events, n, d.current, p.current)
    && (p.current != [] ==> Quiet(events, p.current[|p.current| - 1] + 1, n))
    && (p.closed != [] ==>
         var m := |p.closed| - 1;
         var last := p.closed[m][|p.closed[m]| - 1];
         if p.current == [] then !Quiet(events, last + 1, n)
         else EndedBefore(events, d.closed[m], last, p.current[0]))
  }

  ghost predicate Placed(events: seq<Event>, n: nat, d: Division, p: Placing)
    requires n <= |events|
  {
    ClosedLie(events, n, d.closed, p.closed) && CurrentLies(events, n, d, p)
  }

  lemma LiesLater(events: seq<Event>, n: nat, e: Epoch, pos: seq<nat>)
    requires n < |events| && LiesAt(events, n, e, pos)
    ensures LiesAt(events, n + 1, e, pos)
  {
  }

  lemma ClosedLieLater(events: seq<Event>, n: nat, closed: seq<Epoch>, pos: seq<seq<nat>>)
    requires n < |events| && ClosedLie(events, n, closed, pos)
    ensures ClosedLie(events, n + 1, closed, pos)
  {
    hide EndedBefore;
    forall k | 0 <= k < |pos|
      ensures LiesAt(events, n + 1, closed[k], pos[k])
    {
      LiesLater(events, n, closed[k], pos[k]);
    }
    hide LiesAt;
  }

  lemma ClosedSnoc(events: seq<Event>, n: nat, d: Division, p: Placing)
    requires n <= |events| && Placed(events, n, d, p) && p.current != []
    ensures ClosedLie(events, n, d.closed + [d.current], p.closed + [p.current])
  {
    hide LiesAt, EndedBefore, Quiet;
  }

  /** A message that ends the epoch under way. */
  lemma EndKeepsPlaced(events: seq<Event>, n: nat, d: Division, p: Placing)
    requires n < |events| && Placed(events, n, d, p) && !events[n].msg.Motion?
    ensures Placed(events, n + 1, EndEpoch(d), EndPlace(p))
  {
    hide EndedBefore;
    if p.current == [] {
      ClosedLieLater(events, n, d.closed, p.closed);
    } else {
      ClosedSnoc(events, n, d, p);
      ClosedLieLater(events, n, d.closed + [d.current], p.closed + [p.current]);
    }
  }

  lemma MotionKeepsPlaced(events: seq<Event>, n: nat, d: Division, p: Placing)
    requires n < |events| && Placed(events, n, d, p) && events[n].msg.Motion?
    ensures Placed(events, n + 1, d, p)
  {
    hide EndedBefore;
    ClosedLieLater(events, n, d.closed, p.closed);
  }

  lemma LiesGrow(events: seq<Event>, n: nat, e: Epoch, pos: seq<nat>, pkt: RtpPacket)
    requires n < |events| && LiesAt(events, n, e, pos) && PacketAt(events, n, pkt)
    requires pos != [] ==> Quiet(events, pos[|pos| - 1] + 1, n)
    ensures LiesAt(events, n + 1, e + [pkt], pos + [n])
  {
    hide PacketAt, Quiet;
    forall i | 0 <= i < |pos| + 1
      ensures (pos + [n])[i] < n + 1 && PacketAt(events, (pos + [n])[i], (e + [pkt])[i])
    {
      if i < |pos| {
        assert (pos + [n])[i] == pos[i] && (e + [pkt])[i] == e[i];
      }
    }
  }

  lemma NothingBetween(events: seq<Event>, n: nat)
    requires n < |events|
    ensures Quiet(events, n + 1, n + 1)
  {
  }

  /** A packet that continues the epoch under way, or begins the first one behind a break. */
  lemma GrowKeepsPlaced(events: seq<Event>, n: nat, d: Division, p: Placing, pkt: RtpPacket)
    requires n < |events| && Placed(events, n, d, p) && PacketAt(events, n, pkt)
    ensures Placed(events, n + 1, Division(d.closed, d.current + [pkt]), Placing(p.closed, p.current + [n]))
  {
    hide LiesAt, Quiet, PacketAt;
    ClosedLieLater(events, n, d.closed, p.closed);
    SameShape(events, n, d, p);
    LiesGrow(events, n, d.current, p.current, pkt);
    NothingBetween(events, n);
    if p.closed != [] {
      LastIsEarlier(events, n, d.closed, p.closed);
    }
  }

  lemma LastIsEarlier(events: seq<Event>, n: nat, closed: seq<Epoch>, pos: seq<seq<nat>>)
    requires n <= |events| && ClosedLie(events, n, closed, pos) && pos != []
    ensures var last := pos[|pos| - 1]; last[|last| - 1] < n
  {
    var last := pos[|pos| - 1];
    assert LiesAt(events, n, closed[|pos| - 1], last);
  }

  /** A packet that begins an epoch because it does not continue the one before. */
  lemma StartKeepsPlaced(events: seq<Event>, n: nat, d: Division, p: Placing, pkt: RtpPacket)
    requires n < |events| && Placed(events, n, d, p) && PacketAt(events, n, pkt) && !Follows(d.current, pkt)
    ensures Placed(events, n + 1, Division(EndEpoch(d).closed, [pkt]), Placing(EndPlace(p).closed, [n]))
  {
    ClosedSnoc(events, n, d, p);
    var closed, pos := d.closed + [d.current], p.closed + [p.current];
    ClosedLieLater(events, n, closed, pos);
    var last := p.current[|p.current| - 1];
    assert EndedBefore(events, d.current, last, n);
    hide ClosedLie, EndedBefore;
    assert LiesAt(events, n + 1, [pkt], [n]);
  }

  lemma PacketKeepsPlaced(events: seq<Event>, n: nat, d: Division, p: Placing, pkt: RtpPacket)
    requires n < |events| && Placed(events, n, d, p) && PacketAt(events, n, pkt)
    ensures Placed(events, n + 1, DividePacket(d, pkt), PlacePacket(p, d, pkt, n))
  {
    SameShape(events, n, d, p);
    EndKeepsPlaced(events, n, d, p);
    if Follows(d.current, pkt) {
      GrowKeepsPlaced(events, n, d, p, pkt);
    } else {
      StartKeepsPlaced(events, n, d, p, pkt);
    }
    hide Placed, Depacketizes, Follows;
    assert [] + [pkt] == [pkt] && [] + [n] == [n];
  }

  lemma SameShape(events: seq<Event>, n: nat, d: Division, p: Placing)
    requires n <= |events| && Placed(events, n, d, p)
    ensures d.current == [] <==> p.current == []
  {
  }

  /** On every run each epoch lies where its packets came in, with nothing but motion messages
      among them; and where one ended there was another message or a packet that does not
      continue it. */
  lemma {:induction false} EpochsLieAtTheirPlaces(events: seq<Event>, n: nat)
    requires n <= |events|
    ensures Placed(events, n, Divide(events[..n]), Place(events, n))
  {
    if n > 0 {
      hide Placed, DividePacket, PlacePacket;
      var m := n - 1;
      EpochsLieAtTheirPlaces(events, m);
      var d, p := Divide(events[..m]), Place(events, m);
      assert events[..n][..m] == events[..m] && events[..n][m] == events[m];
      match events[m].msg
      case Motion => MotionKeepsPlaced(events, m, d, p);
      case Gap => EndKeepsPlaced(events, m, d, p);
      case RtpMsg(bytes) =>
        if Decode(bytes).Ok? {
          PacketKeepsPlaced(events, m, d, p, Decode(bytes).value);
        } else {
          EndKeepsPlaced(events, m, d, p);
        }
    } else {
      NothingPlaced(events);
    }
  }

  lemma NothingPlaced(events: seq<Event>)
    ensures Placed(events, 0, Division([], []), Placing([], []))
  {
  }

  // ---------------------------------------------------------------------------
  // Packets outside all epochs
  // ---------------------------------------------------------------------------

  ghost predicate InPlace(p: Placing, x: nat) {
    x in p.current || exists k :: 0 <= k < |p.closed| && x in p.closed[k]
  }

  /** The packets that packet `x` would have to depacketize behind: those of the epoch under way
      when it continues it, and none when it does not. */
  function Behind(d: Division, pkt: RtpPacket): Epoch {
    if Follows(d.current, pkt) then d.current else []
  }

  lemma EndStaysInPlace(p: Placing, x: nat)
    requires InPlace(p, x)
    ensures InPlace(EndPlace(p), x)
  {
    var q := EndPlace(p);
    if x in p.current {
      assert q.closed[|p.closed|] == p.current;
    } else {
      var k :| 0 <= k < |p.closed| && x in p.closed[k];
      assert q.closed[k] == p.closed[k];
    }
  }

  lemma GrowStaysInPlace(p: Placing, x: nat, n: nat)
    requires InPlace(p, x) || x == n
    ensures InPlace(Placing(p.closed, p.current + [n]), x)
  {
    var q := Placing(p.closed, p.current + [n]);
    if x == n {
      assert q.current[|p.current|] == n;
    } else if x in p.current {
      var i :| 0 <= i < |p.current| && p.current[i] == x;
      assert q.current[i] == x;
    }
  }

  lemma StaysInPlace(p: Placing, d: Division, m: Msg, n: nat, x: nat)
    requires InPlace(p, x)
    ensures InPlace(PlaceMsg(p, d, m, n), x)
  {
    EndStaysInPlace(p, x);
    EndStaysInPlace(EndPlace(p), x);
    GrowStaysInPlace(p, x, n);
    GrowStaysInPlace(EndPlace(p), x, n);
    hide InPlace, EndPlace, Decode, Depacketizes, Follows;
  }

  lemma {:induction false} KeepsPlace(events: seq<Event>, m: nat, n: nat, x: nat)
    requires m <= n <= |events| && InPlace(Place(events, m), x)
    ensures InPlace(Place(events, n), x)
    decreases n
  {
    hide InPlace, PlaceMsg;
    if m < n {
      KeepsPlace(events, m, n - 1, x);
      StaysInPlace(Place(events, n - 1), Divide(events[..n - 1]), events[n - 1].msg, n - 1, x);
    }
  }

  /** A readable packet that is in no epoch fails in the depacketizer: behind the epoch under way
      when it continues that, and from scratch when it does not. */
  lemma {:induction false} OutsidersFail(events: seq<Event>, n: nat, x: nat, pkt: RtpPacket)
    requires x < n <= |events| && PacketAt(events, x, pkt) && !InPlace(Place(events, n), x)
    ensures !Depacketizes(Behind(Divide(events[..x]), pkt) + [pkt])
  {
    hide InPlace, Depacketizes, Follows, Divide;
    var p, d := Place(events, x), Divide(events[..x]);
    if Depacketizes(Behind(d, pkt) + [pkt]) {
      EndedIsEmpty(d);
      var f := if Follows(d.current, pkt) then p else EndPlace(p);
      GrowStaysInPlace(f, x, x);
      KeepsPlace(events, x + 1, n, x);
    }
  }

  lemma EndedIsEmpty(d: Division)
    ensures EndEpoch(d).current == []
  {
  }

  /** A payload of a type that the depacketizer does not know, or one that it cannot read,
      interrupts: the open segment is closed and cut, nothing half-assembled stays, no number is
      expected, and the packet is in no epoch. */
  lemma {:induction false} RefusedInterrupts(cfg: Config, events: seq<Event>, x: nat, pkt: RtpPacket)
    requires x < |events| && PacketAt(events, x, pkt) && !Acceptable(DepState(true, []), pkt.payload)
    ensures
      var s, d := Run(cfg, events[..x + 1]), Divide(events[..x + 1]);
      && s.expectedSeq.None? && s.pub.segment.None? && s.asm == Start(s.asm.gate)
      && (s.pub.published != [] ==> AfterCut(s.pub.published))
      && d.current == []
  {
    hide Acceptable, Push, Good, GoodPublication, Divide, DividePacket;
    var upto := events[..x + 1];
    assert upto[..x] == events[..x] && upto[x] == events[x];
    var s := Run(cfg, events[..x]);
    RefusedAlways(Resume(s, pkt, events[x].now).asm.dep, pkt.payload);
    InterruptLeavesNothing(Resume(s, pkt, events[x].now), events[x].now);
    RunIsGood(cfg, upto);
    GoodParts(Run(cfg, upto));
    RunRefines(cfg, upto);
    RefinesExpected(SeedGate(cfg), Run(cfg, upto), Divide(upto));
  }

  /** Without a fragment under way no more is taken than with one. */
  lemma RefusedAlways(s: DepState, payload: Bytes)
    requires !Acceptable(DepState(true, []), payload)
    ensures Push(s, payload).nals.Err?
  {
    hide Push, StapBody;
    AcceptsExactly(s, payload);
  }

  lemma InterruptLeavesNothing(s: State, now: nat)
    ensures
      var t := Interrupt(s, now);
      t.expectedSeq.None? && t.pub.segment.None? && t.asm == Start(t.asm.gate)
  {
  }

  lemma GoodParts(s: State)
    requires Good(s)
    ensures s.pub.segment.None? && s.pub.published != [] ==> AfterCut(s.pub.published)
  {
  }

  lemma RefinesExpected(g: Gate, s: State, d: Division)
    requires Refines(g, s, d)
    ensures s.expectedSeq == ExpectedAfter(d.current)
  {
  }
}
