/** The synchronisation gate: after a reset it holds everything back until an IDR picture
    whose parameter sets are known, and it moves the latest SPS and PPS in front of every IDR.
 */
module SyncGate {
  import opened Prelude
  import opened Annexb

  datatype Gate = Gate(requireIdr: bool, synced: bool, sps: Option<Bytes>, pps: Option<Bytes>)

  datatype GateStep = GateStep(gate: Gate, out: seq<Bytes>)

  function NewGate(requireIdr: bool): Gate {
    Gate(requireIdr, !requireIdr, None, None)
  }

  function Reset(g: Gate): Gate {
    g.(synced := !g.requireIdr)
  }

  function WithParameterSets(nal: Bytes, g: Gate): seq<Bytes> {
    if g.sps.Some? && g.pps.Some? then [g.sps.value, g.pps.value, nal] else [nal]
  }

  /** One NAL unit. */
  function PushNal(g: Gate, nal: Bytes): GateStep {
    if !WellFormed(nal) then GateStep(g, [])
    else if IsSps(nal) then GateStep(g.(sps := Some(nal)), [])
    else if IsPps(nal) then GateStep(g.(pps := Some(nal)), [])
    else if !g.synced then
      if IsIdr(nal) && g.sps.Some? && g.pps.Some?
      then GateStep(g.(synced := true), WithParameterSets(nal, g))
      else GateStep(g, [])
    else if IsIdr(nal) then GateStep(g, WithParameterSets(nal, g))
    else GateStep(g, [nal])
  }

  function PushNals(g: Gate, nals: seq<Bytes>): GateStep {
    if nals == [] then GateStep(g, [])
    else
      var before := PushNals(g, nals[..|nals| - 1]);
      var last := PushNal(before.gate, nals[|nals| - 1]);
      GateStep(last.gate, before.out + last.out)
  }

  class H264SyncGate {
    const requireIdrSync: bool
    var synced: bool
    var lastSps: Option<Bytes>
    var lastPps: Option<Bytes>

    function State(): Gate
      reads this
    {
      Gate(requireIdrSync, synced, lastSps, lastPps)
    }

    constructor (requireIdrSync: bool)
      ensures State() == NewGate(requireIdrSync)
    {
      this.requireIdrSync := requireIdrSync;
      synced := !requireIdrSync;
      lastSps := None;
      lastPps := None;
    }

    method ResetSync()
      modifies this
      ensures State() == Reset(old(State()))
    {
      synced := !requireIdrSync;
    }

    method SetSpropParamSets(sps: Bytes, pps: Bytes)
      modifies this
      ensures State() == old(State()).(sps := Some(sps), pps := Some(pps))
    {
      lastSps := Some(sps);
      lastPps := Some(pps);
    }

    method Push(nal: Bytes) returns (out: seq<Bytes>)
      modifies this
      ensures GateStep(State(), out) == PushNal(old(State()), nal)
    {
      var nt := NalType(nal);
      if nt.None? {
        return [];
      }
      if nt.value == SPS {
        lastSps := Some(nal);
        return [];
      } else if nt.value == PPS {
        lastPps := Some(nal);
        return [];
      }
      if !synced {
        if nt.value == IDR {
          if lastSps.Some? && lastPps.Some? {
            synced := true;
            return [lastSps.value, lastPps.value, nal];
          }
        }
        return [];
      }
      if nt.value == IDR {
        out := [];
        if lastSps.Some? && lastPps.Some? {
          out := out + [lastSps.value];
          out := out + [lastPps.value];
        }
        out := out + [nal];
        return out;
      }
      out := [nal];
    }
  }

  // ---------------------------------------------------------------------------
  // What the gate emits, said without any state
  // ---------------------------------------------------------------------------

  /** The last NAL unit of type `t`, or `initial` when there is none. */
  function Latest(t: u8, initial: Option<Bytes>, nals: seq<Bytes>): Option<Bytes> {
    if nals == [] then initial
    else
      var last := nals[|nals| - 1];
      if NalType(last) == Some(t) then Some(last) else Latest(t, initial, nals[..|nals| - 1])
  }

  lemma {:induction false} LatestAppend(t: u8, initial: Option<Bytes>, a: seq<Bytes>, b: seq<Bytes>)
    ensures Latest(t, initial, a + b) == Latest(t, Latest(t, initial, a), b)
    decreases |b|
  {
    hide NalType;
    if b == [] {
      assert a + b == a;
    } else {
      var m := |b| - 1;
      assert (a + b)[..|a + b| - 1] == a + b[..m];
      LatestAppend(t, initial, a, b[..m]);
    }
  }

  /** `nals[i]` is an IDR picture and both parameter sets are known in front of it. */
  predicate SyncPoint(g: Gate, nals: seq<Bytes>, i: nat)
    requires i < |nals|
  {
    && IsIdr(nals[i])
    && Latest(SPS, g.sps, nals[..i]).Some?
    && Latest(PPS, g.pps, nals[..i]).Some?
  }

  predicate Open(g: Gate, nals: seq<Bytes>, i: nat)
    requires i <= |nals|
  {
    g.synced || exists j :: 0 <= j < i && SyncPoint(g, nals, j)
  }

  /** What NAL unit `i` of a list leads to: nothing for a parameter set, for a malformed
      unit or before the first sync point; an IDR behind the latest SPS and PPS; any other
      unit as it is. */
  function Emission(g: Gate, nals: seq<Bytes>, i: nat): seq<Bytes>
    requires i < |nals|
  {
    var nal := nals[i];
    if !WellFormed(nal) || IsSps(nal) || IsPps(nal) || !Open(g, nals, i + 1) then []
    else
      var sps, pps := Latest(SPS, g.sps, nals[..i]), Latest(PPS, g.pps, nals[..i]);
      if IsIdr(nal) && sps.Some? && pps.Some? then [sps.value, pps.value, nal] else [nal]
  }

  function Emissions(g: Gate, nals: seq<Bytes>): (e: seq<seq<Bytes>>)
    ensures |e| == |nals| && forall i :: 0 <= i < |nals| ==> e[i] == Emission(g, nals, i)
  {
    seq(|nals|, i requires 0 <= i < |nals| => Emission(g, nals, i))
  }

  lemma EmissionsOfPrefix(g: Gate, nals: seq<Bytes>, n: nat)
    requires n <= |nals|
    ensures Emissions(g, nals[..n]) == Emissions(g, nals)[..n]
  {
    forall i | 0 <= i < n
      ensures Emission(g, nals[..n], i) == Emission(g, nals, i)
    {
      OpenOfPrefix(g, nals, n, i + 1);
      assert nals[..n][..i] == nals[..i];
    }
  }

  lemma OpenOfPrefix(g: Gate, nals: seq<Bytes>, n: nat, i: nat)
    requires i <= n <= |nals|
    ensures Open(g, nals[..n], i) <==> Open(g, nals, i)
  {
    forall j | 0 <= j < i
      ensures SyncPoint(g, nals[..n], j) <==> SyncPoint(g, nals, j)
    {
      assert nals[..n][..j] == nals[..j];
    }
  }

  /** The gate emits exactly the concatenation of what each NAL unit leads to, and its
      state is the latest parameter sets and whether a sync point has passed. */
  lemma {:induction false} GateEmits(g: Gate, nals: seq<Bytes>)
    ensures
      var r := PushNals(g, nals);
      && r.out == Concat(Emissions(g, nals))
      && r.gate == Gate(g.requireIdr, Open(g, nals, |nals|), Latest(SPS, g.sps, nals), Latest(PPS, g.pps, nals))
  {
    if nals != [] {
      var n := |nals| - 1;
      var front, last := nals[..n], nals[n];
      GateEmits(g, front);
      EmissionsOfPrefix(g, nals, n);
      OpenOfPrefix(g, nals, n, n);
      assert Emissions(g, nals) == Emissions(g, front) + [Emission(g, nals, n)];
      ConcatAppend(Emissions(g, front), [Emission(g, nals, n)]);
      ConcatOne(Emission(g, nals, n));
      LastEmission(g, nals);
    }
  }

  lemma OpenStep(g: Gate, nals: seq<Bytes>, n: nat)
    requires n < |nals|
    ensures Open(g, nals, n + 1) <==> Open(g, nals, n) || SyncPoint(g, nals, n)
  {
  }

  lemma {:induction false} LastEmission(g: Gate, nals: seq<Bytes>)
    requires nals != []
    ensures
      var n := |nals| - 1;
      var before := Gate(g.requireIdr, Open(g, nals, n), Latest(SPS, g.sps, nals[..n]), Latest(PPS, g.pps, nals[..n]));
      PushNal(before, nals[n]) ==
        GateStep(Gate(g.requireIdr, Open(g, nals, n + 1), Latest(SPS, g.sps, nals), Latest(PPS, g.pps, nals)),
                 Emission(g, nals, n))
  {
    OpenStep(g, nals, |nals| - 1);
  }

  lemma {:induction false} PushNalsAppend(g: Gate, a: seq<Bytes>, b: seq<Bytes>)
    ensures
      var first := PushNals(g, a);
      var rest := PushNals(first.gate, b);
      PushNals(g, a + b) == GateStep(rest.gate, first.out + rest.out)
  {
    if b == [] {
      assert a + b == a;
    } else {
      var m := |b| - 1;
      assert (a + b)[..|a + b| - 1] == a + b[..m];
      assert (a + b)[|a + b| - 1] == b[m];
      PushNalsAppend(g, a, b[..m]);
    }
  }

  // ---------------------------------------------------------------------------
  // Parameter sets in front of every IDR
  // ---------------------------------------------------------------------------

  /** The remembered parameter sets are of the types they are remembered for. */
  predicate WellTyped(g: Gate) {
    && (g.sps.Some? ==> IsSps(g.sps.value))
    && (g.pps.Some? ==> IsPps(g.pps.value))
  }

  /** In a list of NAL units every IDR has an SPS and then a PPS directly in front of it. */
  predicate IdrsCarryParameterSets(nals: seq<Bytes>) {
    forall k :: 0 <= k < |nals| && IsIdr(nals[k]) ==> 2 <= k && IsSps(nals[k - 2]) && IsPps(nals[k - 1])
  }

  lemma IdrsCarryAppend(a: seq<Bytes>, b: seq<Bytes>)
    requires IdrsCarryParameterSets(a) && IdrsCarryParameterSets(b)
    ensures IdrsCarryParameterSets(a + b)
  {
    var c := a + b;
    forall k | 0 <= k < |c| && IsIdr(c[k])
      ensures 2 <= k && IsSps(c[k - 2]) && IsPps(c[k - 1])
    {
      if |a| <= k {
        assert IsIdr(b[k - |a|]);
      }
    }
  }

  lemma StepIsDecodable(g: Gate, nal: Bytes)
    requires WellTyped(g) && (g.synced ==> g.sps.Some? && g.pps.Some?)
    ensures
      var r := PushNal(g, nal);
      && WellTyped(r.gate) && (r.gate.synced ==> r.gate.sps.Some? && r.gate.pps.Some?)
      && IdrsCarryParameterSets(r.out)
  {
    hide NalType;
  }

  /** A gate that demands an IDR emits, from a reset on, only lists in which every IDR
      directly follows an SPS and a PPS; by `GateEmits` they are the latest ones. */
  lemma {:induction false} GateOutputIsDecodable(g: Gate, nals: seq<Bytes>)
    requires WellTyped(g) && (g.synced ==> g.sps.Some? && g.pps.Some?)
    ensures
      var r := PushNals(g, nals);
      && WellTyped(r.gate) && (r.gate.synced ==> r.gate.sps.Some? && r.gate.pps.Some?)
      && IdrsCarryParameterSets(r.out)
  {
    if nals != [] {
      var n := |nals| - 1;
      GateOutputIsDecodable(g, nals[..n]);
      var before := PushNals(g, nals[..n]);
      StepIsDecodable(before.gate, nals[n]);
      hide PushNal, IdrsCarryParameterSets;
      IdrsCarryAppend(before.out, PushNal(before.gate, nals[n]).out);
    }
  }

  /** What a gate may have emitted since it was closed. */
  ghost predicate SinceReset(typed: bool, r: GateStep) {
    && (typed ==> WellTyped(r.gate))
    && (!r.gate.synced ==> r.out == [])
    && (r.gate.synced ==> 3 <= |r.out| && IsIdr(r.out[2]) && (typed ==> IsSps(r.out[0]) && IsPps(r.out[1])))
  }

  lemma SinceResetNext(typed: bool, r: GateStep, nal: Bytes)
    requires SinceReset(typed, r)
    ensures
      var last := PushNal(r.gate, nal);
      SinceReset(typed, GateStep(last.gate, r.out + last.out))
  {
    hide NalType;
  }

  /** From a reset on, the gate emits nothing at all or starts with an IDR behind two
      parameter sets, whatever came in; they are an SPS and then a PPS when the sets it
      started with, if any, were of their types. */
  lemma {:induction false} NothingBeforeTheFirstIdr(g: Gate, nals: seq<Bytes>)
    requires !g.synced
    ensures SinceReset(WellTyped(g), PushNals(g, nals))
  {
    if nals != [] {
      hide SinceReset, PushNal;
      var n := |nals| - 1;
      NothingBeforeTheFirstIdr(g, nals[..n]);
      SinceResetNext(WellTyped(g), PushNals(g, nals[..n]), nals[n]);
    }
  }
}
