/** The bytes of a picture as a decoder takes them apart: NAL units between start codes (Annex B
    of H.264).
 */
module ByteStream {
  import opened Prelude
  import opened Annexb
  import opened Depacketizer
  import opened TsMux
  import opened TsDemux

  predicate CodeAt(es: Bytes, i: nat) {
    i + 4 <= |es| && es[i] == 0 && es[i + 1] == 0 && es[i + 2] == 0 && es[i + 3] == 1
  }

  /** Where the next start code is, at or behind `i`; or the end. */
  function NextCode(es: Bytes, i: nat): (k: nat)
    requires i <= |es|
    ensures i <= k <= |es|
    decreases |es| - i
  {
    if i == |es| || CodeAt(es, i) then i else NextCode(es, i + 1)
  }

  function Split(es: Bytes): Option<seq<Bytes>>
    decreases |es|
  {
    if es == [] then Some([])
    else if !CodeAt(es, 0) then None
    else
      var n := NextCode(es, 4);
      var rest := Split(es[n..]);
      if rest.None? then None else Some([es[4..n]] + rest.value)
  }

  /** A NAL unit as section 7.4.1 of H.264 has it: no two zero bytes in front of a byte up to 2,
      and no zero byte at its end. */
  predicate Escaped(raw: Bytes) {
    && raw != [] && raw[|raw| - 1] != 0
    && forall i :: 0 <= i < |raw| - 2 ==> raw[i] != 0 || raw[i + 1] != 0 || raw[i + 2] > 2
  }

  predicate AllEscaped(raws: seq<Bytes>) {
    forall i :: 0 <= i < |raws| ==> Escaped(raws[i])
  }

  lemma {:induction false} NextCodeIs(es: Bytes, i: nat, k: nat)
    requires i <= k <= |es| && (k == |es| || CodeAt(es, k))
    requires forall j :: i <= j < k ==> !CodeAt(es, j)
    ensures NextCode(es, i) == k
    decreases k - i
  {
    if i < k {
      NextCodeIs(es, i + 1, k);
    }
  }

  /** No start code begins inside an escaped NAL unit. */
  lemma NoCodeInside(raw: Bytes, rest: Bytes, j: nat)
    requires Escaped(raw) && j < |raw|
    ensures !CodeAt(FromRaw(raw) + rest, 4 + j)
  {
    var es := FromRaw(raw) + rest;
    assert es[4 + j] == raw[j];
    if j + 2 < |raw| {
      assert es[4 + j + 1] == raw[j + 1] && es[4 + j + 2] == raw[j + 2];
    } else {
      assert es[4 + |raw| - 1] == raw[|raw| - 1];
    }
  }

  lemma FirstUnit(raw: Bytes, rest: Bytes)
    requires Escaped(raw) && (rest == [] || CodeAt(rest, 0))
    ensures Split(FromRaw(raw) + rest) ==
      if Split(rest).None? then None else Some([raw] + Split(rest).value)
  {
    var es := FromRaw(raw) + rest;
    var k := 4 + |raw|;
    forall j | 4 <= j < k
      ensures !CodeAt(es, j)
    {
      NoCodeInside(raw, rest, j - 4);
    }
    assert es[k..] == rest && es[4..k] == raw;
    if rest != [] {
      assert es[k] == rest[0] && es[k + 1] == rest[1] && es[k + 2] == rest[2] && es[k + 3] == rest[3];
    }
    NextCodeIs(es, 4, k);
  }

  lemma StartsWithCode(raws: seq<Bytes>)
    requires raws != []
    ensures CodeAt(Concat(AnnexbAll(raws)), 0)
  {
    hide Concat;
    assert Concat(AnnexbAll(raws)) == FromRaw(raws[0]) + Concat(AnnexbAll(raws)[1..]) by {
      ConcatAppend([FromRaw(raws[0])], AnnexbAll(raws)[1..]);
      ConcatOne(FromRaw(raws[0]));
      assert AnnexbAll(raws) == [FromRaw(raws[0])] + AnnexbAll(raws)[1..];
    }
  }

  lemma {:induction false} SplitInverts(raws: seq<Bytes>)
    requires AllEscaped(raws)
    ensures Split(Concat(AnnexbAll(raws))) == Some(raws)
    decreases |raws|
  {
    if raws != [] {
      hide Escaped, Split, FromRaw, CodeAt;
      var tail := raws[1..];
      SplitInverts(tail);
      assert AnnexbAll(raws)[1..] == AnnexbAll(tail);
      var rest := Concat(AnnexbAll(tail));
      if tail != [] {
        StartsWithCode(tail);
      }
      FirstUnit(raws[0], rest);
      assert raws == [raws[0]] + tail;
    }
  }

  /** A decoder behind the demultiplexer gets back the NAL units of every access unit of a segment
      file, one by one. */
  lemma {:induction false} SegmentDecodes(aus: seq<AccessUnit>, i: nat, raws: seq<Bytes>)
    requires i < |aus| && aus[i].nals == AnnexbAll(raws) && AllEscaped(raws)
    ensures
      var pictures := Demux(SegmentBytes(aus));
      pictures.Some? && |pictures.value| == |aus| && Split(pictures.value[i].es) == Some(raws)
  {
    hide Demux, SegmentBytes, Split, Escaped, Concat;
    SegmentRoundTrip(aus);
    SplitInverts(raws);
  }
}
