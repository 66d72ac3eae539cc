/** Annex B byte streams: a NAL unit behind its four-byte start code. */
module Annexb {
  import opened Prelude

  const START_CODE: Bytes := [0, 0, 0, 1]

  const IDR: u8 := 5
  const SPS: u8 := 7
  const PPS: u8 := 8

  /** `annexb_from_raw_nal`. */
  function FromRaw(raw: Bytes): Bytes {
    START_CODE + raw
  }

  /** `nal_type_from_annexb`: nothing for a buffer without a start code and a header byte. */
  function NalType(nal: Bytes): Option<u8> {
    if |nal| < 5 then None
    else if nal[0..4] != START_CODE then None
    else Some(nal[4] % 0x20)
  }

  predicate WellFormed(nal: Bytes) {
    NalType(nal).Some?
  }

  predicate IsIdr(nal: Bytes) {
    NalType(nal) == Some(IDR)
  }

  predicate IsSps(nal: Bytes) {
    NalType(nal) == Some(SPS)
  }

  predicate IsPps(nal: Bytes) {
    NalType(nal) == Some(PPS)
  }

  predicate HasIdr(nals: seq<Bytes>) {
    exists i :: 0 <= i < |nals| && IsIdr(nals[i])
  }

  lemma FromRawType(raw: Bytes)
    requires raw != []
    ensures NalType(FromRaw(raw)) == Some(raw[0] % 0x20)
  {
    assert FromRaw(raw)[0..4] == START_CODE;
  }

  /** A NAL unit of the byte stream is a start code and its bytes; its header tells pictures that
      a decoder can start at and both parameter sets, by the numbers of table 7-1 of H.264. */
  lemma FromRawKinds(raw: Bytes)
    ensures FromRaw(raw) == [0, 0, 0, 1] + raw
    ensures IsIdr(FromRaw(raw)) <==> raw != [] && raw[0] % 0x20 == 5
    ensures IsSps(FromRaw(raw)) <==> raw != [] && raw[0] % 0x20 == 7
    ensures IsPps(FromRaw(raw)) <==> raw != [] && raw[0] % 0x20 == 8
  {
    if raw != [] {
      FromRawType(raw);
    }
  }

  /** Adding the start code loses nothing. */
  lemma FromRawInjective(a: Bytes, b: Bytes)
    requires FromRaw(a) == FromRaw(b)
    ensures a == b
  {
    assert a == FromRaw(a)[4..] && b == FromRaw(b)[4..];
  }
}
