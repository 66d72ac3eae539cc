/** The H.264 RTP payload format (RFC 6184): single NAL unit packets (section 5.6),
    STAP-A aggregates (section 5.7.1) and FU-A fragments (section 5.8).
 */
module Depacketizer {
  import opened Prelude
  import opened Annexb

  datatype DepError =
    | UnsupportedType
    | ZeroLengthNal
    | NalTooLong
    | TrailingBytes
    | FragmentTooShort
    | FragmentWithoutStart

  type Nals = Result<seq<Bytes>, DepError>

  /** What a depacketizer remembers between two packets. */
  datatype DepState = DepState(fuActive: bool, fuBuf: Bytes) {
    ghost predicate Valid() {
      if fuActive then WellFormed(fuBuf) else fuBuf == []
    }
  }

  const IDLE := DepState(false, [])

  datatype DepStep = DepStep(state: DepState, nals: Nals)

  // ---------------------------------------------------------------------------
  // Specification
  // ---------------------------------------------------------------------------

  /** The NAL units of a STAP-A payload behind its indicator byte. */
  function StapNals(body: Bytes): Nals {
    if body == [] then Ok([])
    else if |body| == 1 then Err(TrailingBytes)
    else
      var n: nat := U16(body[0], body[1]);
      if n == 0 then Err(ZeroLengthNal)
      else if 2 + n > |body| then Err(NalTooLong)
      else
        Prepend([FromRaw(body[2..2 + n])], StapNals(body[2 + n..]))
  }

  /** The NAL header that a fragment's indicator and header bytes stand for. */
  function FragmentedHeader(indicator: u8, header: u8): u8 {
    0x20 * (indicator / 0x20) + header % 0x20
  }

  function PushFragment(s: DepState, payload: Bytes): DepStep {
    if |payload| < 2 then DepStep(s, Err(FragmentTooShort))
    else if Bit80(payload[1]) then
      DepStep(DepState(true, START_CODE + [FragmentedHeader(payload[0], payload[1])] + payload[2..]), Ok([]))
    else if !s.fuActive then DepStep(s, Err(FragmentWithoutStart))
    else if Bit40(payload[1]) then DepStep(IDLE, Ok([s.fuBuf + payload[2..]]))
    else DepStep(DepState(true, s.fuBuf + payload[2..]), Ok([]))
  }

  /** One RTP payload. */
  function Push(s: DepState, payload: Bytes): DepStep {
    if payload == [] then DepStep(s, Ok([]))
    else
      var t := payload[0] % 0x20;
      if 1 <= t <= 23 then DepStep(s, Ok([FromRaw(payload)]))
      else if t == 24 then DepStep(s, StapNals(payload[1..]))
      else if t == 28 then PushFragment(s, payload)
      else DepStep(s, Err(UnsupportedType))
  }

  /** Payloads in a row, up to the first error. */
  function PushAll(s: DepState, payloads: seq<Bytes>): DepStep
    decreases |payloads|
  {
    if payloads == [] then DepStep(s, Ok([]))
    else
      var first := Push(s, payloads[0]);
      if first.nals.Err? then first
      else
        var rest := PushAll(first.state, payloads[1..]);
        DepStep(rest.state, Prepend(first.nals.value, rest.nals))
  }

  function Prepend(out: seq<Bytes>, rest: Nals): Nals {
    match rest
    case Err(e) => Err(e)
    case Ok(more) => Ok(out + more)
  }

  // ---------------------------------------------------------------------------
  // The depacketizer
  // ---------------------------------------------------------------------------

  class H264Depacketizer {
    var fuActive: bool
    var fuBuf: Bytes

    function State(): DepState
      reads this
    {
      DepState(fuActive, fuBuf)
    }

    constructor ()
      ensures State() == IDLE
    {
      fuActive := false;
      fuBuf := [];
    }

    method Reset()
      modifies this
      ensures State() == IDLE
    {
      fuActive := false;
      fuBuf := [];
    }

    method PushRtpPayload(payload: Bytes) returns (r: Nals)
      modifies this
      ensures DepStep(State(), r) == Push(old(State()), payload)
    {
      if payload == [] {
        return Ok([]);
      }
      var nalType := payload[0] % 0x20;
      if 1 <= nalType <= 23 {
        var out := START_CODE;
        out := out + payload;
        r := Ok([out]);
      } else if nalType == 24 {
        r := HandleStapA(payload);
      } else if nalType == 28 {
        r := HandleFuA(payload);
      } else {
        r := Err(UnsupportedType);
      }
    }

    method HandleStapA(payload: Bytes) returns (r: Nals)
      requires payload != []
      ensures r == StapNals(payload[1..])
    {
      var i: nat := 1;
      var out: seq<Bytes> := [];
      PrependNothing(StapNals(payload[1..]));
      while i + 2 <= |payload|
        invariant 1 <= i <= |payload|
        invariant StapNals(payload[1..]) == Prepend(out, StapNals(payload[i..]))
      {
        var nalLen: nat := U16(payload[i], payload[i + 1]);
        ghost var body := payload[i..];
        assert body[0] == payload[i] && body[1] == payload[i + 1];
        i := i + 2;
        if nalLen == 0 {
          return Err(ZeroLengthNal);
        }
        if i + nalLen > |payload| {
          return Err(NalTooLong);
        }
        var nal := payload[i..i + nalLen];
        i := i + nalLen;
        assert body[2..2 + nalLen] == nal;
        assert body[2 + nalLen..] == payload[i..];
        var annexb := START_CODE;
        annexb := annexb + nal;
        PrependTwice(out, [annexb], StapNals(payload[i..]));
        out := out + [annexb];
      }
      if i != |payload| {
        assert |payload[i..]| == 1;
        return Err(TrailingBytes);
      }
      assert payload[i..] == [];
      assert out + [] == out;
      r := Ok(out);
    }

    method HandleFuA(payload: Bytes) returns (r: Nals)
      modifies this
      ensures DepStep(State(), r) == PushFragment(old(State()), payload)
    {
      if |payload| < 2 {
        return Err(FragmentTooShort);
      }
      var fuIndicator := payload[0];
      var fuHeader := payload[1];
      var start := Bit80(fuHeader);
      var end := Bit40(fuHeader);
      var nalType := fuHeader % 0x20;
      var forbiddenAndNri := 0x20 * (fuIndicator / 0x20);
      var reconstructedNalHeader := forbiddenAndNri + nalType;
      var fuPayload := payload[2..];

      if start {
        fuActive := true;
        fuBuf := [];
        fuBuf := fuBuf + START_CODE;
        fuBuf := fuBuf + [reconstructedNalHeader];
        fuBuf := fuBuf + fuPayload;
        return Ok([]);
      }
      if !fuActive {
        return Err(FragmentWithoutStart);
      }
      fuBuf := fuBuf + fuPayload;
      if end {
        fuActive := false;
        var completed := fuBuf;
        fuBuf := [];
        return Ok([completed]);
      }
      r := Ok([]);
    }
  }

  // ---------------------------------------------------------------------------
  // What every packet keeps
  // ---------------------------------------------------------------------------

  lemma {:induction false} StapNalsWellFormed(body: Bytes)
    requires StapNals(body).Ok?
    ensures forall nal :: nal in StapNals(body).value ==> WellFormed(nal)
  {
    if body != [] {
      var n: nat := U16(body[0], body[1]);
      FromRawType(body[2..2 + n]);
      StapNalsWellFormed(body[2 + n..]);
    }
  }

  /** Every NAL unit a depacketizer emits has a start code and a header byte, so a gate
      behind it never drops one as malformed; and its buffer is empty unless a fragmented
      NAL unit is under way. */
  lemma PushKeepsValid(s: DepState, payload: Bytes)
    requires s.Valid()
    ensures Push(s, payload).state.Valid()
    ensures Push(s, payload).nals.Ok? ==>
      forall nal :: nal in Push(s, payload).nals.value ==> WellFormed(nal)
  {
    if payload != [] {
      FromRawType(payload);
      if payload[0] % 0x20 == 24 && StapNals(payload[1..]).Ok? {
        StapNalsWellFormed(payload[1..]);
      }
      if 2 <= |payload| {
        var header := FragmentedHeader(payload[0], payload[1]);
        FromRawType([header] + payload[2..]);
        assert START_CODE + [header] + payload[2..] == FromRaw([header] + payload[2..]);
        AppendKeepsType(s.fuBuf, payload[2..]);
      }
    }
  }

  lemma AppendKeepsType(nal: Bytes, more: Bytes)
    ensures WellFormed(nal) ==> NalType(nal + more) == NalType(nal)
  {
    if WellFormed(nal) {
      assert (nal + more)[0..4] == nal[0..4];
    }
  }

  lemma PrependNothing(rest: Nals)
    ensures Prepend([], rest) == rest
  {
    if rest.Ok? {
      assert [] + rest.value == rest.value;
    }
  }

  lemma PrependTwice(a: seq<Bytes>, b: seq<Bytes>, rest: Nals)
    ensures Prepend(a, Prepend(b, rest)) == Prepend(a + b, rest)
  {
    if rest.Ok? {
      assert a + (b + rest.value) == a + b + rest.value;
    }
  }

  lemma {:induction false} PushAllAppend(s: DepState, a: seq<Bytes>, b: seq<Bytes>)
    requires PushAll(s, a).nals.Ok?
    ensures
      var first := PushAll(s, a);
      var rest := PushAll(first.state, b);
      PushAll(s, a + b) == DepStep(rest.state, Prepend(first.nals.value, rest.nals))
    decreases |a|
  {
    if a == [] {
      assert a + b == b;
      PrependNothing(PushAll(s, b).nals);
    } else {
      assert (a + b)[1..] == a[1..] + b;
      var first := Push(s, a[0]);
      var mid := PushAll(first.state, a[1..]);
      PushAllAppend(first.state, a[1..], b);
      PrependTwice(first.nals.value, mid.nals.value, PushAll(mid.state, b).nals);
    }
  }

  lemma PushAllOne(s: DepState, payload: Bytes)
    ensures PushAll(s, [payload]) == Push(s, payload)
  {
    var first := Push(s, payload);
    assert PushAll(first.state, [payload][1..]) == DepStep(first.state, Ok([]));
    if first.nals.Ok? {
      assert Prepend(first.nals.value, Ok([])).value == first.nals.value;
    }
  }

  // ---------------------------------------------------------------------------
  // STAP-A: the parser accepts exactly the length-prefixed lists
  // ---------------------------------------------------------------------------

  /** NAL units that a STAP-A can carry: not empty, with a 16-bit length. */
  predicate Aggregable(nals: seq<Bytes>) {
    forall i :: 0 <= i < |nals| ==> 1 <= |nals[i]| < 0x1_0000
  }

  ghost function StapBody(nals: seq<Bytes>): Bytes
    requires Aggregable(nals)
  {
    if nals == [] then [] else Be16(|nals[0]|) + nals[0] + StapBody(nals[1..])
  }

  function AnnexbAll(raws: seq<Bytes>): (r: seq<Bytes>)
    ensures |r| == |raws| && forall i :: 0 <= i < |raws| ==> r[i] == FromRaw(raws[i])
  {
    seq(|raws|, i requires 0 <= i < |raws| => FromRaw(raws[i]))
  }

  lemma {:induction false} StapDecodesEncoding(raws: seq<Bytes>)
    requires Aggregable(raws)
    ensures StapNals(StapBody(raws)) == Ok(AnnexbAll(raws))
  {
    if raws != [] {
      var body := StapBody(raws);
      var n := |raws[0]|;
      U16At(body, 0, n);
      assert body[2..2 + n] == raws[0];
      assert body[2 + n..] == StapBody(raws[1..]);
      StapDecodesEncoding(raws[1..]);
      assert AnnexbAll(raws) == [FromRaw(raws[0])] + AnnexbAll(raws[1..]);
    }
  }

  /** The list an accepted STAP-A body spells out. */
  lemma {:induction false} StapAcceptsOnlyEncodings(body: Bytes) returns (raws: seq<Bytes>)
    requires StapNals(body).Ok?
    ensures Aggregable(raws) && StapBody(raws) == body && StapNals(body) == Ok(AnnexbAll(raws))
  {
    if body == [] {
      raws := [];
    } else {
      hide StapBody, AnnexbAll, FromRaw, U16, Be16;
      var n: nat := U16(body[0], body[1]);
      var raw, tail := body[2..2 + n], body[2 + n..];
      var rest := StapAcceptsOnlyEncodings(tail);
      raws := [raw] + rest;
      StapBodyOf(body, n, raw, rest);
      AnnexbAllCons(raw, rest);
    }
  }

  lemma AnnexbAllCons(raw: Bytes, rest: seq<Bytes>)
    ensures AnnexbAll([raw] + rest) == [FromRaw(raw)] + AnnexbAll(rest)
  {
    hide FromRaw;
  }

  lemma StapBodyOf(body: Bytes, n: nat, raw: Bytes, rest: seq<Bytes>)
    requires 2 + n <= |body| && 1 <= n && n == U16(body[0], body[1])
    requires raw == body[2..2 + n] && Aggregable(rest) && StapBody(rest) == body[2 + n..]
    ensures Aggregable([raw] + rest) && StapBody([raw] + rest) == body
  {
    hide U16, Be16;
    var raws := [raw] + rest;
    assert raws[0] == raw && raws[1..] == rest;
    Be16Inverse(body[0], body[1]);
    assert body == [body[0], body[1]] + raw + body[2 + n..];
  }

  /** A STAP-A is accepted with a list of NAL units exactly when its body is the
      length-prefixed encoding of that list. */
  lemma StapExact(body: Bytes, raws: seq<Bytes>)
    requires Aggregable(raws)
    ensures StapNals(body) == Ok(AnnexbAll(raws)) <==> body == StapBody(raws)
  {
    StapDecodesEncoding(raws);
    if StapNals(body) == Ok(AnnexbAll(raws)) {
      var found := StapAcceptsOnlyEncodings(body);
      assert |found| == |raws|;
      forall i | 0 <= i < |raws|
        ensures found[i] == raws[i]
      {
        assert AnnexbAll(found)[i] == AnnexbAll(raws)[i];
        FromRawInjective(found[i], raws[i]);
      }
      assert found == raws;
    }
  }

  /** Which payloads are taken: none at all; a single NAL unit; a STAP-A whose body is the
      encoding of some NAL units; and an FU-A that starts a NAL unit or goes on with one. */
  ghost predicate Acceptable(s: DepState, payload: Bytes) {
    || payload == []
    || 1 <= payload[0] % 0x20 <= 23
    || (payload[0] % 0x20 == 24 && exists raws :: Aggregable(raws) && StapBody(raws) == payload[1..])
    || (payload[0] % 0x20 == 28 && 2 <= |payload| && (0x80 <= payload[1] || s.fuActive))
  }

  /** These are taken, and no others: in particular no payload of type 0, 25 to 27 or 29 to 31. */
  lemma AcceptsExactly(s: DepState, payload: Bytes)
    ensures Push(s, payload).nals.Ok? <==> Acceptable(s, payload)
  {
    hide StapNals, StapBody;
    if payload != [] && payload[0] % 0x20 == 24 {
      if StapNals(payload[1..]).Ok? {
        var raws := StapAcceptsOnlyEncodings(payload[1..]);
      } else if raws :| Aggregable(raws) && StapBody(raws) == payload[1..] {
        StapDecodesEncoding(raws);
      }
    }
  }

  // ---------------------------------------------------------------------------
  // FU-A: fragmenting and reassembling
  // ---------------------------------------------------------------------------

  /** Fragment `k` of a NAL unit whose bytes behind the header are `Concat(parts)`. */
  function Fragment(header: u8, parts: seq<Bytes>, k: nat): Bytes
    requires k < |parts|
  {
    [ 0x20 * (header / 0x20) + 28,
      (if k == 0 then 0x80 else 0) + (if k == |parts| - 1 then 0x40 else 0) + header % 0x20 ]
    + parts[k]
  }

  function Fragments(header: u8, parts: seq<Bytes>): (f: seq<Bytes>)
    ensures |f| == |parts| && forall k :: 0 <= k < |parts| ==> f[k] == Fragment(header, parts, k)
  {
    seq(|parts|, k requires 0 <= k < |parts| => Fragment(header, parts, k))
  }

  lemma FragmentFields(header: u8, parts: seq<Bytes>, k: nat)
    requires k < |parts|
    ensures
      var f := Fragment(header, parts, k);
      && f[0] % 0x20 == 28
      && (Bit80(f[1]) <==> k == 0)
      && (Bit40(f[1]) <==> k == |parts| - 1)
      && FragmentedHeader(f[0], f[1]) == header
      && f[2..] == parts[k]
  {
    var f := Fragment(header, parts, k);
    FlagBits(k == 0, k == |parts| - 1, header % 0x20);
    assert f[2..] == parts[k];
  }

  lemma FlagBits(start: bool, end: bool, t: nat)
    requires t < 0x20
    ensures
      var h: u8 := (if start then 0x80 else 0) + (if end then 0x40 else 0) + t;
      && (Bit80(h) <==> start) && (Bit40(h) <==> end) && h % 0x20 == t
  {
  }

  /** After fragments `0..k` the buffer holds the start code, the header and their bytes. */
  lemma {:induction false} FragmentsUnderWay(s: DepState, header: u8, parts: seq<Bytes>, k: nat)
    requires 1 <= k < |parts|
    ensures PushAll(s, Fragments(header, parts)[..k])
         == DepStep(DepState(true, START_CODE + [header] + Concat(parts[..k])), Ok([]))
  {
    var fs := Fragments(header, parts);
    var last := fs[k - 1];
    FragmentFields(header, parts, k - 1);
    assert fs[..k] == fs[..k - 1] + [last];
    assert parts[..k] == parts[..k - 1] + [parts[k - 1]];
    ConcatAppend(parts[..k - 1], [parts[k - 1]]);
    ConcatOne(parts[k - 1]);
    if k == 1 {
      PushAllOne(s, last);
      assert fs[..1] == [last];
      assert parts[..0] == [];
    } else {
      FragmentsUnderWay(s, header, parts, k - 1);
      PushAllAppend(s, fs[..k - 1], [last]);
      PushAllOne(PushAll(s, fs[..k - 1]).state, last);
      assert START_CODE + [header] + Concat(parts[..k])
          == START_CODE + [header] + Concat(parts[..k - 1]) + parts[k - 1];
    }
  }

  /** A NAL unit cut into two or more fragments, anywhere, comes back as the same NAL unit
      behind one start code; whatever was half-reassembled before is dropped, and nothing
      is left over. */
  lemma FragmentsReassemble(s: DepState, header: u8, parts: seq<Bytes>)
    requires 2 <= |parts|
    ensures PushAll(s, Fragments(header, parts)) == DepStep(IDLE, Ok([FromRaw([header] + Concat(parts))]))
  {
    hide Concat, Fragment, Fragments, PushAll, Push;
    var fs := Fragments(header, parts);
    var k := |parts| - 1;
    var buf := START_CODE + [header] + Concat(parts[..k]);
    FragmentsUnderWay(s, header, parts, k);
    LastFragment(buf, header, parts);
    assert fs == fs[..k] + [fs[k]];
    assert parts == parts[..k] + [parts[k]];
    PushAllAppend(s, fs[..k], [fs[k]]);
    PushAllOne(DepState(true, buf), fs[k]);
    PrependNothing(Push(DepState(true, buf), fs[k]).nals);
    ConcatAppend(parts[..k], [parts[k]]);
    ConcatOne(parts[k]);
    assert buf + parts[k] == FromRaw([header] + Concat(parts));
  }

  lemma LastFragment(buf: Bytes, header: u8, parts: seq<Bytes>)
    requires 2 <= |parts|
    ensures
      var k := |parts| - 1;
      Push(DepState(true, buf), Fragment(header, parts, k)) == DepStep(IDLE, Ok([buf + parts[k]]))
  {
    FragmentFields(header, parts, |parts| - 1);
  }
}
