/** RTP packets (section 5.1 of RFC 3550): the slice parser and the zero-copy parser,
    and the serializer that both of them invert.
 */
module Rtp {
  import opened Prelude

  datatype RtpError =
    | TooShort
    | BadVersion
    | BadCsrcList
    | BadExtension
    | BadPadding

  /** What the slice parser returns. */
  datatype RtpPacket = RtpPacket(
    padding: bool,
    extension: bool,
    csrcCount: u4,
    marker: bool,
    payloadType: u8,
    sequenceNumber: u16,
    timestamp: u32,
    ssrc: u32,
    payload: Bytes)

  // ---------------------------------------------------------------------------
  // The wire format
  // ---------------------------------------------------------------------------

  /** A header extension: a profile word and whole 32-bit words of data. */
  datatype Extension = Extension(profile: u16, data: Bytes)

  /** A packet as section 5.1 of RFC 3550 lays it out, version 2. */
  datatype Wire = Wire(
    marker: bool,
    payloadType: u8,
    sequenceNumber: u16,
    timestamp: u32,
    ssrc: u32,
    csrcs: Bytes,
    extension: Option<Extension>,
    payload: Bytes,
    padding: Bytes)
  {
    ghost predicate Valid() {
      && payloadType < 0x80
      && |csrcs| % 4 == 0 && |csrcs| <= 60
      && (extension.Some? ==> |extension.value.data| % 4 == 0 && |extension.value.data| / 4 < 0x1_0000)
      && (padding != [] ==> padding[|padding| - 1] == |padding|)
    }

    ghost function ExtensionBytes(): Bytes
      requires Valid()
    {
      match extension
      case None => []
      case Some(e) => Be16(e.profile) + Be16(|e.data| / 4) + e.data
    }

    ghost function FixedHeader(): (h: Bytes)
      requires Valid()
      ensures |h| == 12
    {
      [ 0x80 + (if padding != [] then 0x20 else 0) + (if extension.Some? then 0x10 else 0) + |csrcs| / 4,
        (if marker then 0x80 else 0) + payloadType ]
      + Be16(sequenceNumber) + Be32(timestamp) + Be32(ssrc)
    }

    ghost function Encode(): Bytes
      requires Valid()
    {
      FixedHeader() + csrcs + ExtensionBytes() + payload + padding
    }

    function Packet(): RtpPacket
      requires Valid()
    {
      RtpPacket(padding != [], extension.Some?, |csrcs| / 4, marker, payloadType,
                sequenceNumber, timestamp, ssrc, payload)
    }
  }

  // ---------------------------------------------------------------------------
  // Decoding
  // ---------------------------------------------------------------------------

  predicate HasPadding(buf: Bytes)
    requires 12 <= |buf|
  {
    Bit20(buf[0])
  }

  predicate HasExtension(buf: Bytes)
    requires 12 <= |buf|
  {
    Bit10(buf[0])
  }

  function AfterCsrcs(buf: Bytes): nat
    requires 12 <= |buf|
  {
    12 + 4 * (buf[0] % 0x10)
  }

  /** Where the extension, if any, ends. */
  function AfterExtension(buf: Bytes): Result<nat, RtpError>
    requires 12 <= |buf|
  {
    var off := AfterCsrcs(buf);
    if |buf| < off then Err(BadCsrcList)
    else if !HasExtension(buf) then Ok(off)
    else if |buf| < off + 4 then Err(BadExtension)
    else
      var end := off + 4 + 4 * U16(buf[off + 2], buf[off + 3]);
      if |buf| < end then Err(BadExtension) else Ok(end)
  }

  /** How many bytes of padding end the packet. */
  function PaddingLength(buf: Bytes, off: nat): Result<nat, RtpError>
    requires 12 <= |buf| && off <= |buf|
  {
    if !HasPadding(buf) then Ok(0)
    else
      var n := buf[|buf| - 1];
      if n == 0 || n > |buf| - off then Err(BadPadding) else Ok(n)
  }

  function Decode(buf: Bytes): Result<RtpPacket, RtpError> {
    if |buf| < 12 then Err(TooShort)
    else if buf[0] / 0x40 != 2 then Err(BadVersion)
    else
      match AfterExtension(buf)
      case Err(e) => Err(e)
      case Ok(off) =>
        match PaddingLength(buf, off)
        case Err(e) => Err(e)
        case Ok(pad) =>
          Ok(RtpPacket(
               HasPadding(buf), HasExtension(buf), buf[0] % 0x10,
               Bit80(buf[1]), buf[1] % 0x80,
               U16(buf[2], buf[3]),
               U32(buf[4], buf[5], buf[6], buf[7]),
               U32(buf[8], buf[9], buf[10], buf[11]),
               buf[off..|buf| - pad]))
  }

  /** `RtpPacket::parse` over a slice. */
  method ParseSlice(buf: Bytes) returns (r: Result<RtpPacket, RtpError>)
    ensures r == Decode(buf)
  {
    hide U16, U32, Bit20, Bit10, Bit80;
    if |buf| < 12 {
      return Err(TooShort);
    }
    var b0 := buf[0];
    var b1 := buf[1];
    var version := b0 / 0x40;
    if version != 2 {
      return Err(BadVersion);
    }
    var padding := Bit20(b0);
    var extension := Bit10(b0);
    var csrcCount := b0 % 0x10;
    var marker := Bit80(b1);
    var payloadType := b1 % 0x80;
    var sequenceNumber := U16(buf[2], buf[3]);
    var timestamp := U32(buf[4], buf[5], buf[6], buf[7]);
    var ssrc := U32(buf[8], buf[9], buf[10], buf[11]);

    var off: nat := 12;
    var csrcBytes: nat := csrcCount * 4;
    if |buf| < off + csrcBytes {
      return Err(BadCsrcList);
    }
    off := off + csrcBytes;

    if extension {
      if |buf| < off + 4 {
        return Err(BadExtension);
      }
      var extLenWords: nat := U16(buf[off + 2], buf[off + 3]);
      off := off + 4;
      var extBytes: nat := extLenWords * 4;
      if |buf| < off + extBytes {
        return Err(BadExtension);
      }
      off := off + extBytes;
    }
    assert AfterExtension(buf) == Ok(off);

    var end: nat := |buf|;
    if padding {
      var padLen := buf[end - 1];
      if padLen == 0 || padLen > end - off {
        return Err(BadPadding);
      }
      end := end - padLen;
    }
    assert PaddingLength(buf, off) == Ok(|buf| - end);

    var payload := buf[off..end];
    r := Ok(RtpPacket(padding, extension, csrcCount, marker, payloadType,
                      sequenceNumber, timestamp, ssrc, payload));
  }

  /** The sequence number that follows. */
  function NextSeq(s: u16): u16 {
    (s + 1) % 0x1_0000
  }

  // ---------------------------------------------------------------------------
  // The zero-copy parser
  // ---------------------------------------------------------------------------

  /** What the zero-copy parser returns: the whole buffer and where the payload lies in it. */
  datatype SharedPacket = SharedPacket(
    data: Bytes,
    payloadOffset: nat,
    payloadLen: nat,
    sequenceNumber: u16,
    timestamp: u32,
    ssrc: u32,
    marker: bool,
    payloadType: u8)
  {
    ghost predicate Valid() {
      payloadOffset + payloadLen <= |data|
    }

    function Payload(): Bytes
      requires Valid()
    {
      data[payloadOffset..payloadOffset + payloadLen]
    }
  }

  ghost predicate SameOutcome(r: Result<SharedPacket, RtpError>, data: Bytes, d: Result<RtpPacket, RtpError>) {
    match (r, d)
    case (Err(e), Err(f)) => e == f
    case (Ok(s), Ok(p)) =>
      && s.Valid() && s.data == data && s.Payload() == p.payload
      && s.sequenceNumber == p.sequenceNumber && s.timestamp == p.timestamp && s.ssrc == p.ssrc
      && s.marker == p.marker && s.payloadType == p.payloadType
    case _ => false
  }

  lemma BothReject(data: Bytes)
    ensures Decode(data).Err? ==> SameOutcome(Err(Decode(data).error), data, Decode(data))
  {
    hide Decode;
  }

  lemma BothAccept(data: Bytes, offset: nat, end: nat)
    requires 12 <= |data| && data[0] / 0x40 == 2 && offset <= end <= |data|
    requires AfterExtension(data) == Ok(offset) && PaddingLength(data, offset) == Ok(|data| - end)
    ensures
      var s := SharedPacket(data, offset, end - offset, U16(data[2], data[3]), U32(data[4], data[5], data[6], data[7]),
                            U32(data[8], data[9], data[10], data[11]), Bit80(data[1]), data[1] % 0x80);
      SameOutcome(Ok(s), data, Decode(data))
  {
    hide U16, U32, Bit20, Bit10, Bit80, AfterExtension, PaddingLength;
  }

  /** The zero-copy parser accepts what the slice parser accepts, with the same fields,
      the same payload and the same classification of every rejected buffer. */
  method ParseShared(data: Bytes) returns (r: Result<SharedPacket, RtpError>)
    ensures SameOutcome(r, data, Decode(data))
  {
    hide U16, U32, Bit20, Bit10, Bit80, SameOutcome;
    BothReject(data);
    if |data| < 12 {
      return Err(TooShort);
    }
    var b0 := data[0];
    var b1 := data[1];
    var version := b0 / 0x40;
    if version != 2 {
      return Err(BadVersion);
    }
    var padding := Bit20(b0);
    var extension := Bit10(b0);
    var csrcCount := b0 % 0x10;

    var offset: nat := 12;
    var csrcBytes: nat := csrcCount * 4;
    if |data| < offset + csrcBytes {
      return Err(BadCsrcList);
    }
    offset := offset + csrcBytes;

    if extension {
      if |data| < offset + 4 {
        return Err(BadExtension);
      }
      var extLenWords: nat := U16(data[offset + 2], data[offset + 3]);
      offset := offset + 4;
      var extBytes: nat := extLenWords * 4;
      if |data| < offset + extBytes {
        return Err(BadExtension);
      }
      offset := offset + extBytes;
    }
    assert AfterExtension(data) == Ok(offset);

    var payloadEnd: nat := |data|;
    if padding {
      var padLen := data[payloadEnd - 1];
      if padLen == 0 || padLen > payloadEnd - offset {
        return Err(BadPadding);
      }
      payloadEnd := payloadEnd - padLen;
    }
    assert PaddingLength(data, offset) == Ok(|data| - payloadEnd);

    r := Ok(SharedPacket(data, offset, payloadEnd - offset,
                         U16(data[2], data[3]),
                         U32(data[4], data[5], data[6], data[7]),
                         U32(data[8], data[9], data[10], data[11]),
                         Bit80(b1), b1 % 0x80));
    BothAccept(data, offset, payloadEnd);
  }

  // ---------------------------------------------------------------------------
  // Decoding and encoding are inverse
  // ---------------------------------------------------------------------------

  /** Where each part of an encoded packet lies. */
  lemma EncodeLayout(w: Wire)
    requires w.Valid()
    ensures
      var buf := w.Encode();
      var c := 12 + |w.csrcs|;
      var x := c + |w.ExtensionBytes()|;
      && |buf| == x + |w.payload| + |w.padding|
      && buf[..12] == w.FixedHeader()
      && (forall i :: 0 <= i < 12 ==> buf[i] == w.FixedHeader()[i])
      && buf[c..x] == w.ExtensionBytes()
      && (forall i :: 0 <= i < |w.ExtensionBytes()| ==> buf[c + i] == w.ExtensionBytes()[i])
      && buf[x..x + |w.payload|] == w.payload
      && (w.padding != [] ==> buf[|buf| - 1] == |w.padding|)
  {
  }

  lemma FirstByteFlags(w: Wire, b0: u8)
    requires w.Valid() && b0 == w.FixedHeader()[0]
    ensures b0 / 0x40 == 2 && b0 % 0x10 == |w.csrcs| / 4
    ensures Bit20(b0) <==> w.padding != []
    ensures Bit10(b0) <==> w.extension.Some?
  {
    FlagSum(w.padding != [], w.extension.Some?, |w.csrcs| / 4);
  }

  lemma FlagSum(p: bool, x: bool, c: u4)
    ensures
      var b := 0x80 + (if p then 0x20 else 0) + (if x then 0x10 else 0) + c;
      b / 0x40 == 2 && b % 0x10 == c && (Bit20(b) <==> p) && (Bit10(b) <==> x)
  {
    if p {
      if x {} else {}
    } else {
      if x {} else {}
    }
  }

  lemma FixedFields(w: Wire)
    requires w.Valid()
    ensures
      var h := w.FixedHeader();
      && Bit80(h[1]) == w.marker && h[1] % 0x80 == w.payloadType
      && U16(h[2], h[3]) == w.sequenceNumber
      && U32(h[4], h[5], h[6], h[7]) == w.timestamp
      && U32(h[8], h[9], h[10], h[11]) == w.ssrc
  {
    hide Be16, Be32, U16, U32;
    var h := w.FixedHeader();
    U16At(h, 2, w.sequenceNumber);
    U32At(h, 4, w.timestamp);
    U32At(h, 8, w.ssrc);
  }

  lemma ExtensionFound(w: Wire)
    requires w.Valid()
    ensures
      var buf := w.Encode();
      AfterExtension(buf) == Ok(12 + |w.csrcs| + |w.ExtensionBytes()|)
  {
    hide Be16, Be32, U16, U32, Wire.Encode, Wire.FixedHeader;
    var buf := w.Encode();
    EncodeLayout(w);
    FirstByteFlags(w, buf[0]);
    var c := 12 + |w.csrcs|;
    assert AfterCsrcs(buf) == c;
    if w.extension.Some? {
      var e := w.extension.value;
      assert buf[c + 2] == w.ExtensionBytes()[2] == Be16(|e.data| / 4)[0];
      assert buf[c + 3] == w.ExtensionBytes()[3] == Be16(|e.data| / 4)[1];
    }
  }

  /** Parsing inverts the serializer, for every header, CSRC list, extension, payload
      and padding. */
  lemma {:induction false} DecodeInvertsEncode(w: Wire)
    requires w.Valid()
    ensures Decode(w.Encode()) == Ok(w.Packet())
  {
    hide Be16, Be32, U16, U32;
    var buf := w.Encode();
    EncodeLayout(w);
    FirstByteFlags(w, buf[0]);
    FixedFields(w);
    ExtensionFound(w);
  }

  /** The packet that an accepted buffer serializes. */
  function WireOf(buf: Bytes): Wire
    requires Decode(buf).Ok?
  {
    var p := Decode(buf).value;
    var c := AfterCsrcs(buf);
    var x := AfterExtension(buf).value;
    var pad := PaddingLength(buf, x).value;
    Wire(p.marker, p.payloadType, p.sequenceNumber, p.timestamp, p.ssrc,
         buf[12..c],
         if p.extension then Some(Extension(U16(buf[c], buf[c + 1]), buf[c + 4..x])) else None,
         p.payload,
         buf[|buf| - pad..])
  }

  lemma SplitFive(buf: Bytes, a: nat, b: nat, c: nat, d: nat)
    requires a <= b <= c <= d <= |buf|
    ensures buf[..a] + buf[a..b] + buf[b..c] + buf[c..d] + buf[d..] == buf
  {
    assert buf[..a] + buf[a..b] == buf[..b];
    assert buf[..b] + buf[b..c] == buf[..c];
    assert buf[..c] + buf[c..d] == buf[..d];
  }

  /** Every accepted buffer is the serialization of the packet it was parsed into: the
      parser accepts nothing that section 5.1 does not describe. */
  lemma {:induction false} DecodeAcceptsOnlyEncodings(buf: Bytes)
    requires Decode(buf).Ok?
    ensures WireOf(buf).Valid()
    ensures WireOf(buf).Encode() == buf
    ensures WireOf(buf).Packet() == Decode(buf).value
  {
    var c := AfterCsrcs(buf);
    var x := AfterExtension(buf).value;
    var y := |buf| - PaddingLength(buf, x).value;
    HeaderRebuilt(buf);
    ExtensionRebuilt(buf);
    SplitFive(buf, 12, c, x, y);
  }

  lemma FirstByteRebuilt(b0: u8)
    requires b0 / 0x40 == 2
    ensures b0 == 0x80 + (if Bit20(b0) then 0x20 else 0) + (if Bit10(b0) then 0x10 else 0) + b0 % 0x10
  {
  }

  lemma {:induction false} HeaderRebuilt(buf: Bytes)
    requires Decode(buf).Ok?
    ensures WireOf(buf).Valid()
    ensures WireOf(buf).FixedHeader() == buf[..12]
  {
    hide Be16, Be32, U16, U32;
    FirstByteRebuilt(buf[0]);
    ExtensionRebuilt(buf);
    Be16Inverse(buf[2], buf[3]);
    Be32Inverse(buf[4], buf[5], buf[6], buf[7]);
    Be32Inverse(buf[8], buf[9], buf[10], buf[11]);
    var w := WireOf(buf);
    assert w.FixedHeader() == [buf[0], buf[1]] + [buf[2], buf[3]]
        + [buf[4], buf[5], buf[6], buf[7]] + [buf[8], buf[9], buf[10], buf[11]];
  }

  lemma ExtensionRebuilt(buf: Bytes)
    requires Decode(buf).Ok?
    ensures WireOf(buf).Valid()
    ensures WireOf(buf).ExtensionBytes() == buf[AfterCsrcs(buf)..AfterExtension(buf).value]
  {
    hide Be16, U16, U32;
    var w := WireOf(buf);
    var c := AfterCsrcs(buf);
    assert |w.csrcs| == 4 * (buf[0] % 0x10);
    if w.extension.Some? {
      var words: nat := U16(buf[c + 2], buf[c + 3]);
      assert |w.extension.value.data| == 4 * words;
      assert |w.extension.value.data| / 4 == words;
      Be16Inverse(buf[c], buf[c + 1]);
      Be16Inverse(buf[c + 2], buf[c + 3]);
      assert w.ExtensionBytes() == buf[c..c + 2] + buf[c + 2..c + 4] + w.extension.value.data;
    }
  }

  lemma OuterParts(w: Wire)
    requires w.Valid()
    ensures
      var buf := w.Encode();
      && buf[12..12 + |w.csrcs|] == w.csrcs
      && buf[|buf| - |w.padding|..] == w.padding
  {
  }

  lemma ExtensionParts(e: Extension, f: Extension)
    requires |e.data| % 4 == 0 && |e.data| / 4 < 0x1_0000 && |f.data| % 4 == 0 && |f.data| / 4 < 0x1_0000
    requires Be16(e.profile) + Be16(|e.data| / 4) + e.data == Be16(f.profile) + Be16(|f.data| / 4) + f.data
    ensures e == f
  {
    hide U16;
    var b := Be16(e.profile) + Be16(|e.data| / 4) + e.data;
    assert b[..2] == Be16(e.profile) && b[..2] == Be16(f.profile);
    assert b[4..] == e.data && b[4..] == f.data;
  }

  lemma SamePacketSameLayout(a: Wire, b: Wire)
    requires a.Valid() && b.Valid() && a.Encode() == b.Encode() && a.Packet() == b.Packet()
    ensures a.csrcs == b.csrcs && a.ExtensionBytes() == b.ExtensionBytes() && a.padding == b.padding
  {
    hide Be16, Be32, Wire.Encode, Wire.ExtensionBytes, Wire.FixedHeader;
    EncodeLayout(a);
    EncodeLayout(b);
    OuterParts(a);
    OuterParts(b);
    ExtensionFound(a);
    ExtensionFound(b);
  }

  /** Different packets have different serializations: CSRC list, extension and padding
      included. */
  lemma EncodeIsInjective(a: Wire, b: Wire)
    requires a.Valid() && b.Valid() && a.Encode() == b.Encode()
    ensures a == b
  {
    hide Be16, Be32, Wire.Encode, Wire.FixedHeader;
    DecodeInvertsEncode(a);
    DecodeInvertsEncode(b);
    SamePacketSameLayout(a, b);
    if a.extension.Some? {
      ExtensionParts(a.extension.value, b.extension.value);
    }
  }
}
