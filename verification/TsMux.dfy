/** The MPEG transport stream writer: PES packets with a PTS (section 2.4.3.7 of
    ISO/IEC 13818-1), transport packets with adaptation-field stuffing (sections 2.4.3.2 to
    2.4.3.5), and the two program tables in front of the video.
 */
module TsMux {
  import opened Prelude
  import opened Crc32

  const PAT_PID: u16 := 0x0000
  const PMT_PID: u16 := 0x1000
  const VIDEO_PID: u16 := 0x0100
  const TS_PACKET_SIZE: nat := 188
  const H264_STREAM_TYPE: u8 := 0x1B
  const H264_STREAM_ID: u8 := 0xE0

  datatype AccessUnit = AccessUnit(rtpTimestamp: u32, nals: seq<Bytes>, hasIdr: bool)

  // ---------------------------------------------------------------------------
  // PES
  // ---------------------------------------------------------------------------

  const TWO_33: nat := 0x2_0000_0000

  /** The 33-bit PTS in five bytes, with the marker bits of section 2.4.3.7. */
  function EncodePts(pts90k: nat): (b: Bytes)
    ensures |b| == 5
  {
    var pts := pts90k % TWO_33;
    [ 0x20 + 2 * ((pts / 0x4000_0000) % 0x08) + 1,
      (pts / 0x40_0000) % 0x100,
      2 * ((pts / 0x8000) % 0x80) + 1,
      (pts / 0x80) % 0x100,
      2 * (pts % 0x80) + 1 ]
  }

  function BuildPesVideo(pts90k: nat, payload: Bytes): Bytes {
    [0x00, 0x00, 0x01, H264_STREAM_ID] + [0, 0] + [0x80] + [0x80] + [0x05] + EncodePts(pts90k) + payload
  }

  // ---------------------------------------------------------------------------
  // Transport packets
  // ---------------------------------------------------------------------------

  function Stuffing(n: nat): Bytes {
    seq(n, i => 0xFF)
  }

  /** An adaptation field that leaves room for `take` bytes of payload. */
  function Adaptation(take: nat): (a: Bytes)
    requires take <= 184
    ensures |a| == 184 - take
  {
    if take == 184 then []
    else if take == 183 then [0]
    else [183 - take, 0x00] + Stuffing(182 - take)
  }

  function TsHeader(pid: u16, take: nat, cc: u4, start: bool): (h: Bytes)
    ensures |h| == 4
  {
    [ 0x47,
      (if start then 0x40 else 0) + (pid / 0x100) % 0x20,
      pid % 0x100,
      (if take < 184 then 0x30 else 0x10) + cc ]
  }

  /** One packet around at most 184 bytes of payload. */
  function TsPacket(pid: u16, chunk: Bytes, cc: u4, start: bool): (p: Bytes)
    requires |chunk| <= 184
    ensures |p| == TS_PACKET_SIZE
  {
    TsHeader(pid, |chunk|, cc, start) + Adaptation(|chunk|) + chunk
  }

  function Next(cc: u4): u4 {
    (cc + 1) % 0x10
  }

  /** A payload cut into packets; only the first one carries the start indicator. */
  function TsPackets(pid: u16, payload: Bytes, cc: u4, start: bool): Bytes
    decreases |payload|
  {
    if payload == [] then []
    else
      var take := Min(|payload|, 184);
      TsPacket(pid, payload[..take], cc, start) + TsPackets(pid, payload[take..], Next(cc), false)
  }

  /** The continuity counter after a payload of `n` bytes. */
  function CounterAfter(n: nat, cc: u4): u4 {
    if n == 0 then cc else CounterAfter(n - Min(n, 184), Next(cc))
  }

  lemma {:induction false} TsPacketsLength(pid: u16, payload: Bytes, cc: u4, start: bool)
    ensures |TsPackets(pid, payload, cc, start)| % TS_PACKET_SIZE == 0
    decreases |payload|
  {
    if payload != [] {
      var take := Min(|payload|, 184);
      TsPacketsLength(pid, payload[take..], Next(cc), false);
    }
  }

  /** `packetize_ts`. */
  method PacketizeTs(pid: u16, payload: Bytes, continuityCounter: u4, payloadUnitStart: bool)
    returns (packets: Bytes, counter: u4)
    ensures packets == TsPackets(pid, payload, continuityCounter, payloadUnitStart)
    ensures counter == CounterAfter(|payload|, continuityCounter)
  {
    hide TsPackets, TsPacket, CounterAfter, Next;
    packets := [];
    counter := continuityCounter;
    var offset := 0;
    var first := true;
    assert payload[0..] == payload;
    while offset < |payload|
      invariant 0 <= offset <= |payload|
      invariant TsPackets(pid, payload, continuityCounter, payloadUnitStart)
             == packets + TsPackets(pid, payload[offset..], counter, first && payloadUnitStart)
      invariant CounterAfter(|payload|, continuityCounter) == CounterAfter(|payload| - offset, counter)
    {
      var remaining := |payload| - offset;
      var take := Min(remaining, 184);
      FirstPacket(pid, payload, offset, counter, first && payloadUnitStart);
      var packet := FillPacket(pid, payload[offset..offset + take], counter, first && payloadUnitStart);
      ghost var tail := TsPackets(pid, payload[offset + take..], Next(counter), false);
      assert packets + (packet[..] + tail) == packets + packet[..] + tail;
      packets := packets + packet[..];
      counter := Next(counter);
      offset := offset + take;
      first := false;
    }
    assert payload[offset..] == [];
    NoPackets(pid, counter, first && payloadUnitStart);
  }

  lemma NoPackets(pid: u16, cc: u4, start: bool)
    ensures TsPackets(pid, [], cc, start) == [] && CounterAfter(0, cc) == cc
  {
  }

  lemma {:induction false} FirstPacket(pid: u16, payload: Bytes, offset: nat, cc: u4, start: bool)
    requires offset < |payload|
    ensures
      var take := Min(|payload| - offset, 184);
      TsPackets(pid, payload[offset..], cc, start)
      == TsPacket(pid, payload[offset..offset + take], cc, start)
         + TsPackets(pid, payload[offset + take..], Next(cc), false)
    ensures CounterAfter(|payload| - offset, cc)
         == CounterAfter(|payload| - (offset + Min(|payload| - offset, 184)), Next(cc))
  {
    hide TsPacket, Next;
    var take := Min(|payload| - offset, 184);
    var rest := payload[offset..];
    assert rest[..take] == payload[offset..offset + take] && rest[take..] == payload[offset + take..];
  }

  /** The body of the packetizer's loop: a zeroed packet, filled in place. */
  method FillPacket(pid: u16, chunk: Bytes, counter: u4, start: bool) returns (packet: array<u8>)
    requires 1 <= |chunk| <= 184
    ensures fresh(packet) && packet[..] == TsPacket(pid, chunk, counter, start)
  {
    var take := |chunk|;
    var useAdaptation := take < 184;
    packet := new u8[TS_PACKET_SIZE](i => 0);
    packet[0] := 0x47;
    packet[1] := (if start then 0x40 else 0) + (pid / 0x100) % 0x20;
    packet[2] := pid % 0x100;
    packet[3] := (if useAdaptation then 0x30 else 0x10) + counter;
    assert packet[..4] == TsHeader(pid, take, counter, start);
    hide TsHeader, Adaptation;

    var writeOffset := 4;
    if useAdaptation {
      writeOffset := FillAdaptation(packet, take);
    }
    ghost var front := packet[..writeOffset];
    assert front == TsHeader(pid, take, counter, start) + Adaptation(take) by {
      assert front == packet[..4] + packet[4..writeOffset];
    }
    CopyFromSlice(packet, writeOffset, chunk);
    assert packet[..] == packet[..writeOffset] + packet[writeOffset..];
    assert packet[..] == TsHeader(pid, take, counter, start) + Adaptation(take) + chunk;
  }

  /** `packet[offset..].copy_from_slice(chunk)`. */
  method CopyFromSlice(packet: array<u8>, offset: nat, chunk: Bytes)
    requires offset + |chunk| == packet.Length
    modifies packet
    ensures packet[..offset] == old(packet[..offset]) && packet[offset..] == chunk
  {
    for k := 0 to |chunk|
      invariant packet[..offset] == old(packet[..offset])
      invariant packet[offset..offset + k] == chunk[..k]
    {
      packet[offset + k] := chunk[k];
    }
  }

  /** The adaptation field: its length, no flags, and stuffing bytes. */
  method FillAdaptation(packet: array<u8>, take: nat) returns (writeOffset: nat)
    requires packet.Length == TS_PACKET_SIZE && 1 <= take < 184
    modifies packet
    ensures writeOffset == 188 - take
    ensures packet[..4] == old(packet[..4])
    ensures packet[4..writeOffset] == Adaptation(take)
  {
    var adaptationFieldLength := 183 - take;
    packet[4] := adaptationFieldLength;
    writeOffset := 5;
    if adaptationFieldLength > 0 {
      packet[writeOffset] := 0x00;
      writeOffset := writeOffset + 1;
      for idx := 1 to adaptationFieldLength
        invariant packet[..4] == old(packet[..4])
        invariant packet[4] == adaptationFieldLength && packet[5] == 0x00
        invariant forall j :: 6 <= j < 5 + idx ==> packet[j] == 0xFF
      {
        packet[writeOffset + idx - 1] := 0xFF;
      }
      writeOffset := writeOffset + (adaptationFieldLength - 1);
    }
  }

  // ---------------------------------------------------------------------------
  // Program tables
  // ---------------------------------------------------------------------------

  const PAT_BODY: Bytes :=
    [0x00, 0xB0, 0x0D, 0, 1, 0xC1, 0x00, 0x00, 0, 1, 0xE0 + PMT_PID / 0x100 % 0x20, PMT_PID % 0x100]

  const PMT_BODY: Bytes :=
    [0x02, 0xB0, 0x12, 0, 1, 0xC1, 0x00, 0x00,
     0xE0 + VIDEO_PID / 0x100 % 0x20, VIDEO_PID % 0x100, 0xF0, 0x00,
     H264_STREAM_TYPE, 0xE0 + VIDEO_PID / 0x100 % 0x20, VIDEO_PID % 0x100, 0xF0, 0x00]

  /** A section body with its CRC, behind a pointer field. */
  function SectionPayload(body: Bytes): Bytes {
    [0x00] + (body + BigEndian(Feed(ONES, body)))
  }

  method BuildPatPacket(continuityCounter: u4) returns (packet: Bytes, counter: u4)
    ensures packet == TsPackets(PAT_PID, SectionPayload(PAT_BODY), continuityCounter, true)
    ensures counter == CounterAfter(|SectionPayload(PAT_BODY)|, continuityCounter)
  {
    hide BigEndian, Feed, TsPackets, CounterAfter;
    var section: Bytes := [0x00, 0xB0, 0x0D] + [0, 1] + [0xC1, 0x00, 0x00] + [0, 1];
    section := section + [0xE0 + PMT_PID / 0x100 % 0x20, PMT_PID % 0x100];
    assert section == PAT_BODY;
    var crc := MpegCrc32(section);
    section := section + BigEndian(crc);
    var payload := [0x00];
    payload := payload + section;
    packet, counter := PacketizeTs(PAT_PID, payload, continuityCounter, true);
  }

  method BuildPmtPacket(continuityCounter: u4) returns (packet: Bytes, counter: u4)
    ensures packet == TsPackets(PMT_PID, SectionPayload(PMT_BODY), continuityCounter, true)
    ensures counter == CounterAfter(|SectionPayload(PMT_BODY)|, continuityCounter)
  {
    hide BigEndian, Feed, TsPackets, CounterAfter;
    var section: Bytes := [0x02, 0xB0, 0x12] + [0, 1] + [0xC1, 0x00, 0x00];
    section := section + [0xE0 + VIDEO_PID / 0x100 % 0x20, VIDEO_PID % 0x100, 0xF0, 0x00];
    section := section + [H264_STREAM_TYPE, 0xE0 + VIDEO_PID / 0x100 % 0x20, VIDEO_PID % 0x100, 0xF0, 0x00];
    assert section == PMT_BODY;
    var crc := MpegCrc32(section);
    section := section + BigEndian(crc);
    var payload := [0x00];
    payload := payload + section;
    packet, counter := PacketizeTs(PMT_PID, payload, continuityCounter, true);
  }

  // ---------------------------------------------------------------------------
  // Segments
  // ---------------------------------------------------------------------------

  function PesOf(au: AccessUnit): (pes: Bytes)
    ensures pes != []
  {
    BuildPesVideo(au.rtpTimestamp, Concat(au.nals))
  }

  /** The video counter after some access units. */
  function VideoCounter(aus: seq<AccessUnit>): u4 {
    if aus == [] then 0
    else CounterAfter(|PesOf(aus[|aus| - 1])|, VideoCounter(aus[..|aus| - 1]))
  }

  function VideoBytes(aus: seq<AccessUnit>): Bytes {
    if aus == [] then []
    else
      var front := aus[..|aus| - 1];
      VideoBytes(front) + TsPackets(VIDEO_PID, PesOf(aus[|aus| - 1]), VideoCounter(front), true)
  }

  function Tables(): Bytes {
    TsPackets(PAT_PID, SectionPayload(PAT_BODY), 0, true) + TsPackets(PMT_PID, SectionPayload(PMT_BODY), 0, true)
  }

  /** The whole file of a segment that holds these access units. */
  function SegmentBytes(aus: seq<AccessUnit>): Bytes {
    Tables() + VideoBytes(aus)
  }

  lemma {:induction false} SegmentBytesSnoc(aus: seq<AccessUnit>, au: AccessUnit)
    ensures SegmentBytes(aus + [au])
         == SegmentBytes(aus) + TsPackets(VIDEO_PID, PesOf(au), VideoCounter(aus), true)
    ensures VideoCounter(aus + [au]) == CounterAfter(|PesOf(au)|, VideoCounter(aus))
  {
    hide PesOf, TsPackets, CounterAfter, Tables;
    var all := aus + [au];
    assert all[..|all| - 1] == aus && all[|all| - 1] == au;
    var tail := TsPackets(VIDEO_PID, PesOf(au), VideoCounter(aus), true);
    assert Tables() + (VideoBytes(aus) + tail) == Tables() + VideoBytes(aus) + tail;
  }
}
