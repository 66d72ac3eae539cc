/** A transport stream demultiplexer, as a player would run it on one segment file, and the
    round trip through the segment writer.

    It checks everything it reads: sync bytes, adaptation fields and their stuffing, the
    continuity of every counter it follows, the CRC of both program tables, and the marker
    bits around the PTS.  It finds the video by following PAT and PMT.
 */
module TsDemux {
  import opened Prelude
  import opened Crc32
  import opened TsMux

  datatype TsUnit = TsUnit(start: bool, pid: u16, counter: u4, payload: Bytes)

  /** The bytes of an adaptation field without flags: zeros where the flags are, then stuffing. */
  predicate OnlyStuffing(field: Bytes) {
    && (field != [] ==> field[0] == 0x00)
    && forall i :: 1 <= i < |field| ==> field[i] == 0xFF
  }

  /** Where the payload of a packet starts. */
  function PayloadStart(p: Bytes): Option<nat>
    requires |p| == TS_PACKET_SIZE
  {
    var control := p[3] / 0x10;
    if control == 1 then Some(4)
    else if control == 3 && p[4] <= 182 && OnlyStuffing(p[5..5 + p[4]]) then Some(5 + p[4])
    else None
  }

  function ParsePacket(p: Bytes): Option<TsUnit>
    requires |p| == TS_PACKET_SIZE
  {
    if p[0] != 0x47 || Bit80(p[1]) || Bit20(p[1]) || PayloadStart(p).None? then None
    else Some(TsUnit(Bit40(p[1]), U16(p[1] % 0x20, p[2]), p[3] % 0x10, p[PayloadStart(p).value..]))
  }

  /** What has been collected for one PID: the counter that must come next, once one was
      seen, and the payload units so far. */
  datatype Collected = Collected(next: Option<u4>, units: seq<Bytes>)

  const NOTHING: Collected := Collected(None, [])

  /** A packet of the followed PID: its counter fits, and it starts or continues a unit. */
  function Collect(c: Collected, u: TsUnit): Option<Collected> {
    if c.next.Some? && c.next.value != u.counter then None
    else if u.start then Some(Collected(Some((u.counter + 1) % 16), c.units + [u.payload]))
    else if c.units == [] then None
    else
      var n := |c.units| - 1;
      Some(Collected(Some((u.counter + 1) % 16), c.units[..n] + [c.units[n] + u.payload]))
  }

  function Follow(pid: u16, c: Collected, bytes: Bytes): Option<Collected>
    decreases |bytes|
  {
    if bytes == [] then Some(c)
    else if |bytes| < TS_PACKET_SIZE then None
    else
      var u := ParsePacket(bytes[..TS_PACKET_SIZE]);
      if u.None? then None
      else if u.value.pid != pid then Follow(pid, c, bytes[TS_PACKET_SIZE..])
      else
        var d := Collect(c, u.value);
        if d.None? then None else Follow(pid, d.value, bytes[TS_PACKET_SIZE..])
  }

  /** A section of a program table: the number behind its length, its version, and what lies
      between its header and its CRC. */
  datatype Section = Section(id: u16, version: nat, data: Bytes)

  /** The section of a payload unit: behind its pointer field, in the long form, as long as it
      says, in force, the only one of its table, with a valid CRC and every reserved bit set. */
  function SectionOf(payload: Bytes, tableId: u8): Option<Section> {
    if |payload| < 13 || payload[0] != 0 || payload[1] != tableId then None
    else
      var s := payload[1..];
      if |s| != 3 + U16(s[1] % 0x10, s[2]) || Feed(ONES, s) != ZERO then None
      else if s[1] / 0x10 != 0xB || s[5] / 0x40 != 3 || s[5] % 2 != 1 || s[6] != 0 || s[7] != 0 then None
      else Some(Section(U16(s[3], s[4]), s[5] / 2 % 0x20, s[8..|s| - 4]))
  }

  datatype Program = Program(number: u16, pmtPid: u16)

  /** The first entry of a PAT that is a program: number 0 stands for the network instead. */
  function FirstProgram(entries: Bytes): Option<Program>
    decreases |entries|
  {
    if |entries| < 4 || entries[2] / 0x20 != 7 then None
    else
      var number := U16(entries[0], entries[1]);
      if number == 0 then FirstProgram(entries[4..])
      else Some(Program(number, U16(entries[2] % 0x20, entries[3])))
  }

  function FindProgram(payload: Bytes): Option<Program> {
    var s := SectionOf(payload, 0x00);
    if s.None? then None else FirstProgram(s.value.data)
  }

  /** The PIDs of a program's clock and of its video. */
  datatype Video = Video(pcrPid: u16, pid: u16)

  /** The PID of the first H.264 stream among the streams of a PMT, each behind its descriptors'
      length. */
  function FirstVideo(streams: Bytes): Option<u16>
    decreases |streams|
  {
    if |streams| < 5 || streams[1] / 0x20 != 7 || streams[3] / 0x10 != 0xF then None
    else if streams[0] == 0x1B then Some(U16(streams[1] % 0x20, streams[2]))
    else
      var next := 5 + U16(streams[3] % 0x10, streams[4]);
      if next > |streams| then None else FirstVideo(streams[next..])
  }

  /** The H.264 video of a program, from its PMT. */
  function FindVideo(payload: Bytes, number: u16): Option<Video> {
    var s := SectionOf(payload, 0x02);
    if s.None? || s.value.id != number then None
    else
      var data := s.value.data;
      if |data| < 4 || data[0] / 0x20 != 7 || data[2] / 0x10 != 0xF then None
      else
        var streams := 4 + U16(data[2] % 0x10, data[3]);
        if streams > |data| || FirstVideo(data[streams..]).None? then None
        else Some(Video(U16(data[0] % 0x20, data[1]), FirstVideo(data[streams..]).value))
  }

  function DecodePts(b: Bytes): nat
    requires |b| == 5
  {
    var b0: nat, b1: nat, b2: nat, b3: nat, b4: nat := b[0], b[1], b[2], b[3], b[4];
    0x4000_0000 * ((b0 / 2) % 8) + 0x40_0000 * b1 + 0x8000 * (b2 / 2) + 0x80 * b3 + b4 / 2
  }

  /** One picture: its 33-bit time stamp and its elementary stream bytes. */
  datatype Picture = Picture(pts: nat, es: Bytes)

  /** A video PES packet of open length whose header holds a PTS. */
  function ParsePes(pes: Bytes): Option<Picture> {
    if |pes| < 14 || pes[..3] != [0, 0, 1] || pes[3] / 0x10 != 0xE || pes[4..6] != [0, 0] then None
    else if pes[6] / 0x40 != 2 || pes[7] / 0x40 != 2 || pes[8] < 5 || 9 + pes[8] > |pes| then None
    else
      var b := pes[9..14];
      if b[0] / 0x10 != 2 || b[0] % 2 != 1 || b[2] % 2 != 1 || b[4] % 2 != 1 then None
      else Some(Picture(DecodePts(b), pes[9 + pes[8]..]))
  }

  function ParseAllPes(units: seq<Bytes>): Option<seq<Picture>> {
    if units == [] then Some([])
    else
      var front, last := ParseAllPes(units[..|units| - 1]), ParsePes(units[|units| - 1]);
      if front.None? || last.None? then None else Some(front.value + [last.value])
  }

  /** The only unit of a PID. */
  function Single(pid: u16, bytes: Bytes): Option<Bytes> {
    var c := Follow(pid, NOTHING, bytes);
    if c.Some? && |c.value.units| == 1 then Some(c.value.units[0]) else None
  }

  /** Everything a player finds in a segment file: the PAT is on PID 0. */
  function Demux(bytes: Bytes): Option<seq<Picture>> {
    var pat := Single(0, bytes);
    if pat.None? || FindProgram(pat.value).None? then None
    else
      var program := FindProgram(pat.value).value;
      var pmt := Single(program.pmtPid, bytes);
      if pmt.None? || FindVideo(pmt.value, program.number).None? then None
      else
        var video := Follow(FindVideo(pmt.value, program.number).value.pid, NOTHING, bytes);
        if video.None? then None else ParseAllPes(video.value.units)
  }

  // ---------------------------------------------------------------------------
  // Packets
  // ---------------------------------------------------------------------------

  lemma HeaderFields(pid: u16, take: nat, cc: u4, start: bool)
    requires pid < 0x2000
    ensures
      var h := TsHeader(pid, take, cc, start);
      && h[0] == 0x47 && !Bit80(h[1]) && !Bit20(h[1]) && (Bit40(h[1]) <==> start)
      && U16(h[1] % 0x20, h[2]) == pid
      && h[3] % 0x10 == cc && h[3] / 0x10 == (if take < 184 then 3 else 1)
  {
    var hi := pid / 0x100;
    assert hi < 0x20 && hi % 0x20 == hi;
    if start {} else {}
  }

  /** A demultiplexer reads back every packet, for each of the 184 payload sizes. */
  lemma PacketRoundTrip(pid: u16, chunk: Bytes, cc: u4, start: bool)
    requires pid < 0x2000 && 1 <= |chunk| <= 184
    ensures ParsePacket(TsPacket(pid, chunk, cc, start)) == Some(TsUnit(start, pid, cc, chunk))
  {
    var p := TsPacket(pid, chunk, cc, start);
    var h, a := TsHeader(pid, |chunk|, cc, start), Adaptation(|chunk|);
    HeaderFields(pid, |chunk|, cc, start);
    assert p[0] == h[0] && p[1] == h[1] && p[2] == h[2] && p[3] == h[3];
    hide TsHeader, U16, Bit80, Bit40, Bit20;
    assert p[4 + |a|..] == chunk;
    if |chunk| < 184 {
      assert p[4] == a[0] == 183 - |chunk|;
      assert p[5..5 + p[4]] == a[1..];
    }
  }

  // ---------------------------------------------------------------------------
  // Payload units
  // ---------------------------------------------------------------------------

  lemma FollowFirst(pid: u16, c: Collected, p: Bytes, rest: Bytes)
    requires |p| == TS_PACKET_SIZE && ParsePacket(p).Some?
    ensures Follow(pid, c, p + rest) ==
      var u := ParsePacket(p).value;
      if u.pid != pid then Follow(pid, c, rest)
      else if Collect(c, u).None? then None
      else Follow(pid, Collect(c, u).value, rest)
  {
    hide ParsePacket, Collect;
    assert (p + rest)[..TS_PACKET_SIZE] == p && (p + rest)[TS_PACKET_SIZE..] == rest;
  }

  /** Packets of another PID change nothing. */
  lemma {:induction false} FollowOther(
      pid: u16, c: Collected, other: u16, payload: Bytes, cc: u4, start: bool, rest: Bytes)
    requires other < 0x2000 && other != pid
    ensures Follow(pid, c, TsPackets(other, payload, cc, start) + rest) == Follow(pid, c, rest)
    decreases |payload|
  {
    hide ParsePacket, TsPacket, Follow;
    if payload == [] {
      assert [] + rest == rest;
    } else {
      var take := Min(|payload|, 184);
      var p := TsPacket(other, payload[..take], cc, start);
      var tail := TsPackets(other, payload[take..], Next(cc), false);
      PacketRoundTrip(other, payload[..take], cc, start);
      assert p + tail + rest == p + (tail + rest);
      FollowFirst(pid, c, p, tail + rest);
      FollowOther(pid, c, other, payload[take..], Next(cc), false, rest);
    }
  }

  /** The continuing packets of a unit extend the last unit by exactly their payload. */
  lemma {:induction false} FollowContinued(
      pid: u16, cc: u4, units: seq<Bytes>, unit: Bytes, payload: Bytes, rest: Bytes)
    requires pid < 0x2000
    ensures Follow(pid, Collected(Some(cc), units + [unit]), TsPackets(pid, payload, cc, false) + rest)
         == Follow(pid, Collected(Some(CounterAfter(|payload|, cc)), units + [unit + payload]), rest)
    decreases |payload|
  {
    hide ParsePacket, TsPacket, Follow, Next;
    var c := Collected(Some(cc), units + [unit]);
    CountsOn(cc);
    if payload == [] {
      assert [] + rest == rest && unit + payload == unit;
    } else {
      var take := Min(|payload|, 184);
      var p := TsPacket(pid, payload[..take], cc, false);
      var tail := TsPackets(pid, payload[take..], Next(cc), false);
      PacketRoundTrip(pid, payload[..take], cc, false);
      assert p + tail + rest == p + (tail + rest);
      FollowFirst(pid, c, p, tail + rest);
      CollectContinued(cc, units, unit, TsUnit(false, pid, cc, payload[..take]));
      FollowContinued(pid, Next(cc), units, unit + payload[..take], payload[take..], rest);
      assert unit + payload[..take] + payload[take..] == unit + payload;
    }
  }

  /** The writer counts as section 2.4.3.3 of ISO/IEC 13818-1 has it: by one, modulo 16. */
  lemma CountsOn(cc: u4)
    ensures Next(cc) == (cc + 1) % 16
  {
  }

  lemma CollectContinued(cc: u4, units: seq<Bytes>, unit: Bytes, u: TsUnit)
    requires !u.start && u.counter == cc
    ensures Collect(Collected(Some(cc), units + [unit]), u)
      == Some(Collected(Some(Next(cc)), units + [unit + u.payload]))
  {
    assert (units + [unit])[..|units|] == units;
  }

  /** A unit cut into packets is collected whole, whatever its length. */
  lemma FollowUnit(pid: u16, c: Collected, payload: Bytes, cc: u4, rest: Bytes)
    requires pid < 0x2000 && payload != [] && (c.next.Some? ==> c.next.value == cc)
    ensures Follow(pid, c, TsPackets(pid, payload, cc, true) + rest)
         == Follow(pid, Collected(Some(CounterAfter(|payload|, cc)), c.units + [payload]), rest)
  {
    hide ParsePacket, TsPacket, Follow, Next;
    CountsOn(cc);
    var take := Min(|payload|, 184);
    var p := TsPacket(pid, payload[..take], cc, true);
    var tail := TsPackets(pid, payload[take..], Next(cc), false);
    PacketRoundTrip(pid, payload[..take], cc, true);
    assert p + tail + rest == p + (tail + rest);
    FollowFirst(pid, c, p, tail + rest);
    FollowContinued(pid, Next(cc), c.units, payload[..take], payload[take..], rest);
    assert payload[..take] + payload[take..] == payload;
  }

  // ---------------------------------------------------------------------------
  // The video of a segment
  // ---------------------------------------------------------------------------

  function PesUnits(aus: seq<AccessUnit>): (u: seq<Bytes>)
    ensures |u| == |aus| && forall i :: 0 <= i < |aus| ==> u[i] == PesOf(aus[i])
  {
    seq(|aus|, i requires 0 <= i < |aus| => PesOf(aus[i]))
  }

  lemma {:induction false} FollowVideo(aus: seq<AccessUnit>, rest: Bytes)
    requires aus != []
    ensures Follow(VIDEO_PID, NOTHING, VideoBytes(aus) + rest)
         == Follow(VIDEO_PID, Collected(Some(VideoCounter(aus)), PesUnits(aus)), rest)
    decreases |aus|
  {
    hide Follow, PesOf, TsPackets, CounterAfter;
    var n := |aus| - 1;
    var front, last := aus[..n], aus[n];
    var tail := TsPackets(VIDEO_PID, PesOf(last), VideoCounter(front), true);
    assert VideoBytes(front) + tail + rest == VideoBytes(front) + (tail + rest);
    if front == [] {
      assert VideoBytes(front) + (tail + rest) == tail + rest;
      FollowUnit(VIDEO_PID, NOTHING, PesOf(last), 0, rest);
      assert [] + [PesOf(last)] == PesUnits(aus);
    } else {
      var c := Collected(Some(VideoCounter(front)), PesUnits(front));
      FollowVideo(front, tail + rest);
      FollowUnit(VIDEO_PID, c, PesOf(last), VideoCounter(front), rest);
      assert PesUnits(front) + [PesOf(last)] == PesUnits(aus);
    }
  }

  lemma {:induction false} FollowPastVideo(pid: u16, c: Collected, aus: seq<AccessUnit>, rest: Bytes)
    requires pid != VIDEO_PID
    ensures Follow(pid, c, VideoBytes(aus) + rest) == Follow(pid, c, rest)
    decreases |aus|
  {
    hide Follow, PesOf, TsPackets, CounterAfter;
    if aus == [] {
      assert [] + rest == rest;
    } else {
      var n := |aus| - 1;
      var tail := TsPackets(VIDEO_PID, PesOf(aus[n]), VideoCounter(aus[..n]), true);
      assert VideoBytes(aus[..n]) + tail + rest == VideoBytes(aus[..n]) + (tail + rest);
      FollowPastVideo(pid, c, aus[..n], tail + rest);
      FollowOther(pid, c, VIDEO_PID, PesOf(aus[n]), VideoCounter(aus[..n]), true, rest);
    }
  }

  // ---------------------------------------------------------------------------
  // Tables, time stamps and the whole segment
  // ---------------------------------------------------------------------------

  /** A section body in the long form, in force and alone, that is as long as it says. */
  predicate WholeSection(body: Bytes) {
    && 8 <= |body| && |body| + 1 == U16(body[1] % 0x10, body[2])
    && body[1] / 0x10 == 0xB && body[5] / 0x40 == 3 && body[5] % 2 == 1 && body[6] == 0 && body[7] == 0
  }

  lemma {:induction false} SectionRoundTrip(body: Bytes)
    requires WholeSection(body)
    ensures SectionOf(SectionPayload(body), body[0])
         == Some(Section(U16(body[3], body[4]), body[5] / 2 % 0x20, body[8..]))
  {
    hide Feed, BigEndian, U16;
    var payload := SectionPayload(body);
    CrcChecks(body);
    var section := payload[1..];
    assert section == body + BigEndian(Feed(ONES, body));
    assert |BigEndian(Feed(ONES, body))| == 4;
    assert payload[1] == section[0] == body[0];
    assert section[1] == body[1] && section[2] == body[2] && section[3] == body[3] && section[4] == body[4];
    assert section[5] == body[5] && section[6] == body[6] && section[7] == body[7];
    assert section[8..|section| - 4] == body[8..];
  }

  /** The PAT of stream 1 names program 1 with the PMT on PID 0x1000, and that one's PMT the video
      and its clock on 0x100. */
  lemma {:induction false} TablesLeadToVideo()
    ensures FindProgram(SectionPayload(PAT_BODY)) == Some(Program(1, 0x1000))
    ensures FindVideo(SectionPayload(PMT_BODY), 1) == Some(Video(0x100, 0x100))
    ensures SectionOf(SectionPayload(PAT_BODY), 0x00) == Some(Section(1, 0, [0, 1, 0xF0, 0x00]))
    ensures SectionOf(SectionPayload(PMT_BODY), 0x02)
         == Some(Section(1, 0, [0xE1, 0x00, 0xF0, 0x00, 0x1B, 0xE1, 0x00, 0xF0, 0x00]))
  {
    hide SectionOf, SectionPayload, WholeSection;
    PatIs();
    PmtIs();
    SectionRoundTrip(PAT_BODY);
    SectionRoundTrip(PMT_BODY);
    assert [0xE1, 0x00, 0xF0, 0x00, 0x1B, 0xE1, 0x00, 0xF0, 0x00][4..] == [0x1B, 0xE1, 0x00, 0xF0, 0x00];
  }

  lemma PatIs()
    ensures WholeSection(PAT_BODY) && PAT_BODY[0] == 0 && PAT_BODY[5] / 2 % 0x20 == 0
    ensures U16(PAT_BODY[3], PAT_BODY[4]) == 1 && PAT_BODY[8..] == [0, 1, 0xF0, 0x00]
  {
  }

  lemma PmtIs()
    ensures WholeSection(PMT_BODY) && PMT_BODY[0] == 2 && PMT_BODY[5] / 2 % 0x20 == 0
    ensures U16(PMT_BODY[3], PMT_BODY[4]) == 1
    ensures PMT_BODY[8..] == [0xE1, 0x00, 0xF0, 0x00, 0x1B, 0xE1, 0x00, 0xF0, 0x00]
  {
  }

  lemma DivideTwice(n: nat)
    ensures n / 0x80 / 0x100 == n / 0x8000
    ensures n / 0x8000 / 0x80 == n / 0x40_0000
    ensures n / 0x40_0000 / 0x100 == n / 0x4000_0000
  {
  }

  /** The five PTS bytes give back the time stamp modulo 2^33, between correct marker bits. */
  lemma {:induction false} PtsRoundTrip(pts90k: nat)
    ensures DecodePts(EncodePts(pts90k)) == pts90k % 0x2_0000_0000
    ensures
      var b := EncodePts(pts90k);
      b[0] / 0x10 == 2 && b[0] % 2 == 1 && b[2] % 2 == 1 && b[4] % 2 == 1
  {
    var pts := pts90k % TWO_33;
    DivideTwice(pts);
    var b := EncodePts(pts90k);
    assert b[4] / 2 == pts % 0x80;
    assert b[2] / 2 == pts / 0x8000 % 0x80;
    assert (b[0] / 2) % 8 == pts / 0x4000_0000 % 8 == pts / 0x4000_0000;
  }

  function PictureOf(au: AccessUnit): Picture {
    Picture(au.rtpTimestamp, Concat(au.nals))
  }

  /** A PES packet of video stream 0 gives back the time stamp and the bytes. */
  lemma {:induction false} PesRoundTrip(au: AccessUnit)
    ensures ParsePes(PesOf(au)) == Some(PictureOf(au)) && PesOf(au)[3] == 0xE0
  {
    hide EncodePts, DecodePts, Concat;
    PtsRoundTrip(au.rtpTimestamp);
    var pes := PesOf(au);
    assert pes[..3] == [0, 0, 1] && pes[3] == H264_STREAM_ID && pes[4..6] == [0, 0];
    assert pes[6] == 0x80 && pes[7] == 0x80 && pes[8] == 5;
    assert pes[9..14] == EncodePts(au.rtpTimestamp);
    assert pes[14..] == Concat(au.nals);
  }

  function Pictures(aus: seq<AccessUnit>): (p: seq<Picture>)
    ensures |p| == |aus| && forall i :: 0 <= i < |aus| ==> p[i] == PictureOf(aus[i])
  {
    seq(|aus|, i requires 0 <= i < |aus| => PictureOf(aus[i]))
  }

  lemma {:induction false} AllPesRoundTrip(aus: seq<AccessUnit>)
    ensures ParseAllPes(PesUnits(aus)) == Some(Pictures(aus))
    decreases |aus|
  {
    hide ParsePes, PesOf, PictureOf;
    if aus != [] {
      var n := |aus| - 1;
      AllPesRoundTrip(aus[..n]);
      PesRoundTrip(aus[n]);
      assert PesUnits(aus)[..n] == PesUnits(aus[..n]);
      assert Pictures(aus[..n]) + [PictureOf(aus[n])] == Pictures(aus);
    }
  }

  /** Following one PID through a segment. */
  lemma {:induction false} FollowSegment(aus: seq<AccessUnit>)
    requires aus != []
    ensures Single(PAT_PID, SegmentBytes(aus)) == Some(SectionPayload(PAT_BODY))
    ensures Single(PMT_PID, SegmentBytes(aus)) == Some(SectionPayload(PMT_BODY))
    ensures Follow(VIDEO_PID, NOTHING, SegmentBytes(aus))
         == Some(Collected(Some(VideoCounter(aus)), PesUnits(aus)))
  {
    hide TsPackets, CounterAfter, SectionPayload, VideoBytes, PesUnits, Follow;
    var pat, pmt := SectionPayload(PAT_BODY), SectionPayload(PMT_BODY);
    var patTs, pmtTs := TsPackets(PAT_PID, pat, 0, true), TsPackets(PMT_PID, pmt, 0, true);
    var video := VideoBytes(aus);
    assert SegmentBytes(aus) == patTs + (pmtTs + (video + []));
    TablesAreNotEmpty();
    FollowNothing(PAT_PID, Collected(Some(CounterAfter(|pat|, 0)), [] + [pat]));
    FollowNothing(PMT_PID, Collected(Some(CounterAfter(|pmt|, 0)), [] + [pmt]));
    FollowNothing(VIDEO_PID, Collected(Some(VideoCounter(aus)), PesUnits(aus)));

    FollowUnit(PAT_PID, NOTHING, pat, 0, pmtTs + (video + []));
    FollowOther(PAT_PID, Collected(Some(CounterAfter(|pat|, 0)), [] + [pat]), PMT_PID, pmt, 0, true, video + []);
    FollowPastVideo(PAT_PID, Collected(Some(CounterAfter(|pat|, 0)), [] + [pat]), aus, []);

    FollowOther(PMT_PID, NOTHING, PAT_PID, pat, 0, true, pmtTs + (video + []));
    FollowUnit(PMT_PID, NOTHING, pmt, 0, video + []);
    FollowPastVideo(PMT_PID, Collected(Some(CounterAfter(|pmt|, 0)), [] + [pmt]), aus, []);

    FollowOther(VIDEO_PID, NOTHING, PAT_PID, pat, 0, true, pmtTs + (video + []));
    FollowOther(VIDEO_PID, NOTHING, PMT_PID, pmt, 0, true, video + []);
    FollowVideo(aus, []);
  }

  lemma TablesAreNotEmpty()
    ensures SectionPayload(PAT_BODY) != [] && SectionPayload(PMT_BODY) != []
  {
  }

  lemma FollowNothing(pid: u16, c: Collected)
    ensures Follow(pid, c, []) == Some(c)
  {
  }

  /** A player that demultiplexes a segment file gets exactly the access units written into
      it, in order: each one's 33-bit time stamp and the bytes of its NAL units. */
  lemma {:induction false} SegmentRoundTrip(aus: seq<AccessUnit>)
    requires aus != []
    ensures Demux(SegmentBytes(aus)) == Some(Pictures(aus))
  {
    hide Single, SegmentBytes, SectionPayload, FindProgram, FindVideo, Follow, ParseAllPes, PesUnits;
    FollowSegment(aus);
    TablesLeadToVideo();
    AllPesRoundTrip(aus);
  }
}
