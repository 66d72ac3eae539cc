/** The media playlist (sections 4.3.2.3, 4.3.3.2, 4.3.5.1 and 6.2.2 of RFC 8216): the text
    the publisher writes, a client's parser for it, and their round trip.
 */
module Manifest {
  import opened Prelude

  type ascii = c: char | c < 128 as char witness 'a'
  type Text = seq<ascii>

  function AsBytes(t: Text): (b: Bytes)
    ensures |b| == |t|
  {
    seq(|t|, i requires 0 <= i < |t| => t[i] as int)
  }

  /** The text of a file, when all of it is ASCII. */
  function FromBytes(b: Bytes): Option<Text> {
    if forall i :: 0 <= i < |b| ==> b[i] < 128
    then Some(seq(|b|, i requires 0 <= i < |b| => b[i] as char))
    else None
  }

  lemma TextRoundTrip(t: Text)
    ensures FromBytes(AsBytes(t)) == Some(t)
  {
    var r := FromBytes(AsBytes(t));
    assert r.Some? && |r.value| == |t|;
    assert forall i :: 0 <= i < |t| ==> r.value[i] == t[i];
    assert r.value == t;
  }

  // ---------------------------------------------------------------------------
  // Numbers
  // ---------------------------------------------------------------------------

  function Digit(d: nat): ascii
    requires d < 10
  {
    ('0' as int + d) as char
  }

  predicate IsDigit(c: ascii) {
    '0' <= c <= '9'
  }

  predicate AllDigits(t: Text) {
    forall i :: 0 <= i < |t| ==> IsDigit(t[i])
  }

  function Digits(n: nat): Text {
    if n < 10 then [Digit(n)] else Digits(n / 10) + [Digit(n % 10)]
  }

  /** `{t:0>width}`. */
  function PadLeft(t: Text, width: nat): Text
    decreases width - |t|
  {
    if width <= |t| then t else PadLeft("0" + t, width)
  }

  function Value(t: Text): nat
    requires AllDigits(t)
  {
    if t == [] then 0
    else
      var n := |t| - 1;
      10 * Value(t[..n]) + (t[n] as int - '0' as int)
  }

  lemma {:induction false} DigitsValue(n: nat)
    ensures AllDigits(Digits(n)) && Digits(n) != [] && Value(Digits(n)) == n
  {
    if 10 <= n {
      DigitsValue(n / 10);
      var t := Digits(n);
      assert t[..|t| - 1] == Digits(n / 10);
    } else {
      assert Digits(n)[..0] == [];
    }
  }

  lemma {:induction false} LeadingZero(t: Text)
    requires AllDigits(t)
    ensures AllDigits("0" + t) && Value("0" + t) == Value(t)
    decreases |t|
  {
    var z: Text := "0" + t;
    var n := |z| - 1;
    if t == [] {
      assert z[..0] == [];
    } else {
      assert z[..n] == "0" + t[..|t| - 1];
      LeadingZero(t[..|t| - 1]);
    }
  }

  lemma {:induction false} PadLeftValue(t: Text, width: nat)
    requires AllDigits(t)
    ensures AllDigits(PadLeft(t, width)) && Value(PadLeft(t, width)) == Value(t)
    decreases width - |t|
  {
    if |t| < width {
      LeadingZero(t);
      PadLeftValue("0" + t, width);
    }
  }

  // ---------------------------------------------------------------------------
  // Segment names
  // ---------------------------------------------------------------------------

  /** `seg_{seq:06}.ts`. */
  function SegmentName(seqNo: nat): Text {
    "seg_" + PadLeft(Digits(seqNo), 6) + ".ts"
  }

  function IndexName(): Text {
    "index.m3u8"
  }

  /** `temp_path_for`. */
  function TempName(name: Text): Text {
    name + ".tmp"
  }

  function SegmentNumber(name: Text): Option<nat> {
    if 7 <= |name| && AllDigits(name[4..|name| - 3]) then Some(Value(name[4..|name| - 3])) else None
  }

  lemma {:induction false} FirstDigit(n: nat)
    requires 1 <= n
    ensures Digits(n)[0] != '0'
  {
    if 10 <= n {
      FirstDigit(n / 10);
      DigitsValue(n / 10);
    }
  }

  lemma {:induction false} PadLeftLength(t: Text, width: nat)
    ensures |PadLeft(t, width)| == Max(|t|, width) && (width <= |t| ==> PadLeft(t, width) == t)
    decreases width - |t|
  {
    if |t| < width {
      PadLeftLength("0" + t, width);
    }
  }

  /** The number can be read back from a name; it has six digits, or as many more as it needs. */
  lemma SegmentNameNumber(seqNo: nat)
    ensures SegmentNumber(SegmentName(seqNo)) == Some(seqNo)
    ensures
      var name := SegmentName(seqNo);
      && 13 <= |name| && name[..4] == "seg_" && name[|name| - 3..] == ".ts"
      && (13 < |name| ==> name[4] != '0')
  {
    DigitsValue(seqNo);
    PadLeftValue(Digits(seqNo), 6);
    PadLeftLength(Digits(seqNo), 6);
    if seqNo > 0 {
      FirstDigit(seqNo);
    } else {
      assert |Digits(0)| == 1;
    }
    hide Digits, PadLeft, AllDigits, Value;
    var name := SegmentName(seqNo);
    assert name[4..|name| - 3] == PadLeft(Digits(seqNo), 6);
  }

  /** Two segments never share a file, and no name of the session directory is taken for
      another: not a segment for the index, and no temporary for a final name. */
  lemma NamesAreDistinct(a: nat, b: nat)
    ensures SegmentName(a) == SegmentName(b) ==> a == b
    ensures SegmentName(a) != IndexName()
  {
    SegmentNameNumber(a);
    SegmentNameNumber(b);
    assert SegmentName(a)[0] == 's' && IndexName()[0] == 'i';
  }

  lemma TempIsNoFinalName(name: Text, seqNo: nat)
    ensures TempName(name) != SegmentName(seqNo) && TempName(name) != IndexName() && TempName(name) != name
    ensures forall other :: TempName(name) == TempName(other) ==> name == other
  {
    var t, s := TempName(name), SegmentName(seqNo);
    assert t[|t| - 1] == 'p' && s[|s| - 1] == 's' && IndexName()[|IndexName()| - 1] == '8';
    forall other | TempName(name) == TempName(other)
      ensures name == other
    {
      assert name == TempName(name)[..|TempName(name)| - 4];
      assert other == TempName(other)[..|TempName(other)| - 4];
    }
  }

  // ---------------------------------------------------------------------------
  // The text
  // ---------------------------------------------------------------------------

  /** An entry of the window; durations are in milliseconds. */
  datatype SegmentEntry = SegmentEntry(seqNo: nat, durationMs: nat, discontinuity: bool) {
    function Filename(): Text {
      SegmentName(seqNo)
    }
  }

  const EXTM3U: Text := "#EXTM3U"
  const VERSION: Text := "#EXT-X-VERSION:3"
  const INDEPENDENT: Text := "#EXT-X-INDEPENDENT-SEGMENTS"
  const TARGET_DURATION: Text := "#EXT-X-TARGETDURATION:"
  const MEDIA_SEQUENCE: Text := "#EXT-X-MEDIA-SEQUENCE:"
  const DISCONTINUITY: Text := "#EXT-X-DISCONTINUITY"
  const EXTINF: Text := "#EXTINF:"

  /** `{:.3}` of the duration in seconds. */
  function Seconds(ms: nat): Text {
    Digits(ms / 1000) + "." + Thousandths(ms % 1000)
  }

  function Thousandths(k: nat): (t: Text)
    requires k < 1000
    ensures |t| == 3
  {
    [Digit(k / 100), Digit(k / 10 % 10), Digit(k % 10)]
  }

  function EntryLines(e: SegmentEntry): seq<Text> {
    (if e.discontinuity then [DISCONTINUITY] else []) + [EXTINF + Seconds(e.durationMs) + ",", e.Filename()]
  }

  function AllEntryLines(entries: seq<SegmentEntry>): seq<Text> {
    if entries == [] then []
    else AllEntryLines(entries[..|entries| - 1]) + EntryLines(entries[|entries| - 1])
  }

  function MediaSequence(entries: seq<SegmentEntry>): nat {
    if entries == [] then 0 else entries[0].seqNo
  }

  function HeaderLines(target: nat, mediaSequence: nat): seq<Text> {
    [EXTM3U, VERSION, INDEPENDENT, TARGET_DURATION + Digits(target), MEDIA_SEQUENCE + Digits(mediaSequence)]
  }

  function Lines(target: nat, entries: seq<SegmentEntry>): seq<Text> {
    HeaderLines(target, MediaSequence(entries)) + AllEntryLines(entries)
  }

  /** Lines, each ended by a newline. */
  function Join(lines: seq<Text>): Text {
    if lines == [] then [] else Join(lines[..|lines| - 1]) + lines[|lines| - 1] + ['\n']
  }

  function Render(target: nat, entries: seq<SegmentEntry>): Text {
    Join(Lines(target, entries))
  }

  lemma {:induction false} JoinAppend(a: seq<Text>, b: seq<Text>)
    ensures Join(a + b) == Join(a) + Join(b)
    decreases |b|
  {
    if b == [] {
      assert a + b == a;
    } else {
      var m := |b| - 1;
      assert (a + b)[..|a + b| - 1] == a + b[..m];
      JoinAppend(a, b[..m]);
    }
  }

  lemma JoinOne(line: Text)
    ensures Join([line]) == line + ['\n']
  {
    assert [line][..0] == [];
  }

  /** The string that `publish_entries` builds piece by piece. */
  method RenderPlaylist(target: nat, entries: seq<SegmentEntry>) returns (playlist: Text)
    ensures playlist == Render(target, entries)
  {
    hide Digits, Join, EntryLines, Seconds, SegmentName;
    var mediaSequence := if entries == [] then 0 else entries[0].seqNo;
    playlist := HeaderText(target, mediaSequence);
    assert AllEntryLines(entries[..0]) == [];
    assert Join(HeaderLines(target, mediaSequence) + []) == Join(HeaderLines(target, mediaSequence)) by {
      assert HeaderLines(target, mediaSequence) + [] == HeaderLines(target, mediaSequence);
    }
    for i := 0 to |entries|
      invariant playlist == Join(HeaderLines(target, mediaSequence) + AllEntryLines(entries[..i]))
    {
      var text := EntryText(entries[i]);
      assert entries[..i + 1][..i] == entries[..i];
      ghost var before := HeaderLines(target, mediaSequence) + AllEntryLines(entries[..i]);
      JoinAppend(before, EntryLines(entries[i]));
      assert HeaderLines(target, mediaSequence) + AllEntryLines(entries[..i + 1])
          == before + EntryLines(entries[i]);
      playlist := playlist + text;
    }
    assert entries[..|entries|] == entries;
  }

  method HeaderText(target: nat, mediaSequence: nat) returns (text: Text)
    ensures text == Join(HeaderLines(target, mediaSequence))
  {
    var t, m := TARGET_DURATION + Digits(target), MEDIA_SEQUENCE + Digits(mediaSequence);
    text := EXTM3U + ['\n'] + VERSION + ['\n'] + INDEPENDENT + ['\n'] + t + ['\n'] + m + ['\n'];
    hide Digits, Join;
    JoinOne(EXTM3U);
    JoinOne(VERSION);
    JoinOne(INDEPENDENT);
    JoinOne(t);
    JoinOne(m);
    JoinAppend([EXTM3U], [VERSION]);
    JoinAppend([EXTM3U] + [VERSION], [INDEPENDENT]);
    JoinAppend([EXTM3U] + [VERSION] + [INDEPENDENT], [t]);
    JoinAppend([EXTM3U] + [VERSION] + [INDEPENDENT] + [t], [m]);
    assert HeaderLines(target, mediaSequence) == [EXTM3U] + [VERSION] + [INDEPENDENT] + [t] + [m];
  }

  method EntryText(e: SegmentEntry) returns (text: Text)
    ensures text == Join(EntryLines(e))
  {
    var inf := EXTINF + Seconds(e.durationMs) + ",";
    var d: seq<Text> := if e.discontinuity then [DISCONTINUITY] else [];
    text := "";
    if e.discontinuity {
      text := text + DISCONTINUITY + ['\n'];
    }
    text := text + inf + ['\n'];
    text := text + e.Filename();
    text := text + ['\n'];
    assert (if e.discontinuity then DISCONTINUITY + ['\n'] else []) == Join(d) by {
      JoinOne(DISCONTINUITY);
      assert Join([]) == [];
    }
    hide Join, Seconds, SegmentName;
    JoinOne(inf);
    JoinOne(e.Filename());
    JoinAppend(d, [inf]);
    JoinAppend(d + [inf], [e.Filename()]);
    assert EntryLines(e) == d + [inf] + [e.Filename()];
  }

  // ---------------------------------------------------------------------------
  // A client's parser
  // ---------------------------------------------------------------------------

  datatype Item = Item(discontinuity: bool, durationMs: nat, uri: Text)

  datatype Playlist = Playlist(targetDuration: nat, mediaSequence: nat, items: seq<Item>)

  /** The length of the first line. */
  function LineLength(t: Text): (n: nat)
    ensures n <= |t|
    ensures forall i :: 0 <= i < n ==> t[i] != '\n'
    ensures n < |t| ==> t[n] == '\n'
  {
    if t == [] || t[0] == '\n' then 0 else 1 + LineLength(t[1..])
  }

  /** The lines of a text in which every line is ended. */
  function Split(t: Text): Option<seq<Text>>
    decreases |t|
  {
    if t == [] then Some([])
    else
      var n := LineLength(t);
      if n == |t| then None
      else
        var rest := Split(t[n + 1..]);
        if rest.None? then None else Some([t[..n]] + rest.value)
  }

  function ParseSeconds(t: Text): Option<nat> {
    var n := |t| - 4;
    if n < 1 || t[n] != '.' || !AllDigits(t[..n]) || !AllDigits(t[n + 1..]) then None
    else Some(1000 * Value(t[..n]) + Value(t[n + 1..]))
  }

  function ParseNumber(t: Text): Option<nat> {
    if t == [] || !AllDigits(t) then None else Some(Value(t))
  }

  function ParseExtinf(line: Text): Option<nat>
    requires "#EXTINF:" <= line
  {
    var body := line[8..];
    if body == [] || body[|body| - 1] != ',' then None else ParseSeconds(body[..|body| - 1])
  }

  /** The segments, each with the tags in front of it; a client skips tags that it does not
      know. */
  function ParseItems(lines: seq<Text>, discontinuity: bool, duration: Option<nat>): Option<seq<Item>> {
    if lines == [] then
      if discontinuity || duration.Some? then None else Some([])
    else
      var line := lines[0];
      if line == "#EXT-X-DISCONTINUITY" then ParseItems(lines[1..], true, duration)
      else if "#EXTINF:" <= line then
        var d := ParseExtinf(line);
        if d.None? then None else ParseItems(lines[1..], discontinuity, d)
      else if line != [] && line[0] == '#' then ParseItems(lines[1..], discontinuity, duration)
      else
        var rest := ParseItems(lines[1..], false, None);
        if duration.None? || rest.None? then None
        else Some([Item(discontinuity, duration.value, line)] + rest.value)
  }

  /** The number behind a tag, on whichever line it is. */
  function TagValue(lines: seq<Text>, tag: Text): Option<nat> {
    if lines == [] then None
    else if tag <= lines[0] then ParseNumber(lines[0][|tag|..])
    else TagValue(lines[1..], tag)
  }

  /** The first line says what the file is; durations with decimals need version 3. */
  function ParseLines(lines: seq<Text>): Option<Playlist> {
    if lines == [] || lines[0] != "#EXTM3U" || "#EXT-X-INDEPENDENT-SEGMENTS" !in lines then None
    else
      var version := TagValue(lines, "#EXT-X-VERSION:");
      var target := TagValue(lines, "#EXT-X-TARGETDURATION:");
      var first := TagValue(lines, "#EXT-X-MEDIA-SEQUENCE:");
      var items := ParseItems(lines[1..], false, None);
      if version.None? || version.value < 3 || target.None? || first.None? || items.None? then None
      else Some(Playlist(target.value, first.value, items.value))
  }

  function Parse(text: Text): Option<Playlist> {
    var lines := Split(text);
    if lines.None? then None else ParseLines(lines.value)
  }

  /** What a client reads in a file. */
  function ParseFile(b: Bytes): Option<Playlist> {
    var t := FromBytes(b);
    if t.None? then None else Parse(t.value)
  }

  // ---------------------------------------------------------------------------
  // Round trip
  // ---------------------------------------------------------------------------

  predicate OneLine(t: Text) {
    '\n' !in t
  }

  predicate OneLiners(lines: seq<Text>) {
    forall i :: 0 <= i < |lines| ==> OneLine(lines[i])
  }

  lemma {:induction false} FirstLine(line: Text, rest: Text)
    requires OneLine(line)
    ensures LineLength(line + ['\n'] + rest) == |line|
  {
    var t := line + ['\n'] + rest;
    if line != [] {
      assert t[1..] == line[1..] + ['\n'] + rest;
      assert t[0] == line[0] && line[0] in line;
      FirstLine(line[1..], rest);
    }
  }

  lemma {:induction false} SplitJoin(lines: seq<Text>)
    requires OneLiners(lines)
    ensures Split(Join(lines)) == Some(lines)
    decreases |lines|
  {
    if lines != [] {
      var line, tail := lines[0], lines[1..];
      assert lines == [line] + tail;
      JoinAppend([line], tail);
      JoinOne(line);
      hide Join, OneLine;
      var t := line + ['\n'] + Join(tail);
      FirstLine(line, Join(tail));
      assert t[..|line|] == line && t[|line| + 1..] == Join(tail);
      SplitJoin(tail);
    }
  }

  lemma DigitsAreOneLine(t: Text)
    requires AllDigits(t)
    ensures OneLine(t)
  {
    forall i | 0 <= i < |t|
      ensures t[i] != '\n'
    {
      assert IsDigit(t[i]);
    }
  }

  lemma ThousandthsValue(k: nat)
    requires k < 1000
    ensures AllDigits(Thousandths(k)) && Value(Thousandths(k)) == k
  {
    var t := Thousandths(k);
    assert t[..2][..1][..0] == [] && t[..2][..1] == [t[0]];
    assert Value(t[..2][..1]) == k / 100;
    assert Value(t[..2]) == 10 * (k / 100) + k / 10 % 10 == k / 10;
  }

  lemma SecondsRoundTrip(ms: nat)
    ensures ParseSeconds(Seconds(ms)) == Some(ms) && OneLine(Seconds(ms))
  {
    DigitsValue(ms / 1000);
    ThousandthsValue(ms % 1000);
    DigitsAreOneLine(Digits(ms / 1000));
    DigitsAreOneLine(Thousandths(ms % 1000));
    hide Digits, Thousandths, Value, AllDigits;
    var t := Seconds(ms);
    var n := |t| - 4;
    assert t[..n] == Digits(ms / 1000) && t[n + 1..] == Thousandths(ms % 1000) && t[n] == '.';
  }

  lemma SegmentNameIsUri(seqNo: nat)
    ensures OneLine(SegmentName(seqNo)) && SegmentName(seqNo)[0] == 's'
  {
    DigitsValue(seqNo);
    PadLeftValue(Digits(seqNo), 6);
    DigitsAreOneLine(PadLeft(Digits(seqNo), 6));
  }

  lemma ExtinfLine(ms: nat)
    ensures
      var line: Text := EXTINF + Seconds(ms) + ",";
      && OneLine(line) && EXTINF <= line && line != DISCONTINUITY
      && ParseExtinf(line) == Some(ms)
  {
    SecondsRoundTrip(ms);
    hide Seconds, ParseSeconds;
    var line: Text := EXTINF + Seconds(ms) + ",";
    assert line[|EXTINF|..] == Seconds(ms) + ",";
    assert (Seconds(ms) + ",")[..|Seconds(ms)|] == Seconds(ms);
    assert line[4] == 'I' && DISCONTINUITY[4] == '-';
  }

  lemma EntryLinesAreOneLiners(e: SegmentEntry)
    ensures OneLiners(EntryLines(e))
  {
    ExtinfLine(e.durationMs);
    SegmentNameIsUri(e.seqNo);
    hide Seconds, SegmentName, ParseExtinf;
    assert OneLine(DISCONTINUITY);
  }

  lemma {:induction false} AllEntryLinesAreOneLiners(entries: seq<SegmentEntry>)
    ensures OneLiners(AllEntryLines(entries))
  {
    hide EntryLines;
    if entries != [] {
      AllEntryLinesAreOneLiners(entries[..|entries| - 1]);
      EntryLinesAreOneLiners(entries[|entries| - 1]);
    }
  }

  lemma HeaderLinesAreOneLiners(target: nat, first: nat)
    ensures OneLiners(HeaderLines(target, first))
  {
    DigitsValue(target);
    DigitsValue(first);
    DigitsAreOneLine(Digits(target));
    DigitsAreOneLine(Digits(first));
    hide Digits;
    assert OneLine(EXTM3U) && OneLine(VERSION) && OneLine(INDEPENDENT);
    assert OneLine(TARGET_DURATION + Digits(target)) && OneLine(MEDIA_SEQUENCE + Digits(first));
  }

  function ItemOf(e: SegmentEntry): Item {
    Item(e.discontinuity, e.durationMs, e.Filename())
  }

  function ItemsOf(entries: seq<SegmentEntry>): (items: seq<Item>)
    ensures |items| == |entries| && forall i :: 0 <= i < |entries| ==> items[i] == ItemOf(entries[i])
  {
    seq(|entries|, i requires 0 <= i < |entries| => ItemOf(entries[i]))
  }

  function PrependItems(items: seq<Item>, rest: Option<seq<Item>>): Option<seq<Item>> {
    if rest.None? then None else Some(items + rest.value)
  }

  lemma ParseEntry(e: SegmentEntry, rest: seq<Text>)
    ensures ParseItems(EntryLines(e) + rest, false, None) == PrependItems([ItemOf(e)], ParseItems(rest, false, None))
  {
    ExtinfLine(e.durationMs);
    SegmentNameIsUri(e.seqNo);
    hide Seconds, SegmentName, ParseExtinf;
    var inf: Text := EXTINF + Seconds(e.durationMs) + ",";
    var tail := [inf, e.Filename()] + rest;
    assert e.Filename() != DISCONTINUITY && !(EXTINF <= e.Filename());
    assert tail[1..] == [e.Filename()] + rest && ([e.Filename()] + rest)[1..] == rest;
    var d := e.discontinuity;
    assert ParseItems([e.Filename()] + rest, d, Some(e.durationMs))
        == PrependItems([ItemOf(e)], ParseItems(rest, false, None));
    assert ParseItems(tail, d, None) == ParseItems([e.Filename()] + rest, d, Some(e.durationMs));
    if e.discontinuity {
      assert (EntryLines(e) + rest)[0] == DISCONTINUITY && (EntryLines(e) + rest)[1..] == tail;
    } else {
      assert EntryLines(e) + rest == tail;
    }
  }

  lemma {:induction false} ParseEntries(entries: seq<SegmentEntry>, rest: seq<Text>)
    ensures ParseItems(AllEntryLines(entries) + rest, false, None)
         == PrependItems(ItemsOf(entries), ParseItems(rest, false, None))
    decreases |entries|
  {
    hide ParseItems, EntryLines, ItemOf;
    if entries == [] {
      assert AllEntryLines(entries) + rest == rest;
      var p := ParseItems(rest, false, None);
      if p.Some? {
        assert ItemsOf(entries) + p.value == p.value;
      }
    } else {
      var n := |entries| - 1;
      var front, last := entries[..n], entries[n];
      assert AllEntryLines(entries) + rest == AllEntryLines(front) + (EntryLines(last) + rest);
      ParseEntries(front, EntryLines(last) + rest);
      ParseEntry(last, rest);
      assert ItemsOf(entries) == ItemsOf(front) + [ItemOf(last)];
      var p := ParseItems(rest, false, None);
      if p.Some? {
        assert ItemsOf(front) + ([ItemOf(last)] + p.value) == ItemsOf(entries) + p.value;
      }
    }
  }

  /** The tags of the header, each on its own line. */
  lemma HeaderTags(target: nat, first: nat, rest: seq<Text>)
    ensures
      var lines := HeaderLines(target, first) + rest;
      && lines[0] == "#EXTM3U" && "#EXT-X-INDEPENDENT-SEGMENTS" in lines
      && TagValue(lines, "#EXT-X-VERSION:") == Some(3)
      && TagValue(lines, "#EXT-X-TARGETDURATION:") == Some(target)
      && TagValue(lines, "#EXT-X-MEDIA-SEQUENCE:") == Some(first)
  {
    DigitsValue(target);
    DigitsValue(first);
    ThreeIsDigits();
    hide Digits, AllDigits, Value;
    var lines := HeaderLines(target, first) + rest;
    assert lines[2] == "#EXT-X-INDEPENDENT-SEGMENTS";
    var version, duration, sequence: Text := "#EXT-X-VERSION:", "#EXT-X-TARGETDURATION:", "#EXT-X-MEDIA-SEQUENCE:";
    assert lines[1] == version + "3" && lines[3] == duration + Digits(target) && lines[4] == sequence + Digits(first);
    assert |lines[0]| == 7 && lines[1][7] == 'V' && lines[2][7] == 'I' && lines[3][7] == 'T' && lines[4][7] == 'M';
    TagOnLine(lines, version, "3", 1);
    TagOnLine(lines, duration, Digits(target), 3);
    TagOnLine(lines, sequence, Digits(first), 4);
  }

  lemma ThreeIsDigits()
    ensures AllDigits("3") && Value("3") == 3
  {
    DigitsValue(3);
    assert Digits(3) == "3";
  }

  /** A tag whose eighth character tells it from all lines in front. */
  lemma {:induction false} TagOnLine(lines: seq<Text>, tag: Text, value: Text, k: nat)
    requires k < |lines| && 8 <= |tag| && lines[k] == tag + value
    requires forall i :: 0 <= i < k ==> |lines[i]| < 8 || lines[i][7] != tag[7]
    ensures TagValue(lines, tag) == ParseNumber(value)
  {
    hide ParseNumber;
    if k > 0 {
      TagOnLine(lines[1..], tag, value, k - 1);
    } else {
      assert lines[0][|tag|..] == value;
    }
  }

  /** None of the header's lines but the first are anything to the list of segments. */
  lemma HeaderHasNoItems(target: nat, first: nat, rest: seq<Text>)
    ensures ParseItems((HeaderLines(target, first) + rest)[1..], false, None) == ParseItems(rest, false, None)
  {
    hide Digits, ParseExtinf;
    var lines := HeaderLines(target, first) + rest;
    assert lines[1..][1..] == lines[2..] && lines[2..][1..] == lines[3..] && lines[3..][1..] == lines[4..];
    assert lines[4..][1..] == rest;
    OtherTag(lines[1..]);
    OtherTag(lines[2..]);
    OtherTag(lines[3..]);
    OtherTag(lines[4..]);
  }

  lemma OtherTag(lines: seq<Text>)
    requires lines != [] && 7 <= |lines[0]| && lines[0][0] == '#'
    requires lines[0][4] != 'I' && lines[0] != "#EXT-X-DISCONTINUITY"
    ensures ParseItems(lines, false, None) == ParseItems(lines[1..], false, None)
  {
  }

  lemma ParseWhole(target: nat, entries: seq<SegmentEntry>)
    ensures ParseLines(Lines(target, entries)) == Some(Playlist(target, MediaSequence(entries), ItemsOf(entries)))
  {
    var first := MediaSequence(entries);
    HeaderTags(target, first, AllEntryLines(entries));
    HeaderHasNoItems(target, first, AllEntryLines(entries));
    ParseEntries(entries, []);
    hide HeaderLines, AllEntryLines, ItemsOf, TagValue;
    assert AllEntryLines(entries) + [] == AllEntryLines(entries);
    assert ItemsOf(entries) + [] == ItemsOf(entries);
    assert ParseItems([], false, None) == Some([]);
  }

  /** A client that reads the index file gets back the target duration, the sequence number
      of the first entry, and every entry's tag, duration and file name, in order. */
  lemma ManifestRoundTrip(target: nat, entries: seq<SegmentEntry>)
    ensures ParseFile(AsBytes(Render(target, entries)))
         == Some(Playlist(target, if entries == [] then 0 else entries[0].seqNo, ItemsOf(entries)))
  {
    HeaderLinesAreOneLiners(target, MediaSequence(entries));
    AllEntryLinesAreOneLiners(entries);
    SplitJoin(Lines(target, entries));
    ParseWhole(target, entries);
    TextRoundTrip(Render(target, entries));
  }
}
