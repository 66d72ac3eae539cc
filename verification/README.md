# Sentinel RTP camera: proofs about the media pipeline

`sentinel_rtp_cam` receives H.264 over RTP. Its live pipeline turns RTP packets into a directory of
MPEG-TS segments with an HLS index; its first pipeline keeps a ring of recent pictures and writes a clip when
motion begins. Around them stand a clip retention rule, a latch for motion event ids behind a polling edge
detector, and an offline tracker. This project models these parts in Dafny and proves what they are for.

The live pipeline comes first:

| file | what it holds |
| --- | --- |
| `Prelude`, `Annexb` | integers of fixed width, big-endian fields, NAL units behind their start code |
| `Rtp` | section 5.1 of RFC 3550: both parsers, the serializer, and that they are inverse |
| `Depacketizer` | sections 5.6, 5.7.1 and 5.8 of RFC 6184 |
| `SyncGate` | the gate that waits for an IDR and moves parameter sets in front of it |
| `Crc32` | the CRC of Annex A of ISO/IEC 13818-1, against division of polynomials over GF(2) |
| `TsMux`, `TsDemux` | sections 2.4.3.2 to 2.4.3.7 of ISO/IEC 13818-1: the writer, and a demultiplexer that inverts it |
| `Assembly` | depacketizer, gate and the access unit under construction |
| `ByteStream` | a decoder that takes a picture apart at its start codes |
| `Manifest` | names and the index of sections 4.3.2.3, 4.3.3.2 and 4.3.5.1 of RFC 8216: the writer, and a parser that inverts it |
| `Live` | `run_stream_v2` as a step function, and what every reachable state keeps |
| `Rotation`, `Timeline` | when segments end, how long they get, and which message delivered what and when |
| `Epochs`, `Positions` | the unbroken stretches of a run's packets, which the step function refines, and where they lie among its messages |
| `Stream`, `Conservation` | what such a stretch and a whole session should publish, said without any state, and that it is published |
| `EndToEnd` | a sender that packetizes frames as it likes, and the loss-free theorem |
| `Lossy` | the same sender behind a network that drops, doubles, reorders and damages packets |
| `Independence` | the published stream unit by unit, with the most recent parameter sets in front of every IDR |
| `Disk` | a directory and the file `current.json`; each call may fail, and each state a reader could see is recorded |
| `Publisher`, `PlaylistWindow`, `Directory` | temporary file and rename, the sliding window, and the directory that belongs to it |
| `Listing` | what the index of a session says of its segments |
| `LiveSession`, `LivePipeline` | the classes and `run_stream_v2` on that directory, proved to follow the step function |
| `Playback` | a player that reads the directory |
| `Retention` | which clips are deleted |
| `Offline` | the offline tracker |
| `MotionIds` | poller and latch |
| `Clips`, `ClipLife`, `ClipHistory`, `ClipFrames` | the ring and the clip; when clips start and end; which pictures they hold; which pictures are accepted |
| `ClipFile`, `ClipSession` | the clip writer and `run_stream`, where each operation may fail |

What changes in place in the original is a class here (`H264Depacketizer`, `H264SyncGate`, `AtomicPublisher`,
`MpegTsSegmentWriter`, `PlaylistState`, `LiveOutput`, `Pipeline`, `OfflineTracker`, `MotionEventIdLatch`,
`MotionPoller`, `ClipWriter`, `StreamRecorder`), its loops are loops over the same buffers and indices, and each
method is proved against a function of the old state. What the system promises is then proved about those
functions, for every input and every run.

Main results:

- `Playback.LossFreePlayback`: frames sent as single NAL units, STAP-A or FU-A in any mixture, with sequence
  numbers that wrap, come back from the session directory as exactly their pictures, in order.
- `Conservation.SessionHoldsTheStream` and `Conservation.SessionCarriesFrames`: on every run, with any gaps and
  errors, the published segments hold exactly the frames between markers of each unbroken stretch of packets; of
  what the gate lets through only a frame that a cut took before its marker is missing, and nothing is repeated or
  moved.
- `Lossy.OnlyWholeUnitsArePublished`: whatever a network drops, doubles, reorders or damages, every published NAL unit
  is a whole one of the sender; `Lossy.EpochsHoldWholeUnits` says exactly which, `Lossy.UntoldJumpMerges` where
  16-bit sequence numbers end that.
- `Independence.PublishedUnitByUnit`: the published stream, unit by unit; every IDR follows the SPS and PPS heard last
  before it in the whole session.
- `Listing.IndexTells`: what a client reads in the index of any session: which segments, tagged exactly behind a cut,
  with which durations and files.
- `LivePipeline.RunStreamV2`: whatever file-system calls fail, at every single moment every segment that the
  visible index names is there and complete, and `current.json` goes only forward and never ahead of the index; and
  the run succeeds, with exactly the right directory, if and only if no call fails.
- `Rotation.RotatedDuration`, `Timeline.SessionLogsDeliveries`, `Timeline.ExceedsTarget`: the exact end of a segment, by
  how much its duration can exceed the target, and the message that delivered each access unit.
- `TsDemux.SegmentRoundTrip`, `Manifest.ManifestRoundTrip`, `Rtp.DecodeInvertsEncode` and
  `Rtp.DecodeAcceptsOnlyEncodings`, `Depacketizer.StapExact`, `Crc32.CrcIsRemainder`: the formats.
- `ClipLife.RunIsAccounted`, `ClipHistory.ClipComposition`, `ClipHistory.MotionIsAnswered`,
  `ClipFrames.AcceptedUnits`: which message a clip answers, when it starts and ends, and which units it covers.
- `MotionIds.PollersEmitTheEdges`, `MotionIds.EveryEndClosesItsStart`, `Offline.TrackerSays`,
  `Retention.ClipsToDelete`: the other parts around the live pipeline.

Time is a number that the environment gives with each message: milliseconds in the live pipeline, nanoseconds for
the ring and its clips. Message channels deliver in
order. The parts of a `select!` are single steps, with file-system calls as steps of their own. Where a
contract speaks of "the step", it means the function that `Live.Step` or `Clips.Step` defines.

## Model

| member | source | states |
|---|---|---|
| Rtp.ParseSlice | sentinel_rtp_cam/src/core/rtp.rs:18-99 | the slice parser returns the decoding, or the error of the first check that fails |
| Rtp.ParseShared | sentinel_rtp_cam/src/core/rtp_refactored.rs:62-142 | the zero-copy parser accepts the same buffers as the slice parser, with the same fields and payload, and rejects the others for the same reason |
| Rtp.DecodeInvertsEncode | sentinel_rtp_cam/src/core/rtp.rs:18-99 | for every header, CSRC list, extension, payload and padding, the serialized packet decodes to exactly its fields |
| Rtp.DecodeAcceptsOnlyEncodings | sentinel_rtp_cam/src/core/rtp.rs:18-99 | every accepted buffer is the serialization of a valid packet with the decoded fields |
| Rtp.EncodeIsInjective | sentinel_rtp_cam/src/core/rtp.rs:18-99 | two packets with the same bytes are the same packet, CSRC list, extension and padding included |
| Prelude.Be16Is | sentinel_rtp_cam/src/core/rtp.rs:38-40 | the two-byte fields of all formats have their high byte first |
| Annexb.FromRawType | sentinel_rtp_cam/src/core/video.rs:8-23 | a NAL unit behind a start code has the type of its header byte |
| Annexb.FromRawKinds | sentinel_rtp_cam/src/core/video.rs:8-23 | the start code is 0, 0, 0, 1; IDR slices, SPS and PPS are told by the types 5, 7 and 8 of the header byte, and by nothing else |
| Annexb.FromRawInjective | sentinel_rtp_cam/src/core/video.rs:8-13 | the start code loses nothing |
| Depacketizer.H264Depacketizer.PushRtpPayload | sentinel_rtp_cam/src/core/h264_depacketize.rs:21-38 | one payload takes state and output where the specification does, unsupported types and empty payloads included |
| Depacketizer.H264Depacketizer.HandleStapA | sentinel_rtp_cam/src/core/h264_depacketize.rs:40-75 | the index loop yields the aggregated NAL units, or the first error |
| Depacketizer.H264Depacketizer.HandleFuA | sentinel_rtp_cam/src/core/h264_depacketize.rs:77-114 | fragment state and output follow the specification, also for a lost start |
| Depacketizer.H264Depacketizer.Reset | sentinel_rtp_cam/src/core/h264_depacketize.rs:16-19 | the depacketizer forgets a fragment under way |
| Depacketizer.StapExact | sentinel_rtp_cam/src/core/h264_depacketize.rs:40-75 | a STAP-A yields a list of NAL units if and only if its body is the length-prefixed encoding of that list |
| Depacketizer.StapAcceptsOnlyEncodings | sentinel_rtp_cam/src/core/h264_depacketize.rs:40-75 | whatever is accepted is the encoding of some list, which comes out |
| Depacketizer.AcceptsExactly | sentinel_rtp_cam/src/core/h264_depacketize.rs:21-114 | which payloads are taken in which state, and which are refused: among others all of types 0, 25 to 27 and 29 to 31 |
| Depacketizer.FragmentsReassemble | sentinel_rtp_cam/src/core/h264_depacketize.rs:77-114 | a NAL unit split into two or more fragments comes back identical, from any state before |
| Depacketizer.PushKeepsValid | sentinel_rtp_cam/src/core/h264_depacketize.rs:21-114 | every emitted NAL unit has a start code and a header byte, and the buffer is empty unless a fragment is under way |
| SyncGate.H264SyncGate.Push | sentinel_rtp_cam/src/core/h264_sync.rs:30-68 | one NAL unit takes the gate and its output where the specification does |
| SyncGate.H264SyncGate.ResetSync | sentinel_rtp_cam/src/core/h264_sync.rs:21-23 | the gate closes and keeps its parameter sets |
| SyncGate.H264SyncGate.SetSpropParamSets | sentinel_rtp_cam/src/core/h264_sync.rs:25-28 | both parameter sets are replaced, nothing else |
| SyncGate.GateEmits | sentinel_rtp_cam/src/core/h264_sync.rs:30-68 | said without state: nothing before the first IDR with known sets, then each unit once and in order, each IDR behind the latest SPS and PPS before it |
| SyncGate.GateOutputIsDecodable | sentinel_rtp_cam/src/core/h264_sync.rs:30-68 | every emitted IDR directly follows an SPS and a PPS |
| SyncGate.NothingBeforeTheFirstIdr | sentinel_rtp_cam/src/core/h264_sync.rs:47-55 | from a reset on, output is empty or starts with two parameter sets and an IDR; they are an SPS and then a PPS when the sets known at the reset, if any, were of their types |
| Crc32.MpegCrc32 | sentinel_rtp_cam/src/live/v2.rs:1176-1189 | the two nested loops compute the register that the lemmas below speak of |
| Crc32.CrcIsRemainder | sentinel_rtp_cam/src/live/v2.rs:1176-1189 | that register is the remainder of the message on polynomial division over GF(2), from the all-ones start |
| Crc32.CrcChecks | sentinel_rtp_cam/src/live/v2.rs:1060-1104 | a message with its CRC appended leaves residue zero |
| Crc32.BurstDetected | sentinel_rtp_cam/src/live/v2.rs:1176-1189 | two messages of equal length that differ only inside four consecutive bytes have different CRCs |
| TsMux.PacketizeTs | sentinel_rtp_cam/src/live/v2.rs:1129-1174 | the packet-filling loop writes the packets that the specification lists, with stuffing for every residue, and leaves the next counter |
| TsMux.TsPacketsLength | sentinel_rtp_cam/src/live/v2.rs:1129-1174 | whole packets of 188 bytes, whatever the length of the payload |
| TsMux.BuildPatPacket | sentinel_rtp_cam/src/live/v2.rs:1060-1078 | the PAT, in one packet, with its CRC; what it says is in `TsDemux.TablesLeadToVideo` |
| TsMux.BuildPmtPacket | sentinel_rtp_cam/src/live/v2.rs:1080-1104 | the PMT, in one packet, with its CRC; what it says is in `TsDemux.TablesLeadToVideo` |
| TsDemux.PacketRoundTrip | sentinel_rtp_cam/src/live/v2.rs:1129-1174 | a packet of any payload length from 1 to 184 is 188 bytes that parse to its PID, counter, start bit and payload, with nothing but stuffing in its adaptation field |
| TsDemux.FollowUnit | sentinel_rtp_cam/src/live/v2.rs:1129-1174 | a payload cut into packets is collected whole, with every continuity counter one more than the last, modulo 16 |
| TsDemux.PtsRoundTrip | sentinel_rtp_cam/src/live/v2.rs:1118-1127 | the five bytes decode to the time stamp modulo 2^33 and carry every marker bit |
| TsDemux.PesRoundTrip | sentinel_rtp_cam/src/live/v2.rs:1106-1116 | a PES packet parses to the time stamp and bytes of its access unit |
| TsDemux.SectionRoundTrip | sentinel_rtp_cam/src/live/v2.rs:1060-1104 | a section with its CRC passes the decoder's checks: long form, length, in force, the only one, CRC |
| TsDemux.TablesLeadToVideo | sentinel_rtp_cam/src/live/v2.rs:1060-1104 | a decoder that reads the tables as the standard lays them out, past network entries and descriptors, finds program 1 with its PMT on PID 0x1000, and in that program's PMT H.264 video on PID 0x100 |
| TsDemux.SegmentRoundTrip | sentinel_rtp_cam/src/live/v2.rs:194-222 | a player that demultiplexes a segment file gets exactly the access units written into it, in order |
| ByteStream.SegmentDecodes | sentinel_rtp_cam/src/live/v2.rs:194-222 | a decoder that splits each picture of a segment file at its start codes gets back the NAL units of that access unit, one by one, when they are free of start codes as H.264 demands |
| Assembly.FeedKeepsValid | sentinel_rtp_cam/src/live/v2.rs:666-687 | nothing is collected while the gate is closed; the gate opens only with an IDR in the access unit under construction |
| Assembly.FeedAllFollowsDepacketizer | sentinel_rtp_cam/src/live/v2.rs:636-670 | a run of packets is accepted exactly when its payloads depacketize |
| Manifest.RenderPlaylist | sentinel_rtp_cam/src/live/v2.rs:311-343 | the text that is built up entry by entry is the specified index |
| Manifest.ManifestRoundTrip | sentinel_rtp_cam/src/live/v2.rs:311-343 | a parser that looks up the tags of RFC 8216 by their own names reads back target duration, media sequence and every entry with its duration and tag |
| Manifest.SegmentNameNumber | sentinel_rtp_cam/src/live/v2.rs:271-275 | a segment is called `seg_`, its number in six digits or as many more as it needs, and `.ts`; the number can be read back |
| Manifest.NamesAreDistinct | sentinel_rtp_cam/src/live/v2.rs:271-275 | different segments have different names, and none is called like the index |
| Manifest.TempIsNoFinalName | sentinel_rtp_cam/src/live/v2.rs:1052-1058 | a temporary file is never called like a segment, the index or another temporary |
| Live.StepKeepsGood | sentinel_rtp_cam/src/live/v2.rs:533-735 | one step from any good state, with any message, leads to a good one |
| Live.RunIsGood | sentinel_rtp_cam/src/live/v2.rs:506-737 | in every reachable state: segments are numbered from 1 without a hole, each starts with an IDR and is tagged exactly when its predecessor was cut, the flag of each access unit tells whether one of its NAL units is an IDR slice, an open gate means an open segment or a collected IDR, and no expected number means nothing is half assembled |
| Live.SegmentsStartWithIdr | sentinel_rtp_cam/src/live/v2.rs:771-797 | on every run one NAL unit of the first access unit of each segment, the open one included, is the bytes 0, 0, 0, 1 and a slice of type 5; and every access unit is flagged exactly when it has such a NAL unit |
| Live.WindowIsLeast | sentinel_rtp_cam/src/live/v2.rs:251-264 | the window has the least number of entries, at least three, that covers the configured time and one segment more |
| Live.DeliverKeepsGood | sentinel_rtp_cam/src/live/v2.rs:688-731 | a completed access unit always ends in a segment, and the reset behind the write never changes the pending flag |
| Live.SessionIsGood | sentinel_rtp_cam/src/live/v2.rs:739-753 | after a whole session `current.json` holds the state stopped, with exactly the last segment, if and only if there was output |
| Live.WindowIsConsecutive | sentinel_rtp_cam/src/live/v2.rs:277-309 | listed numbers are consecutive from the media sequence, never more than the window holds, and end with the newest |
| Rotation.RunIsTimed | sentinel_rtp_cam/src/live/v2.rs:688-727 | on every run, in the open segment and in each published one, no access unit but the first holds an IDR delivered at or after the target; a segment that rotation closed has reached the target and ended when the next one's first access unit was delivered; `Timeline.RunLogsDeliveries` ties these times to messages |
| Rotation.SessionIsTimed | sentinel_rtp_cam/src/live/v2.rs:688-749 | the same for all segments of a whole session |
| Rotation.RotatedDuration | sentinel_rtp_cam/src/live/v2.rs:799-836 | a segment that rotation closed lasts exactly until the IDR that starts the next one: at least the target, and longer by less than the wait for that IDR since any of its own |
| Timeline.RunLogsDeliveries | sentinel_rtp_cam/src/live/v2.rs:688-731 | on every run the access units of all segments, the open one included, are exactly the frames completed by its messages, in order, each recorded at the clock of the message that brought its marker |
| Timeline.SessionLogsDeliveries | sentinel_rtp_cam/src/live/v2.rs:688-749 | the same for the published segments of a whole session |
| Timeline.CountsInterruptions | sentinel_rtp_cam/src/live/v2.rs:838-859 | on every run the discontinuity count is the number of interruptions since the first access unit: gaps, unreadable packets, packets out of sequence and packets that fail to depacketize |
| Timeline.ExceedsTarget | sentinel_rtp_cam/src/live/v2.rs:799-836 | the listed duration of a segment, closed by rotation, cut or end, exceeds the index's target duration exactly when it was closed later than that after its first access unit was delivered; and it was closed at the clock of a message, or at the end |
| Timeline.TargetCanBeExceeded | sentinel_rtp_cam/src/live/v2.rs:807-809 | a run of two IDR pictures `wait` milliseconds apart, with a target of one second: the listed duration is `wait`, above the target duration of the index |
| Rotation.FullWindowSpans | sentinel_rtp_cam/src/live/v2.rs:251-264 | on every run, a full window of segments that rotation closed spans the configured window and one target more |
| Epochs.DivisionIsEpochs | sentinel_rtp_cam/src/live/v2.rs:549-670 | each epoch has contiguous numbers modulo 2^16 and depacketizes from scratch |
| Positions.EpochsLieAtTheirPlaces | sentinel_rtp_cam/src/live/v2.rs:549-670 | each epoch lies where its packets came in, with nothing but motion messages among them; and where one ended there was another message, or a packet that does not continue it |
| Positions.OutsidersFail | sentinel_rtp_cam/src/live/v2.rs:575-670 | a readable packet in no epoch fails in the depacketizer: behind the epoch under way when it continues that one, and from scratch when it does not; so no packet that could be taken in is left out |
| Positions.RefusedInterrupts | sentinel_rtp_cam/src/live/v2.rs:634-665 | a readable packet whose payload is refused, such as one of an unknown type, cuts the open segment and leaves nothing half assembled and no expected number |
| Epochs.MotionMakesNoDifference | sentinel_rtp_cam/src/live/v2.rs:567-574 | motion messages change nothing, wherever they come |
| Epochs.EpochsKeepEveryPacket | sentinel_rtp_cam/src/live/v2.rs:549-670 | every packet that the pipeline takes in is in exactly one epoch, in its place |
| Epochs.RunRefines | sentinel_rtp_cam/src/live/v2.rs:506-737 | at every moment all variables are those of the current epoch, and the finished groups of segments those of the epochs before |
| Epochs.SegmentsCarryEpochs | sentinel_rtp_cam/src/live/v2.rs:666-732 | between two cuts the segments carry what one epoch yields when it is fed on its own; no access unit spans a discontinuity |
| Epochs.SessionCarriesEpochs | sentinel_rtp_cam/src/live/v2.rs:739-749 | the same for a whole session: the end publishes what was open and adds nothing |
| Stream.AcceptedPacketsYield | sentinel_rtp_cam/src/live/v2.rs:634-687 | any accepted packets yield one access unit for each marker, unless the gate lets nothing through: all that it lets through since the marker before, under the time stamp of the first packet since then |
| Stream.FeedingConserves | sentinel_rtp_cam/src/live/v2.rs:666-687 | from any state on, what was collected and what the gate makes of all NAL units is in the completed access units and the one under construction, once and in order |
| Stream.FramesHoldTheStream | sentinel_rtp_cam/src/live/v2.rs:666-687 | the access units hold exactly what the gate lets through up to the last marker, and only the frame under way is missing |
| Conservation.GateAtIs | sentinel_rtp_cam/src/core/h264_sync.rs:21-45 | an epoch starts with a closed gate that knows the last SPS and PPS of all epochs before |
| Conservation.SegmentsCarryFrames | sentinel_rtp_cam/src/live/v2.rs:666-732 | on every run, between two cuts the segments carry exactly one epoch's frames, and since the last cut those of the epoch under way |
| Conservation.SessionCarriesFrames | sentinel_rtp_cam/src/live/v2.rs:666-749 | the same for a whole session |
| Conservation.SessionHoldsTheStream | sentinel_rtp_cam/src/live/v2.rs:666-749 | the NAL units of all published segments are exactly those that the gate lets through of each epoch up to its last marker |
| EndToEnd.CarriageDepacketizes | sentinel_rtp_cam/src/core/h264_depacketize.rs:21-114 | from any state, also with another NAL unit half reassembled, a single packet, aggregate or fragmented NAL unit yields exactly the NAL units it carries and nothing else |
| EndToEnd.FeedStream | sentinel_rtp_cam/src/live/v2.rs:575-687 | frames in any mixture of packet types come out as the expected access units |
| EndToEnd.ExpectedIsGatedStream | sentinel_rtp_cam/src/core/h264_sync.rs:30-68 | together the expected access units hold exactly what the gate emits for the stream |
| EndToEnd.LossFree | sentinel_rtp_cam/src/live/v2.rs:506-753 | without loss, with any motion messages in between, the published segments carry exactly the expected access units, no tag and no cut, and a player gets exactly their pictures |
| EndToEnd.WatchAll | sentinel_rtp_cam/src/live/v2.rs:194-231 | segment files played one after the other give their access units in order |
| Lossy.StretchYields | sentinel_rtp_cam/src/core/h264_depacketize.rs:21-114 | a stretch of a sender's payloads is accepted from scratch if and only if it is empty or starts where a packet or fragmented NAL unit does, and then yields exactly the NAL units that lie in it as a whole |
| Lossy.EpochsHoldWholeUnits | sentinel_rtp_cam/src/live/v2.rs:549-670 | whatever packets are lost, doubled, reordered or damaged, short of a jump by 2^16 from one packet to the next: each epoch is a stretch of the sender's packets, and its units are exactly the sender's NAL units all of whose packets are in it |
| Lossy.OnlyWholeUnitsArePublished | sentinel_rtp_cam/src/live/v2.rs:549-749 | every NAL unit of a published segment is then a whole NAL unit of the sender or a seeded parameter set |
| Lossy.UntoldJumpMerges | sentinel_rtp_cam/src/live/v2.rs:614-634 | the first fragment of a NAL unit and the last one of another, with everything between lost, become one NAL unit if and only if the loss is a multiple of 2^16 packets |
| Independence.EveryIdrCarriesParameterSets | sentinel_rtp_cam/src/live/v2.rs:666-749 | in every session with a well-typed seed or none, every IDR of every published access unit directly follows an SPS and a PPS that were the last ones heard before an occurrence of those bytes; `PublishedUnitByUnit` says at which |
| Independence.SeedIsKnown | sentinel_rtp_cam/src/live/v2.rs:506-517 | a session starts with exactly the parameter sets of its seed and a gate that waits for an IDR |
| Independence.PublishedUnitByUnit | sentinel_rtp_cam/src/live/v2.rs:666-749 | in order, each unit heard leads to nothing, to itself, or, when it is an IDR, to itself behind the last SPS and PPS heard before it, and these pieces in a row are the whole published stream |
| Disk.FileSystem.Create | sentinel_rtp_cam/src/live/v2.rs:136-149 | creating a file truncates it; a failed call may have done so, and touches nothing else |
| Disk.FileSystem.Append | sentinel_rtp_cam/src/live/v2.rs:151-154 | a failed write may leave any part, and touches nothing else |
| Disk.FileSystem.Rename | sentinel_rtp_cam/src/live/v2.rs:156-169 | all or nothing |
| Disk.SafeWithoutTemp | sentinel_rtp_cam/src/live/v2.rs:1052-1058 | temporary files play no part in what readers see |
| Disk.ShownIsSafe | sentinel_rtp_cam/src/live/v2.rs:311-343 | a directory that shows a window and backs each entry is safe for readers |
| Publisher.AtomicPublisher.Publish | sentinel_rtp_cam/src/live/v2.rs:156-169 | at every moment readers see the old file or the whole new one; failure leaves the old one |
| Publisher.AtomicPublisher.PublishBytes | sentinel_rtp_cam/src/live/v2.rs:179-184 | the same for create, write and publish in a row, each of which may fail |
| Publisher.MpegTsSegmentWriter.Create | sentinel_rtp_cam/src/live/v2.rs:195-211 | a new writer has written the tables, and only the temporary file has changed |
| Publisher.MpegTsSegmentWriter.WriteAccessUnit | sentinel_rtp_cam/src/live/v2.rs:213-222 | the file grows by exactly this access unit, with counters that continue |
| Publisher.MpegTsSegmentWriter.Publish | sentinel_rtp_cam/src/live/v2.rs:224-226 | the finished file holds the bytes of exactly the access units written |
| Publisher.MpegTsSegmentWriter.Discard | sentinel_rtp_cam/src/live/v2.rs:228-231 | a discarded segment leaves nothing behind and was never visible |
| PlaylistWindow.PlaylistState.constructor | sentinel_rtp_cam/src/live/v2.rs:251-264 | a target of at least a second, the first number, and the least window of at least three entries that covers the configured time and one segment more |
| PlaylistWindow.PlaylistState.NextSegmentPath | sentinel_rtp_cam/src/live/v2.rs:271-275 | each number is given once, with its name |
| PlaylistWindow.PlaylistState.PublishEntries | sentinel_rtp_cam/src/live/v2.rs:311-343 | readers see the old index or the whole new one |
| PlaylistWindow.PlaylistState.PushSegment | sentinel_rtp_cam/src/live/v2.rs:277-309 | readers are safe at every moment; success lists the segment, with its number, tag and duration of at least a millisecond, and evicts what left the window; failure of the index leaves the old one and all its files |
| PlaylistWindow.PlaylistState.EvictAll | sentinel_rtp_cam/src/live/v2.rs:301-306 | eviction removes exactly files that are no longer listed, and readers stay safe after each |
| PlaylistWindow.TempKeepsSafe | sentinel_rtp_cam/src/live/v2.rs:136-154 | calls that touch only a temporary file keep the history safe |
| PlaylistWindow.PublishKeepsSafe | sentinel_rtp_cam/src/live/v2.rs:156-169 | an atomic publication keeps the history safe when its result would be |
| Directory.DirectoryBacks | sentinel_rtp_cam/src/live/v2.rs:277-343 | the directory of some segments shows their window, with every listed file complete |
| Directory.DirectorySnoc | sentinel_rtp_cam/src/live/v2.rs:277-309 | publishing, listing and evicting turns the directory of the old segments into that of the new ones |
| Listing.IndexTells | sentinel_rtp_cam/src/live/v2.rs:277-343 | the index of every session, as a client parses it: the newest segments, as many as the window holds, from the media sequence on; each tagged if and only if the one before was cut, as long as from the delivery of its first access unit to its end, and with a file that holds exactly its access units; no other file is left; and the target duration |
| LiveSession.LiveOutput.FinalizeSegment | sentinel_rtp_cam/src/live/v2.rs:812-836 | readers are safe throughout; success leaves exactly the directory, counters and result that the step gives, and an empty segment is discarded |
| LiveSession.LiveOutput.HandleDiscontinuity | sentinel_rtp_cam/src/live/v2.rs:838-859 | the same for a cut, which makes the next segment tagged when there was output |
| LiveSession.LiveOutput.OpenSegment | sentinel_rtp_cam/src/live/v2.rs:784-797 | a new segment has its own file and takes the pending flag with it |
| LiveSession.LiveOutput.WriteAccessUnit | sentinel_rtp_cam/src/live/v2.rs:720-731 | the access unit goes to the end of the open segment |
| LiveSession.LiveOutput.Deliver | sentinel_rtp_cam/src/live/v2.rs:688-731 | rotation, `current.json`, opening and writing follow the step, and readers are safe throughout |
| LiveSession.LiveOutput.PublishPointer | sentinel_rtp_cam/src/live/v2.rs:380-399 | `current.json` is published only behind an index that has reached its number, and never goes back |
| LiveSession.LiveOutput.Finish | sentinel_rtp_cam/src/live/v2.rs:739-753 | the last segment is published before `current.json` becomes ready and then stopped |
| LivePipeline.Pipeline.Discontinuity | sentinel_rtp_cam/src/live/v2.rs:549-567 | the segment is closed and everything half assembled is dropped, parameter sets excepted |
| LivePipeline.Pipeline.Assemble | sentinel_rtp_cam/src/live/v2.rs:636-687 | depacketizer, gate and access unit follow the specification, failure included |
| LivePipeline.Pipeline.HandlePacket | sentinel_rtp_cam/src/live/v2.rs:614-732 | one packet takes variables and directory where the step does |
| LivePipeline.Pipeline.HandleMessage | sentinel_rtp_cam/src/live/v2.rs:548-735 | one message succeeds exactly when no call fails and then takes variables and directory where the step does; readers are safe also when a call fails |
| LivePipeline.RunStreamV2 | sentinel_rtp_cam/src/live/v2.rs:493-753 | readers are safe at every moment of every run; the run succeeds if and only if no call fails, and then the directory holds exactly the window's files and index, and `current.json` stands at the last segment |
| Playback.PlayDirectory | sentinel_rtp_cam/src/live/v2.rs:277-343 | playing a session directory gives the access units of the window's segments, in order |
| Playback.LossFreePlayback | sentinel_rtp_cam/src/live/v2.rs:493-753 | from RTP packets to the screen: the directory of a loss-free session, with any motion messages in between, plays the stream's pictures up to the last one, and all of them while they fit into the window |
| Clips.RingForgetsOnlyTheOld | sentinel_rtp_cam/src/server_pipeline.rs:530-540 | at any later moment, pruning the ring gives what pruning everything ever accepted would give |
| Clips.NewestIsKept | sentinel_rtp_cam/src/server_pipeline.rs:530-540 | a unit survives its own pruning, at the end of the ring, if and only if it is no more than `ringSecs` seconds of 1,000,000,000 nanoseconds old by then; otherwise the ring is left empty |
| Clips.RequestStarts | sentinel_rtp_cam/src/server_pipeline.rs:729-793 | with known parameter sets a request always starts a clip, which then holds its preroll behind these sets, and is due exactly from `postSecs` seconds on, or from `maxClipSecs` on if that is earlier, counted in nanoseconds from its start |
| Clips.AcceptKeepsGood | sentinel_rtp_cam/src/server_pipeline.rs:256-311 | a waiting request becomes a clip at the very next accepted unit; a unit goes into the clip if and only if it is not too old when the ring is pruned, and otherwise the clip is unchanged |
| Clips.RunIsGood | sentinel_rtp_cam/src/server_pipeline.rs:165-317 | on every run whose clock does not go back: each clip holds its preroll and what was kept since, a request never waits beside a clip, and sync means known parameter sets |
| ClipLife.RunIsAccounted | sentinel_rtp_cam/src/server_pipeline.rs:160-192 | on every run: a request holds the ring of a motion message that came while no clip was under way; a clip starts with the unit accepted right behind its request, with the SPS and PPS that were last among the frames completed by then, and its stop and hard stop are counted from that packet's time; a clip under way has seen no tick at or after either; a finished one ended at the first such tick |
| ClipLife.RingIsPruned | sentinel_rtp_cam/src/server_pipeline.rs:530-540 | on every run whose clock does not go back the ring is exactly what its last pruning would have left of everything accepted, so it starts with the first unit that was not too old then |
| ClipHistory.ClipComposition | sentinel_rtp_cam/src/server_pipeline.rs:182-311 | every clip answers one motion message: behind the SPS and PPS known at its start it holds the ring of that moment from its first IDR on, and then each unit accepted until its end that was not too old when the ring was pruned behind it; that ring is what the last pruning left of everything accepted; its end is the first tick at or after a deadline |
| ClipHistory.UnbrokenStretch | sentinel_rtp_cam/src/server_pipeline.rs:256-311 | when no unit since was too old, such a clip is one unbroken stretch of the accepted units |
| ClipHistory.RefusesOnlyNothing | sentinel_rtp_cam/src/server_pipeline.rs:729-793 | a request comes to nothing if and only if a parameter set is missing and the ring holds no NAL unit from its first IDR on |
| ClipHistory.MotionIsAnswered | sentinel_rtp_cam/src/server_pipeline.rs:182-292 | a motion message that comes while no clip is under way gets its clip with the very next accepted unit |
| ClipHistory.NoRingNoClip | sentinel_rtp_cam/src/server_pipeline.rs:530-540 | with a ring of no seconds, and a clock that moves between completing a unit and pruning, every clip stays empty |
| ClipFrames.AcceptedUnits | sentinel_rtp_cam/src/server_pipeline.rs:194-277 | on every run the accepted units are exactly the frames between markers of each unbroken stretch of packets, whole and in order, from the one on that holds an IDR when both parameter sets are known; that one stands behind them |
| ClipFrames.KnownSets | sentinel_rtp_cam/src/server_pipeline.rs:502-528 | at every moment the known SPS and PPS are the last ones among all frames completed so far, accepted or not |
| ClipFile.ClipWriter.WriteNal | sentinel_rtp_cam/src/core/clip_writer.rs:35-41 | file and buffers together are everything given, with bounded pending bytes and exact accounting; a failed write leaves the unit pending |
| ClipFile.ClipWriter.FlushPending | sentinel_rtp_cam/src/core/clip_writer.rs:71-81 | pending bytes go behind what was written, and a flush leaves nothing in the buffers |
| ClipFile.ClipWriter.Finalize | sentinel_rtp_cam/src/core/clip_writer.rs:48-61 | the final file holds everything that was given |
| ClipFile.ClipWriter.TotalBytes | sentinel_rtp_cam/src/core/clip_writer.rs:67-69 | the reported size is that of everything given, flushed or not |
| ClipSession.StreamRecorder.PruneRing | sentinel_rtp_cam/src/server_pipeline.rs:530-540 | the loop drops a prefix of units that are each more than `ringSecs` seconds old, and stops at one that is not |
| ClipSession.StreamRecorder.BuildAccessUnit | sentinel_rtp_cam/src/server_pipeline.rs:502-528 | the unit holds all NAL units, and the last SPS and PPS are noted |
| ClipSession.StreamRecorder.TryStartClip | sentinel_rtp_cam/src/server_pipeline.rs:729-793 | it succeeds exactly when no operation fails, and then the new clip's writer was given exactly the preroll, and its stop and hard stop are that many seconds behind its start |
| ClipSession.StreamRecorder.WriteNalWithRetry | sentinel_rtp_cam/src/server_pipeline.rs:323-408 | on success at attempt k the writer was given k copies, which for k above one all end up in the file or its buffer; so the unit is given once if and only if no attempt failed; it gives up exactly when all attempts failed |
| ClipSession.StreamRecorder.AcceptUnit | sentinel_rtp_cam/src/server_pipeline.rs:277-311 | without a failing operation it succeeds, and ring, request, clip and file follow the step |
| ClipSession.StreamRecorder.CompleteUnit | sentinel_rtp_cam/src/server_pipeline.rs:256-275 | the marker builds a unit, which is dropped when the stream is not in sync |
| ClipSession.StreamRecorder.HandleMessage | sentinel_rtp_cam/src/server_pipeline.rs:162-317 | without a failing operation one message succeeds and takes variables and files where the step does |
| ClipSession.RunStream | sentinel_rtp_cam/src/server_pipeline.rs:132-321 | over any finite run of messages in which no operation fails, the finished files are byte for byte the clips that the step function finishes, which `ClipLife.RunIsAccounted` and `ClipHistory.ClipComposition` describe |
| Retention.ClipsToDelete | sentinel_rtp_cam/src/core/clip_recorder.rs:703-772 | the paths of exactly the shortest oldest-first prefix without which every configured limit is met |
| Retention.MarkUntilSmall | sentinel_rtp_cam/src/core/clip_recorder.rs:759-772 | the shortest prefix that meets the size limit; the running size never drops below zero |
| Retention.MarkOlder | sentinel_rtp_cam/src/core/clip_recorder.rs:735-743 | exactly the clips older than the cut-off, which are a prefix |
| Retention.RetainUnmarked | sentinel_rtp_cam/src/core/clip_recorder.rs:745-746 | filtering by path leaves the rest of the list |
| Retention.SortSorts | sentinel_rtp_cam/src/core/clip_recorder.rs:730-731 | the order by time is a permutation and stable |
| Retention.ExcessIsLeast | sentinel_rtp_cam/src/core/clip_recorder.rs:735-772 | what is left meets every limit, and dropping any fewer of the oldest would not do |
| Retention.ThreeRules | sentinel_rtp_cam/src/core/clip_recorder.rs:735-772 | the three rules one after the other drop no more than that |
| Retention.OldestGoFirst | sentinel_rtp_cam/src/core/clip_recorder.rs:730-772 | no deleted clip is newer than one that stays |
| Offline.OfflineTracker.OnOutageStarted | sentinel_rtp_cam/src/bin/agent_forward.rs:238-242 | the first start of an outage counts |
| Offline.OfflineTracker.OnOutageRecovered | sentinel_rtp_cam/src/bin/agent_forward.rs:244-258 | only a long outage is remembered, and a recovery ends being offline |
| Offline.OfflineTracker.Evaluate | sentinel_rtp_cam/src/bin/agent_forward.rs:260-272 | offline is emitted exactly on a continuous outage or a burst, when not offline yet |
| Offline.OfflineTracker.PruneStarts | sentinel_rtp_cam/src/bin/agent_forward.rs:274-277 | the recent starts stay, in order |
| Offline.ForgettingDoesNotMatter | sentinel_rtp_cam/src/bin/agent_forward.rs:238-277 | while the clock does not run backwards, the tracker emits exactly what one that remembers every long outage would |
| Offline.ForgettingNeedsTheClock | sentinel_rtp_cam/src/bin/agent_forward.rs:274-277 | with a clock that runs backwards the two would differ; this only shows that the condition is used, since the original's clock never does that |
| Offline.TrackerSays | sentinel_rtp_cam/src/bin/agent_forward.rs:238-277 | said without state: offline comes at exactly those evaluations that find the first alarm since the last recovery, where an alarm is an outage that has lasted long enough or enough long outages in the window, and online at exactly the recoveries behind one |
| Offline.TransitionsAlternate | sentinel_rtp_cam/src/bin/agent_forward.rs:244-272 | transitions alternate, offline first, on every trace |
| MotionIds.MotionEventIdLatch.NormalizeEvent | sentinel_rtp_cam/src/motion_event_latch.rs:42-95 | one event takes both maps and the id where the specification does |
| MotionIds.IdsFollowPeriods | sentinel_rtp_cam/src/motion_event_latch.rs:37-95 | said without state: an event takes the id of the last forwarded event of its camera and rule when motion was on, or when it starts again within the grace window, and otherwise keeps its own |
| MotionIds.ActiveOrEnded | sentinel_rtp_cam/src/motion_event_latch.rs:42-95 | no key is both active and ended |
| MotionIds.NormalizingIsIdempotent | sentinel_rtp_cam/src/motion_event_latch.rs:42-95 | normalizing a normalized trace changes nothing |
| MotionIds.KeysDoNotInterfere | sentinel_rtp_cam/src/motion_event_latch.rs:42-95 | what is forwarded for one camera and rule depends on its own events alone |
| MotionIds.MotionPoller.OnObservation | sentinel_rtp_cam/src/onvif/onvif_motion.rs:782-841 | one observation takes both maps and the emitted edge where the specification does |
| MotionIds.PollersEmitTheEdges | sentinel_rtp_cam/src/onvif/onvif_motion.rs:782-841 | over every trace of all cameras, the emitted edges are exactly the observations that differ from the one before of their rule, off at first and after a loss; a start is under its own new id, an end under the id of its start |
| MotionIds.EdgesAreInTurn | sentinel_rtp_cam/src/onvif/onvif_motion.rs:782-841 | between two losses the edges of a rule are a start, an end, a start and so on |
| MotionIds.MotionPoller.ResetMotionTracking | sentinel_rtp_cam/src/onvif/onvif_motion.rs:514-529 | everything is forgotten and nothing is emitted |
| MotionIds.EveryEndClosesItsStart | sentinel_rtp_cam/src/onvif/onvif_motion.rs:782-841 | over every trace of all cameras, silent losses included, each forwarded end finds its start latched and carries the id of the latest forwarded start; ids are tracked for exactly the rules whose motion is on |

## Left out

- Sockets, the RTSP dialogue, the TLS uplink, HTTP posts, ONVIF SOAP and XML, base64: plumbing over libraries.
- Logging, statistics and the no-publish watchdog: they do not feed back into the pipelines.
- Health files: a health file that cannot be written ends either run like any other failing call (`sentinel_rtp_cam/src/live/v2.rs:541-548`, `sentinel_rtp_cam/src/server_pipeline.rs:171`); that writing, and the ticks of the live pipeline, which do nothing else, are not modelled.
- Configuration loading, heartbeats, firmware jobs, the dummy server: many branches, shallow properties.
- `initialize_live_session`, `cleanup_old_sessions` and generations: a session starts with an empty directory here.
- The JSON of `current.json`: the file is its state and segment number; its publication is one atomic call, as `publish_bytes` makes it.
- Floating point: durations are whole milliseconds, and `EXTINF` is written from them with three decimals.
- EXTINF at most TARGETDURATION: the code does not meet it, since rotation waits for an IDR (`Timeline.ExceedsTarget` says when, `Timeline.TargetCanBeExceeded` gives a run); no DISCONTINUITY-SEQUENCE is written either.
- Live.SessionIsGood: says nothing of `current.json` between a cut and the next rotation, because the code does not update it there.
- 64-bit counters: segment numbers and discontinuity counts do not overflow; 16-bit sequence numbers and 4-bit continuity counters do wrap. The written time stamp has 33 bits, but the 32-bit RTP time stamp that it is taken from jumps back before it fills them.
- Live.Step: handles a message with one reading of the clock; the original reads it again inside a step.
- `BufWriter`: it may pass on any prefix of what it holds at each write; its size is not modelled.
- Publisher.AtomicPublisher.Discard: removes the temporary file without first asking whether it is there, since it always is.
- The two guards of the zero-copy parser behind its other checks (an empty buffer with padding, a payload start past its end): no input reaches them.
- Access units that are whole pictures after a loss: the first pipeline and the gate do not promise it.
- ClipSession.RunStream: speaks of any finite run of messages, whatever stops it; in the original loop the tick stays enabled, so closing the packet channel alone does not reach the `else` that would leave it (`sentinel_rtp_cam/src/server_pipeline.rs:160-317`). It says nothing of the files after a failed operation; `ClipSession.StreamRecorder.WriteNalWithRetry` says what a second attempt then gives, and an attempt that times out counts as failed.
- Names, sidecars and stale `.part` files of clips; a clip's rule is not modelled.
- Retention.ClipsToDelete: ends with the list of paths; a removal that fails is only logged, and sidecars follow their clips.
- `ClipRecorder`: its recording states; only its retention is modelled.
- The ingest stream registry: generations restart at 1 after an eviction, so the natural claim about cleanup does not hold.
- The event bus: it delivers every edge, in order, to a latch that is already there.
