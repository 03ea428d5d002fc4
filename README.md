# H.264 over RTP: depacketiser, packetiser and frame processors

This project models three byte-level parts of a LiveKit-based SFU in Dafny
and proves properties of them:

- **`H264FrameManager`** (`frame_manager.dfy`) is the receive side. It locks
  onto the SSRC and payload type of the first accepted RTP packet. It stores
  FU-A fragments (section 5.8 of RFC 6184) in a map keyed by sequence
  number and reassembles them when a fragment with the end bit arrives. It
  splits single-NAL payloads into NAL units with the Annex-B scanner. It
  decides when the collected units form a complete frame, and hands them
  out through `GetCompleteFrame`. The manager is a class whose methods
  update its fields in place.
- **`RTPPacketizer`** (`packetizer.dfy`) is the send side. It splits an
  Annex-B frame into NAL units. A unit of at most 1200 bytes goes out as
  one RTP packet. A longer unit is cut into FU-A fragments. Each packet gets
  a 16-bit sequence number counted from 0, and the marker bit goes on the
  last packet of the frame.
- **`SimpleProcessor` and `DefaultProcessor`** (`frame_processor.dfy`) are
  the frame processors. The first rejects a frame whose length is not a
  multiple of 3 (RGB24) and otherwise inverts every byte into a new buffer.
  The second returns the frame unchanged. Both pass the timestamp through.

The other files hold shared parts:

- `annexb.dfy` gives both Annex-B scanning loops (`parseNALUnits` and
  `findNALUnits`) as one function, `Scan`. Both loops are proved to compute
  it.
- `rtp.dfy` holds the RTP packet record.
- `bytes.dfy` holds the fixed-width types.
- `wrappers.dfy` holds `Option` and `Result`, which carry the Go error
  results.
- `roundtrip.dfy` connects the two ends. It shows that the fragments the
  packetiser emits reassemble into the unit without its header byte, and
  that the packets made from small units, fed into a new manager, leave it
  holding exactly those units.

Time is an explicit parameter `now` in nanoseconds, and `lastReceive` is an
integer field.

### Behaviour as coded

The model follows the code, and the code differs from an ideal RFC 6184
sender and receiver in these ways. Each difference is stated in a contract
or a lemma:

- Reassembly concatenates `fragment[2:]` and does not rebuild the NAL
  header byte. `RoundTrip.FragmentedRoundTrip` shows the result is the unit
  without its first byte. `RoundTrip.HeaderRebuilt` shows the byte could be
  rebuilt from the first fragment.
- Fragments are sorted by plain `uint16 <`. A span whose sequence numbers
  wrap from 65535 to 0 is reassembled out of order
  (`RoundTrip.WrappedSpanReordered`).
- Closing a span marks the frame complete, and the fragment map is not
  cleared after reassembly.
- `Packetize` restarts sequence numbers at 0 on every call.
- The number of fragments is `(len(nal) - 1) / 1198 + 1`. When
  `len(nal) - 1` is a multiple of 1198, the last fragment carries no data
  (`Packetizer.FragmentPayloadSize`).
- Both scanners loop while `i < len - 4`, so a start code in exactly the
  last four bytes is not split off
  (`AnnexB.ScanMissesTrailingStartCode`).
- A unit of at most 1200 bytes whose NAL type is 28 is sent as it is, but
  the receiver takes any payload of type 28 for an FU-A fragment, so such a
  unit is never collected as a unit (`RoundTrip.SmallUnitsDelivered` needs
  every unit to have another type).
- NAL type 12 ends a frame, like type 10. Table 7-1 of ITU-T H.264 lists 12
  as filler data and 11 as end of stream.
- `GetCompleteFrame` returns the units concatenated without start codes,
  and it returns no timestamp.
- Reassembly can report "no fragments", but `AddPacket` never reaches that
  error, because it stores the current packet before it reassembles.

## Model

| member | source | states |
|---|---|---|
| Bytes.NalType | pkg/sfu/frame_manager.go:86 | the NAL type (`byte0 & 0x1F`) is below 32 |
| Bytes.FlattenLength | pkg/sfu/frame_manager.go:204-211 | the assembled frame is exactly as long as the collected units together |
| AnnexB.ScanSplits | pkg/sfu/frame_manager.go:230-261 | the payload is zero or more start codes, the first unit, then for each further unit one or more start codes and that unit; the last unit runs to the end of the payload; no unit holds a start code at a position the loop examines (one with more than four bytes left) |
| AnnexB.ScanNonEmpty | pkg/sfu/frame_manager.go:240-254 | the scanner never emits an empty unit |
| AnnexB.ScanEmpty | pkg/sfu/frame_manager.go:230-261 | the scanner finds no unit exactly when the payload is empty |
| AnnexB.ScanNoStartCode | pkg/sfu/frame_manager.go:237-258 | a payload with no start code before position len-4 yields itself as the only unit, and an empty payload yields no unit |
| AnnexB.ScanMissesTrailingStartCode | pkg/sfu/frame_manager.go:237 | a start code in the last four bytes is not detected: `65 00 00 00 01` scans to itself |
| AnnexB.ScanJoin | pkg/sfu/frame_manager.go:230-261 | scanning the Annex-B stream of non-empty, start-code-free units gives back exactly those units |
| FrameManager.CheckFrameComplete | pkg/sfu/frame_manager.go:264-294 | false with no units; true after a timeout; true when the last unit's type is 10 or 12; true only in those cases |
| FrameManager.SortedSequenceNumbersSpec | pkg/sfu/frame_manager.go:152-159 | the sorted sequence numbers are exactly the map's keys, in strictly ascending plain `uint16` order |
| FrameManager.StrictlyAscendingUnique | pkg/sfu/frame_manager.go:157-159 | two strictly ascending lists with the same elements are equal, so the sorted order of a key set is unique |
| FrameManager.SortSequenceNumbers | pkg/sfu/frame_manager.go:152-159 | the collected sequence numbers are the map's keys, strictly ascending |
| FrameManager.ConcatFragmentData | pkg/sfu/frame_manager.go:161-170 | the loop appends each fragment's data after its 2-byte prefix in key order, skipping fragments shorter than 2 bytes |
| FrameManager.ParseNALUnits | pkg/sfu/frame_manager.go:230-261 | the scanning loop computes `Scan(payload)` and never reports an error |
| FrameManager.ReassembledUnits | pkg/sfu/frame_manager.go:152-173 | sorting, concatenating and scanning gives the scan of the ordered fragment data, with no empty unit |
| FrameManager.H264FrameManager.constructor | pkg/sfu/frame_manager.go:41-48 | a new manager has no identity, no units, an empty map, a 100 ms timeout and `lastReceive == now` |
| FrameManager.H264FrameManager.AddPacket | pkg/sfu/frame_manager.go:51-144 | SSRC and PT mismatches change nothing; identity is adopted only while SSRC is unset; FU-A packets are stored or rejected and leave seq/TS/receive time alone; single-NAL packets append their scan and recompute completeness |
| FrameManager.H264FrameManager.AddSingleNal | pkg/sfu/frame_manager.go:119-143 | records seq and timestamp, appends the payload's units, sets `isComplete` to `checkFrameComplete` against the previous receive time, then records `now` |
| FrameManager.H264FrameManager.AddFragment | pkg/sfu/frame_manager.go:85-116 | a 1-byte FU-A payload is an error and changes nothing; a start bit empties the map; the packet is stored under its sequence number; an end bit appends the reassembled units and marks completion |
| FrameManager.H264FrameManager.ReassembleFragments | pkg/sfu/frame_manager.go:147-186 | an empty map is an error that changes nothing; otherwise the scan of the ordered fragment data is appended, the frame is complete, and the map is kept |
| FrameManager.H264FrameManager.GetCompleteFrame | pkg/sfu/frame_manager.go:189-220 | an incomplete frame is an error that changes nothing; otherwise the result is the units concatenated in order, after which the list is empty and the flag is false |
| FrameManager.H264FrameManager.Reset | pkg/sfu/frame_manager.go:223-227 | empties the unit list and clears the flag; identity, sequence tracking and fragments stay |
| Packetizer.FragmentCountSpec | pkg/sfu/rtp_packetizer.go:103 | the fragment count is one more than the number of whole 1198-byte blocks of NAL data, and at least 2 for a unit over 1200 bytes |
| Packetizer.FragmentPayloadSize | pkg/sfu/rtp_packetizer.go:103-128 | each fragment is at most 1200 bytes, every one but the last exactly 1200, and the last only 2 when the data length is a multiple of 1198 |
| Packetizer.FuIndicatorType | pkg/sfu/rtp_packetizer.go:99-114 | every fragment has at least 2 bytes and its first byte classifies as FU-A (type 28) |
| Packetizer.FuHeaderBits | pkg/sfu/rtp_packetizer.go:117-125 | start bit exactly on fragment 0, end bit exactly on the last, bit 0x20 clear, low five bits the unit's NAL type |
| Packetizer.FuHeaderRebuilt | pkg/sfu/rtp_packetizer.go:98-125 | the NRI bits of any fragment's FU indicator or-ed with the type bits of its FU header give the unit's header byte |
| Packetizer.FragmentsRoundTrip | pkg/sfu/rtp_packetizer.go:100-128 | the fragments' data after their 2-byte prefix, concatenated in order, is `nal[1:]` |
| Packetizer.FramePayloadsBounded | pkg/sfu/rtp_packetizer.go:45-66 | every payload emitted for a frame is at most 1200 bytes |
| Packetizer.FramePayloadsEmpty | pkg/sfu/rtp_packetizer.go:37-47 | a list of units yields no payload exactly when it is empty |
| Packetizer.SmallUnitsUnchanged | pkg/sfu/rtp_packetizer.go:49-66 | units of at most 1200 bytes are sent verbatim, one per packet |
| Packetizer.PacketizeJoin | pkg/sfu/rtp_packetizer.go:32-93 | the payloads sent for the Annex-B stream of small start-code-free units are exactly those units |
| Packetizer.WrapAdvance | pkg/sfu/rtp_packetizer.go:48 | advancing a counter equal to `count mod 2^16` by `uint16(n)` gives `(count + n) mod 2^16` |
| Packetizer.RTPPacketizer.constructor | pkg/sfu/rtp_packetizer.go:23-29 | the packetiser keeps the given SSRC and payload type |
| Packetizer.RTPPacketizer.NumberedHeaders | pkg/sfu/rtp_packetizer.go:51-61 | every packet has version 2, no padding or extension, the configured SSRC and PT, the given timestamp, consecutive sequence numbers mod 2^16, and the marker only on the last packet when marked |
| Packetizer.RTPPacketizer.NumberedAppend | pkg/sfu/rtp_packetizer.go:43-67 | the packets of one more unit, numbered from a counter equal to the count so far mod 2^16, extend the frame's numbering without a gap |
| Packetizer.RTPPacketizer.Packetize | pkg/sfu/rtp_packetizer.go:32-70 | the packets are the frame's scanned units' payloads in order, numbered from 0 mod 2^16, marker on the last |
| Packetizer.RTPPacketizer.PacketizedFrame | pkg/sfu/rtp_packetizer.go:34-66 | no packet exactly when the frame is empty; packet k has sequence number k mod 2^16; exactly one packet, the last, has the marker; every payload is at most 1200 bytes |
| Packetizer.RTPPacketizer.PacketizeUnit | pkg/sfu/rtp_packetizer.go:44-66 | one unit yields its numbered packets and the counter advances by their number mod 2^16 |
| Packetizer.RTPPacketizer.FindNALUnits | pkg/sfu/rtp_packetizer.go:73-93 | the loop computes the same `Scan` as `parseNALUnits` |
| Packetizer.RTPPacketizer.FragmentNAL | pkg/sfu/rtp_packetizer.go:96-148 | `numFragments` packets; packet i carries fragment i, sequence number `startSeq + i` mod 2^16, and the marker only on the last fragment of the last unit |
| Packetizer.RTPPacketizer.FragmentPacket | pkg/sfu/rtp_packetizer.go:105-144 | one loop turn builds the packet carrying fragment i |
| RoundTrip.FragmentsAreStored | pkg/sfu/frame_manager.go:85-105 | every fragment the packetiser emits is one the manager stores as FU-A |
| RoundTrip.SortedRange | pkg/sfu/frame_manager.go:152-159 | consecutive sequence numbers that do not wrap are already in sorted order |
| RoundTrip.FragmentedRoundTrip | pkg/sfu/frame_manager.go:161-170 | reassembling a unit's fragments, stored under consecutive sequence numbers, gives the unit without its header byte |
| RoundTrip.HeaderRebuilt | pkg/sfu/frame_manager.go:168-169 | the dropped header byte is the one rebuilt from the first fragment's FU indicator and FU header |
| RoundTrip.WrappedKeysSorted | pkg/sfu/frame_manager.go:157-159 | the sequence number 0 that follows 65535 is sorted before it |
| RoundTrip.WrappedSpanReordered | pkg/sfu/frame_manager.go:152-170 | fragments sent as 65535 then 0 are reassembled with the second fragment's data first |
| RoundTrip.SmallUnitsRoundTrip | pkg/sfu/frame_manager.go:119-135 | the packetiser's payloads for the stream of small start-code-free units are exactly those units, one per unit, and the scan of each payload is that unit alone |
| RoundTrip.SmallUnitsDelivered | pkg/sfu/frame_manager.go:84-135 | the packets `Packetize` makes from small start-code-free units of any NAL type but 28, fed in order into a new `H264FrameManager`, are all accepted and leave it holding exactly those units, in order |
| Processing.Inverted | pkg/processing/frame_processor.go:69 | the processed buffer is as long as the input |
| Processing.InvertedComplements | pkg/processing/frame_processor.go:72-74 | each output byte and its input byte add up to exactly 255 |
| Processing.InvertedInvolution | pkg/processing/frame_processor.go:70-75 | inverting twice gives back the frame, and inversion keeps the length a multiple of 3 |
| Processing.InvertedChangesEveryByte | pkg/processing/frame_processor.go:70-75 | no byte is left unchanged, so a non-empty frame always changes |
| Processing.SimpleProcessor.ProcessFrame | pkg/processing/frame_processor.go:62-81 | an error exactly when the length is not a multiple of 3; otherwise the inverted frame and the request's timestamp |
| Processing.DefaultProcessFrame | pkg/processing/frame_processor.go:93-108 | never fails; the response carries the request's own frame and timestamp |
| Processing.DefaultProcessorIgnoresConfig | pkg/processing/frame_processor.go:94-97 | the configuration read has no effect on the result |

## Left out

- The mutex in `H264FrameManager` is not modelled. The manager is modelled single-threaded.
- Logger calls are side effects only and are not modelled. The logger argument of `NewH264FrameManager`, `NewRTPPacketizer` and `NewSimpleProcessor` is left out too.
- The clock is not modelled. `time.Now()` and `time.Since` become an explicit `now` parameter (nanoseconds) to `AddPacket` and to the constructor.
- `frameBuffer` is left out. It is cleared by `reset` but never read.
- `context.Context` is left out. No modelled operation uses it.
- Only the `pion/rtp` packet fields that the code reads or sets are modelled. CSRC lists and header extensions are not.
- `ConfigManager` is an interface whose implementation is not part of this model. `DefaultProcessFrame` takes the configuration that `GetCurrentConfig` returns as a parameter.
- The floating-point fields are left out: `ProcessingParams`, `Resolution` and `RuntimeConfig.DefaultDisparity`. No modelled operation reads them.
- pkg/processing/ffmpeg.go is not part of this model. It drives an external process through pipes.
- pkg/sfu/downtrack_test.go is not part of this model. It tests types whose code is not shown.
- The `FrameProcessor` interface is not modelled as a type. Both processors have its `ProcessFrame` shape.
- Packetizer.RTPPacketizer.Packetize: does not return Go's error result, because it is always nil. A frame with no units gives the empty sequence where Go gives `nil`.
- FrameManager.H264FrameManager.AddPacket: requires the class invariant `Valid()` (stored fragments are FU-A payloads of at least 2 bytes, collected units are non-empty). The constructor establishes it and every method keeps it.
- The `ssrc` and `pt` of `RTPPacketizer` are `const` fields, because the Go code never changes them after construction.
- FrameManager.H264FrameManager.AddPacket: does not model slice aliasing. Go stores the packet's own payload buffer in `fragments` and keeps sub-slices of it in `nalUnits`; the model holds values, so it assumes callers never change a payload buffer after handing it over.
- Packetizer.RTPPacketizer.Packetize: does not model slice aliasing either. Go's single-unit packets carry sub-slices of the caller's frame; the model assumes the frame is not changed while the packets are in use.
- Go's sort is not modelled step by step. `sort.Slice` is a library call, so the sorted key list is given as a function that lists the keys in ascending order.
