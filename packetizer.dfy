/** The RTP packetiser `RTPPacketizer`: it splits a frame into NAL units with
    the Annex-B scanner and emits one RTP packet per unit, or, for a unit
    longer than the maximum packet size, a run of FU-A fragments (section
    5.8 of RFC 6184). Sequence numbers start at 0 on every call and wrap
    at 16 bits; the marker bit is set on the last packet of the frame. */
module Packetizer {
  import opened Bytes
  import opened Rtp
  import opened AnnexB

  /** `MaxRTPPacketSize`: the largest payload sent unfragmented. */
  const MaxRtpPacketSize: nat := 1200

  /** NAL data bytes per FU-A fragment: the maximum size less the FU
      indicator and the FU header. */
  const FragmentDataSize: nat := 1198

  /** `numFragments` of `fragmentNAL`: `(len(nalData) + 1198) / 1198`. */
  function FragmentCount(nal: seq<byte>): nat
    requires |nal| > 0
  {
    (|nal| - 1 + MaxRtpPacketSize - 2) / FragmentDataSize
  }

  /** The FU indicator: the NRI and forbidden bits of the NAL header with
      type 28. */
  function FuIndicator(nalHeader: byte): byte
  {
    (nalHeader & 0xE0) | FuA
  }

  /** The NAL header byte a receiver rebuilds from an FU indicator and an
      FU header: forbidden and NRI bits from the former, type from the
      latter (section 5.8 of RFC 6184). */
  function RebuiltHeader(fuIndicator: byte, fuHeader: byte): byte
  {
    (fuIndicator & 0xE0) | NalType(fuHeader)
  }

  /** The FU header of fragment i out of n, built as `fragmentNAL` builds
      it: start bit on the first, end bit on the last, then the NAL type
      or-ed in. */
  function FuHeader(nalType: byte, i: nat, n: nat): byte
  {
    var fuHeader: byte := 0;
    var withStart := if i == 0 then fuHeader | StartBit else fuHeader;
    var withEnd := if i == n - 1 then withStart | EndBit else withStart;
    withEnd | nalType
  }

  /** Where fragment i's slice of the NAL data (the unit without its header
      byte) ends: one fragment size after its start, cut at the end. */
  function FragmentEnd(nal: seq<byte>, i: nat): nat
    requires |nal| > 0
  {
    if (i + 1) * FragmentDataSize > |nal| - 1 then |nal| - 1 else (i + 1) * FragmentDataSize
  }

  /** The payload of fragment i: FU indicator, FU header, then the slice
      `nalData[i*1198 : min((i+1)*1198, len(nalData))]`. */
  function FragmentPayload(nal: seq<byte>, i: nat): seq<byte>
    requires |nal| > 0 && i < FragmentCount(nal)
  {
    FragmentCountSpec(nal);
    [FuIndicator(nal[0]), FuHeader(NalType(nal[0]), i, FragmentCount(nal))] + nal[1..][i * FragmentDataSize..FragmentEnd(nal, i)]
  }

  /** The payloads of all fragments of a unit, in order. */
  function Fragments(nal: seq<byte>): seq<seq<byte>>
    requires |nal| > 0
  {
    seq(FragmentCount(nal), i requires 0 <= i < FragmentCount(nal) => FragmentPayload(nal, i))
  }

  /** The payloads one NAL unit turns into: the unit itself when it fits in
      one packet, its FU-A fragments otherwise. */
  function UnitPayloads(nal: seq<byte>): seq<seq<byte>>
  {
    if |nal| > MaxRtpPacketSize then Fragments(nal) else [nal]
  }

  /** The payloads of a list of units, in order. */
  function FramePayloads(units: seq<seq<byte>>): seq<seq<byte>>
  {
    if |units| == 0 then [] else FramePayloads(units[..|units| - 1]) + UnitPayloads(units[|units| - 1])
  }

  /** The number of fragments is one more than the number of whole
      fragment-sized blocks in the NAL data: every fragment but the last
      carries 1198 bytes, and the last carries between 0 and 1197. A unit
      that needs fragmenting yields at least two fragments. */
  lemma FragmentCountSpec(nal: seq<byte>)
    requires |nal| > 0
    ensures FragmentCount(nal) >= 1
    ensures (FragmentCount(nal) - 1) * FragmentDataSize <= |nal| - 1 < FragmentCount(nal) * FragmentDataSize
    ensures |nal| > MaxRtpPacketSize ==> FragmentCount(nal) >= 2
  {
  }

  /** Fragment sizes: a full 1200 bytes for every fragment but the last,
      never more than 1200, and exactly the two header bytes for the last
      fragment when the NAL data is a whole multiple of 1198 bytes. */
  lemma FragmentPayloadSize(nal: seq<byte>, i: nat)
    requires |nal| > 0 && i < FragmentCount(nal)
    ensures |FragmentPayload(nal, i)| <= MaxRtpPacketSize
    ensures i < FragmentCount(nal) - 1 ==> |FragmentPayload(nal, i)| == MaxRtpPacketSize
    ensures i == FragmentCount(nal) - 1 && (|nal| - 1) % FragmentDataSize == 0 ==> |FragmentPayload(nal, i)| == 2
  {
    FragmentCountSpec(nal);
  }

  /** Every fragment starts with an FU indicator of type 28 and an FU
      header. */
  lemma FuIndicatorType(nal: seq<byte>, i: nat)
    requires |nal| > 0 && i < FragmentCount(nal)
    ensures |FragmentPayload(nal, i)| >= 2
    ensures NalType(FragmentPayload(nal, i)[0]) == FuA
  {
    assert FragmentPayload(nal, i)[0] == FuIndicator(nal[0]);
    var b := nal[0];
    assert (((b & 0xE0) | 28) & 0x1F) == 28;
  }

  /** The FU header of every fragment: the start bit exactly on the first
      fragment, the end bit exactly on the last, the reserved bit clear and
      the original NAL type in the low five bits. */
  lemma FuHeaderBits(nal: seq<byte>, i: nat)
    requires |nal| > 0 && i < FragmentCount(nal)
    ensures (FragmentPayload(nal, i)[1] & StartBit != 0) <==> i == 0
    ensures (FragmentPayload(nal, i)[1] & EndBit != 0) <==> i == FragmentCount(nal) - 1
    ensures FragmentPayload(nal, i)[1] & 0x20 == 0
    ensures NalType(FragmentPayload(nal, i)[1]) == NalType(nal[0])
  {
    var b := nal[0];
    var n := FragmentCount(nal);
    var h := FuHeader(NalType(b), i, n);
    assert FragmentPayload(nal, i)[1] == h;
    var s: byte := if i == 0 then StartBit else 0;
    var e: byte := if i == n - 1 then EndBit else 0;
    assert h == s | e | (b & 0x1F);
  }

  /** The FU indicator and FU header of any fragment together give back the
      unit's original header byte. */
  lemma FuHeaderRebuilt(nal: seq<byte>, i: nat)
    requires |nal| > 0 && i < FragmentCount(nal)
    ensures RebuiltHeader(FragmentPayload(nal, i)[0], FragmentPayload(nal, i)[1]) == nal[0]
  {
    var b := nal[0];
    var n := FragmentCount(nal);
    assert FragmentPayload(nal, i)[0] == FuIndicator(b);
    assert FragmentPayload(nal, i)[1] == FuHeader(NalType(b), i, n);
    var s: byte := if i == 0 then StartBit else 0;
    var e: byte := if i == n - 1 then EndBit else 0;
    assert FuHeader(NalType(b), i, n) == s | e | (b & 0x1F);
  }

  lemma FragmentPayloadParts(nal: seq<byte>, i: nat)
    requires |nal| > 0 && i < FragmentCount(nal)
    ensures i * FragmentDataSize <= FragmentEnd(nal, i) <= |nal| - 1
    ensures FragmentPayload(nal, i)
      == [FuIndicator(nal[0])] + [FuHeader(NalType(nal[0]), i, FragmentCount(nal))] + nal[1..][i * FragmentDataSize..FragmentEnd(nal, i)]
  {
    FragmentCountSpec(nal);
  }

  lemma FragmentDataSlice(nal: seq<byte>, i: nat)
    requires |nal| > 0 && i < FragmentCount(nal)
    ensures i * FragmentDataSize <= FragmentEnd(nal, i) <= |nal| - 1
    ensures FragmentPayload(nal, i)[2..] == nal[1..][i * FragmentDataSize..FragmentEnd(nal, i)]
  {
    FragmentCountSpec(nal);
  }

  /** The NAL data carried by the first k fragments, in order. */
  function JoinedData(nal: seq<byte>, k: nat): seq<byte>
    requires |nal| > 0 && k <= FragmentCount(nal)
  {
    if k == 0 then [] else JoinedData(nal, k - 1) + FragmentPayload(nal, k - 1)[2..]
  }

  lemma {:induction false} JoinedDataPrefix(nal: seq<byte>, k: nat)
    requires |nal| > 0 && k <= FragmentCount(nal)
    ensures k * FragmentDataSize <= |nal| - 1 ==> JoinedData(nal, k) == nal[1..][..k * FragmentDataSize]
    ensures k * FragmentDataSize > |nal| - 1 ==> JoinedData(nal, k) == nal[1..]
  {
    FragmentCountSpec(nal);
    if k > 0 {
      JoinedDataPrefix(nal, k - 1);
      var d := nal[1..];
      var lo := (k - 1) * FragmentDataSize;
      assert lo <= |d|;
      assert JoinedData(nal, k - 1) == d[..lo];
      FragmentDataSlice(nal, k - 1);
      if k * FragmentDataSize <= |d| {
        assert d[..k * FragmentDataSize] == d[..lo] + d[lo..k * FragmentDataSize];
      } else {
        assert d == d[..lo] + d[lo..];
      }
    }
  }

  /** FU-A round trip: the fragments' data after their two-byte prefix,
      concatenated in order, is the unit without its header byte. */
  lemma FragmentsRoundTrip(nal: seq<byte>)
    requires |nal| > 0
    ensures JoinedData(nal, FragmentCount(nal)) == nal[1..]
  {
    FragmentCountSpec(nal);
    JoinedDataPrefix(nal, FragmentCount(nal));
    if FragmentCount(nal) * FragmentDataSize <= |nal| - 1 {
      assert false;
    }
  }

  /** Every payload the packetiser emits fits in one packet. */
  lemma {:induction false} FramePayloadsBounded(units: seq<seq<byte>>)
    ensures forall p | p in FramePayloads(units) :: |p| <= MaxRtpPacketSize
  {
    if |units| > 0 {
      var u := units[|units| - 1];
      FramePayloadsBounded(units[..|units| - 1]);
      if |u| > MaxRtpPacketSize {
        forall i | 0 <= i < FragmentCount(u)
          ensures |Fragments(u)[i]| <= MaxRtpPacketSize
        {
          FragmentPayloadSize(u, i);
        }
      }
    }
  }

  /** A list of units yields payloads exactly when it is non-empty: every
      unit yields at least one. */
  lemma FramePayloadsEmpty(units: seq<seq<byte>>)
    ensures |FramePayloads(units)| == 0 <==> |units| == 0
  {
    if |units| > 0 {
      var u := units[|units| - 1];
      if |u| > MaxRtpPacketSize {
        FragmentCountSpec(u);
      }
      assert |UnitPayloads(u)| > 0;
    }
  }

  /** Units that fit in one packet each are sent unchanged, one per
      packet. */
  lemma {:induction false} SmallUnitsUnchanged(units: seq<seq<byte>>)
    requires forall k | 0 <= k < |units| :: |units[k]| <= MaxRtpPacketSize
    ensures FramePayloads(units) == units
  {
    if |units| > 0 {
      SmallUnitsUnchanged(units[..|units| - 1]);
      assert units == units[..|units| - 1] + [units[|units| - 1]];
    }
  }

  /** Frame round trip for small units: the payloads sent for the Annex-B
      stream of non-empty, start-code-free units of at most 1200 bytes are
      exactly those units. */
  lemma PacketizeJoin(units: seq<seq<byte>>)
    requires forall k | 0 <= k < |units| :: 0 < |units[k]| <= MaxRtpPacketSize && NoStartCode(units[k])
    ensures FramePayloads(Scan(Join(units))) == units
  {
    ScanJoin(units);
    SmallUnitsUnchanged(units);
  }

  /** `(a mod m + b) mod m == (a + b) mod m`: a uint16 counter advanced
      with wrap-around stays equal to the packet count modulo 2^16. */
  lemma WrapAdd(a: nat, b: nat)
    ensures (a % Uint16Modulus + b) % Uint16Modulus == (a + b) % Uint16Modulus
  {
    var q := a / Uint16Modulus;
    assert a == q * Uint16Modulus + a % Uint16Modulus;
    assert a + b == q * Uint16Modulus + (a % Uint16Modulus + b);
  }

  /** Advancing a `uint16` counter that equals `count mod 2^16` by
      `uint16(n)` gives `(count + n) mod 2^16`. */
  lemma WrapAdvance(count: nat, counter: nat, n: nat)
    requires counter == count % Uint16Modulus
    ensures (counter + n % Uint16Modulus) % Uint16Modulus == (count + n) % Uint16Modulus
  {
    var q := count / Uint16Modulus;
    var r := n / Uint16Modulus;
    assert count == q * Uint16Modulus + counter;
    assert n == r * Uint16Modulus + n % Uint16Modulus;
    assert count + n == (q + r) * Uint16Modulus + (counter + n % Uint16Modulus);
  }

  class RTPPacketizer {
    const ssrc: uint32
    const pt: uint8

    /** `NewRTPPacketizer` (the logger is not modelled). */
    constructor (ssrc: uint32, pt: uint8)
      ensures this.ssrc == ssrc && this.pt == pt
    {
      this.ssrc := ssrc;
      this.pt := pt;
    }

    /** The packet with sequence number `k mod 2^16` and the given marker
        and payload, carrying this packetiser's SSRC and payload type. */
    function PacketAt(k: nat, marker: bool, timestamp: uint32, payload: seq<byte>): RtpPacket
    {
      RtpPacket(2, false, false, marker, pt, k % Uint16Modulus, timestamp, ssrc, payload)
    }

    /** The packets carrying `payloads` in order, numbered on from `first`
        modulo 2^16, with the marker bit on the last one when `marked`. */
    function Numbered(first: nat, payloads: seq<seq<byte>>, timestamp: uint32, marked: bool): (packets: seq<RtpPacket>)
      ensures |packets| == |payloads|
      ensures forall k | 0 <= k < |packets| ::
        packets[k] == PacketAt(first + k, marked && k == |packets| - 1, timestamp, payloads[k])
    {
      seq(|payloads|, k requires 0 <= k < |payloads| => PacketAt(first + k, marked && k == |payloads| - 1, timestamp, payloads[k]))
    }

    /** Appending the packets of one more unit, numbered on from a counter
        that equals the packet count modulo 2^16, to the unmarked packets
        of the units before it gives the packets of all those payloads. */
    lemma NumberedAppend(payloads: seq<seq<byte>>, more: seq<seq<byte>>, counter: nat, timestamp: uint32, last: bool)
      requires |more| > 0 && counter == |payloads| % Uint16Modulus
      ensures Numbered(0, payloads, timestamp, false) + Numbered(counter, more, timestamp, last)
           == Numbered(0, payloads + more, timestamp, last)
    {
      var a := Numbered(0, payloads, timestamp, false) + Numbered(counter, more, timestamp, last);
      var b := Numbered(0, payloads + more, timestamp, last);
      forall k | 0 <= k < |a|
        ensures a[k] == b[k]
      {
        if k >= |payloads| {
          WrapAdd(|payloads|, k - |payloads|);
        }
      }
    }

    /** The header of every numbered packet: version 2, no padding or
        extension, this packetiser's SSRC and payload type, the given
        timestamp, consecutive sequence numbers modulo 2^16, and the marker
        bit on the last packet alone, and only when `marked`. */
    lemma NumberedHeaders(first: nat, payloads: seq<seq<byte>>, timestamp: uint32, marked: bool)
      ensures var packets := Numbered(first, payloads, timestamp, marked);
        forall k | 0 <= k < |packets| ::
          && packets[k].version == 2 && !packets[k].padding && !packets[k].extension
          && packets[k].ssrc == ssrc && packets[k].payloadType == pt && packets[k].timestamp == timestamp
          && packets[k].sequenceNumber == (first + k) % Uint16Modulus
          && packets[k].payload == payloads[k]
          && (packets[k].marker <==> marked && k == |packets| - 1)
    {
    }

    /** What `Packetize` promises about its packets: none exactly when the
        frame is empty; otherwise the k-th packet has sequence number
        k mod 2^16, exactly one packet, the last, has the marker bit, and
        every payload fits in 1200 bytes. */
    lemma PacketizedFrame(frame: seq<byte>, timestamp: uint32)
      ensures var packets := Numbered(0, FramePayloads(Scan(frame)), timestamp, true);
        && (|packets| == 0 <==> |frame| == 0)
        && (forall k | 0 <= k < |packets| ::
              && packets[k].sequenceNumber == k % Uint16Modulus
              && (packets[k].marker <==> k == |packets| - 1)
              && |packets[k].payload| <= MaxRtpPacketSize)
    {
      var payloads := FramePayloads(Scan(frame));
      NumberedHeaders(0, payloads, timestamp, true);
      FramePayloadsEmpty(Scan(frame));
      ScanEmpty(frame);
      FramePayloadsBounded(Scan(frame));
      var packets := Numbered(0, payloads, timestamp, true);
      forall k | 0 <= k < |packets|
        ensures |packets[k].payload| <= MaxRtpPacketSize
      {
        assert packets[k].payload == payloads[k] && payloads[k] in payloads;
      }
    }

    /** `Packetize`: the packets for `frame`, numbered from 0 in order, with
        the marker bit on the last one only, carrying the payloads of the
        scanned units. The Go error result is always nil and is dropped. */
    method Packetize(frame: seq<byte>, timestamp: uint32) returns (packets: seq<RtpPacket>)
      ensures packets == Numbered(0, FramePayloads(Scan(frame)), timestamp, true)
    {
      packets := [];
      var sequenceNumber: uint16 := 0;

      var nalUnits := FindNALUnits(frame);
      if |nalUnits| == 0 {
        return [];
      }

      var i := 0;
      ghost var payloads: seq<seq<byte>> := [];
      while i < |nalUnits|
        invariant 0 <= i <= |nalUnits|
        invariant payloads == FramePayloads(nalUnits[..i])
        invariant sequenceNumber == |payloads| % Uint16Modulus
        invariant packets == Numbered(0, payloads, timestamp, i == |nalUnits|)
      {
        var nal := nalUnits[i];
        assert nalUnits[..i + 1][..i] == nalUnits[..i];
        var unitPackets;
        ghost var counter := sequenceNumber;
        unitPackets, sequenceNumber := PacketizeUnit(nal, sequenceNumber, timestamp, i == |nalUnits| - 1);
        NumberedAppend(payloads, UnitPayloads(nal), counter, timestamp, i == |nalUnits| - 1);
        packets := packets + unitPackets;
        payloads := payloads + UnitPayloads(nal);
        i := i + 1;
      }
      assert nalUnits[..i] == nalUnits;
    }

    /** The body of `Packetize`'s loop for one unit: a single packet for a
        unit of at most 1200 bytes, its FU-A fragments otherwise, and the
        sequence number advanced by the number of packets with 16-bit
        wrap-around. */
    method PacketizeUnit(nal: seq<byte>, sequenceNumber: uint16, timestamp: uint32, isLastNal: bool)
      returns (unitPackets: seq<RtpPacket>, next: uint16)
      ensures unitPackets == Numbered(sequenceNumber, UnitPayloads(nal), timestamp, isLastNal)
      ensures |unitPackets| > 0
      ensures forall count: nat | sequenceNumber == count % Uint16Modulus ::
        next == (count + |unitPackets|) % Uint16Modulus
    {
      if |nal| > MaxRtpPacketSize {
        var fragments := FragmentNAL(nal, sequenceNumber, timestamp, isLastNal);
        unitPackets := fragments;
        next := (sequenceNumber + |fragments| % Uint16Modulus) % Uint16Modulus;
      } else {
        var packet := RtpPacket(2, false, false, isLastNal, pt, sequenceNumber, timestamp, ssrc, nal);
        unitPackets := [packet];
        next := (sequenceNumber + 1) % Uint16Modulus;
      }
      forall count: nat | sequenceNumber == count % Uint16Modulus
        ensures next == (count + |unitPackets|) % Uint16Modulus
      {
        WrapAdvance(count, sequenceNumber, |unitPackets|);
      }
    }

    /** `findNALUnits`: the same scanning loop as the depacketiser's. */
    method FindNALUnits(frame: seq<byte>) returns (nalUnits: seq<seq<byte>>)
      ensures nalUnits == Scan(frame)
    {
      nalUnits := [];
      var start: nat := 0;
      var i: nat := 0;
      while i + StartCodeLength < |frame|
        invariant i <= |frame| && start <= |frame|
        invariant nalUnits + ScanFrom(frame, i, start) == Scan(frame)
      {
        if frame[i] == 0 && frame[i + 1] == 0 && frame[i + 2] == 0 && frame[i + 3] == 1 {
          if start < i {
            nalUnits := nalUnits + [frame[start..i]];
          }
          start := i + StartCodeLength;
        }
        i := i + 1;
      }
      if start < |frame| {
        nalUnits := nalUnits + [frame[start..]];
      }
    }

    /** `fragmentNAL`: the FU-A packets of one unit, numbered on from
        `startSeq` with 16-bit wrap-around; the marker bit is set on the
        last fragment only, and only when the unit is the frame's last. */
    method FragmentNAL(nal: seq<byte>, startSeq: uint16, timestamp: uint32, isLastNal: bool) returns (fragments: seq<RtpPacket>)
      requires |nal| > 0
      ensures |fragments| == FragmentCount(nal)
      ensures forall i | 0 <= i < |fragments| ::
        fragments[i] == PacketAt(startSeq + i, isLastNal && i == |fragments| - 1, timestamp, FragmentPayload(nal, i))
    {
      fragments := [];
      var nalType := NalType(nal[0]);
      var nalHeader := [FuIndicator(nal[0])];
      var nalData := nal[1..];

      var numFragments := (|nalData| + MaxRtpPacketSize - 2) / (MaxRtpPacketSize - 2);
      FragmentCountSpec(nal);

      var i := 0;
      while i < numFragments
        invariant 0 <= i <= numFragments
        invariant |fragments| == i && numFragments == FragmentCount(nal)
        invariant forall j | 0 <= j < i ::
          fragments[j] == PacketAt(startSeq + j, isLastNal && j == numFragments - 1, timestamp, FragmentPayload(nal, j))
      {
        var packet := FragmentPacket(nal, nalHeader, nalType, nalData, i, numFragments, startSeq, timestamp, isLastNal);
        fragments := fragments + [packet];
        i := i + 1;
      }
    }

    /** One turn of the loop of `fragmentNAL`: the packet carrying fragment
        i, its data cut from `nalData` and its FU header built for i of
        `numFragments`. */
    method FragmentPacket(nal: seq<byte>, nalHeader: seq<byte>, nalType: byte, nalData: seq<byte>, i: nat,
                          numFragments: nat, startSeq: uint16, timestamp: uint32, isLastNal: bool)
      returns (packet: RtpPacket)
      requires |nal| > 0 && numFragments == FragmentCount(nal) && i < numFragments
      requires nalHeader == [FuIndicator(nal[0])] && nalType == NalType(nal[0]) && nalData == nal[1..]
      ensures packet == PacketAt(startSeq + i, isLastNal && i == numFragments - 1, timestamp, FragmentPayload(nal, i))
    {
      FragmentCountSpec(nal);
      var start := i * (MaxRtpPacketSize - 2);
      var end := start + (MaxRtpPacketSize - 2);
      if end > |nalData| {
        end := |nalData|;
      }

      var fragment := nalHeader;

      var fuHeader := FuHeader(nalType, i, numFragments);
      fragment := fragment + [fuHeader];

      fragment := fragment + nalData[start..end];
      assert fragment == FragmentPayload(nal, i) by {
        FragmentPayloadParts(nal, i);
        assert start == i * FragmentDataSize && end == FragmentEnd(nal, i);
      }

      packet := RtpPacket(2, false, false, i == numFragments - 1 && isLastNal, pt,
        (startSeq + i) % Uint16Modulus, timestamp, ssrc, fragment);
    }
  }
}
