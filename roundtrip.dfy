/** How the packetiser's output reads back through the depacketiser: the
    FU-A fragments of one NAL unit, stored under consecutive sequence
    numbers, reassemble into the unit without its header byte; the header
    byte can be rebuilt from the first fragment's FU indicator and FU
    header; a run of fragments whose sequence numbers wrap past 65535 is
    reassembled out of order; and the packets made from small units, fed
    into a new depacketiser, leave it holding exactly those units. */
module RoundTrip {
  import opened Wrappers
  import opened Bytes
  import opened Rtp
  import opened AnnexB
  import opened FrameManager
  import opened Packetizer

  /** The sequence numbers first, first + 1, ..., first + k - 1. */
  function Range(first: nat, k: nat): (r: seq<uint16>)
    requires first + k <= Uint16Modulus
    ensures |r| == k
  {
    seq(k, i requires 0 <= i < k => (first + i) as uint16)
  }

  /** The fragment map the depacketiser holds once every fragment of `nal`
      has arrived, fragment i stored under sequence number first + i. */
  function FragmentMap(nal: seq<byte>, first: nat): map<uint16, seq<byte>>
    requires |nal| > 0 && first + FragmentCount(nal) <= Uint16Modulus
  {
    map k | k in Range(first, FragmentCount(nal)) :: FragmentPayload(nal, k - first)
  }

  /** Fragment i is stored under sequence number first + i, and nothing
      else is stored. */
  lemma FragmentMapAt(nal: seq<byte>, first: nat, i: nat)
    requires |nal| > 0 && first + FragmentCount(nal) <= Uint16Modulus && i < FragmentCount(nal)
    ensures (first + i) as uint16 in FragmentMap(nal, first)
    ensures FragmentMap(nal, first)[(first + i) as uint16] == FragmentPayload(nal, i)
    ensures forall k | k in FragmentMap(nal, first) :: first <= k < first + FragmentCount(nal)
  {
    var r := Range(first, FragmentCount(nal));
    assert r[i] == (first + i) as uint16;
  }

  /** Every fragment the packetiser emits is one the depacketiser stores
      (an FU-A payload of at least two bytes), so a map of them keeps the
      depacketiser's invariant. */
  lemma FragmentsAreStored(nal: seq<byte>, first: nat)
    requires |nal| > 0 && first + FragmentCount(nal) <= Uint16Modulus
    ensures forall k | k in FragmentMap(nal, first) :: IsStoredFragment(FragmentMap(nal, first)[k])
  {
    forall k | k in FragmentMap(nal, first)
      ensures IsStoredFragment(FragmentMap(nal, first)[k])
    {
      FuIndicatorType(nal, k - first);
    }
  }

  /** Consecutive sequence numbers without wrap-around are already in the
      order the depacketiser sorts them into. */
  lemma SortedRange(nal: seq<byte>, first: nat)
    requires |nal| > 0 && first + FragmentCount(nal) <= Uint16Modulus
    ensures SortedSequenceNumbers(FragmentMap(nal, first).Keys) == Range(first, FragmentCount(nal))
  {
    var keys := FragmentMap(nal, first).Keys;
    var r := Range(first, FragmentCount(nal));
    SortedSequenceNumbersSpec(keys);
    RangeIsKeys(nal, first);
    assert StrictlyAscending(r);
    StrictlyAscendingUnique(SortedSequenceNumbers(keys), r);
  }

  /** The sequence numbers in the map are exactly those of the range. */
  lemma RangeIsKeys(nal: seq<byte>, first: nat)
    requires |nal| > 0 && first + FragmentCount(nal) <= Uint16Modulus
    ensures forall x :: x in FragmentMap(nal, first).Keys <==> x in Range(first, FragmentCount(nal))
  {
    var m := FragmentMap(nal, first);
    var r := Range(first, FragmentCount(nal));
    forall x
      ensures x in m.Keys <==> x in r
    {
      if x in m {
        assert r[x - first] == x;
      }
    }
  }

  lemma RangeInMap(nal: seq<byte>, first: nat, k: nat)
    requires |nal| > 0 && k <= FragmentCount(nal) && first + FragmentCount(nal) <= Uint16Modulus
    ensures forall s | s in Range(first, k) :: s in FragmentMap(nal, first)
  {
    var r := Range(first, k);
    forall s | s in r
      ensures s in FragmentMap(nal, first)
    {
      var i :| 0 <= i < k && r[i] == s;
      assert Range(first, FragmentCount(nal))[i] == s;
    }
  }

  lemma {:induction false} ConcatRange(nal: seq<byte>, first: nat, k: nat)
    requires |nal| > 0 && k <= FragmentCount(nal) && first + FragmentCount(nal) <= Uint16Modulus
    requires forall s | s in Range(first, k) :: s in FragmentMap(nal, first)
    ensures ConcatFragments(FragmentMap(nal, first), Range(first, k)) == JoinedData(nal, k)
  {
    if k > 0 {
      var m := FragmentMap(nal, first);
      var r := Range(first, k);
      var prev := Range(first, k - 1);
      assert r[..k - 1] == prev;
      ConcatRange(nal, first, k - 1);
      assert ConcatFragments(m, r) == ConcatFragments(m, prev) + FragmentData(m[r[k - 1]]);
      assert r[k - 1] == Range(first, FragmentCount(nal))[k - 1];
      assert m[r[k - 1]] == FragmentPayload(nal, k - 1);
    }
  }

  /** FU-A round trip through both ends: the depacketiser reassembles the
      fragments of a unit, stored under consecutive sequence numbers that do
      not wrap, into exactly the unit without its header byte. */
  lemma FragmentedRoundTrip(nal: seq<byte>, first: nat)
    requires |nal| > 0 && first + FragmentCount(nal) <= Uint16Modulus
    ensures Reassembled(FragmentMap(nal, first)) == nal[1..]
  {
    SortedRange(nal, first);
    RangeInMap(nal, first, FragmentCount(nal));
    ConcatRange(nal, first, FragmentCount(nal));
    FragmentsRoundTrip(nal);
  }

  /** The header byte that reassembly leaves out can be rebuilt from the
      first fragment: NRI and forbidden bits from its FU indicator, type
      from its FU header. */
  lemma HeaderRebuilt(nal: seq<byte>, first: nat)
    requires |nal| > 0 && first + FragmentCount(nal) <= Uint16Modulus
    ensures
      var f := FragmentPayload(nal, 0);
      [RebuiltHeader(f[0], f[1])] + Reassembled(FragmentMap(nal, first)) == nal
  {
    var f := FragmentPayload(nal, 0);
    FuHeaderRebuilt(nal, 0);
    FragmentedRoundTrip(nal, first);
    var head, tail := RebuiltHeader(f[0], f[1]), Reassembled(FragmentMap(nal, first));
    assert head == nal[0] && tail == nal[1..];
    assert [head] + tail == nal;
  }

  /** Sequence-number wrap-around: 0, the number that follows 65535, is
      sorted before it, as plain integers are. */
  lemma WrappedKeysSorted(last: uint16, next: uint16)
    requires last == Uint16Modulus - 1 && next == (last + 1) % Uint16Modulus
    ensures SortedSequenceNumbers({last, next}) == [next, last]
  {
    assert next == 0;
    var keys := {last, next};
    var sorted: seq<uint16> := [next, last];
    assert StrictlyAscending(sorted);
    assert forall x :: x in sorted <==> x in keys;
    SortedSequenceNumbersSpec(keys);
    StrictlyAscendingUnique(SortedSequenceNumbers(keys), sorted);
  }

  lemma ConcatTwo(m: map<uint16, seq<byte>>, x: uint16, y: uint16)
    requires x in m && y in m
    ensures ConcatFragments(m, [x, y]) == FragmentData(m[x]) + FragmentData(m[y])
  {
    var keys: seq<uint16> := [x, y];
    assert keys[..1] == [x] && [x][..0] == [];
    assert ConcatFragments(m, [x]) == FragmentData(m[x]);
  }

  /** A span whose fragments a and b are sent under sequence numbers 65535
      and then 0 is reassembled with b's data before a's. */
  lemma WrappedSpanReordered(a: seq<byte>, b: seq<byte>, last: uint16, next: uint16)
    requires |a| >= 2 && |b| >= 2
    requires last == Uint16Modulus - 1 && next == (last + 1) % Uint16Modulus
    ensures Reassembled(map[last := a, next := b]) == b[2..] + a[2..]
  {
    var m := map[last := a, next := b];
    assert m.Keys == {last, next};
    WrappedKeysSorted(last, next);
    ConcatTwo(m, next, last);
  }

  /** Round trip for units that fit in one packet: the packetiser sends the
      Annex-B stream of such units as one payload per unit, the unit itself,
      and the depacketiser's scan of each payload is that unit alone. */
  lemma SmallUnitsRoundTrip(units: seq<seq<byte>>)
    requires forall k | 0 <= k < |units| :: 0 < |units[k]| <= MaxRtpPacketSize && NoStartCode(units[k])
    ensures FramePayloads(Scan(Join(units))) == units
    ensures forall k | 0 <= k < |units| :: Scan(units[k]) == [units[k]]
  {
    PacketizeJoin(units);
    forall k | 0 <= k < |units|
      ensures Scan(units[k]) == [units[k]]
    {
      assert forall j: nat | j + 4 < |units[k]| :: !StartCodeAt(units[k], j);
      ScanNoStartCode(units[k]);
    }
  }

  /** One packet carrying a whole unit that is no FU-A payload and scans to
      itself: the depacketiser accepts it and appends the unit. */
  method DeliverSmallUnit(manager: H264FrameManager, packet: RtpPacket, now: int) returns (err: Option<FrameError>)
    requires manager.Valid() && Accepts(manager.ssrc, manager.pt, packet)
    requires !IsFuA(packet.payload) && Scan(packet.payload) == [packet.payload]
    modifies manager
    ensures manager.Valid() && err == None
    ensures manager.nalUnits == old(manager.nalUnits) + [packet.payload]
    ensures manager.ssrc == (if old(manager.ssrc) == 0 then packet.ssrc else old(manager.ssrc))
    ensures manager.pt == (if old(manager.ssrc) == 0 then packet.payloadType else old(manager.pt))
  {
    err := manager.AddPacket(packet, now);
  }

  /** Feeds packets in order to the depacketiser; each carries one whole
      unit that is no FU-A payload and scans to itself. */
  method DeliverSmallUnits(manager: H264FrameManager, packets: seq<RtpPacket>, units: seq<seq<byte>>,
                           ssrc: uint32, pt: uint8, now: int) returns (accepted: bool)
    requires manager.Valid() && manager.nalUnits == []
    requires (manager.ssrc == 0 || manager.ssrc == ssrc) && (manager.pt == 0 || manager.pt == pt)
    requires |packets| == |units|
    requires forall k | 0 <= k < |packets| ::
      && packets[k].payload == units[k] && packets[k].ssrc == ssrc && packets[k].payloadType == pt
      && !IsFuA(units[k]) && Scan(units[k]) == [units[k]]
    modifies manager
    ensures accepted && manager.nalUnits == units
  {
    accepted := true;
    var i := 0;
    while i < |packets|
      invariant i <= |packets|
      invariant manager.Valid() && manager.nalUnits == units[..i] && accepted
      invariant (manager.ssrc == 0 || manager.ssrc == ssrc) && (manager.pt == 0 || manager.pt == pt)
    {
      var err := DeliverSmallUnit(manager, packets[i], now);
      accepted := accepted && err == None;
      assert units[..i + 1] == units[..i] + [units[i]];
      i := i + 1;
    }
    assert units[..i] == units;
  }

  /** End to end for units that fit in one packet: the packets `Packetize`
      makes from their Annex-B stream, fed in order into a new depacketiser,
      are all accepted and leave it holding exactly those units, in order.
      No unit may have NAL type 28: the packetiser would send it as it is and
      the depacketiser would take it for an FU-A fragment. */
  method SmallUnitsDelivered(units: seq<seq<byte>>, ssrc: uint32, pt: uint8, timestamp: uint32, now: int)
    returns (collected: seq<seq<byte>>, accepted: bool)
    requires forall k | 0 <= k < |units| ::
      0 < |units[k]| <= MaxRtpPacketSize && NoStartCode(units[k]) && NalType(units[k][0]) != FuA
    ensures accepted && collected == units
  {
    var packetizer := new RTPPacketizer(ssrc, pt);
    var packets := packetizer.Packetize(Join(units), timestamp);
    SmallUnitsRoundTrip(units);
    packetizer.NumberedHeaders(0, units, timestamp, true);
    var manager := new H264FrameManager(now);
    accepted := DeliverSmallUnits(manager, packets, units, ssrc, pt, now);
    collected := manager.nalUnits;
  }
}
