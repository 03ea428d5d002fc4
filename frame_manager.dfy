/** The H.264 RTP depacketiser `H264FrameManager`: it locks onto the SSRC and
    payload type of the first accepted packet, collects FU-A fragments
    (section 5.8 of RFC 6184) in a map keyed by sequence number, scans
    single-NAL payloads and reassembled fragments into NAL units, and decides
    when the collected units form a complete frame. The mutex, the logger and
    the clock are not modelled: the current time is a parameter `now` in
    nanoseconds. */
module FrameManager {
  import opened Wrappers
  import opened Bytes
  import opened Rtp
  import opened AnnexB

  datatype FrameError =
    | SsrcMismatch
    | PayloadTypeMismatch
    | InvalidFuAPacket
    | NoFragments
    | FrameNotComplete

  /** `100 * time.Millisecond`, in nanoseconds. */
  const DefaultFrameTimeout: int := 100 * 1_000_000

  /** NAL types the manager treats as ending a frame: 10 (end of sequence)
      and 12 (filler data in Table 7-1 of ITU-T H.264, though the Go code
      takes it for end of stream). */
  predicate EndsFrame(nal: seq<byte>)
  {
    |nal| > 0 && (NalType(nal[0]) == 10 || NalType(nal[0]) == 12)
  }

  /** The identity check of `AddPacket` passes: the locked SSRC and payload
      type are each either unset (0) or equal to the packet's. */
  predicate Accepts(ssrc: uint32, pt: uint8, packet: RtpPacket)
  {
    (ssrc == 0 || ssrc == packet.ssrc) && (pt == 0 || pt == packet.payloadType)
  }

  /** What `AddPacket` stores in the fragment map: an FU-A payload that
      holds at least the FU indicator and the FU header. */
  predicate IsStoredFragment(payload: seq<byte>)
  {
    |payload| >= 2 && IsFuA(payload)
  }

  /** A payload whose first byte has NAL type 28 is an FU-A fragment. */
  predicate IsFuA(payload: seq<byte>)
  {
    |payload| > 0 && NalType(payload[0]) == FuA
  }

  /** `checkFrameComplete`: whether the units collected so far form a
      complete frame, given the time of the previous packet. */
  function CheckFrameComplete(nalUnits: seq<seq<byte>>, lastReceive: int, frameTimeout: int, now: int): (complete: bool)
    ensures |nalUnits| == 0 ==> !complete
    ensures |nalUnits| > 0 && now - lastReceive > frameTimeout ==> complete
    ensures |nalUnits| > 0 && EndsFrame(nalUnits[|nalUnits| - 1]) ==> complete
    ensures complete ==> now - lastReceive > frameTimeout || EndsFrame(nalUnits[|nalUnits| - 1])
  {
    if |nalUnits| == 0 then false
    else if now - lastReceive > frameTimeout then true
    else
      var lastNal := nalUnits[|nalUnits| - 1];
      EndsFrame(lastNal)
  }

  /** The sequence numbers of K from k upwards, in plain ascending `uint16`
      order (no wraparound). */
  function KeysFrom(K: set<uint16>, k: int): seq<uint16>
    requires 0 <= k <= Uint16Modulus
    decreases Uint16Modulus - k
  {
    if k == Uint16Modulus then []
    else (if k in K then [k as uint16] else []) + KeysFrom(K, k + 1)
  }

  /** The fragment keys as `sort.Slice` with `<` orders them. */
  function SortedSequenceNumbers(K: set<uint16>): seq<uint16>
  {
    KeysFrom(K, 0)
  }

  lemma {:induction false} KeysFromSpec(K: set<uint16>, k: int)
    requires 0 <= k <= Uint16Modulus
    ensures forall x :: x in KeysFrom(K, k) <==> x in K && k <= x
    ensures forall a, b | 0 <= a < b < |KeysFrom(K, k)| :: KeysFrom(K, k)[a] < KeysFrom(K, k)[b]
    decreases Uint16Modulus - k
  {
    if k < Uint16Modulus {
      KeysFromSpec(K, k + 1);
      var r := KeysFrom(K, k);
      var r' := KeysFrom(K, k + 1);
      if k in K {
        assert r == [k as uint16] + r';
        forall a, b | 0 <= a < b < |r| ensures r[a] < r[b] {
          if a == 0 {
            assert r[b] == r'[b - 1] && r'[b - 1] in r';
          } else {
            assert r[a] == r'[a - 1] && r[b] == r'[b - 1];
          }
        }
      } else {
        assert r == r';
      }
    }
  }

  /** The sorted sequence numbers are strictly ascending and are exactly the
      keys of the fragment map. */
  lemma SortedSequenceNumbersSpec(K: set<uint16>)
    ensures forall x :: x in SortedSequenceNumbers(K) <==> x in K
    ensures StrictlyAscending(SortedSequenceNumbers(K))
  {
    KeysFromSpec(K, 0);
  }

  /** The bytes a stored fragment contributes: everything after the FU
      indicator and FU header; a fragment shorter than two bytes is skipped. */
  function FragmentData(fragment: seq<byte>): seq<byte>
  {
    if |fragment| < 2 then [] else fragment[2..]
  }

  /** Concatenated fragment data over the given sequence numbers, in order. */
  function ConcatFragments(fragments: map<uint16, seq<byte>>, keys: seq<uint16>): seq<byte>
    requires forall k | k in keys :: k in fragments
  {
    if |keys| == 0 then []
    else ConcatFragments(fragments, keys[..|keys| - 1]) + FragmentData(fragments[keys[|keys| - 1]])
  }

  /** What `reassembleFragments` hands to the scanner: the fragment data in
      ascending sequence-number order. The NAL header byte is not rebuilt. */
  function Reassembled(fragments: map<uint16, seq<byte>>): seq<byte>
  {
    SortedSequenceNumbersSpec(fragments.Keys);
    ConcatFragments(fragments, SortedSequenceNumbers(fragments.Keys))
  }

  /** Strictly ascending in plain integer order. */
  predicate StrictlyAscending(s: seq<uint16>)
  {
    forall a, b | 0 <= a < b < |s| :: s[a] < s[b]
  }

  lemma HeadIsMember(t: seq<uint16>)
    ensures |t| > 0 ==> t[0] in t
  {
  }

  /** Two strictly ascending lists with the same elements are equal: the
      sorted order of a set of keys is unique. */
  lemma {:induction false} StrictlyAscendingUnique(s: seq<uint16>, t: seq<uint16>)
    requires StrictlyAscending(s) && StrictlyAscending(t)
    requires forall x :: x in s <==> x in t
    ensures s == t
    decreases |s|
  {
    if |s| == 0 {
      HeadIsMember(t);
    } else {
      assert s[0] in t;
      assert |t| > 0;
      assert t[0] in s;
      assert s[0] == t[0];
      forall x ensures x in s[1..] <==> x in t[1..] {
        if x in s[1..] {
          assert x in s && x != s[0];
        }
        if x in t[1..] {
          assert x in t && x != t[0];
        }
      }
      StrictlyAscendingUnique(s[1..], t[1..]);
      assert s == [s[0]] + s[1..] && t == [t[0]] + t[1..];
    }
  }

  /** The first half of `reassembleFragments`: the keys of the fragment map,
      collected and sorted with `sort.Slice` and `<`. */
  method SortSequenceNumbers(fragments: map<uint16, seq<byte>>) returns (sequences: seq<uint16>)
    ensures forall s :: s in sequences <==> s in fragments
    ensures StrictlyAscending(sequences)
  {
    SortedSequenceNumbersSpec(fragments.Keys);
    sequences := SortedSequenceNumbers(fragments.Keys);
  }

  /** The concatenation loop of `reassembleFragments`: for each sequence
      number in turn, the fragment's bytes after its two-byte prefix;
      fragments shorter than two bytes are skipped. */
  method ConcatFragmentData(fragments: map<uint16, seq<byte>>, sequences: seq<uint16>) returns (reassembled: seq<byte>)
    requires forall s | s in sequences :: s in fragments
    ensures reassembled == ConcatFragments(fragments, sequences)
  {
    reassembled := [];
    var i := 0;
    while i < |sequences|
      invariant 0 <= i <= |sequences|
      invariant reassembled == ConcatFragments(fragments, sequences[..i])
    {
      assert sequences[..i + 1][..i] == sequences[..i];
      var fragment := fragments[sequences[i]];
      if |fragment| < 2 {
        i := i + 1;
        continue;
      }
      reassembled := reassembled + fragment[2..];
      i := i + 1;
    }
    assert sequences[..|sequences|] == sequences;
  }

  /** `parseNALUnits`: the scanning loop; it never reports an error. The
      receiver is used only for logging, so it is a plain method here. */
  method ParseNALUnits(payload: seq<byte>) returns (units: seq<seq<byte>>, err: Option<FrameError>)
    ensures units == Scan(payload)
    ensures err == None
  {
    units := [];
    var start: nat := 0;
    var i: nat := 0;
    while i + StartCodeLength < |payload|
      invariant i <= |payload| && start <= |payload|
      invariant units + ScanFrom(payload, i, start) == Scan(payload)
    {
      if payload[i] == 0 && payload[i + 1] == 0 && payload[i + 2] == 0 && payload[i + 3] == 1 {
        if start < i {
          units := units + [payload[start..i]];
        }
        start := i + StartCodeLength;
      }
      i := i + 1;
    }
    if start < |payload| {
      units := units + [payload[start..]];
    }
    return units, None;
  }

  /** The pure part of `reassembleFragments`: sort the sequence numbers,
      concatenate the fragment data in that order and scan the result. */
  method ReassembledUnits(fragments: map<uint16, seq<byte>>) returns (units: seq<seq<byte>>)
    ensures units == Scan(Reassembled(fragments))
    ensures forall u | u in units :: |u| > 0
  {
    var sequences := SortSequenceNumbers(fragments);
    var reassembled := ConcatFragmentData(fragments, sequences);
    assert reassembled == Reassembled(fragments) by {
      SortedSequenceNumbersSpec(fragments.Keys);
      StrictlyAscendingUnique(sequences, SortedSequenceNumbers(fragments.Keys));
    }
    var parseErr;
    units, parseErr := ParseNALUnits(reassembled);
    ScanNonEmpty(reassembled);
  }

  class H264FrameManager {
    var lastSeq: uint16
    var lastTS: uint32
    var ssrc: uint32
    var pt: uint8

    var isComplete: bool
    var nalUnits: seq<seq<byte>>

    const frameTimeout: int
    var lastReceive: int

    var fragments: map<uint16, seq<byte>>
    var startSeq: uint16
    var endSeq: uint16

    /** Every stored fragment is an FU-A packet with its two-byte prefix,
        and every collected NAL unit is non-empty. */
    ghost predicate Valid()
      reads this
    {
      && (forall s | s in fragments :: IsStoredFragment(fragments[s]))
      && (forall u | u in nalUnits :: |u| > 0)
    }

    /** `NewH264FrameManager`. */
    constructor (now: int)
      ensures Valid()
      ensures ssrc == 0 && pt == 0 && lastSeq == 0 && lastTS == 0
      ensures !isComplete && nalUnits == [] && fragments == map[]
      ensures frameTimeout == DefaultFrameTimeout && lastReceive == now
      ensures startSeq == 0 && endSeq == 0
    {
      lastSeq, lastTS, ssrc, pt := 0, 0, 0, 0;
      isComplete, nalUnits := false, [];
      frameTimeout := DefaultFrameTimeout;
      lastReceive := now;
      fragments := map[];
      startSeq, endSeq := 0, 0;
    }

    /** `AddPacket`, at time `now`. */
    method AddPacket(packet: RtpPacket, now: int) returns (err: Option<FrameError>)
      requires Valid()
      modifies this
      ensures Valid()
      // identity check: a mismatch is reported before anything changes
      ensures old(ssrc) != 0 && old(ssrc) != packet.ssrc ==>
        err == Some(SsrcMismatch) && unchanged(this)
      ensures (old(ssrc) == 0 || old(ssrc) == packet.ssrc) && old(pt) != 0 && old(pt) != packet.payloadType ==>
        err == Some(PayloadTypeMismatch) && unchanged(this)
      // identity adoption: SSRC and payload type are taken together, only while SSRC is unset
      ensures Accepts(old(ssrc), old(pt), packet) ==>
        && ssrc == (if old(ssrc) == 0 then packet.ssrc else old(ssrc))
        && pt == (if old(ssrc) == 0 then packet.payloadType else old(pt))
      // FU-A packets leave the sequence, timestamp and receive time alone
      ensures Accepts(old(ssrc), old(pt), packet) && IsFuA(packet.payload) ==>
        lastSeq == old(lastSeq) && lastTS == old(lastTS) && lastReceive == old(lastReceive)
      ensures Accepts(old(ssrc), old(pt), packet) && IsFuA(packet.payload) && |packet.payload| < 2 ==>
        && err == Some(InvalidFuAPacket)
        && fragments == old(fragments) && nalUnits == old(nalUnits) && isComplete == old(isComplete)
        && startSeq == old(startSeq) && endSeq == old(endSeq)
      ensures Accepts(old(ssrc), old(pt), packet) && IsFuA(packet.payload) && |packet.payload| >= 2 ==>
        var startBit := packet.payload[1] & StartBit != 0;
        var endBit := packet.payload[1] & EndBit != 0;
        && err == None
        && fragments == (if startBit then map[] else old(fragments))[packet.sequenceNumber := packet.payload]
        && startSeq == (if startBit then packet.sequenceNumber else old(startSeq))
        && endSeq == (if endBit then packet.sequenceNumber else old(endSeq))
        && nalUnits == (if endBit then old(nalUnits) + Scan(Reassembled(fragments)) else old(nalUnits))
        && isComplete == (endBit || old(isComplete))
      // single-NAL packets
      ensures Accepts(old(ssrc), old(pt), packet) && !IsFuA(packet.payload) ==>
        && err == None
        && lastSeq == packet.sequenceNumber && lastTS == packet.timestamp && lastReceive == now
        && nalUnits == old(nalUnits) + Scan(packet.payload)
        && isComplete == CheckFrameComplete(nalUnits, old(lastReceive), frameTimeout, now)
        && fragments == old(fragments) && startSeq == old(startSeq) && endSeq == old(endSeq)
    {
      if ssrc != 0 && ssrc != packet.ssrc {
        return Some(SsrcMismatch);
      }
      if pt != 0 && pt != packet.payloadType {
        return Some(PayloadTypeMismatch);
      }

      if ssrc == 0 {
        ssrc := packet.ssrc;
        pt := packet.payloadType;
      }

      if |packet.payload| > 0 {
        var nalType := NalType(packet.payload[0]);
        if nalType == FuA {
          err := AddFragment(packet);
          return err;
        }
      }

      err := AddSingleNal(packet, now);
    }

    /** The single-NAL branch of `AddPacket`: record sequence number and
        timestamp, scan the payload into units, recompute completeness
        against the previous receive time and then record `now`. */
    method AddSingleNal(packet: RtpPacket, now: int) returns (err: Option<FrameError>)
      requires Valid()
      modifies this
      ensures Valid()
      ensures err == None
      ensures ssrc == old(ssrc) && pt == old(pt)
      ensures lastSeq == packet.sequenceNumber && lastTS == packet.timestamp && lastReceive == now
      ensures nalUnits == old(nalUnits) + Scan(packet.payload)
      ensures isComplete == CheckFrameComplete(nalUnits, old(lastReceive), frameTimeout, now)
      ensures fragments == old(fragments) && startSeq == old(startSeq) && endSeq == old(endSeq)
    {
      lastSeq := packet.sequenceNumber;
      lastTS := packet.timestamp;

      var units, parseErr := ParseNALUnits(packet.payload);
      ScanNonEmpty(packet.payload);

      nalUnits := nalUnits + units;
      isComplete := CheckFrameComplete(nalUnits, lastReceive, frameTimeout, now);
      lastReceive := now;
      return None;
    }

    /** The FU-A branch of `AddPacket`: a packet with the start bit opens a
        new span by emptying the map, every packet is stored under its
        sequence number, and a packet with the end bit triggers reassembly. */
    method AddFragment(packet: RtpPacket) returns (err: Option<FrameError>)
      requires Valid() && IsFuA(packet.payload)
      modifies this
      ensures Valid()
      ensures ssrc == old(ssrc) && pt == old(pt)
      ensures lastSeq == old(lastSeq) && lastTS == old(lastTS) && lastReceive == old(lastReceive)
      ensures |packet.payload| < 2 ==> err == Some(InvalidFuAPacket) && unchanged(this)
      ensures |packet.payload| >= 2 ==>
        var startBit := packet.payload[1] & StartBit != 0;
        var endBit := packet.payload[1] & EndBit != 0;
        && err == None
        && fragments == (if startBit then map[] else old(fragments))[packet.sequenceNumber := packet.payload]
        && startSeq == (if startBit then packet.sequenceNumber else old(startSeq))
        && endSeq == (if endBit then packet.sequenceNumber else old(endSeq))
        && nalUnits == (if endBit then old(nalUnits) + Scan(Reassembled(fragments)) else old(nalUnits))
        && isComplete == (endBit || old(isComplete))
    {
      if |packet.payload| < 2 {
        return Some(InvalidFuAPacket);
      }
      var fuHeader := packet.payload[1];
      var startBit := fuHeader & StartBit != 0;
      var endBit := fuHeader & EndBit != 0;

      if startBit {
        startSeq := packet.sequenceNumber;
        fragments := map[];
      }

      fragments := fragments[packet.sequenceNumber := packet.payload];

      if endBit {
        endSeq := packet.sequenceNumber;
        // cannot fail: the map holds at least the packet just stored
        assert packet.sequenceNumber in fragments && fragments != map[];
        err := ReassembleFragments();
        return err;
      }
      return None;
    }

    /** `reassembleFragments`: concatenates the stored fragments without
        their two-byte FU prefix in ascending sequence-number order, scans
        the result and marks the frame complete. The map is kept. */
    method ReassembleFragments() returns (err: Option<FrameError>)
      requires Valid()
      modifies this
      ensures Valid()
      ensures old(fragments) == map[] ==> err == Some(NoFragments) && unchanged(this)
      ensures old(fragments) != map[] ==>
        && err == None
        && nalUnits == old(nalUnits) + Scan(Reassembled(old(fragments)))
        && isComplete
      ensures fragments == old(fragments)
      ensures ssrc == old(ssrc) && pt == old(pt) && lastSeq == old(lastSeq) && lastTS == old(lastTS)
      ensures lastReceive == old(lastReceive) && startSeq == old(startSeq) && endSeq == old(endSeq)
    {
      if |fragments| == 0 {
        return Some(NoFragments);
      }

      var units := ReassembledUnits(fragments);
      nalUnits := nalUnits + units;
      isComplete := true;
      return None;
    }

    /** `GetCompleteFrame`: the collected units concatenated in order (with
        no start codes and no timestamp), after which the unit list is
        emptied and the frame marked incomplete. */
    method GetCompleteFrame() returns (r: Result<seq<byte>, FrameError>)
      requires Valid()
      modifies this
      ensures Valid()
      ensures !old(isComplete) ==> r == Failure(FrameNotComplete) && unchanged(this)
      ensures old(isComplete) ==> r == Success(Flatten(old(nalUnits))) && nalUnits == [] && !isComplete
      ensures ssrc == old(ssrc) && pt == old(pt) && lastSeq == old(lastSeq) && lastTS == old(lastTS)
      ensures fragments == old(fragments) && lastReceive == old(lastReceive)
      ensures startSeq == old(startSeq) && endSeq == old(endSeq)
    {
      if !isComplete {
        return Failure(FrameNotComplete);
      }

      var units := nalUnits;
      var frame: seq<byte> := [];
      var i := 0;
      while i < |units|
        invariant 0 <= i <= |units|
        invariant frame == Flatten(units[..i])
        invariant unchanged(this)
      {
        assert units[..i + 1] == units[..i] + [units[i]];
        FlattenSnoc(units[..i], units[i]);
        frame := frame + units[i];
        i := i + 1;
      }
      assert units[..|units|] == units;

      Reset();
      return Success(frame);
    }

    /** `reset`: empties the unit list and clears the completion flag;
        identity, sequence tracking and fragments stay. */
    method Reset()
      modifies this
      ensures nalUnits == [] && !isComplete
      ensures ssrc == old(ssrc) && pt == old(pt) && lastSeq == old(lastSeq) && lastTS == old(lastTS)
      ensures fragments == old(fragments) && lastReceive == old(lastReceive)
      ensures startSeq == old(startSeq) && endSeq == old(endSeq)
    {
      nalUnits := [];
      isComplete := false;
    }
  }
}
