/** The Annex-B scanner shared by the depacketiser (`parseNALUnits`) and the
    packetiser (`findNALUnits`): a buffer is split on every 4-byte start code
    `00 00 00 01` (Annex B, section B.1 of ITU-T H.264) found by a loop that
    stops at position `len - 4`. This module gives the loop's result as a
    function; both methods are proved to compute it. */
module AnnexB {
  import opened Bytes

  /** `NALStartCodeLength`. */
  const StartCodeLength: nat := 4
  const StartCode: seq<byte> := [0, 0, 0, 1]

  /** The four bytes at position i are a start code. */
  predicate StartCodeAt(p: seq<byte>, i: nat)
    requires i + 4 <= |p|
  {
    p[i] == 0 && p[i + 1] == 0 && p[i + 2] == 0 && p[i + 3] == 1
  }

  /** The buffer holds no start code anywhere. */
  predicate NoStartCode(u: seq<byte>)
  {
    forall i: nat | i + 4 <= |u| :: !StartCodeAt(u, i)
  }

  /** What the scanning loop still emits when it is at position i and the
      current unit began at `start`. The loop runs while `i < len - 4`, so a
      start code in the last four bytes is never looked at. */
  function ScanFrom(p: seq<byte>, i: nat, start: nat): seq<seq<byte>>
    decreases |p| - i
  {
    if i + StartCodeLength >= |p| then
      (if start < |p| then [p[start..]] else [])
    else if StartCodeAt(p, i) then
      (if start < i then [p[start..i]] else []) + ScanFrom(p, i + 1, i + StartCodeLength)
    else
      ScanFrom(p, i + 1, start)
  }

  /** The NAL units the scanner finds in a buffer. */
  function Scan(p: seq<byte>): seq<seq<byte>>
  {
    ScanFrom(p, 0, 0)
  }

  /** The Annex-B byte stream of a list of NAL units: each unit preceded by
      a start code. */
  function Join(units: seq<seq<byte>>): (p: seq<byte>)
    ensures |units| > 0 ==> |p| >= 4 && p[..4] == StartCode
  {
    if |units| == 0 then [] else StartCode + units[0] + Join(units[1..])
  }

  /** p[a..b] is zero or more start codes, one after another. */
  predicate StartCodesBetween(p: seq<byte>, a: nat, b: nat)
    decreases b
  {
    a == b || (a + 4 <= b <= |p| && StartCodeAt(p, b - 4) && StartCodesBetween(p, a, b - 4))
  }

  /** No start code begins in p[a..b] at a position the scanning loop
      examines (one with four more bytes after it). */
  predicate NoStartCodeWithin(p: seq<byte>, a: nat, b: nat)
  {
    forall j: nat | a <= j < b && j + 4 < |p| :: !StartCodeAt(p, j)
  }

  /** units split p from position lo on: first a gap of start codes (one or
      more, or possibly none when `first`), then units[0] = p[a..b], which is
      non-empty and holds no examined start code, then the rest of the units
      the same way from b. The last unit ends exactly at the end of p, and
      there is no unit at all only when nothing is left of p. */
  ghost predicate SplitsFrom(p: seq<byte>, units: seq<seq<byte>>, lo: nat, first: bool)
    decreases |units|
  {
    if |units| == 0 then lo == |p|
    else
      exists a: nat, b: nat | lo <= a < b <= |p| ::
        StartCodesBetween(p, lo, a) && (first || lo < a) &&
        units[0] == p[a..b] && NoStartCodeWithin(p, a, b) &&
        SplitsFrom(p, units[1..], b, false)
  }

  /** Two start codes never overlap. */
  lemma StartCodesApart(p: seq<byte>, a: nat, b: nat)
    requires a < b && b + 4 <= |p| && StartCodeAt(p, a) && StartCodeAt(p, b)
    ensures a + 4 <= b
  {
    assert p[a + 3] == 1;
  }

  /** One more unit p[a..b] in front of a split of the rest. */
  lemma SplitsCons(p: seq<byte>, a: nat, b: nat, lo: nat, first: bool, rest: seq<seq<byte>>)
    requires lo <= a < b <= |p| && StartCodesBetween(p, lo, a) && (first || lo < a)
    requires NoStartCodeWithin(p, a, b) && SplitsFrom(p, rest, b, false)
    ensures SplitsFrom(p, [p[a..b]] + rest, lo, first)
  {
    var units := [p[a..b]] + rest;
    assert units[0] == p[a..b] && units[1..] == rest;
  }

  lemma {:induction false} ScanFromSplits(p: seq<byte>, i: nat, start: nat, lo: nat, first: bool)
    requires lo <= start <= |p| && start <= i + 3
    requires StartCodesBetween(p, lo, start) && (first || lo < start)
    requires start < |p| || lo == start
    requires i < start ==> 4 <= start && StartCodeAt(p, start - 4)
    requires NoStartCodeWithin(p, start, i)
    ensures SplitsFrom(p, ScanFrom(p, i, start), lo, first)
    ensures forall u | u in ScanFrom(p, i, start) :: |u| > 0
    decreases |p| - i
  {
    if i + StartCodeLength >= |p| {
      if start < |p| {
        SplitsCons(p, start, |p|, lo, first, []);
        assert p[start..|p|] == p[start..];
        assert [p[start..|p|]] + [] == [p[start..]];
      }
    } else if StartCodeAt(p, i) {
      if i < start {
        StartCodesApart(p, start - 4, i);
      }
      var rest := ScanFrom(p, i + 1, i + StartCodeLength);
      if start < i {
        ScanFromSplits(p, i + 1, i + StartCodeLength, i, false);
        SplitsCons(p, start, i, lo, first, rest);
      } else {
        ScanFromSplits(p, i + 1, i + StartCodeLength, lo, first);
        assert ScanFrom(p, i, start) == [] + rest == rest;
      }
    } else {
      ScanFromSplits(p, i + 1, start, lo, first);
    }
  }

  /** Scanner output, exactly: the buffer is zero or more start codes, the
      first unit, then for every further unit one or more start codes and
      that unit, the last unit running to the end of the buffer; no unit
      holds a start code at a position the loop examines. */
  lemma ScanSplits(p: seq<byte>)
    ensures SplitsFrom(p, Scan(p), 0, true)
  {
    ScanFromSplits(p, 0, 0, 0, true);
  }

  /** The scanner never emits an empty unit. */
  lemma ScanNonEmpty(p: seq<byte>)
    ensures forall u | u in Scan(p) :: |u| > 0
  {
    ScanFromSplits(p, 0, 0, 0, true);
  }

  /** The scanner finds no unit exactly when the buffer is empty. */
  lemma ScanEmpty(p: seq<byte>)
    ensures |Scan(p)| == 0 <==> |p| == 0
  {
    ScanSplits(p);
  }

  lemma {:induction false} ScanFromToEnd(p: seq<byte>, i: nat, start: nat)
    requires forall j: nat | i <= j && j + 4 < |p| :: !StartCodeAt(p, j)
    ensures ScanFrom(p, i, start) == if start < |p| then [p[start..]] else []
    decreases |p| - i
  {
    if i + StartCodeLength < |p| {
      ScanFromToEnd(p, i + 1, start);
    }
  }

  /** A buffer without a start code before position len - 4 comes out whole
      (and an empty buffer yields no unit at all). */
  lemma ScanNoStartCode(p: seq<byte>)
    requires forall j: nat | j + 4 < |p| :: !StartCodeAt(p, j)
    ensures Scan(p) == if |p| == 0 then [] else [p]
  {
    ScanFromToEnd(p, 0, 0);
    assert p[0..] == p;
  }

  /** A start code in exactly the last four bytes is not split off: the loop
      bound `i < len - 4` never reaches it. */
  lemma ScanMissesTrailingStartCode()
    ensures Scan([0x65, 0, 0, 0, 1]) == [[0x65, 0, 0, 0, 1]]
  {
    var p: seq<byte> := [0x65, 0, 0, 0, 1];
    assert !StartCodeAt(p, 0);
    ScanNoStartCode(p);
  }

  lemma {:induction false} ScanFromSkip(p: seq<byte>, i: nat, k: nat, start: nat)
    requires i <= k && k + 4 < |p|
    requires forall j: nat | i <= j < k :: !StartCodeAt(p, j)
    ensures ScanFrom(p, i, start) == ScanFrom(p, k, start)
    decreases k - i
  {
    if i < k {
      ScanFromSkip(p, i + 1, k, start);
    }
  }

  /** The scan of a suffix is the scan of the whole buffer from the point
      where the suffix begins. */
  lemma {:induction false} ScanFromShift(q: seq<byte>, r: seq<byte>, i: nat, start: nat)
    ensures ScanFrom(q + r, |q| + i, |q| + start) == ScanFrom(r, i, start)
    decreases |r| - i
  {
    var p := q + r;
    if i + StartCodeLength >= |r| {
      if start < |r| {
        assert p[|q| + start..] == r[start..];
      }
    } else {
      assert StartCodeAt(p, |q| + i) == StartCodeAt(r, i);
      ScanFromShift(q, r, i + 1, i + StartCodeLength);
      ScanFromShift(q, r, i + 1, start);
      if start < i {
        assert p[|q| + start..|q| + i] == r[start..i];
      }
    }
  }

  /** No start code begins inside the unit u of `StartCode + u + rest` when
      rest is empty or itself begins with a start code. */
  lemma NoStartCodeInUnit(u: seq<byte>, rest: seq<byte>, j: nat)
    requires NoStartCode(u)
    requires |rest| == 0 || (|rest| >= 4 && rest[..4] == StartCode)
    requires 1 <= j < 4 + |u| && j + 4 < |StartCode + u + rest|
    ensures !StartCodeAt(StartCode + u + rest, j)
  {
    var p := StartCode + u + rest;
    if j < 4 {
      assert p[3] == 1;
    } else if j + 4 <= 4 + |u| {
      assert p[j..j + 4] == u[j - 4..j];
      assert !StartCodeAt(u, j - 4);
    } else {
      assert p[j + 3] == rest[j + 3 - 4 - |u|];
      assert rest[j + 3 - 4 - |u|] == StartCode[j + 3 - 4 - |u|];
    }
  }

  /** After the leading start code, none begins before the end of u. */
  lemma NoStartCodeAfterHeader(u: seq<byte>, rest: seq<byte>)
    requires NoStartCode(u)
    requires |rest| == 0 || (|rest| >= 4 && rest[..4] == StartCode)
    ensures forall j: nat | 1 <= j < 4 + |u| && j + 4 < |StartCode + u + rest| :: !StartCodeAt(StartCode + u + rest, j)
  {
    forall j: nat | 1 <= j < 4 + |u| && j + 4 < |StartCode + u + rest|
      ensures !StartCodeAt(StartCode + u + rest, j)
    {
      NoStartCodeInUnit(u, rest, j);
    }
  }

  /** A start code and one unit, with nothing after it, scan to that unit. */
  lemma ScanLastUnit(u: seq<byte>)
    requires |u| > 0 && NoStartCode(u)
    ensures Scan(StartCode + u) == [u]
  {
    var p := StartCode + u;
    assert p == StartCode + u + [];
    NoStartCodeAfterHeader(u, []);
    assert StartCodeAt(p, 0);
    ScanFromToEnd(p, 1, 4);
    assert p[4..] == u;
  }

  /** A start code and one unit followed by more of the stream scan to the
      unit followed by the scan of the rest. */
  lemma ScanUnitThenRest(u: seq<byte>, rest: seq<byte>)
    requires |u| > 0 && NoStartCode(u)
    requires |rest| > 4 && rest[..4] == StartCode
    ensures Scan(StartCode + u + rest) == [u] + Scan(rest)
  {
    var p := StartCode + u + rest;
    var e := 4 + |u|;
    NoStartCodeAfterHeader(u, rest);
    assert StartCodeAt(p, 0);
    assert StartCodeAt(p, e) by {
      assert p[e..e + 4] == rest[..4];
    }
    ScanFromSkip(p, 1, e, 4);
    assert p[4..e] == u;
    assert ScanFrom(p, e, 4) == [u] + ScanFrom(p, e + 1, e + 4);
    assert ScanFrom(p, e, e) == ScanFrom(p, e + 1, e + 4);
    assert p == (StartCode + u) + rest;
    ScanFromShift(StartCode + u, rest, 0, 0);
  }

  /** Annex-B round trip: scanning the byte stream of non-empty units that
      contain no start code gives back exactly those units. */
  lemma {:induction false} ScanJoin(units: seq<seq<byte>>)
    requires forall k | 0 <= k < |units| :: |units[k]| > 0 && NoStartCode(units[k])
    ensures Scan(Join(units)) == units
    decreases |units|
  {
    if |units| == 1 {
      assert Join(units) == StartCode + units[0];
      ScanLastUnit(units[0]);
    } else if |units| > 1 {
      var rest := Join(units[1..]);
      assert rest == StartCode + units[1] + Join(units[2..]);
      assert Join(units) == StartCode + units[0] + rest;
      ScanUnitThenRest(units[0], rest);
      ScanJoin(units[1..]);
      assert units == [units[0]] + units[1..];
    }
  }
}
