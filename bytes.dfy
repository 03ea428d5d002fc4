/** Fixed-width values of the Go code and byte-sequence helpers shared by
    the depacketiser, the packetiser and the frame processors. */
module Bytes {

  /** Go's `byte`: bitwise `&` and `|` are used on it exactly as in the Go code. */
  type byte = bv8

  /** Go's `uint8`, `uint16` and `uint32`, as bounded integers. */
  type uint8 = x: int | 0 <= x < 0x100
  type uint16 = x: int | 0 <= x < 0x1_0000
  type uint32 = x: int | 0 <= x < 0x1_0000_0000

  const Uint16Modulus: int := 0x1_0000

  /** The NAL unit type: the low five bits of the NAL header byte
      (`b & 0x1F`, section 7.3.1 of ITU-T H.264). */
  function NalType(b: byte): (t: byte)
    ensures t < 32
  {
    b & 0x1F
  }

  /** Concatenation of a list of byte strings, in order. */
  function Flatten(units: seq<seq<byte>>): seq<byte>
  {
    if |units| == 0 then [] else units[0] + Flatten(units[1..])
  }

  /** Sum of the lengths of a list of byte strings. */
  function TotalLength(units: seq<seq<byte>>): nat
  {
    if |units| == 0 then 0 else |units[0]| + TotalLength(units[1..])
  }

  /** Appending one more string at the end of the list appends its bytes at
      the end of the concatenation; this is what a loop that extends a
      buffer unit by unit relies on. */
  lemma {:induction false} FlattenSnoc(units: seq<seq<byte>>, u: seq<byte>)
    ensures Flatten(units + [u]) == Flatten(units) + u
  {
    if |units| == 0 {
      assert units + [u] == [u];
    } else {
      assert (units + [u])[1..] == units[1..] + [u];
      FlattenSnoc(units[1..], u);
    }
  }

  /** Concatenation distributes over appending two lists. */
  lemma {:induction false} FlattenAppend(a: seq<seq<byte>>, b: seq<seq<byte>>)
    ensures Flatten(a + b) == Flatten(a) + Flatten(b)
  {
    if |a| == 0 {
      assert a + b == b;
    } else {
      assert (a + b)[1..] == a[1..] + b;
      FlattenAppend(a[1..], b);
    }
  }

  /** The concatenation is exactly as long as the units together. */
  lemma {:induction false} FlattenLength(units: seq<seq<byte>>)
    ensures |Flatten(units)| == TotalLength(units)
  {
    if |units| > 0 {
      FlattenLength(units[1..]);
    }
  }
}
