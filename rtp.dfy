/** The fields of an RTP packet (section 5.1 of RFC 3550) that the
    depacketiser reads and the packetiser writes. */
module Rtp {
  import opened Bytes

  datatype RtpPacket = RtpPacket(
    version: int,
    padding: bool,
    extension: bool,
    marker: bool,
    payloadType: uint8,
    sequenceNumber: uint16,
    timestamp: uint32,
    ssrc: uint32,
    payload: seq<byte>)

  /** Payload type 28 in the low five bits of the first byte: an FU-A
      fragment (section 5.8 of RFC 6184). */
  const FuA: byte := 28
  /** The start and end bits of the FU header. */
  const StartBit: byte := 0x80
  const EndBit: byte := 0x40
}
