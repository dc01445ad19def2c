/**
 The SHTP packet codec of the BNO08x driver: the 4-byte header (15-bit byte
 count with a continuation flag in bit 15, channel, sequence number), its
 error classification, and the split of a receive buffer into header and
 payload.
 */
module ShtpPacket {
  import opened Bytes

  const HeaderLength: nat := 4
  /** Bit 15 of the byte count is the continuation flag, masked off on decode. */
  const ContinuationFlag: nat := 0x8000
  /** Number of SHTP channels; `_sequence_number` has one entry per channel. */
  const ChannelCount: nat := 6

  /** `PacketHeader`: the decoded header of one packet. */
  datatype Header = Header(channel: byte, sequence: byte, dataLength: nat, byteCount: nat)

  /** A packet: its header and the payload bytes that follow the header. */
  datatype Packet = Packet(header: Header, data: seq<byte>)

  /** `Packet.header_from_buffer`: total on every buffer of at least four bytes. */
  function HeaderFromBuffer(buf: seq<byte>): (h: Header)
    requires |buf| >= HeaderLength
    ensures h.byteCount < ContinuationFlag
    ensures h.channel == buf[2] && h.sequence == buf[3]
    ensures h.byteCount >= HeaderLength ==> h.byteCount == h.dataLength + HeaderLength
    ensures h.byteCount < HeaderLength ==> h.dataLength == 0
  {
    // `packet_byte_count &= ~0x8000` on a 16-bit value clears bit 15
    var byteCount := U16LE(buf, 0) % ContinuationFlag;
    Header(buf[2], buf[3], if byteCount >= HeaderLength then byteCount - HeaderLength else 0, byteCount)
  }

  /** The header bytes written in front of a payload: `pack_into("<H", ...)`, channel, sequence. */
  function EncodeHeader(channel: byte, sequence: byte, byteCount: nat): (r: seq<byte>)
    requires byteCount < 0x1_0000
    ensures |r| == HeaderLength
  {
    PackU16LE(byteCount) + [channel, sequence]
  }

  /** Decoding what was encoded gives back channel, sequence and byte count, as long as
      the byte count does not reach the continuation flag. */
  lemma HeaderRoundTrip(channel: byte, sequence: byte, byteCount: nat, rest: seq<byte>)
    requires byteCount < ContinuationFlag
    ensures HeaderFromBuffer(EncodeHeader(channel, sequence, byteCount) + rest)
         == Header(channel, sequence, if byteCount >= 4 then byteCount - 4 else 0, byteCount)
  {
    var buf := EncodeHeader(channel, sequence, byteCount) + rest;
    assert buf[..2] == PackU16LE(byteCount);
    assert U16LE(buf, 0) == byteCount;
  }

  /** A byte count at or above the flag loses bit 15 on the way back. */
  lemma HeaderDropsContinuationFlag(channel: byte, sequence: byte, byteCount: nat)
    requires ContinuationFlag <= byteCount < 0x1_0000
    ensures HeaderFromBuffer(EncodeHeader(channel, sequence, byteCount)).byteCount
         == byteCount - ContinuationFlag
  {
    var buf := EncodeHeader(channel, sequence, byteCount);
    assert U16LE(buf, 0) == byteCount;
  }

  /** Setting or clearing the continuation flag (bit 7 of byte 1) never changes the header. */
  lemma HeaderIgnoresContinuationFlag(buf: seq<byte>)
    requires |buf| >= HeaderLength
    ensures HeaderFromBuffer(buf[1 := (buf[1] as int + 128) % 256]) == HeaderFromBuffer(buf)
  {
    var flipped := buf[1 := (buf[1] as int + 128) % 256];
    var v := U16LE(buf, 0);
    var w := U16LE(flipped, 0);
    assert w == v + 0x8000 || w == v - 0x8000;
    assert w % 0x8000 == v % 0x8000;
  }

  /** `Packet.is_error`, exactly as written. */
  predicate IsError(h: Header)
  {
    h.channel > 5 || (h.byteCount == 0xFFFF && h.sequence == 0xFF)
  }

  /** On a decoded header `IsError` reduces to a channel check: the masked byte count is
      below 0x8000, so its second clause can never hold. */
  lemma DecodedIsErrorIffBadChannel(buf: seq<byte>)
    requires |buf| >= HeaderLength
    ensures IsError(HeaderFromBuffer(buf)) <==> buf[2] > 5
  {
  }

  /** The all-ones byte count as it survives the mask (`_data_ready` tests 0x7FFF). */
  predicate AllOnesByteCount(h: Header)
  {
    h.byteCount == 0x7FFF
  }

  /** Counterexample for `IsError`: the all-ones header on a valid channel is not flagged. */
  lemma IsErrorMissesAllOnesHeader()
    ensures !IsError(HeaderFromBuffer([0xFF, 0xFF, 0x00, 0xFF]))
  {
  }

  /** `is_error` with its second clause compared against the masked byte count, which is
      what the 0xFFFF comparison evidently means. */
  predicate IsErrorCorrected(h: Header)
  {
    h.channel > 5 || (AllOnesByteCount(h) && h.sequence == 0xFF)
  }

  /** The corrected check flags the all-ones header on every channel, and agrees with
      `IsError` on every header it does not decode from an all-ones byte count. */
  lemma IsErrorCorrectedFlagsAllOnes(channel: byte, buf: seq<byte>)
    requires |buf| >= HeaderLength
    ensures IsErrorCorrected(HeaderFromBuffer([0xFF, 0xFF, channel, 0xFF]))
    ensures !AllOnesByteCount(HeaderFromBuffer(buf)) ==>
              (IsErrorCorrected(HeaderFromBuffer(buf)) <==> IsError(HeaderFromBuffer(buf)))
  {
    assert U16LE([0xFF, 0xFF, channel, 0xFF], 0) == 0xFFFF;
  }

  /** `Packet(packet_bytes)`: the header and `data_length` bytes after it (fewer if the
      buffer ends first, as a Python slice does). */
  function PacketFromBuffer(buf: seq<byte>): (p: Packet)
    requires |buf| >= HeaderLength
    ensures p.header == HeaderFromBuffer(buf)
    ensures |buf| >= HeaderLength + p.header.dataLength ==>
              p.data == buf[HeaderLength..HeaderLength + p.header.dataLength]
    ensures |buf| < HeaderLength + p.header.dataLength ==> p.data == buf[HeaderLength..]
  {
    var header := HeaderFromBuffer(buf);
    Packet(header, PySlice(buf, HeaderLength, header.dataLength + HeaderLength))
  }

  /** Scenario: `[0x14, 0x00, 0x02, 0x05]` is 20 bytes on channel 2 with sequence 5. */
  lemma DecodeScenario()
    ensures HeaderFromBuffer([0x14, 0x00, 0x02, 0x05]) == Header(2, 5, 16, 20)
    ensures !IsError(HeaderFromBuffer([0x14, 0x00, 0x02, 0x05]))
  {
  }

  /** Scenario: `[0xFF, 0xFF, 0x07, 0xFF]` is an error condition because of its channel. */
  lemma ErrorScenario()
    ensures IsError(HeaderFromBuffer([0xFF, 0xFF, 0x07, 0xFF]))
  {
  }
}
