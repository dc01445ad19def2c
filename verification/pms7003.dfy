/**
 The PMS7003 particulate sensor's frame scanner: the receive buffer is searched
 backwards for the most recent complete 32-byte frame (0x42 0x4D, 28 payload bytes,
 a 16-bit sum checksum), whose fields become the current readings. The UART is
 replaced by the bytes a read returns.
 */
module Pms7003 {
  import opened Bytes
  import opened Maybe

  const StartByte1: byte := 0x42
  const StartByte2: byte := 0x4D
  const FrameLength: nat := 32
  /** Bytes covered by the checksum: everything before the checksum itself. */
  const ChecksumOffset: nat := 30
  /** With no valid frame, a buffer longer than this is trimmed ... */
  const TrimThreshold: nat := 100
  /** ... to this many trailing bytes, enough to hold a split frame. */
  const TrimKeep: nat := 64
  /** The frame-length field of a complete frame: the bytes after it. */
  const FrameLengthField: nat := 28

  /** The values `_update_data` keeps: indices 1 to 14 of the unpacked frame. */
  datatype Readings = Readings(
    pm1_0Standard: nat, pm2_5Standard: nat, pm10_0Standard: nat,
    pm1_0Atmospheric: nat, pm2_5Atmospheric: nat, pm10_0Atmospheric: nat,
    pcnt0_3: nat, pcnt0_5: nat, pcnt1_0: nat, pcnt2_5: nat, pcnt5_0: nat, pcnt10_0: nat,
    version: nat, error: nat)

  /** A `Pms7003` object: the receive buffer, and the readings (all `None` until the
      first frame). */
  datatype Monitor = Monitor(buffer: seq<byte>, readings: Option<Readings>)

  const NewMonitor := Monitor([], None)

  // ---------------------------------------------------------------------------
  // Frames

  /** A complete frame with a matching checksum starts at `i`. */
  predicate ValidFrameAt(buf: seq<byte>, i: nat)
  {
    i + FrameLength <= |buf| && buf[i] == StartByte1 && buf[i + 1] == StartByte2 &&
    Sum(buf[i..i + ChecksumOffset]) == U16BE(buf, i + ChecksumOffset)
  }

  /** Reference definition: the greatest start index below `limit` of a valid frame. */
  function LatestFrame(buf: seq<byte>, limit: nat): (r: Option<nat>)
    requires limit <= |buf|
    ensures r.Some? ==> r.value < limit && ValidFrameAt(buf, r.value)
    ensures r.Some? ==> forall j :: r.value < j < limit ==> !ValidFrameAt(buf, j)
    ensures r.None? ==> forall j :: 0 <= j < limit ==> !ValidFrameAt(buf, j)
  {
    if limit == 0 then None
    else if ValidFrameAt(buf, limit - 1) then Some(limit - 1)
    else LatestFrame(buf, limit - 1)
  }

  /** Skipping a stretch without valid frames does not change the latest frame. */
  lemma {:induction false} LatestFrameSkips(buf: seq<byte>, lo: nat, hi: nat)
    requires lo <= hi <= |buf|
    requires forall j :: lo <= j < hi ==> !ValidFrameAt(buf, j)
    ensures LatestFrame(buf, hi) == LatestFrame(buf, lo)
  {
    if lo < hi {
      LatestFrameSkips(buf, lo, hi - 1);
    }
  }

  /** `bytearray.rfind(bytes([b]), 0, limit)`: the last index of `b` below `limit`,
      or -1. */
  function RFind(buf: seq<byte>, b: byte, limit: nat): (r: int)
    requires limit <= |buf|
    ensures -1 <= r < limit
    ensures r >= 0 ==> buf[r] == b
    ensures forall j :: r < j < limit ==> buf[j] != b
  {
    if limit == 0 then -1
    else if buf[limit - 1] == b then limit - 1
    else RFind(buf, b, limit - 1)
  }

  /** `struct.unpack("!HHHHHHHHHHHHHBBH", frame[2:])`: thirteen big-endian words, two
      bytes and the big-endian checksum. */
  function Unpack(body: seq<byte>): (r: seq<nat>)
    requires |body| == ChecksumOffset
    ensures |r| == 16
    ensures forall k :: 0 <= k < 13 ==> r[k] == U16BE(body, 2 * k)
    ensures r[13] == body[26] && r[14] == body[27] && r[15] == U16BE(body, 28)
  {
    seq(13, k requires 0 <= k < 13 => U16BE(body, 2 * k)) + [body[26] as nat, body[27] as nat, U16BE(body, 28)]
  }

  /** `_update_data`: the frame length (index 0) and the checksum (index 15) are not
      kept. */
  function UpdateData(data: seq<nat>): Readings
    requires |data| == 16
  {
    Readings(data[1], data[2], data[3], data[4], data[5], data[6],
             data[7], data[8], data[9], data[10], data[11], data[12], data[13], data[14])
  }

  /** The readings carried by the frame at `i`. */
  function DecodeFrameAt(buf: seq<byte>, i: nat): Readings
    requires i + FrameLength <= |buf|
  {
    UpdateData(Unpack(buf[i + 2..i + FrameLength]))
  }

  /** The buffer kept when no valid frame was found: the last 64 bytes of a buffer
      longer than 100, otherwise all of it. */
  function Trimmed(buf: seq<byte>): (r: seq<byte>)
    ensures |buf| > TrimThreshold ==> |r| == TrimKeep && r == buf[|buf| - TrimKeep..]
    ensures |buf| <= TrimThreshold ==> r == buf
  {
    if |buf| > TrimThreshold then buf[|buf| - TrimKeep..] else buf
  }

  /** `data_ready`: appends what the UART delivered, then searches backwards from the
      end for a valid frame. A found frame becomes the readings and only the bytes after
      it are kept; otherwise the readings stay and an oversize buffer is trimmed. */
  method DataReady(m: Monitor, received: seq<byte>) returns (ready: bool, r: Monitor)
    ensures var buf := m.buffer + received;
            ready <==> LatestFrame(buf, |buf|).Some?
    ensures var buf := m.buffer + received;
            ready ==> var i := LatestFrame(buf, |buf|).value;
                      r == Monitor(buf[i + FrameLength..], Some(DecodeFrameAt(buf, i)))
    ensures var buf := m.buffer + received;
            !ready ==> r == Monitor(Trimmed(buf), m.readings)
  {
    var buffer := m.buffer + received;
    var limit: nat := |buffer|;
    while true
      invariant limit <= |buffer|
      invariant LatestFrame(buffer, |buffer|) == LatestFrame(buffer, limit)
      decreases limit
    {
      var start := RFind(buffer, StartByte1, limit);
      if start == -1 {
        LatestFrameSkips(buffer, 0, limit);
        break;
      }
      // no frame can start between `start` and `limit`: none of them holds 0x42
      LatestFrameSkips(buffer, start + 1, limit);
      if start + 1 >= |buffer| || buffer[start + 1] != StartByte2 || start + FrameLength > |buffer| {
        limit := start;
        continue;
      }
      var frame := buffer[start..start + FrameLength];
      assert frame[..ChecksumOffset] == buffer[start..start + ChecksumOffset];
      if Sum(frame[..ChecksumOffset]) == 256 * (frame[30] as int) + frame[31] as int {
        assert ValidFrameAt(buffer, start);
        ready := true;
        assert frame[2..] == buffer[start + 2..start + FrameLength];
        r := Monitor(buffer[start + FrameLength..], Some(UpdateData(Unpack(frame[2..]))));
        return;
      }
      limit := start;
    }
    ready := false;
    r := Monitor(Trimmed(buffer), m.readings);
  }

  // ---------------------------------------------------------------------------
  // Building frames, the partner of the scanner

  /** Big-endian words back to back. */
  function PackWords(ws: seq<nat>): (r: seq<byte>)
    requires forall k :: 0 <= k < |ws| ==> ws[k] < 0x1_0000
    ensures |r| == 2 * |ws|
  {
    if |ws| == 0 then [] else PackU16BE(ws[0]) + PackWords(ws[1..])
  }

  lemma {:induction false} PackWordsReadBack(ws: seq<nat>)
    requires forall k :: 0 <= k < |ws| ==> ws[k] < 0x1_0000
    ensures forall k :: 0 <= k < |ws| ==> U16BE(PackWords(ws), 2 * k) == ws[k]
  {
    if |ws| > 0 {
      PackWordsReadBack(ws[1..]);
      var p := PackWords(ws);
      assert p == PackU16BE(ws[0]) + PackWords(ws[1..]);
      forall k | 0 <= k < |ws|
        ensures U16BE(p, 2 * k) == ws[k]
      {
        if k > 0 {
          assert p[2 * k] == PackWords(ws[1..])[2 * (k - 1)];
          assert p[2 * k + 1] == PackWords(ws[1..])[2 * (k - 1) + 1];
        }
      }
    }
  }

  /** Readings a frame can carry: twelve 16-bit values and two bytes. */
  predicate Representable(r: Readings)
  {
    r.pm1_0Standard < 0x1_0000 && r.pm2_5Standard < 0x1_0000 && r.pm10_0Standard < 0x1_0000 &&
    r.pm1_0Atmospheric < 0x1_0000 && r.pm2_5Atmospheric < 0x1_0000 && r.pm10_0Atmospheric < 0x1_0000 &&
    r.pcnt0_3 < 0x1_0000 && r.pcnt0_5 < 0x1_0000 && r.pcnt1_0 < 0x1_0000 &&
    r.pcnt2_5 < 0x1_0000 && r.pcnt5_0 < 0x1_0000 && r.pcnt10_0 < 0x1_0000 &&
    r.version < 256 && r.error < 256
  }

  /** The thirteen words of a frame: the frame length, then the twelve concentrations. */
  function Words(r: Readings): (ws: seq<nat>)
    requires Representable(r)
    ensures |ws| == 13 && forall k :: 0 <= k < 13 ==> ws[k] < 0x1_0000
  {
    [FrameLengthField, r.pm1_0Standard, r.pm2_5Standard, r.pm10_0Standard,
     r.pm1_0Atmospheric, r.pm2_5Atmospheric, r.pm10_0Atmospheric,
     r.pcnt0_3, r.pcnt0_5, r.pcnt1_0, r.pcnt2_5, r.pcnt5_0, r.pcnt10_0]
  }

  /** The frame a sensor sends for `r`. */
  function Frame(r: Readings): (f: seq<byte>)
    requires Representable(r)
    ensures |f| == FrameLength
  {
    var prefix := [StartByte1, StartByte2] + PackWords(Words(r)) + [r.version as byte, r.error as byte];
    prefix + PackU16BE(Sum(prefix))
  }

  /** Every frame a sensor sends is valid and decodes to the readings it was built from. */
  lemma FrameRoundTrip(r: Readings)
    requires Representable(r)
    ensures ValidFrameAt(Frame(r), 0)
    ensures DecodeFrameAt(Frame(r), 0) == r
  {
    var ws := Words(r);
    var prefix := [StartByte1, StartByte2] + PackWords(ws) + [r.version as byte, r.error as byte];
    var f := Frame(r);
    assert f[0..ChecksumOffset] == prefix;
    var body := f[2..FrameLength];
    assert prefix[2..28] == PackWords(ws);
    assert body[..26] == f[2..28] == prefix[2..28];
    PackWordsReadBack(ws);
    var data := Unpack(body);
    forall k | 0 <= k < 13
      ensures data[k] == ws[k]
    {
      assert U16BE(body, 2 * k) == U16BE(PackWords(ws), 2 * k);
    }
  }

  /** A frame that arrives on an empty buffer is accepted as it is, and nothing is left
      over. */
  lemma FreshFrameAccepted(r: Readings)
    requires Representable(r)
    ensures LatestFrame(Frame(r), FrameLength) == Some(0)
    ensures DecodeFrameAt(Frame(r), 0) == r
  {
    FrameRoundTrip(r);
  }

  /** A frame that is followed by at least one further complete valid frame is not the
      one accepted. */
  lemma NewerFrameWins(r1: Readings, r2: Readings)
    requires Representable(r1) && Representable(r2)
    ensures var buf := Frame(r1) + Frame(r2);
            LatestFrame(buf, |buf|) == Some(FrameLength) && DecodeFrameAt(buf, FrameLength) == r2
  {
    var buf := Frame(r1) + Frame(r2);
    FrameRoundTrip(r2);
    assert buf[FrameLength..] == Frame(r2);
    assert buf[FrameLength..FrameLength + ChecksumOffset] == Frame(r2)[0..ChecksumOffset];
    assert ValidFrameAt(buf, FrameLength);
    assert buf[FrameLength + 2..FrameLength + FrameLength] == Frame(r2)[2..FrameLength];
    LatestFrameSkips(buf, FrameLength + 1, |buf|);
  }

  // ---------------------------------------------------------------------------
  // Single-byte checks and the passive-mode commands

  /** `_assert_byte` on what a one-byte read returned (`None` on a timeout): true only for
      a single byte equal to `expected`. `ord` raises on more than one byte, which is
      `None` here. */
  function AssertByte(read: Option<seq<byte>>, expected: int): (r: Option<bool>)
    ensures r == Some(true) <==> read.Some? && |read.value| == 1 && read.value[0] == expected
    ensures r.None? <==> read.Some? && |read.value| > 1
  {
    if read.None? || |read.value| < 1 then Some(false)
    else if |read.value| > 1 then None
    else Some(read.value[0] == expected)
  }

  const EnterPassiveModeRequest: seq<byte> := [0x42, 0x4D, 0xE1, 0x00, 0x00, 0x01, 0x70]
  const EnterPassiveModeResponse: seq<byte> := [0x42, 0x4D, 0x00, 0x04, 0xE1, 0x00, 0x01, 0x74]
  const SleepRequest: seq<byte> := [0x42, 0x4D, 0xE4, 0x00, 0x00, 0x01, 0x73]
  const SleepResponse: seq<byte> := [0x42, 0x4D, 0x00, 0x04, 0xE4, 0x00, 0x01, 0x77]
  const WakeupRequest: seq<byte> := [0x42, 0x4D, 0xE4, 0x00, 0x01, 0x01, 0x74]
  const ReadInPassiveRequest: seq<byte> := [0x42, 0x4D, 0xE2, 0x00, 0x00, 0x01, 0x71]

  /** A command ends with the big-endian sum of the bytes before it. */
  predicate Checksummed(c: seq<byte>)
  {
    |c| >= 4 && c[0] == StartByte1 && c[1] == StartByte2 &&
    U16BE(c, |c| - 2) == Sum(c[..|c| - 2])
  }

  /** Every passive-mode request and response carries a correct checksum. */
  lemma PassiveCommandsChecksummed()
    ensures Checksummed(EnterPassiveModeRequest) && Checksummed(EnterPassiveModeResponse)
    ensures Checksummed(SleepRequest) && Checksummed(SleepResponse)
    ensures Checksummed(WakeupRequest) && Checksummed(ReadInPassiveRequest)
  {
    SumOfFive(EnterPassiveModeRequest[..5]);
    SumOfSix(EnterPassiveModeResponse[..6]);
    SumOfFive(SleepRequest[..5]);
    SumOfSix(SleepResponse[..6]);
    SumOfFive(WakeupRequest[..5]);
    SumOfFive(ReadInPassiveRequest[..5]);
  }

  lemma SumOfFive(s: seq<byte>)
    requires |s| == 5
    ensures Sum(s) == s[0] as int + s[1] as int + s[2] as int + s[3] as int + s[4] as int
  {
    assert s[..4][..3] == s[..3] && s[..3][..2] == s[..2] && s[..2][..1] == s[..1];
    assert Sum(s[..1]) == s[0] by { assert s[..1][..0] == []; }
    assert Sum(s[..3]) == Sum(s[..2]) + s[2];
    assert Sum(s) == Sum(s[..4]) + s[4];
  }

  lemma SumOfSix(s: seq<byte>)
    requires |s| == 6
    ensures Sum(s) == s[0] as int + s[1] as int + s[2] as int + s[3] as int + s[4] as int + s[5] as int
  {
    SumOfFive(s[..5]);
  }
}
