/**
 The transport half of the BNO08x driver: the driver's state, the I2C bus as a
 queue of answers and a trace of written frames, sending and receiving SHTP
 packets, draining the report-slice stack, and the polling loops built on them.

 Time is the driver's tick counter in milliseconds. It advances by one tick per bus
 transfer, which is the only thing the loops below wait on; a wall-clock deadline
 becomes a bound on the number of transfers.
 */
module ShtpTransport {
  import opened Bytes
  import opened Maybe
  import opened ShtpPacket
  import opened ShtpReports
  import opened ShtpBatch
  import opened ShtpDispatch

  /** `DATA_BUFFER_SIZE`: the receive buffer is never smaller than this. */
  const DataBufferSize: nat := 512
  /** `_PACKET_READ_TIMEOUT`, in ticks. */
  const PacketReadTimeout: nat := 2000
  /** The default `timeout` of `_wait_for_packet_type`, in ticks. */
  const PacketTypeTimeout: nat := 5000

  const ShtpCommandChannel: byte := 0
  const ExecutableChannel: byte := 1
  const ControlChannel: byte := 2

  /** The I2C peripheral: each read is answered by the next chunk of `incoming` (which
      must hold at least the bytes asked for), and each write appends its frame to
      `written`. The peripheral does not acknowledge the writes whose position in
      `written` is in `refused`: for those `writeto` raises OSError. */
  datatype Bus = Bus(incoming: seq<seq<byte>>, written: seq<seq<byte>>, refused: set<nat>)

  /** The state of a `BNO085` object. */
  datatype Hub = Hub(
    sequence: seq<byte>,           // `_sequence_number`, one per channel
    twoEnded: map<int, byte>,      // `_two_ended_sequence_numbers`
    buffer: seq<byte>,             // `_data_buffer`
    slices: seq<Slice>,            // `_packet_slices`, a stack
    store: Store,
    calibrationComplete: bool,
    idRead: bool,
    clock: int,
    bus: Bus)

  /** What every `BNO085` object satisfies between calls. */
  predicate Valid(h: Hub)
  {
    |h.sequence| == ChannelCount && |h.buffer| >= DataBufferSize
  }

  /** The outcome of a driver operation: a value or the exception it raised, together
      with the state at that point (Python keeps every mutation made before a raise). */
  datatype Res<+T> = Done(value: T, hub: Hub) | Raised(error: Error, hub: Hub)

  /** The exceptions the bus layer can raise: a failed transfer, an empty packet, a bad
      channel index, or a frame that does not fit its length field or the buffer. */
  predicate BusFault(e: Error)
  {
    e == TransportError || e == NoPacketAvailable || e.SequenceIndexError? ||
    e.ValueOutOfRange? || e.IndexOutOfRange?
  }

  /** The state a later state of the same driver stands in to the earlier one: time and
      the bus only move forward and no reading is ever dropped. */
  predicate Later(h: Hub, h2: Hub)
  {
    Valid(h2) && h.clock <= h2.clock && |h2.bus.incoming| <= |h.bus.incoming| &&
    h.bus.written <= h2.bus.written && h.store.readings.Keys <= h2.store.readings.Keys
  }

  /** Like `Later`, with nothing written to the bus and no command request issued. */
  predicate Listened(h: Hub, h2: Hub)
  {
    Later(h, h2) && h2.bus.written == h.bus.written && h2.twoEnded == h.twoEnded
  }

  /** The state `__init__` sets up before it calls `initialize`. */
  function NewHub(bus: Bus): (h: Hub)
    ensures Valid(h) && h.store == EmptyStore && h.slices == [] && !h.idRead
    ensures forall c :: 0 <= c < ChannelCount ==> h.sequence[c] == 0
  {
    Hub([0, 0, 0, 0, 0, 0], map[], Zeros(DataBufferSize), [], EmptyStore, false, false, 0, Bus([], [], {}))
      .(bus := bus)
  }

  // ---------------------------------------------------------------------------
  // Bus transfers

  /** `readfrom_into(address, memoryview(buffer)[:n])`: the first `n` bytes of the next
      answer land at the front of the buffer. */
  function BusRead(h: Hub, n: nat): (r: Res<()>)
    requires Valid(h) && n <= |h.buffer|
    ensures Listened(h, r.hub)
    ensures r.Done? <==> |h.bus.incoming| > 0 && |h.bus.incoming[0]| >= n
    ensures r.Done? ==> r.hub == h.(buffer := FillPrefix(h.buffer, h.bus.incoming[0][..n]),
                                     clock := h.clock + 1,
                                     bus := h.bus.(incoming := h.bus.incoming[1..]))
    ensures r.Raised? ==> r.hub == h && r.error == TransportError
  {
    if |h.bus.incoming| == 0 || |h.bus.incoming[0]| < n then Raised(TransportError, h)
    else Done((), h.(buffer := FillPrefix(h.buffer, h.bus.incoming[0][..n]),
                     clock := h.clock + 1,
                     bus := h.bus.(incoming := h.bus.incoming[1..])))
  }

  /** `_send_packet`: frames `data` behind a header carrying the channel's sequence number,
      writes the frame, and increments and returns that sequence number. */
  function SendPacket(h: Hub, channel: byte, data: seq<byte>): (r: Res<byte>)
    requires Valid(h)
    ensures Later(h, r.hub) && r.hub.store == h.store && r.hub.slices == h.slices
    ensures |r.hub.buffer| == |h.buffer|
    ensures r.Done? <==> |data| + HeaderLength < 0x1_0000 && channel as int < ChannelCount &&
                         |data| + HeaderLength <= |h.buffer| && |h.bus.written| !in h.bus.refused
    ensures r.Done? ==> r.hub.bus.written == h.bus.written + [r.hub.buffer[..|data| + HeaderLength]]
    ensures r.Done? ==> r.hub.buffer[..|data| + HeaderLength] ==
                          EncodeHeader(channel, h.sequence[channel], |data| + HeaderLength) + data
    ensures r.Done? ==> r.value == (h.sequence[channel] as int + 1) % 256 &&
                        r.hub.sequence == h.sequence[channel := r.value]
    ensures r.Raised? ==> r.hub.sequence == h.sequence && r.hub.bus.incoming == h.bus.incoming &&
                          r.hub.bus.refused == h.bus.refused && BusFault(r.error)
    // a frame that fits is always put on the bus, and only a refused write raises after it
    ensures r.Raised? ==> (r.error == TransportError <==>
                           |data| + HeaderLength < 0x1_0000 && channel as int < ChannelCount &&
                           |data| + HeaderLength <= |h.buffer|)
    ensures r.Raised? && r.error != TransportError ==> r.hub.bus == h.bus
    ensures r.Raised? && r.error == TransportError ==>
              r.hub.bus.written == h.bus.written + [r.hub.buffer[..|data| + HeaderLength]] &&
              r.hub.buffer[..|data| + HeaderLength] == EncodeHeader(channel, h.sequence[channel], |data| + HeaderLength) + data
  {
    var writeLength := |data| + HeaderLength;
    // `pack_into("<H", ...)` refuses a length that does not fit 16 bits
    if writeLength >= 0x1_0000 then Raised(ValueOutOfRange(writeLength), h)
    else
      var partial := FillPrefix(h.buffer, PackU16LE(writeLength) + [channel]);
      if channel as int >= ChannelCount then Raised(SequenceIndexError(channel), h.(buffer := partial))
      else
        var frame := EncodeHeader(channel, h.sequence[channel], writeLength) + data;
        if writeLength > |h.buffer| then
          Raised(IndexOutOfRange(|h.buffer|), h.(buffer := FillPrefix(h.buffer, frame[..|h.buffer|])))
        else
          var buffer := FillPrefix(h.buffer, frame);
          var sent := h.bus.(written := h.bus.written + [buffer[..writeLength]]);
          // `writeto` raises before the sequence number is incremented
          if |h.bus.written| in h.bus.refused then
            Raised(TransportError, h.(buffer := buffer, clock := h.clock + 1, bus := sent))
          else
            var next: byte := (h.sequence[channel] as int + 1) % 256;
            Done(next, h.(buffer := buffer, sequence := h.sequence[channel := next], clock := h.clock + 1, bus := sent))
  }

  /** The frame a send writes decodes back to the channel, the sequence number the
      channel had before the send, and the frame's length, followed by the payload. The
      frame is on the bus whether or not the peripheral acknowledges it. */
  lemma SendPacketRoundTrip(h: Hub, channel: byte, data: seq<byte>)
    requires Valid(h) && channel as int < ChannelCount && |data| + HeaderLength <= |h.buffer|
    requires |data| + HeaderLength < ContinuationFlag
    ensures var r := SendPacket(h, channel, data);
            (r.Done? <==> |h.bus.written| !in h.bus.refused) &&
            (r.Raised? ==> r.error == TransportError) &&
            |r.hub.bus.written| == |h.bus.written| + 1 &&
            var frame := r.hub.bus.written[|r.hub.bus.written| - 1];
            HeaderFromBuffer(frame) == Header(channel, h.sequence[channel], |data|, |data| + HeaderLength) &&
            frame[HeaderLength..] == data
  {
    var r := SendPacket(h, channel, data);
    var frame := r.hub.bus.written[|r.hub.bus.written| - 1];
    assert frame == EncodeHeader(channel, h.sequence[channel], |data| + HeaderLength) + data;
    HeaderRoundTrip(channel, h.sequence[channel], |data| + HeaderLength, data);
  }

  /** `_data_ready`: reads a header; data is ready when the byte count is not the
      all-ones value 0x7FFF and the header announces payload bytes. */
  function DataReady(h: Hub): (r: Res<bool>)
    requires Valid(h)
    ensures Listened(h, r.hub) && r.hub.store == h.store && r.hub.slices == h.slices &&
            r.hub.sequence == h.sequence
    ensures r.Done? <==> |h.bus.incoming| > 0 && |h.bus.incoming[0]| >= HeaderLength
    ensures r.Done? ==> |r.hub.bus.incoming| == |h.bus.incoming| - 1 && r.hub.clock == h.clock + 1
    ensures r.Done? ==> var header := HeaderFromBuffer(h.bus.incoming[0][..HeaderLength]);
                        (r.value <==> !AllOnesByteCount(header) && header.dataLength > 0)
  {
    match BusRead(h, HeaderLength)
    case Raised(e, h1) => Raised(e, h1)
    case Done(_, h1) =>
      assert h1.buffer[..HeaderLength] == h.bus.incoming[0][..HeaderLength];
      var header := HeaderFromBuffer(h1.buffer);
      Done(!AllOnesByteCount(header) && header.dataLength > 0, h1)
  }

  /** `_data_ready` is false on the all-ones header on every channel: unlike `is_error`,
      it compares the byte count after the mask. */
  lemma DataReadyRejectsAllOnes(h: Hub, channel: byte, sequence: byte, rest: seq<seq<byte>>)
    requires Valid(h) && h.bus.incoming == [[0xFF, 0xFF, channel, sequence]] + rest
    ensures DataReady(h) == Done(false, DataReady(h).hub)
  {
    assert h.bus.incoming[0][..HeaderLength] == [0xFF, 0xFF, channel, sequence];
    assert U16LE([0xFF, 0xFF, channel, sequence], 0) == 0xFFFF;
  }

  /** `_read_packet`: reads the header, overwrites the channel's sequence number with the
      received one, raises `PacketError` on a zero byte count, then re-reads header and
      payload in one transfer (growing the buffer for a packet beyond 512 bytes) and
      records the sequence number of the re-read header. */
  function ReadPacket(h: Hub): (r: Res<Packet>)
    requires Valid(h)
    ensures Listened(h, r.hub) && r.hub.store == h.store && r.hub.slices == h.slices
    ensures r.Done? ==> |r.hub.bus.incoming| == |h.bus.incoming| - 2
    ensures r.Done? ==> r.value == PacketFromBuffer(r.hub.buffer) &&
                        r.value.header.channel as int < ChannelCount &&
                        r.hub.sequence[r.value.header.channel] == r.value.header.sequence
    ensures r.Raised? ==> BusFault(r.error)
    ensures |h.bus.incoming| > 0 && |h.bus.incoming[0]| >= HeaderLength ==>
              var header := HeaderFromBuffer(h.bus.incoming[0][..HeaderLength]);
              (header.channel as int >= ChannelCount ==> r == Raised(SequenceIndexError(header.channel), r.hub)) &&
              (header.channel as int < ChannelCount && header.byteCount == 0 ==>
                 r == Raised(NoPacketAvailable, r.hub) &&
                 r.hub.sequence == h.sequence[header.channel := header.sequence])
  {
    match BusRead(h, HeaderLength)
    case Raised(e, h1) => Raised(e, h1)
    case Done(_, h1) =>
      assert h1.buffer[..HeaderLength] == h.bus.incoming[0][..HeaderLength];
      var header := HeaderFromBuffer(h1.buffer);
      if header.channel as int >= ChannelCount then Raised(SequenceIndexError(header.channel), h1)
      else
        var h2 := h1.(sequence := h1.sequence[header.channel := header.sequence]);
        if header.byteCount == 0 then Raised(NoPacketAvailable, h2)
        else
          // `_read(byte_count - 4)` transfers the header again with the payload
          var total := header.byteCount;
          var h3 := if total > DataBufferSize then h2.(buffer := Zeros(total)) else h2;
          ReceivePayload(h, h3, total)
  }

  /** The second transfer of `_read_packet` and the packet built from it. */
  function ReceivePayload(h: Hub, h3: Hub, total: nat): (r: Res<Packet>)
    requires Listened(h, h3) && total <= |h3.buffer| && |h3.bus.incoming| == |h.bus.incoming| - 1
    requires h3.store == h.store && h3.slices == h.slices
    ensures Listened(h, r.hub) && r.hub.store == h.store && r.hub.slices == h.slices
    ensures r.Done? ==> |r.hub.bus.incoming| == |h.bus.incoming| - 2
    ensures r.Done? ==> r.value == PacketFromBuffer(r.hub.buffer) &&
                        r.value.header.channel as int < ChannelCount &&
                        r.hub.sequence[r.value.header.channel] == r.value.header.sequence
    ensures r.Done? ==> (r.value.header.byteCount == total ==>
                           |r.hub.buffer| >= HeaderLength + r.value.header.dataLength)
    ensures r.Raised? ==> BusFault(r.error)
  {
    match BusRead(h3, total)
    case Raised(e, h4) => Raised(e, h4)
    case Done(_, h4) =>
      var packet := PacketFromBuffer(h4.buffer);
      var channel := packet.header.channel;
      // `_update_sequence_number` indexes the list with the re-read channel
      if channel as int >= ChannelCount then Raised(SequenceIndexError(channel), h4)
      else Done(packet, h4.(sequence := h4.sequence[channel := packet.header.sequence]))
  }

  // ---------------------------------------------------------------------------
  // Dispatch

  function Reverse<T>(s: seq<T>): (r: seq<T>)
    ensures |r| == |s| && forall i :: 0 <= i < |s| ==> r[i] == s[|s| - 1 - i]
  {
    if |s| == 0 then [] else [s[|s| - 1]] + Reverse(s[..|s| - 1])
  }

  /** Reference definition: the reports processed one after the other, first to last. */
  function Replay(s: Store, now: int, reports: seq<Slice>): Result<Store>
    decreases |reports|
  {
    if |reports| == 0 then Ok(s)
    else match ProcessReport(s, now, reports[0].reportId, reports[0].bytes)
      case Fail(e) => Fail(e)
      case Ok(s1) => Replay(s1, now, reports[1..])
  }

  /** The `while len(self._packet_slices) > 0: pop` loop of `_handle_packet`: the stack
      is processed top first, so in reverse wire order, and is empty when no report
      raises; a report that raises has already been popped. */
  function Drain(h: Hub): (r: Res<()>)
    requires Valid(h)
    decreases |h.slices|
    ensures Listened(h, r.hub) && r.hub.clock == h.clock && r.hub.bus == h.bus &&
            r.hub.sequence == h.sequence && r.hub.buffer == h.buffer
    ensures r.Done? <==> Replay(h.store, h.clock, Reverse(h.slices)).Ok?
    ensures r.Done? ==> r.hub.slices == [] && Replay(h.store, h.clock, Reverse(h.slices)) == Ok(r.hub.store)
    ensures r.Raised? ==> |r.hub.slices| < |h.slices|
  {
    if |h.slices| == 0 then Done((), h)
    else
      var top := h.slices[|h.slices| - 1];
      var h1 := h.(slices := h.slices[..|h.slices| - 1]);
      assert Reverse(h.slices) == [top] + Reverse(h1.slices);
      match ProcessReport(h1.store, h1.clock, top.reportId, top.bytes)
      case Fail(e) => Raised(e, h1)
      case Ok(store) =>
        assert Reverse(h.slices)[1..] == Reverse(h1.slices);
        Drain(h1.(store := store))
  }

  /** The exception `_separate_batch` raises. */
  function FaultError(f: Fault): Error
  {
    match f
    case UnknownId(id) => UnknownReport(id)
    case Unprocessable(n) => UnprocessableBatch(n)
    case PastEnd(i) => IndexOutOfRange(i)
  }

  /** `_handle_packet`: the packet's reports are pushed on the slice stack, then the stack
      is drained. */
  function HandlePacket(h: Hub, p: Packet): (r: Res<()>)
    requires Valid(h)
    ensures Listened(h, r.hub) && r.hub.clock == h.clock && r.hub.bus == h.bus &&
            r.hub.sequence == h.sequence && r.hub.buffer == h.buffer
    ensures r.Done? ==> r.hub.slices == []
    ensures r.Done? <==>
              SeparateBatch(p.data, p.header.dataLength).failure.None? &&
              Replay(h.store, h.clock, Reverse(h.slices + SeparateBatch(p.data, p.header.dataLength).slices)).Ok?
  {
    var batch := SeparateBatch(p.data, p.header.dataLength);
    var h1 := h.(slices := h.slices + batch.slices);
    if batch.failure.Some? then Raised(FaultError(batch.failure.value), h1)
    else Drain(h1)
  }

  /** Within one packet the earliest report on the wire is processed last, so of two
      step-counter reports in a batch the first one's count is what remains. */
  lemma EarliestReportWins(h: Hub, p: Packet, first: nat, second: nat)
    requires Valid(h) && h.slices == [] && first < 0x1_0000 && second < 0x1_0000
    requires p.data == StepCounterReport(0, first) + StepCounterReport(1, second)
    requires p.header.dataLength == |p.data|
    ensures var r := HandlePacket(h, p);
            r.Done? && ReadReport(r.hub.store, StepCounter) == Ok(Steps(first))
  {
    var a := StepCounterReport(0, first);
    var b := StepCounterReport(1, second);
    SplitTwoStepReports(a, b);
    var slices := [Slice(StepCounter, a), Slice(StepCounter, b)];
    assert Reverse(slices) == [Slice(StepCounter, b), Slice(StepCounter, a)];
    ReplayTwoStepReports(h.store, h.clock, first, second);
    HandleWholeBatch(h, p, slices);
  }

  /** A packet that splits cleanly into `slices` leaves the store those slices replay to. */
  lemma HandleWholeBatch(h: Hub, p: Packet, slices: seq<Slice>)
    requires Valid(h) && h.slices == []
    requires SeparateBatch(p.data, p.header.dataLength) == Batch(slices, None)
    requires Replay(h.store, h.clock, Reverse(slices)).Ok?
    ensures HandlePacket(h, p).Done?
    ensures Ok(HandlePacket(h, p).hub.store) == Replay(h.store, h.clock, Reverse(slices))
  {
    assert h.(slices := h.slices + slices).slices == slices;
  }

  /** Two step-counter reports back to back split into exactly those two slices. */
  lemma SplitTwoStepReports(a: seq<byte>, b: seq<byte>)
    requires |a| == 12 && |b| == 12 && a[0] == StepCounter && b[0] == StepCounter
    ensures SeparateBatch(a + b, 24) == Batch([Slice(StepCounter, a), Slice(StepCounter, b)], None)
  {
    var data := a + b;
    ReportLengthsAgree(StepCounter);
    assert StepCounter as int in ReportLengths && ReportLengths[StepCounter] == 12;
    assert SplitFrom(ReportLengths, data, 24, 24) == Batch([], None);
    assert data[12] == StepCounter && data[12..24] == b;
    assert SplitFrom(ReportLengths, data, 24, 12) == Batch([Slice(StepCounter, b)], None);
    assert data[0] == StepCounter && data[0..12] == a;
    assert SplitFrom(ReportLengths, data, 24, 0) == Batch([Slice(StepCounter, a), Slice(StepCounter, b)], None);
  }

  /** Replaying the later report first and the earlier one second leaves the earlier count. */
  lemma ReplayTwoStepReports(s: Store, now: int, first: nat, second: nat)
    requires first < 0x1_0000 && second < 0x1_0000
    ensures var r := Replay(s, now, [Slice(StepCounter, StepCounterReport(1, second)),
                                     Slice(StepCounter, StepCounterReport(0, first))]);
            r.Ok? && ReadReport(r.value, StepCounter) == Ok(Steps(first))
  {
    var a := StepCounterReport(0, first);
    var b := StepCounterReport(1, second);
    StepCounterRoundTrip(0, first);
    StepCounterRoundTrip(1, second);
    var s1 := ProcessReport(s, now, StepCounter, b).value;
    var s2 := ProcessReport(s1, now, StepCounter, a).value;
    assert s2.readings[StepCounter as int] == Steps(first);
    var reports := [Slice(StepCounter, b), Slice(StepCounter, a)];
    assert reports[1..] == [Slice(StepCounter, a)];
    assert Replay(s1, now, [Slice(StepCounter, a)]) == Ok(s2) by {
      assert [Slice(StepCounter, a)][1..] == [];
    }
  }

  // ---------------------------------------------------------------------------
  // Polling loops

  /** `_process_available_packets(max_packets)`, with `maxPackets == 0` for `None`: while
      data is ready, reads and handles a packet, skipping a `PacketError`. The count is
      tested before it is incremented, so the loop handles up to `maxPackets + 1`
      packets. */
  function ProcessAvailable(h: Hub, maxPackets: nat, count: nat): (r: Res<nat>)
    requires Valid(h)
    decreases |h.bus.incoming|
    ensures Listened(h, r.hub)
    ensures r.Done? ==> |r.hub.bus.incoming| < |h.bus.incoming| && r.value >= count
    ensures r.Done? && maxPackets > 0 && count <= maxPackets + 1 ==> r.value <= maxPackets + 1
    ensures r.Done? && h.slices == [] ==> r.hub.slices == []
  {
    match DataReady(h)
    case Raised(e, h1) => Raised(e, h1)
    case Done(ready, h1) =>
      if !ready then Done(count, h1)
      else if maxPackets > 0 && count > maxPackets then Done(count, h1)
      else
        match ReadPacket(h1)
        case Raised(e, h2) =>
          if e == NoPacketAvailable then ProcessAvailable(h2, maxPackets, count) else Raised(e, h2)
        case Done(packet, h2) =>
          match HandlePacket(h2, packet)
          case Raised(e, h3) => Raised(e, h3)
          case Done(_, h3) => ProcessAvailable(h3, maxPackets, count + 1)
  }

  /** `_wait_for_packet`: polls `_data_ready` until it holds, then reads the packet;
      raises once `PacketReadTimeout` ticks have passed since `start`. */
  function WaitForPacket(h: Hub, start: int): (r: Res<Packet>)
    requires Valid(h)
    decreases |h.bus.incoming|
    ensures Listened(h, r.hub) && r.hub.store == h.store && r.hub.slices == h.slices
    ensures r.Done? ==> |r.hub.bus.incoming| < |h.bus.incoming| &&
                        r.value.header.channel as int < ChannelCount &&
                        r.value == PacketFromBuffer(r.hub.buffer)
    ensures h.clock - start >= PacketReadTimeout ==> r == Raised(PacketTimeout, h)
  {
    if h.clock - start >= PacketReadTimeout then Raised(PacketTimeout, h)
    else
      match DataReady(h)
      case Raised(e, h1) => Raised(e, h1)
      case Done(ready, h1) => if ready then ReadPacket(h1) else WaitForPacket(h1, start)
  }

  /** `_wait_for_packet_type(channel, report_id)`, with `reportId == 0` for `None`: waits
      for a packet on `channel` whose first payload byte is `reportId`; packets on other
      channels than 0 and 1 are handled on the way, and the payload must not be empty
      once the channel matches (`report_id` is `data[0]`). */
  function WaitForPacketType(h: Hub, channel: byte, reportId: byte, start: int): (r: Res<Packet>)
    requires Valid(h)
    decreases |h.bus.incoming|
    ensures Listened(h, r.hub)
    ensures r.Done? ==> |r.hub.bus.incoming| < |h.bus.incoming| &&
                        r.value.header.channel == channel &&
                        (reportId != 0 ==> |r.value.data| > 0 && r.value.data[0] == reportId) &&
                        r.value == PacketFromBuffer(r.hub.buffer)
    ensures h.clock - start >= PacketTypeTimeout ==> r == Raised(ChannelTimeout(channel), h)
  {
    if h.clock - start >= PacketTypeTimeout then Raised(ChannelTimeout(channel), h)
    else
      match WaitForPacket(h, h.clock)
      case Raised(e, h1) => Raised(e, h1)
      case Done(packet, h1) =>
        if packet.header.channel == channel && reportId == 0 then Done(packet, h1)
        else if packet.header.channel == channel && |packet.data| == 0 then Raised(IndexOutOfRange(0), h1)
        else if packet.header.channel == channel && packet.data[0] == reportId then Done(packet, h1)
        else if packet.header.channel != ShtpCommandChannel && packet.header.channel != ExecutableChannel then
          match HandlePacket(h1, packet)
          case Raised(e, h2) => Raised(e, h2)
          case Done(_, h2) => WaitForPacketType(h2, channel, reportId, start)
        else WaitForPacketType(h1, channel, reportId, start)
  }

  // ---------------------------------------------------------------------------
  // The two-ended sequence numbers of command requests

  /** `_get_report_seq_id`: 0 for a report id never incremented. */
  function ReportSeq(h: Hub, reportId: int): (r: byte)
    ensures reportId !in h.twoEnded ==> r == 0
  {
    if reportId in h.twoEnded then h.twoEnded[reportId] else 0
  }

  /** `_increment_report_seq`: the report id's number goes up by one modulo 256; nothing
      else changes. */
  function IncrementReportSeq(h: Hub, reportId: int): (r: Hub)
    ensures ReportSeq(r, reportId) == (ReportSeq(h, reportId) as int + 1) % 256
    ensures forall id :: id != reportId ==> ReportSeq(r, id) == ReportSeq(h, id)
    ensures r == h.(twoEnded := r.twoEnded)
  {
    h.(twoEnded := h.twoEnded[reportId := (ReportSeq(h, reportId) as int + 1) % 256])
  }

  function IncrementTimes(h: Hub, reportId: int, n: nat): Hub
  {
    if n == 0 then h else IncrementReportSeq(IncrementTimes(h, reportId, n - 1), reportId)
  }

  /** After `n` increments from a fresh driver the number is `n` modulo 256: it wraps to
      0 after 256 command requests. */
  lemma {:induction false} TwoEndedCounts(h: Hub, reportId: int, n: nat)
    requires reportId !in h.twoEnded
    ensures ReportSeq(IncrementTimes(h, reportId, n), reportId) == n % 256
  {
    if n > 0 {
      TwoEndedCounts(h, reportId, n - 1);
      var before := IncrementTimes(h, reportId, n - 1);
      assert ReportSeq(IncrementTimes(h, reportId, n), reportId) == (ReportSeq(before, reportId) as int + 1) % 256;
      ModSucc(n - 1);
    }
  }

  /** Counting modulo 256 one step at a time agrees with counting first. */
  lemma ModSucc(m: nat)
    ensures (m % 256 + 1) % 256 == (m + 1) % 256
  {
    var q := m / 256;
    if m % 256 == 255 {
      assert m + 1 == 256 * (q + 1);
    } else {
      assert m + 1 == 256 * q + (m % 256 + 1);
    }
  }
}
