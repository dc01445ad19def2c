/**
 The public operations of the BNO08x driver: initialization (soft reset and the
 product-id handshake, retried three times), enabling features with their raw
 dependencies, the motion-engine calibration commands, and the reading properties.
 The hardware reset pin and the sleeps between steps are not modelled; time is the
 tick counter of `ShtpTransport`.
 */
module ShtpDriver {
  import opened Bytes
  import opened Maybe
  import opened ShtpPacket
  import opened ShtpReports
  import opened ShtpDispatch
  import opened ShtpTransport

  /** `_DEFAULT_REPORT_INTERVAL`, in microseconds. */
  const DefaultReportInterval: nat := 50000
  /** `_FEATURE_ENABLE_TIMEOUT`, in ticks. */
  const EnableTimeout: nat := 2000
  /** `_DEFAULT_TIMEOUT` of the calibration commands, in ticks. */
  const CommandTimeout: nat := 2000
  /** `initialize` tries this many times. */
  const InitializeAttempts: nat := 3
  /** `_BNO08X_CMD_RESET`, sent on the executable channel. */
  const ResetCommand: byte := 1
  /** `soft_reset` reads this many packets after the two reset commands. */
  const ResetReads: nat := 3
  const MeCalConfig: byte := 0
  const MeGetCal: byte := 1

  // ---------------------------------------------------------------------------
  // Initialization

  /** `_parse_sensor_id` on the receive buffer, with 0 for `None`: both are falsy where
      `_check_id` tests the result. The part number is the one `parse_sensor_id` finds
      in the payload. */
  function SensorIdInBuffer(buffer: seq<byte>): (r: nat)
    requires |buffer| >= DataBufferSize
    ensures r != 0 ==> ParseProductId(buffer[HeaderLength..]).Ok? &&
                       r == ParseProductId(buffer[HeaderLength..]).value.partNumber
    ensures buffer[HeaderLength] != ProductIdResponse ==> r == 0
  {
    if buffer[HeaderLength] == ProductIdResponse then U32LE(buffer, 8) else 0
  }

  /** The `while True` loop of `_check_id`: waits for product-id responses on the control
      channel until one carries a nonzero part number. */
  function AwaitProductId(h: Hub): (r: Res<bool>)
    requires Valid(h)
    decreases |h.bus.incoming|
    ensures Listened(h, r.hub)
    ensures r.Done? ==> r.value && r.hub.idRead &&
                        ParseProductId(r.hub.buffer[HeaderLength..]).Ok? &&
                        ParseProductId(r.hub.buffer[HeaderLength..]).value.partNumber != 0
  {
    match WaitForPacketType(h, ControlChannel, ProductIdResponse, h.clock)
    case Raised(e, h1) => Raised(e, h1)
    case Done(_, h1) =>
      if SensorIdInBuffer(h1.buffer) != 0 then Done(true, h1.(idRead := true))
      else AwaitProductId(h1)
  }

  /** `_check_id`: succeeds at once when the id was read before; otherwise sends one
      product-id request and succeeds only on a response with a nonzero part number. */
  function CheckId(h: Hub): (r: Res<bool>)
    requires Valid(h)
    ensures Later(h, r.hub) && |r.hub.bus.written| <= |h.bus.written| + 1
    ensures h.idRead ==> r == Done(true, h)
    ensures r.Done? ==> r.value && r.hub.idRead
    // a check that fails has put its request on the bus, acknowledged or not
    ensures r.Raised? ==> |r.hub.bus.written| == |h.bus.written| + 1
    ensures !h.idRead && r.Done? ==>
              |r.hub.bus.written| == |h.bus.written| + 1 &&
              r.hub.bus.written[|h.bus.written|] ==
                EncodeHeader(ControlChannel, h.sequence[ControlChannel], 6) + [ProductIdRequest, 0] &&
              ParseProductId(r.hub.buffer[HeaderLength..]).Ok? &&
              ParseProductId(r.hub.buffer[HeaderLength..]).value.partNumber != 0
  {
    if h.idRead then Done(true, h)
    else
      match SendPacket(h, ControlChannel, [ProductIdRequest, 0])
      case Raised(e, h1) => Raised(e, h1)
      case Done(_, h1) => AwaitProductId(h1)
  }

  /** The reads that end `soft_reset`: each packet is read and dropped, and only the
      exception for an empty packet is forgiven. */
  function DiscardPackets(h: Hub, n: nat): (r: Res<()>)
    requires Valid(h)
    decreases n
    ensures Listened(h, r.hub) && r.hub.store == h.store
    ensures r.Raised? ==> r.error != NoPacketAvailable && BusFault(r.error)
  {
    if n == 0 then Done((), h)
    else
      match ReadPacket(h)
      case Raised(e, h1) => if e == NoPacketAvailable then DiscardPackets(h1, n - 1) else Raised(e, h1)
      case Done(_, h1) => DiscardPackets(h1, n - 1)
  }

  /** `soft_reset`: the reset command twice on the executable channel, with consecutive
      sequence numbers, then three packets read and dropped. */
  function SoftReset(h: Hub): (r: Res<()>)
    requires Valid(h)
    ensures Later(h, r.hub) && |r.hub.bus.written| <= |h.bus.written| + 2
    ensures r.Done? ==>
              r.hub.store == h.store &&
              |r.hub.bus.written| == |h.bus.written| + 2 &&
              r.hub.bus.written[|h.bus.written|] ==
                EncodeHeader(ExecutableChannel, h.sequence[ExecutableChannel], 5) + [ResetCommand] &&
              r.hub.bus.written[|h.bus.written| + 1] ==
                EncodeHeader(ExecutableChannel, (h.sequence[ExecutableChannel] as int + 1) % 256, 5) + [ResetCommand]
    ensures r.Raised? ==> BusFault(r.error)
  {
    match SendPacket(h, ExecutableChannel, [ResetCommand])
    case Raised(e, h1) => Raised(e, h1)
    case Done(_, h1) =>
      match SendPacket(h1, ExecutableChannel, [ResetCommand])
      case Raised(e, h2) => Raised(e, h2)
      case Done(_, h2) =>
        assert h1.sequence[ExecutableChannel] as int == (h.sequence[ExecutableChannel] as int + 1) % 256;
        assert h2.bus.written[|h.bus.written| + 1] ==
          EncodeHeader(ExecutableChannel, h1.sequence[ExecutableChannel], 5) + [ResetCommand];
        DiscardPackets(h2, ResetReads)
  }

  /** One pass of the loop body of `initialize`: a soft reset, whose exceptions
      propagate, then the id check, whose exceptions only make the pass fail. */
  function InitializeAttempt(h: Hub): (r: Res<bool>)
    requires Valid(h)
    ensures Later(h, r.hub) && |r.hub.bus.written| <= |h.bus.written| + 3
    ensures r.Done? && r.value ==> r.hub.idRead
    // a pass that ends normally has sent both reset frames
    ensures r.Done? ==> |r.hub.bus.written| >= |h.bus.written| + 2
    // a failed pass has sent the two reset frames and the id request
    ensures r.Done? && !r.value ==> |r.hub.bus.written| == |h.bus.written| + 3
    // only the soft reset's bus exceptions escape a pass
    ensures r.Raised? ==> BusFault(r.error)
  {
    match SoftReset(h)
    case Raised(e, h1) => Raised(e, h1)
    case Done(_, h1) =>
      match CheckId(h1)
      case Done(_, h2) => Done(true, h2)
      case Raised(_, h2) => Done(false, h2)
  }

  /** `initialize` with `attempts` tries left: running out of tries raises. Each try
      writes at most three frames, and the "could not read id" failure comes only after
      exactly `attempts` failed tries, each of which sent two reset frames and the id
      request. */
  function Initialize(h: Hub, attempts: nat): (r: Res<()>)
    requires Valid(h)
    decreases attempts
    ensures Later(h, r.hub)
    ensures |r.hub.bus.written| <= |h.bus.written| + 3 * attempts
    ensures r.Done? ==> r.hub.idRead
    ensures attempts == 0 ==> r == Raised(InitializationFailed, h)
    ensures r.Raised? && r.error == InitializationFailed ==>
              |r.hub.bus.written| == |h.bus.written| + 3 * attempts
  {
    if attempts == 0 then Raised(InitializationFailed, h)
    else
      match InitializeAttempt(h)
      case Raised(e, h1) => Raised(e, h1)
      case Done(passed, h1) =>
        if passed then Done((), h1)
        else
          var r1 := Initialize(h1, attempts - 1);
          assert r1.Raised? && r1.error == InitializationFailed ==>
                   |r1.hub.bus.written| == |h.bus.written| + 3 * attempts;
          r1
  }

  /** The constructor: a fresh driver on `bus`, initialized. */
  function NewDriver(bus: Bus): (r: Res<()>)
    ensures Valid(r.hub) && |r.hub.bus.written| <= |bus.written| + 3 * InitializeAttempts
    ensures r.Done? ==> r.hub.idRead
    ensures r.Raised? && r.error == InitializationFailed ==>
              |r.hub.bus.written| == |bus.written| + 3 * InitializeAttempts
  {
    Initialize(NewHub(bus), InitializeAttempts)
  }

  // ---------------------------------------------------------------------------
  // Enabling features

  /** The sensor-specific configuration `enable_feature` sends: all activities for the
      activity classifier, nothing otherwise. */
  function FeatureConfig(featureId: int): (r: nat)
    ensures r < 0x1_0000_0000
    ensures featureId != ActivityClassifier ==> r == 0
  {
    if featureId == ActivityClassifier then EnabledActivities else 0
  }

  /** A raw report whose calibrated counterpart has not been seen yet. */
  predicate NeedsDependency(s: Store, featureId: int)
  {
    RawDependency(featureId).Some? && RawDependency(featureId).value as int !in s.readings
  }

  /** The polling loop of `enable_feature`: up to 11 packets per round until the
      feature's reading exists; raises once the timeout has passed. */
  function AwaitFeature(h: Hub, featureId: byte, start: int): (r: Res<()>)
    requires Valid(h)
    decreases |h.bus.incoming|
    ensures Listened(h, r.hub)
    ensures r.Done? ==> featureId as int in r.hub.store.readings
    ensures h.clock - start >= EnableTimeout ==> r == Raised(FeatureEnableTimeout(featureId), h)
  {
    if h.clock - start >= EnableTimeout then Raised(FeatureEnableTimeout(featureId), h)
    else
      match ProcessAvailable(h, 10, 0)
      case Raised(e, h1) => Raised(e, h1)
      case Done(_, h1) =>
        if featureId as int in h1.store.readings then Done((), h1) else AwaitFeature(h1, featureId, start)
  }

  /** Sends a set-feature report on the control channel and waits for its
      acknowledgement. */
  function SendFeature(h: Hub, featureId: byte, report: seq<byte>): (r: Res<()>)
    requires Valid(h) && |report| == SetFeatureLength
    ensures Later(h, r.hub)
    ensures r.Done? ==>
              featureId as int in r.hub.store.readings &&
              |r.hub.bus.written| == |h.bus.written| + 1 &&
              |r.hub.bus.written[|h.bus.written|]| == HeaderLength + SetFeatureLength &&
              r.hub.bus.written[|h.bus.written|][HeaderLength..] == report
  {
    match SendPacket(h, ControlChannel, report)
    case Raised(e, h1) => Raised(e, h1)
    case Done(_, h1) =>
      assert h1.bus.written[|h.bus.written|] ==
             EncodeHeader(ControlChannel, h.sequence[ControlChannel], |report| + HeaderLength) + report;
      AwaitFeature(h1, featureId, h1.clock)
  }

  /** The measure that orders a feature after its dependency. */
  function DependencyRank(featureId: int): nat
  {
    if RawDependency(featureId).Some? then 1 else 0
  }

  /** `enable_feature`: the report is built first (so out-of-range arguments raise before
      anything is sent), the dependency is enabled when needed, then the set-feature
      report is sent and its acknowledgement awaited. */
  function EnableFeature(h: Hub, featureId: int, interval: int): (r: Res<()>)
    requires Valid(h)
    decreases DependencyRank(featureId), 1
    ensures Later(h, r.hub)
    ensures SetFeatureReport(featureId, interval, FeatureConfig(featureId)).Fail? ==> r.Raised? && r.hub == h
    ensures r.Done? ==> featureId in r.hub.store.readings && !NeedsDependency(r.hub.store, featureId)
    ensures r.Done? ==>
              var report := SetFeatureReport(featureId, interval, FeatureConfig(featureId));
              report.Ok? &&
              |r.hub.bus.written| == |h.bus.written| + (if NeedsDependency(h.store, featureId) then 2 else 1) &&
              |r.hub.bus.written[|r.hub.bus.written| - 1]| == HeaderLength + SetFeatureLength &&
              r.hub.bus.written[|r.hub.bus.written| - 1][HeaderLength..] == report.value
    ensures r.Done? && NeedsDependency(h.store, featureId) ==>
              |r.hub.bus.written[|h.bus.written|]| == HeaderLength + SetFeatureLength &&
              r.hub.bus.written[|h.bus.written|][HeaderLength..] ==
                SetFeatureReport(RawDependency(featureId).value, DefaultReportInterval, 0).value
  {
    match SetFeatureReport(featureId, interval, FeatureConfig(featureId))
    case Fail(e) => Raised(e, h)
    case Ok(report) =>
      match EnableDependency(h, featureId)
      case Raised(e, h1) => Raised(e, h1)
      case Done(_, h1) => SendFeature(h1, featureId as byte, report)
  }

  /** The `feature_dependency` step of `enable_feature`: a raw report whose calibrated
      counterpart has no reading yet enables that counterpart first, at the default
      interval; otherwise nothing happens. */
  function EnableDependency(h: Hub, featureId: int): (r: Res<()>)
    requires Valid(h)
    decreases DependencyRank(featureId), 0
    ensures Later(h, r.hub)
    ensures !NeedsDependency(h.store, featureId) ==> r == Done((), h)
    ensures r.Done? ==> !NeedsDependency(r.hub.store, featureId)
    ensures r.Done? && NeedsDependency(h.store, featureId) ==>
              |r.hub.bus.written| == |h.bus.written| + 1 &&
              |r.hub.bus.written[|h.bus.written|]| == HeaderLength + SetFeatureLength &&
              r.hub.bus.written[|h.bus.written|][HeaderLength..] ==
                SetFeatureReport(RawDependency(featureId).value, DefaultReportInterval, 0).value
  {
    if NeedsDependency(h.store, featureId) then
      EnableFeature(h, RawDependency(featureId).value, DefaultReportInterval)
    else Done((), h)
  }

  // ---------------------------------------------------------------------------
  // Calibration

  /** The polling loop of `_send_me_command`: ends quietly at the timeout, or earlier
      once a motion-engine calibration response arrived after `start`. */
  function AwaitCalibrationStart(h: Hub, start: int): (r: Res<()>)
    requires Valid(h)
    decreases |h.bus.incoming|
    ensures Listened(h, r.hub)
    ensures r.Done? ==> r.hub.clock - start >= CommandTimeout ||
                        (r.hub.store.meCalibrationStartedAt != -1 && r.hub.store.meCalibrationStartedAt > start)
  {
    if h.clock - start >= CommandTimeout then Done((), h)
    else
      match ProcessAvailable(h, 0, 0)
      case Raised(e, h1) => Raised(e, h1)
      case Done(_, h1) =>
        var startedAt := h1.store.meCalibrationStartedAt;
        if startedAt != -1 && h1.clock - startedAt > 0 && startedAt - start > 0 then Done((), h1)
        else AwaitCalibrationStart(h1, start)
  }

  /** `_send_me_command`: a motion-engine calibration command request with the two-ended
      sequence number of command requests, which then goes up by one. */
  function SendMeCommand(h: Hub, params: seq<byte>): (r: Res<()>)
    requires Valid(h)
    ensures Later(h, r.hub)
    ensures |params| > MaxCommandParameters ==> r == Raised(TooManyParameters(|params|), h)
    ensures r.Done? ==>
              var request := CommandRequestReport(MeCalibrate, ReportSeq(h, CommandRequest), Some(params));
              request.Ok? &&
              |r.hub.bus.written| == |h.bus.written| + 1 &&
              r.hub.bus.written[|h.bus.written|] ==
                EncodeHeader(ControlChannel, h.sequence[ControlChannel], 16) + request.value
    ensures r.Done? ==> ReportSeq(r.hub, CommandRequest) == (ReportSeq(h, CommandRequest) as int + 1) % 256
    ensures r.Done? ==> r.hub.clock - h.clock >= CommandTimeout ||
                        (r.hub.store.meCalibrationStartedAt != -1 && r.hub.store.meCalibrationStartedAt > h.clock)
  {
    var start := h.clock;
    match SendCommandRequest(h, MeCalibrate, Some(params))
    case Raised(e, h1) => Raised(e, h1)
    case Done(_, h1) => AwaitCalibrationStart(h1, start)
  }

  /** `_insert_command_request_report`, `_send_packet` on the control channel and
      `_increment_report_seq`: the request both command methods start with. */
  function SendCommandRequest(h: Hub, command: byte, params: Option<seq<byte>>): (r: Res<()>)
    requires Valid(h)
    ensures Later(h, r.hub)
    ensures params.Some? && |params.value| > MaxCommandParameters ==>
              r == Raised(TooManyParameters(|params.value|), h)
    ensures r.Done? ==>
              var request := CommandRequestReport(command, ReportSeq(h, CommandRequest), params);
              request.Ok? &&
              r.hub.bus.written == h.bus.written +
                [EncodeHeader(ControlChannel, h.sequence[ControlChannel], 16) + request.value]
    ensures r.Done? ==> ReportSeq(r.hub, CommandRequest) == (ReportSeq(h, CommandRequest) as int + 1) % 256
  {
    match CommandRequestReport(command, ReportSeq(h, CommandRequest), params)
    case Fail(e) => Raised(e, h)
    case Ok(request) =>
      match SendPacket(h, ControlChannel, request)
      case Raised(e, h1) => Raised(e, h1)
      case Done(_, h1) => Done((), IncrementReportSeq(h1, CommandRequest))
  }

  /** A command-request frame carrying a full set of parameters is sixteen bytes, with the
      command id after the header's report id and sequence byte, and the parameters after it. */
  lemma CommandFrameContents(header: seq<byte>, command: byte, sequence: byte, params: seq<byte>,
                             frame: seq<byte>)
    requires |header| == HeaderLength && |params| == MaxCommandParameters
    requires CommandRequestReport(command, sequence, Some(params)).Ok?
    requires frame == header + CommandRequestReport(command, sequence, Some(params)).value
    ensures |frame| == 16 && frame[HeaderLength + 2] == command
    ensures frame[HeaderLength + 3..] == params
  {
    var request := CommandRequestReport(command, sequence, Some(params)).value;
    assert frame[HeaderLength..] == request;
    assert request[3..] == params;
  }

  /** `begin_calibration`: calibrate accelerometer, gyroscope and magnetometer, then the
      calibration is marked incomplete. */
  function BeginCalibration(h: Hub): (r: Res<()>)
    requires Valid(h)
    ensures Later(h, r.hub)
    ensures r.Done? ==>
              !r.hub.calibrationComplete &&
              |r.hub.bus.written| == |h.bus.written| + 1 &&
              var frame := r.hub.bus.written[|h.bus.written|];
              |frame| == 16 && frame[HeaderLength + 2] == MeCalibrate &&
              frame[HeaderLength + 3..] == [1, 1, 1, MeCalConfig, 0, 0, 0, 0, 0]
  {
    var params: seq<byte> := [1, 1, 1, MeCalConfig, 0, 0, 0, 0, 0];
    match SendMeCommand(h, params)
    case Raised(e, h1) => Raised(e, h1)
    case Done(_, h1) =>
      CommandFrameContents(EncodeHeader(ControlChannel, h.sequence[ControlChannel], 16), MeCalibrate,
        ReportSeq(h, CommandRequest), params, h1.bus.written[|h.bus.written|]);
      Done((), h1.(calibrationComplete := false))
  }

  /** `calibration_status`: asks for the calibration state and returns the magnetometer
      accuracy recorded so far. */
  function CalibrationStatus(h: Hub): (r: Res<nat>)
    requires Valid(h)
    ensures Later(h, r.hub)
    ensures r.Done? ==>
              r.value == r.hub.store.magnetometerAccuracy &&
              |r.hub.bus.written| == |h.bus.written| + 1 &&
              var frame := r.hub.bus.written[|h.bus.written|];
              |frame| == 16 && frame[HeaderLength + 2] == MeCalibrate &&
              frame[HeaderLength + 3..] == [0, 0, 0, MeGetCal, 0, 0, 0, 0, 0]
  {
    var params: seq<byte> := [0, 0, 0, MeGetCal, 0, 0, 0, 0, 0];
    match SendMeCommand(h, params)
    case Raised(e, h1) => Raised(e, h1)
    case Done(_, h1) =>
      CommandFrameContents(EncodeHeader(ControlChannel, h.sequence[ControlChannel], 16), MeCalibrate,
        ReportSeq(h, CommandRequest), params, h1.bus.written[|h.bus.written|]);
      Done(h1.store.magnetometerAccuracy, h1)
  }

  /** The polling loop of `save_calibration_data`: succeeds once a DCD-save response
      arrived after `start`, and raises at the timeout. */
  function AwaitSave(h: Hub, start: int): (r: Res<()>)
    requires Valid(h)
    decreases |h.bus.incoming|
    ensures Listened(h, r.hub)
    ensures r.Done? ==> r.hub.store.dcdSavedAt != -1 && r.hub.store.dcdSavedAt > start
    ensures h.clock - start >= CommandTimeout ==> r == Raised(CalibrationTimeout, h)
  {
    if h.clock - start >= CommandTimeout then Raised(CalibrationTimeout, h)
    else
      match ProcessAvailable(h, 0, 0)
      case Raised(e, h1) => Raised(e, h1)
      case Done(_, h1) =>
        var savedAt := h1.store.dcdSavedAt;
        if savedAt != -1 && savedAt - start > 0 then Done((), h1) else AwaitSave(h1, start)
  }

  /** `save_calibration_data`: a DCD-save command request without parameters; succeeds
      only on a save response received after the request was built. */
  function SaveCalibrationData(h: Hub): (r: Res<()>)
    requires Valid(h)
    ensures Later(h, r.hub)
    ensures r.Done? ==> r.hub.store.dcdSavedAt != -1 && r.hub.store.dcdSavedAt > h.clock
    ensures r.Done? ==>
              |r.hub.bus.written| == |h.bus.written| + 1 &&
              r.hub.bus.written[|h.bus.written|] ==
                EncodeHeader(ControlChannel, h.sequence[ControlChannel], 16) +
                CommandRequestReport(SaveDcd, ReportSeq(h, CommandRequest), None).value
    ensures r.Done? ==> ReportSeq(r.hub, CommandRequest) == (ReportSeq(h, CommandRequest) as int + 1) % 256
  {
    var start := h.clock;
    match SendCommandRequest(h, SaveDcd, None)
    case Raised(e, h1) => Raised(e, h1)
    case Done(_, h1) => AwaitSave(h1, start)
  }

  // ---------------------------------------------------------------------------
  // Reading properties

  /** The `shake` property: pending packets are processed, then the stored shake value is
      returned and cleared when it was set. */
  function ShakeProperty(h: Hub): (r: Res<Reading>)
    requires Valid(h)
    ensures Listened(h, r.hub)
    ensures r.Done? ==> ShakeDetector as int in r.hub.store.readings &&
                        !Truthy(r.hub.store.readings[ShakeDetector as int])
    // the value returned is the entry as the processed packets left it
    ensures r.Done? ==>
              var p := ProcessAvailable(h, 0, 0);
              p.Done? && ShakeDetector as int in p.hub.store.readings &&
              r.value == p.hub.store.readings[ShakeDetector as int]
    ensures ShakeDetector as int in h.store.readings ==> (r.Done? <==> ProcessAvailable(h, 0, 0).Done?)
  {
    match ProcessAvailable(h, 0, 0)
    case Raised(e, h1) => Raised(e, h1)
    case Done(_, h1) =>
      match ReadShake(h1.store)
      case Fail(e) => Raised(e, h1)
      case Ok((value, store)) => Done(value, h1.(store := store))
  }

  /** The other reading properties (`acceleration`, `magnetic`, `quaternion`, `steps`,
      `stability_classification`, `activity_classification`, the raw ones and so on):
      pending packets are processed, then the stored reading is returned. */
  function ReadingProperty(h: Hub, id: byte): (r: Res<Reading>)
    requires Valid(h)
    ensures Listened(h, r.hub)
    ensures r.Done? ==> id as int in r.hub.store.readings && r.value == r.hub.store.readings[id as int]
    ensures id as int in h.store.readings ==> (r.Done? <==> ProcessAvailable(h, 0, 0).Done?)
  {
    match ProcessAvailable(h, 0, 0)
    case Raised(e, h1) => Raised(e, h1)
    case Done(_, h1) =>
      match ReadReport(h1.store, id)
      case Fail(e) => Raised(e, h1)
      case Ok(value) => Done(value, h1)
  }

  /** A header announcing no payload: what the sensor answers when it has nothing. */
  const IdleHeader: seq<byte> := [0, 0, 0, 0]

  /** Clear on read: with nothing pending on the bus, a set shake flag is returned once
      and then reads as false. */
  lemma ShakeClearsOnRead(h: Hub, rest: seq<seq<byte>>)
    requires Valid(h) && h.bus.incoming == [IdleHeader, IdleHeader] + rest
    requires ShakeDetector as int in h.store.readings && Truthy(h.store.readings[ShakeDetector as int])
    ensures var first := ShakeProperty(h);
            first.Done? && first.value == h.store.readings[ShakeDetector as int] &&
            var second := ShakeProperty(first.hub);
            second.Done? && !Truthy(second.value)
  {
    assert h.bus.incoming[0][..HeaderLength] == IdleHeader;
    var first := ShakeProperty(h);
    assert first.hub.bus.incoming == [IdleHeader] + rest;
    assert first.hub.bus.incoming[0][..HeaderLength] == IdleHeader;
  }
}
