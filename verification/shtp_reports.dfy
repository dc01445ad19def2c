/**
 SHTP reports of the BNO08x driver: the report-id tables, the batch splitter
 that cuts a packet payload into reports, the typed report decoders, and the
 encodings of the command-request and set-feature reports the driver sends.
 */
module ShtpReports {
  import opened Bytes
  import opened Maybe

  /** The driver's exceptions, one constructor per way an operation can raise. */
  datatype Error =
    | TransportError                      // a bus transfer failed (OSError from the bus)
    | NoPacketAvailable                   // PacketError: a header with byte count 0
    | SequenceIndexError(channel: int)    // IndexError on `_sequence_number[channel]`
    | UnknownReport(reportId: int)        // KeyError in the report tables
    | UnprocessableBatch(remaining: nat)  // a batch ends inside a report
    | FieldMissing                        // struct.error: a report too short for a field
    | IndexOutOfRange(index: int)         // IndexError on a payload or a label table
    | WrongReportId(reportId: int)        // AttributeError in `parse_sensor_id`
    | TooManyParameters(count: nat)       // more than 9 command parameters
    | ValueOutOfRange(value: int)         // a value that does not fit its packed field
    | CalibrationSaveFailed               // nonzero status for a DCD save
    | CalibrationTimeout                  // no DCD-save response in time
    | FeatureEnableTimeout(featureId: int)
    | PacketTimeout                       // `_wait_for_packet` timed out
    | ChannelTimeout(channel: int)        // `_wait_for_packet_type` timed out
    | InitializationFailed                // three initialization attempts failed
    | ReportNotEnabled(reportId: int)     // a reading that was never enabled

  type Result<+T> = Outcome<T, Error>

  // Control report ids
  const SetFeatureCommand: byte := 0xFD
  const GetFeatureResponse: byte := 0xFC
  const BaseTimestamp: byte := 0xFB
  const TimestampRebase: byte := 0xFA
  const ProductIdRequest: byte := 0xF9
  const ProductIdResponse: byte := 0xF8
  const CommandRequest: byte := 0xF2
  const CommandResponse: byte := 0xF1

  // Commands carried by a command request
  const SaveDcd: byte := 0x06
  const MeCalibrate: byte := 0x07

  // Sensor report ids
  const Accelerometer: byte := 0x01
  const Gyroscope: byte := 0x02
  const Magnetometer: byte := 0x03
  const LinearAcceleration: byte := 0x04
  const RotationVector: byte := 0x05
  const Gravity: byte := 0x06
  const GameRotationVector: byte := 0x08
  const GeomagneticRotationVector: byte := 0x09
  const StepCounter: byte := 0x11
  const StabilityClassifier: byte := 0x13
  const RawAccelerometer: byte := 0x14
  const RawGyroscope: byte := 0x15
  const RawMagnetometer: byte := 0x16
  const ShakeDetector: byte := 0x19
  const ActivityClassifier: byte := 0x1E

  /** Report ids at or above this value are control reports. */
  const FirstControlReport: byte := 0xF0

  /** One row of `_AVAIL_SENSOR_REPORTS`: the scalar as a Q-point exponent (the scalar
      is 2^-qPoint), the number of 16-bit fields, and the report length in bytes. */
  datatype SensorFormat = SensorFormat(qPoint: nat, count: nat, length: nat)

  /** `_AVAIL_SENSOR_REPORTS` */
  const SensorReports: map<int, SensorFormat> := map[
    Accelerometer := SensorFormat(8, 3, 10),
    Gravity := SensorFormat(8, 3, 10),
    Gyroscope := SensorFormat(9, 3, 10),
    Magnetometer := SensorFormat(4, 3, 10),
    LinearAcceleration := SensorFormat(8, 3, 10),
    RotationVector := SensorFormat(14, 4, 14),
    GeomagneticRotationVector := SensorFormat(12, 4, 14),
    GameRotationVector := SensorFormat(14, 4, 12),
    StepCounter := SensorFormat(0, 1, 12),
    ShakeDetector := SensorFormat(0, 1, 6),
    StabilityClassifier := SensorFormat(0, 1, 6),
    ActivityClassifier := SensorFormat(0, 1, 16),
    RawAccelerometer := SensorFormat(0, 3, 16),
    RawGyroscope := SensorFormat(0, 3, 16),
    RawMagnetometer := SensorFormat(0, 3, 16)]

  /** `_REPORT_LENGTHS`, the lengths of the control reports the driver receives. */
  const ControlReportLengths: map<int, nat> := map[
    ProductIdResponse := 16,
    GetFeatureResponse := 17,
    CommandResponse := 16,
    BaseTimestamp := 5,
    TimestampRebase := 5]

  /** A lookup in `_AVAIL_SENSOR_REPORTS`; every row has room for its fields after the
      four-byte report header. */
  function SensorReportFormat(id: int): (r: Option<SensorFormat>)
    ensures r.Some? <==> id in SensorReports
    ensures r.Some? ==> 1 <= r.value.count && 4 + 2 * r.value.count <= r.value.length
  {
    if id in SensorReports then Some(SensorReports[id]) else None
  }

  /** `_report_length`: `None` where the source raises KeyError. */
  function ReportLength(id: int): (r: Option<nat>)
    ensures r.Some? ==> r.value >= 5
  {
    if id < FirstControlReport then
      match SensorReportFormat(id)
      case Some(f) => Some(f.length)
      case None => None
    else if id in ControlReportLengths then Some(ControlReportLengths[id])
    else None
  }

  /** `_RAW_REPORTS`: a raw report needs its calibrated counterpart enabled first. */
  function RawDependency(id: int): (r: Option<byte>)
    ensures r.Some? <==> RawAccelerometer <= id <= RawMagnetometer
    ensures r.Some? ==> r.value as int == id - (RawAccelerometer - Accelerometer)
  {
    if id == RawAccelerometer then Some(Accelerometer)
    else if id == RawGyroscope then Some(Gyroscope)
    else if id == RawMagnetometer then Some(Magnetometer)
    else None
  }

  // ---------------------------------------------------------------------------
  // Readings and the typed decoders

  /** A value of the readings store. `Fixed` is a tuple of fixed-point numbers, each
      raw[i] * 2^-qPoint; `Activity` is the classification dictionary. */
  datatype Reading =
    | Fixed(raw: seq<int>, qPoint: nat)
    | Steps(count: nat)
    | Shake(detected: bool)
    | Stability(name: string)
    | Activity(mostLikely: string, confidence: map<string, int>)

  /** Python truthiness of a stored value: non-empty tuples, dictionaries and strings,
      nonzero counts and `True`. */
  predicate Truthy(r: Reading)
  {
    match r
    case Fixed(raw, _) => |raw| > 0
    case Steps(n) => n != 0
    case Shake(d) => d
    case Stability(name) => |name| > 0
    case Activity(_, _) => true
  }

  /** The samples of a generic sensor report: raw 16-bit fields, the accuracy status, and
      the Q-point of the report's scalar. */
  datatype SensorSample = SensorSample(raw: seq<int>, accuracy: nat, qPoint: nat)

  predicate IsRawReport(id: int)
  {
    RawDependency(id).Some?
  }

  /** `_parse_sensor_report_data`: little-endian 16-bit fields from byte 4 on, unsigned for
      raw reports and signed otherwise, with the accuracy in the low two bits of byte 2. */
  function ParseSensorReport(b: seq<byte>): (r: Result<SensorSample>)
    ensures r.Ok? ==> |b| > 0 && SensorReportFormat(b[0]).Some?
    ensures r.Ok? ==> var f := SensorReportFormat(b[0]).value;
              |b| >= 4 + 2 * f.count &&
              |r.value.raw| == f.count && r.value.qPoint == f.qPoint && r.value.accuracy == b[2] % 4 &&
              forall k :: 0 <= k < f.count ==>
                (if IsRawReport(b[0]) then 0 <= r.value.raw[k] < 0x1_0000
                 else -0x8000 <= r.value.raw[k] < 0x8000) &&
                r.value.raw[k] % 0x1_0000 == U16LE(b, 4 + 2 * k)
    ensures r.Fail? ==> (|b| == 0 || SensorReportFormat(b[0]).None? ||
                         |b| < 4 + 2 * SensorReportFormat(b[0]).value.count)
  {
    if |b| == 0 then Fail(IndexOutOfRange(0))
    else match SensorReportFormat(b[0])
      case None => Fail(UnknownReport(b[0]))
      case Some(f) =>
        if |b| < 4 + 2 * f.count then Fail(FieldMissing)
        else
          var raw := seq(f.count, k requires 0 <= k < f.count =>
            if IsRawReport(b[0]) then U16LE(b, 4 + 2 * k) else Signed16(U16LE(b, 4 + 2 * k)));
          Ok(SensorSample(raw, b[2] % 4, f.qPoint))
  }

  /** `_parse_step_couter_report`: the little-endian count at byte 8. */
  function ParseStepCount(b: seq<byte>): (r: Result<nat>)
    ensures r.Ok? <==> |b| >= 10
    ensures r.Ok? ==> r.value < 0x1_0000
  {
    if |b| < 10 then Fail(FieldMissing) else Ok(U16LE(b, 8))
  }

  /** `bits & 0x111 > 0`: one of bits 0, 4 and 8 is set. */
  predicate ShakeBitsSet(bits: nat)
  {
    bits % 2 == 1 || (bits / 16) % 2 == 1 || (bits / 256) % 2 == 1
  }

  /** `_parse_shake_report`: the 16-bit bitfield at byte 4 tested against 0x111. */
  function ParseShake(b: seq<byte>): (r: Result<bool>)
    ensures r.Ok? <==> |b| >= 6
    ensures r.Ok? ==> (r.value <==> ShakeBitsSet(U16LE(b, 4)))
  {
    if |b| < 6 then Fail(FieldMissing) else Ok(ShakeBitsSet(U16LE(b, 4)))
  }

  const StabilityLabels: seq<string> := ["Unknown", "On Table", "Stationary", "Stable", "In motion"]

  /** `_parse_stability_classifier_report`: byte 4 indexes the five labels. */
  function ParseStability(b: seq<byte>): (r: Result<string>)
    ensures r.Ok? <==> |b| >= 5 && b[4] < |StabilityLabels|
    ensures r.Ok? ==> r.value == StabilityLabels[b[4]]
    ensures |b| >= 5 && b[4] >= |StabilityLabels| ==> r == Fail(IndexOutOfRange(b[4]))
  {
    if |b| < 5 then Fail(FieldMissing)
    else if b[4] >= |StabilityLabels| then Fail(IndexOutOfRange(b[4]))
    else Ok(StabilityLabels[b[4]])
  }

  const ActivityNames: seq<string> :=
    ["Unknown", "In-Vehicle", "On-Bicycle", "On-Foot", "Still", "Tilting", "Walking", "Running", "OnStairs"]

  /** The keys of a parsed classification dictionary besides "most_likely". */
  const ActivityKeys: set<string> :=
    {"Unknown", "In-Vehicle", "On-Bicycle", "On-Foot", "Still", "Tilting", "Walking", "Running", "OnStairs"}

  /** `_parse_activity_classifier_report`: the most likely activity named by byte 5, and for
      each of the nine activities the confidence 10 * page + raw byte, where the page is the
      low seven bits of byte 4. */
  function ParseActivity(b: seq<byte>): (r: Result<Reading>)
    ensures r.Ok? <==> |b| >= 15 && b[5] < |ActivityNames|
    ensures |b| < 15 ==> r == Fail(FieldMissing)
    ensures |b| >= 15 && b[5] >= |ActivityNames| ==> r == Fail(IndexOutOfRange(b[5]))
    ensures r.Ok? ==> r.value.Activity? && r.value.mostLikely == ActivityNames[b[5]]
    ensures r.Ok? ==> r.value.confidence.Keys == ActivityKeys
    ensures r.Ok? ==> forall k :: 0 <= k < |ActivityNames| ==>
              r.value.confidence[ActivityNames[k]] == 10 * (b[4] as int % 128) + b[6 + k] as int
  {
    // all three `unpack_from` calls run before `activities[most_likely]`
    if |b| < 15 then Fail(FieldMissing)
    else if b[5] >= |ActivityNames| then Fail(IndexOutOfRange(b[5]))
    else
      var page := b[4] as int % 128;
      Ok(Activity(ActivityNames[b[5]], map[
        "Unknown" := 10 * page + b[6] as int,
        "In-Vehicle" := 10 * page + b[7] as int,
        "On-Bicycle" := 10 * page + b[8] as int,
        "On-Foot" := 10 * page + b[9] as int,
        "Still" := 10 * page + b[10] as int,
        "Tilting" := 10 * page + b[11] as int,
        "Walking" := 10 * page + b[12] as int,
        "Running" := 10 * page + b[13] as int,
        "OnStairs" := 10 * page + b[14] as int]))
  }

  /** The fields of a product-id response. */
  datatype ProductId = ProductId(partNumber: nat, major: byte, minor: byte, patch: nat, build: nat)

  /** `parse_sensor_id`: the report must start with 0xF8. */
  function ParseProductId(b: seq<byte>): (r: Result<ProductId>)
    ensures r.Ok? <==> |b| >= 14 && b[0] == ProductIdResponse
    ensures r.Ok? ==> r.value == ProductId(U32LE(b, 4), b[2], b[3], U16LE(b, 12), U32LE(b, 8))
  {
    if |b| == 0 then Fail(IndexOutOfRange(0))
    else if b[0] != ProductIdResponse then Fail(WrongReportId(b[0]))
    else if |b| < 14 then Fail(FieldMissing)
    else Ok(ProductId(U32LE(b, 4), b[2], b[3], U16LE(b, 12), U32LE(b, 8)))
  }

  /** `_parse_get_feature_response_report` as far as the driver uses it: the id of the
      feature being acknowledged, after checking the 17 bytes of "<BBBHIII". */
  function ParseFeatureResponse(b: seq<byte>): (r: Result<byte>)
    ensures r.Ok? <==> |b| >= 17
    ensures r.Ok? ==> r.value == b[1]
  {
    if |b| < 17 then Fail(FieldMissing) else Ok(b[1])
  }

  /** The fields of a command response: report id, sequence, command, command sequence,
      response sequence, then eleven response values, the first being the status. */
  datatype CommandReply = CommandReply(body: seq<byte>, values: seq<byte>)

  /** `_parse_command_response` */
  function ParseCommandResponse(b: seq<byte>): (r: Result<CommandReply>)
    ensures r.Ok? <==> |b| >= 16
    ensures r.Ok? ==> (|r.value.body| == 5 && |r.value.values| == 11 &&
                       r.value.body + r.value.values == b[..16])
  {
    if |b| < 16 then Fail(FieldMissing) else Ok(CommandReply(b[..5], b[5..16]))
  }

  // ---------------------------------------------------------------------------
  // Reports the driver sends

  const CommandRequestLength: nat := 12
  const MaxCommandParameters: nat := 9

  /** `_insert_command_request_report` into a 12-byte buffer: zeroed, then 0xF2, the
      two-ended sequence number, the command and its parameters. */
  function CommandRequestReport(command: byte, sequence: byte, params: Option<seq<byte>>): (r: Result<seq<byte>>)
    ensures r.Fail? <==> params.Some? && |params.value| > MaxCommandParameters
    ensures r.Ok? ==> (|r.value| == CommandRequestLength &&
                       r.value[0] == CommandRequest && r.value[1] == sequence && r.value[2] == command)
    ensures r.Ok? ==> var ps := if params.Some? then params.value else [];
              r.value[3..3 + |ps|] == ps &&
              forall k :: 3 + |ps| <= k < CommandRequestLength ==> r.value[k] == 0
  {
    var ps := if params.Some? then params.value else [];
    if |ps| > MaxCommandParameters then Fail(TooManyParameters(|ps|))
    else Ok([CommandRequest, sequence, command] + ps + Zeros(MaxCommandParameters - |ps|))
  }

  const SetFeatureLength: nat := 17
  /** `_ENABLED_ACTIVITIES`: all nine activity classes. */
  const EnabledActivities: nat := 0x1FF

  /** `_get_feature_enable_report`: 17 bytes with the id at 1, the interval at 5 and the
      sensor-specific configuration at 13, both little-endian 32-bit. */
  function SetFeatureReport(featureId: int, interval: int, config: int): (r: Result<seq<byte>>)
    ensures r.Ok? <==> 0 <= featureId < 256 && 0 <= interval < 0x1_0000_0000 && 0 <= config < 0x1_0000_0000
    ensures r.Ok? ==> |r.value| == SetFeatureLength && r.value[0] == SetFeatureCommand
  {
    if !(0 <= featureId < 256) then Fail(ValueOutOfRange(featureId))
    else if !(0 <= interval < 0x1_0000_0000) then Fail(ValueOutOfRange(interval))
    else if !(0 <= config < 0x1_0000_0000) then Fail(ValueOutOfRange(config))
    else Ok([SetFeatureCommand, featureId as byte, 0, 0, 0] + PackU32LE(interval) + [0, 0, 0, 0] + PackU32LE(config))
  }

  /** The set-feature report carries its three inputs at their offsets, unchanged. */
  lemma SetFeatureReportFields(featureId: byte, interval: nat, config: nat)
    requires interval < 0x1_0000_0000 && config < 0x1_0000_0000
    ensures SetFeatureReport(featureId, interval, config).Ok?
    ensures var b := SetFeatureReport(featureId, interval, config).value;
              b[1] == featureId && U32LE(b, 5) == interval && U32LE(b, 13) == config &&
              b[2..5] == [0, 0, 0] && b[9..13] == [0, 0, 0, 0]
  {
    var b := SetFeatureReport(featureId, interval, config).value;
    assert b[5..9] == PackU32LE(interval);
    assert b[13..17] == PackU32LE(config);
  }

  // ---------------------------------------------------------------------------
  // Encoders of the sensor reports, the partners of the decoders above

  /** A step-counter report as the sensor sends it: id, sequence, status, delay, a 32-bit
      detection latency, the count and two reserved bytes. */
  function StepCounterReport(sequence: byte, count: nat): (r: seq<byte>)
    requires count < 0x1_0000
    ensures |r| == ReportLength(StepCounter).value && r[0] == StepCounter
  {
    [StepCounter, sequence, 0, 0, 0, 0, 0, 0] + PackU16LE(count) + [0, 0]
  }

  lemma StepCounterRoundTrip(sequence: byte, count: nat)
    requires count < 0x1_0000
    ensures ParseStepCount(StepCounterReport(sequence, count)) == Ok(count)
  {
    var r := StepCounterReport(sequence, count);
    assert r[8..10] == PackU16LE(count);
  }

  /** A shake-detector report carrying a 16-bit detection bitfield. */
  function ShakeReport(sequence: byte, bits: nat): (r: seq<byte>)
    requires bits < 0x1_0000
    ensures |r| == ReportLength(ShakeDetector).value && r[0] == ShakeDetector
  {
    [ShakeDetector, sequence, 0, 0] + PackU16LE(bits)
  }

  lemma ShakeRoundTrip(sequence: byte, bits: nat)
    requires bits < 0x1_0000
    ensures ParseShake(ShakeReport(sequence, bits)) == Ok(ShakeBitsSet(bits))
  {
    var r := ShakeReport(sequence, bits);
    assert r[4..6] == PackU16LE(bits);
  }

  /** A generic sensor report: id, sequence, status, delay, then the 16-bit fields, padded
      with zeros to the table length. */
  function SensorReport(id: byte, sequence: byte, status: byte, fields: seq<nat>): (r: seq<byte>)
    requires SensorReportFormat(id).Some? && |fields| == SensorReportFormat(id).value.count
    requires forall k :: 0 <= k < |fields| ==> fields[k] < 0x1_0000
    ensures |r| == SensorReportFormat(id).value.length && r[0] == id
    ensures forall k :: 0 <= k < |fields| ==> U16LE(r, 4 + 2 * k) == fields[k]
  {
    var body := PackFields(fields);
    var r := [id, sequence, status, 0] + body + Zeros(SensorReportFormat(id).value.length - 4 - |body|);
    assert forall k :: 0 <= k < |fields| ==> r[4 + 2 * k] == body[2 * k] && r[5 + 2 * k] == body[2 * k + 1];
    r
  }

  function PackFields(fields: seq<nat>): (r: seq<byte>)
    requires forall k :: 0 <= k < |fields| ==> fields[k] < 0x1_0000
    ensures |r| == 2 * |fields|
    ensures forall k :: 0 <= k < |fields| ==> U16LE(r, 2 * k) == fields[k]
  {
    if |fields| == 0 then []
    else
      var rest := PackFields(fields[1..]);
      var r := PackU16LE(fields[0]) + rest;
      assert forall k :: 1 <= k < |fields| ==> r[2 * k] == rest[2 * (k - 1)] && r[2 * k + 1] == rest[2 * (k - 1) + 1];
      r
  }

  /** Decoding an encoded sensor report returns its fields (as two's complement for the
      calibrated reports) and the low two bits of its status byte. */
  lemma SensorReportRoundTrip(id: byte, sequence: byte, status: byte, fields: seq<nat>)
    requires SensorReportFormat(id).Some? && |fields| == SensorReportFormat(id).value.count
    requires forall k :: 0 <= k < |fields| ==> fields[k] < 0x1_0000
    ensures var r := ParseSensorReport(SensorReport(id, sequence, status, fields));
              r.Ok? && r.value.accuracy == status % 4 &&
              forall k :: 0 <= k < |fields| ==>
                r.value.raw[k] == if IsRawReport(id) then fields[k] else Signed16(fields[k])
  {
  }
}
