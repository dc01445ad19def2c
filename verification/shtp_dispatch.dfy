/**
 What the BNO08x driver does with one report slice: control reports (product id,
 feature acknowledgement, command response) and sensor reports, which land in the
 readings dictionary keyed by report id.
 */
module ShtpDispatch {
  import opened Bytes
  import opened Maybe
  import opened ShtpReports

  /** The driver state a report can change: the readings dictionary, the magnetometer
      accuracy, and the tick stamps of the last calibration-save and calibration-start
      acknowledgements (-1 until the first one). */
  datatype Store = Store(readings: map<int, Reading>, magnetometerAccuracy: nat,
                         dcdSavedAt: int, meCalibrationStartedAt: int)

  /** The store of a freshly constructed driver. */
  const EmptyStore := Store(map[], 0, -1, -1)

  /** The ten entries `_INITIAL_REPORTS` gives the activity classifier, every one -1. */
  const InitialActivity: Reading := Activity("Unknown", map[
    "Tilting" := -1, "OnStairs" := -1, "On-Foot" := -1, "Other" := -1, "On-Bicycle" := -1,
    "Still" := -1, "Walking" := -1, "Unknown" := -1, "Running" := -1, "In-Vehicle" := -1])

  /** The value a feature acknowledgement stores, as written: `_INITIAL_REPORTS` with
      the triple of zeros as default, so the shake detector starts as a non-empty tuple. */
  function InitialReadingAsWritten(id: int): (r: Reading)
    ensures r.Fixed? ==> (forall k :: 0 <= k < |r.raw| ==> r.raw[k] == 0)
    ensures r.Fixed? <==> id != ActivityClassifier && id != StabilityClassifier
  {
    if id == ActivityClassifier then InitialActivity
    else if id == StabilityClassifier then Stability("Unknown")
    else if id == RotationVector || id == GameRotationVector || id == GeomagneticRotationVector then
      Fixed([0, 0, 0, 0], 0)
    else Fixed([0, 0, 0], 0)
  }

  /** The corrected seed: the shake detector starts as "no shake seen"; every other
      report keeps the seed above. */
  function InitialReading(id: int): (r: Reading)
    ensures id == ShakeDetector ==> !Truthy(r)
    ensures id != ShakeDetector ==> r == InitialReadingAsWritten(id)
  {
    if id == ShakeDetector then Shake(false) else InitialReadingAsWritten(id)
  }

  /** Every seed as written is truthy: an acknowledged report always reads as present. */
  lemma InitialReadingAsWrittenTruthy(id: int)
    ensures Truthy(InitialReadingAsWritten(id))
  {
  }

  /** `_handle_command_response`: a successful calibration start records the tick; a
      calibration save records the tick on success and raises otherwise. */
  function HandleCommandResponse(s: Store, now: int, b: seq<byte>): (r: Result<Store>)
    ensures r.Ok? ==> r.value.readings == s.readings &&
                      r.value.magnetometerAccuracy == s.magnetometerAccuracy
    ensures r.Fail? <==> |b| < 16 || (b[2] == SaveDcd && b[5] != 0)
    ensures r.Ok? ==> (r.value.dcdSavedAt == if b[2] == SaveDcd then now else s.dcdSavedAt)
    ensures r.Ok? ==> (r.value.meCalibrationStartedAt ==
                         if b[2] == MeCalibrate && b[5] == 0 then now else s.meCalibrationStartedAt)
  {
    match ParseCommandResponse(b)
    case Fail(e) => Fail(e)
    case Ok(reply) =>
      assert reply.body[2] == b[2] && reply.values[0] == b[5] by {
        assert (reply.body + reply.values)[2] == b[2] && (reply.body + reply.values)[5] == b[5];
      }
      var command := reply.body[2];
      var status := reply.values[0];
      var s1 := if command == MeCalibrate && status == 0 then s.(meCalibrationStartedAt := now) else s;
      if command == SaveDcd then
        if status == 0 then Ok(s1.(dcdSavedAt := now)) else Fail(CalibrationSaveFailed)
      else Ok(s1)
  }

  /** `_handle_control_report` with the seed table as a parameter: a product-id response
      is only parsed, a feature acknowledgement seeds the acknowledged report, a command
      response goes to `HandleCommandResponse`, and the other control reports are ignored. */
  function HandleControlReport(seed: int -> Reading, s: Store, now: int, id: byte, b: seq<byte>): (r: Result<Store>)
    ensures id == GetFeatureResponse ==>
              (r.Ok? <==> |b| >= 17) &&
              (r.Ok? ==> r.value == s.(readings := s.readings[b[1] as int := seed(b[1])]))
    ensures id == ProductIdResponse ==> (r.Ok? <==> |b| >= 14 && b[0] == ProductIdResponse) &&
                                        (r.Ok? ==> r.value == s)
    ensures id != GetFeatureResponse && id != ProductIdResponse && id != CommandResponse ==> r == Ok(s)
    ensures id == CommandResponse ==> r == HandleCommandResponse(s, now, b)
  {
    if id == ProductIdResponse then
      match ParseProductId(b)
      case Fail(e) => Fail(e)
      case Ok(_) => Ok(s)
    else if id == GetFeatureResponse then
      match ParseFeatureResponse(b)
      case Fail(e) => Fail(e)
      case Ok(featureId) => Ok(s.(readings := s.readings[featureId as int := seed(featureId)]))
    else if id == CommandResponse then HandleCommandResponse(s, now, b)
    else Ok(s)
  }

  /** The value a sensor report (any id below 0xF0) decodes to, before the shake detector's
      latch decides whether it is stored; the magnetometer accuracy comes with it. */
  function DecodeReading(id: byte, b: seq<byte>): (r: Result<(Reading, nat)>)
    ensures id == StepCounter ==> (r.Ok? <==> |b| >= 10)
    ensures id == ShakeDetector ==> (r.Ok? <==> |b| >= 6)
    ensures r.Ok? && id == StepCounter ==> r.value.0 == Steps(U16LE(b, 8))
    ensures r.Ok? && id == ShakeDetector ==> r.value.0 == Shake(ShakeBitsSet(U16LE(b, 4)))
    ensures r.Ok? && id == StabilityClassifier ==>
              |b| >= 5 && b[4] < |StabilityLabels| && r.value.0 == Stability(StabilityLabels[b[4]])
    ensures r.Ok? && id == ActivityClassifier ==> r.value.0.Activity?
    ensures r.Ok? && id !in {StepCounter, ShakeDetector, StabilityClassifier, ActivityClassifier} ==>
              ParseSensorReport(b).Ok? &&
              r.value.0 == Fixed(ParseSensorReport(b).value.raw, ParseSensorReport(b).value.qPoint) &&
              r.value.1 == ParseSensorReport(b).value.accuracy
  {
    if id == StepCounter then
      match ParseStepCount(b)
      case Fail(e) => Fail(e)
      case Ok(n) => Ok((Steps(n), 0))
    else if id == ShakeDetector then
      match ParseShake(b)
      case Fail(e) => Fail(e)
      case Ok(d) => Ok((Shake(d), 0))
    else if id == StabilityClassifier then
      match ParseStability(b)
      case Fail(e) => Fail(e)
      case Ok(name) => Ok((Stability(name), 0))
    else if id == ActivityClassifier then ParseActivityReading(b)
    else
      match ParseSensorReport(b)
      case Fail(e) => Fail(e)
      case Ok(sample) => Ok((Fixed(sample.raw, sample.qPoint), sample.accuracy))
  }

  function ParseActivityReading(b: seq<byte>): (r: Result<(Reading, nat)>)
    ensures r.Ok? ==> r.value.0.Activity?
  {
    match ParseActivity(b)
    case Fail(e) => Fail(e)
    case Ok(reading) => Ok((reading, 0))
  }

  /** `_process_report` with the seed table as a parameter. */
  function ProcessReportWith(seed: int -> Reading, s: Store, now: int, id: byte, b: seq<byte>): (r: Result<Store>)
    // nothing is ever removed from the readings
    ensures r.Ok? ==> s.readings.Keys <= r.value.readings.Keys
    // a sensor report touches its own entry and, for the magnetometer, the accuracy only
    ensures r.Ok? && id < FirstControlReport ==>
              r.value.readings.Keys <= s.readings.Keys + {id as int} &&
              (forall k :: k in s.readings && k != id as int ==> r.value.readings[k] == s.readings[k]) &&
              r.value.dcdSavedAt == s.dcdSavedAt &&
              r.value.meCalibrationStartedAt == s.meCalibrationStartedAt &&
              (id != Magnetometer ==> r.value.magnetometerAccuracy == s.magnetometerAccuracy)
    // the shake detector's entry, once truthy, stays as it is until it is read
    ensures (r.Ok? && id == ShakeDetector && ShakeDetector as int in s.readings &&
             Truthy(s.readings[ShakeDetector as int])) ==> r.value == s
    // a missing or falsy shake entry takes the decoded flag
    ensures (r.Ok? && id == ShakeDetector &&
             !(ShakeDetector as int in s.readings && Truthy(s.readings[ShakeDetector as int]))) ==>
              DecodeReading(id, b).Ok? &&
              r.value == s.(readings := s.readings[ShakeDetector as int := DecodeReading(id, b).value.0])
    // the magnetometer's accuracy is the one its report carries
    ensures r.Ok? && id == Magnetometer ==>
              DecodeReading(id, b).Ok? && r.value.magnetometerAccuracy == DecodeReading(id, b).value.1
    // every other sensor report stores what it decodes to
    ensures id < FirstControlReport && id != ShakeDetector ==>
              (r.Ok? <==> DecodeReading(id, b).Ok?) &&
              (r.Ok? ==> id as int in r.value.readings &&
                         r.value.readings[id as int] == DecodeReading(id, b).value.0)
    ensures id < FirstControlReport && id == ShakeDetector ==> (r.Ok? <==> DecodeReading(id, b).Ok?)
    ensures id >= FirstControlReport ==> r == HandleControlReport(seed, s, now, id, b)
  {
    if id >= FirstControlReport then HandleControlReport(seed, s, now, id, b)
    else
      match DecodeReading(id, b)
      case Fail(e) => Fail(e)
      case Ok((reading, accuracy)) =>
        if id == ShakeDetector then
          // `if not self._readings.get(...)`: a missing entry counts as false
          if ShakeDetector as int in s.readings && Truthy(s.readings[ShakeDetector as int]) then Ok(s)
          else Ok(s.(readings := s.readings[id as int := reading]))
        else
          var s1 := if id == Magnetometer then s.(magnetometerAccuracy := accuracy) else s;
          Ok(s1.(readings := s1.readings[id as int := reading]))
  }

  /** `_process_report` as the driver has it: feature acknowledgements seed from
      `_INITIAL_REPORTS`, with the triple of zeros as default. The transport and the
      driver use this. */
  function ProcessReport(s: Store, now: int, id: byte, b: seq<byte>): (r: Result<Store>)
  {
    ProcessReportWith(InitialReadingAsWritten, s, now, id, b)
  }

  /** `_process_report` with the corrected shake seed. */
  function ProcessReportCorrected(s: Store, now: int, id: byte, b: seq<byte>): (r: Result<Store>)
  {
    ProcessReportWith(InitialReading, s, now, id, b)
  }

  /** The `shake` property on the store: the stored value is returned and, when truthy,
      replaced by `False` (clear on read); a missing entry raises. */
  function ReadShake(s: Store): (r: Result<(Reading, Store)>)
    ensures r.Fail? <==> ShakeDetector as int !in s.readings
    ensures r.Ok? ==> r.value.0 == s.readings[ShakeDetector as int]
    ensures r.Ok? ==> r.value.1.readings.Keys == s.readings.Keys
    ensures r.Ok? ==> !Truthy(r.value.1.readings[ShakeDetector as int])
    ensures r.Ok? ==>
                      forall k :: k in s.readings && k != ShakeDetector as int ==>
                        r.value.1.readings[k] == s.readings[k]
  {
    if ShakeDetector as int !in s.readings then Fail(ReportNotEnabled(ShakeDetector))
    else
      var v := s.readings[ShakeDetector as int];
      if Truthy(v) then Ok((v, s.(readings := s.readings[ShakeDetector as int := Shake(false)])))
      else Ok((v, s))
  }

  /** Any other reading property: the stored value, or an error when the report was never
      acknowledged nor received. */
  function ReadReport(s: Store, id: byte): (r: Result<Reading>)
    ensures r.Ok? <==> id as int in s.readings
    ensures r.Ok? ==> r.value == s.readings[id as int]
    ensures r.Fail? ==> r.error == ReportNotEnabled(id)
  {
    if id as int in s.readings then Ok(s.readings[id as int]) else Fail(ReportNotEnabled(id))
  }

  // ---------------------------------------------------------------------------
  // Reports as the sensor sends them, for the properties below

  /** A get-feature response acknowledging `featureId`. */
  function FeatureResponseReport(featureId: byte): (r: seq<byte>)
    ensures |r| == ReportLength(GetFeatureResponse).value && r[0] == GetFeatureResponse
  {
    [GetFeatureResponse, featureId] + Zeros(15)
  }

  /** A command response to `command` with the given status. */
  function CommandResponseReport(sequence: byte, command: byte, status: byte): (r: seq<byte>)
    ensures |r| == ReportLength(CommandResponse).value && r[0] == CommandResponse
  {
    [CommandResponse, sequence, command, 0, 0, status] + Zeros(10)
  }

  // ---------------------------------------------------------------------------
  // Properties

  /** A feature acknowledgement makes its report readable with its `_INITIAL_REPORTS`
      value (the triple of zeros for an id the table lacks), and changes nothing else. */
  lemma AcknowledgementSeeds(s: Store, now: int, featureId: byte)
    ensures var r := ProcessReport(s, now, GetFeatureResponse, FeatureResponseReport(featureId));
            r.Ok? && r.value.readings == s.readings[featureId as int := InitialReadingAsWritten(featureId)] &&
            ReadReport(r.value, featureId) == Ok(InitialReadingAsWritten(featureId))
  {
  }

  /** A step-counter report overwrites the count with the one it carries, whatever was there. */
  lemma StepReportOverwrites(s: Store, now: int, sequence: byte, count: nat)
    requires count < 0x1_0000
    ensures var r := ProcessReport(s, now, StepCounter, StepCounterReport(sequence, count));
            r.Ok? && ReadReport(r.value, StepCounter) == Ok(Steps(count))
  {
    StepCounterRoundTrip(sequence, count);
  }

  /** A sensor report stores its fields (two's complement unless raw) and, for the
      magnetometer, its accuracy. */
  lemma SensorReportStored(s: Store, now: int, id: byte, sequence: byte, status: byte, fields: seq<nat>)
    requires SensorReportFormat(id).Some? && |fields| == SensorReportFormat(id).value.count
    requires forall k :: 0 <= k < |fields| ==> fields[k] < 0x1_0000
    requires id !in {StepCounter, ShakeDetector, StabilityClassifier, ActivityClassifier}
    ensures var r := ProcessReport(s, now, id, SensorReport(id, sequence, status, fields));
            r.Ok? && r.value.readings[id as int].Fixed? &&
            |r.value.readings[id as int].raw| == |fields| &&
            (forall k :: 0 <= k < |fields| ==>
               r.value.readings[id as int].raw[k] == if IsRawReport(id) then fields[k] else Signed16(fields[k])) &&
            (id == Magnetometer ==> r.value.magnetometerAccuracy == status % 4)
  {
    SensorReportRoundTrip(id, sequence, status, fields);
    assert id < FirstControlReport;
  }

  /** With the corrected seed, a shake reported after the acknowledgement latches: the
      next read returns `True` and clears it. */
  lemma {:induction false} ShakeLatchesAfterAcknowledgement(s: Store, now: int, sequence: byte, bits: nat)
    requires bits < 0x1_0000 && ShakeBitsSet(bits)
    ensures var acked := ProcessReportCorrected(s, now, GetFeatureResponse, FeatureResponseReport(ShakeDetector));
            acked.Ok? &&
            var shaken := ProcessReportCorrected(acked.value, now, ShakeDetector, ShakeReport(sequence, bits));
            shaken.Ok? && ReadShake(shaken.value).Ok? &&
            ReadShake(shaken.value).value.0 == Shake(true) &&
            ReadShake(ReadShake(shaken.value).value.1).value.0 == Shake(false)
  {
    var acked := ProcessReportCorrected(s, now, GetFeatureResponse, FeatureResponseReport(ShakeDetector));
    assert acked.value.readings[ShakeDetector as int] == Shake(false);
    ShakeRoundTrip(sequence, bits);
    assert DecodeReading(ShakeDetector, ShakeReport(sequence, bits)) == Ok((Shake(true), 0));
  }

  /** As written, the acknowledgement stores the truthy triple of zeros for the shake
      detector, so a shake reported before the first read is dropped and that first read
      returns the triple instead of a boolean. The read resets the entry to `False`, so
      a shake reported after it is stored and read back as `True`. */
  lemma {:induction false} ShakeLostAsWritten(s: Store, now: int, sequence: byte, bits: nat)
    requires bits < 0x1_0000 && ShakeBitsSet(bits)
    ensures var acked := ProcessReport(s, now, GetFeatureResponse, FeatureResponseReport(ShakeDetector));
            acked.Ok? &&
            var shaken := ProcessReport(acked.value, now, ShakeDetector, ShakeReport(sequence, bits));
            shaken.Ok? && shaken.value == acked.value &&
            ReadShake(shaken.value).Ok? &&
            ReadShake(shaken.value).value.0 == Fixed([0, 0, 0], 0) &&
            var cleared := ReadShake(shaken.value).value.1;
            var again := ProcessReport(cleared, now, ShakeDetector, ShakeReport(sequence, bits));
            again.Ok? && ReadShake(again.value).Ok? && ReadShake(again.value).value.0 == Shake(true)
  {
    var acked := ProcessReport(s, now, GetFeatureResponse, FeatureResponseReport(ShakeDetector));
    assert acked.value.readings[ShakeDetector as int] == Fixed([0, 0, 0], 0);
    ShakeRoundTrip(sequence, bits);
    assert DecodeReading(ShakeDetector, ShakeReport(sequence, bits)) == Ok((Shake(true), 0));
  }

  /** A calibration-save acknowledgement records the tick exactly when its status is zero,
      and raises otherwise. */
  lemma SaveAcknowledgement(s: Store, now: int, sequence: byte, status: byte)
    ensures var r := ProcessReport(s, now, CommandResponse, CommandResponseReport(sequence, SaveDcd, status));
            (r.Ok? <==> status == 0) &&
            (r.Ok? ==> r.value == s.(dcdSavedAt := now)) &&
            (r.Fail? ==> r.error == CalibrationSaveFailed)
  {
  }
}
