/**
 The batch splitter of the BNO08x driver: a packet payload carries several
 reports back to back, and `_separate_batch` cuts it into one slice per
 report using the report-length tables.
 */
module ShtpBatch {
  import opened Bytes
  import opened Maybe
  import opened ShtpReports

  /** Why `_separate_batch` raised: a report id missing from the tables (KeyError), a
      report that runs past the end of the batch, or a batch length beyond the payload
      (IndexError). */
  datatype Fault = UnknownId(reportId: int) | Unprocessable(remaining: nat) | PastEnd(index: nat)

  /** One entry of `_packet_slices`: a report id and the bytes of that report. */
  datatype Slice = Slice(reportId: byte, bytes: seq<byte>)

  /** The outcome of `_separate_batch`: the slices appended before it returned or raised,
      and the exception it raised, if any. */
  datatype Batch = Batch(slices: seq<Slice>, failure: Option<Fault>)

  /** The payload bytes covered by a list of slices, in order. */
  function Flatten(slices: seq<Slice>): seq<byte>
  {
    if |slices| == 0 then [] else slices[0].bytes + Flatten(slices[1..])
  }

  lemma SliceConcat<T>(s: seq<T>, a: nat, b: nat, c: nat)
    requires a <= b <= c <= |s|
    ensures s[a..b] + s[b..c] == s[a..c]
  {
  }

  /** Two adjacent pieces of `data`, meeting at `mid`, make up one piece. */
  lemma AdjacentSlices<T>(data: seq<T>, i: nat, mid: nat, head: seq<T>, tail: seq<T>, whole: seq<T>)
    requires i <= mid && mid + |tail| <= |data|
    requires head == data[i..mid] && tail == data[mid..mid + |tail|]
    requires whole == head + tail
    ensures whole == data[i..mid + |tail|]
  {
    SliceConcat(data, i, mid, mid + |tail|);
  }

  lemma FlattenCons(head: Slice, rest: seq<Slice>)
    ensures Flatten([head] + rest) == head.bytes + Flatten(rest)
  {
    assert ([head] + rest)[1..] == rest;
  }

  /** A report-length table in which every known report has at least one byte, so that
      the splitter always moves forward. */
  predicate Advancing(table: map<int, nat>)
  {
    forall id :: id in table ==> table[id] > 0
  }

  /** `_report_length` as a single table: the sensor reports' lengths and the control
      reports' lengths side by side (their ids do not overlap). */
  const ReportLengths: map<int, nat> := map[
    Accelerometer := 10, Gyroscope := 10, Magnetometer := 10, LinearAcceleration := 10,
    RotationVector := 14, Gravity := 10, GameRotationVector := 12, GeomagneticRotationVector := 14,
    StepCounter := 12, StabilityClassifier := 6, RawAccelerometer := 16, RawGyroscope := 16,
    RawMagnetometer := 16, ShakeDetector := 6, ActivityClassifier := 16,
    ProductIdResponse := 16, GetFeatureResponse := 17, CommandResponse := 16,
    BaseTimestamp := 5, TimestampRebase := 5]

  /** The single table answers exactly as `_report_length` does, and moves forward. */
  lemma ReportLengthsAgree(id: int)
    ensures ReportLength(id) == if id in ReportLengths then Some(ReportLengths[id]) else None
    ensures Advancing(ReportLengths)
  {
    if id < FirstControlReport {
      assert id !in ControlReportLengths;
    } else {
      assert id !in SensorReports;
    }
  }

  /** A slice holds one whole report: as many bytes as its id's table length, id first. */
  predicate WholeReport(table: map<int, nat>, s: Slice)
  {
    s.reportId as int in table && table[s.reportId] == |s.bytes| && |s.bytes| > 0 && s.bytes[0] == s.reportId
  }

  /** Reference definition: a byte string is a back-to-back sequence of whole reports. */
  predicate WellFramed(table: map<int, nat>, s: seq<byte>)
    requires Advancing(table)
    decreases |s|
  {
    |s| == 0 ||
    (s[0] as int in table && table[s[0]] <= |s| && WellFramed(table, s[table[s[0]]..]))
  }

  /** The loop of `_separate_batch` from byte index `i` on, with the length of each
      report looked up in `table`. */
  function SplitFrom(table: map<int, nat>, data: seq<byte>, dataLength: nat, i: nat): (r: Batch)
    requires Advancing(table) && i <= dataLength
    decreases dataLength - i
  {
    if i >= dataLength then Batch([], None)
    else if i >= |data| then Batch([], Some(PastEnd(i)))
    else if data[i] as int !in table then Batch([], Some(UnknownId(data[i])))
    else
      var required := table[data[i]];
      if dataLength - i < required then Batch([], Some(Unprocessable(dataLength - i)))
      else
        var rest := SplitFrom(table, data, dataLength, i + required);
        // `data[i:i + required]`, cut short by Python when the payload ends first
        var bytes := if i + required <= |data| then data[i..i + required] else data[i..];
        Batch([Slice(data[i], bytes)] + rest.slices, rest.failure)
  }

  /** Whether the splitter takes a whole report at `i` and carries on after it. */
  predicate Takes(table: map<int, nat>, data: seq<byte>, dataLength: nat, i: nat)
    requires dataLength <= |data|
  {
    i < dataLength && data[i] as int in table && table[data[i]] <= dataLength - i
  }

  /** One step of the covering argument: a whole report in front of slices that cover the
      bytes after it covers the bytes from the report on. */
  lemma CoverStep(data: seq<byte>, i: nat, required: nat, slices: seq<Slice>, rest: seq<Slice>)
    requires i < i + required <= |data|
    requires slices == [Slice(data[i], data[i..i + required])] + rest
    requires var f := Flatten(rest); i + required + |f| <= |data| && f == data[i + required..i + required + |f|]
    ensures |Flatten(slices)| == required + |Flatten(rest)|
    ensures var f := Flatten(slices); i + |f| <= |data| && f == data[i..i + |f|]
  {
    var head := Slice(data[i], data[i..i + required]);
    var f := Flatten(rest);
    FlattenCons(head, rest);
    AdjacentSlices(data, i, i + required, head.bytes, f, Flatten(slices));
  }

  /** What the splitter appended is the payload from `i` on, cut at report boundaries:
      all of it when the split succeeds, and a prefix of it otherwise. */
  lemma {:induction false} SplitFromCovers(table: map<int, nat>, data: seq<byte>, dataLength: nat, i: nat)
    requires Advancing(table) && i <= dataLength <= |data|
    decreases dataLength - i
    ensures var f := Flatten(SplitFrom(table, data, dataLength, i).slices);
            i + |f| <= dataLength && f == data[i..i + |f|]
  {
    var r := SplitFrom(table, data, dataLength, i);
    if Takes(table, data, dataLength, i) {
      var required := table[data[i]];
      SplitFromCovers(table, data, dataLength, i + required);
      var rest := SplitFrom(table, data, dataLength, i + required);
      assert r.slices == [Slice(data[i], data[i..i + required])] + rest.slices;
      CoverStep(data, i, required, r.slices, rest.slices);
    } else {
      assert r.slices == [];
    }
  }

  /** Every slice the splitter appends is one whole report. */
  lemma {:induction false} SplitFromWhole(table: map<int, nat>, data: seq<byte>, dataLength: nat, i: nat)
    requires Advancing(table) && i <= dataLength <= |data|
    decreases dataLength - i
    ensures forall k :: 0 <= k < |SplitFrom(table, data, dataLength, i).slices| ==>
              WholeReport(table, SplitFrom(table, data, dataLength, i).slices[k])
  {
    var r := SplitFrom(table, data, dataLength, i);
    if Takes(table, data, dataLength, i) {
      var required := table[data[i]];
      SplitFromWhole(table, data, dataLength, i + required);
      var rest := SplitFrom(table, data, dataLength, i + required);
      var head := Slice(data[i], data[i..i + required]);
      assert r.slices == [head] + rest.slices;
      forall k | 0 <= k < |r.slices|
        ensures WholeReport(table, r.slices[k])
      {
        if k == 0 {
          assert r.slices[0] == head && head.bytes[0] == data[i] && |head.bytes| == required;
        } else {
          assert r.slices[k] == rest.slices[k - 1];
        }
      }
    } else {
      assert r.slices == [];
    }
  }

  /** A split that raises nothing appended the whole payload from `i` on. */
  lemma {:induction false} SplitFromComplete(table: map<int, nat>, data: seq<byte>, dataLength: nat, i: nat)
    requires Advancing(table) && i <= dataLength <= |data|
    decreases dataLength - i
    ensures var r := SplitFrom(table, data, dataLength, i);
            r.failure.None? ==> i + |Flatten(r.slices)| == dataLength
  {
    var r := SplitFrom(table, data, dataLength, i);
    if Takes(table, data, dataLength, i) {
      var required := table[data[i]];
      SplitFromComplete(table, data, dataLength, i + required);
      var rest := SplitFrom(table, data, dataLength, i + required);
      var head := Slice(data[i], data[i..i + required]);
      assert r.slices == [head] + rest.slices && r.failure == rest.failure;
      FlattenCons(head, rest.slices);
    } else {
      assert r.slices == [];
    }
  }

  /** Why the splitter stops at byte `j`: an id missing from the table, or a report that
      runs past the end of the payload (it never cuts such a report short). */
  predicate StopsAt(table: map<int, nat>, data: seq<byte>, dataLength: nat, j: nat, e: Fault)
    requires j < dataLength <= |data|
  {
    match e
    case UnknownId(id) => id == data[j] && data[j] as int !in table
    case Unprocessable(rest) => rest == dataLength - j && data[j] as int in table && rest < table[data[j]]
    case _ => false
  }

  /** When the splitter raises, it stopped at the first byte it did not append. */
  lemma {:induction false} SplitFromStops(table: map<int, nat>, data: seq<byte>, dataLength: nat, i: nat)
    requires Advancing(table) && i <= dataLength <= |data|
    decreases dataLength - i
    ensures var r := SplitFrom(table, data, dataLength, i);
            var j := i + |Flatten(r.slices)|;
            r.failure.Some? ==> j < dataLength && StopsAt(table, data, dataLength, j, r.failure.value)
  {
    var r := SplitFrom(table, data, dataLength, i);
    if Takes(table, data, dataLength, i) {
      var required := table[data[i]];
      SplitFromStops(table, data, dataLength, i + required);
      var rest := SplitFrom(table, data, dataLength, i + required);
      var head := Slice(data[i], data[i..i + required]);
      assert r.slices == [head] + rest.slices && r.failure == rest.failure;
      FlattenCons(head, rest.slices);
    } else {
      assert r.slices == [];
    }
  }

  /** The splitter succeeds exactly on payloads that are back-to-back whole reports. */
  lemma {:induction false} SplitFromSucceedsIffWellFramed(table: map<int, nat>, data: seq<byte>, dataLength: nat, i: nat)
    requires Advancing(table) && i <= dataLength <= |data|
    decreases dataLength - i
    ensures SplitFrom(table, data, dataLength, i).failure.None? <==> WellFramed(table, data[i..dataLength])
  {
    var r := SplitFrom(table, data, dataLength, i);
    var s := data[i..dataLength];
    if Takes(table, data, dataLength, i) {
      var required := table[data[i]];
      assert s[0] == data[i] && s[required..] == data[i + required..dataLength];
      SplitFromSucceedsIffWellFramed(table, data, dataLength, i + required);
      assert r.failure == SplitFrom(table, data, dataLength, i + required).failure;
    } else if i == dataLength {
      assert r.failure.None? && |s| == 0;
    } else {
      assert s[0] == data[i];
      assert r.failure.Some? && !WellFramed(table, s);
    }
  }

  /** `_separate_batch(packet, slices)`: the slices it appends, in wire order. */
  function SeparateBatch(data: seq<byte>, dataLength: nat): Batch
  {
    ReportLengthsAgree(0);
    SplitFrom(ReportLengths, data, dataLength, 0)
  }

  /** The splitter's contract on a whole payload: it appends whole reports that, laid end
      to end, are a prefix of the payload; it raises nothing exactly when the payload is
      back-to-back whole reports, and then the slices cover all of it; otherwise it names
      the report id at which it stopped. */
  lemma SeparateBatchContract(data: seq<byte>, dataLength: nat)
    requires dataLength <= |data|
    ensures forall k :: 0 <= k < |SeparateBatch(data, dataLength).slices| ==>
              WholeReport(ReportLengths, SeparateBatch(data, dataLength).slices[k])
    ensures var f := Flatten(SeparateBatch(data, dataLength).slices);
            |f| <= dataLength && f == data[..|f|]
    ensures SeparateBatch(data, dataLength).failure.None? <==> WellFramed(ReportLengths, data[..dataLength])
    ensures SeparateBatch(data, dataLength).failure.None? ==>
              Flatten(SeparateBatch(data, dataLength).slices) == data[..dataLength]
    ensures var r := SeparateBatch(data, dataLength);
            var f := Flatten(r.slices);
            r.failure.Some? ==> |f| < dataLength && StopsAt(ReportLengths, data, dataLength, |f|, r.failure.value)
  {
    ReportLengthsAgree(0);
    SplitFromWhole(ReportLengths, data, dataLength, 0);
    SplitFromCovers(ReportLengths, data, dataLength, 0);
    SplitFromComplete(ReportLengths, data, dataLength, 0);
    SplitFromStops(ReportLengths, data, dataLength, 0);
    SplitFromSucceedsIffWellFramed(ReportLengths, data, dataLength, 0);
    assert data[0..dataLength] == data[..dataLength];
  }

}
