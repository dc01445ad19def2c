/**
 The SGP41 gas sensor's I2C framing: every 16-bit word on the wire is followed by a
 Sensirion CRC-8 (polynomial 0x31, initial value 0xFF, no reflection, no final XOR).
 Commands are a big-endian 16-bit code followed by framed words; results are framed
 words whose checksums are verified and stripped. The bus is replaced by the frame
 written and the bytes read back.
 */
module Sgp41 {
  import opened Bytes
  import opened Maybe

  const CrcPolynomial: bv8 := 0x31
  const CrcInit: bv8 := 0xFF

  const ExecuteConditioningCommand: nat := 0x2612
  const MeasureRawCommand: nat := 0x2619
  const ExecuteSelfTestCommand: nat := 0x280E
  const TurnHeaterOffCommand: nat := 0x3615
  const GetSerialNumberCommand: nat := 0x3682

  /** The raw compensation values sent when humidity or temperature is omitted
      (50 % relative humidity and 25 degrees Celsius). */
  const DefaultHumidityRaw: nat := 0x8000
  const DefaultTemperatureRaw: nat := 0x6666

  /** The driver's exceptions. */
  datatype Error =
    | CrcError                 // a word whose checksum does not match
    | MissingCrc               // IndexError: the checksum of a word lies past the data read
    | OutOfRange(value: int)   // struct.error: a value that does not fit an unsigned 16-bit field

  type Result<+T> = Outcome<T, Error>

  /** One I2C exchange: the frame written, and what the call returned or raised. */
  datatype Exchange<+T> = Exchange(written: seq<byte>, outcome: Result<T>)

  // ---------------------------------------------------------------------------
  // CRC-8

  /** One shift step of `_crc`: shift left, and XOR in the polynomial when the bit
      shifted out was set. `0 - (crc >> 7)` is all ones exactly when bit 7 is set, so the
      step needs no branch. */
  function Shift(crc: bv8): (r: bv8)
    ensures crc & 0x80 == 0 ==> r == crc << 1
    ensures crc & 0x80 != 0 ==> r == (crc << 1) ^ CrcPolynomial
  {
    (crc << 1) ^ ((0 - (crc >> 7)) & CrcPolynomial)
  }

  /** `n` shift steps in a row. */
  function Shifts(crc: bv8, n: nat): bv8
  {
    if n == 0 then crc else Shift(Shifts(crc, n - 1))
  }

  /** The CRC register after the first `m` of the `8 * |data|` shift steps: byte `i` is
      XORed into the register just before step `8 * i + 1`. */
  function CrcOf(data: seq<byte>, m: nat): (r: bv8)
    requires m <= 8 * |data|
  {
    if m == 0 then CrcInit
    else
      var prev := CrcOf(data, m - 1);
      if (m - 1) % 8 == 0 then Shift(prev ^ (data[(m - 1) / 8] as bv8)) else Shift(prev)
  }

  /** `_crc`: the register starts at 0xFF and takes in every byte of `data`.
      The register is kept to eight bits; the source lets it grow, but bits above bit 7
      never flow back into bits 0 to 7, which are all that `crc & 0xFF` returns. */
  function Crc(data: seq<byte>): (r: byte)
  {
    CrcOf(data, 8 * |data|) as byte
  }

  /** The first `t` of the eight shift steps that take in byte `i`. */
  lemma {:induction false} CrcOfSteps(data: seq<byte>, i: nat, t: nat)
    requires i < |data| && 1 <= t <= 8
    ensures CrcOf(data, 8 * i + t) == Shifts(CrcOf(data, 8 * i) ^ (data[i] as bv8), t)
    decreases t
  {
    if t == 1 {
      CrcOfFirstStep(data, i);
    } else {
      CrcOfSteps(data, i, t - 1);
      CrcOfLaterStep(data, i, t);
    }
  }

  /** Step `t` of byte `i` is at position `t - 1` within the byte. */
  lemma StepInByte(i: nat, t: nat)
    requires 1 <= t <= 8
    ensures (8 * i + t - 1) % 8 == t - 1 && (8 * i + t - 1) / 8 == i
  {
    DivMulAdd(t - 1, i, 8);
  }

  /** The first step of byte `i` takes the byte in. */
  lemma CrcOfFirstStep(data: seq<byte>, i: nat)
    requires i < |data|
    ensures CrcOf(data, 8 * i + 1) == Shifts(CrcOf(data, 8 * i) ^ (data[i] as bv8), 1)
  {
    StepInByte(i, 1);
  }

  /** The later steps of byte `i` only shift. */
  lemma CrcOfLaterStep(data: seq<byte>, i: nat, t: nat)
    requires i < |data| && 2 <= t <= 8
    ensures CrcOf(data, 8 * i + t) == Shift(CrcOf(data, 8 * i + t - 1))
  {
    StepInByte(i, t);
  }

  /** The register after the first `m` steps depends on the bytes those steps take in only. */
  lemma {:induction false} CrcOfPrefix(a: seq<byte>, b: seq<byte>, m: nat)
    requires m <= 8 * |a|
    ensures CrcOf(a + b, m) == CrcOf(a, m)
    decreases m
  {
    if m > 0 {
      CrcOfPrefix(a, b, m - 1);
      assert (a + b)[(m - 1) / 8] == a[(m - 1) / 8];
    }
  }

  /** `_crc` of the data with one more byte: the register so far takes in that byte. */
  lemma CrcAppend(data: seq<byte>, b: byte)
    ensures CrcOf(data + [b], 8 * |data| + 8) == Shifts(CrcOf(data, 8 * |data|) ^ (b as bv8), 8)
  {
    var longer := data + [b];
    CrcOfPrefix(data, [b], 8 * |data|);
    CrcOfSteps(longer, |data|, 8);
    assert longer[|data|] == b;
  }

  /** A byte converts to the register value that converts back to it. */
  lemma ByteAsRegister(b: byte, v: bv8)
    requires v as int == b
    ensures b as bv8 == v
  {
  }

  /** The check value Sensirion documents for this CRC: 0x92 for the bytes 0xBE 0xEF. */
  lemma CrcCheckValue(data: seq<byte>)
    requires data == [0xBE, 0xEF]
    ensures Crc(data) == 0x92
  {
    var first := data[..1];
    assert CrcOf(first, 8) == 0x0C by {
      CrcAppend(data[..0], data[0]);
      assert data[..0] + [data[0]] == first;
      ByteAsRegister(data[0], 0xBE);
      assert Shifts(0xFF ^ 0xBE, 8) == 0x0C;
    }
    assert CrcOf(data, 16) == 0x92 by {
      CrcAppend(first, data[1]);
      assert first + [data[1]] == data;
      ByteAsRegister(data[1], 0xEF);
      assert Shifts(0x0C ^ 0xEF, 8) == 0x92;
    }
  }

  /** A register of zero stays zero through any number of shift steps. */
  lemma {:induction false} ShiftsZero(n: nat)
    ensures Shifts(0, n) == 0
  {
    if n > 0 {
      ShiftsZero(n - 1);
    }
  }

  /** A register value survives the trip through a byte. */
  lemma RegisterAsByte(c: bv8)
    ensures (c as byte) as bv8 == c
  {
  }

  /** The register, after taking in its own value as one more byte, is zero. */
  lemma RegisterTakesItself(data: seq<byte>)
    ensures CrcOf(data + [CrcOf(data, 8 * |data|) as byte], 8 * |data| + 8) == 0
  {
    var c := CrcOf(data, 8 * |data|);
    assert c ^ ((c as byte) as bv8) == 0 by {
      RegisterAsByte(c);
    }
    ShiftsZero(8);
    CrcAppend(data, c as byte);
  }

  /** Appending a CRC to the data it covers gives a CRC of zero: the receiver's check. */
  lemma CrcResidue(data: seq<byte>)
    ensures Crc(data + [Crc(data)]) == 0
  {
    RegisterTakesItself(data);
  }

  // ---------------------------------------------------------------------------
  // Framing

  /** The words of `data` with a CRC after each (a last odd byte becomes a one-byte
      chunk with its own CRC), as the loop of `_write_command` emits them. */
  function FrameWords(data: seq<byte>): (r: seq<byte>)
    ensures |r| == |data| + (|data| + 1) / 2
    decreases |data|
  {
    if |data| == 0 then []
    else
      var n := if |data| >= 2 then 2 else 1;
      data[..n] + [Crc(data[..n])] + FrameWords(data[n..])
  }

  /** `_write_command`: the big-endian command code, then the framed words. */
  function CommandFrame(command: nat, data: seq<byte>): (r: seq<byte>)
    requires command < 0x1_0000
    ensures |r| == 2 + |data| + (|data| + 1) / 2
    ensures r[..2] == PackU16BE(command) && r[2..] == FrameWords(data)
  {
    PackU16BE(command) + FrameWords(data)
  }

  /** Group `k` of an answer is complete and its third byte is the CRC of its first two. */
  predicate GroupChecks(data: seq<byte>, k: nat)
  {
    3 * k + 2 < |data| && Crc(data[3 * k..3 * k + 2]) == data[3 * k + 2]
  }

  /** Every complete three-byte group of `data` carries a matching CRC. */
  predicate ChecksPass(data: seq<byte>)
  {
    forall k :: 0 <= k < |data| / 3 ==> GroupChecks(data, k)
  }

  /** The first two bytes of each of the first `k` groups, in order. */
  function Words(data: seq<byte>, k: nat): (r: seq<byte>)
    requires 3 * k <= |data|
    ensures |r| == 2 * k
  {
    if k == 0 then [] else Words(data, k - 1) + data[3 * (k - 1)..3 * (k - 1) + 2]
  }

  /** Word `j` of the first `k` groups is the first two bytes of group `j`. */
  lemma {:induction false} WordsAt(data: seq<byte>, k: nat, j: nat)
    requires 3 * k <= |data| && j < k
    ensures Words(data, k)[2 * j..2 * j + 2] == data[3 * j..3 * j + 2]
    decreases k
  {
    var prev := Words(data, k - 1);
    if j < k - 1 {
      WordsAt(data, k - 1, j);
      assert Words(data, k)[2 * j..2 * j + 2] == prev[2 * j..2 * j + 2];
    } else {
      assert Words(data, k)[2 * j..2 * j + 2] == data[3 * j..3 * j + 2];
    }
  }

  /** Word `j` of the first `k` groups, read big-endian, is the big-endian value of the
      first two bytes of group `j`. */
  lemma WordsValue(data: seq<byte>, k: nat, j: nat)
    requires 3 * k <= |data| && j < k
    ensures U16BE(Words(data, k), 2 * j) == U16BE(data, 3 * j)
  {
    var words := Words(data, k);
    WordsAt(data, k, j);
    assert words[2 * j] == words[2 * j..2 * j + 2][0] == data[3 * j];
    assert words[2 * j + 1] == words[2 * j..2 * j + 2][1] == data[3 * j + 1];
  }

  /** What `_read_result` returns on the bytes read: the groups are checked first to
      last, so a bad CRC in a complete group raises before a group cut short at the end
      raises `IndexError`; otherwise the words without their CRCs. */
  function ReadResult(data: seq<byte>): (r: Result<seq<byte>>)
    ensures r.Ok? <==> |data| % 3 == 0 && ChecksPass(data)
    ensures r.Ok? ==> r.value == Words(data, |data| / 3)
    ensures r == Fail(CrcError) <==> !ChecksPass(data)
  {
    if !ChecksPass(data) then Fail(CrcError)
    else if |data| % 3 != 0 then Fail(MissingCrc)
    else Ok(Words(data, |data| / 3))
  }

  /** `_read_result` as the source runs it: a loop over the groups, three bytes at a
      time, that reads the CRC byte before comparing and appends each checked word. */
  method ReadResultLoop(data: seq<byte>) returns (r: Result<seq<byte>>)
    ensures r == ReadResult(data)
  {
    var result: seq<byte> := [];
    var i: nat := 0;
    while i < |data|
      invariant i % 3 == 0 && i <= |data|
      invariant forall k :: 0 <= k < i / 3 ==> GroupChecks(data, k)
      invariant result == Words(data, i / 3)
      decreases |data| - i
    {
      if i + 2 >= |data| {
        assert i / 3 == |data| / 3;
        return Fail(MissingCrc);
      }
      var word := data[i..i + 2];
      if Crc(word) != data[i + 2] {
        assert !GroupChecks(data, i / 3);
        return Fail(CrcError);
      }
      assert GroupChecks(data, i / 3);
      assert (i + 3) / 3 == i / 3 + 1;
      result := result + word;
      i := i + 3;
    }
    assert i == |data|;
    return Ok(result);
  }

  /** One step of `FrameWords` on a sequence of at least one whole word. */
  lemma FrameWordsUnfold(words: seq<byte>)
    requires |words| >= 2
    ensures FrameWords(words) == (words[..2] + [Crc(words[..2])]) + FrameWords(words[2..])
  {
  }

  /** Group `k` of the framed words is word `k` followed by its CRC. */
  lemma {:induction false} FrameWordsAt(words: seq<byte>, k: nat)
    requires |words| % 2 == 0 && k < |words| / 2
    ensures FrameWords(words)[3 * k..3 * k + 3] == words[2 * k..2 * k + 2] + [Crc(words[2 * k..2 * k + 2])]
    decreases k
  {
    FrameWordsUnfold(words);
    var head := words[..2] + [Crc(words[..2])];
    var tail := FrameWords(words[2..]);
    if k == 0 {
      assert FrameWords(words)[..3] == head;
    } else {
      FrameWordsAt(words[2..], k - 1);
      SliceAfterPrefix(head, tail, 3 * k, 3 * k + 3);
      assert words[2..][2 * (k - 1)..2 * (k - 1) + 2] == words[2 * k..2 * k + 2];
    }
  }

  /** The bytes and the check of group `k` of the framed words. */
  lemma FramedGroup(words: seq<byte>, k: nat)
    requires |words| % 2 == 0 && k < |words| / 2
    ensures GroupChecks(FrameWords(words), k)
    ensures FrameWords(words)[3 * k..3 * k + 2] == words[2 * k..2 * k + 2]
  {
    var framed := FrameWords(words);
    FrameWordsAt(words, k);
    var group := framed[3 * k..3 * k + 3];
    assert framed[3 * k..3 * k + 2] == group[..2] == words[2 * k..2 * k + 2];
    assert framed[3 * k + 2] == group[2];
  }

  /** The words read back from the first `n` groups of framed words are the first `n`
      words. */
  lemma {:induction false} FramedWords(words: seq<byte>, n: nat)
    requires |words| % 2 == 0 && n <= |words| / 2
    ensures 3 * n <= |FrameWords(words)|
    ensures Words(FrameWords(words), n) == words[..2 * n]
    decreases n
  {
    if n > 0 {
      FramedWords(words, n - 1);
      FramedGroup(words, n - 1);
      var framed := FrameWords(words);
      assert framed[3 * (n - 1)..3 * (n - 1) + 2] == words[2 * (n - 1)..2 * n];
      assert words[..2 * (n - 1)] + words[2 * (n - 1)..2 * n] == words[..2 * n];
    }
  }

  /** Framed words come in whole three-byte groups, one per word. */
  lemma FramedLength(words: seq<byte>)
    requires |words| % 2 == 0
    ensures |FrameWords(words)| % 3 == 0 && |FrameWords(words)| / 3 == |words| / 2
  {
    var framed := FrameWords(words);
    WholeGroups(|words|, |framed|);
  }

  /** `2n` bytes plus one CRC per word are `3n` bytes. */
  lemma WholeGroups(len: nat, framedLen: nat)
    requires len % 2 == 0 && framedLen == len + (len + 1) / 2
    ensures framedLen % 3 == 0 && framedLen / 3 == len / 2
  {
    var n := len / 2;
    assert (len + 1) / 2 == n;
    DivMulAdd(0, n, 3);
  }

  /** Every group of framed words carries its CRC. */
  lemma FramedChecksPass(words: seq<byte>)
    requires |words| % 2 == 0
    ensures ChecksPass(FrameWords(words))
  {
    var framed := FrameWords(words);
    FramedLength(words);
    forall k | 0 <= k < |framed| / 3
      ensures GroupChecks(framed, k)
    {
      FramedGroup(words, k);
    }
  }

  /** Round trip: words framed as the driver frames them pass `_read_result` unchanged. */
  lemma FramedWordsRoundTrip(words: seq<byte>)
    requires |words| % 2 == 0
    ensures ReadResult(FrameWords(words)) == Ok(words)
  {
    var framed := FrameWords(words);
    FramedLength(words);
    FramedChecksPass(words);
    FramedWordsAll(words);
    var r := ReadResult(framed);
    assert r.Ok?;
    assert r.value == Words(framed, |words| / 2) == words;
  }

  /** All the words read back from framed words. */
  lemma FramedWordsAll(words: seq<byte>)
    requires |words| % 2 == 0
    ensures Words(FrameWords(words), |words| / 2) == words
  {
    FramedWords(words, |words| / 2);
    assert words[..|words|] == words;
  }

  // ---------------------------------------------------------------------------
  // Commands

  /** `struct.pack('>HH', rh_raw, t_raw)` with the defaults for omitted values; the
      conversions from percent and degrees are floating point and not modelled, so the
      raw values are given directly. */
  function CompensationPayload(humidityRaw: Option<int>, temperatureRaw: Option<int>): (r: Result<seq<byte>>)
    ensures r.Ok? <==> (humidityRaw.None? || 0 <= humidityRaw.value < 0x1_0000) &&
                       (temperatureRaw.None? || 0 <= temperatureRaw.value < 0x1_0000)
    ensures r.Ok? ==> |r.value| == 4 &&
                      U16BE(r.value, 0) == (if humidityRaw.Some? then humidityRaw.value else DefaultHumidityRaw) &&
                      U16BE(r.value, 2) == (if temperatureRaw.Some? then temperatureRaw.value else DefaultTemperatureRaw)
  {
    var rh := if humidityRaw.Some? then humidityRaw.value else DefaultHumidityRaw;
    var t := if temperatureRaw.Some? then temperatureRaw.value else DefaultTemperatureRaw;
    if !(0 <= rh < 0x1_0000) then Fail(OutOfRange(rh))
    else if !(0 <= t < 0x1_0000) then Fail(OutOfRange(t))
    else
      var payload := PackU16BE(rh) + PackU16BE(t);
      assert payload[2..] == PackU16BE(t);
      Ok(payload)
  }

  /** `measure_raw`: the compensation words are framed behind 0x2619, then six bytes
      are read back as the VOC and NOx tick counts. */
  function MeasureRaw(humidityRaw: Option<int>, temperatureRaw: Option<int>, answer: seq<byte>): (r: Exchange<(nat, nat)>)
    requires |answer| == 6
    ensures CompensationPayload(humidityRaw, temperatureRaw).Fail? ==> r.written == [] && r.outcome.Fail?
    ensures CompensationPayload(humidityRaw, temperatureRaw).Ok? ==>
              r.written == CommandFrame(MeasureRawCommand, CompensationPayload(humidityRaw, temperatureRaw).value)
    ensures r.outcome.Ok? <==> CompensationPayload(humidityRaw, temperatureRaw).Ok? &&
                               GroupChecks(answer, 0) && GroupChecks(answer, 1)
    ensures CompensationPayload(humidityRaw, temperatureRaw).Ok? && r.outcome.Fail? ==> r.outcome.error == CrcError
    ensures r.outcome.Ok? ==> r.outcome.value == (U16BE(answer, 0), U16BE(answer, 3))
  {
    match CompensationPayload(humidityRaw, temperatureRaw)
    case Fail(e) => Exchange([], Fail(e))
    case Ok(payload) =>
      var frame := CommandFrame(MeasureRawCommand, payload);
      match ReadResult(answer)
      case Fail(e) => Exchange(frame, Fail(e))
      case Ok(words) =>
        WordsValue(answer, 2, 0);
        WordsValue(answer, 2, 1);
        Exchange(frame, Ok((U16BE(words, 0), U16BE(words, 2))))
  }

  /** A three-byte answer read as one word (`execute_conditioning`, `execute_self_test`). */
  function ReadWord(answer: seq<byte>): (r: Result<nat>)
    requires |answer| == 3
    ensures r.Ok? <==> Crc(answer[..2]) == answer[2]
    ensures r.Ok? ==> r.value == U16BE(answer, 0)
    ensures r.Fail? ==> r.error == CrcError
  {
    assert ChecksPass(answer) <==> GroupChecks(answer, 0);
    assert answer[0..2] == answer[..2];
    match ReadResult(answer)
    case Fail(e) => Fail(e)
    case Ok(words) =>
      WordsValue(answer, 1, 0);
      Ok(U16BE(words, 0))
  }

  /** `execute_conditioning`: like `measure_raw` with code 0x2612, returning the VOC
      ticks only. */
  function ExecuteConditioning(humidityRaw: Option<int>, temperatureRaw: Option<int>, answer: seq<byte>): (r: Exchange<nat>)
    requires |answer| == 3
    ensures CompensationPayload(humidityRaw, temperatureRaw).Fail? ==> r.written == [] && r.outcome.Fail?
    ensures CompensationPayload(humidityRaw, temperatureRaw).Ok? ==>
              r.written == CommandFrame(ExecuteConditioningCommand, CompensationPayload(humidityRaw, temperatureRaw).value)
    ensures r.outcome.Ok? <==> CompensationPayload(humidityRaw, temperatureRaw).Ok? && Crc(answer[..2]) == answer[2]
    ensures r.outcome.Ok? ==> r.outcome.value == U16BE(answer, 0)
  {
    match CompensationPayload(humidityRaw, temperatureRaw)
    case Fail(e) => Exchange([], Fail(e))
    case Ok(payload) => Exchange(CommandFrame(ExecuteConditioningCommand, payload), ReadWord(answer))
  }

  /** `execute_self_test`: the bare code 0x280E, then one word (0xD400 on success). */
  function ExecuteSelfTest(answer: seq<byte>): (r: Exchange<nat>)
    requires |answer| == 3
    ensures r.written == PackU16BE(ExecuteSelfTestCommand)
    ensures r.outcome.Ok? <==> Crc(answer[..2]) == answer[2]
    ensures r.outcome.Ok? ==> r.outcome.value == U16BE(answer, 0)
  {
    Exchange(CommandFrame(ExecuteSelfTestCommand, []), ReadWord(answer))
  }

  /** `turn_heater_off`: the bare code 0x3615 and nothing read. */
  function TurnHeaterOff(): (r: seq<byte>)
    ensures r == PackU16BE(TurnHeaterOffCommand)
  {
    CommandFrame(TurnHeaterOffCommand, [])
  }

  /** `(w0 << 32) | (w1 << 16) | w2` for three 16-bit words: the bit fields do not
      overlap, so the OR is a sum. */
  function Serial(w0: nat, w1: nat, w2: nat): (r: nat)
    requires w0 < 0x1_0000 && w1 < 0x1_0000 && w2 < 0x1_0000
    ensures r < 0x1_0000_0000_0000
    ensures r / 0x1_0000_0000 == w0 && (r / 0x1_0000) % 0x1_0000 == w1 && r % 0x1_0000 == w2
  {
    w0 * 0x1_0000_0000 + w1 * 0x1_0000 + w2
  }

  /** `get_serial_number`: the code 0x3682, then nine bytes read as three words. */
  function GetSerialNumber(answer: seq<byte>): (r: Exchange<nat>)
    requires |answer| == 9
    ensures r.written == PackU16BE(GetSerialNumberCommand)
    ensures r.outcome.Ok? <==> GroupChecks(answer, 0) && GroupChecks(answer, 1) && GroupChecks(answer, 2)
    ensures r.outcome.Fail? ==> r.outcome.error == CrcError
    ensures r.outcome.Ok? ==> r.outcome.value < 0x1_0000_0000_0000 &&
                              r.outcome.value == Serial(U16BE(answer, 0), U16BE(answer, 3), U16BE(answer, 6))
  {
    var frame := CommandFrame(GetSerialNumberCommand, []);
    match ReadResult(answer)
    case Fail(e) => Exchange(frame, Fail(e))
    case Ok(words) =>
      WordsValue(answer, 3, 0);
      WordsValue(answer, 3, 1);
      WordsValue(answer, 3, 2);
      Exchange(frame, Ok(Serial(U16BE(words, 0), U16BE(words, 2), U16BE(words, 4))))
  }

  /** The words of a 48-bit serial number, most significant first. */
  function SerialWords(n: nat): (r: seq<byte>)
    requires n < 0x1_0000_0000_0000
    ensures |r| == 6
    ensures U16BE(r, 0) == n / 0x1_0000_0000 && U16BE(r, 2) == (n / 0x1_0000) % 0x1_0000 &&
            U16BE(r, 4) == n % 0x1_0000
  {
    PackU16BE(n / 0x1_0000_0000) + PackU16BE((n / 0x1_0000) % 0x1_0000) + PackU16BE(n % 0x1_0000)
  }

  /** A sensor that answers with its serial number, framed, is read back exactly. */
  lemma SerialRoundTrip(n: nat)
    requires n < 0x1_0000_0000_0000
    ensures GetSerialNumber(FrameWords(SerialWords(n))).outcome == Ok(n)
  {
    var words := SerialWords(n);
    FramedWordsRoundTrip(words);
    SerialDecomposes(n);
  }

  /** A 48-bit number is the sum of its three 16-bit digits. */
  lemma SerialDecomposes(n: nat)
    requires n < 0x1_0000_0000_0000
    ensures Serial(n / 0x1_0000_0000, (n / 0x1_0000) % 0x1_0000, n % 0x1_0000) == n
  {
    var hi := n / 0x1_0000_0000;
    var rest := n % 0x1_0000_0000;
    assert n == hi * 0x1_0000_0000 + rest;
    assert n / 0x1_0000 == hi * 0x1_0000 + rest / 0x1_0000;
    assert (n / 0x1_0000) % 0x1_0000 == rest / 0x1_0000;
    assert n % 0x1_0000 == rest % 0x1_0000;
  }
}
