# AQM sensor and display drivers, modelled in Dafny

This project models the byte-level logic of the MicroPython drivers in the AQM
air-quality monitor and proves properties about it:

- **BNO085 motion sensor** (`lib/bno085.py`), the main part. It speaks the Sensor Hub
  Transport Protocol (SHTP): four-byte headers, six sequence-numbered channels, batches
  of reports inside one packet, a LIFO slice stack, typed report decoders, the
  readings store, command requests with their own "two-ended" sequence number, feature
  enabling with raw-report dependencies, and the three-attempt initialisation.
- **PMS7003 particulate sensor** (`lib/pms7003.py`). The scanner searches backwards for
  the newest complete 32-byte frame whose checksum matches.
- **SGP41 gas sensor** (`lib/sgp41.py`). Words are framed with CRC-8 (polynomial 0x31,
  initial value 0xFF).
- **BMP581 barometer** (`lib/bmp581.py`). `CBits` does read-modify-write on register bit
  fields. The module also covers two's-complement sign extension and the validating
  setters.
- **SSD1683 e-paper panel** (`lib/ssd1683.py`). This is the partial-window geometry:
  alignment and bounds checks, RAM address commands, and exactly which framebuffer
  bytes are streamed.

Modules, one per file:

| module | contents |
|---|---|
| `Bytes`, `Maybe` (`bytes.dfy`) | bytes, powers of two, little- and big-endian integers, Python slice semantics, `Option`, and `Outcome` (a value or one of a driver's exceptions) |
| `ShtpPacket` | header codec, `is_error` |
| `ShtpReports` | report tables, report decoders, command-request and set-feature encoders |
| `ShtpBatch` | `_separate_batch` and its reference definition |
| `ShtpDispatch` | readings store, `_process_report`, control and command-response handling |
| `ShtpTransport` | the `Hub` state (bus, buffers, sequence numbers, slice stack, clock), send and read, `_handle_packet`, polling loops |
| `ShtpPolling` | how many packets `_process_available_packets` handles under a limit |
| `ShtpDriver` | `initialize`, `enable_feature`, calibration commands, read properties |
| `Pms7003`, `Sgp41`, `Bmp581`, `Ssd1683` | one module per remaining driver |

**Modelling conventions**

- The I²C/SPI/UART peripherals are explicit values:
  - BNO085: a queue of incoming byte chunks, the list of written frames, and the
    positions in that list at which the peripheral refuses a write (`writeto` raises OSError).
  - BMP581: a register map plus the list of writes.
  - SSD1683: a trace of command and data events.
  - SGP41: a function of the bytes the sensor answers with.
- Wall-clock timeouts (`time.ticks_ms`) become a logical clock that advances once per bus
  read. Every polling loop therefore ends when the input runs out or the timeout is
  reached.
- Python exceptions become `Outcome` values (`Result` inside each driver's module, with
  that driver's `Error` type) and, for the BNO085 driver object, `Res` values. Where the
  BNO085 driver has mutated state before raising, the error carries that state.
- Every integer is unbounded, with the source's byte truncation written out.

Two behaviours of the BNO085 code that the model keeps as written:

- A sensor reading keeps only the decoded fields (raw 16-bit values plus their Q point).
  `_parse_sensor_report_data` also returns the accuracy bits (`lib/bno085.py:252-262`),
  but `_process_report` stores only the fields, and the magnetometer's accuracy
  separately (`lib/bno085.py:950-953`).
- The `shake` property's docstring promises `True` when a shake was detected since the
  last check (`lib/bno085.py:673`). But acknowledging the shake detector seeds its entry
  with the truthy triple (0.0, 0.0, 0.0) (`lib/bno085.py:887-889`). The transport and
  driver modules use this seed. A corrected seed is modelled beside it (see Findings).

## Model

| member | source | states |
|---|---|---|
| ShtpPacket.HeaderFromBuffer | lib/bno085.py:432-442 | decoding any four bytes yields channel = byte 2 and sequence = byte 3. The byte count has bit 15 cleared. The data length is the byte count minus four, or zero when the count is below four |
| ShtpPacket.HeaderRoundTrip | lib/bno085.py:432-442 | decoding an encoded header gives back channel, sequence and byte count, with data length = count − 4, whenever the count is below 0x8000 |
| ShtpPacket.HeaderDropsContinuationFlag | lib/bno085.py:435-436 | a byte count at or above 0x8000 comes back from decoding without its continuation bit |
| ShtpPacket.HeaderIgnoresContinuationFlag | lib/bno085.py:435-436 | flipping bit 15 of the wire byte count does not change the decoded header |
| ShtpPacket.DecodedIsErrorIffBadChannel | lib/bno085.py:444-452 | on a decoded header, `is_error` holds exactly when the channel exceeds 5 |
| ShtpPacket.IsErrorMissesAllOnesHeader | lib/bno085.py:436-451 | the all-ones error header FF FF 00 FF is not reported as an error |
| ShtpPacket.IsErrorCorrectedFlagsAllOnes | lib/bno085.py:444-452 | the corrected test flags the all-ones header on every channel and agrees with `is_error` on all other headers |
| ShtpPacket.PacketFromBuffer | lib/bno085.py:370-373 | a packet's data is the buffer from byte 4 up to data length + 4, clipped to the buffer as Python slicing clips |
| ShtpPacket.DecodeScenario | lib/bno085.py:432-452 | the header 14 00 02 05 decodes to channel 2, sequence 5, 16 data bytes and is not an error |
| ShtpPacket.ErrorScenario | lib/bno085.py:444-448 | a header on channel 7 is an error |
| ShtpReports.SensorReportFormat | lib/bno085.py:175-191 | exactly the ids of the sensor-report table have a format, and each format's fields fit in its report length |
| ShtpReports.ReportLength | lib/bno085.py:344-348 | a known report id has a length of at least 5. Ids outside both tables have none, which is the KeyError |
| ShtpReports.RawDependency | lib/bno085.py:170-174 | exactly the three raw reports have a dependency: the calibrated report of the same sensor |
| ShtpReports.ParseSensorReport | lib/bno085.py:241-262 | decoding needs the id's field count of 16-bit values from offset 4. Each value is that little-endian word, read unsigned for raw reports and signed otherwise. The accuracy is the status byte (byte 2) mod 4 |
| ShtpReports.ParseStepCount | lib/bno085.py:264-265 | a step count is read when at least 10 bytes are present and is below 2^16 |
| ShtpReports.ParseShake | lib/bno085.py:300-302 | a shake is detected iff the little-endian word at offset 4 has one of the bits 0x111 set |
| ShtpReports.ParseStability | lib/bno085.py:267-269 | byte 4 indexes the five stability labels. An index of 5 or more is the IndexError |
| ShtpReports.ParseActivity | lib/bno085.py:274-298 | the most likely activity is the label at byte 5. Each of the nine confidences is 10 × page + raw byte. A report shorter than 15 bytes fails the unpacking first. A complete report whose index is 9 or more raises the index error |
| ShtpReports.ParseProductId | lib/bno085.py:304-315 | a product id report needs id 0xF8. Part number, version and build number come from their fixed little-endian offsets |
| ShtpReports.ParseFeatureResponse | lib/bno085.py:271-272 | a get-feature response of at least 17 bytes names the feature in byte 1 |
| ShtpReports.ParseCommandResponse | lib/bno085.py:317-320 | a command response is split into its first 5 and next 11 bytes |
| ShtpReports.CommandRequestReport | lib/bno085.py:322-342 | a request is twelve bytes [0xF2, sequence, command, params…] zero-padded. More than nine parameters fail |
| ShtpReports.SetFeatureReport | lib/bno085.py:955-962 | a set-feature report is 17 bytes starting with 0xFD. It fails when the id, interval or configuration does not fit its field |
| ShtpReports.SetFeatureReportFields | lib/bno085.py:955-962 | byte 1 is the feature id, the interval is the little-endian 32-bit word at 5 and the configuration the one at 13; the gaps are zero |
| ShtpReports.StepCounterRoundTrip | lib/bno085.py:264-265 | a step-counter report built from a count decodes to that count |
| ShtpReports.ShakeRoundTrip | lib/bno085.py:300-302 | a shake report built from a bit field decodes to whether a shake bit is set |
| ShtpReports.SensorReportRoundTrip | lib/bno085.py:241-262 | a sensor report built from 16-bit fields decodes to those fields (sign-extended for calibrated reports), with accuracy = status mod 4 |
| ShtpBatch.SeparateBatchContract | lib/bno085.py:350-364 | each slice is a whole report, i.e. its id's length starting with that id. The slices concatenate to a prefix of the data, and to all of it on success. Splitting succeeds iff the data is a sequence of whole reports; on failure the split stops where too few bytes remain or the id is unknown |
| ShtpBatch.SplitFromSucceedsIffWellFramed | lib/bno085.py:351-364 | the splitting loop finishes without raising exactly when the remaining bytes are a sequence of whole reports |
| ShtpBatch.SplitFromStops | lib/bno085.py:353-359 | when the loop raises, it is at the first report whose id is unknown or whose length exceeds the bytes left |
| ShtpBatch.SplitFromCovers | lib/bno085.py:351-364 | the slices produced so far concatenate to the data between the start and the loop's position |
| ShtpDispatch.InitialReadingAsWritten | lib/bno085.py:192-210 | a seeded entry is the activity or stability default, otherwise a zero tuple |
| ShtpDispatch.InitialReadingAsWrittenTruthy | lib/bno085.py:884-889 | every seeded entry is truthy, including the one for the shake detector |
| ShtpDispatch.InitialReading | lib/bno085.py:884-889 | the corrected seeding stores a false shake flag and otherwise the source's default |
| ShtpDispatch.HandleCommandResponse | lib/bno085.py:893-911 | an ME-calibrate response with status 0 records the start time. A save-DCD response records the save time on status 0 and raises otherwise. Readings are unchanged |
| ShtpDispatch.HandleControlReport | lib/bno085.py:869-891 | a feature acknowledgement seeds that feature's entry. A product-id report is checked and changes nothing. A command response is handed on. Other control reports are ignored |
| ShtpDispatch.DecodeReading | lib/bno085.py:926-953 | each report id goes to its decoder: step count, shake, stability, activity, or the generic sensor decoder |
| ShtpDispatch.ProcessReportWith | lib/bno085.py:913-953 | entries are never removed. A sensor report touches only its own entry, and the magnetometer accuracy for the magnetometer. A truthy shake entry is never overwritten, and a missing or falsy one takes the decoded flag. The magnetometer accuracy becomes the one its report carries. Every other report stores exactly what it decodes to |
| ShtpDispatch.ReadShake | lib/bno085.py:671-682 | reading the shake entry returns it and leaves a falsy entry behind. A missing entry raises, and nothing else changes |
| ShtpDispatch.ReadReport | lib/bno085.py:589-732 | a reading property returns the stored entry, or fails with "not enabled" when there is none |
| ShtpDispatch.AcknowledgementSeeds | lib/bno085.py:884-889 | a feature acknowledgement makes that feature readable with its `_INITIAL_REPORTS` value, or the zero triple for the shake detector and every id the table lacks, and changes no other entry |
| ShtpDispatch.StepReportOverwrites | lib/bno085.py:926-928 | a step-counter report overwrites the stored count with its own |
| ShtpDispatch.SensorReportStored | lib/bno085.py:949-953 | a generic sensor report stores its decoded fields, and the magnetometer's accuracy is kept |
| ShtpDispatch.ShakeLostAsWritten | lib/bno085.py:930-936 | as written, a shake reported between the acknowledgement and the first read is dropped, and that first read returns the (0, 0, 0) triple instead of a boolean. A shake reported after the read is stored and read as `True` |
| ShtpDispatch.ShakeLatchesAfterAcknowledgement | lib/bno085.py:930-936 | with the corrected seeding (`ProcessReportCorrected`), a shake reported right after the acknowledgement reads true once and false on the next read |
| ShtpDispatch.SaveAcknowledgement | lib/bno085.py:905-911 | a save-DCD response succeeds iff its status is 0, and then records the time |
| ShtpTransport.NewHub | lib/bno085.py:458-477 | a new driver starts with an empty store and slice stack, all six channel sequence numbers 0 and the id not read |
| ShtpTransport.BusRead | lib/bno085.py:544-557 | a read of n bytes takes the next chunk, which must hold n bytes, into the front of the buffer |
| ShtpTransport.SendPacket | lib/bno085.py:480-501 | the written frame is the encoded header [len+4, channel, seq[channel]] followed by the data. When the peripheral acknowledges the write, the channel's number then goes up by one mod 256 and is returned, and other channels keep theirs. A refused write raises the bus error with every sequence number unchanged |
| ShtpTransport.SendPacketRoundTrip | lib/bno085.py:480-501 | a frame that fits always goes on the bus, and the send fails exactly when the peripheral refuses it. Decoding the frame gives back channel, the old sequence number, length + 4 and the data |
| ShtpTransport.DataReady | lib/bno085.py:559-573 | data is ready iff the header's byte count is not 0x7FFF and its data length is positive |
| ShtpTransport.DataReadyRejectsAllOnes | lib/bno085.py:565-569 | an all-ones header is never ready, whatever its channel and sequence |
| ShtpTransport.ReadPacket | lib/bno085.py:511-542 | the channel's sequence number is overwritten with the packet's before any check. Channel 6 or more raises the IndexError. A zero byte count raises "no packet" after the overwrite |
| ShtpTransport.ReceivePayload | lib/bno085.py:530-542 | the second read fills the buffer. The packet is parsed from it and its channel's sequence number recorded |
| ShtpTransport.Drain | lib/bno085.py:862-863 | popping the slice stack processes the reports, with the driver's own feature-acknowledgement seed, in reverse wire order. It succeeds iff that replay succeeds, and then leaves the stack empty; bus, clock, buffer and sequence numbers are untouched |
| ShtpTransport.HandlePacket | lib/bno085.py:860-867 | a packet is handled iff its batch splits and its reports replay (with the driver's own acknowledgement seed), after which the slice stack is empty |
| ShtpTransport.EarliestReportWins | lib/bno085.py:860-864 | of two step-counter reports in one packet, the first on the wire is what remains stored |
| ShtpTransport.ProcessAvailable | lib/bno085.py:805-819 | with a packet limit of n, at most n + 1 packets are handled. Each pass consumes input. An empty slice stack stays empty |
| ShtpPolling.ProcessAvailableOneExtra | lib/bno085.py:806-817 | the count is tested before it is incremented: from the count just below a limit n, two more packets that are ready and handle without raising are both handled, and the next ready header ends the loop with n + 1. With n = 1 and a count from 0, two of three ready packets are handled |
| ShtpTransport.WaitForPacket | lib/bno085.py:846-853 | the first ready packet is returned. Once the timeout has passed, it raises |
| ShtpTransport.WaitForPacketType | lib/bno085.py:821-844 | the returned packet is on the requested channel and, when a report id is asked for, starts with it. At the timeout it raises |
| ShtpTransport.IncrementReportSeq | lib/bno085.py:1066-1068 | a report's two-ended number goes up by one mod 256 and the others stay |
| ShtpTransport.ReportSeq | lib/bno085.py:1070-1071 | a report without a two-ended number reads as 0 |
| ShtpTransport.TwoEndedCounts | lib/bno085.py:1066-1071 | after n increments from the default, the number is n mod 256 |
| ShtpDriver.SensorIdInBuffer | lib/bno085.py:1010-1025 | a non-zero result is the part number of a product-id report in the buffer. Without the 0xF8 id the result is 0 |
| ShtpDriver.AwaitProductId | lib/bno085.py:1002-1008 | the loop ends only with a product-id report whose part number is non-zero, and marks the id read |
| ShtpDriver.CheckId | lib/bno085.py:991-1008 | once read, the id is not asked again. Otherwise one request frame [0xF9, 0] goes out on the control channel, and success means a non-zero part number arrived. A failed check has sent exactly that one frame |
| ShtpDriver.DiscardPackets | lib/bno085.py:1060-1062 | the three reads after a reset swallow "no packet" errors and leave the store alone |
| ShtpDriver.SoftReset | lib/bno085.py:1048-1064 | a reset writes two frames carrying command 1 on the executable channel, with consecutive sequence numbers |
| ShtpDriver.InitializeAttempt | lib/bno085.py:577-584 | an attempt that reports success has read the id. A pass writes at most three frames, and one that ends normally has sent both reset frames. A pass that fails to read the id has written exactly three frames. Only the soft reset's bus exceptions escape a pass |
| ShtpDriver.Initialize | lib/bno085.py:575-587 | initialisation succeeds only with the id read. It writes at most three frames per attempt, raises once the attempts are used up, and raises "could not read id" with exactly three frames written per attempt: two reset frames and one id request each |
| ShtpDriver.NewDriver | lib/bno085.py:458-478 | construction runs up to three initialisation attempts: at most nine frames are written, and the "could not read id" failure comes with exactly nine, so only after all three attempts |
| ShtpDriver.FeatureConfig | lib/bno085.py:967-972 | only the activity classifier gets a sensor-specific configuration, which fits in 32 bits |
| ShtpDriver.AwaitFeature | lib/bno085.py:984-989 | waiting ends successfully only once the feature has an entry, and raises at the timeout |
| ShtpDriver.SendFeature | lib/bno085.py:982-989 | the set-feature report goes out as one frame and the feature ends up in the store |
| ShtpDriver.EnableFeature | lib/bno085.py:964-989 | enabling a raw report first enables its missing calibrated counterpart with the default interval, writing its frame first. The feature's own report is sent last, and on success both have entries |
| ShtpDriver.EnableDependency | lib/bno085.py:974-977 | a dependency already in the store is not enabled again |
| ShtpDriver.AwaitCalibrationStart | lib/bno085.py:779-785 | the wait ends at the timeout or after a calibration start later than the command was sent |
| ShtpDriver.SendCommandRequest | lib/bno085.py:770-778 | the request goes out as one 16-byte control frame with the current two-ended number, which then goes up by one. Too many parameters raise before anything is sent |
| ShtpDriver.SendMeCommand | lib/bno085.py:770-785 | the ME-calibrate request frame is written and the two-ended number incremented. The wait ends at the timeout or at a later calibration start |
| ShtpDriver.CommandFrameContents | lib/bno085.py:322-342 | a full command frame is 16 bytes, with the command after the report id and sequence byte and the nine parameters after it |
| ShtpDriver.BeginCalibration | lib/bno085.py:734-750 | one ME-calibrate frame with parameters 1,1,1,0,0,0,0,0,0 is written, and the calibration is marked incomplete |
| ShtpDriver.CalibrationStatus | lib/bno085.py:752-768 | one ME-calibrate frame with the get-calibration parameters is written, and the stored magnetometer accuracy is returned |
| ShtpDriver.AwaitSave | lib/bno085.py:797-803 | the wait succeeds only with a save time later than the start, and raises at the timeout |
| ShtpDriver.SaveCalibrationData | lib/bno085.py:787-803 | one save-DCD request frame is written and the two-ended number incremented. Success means a save was recorded after the call started |
| ShtpDriver.ShakeProperty | lib/bno085.py:671-682 | reading the shake property processes pending packets (with the driver's own acknowledgement seed) and then returns the shake entry as processing left it, leaving a falsy entry behind. When the detector is enabled, it fails exactly when processing fails |
| ShtpDriver.ReadingProperty | lib/bno085.py:589-732 | a reading property processes pending packets and returns the stored entry |
| ShtpDriver.ShakeClearsOnRead | lib/bno085.py:671-682 | a stored shake is returned by the first read and the second read returns a falsy value |
| Pms7003.LatestFrame | lib/pms7003.py:98-148 | the frame found is valid (header 42 4D, 32 bytes present, sum of the first 30 bytes = last two bytes big-endian) and no later start index is valid. None means no valid frame at all |
| Pms7003.LatestFrameSkips | lib/pms7003.py:98-137 | lowering the search limit past positions that hold no valid frame does not change the result |
| Pms7003.RFind | lib/pms7003.py:102 | the last occurrence of the start byte before the limit, or −1 |
| Pms7003.Unpack | lib/pms7003.py:139 | frame bytes 2 to 31 are thirteen big-endian words, two single bytes and one more word |
| Pms7003.Trimmed | lib/pms7003.py:150-153 | a buffer over 100 bytes is cut to its last 64 bytes; otherwise it is unchanged |
| Pms7003.DataReady | lib/pms7003.py:89-155 | the result is true iff the buffer plus new input holds a valid frame. The readings are then decoded from the newest one and the buffer keeps only what follows it. Otherwise the buffer is trimmed and the readings kept |
| Pms7003.FrameRoundTrip | lib/pms7003.py:130-139 | a frame built from readings passes the checksum and decodes back to those readings |
| Pms7003.FreshFrameAccepted | lib/pms7003.py:98-144 | a buffer holding one such frame yields it |
| Pms7003.NewerFrameWins | lib/pms7003.py:98-144 | of two valid frames in the buffer, the later one is decoded |
| Pms7003.AssertByte | lib/pms7003.py:62-66 | the check is true only for one byte equal to the expected value. A longer read is the TypeError |
| Pms7003.PassiveCommandsChecksummed | lib/pms7003.py:206-213 | every passive-mode request and response constant ends with the big-endian sum of its preceding bytes |
| Sgp41.Shift | lib/sgp41.py:20-24 | one CRC bit step shifts left and XORs the polynomial 0x31 when the top bit was set |
| Sgp41.CrcOfSteps | lib/sgp41.py:18-24 | after t of the eight steps that take in byte i, the register is the earlier register XOR the byte, shifted t times; this is the source's byte-at-a-time loop expressed over the bit-serial definition |
| Sgp41.CrcCheckValue | lib/sgp41.py:16-25 | the CRC of BE EF is 0x92 |
| Sgp41.CrcResidue | lib/sgp41.py:16-25 | appending a word's CRC makes the CRC of the whole group zero |
| Sgp41.CommandFrame | lib/sgp41.py:27-34 | the written bytes are the big-endian command, then each two-byte chunk with its CRC, 2 + n + ⌈n/2⌉ bytes in all |
| Sgp41.ReadResult | lib/sgp41.py:36-46 | the answer is accepted iff every three-byte group's CRC matches. The result is then the groups' first two bytes concatenated, and a mismatch is the CRC error |
| Sgp41.ReadResultLoop | lib/sgp41.py:36-46 | the loop as written computes the same result as the reference definition |
| Sgp41.WordsValue | lib/sgp41.py:41-45 | the j-th result word is the j-th group's big-endian word |
| Sgp41.FramedWordsRoundTrip | lib/sgp41.py:30-45 | words framed with their CRCs pass the check and come back unchanged |
| Sgp41.CompensationPayload | lib/sgp41.py:83-94 | the payload is the humidity word then the temperature word, big-endian, with 0x8000 and 0x6666 as the defaults |
| Sgp41.MeasureRaw | lib/sgp41.py:77-100 | command 0x2619 with the payload is written. Both answer groups must pass the CRC, and the result is the two big-endian words |
| Sgp41.ExecuteConditioning | lib/sgp41.py:48-75 | command 0x2612 with the payload is written, and the result is the answer's checked word |
| Sgp41.ExecuteSelfTest | lib/sgp41.py:102-111 | command 0x280E is written and the checked word returned |
| Sgp41.TurnHeaterOff | lib/sgp41.py:113-119 | only command 0x3615 is written |
| Sgp41.Serial | lib/sgp41.py:131 | the serial number is below 2^48 and its three 16-bit parts are the three words |
| Sgp41.GetSerialNumber | lib/sgp41.py:121-131 | command 0x3682 is written. The serial number is read iff all three groups pass the CRC and is (w0 << 32) \| (w1 << 16) \| w2 |
| Sgp41.SerialRoundTrip | lib/sgp41.py:121-131 | the CRC-framed words of any 48-bit number read back as that number |
| Sgp41.SerialDecomposes | lib/sgp41.py:131 | every number below 2^48 is assembled from its own three words |
| Bmp581.MaskSelectsField | lib/bmp581.py:38 | the mask ((1 << n) − 1) << s is zero below bit s, all ones in the field and zero above it |
| Bmp581.ByteOrderRoundTrip | lib/bmp581.py:47-71 | assembling disassembled bytes in the same byte order gives back the register value |
| Bmp581.ReadAfterWrite | lib/bmp581.py:73 | reading back a written byte run returns it |
| Bmp581.ReadAroundWrite | lib/bmp581.py:73 | a write leaves every register outside it unchanged |
| Bmp581.GetField | lib/bmp581.py:44-56 | a field read is always below 2^n |
| Bmp581.MergeKeepsOtherBits | lib/bmp581.py:66-70 | clearing the mask and OR-ing in a value below 2^n keeps the bits below and above the field and puts the value in it |
| Bmp581.GetAfterSet | lib/bmp581.py:44-73 | with the intended byte order, reading a field after setting it to v < 2^n returns v, and the rest of the register is unchanged |
| Bmp581.SetFieldWrites | lib/bmp581.py:58-73 | a set writes the field's register once and touches no other register |
| Bmp581.SetFieldKeepsOtherRegister | lib/bmp581.py:58-73 | setting one field does not change a field in another register |
| Bmp581.SingleByteGetAfterSet | lib/bmp581.py:44-73 | for one-byte registers the code as written also reads back what it set, and writes what the corrected code writes |
| Bmp581.SetFieldReadBack | lib/bmp581.py:58-73 | the bytes written are the merged register value in the output byte order |
| Bmp581.WideFieldStoresBigEndian | lib/bmp581.py:71 | as written, setting a two-byte little-endian field to 1 stores the bytes 00 01 |
| Bmp581.AsWrittenSwapsWideField | lib/bmp581.py:47-71 | as written, a two-byte little-endian field set to 1 reads back as 256 |
| Bmp581.CorrectedKeepsWideField | lib/bmp581.py:44-73 | writing in the field's own byte order, the same field reads back 1 |
| Bmp581.OversizeValueSpills | lib/bmp581.py:66-69 | setting the power mode to 4 spills into the output-data-rate field and leaves power mode 0 |
| Bmp581.TwosCompRange | lib/bmp581.py:418-422 | for v < 2^b, the result lies in [−2^(b−1), 2^(b−1)), equals v iff bit b−1 is clear, and is v modulo 2^b |
| Bmp581.TemperatureRaw | lib/bmp581.py:378-383 | the raw temperature is a signed 24-bit value |
| Bmp581.PressureRaw | lib/bmp581.py:386-391 | the raw pressure is a signed 24-bit value |
| Bmp581.SetValidatedSpec | lib/bmp581.py:296-300 | a validating setter succeeds iff the value is in range, and otherwise raises ValueError. The field then reads the value, only its register is written, and the register's bits below and above the field are kept |
| Bmp581.KeepsLowerField | lib/bmp581.py:198-199 | setting the upper field of a shared register keeps the lower field |
| Bmp581.KeepsUpperField | lib/bmp581.py:197-200 | setting the lower field of a shared register keeps the upper field |
| Bmp581.SetPowerMode | lib/bmp581.py:296-300 | power modes 0–3 are accepted and stored in ODR_CONFIG alone, whose bits 2–7 (the output data rate among them) are kept; anything else raises |
| Bmp581.SetPressureOversampleRate | lib/bmp581.py:335-340 | rates 0–7 are accepted. The temperature rate and bits 6–7 of OSR_CONF, the pressure-enable bit among them, are kept; anything else raises |
| Bmp581.SetTemperatureOversampleRate | lib/bmp581.py:371-376 | rates 0–7 are accepted. Bits 3–7 of OSR_CONF, so the pressure rate and the pressure-enable bit, are kept; anything else raises |
| Bmp581.SetOutputDataRate | lib/bmp581.py:476-480 | rates 0–31 are accepted and stored in ODR_CONFIG alone, whose power mode (bits 0–1) and bit 7 are kept; anything else raises |
| Bmp581.SetIirCoefficient | lib/bmp581.py:454-458 | a coefficient outside 0–7 raises ValueError; otherwise the setter succeeds |
| Bmp581.IirCoefficientSpec | lib/bmp581.py:454-467 | both IIR fields hold the coefficient afterwards and the power mode is what it was |
| Bmp581.IirCoefficientWriteOrder | lib/bmp581.py:459-467 | the writes are: standby (only when not already in standby), the two IIR fields, then the saved power mode |
| Bmp581.PowerModeKeepsIir | lib/bmp581.py:197-203 | changing the power mode keeps both IIR fields |
| Bmp581.OutputDataRateKeepsTopBit | lib/bmp581.py:197-200 | setting the output data rate keeps bit 7 of ODR_CONFIG, above the rate field |
| Bmp581.PowerModeKeepsRate | lib/bmp581.py:197-200 | setting the power mode keeps bits 2–7 of ODR_CONFIG, so the output data rate |
| Bmp581.PressureOversampleKeepsEnable | lib/bmp581.py:198-201 | setting the pressure oversampling keeps bits 6–7 of OSR_CONF, so the pressure-enable bit |
| Bmp581.TemperatureOversampleKeepsEnable | lib/bmp581.py:198-201 | setting the temperature oversampling keeps bits 3–7 of OSR_CONF, so the pressure-enable bit |
| Ssd1683.Data | lib/ssd1683.py:68-80 | data bytes go out one data event each, in order |
| Ssd1683.Payload | lib/ssd1683.py:61-80 | a command's payload is the run of data events up to the next command |
| Ssd1683.ParseEmit | lib/ssd1683.py:61-80 | parsing the event trace of a list of command transfers gives back that list |
| Ssd1683.XAddress | lib/ssd1683.py:111-113 | the byte address of x covers the 8-pixel column holding x, for 0 ≤ x < 2048 |
| Ssd1683.Le16 | lib/ssd1683.py:116-120 | a row address is sent little-endian, modulo 2^16 |
| Ssd1683.Window | lib/ssd1683.py:103-121 | command 0x44 carries the two column bytes and 0x45 the two rows, little-endian |
| Ssd1683.Cursor | lib/ssd1683.py:123-136 | command 0x4E carries the column byte and 0x4F the row, little-endian |
| Ssd1683.RowsSelect | lib/ssd1683.py:341-350 | the row loop streams exactly the framebuffer bytes in the window's rows and byte columns, in buffer order |
| Ssd1683.RowsLength | lib/ssd1683.py:341-350 | the row loop streams (end − start) × window-width bytes |
| Ssd1683.WindowBytes | lib/ssd1683.py:341-350 | for a window inside the panel, the streamed bytes are the window's bytes, h × w/8 of them |
| Ssd1683.ShowPartialAsWritten | lib/ssd1683.py:313-319 | as written, the call fails iff x or w is not a multiple of 8 or the window leaves the panel, and the alignment error comes first. On success the framebuffer is unchanged and the trace only grows |
| Ssd1683.ShowPartial | lib/ssd1683.py:313-319 | the corrected check also rejects negative width and height, and is otherwise the same |
| Ssd1683.ShowPartialAgrees | lib/ssd1683.py:313-319 | for non-negative width and height the corrected and the written check agree |
| Ssd1683.ShowPartialStream | lib/ssd1683.py:321-352 | every byte-aligned, non-negative window on the panel is accepted, and the call sends the partial setup, the window, the cursor, one 0x24 transfer of exactly the window's bytes (h × w/8 of them) and the partial refresh |
| Ssd1683.ShowPartialAddresses | lib/ssd1683.py:337-338 | an accepted non-empty window is sent; its window commands name its exact corner columns and rows, and the cursor its top-left corner |
| Ssd1683.AlignedWindow | lib/ssd1683.py:375-376 | the widened window starts at x rounded down to a multiple of 8 and ends at x + w rounded up to one |
| Ssd1683.ShowPartialAdvancedAsWritten | lib/ssd1683.py:371-372 | as written, the call fails iff the window leaves the panel |
| Ssd1683.ShowPartialAdvanced | lib/ssd1683.py:371-372 | the corrected check also rejects negative width and height |
| Ssd1683.AdvancedAgreesWhenAligned | lib/ssd1683.py:359-403 | for an aligned x and w the advanced call does exactly what the plain one does |
| Ssd1683.ShowPartialAdvancedStream | lib/ssd1683.py:375-400 | every non-negative window on the panel is accepted. The widened window covers [x, x + w) and stays inside the panel. Exactly its bytes are streamed, h × (widened width / 8) of them |
| Ssd1683.NegativeWidthStreamsBuffer | lib/ssd1683.py:313-352 | x = 0, y = 0, w = −8, h = 1 passes the written checks and streams the whole buffer but its last byte; the corrected check rejects it |
| Ssd1683.Clear | lib/ssd1683.py:250-277 | every framebuffer byte becomes 0xFF for a truthy colour and 0x00 otherwise, with sizes kept |
| Ssd1683.ClearSyncsRams | lib/ssd1683.py:258-274 | clearing writes the same buffer to RAM 0x24 and RAM 0x26 and then runs the full refresh |
| Ssd1683.ClearThenPartial | lib/ssd1683.py:250-277 | after a clear, every accepted partial update succeeds and streams only the clear colour |
| Ssd1683.TextWidth | lib/ssd1683.py:443-445 | rounding the text width up to a multiple of 8 leaves eight pixels per character |
| Ssd1683.TextPartial | lib/ssd1683.py:432-452 | with an update, the call succeeds iff x is aligned and the text's 8-pixel-high box is inside the panel. Without one it only keeps the drawn buffer |

## Left out

- Sleeps, `_wait`, `_reset`, the hardware reset pin and the debug printing: timing and
  pin toggling do not change any byte the drivers send or decode.
- Floating point: the Q-point scaling of sensor readings, the BMP581 temperature,
  pressure and altitude formulas, the SGP41 humidity and temperature conversions. The
  model keeps the raw integers and the Q point.
- Python truthiness is reduced to the `Truthy` predicate on readings and to `bool`
  colours. Strings are kept only as labels.
- The real clock: timeouts are counted on a logical clock that advances once per bus
  read, so every loop terminates when the input runs out.
- `_format_bytearray`, `__str__`, `__repr__` and the string-returning getters
  (`power_mode`, the oversample-rate and IIR getters): text formatting only.
- `_send_cmd` of the PMS7003 and the `wakeup`/`sleep`/`request_measurement` calls: these
  are UART writes. Their constants are modelled and checked.
- `init`, `init_fast`, `show`, `show_fast`, `_update_fast`, `sleep` and
  `fill_rect_partial` of the SSD1683: they are outside the partial-window core.
- The FrameBuffer drawing primitives (`text`, `fill_rect`) are foreign code: `TextPartial`
  takes the drawn framebuffer as a parameter.
- `lib/ssd1638.py`, `lib/crowpanel.py` and the gas-index algorithm are not part of this
  model.
- Bmp581.TwosComp: requires `bits ≥ 1`. With zero bits the source shifts by −1, which
  raises in Python.
- Sgp41.ReadResult: an answer whose length is not a multiple of three is a failure in the
  model. The source would raise an IndexError on the last partial group.
- Ssd1683.ShowPartialAddresses: stated only for non-empty windows on panels of at most
  2048 columns and 65536 rows, where the byte truncation of `_pos` and `_cur` loses
  nothing.
- Ssd1683.ShowPartial: both `ValueError`s of the source are modelled as the two error
  values `Misaligned` and `OutOfBounds`, without their messages.
- ShtpDriver.InitializeAttempt: the hard reset is a pin toggle and is left out. Only the
  soft reset and the id check are modelled.
- Ssd1683.TextPartial: when the partial update raises, the result carries only the
  error. The display object at that point already holds the drawn text in its
  framebuffer, and its bus trace is unchanged; the model does not return that display.
- ShtpPolling.ProcessAvailableOneExtra: states the one-extra-packet behaviour at the
  limit, from the count just below it. The run from a count of 0 through n + 1 handled
  packets is stated only for n = 1.
- The BMP581 validating setters write with the field's own byte order (`SetField`),
  not the always-big-endian `__set__` as written. For their one-byte registers both
  write the same bytes (`Bmp581.SingleByteGetAfterSet`).
- Aliases `conditioning` and `measure_test` of the SGP41: they only call modelled methods.

## Findings

| source | as written | input that shows it | evidently intended | confidence | as-written member | corrected member |
|---|---|---|---|---|---|---|
| lib/bno085.py:436-451 | `is_error` tests `packet_byte_count == 0xFFFF`, but the header decoder has already cleared bit 15 | header FF FF 00 FF (all-ones byte count, sequence 0xFF) | an all-ones header is reported as an error | not executed | ShtpPacket.IsErrorMissesAllOnesHeader | ShtpPacket.IsErrorCorrectedFlagsAllOnes |
| lib/bno085.py:884-936 | a shake-detector acknowledgement seeds the entry with the tuple (0.0, 0.0, 0.0), which is truthy, so a shake reported before the first read is dropped and the first read returns the triple instead of a boolean | acknowledge feature 0x19, then a shake report with bit 0 set | the entry starts false and latches true on the first detected shake | not executed | ShtpDispatch.ShakeLostAsWritten | ShtpDispatch.ShakeLatchesAfterAcknowledgement |
| lib/bmp581.py:47-71 | `__set__` always writes big-endian, while `__get__` reads a `lsb_first` field little-endian | a two-byte little-endian field, blank, set to 1 | the field reads back 1 | not executed | Bmp581.AsWrittenSwapsWideField | Bmp581.CorrectedKeepsWideField |
| lib/ssd1683.py:313-352 | a negative width passes both checks: −8 % 8 == 0 and x + w stays inside | x = 0, y = 0, w = −8, h = 1 | a negative width or height is rejected | not executed | Ssd1683.NegativeWidthStreamsBuffer | Ssd1683.ShowPartialStream |
