# Fluctus telemetry core in Dafny

Fluctus is a rocket-flight ground station. Its flight computer packs one
telemetry record into a fixed binary layout and sends it over a radio link
as a line of text: `FB`, the bytes as upper-case hex, then `|Grssi<n>/Gsnr<n>`
with the receiver's signal quality. The repository reads and writes that
line in eight places. This project models all eight, plus the browser code
that cuts the serial stream into lines and relays them, and the Python and
browser code that builds the `start`/`ping` radio commands.

Each variant is written in the form its source takes:

- **Shared pieces.**
  - `ByteCodec` (bytes.dfy): little- and big-endian integers and two's complement.
  - `JsInt32` (int32.dfy): JavaScript's 32-bit `|`, `<<`, `>>` and `&`.
  - `Hex` (hex.dfy): hex text, the pair loop, `parseInt(_, 16)`, Python's `int(_, 16)` and `bytes.fromhex`.
  - `Text` (text.dfy): `trim`/`strip`, `split`, decimal rendering and the `tag([-+]?\d+)` search.
  - `Telemetry` (telemetry.dfy): the record, the status and pyro tables, and the scaled fields.
- **Encoders.** These are methods that append field by field, proved equal to a specification function:
  - `NodeEncoder`: fluctus-interface-scripts/javascript/fluctusEncoder.js;
  - `PyEncoder`: fluctus-interface-scripts/python/fluctusEncode.py;
  - `FlutusEncoder`: flutus-interface-scripts/javascript/fluctusEncoder.js.
- **Decoders.** These are functions. Their loops (the pair split, JavaScript's `decodeInt`) are methods proved equal to the functions:
  - `NodeDecoder`: fluctus-interface-scripts/javascript/fluctusDecoder.js;
  - `PyDecoder`: fluctus-interface-scripts/python/fluctusDecoder.py;
  - `FlutusDecoder`: flutus-interface-scripts/python/fluctusDecoder.py;
  - `RootDecoder`: fluctusDecoder.py.
- **Browser parser.** `BrowserParser` models web-interface/src/lib/parser.js. `parseTelemetry` is a method with the source's offset cursor, proved equal to a fixed-offset function.
- **Properties.** Round trips and the other properties live in `NodeRoundTrip`, `NodeProperties`, `PyRoundTrip`, `PyProperties`, `LeRoundTrip` and `ParserProperties`. The places where the code does not do what its authors evidently meant are in `NodeFindings`, `PyFindings` and `LeFindings`.
- **Serial path.**
  - `SerialLines`: line reassembly and the 100 ms broadcast throttle, as functions over the relay state.
  - `SerialHook.Hook`: the React hook of web-interface/src/hooks/useSerial.js, as a class whose fields the methods update.
  - `HostPage.Page`: the stand-alone page web-interface/public/app.js, also a class.
- **Commands.** `RadioCommands` covers `sendStart`/`sendPing` of fluctus-interface-scripts/python/communication.py and the Start button of app.js.

Several things outside the program become parameters:

- The clock (`Date.now()`) is a parameter `now`. `bufferData` takes a clock that gives one reading per line.
- The reply read from the serial port or typed at the console is a parameter `line`, with a flag `serial` that says which of the two it was.
- Socket emissions, log entries and serial writes are recorded as sequences in the classes' fields.

app.js imports `parseTelemetry` from `./parser.js` beside it in web-interface/public/. That file is not part of this model. The model assumes it is the same parser as web-interface/src/lib/parser.js.

Python errors are one `PyError` datatype; the decoders raise them in the source's order. JavaScript's `parseInt` can give NaN, and the model carries that.

## Model

| member | source | states |
|---|---|---|
| NodeDecoder.ChunkCount | fluctus-interface-scripts/javascript/fluctusDecoder.js:63 | the count of offsets i = 0, 2, 4, ... below n is the least c with n <= 2c, so it is ceil(n/2) |
| NodeDecoder.ParseChunks | fluctus-interface-scripts/javascript/fluctusDecoder.js:62-65 | the bytes pushed are exactly the `parseInt(_, 16)` of the two characters at each even offset below the length, in order |
| NodeDecoder.FoldBytes | fluctus-interface-scripts/javascript/fluctusDecoder.js:71-74 | the value is the fold of `value \|= bytes[i] << (8 * i)` over all the bytes, with 32-bit OR and shift |
| NodeDecoder.DecodeInt | fluctus-interface-scripts/javascript/fluctusDecoder.js:60-85 | the result is DecodeIntValue: the joined pairs are parsed two characters at a time, reversed for "big" and folded; when signed, 2^bits is subtracted from a value of at least 2^bits / 2 |
| NodeDecoder.ChunkNumbersOfHex | fluctus-interface-scripts/javascript/fluctusDecoder.js:62-64 | the numbers parsed from uppercase hex of some bytes are those bytes |
| NodeDecoder.OrAccumulateBytes | fluctus-interface-scripts/javascript/fluctusDecoder.js:71-74 | for up to four bytes, the 32-bit fold of the first n is the signed 32-bit wrap of their little-endian value |
| NodeDecoder.FoldOfHexPairs | fluctus-interface-scripts/javascript/fluctusDecoder.js:61-74 | parsing the pairs of up to four bytes gives one number per byte, and their fold is the 32-bit wrap of the little-endian value |
| NodeDecoder.DecodeIntOfBytes | fluctus-interface-scripts/javascript/fluctusDecoder.js:60-85 | decodeInt of the pairs of up to four bytes is their little-endian value, two's complement when signed; a 4-byte read is always the signed 32-bit value, whatever the signed flag |
| NodeDecoder.DecodeFewBytes | fluctus-interface-scripts/javascript/fluctusDecoder.js:71-82 | for up to three bytes, an unsigned read is the little-endian value and a signed read is its two's complement |
| NodeDecoder.DecodeFourBytes | fluctus-interface-scripts/javascript/fluctusDecoder.js:71-74 | a 4-byte read is the signed 32-bit value, signed flag or not |
| NodeDecoder.DecodeIntEmpty | fluctus-interface-scripts/javascript/fluctusDecoder.js:71-84 | an empty slice, from a payload too short for the field, reads as 0 |
| NodeDecoder.StatusOf | fluctus-interface-scripts/javascript/fluctusDecoder.js:22-33 | raw is the parsed byte; the message differs from "Error" exactly when the byte is a number from 0 to 6 |
| NodeDecoder.DecodeStatus | fluctus-interface-scripts/javascript/fluctusDecoder.js:23-33 | the if-chain starting from "Error" yields StatusOf of the byte |
| NodeDecoder.NameChannel | fluctus-interface-scripts/javascript/fluctusDecoder.js:48-50 | the chain names 0 "Disable", 1 "Continuity" and 3 "Enabled / Fired"; any other value keeps "Error" (PyroName) |
| NodeDecoder.DecodePyro | fluctus-interface-scripts/javascript/fluctusDecoder.js:36-58 | the three masks are applied unshifted to the 32-bit integer of the parsed byte and each is named by its chain; raw is the parsed byte |
| NodeDecoder.DecodeMessage | fluctus-interface-scripts/javascript/fluctusDecoder.js:87-100 | the kind comes from type byte 34; the value is bytes 35-37, negated when bit 23 is set; raw is the 4-byte read of bytes 34-37 |
| NodeDecoder.DecodeUserIns | fluctus-interface-scripts/javascript/fluctusDecoder.js:102-107 | both inputs are null unless there are more than 38 pairs; otherwise they are `parseInt` of the reversed pairs 38-41 and 42-43 |
| NodeDecoder.BuildDecoded | fluctus-interface-scripts/javascript/fluctusDecoder.js:112-137 | every numeric field is decodeInt of its fixed pair slice, with the source's signed flag and divisor |
| NodeDecoder.DecodeFluctusData | fluctus-interface-scripts/javascript/fluctusDecoder.js:6-138 | the result is NodeDecode: it throws for a data part shorter than two characters, gives null for a packet type other than b or B, throws for a binary line without '\|', and otherwise decodes the payload pairs |
| NodeProperties.NodeDecodeOutcome | fluctus-interface-scripts/javascript/fluctusDecoder.js:7-13 | null exactly when the second character is neither 'b' nor 'B'; a throw exactly when there is no packet type, or the line is binary and has no '\|'; any callsign is accepted and returned |
| NodeProperties.DecodeIntRange | fluctus-interface-scripts/javascript/fluctusDecoder.js:76-82 | for whole bytes up to three, an unsigned read lies in [0, 2^(8w)), a signed read in [-2^(8w-1), 2^(8w-1)), and the signed read is the unsigned one less 2^(8w) from half of that up |
| NodeRoundTrip.SplitEncoded | fluctus-interface-scripts/javascript/fluctusEncoder.js:53 | the encoded line splits at its single '\|' into "FB" plus the payload hex, and the diagnostics text |
| NodeRoundTrip.NodeDecodeShape | fluctus-interface-scripts/javascript/fluctusDecoder.js:7-19 | a line whose parts are a binary data part and diagnostics decodes as the payload pairs of the data part |
| NodeRoundTrip.NodeDecodeOfEncoded | fluctus-interface-scripts/javascript/fluctusDecoder.js:7-19 | an encoded line is binary and decodes as the pairs of its frame |
| NodeRoundTrip.FieldBack | fluctus-interface-scripts/javascript/fluctusDecoder.js:60-85 | a field written at its width is read back by decodeInt of its pair slice; an unsigned 4-byte field comes back as a signed 32-bit value |
| NodeRoundTrip.WrittenBack | fluctus-interface-scripts/javascript/fluctusEncoder.js:12-26 | decodeInt of the pairs of a value written at width w gives the value back, and a 4-byte unsigned value comes back as its 32-bit signed form |
| NodeRoundTrip.WidthBack | fluctus-interface-scripts/javascript/fluctusDecoder.js:76-82 | a value in range for its width and signedness survives the little-endian write and the read |
| NodeRoundTrip.LeadingFieldsBack | fluctus-interface-scripts/javascript/fluctusDecoder.js:115-123 | uid, fw, rx, altitude, speedVert, accel and angle read back from the frame exactly; timeMPU reads back as a signed 32-bit value |
| NodeRoundTrip.TrailingFieldsBack | fluctus-interface-scripts/javascript/fluctusDecoder.js:124-131 | battVoltage, time, logStatus, gpsLat, gpsLng, gpsState and warnCode read back from the frame exactly |
| NodeRoundTrip.ByteBack | fluctus-interface-scripts/javascript/fluctusDecoder.js:22-36 | a status or pyro byte written by the encoder parses back to itself |
| NodeRoundTrip.MessageBack | fluctus-interface-scripts/javascript/fluctusDecoder.js:88-100 | a message read from a frame has the type's kind, the 24-bit value negated on bit 23, and as raw the 32-bit reading of type + 256 * value |
| NodeRoundTrip.MessageFieldsBack | fluctus-interface-scripts/javascript/fluctusDecoder.js:88-89 | the type and value reads give back the bytes written |
| NodeRoundTrip.MessageRawBack | fluctus-interface-scripts/javascript/fluctusDecoder.js:99 | the raw read spans the type byte and the value, and is the 32-bit reading of type + 256 * value |
| NodeRoundTrip.UserInBack | fluctus-interface-scripts/javascript/fluctusDecoder.js:104-107 | a user input in the tail parses back from its reversed pairs |
| NodeRoundTrip.DecimalOf | fluctus-interface-scripts/javascript/fluctusDecoder.js:109-110 | the captured text is present exactly when a number was rendered |
| NodeRoundTrip.RssiBack | fluctus-interface-scripts/javascript/fluctusDecoder.js:109-135 | the rssi search finds the decimal text of the rendered rssi, and nothing when it was null |
| NodeRoundTrip.RssiOfDecimal | fluctus-interface-scripts/javascript/fluctusDecoder.js:109 | the rssi search finds the digits written after "Grssi", whatever follows "/Gsnr" |
| NodeRoundTrip.NoRssiInPrefix | fluctus-interface-scripts/javascript/fluctusDecoder.js:109 | no position of "Grssinull/Gsnr" starts an rssi match |
| NodeRoundTrip.SnrBack | fluctus-interface-scripts/javascript/fluctusDecoder.js:110-136 | the snr search finds the decimal text of the rendered snr, and nothing when it was null |
| NodeRoundTrip.SnrAfterPrefix | fluctus-interface-scripts/javascript/fluctusDecoder.js:110 | the snr search is decided from "snr" on when the rssi text has no 's' |
| NodeRoundTrip.NoSnrInPrefix | fluctus-interface-scripts/javascript/fluctusDecoder.js:110 | nothing before "snr" in the diagnostics text starts an snr match |
| NodeRoundTrip.SnrNull | fluctus-interface-scripts/javascript/fluctusDecoder.js:110 | "snrnull" holds no snr match |
| NodeRoundTrip.UserInsBack | fluctus-interface-scripts/javascript/fluctusDecoder.js:102-107 | the user inputs read from a frame are the encoder's values when the tail was written, and null otherwise |
| NodeRoundTrip.PayloadBack | fluctus-interface-scripts/javascript/fluctusDecoder.js:112-137 | every field the decoder reads from an encoded frame equals what was written (timeMPU as signed 32-bit; scaled fields with their divisors) |
| NodeRoundTrip.StatusPyroBack | fluctus-interface-scripts/javascript/fluctusDecoder.js:22-36 | the status and pyro bytes parse back to the values written |
| NodeRoundTrip.MessageFrameBack | fluctus-interface-scripts/javascript/fluctusDecoder.js:88-100 | the message object read from an encoded frame |
| NodeRoundTrip.NodeRoundTrip | fluctus-interface-scripts/javascript/fluctusEncoder.js:114-131 | the decoder accepts every line the encoder writes for a reading that fits and gives back every field: integers exactly, timeMPU as a signed 32-bit value, status and pyro raw, scaled fields with their divisors, both user inputs or null, rssi and snr as decimal text |
| NodeRoundTrip.NodeScaledAccuracy | fluctus-interface-scripts/javascript/fluctusEncoder.js:121-128 | each decoded scaled value is never above the value sent and is less than one step below it, within the tolerances of the encoder's round-trip asserts |
| NodeRoundTrip.ScaledBack | fluctus-interface-scripts/javascript/fluctusEncoder.js:35 | rounding x * k down and dividing by k loses less than 1/k and never gains |
| NodeEncoder.ShiftedBytes | fluctus-interface-scripts/javascript/fluctusEncoder.js:21-23 | exactly `bytes` values are extracted, each a byte |
| NodeEncoder.ShiftedHexStep | fluctus-interface-scripts/javascript/fluctusEncoder.js:21-23 | one more turn of the loop adds the hex pair of `(value >> (i * 8)) & 0xFF` |
| NodeEncoder.ShiftedBytesAreLE | fluctus-interface-scripts/javascript/fluctusEncoder.js:21-23 | for up to four bytes, shifting and masking gives the little-endian bytes of the value, whatever its sign or size |
| NodeEncoder.TwosComplementBytes | fluctus-interface-scripts/javascript/fluctusEncoder.js:14-17 | moving a value up by 2^(8 * bytes) leaves its bytes unchanged |
| NodeEncoder.LiftedBytesAreLE | fluctus-interface-scripts/javascript/fluctusEncoder.js:13-23 | for up to four bytes, the bytes of the lifted value are the little-endian bytes of the value, signed or not |
| NodeEncoder.ToHexByte | fluctus-interface-scripts/javascript/fluctusEncoder.js:12-26 | the result is the uppercase hex of the shifted bytes of the lifted value, 2 * bytes characters; for up to four bytes it is the hex of the value's little-endian bytes, so out-of-range input is wrapped, never rejected |
| NodeEncoder.EncodedPrefixIsHex | fluctus-interface-scripts/javascript/fluctusEncoder.js:10-46 | after k fixed fields the string is "FB" followed by the hex of those fields written one after another |
| NodeEncoder.AppendField | fluctus-interface-scripts/javascript/fluctusEncoder.js:28-46 | one `encodedString += toHexByte(...)` line extends the prefix by field k |
| NodeEncoder.PrefixWithTail | fluctus-interface-scripts/javascript/fluctusEncoder.js:48-51 | the fixed fields followed by the 4-byte and 2-byte user inputs are "FB" and the hex of the whole frame |
| NodeEncoder.PrefixNoTail | fluctus-interface-scripts/javascript/fluctusEncoder.js:28-47 | without user inputs the fixed fields are "FB" and the hex of the frame |
| NodeEncoder.AppendFixedFields | fluctus-interface-scripts/javascript/fluctusEncoder.js:28-46 | the nineteen lines write the fixed fields in frame order: uid2 fw2 rx1 timeMPU4 status1 alt3 speed2 accel2 angle1 batt2 time2 pyro1 log1 lat4 lng4 gps1 warn1 msgType1 msgVal3 |
| NodeEncoder.DataToEncodedString | fluctus-interface-scripts/javascript/fluctusEncoder.js:6-56 | the result is NodeEncoded: "FB", the hex of the frame with the tail iff both user inputs are non-null, then `\|Grssi${rssi}/Gsnr${snr}` |
| Telemetry.StatusMessage | fluctus-interface-scripts/javascript/fluctusDecoder.js:27-33 | a code gets a name other than "Error" exactly when it is 0 to 6 |
| Telemetry.StatusMessageInjective | fluctus-interface-scripts/javascript/fluctusDecoder.js:27-33 | different known codes get different names |
| Telemetry.PyroName | fluctus-interface-scripts/javascript/fluctusDecoder.js:48-50 | a masked value gets a name other than "Error" exactly when it is 0, 1 or 3 |
| Telemetry.PyroUnshiftedChannels | fluctus-interface-scripts/javascript/fluctusDecoder.js:37-58 | channel A is named from bits 0-1; because B and C are masked but not shifted, each reads "Disable" exactly when its bits are clear and "Error" otherwise, never "Continuity" or "Enabled / Fired" |
| Telemetry.MessageKind | fluctus-interface-scripts/javascript/fluctusDecoder.js:92-95 | a type gets a kind other than "Error" exactly when it is 65, 83 or 71 |
| Telemetry.FieldValues | fluctus-interface-scripts/javascript/fluctusEncoder.js:28-46 | one value per fixed field, 19 in all |
| Telemetry.FieldWidthBounds | fluctus-interface-scripts/javascript/fluctusEncoder.js:28-46 | every fixed field is one to four bytes wide |
| Telemetry.WriteFields | fluctus-interface-scripts/javascript/fluctusEncoder.js:28-46 | writing fields at their widths gives bytes |
| Telemetry.WriteFieldsLength | fluctus-interface-scripts/javascript/fluctusEncoder.js:28-46 | the written fields fill exactly the sum of their widths |
| Telemetry.WriteFieldsAt | fluctus-interface-scripts/javascript/fluctusEncoder.js:28-46 | field i of the written fields is the little-endian bytes of value i at its offset |
| Telemetry.FieldOffsets | fluctus-interface-scripts/javascript/fluctusDecoder.js:115-131 | the fixed fields start at offsets 0, 2, 4, 5, 9, 10, 13, 15, 17, 18, 20, 22, 23, 24, 28, 32, 33, 34 and 35, and end at 38 |
| Telemetry.FrameOf | fluctus-interface-scripts/javascript/fluctusEncoder.js:28-51 | the frame is 38 bytes, or 44 with the user-input tail |
| Telemetry.UserInBytes | fluctus-interface-scripts/javascript/fluctusEncoder.js:48-51 | the tail is six bytes when present, none otherwise |
| Telemetry.FrameFieldAt | fluctus-interface-scripts/javascript/fluctusEncoder.js:28-51 | field i of the frame is the bytes of fixed field i, and the frame ends with the tail |
| Telemetry.FrameLayout | fluctus-interface-scripts/javascript/fluctusEncoder.js:28-51 | each field sits at the offsets the decoders read from, in little-endian order |
| Telemetry.TailLayout | fluctus-interface-scripts/javascript/fluctusEncoder.js:48-50 | userIn1 is the four bytes after the fixed fields, and userIn2 the two after those |
| Telemetry.Floor | fluctus-interface-scripts/javascript/fluctusEncoder.js:35 | `Math.floor`: the greatest integer not above x |
| Telemetry.Trunc | fluctus-interface-scripts/python/fluctusEncode.py:19 | `int(x)`: rounding toward zero, down for x >= 0 and up for x < 0 |
| Telemetry.FloorScaledError | fluctus-interface-scripts/javascript/fluctusEncoder.js:35-42 | scaling by k, rounding down and dividing by k loses less than 1/k |
| Telemetry.TruncScaledError | fluctus-interface-scripts/python/fluctusEncode.py:19-26 | for non-negative values truncation loses less than 1/k |
| Telemetry.TruncScaledNegative | fluctus-interface-scripts/python/fluctusEncode.py:19-26 | for negative values truncation gains less than 1/k, and never loses |
| PyEncoder.ToHexByte | fluctus-interface-scripts/python/fluctusEncode.py:9-10 | the only failure is OverflowError |
| PyEncoder.HexOrThrow | fluctus-interface-scripts/python/fluctusEncode.py:9-10 | a checking writer fails only with the exception it is given |
| PyEncoder.ToHexByteRoundTrip | fluctus-interface-scripts/python/fluctusEncode.py:9-10 | `to_bytes` succeeds exactly on the values that fit the width and signedness; what it writes is 2 * bytes hex characters, which `bytes.fromhex` and `int.from_bytes` read back as the value |
| PyEncoder.PyFields | fluctus-interface-scripts/python/fluctusEncode.py:19-30 | the message is split by a flooring `>> 24` and `& 0x00FFFFFF`: the value is the message modulo 2^24, and type * 2^24 + value is the message |
| PyEncoder.PyText | fluctus-interface-scripts/python/fluctusEncode.py:35 | an f-string renders an int as its decimal text and None as "None" |
| PyEncoder.PyDiagnostics | fluctus-interface-scripts/python/fluctusEncode.py:35 | with both rssi and snr present, the diagnostics text is the one the Node encoder writes |
| PyEncoder.PrefixFitsShorter | fluctus-interface-scripts/python/fluctusEncode.py:12-30 | a field that does not fit spoils every longer prefix |
| PyEncoder.FitsFrameFields | fluctus-interface-scripts/python/fluctusEncode.py:12-33 | every field fits exactly when the fixed fields fit and the user inputs, if present, fit four and two unsigned bytes |
| PyEncoder.AppendField | fluctus-interface-scripts/python/fluctusEncode.py:12-30 | one `encodedString += toHexByte(...)` line either extends the prefix by field k, or raises, and then the whole frame does not fit |
| PyEncoder.PrefixFitsFields0To4 | fluctus-interface-scripts/python/fluctusEncode.py:12-16 | uid, fw, rx (signed), timeMPU and status (unsigned) fit on top of the fields before them |
| PyEncoder.AppendFields0To4 | fluctus-interface-scripts/python/fluctusEncode.py:12-16 | the lines for fields 0 to 4 either extend the prefix to five fields or raise for a frame that does not fit |
| PyEncoder.PrefixFitsFields5To9 | fluctus-interface-scripts/python/fluctusEncode.py:17-21 | altitude (signed), speedVert, accel, angle and battVoltage fit on top of the fields before them |
| PyEncoder.AppendFields5To9 | fluctus-interface-scripts/python/fluctusEncode.py:17-21 | the lines for fields 5 to 9 either extend the prefix to ten fields or raise for a frame that does not fit |
| PyEncoder.PrefixFitsFields10To14 | fluctus-interface-scripts/python/fluctusEncode.py:22-26 | time, pyroStates, logStatus, gpsLat and gpsLng (the coordinates signed) fit on top of the fields before them |
| PyEncoder.AppendFields10To14 | fluctus-interface-scripts/python/fluctusEncode.py:22-26 | the lines for fields 10 to 14 either extend the prefix to fifteen fields or raise for a frame that does not fit |
| PyEncoder.PrefixFitsFields15To18 | fluctus-interface-scripts/python/fluctusEncode.py:27-30 | gpsState, warnCode, the message type and the message value fit on top of the fields before them |
| PyEncoder.AppendFields15To18 | fluctus-interface-scripts/python/fluctusEncode.py:27-30 | the lines for fields 15 to 18 either complete the fixed fields or raise for a frame that does not fit |
| PyEncoder.AppendFixedFields | fluctus-interface-scripts/python/fluctusEncode.py:7-30 | the fixed fields are written exactly when they all fit, as "FB" and their hex in frame order; otherwise the given exception is raised |
| PyEncoder.DataToEncodedString | fluctus-interface-scripts/python/fluctusEncode.py:3-37 | the result is PyEncoded: "FB", the fixed fields, the tail iff neither user input is None, and `\|Grssi{rssi}/Gsnr{snr}`; OverflowError from the first value that does not fit |
| FlutusEncoder.ToHexByte | flutus-interface-scripts/javascript/fluctusEncoder.js:6-16 | succeeds exactly when the value fits the width and signedness; it then writes 2 * bytes hex characters, which read back as the value's little-endian bytes; otherwise RangeError |
| FlutusEncoder.MessageSplit | flutus-interface-scripts/javascript/fluctusEncoder.js:43-44 | `(message >> 24) & 0xFF` is the byte above the low 24 bits and `message & 0x00FFFFFF` those bits; together they carry the message modulo 2^32 |
| FlutusEncoder.FlutusFields | flutus-interface-scripts/javascript/fluctusEncoder.js:33-44 | whatever the message, its two parts fit one and three unsigned bytes and carry the message modulo 2^32 |
| FlutusEncoder.SameFieldsAsPython | flutus-interface-scripts/javascript/fluctusEncoder.js:26-48 | for a message that is a non-negative 32-bit integer, the flutus and Python encoders write the same integers, so the same frame |
| FlutusEncoder.DataToEncodedString | flutus-interface-scripts/javascript/fluctusEncoder.js:18-54 | the result is FlutusEncoded: "FB", the fixed fields, the unsigned tail iff both user inputs are non-null, and the suffix; RangeError from the first value that does not fit |
| PyDecoder.AlnumRun | fluctus-interface-scripts/python/fluctusDecoder.py:11 | the length of the longest leading run of ASCII letters and digits: every character inside it is one, and the next is not |
| PyDecoder.PyInt | fluctus-interface-scripts/python/fluctusDecoder.py:28-42 | `int(s, 16)` fails only with ValueError, and always on the empty text |
| PyDecoder.DecodeInt | fluctus-interface-scripts/python/fluctusDecoder.py:66-68 | `bytes.fromhex` and `int.from_bytes` fail only with ValueError |
| PyDecoder.StatusOf | fluctus-interface-scripts/python/fluctusDecoder.py:28-39 | raw is the byte; the message differs from "Error" exactly when the byte is 0 to 6 |
| PyDecoder.PyroOfData | fluctus-interface-scripts/python/fluctusDecoder.py:42-64 | raw is the byte itself |
| PyDecoder.MessageOf | fluctus-interface-scripts/python/fluctusDecoder.py:71-83 | a payload of at most 34 pairs raises IndexError at `rawByteArray[34]` |
| PyDecoder.UserInsOf | fluctus-interface-scripts/python/fluctusDecoder.py:85-89 | both inputs are None for at most 38 pairs; 39 to 42 pairs raise ValueError because pairs 42-43 are missing |
| PyDecoder.Group | fluctus-interface-scripts/python/fluctusDecoder.py:114-115 | `.group(1)` succeeds exactly when the search found something, and otherwise raises AttributeError |
| PyDecoder.DecodeStatus | fluctus-interface-scripts/python/fluctusDecoder.py:33-39 | the elif chain starting from "Error" yields StatusOf of the byte |
| PyDecoder.DecodePyro | fluctus-interface-scripts/python/fluctusDecoder.py:43-64 | the three unshifted masks are named by their chains; raw is the byte |
| PyDecoder.DecodeMessage | fluctus-interface-scripts/python/fluctusDecoder.py:71-83 | the statements compute MessageOf: the type byte, the 3-byte value negated on bit 23, the kind chain and the 4-byte raw, each read able to raise |
| PyDecoder.DecodeUserIns | fluctus-interface-scripts/python/fluctusDecoder.py:85-89 | the statements compute UserInsOf: None and None, replaced by `int(_, 16)` of pairs 38-41 and 42-43 as they come when there are more than 38 pairs |
| PyDecoder.DecodeFluctusData | fluctus-interface-scripts/python/fluctusDecoder.py:10-116 | the result is PyDecode: None when the guard fails; ValueError unless the split gives exactly two parts; None for a packet type other than b or B; otherwise the decoded payload or the first exception raised |
| PyProperties.GuardData | fluctus-interface-scripts/python/fluctusDecoder.py:11-16 | a line the guard accepts has a data part starting with "FB" |
| PyProperties.GuardHead | fluctus-interface-scripts/python/fluctusDecoder.py:11 | the guard's "FB" is the first two characters of the line |
| PyProperties.BarAfterRun | fluctus-interface-scripts/python/fluctusDecoder.py:11-13 | no '\|' comes before the end of the alphanumeric run after "FB" |
| PyProperties.NoneExactlyWhenGuardFails | fluctus-interface-scripts/python/fluctusDecoder.py:11-19 | the decoder returns None exactly when the guard fails; a guarded line always has packet type 'B', so the test at line 19 never fires |
| PyProperties.ExtraBarRaises | fluctus-interface-scripts/python/fluctusDecoder.py:13 | a guarded line with a second '\|' raises ValueError at the two-name unpacking |
| PyProperties.GuardedDecode | fluctus-interface-scripts/python/fluctusDecoder.py:11-116 | a guarded line with one '\|' decodes as the payload pairs after "FB" |
| PyProperties.ShortPayloadValueError | fluctus-interface-scripts/python/fluctusDecoder.py:28-42 | a payload of at most 22 pairs raises ValueError from `int('', 16)` |
| PyProperties.ShortPayloadIndexError | fluctus-interface-scripts/python/fluctusDecoder.py:71 | a payload of 23 to 34 pairs with parsable status and pyro bytes raises IndexError |
| PyProperties.ShortPayloadRaises | fluctus-interface-scripts/python/fluctusDecoder.py:28-71 | a payload of at most 34 pairs always raises and never returns None |
| PyProperties.PartialTailRaises | fluctus-interface-scripts/python/fluctusDecoder.py:87-89 | a tail of one to four pairs raises ValueError |
| PyProperties.DecodeIntOfBytes | fluctus-interface-scripts/python/fluctusDecoder.py:66-68 | decodeInt of the pairs of some bytes is their exact little-endian value, two's complement when signed |
| PyProperties.DecodeIntRange | fluctus-interface-scripts/python/fluctusDecoder.py:66-68 | a successful read of w bytes lies in [0, 256^w) when unsigned, so a 4-byte field spans 0..2^32-1, and in [-256^w/2, 256^w/2) when signed |
| PyRoundTrip.PyTextChars | fluctus-interface-scripts/python/fluctusEncode.py:35 | the f-string text of an int or None is non-empty and holds no '\|', 's' or 'r' |
| PyRoundTrip.AlnumRunOver | fluctus-interface-scripts/python/fluctusDecoder.py:11 | the alphanumeric run over hex digits ends exactly where they end |
| PyRoundTrip.DiagnosticsOfReading | fluctus-interface-scripts/python/fluctusEncode.py:35 | the diagnostics text the encoder writes passes the guard's pattern exactly when rssi is a number |
| PyRoundTrip.DiagnosticsOfNumber | fluctus-interface-scripts/python/fluctusDecoder.py:11 | "Grssi", a decimal integer and "/Gsnr" pass the diagnostics pattern |
| PyRoundTrip.DiagnosticsOfNone | fluctus-interface-scripts/python/fluctusDecoder.py:11 | "GrssiNone/Gsnr" fails the diagnostics pattern |
| PyRoundTrip.GuardOfLine | fluctus-interface-scripts/python/fluctusDecoder.py:11 | "FB", hex digits, '\|' and a text pass the guard exactly when the text passes the diagnostics pattern |
| PyRoundTrip.SplitOfLine | fluctus-interface-scripts/python/fluctusDecoder.py:13 | such a line with no further '\|' splits into the hex part and the text |
| PyRoundTrip.PyDecodeOfEncoded | fluctus-interface-scripts/python/fluctusDecoder.py:10-116 | a line the encoder writes for a reading with an rssi passes the guard and decodes as its frame's payload |
| PyRoundTrip.PyRssiNoneDropped | fluctus-interface-scripts/python/fluctusDecoder.py:11 | a reading without rssi is encoded as "GrssiNone", which the guard rejects: the decoder returns None |
| PyRoundTrip.PyFieldBack | fluctus-interface-scripts/python/fluctusDecoder.py:66-68 | a field written little-endian at its width and signedness reads back exactly |
| PyRoundTrip.LeadingFieldsBack | fluctus-interface-scripts/python/fluctusDecoder.py:91-100 | uid, fw, rx, timeMPU, altitude, speedVert, accel and angle read back from the frame |
| PyRoundTrip.TrailingFieldsBack | fluctus-interface-scripts/python/fluctusDecoder.py:101-112 | battVoltage, time, logStatus, gpsLat, gpsLng, gpsState and warnCode read back from the frame |
| PyRoundTrip.PyByteBack | fluctus-interface-scripts/python/fluctusDecoder.py:28-42 | a one-byte field parsed with `int(_, 16)` is the byte written |
| PyRoundTrip.StatusPyroBack | fluctus-interface-scripts/python/fluctusDecoder.py:28-42 | the status and pyro bytes parse back to the codes written |
| PyRoundTrip.MessageFrameBack | fluctus-interface-scripts/python/fluctusDecoder.py:71-83 | the message read back: the kind of the type byte, the 24-bit value negated on bit 23, and raw as type + 256 * value |
| PyRoundTrip.BigEndianBack | fluctus-interface-scripts/python/fluctusDecoder.py:87-89 | joined pairs parsed with `int(_, 16)` give the big-endian value of the bytes |
| PyRoundTrip.UserInsBack | fluctus-interface-scripts/python/fluctusDecoder.py:85-89 | the user inputs read back as the big-endian reading of the little-endian bytes written, None when no tail was written |
| PyRoundTrip.PayloadBack | fluctus-interface-scripts/python/fluctusDecoder.py:91-116 | every key of the dictionary built from a frame the encoder wrote, in terms of the fields written |
| PyRoundTrip.PyRssiBack | fluctus-interface-scripts/python/fluctusDecoder.py:114 | the rssi search finds the decimal text of the rssi written |
| PyRoundTrip.PySnrBack | fluctus-interface-scripts/python/fluctusDecoder.py:115 | the snr search finds the decimal text of the snr written, and nothing for "snrNone" |
| PyRoundTrip.SnrNone | fluctus-interface-scripts/python/fluctusDecoder.py:115 | "snrNone" holds no snr match |
| PyRoundTrip.PyRoundTrip | fluctus-interface-scripts/python/fluctusEncode.py:3-37 | encoding then decoding gives back every integer field, status and pyro codes with their names, the truncated scaled values, the message, the big-endian user inputs and the rssi and snr text |
| PyRoundTrip.PySnrNoneRaises | fluctus-interface-scripts/python/fluctusDecoder.py:115 | a reading with rssi but no snr passes the guard, and `.group(1)` raises AttributeError |
| PyRoundTrip.TruncBack | fluctus-interface-scripts/python/fluctusEncode.py:94-109 | a truncated scaled integer read back over its scale is within one step of the value |
| PyRoundTrip.PyScaledAccuracy | fluctus-interface-scripts/python/fluctusEncode.py:94-109 | each scaled quantity decoded lies within one step of the value sent, inside the tolerances the encoder's round-trip asserts allow |
| FlutusDecoder.ReversedInt | flutus-interface-scripts/python/fluctusDecoder.py:26-37 | `int("".join(arr[::-1]), 16)` fails only with ValueError, and always on no pairs |
| FlutusDecoder.DecodeInt | flutus-interface-scripts/python/fluctusDecoder.py:61-66 | the flutus `decodeInt` fails only with ValueError |
| FlutusDecoder.ReadField | flutus-interface-scripts/python/fluctusDecoder.py:91-107 | a field read fails only with ValueError |
| FlutusDecoder.MessageOf | flutus-interface-scripts/python/fluctusDecoder.py:69-80 | no pair 34 raises IndexError; a type pair with no value pairs raises ValueError |
| FlutusDecoder.UserInsLE | flutus-interface-scripts/python/fluctusDecoder.py:82-86 | both None for at most 38 pairs; 39 to 42 pairs raise |
| FlutusDecoder.DecodeMessage | flutus-interface-scripts/python/fluctusDecoder.py:69-80 | the statements compute MessageOf |
| FlutusDecoder.DecodeUserIns | flutus-interface-scripts/python/fluctusDecoder.py:82-86 | the statements compute UserInsLE |
| FlutusDecoder.DecodeFluctusData | flutus-interface-scripts/python/fluctusDecoder.py:10-113 | the statements compute FlutusDecode: ValueError unless the split gives two parts, IndexError without a packet type, None for a type other than b or B, otherwise the payload |
| RootDecoder.DecodeFluctusData | fluctusDecoder.py:10-105 | the statements compute RootDecode, the same steps with every field read unsigned |
| LeRoundTrip.ReversedIntOfBytes | flutus-interface-scripts/python/fluctusDecoder.py:26 | the pairs of some bytes, reversed, joined and parsed, are their little-endian value |
| LeRoundTrip.WrappedAt | fluctusDecoder.py:83-99 | a field written at bytes lo..hi is read back modulo 2^(8 * width) |
| LeRoundTrip.UnsignedAt | fluctusDecoder.py:83-99 | an unsigned field that fits is read back as written |
| LeRoundTrip.LeadingReads | fluctusDecoder.py:83-91 | the fields before the pyro byte read from any frame: unsigned ones exactly, signed ones modulo their width |
| LeRoundTrip.TrailingReads | fluctusDecoder.py:92-99 | the fields from battVoltage on: coordinates modulo 2^32, the rest exactly |
| LeRoundTrip.MessageReads | flutus-interface-scripts/python/fluctusDecoder.py:69-80 | the message of a frame: the type byte and the 24-bit value read little-endian, negated on bit 23 |
| LeRoundTrip.TypePair | flutus-interface-scripts/python/fluctusDecoder.py:69 | pair 34 alone, reversed and joined, is pair 34 |
| LeRoundTrip.MessageOfParts | flutus-interface-scripts/python/fluctusDecoder.py:69-80 | the message from its two reads |
| LeRoundTrip.UserInsReads | flutus-interface-scripts/python/fluctusDecoder.py:82-86 | the user inputs of a frame come back as written, or both None when none were written |
| LeRoundTrip.NarrowNotNegated | flutus-interface-scripts/python/fluctusDecoder.py:63-64 | a value below 2^16 has no bit 23 and is never negated |
| LeRoundTrip.FlutusLeadingFields | flutus-interface-scripts/python/fluctusDecoder.py:91-99 | uid, fw and rx come back modulo their width and never negative; altitude modulo 2^24 and negated on bit 23 |
| LeRoundTrip.ReadFieldOf | flutus-interface-scripts/python/fluctusDecoder.py:61-66 | `decodeInt` is the reversed read, negated on bit 23 when signed |
| LeRoundTrip.NarrowField | flutus-interface-scripts/python/fluctusDecoder.py:91-93 | a signed read narrower than 2^16 equals its unsigned read |
| LeRoundTrip.FlutusTrailingFields | flutus-interface-scripts/python/fluctusDecoder.py:100-107 | the fields after the pyro byte, all unsigned: coordinates modulo 2^32, the rest as written |
| LeRoundTrip.FlutusPayloadBack | flutus-interface-scripts/python/fluctusDecoder.py:88-113 | the flutus payload of any frame, field by field, in terms of the fields written |
| LeRoundTrip.RootPayloadBack | fluctusDecoder.py:80-105 | the root payload of any frame, field by field, in terms of the fields written |
| LeRoundTrip.SplitOfFlutusLine | flutus-interface-scripts/javascript/fluctusEncoder.js:24-53 | the flutus encoder's line splits at its one '\|' into "FB" with the frame's hex and the diagnostics |
| LeRoundTrip.FlutusDecodeOfEncoded | flutus-interface-scripts/python/fluctusDecoder.py:10-113 | a line the flutus encoder writes decodes as its frame's payload |
| LeRoundTrip.RootDecodeOfEncoded | fluctusDecoder.py:10-105 | the same line through the root decoder |
| LeRoundTrip.DiagnosticsBack | flutus-interface-scripts/python/fluctusDecoder.py:111-112 | the rssi and snr searches find the decimal text written, and nothing for a null |
| LeRoundTrip.FlutusRoundTrip | flutus-interface-scripts/python/fluctusDecoder.py:10-113 | flutus encoder then flutus decoder: unsigned fields, names, message, user inputs and diagnostics come back; uid, fw, rx modulo their width, altitude modulo 2^24 negated on bit 23, coordinates modulo 2^32, time over 1000 |
| LeRoundTrip.RootRoundTrip | fluctusDecoder.py:10-105 | flutus encoder then root decoder: as above, with altitude modulo 2^24 and no sign handling |
| LeFindings.FlutusSignsAsWritten | flutus-interface-scripts/python/fluctusDecoder.py:91-105 | as written: uid, fw, rx, altitude -1 and coordinates -1.0 come back as 65535, 65535, 255, -16777215 and 4294.967296 - 1 |
| LeFindings.RootSignsAsWritten | fluctusDecoder.py:83-88 | as written: the same reading comes back from the root decoder as 65535, 65535, 255 and 16777215 |
| LeFindings.NegativeOneWraps | flutus-interface-scripts/python/fluctusDecoder.py:63-64 | -1 modulo each width, and the 24-bit one negated on bit 23 |
| LeFindings.TwosComplementAt | flutus-interface-scripts/javascript/fluctusEncoder.js:6-16 | corrected: a signed field read in two's complement at its width is the value written |
| LeFindings.TwosComplementBack | flutus-interface-scripts/javascript/fluctusEncoder.js:26-40 | corrected: every field the encoder writes signed comes back as sent |
| LeFindings.TimeAsWritten | flutus-interface-scripts/python/fluctusDecoder.py:101 | as written: a time of 1.0 s is sent as 10 and read back as 10 / 1000 = 0.01 by both decoders |
| LeFindings.TenthsAccuracy | flutus-interface-scripts/javascript/fluctusEncoder.js:36 | corrected: a time truncated to tenths and read over 10 is within 0.1 s of the time sent |
| LeFindings.IntendedTimeOfFrame | flutus-interface-scripts/javascript/fluctusEncoder.js:36 | corrected: the time of every frame read over 10 is the tenths written, over 10 |
| NodeFindings.TwoPowers | fluctus-interface-scripts/javascript/fluctusDecoder.js:76-82 | the powers of two the 24- and 32-bit reads use |
| NodeFindings.Bit23OfValue | fluctus-interface-scripts/javascript/fluctusDecoder.js:90 | for a 24-bit value, `& 0x800000` is set exactly from 2^23 up |
| NodeFindings.SignExtendedMessage | web-interface/src/lib/parser.js:49-63 | corrected: a 24-bit value read in two's complement lies in [-2^23, 2^23) and is the value or the value minus 2^24 |
| NodeFindings.SignExtendedRoundTrip | fluctus-interface-scripts/javascript/fluctusEncoder.js:46 | corrected: sign extension inverts `message & 0x00FFFFFF` for every value that fits 24 signed bits |
| NodeFindings.NegationAgreesOnlyAtMidpoint | fluctus-interface-scripts/javascript/fluctusDecoder.js:90 | negation and sign extension agree on a 24-bit value exactly when bit 23 is clear or the value is 0x800000 |
| NodeFindings.MessageValueNegated | fluctus-interface-scripts/javascript/fluctusDecoder.js:89-90 | as written: a message value 0xFFFFFF (-1 in 24 bits) comes back as -16777215 |
| NodeFindings.IntendedRaw | fluctus-interface-scripts/javascript/fluctusEncoder.js:45-46 | corrected: the type byte on top of the 24-bit value, read as a 32-bit integer |
| NodeFindings.IntendedRawRoundTrip | fluctus-interface-scripts/javascript/fluctusEncoder.js:45-46 | corrected: `message >> 24` and `message & 0x00FFFFFF` put back this way give the message, for every message the frame carries |
| NodeFindings.MessageRawMismatch | fluctus-interface-scripts/javascript/fluctusDecoder.js:99 | as written: the message 1 is sent as type 0 and value 1, and `raw` reads 256 |
| NodeFindings.MessageOneSplit | fluctus-interface-scripts/javascript/fluctusEncoder.js:45-46 | the message 1 splits into type byte 0 and value 1 |
| NodeFindings.DecodedRaw | fluctus-interface-scripts/javascript/fluctusDecoder.js:99 | the decoded raw of an encoded line |
| NodeFindings.PyroShiftedRoundTrip | web-interface/src/lib/parser.js:167-179 | corrected: masked and shifted channels give back each channel's packed state |
| NodeFindings.PyroContinuityLost | fluctus-interface-scripts/javascript/fluctusDecoder.js:38 | as written: a pyro byte 4 (channel B in continuity) is named "Error"; the shifted reading names it "Continuity" |
| NodeFindings.PyroFour | fluctus-interface-scripts/javascript/fluctusDecoder.js:52-54 | channel B in continuity alone: "Error" unshifted, "Continuity" shifted |
| NodeFindings.DecodedPyro | fluctus-interface-scripts/javascript/fluctusDecoder.js:36-58 | the decoded pyro states of an encoded line |
| NodeFindings.UnsignedRead | fluctus-interface-scripts/javascript/fluctusDecoder.js:118 | corrected: the 4-byte read made unsigned lies in [0, 2^32) |
| NodeFindings.UnsignedReadOfBytes | fluctus-interface-scripts/javascript/fluctusDecoder.js:118 | corrected: the unsigned read gives the little-endian value of any four bytes |
| NodeFindings.TimeMpuWraps | fluctus-interface-scripts/javascript/fluctusDecoder.js:73 | as written: a timeMPU of 2^31 ms is sent unsigned and comes back as -2^31 |
| PyFindings.OneBigEndian | fluctus-interface-scripts/python/fluctusDecoder.py:88 | the user input 1, written little-endian and read big-endian, is 2^24 |
| PyFindings.UserInByteOrder | fluctus-interface-scripts/python/fluctusDecoder.py:88-89 | as written: a user input 1 comes back as 16777216 |
| PyFindings.RawAsSent | fluctus-interface-scripts/python/fluctusDecoder.py:82 | corrected raw: IndexError when there is no type byte |
| PyFindings.RawAsSentBack | fluctus-interface-scripts/python/fluctusEncode.py:29-30 | corrected: the raw message read with the type byte on top is the message sent, for every reading |
| PyFindings.FrameRawAsSent | fluctus-interface-scripts/python/fluctusDecoder.py:82 | the corrected raw of a frame is the type byte on top of the value |
| PyFindings.RawAsSentOfParts | fluctus-interface-scripts/python/fluctusDecoder.py:82 | the corrected raw from its two reads |
| PyFindings.MessageRawMismatch | fluctus-interface-scripts/python/fluctusDecoder.py:82 | as written: the message 1 comes back with raw 256 |
| PyFindings.UserInsLittleEndianBack | fluctus-interface-scripts/python/fluctusEncode.py:31-33 | corrected: the user inputs of every frame the encoder writes, read little-endian, come back as sent, and both None without a tail |
| BrowserParser.StatusString | web-interface/src/lib/parser.js:159-165 | a code is named exactly when it is 0 to 6, and then by its entry; every other code reads "UNKNOWN" |
| BrowserParser.PyroLabel | web-interface/src/lib/parser.js:168-173 | a channel value is named exactly when it is 0, 1 or 3 |
| BrowserParser.Uint8Of | web-interface/src/lib/parser.js:30-33 | what a Uint8Array stores is always a byte |
| BrowserParser.PairByte | web-interface/src/lib/parser.js:32 | `parseInt` of a chunk, stored in the array, is a byte |
| BrowserParser.HexBytes | web-interface/src/lib/parser.js:30-33 | the array has floor(length / 2) slots |
| BrowserParser.HexBytesAreBytes | web-interface/src/lib/parser.js:30-33 | every slot holds a byte |
| BrowserParser.Or24 | web-interface/src/lib/parser.js:57 | `b0 \| (b1 << 8) \| (b2 << 16)` is the little-endian value of the three bytes, below 2^24 |
| BrowserParser.SignExtension | web-interface/src/lib/parser.js:59-61 | the bit-23 test and `val \|= 0xFF000000` read the 24-bit value as three signed bytes |
| BrowserParser.Int24 | web-interface/src/lib/parser.js:49-63 | the combine and sign-extend statements give the signed little-endian value of the three bytes |
| BrowserParser.GetUint8 | web-interface/src/lib/parser.js:52-54 | `getUint8` gives the byte at the position, or RangeError exactly past the end |
| BrowserParser.ReadI8 | web-interface/src/lib/parser.js:43 | `readI8` succeeds exactly when a byte remains, reads it signed and advances by 1; RangeError otherwise |
| BrowserParser.ReadU8 | web-interface/src/lib/parser.js:44 | `readU8` succeeds exactly when a byte remains, reads it unsigned and advances by 1 |
| BrowserParser.ReadI16 | web-interface/src/lib/parser.js:45 | `readI16` succeeds exactly when two bytes remain, reads them signed little-endian and advances by 2 |
| BrowserParser.ReadI32 | web-interface/src/lib/parser.js:46 | `readI32` succeeds exactly when four bytes remain, reads them signed little-endian and advances by 4 |
| BrowserParser.ReadI24 | web-interface/src/lib/parser.js:49-63 | `readI24` succeeds exactly when three bytes remain and reads them as a signed little-endian value |
| BrowserParser.ReadMessage | web-interface/src/lib/parser.js:123-134 | the message block succeeds exactly when four bytes remain and reads the type character and the signed 24-bit value |
| BrowserParser.Half | web-interface/src/lib/parser.js:32 | an even index halves exactly |
| BrowserParser.ChunkAt | web-interface/src/lib/parser.js:32 | the chunk at position i goes to slot i / 2 |
| BrowserParser.HexToBytes | web-interface/src/lib/parser.js:30-33 | the loop fills a fresh array with exactly the bytes of the cleaned hex, an odd last digit dropped |
| BrowserParser.ReadFields | web-interface/src/lib/parser.js:38-156 | the reads fail with RangeError exactly when there are fewer than 38 bytes, and otherwise give every field at its fixed offset |
| BrowserParser.ParseTelemetry | web-interface/src/lib/parser.js:6-157 | the statements compute ParseLine: other without the header, error when the bytes run out, telemetry otherwise |
| ParserProperties.HeaderAlwaysStripped | web-interface/src/lib/parser.js:19-27 | a header spelt "FB" or "F B" is always removed: the bytes come from what follows it |
| ParserProperties.ParseLineOutcome | web-interface/src/lib/parser.js:6-157 | raw is always the trimmed line; other exactly without a header; error exactly when fewer than 76 hex characters follow "FB"; user inputs set exactly when at least 84 follow |
| ParserProperties.HexBytesOfHex | web-interface/src/lib/parser.js:30-33 | the hex of any bytes becomes those bytes again |
| ParserProperties.PairByteOfByteHex | web-interface/src/lib/parser.js:32 | the two hex digits of a byte are stored as that byte |
| ParserProperties.PairByteOfNumber | web-interface/src/lib/parser.js:32 | a chunk that parses to a byte value is stored as it |
| ParserProperties.OddNibbleDropped | web-interface/src/lib/parser.js:30 | an odd trailing digit is lost |
| ParserProperties.PairByteNoDigit | web-interface/src/lib/parser.js:32 | a chunk with no leading hex digit is stored as 0 (NaN) |
| ParserProperties.PairByteOneDigit | web-interface/src/lib/parser.js:32 | a chunk whose second character is not a hex digit is stored as its first digit's value |
| ParserProperties.PairByteNegated | web-interface/src/lib/parser.js:32 | "-" and a hex digit is stored as the low byte of the negated digit |
| ParserProperties.StatusOfByte | web-interface/src/lib/parser.js:82-84 | a status byte read signed is named exactly when below 7; bytes 0x80 and up read "UNKNOWN" |
| ParserProperties.DecodePyroOfByte | web-interface/src/lib/parser.js:105-106 | the pyro byte read signed names A, B and C from bits 0-1, 2-3 and 4-5 |
| ParserProperties.LowTwoBits | web-interface/src/lib/parser.js:175-177 | the low two bits survive a shift by a multiple of 4 |
| ParserProperties.JsTextEnd | fluctus-interface-scripts/javascript/fluctusEncoder.js:53 | the rendering of a number or null ends in a non-space |
| ParserProperties.CutAfter | web-interface/src/lib/parser.js:9-16 | a line is cut at its first '\|' |
| ParserProperties.PlainPayload | web-interface/src/lib/parser.js:24 | "FB" and hex digits hold no white space and no '\|' |
| ParserProperties.NodeLineCut | web-interface/src/lib/parser.js:8-16 | the Node encoder's line is already trimmed and is cut right after the payload hex |
| ParserProperties.CleanPayload | web-interface/src/lib/parser.js:19-27 | "FB" and hex digits pass the header test and clean to the hex |
| ParserProperties.NodeLineParsed | web-interface/src/lib/parser.js:6-157 | a line the Node encoder wrote parses as telemetry with its diagnostics and the fields of its frame |
| ParserProperties.ReadBackUnsigned | web-interface/src/lib/parser.js:43-46 | a field written unsigned is read back as its two's-complement reinterpretation |
| ParserProperties.ReadBackSigned | web-interface/src/lib/parser.js:43-46 | a field written signed is read back exactly |
| ParserProperties.SignedFieldsBack | web-interface/src/lib/parser.js:69-115 | uid, fw, the packet count, altitude and coordinates come back exactly |
| ParserProperties.WrappedFieldsBack | web-interface/src/lib/parser.js:78-121 | timeMPU, status, speedVert, accel, battVoltage, flight time, logStatus, gpsState and warnCode come back reinterpreted as signed |
| ParserProperties.NamedFieldsBack | web-interface/src/lib/parser.js:81-142 | status named only below 7, angle as written, pyro channels from their bits, message type and sign-extended value, stats exactly for 'A' |
| ParserProperties.TailAsWritten | web-interface/src/lib/parser.js:146-149 | as written: the parser reads two 16-bit values at 38 and 40 where the encoder wrote 32 bits at 38 and 16 at 42 |
| ParserProperties.TailMixUp | web-interface/src/lib/parser.js:146-149 | as written: userIn1 0x10000 and userIn2 5 show as 0 and 1 |
| ParserProperties.IntendedUserIns | fluctus-interface-scripts/javascript/fluctusEncoder.js:48-51 | corrected: both user inputs are present exactly when all 44 bytes are there |
| ParserProperties.IntendedUserInsBack | fluctus-interface-scripts/javascript/fluctusEncoder.js:48-51 | corrected: the user inputs of any frame come back exactly |
| JsInt32.ToUint32 | fluctus-interface-scripts/javascript/fluctusDecoder.js:73 | ECMAScript ToUint32: the result is the 32-bit unsigned value congruent to the input |
| JsInt32.ToInt32 | fluctus-interface-scripts/javascript/fluctusDecoder.js:73 | ECMAScript ToInt32: a value in [-2^31, 2^31) congruent to the input modulo 2^32 |
| JsInt32.ShiftByte | fluctus-interface-scripts/javascript/fluctusDecoder.js:73 | `b << 8*i` of a byte is the byte's weight wrapped to 32 bits, and unsigned it is exactly b * 256^i |
| JsInt32.AccumulateByte | fluctus-interface-scripts/javascript/fluctusDecoder.js:72-74 | one step of `value \|= bytes[i] << (8 * i)` over non-overlapping bytes adds the byte's weight, wrapped to 32 bits |
| JsInt32.SignExtend24 | web-interface/src/lib/parser.js:49-63 | OR-ing 0xFF000000 into a 24-bit value with its top bit set is subtracting 2^24 |
| JsInt32.ShiftMaskByte | fluctus-interface-scripts/javascript/fluctusEncoder.js:22 | `(value >> 8*i) & 0xFF` is the i-th little-endian byte of value |
| Hex.ByteHex | fluctus-interface-scripts/javascript/fluctusEncoder.js:22 | a byte's two upper-case hex digits are hex digits whose value is the byte |
| Hex.ToHex | fluctus-interface-scripts/python/fluctusEncode.py:10 | the hex text of a byte sequence has two hex digits per byte |
| Hex.Pairs | fluctus-interface-scripts/javascript/fluctusDecoder.js:15-19 | one two-character slice per index below half the length, the i-th being characters 2i and 2i+1 |
| Hex.SplitPairs | fluctus-interface-scripts/javascript/fluctusDecoder.js:15-19 | the pair loop builds exactly those slices (loop invariant: the first `index` of them) |
| Hex.PairsOfHex | fluctus-interface-scripts/python/fluctusDecoder.py:21-24 | cutting the hex text of bytes into pairs gives each byte's two digits |
| Hex.HexValueOfToHex | fluctus-interface-scripts/python/fluctusDecoder.py:66-68 | the hex text of bytes, read as a number, is the big-endian value of those bytes |
| Hex.HexValueOfReversed | fluctus-interface-scripts/javascript/fluctusDecoder.js:67-68 | the hex text of the reversed bytes, read as a number, is their little-endian value |
| Hex.ByteHexValue | fluctus-interface-scripts/javascript/fluctusDecoder.js:64 | `parseInt(pair, 16)` and Python's `int(pair, 16)` of a byte's two digits give the byte back |
| Hex.ParseIntHexOfDigits | fluctus-interface-scripts/javascript/fluctusDecoder.js:64 | `parseInt(s, 16)` of plain hex digits is their value |
| Hex.PyIntHex | flutus-interface-scripts/python/fluctusDecoder.py:62 | Python `int(s, 16)` fails on the empty string |
| Hex.PyIntHexOfDigits | flutus-interface-scripts/python/fluctusDecoder.py:62 | Python `int(s, 16)` of plain hex digits is their value |
| Hex.FromHex | fluctus-interface-scripts/python/fluctusDecoder.py:67 | `bytes.fromhex` succeeds exactly on an even number of hex digits and gives half as many bytes |
| Hex.FromHexToHex | fluctus-interface-scripts/python/fluctusDecoder.py:67 | `bytes.fromhex` undoes `.hex()` |
| ByteCodec.WriteLE | fluctus-interface-scripts/python/fluctusEncode.py:10 | `to_bytes(w, 'little')` gives w bytes |
| ByteCodec.WriteLEAt | fluctus-interface-scripts/javascript/fluctusEncoder.js:21-23 | the k-th byte written is `(v >> 8k) & 0xFF` |
| ByteCodec.ReadWriteLE | fluctus-interface-scripts/python/fluctusDecoder.py:66-68 | reading back w little-endian bytes gives the value modulo 256^w |
| ByteCodec.WriteReadLE | fluctus-interface-scripts/python/fluctusEncode.py:10 | writing the value of w bytes gives those bytes back |
| ByteCodec.UnsignedRoundTrip | fluctus-interface-scripts/python/fluctusDecoder.py:66-68 | an unsigned value that fits in w bytes survives `to_bytes` then `from_bytes` |
| ByteCodec.SignedRoundTrip | fluctus-interface-scripts/python/fluctusDecoder.py:66-68 | a signed value that fits in w bytes survives `to_bytes(signed=True)` then `from_bytes(signed=True)` |
| Text.TrimStartJs | web-interface/src/lib/parser.js:8 | the result is no longer than the input and does not start with JavaScript white space |
| Text.TrimEndJs | web-interface/src/lib/parser.js:8 | the result is a prefix of the input that does not end with JavaScript white space |
| Text.TrimJsTwice | web-interface/src/hooks/useSerial.js:89-90 | `trim()` is idempotent |
| Text.TrimPy | fluctus-interface-scripts/python/communication.py:25 | `strip()` gives a string no longer than the input that neither starts nor ends with Python white space |
| Text.RemoveJsWhite | web-interface/src/lib/parser.js:24 | `replace(/\s/g, '')` leaves no white space and never lengthens the text |
| Text.RemoveJsWhiteAppend | web-interface/src/lib/parser.js:24 | removing white space distributes over concatenation |
| Text.IndexOf | fluctus-interface-scripts/javascript/fluctusDecoder.js:7 | the index is -1 or a position holding the character |
| Text.IndexOfFirst | fluctus-interface-scripts/javascript/fluctusDecoder.js:7 | -1 exactly when the character is absent, otherwise its first occurrence |
| Text.Split | fluctus-interface-scripts/javascript/fluctusDecoder.js:7 | `split` always gives at least one piece |
| Text.SplitJoin | fluctus-interface-scripts/javascript/fluctusDecoder.js:7 | joining the pieces with the separator gives the string back |
| Text.SplitPiecesPlain | fluctus-interface-scripts/javascript/fluctusDecoder.js:7 | no piece holds the separator |
| Text.SplitPieces | fluctus-interface-scripts/python/fluctusDecoder.py:13 | more than one piece exactly when the separator occurs |
| Text.SplitTwo | fluctus-interface-scripts/python/fluctusDecoder.py:13 | two separator-free strings joined by the separator split back into exactly those two |
| Text.SplitAppend | web-interface/src/hooks/useSerial.js:72-73 | the pieces of s + t are the pieces of s before its last one, then the pieces of that last one + t |
| Text.Slice | fluctus-interface-scripts/python/fluctusDecoder.py:21 | Python's and JavaScript's clamping slice has the clamped length |
| Text.NatToDecimal | fluctus-interface-scripts/python/communication.py:18 | `str(n)` of a natural number is a non-empty run of digits |
| Text.IntToDecimal | fluctus-interface-scripts/python/fluctusEncode.py:35 | `str(i)` is digits, after a '-' exactly when i is negative |
| Text.DigitRun | fluctus-interface-scripts/python/fluctusDecoder.py:11 | the greedy `\d+` run: all digits, and the next character is not one |
| Text.SearchTagged | fluctus-interface-scripts/python/fluctusDecoder.py:114-115 | a match of `tag([-+]?\d+)` yields a non-empty group |
| Text.SearchSkips | fluctus-interface-scripts/python/fluctusDecoder.py:114-115 | a search skips a prefix in which the pattern matches nowhere |
| Text.SearchNone | fluctus-interface-scripts/python/fluctusDecoder.py:114-115 | a search where the pattern matches nowhere finds nothing |
| Text.TaggedDecimal | fluctus-interface-scripts/python/fluctusDecoder.py:114-115 | the tag followed by `str(n)` and a non-digit is found with group `str(n)` |
| SerialLines.Reassemble | web-interface/src/hooks/useSerial.js:71-79 | `bufferData` on a buffer hands on one line fewer than the pieces of buffer + chunk |
| SerialLines.ReassembleLines | web-interface/src/hooks/useSerial.js:71-79 | neither the emitted lines nor the kept buffer hold a newline |
| SerialLines.ReassembleKeepsText | web-interface/src/hooks/useSerial.js:71-79 | nothing is lost or reordered: buffer + chunk is the lines, each with its newline, then the new buffer |
| SerialLines.QuietChunk | web-interface/src/hooks/useSerial.js:71-79 | a chunk without a newline emits nothing and is only appended to the buffer |
| SerialLines.ChunkingIrrelevant | web-interface/src/hooks/useSerial.js:71-79 | two chunks in two calls emit the same lines and leave the same buffer as their concatenation in one call |
| SerialLines.Broadcast | web-interface/src/hooks/useSerial.js:96-103 | an emission happens exactly when the guard is open and more than 100 ms have passed since the last one, which then moves to now; the log is untouched |
| SerialLines.HandleParsed | web-interface/src/hooks/useSerial.js:81-92 | an error changes nothing, only telemetry reaches the throttle, and the log grows by the `RX:` line of a non-blank `other` line |
| SerialLines.HandleParsedSpaced | web-interface/src/hooks/useSerial.js:96-103 | handling a line keeps emissions more than 100 ms apart with the latest at `lastBroadcast` |
| SerialLines.HandleAllSpaced | web-interface/src/hooks/useSerial.js:71-103 | any batch of lines keeps that spacing |
| SerialLines.HandleAllLogs | web-interface/src/hooks/useSerial.js:81-92 | a batch logs exactly the `RX:` lines of its non-blank `other` lines, in order |
| SerialLines.ClosedNeverEmits | web-interface/src/hooks/useSerial.js:97 | without a socket nothing is ever emitted and `lastBroadcast` stays put |
| SerialLines.EmittedAreTelemetries | web-interface/src/hooks/useSerial.js:81-103 | a batch only appends emissions, and each is one of its telemetry objects |
| SerialLines.Parses | web-interface/src/hooks/useSerial.js:82 | one parse result per line |
| SerialLines.Telemetries | web-interface/src/hooks/useSerial.js:83 | the telemetry objects among the results, no more of them than results |
| SerialLines.BatchStep | web-interface/src/hooks/useSerial.js:74-77 | handling line i extends the batch of lines handled so far by that line |
| SerialHook.Merge | web-interface/src/hooks/useSerial.js:85 | `{...prev, ...data}`: every key of the new object wins, and `stats`, `userIn1`, `userIn2`, absent from it, keep the previous frame's values |
| SerialHook.MergeAll | web-interface/src/hooks/useSerial.js:85 | an empty batch leaves the state, any other leaves a telemetry object |
| SerialHook.MergeStep | web-interface/src/hooks/useSerial.js:83-85 | merging one more object extends the batch by it; other lines leave the state as it is |
| SerialHook.MergeAllStats | web-interface/src/hooks/useSerial.js:85 | after any batch the state shows the `stats` of the most recent object that carried them |
| SerialHook.Hook.constructor | web-interface/src/hooks/useSerial.js:15 | empty buffer, `lastBroadcast` 0, no data, nothing emitted, logged or written |
| SerialHook.Hook.BroadcastData | web-interface/src/hooks/useSerial.js:96-103 | the throttle step of SerialLines.Broadcast on the hook's fields, nothing else changed |
| SerialHook.Hook.HandleParsedLine | web-interface/src/hooks/useSerial.js:81-92 | the state is merged with a telemetry object, then HandleParsed on the hook's fields |
| SerialHook.Hook.HandleLine | web-interface/src/hooks/useSerial.js:81-92 | `handleLine(line)` is HandleParsedLine of `parseTelemetry(line)` |
| SerialHook.Hook.BufferData | web-interface/src/hooks/useSerial.js:71-79 | the new buffer is Reassemble's remainder (no newline), the lines are handled in order, and the state is MergeAll of their telemetry objects |
| SerialHook.Hook.SendCommand | web-interface/src/hooks/useSerial.js:105-117 | without a writer only the error is logged; with one `TX: cmd` is logged and `cmd + "\n"` written |
| HostPage.Page.constructor | web-interface/public/app.js:50-57 | empty buffer, `lastBroadcast` 0, nothing shown, emitted, logged or written |
| HostPage.Page.BroadcastData | web-interface/public/app.js:139-149 | the throttle step with `isHost` as the guard, nothing else changed |
| HostPage.Page.HandleParsedLine | web-interface/public/app.js:219-228 | a telemetry object goes to the dashboard and the throttle; a non-blank `other` line is logged |
| HostPage.Page.HandleLine | web-interface/public/app.js:219-228 | `handleLine(line)` is HandleParsedLine of `parseTelemetry(line)` |
| HostPage.Page.BufferData | web-interface/public/app.js:208-217 | the new buffer is Reassemble's remainder, and the dashboard receives exactly the batch's telemetry objects in order |
| HostPage.Page.SendCommand | web-interface/public/app.js:230-241 | a non-host only logs the refusal; a host without writer logs the error; a host with one logs `TX: cmd` and writes `cmd + "\n"` |
| HostPage.Page.StartClicked | web-interface/public/app.js:382-388 | a host with a writer writes `start` + band + the channel padded to two characters + `Fluctus` and a newline; otherwise nothing is written; the log gains `TX: ` and that command, or the non-host or not-connected error, exactly as sendCommand logs it |
| RadioCommands.PadTwoDigits | fluctus-interface-scripts/python/communication.py:18 | `{channel:02}` of a channel below 100 is two digits whose value is the channel |
| RadioCommands.StartCommandLineCases | fluctus-interface-scripts/python/communication.py:7-18 | the command is built exactly when band is 0 or 1, channel in 0..25 and the name at most 7 long; each failure raises the source's ValueError message, checked in the source's order |
| RadioCommands.Reply | fluctus-interface-scripts/python/communication.py:25 | a serial reply is stripped (no longer, no white space at either end); console input is kept as typed |
| RadioCommands.SendStart | fluctus-interface-scripts/python/communication.py:7-30 | fails exactly as the command validation does; otherwise true exactly when the reply contains `startok` |
| RadioCommands.AcknowledgedAnywhere | fluctus-interface-scripts/python/communication.py:28 | `startok` anywhere in the reply acknowledges |
| RadioCommands.ShortReplyNotAcknowledged | fluctus-interface-scripts/python/communication.py:28 | a reply shorter than seven characters never acknowledges |
| RadioCommands.LowerAsciiString | fluctus-interface-scripts/python/communication.py:46 | `lower()` keeps the length and maps each character |
| RadioCommands.PingCases | fluctus-interface-scripts/python/communication.py:43-52 | the ping succeeds exactly when the (stripped, for serial) reply is `fcpong` in any mix of case, and otherwise raises RuntimeError "No pong received" |
| RadioCommands.PaddedPong | fluctus-interface-scripts/python/communication.py:43-46 | a serial reply ` FCpong\r\n` is a pong, because it is stripped first |
| RadioCommands.ButtonStartAccepted | web-interface/public/app.js:382-388 | the Start button's command for a digit band and a one- or two-digit channel matches the bridge's `start\d\d\d[A-Za-z]{7}` |
| RadioCommands.ShortNameRejectedByBridge | fluctus-interface-scripts/fluctus.py:34 | as written: `sendStart(1, 5, "Rocket")` builds `start105Rocket`, which the bridge's pattern rejects |
| RadioCommands.BridgeStartAccepted | fluctus-interface-scripts/fluctus.py:34 | corrected: a start command whose name is exactly seven letters is what sendStart builds and the bridge accepts |

## Left out

- Serial, MQTT and socket I/O are not modelled: `connectSerial` and `readLoop` (useSerial.js, app.js), useMQTT.js, server.js, and the MQTT bridges fluctus.py and ptrTracker.py. The bridge's start-command pattern is modelled as `RadioCommands.BridgeAccepts`, because a finding depends on it.
- The React and DOM views are not modelled (widgets, dashboard layout, map, modal, `updateDashboard` rendering); the page model records each telemetry object `updateDashboard` receives in `dashboard`, and the hook model keeps the merged state `setData` holds.
- CSV drivers, replay and simulation are not modelled: `processCSV`, the CSV loop of fluctusEncode.py, useDataReplay.js, useSimulation.js and `startSimulation`. They are file I/O, timers and float parsing around the encoders that are modelled.
- The serial and console I/O of communication.py (`ser.write`, `ser.readline`, `input`, `print`) and its two example calls at load time are not modelled; the reply is a parameter.
- Log time stamps (`toLocaleTimeString`) are not modelled; a log entry is its text and level.
- PyDecoder.PyInt: Python's `int(s, 16)` also accepts single underscores between digits (a join of pairs such as `1_` and `23`) and non-ASCII decimal digits; the model takes ASCII hex digits only, so FlutusDecoder.FlutusDecode and RootDecoder.RootDecode reject such a payload where Python would read a number. White space around the argument is modelled, with Python's own `isspace()` set.
- FlutusDecoder.FlutusDecode: does not model Python's underscore and non-ASCII-digit forms of `int(_, 16)`, as above.
- RootDecoder.RootDecode: does not model Python's underscore and non-ASCII-digit forms of `int(_, 16)`, as above.
- PyDecoder.PyDecode: Python's `\d` in the guard `FB[a-zA-Z0-9]*\|Grssi-?\d*/Gsnr-?\d*` also matches non-ASCII decimal digits; the model's scanner takes ASCII 0-9 only, so it returns None on such a line where Python goes on decoding.
- Text.SearchTagged: the rssi/snr search `tag([-+]?\d+)` takes ASCII digits only; Python's `\d` would also take other decimal digits.
- RadioCommands.BridgeAccepts: the bridge's `start\d\d\d[A-Za-z]{7}` is modelled with ASCII digits only.
- NodeDecoder.NodeDecode: JavaScript strings are UTF-16 code units; the model indexes characters, so it differs from the source on a line holding characters outside the Basic Multilingual Plane (which split into two units there).
- BrowserParser.ParseLine: indexes characters rather than UTF-16 code units, as above.
- BrowserParser.ParseLine: on an exception the source returns `{ type: 'error', error: e.message, raw: line }` and calls `console.error`; the model returns the error variant with the raw line but neither the message text nor the console output.
- NodeEncoder.DataToEncodedString: the source tests `userIn1 !== null && userIn2 !== null`; the model's `None` stands for `null` only, so an `undefined` user input (which JavaScript would write as zeros) is not modelled.
- FlutusEncoder.DataToEncodedString: the same `!== null` test; `undefined` is not modelled.
- PyEncoder.PyFields: scaled inputs (acceleration, voltage, time, coordinates) are exact reals multiplied and truncated; IEEE doubles can land one step lower (1.005 * 1000 is 1004.999... in binary floating point, so `int()` gives 1004 where the model gives 1005).
- NodeEncoder.NodeFields: exact reals instead of doubles, as above.
- FlutusEncoder.FlutusFields: exact reals instead of doubles, as above.
- SerialHook.Hook: `hasSocket` and `hasWriter` are fixed when the object is made; in the source the socket context and `writerRef` change when the port opens or the socket reconnects. Each method is proved for either value, so a run with changes is a sequence of such objects.
- HostPage.Page: `isHost` and `hasWriter` are fixed when the object is made; app.js sets `isHost` at lines 56, 129, 165 and 255 and `writer` at line 172.
- SerialHook.Hook.SendCommand: a writer whose `write` rejects (the `catch` that logs `TX Error:` and calls `console.error`) is not modelled; the write always succeeds.
- HostPage.Page.SendCommand: a rejecting `writer.write` (which app.js does not catch) is not modelled.
- RadioCommands.Ping: the success value is `()`; the elapsed time `pingTime` is clock arithmetic and is not modelled.
- RadioCommands.SendStart: the `print(command)` and the write of the command to the port are not modelled; the function gives the decision the source returns.

## Findings

| source | as written | input that shows it | evidently intended | confidence | as-written member | corrected member |
|---|---|---|---|---|---|---|
| fluctus-interface-scripts/javascript/fluctusDecoder.js:90 | a 24-bit message value with bit 23 set is negated | the message value 0xFFFFFF (-1 in 24 bits) decodes as -16777215 | two's-complement sign extension, as parser.js does | high, not executed | NodeFindings.MessageValueNegated | NodeFindings.SignExtendedRoundTrip |
| fluctus-interface-scripts/javascript/fluctusDecoder.js:99 | `raw` reads the four message bytes little-endian, putting the type byte at the bottom | the message 1 (type 0, value 1) gives raw 256 | the type byte on top of the 24-bit value, as the encoder splits it | high, not executed | NodeFindings.MessageRawMismatch | NodeFindings.IntendedRawRoundTrip |
| fluctus-interface-scripts/javascript/fluctusDecoder.js:38 | the pyro channels B and C are masked but not shifted down | the pyro byte 4 (channel B in continuity) is read as "Error" | shift each channel to bits 0-1 before the table, as parser.js does | high, not executed | NodeFindings.PyroContinuityLost | NodeFindings.PyroShiftedRoundTrip |
| fluctus-interface-scripts/javascript/fluctusDecoder.js:118 | timeMPU, unsigned 32-bit, is read through JavaScript's signed 32-bit OR | a timeMPU of 2^31 ms decodes as -2^31 | an unsigned read (`>>> 0`) | medium, not executed | NodeFindings.TimeMpuWraps | NodeFindings.UnsignedReadOfBytes |
| fluctus-interface-scripts/python/fluctusDecoder.py:82 | `raw` reads the four message bytes little-endian | the message 1 gives raw 256 | the type byte on top of the 24-bit value | high, not executed | PyFindings.MessageRawMismatch | PyFindings.RawAsSentBack |
| fluctus-interface-scripts/python/fluctusDecoder.py:88-89 | the user inputs are read big-endian where every encoder writes them little-endian | a userIn1 of 1 decodes as 16777216 | little-endian, like every other field | high, not executed | PyFindings.UserInByteOrder | PyFindings.UserInsLittleEndianBack |
| flutus-interface-scripts/python/fluctusDecoder.py:61-66 | signed fields are read by negating the magnitude when bit 23 is set, and 16- and 8-bit fields unsigned | uid -1 decodes as 65535, altitude -1 as -16777215 | two's complement at each field's own width | high, not executed | LeFindings.FlutusSignsAsWritten | LeFindings.TwosComplementBack |
| fluctusDecoder.py:83-88 | signed fields are read unsigned | uid -1 decodes as 65535, altitude -1 as 16777215 | two's complement at each field's own width | high, not executed | LeFindings.RootSignsAsWritten | LeFindings.TwosComplementBack |
| flutus-interface-scripts/python/fluctusDecoder.py:101 | the time, sent in tenths of a second, is divided by 1000 | a time of 1.0 s is sent as 10 and decodes as 0.01 | divide by 10 | high, not executed | LeFindings.TimeAsWritten | LeFindings.IntendedTimeOfFrame |
| web-interface/src/lib/parser.js:146-149 | the user inputs are read as two 16-bit values at offsets 38 and 40 | userIn1 0x10000 and userIn2 5 show as 0 and 1 | a 32-bit read at 38 and a 16-bit read at 42, as the encoders write them | high, not executed | ParserProperties.TailMixUp | ParserProperties.IntendedUserInsBack |
| fluctus-interface-scripts/python/communication.py:14-18 | any device name of at most 7 characters is accepted | `sendStart(1, 5, "Rocket")` builds `start105Rocket`, which the bridge's `start\d\d\d[A-Za-z]{7}` (fluctus.py:34) does not forward | exactly seven ASCII letters, so that a command accepted by sendStart also passes the bridge; this matters only for an MQTT client that builds its commands the way sendStart does, since the browser's Start button always sends `Fluctus` | low (plausible, unverified against the firmware), not executed | RadioCommands.ShortNameRejectedByBridge | RadioCommands.BridgeStartAccepted |
