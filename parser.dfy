/** The browser telemetry parser (`parseTelemetry` of the web interface).
    The line is trimmed and cut at its first '|'; a line whose hex part
    does not start with "FB" or "F B" is passed through as `other`. The
    hex part loses its white space and its "FB", is turned into a
    zero-filled byte array two digits at a time, and the fields are read
    one after another through a `DataView` and a shared `offset`, all
    little-endian and all but the angle signed. A read past the end of the
    bytes throws a RangeError, which turns the whole line into an `error`
    result; the parser itself never throws. */
module BrowserParser {
  import opened Wrappers
  import opened ByteCodec
  import opened JsInt32
  import opened Text
  import opened Hex
  import opened Telemetry
  import opened Sequences

  /** `states` of `getStatusString`, indexed by the status code. */
  const StatusNames: seq<string> :=
    ["IDLE", "ARMED", "COUNTDOWN ENGAGED", "WAITING FOR LAUNCH", "ASCENT", "DESCENT", "TOUCHDOWN"]

  /** `getStatusString(code)`: `states[code] || "UNKNOWN"`. Codes 0-6 get
      their own name; every other code, negative ones included, reads
      "UNKNOWN", which no known code does. */
  function StatusString(code: int): (s: string)
    ensures s != "UNKNOWN" <==> 0 <= code < |StatusNames|
    ensures 0 <= code < |StatusNames| ==> s == StatusNames[code]
  {
    if 0 <= code < |StatusNames| then StatusNames[code] else "UNKNOWN"
  }

  /** The inner `decode` of `decodePyro`: 0, 1 and 3 are named, anything
      else is "UNKNOWN". */
  function PyroLabel(v: int): (s: string)
    ensures s != "UNKNOWN" <==> v == 0 || v == 1 || v == 3
  {
    if v == 0 then "DISABLED"
    else if v == 1 then "CONTINUITY"
    else if v == 3 then "FIRED"
    else "UNKNOWN"
  }

  /** The `{A, B, C}` object `decodePyro` returns. */
  datatype PyroLabels = PyroLabels(a: string, b: string, c: string)

  /** `decodePyro(byte)`: channel A from `byte & 0x03`, B from
      `(byte >> 2) & 0x03`, C from `(byte >> 4) & 0x03`. */
  function DecodePyro(pyro: int): PyroLabels
  {
    PyroLabels(PyroLabel(AndLow(pyro, 2)), PyroLabel(AndLow(ShiftRight(pyro, 2), 2)),
      PyroLabel(AndLow(ShiftRight(pyro, 4), 2)))
  }

  /** `data.message`: the type byte as a one-character string, the 24-bit
      value and that value over 10. */
  datatype ParsedMessage = ParsedMessage(id: char, value: int, decodedValue: Scaled)

  /** `data.stats`, set only for a message of type 'A'. */
  datatype Stats = Stats(kind: string, val: int)

  /** The fields `parseTelemetry` sets on `data` after its type, raw line
      and diagnostics; the user inputs are absent unless the bytes reach
      them. */
  datatype Frame = Frame(
    uid: int, fw: int, packetCount: int, timeMPU: int, status: string, statusCode: int,
    altitude: int, speedVert: int, accel: Scaled, angle: int, battVoltage: int,
    flightTime: Scaled, pyro: PyroLabels, logStatus: int, gpsLat: Scaled, gpsLng: Scaled,
    gpsState: int, warnCode: int, message: ParsedMessage, stats: Option<Stats>,
    userIn1: Option<int>, userIn2: Option<int>)

  /** What `parseTelemetry` returns: `{type: 'other', raw}`, `{type: 'error',
      raw}` or the telemetry object; `raw` is always the trimmed line. */
  datatype Parsed =
    | Other(raw: string)
    | Error(raw: string)
    | Telemetry(raw: string, diagnostics: string, data: Frame)

  /** `getInt8`, `getInt16` and `getInt32` of a DataView with
      `littleEndian` true, reading w bytes at byte offset k: the
      two's-complement value of those bytes taken least significant first. */
  function GetIntLE(view: seq<int>, k: nat, w: nat): int
    requires k + w <= |view|
  {
    Signed(ReadLE(view[k..k + w]), w)
  }

  /** JavaScript's ToUint8, as a Uint8Array stores a Number: NaN is 0,
      anything else is taken modulo 256. */
  function Uint8Of(x: JsNumber): (b: int)
    ensures IsByte(b)
  {
    match x
    case NaN => 0
    case Num(n) => n % 256
  }

  /** `parseInt(chunk, 16)` of one two-character chunk, stored as a byte. */
  function PairByte(pair: string): (b: int)
    ensures IsByte(b)
  {
    Uint8Of(ParseIntHex(pair))
  }

  /** The bytes of the cleaned hex: one chunk byte for each of the
      floor(length / 2) slots of the array, the chunks taken two digits at
      a time from the start. */
  function HexBytes(cleanHex: string): (bs: seq<int>)
    ensures |bs| == |cleanHex| / 2
  {
    Map(PairByte, Pairs(cleanHex))
  }

  /** Every slot of the array holds a byte. */
  lemma HexBytesAreBytes(cleanHex: string)
    ensures IsBytes(HexBytes(cleanHex))
  {
    forall k | 0 <= k < |HexBytes(cleanHex)|
      ensures IsByte(HexBytes(cleanHex)[k])
    {
      MapAt(PairByte, Pairs(cleanHex), k);
    }
  }

  /** The line cut at its first '|' into the hex part and the diagnostics;
      without a '|' the whole line is the hex part and the diagnostics are
      empty. */
  function CutAtPipe(line: string): (string, string)
  {
    var pipeIndex := IndexOf(line, '|');
    if pipeIndex == -1 then (line, "") else (line[..pipeIndex], line[pipeIndex + 1..])
  }

  /** The case-sensitive header check on the hex part. */
  predicate HasHeader(hexPart: string)
  {
    StartsWith(hexPart, "F B") || StartsWith(hexPart, "FB")
  }

  /** The hex part without its white space, and without a leading "FB". */
  function CleanHex(hexPart: string): string
  {
    var cleanHex := RemoveJsWhite(hexPart);
    if StartsWith(cleanHex, "FB") then cleanHex[2..] else cleanHex
  }

  /** The message field at offset k: the type byte as a character and the
      signed 24-bit little-endian value after it, with that value over 10. */
  function MessageAt(view: seq<int>, k: nat): (m: ParsedMessage)
    requires IsBytes(view) && k + 4 <= |view|
  {
    var value := GetIntLE(view, k + 1, 3);
    ParsedMessage(view[k] as char, value, Scaled(value, 10))
  }

  /** The telemetry fields at their fixed offsets, as the cursor meets
      them: uid 0, fw 2, packet count 4, timeMPU 5, status 9, altitude 10,
      vertical speed 13, acceleration 15, angle 17, battery 18, flight
      time 20, pyro 22, log status 23, coordinates 24 and 28, GPS state 32,
      warning 33, the message type at 34 and its 24-bit value at 35, and
      the two 16-bit user inputs at 38 and 40 when there are at least 42
      bytes. */
  function FrameAt(view: seq<int>): Frame
    requires IsBytes(view) && |view| >= FrameBytes
  {
    var statusCode := GetIntLE(view, 9, 1);
    var message := MessageAt(view, 34);
    Frame(GetIntLE(view, 0, 2), GetIntLE(view, 2, 2), GetIntLE(view, 4, 1), GetIntLE(view, 5, 4),
      StatusString(statusCode), statusCode, GetIntLE(view, 10, 3), GetIntLE(view, 13, 2),
      Scaled(GetIntLE(view, 15, 2), 10), view[17], GetIntLE(view, 18, 2),
      Scaled(GetIntLE(view, 20, 2), 10), DecodePyro(GetIntLE(view, 22, 1)), GetIntLE(view, 23, 1),
      Scaled(GetIntLE(view, 24, 4), 1000000), Scaled(GetIntLE(view, 28, 4), 1000000),
      GetIntLE(view, 32, 1), GetIntLE(view, 33, 1),
      message,
      if message.id == 'A' then Some(Stats("Max Altitude", message.value)) else None,
      if |view| >= 42 then Some(GetIntLE(view, 38, 2)) else None,
      if |view| >= 42 then Some(GetIntLE(view, 40, 2)) else None)
  }

  /** The outcome of the `try` block on the bytes: a RangeError when they
      stop before the end of the message field, the fields otherwise. */
  function FieldsAt(view: seq<int>): Result<Frame, JsError>
    requires IsBytes(view)
  {
    if |view| < FrameBytes then Failure(RangeError) else Success(FrameAt(view))
  }

  /** `parseTelemetry(line)`: `other` without the header, `error` when the
      bytes stop before the end of the message field, and the telemetry
      object otherwise. */
  function ParseLine(input: string): Parsed
  {
    var line := TrimJs(input);
    var (hexPart, diagPart) := CutAtPipe(line);
    if !HasHeader(hexPart) then Other(line)
    else
      var bytes := HexBytes(CleanHex(hexPart));
      HexBytesAreBytes(CleanHex(hexPart));
      if |bytes| < FrameBytes then Error(line)
      else Telemetry(line, diagPart, FrameAt(bytes))
  }

  /** `b0 | (b1 << 8) | (b2 << 16)` of three bytes is their little-endian
      value. */
  lemma Or24(b0: int, b1: int, b2: int)
    requires IsByte(b0) && IsByte(b1) && IsByte(b2)
    ensures BitOr(BitOr(b0, ShiftLeft(b1, 8)), ShiftLeft(b2, 16)) == ReadLE([b0, b1, b2])
    ensures 0 <= ReadLE([b0, b1, b2]) < 0x100_0000
  {
    SmallPowers(1);
    SmallPowers(2);
    var u := b0 + b1 * 0x100;
    assert 0 <= u < 0x1_0000;
    AccumulateByte(b0, b1, 1);
    Int32Identity(u);
    var w := u + b2 * 0x1_0000;
    assert 0 <= w < 0x100_0000;
    AccumulateByte(u, b2, 2);
    Int32Identity(w);
    assert ReadLE([b2]) == b2 by {
      assert [b2][1..] == [];
    }
    assert ReadLE([b1, b2]) == b1 + 256 * b2 by {
      assert [b1, b2][1..] == [b2];
    }
    assert ReadLE([b0, b1, b2]) == w by {
      assert [b0, b1, b2][1..] == [b1, b2];
    }
  }

  /** The `(val & 0x800000) !== 0` test and the `val |= 0xFF000000` it
      guards sign-extend a 24-bit value: the value read as three signed
      bytes. */
  lemma SignExtension(val: int)
    requires 0 <= val < 0x100_0000
    ensures Bit(val, 23) <==> 2 * val >= Pow256(3)
    ensures (if Bit(val, 23) then BitOr(val, 0xFF00_0000) else val) == Signed(val, 3)
  {
    SmallPowers(3);
    assert Pow2(23) == 0x80_0000 by {
      Pow2Add(20, 3);
      Pow2Add(16, 4);
      Pow2Bytes(2);
    }
    if val >= 0x80_0000 {
      DivModUnique(val, 0x80_0000, 1, val - 0x80_0000);
      DivModUnique(1, 2, 0, 1);
      SignExtend24(val);
    } else {
      DivModUnique(val, 0x80_0000, 0, val);
    }
  }

  /** `b0 | (b1 << 8) | (b2 << 16)` on three bytes, then `val |= 0xFF000000`
      when bit 23 is set, as `readI24` and the message block both do: the
      three bytes read as a signed little-endian value. */
  method Int24(b0: int, b1: int, b2: int) returns (val: int)
    requires IsByte(b0) && IsByte(b1) && IsByte(b2)
    ensures val == Signed(ReadLE([b0, b1, b2]), 3)
  {
    val := BitOr(BitOr(b0, ShiftLeft(b1, 8)), ShiftLeft(b2, 16));
    Or24(b0, b1, b2);
    SignExtension(val);
    if Bit(val, 23) {
      val := BitOr(val, 0xFF00_0000);
    }
  }

  /** `view.getUint8(pos)`: the byte at pos, or the RangeError a DataView
      throws for a position past its end. */
  function GetUint8(view: seq<int>, pos: nat): (v: Result<int, JsError>)
    ensures v.Success? <==> pos < |view|
    ensures v.Success? ==> v.value == view[pos]
    ensures v.Failure? ==> v.error == RangeError
  {
    if pos < |view| then Success(view[pos]) else Failure(RangeError)
  }

  /* The reader closures of the `try` block share the local `offset`; here
     each reader takes the offset and hands back the next one. Each reads
     at the offset and moves past what it read; a read that would pass the
     end of the bytes throws a RangeError and leaves the offset alone. */

  /** `readI8`: `view.getInt8(offset)`, then `offset += 1`. */
  method ReadI8(view: seq<int>, offset: nat) returns (v: Result<int, JsError>, next: nat)
    ensures v.Success? <==> offset + 1 <= |view|
    ensures v.Success? ==> v.value == GetIntLE(view, offset, 1) && next == offset + 1
    ensures v.Failure? ==> v.error == RangeError && next == offset
  {
    if offset + 1 > |view| {
      return Failure(RangeError), offset;
    }
    v := Success(Signed(ReadLE(view[offset..offset + 1]), 1));
    next := offset + 1;
  }

  /** `readU8`: `view.getUint8(offset)`, then `offset += 1`. */
  method ReadU8(view: seq<int>, offset: nat) returns (v: Result<int, JsError>, next: nat)
    ensures v.Success? <==> offset < |view|
    ensures v.Success? ==> v.value == view[offset] && next == offset + 1
    ensures v.Failure? ==> v.error == RangeError && next == offset
  {
    v := GetUint8(view, offset);
    next := if v.Success? then offset + 1 else offset;
  }

  /** `readI16`: `view.getInt16(offset, true)`, then `offset += 2`. */
  method ReadI16(view: seq<int>, offset: nat) returns (v: Result<int, JsError>, next: nat)
    ensures v.Success? <==> offset + 2 <= |view|
    ensures v.Success? ==> v.value == GetIntLE(view, offset, 2) && next == offset + 2
    ensures v.Failure? ==> v.error == RangeError && next == offset
  {
    if offset + 2 > |view| {
      return Failure(RangeError), offset;
    }
    v := Success(Signed(ReadLE(view[offset..offset + 2]), 2));
    next := offset + 2;
  }

  /** `readI32`: `view.getInt32(offset, true)`, then `offset += 4`. */
  method ReadI32(view: seq<int>, offset: nat) returns (v: Result<int, JsError>, next: nat)
    ensures v.Success? <==> offset + 4 <= |view|
    ensures v.Success? ==> v.value == GetIntLE(view, offset, 4) && next == offset + 4
    ensures v.Failure? ==> v.error == RangeError && next == offset
  {
    if offset + 4 > |view| {
      return Failure(RangeError), offset;
    }
    v := Success(Signed(ReadLE(view[offset..offset + 4]), 4));
    next := offset + 4;
  }

  /** `readI24`: three `getUint8` reads, `offset += 3`, the bytes OR-ed
      together little-endian and sign-extended from bit 23: the three
      bytes read as a signed little-endian value. */
  method ReadI24(view: seq<int>, offset: nat) returns (v: Result<int, JsError>, next: nat)
    requires IsBytes(view)
    ensures v.Success? <==> offset + 3 <= |view|
    ensures v.Success? ==> v.value == GetIntLE(view, offset, 3) && next == offset + 3
    ensures v.Failure? ==> v.error == RangeError && next == offset
  {
    next := offset;
    var b0 :- GetUint8(view, offset);
    var b1 :- GetUint8(view, offset + 1);
    var b2 :- GetUint8(view, offset + 2);
    assert view[offset..offset + 3] == [b0, b1, b2];
    next := offset + 3;
    var val := Int24(b0, b1, b2);
    v := Success(val);
  }

  /** The message block: `getUint8` of the type at the offset and of the
      three value bytes after it, combined as `readI24` combines them, then
      `offset += 4`. */
  method ReadMessage(view: seq<int>, offset: nat) returns (m: Result<ParsedMessage, JsError>, next: nat)
    requires IsBytes(view)
    ensures m.Success? <==> offset + 4 <= |view|
    ensures m.Success? ==> m.value == MessageAt(view, offset) && next == offset + 4
    ensures m.Failure? ==> m.error == RangeError && next == offset
  {
    next := offset;
    var idByte :- GetUint8(view, offset);
    var msgId := idByte as char;
    var m0 :- GetUint8(view, offset + 1);
    var m1 :- GetUint8(view, offset + 2);
    var m2 :- GetUint8(view, offset + 3);
    assert view[offset + 1..offset + 4] == [m0, m1, m2];
    var msgVal := Int24(m0, m1, m2);
    next := offset + 4;
    m := Success(ParsedMessage(msgId, msgVal, Scaled(msgVal, 10)));
  }

  /** Halving an even index. */
  lemma Half(n: nat)
    ensures (2 * n) / 2 == n
  {
  }

  /** One pass of the `for` loop body: `parseInt` of the chunk at even
      position i, which is slot i / 2 of the array. */
  method ChunkAt(cleanHex: string, i: nat, ghost slot: nat) returns (b: int)
    requires i == 2 * slot && i + 2 <= |cleanHex|
    ensures b == HexBytes(cleanHex)[slot]
  {
    b := Uint8Of(ParseIntHex(cleanHex[i..i + 2]));
    MapAt(PairByte, Pairs(cleanHex), slot);
  }

  /** The `for` loop that fills the zero-initialised `Uint8Array` of
      floor(length / 2) bytes: the chunk at i goes to slot i / 2, and the
      store for an odd last digit, one past the end, is ignored as typed
      arrays ignore it. */
  method HexToBytes(cleanHex: string) returns (bytes: array<int>)
    ensures fresh(bytes) && bytes[..] == HexBytes(cleanHex)
  {
    bytes := new int[|cleanHex| / 2](_ => 0);
    ghost var expected := HexBytes(cleanHex);
    ghost var n := 0;
    var i := 0;
    while i < |cleanHex|
      invariant i == 2 * n && n <= bytes.Length + 1 && i <= |cleanHex| + 1
      invariant bytes.Length == |expected|
      invariant forall k | 0 <= k < n && k < bytes.Length :: bytes[k] == expected[k]
      invariant forall k | n <= k < bytes.Length :: bytes[k] == 0
    {
      Half(n);
      if i / 2 < bytes.Length {
        var b := ChunkAt(cleanHex, i, n);
        bytes[i / 2] := b;
      }
      i := i + 2;
      n := n + 1;
    }
    assert bytes[..] == expected;
  }

  /** The `try` block: every field read in wire order from offset 0, then
      the message block, then the user inputs when at least four bytes
      remain after it; the first RangeError ends it. The reads fail exactly when there are fewer than
      38 bytes, and otherwise give the fields at their fixed offsets. */
  method ReadFields(view: seq<int>) returns (data: Result<Frame, JsError>)
    requires IsBytes(view)
    ensures data.Success? <==> |view| >= FrameBytes
    ensures data.Failure? ==> data.error == RangeError
    ensures data.Success? ==> data.value == FrameAt(view)
  {
    var offset: nat := 0;
    var uid, fw, packetCount, timeMPU, statusCode, altitude, speedVert, accel, angle: int;
    var battVoltage, flightTime, pyroRaw, logStatus, gpsLat, gpsLng, gpsState, warnCode: int;
    var message: ParsedMessage;
    uid, offset :- ReadI16(view, offset);
    assert offset == 2;
    fw, offset :- ReadI16(view, offset);
    assert offset == 4;
    packetCount, offset :- ReadI8(view, offset);
    assert offset == 5;
    timeMPU, offset :- ReadI32(view, offset);
    assert offset == 9;
    statusCode, offset :- ReadI8(view, offset);
    assert offset == 10;
    var status := StatusString(statusCode);
    altitude, offset :- ReadI24(view, offset);
    assert offset == 13;
    speedVert, offset :- ReadI16(view, offset);
    assert offset == 15;
    accel, offset :- ReadI16(view, offset);
    assert offset == 17;
    angle, offset :- ReadU8(view, offset);
    assert offset == 18;
    battVoltage, offset :- ReadI16(view, offset);
    assert offset == 20;
    flightTime, offset :- ReadI16(view, offset);
    assert offset == 22;
    pyroRaw, offset :- ReadI8(view, offset);
    assert offset == 23;
    var pyro := DecodePyro(pyroRaw);
    logStatus, offset :- ReadI8(view, offset);
    assert offset == 24;
    gpsLat, offset :- ReadI32(view, offset);
    assert offset == 28;
    gpsLng, offset :- ReadI32(view, offset);
    assert offset == 32;
    gpsState, offset :- ReadI8(view, offset);
    assert offset == 33;
    warnCode, offset :- ReadI8(view, offset);
    assert offset == 34;
    message, offset :- ReadMessage(view, offset);
    assert offset == 38;
    var stats := if message.id == 'A' then Some(Stats("Max Altitude", message.value)) else None;
    var userIn1: Option<int>, userIn2: Option<int> := None, None;
    if |view| >= offset + 4 {
      var u1, u2;
      u1, offset := ReadI16(view, offset);
      u2, offset := ReadI16(view, offset);
      userIn1, userIn2 := Some(u1.value), Some(u2.value);
    }
    data := Success(Frame(uid, fw, packetCount, timeMPU, status, statusCode, altitude, speedVert,
      Scaled(accel, 10), angle, battVoltage, Scaled(flightTime, 10), pyro, logStatus,
      Scaled(gpsLat, 1000000), Scaled(gpsLng, 1000000), gpsState, warnCode, message, stats,
      userIn1, userIn2));
  }

  /** `parseTelemetry(line)` step by step: trim, cut at the first '|',
      check the header, strip white space and "FB", fill the byte array,
      then read the fields, turning a RangeError into the `error` result. */
  method ParseTelemetry(input: string) returns (result: Parsed)
    ensures result == ParseLine(input)
  {
    var line := TrimJs(input);
    var pipeIndex := IndexOf(line, '|');
    var hexPart, diagPart := line, "";
    if pipeIndex != -1 {
      hexPart := line[..pipeIndex];
      diagPart := line[pipeIndex + 1..];
    }
    if !StartsWith(hexPart, "F B") && !StartsWith(hexPart, "FB") {
      return Other(line);
    }
    var cleanHex := RemoveJsWhite(hexPart);
    if StartsWith(cleanHex, "FB") {
      cleanHex := cleanHex[2..];
    }
    var bytes := HexToBytes(cleanHex);
    HexBytesAreBytes(cleanHex);
    var data := ReadFields(bytes[..]);
    match data {
      case Failure(_) => result := Error(line);
      case Success(frame) => result := Telemetry(line, diagPart, frame);
    }
  }
}
