/** Vocabulary shared by every Fluctus codec variant: the names the decoders
    give the flight-computer status, the pyro channel states and the message
    kinds; the exceptions the Python scripts raise; the values the encoders
    take; and the two real-to-integer roundings they scale with. */
module Telemetry {
  import opened Wrappers
  import opened ByteCodec

  /** The exceptions the Python scripts raise and the model keeps apart. */
  datatype PyError = ValueError | IndexError | AttributeError | OverflowError | RuntimeError

  /** The exception JavaScript throws for a value a Buffer writer cannot
      store or a position a DataView reader cannot reach. */
  datatype JsError = RangeError

  /** Number of bytes of the fixed frame, before the optional user inputs. */
  const FrameBytes: nat := 38

  /** Number of bytes of the frame with both user inputs appended. */
  const FullFrameBytes: nat := 44

  /** Status name the Node and Python decoders give a status code; the
      `message` stays "Error" for any other value. */
  function StatusMessage(code: int): (m: string)
    ensures m != "Error" <==> 0 <= code <= 6
  {
    if code == 0 then "Idle"
    else if code == 1 then "Armed"
    else if code == 2 then "Countdown Engaged"
    else if code == 3 then "Waiting for Launch"
    else if code == 4 then "Ascent"
    else if code == 5 then "Descent"
    else if code == 6 then "Touchdown"
    else "Error"
  }

  /** Different known codes get different names, so the code can be read
      back from the name. */
  lemma StatusMessageInjective(a: int, b: int)
    requires 0 <= a <= 6 && 0 <= b <= 6 && StatusMessage(a) == StatusMessage(b)
    ensures a == b
  {
  }

  /** Name of one pyro channel from its masked reading: 0, 1 and 3 are
      known, anything else is "Error". */
  function PyroName(v: int): (n: string)
    ensures n != "Error" <==> v == 0 || v == 1 || v == 3
  {
    if v == 0 then "Disable"
    else if v == 1 then "Continuity"
    else if v == 3 then "Enabled / Fired"
    else "Error"
  }

  /** The three channel names of the Node and Python decoders. */
  datatype PyroStates = PyroStates(pyroA: string, pyroB: string, pyroC: string)

  /** The decoders mask bits 0-1, 2-3 and 4-5 of the pyro byte and compare
      each masked value, unshifted, with 0, 1 and 3 (`pyroData & 0b1100`). */
  function PyroOf(pyro: int): PyroStates
  {
    PyroStates(PyroName(MaskBits(pyro, 0, 2)), PyroName(MaskBits(pyro, 2, 4)), PyroName(MaskBits(pyro, 4, 6)))
  }

  /** Because channels B and C are not shifted down, their masked value is
      a multiple of 4 and 16: B reads "Disable" exactly when bits 2-3 are
      clear, C exactly when bits 4-5 are clear, and otherwise "Error";
      neither can ever read "Continuity" or "Enabled / Fired". */
  lemma PyroUnshiftedChannels(pyro: int)
    ensures PyroOf(pyro).pyroA == PyroName(pyro % 4)
    ensures PyroOf(pyro).pyroB == (if (pyro / 4) % 4 == 0 then "Disable" else "Error")
    ensures PyroOf(pyro).pyroC == (if (pyro / 16) % 4 == 0 then "Disable" else "Error")
  {
    MaskIsScaledField(pyro, 2);
    MaskIsScaledField(pyro, 4);
  }

  /** v & (3 << k) is the 2-bit field at bit k, times 2^k. */
  lemma MaskIsScaledField(v: int, k: nat)
    ensures MaskBits(v, k, k + 2) == Pow2(k) * ((v / Pow2(k)) % 4)
  {
    var p := Pow2(k);
    var q, r := v / p, v % p;
    assert Pow2(k + 2) == 4 * p;
    assert v == (q / 4) * (4 * p) + (p * (q % 4) + r) by {
      assert q == (q / 4) * 4 + q % 4;
    }
    assert 0 <= p * (q % 4) + r < 4 * p by {
      MulBelow(q % 4, 3, p);
    }
    DivModUnique(v, 4 * p, q / 4, p * (q % 4) + r);
  }

  lemma MulBelow(a: nat, b: nat, p: nat)
    requires a <= b
    ensures p * a <= p * b
  {
  }

  /** Message kind the Node and Python decoders name from the message type
      byte: 'A' (65), 'S' (83) and 'G' (71) are known, anything else is "Error". */
  function MessageKind(t: int): (k: string)
    ensures k != "Error" <==> t == 65 || t == 83 || t == 71
  {
    if t == 65 then "Max Altitude"
    else if t == 83 then "Max Speed"
    else if t == 71 then "Max Acceleration"
    else "Error"
  }

  /** The four message bytes read as one little-endian word: the type
      byte is the low byte, the 24-bit value the three above it. */
  function MessageWord(messageType: int, messageValue: int): int
  {
    messageType + 256 * messageValue
  }

  /** The arguments of every encoder's `dataToEncodedString`, in order.
      Scaled quantities are exact reals; the user inputs and the radio
      diagnostics may be absent (JavaScript null, Python None). */
  datatype Reading = Reading(
    uid: int, fw: int, rx: int, timeMPU: int, status: int, altitude: int,
    speedVert: int, accel: real, angle: int, battVoltage: real, time: real,
    pyroStates: int, logStatus: int, gpsLat: real, gpsLng: real, gpsState: int,
    warnCode: int, message: int, userIn1: Option<int>, userIn2: Option<int>,
    rssi: Option<int>, snr: Option<int>)

  /** The integers an encoder writes, in wire order, once scaled: the message
      is already split into its type byte and its 24-bit value, and the user
      inputs are present together or not at all. */
  datatype RawFields = RawFields(
    uid: int, fw: int, rx: int, timeMPU: int, status: int, altitude: int,
    speedVert: int, accel: int, angle: int, battVoltage: int, time: int,
    pyroStates: int, logStatus: int, gpsLat: int, gpsLng: int, gpsState: int,
    warnCode: int, messageType: int, messageValue: int, userIn: Option<(int, int)>)

  /** Byte widths of the 19 fixed fields, in wire order. */
  const FieldWidths: seq<nat> := [2, 2, 1, 4, 1, 3, 2, 2, 1, 2, 2, 1, 1, 4, 4, 1, 1, 1, 3]

  /** The 19 fixed fields, in wire order. */
  function FieldValues(f: RawFields): (vs: seq<int>)
    ensures |vs| == |FieldWidths|
  {
    [f.uid, f.fw, f.rx, f.timeMPU, f.status, f.altitude, f.speedVert, f.accel, f.angle,
     f.battVoltage, f.time, f.pyroStates, f.logStatus, f.gpsLat, f.gpsLng, f.gpsState,
     f.warnCode, f.messageType, f.messageValue]
  }

  /** Every fixed field is one to four bytes wide. */
  lemma FieldWidthBounds(k: nat)
    requires k < |FieldWidths|
    ensures 1 <= FieldWidths[k] <= 4
  {
  }

  /** Where field i starts: the sum of the widths before it. */
  function Offset(widths: seq<nat>, i: nat): nat
    requires i <= |widths|
  {
    if i == 0 then 0 else Offset(widths, i - 1) + widths[i - 1]
  }

  /** The first n values' little-endian bytes, each at its width, one after
      the other. */
  function WriteFields(values: seq<int>, widths: seq<nat>, n: nat): (bs: seq<int>)
    requires |values| == |widths| && n <= |widths|
    ensures IsBytes(bs)
  {
    if n == 0 then [] else WriteFields(values, widths, n - 1) + WriteLE(values[n - 1], widths[n - 1])
  }

  lemma {:induction false} WriteFieldsLength(values: seq<int>, widths: seq<nat>, n: nat)
    requires |values| == |widths| && n <= |widths|
    ensures |WriteFields(values, widths, n)| == Offset(widths, n)
  {
    if n > 0 {
      WriteFieldsLength(values, widths, n - 1);
    }
  }

  /** Field i of the written fields is the bytes of value i, at its offset. */
  lemma {:induction false} WriteFieldsAt(values: seq<int>, widths: seq<nat>, n: nat, i: nat)
    requires |values| == |widths| && i < n <= |widths|
    ensures |WriteFields(values, widths, n)| == Offset(widths, n)
    ensures Offset(widths, i + 1) <= Offset(widths, n)
    ensures WriteFields(values, widths, n)[Offset(widths, i)..Offset(widths, i + 1)] == WriteLE(values[i], widths[i])
  {
    WriteFieldsLength(values, widths, n);
    WriteFieldsLength(values, widths, n - 1);
    if i < n - 1 {
      WriteFieldsAt(values, widths, n - 1, i);
    }
  }

  /** The concrete offsets of the 19 fixed fields. */
  lemma FieldOffsets()
    ensures Offset(FieldWidths, 1) == 2 && Offset(FieldWidths, 2) == 4 && Offset(FieldWidths, 3) == 5
    ensures Offset(FieldWidths, 4) == 9 && Offset(FieldWidths, 5) == 10 && Offset(FieldWidths, 6) == 13
    ensures Offset(FieldWidths, 7) == 15 && Offset(FieldWidths, 8) == 17 && Offset(FieldWidths, 9) == 18
    ensures Offset(FieldWidths, 10) == 20 && Offset(FieldWidths, 11) == 22 && Offset(FieldWidths, 12) == 23
    ensures Offset(FieldWidths, 13) == 24 && Offset(FieldWidths, 14) == 28 && Offset(FieldWidths, 15) == 32
    ensures Offset(FieldWidths, 16) == 33 && Offset(FieldWidths, 17) == 34 && Offset(FieldWidths, 18) == 35
    ensures Offset(FieldWidths, 19) == FrameBytes
  {
    assert Offset(FieldWidths, 1) == 2; assert Offset(FieldWidths, 2) == 4;
    assert Offset(FieldWidths, 3) == 5; assert Offset(FieldWidths, 4) == 9;
    assert Offset(FieldWidths, 5) == 10; assert Offset(FieldWidths, 6) == 13;
    assert Offset(FieldWidths, 7) == 15; assert Offset(FieldWidths, 8) == 17;
    assert Offset(FieldWidths, 9) == 18; assert Offset(FieldWidths, 10) == 20;
    assert Offset(FieldWidths, 11) == 22; assert Offset(FieldWidths, 12) == 23;
    assert Offset(FieldWidths, 13) == 24; assert Offset(FieldWidths, 14) == 28;
    assert Offset(FieldWidths, 15) == 32; assert Offset(FieldWidths, 16) == 33;
    assert Offset(FieldWidths, 17) == 34; assert Offset(FieldWidths, 18) == 35;
  }

  /** The frame every encoder writes: the fixed fields, then the 4 + 2 byte
      user-input tail when there is one. */
  function FrameOf(f: RawFields): (bs: seq<int>)
    ensures |bs| == if f.userIn.Some? then FullFrameBytes else FrameBytes
    ensures IsBytes(bs)
  {
    FieldOffsets();
    WriteFieldsLength(FieldValues(f), FieldWidths, 19);
    WriteFields(FieldValues(f), FieldWidths, 19) + UserInBytes(f.userIn)
  }

  function UserInBytes(userIn: Option<(int, int)>): (bs: seq<int>)
    ensures |bs| == if userIn.Some? then 6 else 0
    ensures IsBytes(bs)
  {
    match userIn
    case Some((u1, u2)) => WriteLE(u1, 4) + WriteLE(u2, 2)
    case None => []
  }

  /** Field i of the frame is the bytes of fixed field i, and the frame ends
      with the user-input tail. */
  lemma FrameFieldAt(f: RawFields, i: nat)
    requires i < |FieldWidths|
    ensures Offset(FieldWidths, i + 1) <= FrameBytes
    ensures FrameOf(f)[Offset(FieldWidths, i)..Offset(FieldWidths, i + 1)] == WriteLE(FieldValues(f)[i], FieldWidths[i])
    ensures FrameOf(f)[FrameBytes..] == UserInBytes(f.userIn)
  {
    FieldOffsets();
    var fixed := WriteFields(FieldValues(f), FieldWidths, 19);
    WriteFieldsAt(FieldValues(f), FieldWidths, 19, i);
    assert FrameOf(f)[..FrameBytes] == fixed;
  }

  /** Where each field sits in the frame: the offsets the decoders read at. */
  lemma FrameLayout(f: RawFields)
    ensures FrameOf(f)[0..2] == WriteLE(f.uid, 2) && FrameOf(f)[2..4] == WriteLE(f.fw, 2)
    ensures FrameOf(f)[4..5] == WriteLE(f.rx, 1) && FrameOf(f)[5..9] == WriteLE(f.timeMPU, 4)
    ensures FrameOf(f)[9..10] == WriteLE(f.status, 1) && FrameOf(f)[10..13] == WriteLE(f.altitude, 3)
    ensures FrameOf(f)[13..15] == WriteLE(f.speedVert, 2) && FrameOf(f)[15..17] == WriteLE(f.accel, 2)
    ensures FrameOf(f)[17..18] == WriteLE(f.angle, 1) && FrameOf(f)[18..20] == WriteLE(f.battVoltage, 2)
    ensures FrameOf(f)[20..22] == WriteLE(f.time, 2) && FrameOf(f)[22..23] == WriteLE(f.pyroStates, 1)
    ensures FrameOf(f)[23..24] == WriteLE(f.logStatus, 1) && FrameOf(f)[24..28] == WriteLE(f.gpsLat, 4)
    ensures FrameOf(f)[28..32] == WriteLE(f.gpsLng, 4) && FrameOf(f)[32..33] == WriteLE(f.gpsState, 1)
    ensures FrameOf(f)[33..34] == WriteLE(f.warnCode, 1) && FrameOf(f)[34..35] == WriteLE(f.messageType, 1)
    ensures FrameOf(f)[35..38] == WriteLE(f.messageValue, 3)
    ensures FrameOf(f)[38..] == UserInBytes(f.userIn)
  {
    FieldOffsets();
    FrameFieldAt(f, 0); FrameFieldAt(f, 1); FrameFieldAt(f, 2); FrameFieldAt(f, 3);
    FrameFieldAt(f, 4); FrameFieldAt(f, 5); FrameFieldAt(f, 6); FrameFieldAt(f, 7);
    FrameFieldAt(f, 8); FrameFieldAt(f, 9); FrameFieldAt(f, 10); FrameFieldAt(f, 11);
    FrameFieldAt(f, 12); FrameFieldAt(f, 13); FrameFieldAt(f, 14); FrameFieldAt(f, 15);
    FrameFieldAt(f, 16); FrameFieldAt(f, 17); FrameFieldAt(f, 18);
  }

  /** The user-input tail: userIn1 in the four bytes after the fixed
      fields, userIn2 in the two after those. */
  lemma TailLayout(f: RawFields)
    requires f.userIn.Some?
    ensures FrameOf(f)[38..42] == WriteLE(f.userIn.value.0, 4)
    ensures FrameOf(f)[42..44] == WriteLE(f.userIn.value.1, 2)
  {
    FrameLayout(f);
    var tail := WriteLE(f.userIn.value.0, 4) + WriteLE(f.userIn.value.1, 2);
    assert FrameOf(f)[38..] == tail;
    assert FrameOf(f)[38..42] == tail[..4];
    assert FrameOf(f)[42..44] == tail[4..];
  }

  /** Every field fits its width: uid, fw, rx, altitude and the coordinates
      as signed values, everything else unsigned. */
  predicate FitsFrame(f: RawFields)
  {
    InSignedRange(f.uid, 2) && InSignedRange(f.fw, 2) && InSignedRange(f.rx, 1)
    && InUnsignedRange(f.timeMPU, 4) && InUnsignedRange(f.status, 1)
    && InSignedRange(f.altitude, 3) && InUnsignedRange(f.speedVert, 2)
    && InUnsignedRange(f.accel, 2) && InUnsignedRange(f.angle, 1)
    && InUnsignedRange(f.battVoltage, 2) && InUnsignedRange(f.time, 2)
    && InUnsignedRange(f.pyroStates, 1) && InUnsignedRange(f.logStatus, 1)
    && InSignedRange(f.gpsLat, 4) && InSignedRange(f.gpsLng, 4)
    && InUnsignedRange(f.gpsState, 1) && InUnsignedRange(f.warnCode, 1)
    && InUnsignedRange(f.messageType, 1) && InUnsignedRange(f.messageValue, 3)
    && (f.userIn.Some? ==> InUnsignedRange(f.userIn.value.0, 4) && InUnsignedRange(f.userIn.value.1, 2))
  }

  /** A fixed-point quantity as a decoder returns it: the integer read and
      the divisor applied to it. */
  datatype Scaled = Scaled(raw: int, divisor: int)

  /** The number a decoder returns for a scaled field: raw / divisor. */
  function ScaledValue(x: Scaled): real
    requires x.divisor > 0
  {
    x.raw as real / x.divisor as real
  }

  /** JavaScript `Math.floor(x)`. */
  function Floor(x: real): (n: int)
    ensures n as real <= x < n as real + 1.0
  {
    x.Floor
  }

  /** Python `int(x)` and JavaScript `Math.trunc(x)`: rounding toward zero. */
  function Trunc(x: real): (n: int)
    ensures x >= 0.0 ==> n as real <= x < n as real + 1.0
    ensures x < 0.0 ==> n as real - 1.0 < x <= n as real
  {
    if x >= 0.0 then x.Floor else -((-x).Floor)
  }

  /** Scaling by k, rounding down and dividing by k again loses less than 1/k. */
  lemma FloorScaledError(x: real, k: real)
    requires k > 0.0
    ensures 0.0 <= x - (Floor(x * k) as real) / k < 1.0 / k
  {
    var n := Floor(x * k);
    assert n as real <= x * k < n as real + 1.0;
    assert (n as real) / k <= x by {
      assert (n as real) / k * k == n as real;
    }
    assert x < (n as real + 1.0) / k by {
      assert (n as real + 1.0) / k * k == n as real + 1.0;
    }
  }

  /** For non-negative values truncation is rounding down, so the same bound holds. */
  lemma TruncScaledError(x: real, k: real)
    requires k > 0.0 && x >= 0.0
    ensures 0.0 <= x - (Trunc(x * k) as real) / k < 1.0 / k
  {
    FloorScaledError(x, k);
  }

  /** For negative values truncation rounds up, so the value read back is
      at most 1/k above it. */
  lemma TruncScaledNegative(x: real, k: real)
    requires k > 0.0 && x < 0.0
    ensures -1.0 / k < x - (Trunc(x * k) as real) / k <= 0.0
  {
    assert x * k < 0.0;
    var n := Trunc(x * k);
    assert n as real - 1.0 < x * k <= n as real;
    assert x <= (n as real) / k by {
      assert (n as real) / k * k == n as real;
    }
    assert (n as real - 1.0) / k < x by {
      assert (n as real - 1.0) / k * k == n as real - 1.0;
    }
  }
}
