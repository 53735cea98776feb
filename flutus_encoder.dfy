/** The flutus Node.js encoder (`dataToEncodedString` of the flutus
    JavaScript scripts): "FB", then every field through `Buffer.writeIntLE`
    or `writeUIntLE` as upper-case little-endian hex, then the diagnostics
    suffix. Unlike the fluctus Node encoder it truncates scaled values
    toward zero, masks the message type to one byte and throws a
    RangeError for any value that does not fit its width and signedness. */
module FlutusEncoder {
  import opened Wrappers
  import opened ByteCodec
  import opened JsInt32
  import opened Hex
  import opened Telemetry
  import opened NodeEncoder
  import PyEncoder

  /** `toHexByte(value, bytes, signed)`: a zeroed buffer of `bytes` bytes,
      the value written into it little-endian, printed as upper-case hex;
      a RangeError when the value does not fit. */
  function ToHexByte(value: int, bytes: nat, signed: bool): (r: Result<string, JsError>)
    ensures r.Success? <==> PyEncoder.FitsWidth(value, bytes, signed)
    ensures r.Success? ==> |r.value| == 2 * bytes && FromHex(r.value) == Some(WriteLE(value, bytes))
  {
    FromHexToHex(WriteLE(value, bytes));
    PyEncoder.HexOrThrow(value, bytes, signed, RangeError)
  }

  /** `(message >> 24) & 0xFF` is the byte above the 24 low bits of any
      message, and `message & 0x00FFFFFF` those low bits: together they
      are the message modulo 2^32. */
  lemma MessageSplit(m: int)
    ensures AndLow(ShiftRight(m, 24), 8) == (m / PyEncoder.TWO24) % 256
    ensures AndLow(m, 24) == m % PyEncoder.TWO24
    ensures AndLow(ShiftRight(m, 24), 8) * PyEncoder.TWO24 + AndLow(m, 24) == m % TWO32
  {
    var t24 := PyEncoder.TWO24;
    SmallPowers(3);
    ShiftMaskByte(m, 3);
    assert Pow2(24) == t24 by {
      SmallPowers(3);
    }
    ModMod(m, t24, 256);
    var q, low := m / t24, m % t24;
    var a, b := q / 256, q % 256;
    assert m == a * TWO32 + (b * t24 + low);
    DivModUnique(m, TWO32, a, b * t24 + low);
  }

  /** The integers the encoder writes: scaled fields through `Math.trunc`,
      the message split by `(message >> 24) & 0xFF` and
      `message & 0x00FFFFFF`, and the user inputs when neither is null.
      Whatever the message, its two parts fit their bytes and carry the
      message modulo 2^32. */
  function FlutusFields(r: Reading): (f: RawFields)
    ensures InUnsignedRange(f.messageType, 1) && InUnsignedRange(f.messageValue, 3)
    ensures f.messageType * PyEncoder.TWO24 + f.messageValue == r.message % TWO32
  {
    MessageSplit(r.message);
    SmallPowers(1);
    SmallPowers(3);
    RawFields(r.uid, r.fw, r.rx, r.timeMPU, r.status, r.altitude, r.speedVert,
      Trunc(r.accel * 10.0), r.angle, Trunc(r.battVoltage * 1000.0), Trunc(r.time * 10.0),
      r.pyroStates, r.logStatus, Trunc(r.gpsLat * 1000000.0), Trunc(r.gpsLng * 1000000.0),
      r.gpsState, r.warnCode, AndLow(ShiftRight(r.message, 24), 8), AndLow(r.message, 24),
      if r.userIn1.Some? && r.userIn2.Some? then Some((r.userIn1.value, r.userIn2.value)) else None)
  }

  /** The line the encoder returns, or the RangeError it throws on the
      first field that does not fit. The suffix is the template literal's,
      as in the fluctus Node encoder. */
  function FlutusEncoded(r: Reading): Result<string, JsError>
  {
    var f := FlutusFields(r);
    if FitsFrame(f) then Success("FB" + ToHex(FrameOf(f)) + NodeSuffix(r)) else Failure(RangeError)
  }

  /** For a message that is a non-negative 32-bit integer the flutus and
      the Python encoder write the same integers, so the same frame. */
  lemma SameFieldsAsPython(r: Reading)
    requires 0 <= r.message < TWO32
    ensures FlutusFields(r) == PyEncoder.PyFields(r)
  {
    MessageSplit(r.message);
    DivModUnique(r.message, TWO32, 0, r.message);
    var f, g := FlutusFields(r), PyEncoder.PyFields(r);
    assert r.message / PyEncoder.TWO24 < 256;
    assert f.messageType == g.messageType;
  }

  /** `dataToEncodedString`: "FB", the fixed fields, the user inputs when
      neither is null, and the diagnostics suffix; a RangeError from the
      first value that does not fit. */
  method DataToEncodedString(r: Reading) returns (result: Result<string, JsError>)
    ensures result == FlutusEncoded(r)
  {
    var f := FlutusFields(r);
    PyEncoder.FitsFrameFields(f);
    var encodedString :- PyEncoder.AppendFixedFields(f, RangeError);
    if r.userIn1 != None && r.userIn2 != None {
      var u1, u2 := r.userIn1.value, r.userIn2.value;
      var h1 :- ToHexByte(u1, 4, false);
      encodedString := encodedString + h1;
      var h2 :- ToHexByte(u2, 2, false);
      encodedString := encodedString + h2;
      PrefixWithTail(f, u1, u2);
    } else {
      PrefixNoTail(f);
    }
    encodedString := encodedString + NodeSuffix(r);
    result := Success(encodedString);
  }
}
