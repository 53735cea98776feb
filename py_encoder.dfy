/** The Python encoder (`dataToEncodedString` of `fluctusEncode.py`): "FB",
    then every field through `int.to_bytes` little-endian as upper-case hex,
    then the diagnostics suffix. Unlike the Node encoder it truncates
    scaled values toward zero and raises OverflowError for any value that
    does not fit its width and signedness. */
module PyEncoder {
  import opened Wrappers
  import opened ByteCodec
  import opened Text
  import opened Hex
  import opened Telemetry
  import opened NodeEncoder

  const TWO24: int := 0x100_0000

  /** Which fixed fields every encoder writes as signed: uid, fw, rx,
      altitude and the two coordinates. */
  predicate SignedField(k: nat)
  {
    k <= 2 || k == 5 || k == 13 || k == 14
  }

  /** `int.to_bytes(bytes, signed=signed)` accepts the value. */
  predicate FitsWidth(v: int, w: nat, signed: bool)
  {
    if signed then InSignedRange(v, w) else InUnsignedRange(v, w)
  }

  /** `toHexByte(value, bytes, signed)`: the little-endian bytes of the
      value as upper-case hex, or OverflowError when it does not fit. */
  function ToHexByte(value: int, bytes: nat, signed: bool): (r: Result<string, PyError>)
    ensures r.Failure? ==> r.error == OverflowError
  {
    HexOrThrow(value, bytes, signed, OverflowError)
  }

  /** A writer that checks its range, as `int.to_bytes` and Node's
      `Buffer.writeIntLE` do: the little-endian bytes of the value as
      upper-case hex, or the exception `thrown` when it does not fit. */
  function HexOrThrow<E>(value: int, bytes: nat, signed: bool, thrown: E): (r: Result<string, E>)
    ensures r.Failure? ==> r.error == thrown
  {
    if FitsWidth(value, bytes, signed) then Success(ToHex(WriteLE(value, bytes))) else Failure(thrown)
  }

  /** `toHexByte` succeeds exactly on the values that fit, and what it
      writes `bytes.fromhex` and `int.from_bytes` read back as the value. */
  lemma ToHexByteRoundTrip(value: int, bytes: nat, signed: bool)
    ensures ToHexByte(value, bytes, signed).Success? <==> FitsWidth(value, bytes, signed)
    ensures ToHexByte(value, bytes, signed).Success? ==>
      var s := ToHexByte(value, bytes, signed).value;
      |s| == 2 * bytes && FromHex(s).Some? && |FromHex(s).value| == bytes
      && (if signed then Signed(ReadLE(FromHex(s).value), bytes) else ReadLE(FromHex(s).value)) == value
  {
    if FitsWidth(value, bytes, signed) {
      FromHexToHex(WriteLE(value, bytes));
      if signed {
        SignedRoundTrip(value, bytes);
      } else {
        UnsignedRoundTrip(value, bytes);
      }
    }
  }

  /** The integers the Python encoder writes: scaled fields through `int()`
      (truncation toward zero), the message split by Python's `>> 24` (a
      floor division) and `& 0x00FFFFFF` (the remainder modulo 2^24), and
      the user inputs when neither is None. */
  function PyFields(r: Reading): (f: RawFields)
    ensures f.messageValue == r.message % TWO24 && f.messageType * TWO24 + f.messageValue == r.message
  {
    RawFields(r.uid, r.fw, r.rx, r.timeMPU, r.status, r.altitude, r.speedVert,
      Trunc(r.accel * 10.0), r.angle, Trunc(r.battVoltage * 1000.0), Trunc(r.time * 10.0),
      r.pyroStates, r.logStatus, Trunc(r.gpsLat * 1000000.0), Trunc(r.gpsLng * 1000000.0),
      r.gpsState, r.warnCode, r.message / TWO24, r.message % TWO24,
      if r.userIn1.Some? && r.userIn2.Some? then Some((r.userIn1.value, r.userIn2.value)) else None)
  }

  /** An f-string's rendering of an int or None. */
  function PyText(x: Option<int>): (s: string)
    ensures x.Some? ==> s == IntToDecimal(x.value)
    ensures x.None? ==> s == "None"
  {
    match x
    case Some(n) => IntToDecimal(n)
    case None => "None"
  }

  /** The diagnostics text `Grssi{rssi}/Gsnr{snr}`, which for a reading
      with both values is the Node encoder's text. */
  function PyDiagnostics(r: Reading): (t: string)
    ensures r.rssi.Some? && r.snr.Some? ==> t == NodeDiagnostics(r)
  {
    "Grssi" + PyText(r.rssi) + "/Gsnr" + PyText(r.snr)
  }

  /** The suffix after the payload: '|' and the diagnostics text. */
  function PySuffix(r: Reading): string
  {
    "|" + PyDiagnostics(r)
  }

  /** The line the Python encoder returns, or the OverflowError it raises
      on the first field that does not fit. */
  function PyEncoded(r: Reading): Result<string, PyError>
  {
    var f := PyFields(r);
    if FitsFrame(f) then Success("FB" + ToHex(FrameOf(f)) + PySuffix(r)) else Failure(OverflowError)
  }

  /** The first k fixed fields each fit their width and signedness. */
  predicate PrefixFits(f: RawFields, k: nat)
    requires k <= |FieldWidths|
  {
    k == 0 || (PrefixFits(f, k - 1) && FitsWidth(FieldValues(f)[k - 1], FieldWidths[k - 1], SignedField(k - 1)))
  }

  /** A field that does not fit spoils every longer prefix. */
  lemma {:induction false} PrefixFitsShorter(f: RawFields, k: nat, n: nat)
    requires k <= n <= |FieldWidths| && PrefixFits(f, n)
    ensures PrefixFits(f, k)
    decreases n - k
  {
    if k < n {
      PrefixFitsShorter(f, k, n - 1);
    }
  }

  /** Every field fits its width exactly when the fixed fields do and the
      user inputs, if present, fit four and two unsigned bytes. */
  lemma FitsFrameFields(f: RawFields)
    ensures FitsFrame(f) <==> (PrefixFits(f, 19)
      && (f.userIn.Some? ==> InUnsignedRange(f.userIn.value.0, 4) && InUnsignedRange(f.userIn.value.1, 2)))
  {
    PrefixFitsFields0To4(f);
    PrefixFitsFields5To9(f);
    PrefixFitsFields10To14(f);
    PrefixFitsFields15To18(f);
  }

  /** One `encodedString += toHexByte(value, bytes, signed)` of fixed field
      k: value and width are entry k of the field table, signedness the one
      the source line passes. It raises exactly when that field does not
      fit, and then the whole frame does not fit. */
  method AppendField<E>(encoded: string, f: RawFields, k: nat, next: nat, signed: bool, thrown: E)
    returns (grown: Result<string, E>)
    requires k < |FieldWidths| && next == k + 1 && signed == SignedField(k)
    requires PrefixFits(f, k) && encoded == EncodedPrefix(f, k)
    ensures grown.Success? ==> PrefixFits(f, next) && grown.value == EncodedPrefix(f, next)
    ensures grown.Failure? ==> grown.error == thrown && !PrefixFits(f, |FieldWidths|)
  {
    FieldWidthBounds(k);
    var value, bytes := FieldValues(f)[k], FieldWidths[k];
    if !FitsWidth(value, bytes, signed) && PrefixFits(f, |FieldWidths|) {
      PrefixFitsShorter(f, next, |FieldWidths|);
      assert false;
    }
    var h :- HexOrThrow(value, bytes, signed, thrown);
    grown := Success(encoded + h);
  }

  /** Fixed fields 0 to 4 fit on top of the fields before them. */
  lemma PrefixFitsFields0To4(f: RawFields)
    ensures PrefixFits(f, 5) <==> PrefixFits(f, 0) && FitsWidth(f.uid, 2, true) && FitsWidth(f.fw, 2, true) && FitsWidth(f.rx, 1, true) && FitsWidth(f.timeMPU, 4, false) && FitsWidth(f.status, 1, false)
  {
    assert PrefixFits(f, 1) == (PrefixFits(f, 0) && FitsWidth(f.uid, 2, true));
    assert PrefixFits(f, 2) == (PrefixFits(f, 1) && FitsWidth(f.fw, 2, true));
    assert PrefixFits(f, 3) == (PrefixFits(f, 2) && FitsWidth(f.rx, 1, true));
    assert PrefixFits(f, 4) == (PrefixFits(f, 3) && FitsWidth(f.timeMPU, 4, false));
    assert PrefixFits(f, 5) == (PrefixFits(f, 4) && FitsWidth(f.status, 1, false));
  }

  /** The lines writing fixed fields 0 to 4. */
  method AppendFields0To4<E>(prefix: string, f: RawFields, thrown: E) returns (result: Result<string, E>)
    requires PrefixFits(f, 0) && prefix == EncodedPrefix(f, 0)
    ensures result.Success? ==> PrefixFits(f, 5) && result.value == EncodedPrefix(f, 5)
    ensures result.Failure? ==> result.error == thrown && !PrefixFits(f, |FieldWidths|)
  {
    var encoded := prefix;
    encoded :- AppendField(encoded, f, 0, 1, true, thrown);
    encoded :- AppendField(encoded, f, 1, 2, true, thrown);
    encoded :- AppendField(encoded, f, 2, 3, true, thrown);
    encoded :- AppendField(encoded, f, 3, 4, false, thrown);
    encoded :- AppendField(encoded, f, 4, 5, false, thrown);
    result := Success(encoded);
  }

  /** Fixed fields 5 to 9 fit on top of the fields before them. */
  lemma PrefixFitsFields5To9(f: RawFields)
    ensures PrefixFits(f, 10) <==> PrefixFits(f, 5) && FitsWidth(f.altitude, 3, true) && FitsWidth(f.speedVert, 2, false) && FitsWidth(f.accel, 2, false) && FitsWidth(f.angle, 1, false) && FitsWidth(f.battVoltage, 2, false)
  {
    assert PrefixFits(f, 6) == (PrefixFits(f, 5) && FitsWidth(f.altitude, 3, true));
    assert PrefixFits(f, 7) == (PrefixFits(f, 6) && FitsWidth(f.speedVert, 2, false));
    assert PrefixFits(f, 8) == (PrefixFits(f, 7) && FitsWidth(f.accel, 2, false));
    assert PrefixFits(f, 9) == (PrefixFits(f, 8) && FitsWidth(f.angle, 1, false));
    assert PrefixFits(f, 10) == (PrefixFits(f, 9) && FitsWidth(f.battVoltage, 2, false));
  }

  /** The lines writing fixed fields 5 to 9. */
  method AppendFields5To9<E>(prefix: string, f: RawFields, thrown: E) returns (result: Result<string, E>)
    requires PrefixFits(f, 5) && prefix == EncodedPrefix(f, 5)
    ensures result.Success? ==> PrefixFits(f, 10) && result.value == EncodedPrefix(f, 10)
    ensures result.Failure? ==> result.error == thrown && !PrefixFits(f, |FieldWidths|)
  {
    var encoded := prefix;
    encoded :- AppendField(encoded, f, 5, 6, true, thrown);
    encoded :- AppendField(encoded, f, 6, 7, false, thrown);
    encoded :- AppendField(encoded, f, 7, 8, false, thrown);
    encoded :- AppendField(encoded, f, 8, 9, false, thrown);
    encoded :- AppendField(encoded, f, 9, 10, false, thrown);
    result := Success(encoded);
  }

  /** Fixed fields 10 to 14 fit on top of the fields before them. */
  lemma PrefixFitsFields10To14(f: RawFields)
    ensures PrefixFits(f, 15) <==> PrefixFits(f, 10) && FitsWidth(f.time, 2, false) && FitsWidth(f.pyroStates, 1, false) && FitsWidth(f.logStatus, 1, false) && FitsWidth(f.gpsLat, 4, true) && FitsWidth(f.gpsLng, 4, true)
  {
    assert PrefixFits(f, 11) == (PrefixFits(f, 10) && FitsWidth(f.time, 2, false));
    assert PrefixFits(f, 12) == (PrefixFits(f, 11) && FitsWidth(f.pyroStates, 1, false));
    assert PrefixFits(f, 13) == (PrefixFits(f, 12) && FitsWidth(f.logStatus, 1, false));
    assert PrefixFits(f, 14) == (PrefixFits(f, 13) && FitsWidth(f.gpsLat, 4, true));
    assert PrefixFits(f, 15) == (PrefixFits(f, 14) && FitsWidth(f.gpsLng, 4, true));
  }

  /** The lines writing fixed fields 10 to 14. */
  method AppendFields10To14<E>(prefix: string, f: RawFields, thrown: E) returns (result: Result<string, E>)
    requires PrefixFits(f, 10) && prefix == EncodedPrefix(f, 10)
    ensures result.Success? ==> PrefixFits(f, 15) && result.value == EncodedPrefix(f, 15)
    ensures result.Failure? ==> result.error == thrown && !PrefixFits(f, |FieldWidths|)
  {
    var encoded := prefix;
    encoded :- AppendField(encoded, f, 10, 11, false, thrown);
    encoded :- AppendField(encoded, f, 11, 12, false, thrown);
    encoded :- AppendField(encoded, f, 12, 13, false, thrown);
    encoded :- AppendField(encoded, f, 13, 14, true, thrown);
    encoded :- AppendField(encoded, f, 14, 15, true, thrown);
    result := Success(encoded);
  }

  /** Fixed fields 15 to 18 fit on top of the fields before them. */
  lemma PrefixFitsFields15To18(f: RawFields)
    ensures PrefixFits(f, 19) <==> PrefixFits(f, 15) && FitsWidth(f.gpsState, 1, false) && FitsWidth(f.warnCode, 1, false) && FitsWidth(f.messageType, 1, false) && FitsWidth(f.messageValue, 3, false)
  {
    assert PrefixFits(f, 16) == (PrefixFits(f, 15) && FitsWidth(f.gpsState, 1, false));
    assert PrefixFits(f, 17) == (PrefixFits(f, 16) && FitsWidth(f.warnCode, 1, false));
    assert PrefixFits(f, 18) == (PrefixFits(f, 17) && FitsWidth(f.messageType, 1, false));
    assert PrefixFits(f, 19) == (PrefixFits(f, 18) && FitsWidth(f.messageValue, 3, false));
  }

  /** The lines writing fixed fields 15 to 18. */
  method AppendFields15To18<E>(prefix: string, f: RawFields, thrown: E) returns (result: Result<string, E>)
    requires PrefixFits(f, 15) && prefix == EncodedPrefix(f, 15)
    ensures result.Success? ==> PrefixFits(f, 19) && result.value == EncodedPrefix(f, 19)
    ensures result.Failure? ==> result.error == thrown && !PrefixFits(f, |FieldWidths|)
  {
    var encoded := prefix;
    encoded :- AppendField(encoded, f, 15, 16, false, thrown);
    encoded :- AppendField(encoded, f, 16, 17, false, thrown);
    encoded :- AppendField(encoded, f, 17, 18, false, thrown);
    encoded :- AppendField(encoded, f, 18, 19, false, thrown);
    result := Success(encoded);
  }

  /** The nineteen fixed-field lines, stopping at the first that raises. */
  method AppendFixedFields<E>(f: RawFields, thrown: E) returns (result: Result<string, E>)
    ensures result.Success? <==> PrefixFits(f, 19)
    ensures result.Success? ==> result.value == EncodedPrefix(f, 19)
    ensures result.Failure? ==> result.error == thrown
  {
    var encoded := "FB";
    encoded :- AppendFields0To4(encoded, f, thrown);
    encoded :- AppendFields5To9(encoded, f, thrown);
    encoded :- AppendFields10To14(encoded, f, thrown);
    encoded :- AppendFields15To18(encoded, f, thrown);
    result := Success(encoded);
  }

  /** `dataToEncodedString`: "FB", the fixed fields, the user inputs when
      neither is None, and the diagnostics suffix; OverflowError from the
      first value that does not fit. */
  method DataToEncodedString(r: Reading) returns (result: Result<string, PyError>)
    ensures result == PyEncoded(r)
  {
    var f := PyFields(r);
    FitsFrameFields(f);
    var encodedString :- AppendFixedFields(f, OverflowError);
    if r.userIn1.Some? && r.userIn2.Some? {
      var u1, u2 := r.userIn1.value, r.userIn2.value;
      var h1 :- ToHexByte(u1, 4, false);
      encodedString := encodedString + h1;
      var h2 :- ToHexByte(u2, 2, false);
      encodedString := encodedString + h2;
      PrefixWithTail(f, u1, u2);
    } else {
      PrefixNoTail(f);
    }
    encodedString := encodedString + PySuffix(r);
    result := Success(encodedString);
  }
}
