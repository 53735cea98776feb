/** The Node.js encoder (`dataToEncodedString` of the fluctus JavaScript
    scripts): "FB", then every field as upper-case little-endian hex at its
    width, then the radio diagnostics suffix. */
module NodeEncoder {
  import opened Wrappers
  import opened ByteCodec
  import opened JsInt32
  import opened Text
  import opened Hex
  import opened Telemetry
  import opened Sequences

  /** The bytes `toHexByte` extracts from a value: `(value >> (i * 8)) & 0xFF`
      for i from 0 to bytes - 1. */
  function ShiftedBytes(value: int, bytes: nat): (bs: seq<int>)
    ensures |bs| == bytes && IsBytes(bs)
  {
    assert Pow2(8) == 256;
    seq(bytes, i requires 0 <= i < bytes => AndLow(ShiftRight(value, i * 8), 8))
  }

  lemma ShiftedByteAt(value: int, bytes: nat, i: nat)
    requires i < bytes
    ensures IsByte(AndLow(ShiftRight(value, i * 8), 8))
    ensures ShiftedBytes(value, bytes)[i] == AndLow(ShiftRight(value, i * 8), 8)
  {
  }

  /** One more byte of the loop in `toHexByte` adds its hex pair. */
  lemma ShiftedHexStep(value: int, bytes: nat, i: nat)
    requires i < bytes
    ensures HexPairs(ShiftedBytes(value, bytes)[..i + 1])
      == HexPairs(ShiftedBytes(value, bytes)[..i]) + [ByteHex(AndLow(ShiftRight(value, i * 8), 8))]
  {
    var all := ShiftedBytes(value, bytes);
    ShiftedByteAt(value, bytes, i);
    TakeOneMore(all, i);
    HexPairsSnoc(all[..i], all[i]);
  }

  /** Up to four bytes, shifting and masking reads the little-endian bytes of
      the value, whatever its sign or size. */
  lemma ShiftedBytesAreLE(value: int, bytes: nat)
    requires bytes <= 4
    ensures ShiftedBytes(value, bytes) == WriteLE(value, bytes)
  {
    forall i | 0 <= i < bytes
      ensures ShiftedBytes(value, bytes)[i] == WriteLE(value, bytes)[i]
    {
      ShiftMaskByte(value, i);
      assert i * 8 == 8 * i;
      WriteLEAt(value, bytes, i);
    }
  }

  /** Adding 2^(8 * bytes) to a negative value does not change its bytes. */
  lemma TwosComplementBytes(value: int, bytes: nat)
    ensures WriteLE(Pow256(bytes) + value, bytes) == WriteLE(value, bytes)
  {
    WriteLEMod(value, bytes);
    WriteLEMod(Pow256(bytes) + value, bytes);
    DivAddMultiple(value, 1, Pow256(bytes));
  }

  /** The value `toHexByte` shifts and masks: a negative signed value moved
      up by 2^(8 * bytes). */
  function Lifted(value: int, bytes: nat, signed: bool): int
  {
    if signed && value < 0 then Pow256(bytes) + value else value
  }

  /** Up to four bytes, the lifted value's shifted bytes are the
      little-endian bytes of the value itself, signed or not. */
  lemma LiftedBytesAreLE(value: int, bytes: nat, signed: bool)
    requires bytes <= 4
    ensures ShiftedBytes(Lifted(value, bytes, signed), bytes) == WriteLE(value, bytes)
  {
    ShiftedBytesAreLE(Lifted(value, bytes, signed), bytes);
    if signed && value < 0 {
      TwosComplementBytes(value, bytes);
    }
  }

  /** `toHexByte(value, bytes, signed)`: a negative signed value is first
      moved up by 2^(8 * bytes), then each byte is printed as two upper-case
      hex digits, least significant first. Up to four bytes this is the hex
      of the value's little-endian bytes. */
  method ToHexByte(value: int, bytes: nat, signed: bool) returns (s: string)
    ensures s == ToHex(ShiftedBytes(Lifted(value, bytes, signed), bytes))
    ensures bytes <= 4 ==> s == ToHex(WriteLE(value, bytes))
  {
    var v := value;
    if signed && value < 0 {
      v := Pow256(bytes) + value;
    }
    ghost var all := ShiftedBytes(v, bytes);
    var hexBytes: seq<string> := [];
    for i := 0 to bytes
      invariant hexBytes == HexPairs(all[..i])
    {
      ShiftedHexStep(v, bytes, i);
      hexBytes := hexBytes + [ByteHex(AndLow(ShiftRight(v, i * 8), 8))];
    }
    TakeAll(all);
    s := Concat(hexBytes);
    ConcatHexPairs(all);
    if bytes <= 4 {
      LiftedBytesAreLE(value, bytes, signed);
    }
  }

  /** The integers the encoder writes for a reading: the scaled fields
      rounded down, the message split into `message >> 24` and
      `message & 0x00FFFFFF`, and the user inputs when neither is null. */
  function NodeFields(r: Reading): RawFields
  {
    RawFields(r.uid, r.fw, r.rx, r.timeMPU, r.status, r.altitude, r.speedVert,
      Floor(r.accel * 10.0), r.angle, Floor(r.battVoltage * 1000.0), Floor(r.time * 10.0),
      r.pyroStates, r.logStatus, Floor(r.gpsLat * 1000000.0), Floor(r.gpsLng * 1000000.0),
      r.gpsState, r.warnCode, ShiftRight(r.message, 24), AndLow(r.message, 24),
      if r.userIn1.Some? && r.userIn2.Some? then Some((r.userIn1.value, r.userIn2.value)) else None)
  }

  /** A template literal's rendering of a number or null. */
  function JsText(x: Option<int>): string
  {
    match x
    case Some(n) => IntToDecimal(n)
    case None => "null"
  }

  /** The diagnostics text after the '|': `Grssi${rssi}/Gsnr${snr}`. */
  function NodeDiagnostics(r: Reading): string
  {
    "Grssi" + JsText(r.rssi) + "/Gsnr" + JsText(r.snr)
  }

  /** The suffix `|Grssi${rssi}/Gsnr${snr}` the encoder always appends. */
  function NodeSuffix(r: Reading): string
  {
    "|" + NodeDiagnostics(r)
  }

  /** The whole line the Node encoder produces for a reading. */
  function NodeEncoded(r: Reading): string
  {
    "FB" + ToHex(FrameOf(NodeFields(r))) + NodeSuffix(r)
  }

  /** The encoded string after the first k fixed fields: "FB" and the hex of
      each field at its width. */
  function EncodedPrefix(f: RawFields, k: nat): string
    requires k <= |FieldWidths|
  {
    if k == 0 then "FB"
    else
      FieldWidthBounds(k - 1);
      EncodedPrefix(f, k - 1) + ToHex(WriteLE(FieldValues(f)[k - 1], FieldWidths[k - 1]))
  }

  /** The prefix is "FB" and the hex of the first k fields written one after
      the other. */
  lemma {:induction false} EncodedPrefixIsHex(f: RawFields, k: nat)
    requires k <= |FieldWidths|
    ensures EncodedPrefix(f, k) == "FB" + ToHex(WriteFields(FieldValues(f), FieldWidths, k))
  {
    if k > 0 {
      EncodedPrefixIsHex(f, k - 1);
      AppendHex("FB", WriteFields(FieldValues(f), FieldWidths, k - 1), WriteLE(FieldValues(f)[k - 1], FieldWidths[k - 1]));
    }
  }

  /** One `encodedString += toHexByte(value, bytes, signed)` of a fixed
      field: value and width are entry k of the field table. */
  method AppendField(encoded: string, f: RawFields, k: nat, signed: bool) returns (grown: string)
    requires k < |FieldWidths| && encoded == EncodedPrefix(f, k)
    ensures grown == EncodedPrefix(f, k + 1)
  {
    FieldWidthBounds(k);
    var h := ToHexByte(FieldValues(f)[k], FieldWidths[k], signed);
    grown := encoded + h;
  }

  lemma AppendHex(prefix: string, a: seq<int>, b: seq<int>)
    requires IsBytes(a) && IsBytes(b)
    ensures prefix + ToHex(a) + ToHex(b) == prefix + ToHex(a + b)
  {
    ToHexAppend(a, b);
  }

  /** The encoded fixed fields followed by the hex of the two user inputs
      is "FB" and the hex of the whole frame. */
  lemma PrefixWithTail(f: RawFields, u1: int, u2: int)
    requires f.userIn == Some((u1, u2))
    ensures EncodedPrefix(f, 19) + ToHex(WriteLE(u1, 4)) + ToHex(WriteLE(u2, 2)) == "FB" + ToHex(FrameOf(f))
  {
    var fixed := WriteFields(FieldValues(f), FieldWidths, 19);
    var a, b := WriteLE(u1, 4), WriteLE(u2, 2);
    EncodedPrefixIsHex(f, 19);
    AppendHex("FB", fixed, a);
    BytesAppend(fixed, a);
    AppendHex("FB", fixed + a, b);
    Associative(fixed, a, b);
    assert FrameOf(f) == fixed + (a + b);
  }

  /** Without user inputs the encoded fixed fields are "FB" and the hex of
      the whole frame. */
  lemma PrefixNoTail(f: RawFields)
    requires f.userIn.None?
    ensures EncodedPrefix(f, 19) == "FB" + ToHex(FrameOf(f))
  {
    var fixed := WriteFields(FieldValues(f), FieldWidths, 19);
    EncodedPrefixIsHex(f, 19);
    assert FrameOf(f) == fixed + [];
    AppendNothing(fixed);
  }

  /** The nineteen `encodedString += toHexByte(...)` lines of the fixed
      fields, in frame order; the signed ones are uid, fw, rx, altitude and
      the two coordinates. */
  method AppendFixedFields(f: RawFields) returns (encoded: string)
    ensures encoded == EncodedPrefix(f, 19)
  {
    encoded := "FB";
    encoded := AppendField(encoded, f, 0, true);
    encoded := AppendField(encoded, f, 1, true);
    encoded := AppendField(encoded, f, 2, true);
    encoded := AppendField(encoded, f, 3, false);
    encoded := AppendField(encoded, f, 4, false);
    encoded := AppendField(encoded, f, 5, true);
    encoded := AppendField(encoded, f, 6, false);
    encoded := AppendField(encoded, f, 7, false);
    encoded := AppendField(encoded, f, 8, false);
    encoded := AppendField(encoded, f, 9, false);
    encoded := AppendField(encoded, f, 10, false);
    encoded := AppendField(encoded, f, 11, false);
    encoded := AppendField(encoded, f, 12, false);
    encoded := AppendField(encoded, f, 13, true);
    encoded := AppendField(encoded, f, 14, true);
    encoded := AppendField(encoded, f, 15, false);
    encoded := AppendField(encoded, f, 16, false);
    encoded := AppendField(encoded, f, 17, false);
    encoded := AppendField(encoded, f, 18, false);
  }

  /** `dataToEncodedString`: "FB", the fixed fields, the user inputs when
      neither is null, and the diagnostics suffix. */
  method DataToEncodedString(r: Reading) returns (encodedString: string)
    ensures encodedString == NodeEncoded(r)
  {
    var f := NodeFields(r);
    encodedString := AppendFixedFields(f);
    if r.userIn1.Some? && r.userIn2.Some? {
      var h1 := ToHexByte(r.userIn1.value, 4, false);
      encodedString := encodedString + h1;
      var h2 := ToHexByte(r.userIn2.value, 2, false);
      encodedString := encodedString + h2;
      PrefixWithTail(f, r.userIn1.value, r.userIn2.value);
    } else {
      PrefixNoTail(f);
    }
    encodedString := encodedString + NodeSuffix(r);
  }
}
