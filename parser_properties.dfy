/** What `parseTelemetry` promises about a line: which of its three
    results it gives and when, how the hex becomes bytes, how the status
    and pyro bytes are named, and what it reads back from a line the Node
    encoder wrote. */
module ParserProperties {
  import opened Wrappers
  import opened ByteCodec
  import opened JsInt32
  import opened Text
  import opened Hex
  import opened Telemetry
  import opened Sequences
  import opened BrowserParser
  import opened NodeEncoder

  // ---------------------------------------------------------------------
  // The three outcomes

  /** A header, spelt "FB" or "F B", is always gone from the cleaned hex:
      the white-space-free hex part starts with "FB" and the bytes come
      from what follows it. */
  lemma HeaderAlwaysStripped(hexPart: string)
    requires HasHeader(hexPart)
    ensures StartsWith(RemoveJsWhite(hexPart), "FB")
    ensures CleanHex(hexPart) == RemoveJsWhite(hexPart)[2..]
  {
    var k := if StartsWith(hexPart, "FB") then 2 else 3;
    var head, rest := hexPart[..k], hexPart[k..];
    assert hexPart == head + rest;
    RemoveJsWhiteAppend(head, rest);
    assert RemoveJsWhite(head) == "FB" by {
      if k == 2 {
        assert head == "FB";
      } else {
        assert head == "F B";
        assert RemoveJsWhite(head[2..]) == "B";
      }
    }
  }

  /** `parseTelemetry` keeps the trimmed line as `raw` in every result; it
      is `other` exactly when the part before the first '|' has no header;
      with a header it is `error` exactly when fewer than 76 hex characters
      follow the "FB" (fewer than 38 bytes), and the user inputs are set
      exactly when at least 84 follow it (42 bytes). */
  lemma ParseLineOutcome(input: string)
    ensures ParseLine(input).raw == TrimJs(input)
    ensures ParseLine(input).Other? <==> !HasHeader(CutAtPipe(TrimJs(input)).0)
    ensures HasHeader(CutAtPipe(TrimJs(input)).0) ==>
      (ParseLine(input).Error? <==> |RemoveJsWhite(CutAtPipe(TrimJs(input)).0)| < 2 + 2 * FrameBytes)
    ensures ParseLine(input).Telemetry? ==>
      ParseLine(input).diagnostics == CutAtPipe(TrimJs(input)).1
      && (ParseLine(input).data.userIn1.Some? <==> |RemoveJsWhite(CutAtPipe(TrimJs(input)).0)| >= 86)
      && (ParseLine(input).data.userIn2.Some? <==> |RemoveJsWhite(CutAtPipe(TrimJs(input)).0)| >= 86)
  {
    var hexPart := CutAtPipe(TrimJs(input)).0;
    if HasHeader(hexPart) {
      HeaderAlwaysStripped(hexPart);
      assert |HexBytes(CleanHex(hexPart))| == (|RemoveJsWhite(hexPart)| - 2) / 2;
    }
  }

  // ---------------------------------------------------------------------
  // From hex to bytes

  /** The hex of any bytes becomes those bytes again. */
  lemma HexBytesOfHex(bs: seq<int>)
    requires IsBytes(bs)
    ensures HexBytes(ToHex(bs)) == bs
  {
    PairsOfHex(bs);
    forall k | 0 <= k < |bs|
      ensures HexBytes(ToHex(bs))[k] == bs[k]
    {
      MapAt(PairByte, Pairs(ToHex(bs)), k);
      assert HexPairs(bs)[k] == ByteHex(bs[k]);
      PairByteOfByteHex(bs[k]);
    }
  }

  /** The two hex digits of a byte are stored as that byte. */
  lemma PairByteOfByteHex(b: int)
    requires IsByte(b)
    ensures PairByte(ByteHex(b)) == b
  {
    ByteHexValue(b);
    PairByteOfNumber(ByteHex(b), b);
  }

  /** A chunk `parseInt` reads as a byte value is stored as that value. */
  lemma PairByteOfNumber(pair: string, n: int)
    requires ParseIntHex(pair) == Num(n) && IsByte(n)
    ensures PairByte(pair) == n
  {
  }

  /** An odd trailing nibble is lost: the array has room for whole pairs only. */
  lemma OddNibbleDropped(cleanHex: string, c: char)
    requires |cleanHex| % 2 == 0
    ensures HexBytes(cleanHex + [c]) == HexBytes(cleanHex)
  {
    var s := cleanHex + [c];
    assert Pairs(s) == Pairs(cleanHex) by {
      forall i | 0 <= i < |Pairs(s)|
        ensures Pairs(s)[i] == Pairs(cleanHex)[i]
      {
        assert s[2 * i..2 * i + 2] == cleanHex[2 * i..2 * i + 2];
      }
    }
  }

  /** A chunk that does not start with a hex digit, or with a sign and then
      a hex digit, is stored as 0 (`parseInt` gives NaN). */
  lemma PairByteNoDigit(pair: string)
    requires |pair| == 2 && !IsJsWhite(pair[0]) && !IsHexDigit(pair[0])
    requires pair[0] == '-' || pair[0] == '+' ==> !IsHexDigit(pair[1])
    ensures PairByte(pair) == 0
  {
    assert TrimStartJs(pair) == pair;
    var body := SignAndBody(pair).1;
    assert body == pair || body == pair[1..];
    assert HexRun(body) == 0;
  }

  /** A chunk whose second character is not a hex digit is stored as the
      value of its first digit. */
  lemma PairByteOneDigit(pair: string)
    requires |pair| == 2 && IsHexDigit(pair[0]) && !IsHexDigit(pair[1])
    ensures PairByte(pair) == DigitValue(pair[0])
  {
    HexDigitIsPlain(pair[0]);
    assert TrimStartJs(pair) == pair;
    if pair[0] == '0' && (pair[1] == 'x' || pair[1] == 'X') {
      // "0x" is a prefix with no digits after it.
      assert SignAndBody(pair) == (false, []);
    } else {
      assert SignAndBody(pair) == (false, pair);
      assert HexRun(pair) == 1;
      assert pair[..1] == [] + [pair[0]];
      HexValueSnoc([], pair[0]);
    }
  }

  /** A '-' and a hex digit is stored as the low byte of the negated digit
      ("-5" becomes 251). */
  lemma PairByteNegated(pair: string)
    requires |pair| == 2 && pair[0] == '-' && IsHexDigit(pair[1])
    ensures PairByte(pair) == (256 - DigitValue(pair[1])) % 256
  {
    var d: int := DigitValue(pair[1]);
    assert ParseIntHex(pair) == Num(-d) by {
      var body := pair[1..];
      assert TrimStartJs(pair) == pair;
      assert SignAndBody(pair) == (true, body);
      assert HexRun(body) == 1;
      assert body[..1] == [] + [pair[1]];
      HexValueSnoc([], pair[1]);
    }
  }

  // ---------------------------------------------------------------------
  // Status and pyro bytes

  /** A status byte read as a signed 8-bit value is named exactly when it
      is below 7; the bytes 0x80 and above, negative once read, are all
      "UNKNOWN". */
  lemma StatusOfByte(b: int)
    requires IsByte(b)
    ensures StatusString(Signed(b, 1)) == (if b < 7 then StatusNames[b] else "UNKNOWN")
  {
    assert Pow256(1) == 256;
  }

  /** The pyro byte read as a signed 8-bit value names channel A from bits
      0-1, B from bits 2-3 and C from bits 4-5 of the byte. */
  lemma DecodePyroOfByte(b: int)
    requires IsByte(b)
    ensures DecodePyro(Signed(b, 1)) == PyroLabels(PyroLabel(b % 4), PyroLabel(b / 4 % 4), PyroLabel(b / 16 % 4))
  {
    var s := Signed(b, 1);
    assert Pow256(1) == 256 && Pow2(2) == 4 && Pow2(4) == 16;
    assert s == b || s == b - 256;
    Int32Identity(s);
    ShiftCount(2);
    ShiftCount(4);
    if s != b {
      assert s / 4 == b / 4 - 64 && s / 16 == b / 16 - 16;
    }
    LowTwoBits(s, b, 64);
    LowTwoBits(s / 4, b / 4, 16);
    LowTwoBits(s / 16, b / 16, 4);
  }

  /** Bits 0-1 of x, masked as a 32-bit value, are those of y when x and y
      differ by a multiple of 4. */
  lemma LowTwoBits(x: int, y: int, m: nat)
    requires x == y || x == y - 4 * m
    ensures AndLow(x, 2) == y % 4
  {
    assert Pow2(2) == 4;
    ModMod(x, 4, TWO32 / 4);
  }

  // ---------------------------------------------------------------------
  // A line the Node encoder wrote

  /** The rendering of a number or null ends in a digit or an 'l'. */
  lemma JsTextEnd(x: Option<int>)
    ensures |JsText(x)| >= 1 && !IsJsWhite(JsText(x)[|JsText(x)| - 1])
  {
    var t := JsText(x);
    if x.Some? {
      assert IsAsciiDigit(t[|t| - 1]);
    } else {
      assert t == "null";
    }
  }

  /** A line whose first '|' follows a hex part is cut there. */
  lemma CutAfter(hexPart: string, diag: string)
    requires forall i | 0 <= i < |hexPart| :: hexPart[i] != '|'
    ensures CutAtPipe(hexPart + ['|'] + diag) == (hexPart, diag)
  {
    var line := hexPart + ['|'] + diag;
    var k := |hexPart|;
    forall i | 0 <= i < k
      ensures line[i] != '|'
    {
      assert line[i] == hexPart[i];
    }
    IndexOfAt(line, '|', k);
    assert line[..k] == hexPart && line[k + 1..] == diag;
  }

  /** "FB" and hex digits hold neither white space nor a '|'. */
  lemma PlainPayload(hex: string)
    requires AllHex(hex)
    ensures forall i | 0 <= i < |"FB" + hex| :: ("FB" + hex)[i] != '|' && !IsJsWhite(("FB" + hex)[i])
  {
    var hexPart := "FB" + hex;
    forall i | 0 <= i < |hexPart|
      ensures hexPart[i] != '|' && !IsJsWhite(hexPart[i])
    {
      if i >= 2 {
        HexDigitIsPlain(hex[i - 2]);
      }
    }
  }

  /** The encoded line is already trimmed, and its first '|' comes right
      after the payload hex. */
  lemma NodeLineCut(r: Reading)
    ensures TrimJs(NodeEncoded(r)) == NodeEncoded(r)
    ensures CutAtPipe(NodeEncoded(r)) == ("FB" + ToHex(FrameOf(NodeFields(r))), NodeDiagnostics(r))
  {
    var hex := ToHex(FrameOf(NodeFields(r)));
    var diag := NodeDiagnostics(r);
    var line := NodeEncoded(r);
    assert line == "FB" + hex + ['|'] + diag;
    JsTextEnd(r.snr);
    assert line[|line| - 1] == JsText(r.snr)[|JsText(r.snr)| - 1];
    TrimJsOfPlain(line);
    PlainPayload(hex);
    CutAfter("FB" + hex, diag);
  }

  /** The header and payload of an encoded line clean to the payload hex. */
  lemma CleanPayload(hex: string)
    requires AllHex(hex)
    ensures HasHeader("FB" + hex) && CleanHex("FB" + hex) == hex
  {
    PlainPayload(hex);
    RemoveJsWhiteOfPlain("FB" + hex);
    assert StartsWith("FB" + hex, "FB");
  }

  /** A line the Node encoder wrote parses as telemetry, with the encoder's
      diagnostics text and the fields read from the frame it wrote. */
  lemma NodeLineParsed(r: Reading)
    ensures ParseLine(NodeEncoded(r))
      == Telemetry(NodeEncoded(r), NodeDiagnostics(r), FrameAt(FrameOf(NodeFields(r))))
  {
    var frame := FrameOf(NodeFields(r));
    NodeLineCut(r);
    CleanPayload(ToHex(frame));
    HexBytesOfHex(frame);
  }

  /** A field written unsigned at width w is read back as its two's-complement
      reinterpretation. */
  lemma ReadBackUnsigned(view: seq<int>, k: nat, w: nat, v: int)
    requires k + w <= |view| && view[k..k + w] == WriteLE(v, w) && InUnsignedRange(v, w)
    ensures GetIntLE(view, k, w) == Signed(v, w)
  {
    UnsignedRoundTrip(v, w);
  }

  /** A field written signed at width w is read back exactly. */
  lemma ReadBackSigned(view: seq<int>, k: nat, w: nat, v: int)
    requires k + w <= |view| && view[k..k + w] == WriteLE(v, w) && InSignedRange(v, w)
    ensures GetIntLE(view, k, w) == v
  {
    SignedRoundTrip(v, w);
  }

  /** uid, fw, the packet counter, the altitude and the coordinates, which
      the encoder writes signed, come back exactly. */
  lemma SignedFieldsBack(f: RawFields)
    requires FitsFrame(f)
    ensures FrameAt(FrameOf(f)).uid == f.uid && FrameAt(FrameOf(f)).fw == f.fw
    ensures FrameAt(FrameOf(f)).packetCount == f.rx && FrameAt(FrameOf(f)).altitude == f.altitude
    ensures FrameAt(FrameOf(f)).gpsLat == Scaled(f.gpsLat, 1000000)
    ensures FrameAt(FrameOf(f)).gpsLng == Scaled(f.gpsLng, 1000000)
  {
    var view := FrameOf(f);
    FrameLayout(f);
    ReadBackSigned(view, 0, 2, f.uid);
    ReadBackSigned(view, 2, 2, f.fw);
    ReadBackSigned(view, 4, 1, f.rx);
    ReadBackSigned(view, 10, 3, f.altitude);
    ReadBackSigned(view, 24, 4, f.gpsLat);
    ReadBackSigned(view, 28, 4, f.gpsLng);
  }

  /** The fields the encoder writes unsigned and the parser reads signed
      come back as their two's-complement reinterpretation: equal to what
      was written below half the range, shifted down by the range above it. */
  lemma WrappedFieldsBack(f: RawFields)
    requires FitsFrame(f)
    ensures FrameAt(FrameOf(f)).timeMPU == Signed(f.timeMPU, 4)
    ensures FrameAt(FrameOf(f)).statusCode == Signed(f.status, 1)
    ensures FrameAt(FrameOf(f)).speedVert == Signed(f.speedVert, 2)
    ensures FrameAt(FrameOf(f)).accel == Scaled(Signed(f.accel, 2), 10)
    ensures FrameAt(FrameOf(f)).battVoltage == Signed(f.battVoltage, 2)
    ensures FrameAt(FrameOf(f)).flightTime == Scaled(Signed(f.time, 2), 10)
    ensures FrameAt(FrameOf(f)).logStatus == Signed(f.logStatus, 1)
    ensures FrameAt(FrameOf(f)).gpsState == Signed(f.gpsState, 1)
    ensures FrameAt(FrameOf(f)).warnCode == Signed(f.warnCode, 1)
  {
    var view := FrameOf(f);
    FrameLayout(f);
    ReadBackUnsigned(view, 5, 4, f.timeMPU);
    ReadBackUnsigned(view, 9, 1, f.status);
    ReadBackUnsigned(view, 13, 2, f.speedVert);
    ReadBackUnsigned(view, 15, 2, f.accel);
    ReadBackUnsigned(view, 18, 2, f.battVoltage);
    ReadBackUnsigned(view, 20, 2, f.time);
    ReadBackUnsigned(view, 23, 1, f.logStatus);
    ReadBackUnsigned(view, 32, 1, f.gpsState);
    ReadBackUnsigned(view, 33, 1, f.warnCode);
  }

  /** The status, the angle, the pyro channels and the message: the status
      byte is named only below 7, the angle byte comes back as written, each
      pyro channel is named from its two bits of the byte, the message type
      becomes its character and the 24-bit value is sign-extended, and the
      stats are set exactly for an 'A' message. */
  lemma NamedFieldsBack(f: RawFields)
    requires FitsFrame(f)
    ensures FrameAt(FrameOf(f)).status == (if f.status < 7 then StatusNames[f.status] else "UNKNOWN")
    ensures FrameAt(FrameOf(f)).angle == f.angle
    ensures FrameAt(FrameOf(f)).pyro
      == PyroLabels(PyroLabel(f.pyroStates % 4), PyroLabel(f.pyroStates / 4 % 4), PyroLabel(f.pyroStates / 16 % 4))
    ensures FrameAt(FrameOf(f)).message.id == f.messageType as char
    ensures FrameAt(FrameOf(f)).message.value == Signed(f.messageValue, 3)
    ensures FrameAt(FrameOf(f)).message.decodedValue == Scaled(Signed(f.messageValue, 3), 10)
    ensures FrameAt(FrameOf(f)).stats.Some? <==> f.messageType == 'A' as int
    ensures FrameAt(FrameOf(f)).stats.Some? ==> FrameAt(FrameOf(f)).stats.value == Stats("Max Altitude", Signed(f.messageValue, 3))
  {
    var view := FrameOf(f);
    FrameLayout(f);
    ReadBackUnsigned(view, 9, 1, f.status);
    StatusOfByte(f.status);
    ReadBackUnsigned(view, 22, 1, f.pyroStates);
    DecodePyroOfByte(f.pyroStates);
    ReadBackUnsigned(view, 35, 3, f.messageValue);
    WriteLEOne(f.angle);
    WriteLEOne(f.messageType);
    assert view[17] == view[17..18][0] && view[34] == view[34..35][0];
  }

  // ---------------------------------------------------------------------
  // The user inputs

  /** As written, the parser reads the user inputs as two signed 16-bit
      values at bytes 38 and 40, while the encoder writes a 32-bit userIn1
      at 38 and a 16-bit userIn2 at 42: userIn1 comes back as the low half
      of the written userIn1, userIn2 as its high half, and the written
      userIn2 is never read. */
  lemma TailAsWritten(f: RawFields)
    requires FitsFrame(f)
    ensures f.userIn.None? ==> FrameAt(FrameOf(f)).userIn1.None? && FrameAt(FrameOf(f)).userIn2.None?
    ensures f.userIn.Some? ==>
      FrameAt(FrameOf(f)).userIn1 == Some(Signed(f.userIn.value.0 % 0x1_0000, 2))
      && FrameAt(FrameOf(f)).userIn2 == Some(Signed(f.userIn.value.0 / 0x1_0000, 2))
  {
    if f.userIn.Some? {
      var view := FrameOf(f);
      var u1 := f.userIn.value.0;
      TailLayout(f);
      assert Pow256(2) == 0x1_0000;
      WriteLESplit(u1, 2, 2);
      assert view[38..40] == WriteLE(u1, 2) && view[40..42] == WriteLE(u1 / 0x1_0000, 2);
      WriteLEMod(u1, 2);
      ReadBackUnsigned(view, 38, 2, u1 % 0x1_0000);
      ReadBackUnsigned(view, 40, 2, u1 / 0x1_0000);
    }
  }

  /** userIn1 = 0x10000 and userIn2 = 5 show as userIn1 0 and userIn2 1. */
  lemma TailMixUp(f: RawFields)
    requires FitsFrame(f) && f.userIn == Some((0x1_0000, 5))
    ensures FrameAt(FrameOf(f)).userIn1 == Some(0) && FrameAt(FrameOf(f)).userIn2 == Some(1)
  {
    TailAsWritten(f);
    assert Pow256(2) == 0x1_0000;
  }

  /** The user inputs as the encoder lays them out: an unsigned 32-bit
      userIn1 at byte 38 and an unsigned 16-bit userIn2 at byte 42, both
      little-endian, when all 44 bytes are there. */
  function IntendedUserIns(view: seq<int>): (userIns: (Option<int>, Option<int>))
    ensures userIns.0.Some? <==> |view| >= FullFrameBytes
    ensures userIns.1.Some? <==> |view| >= FullFrameBytes
  {
    if |view| >= FullFrameBytes then (Some(ReadLE(view[38..42])), Some(ReadLE(view[42..44])))
    else (None, None)
  }

  /** Read that way, the user inputs of any frame come back exactly. */
  lemma IntendedUserInsBack(f: RawFields)
    requires FitsFrame(f)
    ensures f.userIn.Some? ==> IntendedUserIns(FrameOf(f)) == (Some(f.userIn.value.0), Some(f.userIn.value.1))
    ensures f.userIn.None? ==> IntendedUserIns(FrameOf(f)) == (None, None)
  {
    if f.userIn.Some? {
      TailLayout(f);
      UnsignedRoundTrip(f.userIn.value.0, 4);
      UnsignedRoundTrip(f.userIn.value.1, 2);
    }
  }
}
