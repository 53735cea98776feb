/** What the guarded Python decoder makes of what the Python encoder
    writes: every integer field comes back exactly, the scaled ones within
    one step of their scale, the status and pyro bytes with their names;
    a reading without rssi is rejected by the guard and one without snr
    raises in the snr search. The user inputs come back in the wrong byte
    order, and the message `raw` is not the message sent. */
module PyRoundTrip {
  import opened Wrappers
  import opened ByteCodec
  import opened Text
  import opened Hex
  import opened Telemetry
  import opened Sequences
  import opened PyEncoder
  import opened PyDecoder
  import opened PyProperties
  import NodeRoundTrip

  /** The f-string rendering of an int or None has no '|', no 's' and no
      'r' in it. */
  lemma PyTextChars(x: Option<int>)
    ensures |PyText(x)| >= 1
    ensures forall i | 0 <= i < |PyText(x)| :: PyText(x)[i] != '|' && PyText(x)[i] != 's' && PyText(x)[i] != 'r'
  {
  }

  /** The alphanumeric run over hex digits stops exactly where they end,
      when what follows is not a letter or a digit. */
  lemma {:induction false} AlnumRunOver(hex: string, tail: string)
    requires AllHex(hex)
    requires tail == [] || !IsAsciiAlnum(tail[0])
    ensures AlnumRun(hex + tail) == |hex|
  {
    if hex != [] {
      assert (hex + tail)[1..] == hex[1..] + tail;
      assert IsHexDigit(hex[0]);
      AlnumRunOver(hex[1..], tail);
    } else {
      assert hex + tail == tail;
    }
  }

  /** The diagnostics text the encoder writes passes the guard's pattern
      exactly when it carries a number for rssi. */
  lemma DiagnosticsOfReading(r: Reading)
    ensures DiagnosticsMatch(PyDiagnostics(r)) <==> r.rssi.Some?
  {
    match r.rssi
    case Some(n) => DiagnosticsOfNumber(n, PyText(r.snr));
    case None => DiagnosticsOfNone(PyText(r.snr));
  }

  /** What follows "Grssi" in the diagnostics text. */
  lemma AfterGrssi(a: string, b: string)
    ensures var t := "Grssi" + a + "/Gsnr" + b;
      StartsWith(t, "Grssi") && t[5..] == a + ("/Gsnr" + b)
  {
    var t := "Grssi" + a + "/Gsnr" + b;
    Associative("Grssi" + a, "/Gsnr", b);
    Associative("Grssi", a, "/Gsnr" + b);
    PrefixOfAppend("Grssi", a + ("/Gsnr" + b));
    SuffixOfAppend("Grssi", a + ("/Gsnr" + b));
  }

  /** A number for rssi: the sign, the digit run and "/Gsnr" follow. */
  lemma DiagnosticsOfNumber(n: int, b: string)
    ensures DiagnosticsMatch("Grssi" + IntToDecimal(n) + "/Gsnr" + b)
  {
    var a, e := IntToDecimal(n), "/Gsnr" + b;
    AfterGrssi(a, b);
    var u := a + e;
    var sign := if n < 0 then 1 else 0;
    assert u[0] == a[0];
    DropAppend(a, e, sign);
    DigitRunOver(a[sign..], e);
    assert u[sign + DigitRun(u[sign..])..] == e by {
      SuffixOfAppend(a, e);
    }
    PrefixOfAppend("/Gsnr", b);
  }

  /** "None" for rssi leaves 'N' where the sign, a digit or "/Gsnr" is
      needed. */
  lemma DiagnosticsOfNone(b: string)
    ensures !DiagnosticsMatch("Grssi" + "None" + "/Gsnr" + b)
  {
    AfterGrssi("None", b);
    assert ("None" + ("/Gsnr" + b))[0] == 'N';
  }

  /** A line made of "FB", hex digits, '|' and a text passes the guard
      exactly when the text passes the diagnostics pattern. */
  lemma GuardOfLine(hex: string, diag: string)
    requires AllHex(hex)
    ensures GuardMatch("FB" + hex + ("|" + diag)) <==> DiagnosticsMatch(diag)
  {
    LineShape(hex, diag);
    AlnumRunOver(hex, "|" + diag);
  }

  /** Where the parts of such a line sit. */
  lemma LineShape(hex: string, diag: string)
    ensures var s := "FB" + hex + ("|" + diag);
      StartsWith(s, "FB") && s[2..] == hex + ("|" + diag) && s[2 + |hex|] == '|' && s[3 + |hex|..] == diag
  {
    var s := "FB" + hex + ("|" + diag);
    Associative("FB", hex, "|" + diag);
    PrefixOfAppend("FB", hex + ("|" + diag));
    SuffixOfAppend("FB", hex + ("|" + diag));
    assert s[2 + |hex|] == '|';
  }

  /** Such a line, with no '|' in the text, splits at its one '|' into
      "FB" with the hex digits, and the text. */
  lemma SplitOfLine(hex: string, diag: string)
    requires AllHex(hex) && '|' !in diag
    ensures Split("FB" + hex + ("|" + diag), '|') == ["FB" + hex, diag]
  {
    assert '|' !in "FB" + hex by {
      assert forall i | 0 <= i < |hex| :: IsHexDigit(hex[i]);
    }
    assert "|" + diag == ['|'] + diag;
    assert "FB" + hex + ("|" + diag) == "FB" + hex + ['|'] + diag;
    SplitTwo("FB" + hex, '|', diag);
  }

  /** A line the encoder writes for a reading with an rssi is accepted by
      the guard, and what the decoder returns is the payload of its frame
      decoded (or the exception that raises). */
  lemma PyDecodeOfEncoded(r: Reading)
    requires FitsFrame(PyFields(r)) && r.rssi.Some?
    ensures PyEncoded(r).Success?
    ensures var payload := DecodePayload('F', 'B', HexPairs(FrameOf(PyFields(r))), PyDiagnostics(r));
      PyDecode(PyEncoded(r).value) == if payload.Success? then Success(Some(payload.value)) else Failure(payload.error)
  {
    var frame := FrameOf(PyFields(r));
    var hex := ToHex(frame);
    var diag := PyDiagnostics(r);
    PyTextChars(r.rssi);
    PyTextChars(r.snr);
    assert '|' !in diag;
    GuardOfLine(hex, diag);
    SplitOfLine(hex, diag);
    DiagnosticsOfReading(r);
    GuardedDecode(PyEncoded(r).value);
    SuffixOfAppend("FB", hex);
    PairsOfHex(frame);
  }

  /** A reading without rssi is encoded with "GrssiNone", which the guard
      rejects: the decoder returns None. */
  lemma PyRssiNoneDropped(r: Reading)
    requires FitsFrame(PyFields(r)) && r.rssi.None?
    ensures PyEncoded(r).Success?
    ensures PyDecode(PyEncoded(r).value) == Success(None)
  {
    var hex := ToHex(FrameOf(PyFields(r)));
    PyTextChars(r.rssi);
    PyTextChars(r.snr);
    GuardOfLine(hex, PyDiagnostics(r));
    DiagnosticsOfReading(r);
    NoneExactlyWhenGuardFails(PyEncoded(r).value);
  }

  /** A field written at its width and signedness reads back exactly. */
  lemma PyFieldBack(frame: seq<int>, lo: nat, hi: nat, v: int, signed: bool)
    requires IsBytes(frame) && lo <= hi <= |frame|
    requires frame[lo..hi] == WriteLE(v, hi - lo)
    requires if signed then InSignedRange(v, hi - lo) else InUnsignedRange(v, hi - lo)
    ensures DecodeInt(Slice(HexPairs(frame), lo, hi), signed) == Success(v)
  {
    NodeRoundTrip.SliceOfPairs(frame, lo, hi);
    DecodeIntOfBytes(frame[lo..hi], signed);
    if signed {
      SignedRoundTrip(v, hi - lo);
    } else {
      UnsignedRoundTrip(v, hi - lo);
    }
  }

  /** The fields from uid to angle read back from the frame. */
  lemma LeadingFieldsBack(f: RawFields)
    requires FitsFrame(f)
    ensures DecodeInt(Slice(HexPairs(FrameOf(f)), 0, 2), true) == Success(f.uid)
    ensures DecodeInt(Slice(HexPairs(FrameOf(f)), 2, 4), true) == Success(f.fw)
    ensures DecodeInt(Slice(HexPairs(FrameOf(f)), 4, 5), true) == Success(f.rx)
    ensures DecodeInt(Slice(HexPairs(FrameOf(f)), 5, 9), false) == Success(f.timeMPU)
    ensures DecodeInt(Slice(HexPairs(FrameOf(f)), 10, 13), true) == Success(f.altitude)
    ensures DecodeInt(Slice(HexPairs(FrameOf(f)), 13, 15), false) == Success(f.speedVert)
    ensures DecodeInt(Slice(HexPairs(FrameOf(f)), 15, 17), false) == Success(f.accel)
    ensures DecodeInt(Slice(HexPairs(FrameOf(f)), 17, 18), false) == Success(f.angle)
  {
    FrameLayout(f);
    PyFieldBack(FrameOf(f), 0, 2, f.uid, true);
    PyFieldBack(FrameOf(f), 2, 4, f.fw, true);
    PyFieldBack(FrameOf(f), 4, 5, f.rx, true);
    PyFieldBack(FrameOf(f), 5, 9, f.timeMPU, false);
    PyFieldBack(FrameOf(f), 10, 13, f.altitude, true);
    PyFieldBack(FrameOf(f), 13, 15, f.speedVert, false);
    PyFieldBack(FrameOf(f), 15, 17, f.accel, false);
    PyFieldBack(FrameOf(f), 17, 18, f.angle, false);
  }

  /** The fields from battVoltage to warnCode read back from the frame. */
  lemma TrailingFieldsBack(f: RawFields)
    requires FitsFrame(f)
    ensures DecodeInt(Slice(HexPairs(FrameOf(f)), 18, 20), false) == Success(f.battVoltage)
    ensures DecodeInt(Slice(HexPairs(FrameOf(f)), 20, 22), false) == Success(f.time)
    ensures DecodeInt(Slice(HexPairs(FrameOf(f)), 23, 24), false) == Success(f.logStatus)
    ensures DecodeInt(Slice(HexPairs(FrameOf(f)), 24, 28), true) == Success(f.gpsLat)
    ensures DecodeInt(Slice(HexPairs(FrameOf(f)), 28, 32), true) == Success(f.gpsLng)
    ensures DecodeInt(Slice(HexPairs(FrameOf(f)), 32, 33), false) == Success(f.gpsState)
    ensures DecodeInt(Slice(HexPairs(FrameOf(f)), 33, 34), false) == Success(f.warnCode)
  {
    FrameLayout(f);
    PyFieldBack(FrameOf(f), 18, 20, f.battVoltage, false);
    PyFieldBack(FrameOf(f), 20, 22, f.time, false);
    PyFieldBack(FrameOf(f), 23, 24, f.logStatus, false);
    PyFieldBack(FrameOf(f), 24, 28, f.gpsLat, true);
    PyFieldBack(FrameOf(f), 28, 32, f.gpsLng, true);
    PyFieldBack(FrameOf(f), 32, 33, f.gpsState, false);
    PyFieldBack(FrameOf(f), 33, 34, f.warnCode, false);
  }

  /** A one-byte field parsed with `int(_, 16)` is the byte written. */
  lemma PyByteBack(frame: seq<int>, i: nat, b: int)
    requires IsBytes(frame) && i < |frame|
    requires frame[i..i + 1] == WriteLE(b, 1) && InUnsignedRange(b, 1)
    ensures PyInt(Concat(Slice(HexPairs(frame), i, i + 1))) == Success(b)
  {
    NodeRoundTrip.SliceOfPairs(frame, i, i + 1);
    NodeRoundTrip.OneBytePair(b);
    ConcatOne(ByteHex(b));
    ByteHexValue(b);
  }

  /** The status and pyro bytes parse back to the codes written. */
  lemma StatusPyroBack(f: RawFields)
    requires FitsFrame(f)
    ensures PyInt(Concat(Slice(HexPairs(FrameOf(f)), 9, 10))) == Success(f.status)
    ensures PyInt(Concat(Slice(HexPairs(FrameOf(f)), 22, 23))) == Success(f.pyroStates)
  {
    FrameLayout(f);
    PyByteBack(FrameOf(f), 9, f.status);
    PyByteBack(FrameOf(f), 22, f.pyroStates);
  }

  /** The message read from a frame: the kind of the type byte, the 24-bit
      value negated when its bit 23 is set, and as raw the four bytes from
      the type byte on, type + 256 * value. */
  lemma MessageFrameBack(f: RawFields)
    requires FitsFrame(f)
    ensures MessageOf(HexPairs(FrameOf(f)))
      == Success(PyMessage(MessageKind(f.messageType), NegateOnBit23(f.messageValue),
                           MessageWord(f.messageType, f.messageValue)))
  {
    var frame := FrameOf(f);
    var pairs := HexPairs(frame);
    var word := MessageWord(f.messageType, f.messageValue);
    FrameLayout(f);
    PyFieldBack(frame, 34, 35, f.messageType, false);
    assert Slice(pairs, 34, 35) == [pairs[34]];
    PyFieldBack(frame, 35, 38, f.messageValue, false);
    SliceByteThen(frame, 34, f.messageType, f.messageValue, 3, 38, word);
    ByteThenRange(f.messageType, f.messageValue, 3, 4, word);
    PyFieldBack(frame, 34, 38, word, false);
  }

  /** A run of bytes after the fixed frame, its pairs joined in order and
      parsed with `int(_, 16)`: the big-endian value of those bytes. */
  lemma BigEndianBack(frame: seq<int>, lo: nat, hi: nat)
    requires IsBytes(frame) && lo < hi <= |frame|
    ensures PyInt(Concat(Slice(HexPairs(frame), lo, hi))) == Success(ReadBE(frame[lo..hi]))
  {
    var bs := frame[lo..hi];
    NodeRoundTrip.SliceOfPairs(frame, lo, hi);
    ConcatHexPairs(bs);
    HexValueOfToHex(bs);
    PyIntHexOfDigits(ToHex(bs));
  }

  /** The user inputs as the decoder reads them from a frame: the
      big-endian reading of the little-endian bytes the encoder wrote, and
      None when it wrote no tail. */
  lemma UserInsBack(f: RawFields)
    requires FitsFrame(f)
    ensures UserInsOf(HexPairs(FrameOf(f))) == Success(
      if f.userIn.Some? then (Some(ReadBE(WriteLE(f.userIn.value.0, 4))), Some(ReadBE(WriteLE(f.userIn.value.1, 2))))
      else (None, None))
  {
    if f.userIn.Some? {
      TailLayout(f);
      BigEndianBack(FrameOf(f), 38, 42);
      BigEndianBack(FrameOf(f), 42, 44);
    }
  }

  /** What the decoder reads from the payload of a frame the encoder
      wrote, when both searches of the diagnostics text find a number. */
  lemma PayloadBack(f: RawFields, diag: string)
    requires FitsFrame(f)
    requires SearchTagged(diag, "rssi").Some? && SearchTagged(diag, "snr").Some?
    ensures DecodePayload('F', 'B', HexPairs(FrameOf(f)), diag).Success?
    ensures var d := DecodePayload('F', 'B', HexPairs(FrameOf(f)), diag).value;
      d.callsign == 'F' && d.packetType == 'B'
      && d.uid == f.uid && d.fw == f.fw && d.rx == f.rx && d.timeMPU == f.timeMPU
      && d.status == StatusOf(f.status) && d.altitude == f.altitude && d.speedVert == f.speedVert
      && d.accel == Scaled(f.accel, 10) && d.angle == f.angle && d.battVoltage == Scaled(f.battVoltage, 1000)
      && d.time == Scaled(f.time, 10) && d.pyroStates == PyroOfData(f.pyroStates)
      && d.logStatus == f.logStatus && d.gpsLat == Scaled(f.gpsLat, 1000000)
      && d.gpsLng == Scaled(f.gpsLng, 1000000) && d.gpsState == f.gpsState && d.warnCode == f.warnCode
      && d.message == PyMessage(MessageKind(f.messageType), NegateOnBit23(f.messageValue),
                                MessageWord(f.messageType, f.messageValue))
      && d.userIn1 == (if f.userIn.Some? then Some(ReadBE(WriteLE(f.userIn.value.0, 4))) else None)
      && d.userIn2 == (if f.userIn.Some? then Some(ReadBE(WriteLE(f.userIn.value.1, 2))) else None)
      && d.rssi == SearchTagged(diag, "rssi").value && d.snr == SearchTagged(diag, "snr").value
  {
    LeadingFieldsBack(f);
    TrailingFieldsBack(f);
    StatusPyroBack(f);
    MessageFrameBack(f);
    UserInsBack(f);
  }

  /** The rssi search finds the decimal text of the rssi written. */
  lemma PyRssiBack(r: Reading)
    requires r.rssi.Some?
    ensures SearchTagged(PyDiagnostics(r), "rssi") == Some(IntToDecimal(r.rssi.value))
  {
    NodeRoundTrip.RssiOfDecimal(r.rssi.value, PyText(r.snr));
  }

  /** After a numeric rssi, the snr search finds the decimal text of the
      snr written, and nothing in "snrNone". */
  lemma PySnrBack(r: Reading)
    requires r.rssi.Some?
    ensures SearchTagged(PyDiagnostics(r), "snr") == if r.snr.Some? then Some(IntToDecimal(r.snr.value)) else None
  {
    var e := PyText(r.snr);
    PyTextChars(r.rssi);
    NodeRoundTrip.SnrAfterPrefix(PyText(r.rssi), e);
    match r.snr
    case Some(m) =>
      AppendNothing("snr" + e);
      TaggedDecimal("snr", m, []);
    case None =>
      SnrNone(e);
  }

  /** "snrNone" holds no snr match. */
  lemma SnrNone(e: string)
    requires e == "None"
    ensures SearchTagged("snr" + e, "snr") == None
  {
    var s := "snr" + e;
    forall k | 0 <= k < |s|
      ensures !TagAt(s[k..], "snr")
    {
      if k == 0 {
        assert s[0..][3..] == "None";
        NoDigitsAt("None");
      } else {
        NoTagAt(s, k, "snr");
      }
    }
    SearchNone(s, "snr");
  }

  /** The Python round trip: for a reading whose fields fit their widths
      and that has both rssi and snr, the encoder writes a line and the
      decoder gives back every integer field exactly (timeMPU included),
      the status and pyro codes with their names, the truncated scaled
      integers with their divisors, the message as read from its four
      bytes, the user inputs in big-endian order, and the decimal text of
      rssi and snr. */
  lemma PyRoundTrip(r: Reading)
    requires FitsFrame(PyFields(r)) && r.rssi.Some? && r.snr.Some?
    ensures PyEncoded(r).Success?
    ensures PyDecode(PyEncoded(r).value).Success? && PyDecode(PyEncoded(r).value).value.Some?
    ensures var d := PyDecode(PyEncoded(r).value).value.value;
      var f := PyFields(r);
      d.callsign == 'F' && d.packetType == 'B'
      && d.uid == r.uid && d.fw == r.fw && d.rx == r.rx && d.timeMPU == r.timeMPU
      && d.status == StatusOf(r.status) && d.altitude == r.altitude && d.speedVert == r.speedVert
      && d.accel == Scaled(f.accel, 10) && d.angle == r.angle && d.battVoltage == Scaled(f.battVoltage, 1000)
      && d.time == Scaled(f.time, 10) && d.pyroStates == PyroOfData(r.pyroStates)
      && d.logStatus == r.logStatus && d.gpsLat == Scaled(f.gpsLat, 1000000)
      && d.gpsLng == Scaled(f.gpsLng, 1000000) && d.gpsState == r.gpsState && d.warnCode == r.warnCode
      && d.message == PyMessage(MessageKind(f.messageType), NegateOnBit23(f.messageValue),
                                MessageWord(f.messageType, f.messageValue))
      && d.userIn1 == (if r.userIn1.Some? && r.userIn2.Some? then Some(ReadBE(WriteLE(r.userIn1.value, 4))) else None)
      && d.userIn2 == (if r.userIn1.Some? && r.userIn2.Some? then Some(ReadBE(WriteLE(r.userIn2.value, 2))) else None)
      && d.rssi == IntToDecimal(r.rssi.value) && d.snr == IntToDecimal(r.snr.value)
  {
    PyRssiBack(r);
    PySnrBack(r);
    PyDecodeOfEncoded(r);
    PayloadBack(PyFields(r), PyDiagnostics(r));
  }

  /** A reading with an rssi but no snr is encoded with "GsnrNone", which
      the guard lets through; the snr search then finds nothing and
      `group` raises AttributeError. */
  lemma PySnrNoneRaises(r: Reading)
    requires FitsFrame(PyFields(r)) && r.rssi.Some? && r.snr.None?
    ensures PyEncoded(r).Success?
    ensures PyDecode(PyEncoded(r).value) == Failure(AttributeError)
  {
    var f := PyFields(r);
    var pairs := HexPairs(FrameOf(f));
    PyRssiBack(r);
    PySnrBack(r);
    PyDecodeOfEncoded(r);
    LeadingFieldsBack(f);
    TrailingFieldsBack(f);
    StatusPyroBack(f);
    MessageFrameBack(f);
    UserInsBack(f);
  }

  /** Truncating x * k toward zero and reading it back over k loses less
      than one step 1/k either way. */
  lemma TruncBack(x: real, k: int, kr: real, step: real, s: Scaled)
    requires k > 0 && kr == k as real && step * kr == 1.0 && s == Scaled(Trunc(x * kr), k)
    ensures -step < x - ScaledValue(s) < step
  {
    assert 1.0 / kr == step;
    if x >= 0.0 {
      TruncScaledError(x, kr);
    } else {
      TruncScaledNegative(x, kr);
    }
  }

  /** Each scaled quantity the decoder returns is the encoder's truncated
      integer over its scale (`Scaled(f.accel, 10)` and so on, by
      PyRoundTrip): within one step (0.1, 0.001, 0.1, 0.000001) of the
      value sent, inside the tolerances the encoder's self-check asserts
      (0.1, 0.01, 0.1, 0.0001). */
  lemma PyScaledAccuracy(r: Reading)
    ensures var f := PyFields(r);
      -0.1 < r.accel - ScaledValue(Scaled(f.accel, 10)) < 0.1
      && -0.001 < r.battVoltage - ScaledValue(Scaled(f.battVoltage, 1000)) < 0.001
      && -0.1 < r.time - ScaledValue(Scaled(f.time, 10)) < 0.1
      && -0.000001 < r.gpsLat - ScaledValue(Scaled(f.gpsLat, 1000000)) < 0.000001
      && -0.000001 < r.gpsLng - ScaledValue(Scaled(f.gpsLng, 1000000)) < 0.000001
  {
    var f := PyFields(r);
    TruncBack(r.accel, 10, 10.0, 0.1, Scaled(f.accel, 10));
    TruncBack(r.battVoltage, 1000, 1000.0, 0.001, Scaled(f.battVoltage, 1000));
    TruncBack(r.time, 10, 10.0, 0.1, Scaled(f.time, 10));
    TruncBack(r.gpsLat, 1000000, 1000000.0, 0.000001, Scaled(f.gpsLat, 1000000));
    TruncBack(r.gpsLng, 1000000, 1000000.0, 0.000001, Scaled(f.gpsLng, 1000000));
  }
}
