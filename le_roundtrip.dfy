/** What the flutus and repository-root Python decoders give back for a
    line the flutus Node.js encoder writes. Both read every field from its
    pairs taken last first, which is the little-endian order the encoder
    writes, so every unsigned field, the status and pyro bytes, the
    message parts and the user inputs come back exactly; the fields the
    encoder writes signed come back as the decoders' own sign handling
    makes them (see the findings modules). */
module LeRoundTrip {
  import opened Wrappers
  import opened ByteCodec
  import opened JsInt32
  import opened Text
  import opened Hex
  import opened Sequences
  import opened Telemetry
  import opened NodeEncoder
  import opened FlutusEncoder
  import opened FlutusDecoder
  import opened RootDecoder
  import PyEncoder
  import PyDecoder
  import PyRoundTrip
  import NodeRoundTrip
  import NodeFindings

  /** `int("".join(pairs[::-1]), 16)` of the hex pairs of some bytes is
      their little-endian value. */
  lemma ReversedIntOfBytes(bs: seq<int>)
    requires IsBytes(bs) && |bs| > 0
    ensures ReversedInt(HexPairs(bs)) == Success(ReadLE(bs))
  {
    HexPairsReverse(bs);
    ConcatHexPairs(Reverse(bs));
    PyIntHexOfDigits(ToHex(Reverse(bs)));
    HexValueOfReversed(bs);
  }

  /** A field the encoder wrote at bytes lo..hi is read back modulo
      2^(8 * width): exactly when it is an unsigned value that fits. */
  lemma WrappedAt(frame: seq<int>, lo: nat, hi: nat, v: int, m: int)
    requires IsBytes(frame) && lo < hi <= |frame|
    requires frame[lo..hi] == WriteLE(v, hi - lo) && m == Pow256(hi - lo)
    ensures ReversedInt(Slice(HexPairs(frame), lo, hi)) == Success(v % m)
  {
    NodeRoundTrip.SliceOfPairs(frame, lo, hi);
    ReversedIntOfBytes(frame[lo..hi]);
    ReadWriteLE(v, hi - lo);
  }

  /** An unsigned field that fits its width is read back as written. */
  lemma UnsignedAt(frame: seq<int>, lo: nat, hi: nat, v: int)
    requires IsBytes(frame) && lo < hi <= |frame|
    requires frame[lo..hi] == WriteLE(v, hi - lo) && InUnsignedRange(v, hi - lo)
    ensures ReversedInt(Slice(HexPairs(frame), lo, hi)) == Success(v)
  {
    WrappedAt(frame, lo, hi, v, Pow256(hi - lo));
    DivModUnique(v, Pow256(hi - lo), 0, v);
  }

  /** The widths of the signed fields as powers of 256. */
  lemma Widths()
    ensures Pow256(1) == 0x100 && Pow256(2) == 0x1_0000 && Pow256(3) == PyEncoder.TWO24 && Pow256(4) == TWO32
  {
    SmallPowers(1);
    SmallPowers(2);
    NodeFindings.TwoPowers();
  }

  /** The fields before the pyro byte, read from the frame of any fields
      that fit: the unsigned ones exactly, the signed ones (uid, fw, rx,
      altitude) modulo 2^(8 * width). */
  lemma LeadingReads(f: RawFields)
    requires FitsFrame(f)
    ensures ReversedInt(Slice(HexPairs(FrameOf(f)), 0, 2)) == Success(f.uid % 0x1_0000)
    ensures ReversedInt(Slice(HexPairs(FrameOf(f)), 2, 4)) == Success(f.fw % 0x1_0000)
    ensures ReversedInt(Slice(HexPairs(FrameOf(f)), 4, 5)) == Success(f.rx % 0x100)
    ensures ReversedInt(Slice(HexPairs(FrameOf(f)), 5, 9)) == Success(f.timeMPU)
    ensures ReversedInt(Slice(HexPairs(FrameOf(f)), 9, 10)) == Success(f.status)
    ensures ReversedInt(Slice(HexPairs(FrameOf(f)), 10, 13)) == Success(f.altitude % PyEncoder.TWO24)
    ensures ReversedInt(Slice(HexPairs(FrameOf(f)), 13, 15)) == Success(f.speedVert)
    ensures ReversedInt(Slice(HexPairs(FrameOf(f)), 15, 17)) == Success(f.accel)
    ensures ReversedInt(Slice(HexPairs(FrameOf(f)), 17, 18)) == Success(f.angle)
  {
    var frame := FrameOf(f);
    FrameLayout(f);
    Widths();
    WrappedAt(frame, 0, 2, f.uid, 0x1_0000);
    WrappedAt(frame, 2, 4, f.fw, 0x1_0000);
    WrappedAt(frame, 4, 5, f.rx, 0x100);
    UnsignedAt(frame, 5, 9, f.timeMPU);
    UnsignedAt(frame, 9, 10, f.status);
    WrappedAt(frame, 10, 13, f.altitude, PyEncoder.TWO24);
    UnsignedAt(frame, 13, 15, f.speedVert);
    UnsignedAt(frame, 15, 17, f.accel);
    UnsignedAt(frame, 17, 18, f.angle);
  }

  /** The fields from the battery voltage to the warning code: the
      unsigned ones exactly, the two coordinates modulo 2^32. */
  lemma TrailingReads(f: RawFields)
    requires FitsFrame(f)
    ensures ReversedInt(Slice(HexPairs(FrameOf(f)), 18, 20)) == Success(f.battVoltage)
    ensures ReversedInt(Slice(HexPairs(FrameOf(f)), 20, 22)) == Success(f.time)
    ensures ReversedInt(Slice(HexPairs(FrameOf(f)), 22, 23)) == Success(f.pyroStates)
    ensures ReversedInt(Slice(HexPairs(FrameOf(f)), 23, 24)) == Success(f.logStatus)
    ensures ReversedInt(Slice(HexPairs(FrameOf(f)), 24, 28)) == Success(f.gpsLat % TWO32)
    ensures ReversedInt(Slice(HexPairs(FrameOf(f)), 28, 32)) == Success(f.gpsLng % TWO32)
    ensures ReversedInt(Slice(HexPairs(FrameOf(f)), 32, 33)) == Success(f.gpsState)
    ensures ReversedInt(Slice(HexPairs(FrameOf(f)), 33, 34)) == Success(f.warnCode)
  {
    var frame := FrameOf(f);
    FrameLayout(f);
    Widths();
    UnsignedAt(frame, 18, 20, f.battVoltage);
    UnsignedAt(frame, 20, 22, f.time);
    UnsignedAt(frame, 22, 23, f.pyroStates);
    UnsignedAt(frame, 23, 24, f.logStatus);
    WrappedAt(frame, 24, 28, f.gpsLat, TWO32);
    WrappedAt(frame, 28, 32, f.gpsLng, TWO32);
    UnsignedAt(frame, 32, 33, f.gpsState);
    UnsignedAt(frame, 33, 34, f.warnCode);
  }

  /** The message of the frame: the type byte parsed as one pair and the
      24-bit value read little-endian, negated when its bit 23 is set. */
  lemma MessageReads(f: RawFields)
    requires FitsFrame(f)
    ensures MessageOf(HexPairs(FrameOf(f)))
      == Success(LeMessage(MessageKind(f.messageType), PyDecoder.NegateOnBit23(f.messageValue)))
  {
    var frame := FrameOf(f);
    var pairs := HexPairs(frame);
    FrameLayout(f);
    UnsignedAt(frame, 34, 35, f.messageType);
    UnsignedAt(frame, 35, 38, f.messageValue);
    TypePair(pairs);
    MessageOfParts(pairs, f.messageType, f.messageValue);
  }

  /** Pair 34 alone, reversed and joined, is pair 34. */
  lemma TypePair(pairs: seq<string>)
    requires |pairs| > 34
    ensures ReversedInt(Slice(pairs, 34, 35)) == PyDecoder.PyInt(pairs[34])
  {
    assert Slice(pairs, 34, 35) == [pairs[34]];
    assert Reverse([pairs[34]]) == [pairs[34]];
    ConcatOne(pairs[34]);
  }

  /** The message from its two reads. */
  lemma MessageOfParts(pairs: seq<string>, t: int, v: int)
    requires |pairs| > 34
    requires PyDecoder.PyInt(pairs[34]) == Success(t) && ReversedInt(Slice(pairs, 35, 38)) == Success(v)
    ensures MessageOf(pairs) == Success(LeMessage(MessageKind(t), PyDecoder.NegateOnBit23(v)))
  {
  }

  /** The user inputs of the frame: both back as written when the encoder
      wrote them, both None when it did not. */
  lemma UserInsReads(f: RawFields)
    requires FitsFrame(f)
    ensures UserInsLE(HexPairs(FrameOf(f)))
      == Success(if f.userIn.Some? then (Some(f.userIn.value.0), Some(f.userIn.value.1)) else (None, None))
  {
    if f.userIn.Some? {
      TailLayout(f);
      UnsignedAt(FrameOf(f), 38, 42, f.userIn.value.0);
      UnsignedAt(FrameOf(f), 42, 44, f.userIn.value.1);
    }
  }

  /** A value below 2^16 has no bit 23, so the flutus `decodeInt` leaves
      it alone even when asked for a signed read. */
  lemma NarrowNotNegated(u: int)
    requires 0 <= u < 0x1_0000
    ensures PyDecoder.NegateOnBit23(u) == u
  {
    NodeFindings.TwoPowers();
    DivModUnique(u, Pow2(23), 0, u);
  }

  /** What the flutus `decodeInt` reads from the signed fields before the
      pyro byte: uid, fw and rx modulo their width and never negative (a
      value below 2^16 has no bit 23), the altitude modulo 2^24 and negated
      on bit 23; the unsigned ones as written. */
  lemma FlutusLeadingFields(f: RawFields)
    requires FitsFrame(f)
    ensures ReadField(HexPairs(FrameOf(f)), 0, 2, true) == Success(f.uid % 0x1_0000)
    ensures ReadField(HexPairs(FrameOf(f)), 2, 4, true) == Success(f.fw % 0x1_0000)
    ensures ReadField(HexPairs(FrameOf(f)), 4, 5, true) == Success(f.rx % 0x100)
    ensures ReadField(HexPairs(FrameOf(f)), 5, 9, false) == Success(f.timeMPU)
    ensures ReadField(HexPairs(FrameOf(f)), 10, 13, true) == Success(PyDecoder.NegateOnBit23(f.altitude % PyEncoder.TWO24))
    ensures ReadField(HexPairs(FrameOf(f)), 13, 15, false) == Success(f.speedVert)
    ensures ReadField(HexPairs(FrameOf(f)), 15, 17, false) == Success(f.accel)
    ensures ReadField(HexPairs(FrameOf(f)), 17, 18, false) == Success(f.angle)
  {
    var pairs := HexPairs(FrameOf(f));
    LeadingReads(f);
    NarrowField(pairs, 0, 2, f.uid, 0x1_0000);
    NarrowField(pairs, 2, 4, f.fw, 0x1_0000);
    NarrowField(pairs, 4, 5, f.rx, 0x100);
    ReadFieldOf(pairs, 5, 9, false, f.timeMPU);
    ReadFieldOf(pairs, 10, 13, true, f.altitude % PyEncoder.TWO24);
    ReadFieldOf(pairs, 13, 15, false, f.speedVert);
    ReadFieldOf(pairs, 15, 17, false, f.accel);
    ReadFieldOf(pairs, 17, 18, false, f.angle);
  }

  /** `decodeInt(pairs[lo:hi][::-1], signed)` is the reversed read,
      negated on bit 23 when signed. */
  lemma ReadFieldOf(pairs: seq<string>, lo: nat, hi: nat, signed: bool, u: int)
    requires ReversedInt(Slice(pairs, lo, hi)) == Success(u)
    ensures ReadField(pairs, lo, hi, signed) == Success(if signed then PyDecoder.NegateOnBit23(u) else u)
  {
  }

  /** A signed read of a field narrower than 2^16 is its unsigned read. */
  lemma NarrowField(pairs: seq<string>, lo: nat, hi: nat, v: int, m: int)
    requires 0 < m <= 0x1_0000 && ReversedInt(Slice(pairs, lo, hi)) == Success(v % m)
    ensures ReadField(pairs, lo, hi, true) == Success(v % m)
  {
    var u := v % m;
    NarrowNotNegated(u);
    ReadFieldOf(pairs, lo, hi, true, u);
  }

  /** What the flutus `decodeInt` reads from the fields after the pyro
      byte, all unsigned: the coordinates modulo 2^32, the rest as
      written. */
  lemma FlutusTrailingFields(f: RawFields)
    requires FitsFrame(f)
    ensures ReadField(HexPairs(FrameOf(f)), 18, 20, false) == Success(f.battVoltage)
    ensures ReadField(HexPairs(FrameOf(f)), 20, 22, false) == Success(f.time)
    ensures ReadField(HexPairs(FrameOf(f)), 23, 24, false) == Success(f.logStatus)
    ensures ReadField(HexPairs(FrameOf(f)), 24, 28, false) == Success(f.gpsLat % TWO32)
    ensures ReadField(HexPairs(FrameOf(f)), 28, 32, false) == Success(f.gpsLng % TWO32)
    ensures ReadField(HexPairs(FrameOf(f)), 32, 33, false) == Success(f.gpsState)
    ensures ReadField(HexPairs(FrameOf(f)), 33, 34, false) == Success(f.warnCode)
  {
    var pairs := HexPairs(FrameOf(f));
    TrailingReads(f);
    ReadFieldOf(pairs, 18, 20, false, f.battVoltage);
    ReadFieldOf(pairs, 20, 22, false, f.time);
    ReadFieldOf(pairs, 23, 24, false, f.logStatus);
    ReadFieldOf(pairs, 24, 28, false, f.gpsLat % TWO32);
    ReadFieldOf(pairs, 28, 32, false, f.gpsLng % TWO32);
    ReadFieldOf(pairs, 32, 33, false, f.gpsState);
    ReadFieldOf(pairs, 33, 34, false, f.warnCode);
  }

  /** The flutus decoder's payload of the frame of any fields that fit:
      uid, fw and rx modulo 2^16, 2^16 and 2^8 (never negative), the
      altitude modulo 2^24 and then negated when bit 23 is set, the
      coordinates modulo 2^32, time over 1000, and everything else as
      written. */
  lemma FlutusPayloadBack(f: RawFields, diag: string)
    requires FitsFrame(f)
    requires SearchTagged(diag, "rssi").Some? && SearchTagged(diag, "snr").Some?
    ensures FlutusDecoder.DecodePayload('F', 'B', HexPairs(FrameOf(f)), diag) == Success(LeDecoded(
      'F', 'B', f.uid % 0x1_0000, f.fw % 0x1_0000, f.rx % 0x100, f.timeMPU, StatusMessage(f.status),
      PyDecoder.NegateOnBit23(f.altitude % PyEncoder.TWO24), f.speedVert, Scaled(f.accel, 10), f.angle,
      Scaled(f.battVoltage, 1000), Scaled(f.time, 1000), PyroOf(f.pyroStates), f.logStatus,
      Scaled(f.gpsLat % TWO32, 1000000), Scaled(f.gpsLng % TWO32, 1000000), f.gpsState, f.warnCode,
      LeMessage(MessageKind(f.messageType), PyDecoder.NegateOnBit23(f.messageValue)),
      if f.userIn.Some? then Some(f.userIn.value.0) else None,
      if f.userIn.Some? then Some(f.userIn.value.1) else None,
      SearchTagged(diag, "rssi").value, SearchTagged(diag, "snr").value))
  {
    LeadingReads(f);
    TrailingReads(f);
    MessageReads(f);
    UserInsReads(f);
    FlutusLeadingFields(f);
    FlutusTrailingFields(f);
  }

  /** The root decoder's payload of the frame of any fields that fit:
      every signed field modulo 2^(8 * width), never negative, time over
      1000, and everything else as written. */
  lemma RootPayloadBack(f: RawFields, diag: string)
    requires FitsFrame(f)
    requires SearchTagged(diag, "rssi").Some? && SearchTagged(diag, "snr").Some?
    ensures RootPayload('F', 'B', HexPairs(FrameOf(f)), diag) == Success(LeDecoded(
      'F', 'B', f.uid % 0x1_0000, f.fw % 0x1_0000, f.rx % 0x100, f.timeMPU, StatusMessage(f.status),
      f.altitude % PyEncoder.TWO24, f.speedVert, Scaled(f.accel, 10), f.angle,
      Scaled(f.battVoltage, 1000), Scaled(f.time, 1000), PyroOf(f.pyroStates), f.logStatus,
      Scaled(f.gpsLat % TWO32, 1000000), Scaled(f.gpsLng % TWO32, 1000000), f.gpsState, f.warnCode,
      LeMessage(MessageKind(f.messageType), PyDecoder.NegateOnBit23(f.messageValue)),
      if f.userIn.Some? then Some(f.userIn.value.0) else None,
      if f.userIn.Some? then Some(f.userIn.value.1) else None,
      SearchTagged(diag, "rssi").value, SearchTagged(diag, "snr").value))
  {
    LeadingReads(f);
    TrailingReads(f);
    MessageReads(f);
    UserInsReads(f);
  }

  /** The line the flutus encoder writes splits at its one '|' into "FB"
      and the frame's hex, and the diagnostics text; its payload pairs are
      the frame's pairs. */
  lemma SplitOfFlutusLine(r: Reading)
    requires FitsFrame(FlutusFields(r))
    ensures FlutusEncoded(r).Success?
    ensures var hex := ToHex(FrameOf(FlutusFields(r)));
      Split(FlutusEncoded(r).value, '|') == ["FB" + hex, NodeDiagnostics(r)]
      && ("FB" + hex)[2..] == hex && Pairs(hex) == HexPairs(FrameOf(FlutusFields(r)))
  {
    var frame := FrameOf(FlutusFields(r));
    var hex := ToHex(frame);
    NodeRoundTrip.JsTextChars(r.rssi);
    NodeRoundTrip.JsTextChars(r.snr);
    PyRoundTrip.SplitOfLine(hex, NodeDiagnostics(r));
    SuffixOfAppend("FB", hex);
    PairsOfHex(frame);
  }

  /** A line the flutus encoder writes is decoded by the flutus decoder as
      the payload of its frame (or the exception that raises). */
  lemma FlutusDecodeOfEncoded(r: Reading)
    requires FitsFrame(FlutusFields(r))
    ensures FlutusEncoded(r).Success?
    ensures var payload := FlutusDecoder.DecodePayload('F', 'B', HexPairs(FrameOf(FlutusFields(r))), NodeDiagnostics(r));
      FlutusDecode(FlutusEncoded(r).value) == if payload.Success? then Success(Some(payload.value)) else Failure(payload.error)
  {
    SplitOfFlutusLine(r);
  }

  /** The same line decoded by the root decoder. */
  lemma RootDecodeOfEncoded(r: Reading)
    requires FitsFrame(FlutusFields(r))
    ensures FlutusEncoded(r).Success?
    ensures var payload := RootPayload('F', 'B', HexPairs(FrameOf(FlutusFields(r))), NodeDiagnostics(r));
      RootDecode(FlutusEncoded(r).value) == if payload.Success? then Success(Some(payload.value)) else Failure(payload.error)
  {
    SplitOfFlutusLine(r);
  }

  /** The rssi and snr searches find the decimal text of what the encoder
      wrote, and nothing for a null. */
  lemma DiagnosticsBack(r: Reading)
    ensures SearchTagged(NodeDiagnostics(r), "rssi") == (if r.rssi.Some? then Some(IntToDecimal(r.rssi.value)) else None)
    ensures SearchTagged(NodeDiagnostics(r), "snr") == (if r.snr.Some? then Some(IntToDecimal(r.snr.value)) else None)
  {
    NodeRoundTrip.RssiBack(r);
    NodeRoundTrip.SnrBack(r);
  }

  /** Round trip through the flutus encoder and decoder: for a reading
      whose fields fit and that has rssi and snr, every unsigned field, the
      status and pyro names, the message parts, the user inputs and the
      diagnostics come back as sent; uid, fw and rx come back modulo their
      width (so a negative one comes back positive), the altitude modulo
      2^24 and negated on bit 23, the coordinates modulo 2^32, and time
      over 1000 although it was sent times 10. */
  lemma FlutusRoundTrip(r: Reading)
    requires FitsFrame(FlutusFields(r)) && r.rssi.Some? && r.snr.Some?
    ensures FlutusEncoded(r).Success?
    ensures FlutusDecode(FlutusEncoded(r).value).Success? && FlutusDecode(FlutusEncoded(r).value).value.Some?
    ensures var d := FlutusDecode(FlutusEncoded(r).value).value.value;
      var f := FlutusFields(r);
      d.callsign == 'F' && d.packetType == 'B'
      && d.uid == r.uid % 0x1_0000 && d.fw == r.fw % 0x1_0000 && d.rx == r.rx % 0x100
      && d.timeMPU == r.timeMPU && d.status == StatusMessage(r.status)
      && d.altitude == PyDecoder.NegateOnBit23(r.altitude % PyEncoder.TWO24) && d.speedVert == r.speedVert
      && d.accel == Scaled(f.accel, 10) && d.angle == r.angle && d.battVoltage == Scaled(f.battVoltage, 1000)
      && d.time == Scaled(f.time, 1000) && d.pyroStates == PyroOf(r.pyroStates)
      && d.logStatus == r.logStatus && d.gpsLat == Scaled(f.gpsLat % TWO32, 1000000)
      && d.gpsLng == Scaled(f.gpsLng % TWO32, 1000000) && d.gpsState == r.gpsState && d.warnCode == r.warnCode
      && d.message == LeMessage(MessageKind(f.messageType), PyDecoder.NegateOnBit23(f.messageValue))
      && d.userIn1 == (if r.userIn1.Some? && r.userIn2.Some? then r.userIn1 else None)
      && d.userIn2 == (if r.userIn1.Some? && r.userIn2.Some? then r.userIn2 else None)
      && d.rssi == IntToDecimal(r.rssi.value) && d.snr == IntToDecimal(r.snr.value)
  {
    DiagnosticsBack(r);
    FlutusDecodeOfEncoded(r);
    FlutusPayloadBack(FlutusFields(r), NodeDiagnostics(r));
  }

  /** Round trip through the flutus encoder and the root decoder: as for
      the flutus decoder, except that the altitude comes back modulo 2^24
      with no sign handling at all. */
  lemma RootRoundTrip(r: Reading)
    requires FitsFrame(FlutusFields(r)) && r.rssi.Some? && r.snr.Some?
    ensures FlutusEncoded(r).Success?
    ensures RootDecode(FlutusEncoded(r).value).Success? && RootDecode(FlutusEncoded(r).value).value.Some?
    ensures var d := RootDecode(FlutusEncoded(r).value).value.value;
      var f := FlutusFields(r);
      d.callsign == 'F' && d.packetType == 'B'
      && d.uid == r.uid % 0x1_0000 && d.fw == r.fw % 0x1_0000 && d.rx == r.rx % 0x100
      && d.timeMPU == r.timeMPU && d.status == StatusMessage(r.status)
      && d.altitude == r.altitude % PyEncoder.TWO24 && d.speedVert == r.speedVert
      && d.accel == Scaled(f.accel, 10) && d.angle == r.angle && d.battVoltage == Scaled(f.battVoltage, 1000)
      && d.time == Scaled(f.time, 1000) && d.pyroStates == PyroOf(r.pyroStates)
      && d.logStatus == r.logStatus && d.gpsLat == Scaled(f.gpsLat % TWO32, 1000000)
      && d.gpsLng == Scaled(f.gpsLng % TWO32, 1000000) && d.gpsState == r.gpsState && d.warnCode == r.warnCode
      && d.message == LeMessage(MessageKind(f.messageType), PyDecoder.NegateOnBit23(f.messageValue))
      && d.userIn1 == (if r.userIn1.Some? && r.userIn2.Some? then r.userIn1 else None)
      && d.userIn2 == (if r.userIn1.Some? && r.userIn2.Some? then r.userIn2 else None)
      && d.rssi == IntToDecimal(r.rssi.value) && d.snr == IntToDecimal(r.snr.value)
  {
    DiagnosticsBack(r);
    RootDecodeOfEncoded(r);
    RootPayloadBack(FlutusFields(r), NodeDiagnostics(r));
  }
}
