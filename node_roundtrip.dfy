/** What the Node decoder makes of what the Node encoder writes: every
    field comes back, the scaled ones within one step of their scale, with
    the exceptions the 32-bit `decodeInt` fold and the message layout
    cause. */
module NodeRoundTrip {
  import opened Wrappers
  import opened ByteCodec
  import opened JsInt32
  import opened Text
  import opened Hex
  import opened Telemetry
  import opened Sequences
  import opened NodeEncoder
  import opened NodeDecoder

  /** The template-literal rendering of a number or null has no '|', no
      's' and no 'r' in it. */
  lemma JsTextChars(x: Option<int>)
    ensures |JsText(x)| >= 1
    ensures forall i | 0 <= i < |JsText(x)| :: JsText(x)[i] != '|' && JsText(x)[i] != 's' && JsText(x)[i] != 'r'
  {
  }

  /** The encoded line splits at its one '|' into "FB" and the payload hex,
      and the diagnostics text. */
  lemma SplitEncoded(r: Reading)
    ensures Split(NodeEncoded(r), '|') == ["FB" + ToHex(FrameOf(NodeFields(r))), NodeDiagnostics(r)]
  {
    var hex := ToHex(FrameOf(NodeFields(r)));
    var diag := NodeDiagnostics(r);
    JsTextChars(r.rssi);
    JsTextChars(r.snr);
    assert '|' !in "FB" + hex;
    assert '|' !in diag;
    assert "|" + diag == ['|'] + diag;
    Associative("FB" + hex, ['|'], diag);
    SplitTwo("FB" + hex, '|', diag);
  }

  /** A line that splits into a binary data part and a diagnostics part
      decodes as the payload pairs of the data part. */
  lemma NodeDecodeShape(x: string, data: string, diag: string)
    requires Split(x, '|') == [data, diag] && |data| >= 2 && data[1] == 'B'
    ensures NodeDecode(x) == Result(DecodePayload(data[0], 'B', Pairs(data[2..]), diag))
  {
  }

  /** The encoded line is binary and decodes as the payload of its frame. */
  lemma NodeDecodeOfEncoded(r: Reading)
    ensures NodeDecode(NodeEncoded(r))
      == Result(DecodePayload('F', 'B', HexPairs(FrameOf(NodeFields(r))), NodeDiagnostics(r)))
  {
    var frame := FrameOf(NodeFields(r));
    var hex := ToHex(frame);
    SplitEncoded(r);
    SuffixOfAppend("FB", hex);
    PairsOfHex(frame);
    NodeDecodeShape(NodeEncoded(r), "FB" + hex, NodeDiagnostics(r));
  }
  /** `decodeInt` of the pairs of a field written at its width reads the
      field back; an unsigned 4-byte field comes back as a signed 32-bit
      value. */
  lemma FieldBack(frame: seq<int>, lo: nat, hi: nat, v: int, signed: bool)
    requires IsBytes(frame) && lo <= hi <= |frame| && hi - lo <= 4
    requires frame[lo..hi] == WriteLE(v, hi - lo)
    requires if signed then InSignedRange(v, hi - lo) else InUnsignedRange(v, hi - lo)
    ensures DecodeIntValue(Slice(HexPairs(frame), lo, hi), signed, false)
      == if !signed && hi - lo == 4 then Signed(v, 4) else v
  {
    var w := hi - lo;
    SliceOfPairs(frame, lo, hi);
    WrittenBack(v, w, signed);
  }

  /** The pairs of a slice of the frame are the slice of its pairs. */
  lemma SliceOfPairs(frame: seq<int>, lo: nat, hi: nat)
    requires IsBytes(frame) && lo <= hi <= |frame|
    ensures Slice(HexPairs(frame), lo, hi) == HexPairs(frame[lo..hi])
  {
    SliceInBounds(HexPairs(frame), lo, hi);
    HexPairsSlice(frame, lo, hi);
  }

  /** `decodeInt` of the pairs of a value written at width `w` reads it back. */
  lemma WrittenBack(v: int, w: nat, signed: bool)
    requires w <= 4
    requires if signed then InSignedRange(v, w) else InUnsignedRange(v, w)
    ensures DecodeIntValue(HexPairs(WriteLE(v, w)), signed, false)
      == if !signed && w == 4 then Signed(v, 4) else v
  {
    DecodeIntOfBytes(WriteLE(v, w), signed);
    WidthBack(v, w, signed);
  }

  /** A value in range for its width and signedness survives WriteLE and
      the read `decodeInt` makes of it. */
  lemma WidthBack(v: int, w: nat, signed: bool)
    requires w <= 4
    requires if signed then InSignedRange(v, w) else InUnsignedRange(v, w)
    ensures (if signed || w == 4 then Signed(ReadLE(WriteLE(v, w)), w) else ReadLE(WriteLE(v, w)))
      == if !signed && w == 4 then Signed(v, 4) else v
  {
    if signed {
      SignedRoundTrip(v, w);
    } else {
      UnsignedRoundTrip(v, w);
    }
  }

  /** The fields from uid to angle read back from the frame. */
  lemma LeadingFieldsBack(f: RawFields)
    requires FitsFrame(f)
    ensures DecodeIntValue(Slice(HexPairs(FrameOf(f)), 0, 2), true, false) == f.uid
    ensures DecodeIntValue(Slice(HexPairs(FrameOf(f)), 2, 4), true, false) == f.fw
    ensures DecodeIntValue(Slice(HexPairs(FrameOf(f)), 4, 5), true, false) == f.rx
    ensures DecodeIntValue(Slice(HexPairs(FrameOf(f)), 5, 9), false, false) == Signed(f.timeMPU, 4)
    ensures DecodeIntValue(Slice(HexPairs(FrameOf(f)), 10, 13), true, false) == f.altitude
    ensures DecodeIntValue(Slice(HexPairs(FrameOf(f)), 13, 15), false, false) == f.speedVert
    ensures DecodeIntValue(Slice(HexPairs(FrameOf(f)), 15, 17), false, false) == f.accel
    ensures DecodeIntValue(Slice(HexPairs(FrameOf(f)), 17, 18), false, false) == f.angle
  {
    FrameLayout(f);
    FieldBack(FrameOf(f), 0, 2, f.uid, true);
    FieldBack(FrameOf(f), 2, 4, f.fw, true);
    FieldBack(FrameOf(f), 4, 5, f.rx, true);
    FieldBack(FrameOf(f), 5, 9, f.timeMPU, false);
    FieldBack(FrameOf(f), 10, 13, f.altitude, true);
    FieldBack(FrameOf(f), 13, 15, f.speedVert, false);
    FieldBack(FrameOf(f), 15, 17, f.accel, false);
    FieldBack(FrameOf(f), 17, 18, f.angle, false);
  }

  /** The fields from battVoltage to warnCode read back from the frame. */
  lemma TrailingFieldsBack(f: RawFields)
    requires FitsFrame(f)
    ensures DecodeIntValue(Slice(HexPairs(FrameOf(f)), 18, 20), false, false) == f.battVoltage
    ensures DecodeIntValue(Slice(HexPairs(FrameOf(f)), 20, 22), false, false) == f.time
    ensures DecodeIntValue(Slice(HexPairs(FrameOf(f)), 23, 24), false, false) == f.logStatus
    ensures DecodeIntValue(Slice(HexPairs(FrameOf(f)), 24, 28), true, false) == f.gpsLat
    ensures DecodeIntValue(Slice(HexPairs(FrameOf(f)), 28, 32), true, false) == f.gpsLng
    ensures DecodeIntValue(Slice(HexPairs(FrameOf(f)), 32, 33), false, false) == f.gpsState
    ensures DecodeIntValue(Slice(HexPairs(FrameOf(f)), 33, 34), false, false) == f.warnCode
  {
    FrameLayout(f);
    FieldBack(FrameOf(f), 18, 20, f.battVoltage, false);
    FieldBack(FrameOf(f), 20, 22, f.time, false);
    FieldBack(FrameOf(f), 23, 24, f.logStatus, false);
    FieldBack(FrameOf(f), 24, 28, f.gpsLat, true);
    FieldBack(FrameOf(f), 28, 32, f.gpsLng, true);
    FieldBack(FrameOf(f), 32, 33, f.gpsState, false);
    FieldBack(FrameOf(f), 33, 34, f.warnCode, false);
  }

  /** A one-byte field parsed as the decoder parses the status and pyro
      bytes: the pair's hex value. */
  lemma ByteBack(frame: seq<int>, i: nat, b: int)
    requires IsBytes(frame) && i < |frame|
    requires frame[i..i + 1] == WriteLE(b, 1) && InUnsignedRange(b, 1)
    ensures ParseIntHex(Concat(Slice(HexPairs(frame), i, i + 1))) == Num(b)
  {
    SliceOfPairs(frame, i, i + 1);
    OneBytePair(b);
    ConcatOne(ByteHex(b));
    ByteHexValue(b);
  }

  /** The pairs of a one-byte write are the byte's own pair. */
  lemma OneBytePair(b: int)
    requires InUnsignedRange(b, 1)
    ensures IsByte(b) && HexPairs(WriteLE(b, 1)) == [ByteHex(b)]
  {
    WriteLEOne(b);
    HexPairsOne(b);
  }

  /** The message object read from a frame: the kind of the type byte, the
      24-bit value negated when its bit 23 is set, and as raw the four
      bytes from the type byte on, read as one 32-bit integer. */
  lemma MessageBack(frame: seq<int>, t: int, v: int)
    requires IsBytes(frame) && 38 <= |frame|
    requires frame[34..35] == WriteLE(t, 1) && frame[35..38] == WriteLE(v, 3)
    requires InUnsignedRange(t, 1) && InUnsignedRange(v, 3)
    ensures MessageOf(HexPairs(frame)) == Message(MessageKind(t), NegateOnBit23(v), Signed(MessageWord(t, v), 4))
  {
    MessageFieldsBack(frame, t, v);
    MessageRawBack(frame, t, v, MessageWord(t, v));
    MessageOfParts(HexPairs(frame), t, v, Signed(MessageWord(t, v), 4));
  }

  /** The `decodeInt` reads of the message type and value. */
  lemma MessageFieldsBack(frame: seq<int>, t: int, v: int)
    requires IsBytes(frame) && 38 <= |frame|
    requires frame[34..35] == WriteLE(t, 1) && frame[35..38] == WriteLE(v, 3)
    requires InUnsignedRange(t, 1) && InUnsignedRange(v, 3)
    ensures DecodeIntValue(Slice(HexPairs(frame), 34, 35), false, false) == t
    ensures DecodeIntValue(Slice(HexPairs(frame), 35, 38), false, false) == v
  {
    FieldBack(frame, 34, 35, t, false);
    FieldBack(frame, 35, 38, v, false);
  }

  /** The message's raw read spans the type byte and the value: it is the
      32-bit reading of type + 256 * value. */
  lemma MessageRawBack(frame: seq<int>, t: int, v: int, word: int)
    requires IsBytes(frame) && 38 <= |frame|
    requires frame[34..35] == WriteLE(t, 1) && frame[35..38] == WriteLE(v, 3)
    requires InUnsignedRange(t, 1) && InUnsignedRange(v, 3) && word == t + 256 * v
    ensures DecodeIntValue(Slice(HexPairs(frame), 34, 38), false, false) == Signed(word, 4)
  {
    SliceByteThen(frame, 34, t, v, 3, 38, word);
    ByteThenRange(t, v, 3, 4, word);
    FieldBack(frame, 34, 38, word, false);
  }

  /** The message object from its three `decodeInt` reads. */
  lemma MessageOfParts(pairs: seq<string>, t: int, v: int, raw: int)
    requires DecodeIntValue(Slice(pairs, 34, 35), false, false) == t
    requires DecodeIntValue(Slice(pairs, 35, 38), false, false) == v
    requires DecodeIntValue(Slice(pairs, 34, 38), false, false) == raw
    ensures MessageOf(pairs) == Message(MessageKind(t), NegateOnBit23(v), raw)
  {
  }

  /** A user input after the fixed frame: its pairs reversed and joined are
      the big-endian hex of its little-endian bytes, so it parses back. */
  lemma UserInBack(frame: seq<int>, lo: nat, hi: nat, u: int)
    requires IsBytes(frame) && FrameBytes < |frame| && lo < hi <= |frame|
    requires frame[lo..hi] == WriteLE(u, hi - lo) && InUnsignedRange(u, hi - lo)
    ensures UserInOf(HexPairs(frame), lo, hi) == Some(Num(u))
  {
    var bs := frame[lo..hi];
    SliceOfPairs(frame, lo, hi);
    HexPairsReverse(bs);
    ConcatHexPairs(Reverse(bs));
    ParseIntHexOfDigits(ToHex(Reverse(bs)));
    HexValueOfReversed(bs);
    UnsignedRoundTrip(u, hi - lo);
  }

  /** The text the decoder's regular expressions capture for a number
      the encoder rendered: its decimal digits, or nothing for null. */
  function DecimalOf(x: Option<int>): (r: Option<string>)
    ensures r.Some? <==> x.Some?
  {
    match x
    case Some(n) => Some(IntToDecimal(n))
    case None => None
  }

  /** The rssi search finds the rendered rssi, and nothing when it was null. */
  lemma RssiBack(r: Reading)
    ensures SearchTagged(NodeDiagnostics(r), "rssi") == DecimalOf(r.rssi)
  {
    var e := JsText(r.snr);
    JsTextChars(r.snr);
    match r.rssi
    case Some(n) =>
      RssiOfDecimal(n, e);
    case None =>
      var pre := "Grssinull/Gsnr";
      RssiNone(e);
      PrefixOfAppend(pre, e);
      assert (pre + e)[14] == e[0];
      forall k | 0 <= k < |pre|
        ensures !TagAt((pre + e)[k..], "rssi")
      {
        NoRssiInPrefix(pre + e, k);
      }
      SearchSkips(pre, e, "rssi");
      forall k | 0 <= k < |e|
        ensures !TagAt(e[k..], "rssi")
      {
        NoTagAt(e, k, "rssi");
      }
      SearchNone(e, "rssi");
  }

  /** Whatever follows "/Gsnr", the rssi search finds the decimal text of
      a number written after "Grssi". */
  lemma RssiOfDecimal(n: int, e: string)
    ensures SearchTagged("Grssi" + IntToDecimal(n) + "/Gsnr" + e, "rssi") == Some(IntToDecimal(n))
  {
    var tail := "/Gsnr" + e;
    var rest := "rssi" + IntToDecimal(n) + tail;
    RssiSome(IntToDecimal(n), e);
    assert !TagAt(("G" + rest)[0..], "rssi") by {
      NoTagAt("G" + rest, 0, "rssi");
    }
    SearchSkips("G", rest, "rssi");
    TaggedDecimal("rssi", n, tail);
  }

  /** The diagnostics text with a number for rssi, cut after its "G". */
  lemma RssiSome(d: string, e: string)
    ensures "Grssi" + d + "/Gsnr" + e == "G" + ("rssi" + d + ("/Gsnr" + e))
  {
    assert "Grssi" == "G" + "rssi";
    Associative("G", "rssi", d);
    Associative("G" + ("rssi" + d), "/Gsnr", e);
    Associative("G", "rssi" + d, "/Gsnr" + e);
    Associative("rssi", d, "/Gsnr" + e);
    Associative("rssi" + d, "/Gsnr", e);
  }

  /** The diagnostics text with a null rssi. */
  lemma RssiNone(e: string)
    ensures "Grssi" + "null" + "/Gsnr" + e == "Grssinull/Gsnr" + e
  {
    assert "Grssi" + "null" + "/Gsnr" == "Grssinull/Gsnr";
  }

  /** No position of "Grssinull/Gsnr" starts an rssi match when the text
      goes on with something other than 's': at 1 "null" follows the tag,
      at 13 the 'r' is not followed by 's', elsewhere there is no 'r'. */
  lemma NoRssiInPrefix(s: string, k: nat)
    requires 14 < |s| && s[..14] == "Grssinull/Gsnr" && s[14] != 's' && k < 14
    ensures !TagAt(s[k..], "rssi")
  {
    if k == 1 {
      assert s[1..][4..] == s[5..];
      assert s[5] == s[..14][5] == 'n';
      NoDigitsAt(s[5..]);
    } else {
      assert s[k] == s[..14][k];
      NoTagAt(s, k, "rssi");
    }
  }

  /** The snr search finds the rendered snr, and nothing when it was null. */
  lemma SnrBack(r: Reading)
    ensures SearchTagged(NodeDiagnostics(r), "snr") == DecimalOf(r.snr)
  {
    var e := JsText(r.snr);
    JsTextChars(r.rssi);
    SnrAfterPrefix(JsText(r.rssi), e);
    match r.snr
    case Some(m) =>
      AppendNothing("snr" + e);
      TaggedDecimal("snr", m, []);
    case None =>
      SnrNull(e);
  }

  /** Nothing before "snr" in the diagnostics text starts an snr match
      when the rssi text has no 's', so the search is decided from "snr"
      on. */
  lemma SnrAfterPrefix(d: string, e: string)
    requires forall i | 0 <= i < |d| :: d[i] != 's'
    ensures SearchTagged("Grssi" + d + "/Gsnr" + e, "snr") == SearchTagged("snr" + e, "snr")
  {
    var pre := "Grssi" + d + "/G";
    SnrSplit(d, e);
    PrefixOfAppend(pre, "snr" + e);
    forall k | 0 <= k < |pre|
      ensures !TagAt((pre + ("snr" + e))[k..], "snr")
    {
      NoSnrInPrefix(d, pre + ("snr" + e), k);
    }
    SearchSkips(pre, "snr" + e, "snr");
  }

  /** The diagnostics text cut just before "snr". */
  lemma SnrSplit(d: string, e: string)
    ensures "Grssi" + d + "/Gsnr" + e == ("Grssi" + d + "/G") + ("snr" + e)
  {
    assert "/Gsnr" == "/G" + "snr";
    Associative("Grssi" + d, "/G", "snr");
    Associative("Grssi" + d + "/G", "snr", e);
  }

  /** No position of "Grssi", the rendered rssi and "/G" starts an snr
      match: the only 's' characters are at 2 and 3, followed by 's' and
      'i'. */
  lemma NoSnrInPrefix(d: string, s: string, k: nat)
    requires forall i | 0 <= i < |d| :: d[i] != 's'
    requires |"Grssi" + d + "/G"| < |s| && s[..|"Grssi" + d + "/G"|] == "Grssi" + d + "/G"
    requires k < |"Grssi" + d + "/G"|
    ensures !TagAt(s[k..], "snr")
  {
    var pre := "Grssi" + d + "/G";
    assert s[k] == pre[k];
    if k == 2 || k == 3 {
      assert s[k + 1] == pre[k + 1];
    } else if 5 <= k < 5 + |d| {
      assert pre[k] == d[k - 5];
    }
    NoTagAt(s, k, "snr");
  }

  /** "snrnull" holds no snr match: "null" has no digits. */
  lemma SnrNull(e: string)
    requires e == "null"
    ensures SearchTagged("snr" + e, "snr") == None
  {
    var s := "snr" + e;
    assert s == "snrnull";
    forall k | 0 <= k < |s|
      ensures !TagAt(s[k..], "snr")
    {
      if k == 0 {
        assert s[0..][3..] == "null";
        NoDigitsAt("null");
      } else {
        NoTagAt(s, k, "snr");
      }
    }
    SearchNone(s, "snr");
  }

  /** The user inputs read from a frame: the encoder's values when it wrote
      the tail, null otherwise. */
  lemma UserInsBack(f: RawFields)
    requires FitsFrame(f)
    ensures UserInOf(HexPairs(FrameOf(f)), 38, 42) == if f.userIn.Some? then Some(Num(f.userIn.value.0)) else None
    ensures UserInOf(HexPairs(FrameOf(f)), 42, 44) == if f.userIn.Some? then Some(Num(f.userIn.value.1)) else None
  {
    if f.userIn.Some? {
      TailLayout(f);
      UserInBack(FrameOf(f), 38, 42, f.userIn.value.0);
      UserInBack(FrameOf(f), 42, 44, f.userIn.value.1);
    }
  }

  /** Everything but the scaled fields' meaning: what the Node decoder
      reads from the payload of a frame the encoders wrote. */
  lemma PayloadBack(f: RawFields, diag: string)
    requires FitsFrame(f)
    ensures var d := DecodePayload('F', 'B', HexPairs(FrameOf(f)), diag);
      d.callsign == 'F' && d.packetType == 'B'
      && d.uid == f.uid && d.fw == f.fw && d.rx == f.rx && d.timeMPU == Signed(f.timeMPU, 4)
      && d.status == StatusOf(Num(f.status)) && d.altitude == f.altitude && d.speedVert == f.speedVert
      && d.accel == Scaled(f.accel, 10) && d.angle == f.angle && d.battVoltage == Scaled(f.battVoltage, 1000)
      && d.time == Scaled(f.time, 10) && d.pyroStates == PyroOfNumber(Num(f.pyroStates))
      && d.logStatus == f.logStatus && d.gpsLat == Scaled(f.gpsLat, 1000000)
      && d.gpsLng == Scaled(f.gpsLng, 1000000) && d.gpsState == f.gpsState && d.warnCode == f.warnCode
      && d.message == Message(MessageKind(f.messageType), NegateOnBit23(f.messageValue),
                              Signed(MessageWord(f.messageType, f.messageValue), 4))
      && d.userIn1 == (if f.userIn.Some? then Some(Num(f.userIn.value.0)) else None)
      && d.userIn2 == (if f.userIn.Some? then Some(Num(f.userIn.value.1)) else None)
      && d.rssi == SearchTagged(diag, "rssi") && d.snr == SearchTagged(diag, "snr")
  {
    LeadingFieldsBack(f);
    TrailingFieldsBack(f);
    StatusPyroBack(f);
    MessageFrameBack(f);
    UserInsBack(f);
  }

  /** The status and pyro bytes parse back to the values written. */
  lemma StatusPyroBack(f: RawFields)
    requires FitsFrame(f)
    ensures ParseIntHex(Concat(Slice(HexPairs(FrameOf(f)), 9, 10))) == Num(f.status)
    ensures ParseIntHex(Concat(Slice(HexPairs(FrameOf(f)), 22, 23))) == Num(f.pyroStates)
  {
    FrameLayout(f);
    ByteBack(FrameOf(f), 9, f.status);
    ByteBack(FrameOf(f), 22, f.pyroStates);
  }

  /** The message object read from a frame. */
  lemma MessageFrameBack(f: RawFields)
    requires FitsFrame(f)
    ensures MessageOf(HexPairs(FrameOf(f))) == Message(MessageKind(f.messageType), NegateOnBit23(f.messageValue),
                                                       Signed(MessageWord(f.messageType, f.messageValue), 4))
  {
    FrameLayout(f);
    MessageBack(FrameOf(f), f.messageType, f.messageValue);
  }

  /** The Node round trip: the decoder accepts every line the encoder
      writes for a reading whose fields fit their widths, and gives back
      the callsign 'F', the packet type 'B', every integer field (timeMPU
      as a signed 32-bit value), the status and pyro codes, the scaled
      integers with their divisors, the user inputs when both were given,
      and the decimal text of rssi and snr. */
  lemma NodeRoundTrip(r: Reading)
    requires FitsFrame(NodeFields(r))
    ensures NodeDecode(NodeEncoded(r)).Result?
    ensures var d := NodeDecode(NodeEncoded(r)).d;
      var f := NodeFields(r);
      d.callsign == 'F' && d.packetType == 'B'
      && d.uid == r.uid && d.fw == r.fw && d.rx == r.rx && d.timeMPU == Signed(r.timeMPU, 4)
      && d.status == StatusOf(Num(r.status)) && d.altitude == r.altitude && d.speedVert == r.speedVert
      && d.accel == Scaled(f.accel, 10) && d.angle == r.angle && d.battVoltage == Scaled(f.battVoltage, 1000)
      && d.time == Scaled(f.time, 10) && d.pyroStates == PyroOfNumber(Num(r.pyroStates))
      && d.logStatus == r.logStatus && d.gpsLat == Scaled(f.gpsLat, 1000000)
      && d.gpsLng == Scaled(f.gpsLng, 1000000) && d.gpsState == r.gpsState && d.warnCode == r.warnCode
      && d.message == Message(MessageKind(f.messageType), NegateOnBit23(f.messageValue),
                              Signed(MessageWord(f.messageType, f.messageValue), 4))
      && d.userIn1 == (if r.userIn1.Some? && r.userIn2.Some? then Some(Num(r.userIn1.value)) else None)
      && d.userIn2 == (if r.userIn1.Some? && r.userIn2.Some? then Some(Num(r.userIn2.value)) else None)
      && d.rssi == DecimalOf(r.rssi) && d.snr == DecimalOf(r.snr)
  {
    NodeDecodeOfEncoded(r);
    PayloadBack(NodeFields(r), NodeDiagnostics(r));
    RssiBack(r);
    SnrBack(r);
  }

  /** Each scaled quantity the decoder returns is the encoder's
      rounded-down integer over its scale (`Scaled(f.accel, 10)` and so on,
      by NodeRoundTrip, where NodeFields rounds `accel * 10` down): never
      above the value sent and less than one step (0.1, 0.001, 0.1,
      0.000001) below it, within the tolerances the encoder's self-check
      allows. */
  lemma NodeScaledAccuracy(r: Reading)
    ensures 0.0 <= r.accel - ScaledValue(Scaled(Floor(r.accel * 10.0), 10)) < 0.1
    ensures 0.0 <= r.battVoltage - ScaledValue(Scaled(Floor(r.battVoltage * 1000.0), 1000)) < 0.001
    ensures 0.0 <= r.time - ScaledValue(Scaled(Floor(r.time * 10.0), 10)) < 0.1
    ensures 0.0 <= r.gpsLat - ScaledValue(Scaled(Floor(r.gpsLat * 1000000.0), 1000000)) < 0.000001
    ensures 0.0 <= r.gpsLng - ScaledValue(Scaled(Floor(r.gpsLng * 1000000.0), 1000000)) < 0.000001
  {
    ScaledBack(r.accel, 10, 10.0, 0.1, Scaled(Floor(r.accel * 10.0), 10));
    ScaledBack(r.battVoltage, 1000, 1000.0, 0.001, Scaled(Floor(r.battVoltage * 1000.0), 1000));
    ScaledBack(r.time, 10, 10.0, 0.1, Scaled(Floor(r.time * 10.0), 10));
    ScaledBack(r.gpsLat, 1000000, 1000000.0, 0.000001, Scaled(Floor(r.gpsLat * 1000000.0), 1000000));
    ScaledBack(r.gpsLng, 1000000, 1000000.0, 0.000001, Scaled(Floor(r.gpsLng * 1000000.0), 1000000));
  }

  /** Rounding x * k down and reading it back over k loses less than 1/k. */
  lemma ScaledBack(x: real, k: int, kr: real, step: real, s: Scaled)
    requires k > 0 && kr == k as real && step * kr == 1.0 && s == Scaled(Floor(x * kr), k)
    ensures 0.0 <= x - ScaledValue(s) < step
  {
    FloorScaledError(x, kr);
    assert 1.0 / kr == step;
  }
}
