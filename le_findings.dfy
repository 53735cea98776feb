/** Where the flutus and repository-root Python decoders do not give back
    what the flutus encoder sent, each shown on the decoder as written and
    paired with the reading the encoder evidently intends:
    - the fields written signed (uid, fw, rx, altitude, the coordinates)
      are never read in two's complement: the flutus decoder's sign test
      looks at bit 23 whatever the width and skips the coordinates, and
      the root decoder has no sign handling at all;
    - time is written as tenths of a second and divided by 1000. */
module LeFindings {
  import opened Wrappers
  import opened ByteCodec
  import opened JsInt32
  import opened Text
  import opened Hex
  import opened Telemetry
  import opened FlutusEncoder
  import opened FlutusDecoder
  import opened RootDecoder
  import opened LeRoundTrip
  import PyEncoder
  import PyDecoder
  import PyRoundTrip
  import NodeFindings

  /** As written: a reading with uid, fw, rx and altitude -1 and
      coordinates -1.0 comes back from the flutus decoder with uid and fw
      65535, rx 255, altitude -16777215 and coordinates 4294.967296 - 1. */
  lemma FlutusSignsAsWritten(r: Reading)
    requires FitsFrame(FlutusFields(r)) && r.rssi.Some? && r.snr.Some?
    requires r.uid == -1 && r.fw == -1 && r.rx == -1 && r.altitude == -1 && r.gpsLat == -1.0 && r.gpsLng == -1.0
    ensures FlutusEncoded(r).Success?
    ensures FlutusDecode(FlutusEncoded(r).value).Success? && FlutusDecode(FlutusEncoded(r).value).value.Some?
    ensures var d := FlutusDecode(FlutusEncoded(r).value).value.value;
      d.uid == 0xFFFF && d.fw == 0xFFFF && d.rx == 0xFF && d.altitude == -0xFF_FFFF
      && d.gpsLat == Scaled(0x1_0000_0000 - 1000000, 1000000) && d.gpsLng == Scaled(0x1_0000_0000 - 1000000, 1000000)
  {
    FlutusRoundTrip(r);
    NegativeOneWraps();
    assert FlutusFields(r).gpsLat == -1000000;
  }

  /** As written: the same reading comes back from the root decoder with
      uid and fw 65535, rx 255 and altitude 16777215. */
  lemma RootSignsAsWritten(r: Reading)
    requires FitsFrame(FlutusFields(r)) && r.rssi.Some? && r.snr.Some?
    requires r.uid == -1 && r.fw == -1 && r.rx == -1 && r.altitude == -1
    ensures FlutusEncoded(r).Success?
    ensures RootDecode(FlutusEncoded(r).value).Success? && RootDecode(FlutusEncoded(r).value).value.Some?
    ensures var d := RootDecode(FlutusEncoded(r).value).value.value;
      d.uid == 0xFFFF && d.fw == 0xFFFF && d.rx == 0xFF && d.altitude == 0xFF_FFFF
  {
    RootRoundTrip(r);
    NegativeOneWraps();
  }

  /** -1 modulo each width, and the 24-bit one negated on bit 23. */
  lemma NegativeOneWraps()
    ensures -1 % 0x100 == 0xFF && -1 % 0x1_0000 == 0xFFFF && -1 % PyEncoder.TWO24 == 0xFF_FFFF
    ensures PyDecoder.NegateOnBit23(0xFF_FFFF) == -0xFF_FFFF
    ensures -1000000 % TWO32 == 0x1_0000_0000 - 1000000
  {
    NodeFindings.TwoPowers();
    DivModUnique(-1, 0x100, -1, 0xFF);
    DivModUnique(-1, 0x1_0000, -1, 0xFFFF);
    DivModUnique(-1, PyEncoder.TWO24, -1, 0xFF_FFFF);
    DivModUnique(-1000000, TWO32, -1, 0x1_0000_0000 - 1000000);
    DivModUnique(0xFF_FFFF, Pow2(23), 1, 0x7F_FFFF);
  }

  /** Corrected: a field read in two's complement at its own width, the
      way the encoder writes the signed fields. */
  function TwosComplementField(pairs: seq<string>, lo: nat, hi: nat): Result<int, PyError>
    requires lo <= hi
  {
    var u :- ReversedInt(Slice(pairs, lo, hi));
    Success(Signed(u, hi - lo))
  }

  /** A signed field of the frame read in two's complement is the value
      written. */
  lemma TwosComplementAt(frame: seq<int>, lo: nat, hi: nat, v: int)
    requires IsBytes(frame) && lo < hi <= |frame|
    requires frame[lo..hi] == WriteLE(v, hi - lo) && InSignedRange(v, hi - lo)
    ensures TwosComplementField(HexPairs(frame), lo, hi) == Success(v)
  {
    WrappedAt(frame, lo, hi, v, Pow256(hi - lo));
    ReadWriteLE(v, hi - lo);
    SignedRoundTrip(v, hi - lo);
  }

  /** Corrected: every field the encoder writes signed comes back as
      sent, negative values included. */
  lemma TwosComplementBack(f: RawFields)
    requires FitsFrame(f)
    ensures TwosComplementField(HexPairs(FrameOf(f)), 0, 2) == Success(f.uid)
    ensures TwosComplementField(HexPairs(FrameOf(f)), 2, 4) == Success(f.fw)
    ensures TwosComplementField(HexPairs(FrameOf(f)), 4, 5) == Success(f.rx)
    ensures TwosComplementField(HexPairs(FrameOf(f)), 10, 13) == Success(f.altitude)
    ensures TwosComplementField(HexPairs(FrameOf(f)), 24, 28) == Success(f.gpsLat)
    ensures TwosComplementField(HexPairs(FrameOf(f)), 28, 32) == Success(f.gpsLng)
  {
    var frame := FrameOf(f);
    FrameLayout(f);
    TwosComplementAt(frame, 0, 2, f.uid);
    TwosComplementAt(frame, 2, 4, f.fw);
    TwosComplementAt(frame, 4, 5, f.rx);
    TwosComplementAt(frame, 10, 13, f.altitude);
    TwosComplementAt(frame, 24, 28, f.gpsLat);
    TwosComplementAt(frame, 28, 32, f.gpsLng);
  }

  /** As written: a time of one second is sent as 10 tenths and both
      decoders return 10 / 1000, a hundredth of a second. */
  lemma TimeAsWritten(r: Reading)
    requires FitsFrame(FlutusFields(r)) && r.rssi.Some? && r.snr.Some? && r.time == 1.0
    ensures FlutusEncoded(r).Success?
    ensures FlutusDecode(FlutusEncoded(r).value).Success? && FlutusDecode(FlutusEncoded(r).value).value.Some?
    ensures RootDecode(FlutusEncoded(r).value).Success? && RootDecode(FlutusEncoded(r).value).value.Some?
    ensures FlutusDecode(FlutusEncoded(r).value).value.value.time == Scaled(10, 1000)
    ensures RootDecode(FlutusEncoded(r).value).value.value.time == Scaled(10, 1000)
    ensures ScaledValue(Scaled(10, 1000)) == 0.01
  {
    FlutusRoundTrip(r);
    RootRoundTrip(r);
    assert Trunc(10.0) == 10;
  }

  /** Corrected: time read over 10, the scale the encoder writes it at. */
  function IntendedTime(pairs: seq<string>): Result<Scaled, PyError>
  {
    var time :- ReversedInt(Slice(pairs, 20, 22));
    Success(Scaled(time, 10))
  }

  /** Corrected: a time the encoder truncates to tenths, read over 10,
      is within a tenth of a second of the time sent. */
  lemma TenthsAccuracy(x: real)
    ensures -0.1 < x - ScaledValue(Scaled(Trunc(x * 10.0), 10)) < 0.1
  {
    PyRoundTrip.TruncBack(x, 10, 10.0, 0.1, Scaled(Trunc(x * 10.0), 10));
  }

  /** Corrected: the time of every frame, read over 10, is the tenths
      the encoder wrote, over 10. */
  lemma IntendedTimeOfFrame(f: RawFields)
    requires FitsFrame(f)
    ensures IntendedTime(HexPairs(FrameOf(f))) == Success(Scaled(f.time, 10))
  {
    TrailingReads(f);
  }
}
