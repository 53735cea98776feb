/** Where the Node decoder does not give back what the Node encoder meant to
    send, each shown on the decoder as written and paired with the reading
    the rest of the system evidently intends: the 24-bit message value is
    negated instead of sign-extended, the message `raw` puts the type byte
    at the bottom instead of the top, channels B and C of the pyro byte are
    never shifted down, and a 4-byte timeMPU of 2^31 or more comes back
    negative. */
module NodeFindings {
  import opened Wrappers
  import opened ByteCodec
  import opened JsInt32
  import opened Telemetry
  import opened NodeEncoder
  import opened NodeDecoder
  import opened NodeRoundTrip
  import opened Hex

  const TWO23: int := 0x80_0000
  const TWO24: int := 0x100_0000

  lemma TwoPowers()
    ensures Pow2(24) == TWO24 && Pow2(23) == TWO23 && Pow256(3) == TWO24 && Pow256(4) == TWO32
  {
    SmallPowers(3);
    Pow2Bytes(4);
    assert Pow2(24) == 2 * Pow2(23);
  }

  /** For a 24-bit value, bit 23 is set exactly from 2^23 up. */
  lemma Bit23OfValue(v: int)
    requires 0 <= v < TWO24
    ensures Bit(ToInt32(v), 23) <==> v >= TWO23
  {
    TwoPowers();
    Int32Identity(v);
    if v >= TWO23 {
      DivModUnique(v, TWO23, 1, v - TWO23);
    } else {
      DivModUnique(v, TWO23, 0, v);
    }
  }

  /** The message value as the rest of the system reads it (the browser
      parser's 24-bit sign extension): a value with bit 23 set is the
      negative number 2^24 below it. */
  function SignExtendedMessage(messageData: int): (value: int)
    ensures 0 <= messageData < TWO24 ==> -TWO23 <= value < TWO23 && (value == messageData || value == messageData - TWO24)
  {
    TwoPowers();
    Signed(messageData, 3)
  }

  /** Sign extension inverts the encoder's `message & 0x00FFFFFF` for every
      value that fits 24 signed bits. */
  lemma SignExtendedRoundTrip(x: int)
    requires -TWO23 <= x < TWO23
    ensures SignExtendedMessage(AndLow(x, 24)) == x
  {
    TwoPowers();
    ModMod(x, TWO24, 256);
    assert AndLow(x, 24) == x % TWO24;
    if x >= 0 {
      DivModUnique(x, TWO24, 0, x);
    } else {
      DivModUnique(x, TWO24, -1, x + TWO24);
    }
  }

  /** Negation and sign extension agree on a 24-bit value exactly when bit
      23 is clear or the value is 0x800000 itself. */
  lemma NegationAgreesOnlyAtMidpoint(v: int)
    requires 0 <= v < TWO24
    ensures NegateOnBit23(v) == SignExtendedMessage(v) <==> v <= TWO23
  {
    Bit23OfValue(v);
    TwoPowers();
  }

  /** As written: a message whose 24-bit value is 0xFFFFFF (-1 in 24-bit
      two's complement) comes back as -16777215, not -1. */
  lemma MessageValueNegated(r: Reading)
    requires FitsFrame(NodeFields(r)) && AndLow(r.message, 24) == 0xFF_FFFF
    ensures NodeDecode(NodeEncoded(r)).Result?
    ensures NodeDecode(NodeEncoded(r)).d.message.value == -0xFF_FFFF
    ensures SignExtendedMessage(AndLow(r.message, 24)) == -1
  {
    NodeRoundTrip.NodeRoundTrip(r);
    Bit23OfValue(0xFF_FFFF);
    TwoPowers();
  }

  /** The four message bytes as the encoder split them: the type byte on
      top, the 24-bit value below, read as a 32-bit integer. */
  function IntendedRaw(messageType: int, messageValue: int): (raw: int)
    ensures -TWO31 <= raw < TWO31
  {
    ToInt32(messageType * TWO24 + messageValue)
  }

  /** `message >> 24` and `message & 0x00FFFFFF` put back together this
      way give the message again, for every message the frame can carry
      (the type byte must fit one unsigned byte, so the message is a
      non-negative 32-bit integer). */
  lemma IntendedRawRoundTrip(m: int)
    requires 0 <= m < TWO31
    ensures IntendedRaw(ShiftRight(m, 24), AndLow(m, 24)) == m
  {
    TwoPowers();
    Int32Identity(m);
    Uint32Identity(m);
    ShiftCount(24);
    assert ShiftRight(m, 24) == m / TWO24;
    assert AndLow(m, 24) == m % TWO24;
    assert (m / TWO24) * TWO24 + m % TWO24 == m;
  }

  /** As written: the message 1 is sent as type byte 0 and value 1, and the
      decoder's `raw`, reading byte 34 as the low byte, gives 256. */
  lemma MessageRawMismatch(r: Reading)
    requires FitsFrame(NodeFields(r)) && r.message == 1
    ensures NodeDecode(NodeEncoded(r)).Result?
    ensures NodeDecode(NodeEncoded(r)).d.message.raw == 256
    ensures IntendedRaw(NodeFields(r).messageType, NodeFields(r).messageValue) == 1
  {
    MessageOneSplit(r);
    DecodedRaw(r);
    TwoPowers();
    assert MessageWord(0, 1) == 256;
    IntendedRawRoundTrip(1);
  }

  /** The message 1 is split into type byte 0 and value 1. */
  lemma MessageOneSplit(r: Reading)
    requires r.message == 1
    ensures NodeFields(r).messageType == 0 && NodeFields(r).messageValue == 1
  {
    TwoPowers();
    Int32Identity(1);
    Uint32Identity(1);
    ShiftCount(24);
  }

  /** The decoded message raw of an encoded line, from the round trip. */
  lemma DecodedRaw(r: Reading)
    requires FitsFrame(NodeFields(r))
    ensures NodeDecode(NodeEncoded(r)).Result?
    ensures NodeDecode(NodeEncoded(r)).d.message.raw
      == Signed(MessageWord(NodeFields(r).messageType, NodeFields(r).messageValue), 4)
  {
    NodeRoundTrip.NodeRoundTrip(r);
  }

  /** The pyro channels as the browser parser reads them: each two-bit
      field masked and shifted down, `(pyro & mask) >> shift`. */
  function PyroOfShifted(pyro: int): PyroStates
  {
    PyroStates(PyroName(MaskBits(pyro, 0, 2)), PyroName(MaskBits(pyro, 2, 4) / 4),
               PyroName(MaskBits(pyro, 4, 6) / 16))
  }

  /** Shifted channels give back the state each channel was packed with. */
  lemma PyroShiftedRoundTrip(a: int, b: int, c: int)
    requires 0 <= a < 4 && 0 <= b < 4 && 0 <= c < 4
    ensures PyroOfShifted(a + 4 * b + 16 * c) == PyroStates(PyroName(a), PyroName(b), PyroName(c))
  {
    var p := a + 4 * b + 16 * c;
    assert Pow2(2) == 4 && Pow2(4) == 16 && Pow2(0) == 1;
    assert MaskBits(p, 0, 2) == a by {
      MaskIsScaledField(p, 0);
      DivModUnique(p, 4, b + 4 * c, a);
    }
    assert MaskBits(p, 2, 4) / 4 == b by {
      MaskIsScaledField(p, 2);
      DivModUnique(p, 4, b + 4 * c, a);
      DivModUnique(b + 4 * c, 4, c, b);
      DivModUnique(4 * b, 4, b, 0);
    }
    assert MaskBits(p, 4, 6) / 16 == c by {
      MaskIsScaledField(p, 4);
      DivModUnique(p, 16, c, a + 4 * b);
      DivModUnique(c, 4, 0, c);
      DivModUnique(16 * c, 16, c, 0);
    }
  }

  /** As written: a pyro byte 4 (channel B in continuity) is sent, and the
      decoder names channel B "Error"; the shifted reading names it
      "Continuity". */
  lemma PyroContinuityLost(r: Reading)
    requires FitsFrame(NodeFields(r)) && r.pyroStates == 4
    ensures NodeDecode(NodeEncoded(r)).Result?
    ensures NodeDecode(NodeEncoded(r)).d.pyroStates.states.pyroB == "Error"
    ensures PyroOfShifted(r.pyroStates).pyroB == "Continuity"
  {
    DecodedPyro(r);
    PyroFour();
  }

  /** Channel B in continuity, alone: "Error" unshifted, "Continuity" shifted. */
  lemma PyroFour()
    ensures PyroOfNumber(Num(4)).states.pyroB == "Error"
    ensures PyroOfShifted(4).pyroB == "Continuity"
  {
    Int32Identity(4);
    PyroUnshiftedChannels(4);
    PyroShiftedRoundTrip(0, 1, 0);
  }

  /** The decoded pyro states of an encoded line, from the round trip. */
  lemma DecodedPyro(r: Reading)
    requires FitsFrame(NodeFields(r))
    ensures NodeDecode(NodeEncoded(r)).Result?
    ensures NodeDecode(NodeEncoded(r)).d.pyroStates == PyroOfNumber(Num(r.pyroStates))
  {
    NodeRoundTrip.NodeRoundTrip(r);
  }

  /** The 4-byte read made unsigned again (`>>> 0`), as a timestamp in
      milliseconds is meant. */
  function UnsignedRead(arr: seq<string>): (v: int)
    ensures 0 <= v < TWO32
  {
    ToUint32(DecodeIntValue(arr, false, false))
  }

  /** The unsigned read gives back the little-endian value of any four
      bytes. */
  lemma UnsignedReadOfBytes(bs: seq<int>)
    requires IsBytes(bs) && |bs| == 4
    ensures UnsignedRead(HexPairs(bs)) == ReadLE(bs)
  {
    DecodeIntOfBytes(bs, false);
    ReadLERange(bs);
    TwoPowers();
    var u := ReadLE(bs);
    if 2 * u >= TWO32 {
      DivModUnique(u - TWO32, TWO32, -1, u);
    } else {
      DivModUnique(u, TWO32, 0, u);
    }
  }

  /** As written: a timeMPU of 2^31 milliseconds (about 24.8 days) is sent
      as four unsigned bytes and comes back as -2^31. */
  lemma TimeMpuWraps(r: Reading)
    requires FitsFrame(NodeFields(r)) && r.timeMPU == TWO31
    ensures NodeDecode(NodeEncoded(r)).Result?
    ensures NodeDecode(NodeEncoded(r)).d.timeMPU == -TWO31
  {
    NodeRoundTrip.NodeRoundTrip(r);
    TwoPowers();
  }
}
