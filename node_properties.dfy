/** What the Node decoder promises about any line, not only the lines the
    encoder writes: which lines give null, which throw and which decode,
    and the ranges of `decodeInt` reads of whole bytes. */
module NodeProperties {
  import opened Wrappers
  import opened ByteCodec
  import opened JsInt32
  import opened Text
  import opened Hex
  import opened NodeDecoder

  /** A line gives null exactly when its second character is neither 'b'
      nor 'B'; it throws exactly when it has no packet type, or is binary
      and has no '|'; otherwise it decodes, whatever its callsign, with the
      callsign and packet type it carries. */
  lemma NodeDecodeOutcome(x: string)
    ensures var data := Split(x, '|')[0];
      && (NodeDecode(x).NotBinary? <==> |data| >= 2 && data[1] != 'b' && data[1] != 'B')
      && (NodeDecode(x).Threw? <==> |data| < 2 || ((data[1] == 'b' || data[1] == 'B') && '|' !in x))
      && (NodeDecode(x).Result? ==> NodeDecode(x).d.callsign == data[0] && NodeDecode(x).d.packetType == data[1])
  {
    SplitPieces(x, '|');
  }

  /** `decodeInt` of whole bytes, up to three of them, stays in range: an
      unsigned read in [0, 2^(8w)), a signed one in [-2^(8w-1), 2^(8w-1)),
      and the signed read is the unsigned one less 2^(8w) from half of
      2^(8w) up. */
  lemma DecodeIntRange(bs: seq<int>)
    requires IsBytes(bs) && |bs| <= 3
    ensures 0 <= DecodeIntValue(HexPairs(bs), false, false) < Pow256(|bs|)
    ensures InSignedRange(DecodeIntValue(HexPairs(bs), true, false), |bs|)
    ensures var u := DecodeIntValue(HexPairs(bs), false, false);
      DecodeIntValue(HexPairs(bs), true, false) == if 2 * u >= Pow256(|bs|) then u - Pow256(|bs|) else u
  {
    DecodeIntOfBytes(bs, false);
    DecodeIntOfBytes(bs, true);
    ReadLERange(bs);
  }
}
