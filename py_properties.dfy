/** What the guarded Python decoder promises about any line: the guard is
    the only way it returns None, payloads too short for the status, pyro
    or message bytes raise instead of returning None, as does a partial
    user-input tail, and `decodeInt` is an exact read of the width it is
    given. */
module PyProperties {
  import opened Wrappers
  import opened ByteCodec
  import opened Text
  import opened Hex
  import opened Telemetry
  import opened PyDecoder

  /** A line the guard accepts has its first '|' right after the
      alphanumeric run, so its data part is "FB" and that run. */
  lemma GuardData(s: string)
    requires GuardMatch(s)
    ensures var data := Split(s, '|')[0]; |data| >= 2 && data[0] == 'F' && data[1] == 'B'
  {
    var n := AlnumRun(s[2..]);
    GuardHead(s);
    BarAfterRun(s, n);
    SplitFirst(s, '|', 2 + n);
  }

  /** The guard's "FB" is the first two characters. */
  lemma GuardHead(s: string)
    requires StartsWith(s, "FB")
    ensures |s| >= 2 && s[0] == 'F' && s[1] == 'B'
  {
    assert s[0] == s[..2][0];
    assert s[1] == s[..2][1];
  }

  /** No '|' comes before the end of the alphanumeric run after "FB". */
  lemma BarAfterRun(s: string, n: nat)
    requires |s| >= 2 && s[0] == 'F' && s[1] == 'B' && n == AlnumRun(s[2..])
    ensures forall i | 0 <= i < 2 + n :: s[i] != '|'
  {
    forall i | 2 <= i < 2 + n
      ensures s[i] != '|'
    {
      assert s[i] == s[2..][i - 2];
    }
  }

  /** The decoder returns None exactly when the guard fails: a line that
      passes it always has packet type 'B', so the packet-type check of
      line 19 can never return None. */
  lemma NoneExactlyWhenGuardFails(s: string)
    ensures PyDecode(s) == Success(None) <==> !GuardMatch(s)
  {
    if GuardMatch(s) {
      GuardData(s);
    }
  }

  /** A line the guard accepts raises ValueError when a second '|' makes
      the two-name unpacking of the split fail. */
  lemma ExtraBarRaises(s: string)
    requires GuardMatch(s) && |Split(s, '|')| > 2
    ensures PyDecode(s) == Failure(ValueError)
  {
  }

  /** On a line the guard accepts, with one '|', the result is the
      decoded payload of the data part after "FB" (or its exception). */
  lemma GuardedDecode(s: string)
    requires GuardMatch(s) && |Split(s, '|')| == 2
    ensures var parts := Split(s, '|');
      var payload := DecodePayload('F', 'B', Pairs(parts[0][2..]), parts[1]);
      PyDecode(s) == if payload.Success? then Success(Some(payload.value)) else Failure(payload.error)
  {
    GuardData(s);
  }

  /** A payload without the pyro byte (at most 22 pairs) raises ValueError
      from `int('', 16)`, at line 28 or 42. */
  lemma ShortPayloadValueError(callsign: char, packetType: char, pairs: seq<string>, diagnostics: string)
    requires |pairs| <= 22
    ensures DecodePayload(callsign, packetType, pairs, diagnostics) == Failure(ValueError)
  {
    assert Slice(pairs, 22, 23) == [];
  }

  /** A payload with parsable status and pyro bytes but no message type
      byte (23 to 34 pairs) raises IndexError at `rawByteArray[34]`. */
  lemma ShortPayloadIndexError(callsign: char, packetType: char, pairs: seq<string>, diagnostics: string)
    requires 22 < |pairs| <= 34
    requires PyInt(pairs[9]).Success? && PyInt(pairs[22]).Success?
    ensures DecodePayload(callsign, packetType, pairs, diagnostics) == Failure(IndexError)
  {
    assert Slice(pairs, 9, 10) == [pairs[9]];
    assert Slice(pairs, 22, 23) == [pairs[22]];
    ConcatOne(pairs[9]);
    ConcatOne(pairs[22]);
  }

  /** No payload short of the message bytes decodes: with at most 34
      pairs the decoder always raises. */
  lemma ShortPayloadRaises(callsign: char, packetType: char, pairs: seq<string>, diagnostics: string)
    requires |pairs| <= 34
    ensures DecodePayload(callsign, packetType, pairs, diagnostics).Failure?
  {
  }

  /** A tail of one to four pairs raises ValueError: pairs 42-43 are
      missing, and `int('', 16)` of them raises (as does anything before). */
  lemma PartialTailRaises(callsign: char, packetType: char, pairs: seq<string>, diagnostics: string)
    requires 38 < |pairs| <= 42
    ensures DecodePayload(callsign, packetType, pairs, diagnostics) == Failure(ValueError)
  {
  }

  /** `decodeInt` of the pairs of some bytes is their exact little-endian
      value, two's complement when signed. */
  lemma DecodeIntOfBytes(bs: seq<int>, signed: bool)
    requires IsBytes(bs)
    ensures DecodeInt(HexPairs(bs), signed) == Success(if signed then Signed(ReadLE(bs), |bs|) else ReadLE(bs))
  {
    ConcatHexPairs(bs);
    FromHexToHex(bs);
  }

  /** A `decodeInt` that succeeds lies in the range of the number of bytes
      it read: [0, 256^w) unsigned (so a 4-byte unsigned field spans
      0..2^32-1) and [-256^w/2, 256^w/2) signed. */
  lemma DecodeIntRange(arr: seq<string>, signed: bool)
    ensures DecodeInt(arr, signed).Success? ==>
      var w := |Concat(arr)| / 2;
      var v := DecodeInt(arr, signed).value;
      if signed then InSignedRange(v, w) else InUnsignedRange(v, w)
  {
    match FromHex(Concat(arr))
    case None =>
    case Some(bs) =>
      ReadLERange(bs);
  }
}
