/** Where the guarded Python decoder does not give back what the Python
    encoder sent, each shown on the decoder as written and paired with the
    reading the encoder evidently intends: the user inputs are joined
    without reversing their little-endian pairs, and the message `raw`
    reads the type byte as the low byte instead of the high one. */
module PyFindings {
  import opened Wrappers
  import opened ByteCodec
  import opened Text
  import opened Hex
  import opened Telemetry
  import opened PyEncoder
  import opened PyDecoder
  import opened PyRoundTrip
  import NodeRoundTrip
  import FlutusDecoder
  import LeRoundTrip

  /** The user input 1, written as four little-endian bytes and read
      big-endian, is 2^24. */
  lemma OneBigEndian()
    ensures ReadBE(WriteLE(1, 4)) == 0x100_0000
  {
    assert WriteLE(1, 4) == [1, 0, 0, 0];
    assert Reverse([1, 0, 0, 0]) == [0, 0, 0, 1];
  }

  /** As written: a user input 1 comes back as 16777216. */
  lemma UserInByteOrder(r: Reading)
    requires FitsFrame(PyFields(r)) && r.rssi.Some? && r.snr.Some?
    requires r.userIn1 == Some(1) && r.userIn2.Some?
    ensures PyEncoded(r).Success?
    ensures PyDecode(PyEncoded(r).value).Success? && PyDecode(PyEncoded(r).value).value.Some?
    ensures PyDecode(PyEncoded(r).value).value.value.userIn1 == Some(0x100_0000)
  {
    PyRoundTrip.PyRoundTrip(r);
    OneBigEndian();
  }

  /** Corrected: each run of user-input pairs reversed before it is joined,
      as the flutus decoder reads them, so little-endian: the user inputs of
      every frame the encoder writes come back as sent, and both are None
      when it wrote no tail. */
  lemma UserInsLittleEndianBack(r: Reading)
    requires FitsFrame(PyFields(r))
    ensures FlutusDecoder.UserInsLE(HexPairs(FrameOf(PyFields(r))))
      == Success(if r.userIn1.Some? && r.userIn2.Some? then (r.userIn1, r.userIn2) else (None, None))
  {
    LeRoundTrip.UserInsReads(PyFields(r));
  }

  /** The type byte put back on top of the 24-bit value. */
  function TypeOnTop(messageType: int, messageValue: int): int
  {
    messageType * TWO24 + messageValue
  }

  /** The four message bytes as the encoder split them: the type byte on
      top of the 24-bit value; IndexError when there is no type byte. */
  function RawAsSent(pairs: seq<string>): (r: Result<int, PyError>)
    ensures |pairs| <= 34 ==> r == Failure(IndexError)
  {
    if |pairs| <= 34 then Failure(IndexError)
    else
      var messageType :- DecodeInt(Slice(pairs, 34, 35), false);
      var messageData :- DecodeInt(Slice(pairs, 35, 38), false);
      Success(TypeOnTop(messageType, messageData))
  }

  /** Corrected: the raw message read with the type byte on top is the
      message sent, for every reading the encoder writes. */
  lemma RawAsSentBack(r: Reading)
    requires FitsFrame(PyFields(r))
    ensures RawAsSent(HexPairs(FrameOf(PyFields(r)))) == Success(r.message)
  {
    FrameRawAsSent(PyFields(r));
    assert TypeOnTop(PyFields(r).messageType, PyFields(r).messageValue) == r.message;
  }

  /** The raw message of a frame, read with the type byte on top. */
  lemma FrameRawAsSent(f: RawFields)
    requires FitsFrame(f)
    ensures RawAsSent(HexPairs(FrameOf(f))) == Success(TypeOnTop(f.messageType, f.messageValue))
  {
    var frame := FrameOf(f);
    FrameLayout(f);
    PyFieldBack(frame, 34, 35, f.messageType, false);
    PyFieldBack(frame, 35, 38, f.messageValue, false);
    RawAsSentOfParts(HexPairs(frame), f.messageType, f.messageValue);
  }

  /** The raw message from its two `decodeInt` reads. */
  lemma RawAsSentOfParts(pairs: seq<string>, t: int, v: int)
    requires |pairs| > 34
    requires DecodeInt(Slice(pairs, 34, 35), false) == Success(t) && DecodeInt(Slice(pairs, 35, 38), false) == Success(v)
    ensures RawAsSent(pairs) == Success(TypeOnTop(t, v))
  {
  }

  /** As written: the message 1 is sent as type byte 0 and value 1, and
      the decoder's `raw`, reading byte 34 as the low byte, gives 256. */
  lemma MessageRawMismatch(r: Reading)
    requires FitsFrame(PyFields(r)) && r.rssi.Some? && r.snr.Some? && r.message == 1
    ensures PyEncoded(r).Success?
    ensures PyDecode(PyEncoded(r).value).Success? && PyDecode(PyEncoded(r).value).value.Some?
    ensures PyDecode(PyEncoded(r).value).value.value.message.raw == 256
    ensures RawAsSent(HexPairs(FrameOf(PyFields(r)))) == Success(1)
  {
    PyRoundTrip.PyRoundTrip(r);
    assert PyFields(r).messageType == 0 && PyFields(r).messageValue == 1;
    assert MessageWord(0, 1) == 256;
    RawAsSentBack(r);
  }
}
