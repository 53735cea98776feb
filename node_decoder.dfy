/** The Node.js decoder (`decodeFluctusData` of the fluctus JavaScript
    scripts): split the line at '|', check the packet type, cut the payload
    into two-character pairs and read each field from a fixed slice of
    pairs with the inner `decodeInt`, which parses every pair with
    `parseInt(_, 16)` and folds the bytes together with 32-bit `|=` and
    `<<`. */
module NodeDecoder {
  import opened Wrappers
  import opened ByteCodec
  import opened JsInt32
  import opened Text
  import opened Hex
  import opened Telemetry
  import opened Sequences

  /** `status`: the name of the code, and the parsed byte itself. */
  datatype Status = Status(message: string, raw: JsNumber)

  /** `pyroStates`: the three channel names, and the parsed byte itself. */
  datatype Pyro = Pyro(states: PyroStates, raw: JsNumber)

  /** `message`: the kind named by the type byte keyed to the (possibly
      negated) 24-bit value, and the four message bytes read as one number. */
  datatype Message = Message(kind: string, value: int, raw: int)

  /** The object `decodeFluctusData` returns. Scaled fields keep the
      integer read and the divisor the decoder applies; the user inputs are null (None) unless
      the payload has more than 38 pairs, and may then be NaN. */
  datatype Decoded = Decoded(
    callsign: char, packetType: char, uid: int, fw: int, rx: int, timeMPU: int,
    status: Status, altitude: int, speedVert: int, accel: Scaled, angle: int,
    battVoltage: Scaled, time: Scaled, pyroStates: Pyro, logStatus: int,
    gpsLat: Scaled, gpsLng: Scaled, gpsState: int, warnCode: int, message: Message,
    userIn1: Option<JsNumber>, userIn2: Option<JsNumber>,
    rssi: Option<string>, snr: Option<string>)

  /** What a call produces: a thrown TypeError, `null` for a packet that is
      not binary, or the decoded object. */
  datatype Outcome = Threw | NotBinary | Result(d: Decoded)

  /** `parseInt(hexStr.substr(i, 2), 16)`. */
  function Chunk(hexStr: string, i: nat): JsNumber
  {
    ParseIntHex(Slice(hexStr, i, i + 2))
  }

  /** How many values of i = 0, 2, 4, ... lie below n. */
  function ChunkCount(n: nat): (c: nat)
    ensures n <= 2 * c <= n + 1
  {
    if n == 0 then 0 else if n == 1 then 1 else 1 + ChunkCount(n - 2)
  }

  /** The numbers `decodeInt` parses from the joined pairs: a chunk at each
      i = 0, 2, 4, ... below the length. */
  function ChunkNumbers(hexStr: string): (ns: seq<JsNumber>)
  {
    seq(ChunkCount(|hexStr|), k requires 0 <= k => Chunk(hexStr, 2 * k))
  }

  /** Chunk k is parsed from the two characters at i = 2k. */
  lemma ChunkAt(hexStr: string, k: nat, i: nat)
    requires k < ChunkCount(|hexStr|) && i == 2 * k
    ensures ChunkNumbers(hexStr)[k] == Chunk(hexStr, i)
  {
  }

  /** The first n parsed bytes folded with `value |= bytes[i] << (8 * i)`. */
  function OrAccumulate(bytes: seq<JsNumber>, n: nat): int
    requires n <= |bytes|
  {
    if n == 0 then 0
    else BitOr(OrAccumulate(bytes, n - 1), ShiftLeft(NumberToInt32(bytes[n - 1]), 8 * (n - 1)))
  }

  /** `decodeInt(arr, signed, byteorder)`: join, parse pairwise, reverse for
      "big", fold, and when signed subtract 2^bits from a value of at least
      half of it. */
  function DecodeIntValue(arr: seq<string>, signed: bool, bigEndian: bool): int
  {
    var bytes := ChunkNumbers(Concat(arr));
    var ordered := if bigEndian then Reverse(bytes) else bytes;
    var value := OrAccumulate(ordered, |ordered|);
    var max := Pow2(8 * |ordered|);
    if signed && 2 * value >= max then value - max else value
  }

  /** The first loop of `decodeInt`: `bytes.push(parseInt(hexStr.substr(i, 2), 16))`
      for i = 0, 2, 4, ... below the length. */
  method ParseChunks(hexStr: string) returns (bytes: seq<JsNumber>)
    ensures bytes == ChunkNumbers(hexStr)
  {
    ghost var chunks := ChunkNumbers(hexStr);
    bytes := [];
    var i := 0;
    while i < |hexStr|
      invariant i == 2 * |bytes| && |bytes| <= |chunks|
      invariant i > |hexStr| ==> i == |hexStr| + 1
      invariant bytes == chunks[..|bytes|]
    {
      ChunkAt(hexStr, |bytes|, i);
      TakeOneMore(chunks, |bytes|);
      bytes := bytes + [Chunk(hexStr, i)];
      i := i + 2;
    }
    assert |bytes| == |chunks|;
    TakeAll(chunks);
  }

  /** The second loop of `decodeInt`: `value |= bytes[i] << (8 * i)`. */
  method FoldBytes(bytes: seq<JsNumber>) returns (value: int)
    ensures value == OrAccumulate(bytes, |bytes|)
  {
    value := 0;
    for j := 0 to |bytes|
      invariant value == OrAccumulate(bytes, j)
    {
      value := BitOr(value, ShiftLeft(NumberToInt32(bytes[j]), 8 * j));
    }
  }

  /** The inner `decodeInt`: join, parse, reverse in place for "big", fold,
      and the signed adjustment. */
  method DecodeInt(arr: seq<string>, signed: bool, bigEndian: bool) returns (value: int)
    ensures value == DecodeIntValue(arr, signed, bigEndian)
  {
    var hexStr := Concat(arr);
    var bytes := ParseChunks(hexStr);
    if bigEndian {
      bytes := Reverse(bytes);
    }
    value := FoldBytes(bytes);
    if signed {
      var max := Pow2(8 * |bytes|);
      if 2 * value >= max {
        value := value - max;
      }
    }
  }

  /** Bytes as the numbers `parseInt` gives for them. */
  function Numbers(bs: seq<int>): (ns: seq<JsNumber>)
    ensures |ns| == |bs| && forall k | 0 <= k < |bs| :: ns[k] == Num(bs[k])
  {
    if bs == [] then [] else [Num(bs[0])] + Numbers(bs[1..])
  }

  /** The parsed bytes of hex text written by an encoder are those bytes. */
  lemma ChunkNumbersOfHex(bs: seq<int>)
    requires IsBytes(bs)
    ensures ChunkNumbers(ToHex(bs)) == Numbers(bs)
  {
    var s := ToHex(bs);
    assert |ChunkNumbers(s)| == |bs|;
    forall k | 0 <= k < |bs|
      ensures ChunkNumbers(s)[k] == Num(bs[k])
    {
      ChunkOfHex(bs, k);
    }
  }

  /** Chunk k of encoder output is byte k. */
  lemma ChunkOfHex(bs: seq<int>, k: nat)
    requires IsBytes(bs) && k < |bs|
    ensures |ToHex(bs)| == 2 * |bs| && ChunkNumbers(ToHex(bs))[k] == Num(bs[k])
  {
    var s := ToHex(bs);
    PairsOfHex(bs);
    ChunkAt(s, k, 2 * k);
    PairIsSlice(s, k);
    ByteHexValue(bs[k]);
  }

  lemma PairIsSlice(s: string, k: nat)
    requires k < |s| / 2
    ensures Slice(s, 2 * k, 2 * k + 2) == Pairs(s)[k]
  {
  }

  /** Up to four bytes, the 32-bit fold of bytes 0..n-1 is their
      little-endian value wrapped to a signed 32-bit integer. */
  lemma {:induction false} OrAccumulateBytes(bs: seq<int>, n: nat)
    requires IsBytes(bs) && n <= |bs| && n <= 4
    ensures OrAccumulate(Numbers(bs), n) == ToInt32(ReadLE(bs[..n]))
  {
    var ns := Numbers(bs);
    if n == 0 {
      assert bs[..0] == [];
      Int32Identity(0);
    } else {
      OrAccumulateBytes(bs, n - 1);
      var front := bs[..n - 1];
      var u := ReadLE(front);
      ReadLERange(front);
      SmallPowers(n - 1);
      Int32Identity(u);
      Int32Identity(bs[n - 1]);
      AccumulateByte(u, bs[n - 1], n - 1);
      TakeOneMore(bs, n - 1);
      ReadLESnoc(front, bs[n - 1]);
    }
  }

  /** The bytes `decodeInt` folds from the pairs of some bytes: as many as
      the bytes, and up to four their fold is the 32-bit wrap of their
      little-endian value. */
  lemma FoldOfHexPairs(bs: seq<int>)
    requires IsBytes(bs) && |bs| <= 4
    ensures |ChunkNumbers(Concat(HexPairs(bs)))| == |bs|
    ensures OrAccumulate(ChunkNumbers(Concat(HexPairs(bs))), |bs|) == ToInt32(ReadLE(bs))
  {
    ConcatHexPairs(bs);
    ChunkNumbersOfHex(bs);
    OrAccumulateBytes(bs, |bs|);
    TakeAll(bs);
  }

  /** `decodeInt` of the pairs of bytes read back: the little-endian value,
      made two's complement when signed; four bytes always come back as a
      signed 32-bit value, signed or not, because `|=` and `<<` work on 32
      bits. */
  lemma DecodeIntOfBytes(bs: seq<int>, signed: bool)
    requires IsBytes(bs) && |bs| <= 4
    ensures DecodeIntValue(HexPairs(bs), signed, false)
      == if signed || |bs| == 4 then Signed(ReadLE(bs), |bs|) else ReadLE(bs)
  {
    FoldOfHexPairs(bs);
    if |bs| <= 3 {
      DecodeFewBytes(bs, signed);
    } else {
      DecodeFourBytes(bs, signed);
    }
  }

  lemma DecodeFewBytes(bs: seq<int>, signed: bool)
    requires IsBytes(bs) && |bs| <= 3
    requires |ChunkNumbers(Concat(HexPairs(bs)))| == |bs|
    requires OrAccumulate(ChunkNumbers(Concat(HexPairs(bs))), |bs|) == ToInt32(ReadLE(bs))
    ensures DecodeIntValue(HexPairs(bs), signed, false) == if signed then Signed(ReadLE(bs), |bs|) else ReadLE(bs)
  {
    var u := ReadLE(bs);
    ReadLERange(bs);
    Pow2Bytes(|bs|);
    SmallPowers(|bs|);
    Int32Identity(u);
  }

  lemma DecodeFourBytes(bs: seq<int>, signed: bool)
    requires IsBytes(bs) && |bs| == 4
    requires |ChunkNumbers(Concat(HexPairs(bs)))| == 4
    requires OrAccumulate(ChunkNumbers(Concat(HexPairs(bs))), 4) == ToInt32(ReadLE(bs))
    ensures DecodeIntValue(HexPairs(bs), signed, false) == Signed(ReadLE(bs), 4)
  {
    ReadLERange(bs);
    Pow2Bytes(4);
    SignedIsInt32(ReadLE(bs));
  }

  /** Reading four bytes as signed is the 32-bit wrap. */
  lemma SignedIsInt32(u: int)
    requires 0 <= u < Pow256(4)
    ensures Signed(u, 4) == ToInt32(u)
  {
    assert Pow256(4) == TWO32;
    DivModUnique(u, TWO32, 0, u);
  }

  /** An empty slice (a payload too short for the field) reads as 0. */
  lemma DecodeIntEmpty(signed: bool, bigEndian: bool)
    ensures DecodeIntValue([], signed, bigEndian) == 0
  {
    assert Concat([]) == "";
    assert ChunkNumbers("") == [];
    assert Pow2(0) == 1;
  }

  /** The status object: the code's name when the parsed byte is 0 to 6,
      "Error" for anything else (NaN included), and the parsed byte. */
  function StatusOf(statusData: JsNumber): (status: Status)
    ensures status.raw == statusData
    ensures status.message != "Error" <==> statusData.Num? && 0 <= statusData.n <= 6
  {
    match statusData
    case Num(n) => Status(StatusMessage(n), statusData)
    case NaN => Status("Error", statusData)
  }

  /** The `if (statusData === 0) ... else if (statusData === 6)` chain. */
  method DecodeStatus(statusData: JsNumber) returns (status: Status)
    ensures status == StatusOf(statusData)
  {
    status := Status("Error", statusData);
    if statusData == Num(0) {
      status := status.(message := "Idle");
    } else if statusData == Num(1) {
      status := status.(message := "Armed");
    } else if statusData == Num(2) {
      status := status.(message := "Countdown Engaged");
    } else if statusData == Num(3) {
      status := status.(message := "Waiting for Launch");
    } else if statusData == Num(4) {
      status := status.(message := "Ascent");
    } else if statusData == Num(5) {
      status := status.(message := "Descent");
    } else if statusData == Num(6) {
      status := status.(message := "Touchdown");
    }
  }

  /** One channel's `if (s === 0) ... else if (s === 3)` chain, starting
      from "Error". */
  method NameChannel(masked: int) returns (name: string)
    ensures name == PyroName(masked)
  {
    name := "Error";
    if masked == 0 {
      name := "Disable";
    } else if masked == 1 {
      name := "Continuity";
    } else if masked == 3 {
      name := "Enabled / Fired";
    }
  }

  /** The pyro object: `&` makes the parsed byte a 32-bit integer (NaN
      becomes 0) before the three unshifted masks are applied. */
  function PyroOfNumber(pyroData: JsNumber): Pyro
  {
    Pyro(PyroOf(NumberToInt32(pyroData)), pyroData)
  }

  /** The message value as the decoder finishes it: the 3-byte read is
      negated when its bit 23 is set. */
  function NegateOnBit23(messageData: int): int
  {
    if Bit(ToInt32(messageData), 23) then -messageData else messageData
  }

  /** The message object built from the payload pairs. */
  function MessageOf(pairs: seq<string>): Message
  {
    var messageType := DecodeIntValue(Slice(pairs, 34, 35), false, false);
    var messageData := DecodeIntValue(Slice(pairs, 35, 38), false, false);
    Message(MessageKind(messageType), NegateOnBit23(messageData), DecodeIntValue(Slice(pairs, 34, 38), false, false))
  }

  /** A user input: the pairs from lo to hi, reversed, joined and parsed;
      null unless there are more than 38 pairs. */
  function UserInOf(pairs: seq<string>, lo: nat, hi: nat): Option<JsNumber>
  {
    if |pairs| > 38 then Some(ParseIntHex(Concat(Reverse(Slice(pairs, lo, hi))))) else None
  }

  /** The returned object literal: one `decodeInt` read per numeric field,
      around the parts decoded before it. */
  function Assemble(callsign: char, packetType: char, pairs: seq<string>, status: Status,
                    pyroStates: Pyro, message: Message, userIn1: Option<JsNumber>,
                    userIn2: Option<JsNumber>, rssi: Option<string>, snr: Option<string>): Decoded
  {
    Decoded(callsign, packetType,
      DecodeIntValue(Slice(pairs, 0, 2), true, false),
      DecodeIntValue(Slice(pairs, 2, 4), true, false),
      DecodeIntValue(Slice(pairs, 4, 5), true, false),
      DecodeIntValue(Slice(pairs, 5, 9), false, false),
      status,
      DecodeIntValue(Slice(pairs, 10, 13), true, false),
      DecodeIntValue(Slice(pairs, 13, 15), false, false),
      Scaled(DecodeIntValue(Slice(pairs, 15, 17), false, false), 10),
      DecodeIntValue(Slice(pairs, 17, 18), false, false),
      Scaled(DecodeIntValue(Slice(pairs, 18, 20), false, false), 1000),
      Scaled(DecodeIntValue(Slice(pairs, 20, 22), false, false), 10),
      pyroStates,
      DecodeIntValue(Slice(pairs, 23, 24), false, false),
      Scaled(DecodeIntValue(Slice(pairs, 24, 28), true, false), 1000000),
      Scaled(DecodeIntValue(Slice(pairs, 28, 32), true, false), 1000000),
      DecodeIntValue(Slice(pairs, 32, 33), false, false),
      DecodeIntValue(Slice(pairs, 33, 34), false, false),
      message, userIn1, userIn2, rssi, snr)
  }

  /** The decoded object, from the callsign, the packet type, the payload
      pairs and the diagnostics text. */
  function DecodePayload(callsign: char, packetType: char, pairs: seq<string>, diagnostics: string): Decoded
  {
    Assemble(callsign, packetType, pairs,
      StatusOf(ParseIntHex(Concat(Slice(pairs, 9, 10)))),
      PyroOfNumber(ParseIntHex(Concat(Slice(pairs, 22, 23)))),
      MessageOf(pairs), UserInOf(pairs, 38, 42), UserInOf(pairs, 42, 44),
      SearchTagged(diagnostics, "rssi"), SearchTagged(diagnostics, "snr"))
  }

  /** `decodeFluctusData(inputStr)`: the line is split at '|'; a data part
      shorter than two characters has no packet type and throws; a packet
      type other than 'b'/'B' gives null; a line without '|' has no
      diagnostics and throws at the rssi match; otherwise the payload after
      the two header characters is cut into pairs and decoded. */
  function NodeDecode(inputStr: string): Outcome
  {
    var parts := Split(inputStr, '|');
    var data := parts[0];
    if |data| < 2 then Threw
    else if data[1] != 'b' && data[1] != 'B' then NotBinary
    else if |parts| < 2 then Threw
    else Result(DecodePayload(data[0], data[1], Pairs(data[2..]), parts[1]))
  }

  /** The pyro channel states: `pyroData & mask` for each of the three
      masks, named by its chain. */
  method DecodePyro(pyroData: JsNumber) returns (pyroStates: Pyro)
    ensures pyroStates == PyroOfNumber(pyroData)
  {
    var pyroA := NameChannel(MaskBits(NumberToInt32(pyroData), 0, 2));
    var pyroB := NameChannel(MaskBits(NumberToInt32(pyroData), 2, 4));
    var pyroC := NameChannel(MaskBits(NumberToInt32(pyroData), 4, 6));
    pyroStates := Pyro(PyroStates(pyroA, pyroB, pyroC), pyroData);
  }

  /** The message: type and value read, the value negated on bit 23, the
      kind chosen by the type chain and the four bytes read as `raw`. */
  method DecodeMessage(rawByteArray: seq<string>) returns (message: Message)
    ensures message == MessageOf(rawByteArray)
  {
    var messageType := DecodeInt(Slice(rawByteArray, 34, 35), false, false);
    var messageData := DecodeInt(Slice(rawByteArray, 35, 38), false, false);
    if Bit(ToInt32(messageData), 23) {
      messageData := -messageData;
    }
    var messageTypeStr := "Error";
    if messageType == 65 {
      messageTypeStr := "Max Altitude";
    } else if messageType == 83 {
      messageTypeStr := "Max Speed";
    } else if messageType == 71 {
      messageTypeStr := "Max Acceleration";
    }
    var raw := DecodeInt(Slice(rawByteArray, 34, 38), false, false);
    message := Message(messageTypeStr, messageData, raw);
  }

  /** The user inputs, null unless the payload has more than 38 pairs. */
  method DecodeUserIns(rawByteArray: seq<string>) returns (userIn1: Option<JsNumber>, userIn2: Option<JsNumber>)
    ensures userIn1 == UserInOf(rawByteArray, 38, 42) && userIn2 == UserInOf(rawByteArray, 42, 44)
  {
    userIn1 := None;
    userIn2 := None;
    if |rawByteArray| > 38 {
      userIn1 := Some(ParseIntHex(Concat(Reverse(Slice(rawByteArray, 38, 42)))));
      userIn2 := Some(ParseIntHex(Concat(Reverse(Slice(rawByteArray, 42, 44)))));
    }
  }

  /** The object literal of the return statement, one `decodeInt` call per
      field, around the parts already decoded. */
  method BuildDecoded(callsign: char, packetType: char, rawByteArray: seq<string>,
                      status: Status, pyroStates: Pyro, message: Message,
                      userIn1: Option<JsNumber>, userIn2: Option<JsNumber>,
                      rssiMatch: Option<string>, snrMatch: Option<string>) returns (d: Decoded)
    ensures d == Assemble(callsign, packetType, rawByteArray, status, pyroStates, message,
      userIn1, userIn2, rssiMatch, snrMatch)
  {
    var uid := DecodeInt(Slice(rawByteArray, 0, 2), true, false);
    var fw := DecodeInt(Slice(rawByteArray, 2, 4), true, false);
    var rx := DecodeInt(Slice(rawByteArray, 4, 5), true, false);
    var timeMPU := DecodeInt(Slice(rawByteArray, 5, 9), false, false);
    var altitude := DecodeInt(Slice(rawByteArray, 10, 13), true, false);
    var speedVert := DecodeInt(Slice(rawByteArray, 13, 15), false, false);
    var accel := DecodeInt(Slice(rawByteArray, 15, 17), false, false);
    var angle := DecodeInt(Slice(rawByteArray, 17, 18), false, false);
    var battVoltage := DecodeInt(Slice(rawByteArray, 18, 20), false, false);
    var time := DecodeInt(Slice(rawByteArray, 20, 22), false, false);
    var logStatus := DecodeInt(Slice(rawByteArray, 23, 24), false, false);
    var gpsLat := DecodeInt(Slice(rawByteArray, 24, 28), true, false);
    var gpsLng := DecodeInt(Slice(rawByteArray, 28, 32), true, false);
    var gpsState := DecodeInt(Slice(rawByteArray, 32, 33), false, false);
    var warnCode := DecodeInt(Slice(rawByteArray, 33, 34), false, false);
    d := Decoded(callsign, packetType, uid, fw, rx, timeMPU, status, altitude, speedVert,
      Scaled(accel, 10), angle, Scaled(battVoltage, 1000), Scaled(time, 10), pyroStates,
      logStatus, Scaled(gpsLat, 1000000), Scaled(gpsLng, 1000000), gpsState, warnCode,
      message, userIn1, userIn2, rssiMatch, snrMatch);
  }

  /** `decodeFluctusData` step by step: the header checks, the pair loop,
      the status, pyro and message decoding and the user-input tail, the
      diagnostics matches, then the field reads. */
  method DecodeFluctusData(inputStr: string) returns (out: Outcome)
    ensures out == NodeDecode(inputStr)
  {
    var parts := Split(inputStr, '|');
    var data := parts[0];
    if |data| < 2 {
      return Threw;
    }
    var callsign, packetType := data[0], data[1];
    if packetType != 'b' && packetType != 'B' {
      return NotBinary;
    }
    var rawByteArray := SplitPairs(data[2..]);
    var status := DecodeStatus(ParseIntHex(Concat(Slice(rawByteArray, 9, 10))));
    var pyroStates := DecodePyro(ParseIntHex(Concat(Slice(rawByteArray, 22, 23))));
    var message := DecodeMessage(rawByteArray);
    var userIn1, userIn2 := DecodeUserIns(rawByteArray);
    if |parts| < 2 {
      return Threw;
    }
    var diagnostics := parts[1];
    var rssiMatch := SearchTagged(diagnostics, "rssi");
    var snrMatch := SearchTagged(diagnostics, "snr");
    var d := BuildDecoded(callsign, packetType, rawByteArray, status, pyroStates, message,
      userIn1, userIn2, rssiMatch, snrMatch);
    out := Result(d);
  }
}
