/** The guarded Python decoder (`decodeFluctusData` of the fluctus Python
    scripts): a regular-expression guard on the whole line, the split at
    '|', the packet-type check, the pair loop, the status and pyro chains,
    the message and the user inputs, and the returned dictionary, whose
    integers are exact `int.from_bytes` reads. Every exception it can raise
    is a Failure; the two `return None` are Success(None). */
module PyDecoder {
  import opened Wrappers
  import opened ByteCodec
  import opened Text
  import opened Hex
  import opened Telemetry
  import NodeDecoder

  /** `status`: the name of the code and the parsed byte. */
  datatype PyStatus = PyStatus(message: string, raw: int)

  /** `pyroStates`: the three channel names and the parsed byte. */
  datatype PyPyro = PyPyro(states: PyroStates, raw: int)

  /** `message`: the kind named by the type byte, keyed to the (possibly
      negated) 24-bit value, and the four message bytes read as one number. */
  datatype PyMessage = PyMessage(kind: string, value: int, raw: int)

  /** The dictionary `decodeFluctusData` returns; scaled fields keep the
      integer read and the divisor Python's `/` applies. */
  datatype PyDecoded = PyDecoded(
    callsign: char, packetType: char, uid: int, fw: int, rx: int, timeMPU: int,
    status: PyStatus, altitude: int, speedVert: int, accel: Scaled, angle: int,
    battVoltage: Scaled, time: Scaled, pyroStates: PyPyro, logStatus: int,
    gpsLat: Scaled, gpsLng: Scaled, gpsState: int, warnCode: int, message: PyMessage,
    userIn1: Option<int>, userIn2: Option<int>, rssi: string, snr: string)

  /** Number of leading ASCII letters and digits. */
  function AlnumRun(s: string): (n: nat)
    ensures n <= |s|
    ensures forall i | 0 <= i < n :: IsAsciiAlnum(s[i])
    ensures n < |s| ==> !IsAsciiAlnum(s[n])
  {
    if s != [] && IsAsciiAlnum(s[0]) then 1 + AlnumRun(s[1..]) else 0
  }

  /** "Grssi", an optional '-', a run of digits and "/Gsnr" at the start
      of t (the guard's pattern after its '|'). The closing `-?\d*` of the
      guard also matches the empty text, so it asks nothing more. The
      optional sign and the digit run are taken greedily; giving any of
      them back would leave a '-' or a digit where '/' is needed, so the
      greedy reading is the only one that can match. */
  predicate DiagnosticsMatch(t: string)
  {
    StartsWith(t, "Grssi") &&
    var u := t[5..];
    var sign := if u != [] && u[0] == '-' then 1 else 0;
    var n := DigitRun(u[sign..]);
    StartsWith(u[sign + n..], "/Gsnr")
  }

  /** The guard `re.match` at the start of the line: "FB", a run of ASCII
      letters and digits, '|', then the diagnostics pattern. The
      alphanumeric run after "FB" must end at a '|' (a shorter run would
      leave a letter or digit where '|' is needed). */
  predicate GuardMatch(s: string)
  {
    StartsWith(s, "FB") &&
    var n := AlnumRun(s[2..]);
    2 + n < |s| && s[2 + n] == '|' && DiagnosticsMatch(s[3 + n..])
  }

  /** `int(s, 16)`, raising ValueError on text that is not a hex number. */
  function PyInt(s: string): (r: Result<int, PyError>)
    ensures r.Failure? ==> r.error == ValueError
    ensures s == [] ==> r.Failure?
  {
    match PyIntHex(s)
    case None => Failure(ValueError)
    case Some(v) => Success(v)
  }

  /** The inner `decodeInt(arr, signed)`: `bytes.fromhex` of the joined
      pairs (ValueError on a character that is not hex), then
      `int.from_bytes` little-endian, two's complement when signed. */
  function DecodeInt(arr: seq<string>, signed: bool): (r: Result<int, PyError>)
    ensures r.Failure? ==> r.error == ValueError
  {
    match FromHex(Concat(arr))
    case None => Failure(ValueError)
    case Some(bs) => Success(if signed then Signed(ReadLE(bs), |bs|) else ReadLE(bs))
  }

  /** The status dictionary: the code's name for 0 to 6, "Error" for any
      other byte, and the byte itself. */
  function StatusOf(statusData: int): (status: PyStatus)
    ensures status.raw == statusData
    ensures status.message != "Error" <==> 0 <= statusData <= 6
  {
    PyStatus(StatusMessage(statusData), statusData)
  }

  /** The pyro dictionary: the three unshifted masks named by their
      chains, and the byte itself. */
  function PyroOfData(pyroData: int): (pyro: PyPyro)
    ensures pyro.raw == pyroData
  {
    PyPyro(PyroOf(pyroData), pyroData)
  }

  /** `if messageData & 0x800000: messageData = -messageData`. */
  function NegateOnBit23(messageData: int): int
  {
    if Bit(messageData, 23) then -messageData else messageData
  }

  /** Lines 71-83: the type byte (IndexError when there is no pair 34),
      the 3-byte value negated on bit 23, the kind and the 4-byte `raw`. */
  function MessageOf(pairs: seq<string>): (r: Result<PyMessage, PyError>)
    ensures |pairs| <= 34 ==> r == Failure(IndexError)
  {
    if |pairs| <= 34 then Failure(IndexError)
    else
      var messageType :- DecodeInt([pairs[34]], false);
      var messageData :- DecodeInt(Slice(pairs, 35, 38), false);
      var raw :- DecodeInt(Slice(pairs, 34, 38), false);
      Success(PyMessage(MessageKind(messageType), NegateOnBit23(messageData), raw))
  }

  /** Lines 85-89: both None unless there are more than 38 pairs; then
      `int(_, 16)` of pairs 38-41 and 42-43 joined as they come, which is
      big-endian, and a ValueError when pairs 42-43 are missing. */
  function UserInsOf(pairs: seq<string>): (r: Result<(Option<int>, Option<int>), PyError>)
    ensures |pairs| <= 38 ==> r == Success((None, None))
    ensures 38 < |pairs| <= 42 ==> r == Failure(ValueError)
  {
    if |pairs| > 38 then
      var userIn1 :- PyInt(Concat(Slice(pairs, 38, 42)));
      assert |pairs| <= 42 ==> Slice(pairs, 42, 44) == [];
      var userIn2 :- PyInt(Concat(Slice(pairs, 42, 44)));
      Success((Some(userIn1), Some(userIn2)))
    else Success((None, None))
  }

  /** `re.search(...).group(1)`: calling `group` on the None of a failed
      search raises AttributeError. */
  function Group(m: Option<string>): (r: Result<string, PyError>)
    ensures r.Success? <==> m.Some?
    ensures r.Failure? ==> r.error == AttributeError
  {
    match m
    case Some(g) => Success(g)
    case None => Failure(AttributeError)
  }

  /** The returned dictionary, its entries evaluated in order: one
      `decodeInt` per numeric field, then the rssi and snr searches. */
  function Fields(callsign: char, packetType: char, pairs: seq<string>, status: PyStatus,
                  pyroStates: PyPyro, message: PyMessage, userIns: (Option<int>, Option<int>),
                  diagnostics: string): Result<PyDecoded, PyError>
  {
    var uid :- DecodeInt(Slice(pairs, 0, 2), true);
    var fw :- DecodeInt(Slice(pairs, 2, 4), true);
    var rx :- DecodeInt(Slice(pairs, 4, 5), true);
    var timeMPU :- DecodeInt(Slice(pairs, 5, 9), false);
    var altitude :- DecodeInt(Slice(pairs, 10, 13), true);
    var speedVert :- DecodeInt(Slice(pairs, 13, 15), false);
    var accel :- DecodeInt(Slice(pairs, 15, 17), false);
    var angle :- DecodeInt(Slice(pairs, 17, 18), false);
    var battVoltage :- DecodeInt(Slice(pairs, 18, 20), false);
    var time :- DecodeInt(Slice(pairs, 20, 22), false);
    var logStatus :- DecodeInt(Slice(pairs, 23, 24), false);
    var gpsLat :- DecodeInt(Slice(pairs, 24, 28), true);
    var gpsLng :- DecodeInt(Slice(pairs, 28, 32), true);
    var gpsState :- DecodeInt(Slice(pairs, 32, 33), false);
    var warnCode :- DecodeInt(Slice(pairs, 33, 34), false);
    var rssi :- Group(SearchTagged(diagnostics, "rssi"));
    var snr :- Group(SearchTagged(diagnostics, "snr"));
    Success(PyDecoded(callsign, packetType, uid, fw, rx, timeMPU, status, altitude, speedVert,
      Scaled(accel, 10), angle, Scaled(battVoltage, 1000), Scaled(time, 10), pyroStates,
      logStatus, Scaled(gpsLat, 1000000), Scaled(gpsLng, 1000000), gpsState, warnCode,
      message, userIns.0, userIns.1, rssi, snr))
  }

  /** Everything after the header: the status and pyro bytes through
      `int(_, 16)` (ValueError when the payload is too short to have
      them), the message, the user inputs and the dictionary. */
  function DecodePayload(callsign: char, packetType: char, pairs: seq<string>, diagnostics: string)
    : Result<PyDecoded, PyError>
  {
    var statusData :- PyInt(Concat(Slice(pairs, 9, 10)));
    var pyroData :- PyInt(Concat(Slice(pairs, 22, 23)));
    var message :- MessageOf(pairs);
    var userIns :- UserInsOf(pairs);
    Fields(callsign, packetType, pairs, StatusOf(statusData), PyroOfData(pyroData), message, userIns, diagnostics)
  }

  /** `decodeFluctusData(inputStr)`: None when the guard does not match;
      ValueError when '|' does not split the line into exactly two parts;
      IndexError when the data part has no packet type; None when the
      packet type is not 'b' or 'B'; otherwise the payload pairs decoded. */
  function PyDecode(inputStr: string): Result<Option<PyDecoded>, PyError>
  {
    if !GuardMatch(inputStr) then Success(None)
    else
      var parts := Split(inputStr, '|');
      if |parts| != 2 then Failure(ValueError)
      else
        var data := parts[0];
        if |data| < 2 then Failure(IndexError)
        else if data[1] != 'b' && data[1] != 'B' then Success(None)
        else
          var d :- DecodePayload(data[0], data[1], Pairs(data[2..]), parts[1]);
          Success(Some(d))
  }

  /** The status chain `if statusData == 0: ... elif statusData == 6`,
      starting from "Error". */
  method DecodeStatus(statusData: int) returns (status: PyStatus)
    ensures status == StatusOf(statusData)
  {
    status := PyStatus("Error", statusData);
    if statusData == 0 {
      status := status.(message := "Idle");
    } else if statusData == 1 {
      status := status.(message := "Armed");
    } else if statusData == 2 {
      status := status.(message := "Countdown Engaged");
    } else if statusData == 3 {
      status := status.(message := "Waiting for Launch");
    } else if statusData == 4 {
      status := status.(message := "Ascent");
    } else if statusData == 5 {
      status := status.(message := "Descent");
    } else if statusData == 6 {
      status := status.(message := "Touchdown");
    }
  }

  /** The three pyro chains over `pyroData & 0b11`, `& 0b1100` and
      `& 0b110000`; each is the same chain as in the Node decoder. */
  method DecodePyro(pyroData: int) returns (pyroStates: PyPyro)
    ensures pyroStates == PyroOfData(pyroData)
  {
    var pyroA := NodeDecoder.NameChannel(MaskBits(pyroData, 0, 2));
    var pyroB := NodeDecoder.NameChannel(MaskBits(pyroData, 2, 4));
    var pyroC := NodeDecoder.NameChannel(MaskBits(pyroData, 4, 6));
    pyroStates := PyPyro(PyroStates(pyroA, pyroB, pyroC), pyroData);
  }

  /** Lines 71-83 as statements: the reads, the in-place negation and
      the type-name chain. */
  method DecodeMessage(rawByteArray: seq<string>) returns (message: Result<PyMessage, PyError>)
    ensures message == MessageOf(rawByteArray)
  {
    if |rawByteArray| <= 34 {
      return Failure(IndexError);
    }
    var messageType :- DecodeInt([rawByteArray[34]], false);
    var messageData :- DecodeInt(Slice(rawByteArray, 35, 38), false);
    if Bit(messageData, 23) {
      messageData := -messageData;
    }
    var messageTypeStr := "Error";
    if messageType == 65 {
      messageTypeStr := "Max Altitude";
    } else if messageType == 83 {
      messageTypeStr := "Max Speed";
    } else if messageType == 71 {
      messageTypeStr := "Max Acceleration";
    }
    var raw :- DecodeInt(Slice(rawByteArray, 34, 38), false);
    message := Success(PyMessage(messageTypeStr, messageData, raw));
  }

  /** Lines 85-89: `userIn1 = userIn2 = None`, replaced by the two reads
      when there are more than 38 pairs. */
  method DecodeUserIns(rawByteArray: seq<string>) returns (userIns: Result<(Option<int>, Option<int>), PyError>)
    ensures userIns == UserInsOf(rawByteArray)
  {
    var userIn1: Option<int> := None;
    var userIn2: Option<int> := None;
    if |rawByteArray| > 38 {
      var u1 :- PyInt(Concat(Slice(rawByteArray, 38, 42)));
      var u2 :- PyInt(Concat(Slice(rawByteArray, 42, 44)));
      userIn1, userIn2 := Some(u1), Some(u2);
    }
    userIns := Success((userIn1, userIn2));
  }

  /** `decodeFluctusData` step by step: the guard, the split, the header,
      the pair loop, the status and pyro chains, the message, the user
      inputs and the returned dictionary. */
  method DecodeFluctusData(inputStr: string) returns (out: Result<Option<PyDecoded>, PyError>)
    ensures out == PyDecode(inputStr)
  {
    if !GuardMatch(inputStr) {
      return Success(None);
    }
    var parts := Split(inputStr, '|');
    if |parts| != 2 {
      return Failure(ValueError);
    }
    var data, diagnostics := parts[0], parts[1];
    if |data| < 2 {
      return Failure(IndexError);
    }
    var callsign, packetType := data[0], data[1];
    if packetType != 'b' && packetType != 'B' {
      return Success(None);
    }
    var rawByteArray := SplitPairs(data[2..]);
    var statusData :- PyInt(Concat(Slice(rawByteArray, 9, 10)));
    var status := DecodeStatus(statusData);
    var pyroData :- PyInt(Concat(Slice(rawByteArray, 22, 23)));
    var pyroStates := DecodePyro(pyroData);
    var message :- DecodeMessage(rawByteArray);
    var userIns :- DecodeUserIns(rawByteArray);
    var d :- Fields(callsign, packetType, rawByteArray, status, pyroStates, message, userIns, diagnostics);
    out := Success(Some(d));
  }
}
