/** The flutus Python decoder (`decodeFluctusData` of the flutus Python
    scripts): no guard, the split at '|', the packet-type check, the pair
    loop, and every field read from its pairs taken last first, so
    little-endian. Its `decodeInt` negates a value with bit 23 set when
    asked for a signed read; the coordinates are read unsigned, time is
    divided by 1000, the status is a bare name and the message has no
    `raw`. The dictionary shape is shared with the repository-root
    decoder. */
module FlutusDecoder {
  import opened Wrappers
  import opened ByteCodec
  import opened Text
  import opened Hex
  import opened Telemetry
  import PyDecoder

  /** `message`: the kind named by the type byte, keyed to the (possibly
      negated) 24-bit value. */
  datatype LeMessage = LeMessage(kind: string, value: int)

  /** The dictionary both little-endian Python decoders return. */
  datatype LeDecoded = LeDecoded(
    callsign: char, packetType: char, uid: int, fw: int, rx: int, timeMPU: int,
    status: string, altitude: int, speedVert: int, accel: Scaled, angle: int,
    battVoltage: Scaled, time: Scaled, pyroStates: PyroStates, logStatus: int,
    gpsLat: Scaled, gpsLng: Scaled, gpsState: int, warnCode: int, message: LeMessage,
    userIn1: Option<int>, userIn2: Option<int>, rssi: string, snr: string)

  /** `int("".join(arr[::-1]), 16)`: the pairs joined last first. */
  function ReversedInt(arr: seq<string>): (r: Result<int, PyError>)
    ensures r.Failure? ==> r.error == ValueError
    ensures arr == [] ==> r == Failure(ValueError)
  {
    PyDecoder.PyInt(Concat(Reverse(arr)))
  }

  /** `decodeInt(arr, signed)`: `int("".join(arr), 16)`, negated when the
      read is signed and bit 23 (`0x800000`) is set. */
  function DecodeInt(arr: seq<string>, signed: bool): (r: Result<int, PyError>)
    ensures r.Failure? ==> r.error == ValueError
  {
    var value :- PyDecoder.PyInt(Concat(arr));
    Success(if signed && Bit(value, 23) then -value else value)
  }

  /** `decodeInt(rawByteArray[lo:hi][::-1], signed)`. */
  function ReadField(pairs: seq<string>, lo: nat, hi: nat, signed: bool): (r: Result<int, PyError>)
    ensures r.Failure? ==> r.error == ValueError
  {
    DecodeInt(Reverse(Slice(pairs, lo, hi)), signed)
  }

  /** The message lines: the type pair parsed as it is (`"".join` of one
      string is that string), IndexError when there is no pair 34, and the
      three value pairs read little-endian, negated when bit 23 is set. */
  function MessageOf(pairs: seq<string>): (r: Result<LeMessage, PyError>)
    ensures |pairs| <= 34 ==> r == Failure(IndexError)
    ensures |pairs| == 35 && PyDecoder.PyInt(pairs[34]).Success? ==> r == Failure(ValueError)
  {
    if |pairs| <= 34 then Failure(IndexError)
    else
      var messageType :- PyDecoder.PyInt(pairs[34]);
      var messageData :- ReversedInt(Slice(pairs, 35, 38));
      Success(LeMessage(MessageKind(messageType), PyDecoder.NegateOnBit23(messageData)))
  }

  /** The user-input lines: both None unless there are more than 38 pairs;
      then each run of pairs reversed, joined and parsed, so little-endian,
      and a ValueError when pairs 42-43 are missing. */
  function UserInsLE(pairs: seq<string>): (r: Result<(Option<int>, Option<int>), PyError>)
    ensures |pairs| <= 38 ==> r == Success((None, None))
    ensures 38 < |pairs| <= 42 ==> r.Failure?
  {
    if |pairs| > 38 then
      var userIn1 :- ReversedInt(Slice(pairs, 38, 42));
      assert |pairs| <= 42 ==> Slice(pairs, 42, 44) == [];
      var userIn2 :- ReversedInt(Slice(pairs, 42, 44));
      Success((Some(userIn1), Some(userIn2)))
    else Success((None, None))
  }

  /** The returned dictionary, its entries evaluated in order: uid, fw,
      rx and altitude through the signed `decodeInt`, everything else
      unsigned (the coordinates included), then the rssi and snr
      searches. */
  function Fields(callsign: char, packetType: char, pairs: seq<string>, status: string,
                  pyroStates: PyroStates, message: LeMessage, userIns: (Option<int>, Option<int>),
                  diagnostics: string): Result<LeDecoded, PyError>
  {
    var uid :- ReadField(pairs, 0, 2, true);
    var fw :- ReadField(pairs, 2, 4, true);
    var rx :- ReadField(pairs, 4, 5, true);
    var timeMPU :- ReadField(pairs, 5, 9, false);
    var altitude :- ReadField(pairs, 10, 13, true);
    var speedVert :- ReadField(pairs, 13, 15, false);
    var accel :- ReadField(pairs, 15, 17, false);
    var angle :- ReadField(pairs, 17, 18, false);
    var battVoltage :- ReadField(pairs, 18, 20, false);
    var time :- ReadField(pairs, 20, 22, false);
    var logStatus :- ReadField(pairs, 23, 24, false);
    var gpsLat :- ReadField(pairs, 24, 28, false);
    var gpsLng :- ReadField(pairs, 28, 32, false);
    var gpsState :- ReadField(pairs, 32, 33, false);
    var warnCode :- ReadField(pairs, 33, 34, false);
    var rssi :- PyDecoder.Group(SearchTagged(diagnostics, "rssi"));
    var snr :- PyDecoder.Group(SearchTagged(diagnostics, "snr"));
    Success(LeDecoded(callsign, packetType, uid, fw, rx, timeMPU, status, altitude, speedVert,
      Scaled(accel, 10), angle, Scaled(battVoltage, 1000), Scaled(time, 1000), pyroStates,
      logStatus, Scaled(gpsLat, 1000000), Scaled(gpsLng, 1000000), gpsState, warnCode,
      message, userIns.0, userIns.1, rssi, snr))
  }

  /** Everything after the header: the status and pyro bytes (ValueError
      when the payload is too short to have them), the message, the user
      inputs and the dictionary. */
  function DecodePayload(callsign: char, packetType: char, pairs: seq<string>, diagnostics: string)
    : Result<LeDecoded, PyError>
  {
    var statusData :- ReversedInt(Slice(pairs, 9, 10));
    var pyroData :- ReversedInt(Slice(pairs, 22, 23));
    var message :- MessageOf(pairs);
    var userIns :- UserInsLE(pairs);
    Fields(callsign, packetType, pairs, StatusMessage(statusData), PyroOf(pyroData), message, userIns, diagnostics)
  }

  /** `decodeFluctusData(inputStr)`: ValueError when '|' does not split the
      line into exactly two parts; IndexError when the data part has no
      packet type; None when the packet type is not 'b' or 'B'; otherwise
      the payload pairs decoded. */
  function FlutusDecode(inputStr: string): Result<Option<LeDecoded>, PyError>
  {
    var parts := Split(inputStr, '|');
    if |parts| != 2 then Failure(ValueError)
    else
      var data := parts[0];
      if |data| < 2 then Failure(IndexError)
      else if data[1] != 'b' && data[1] != 'B' then Success(None)
      else
        var d :- DecodePayload(data[0], data[1], Pairs(data[2..]), parts[1]);
        Success(Some(d))
  }

  /** The message lines as statements: the reads, the in-place negation
      and the type-name chain. */
  method DecodeMessage(rawByteArray: seq<string>) returns (message: Result<LeMessage, PyError>)
    ensures message == MessageOf(rawByteArray)
  {
    if |rawByteArray| <= 34 {
      return Failure(IndexError);
    }
    var messageType :- PyDecoder.PyInt(rawByteArray[34]);
    var messageData :- ReversedInt(Slice(rawByteArray, 35, 38));
    if Bit(messageData, 23) {
      messageData := -messageData;
    }
    var messageTypeStr := "Error";
    if messageType == 65 {
      messageTypeStr := "Max Altitude";
    } else if messageType == 83 {
      messageTypeStr := "Max Speed";
    } else if messageType == 71 {
      messageTypeStr := "Max Acceleration";
    }
    message := Success(LeMessage(messageTypeStr, messageData));
  }

  /** `userIn1 = userIn2 = None`, replaced by the two little-endian reads
      when there are more than 38 pairs. */
  method DecodeUserIns(rawByteArray: seq<string>) returns (userIns: Result<(Option<int>, Option<int>), PyError>)
    ensures userIns == UserInsLE(rawByteArray)
  {
    var userIn1: Option<int> := None;
    var userIn2: Option<int> := None;
    if |rawByteArray| > 38 {
      var u1 :- ReversedInt(Slice(rawByteArray, 38, 42));
      var u2 :- ReversedInt(Slice(rawByteArray, 42, 44));
      userIn1, userIn2 := Some(u1), Some(u2);
    }
    userIns := Success((userIn1, userIn2));
  }

  /** `decodeFluctusData` step by step: the split, the header, the pair
      loop, the status and pyro chains (the same chains as the guarded
      decoder's), the message, the user inputs and the dictionary. */
  method DecodeFluctusData(inputStr: string) returns (out: Result<Option<LeDecoded>, PyError>)
    ensures out == FlutusDecode(inputStr)
  {
    var parts := Split(inputStr, '|');
    if |parts| != 2 {
      return Failure(ValueError);
    }
    var data, diagnostics := parts[0], parts[1];
    if |data| < 2 {
      return Failure(IndexError);
    }
    var callsign, packetType := data[0], data[1];
    if packetType != 'b' && packetType != 'B' {
      return Success(None);
    }
    var rawByteArray := SplitPairs(data[2..]);
    var statusData :- ReversedInt(Slice(rawByteArray, 9, 10));
    var status := PyDecoder.DecodeStatus(statusData);
    var pyroData :- ReversedInt(Slice(rawByteArray, 22, 23));
    var pyroStates := PyDecoder.DecodePyro(pyroData);
    var message :- DecodeMessage(rawByteArray);
    var userIns :- DecodeUserIns(rawByteArray);
    var d :- Fields(callsign, packetType, rawByteArray, status.message, pyroStates.states, message, userIns, diagnostics);
    out := Success(Some(d));
  }
}
