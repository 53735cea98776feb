/** The decoder at the repository root (`fluctusDecoder.py`): the same
    steps as the flutus Python decoder (no guard, split at '|', packet-type
    check, pair loop, little-endian status, pyro, message and user-input
    reads), except that every field of the dictionary is parsed with
    `int("".join(pairs[::-1]), 16)`: unsigned, with no sign handling at
    all. */
module RootDecoder {
  import opened Wrappers
  import opened Text
  import opened Hex
  import opened Telemetry
  import opened FlutusDecoder
  import PyDecoder

  /** The returned dictionary, its entries evaluated in order, every
      field read unsigned from its pairs taken last first. */
  function RootFields(callsign: char, packetType: char, pairs: seq<string>, status: string,
                      pyroStates: PyroStates, message: LeMessage, userIns: (Option<int>, Option<int>),
                      diagnostics: string): Result<LeDecoded, PyError>
  {
    var uid :- ReversedInt(Slice(pairs, 0, 2));
    var fw :- ReversedInt(Slice(pairs, 2, 4));
    var rx :- ReversedInt(Slice(pairs, 4, 5));
    var timeMPU :- ReversedInt(Slice(pairs, 5, 9));
    var altitude :- ReversedInt(Slice(pairs, 10, 13));
    var speedVert :- ReversedInt(Slice(pairs, 13, 15));
    var accel :- ReversedInt(Slice(pairs, 15, 17));
    var angle :- ReversedInt(Slice(pairs, 17, 18));
    var battVoltage :- ReversedInt(Slice(pairs, 18, 20));
    var time :- ReversedInt(Slice(pairs, 20, 22));
    var logStatus :- ReversedInt(Slice(pairs, 23, 24));
    var gpsLat :- ReversedInt(Slice(pairs, 24, 28));
    var gpsLng :- ReversedInt(Slice(pairs, 28, 32));
    var gpsState :- ReversedInt(Slice(pairs, 32, 33));
    var warnCode :- ReversedInt(Slice(pairs, 33, 34));
    var rssi :- PyDecoder.Group(SearchTagged(diagnostics, "rssi"));
    var snr :- PyDecoder.Group(SearchTagged(diagnostics, "snr"));
    Success(LeDecoded(callsign, packetType, uid, fw, rx, timeMPU, status, altitude, speedVert,
      Scaled(accel, 10), angle, Scaled(battVoltage, 1000), Scaled(time, 1000), pyroStates,
      logStatus, Scaled(gpsLat, 1000000), Scaled(gpsLng, 1000000), gpsState, warnCode,
      message, userIns.0, userIns.1, rssi, snr))
  }

  /** Everything after the header, in the order the flutus decoder takes
      it, with the unsigned dictionary. */
  function RootPayload(callsign: char, packetType: char, pairs: seq<string>, diagnostics: string)
    : Result<LeDecoded, PyError>
  {
    var statusData :- ReversedInt(Slice(pairs, 9, 10));
    var pyroData :- ReversedInt(Slice(pairs, 22, 23));
    var message :- MessageOf(pairs);
    var userIns :- UserInsLE(pairs);
    RootFields(callsign, packetType, pairs, StatusMessage(statusData), PyroOf(pyroData), message, userIns, diagnostics)
  }

  /** `decodeFluctusData(inputStr)` of the root decoder: ValueError unless
      '|' splits the line in two, IndexError without a packet type, None
      for a packet type other than 'b' or 'B', otherwise the payload. */
  function RootDecode(inputStr: string): Result<Option<LeDecoded>, PyError>
  {
    var parts := Split(inputStr, '|');
    if |parts| != 2 then Failure(ValueError)
    else
      var data := parts[0];
      if |data| < 2 then Failure(IndexError)
      else if data[1] != 'b' && data[1] != 'B' then Success(None)
      else
        var d :- RootPayload(data[0], data[1], Pairs(data[2..]), parts[1]);
        Success(Some(d))
  }

  /** `decodeFluctusData` of the root decoder, step by step. */
  method DecodeFluctusData(inputStr: string) returns (out: Result<Option<LeDecoded>, PyError>)
    ensures out == RootDecode(inputStr)
  {
    var parts := Split(inputStr, '|');
    if |parts| != 2 {
      return Failure(ValueError);
    }
    var data, diagnostics := parts[0], parts[1];
    if |data| < 2 {
      return Failure(IndexError);
    }
    var callsign, packetType := data[0], data[1];
    if packetType != 'b' && packetType != 'B' {
      return Success(None);
    }
    var rawByteArray := SplitPairs(data[2..]);
    var statusData :- ReversedInt(Slice(rawByteArray, 9, 10));
    var status := PyDecoder.DecodeStatus(statusData);
    var pyroData :- ReversedInt(Slice(rawByteArray, 22, 23));
    var pyroStates := PyDecoder.DecodePyro(pyroData);
    var message :- DecodeMessage(rawByteArray);
    var userIns :- DecodeUserIns(rawByteArray);
    var d :- RootFields(callsign, packetType, rawByteArray, status.message, pyroStates.states, message, userIns, diagnostics);
    out := Success(Some(d));
  }
}
