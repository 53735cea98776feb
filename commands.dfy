/** The radio-link commands: `sendStart` and `sendPing` of the Python
    ground-station script (communication.py), the start command the web
    page's Start button builds (app.js), and the control-topic pattern the
    MQTT bridge (fluctus.py) accepts a start command by.  The serial port,
    standard input and the ping timer are not modelled: the response line
    is a parameter. */
module RadioCommands {
  import opened Wrappers
  import opened Text
  import opened Telemetry

  /** A Python exception together with its message. */
  datatype Raised = Raised(kind: PyError, message: string)

  /** `f"{n:02}"` for a natural number: zero-padded to at least two
      digits. */
  function PadTwo(n: nat): string
  {
    if n < 10 then "0" + NatToDecimal(n) else NatToDecimal(n)
  }

  /** A channel 0..99 is written as exactly two digits that read back as
      the channel. */
  lemma PadTwoDigits(n: nat)
    requires n < 100
    ensures |PadTwo(n)| == 2
    ensures IsAsciiDigit(PadTwo(n)[0]) && IsAsciiDigit(PadTwo(n)[1])
    ensures (PadTwo(n)[0] as int - '0' as int) * 10 + (PadTwo(n)[1] as int - '0' as int) == n
  {
    if n < 10 {
      assert PadTwo(n) == ['0', DigitChar(n)];
      DigitCharValue(n);
    } else {
      var tens, ones := n / 10, n % 10;
      assert NatToDecimal(n) == NatToDecimal(tens) + [DigitChar(ones)];
      assert NatToDecimal(tens) == [DigitChar(tens)];
      assert PadTwo(n) == [DigitChar(tens), DigitChar(ones)];
      DigitCharValue(tens);
      DigitCharValue(ones);
    }
  }

  /** `sendStart`'s checks, in order, and the command line it writes. */
  function StartCommandLine(band: int, channel: int, device: string): (r: Result<string, Raised>)
  {
    if band != 0 && band != 1 then Failure(Raised(ValueError, "Band must be 0 or 1"))
    else if !(0 <= channel <= 25) then Failure(Raised(ValueError, "Channel must be between 0 and 25"))
    else if |device| > 7 then Failure(Raised(ValueError, "Device name must be 7 characters or fewer"))
    else Success("start" + IntToDecimal(band) + PadTwo(channel) + device + "\n")
  }

  /** The command is accepted exactly for band 0 or 1, channel 0..25 and a
      name of at most 7 characters; the first failing check, in the order
      band, channel, name, decides the message; an accepted command is
      "start", the band digit, the two-digit channel, the name and a
      newline. */
  lemma StartCommandLineCases(band: int, channel: int, device: string)
    ensures StartCommandLine(band, channel, device).Success?
      <==> (band == 0 || band == 1) && 0 <= channel <= 25 && |device| <= 7
    ensures band != 0 && band != 1 ==>
      StartCommandLine(band, channel, device) == Failure(Raised(ValueError, "Band must be 0 or 1"))
    ensures (band == 0 || band == 1) && !(0 <= channel <= 25) ==>
      StartCommandLine(band, channel, device) == Failure(Raised(ValueError, "Channel must be between 0 and 25"))
    ensures StartCommandLine(band, channel, device).Success? ==>
      var cmd := StartCommandLine(band, channel, device).value;
      |cmd| == 9 + |device| && cmd[..5] == "start" && cmd[5] == DigitChar(band)
      && PadTwo(channel) == cmd[6..8] && cmd[8..8 + |device|] == device && cmd[|cmd| - 1] == '\n'
  {
    if StartCommandLine(band, channel, device).Success? {
      PadTwoDigits(channel);
      var cmd := StartCommandLine(band, channel, device).value;
      assert IntToDecimal(band) == [DigitChar(band)];
      assert cmd == "start" + [DigitChar(band)] + PadTwo(channel) + device + "\n";
    }
  }

  /** The line `sendStart` and `sendPing` test: the serial reply stripped of
      white space at both ends (`ser.readline().decode().strip()`), or, with
      no port open, the console line as `input()` returns it. */
  function Reply(line: string, serial: bool): (r: string)
    ensures serial ==> |r| <= |line| && (r != [] ==> !IsPyWhite(r[0]) && !IsPyWhite(r[|r| - 1]))
    ensures !serial ==> r == line
  {
    if serial then TrimPy(line) else line
  }

  /** The reply test of `sendStart`: "startok" anywhere in the line. */
  function StartAcknowledged(response: string): bool
  {
    Contains(response, "startok")
  }

  /** `sendStart(band, channel, device)` with the line it reads, from the
      serial port or the console: an exception from the checks, or whether
      the reply acknowledged the start. */
  function SendStart(band: int, channel: int, device: string, line: string, serial: bool): (r: Result<bool, Raised>)
    ensures r.Failure? <==> StartCommandLine(band, channel, device).Failure?
    ensures r.Failure? ==> r.error == StartCommandLine(band, channel, device).error
    ensures r.Success? ==> (r.value <==> StartAcknowledged(Reply(line, serial)))
  {
    var cmd :- StartCommandLine(band, channel, device);
    Success(StartAcknowledged(Reply(line, serial)))
  }

  /** "startok" is found wherever it sits in the reply. */
  lemma {:induction false} AcknowledgedAnywhere(before: string, after: string)
    ensures StartAcknowledged(before + "startok" + after)
  {
    if before == [] {
      assert (before + "startok" + after)[..7] == "startok";
    } else {
      assert (before + "startok" + after)[1..] == before[1..] + "startok" + after;
      AcknowledgedAnywhere(before[1..], after);
    }
  }

  /** A reply shorter than "startok" never acknowledges. */
  lemma {:induction false} ShortReplyNotAcknowledged(response: string)
    requires |response| < 7
    ensures !StartAcknowledged(response)
  {
    if response != [] {
      ShortReplyNotAcknowledged(response[1..]);
    }
  }

  /** `c.lower()` for the ASCII letters; every other character is kept. */
  function LowerAscii(c: char): char
  {
    if 'A' <= c <= 'Z' then (c as int + 32) as char else c
  }

  function LowerAsciiString(s: string): (t: string)
    ensures |t| == |s|
    ensures forall i | 0 <= i < |s| :: t[i] == LowerAscii(s[i])
  {
    if s == [] then [] else [LowerAscii(s[0])] + LowerAsciiString(s[1..])
  }

  /** `sendPing`'s reply test on the line it reads, from the serial port or
      the console: success exactly for "fcpong" in any mix of cases, a
      RuntimeError otherwise; the measured ping time is not modelled.
      `lower()` is taken on ASCII letters only: no other character lowers to
      a letter of "fcpong", so the comparison is the same. */
  function Ping(line: string, serial: bool): (r: Result<(), Raised>)
  {
    if LowerAsciiString(Reply(line, serial)) == "fcpong" then Success(())
    else Failure(Raised(RuntimeError, "No pong received"))
  }

  /** The ping succeeds exactly when the reply, stripped when it came from
      the serial port, has six characters, each the letter of "fcpong" at
      that place in lower or upper case. */
  lemma PingCases(line: string, serial: bool)
    ensures Ping(line, serial).Success? <==>
      var response := Reply(line, serial);
      |response| == 6 && forall i | 0 <= i < 6 ::
        response[i] == "fcpong"[i] || response[i] == "FCPONG"[i]
    ensures Ping(line, serial).Failure? ==> Ping(line, serial).error == Raised(RuntimeError, "No pong received")
  {
    var response := Reply(line, serial);
    var low := LowerAsciiString(response);
    if |response| == 6 && forall i | 0 <= i < 6 :: response[i] == "fcpong"[i] || response[i] == "FCPONG"[i] {
      assert low == "fcpong";
    }
    if low == "fcpong" {
      forall i | 0 <= i < 6
        ensures response[i] == "fcpong"[i] || response[i] == "FCPONG"[i]
      {
        assert LowerAscii(response[i]) == "fcpong"[i];
      }
    }
  }

  /** A serial reply with white space around it still answers the ping. */
  lemma PaddedPong()
    ensures Ping(" FCpong\r\n", true) == Success(())
  {
    var line := " FCpong\r\n";
    assert TrimPy(line[1..]) == TrimPy(line[1..][..|line[1..]| - 1]);
    assert line[1..][..|line[1..]| - 1] == "FCpong\r";
    assert TrimPy("FCpong\r") == TrimPy("FCpong\r"[..6]);
    assert "FCpong\r"[..6] == "FCpong";
    assert Reply(line, true) == "FCpong";
    PingCases(line, true);
  }

  /** The Start button's command: "start", the selected band, the channel
      text with one '0' put in front when it is shorter than two
      characters, and the fixed name "Fluctus". */
  function ButtonStartCommand(band: string, chan: string): (cmd: string)
  {
    "start" + band + (if |chan| < 2 then "0" + chan else chan) + "Fluctus"
  }

  /** The bridge's `startRegex.match(payload)`: "start", three digits and
      seven ASCII letters at the beginning of the payload; anything may
      follow. */
  predicate BridgeAccepts(payload: string)
  {
    |payload| >= 15 && payload[..5] == "start"
    && (forall i | 5 <= i < 8 :: IsAsciiDigit(payload[i]))
    && (forall i | 8 <= i < 15 :: IsAsciiLetter(payload[i]))
  }

  /** A band digit and a one- or two-digit channel from the Start button
      give a command the bridge accepts. */
  lemma ButtonStartAccepted(band: char, chan: string)
    requires IsAsciiDigit(band)
    requires 1 <= |chan| <= 2 && forall i | 0 <= i < |chan| :: IsAsciiDigit(chan[i])
    ensures BridgeAccepts(ButtonStartCommand([band], chan))
  {
    var ch := if |chan| < 2 then "0" + chan else chan;
    var cmd := ButtonStartCommand([band], chan);
    assert |ch| == 2 && IsAsciiDigit(ch[0]) && IsAsciiDigit(ch[1]);
    assert cmd == "start" + [band] + ch + "Fluctus";
    assert cmd[5] == band && cmd[6] == ch[0] && cmd[7] == ch[1];
    assert cmd[8..15] == "Fluctus";
  }

  /** A name shorter than seven letters passes `sendStart`'s checks, but
      the bridge's pattern rejects the command it builds. */
  lemma ShortNameRejectedByBridge()
    ensures StartCommandLine(1, 5, "Rocket") == Success("start105Rocket\n")
    ensures !BridgeAccepts(StartCommandLine(1, 5, "Rocket").value)
  {
    assert DigitChar(5) == '5' && DigitChar(1) == '1';
    assert PadTwo(5) == "05";
    assert IntToDecimal(1) == "1";
    var cmd := "start105Rocket\n";
    assert "start" + "1" + "05" + "Rocket" + "\n" == cmd;
    assert !IsAsciiLetter(cmd[14]);
  }

  /** The check the bridge calls for: a name of exactly seven ASCII
      letters; band and channel are checked as before. */
  function BridgeStartCommandLine(band: int, channel: int, device: string): (r: Result<string, Raised>)
  {
    if band != 0 && band != 1 then Failure(Raised(ValueError, "Band must be 0 or 1"))
    else if !(0 <= channel <= 25) then Failure(Raised(ValueError, "Channel must be between 0 and 25"))
    else if |device| != 7 || exists i | 0 <= i < |device| :: !IsAsciiLetter(device[i]) then
      Failure(Raised(ValueError, "Device name must be 7 letters"))
    else Success("start" + IntToDecimal(band) + PadTwo(channel) + device + "\n")
  }

  /** Every command the corrected check lets through is accepted by the
      bridge, and it is the command the original check builds. */
  lemma BridgeStartAccepted(band: int, channel: int, device: string)
    ensures BridgeStartCommandLine(band, channel, device).Success? ==>
      StartCommandLine(band, channel, device) == BridgeStartCommandLine(band, channel, device)
      && BridgeAccepts(BridgeStartCommandLine(band, channel, device).value)
  {
    if BridgeStartCommandLine(band, channel, device).Success? {
      StartCommandLineCases(band, channel, device);
      var cmd := StartCommandLine(band, channel, device).value;
      PadTwoDigits(channel);
      assert cmd[8..15] == device;
      forall i | 8 <= i < 15
        ensures IsAsciiLetter(cmd[i])
      {
        assert cmd[i] == cmd[8..15][i - 8];
      }
    }
  }
}
