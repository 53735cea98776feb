/** The stand-alone dashboard page of app.js: the module-level serial
    buffer, the host flag and throttle clock, `handleLine` feeding the
    dashboard, the command writer and the Start button.  Opening the port,
    joining a remote stream and the DOM updates themselves are not part of
    this model: the host flag and the writer are fixed when the page is
    built, and the dashboard is the sequence of telemetry objects passed to
    `updateDashboard`. */
module HostPage {
  import opened Text
  import opened Sequences
  import opened BrowserParser
  import opened SerialLines
  import opened RadioCommands

  class Page {
    /** `incomingBuffer`. */
    var incomingBuffer: string
    /** `lastBroadcast`. */
    var lastBroadcast: int
    /** Every telemetry object handed to `updateDashboard`, in order. */
    var dashboard: seq<Parsed>
    /** Every `host_data` emission so far. */
    var emitted: seq<Emission>
    /** Every `log` entry so far. */
    var logs: seq<LogEntry>
    /** Every string handed to `writer.write` so far. */
    var written: seq<string>
    /** `isHost`. */
    const isHost: bool
    /** Whether `writer` is set. */
    const hasWriter: bool

    function Wiring(): Wire
      reads this
    {
      Wire(lastBroadcast, emitted, logs)
    }

    ghost predicate Valid()
      reads this
    {
      Spaced(Wiring()) && AllTelemetry(dashboard)
    }

    constructor (host: bool, writer: bool)
      ensures Valid()
      ensures incomingBuffer == "" && lastBroadcast == 0 && dashboard == []
      ensures emitted == [] && logs == [] && written == []
      ensures isHost == host && hasWriter == writer
    {
      incomingBuffer := "";
      lastBroadcast := 0;
      dashboard := [];
      emitted := [];
      logs := [];
      written := [];
      isHost := host;
      hasWriter := writer;
    }

    /** `broadcastData(data)` with `Date.now()` reading now. */
    method BroadcastData(p: Parsed, now: int)
      requires Valid() && p.Telemetry?
      modifies this
      ensures Valid()
      ensures Wiring() == Broadcast(old(Wiring()), p, now, isHost)
      ensures incomingBuffer == old(incomingBuffer) && dashboard == old(dashboard) && written == old(written)
    {
      ghost var before := Wiring();
      if !isHost {
        return;
      }
      if now - lastBroadcast > ThrottleMs {
        emitted := emitted + [Emission(now, p)];
        lastBroadcast := now;
      }
      HandleParsedSpaced(before, p, now, isHost);
    }

    /** What `handleLine` does with the parsed line p. */
    method HandleParsedLine(p: Parsed, now: int)
      requires Valid()
      modifies this
      ensures Valid()
      ensures Wiring() == HandleParsed(old(Wiring()), p, now, isHost)
      ensures dashboard == old(dashboard) + (if p.Telemetry? then [p] else [])
      ensures incomingBuffer == old(incomingBuffer) && written == old(written)
    {
      ghost var before := Wiring();
      if p.Telemetry? {
        AllTelemetryAppend(dashboard, [p]);
        dashboard := dashboard + [p];
        BroadcastData(p, now);
      } else {
        if p.Other? && |TrimJs(p.raw)| > 0 {
          logs := logs + [LogEntry("RX: " + TrimJs(p.raw), InfoLevel)];
        }
        assert Wiring() == before.(logs := before.logs + RxLog(p));
        HandleParsedSpaced(before, p, now, isHost);
      }
    }

    /** `handleLine(line)` with `Date.now()` reading now. */
    method HandleLine(line: string, now: int)
      requires Valid()
      modifies this
      ensures Valid()
      ensures Wiring() == HandleParsed(old(Wiring()), ParseLine(line), now, isHost)
      ensures dashboard == old(dashboard) + (if ParseLine(line).Telemetry? then [ParseLine(line)] else [])
      ensures incomingBuffer == old(incomingBuffer) && written == old(written)
    {
      var p := ParseTelemetry(line);
      HandleParsedLine(p, now);
    }

    /** `bufferData(chunk)`: the i-th complete line is handled while
        `Date.now()` reads clock(i). */
    method BufferData(chunk: string, clock: nat -> int)
      requires Valid()
      modifies this
      ensures Valid()
      ensures incomingBuffer == Reassemble(old(incomingBuffer), chunk).1
      ensures '\n' !in incomingBuffer
      ensures Wiring() == HandleAll(old(Wiring()), Parses(Reassemble(old(incomingBuffer), chunk).0), clock, isHost)
      ensures dashboard == old(dashboard) + Telemetries(Parses(Reassemble(old(incomingBuffer), chunk).0))
      ensures written == old(written)
    {
      var text := incomingBuffer + chunk;
      incomingBuffer := text;
      var lines := Split(text, '\n');
      ghost var all, w0, d0 := lines, Wiring(), dashboard;
      var i := 0;
      while |lines| > 1
        invariant 0 <= i < |all| && lines == all[i..]
        invariant Valid()
        invariant Wiring() == HandleAll(w0, Parses(all[..i]), clock, isHost)
        invariant dashboard == d0 + Telemetries(Parses(all[..i]))
        invariant written == old(written)
        decreases |lines|
      {
        var line := lines[0];
        lines := lines[1..];
        ghost var before, dBefore := Wiring(), dashboard;
        HandleLine(line, clock(i));
        BatchStep(w0, all, i, clock, isHost, before, Wiring());
        Associative(d0, Telemetries(Parses(all[..i])), dashboard[|dBefore|..]);
        i := i + 1;
      }
      assert |lines| == 1 && i == |all| - 1;
      incomingBuffer := lines[0];
      ReassembleIs(old(incomingBuffer), chunk, all);
      ReassembleLines(old(incomingBuffer), chunk);
    }

    /** `sendCommand(cmd)`: refused unless this page is the host, then
        written with a newline if a writer is open. */
    method SendCommand(cmd: string)
      requires Valid()
      modifies this
      ensures Valid()
      ensures !isHost ==>
        written == old(written) && logs == old(logs) + [LogEntry("Error: Only HOST can send commands.", ErrorLevel)]
      ensures isHost && !hasWriter ==>
        written == old(written) && logs == old(logs) + [LogEntry("Error: Serial not connected", ErrorLevel)]
      ensures isHost && hasWriter ==>
        written == old(written) + [cmd + "\n"] && logs == old(logs) + [LogEntry("TX: " + cmd, InfoLevel)]
      ensures incomingBuffer == old(incomingBuffer) && dashboard == old(dashboard)
      ensures lastBroadcast == old(lastBroadcast) && emitted == old(emitted)
    {
      if !isHost {
        logs := logs + [LogEntry("Error: Only HOST can send commands.", ErrorLevel)];
        return;
      }
      if hasWriter {
        logs := logs + [LogEntry("TX: " + cmd, InfoLevel)];
        written := written + [cmd + "\n"];
      } else {
        logs := logs + [LogEntry("Error: Serial not connected", ErrorLevel)];
      }
    }

    /** The Start button's click handler with the selected band and the
        channel field's text. */
    method StartClicked(band: string, chan: string)
      requires Valid()
      modifies this
      ensures Valid()
      ensures isHost && hasWriter ==> written == old(written) + [ButtonStartCommand(band, chan) + "\n"]
      ensures !(isHost && hasWriter) ==> written == old(written)
      ensures !isHost ==> logs == old(logs) + [LogEntry("Error: Only HOST can send commands.", ErrorLevel)]
      ensures isHost && !hasWriter ==> logs == old(logs) + [LogEntry("Error: Serial not connected", ErrorLevel)]
      ensures isHost && hasWriter ==> logs == old(logs) + [LogEntry("TX: " + ButtonStartCommand(band, chan), InfoLevel)]
      ensures incomingBuffer == old(incomingBuffer) && dashboard == old(dashboard)
      ensures lastBroadcast == old(lastBroadcast) && emitted == old(emitted)
    {
      var ch := chan;
      if |ch| < 2 {
        ch := "0" + ch;
      }
      var cmd := "start" + band + ch + "Fluctus";
      SendCommand(cmd);
    }
  }
}
