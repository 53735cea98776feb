/** The React hook of useSerial.js: the serial text buffer, the merge of
    each telemetry object into the shared telemetry state, the throttled
    `host_data` broadcast and the command writer.  Opening the port and the
    read loop that feeds `bufferData` are not part of this model; the socket
    and the writer are fixed when the hook is built. */
module SerialHook {
  import opened Wrappers
  import opened Text
  import opened Sequences
  import opened BrowserParser
  import opened SerialLines

  /** A key of `{...prev, ...data}`: the new value when `data` has the key,
      the previous one otherwise. */
  function Latest<T>(older: Option<T>, newer: Option<T>): Option<T>
  {
    if newer.Some? then newer else older
  }

  /** The previous frame, if the state holds a telemetry object. */
  function FrameOf(prev: Option<Parsed>): Option<Frame>
  {
    if prev.Some? && prev.value.Telemetry? then Some(prev.value.data) else None
  }

  /** `setData(prev => ({ ...prev, ...data }))` for a telemetry object:
      every key `parseTelemetry` always sets is overwritten, while `stats`
      and the two user inputs, which it sets only sometimes, keep their
      previous values when the new object lacks them. */
  function Merge(prev: Option<Parsed>, p: Parsed): (m: Parsed)
    requires p.Telemetry?
    ensures m.Telemetry? && m.raw == p.raw && m.diagnostics == p.diagnostics
    ensures m.data.(stats := p.data.stats, userIn1 := p.data.userIn1, userIn2 := p.data.userIn2) == p.data
    ensures p.data.stats.Some? ==> m.data.stats == p.data.stats
    ensures p.data.userIn1.Some? ==> m.data.userIn1 == p.data.userIn1
    ensures p.data.userIn2.Some? ==> m.data.userIn2 == p.data.userIn2
    ensures p.data.stats.None? && FrameOf(prev).Some? ==> m.data.stats == FrameOf(prev).value.stats
    ensures p.data.userIn1.None? && FrameOf(prev).Some? ==> m.data.userIn1 == FrameOf(prev).value.userIn1
    ensures p.data.userIn2.None? && FrameOf(prev).Some? ==> m.data.userIn2 == FrameOf(prev).value.userIn2
  {
    var f := p.data;
    var before := FrameOf(prev);
    var stats := if before.Some? then Latest(before.value.stats, f.stats) else f.stats;
    var in1 := if before.Some? then Latest(before.value.userIn1, f.userIn1) else f.userIn1;
    var in2 := if before.Some? then Latest(before.value.userIn2, f.userIn2) else f.userIn2;
    Telemetry(p.raw, p.diagnostics, f.(stats := stats, userIn1 := in1, userIn2 := in2))
  }

  /** The state after a batch of telemetry objects merged in order. */
  function MergeAll(prev: Option<Parsed>, ts: seq<Parsed>): (r: Option<Parsed>)
    requires AllTelemetry(ts)
    ensures ts == [] ==> r == prev
    ensures ts != [] ==> r.Some? && r.value.Telemetry?
  {
    if ts == [] then prev else Some(Merge(MergeAll(prev, ts[..|ts| - 1]), ts[|ts| - 1]))
  }

  /** Merging one more object extends the batch by it; other lines leave
      the state alone. */
  lemma MergeStep(d0: Option<Parsed>, ts: seq<Parsed>, p: Parsed, before: Option<Parsed>, after: Option<Parsed>)
    requires AllTelemetry(ts)
    requires before == MergeAll(d0, ts)
    requires after == (if p.Telemetry? then Some(Merge(before, p)) else before)
    ensures after == MergeAll(d0, ts + (if p.Telemetry? then [p] else []))
  {
    if p.Telemetry? {
      Snoc(ts, p);
    } else {
      AppendNothing(ts);
    }
  }

  /** The `stats` of the most recent telemetry object that carried one. */
  function RecentStats(ts: seq<Parsed>): Option<Stats>
    requires AllTelemetry(ts)
  {
    if ts == [] then None
    else if ts[|ts| - 1].data.stats.Some? then ts[|ts| - 1].data.stats
    else RecentStats(ts[..|ts| - 1])
  }

  /** After any batch the state shows the `stats` of the most recent object
      that carried them, or, if none did, the ones shown before: a
      Max Altitude message stays on screen until another replaces it. */
  lemma {:induction false} MergeAllStats(prev: Option<Parsed>, ts: seq<Parsed>)
    requires prev.Some? ==> prev.value.Telemetry?
    requires AllTelemetry(ts)
    ensures FrameOf(MergeAll(prev, ts)).Some? ==>
      FrameOf(MergeAll(prev, ts)).value.stats
        == (if RecentStats(ts).Some? || prev.None? then RecentStats(ts) else prev.value.data.stats)
  {
    if ts != [] {
      MergeAllStats(prev, ts[..|ts| - 1]);
    }
  }

  class Hook {
    /** `incomingBufferRef.current`. */
    var incomingBuffer: string
    /** `lastBroadcastRef.current`. */
    var lastBroadcast: int
    /** The telemetry state `setData` updates; None before the first frame. */
    var data: Option<Parsed>
    /** Every `host_data` emission so far. */
    var emitted: seq<Emission>
    /** Every `addLog` entry so far. */
    var logs: seq<LogEntry>
    /** Every string handed to the serial writer so far. */
    var written: seq<string>
    /** Whether the socket context holds a socket. */
    const hasSocket: bool
    /** Whether `writerRef.current` is set. */
    const hasWriter: bool

    function Wiring(): Wire
      reads this
    {
      Wire(lastBroadcast, emitted, logs)
    }

    ghost predicate Valid()
      reads this
    {
      Spaced(Wiring()) && (data.Some? ==> data.value.Telemetry?)
    }

    constructor (socket: bool, writer: bool)
      ensures Valid()
      ensures incomingBuffer == "" && lastBroadcast == 0 && data == None
      ensures emitted == [] && logs == [] && written == []
      ensures hasSocket == socket && hasWriter == writer
    {
      incomingBuffer := "";
      lastBroadcast := 0;
      data := None;
      emitted := [];
      logs := [];
      written := [];
      hasSocket := socket;
      hasWriter := writer;
    }

    /** `broadcastData(data)` with `Date.now()` reading now. */
    method BroadcastData(p: Parsed, now: int)
      requires Valid() && p.Telemetry?
      modifies this
      ensures Valid()
      ensures Wiring() == Broadcast(old(Wiring()), p, now, hasSocket)
      ensures incomingBuffer == old(incomingBuffer) && data == old(data) && written == old(written)
    {
      ghost var before := Wiring();
      if !hasSocket {
        return;
      }
      if now - lastBroadcast > ThrottleMs {
        emitted := emitted + [Emission(now, p)];
        lastBroadcast := now;
      }
      HandleParsedSpaced(before, p, now, hasSocket);
    }

    /** What `handleLine` does with the parsed line p. */
    method HandleParsedLine(p: Parsed, now: int)
      requires Valid()
      modifies this
      ensures Valid()
      ensures Wiring() == HandleParsed(old(Wiring()), p, now, hasSocket)
      ensures data == (if p.Telemetry? then Some(Merge(old(data), p)) else old(data))
      ensures incomingBuffer == old(incomingBuffer) && written == old(written)
    {
      ghost var before := Wiring();
      if p.Telemetry? {
        data := Some(Merge(data, p));
        BroadcastData(p, now);
      } else {
        if p.Other? && |TrimJs(p.raw)| > 0 {
          logs := logs + [LogEntry("RX: " + TrimJs(p.raw), InfoLevel)];
        }
        assert Wiring() == before.(logs := before.logs + RxLog(p));
        HandleParsedSpaced(before, p, now, hasSocket);
      }
    }

    /** `handleLine(line)` with `Date.now()` reading now. */
    method HandleLine(line: string, now: int)
      requires Valid()
      modifies this
      ensures Valid()
      ensures Wiring() == HandleParsed(old(Wiring()), ParseLine(line), now, hasSocket)
      ensures data == (if ParseLine(line).Telemetry? then Some(Merge(old(data), ParseLine(line))) else old(data))
      ensures incomingBuffer == old(incomingBuffer) && written == old(written)
    {
      var p := ParseTelemetry(line);
      HandleParsedLine(p, now);
    }

    /** `bufferData(chunk)`: the i-th complete line is handled while
        `Date.now()` reads clock(i). */
    method BufferData(chunk: string, clock: nat -> int)
      requires Valid()
      modifies this
      ensures Valid()
      ensures incomingBuffer == Reassemble(old(incomingBuffer), chunk).1
      ensures '\n' !in incomingBuffer
      ensures Wiring() == HandleAll(old(Wiring()), Parses(Reassemble(old(incomingBuffer), chunk).0), clock, hasSocket)
      ensures data == MergeAll(old(data), Telemetries(Parses(Reassemble(old(incomingBuffer), chunk).0)))
      ensures written == old(written)
    {
      var text := incomingBuffer + chunk;
      incomingBuffer := text;
      var lines := Split(text, '\n');
      ghost var all, w0, d0 := lines, Wiring(), data;
      var i := 0;
      while |lines| > 1
        invariant 0 <= i < |all| && lines == all[i..]
        invariant Valid()
        invariant Wiring() == HandleAll(w0, Parses(all[..i]), clock, hasSocket)
        invariant data == MergeAll(d0, Telemetries(Parses(all[..i])))
        invariant written == old(written)
        decreases |lines|
      {
        var line := lines[0];
        lines := lines[1..];
        ghost var before, dBefore := Wiring(), data;
        HandleLine(line, clock(i));
        BatchStep(w0, all, i, clock, hasSocket, before, Wiring());
        MergeStep(d0, Telemetries(Parses(all[..i])), ParseLine(line), dBefore, data);
        i := i + 1;
      }
      assert |lines| == 1 && i == |all| - 1;
      incomingBuffer := lines[0];
      ReassembleIs(old(incomingBuffer), chunk, all);
      ReassembleLines(old(incomingBuffer), chunk);
    }

    /** `sendCommand(cmd)`; a writer that rejects the write is not
        modelled. */
    method SendCommand(cmd: string)
      requires Valid()
      modifies this
      ensures Valid()
      ensures !hasWriter ==>
        written == old(written) && logs == old(logs) + [LogEntry("Error: Serial not connected", ErrorLevel)]
      ensures hasWriter ==>
        written == old(written) + [cmd + "\n"] && logs == old(logs) + [LogEntry("TX: " + cmd, InfoLevel)]
      ensures incomingBuffer == old(incomingBuffer) && data == old(data)
      ensures lastBroadcast == old(lastBroadcast) && emitted == old(emitted)
    {
      if !hasWriter {
        logs := logs + [LogEntry("Error: Serial not connected", ErrorLevel)];
        return;
      }
      logs := logs + [LogEntry("TX: " + cmd, InfoLevel)];
      written := written + [cmd + "\n"];
    }
  }
}
