/** Line handling shared by the React hook (useSerial.js) and the
    stand-alone page (app.js): reassembling serial chunks into lines, what
    `handleLine` does with each parsed line, and the 100 ms throttle of
    `broadcastData`.  The two front ends differ only in what guards the
    broadcast (a socket in the hook, host mode on the page) and in what
    they do with a telemetry object on screen, so the effects on the
    broadcast clock, the socket and the log are specified once here. */
module SerialLines {
  import opened Text
  import opened Sequences
  import opened BrowserParser

  /** Minimum gap, in milliseconds, between two `host_data` emissions. */
  const ThrottleMs := 100

  /** `bufferData(chunk)` on a buffer: `(buffer + chunk).split('\n')`,
      every piece but the last handed to `handleLine` in order, the last
      kept as the new buffer. */
  function Reassemble(buffer: string, chunk: string): (r: (seq<string>, string))
    ensures |r.0| + 1 == |Split(buffer + chunk, '\n')|
  {
    var parts := Split(buffer + chunk, '\n');
    (parts[..|parts| - 1], parts[|parts| - 1])
  }

  /** The new buffer and the emitted lines hold no newline, together they
      are the old buffer and the chunk again, and a line is emitted exactly
      when the text holds a newline. */
  lemma ReassembleLines(buffer: string, chunk: string)
    ensures var (lines, rest) := Reassemble(buffer, chunk);
      '\n' !in rest &&
      (forall i | 0 <= i < |lines| :: '\n' !in lines[i]) &&
      Join(lines + [rest], '\n') == buffer + chunk &&
      (lines == [] <==> '\n' !in buffer + chunk)
  {
    var text := buffer + chunk;
    var parts := Split(text, '\n');
    var n := |parts| - 1;
    assert Reassemble(buffer, chunk) == (parts[..n], parts[n]);
    assert parts[..n] + [parts[n]] == parts;
    SplitPiecesPlain(text, '\n');
    SplitJoin(text, '\n');
    SplitPieces(text, '\n');
  }

  /** Nothing is lost or reordered: the old buffer and the chunk are the
      emitted lines, each followed by a newline, then the new buffer. */
  lemma ReassembleKeepsText(buffer: string, chunk: string)
    ensures var (lines, rest) := Reassemble(buffer, chunk);
      (lines == [] ==> buffer + chunk == rest) &&
      (lines != [] ==> buffer + chunk == Join(lines, '\n') + "\n" + rest)
  {
    var (lines, rest) := Reassemble(buffer, chunk);
    ReassembleLines(buffer, chunk);
    if lines != [] {
      JoinSnoc(lines, rest, '\n');
    } else {
      assert Join([rest], '\n') == rest;
    }
  }

  /** A chunk without a newline, added to a buffer without one, emits no
      line and only extends the buffer. */
  lemma QuietChunk(buffer: string, chunk: string)
    requires '\n' !in buffer && '\n' !in chunk
    ensures Reassemble(buffer, chunk) == ([], buffer + chunk)
  {
    assert '\n' !in buffer + chunk by {
      forall i | 0 <= i < |buffer + chunk|
        ensures (buffer + chunk)[i] != '\n'
      {
        if i < |buffer| {
          assert (buffer + chunk)[i] == buffer[i];
        } else {
          assert (buffer + chunk)[i] == chunk[i - |buffer|];
        }
      }
    }
    SplitPlain(buffer + chunk, '\n');
  }

  /** How the text is cut into chunks does not matter: two calls emit the
      same lines, in the same order, and leave the same buffer as one call
      with both chunks. */
  lemma {:induction false} ChunkingIrrelevant(buffer: string, c1: string, c2: string)
    ensures var (lines1, rest1) := Reassemble(buffer, c1);
      var (lines2, rest2) := Reassemble(rest1, c2);
      Reassemble(buffer, c1 + c2) == (lines1 + lines2, rest2)
  {
    var parts := Split(buffer + c1, '\n');
    var rest1 := parts[|parts| - 1];
    var more := Split(rest1 + c2, '\n');
    var whole := parts[..|parts| - 1] + more;
    assert Split(buffer + (c1 + c2), '\n') == whole by {
      SplitAppend(buffer + c1, c2, '\n');
      Associative(buffer, c1, c2);
    }
    ReassembleIs(buffer, c1, parts);
    ReassembleIs(rest1, c2, more);
    ReassembleIs(buffer, c1 + c2, whole);
    FrontOfAppend(parts[..|parts| - 1], more);
    var r1, r2, r := Reassemble(buffer, c1), Reassemble(rest1, c2), Reassemble(buffer, c1 + c2);
    assert r1.1 == rest1;
    assert r.0 == r1.0 + r2.0;
    assert r.1 == r2.1;
  }

  /** Reassemble in terms of the pieces of the text. */
  lemma ReassembleIs(buffer: string, chunk: string, parts: seq<string>)
    requires parts == Split(buffer + chunk, '\n')
    ensures |parts| >= 1
    ensures Reassemble(buffer, chunk) == (parts[..|parts| - 1], parts[|parts| - 1])
  {
  }

  /** The two levels of `addLog(msg, level)` and `log(msg, type)`. */
  datatype Level = InfoLevel | ErrorLevel

  /** One entry of the on-screen log; the time stamp is not modelled. */
  datatype LogEntry = LogEntry(text: string, level: Level)

  /** One `socket.emit('host_data', data)`, with the clock reading that
      let it through. */
  datatype Emission = Emission(at: int, data: Parsed)

  /** The state the throttle and the log live in: `lastBroadcast`, the
      emissions so far and the log so far. */
  datatype Wire = Wire(lastBroadcast: int, emitted: seq<Emission>, logs: seq<LogEntry>)

  /** The throttle's invariant: emissions are more than 100 ms apart, the
      last one happened at `lastBroadcast`, and only telemetry objects are
      emitted. */
  ghost predicate Spaced(w: Wire)
  {
    (forall i | 0 <= i < |w.emitted| - 1 :: w.emitted[i + 1].at - w.emitted[i].at > ThrottleMs) &&
    (w.emitted != [] ==> w.emitted[|w.emitted| - 1].at == w.lastBroadcast) &&
    (forall i | 0 <= i < |w.emitted| :: w.emitted[i].data.Telemetry?)
  }

  /** `broadcastData(data)` at clock reading now; open says whether the
      first guard lets it through. */
  function Broadcast(w: Wire, data: Parsed, now: int, open: bool): (r: Wire)
    ensures r.logs == w.logs
    ensures r.emitted == w.emitted || r.emitted == w.emitted + [Emission(now, data)]
    ensures r.emitted != w.emitted <==> open && now - w.lastBroadcast > ThrottleMs
    ensures r.lastBroadcast == (if r.emitted == w.emitted then w.lastBroadcast else now)
  {
    if open && now - w.lastBroadcast > ThrottleMs then
      w.(lastBroadcast := now, emitted := w.emitted + [Emission(now, data)])
    else w
  }

  /** The log line `handleLine` writes for a parsed line: `RX: ` and the
      trimmed raw text, for an `other` result that is not blank. */
  function RxLog(p: Parsed): (logs: seq<LogEntry>)
  {
    if p.Other? && |TrimJs(p.raw)| > 0 then [LogEntry("RX: " + TrimJs(p.raw), InfoLevel)] else []
  }

  /** `handleLine` on a parsed line: a telemetry object is broadcast, a
      non-blank `other` line is logged, an `error` result is dropped. */
  function HandleParsed(w: Wire, p: Parsed, now: int, open: bool): (r: Wire)
    ensures p.Error? ==> r == w
    ensures !p.Telemetry? ==> r.emitted == w.emitted && r.lastBroadcast == w.lastBroadcast
    ensures r.logs == w.logs + RxLog(p)
  {
    if p.Telemetry? then Broadcast(w, p, now, open) else w.(logs := w.logs + RxLog(p))
  }

  /** Handling one line keeps the throttle's invariant. */
  lemma HandleParsedSpaced(w: Wire, p: Parsed, now: int, open: bool)
    requires Spaced(w)
    ensures Spaced(HandleParsed(w, p, now, open))
  {
    var r := HandleParsed(w, p, now, open);
    if r.emitted != w.emitted {
      assert r.emitted == w.emitted + [Emission(now, p)];
      assert r.emitted[|r.emitted| - 1].at == now;
    }
  }

  /** Every line of a batch parsed by `parseTelemetry`, in order. */
  function Parses(lines: seq<string>): (ps: seq<Parsed>)
    ensures |ps| == |lines|
  {
    if lines == [] then [] else Parses(lines[..|lines| - 1]) + [ParseLine(lines[|lines| - 1])]
  }

  lemma ParsesSnoc(lines: seq<string>, line: string)
    ensures Parses(lines + [line]) == Parses(lines) + [ParseLine(line)]
  {
    Snoc(lines, line);
  }

  /** The parsed lines of one `bufferData` call handled in order; the i-th
      is handled at clock reading clock(i). */
  function HandleAll(w: Wire, ps: seq<Parsed>, clock: nat -> int, open: bool): Wire
  {
    if ps == [] then w
    else
      var n := |ps| - 1;
      HandleParsed(HandleAll(w, ps[..n], clock, open), ps[n], clock(n), open)
  }

  /** Only telemetry objects. */
  predicate AllTelemetry(ps: seq<Parsed>)
  {
    forall i | 0 <= i < |ps| :: ps[i].Telemetry?
  }

  lemma AllTelemetryAppend(ps: seq<Parsed>, qs: seq<Parsed>)
    requires AllTelemetry(ps) && AllTelemetry(qs)
    ensures AllTelemetry(ps + qs)
  {
    forall i | 0 <= i < |ps + qs|
      ensures (ps + qs)[i].Telemetry?
    {
      if i < |ps| {
        assert (ps + qs)[i] == ps[i];
      } else {
        assert (ps + qs)[i] == qs[i - |ps|];
      }
    }
  }

  /** The telemetry objects among the parsed lines, in order: what reaches
      the screen. */
  function Telemetries(ps: seq<Parsed>): (ts: seq<Parsed>)
    ensures |ts| <= |ps|
    ensures AllTelemetry(ts)
  {
    if ps == [] then []
    else
      var n := |ps| - 1;
      Telemetries(ps[..n]) + (if ps[n].Telemetry? then [ps[n]] else [])
  }

  /** One more parsed line at the end of a batch. */
  lemma HandleAllSnoc(w: Wire, ps: seq<Parsed>, p: Parsed, clock: nat -> int, open: bool)
    ensures HandleAll(w, ps + [p], clock, open)
      == HandleParsed(HandleAll(w, ps, clock, open), p, clock(|ps|), open)
    ensures Telemetries(ps + [p]) == Telemetries(ps) + (if p.Telemetry? then [p] else [])
  {
    Snoc(ps, p);
  }

  /** The loop of `bufferData` one line further: handling the i-th line
      after the first i extends the batch by that line. */
  lemma BatchStep(w0: Wire, all: seq<string>, i: nat, clock: nat -> int, open: bool, before: Wire, after: Wire)
    requires i < |all|
    requires before == HandleAll(w0, Parses(all[..i]), clock, open)
    requires after == HandleParsed(before, ParseLine(all[i]), clock(i), open)
    ensures after == HandleAll(w0, Parses(all[..i + 1]), clock, open)
    ensures Telemetries(Parses(all[..i + 1])) == Telemetries(Parses(all[..i]))
      + (if ParseLine(all[i]).Telemetry? then [ParseLine(all[i])] else [])
  {
    TakeOneMore(all, i);
    ParsesSnoc(all[..i], all[i]);
    HandleAllSnoc(w0, Parses(all[..i]), ParseLine(all[i]), clock, open);
  }

  /** The throttle's invariant holds after any batch of lines. */
  lemma {:induction false} HandleAllSpaced(w: Wire, ps: seq<Parsed>, clock: nat -> int, open: bool)
    requires Spaced(w)
    ensures Spaced(HandleAll(w, ps, clock, open))
  {
    if ps != [] {
      var n := |ps| - 1;
      HandleAllSpaced(w, ps[..n], clock, open);
      HandleParsedSpaced(HandleAll(w, ps[..n], clock, open), ps[n], clock(n), open);
    }
  }

  /** The log lines `handleLine` adds for a batch, from the first line to
      the last. */
  function RxLogs(ps: seq<Parsed>): seq<LogEntry>
  {
    if ps == [] then [] else RxLog(ps[0]) + RxLogs(ps[1..])
  }

  lemma {:induction false} RxLogsSnoc(ps: seq<Parsed>, p: Parsed)
    ensures RxLogs(ps + [p]) == RxLogs(ps) + RxLog(p)
  {
    if ps == [] {
      assert [] + [p] == [p];
    } else {
      Snoc(ps, p);
      RxLogsSnoc(ps[1..], p);
    }
  }

  /** A batch logs exactly the `RX:` lines of its `other` lines, in order,
      and nothing else. */
  lemma {:induction false} HandleAllLogs(w: Wire, ps: seq<Parsed>, clock: nat -> int, open: bool)
    ensures HandleAll(w, ps, clock, open).logs == w.logs + RxLogs(ps)
  {
    if ps != [] {
      var n := |ps| - 1;
      var before := HandleAll(w, ps[..n], clock, open);
      HandleAllLogs(w, ps[..n], clock, open);
      RxLogsSnoc(ps[..n], ps[n]);
      FrontLast(ps);
      assert HandleAll(w, ps, clock, open).logs == before.logs + RxLog(ps[n]);
    }
  }

  /** With the guard closed (no socket, or not the host) nothing is ever
      emitted and the throttle clock never moves. */
  lemma {:induction false} ClosedNeverEmits(w: Wire, ps: seq<Parsed>, clock: nat -> int)
    ensures HandleAll(w, ps, clock, false).emitted == w.emitted
    ensures HandleAll(w, ps, clock, false).lastBroadcast == w.lastBroadcast
  {
    if ps != [] {
      ClosedNeverEmits(w, ps[..|ps| - 1], clock);
    }
  }

  /** A batch only appends to the emissions, and everything it emits is one
      of its telemetry objects. */
  lemma {:induction false} EmittedAreTelemetries(w: Wire, ps: seq<Parsed>, clock: nat -> int, open: bool)
    ensures var r := HandleAll(w, ps, clock, open);
      |w.emitted| <= |r.emitted| && r.emitted[..|w.emitted|] == w.emitted &&
      forall i | |w.emitted| <= i < |r.emitted| :: r.emitted[i].data in Telemetries(ps)
  {
    if ps != [] {
      var n := |ps| - 1;
      var before := HandleAll(w, ps[..n], clock, open);
      var after := HandleParsed(before, ps[n], clock(n), open);
      EmittedAreTelemetries(w, ps[..n], clock, open);
      HandleAllSnoc(w, ps[..n], ps[n], clock, open);
      FrontLast(ps);
      assert after.emitted[..|before.emitted|] == before.emitted;
      forall i | |w.emitted| <= i < |after.emitted|
        ensures after.emitted[i].data in Telemetries(ps)
      {
        if i < |before.emitted| {
          assert after.emitted[i] == before.emitted[i];
        }
      }
    }
  }
}
