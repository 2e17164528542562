/**
  The decision logic of `live_monitor`: on every poll it compares the log's size with the size
  it last plotted, re-parses the log when the size changed, rewrites the data file and the
  script when the parse found time steps, starts gnuplot on the first such refresh, restarts
  it when it has died, and sends it the script.

  The loop runs until interrupted; here it runs over a finite sequence of polls, and the end
  of the sequence stands for the interrupt. A poll carries what the loop reads from the outside
  world: the log's size, its lines, and whether the running gnuplot still runs (`poll()` is
  `None`). Processes are named by the number of processes started before them. What the loop
  does to the outside world is a sequence of events. An event that writes the files or sends
  the script names the parse it was made from; `Files` and `Commands` give the texts.
 */
module LiveMonitor {
  import opened Wrappers
  import opened LogParser
  import opened PlotSpec

  /** What one pass of the loop reads. */
  datatype Poll = Poll(size: nat, lines: seq<string>, alive: bool)

  /** What the loop does to the outside world. */
  datatype Event =
    | Wrote(parsed: Parsed)            // `residuals.dat` and `plot_residuals.gp` rewritten for `parsed`
    | Spawned(pid: nat)                // a gnuplot process started
    | Fed(pid: nat, parsed: Parsed)    // the script written for `parsed` sent to a process and flushed
    | Closed(pid: nat)                 // a process's input closed, then terminated and awaited

  /** The loop's variables: `last_size`, `first_plot`, `gnuplot_process`, and the next process name. */
  datatype Monitor = Monitor(lastSize: nat, firstPlot: bool, process: Option<nat>, nextPid: nat)

  const Start: Monitor := Monitor(0, true, None, 0)

  /** The batch-mode output file, which the live script does not use. */
  const DefaultOutput: string := "residuals.png"

  /** How the loop ends: at the interrupt, or at the error that parsing raised. */
  datatype Trace = Trace(events: seq<Event>, error: Option<ParseError>)

  // ---------------------------------------------------------------------------
  // One poll

  /** Starting a process when there is none yet. */
  function Launch(m: Monitor): (Monitor, seq<Event>) {
    if m.firstPlot then (m.(process := Some(m.nextPid), nextPid := m.nextPid + 1, firstPlot := false), [Spawned(m.nextPid)])
    else (m, [])
  }

  /** Sending the script to the process if it runs, or else to a freshly started one. */
  function Deliver(m: Monitor, alive: bool, parsed: Parsed): (Monitor, seq<Event>) {
    if m.process.Some? && alive then (m, [Fed(m.process.value, parsed)])
    else (m.(process := Some(m.nextPid), nextPid := m.nextPid + 1), [Spawned(m.nextPid), Fed(m.nextPid, parsed)])
  }

  /**
    A refresh for the parse `parsed`: the files are written, gnuplot is started on the first
    plot, the script is sent, and the size is recorded.
   */
  function Refreshed(m: Monitor, size: nat, alive: bool, parsed: Parsed): (Monitor, seq<Event>) {
    var (m1, started) := Launch(m);
    var (m2, sent) := Deliver(m1, alive, parsed);
    (m2.(lastSize := size), [Wrote(parsed)] + (started + sent))
  }

  /** What a poll whose size changed does with the outcome `r` of parsing the log. */
  function AfterParse(m: Monitor, p: Poll, r: Result<Parsed, ParseError>): Result<(Monitor, seq<Event>), ParseError> {
    match r
    case Err(e) => Err(e)
    case Ok(parsed) =>
      if parsed.timeSteps == [] then Ok((m, []))
      else Ok(Refreshed(m, p.size, p.alive, parsed))
  }

  /** One pass of the loop: the new variables and the events, or the error parsing raised. */
  function PollStep(m: Monitor, p: Poll): Result<(Monitor, seq<Event>), ParseError> {
    if p.size == m.lastSize then Ok((m, [])) else AfterParse(m, p, ParseLog(p.lines))
  }

  /** What the handlers do on the way out: close the process if one was started. */
  function Shutdown(m: Monitor): seq<Event> {
    if m.process.Some? then [Closed(m.process.value)] else []
  }

  /** The loop over the polls, from the variables `m`. */
  function RunMonitor(m: Monitor, polls: seq<Poll>): Trace
    decreases |polls|
  {
    if polls == [] then Trace(Shutdown(m), None)
    else
      match PollStep(m, polls[0])
      case Err(e) => Trace(Shutdown(m), Some(e))
      case Ok((next, events)) =>
        var t := RunMonitor(next, polls[1..]);
        Trace(events + t.events, t.error)
  }

  /** One more poll of the loop, taken from the front of `polls[i..]`. */
  lemma RunMonitorAt(m: Monitor, polls: seq<Poll>, i: nat)
    requires i < |polls|
    ensures RunMonitor(m, polls[i..]) ==
              match PollStep(m, polls[i])
              case Err(e) => Trace(Shutdown(m), Some(e))
              case Ok((next, events)) =>
                var t := RunMonitor(next, polls[i + 1..]);
                Trace(events + t.events, t.error)
  {
    assert polls[i..][0] == polls[i] && polls[i..][1..] == polls[i + 1..];
  }

  lemma FailedPoll(m: Monitor, polls: seq<Poll>, i: nat, e: ParseError)
    requires i < |polls| && PollStep(m, polls[i]) == Err(e)
    ensures RunMonitor(m, polls[i..]) == Trace(Shutdown(m), Some(e))
  {
    RunMonitorAt(m, polls, i);
  }

  lemma NextPoll(m: Monitor, polls: seq<Poll>, i: nat, next: Monitor, events: seq<Event>)
    requires i < |polls| && PollStep(m, polls[i]) == Ok((next, events))
    ensures var t := RunMonitor(next, polls[i + 1..]);
            RunMonitor(m, polls[i..]) == Trace(events + t.events, t.error)
  {
    RunMonitorAt(m, polls, i);
  }

  lemma EventsAssoc(a: seq<Event>, b: seq<Event>, c: seq<Event>)
    ensures a + b + c == a + (b + c)
  {
  }

  /** The refresh part of the loop body, once the files for `parsed` are written. */
  method SendPlot(lastSize: nat, firstPlot: bool, process: Option<nat>, nextPid: nat, size: nat, alive: bool,
                  parsed: Parsed)
    returns (lastSize': nat, firstPlot': bool, process': Option<nat>, nextPid': nat, sent: seq<Event>)
    ensures Refreshed(Monitor(lastSize, firstPlot, process, nextPid), size, alive, parsed)
            == (Monitor(lastSize', firstPlot', process', nextPid'), [Wrote(parsed)] + sent)
  {
    ghost var m := Monitor(lastSize, firstPlot, process, nextPid);
    firstPlot', process', nextPid' := firstPlot, process, nextPid;
    sent := [];
    if firstPlot' {
      process' := Some(nextPid');
      sent := [Spawned(nextPid')];
      nextPid' := nextPid' + 1;
      firstPlot' := false;
    }
    ghost var started := sent;
    assert Launch(m) == (Monitor(lastSize, firstPlot', process', nextPid'), started);
    if process'.Some? && alive {
      sent := sent + [Fed(process'.value, parsed)];
    } else {
      process' := Some(nextPid');
      sent := sent + [Spawned(nextPid'), Fed(nextPid', parsed)];
      nextPid' := nextPid' + 1;
    }
    lastSize' := size;
  }

  /** The body of the loop: one poll, from the loop's variables. */
  method PollOnce(lastSize: nat, firstPlot: bool, process: Option<nat>, nextPid: nat, p: Poll)
    returns (failure: Option<ParseError>, lastSize': nat, firstPlot': bool, process': Option<nat>, nextPid': nat,
             events: seq<Event>)
    ensures var step := PollStep(Monitor(lastSize, firstPlot, process, nextPid), p);
            match failure
            case Some(e) => step == Err(e) && process' == process
            case None => step == Ok((Monitor(lastSize', firstPlot', process', nextPid'), events))
  {
    failure, lastSize', firstPlot', process', nextPid', events := None, lastSize, firstPlot, process, nextPid, [];
    if p.size != lastSize {
      var r := ParseLogFile(p.lines);
      if r.Err? {
        failure := Some(r.error);
      } else if r.value.timeSteps != [] {
        var sent;
        lastSize', firstPlot', process', nextPid', sent :=
          SendPlot(lastSize, firstPlot, process, nextPid, p.size, p.alive, r.value);
        events := [Wrote(r.value)] + sent;
      }
    }
  }

  /** The monitoring loop. */
  method Monitoring(polls: seq<Poll>)
    returns (events: seq<Event>, error: Option<ParseError>)
    ensures Trace(events, error) == RunMonitor(Start, polls)
  {
    var lastSize: nat := 0;
    var firstPlot := true;
    var process: Option<nat> := None;
    var nextPid: nat := 0;
    events := [];
    for i := 0 to |polls|
      invariant var t := RunMonitor(Monitor(lastSize, firstPlot, process, nextPid), polls[i..]);
                RunMonitor(Start, polls) == Trace(events + t.events, t.error)
    {
      ghost var m := Monitor(lastSize, firstPlot, process, nextPid);
      var failure, sent;
      failure, lastSize, firstPlot, process, nextPid, sent :=
        PollOnce(lastSize, firstPlot, process, nextPid, polls[i]);
      if failure.Some? {
        FailedPoll(m, polls, i, failure.value);
        events := events + Shutdown(Monitor(lastSize, firstPlot, process, nextPid));
        return events, failure;
      }
      ghost var t := RunMonitor(Monitor(lastSize, firstPlot, process, nextPid), polls[i + 1..]);
      NextPoll(m, polls, i, Monitor(lastSize, firstPlot, process, nextPid), sent);
      EventsAssoc(events, sent, t.events);
      events := events + sent;
    }
    assert polls[|polls|..] == [];
    events := events + Shutdown(Monitor(lastSize, firstPlot, process, nextPid));
    error := None;
  }

  // ---------------------------------------------------------------------------
  // What the events write

  /** The script `write_gnuplot_script` writes in live mode. */
  function LiveScript(dataPath: string, residuals: map<string, seq<string>>): string {
    Script(true, DefaultOutput, dataPath, residuals)
  }

  /** The files `Wrote(parsed)` leaves: `residuals.dat` and `plot_residuals.gp`. */
  function Files(fmt: string -> string, dataPath: string, parsed: Parsed): (string, string) {
    (DataFile(fmt, parsed.timeSteps, parsed.residuals), LiveScript(dataPath, parsed.residuals))
  }

  /** What `Fed(pid, parsed)` writes to the process: the script file as read back, and a line break. */
  function Commands(dataPath: string, parsed: Parsed): string {
    LiveScript(dataPath, parsed.residuals) + "\n"
  }

  /** The live script does not depend on the output file, so the default one is no choice. */
  lemma LiveScriptAnyOutput(outputFile: string, dataPath: string, residuals: map<string, seq<string>>)
    ensures Script(true, outputFile, dataPath, residuals) == LiveScript(dataPath, residuals)
  {
    LivePreambleIgnoresOutput(outputFile, DefaultOutput);
  }

  /**
    The commands sent after two parses are the same when the parses plot the same variables:
    new time steps and values reach gnuplot through the data file only.
   */
  lemma CommandsDependOnNames(dataPath: string, p1: Parsed, p2: Parsed)
    requires SamePlotted(p1.residuals, p2.residuals)
    ensures Commands(dataPath, p1) == Commands(dataPath, p2)
  {
    SameLiveScript(dataPath, p1.residuals, p2.residuals);
  }

  lemma SameLiveScript(dataPath: string, r1: map<string, seq<string>>, r2: map<string, seq<string>>)
    requires SamePlotted(r1, r2)
    ensures LiveScript(dataPath, r1) == LiveScript(dataPath, r2)
  {
    ScriptDependsOnNames(true, DefaultOutput, dataPath, r1, r2);
  }

  // ---------------------------------------------------------------------------
  // Properties of one poll

  /** An unchanged size: no parse, no events, nothing changes. */
  lemma UnchangedSizeIdle(m: Monitor, p: Poll)
    requires p.size == m.lastSize
    ensures PollStep(m, p) == Ok((m, []))
  {
  }

  /** A changed log without time steps changes nothing either, so the next poll parses again. */
  lemma NoDataKeepsSize(m: Monitor, p: Poll)
    requires p.size != m.lastSize && ParseLog(p.lines).Ok? && ParseLog(p.lines).value.timeSteps == []
    ensures PollStep(m, p) == Ok((m, []))
  {
  }

  /** A log that does not parse ends the loop with that error. */
  lemma ParseErrorStops(m: Monitor, p: Poll, rest: seq<Poll>)
    requires p.size != m.lastSize && ParseLog(p.lines).Err?
    ensures RunMonitor(m, [p] + rest) == Trace(Shutdown(m), Some(ParseLog(p.lines).error))
  {
  }

  /** The relation the loop keeps: a process exists exactly after the first plot, and names grow. */
  predicate Consistent(m: Monitor) {
    && (m.firstPlot <==> m.process.None?)
    && (m.process.Some? ==> m.process.value < m.nextPid)
  }

  /**
    A refresh: the files are rewritten, then exactly one process receives the script, the
    running one when it runs and a new one otherwise, and the size is recorded.
   */
  lemma Refresh(m: Monitor, size: nat, alive: bool, parsed: Parsed)
    requires Consistent(m)
    ensures var w := Wrote(parsed);
            Refreshed(m, size, alive, parsed) ==
              if m.firstPlot then
                // the first plot starts a process; a second one is started if it is already dead
                if alive then (Monitor(size, false, Some(m.nextPid), m.nextPid + 1),
                               [w, Spawned(m.nextPid), Fed(m.nextPid, parsed)])
                else (Monitor(size, false, Some(m.nextPid + 1), m.nextPid + 2),
                      [w, Spawned(m.nextPid), Spawned(m.nextPid + 1), Fed(m.nextPid + 1, parsed)])
              else if alive then (m.(lastSize := size), [w, Fed(m.process.value, parsed)])
              else (Monitor(size, false, Some(m.nextPid), m.nextPid + 1),
                    [w, Spawned(m.nextPid), Fed(m.nextPid, parsed)])
  {
    var w := Wrote(parsed);
    var n := m.nextPid;
    if m.firstPlot {
      if alive {
        assert [w] + ([Spawned(n)] + [Fed(n, parsed)]) == [w, Spawned(n), Fed(n, parsed)];
      } else {
        assert [w] + ([Spawned(n)] + [Spawned(n + 1), Fed(n + 1, parsed)])
            == [w, Spawned(n), Spawned(n + 1), Fed(n + 1, parsed)];
      }
    } else if alive {
      assert [w] + ([] + [Fed(m.process.value, parsed)]) == [w, Fed(m.process.value, parsed)];
    } else {
      assert [w] + ([] + [Spawned(n), Fed(n, parsed)]) == [w, Spawned(n), Fed(n, parsed)];
    }
  }

  /** A changed log with time steps is refreshed with the files written for its parse. */
  lemma RefreshOnData(m: Monitor, p: Poll)
    requires p.size != m.lastSize && ParseLog(p.lines).Ok? && ParseLog(p.lines).value.timeSteps != []
    ensures PollStep(m, p) == Ok(Refreshed(m, p.size, p.alive, ParseLog(p.lines).value))
  {
  }

  lemma StepConsistent(m: Monitor, p: Poll)
    requires Consistent(m) && PollStep(m, p).Ok?
    ensures Consistent(PollStep(m, p).value.0)
    ensures PollStep(m, p).value.0.nextPid >= m.nextPid
  {
    if p.size == m.lastSize {
      UnchangedSizeIdle(m, p);
    } else if ParseLog(p.lines).value.timeSteps == [] {
      NoDataKeepsSize(m, p);
    } else {
      RefreshOnData(m, p);
      RefreshConsistent(m, p.size, p.alive, ParseLog(p.lines).value);
    }
  }

  lemma RefreshConsistent(m: Monitor, size: nat, alive: bool, parsed: Parsed)
    requires Consistent(m)
    ensures Consistent(Refreshed(m, size, alive, parsed).0) && Refreshed(m, size, alive, parsed).0.nextPid >= m.nextPid
  {
    Refresh(m, size, alive, parsed);
  }

  // ---------------------------------------------------------------------------
  // The events of a whole run

  /**
    The order in which the loop drives gnuplot: processes are started under consecutive names,
    scripts go to the latest one, and a close, if any, is the last event and goes to the latest
    one too. `current` is the latest process and `next` the next name.
   */
  predicate Protocol(events: seq<Event>, current: Option<nat>, next: nat)
    decreases |events|
  {
    events == [] ||
    match events[0]
    case Wrote(_) => Protocol(events[1..], current, next)
    case Spawned(pid) => pid == next && Protocol(events[1..], Some(pid), next + 1)
    case Fed(pid, _) => current == Some(pid) && Protocol(events[1..], current, next)
    case Closed(pid) => current == Some(pid) && events[1..] == []
  }

  lemma ProtocolWrote(parsed: Parsed, rest: seq<Event>, current: Option<nat>, next: nat)
    requires Protocol(rest, current, next)
    ensures Protocol([Wrote(parsed)] + rest, current, next)
  {
    assert ([Wrote(parsed)] + rest)[1..] == rest;
  }

  lemma ProtocolSpawned(rest: seq<Event>, current: Option<nat>, next: nat)
    requires Protocol(rest, Some(next), next + 1)
    ensures Protocol([Spawned(next)] + rest, current, next)
  {
    assert ([Spawned(next)] + rest)[1..] == rest;
  }

  lemma ProtocolFed(pid: nat, parsed: Parsed, rest: seq<Event>, next: nat)
    requires Protocol(rest, Some(pid), next)
    ensures Protocol([Fed(pid, parsed)] + rest, Some(pid), next)
  {
    assert ([Fed(pid, parsed)] + rest)[1..] == rest;
  }

  /** The events of one refresh lead the protocol from the old variables to the new ones. */
  lemma RefreshProtocol(m: Monitor, size: nat, alive: bool, parsed: Parsed, rest: seq<Event>)
    requires Consistent(m)
    requires var (m', _) := Refreshed(m, size, alive, parsed); Protocol(rest, m'.process, m'.nextPid)
    ensures Protocol(Refreshed(m, size, alive, parsed).1 + rest, m.process, m.nextPid)
  {
    Refresh(m, size, alive, parsed);
    var w, c := Wrote(parsed), parsed;
    var n := m.nextPid;
    if m.firstPlot && alive {
      assert [w, Spawned(n), Fed(n, c)] + rest == [w] + ([Spawned(n)] + ([Fed(n, c)] + rest));
      ProtocolFed(n, c, rest, n + 1);
      ProtocolSpawned([Fed(n, c)] + rest, m.process, n);
      ProtocolWrote(parsed, [Spawned(n)] + ([Fed(n, c)] + rest), m.process, n);
    } else if m.firstPlot {
      assert [w, Spawned(n), Spawned(n + 1), Fed(n + 1, c)] + rest
          == [w] + ([Spawned(n)] + ([Spawned(n + 1)] + ([Fed(n + 1, c)] + rest)));
      ProtocolFed(n + 1, c, rest, n + 2);
      ProtocolSpawned([Fed(n + 1, c)] + rest, Some(n), n + 1);
      ProtocolSpawned([Spawned(n + 1)] + ([Fed(n + 1, c)] + rest), m.process, n);
      ProtocolWrote(parsed, [Spawned(n)] + ([Spawned(n + 1)] + ([Fed(n + 1, c)] + rest)), m.process, n);
    } else if alive {
      assert [w, Fed(m.process.value, c)] + rest == [w] + ([Fed(m.process.value, c)] + rest);
      ProtocolFed(m.process.value, c, rest, n);
      ProtocolWrote(parsed, [Fed(m.process.value, c)] + rest, m.process, n);
    } else {
      assert [w, Spawned(n), Fed(n, c)] + rest == [w] + ([Spawned(n)] + ([Fed(n, c)] + rest));
      ProtocolFed(n, c, rest, n + 1);
      ProtocolSpawned([Fed(n, c)] + rest, m.process, n);
      ProtocolWrote(parsed, [Spawned(n)] + ([Fed(n, c)] + rest), m.process, n);
    }
  }

  lemma StepProtocol(m: Monitor, p: Poll, rest: seq<Event>)
    requires Consistent(m) && PollStep(m, p).Ok?
    requires var (m', _) := PollStep(m, p).value; Protocol(rest, m'.process, m'.nextPid)
    ensures Protocol(PollStep(m, p).value.1 + rest, m.process, m.nextPid)
  {
    if p.size != m.lastSize && ParseLog(p.lines).value.timeSteps != [] {
      RefreshProtocol(m, p.size, p.alive, ParseLog(p.lines).value, rest);
    } else {
      assert PollStep(m, p).value.1 + rest == rest;
    }
  }

  lemma ShutdownProtocol(m: Monitor)
    requires Consistent(m)
    ensures Protocol(Shutdown(m), m.process, m.nextPid)
  {
  }

  /** Every run of the loop from consistent variables follows the protocol. */
  lemma {:induction false} MonitorProtocol(m: Monitor, polls: seq<Poll>)
    requires Consistent(m)
    ensures Protocol(RunMonitor(m, polls).events, m.process, m.nextPid)
    decreases |polls|
  {
    if polls == [] || PollStep(m, polls[0]).Err? {
      ShutdownProtocol(m);
    } else {
      var (m', events) := PollStep(m, polls[0]).value;
      StepConsistent(m, polls[0]);
      MonitorProtocol(m', polls[1..]);
      StepProtocol(m, polls[0], RunMonitor(m', polls[1..]).events);
    }
  }

  /** In particular, the monitoring loop drives gnuplot in that order. */
  lemma MonitoringProtocol(polls: seq<Poll>)
    ensures Protocol(RunMonitor(Start, polls).events, None, 0)
  {
    MonitorProtocol(Start, polls);
  }

  /** Polls that all see the size last plotted cause only the shutdown. */
  lemma {:induction false} IdleRun(m: Monitor, polls: seq<Poll>)
    requires forall i :: 0 <= i < |polls| ==> polls[i].size == m.lastSize
    ensures RunMonitor(m, polls) == Trace(Shutdown(m), None)
    decreases |polls|
  {
    if polls != [] {
      IdleRun(m, polls[1..]);
    }
  }
}
