/**
 * The state one run of a serial monitor script changes in place: the
 * module-level `running` flag, `last_activity`, the open serial port,
 * the (optional) open log file with what has been written to it, what
 * has been printed, and the order in which the port and the log are
 * closed. Shared by the backend and the Raspberry Pi scripts, whose
 * session methods drive it.
 */
module SerialSession {
  import opened Render
  import opened MonitorLoop

  datatype Resource = SerialPort | LogFile

  /** What the outside world decides: whether opening the port, configuring
      VMIN/VTIME through termios and opening the log succeed; the clock when
      `last_activity` is first set and when the footer is written; and the
      `%Y%m%d_%H%M%S` text used in a default log name. */
  datatype Env = Env(
    portOpens: bool, configOk: bool, logOpens: bool,
    startedAt: int, stoppedAt: int, nameStamp: string)

  /** How a session ended. StillRunning: the trace ran out while the loop was
      still reading (the script would go on blocking in `ser.read`). */
  datatype SessionEnd =
    | PortOpenFailed | ConfigFailed | LogOpenFailed
    | Stopped | ReadError | StillRunning

  /** Why the loop left `while running`, if it did. */
  function LoopEnd(r: LoopState): (e: SessionEnd)
    ensures e in {Stopped, ReadError, StillRunning}
    ensures e == StillRunning <==> Active(r)
    ensures e == ReadError <==> r.failed
  {
    if r.failed then ReadError else if !r.running then Stopped else StillRunning
  }

  /** `serial_debug_<timestamp>.log`, the name used when none is given. */
  function DefaultLogName(stamp: string): (name: string)
    ensures |name| == |stamp| + 17
    ensures name[..13] == "serial_debug_" && name[13..|name| - 4] == stamp && name[|name| - 4..] == ".log"
  {
    "serial_debug_" + stamp + ".log"
  }

  class Monitor {
    /** The module-level `running` flag. */
    var running: bool
    var lastActivity: int
    /** Records and idle notices printed to the console. */
    var console: seq<Entry>
    /** The contents of the log file. */
    var log: seq<Entry>
    var logOpen: bool
    var portOpen: bool
    /** The close operations performed, in order. */
    var closed: seq<Resource>

    /** The state at program start: `running = True`, nothing opened. */
    constructor ()
      ensures running && !logOpen && !portOpen
      ensures console == [] && log == [] && closed == [] && lastActivity == 0
    {
      running := true;
      lastActivity := 0;
      console, log, closed := [], [], [];
      logOpen, portOpen := false, false;
    }

    /** `handle_sigint`: clears the flag and does nothing else. */
    method HandleSigint()
      modifies this`running
      ensures !running
    {
      running := false;
    }

    /** `serial.Serial(...)` succeeded. */
    method OpenPort()
      modifies this`portOpen
      ensures portOpen
    {
      portOpen := true;
    }

    /** `open(log_path, 'w')` truncates the file; the header is written and flushed. */
    method OpenLog(header: Entry)
      modifies this`logOpen, this`log
      ensures logOpen && log == [header]
    {
      logOpen := true;
      log := [header];
    }

    /** The footer, written only after `while running` exits normally. */
    method WriteFooter(endedAt: int)
      requires logOpen
      modifies this`log
      ensures log == old(log) + [Footer(endedAt)]
    {
      log := log + [Footer(endedAt)];
    }

    /** Closes the log file if it is open. */
    method CloseLog()
      modifies this`logOpen, this`closed
      ensures !logOpen
      ensures closed == old(closed) + (if old(logOpen) then [LogFile] else [])
    {
      if logOpen {
        logOpen := false;
        closed := closed + [LogFile];
      }
    }

    /** `if ser.is_open: ser.close()`. */
    method ClosePort()
      modifies this`portOpen, this`closed
      ensures !portOpen
      ensures closed == old(closed) + (if old(portOpen) then [SerialPort] else [])
    {
      if portOpen {
        portOpen := false;
        closed := closed + [SerialPort];
      }
    }

    /** One pass of the loop body for one event: print (and log, when the log
        is open) what `Step` emits, and update the flag and `last_activity`. */
    method Poll(e: Event) returns (failed: bool)
      modifies this`running, this`lastActivity, this`console, this`log
      ensures var r := Step(LoopState(old(running), false, old(lastActivity), []), e);
        && running == r.running && failed == r.failed && lastActivity == r.lastActivity
        && console == old(console) + r.emitted
        && log == old(log) + (if logOpen then r.emitted else [])
    {
      failed := false;
      match e {
        case Interrupt =>
          HandleSigint();
        case Read(ReadFailed, _) =>
          failed := true;
        case Read(Bytes(data), now) =>
          if |data| > 0 {
            var hexstr := ToHex(data);
            var ascstr := ToAscii(data);
            var record := Record(now, |data|, hexstr, ascstr);
            console := console + [record];
            if logOpen {
              log := log + [record];
            }
            lastActivity := now;
          } else if now - lastActivity > IdleThreshold {
            var notice := IdleNotice(now);
            console := console + [notice];
            if logOpen {
              log := log + [notice];
            }
            lastActivity := now;
          }
      }
    }

    /** The `while running` loop over a trace of poll events. Each record and
        idle notice is printed and, when the log is open, also written to it;
        `failed` reports that a read raised. The outcome is exactly
        `RunLoop`, whose properties are proved in MonitorLoop. */
    method Run(trace: seq<Event>) returns (failed: bool)
      modifies this`running, this`lastActivity, this`console, this`log
      ensures var r := RunLoop(LoopState(old(running), false, old(lastActivity), []), trace);
        && running == r.running && failed == r.failed && lastActivity == r.lastActivity
        && console == old(console) + r.emitted
        && log == old(log) + (if logOpen then r.emitted else [])
    {
      failed := false;
      ghost var s0 := LoopState(running, false, lastActivity, []);
      ghost var emitted: seq<Entry> := [];
      var i := 0;
      while running && !failed && i < |trace|
        invariant 0 <= i <= |trace|
        invariant RunLoop(LoopState(running, failed, lastActivity, emitted), trace[i..]) == RunLoop(s0, trace)
        invariant console == old(console) + emitted
        invariant log == old(log) + (if logOpen then emitted else [])
        decreases |trace| - i
      {
        ghost var before := LoopState(running, failed, lastActivity, emitted);
        ghost var console0, log0 := console, log;
        assert trace[i..][0] == trace[i] && trace[i..][1..] == trace[i + 1..];
        failed := Poll(trace[i]);
        ghost var step := Step(LoopState(before.running, false, before.lastActivity, []), trace[i]);
        StepShift(before, trace[i]);
        emitted := emitted + step.emitted;
        assert console == old(console) + emitted;
        i := i + 1;
      }
      if i == |trace| {
        assert trace[i..] == [];
      }
    }
    /** What follows a successful open in both scripts: the loop runs; on a
        normal stop the footer is written if the log is open; then, unless the
        loop is still reading, the log is closed (if open) and then the port. */
    method RunToExit(trace: seq<Event>, stoppedAt: int) returns (end: SessionEnd)
      requires running && portOpen
      modifies this`running, this`lastActivity, this`console, this`log, this`logOpen, this`portOpen, this`closed
      ensures var r := RunLoop(LoopState(true, false, old(lastActivity), []), trace);
        && end == LoopEnd(r)
        && console == old(console) + r.emitted
        && log == old(log) + (if old(logOpen) then r.emitted + (if end == Stopped then [Footer(stoppedAt)] else []) else [])
        && running == r.running && lastActivity == r.lastActivity
        && closed == old(closed) + (if end == StillRunning then []
                                    else if old(logOpen) then [LogFile, SerialPort]
                                    else [SerialPort])
      ensures end != StillRunning ==> !portOpen && !logOpen
      ensures end == StillRunning ==> portOpen && logOpen == old(logOpen)
    {
      var failed := Run(trace);
      end := LoopEnd(LoopState(running, failed, lastActivity, []));
      if end == Stopped && logOpen {
        WriteFooter(stoppedAt);
      }
      if end != StillRunning {
        CloseLog();
        ClosePort();
      }
    }
  }

  /** `Step` only appends to what was printed before it. */
  lemma StepShift(s: LoopState, e: Event)
    requires Active(s)
    ensures var r := Step(LoopState(s.running, false, s.lastActivity, []), e);
      Step(s, e) == r.(emitted := s.emitted + r.emitted)
  {
  }
}
