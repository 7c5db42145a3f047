/**
 * raspberrypi/serial_debug_test.py: the monitor whose log is optional.
 * VMIN/VTIME are always set through termios, the header carries an extra
 * `VMIN=16, VTIME=5` line, and `finally` closes the log (if one was
 * opened) before the port (if it is open).
 */
module RaspberryPiMonitor {
  import opened Wrappers
  import opened MonitorLoop
  import opened SerialSession

  /** The `logfile` argument of `monitor_serial`: None, True, or a file name. */
  datatype LogArg = NoLog | AutoName | Named(name: string)

  /** What `main` does with the command line. */
  datatype Command =
    | ProbePorts
    | ShowHelp
    | UsageThenProbe
    | MonitorPort(port: string, log: LogArg)

  /** The default of `monitor_serial`'s `port` parameter. */
  const DefaultPort: string := "/dev/ttyUSB0"

  /** `main`: as in the backend, except that logging needs `--log` right after the
      port; `--log <file>` names the log, `--log` alone asks for the default name,
      and anything else in that position is ignored. */
  function ParseArgs(argv: seq<string>): (c: Command)
    ensures c == UsageThenProbe <==> |argv| <= 1
    ensures c == ProbePorts <==> |argv| > 1 && argv[1] == "test"
    ensures c == ShowHelp <==> |argv| > 1 && (argv[1] == "help" || argv[1] == "-h")
    ensures c.MonitorPort? ==> c.port == argv[1]
    ensures c.MonitorPort? && |argv| > 3 && argv[2] == "--log" ==> c.log == Named(argv[3])
    ensures c.MonitorPort? && |argv| == 3 && argv[2] == "--log" ==> c.log == AutoName
    ensures c.MonitorPort? && (|argv| == 2 || argv[2] != "--log") ==> c.log == NoLog
  {
    if |argv| <= 1 then UsageThenProbe
    else if argv[1] == "test" then ProbePorts
    else if argv[1] == "help" || argv[1] == "-h" then ShowHelp
    else
      var log :=
        if |argv| > 2 && argv[2] == "--log" then
          (if |argv| > 3 then Named(argv[3]) else AutoName)
        else NoLog;
      MonitorPort(argv[1], log)
  }

  /** Whether a log is opened and under which name. `if logfile:` is Python
      truthiness, so an empty file name means no log at all. */
  function LogName(arg: LogArg, stamp: string): (name: Option<string>)
    ensures name.Some? <==> arg.AutoName? || (arg.Named? && arg.name != "")
    ensures arg.AutoName? ==> name == Some(DefaultLogName(stamp))
    ensures arg.Named? && arg.name != "" ==> name == Some(arg.name)
  {
    match arg
    case NoLog => None
    case AutoName => Some(DefaultLogName(stamp))
    case Named(n) => if n == "" then None else Some(n)
  }

  /** `monitor_serial(port, logfile)`. Without a log nothing is written to any
      file, yet every record and idle notice is still printed. With a log, the
      header precedes all records and the footer is written only on a normal
      stop. `finally` closes the log, then the port, on every path that got
      that far. */
  method MonitorSerial(env: Env, trace: seq<Event>, port: string := DefaultPort, logfile: LogArg := NoLog)
    returns (m: Monitor, logName: Option<string>, end: SessionEnd)
    ensures fresh(m)
    ensures logName == LogName(logfile, env.nameStamp)
    ensures logName.None? ==> m.log == [] && LogFile !in m.closed
    ensures !env.portOpens ==>
      end == PortOpenFailed && m.closed == [] && m.log == [] && m.console == []
    ensures env.portOpens && !env.configOk ==>
      end == ConfigFailed && m.closed == [SerialPort] && m.log == [] && m.console == []
    ensures env.portOpens && env.configOk && logName.Some? && !env.logOpens ==>
      end == LogOpenFailed && m.closed == [SerialPort] && m.log == [] && m.console == []
    ensures env.portOpens && env.configOk && (logName.None? || env.logOpens) ==>
      var r := RunLoop(Start(env.startedAt), trace);
      && end == LoopEnd(r)
      && m.console == r.emitted
      && (logName.Some? ==>
            && m.log == [Header(port, env.startedAt, true)] + r.emitted
                        + (if end == Stopped then [Footer(env.stoppedAt)] else [])
            && SessionLog(m.log, end == Stopped))
      && m.closed == (if end == StillRunning then []
                      else if logName.Some? then [LogFile, SerialPort]
                      else [SerialPort])
    ensures end != StillRunning ==> !m.portOpen && !m.logOpen
    ensures end == StillRunning ==> m.portOpen && m.running && (m.logOpen <==> logName.Some?)
  {
    logName := LogName(logfile, env.nameStamp);
    m := new Monitor();
    if !env.portOpens {
      end := PortOpenFailed;
      return;
    }
    m.OpenPort();
    if !env.configOk {
      end := ConfigFailed;
      m.CloseLog();
      m.ClosePort();
      return;
    }
    m.lastActivity := env.startedAt;
    if logName.Some? {
      if !env.logOpens {
        end := LogOpenFailed;
        m.CloseLog();
        m.ClosePort();
        return;
      }
      m.OpenLog(Header(port, env.startedAt, true));
    }
    end := m.RunToExit(trace, env.stoppedAt);
    LoopLogShape(Header(port, env.startedAt, true), env.startedAt, trace, env.stoppedAt);
  }
}
