/**
 * backend/serial_debug_test.py: the monitor that always logs. The log
 * name and the port get defaults, VMIN/VTIME are set only where termios
 * exists and the platform is not Windows, the log is managed by `with`
 * (closed on every exit from the block) and the port is closed in
 * `finally`.
 */
module BackendMonitor {
  import opened Wrappers
  import opened MonitorLoop
  import opened SerialSession

  /** Whether `sys.platform.startswith('win')`. */
  datatype Platform = Windows | Posix

  /** What `main` does with the command line. */
  datatype Command =
    | ProbePorts
    | ShowHelp
    | UsageThenProbe
    | MonitorPort(port: string, logfile: Option<string>)

  /** `main`: `test` probes the ports, `help`/`-h` prints usage, no argument prints
      usage and probes, anything else is the port, optionally followed by a log name. */
  function ParseArgs(argv: seq<string>): (c: Command)
    ensures c == UsageThenProbe <==> |argv| <= 1
    ensures c == ProbePorts <==> |argv| > 1 && argv[1] == "test"
    ensures c == ShowHelp <==> |argv| > 1 && (argv[1] == "help" || argv[1] == "-h")
    ensures c.MonitorPort? ==> c.port == argv[1]
    ensures c.MonitorPort? ==> (c.logfile.Some? <==> |argv| > 2)
    ensures c.MonitorPort? && |argv| > 2 ==> c.logfile.value == argv[2]
  {
    if |argv| <= 1 then UsageThenProbe
    else if argv[1] == "test" then ProbePorts
    else if argv[1] == "help" || argv[1] == "-h" then ShowHelp
    else MonitorPort(argv[1], if |argv| > 2 then Some(argv[2]) else None)
  }

  /** The port monitored: the one given, else `COM3` on Windows and `/dev/ttyUSB0` elsewhere. */
  function ResolvePort(port: Option<string>, platform: Platform): (name: string)
    ensures port.Some? ==> name == port.value
    ensures port.None? && platform == Windows ==> name == "COM3"
    ensures port.None? && platform == Posix ==> name == "/dev/ttyUSB0"
  {
    match port
    case Some(p) => p
    case None => if platform == Windows then "COM3" else "/dev/ttyUSB0"
  }

  /** The log file name: the one given, else `serial_debug_<timestamp>.log`. */
  function ResolveLogName(logfile: Option<string>, stamp: string): (name: string)
    ensures logfile.Some? ==> name == logfile.value
    ensures logfile.None? ==> name == DefaultLogName(stamp)
  {
    logfile.GetOr(DefaultLogName(stamp))
  }

  /** VMIN=16/VTIME=5 are applied only when termios is available and the platform is not Windows. */
  function UsesCoalescing(hasTermios: bool, platform: Platform): (applied: bool)
    ensures applied <==> hasTermios && platform != Windows
  {
    hasTermios && platform == Posix
  }

  /** `monitor_serial(port, logfile)`. The header is written and flushed before
      the first read; the footer only after the loop exits normally; on an
      exception the `with` block closes the log and `finally` closes the port,
      and a port that never opened is not closed. */
  method MonitorSerial(
    port: Option<string>, logfile: Option<string>, platform: Platform, hasTermios: bool,
    env: Env, trace: seq<Event>)
    returns (m: Monitor, portName: string, logName: string, coalescing: bool, end: SessionEnd)
    ensures fresh(m)
    ensures portName == ResolvePort(port, platform)
    ensures logName == ResolveLogName(logfile, env.nameStamp)
    ensures coalescing <==> env.portOpens && UsesCoalescing(hasTermios, platform)
    ensures !env.portOpens ==>
      end == PortOpenFailed && m.closed == [] && m.log == [] && m.console == []
    ensures env.portOpens && coalescing && !env.configOk ==>
      end == ConfigFailed && m.closed == [SerialPort] && m.log == [] && m.console == []
    ensures env.portOpens && (!coalescing || env.configOk) && !env.logOpens ==>
      end == LogOpenFailed && m.closed == [SerialPort] && m.log == [] && m.console == []
    ensures env.portOpens && (!coalescing || env.configOk) && env.logOpens ==>
      var r := RunLoop(Start(env.startedAt), trace);
      && end == LoopEnd(r)
      && m.console == r.emitted
      && m.log == [Header(portName, env.startedAt, false)] + r.emitted
                  + (if end == Stopped then [Footer(env.stoppedAt)] else [])
      && SessionLog(m.log, end == Stopped)
      && m.closed == (if end == StillRunning then [] else [LogFile, SerialPort])
    ensures end != StillRunning ==> !m.portOpen && !m.logOpen
    ensures end == StillRunning ==> m.portOpen && m.logOpen && m.running
  {
    logName := ResolveLogName(logfile, env.nameStamp);
    portName := ResolvePort(port, platform);
    m := new Monitor();
    coalescing := false;
    if !env.portOpens {
      end := PortOpenFailed;
      return;
    }
    m.OpenPort();
    coalescing := UsesCoalescing(hasTermios, platform);
    if coalescing && !env.configOk {
      end := ConfigFailed;
      m.ClosePort();
      return;
    }
    m.lastActivity := env.startedAt;
    if !env.logOpens {
      end := LogOpenFailed;
      m.ClosePort();
      return;
    }
    m.OpenLog(Header(portName, env.startedAt, false));
    end := m.RunToExit(trace, env.stoppedAt);
    LoopLogShape(Header(portName, env.startedAt, false), env.startedAt, trace, env.stoppedAt);
  }
}
