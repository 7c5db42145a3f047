# Elevator ENQ simulator: serial monitors and demo-video timeline

A Dafny model of three scripts of the elevator ENQ simulator.

- `backend/serial_debug_test.py` and `raspberrypi/serial_debug_test.py` are two near-identical serial monitors. Each opens a serial port at 9600 bps, 8 data bits, even parity, 1 stop bit. It asks the terminal driver to release a read after 16 bytes or 0.5 s of silence (VMIN=16, VTIME=5). It then reads blocks of at most 16 bytes while the module-level `running` flag is set. Every non-empty block is printed, and written to a log file when there is one, as a record with a timestamp, the byte count, an upper-case hex line and a printable-ASCII line. When a read comes back empty and more than 10 s have passed since the last activity, the script prints an idle notice ("待機中… (データなし)") and resets the clock. SIGINT/SIGTERM only clear `running`.
  - The backend always logs. Its log file is managed by `with`, and the port is closed in `finally`.
  - The Raspberry Pi script logs only on `--log`. Its `finally` closes the log, then the port.
- `video/elevator_video_generator.py` renders a 30 s demo video at 30 fps. Its pure core looks up the scenario and phase for a frame number in a timing table, chooses the status line from the phase, and shows a time-dependent prefix of the communication log.

Modules:

- `Render` (render.dfy): hex and ASCII rendering of a block. The hex decoder is the partner of the hex encoder and is used to prove the round trip.
- `MonitorLoop` (monitor_loop.dfy): the loop as a function `RunLoop` over a trace of poll events. An event is either a read at clock time `now` that returns bytes or fails, or the signal handler running. The module also holds the lemmas about the log and console output.
- `SerialSession` (serial_session.dfy): the class `Monitor` holds what a run changes in place: the `running` flag, `last_activity`, the console and log contents, whether the port and the log are open, and the order of the close operations. Its `Run` method is the `while running` loop, proved equal to `RunLoop`.
- `BackendMonitor` and `RaspberryPiMonitor`: each script's `main` argument handling, its name and port defaults, and `monitor_serial` as a session method. The session methods cover open failures, the header, the loop, the footer and the cleanup order.
- `VideoTimeline` (video_timeline.dfy): the scenario tables, `_get_scenario_state` as nested loops, `_get_communication_logs`, `logs[-8:]` and the status-line choice.

Clock values are integers in milliseconds, so the idle test "`time.time() - last_activity > 10`" becomes `now - lastActivity > 10000`. Video times are frame counts: every duration is a whole number of seconds at 30 fps, so `frame_num / 30` compared with whole seconds is exactly a comparison of frame counts.

Behaviour of the scripts that the model keeps:

- The footer is written only when the loop ends normally. After a read error neither script writes it; the log is only closed.
- The idle test is strict (`> 10`).
- The Raspberry Pi script always configures termios. Only the backend has the `HAS_TERMIOS`/Windows fallback.
- An idle notice resets `last_activity` in both scripts.

## Model

| member | source | states |
|---|---|---|
| Render.ToHex | backend/serial_debug_test.py:146 | `data.hex().upper()` is exactly two characters per byte, all upper-case hex digits, with no separators |
| Render.ToHexAt | backend/serial_debug_test.py:146 | characters 2i and 2i+1 of the hex text are the high and low digits of byte i |
| Render.HexRoundTrip | backend/serial_debug_test.py:146 | decoding the hex text returns the original bytes |
| Render.HexDecodeSound | raspberrypi/serial_debug_test.py:129 | any text that decodes to some bytes is exactly their hex rendering, so the encoding is a bijection onto well-formed upper-case hex |
| Render.HexInjective | backend/serial_debug_test.py:146 | two different blocks never render to the same hex text |
| Render.AsciiChar | backend/serial_debug_test.py:148 | a printable byte (32..126) is shown as itself, any other byte as '.', and the result is always printable |
| Render.ToAscii | raspberrypi/serial_debug_test.py:130-132 | the ASCII text has one character per byte, and character i is chr(data[i]) when 32 <= data[i] <= 126, else '.' |
| Render.PrintableShownVerbatim | backend/serial_debug_test.py:147-149 | a block of printable bytes (such as "HELLOXYZ") is shown verbatim |
| MonitorLoop.Start | backend/serial_debug_test.py:128 | the loop is entered running, with nothing printed and last_activity at the start time, and this state satisfies the loop invariant |
| MonitorLoop.RecordOf | backend/serial_debug_test.py:142-159 | the record of a block carries the receive time and the byte count, a hex text of two characters per byte that decodes back to the block, and an ASCII text with the printable-or-dot character of each byte |
| MonitorLoop.Step | backend/serial_debug_test.py:140-170 | one iteration (or the signal handler): `running` is cleared exactly by the signal, the loop fails exactly on a read error, at most one record or idle notice is appended and nothing printed before changes, and last_activity moves to the read time exactly when something was appended |
| MonitorLoop.RunLoop | backend/serial_debug_test.py:140-170 | the output is append-only (earlier entries are never changed), and a loop that has stopped does nothing more |
| MonitorLoop.Performed | backend/serial_debug_test.py:140 | the events the loop consumes are a prefix of the trace |
| MonitorLoop.DataReadStep | backend/serial_debug_test.py:142-162 | a non-empty read appends exactly one record with its byte count (1..16), its hex text (which decodes back to the data) and its ASCII text, and sets last_activity to now |
| MonitorLoop.EmptyReadStep | raspberrypi/serial_debug_test.py:147-155 | an empty read never adds a record. It adds one idle notice and resets last_activity exactly when now - last_activity > 10 s; otherwise it changes nothing |
| MonitorLoop.PerformedShape | backend/serial_debug_test.py:34-39 | no read starts after the flag is cleared or a read raises: every consumed event but the last is a successful read, and the loop consumes the whole trace exactly when no event before the last one stops it |
| MonitorLoop.LoopEnds | raspberrypi/serial_debug_test.py:36-41 | the final state depends only on the consumed events. `running` is false exactly when the loop stopped on a SIGINT/SIGTERM, it failed exactly when a read raised, and it is still running exactly when the trace holds neither |
| MonitorLoop.StepRecords | backend/serial_debug_test.py:142-162 | one iteration adds to the printed records exactly the record of its read when the read returned data, and nothing otherwise |
| MonitorLoop.RecordsMatchReads | backend/serial_debug_test.py:142-170 | the records printed are exactly one per non-empty read that was performed, in order; empty reads and signals produce none |
| MonitorLoop.DataRecordsSized | backend/serial_debug_test.py:142-152 | a record built from a read of at most 16 bytes carries a count in 1..16, a hex text of 2·count characters and an ASCII text of count characters |
| MonitorLoop.StepKeepsInvariant | backend/serial_debug_test.py:143-170 | one iteration keeps the invariant: only records and idle notices are printed, every idle notice comes more than 10 s after the preceding activity, and last_activity is the time of the latest record or notice |
| MonitorLoop.LoopKeepsInvariant | raspberrypi/serial_debug_test.py:123-155 | the whole loop keeps that invariant over any trace |
| MonitorLoop.IdleNoticesSpaced | backend/serial_debug_test.py:163-170 | two consecutive idle notices with no data between them are more than 10 s apart, and a first idle notice comes more than 10 s after the loop started |
| MonitorLoop.RecordsOfRun | raspberrypi/serial_debug_test.py:125-146 | over reads of at most 16 bytes, the printed records are exactly the non-empty reads performed, each with a count in 1..16 and renderings of matching length |
| MonitorLoop.LoopLogShape | backend/serial_debug_test.py:131-175 | a log made of the header, the loop output and, only on a normal stop, the footer has the header first and nowhere else, and the footer last and nowhere else |
| SerialSession.LoopEnd | backend/serial_debug_test.py:140-179 | the loop ended normally, by an exception, or not at all (the trace ran out), and these match a stopped, failed or still-active loop state |
| SerialSession.DefaultLogName | backend/serial_debug_test.py:83-85 | the default log name is `serial_debug_` followed by the timestamp and `.log` |
| SerialSession.Monitor.constructor | backend/serial_debug_test.py:34 | at program start `running` is true and neither the port nor a log is open |
| SerialSession.Monitor.HandleSigint | backend/serial_debug_test.py:36-39 | the signal handler clears `running` and changes nothing else |
| SerialSession.Monitor.OpenPort | backend/serial_debug_test.py:99-106 | a successful `serial.Serial(...)` leaves the port open |
| SerialSession.Monitor.OpenLog | raspberrypi/serial_debug_test.py:113-121 | opening the log truncates it, and the header is its only content |
| SerialSession.Monitor.WriteFooter | raspberrypi/serial_debug_test.py:159-163 | the footer is appended to the open log |
| SerialSession.Monitor.CloseLog | raspberrypi/serial_debug_test.py:170-171 | the log is closed if it was open, and that close is recorded |
| SerialSession.Monitor.ClosePort | backend/serial_debug_test.py:184-185 | the port is closed only if it is open, and that close is recorded |
| SerialSession.Monitor.Poll | raspberrypi/serial_debug_test.py:124-155 | one pass of the loop body (or the signal handler) changes the flag, last_activity and the output exactly as one `Step` does; what it prints also goes to the log exactly when a log is open |
| SerialSession.Monitor.Run | backend/serial_debug_test.py:140-170 | the `while running` loop ends with exactly the flag, last_activity and output given by RunLoop. Everything is printed; it goes to the log exactly when a log is open |
| SerialSession.Monitor.RunToExit | raspberrypi/serial_debug_test.py:123-173 | after the port is open: the flag, last_activity and output end as RunLoop says, the footer is written only on a normal stop and only to an open log, and on any exit from the loop the log (if open) is closed before the port; while the loop is still reading, the port and the log stay as they were and nothing is closed |
| BackendMonitor.ParseArgs | backend/serial_debug_test.py:187-218 | `test` probes, `help`/`-h` prints help, no argument prints usage and probes, otherwise argv[1] is the port and argv[2], if present, the log name |
| BackendMonitor.ResolvePort | backend/serial_debug_test.py:91-95 | without a port, the port is COM3 on Windows and /dev/ttyUSB0 elsewhere |
| BackendMonitor.ResolveLogName | backend/serial_debug_test.py:83-85 | without a log name, the name is `serial_debug_<timestamp>.log` |
| BackendMonitor.UsesCoalescing | backend/serial_debug_test.py:108-117 | VMIN=16/VTIME=5 are applied exactly when termios is available and the platform is not Windows |
| BackendMonitor.MonitorSerial | backend/serial_debug_test.py:78-185 | states each exit path. If the port fails to open, nothing is closed or written. If configuration or the log open fails, only the port is closed. Otherwise the log is header + loop output + footer (the footer only on a normal stop), the console holds the loop output, and the log is closed before the port on both normal and error exits; while the loop is still reading, the port and the log stay open |
| RaspberryPiMonitor.ParseArgs | raspberrypi/serial_debug_test.py:175-202 | `--log <file>` right after the port names the log, `--log` alone asks for the default name, and anything else means no log |
| RaspberryPiMonitor.LogName | raspberrypi/serial_debug_test.py:72-79 | a log exists exactly for `--log` alone (named `serial_debug_<timestamp>.log`) or a non-empty given name (by Python truthiness, an empty name means no log) |
| RaspberryPiMonitor.MonitorSerial | raspberrypi/serial_debug_test.py:68-173 | without a log nothing is written to any file, yet every record and idle notice is printed. With a log, the header (with the VMIN line) comes first and the footer only on a normal stop. `finally` closes the log, if opened, before the port, if open, on every path past the port open; while the loop is still reading, the port (and the log, if any) stay open |
| VideoTimeline.Scenarios | video/elevator_video_generator.py:46-93 | the four scenarios with their floors, loads, durations and phases: only the last, the idle one, has no target floor and only it has an 'idle' phase |
| VideoTimeline.CommunicationLogs | video/elevator_video_generator.py:95-106 | the log table has ten lines, each starting with a bracketed `HH:MM:SS` time stamp (digits and colons in place) and a space |
| VideoTimeline.CurrentPhase | video/elevator_video_generator.py:173-180 | the phase is that of the first phase whose cumulative end exceeds the scenario time, or 'waiting' if none does |
| VideoTimeline.GetScenarioState | video/elevator_video_generator.py:162-197 | picks the first scenario whose cumulative end exceeds the frame's time, with scenario_time = time - cumulative start, so 0 <= scenario_time < duration, and the phase at that time. Past all scenarios it returns the last scenario, 'idle' and 0. total_time is always the frame's time |
| VideoTimeline.FirstSpanExists | video/elevator_video_generator.py:167-189 | any time before the cumulative end of the spans falls in a first span that covers it |
| VideoTimeline.ScenarioTable | video/elevator_video_generator.py:46-93 | the scenario durations sum to 30 s = VIDEO_DURATION, and each scenario's phases sum to its duration |
| VideoTimeline.EveryFrameScheduled | video/elevator_video_generator.py:335-337 | every frame 0..TOTAL_FRAMES-1 lies in some scenario and, within it, in some phase, so neither the 'idle' fallback nor the 'waiting' default is reached from generate_video |
| VideoTimeline.GetCommunicationLogs | video/elevator_video_generator.py:199-204 | the result is the prefix of length min(len(logs), int(t/3)+1), never empty when there are logs |
| VideoTimeline.LogsGrow | video/elevator_video_generator.py:202-204 | a later frame shows an extension of what an earlier frame shows |
| VideoTimeline.AllLogsShown | video/elevator_video_generator.py:199-204 | on the real table, all ten lines are shown exactly from frame 810 (27 s) on, and `logs[-8:]` then draws lines 3 to 10 |
| VideoTimeline.LastLogs | video/elevator_video_generator.py:289 | only the newest min(8, len) log lines are drawn, and they are a suffix of the list |
| VideoTimeline.FloorText | video/elevator_video_generator.py:242-247 | a known floor is shown as its name, and a missing one as Python renders `None` in an f-string |
| VideoTimeline.StatusText | video/elevator_video_generator.py:241-260 | the status line depends only on the phase: 'moving' gives "start ⇒ target", 'arrived' gives "現在階: target", 'idle' gives "現在階: start (待機中)", and any other phase gives "現在階: start" |
| VideoTimeline.TargetKnownWhenShown | video/elevator_video_generator.py:241-250 | in the scenario table only scenarios with a target floor have a 'moving' or 'arrived' phase, so the status line of every scheduled phase names a real floor and never shows `None` |

## Left out

- Serial I/O (`serial.Serial`, `ser.read`, `ser.fileno`, `termios.tcgetattr/tcsetattr`) is not modelled. A read is an event of the input trace. Opening the port and configuring it succeed or fail as `Env` says.
- Signal registration (`signal.signal`) is not modelled. A delivered SIGINT/SIGTERM is an `Interrupt` event of the trace. A signal that arrives before the handler is registered is not modelled: an early SIGINT raises `KeyboardInterrupt`, and an early SIGTERM ends the process at once under Python's default action, so no `except` or `finally` runs and the port is never closed.
- Wall-clock formatting (`strftime`, `datetime.now()`) is not modelled. Timestamps are integer clock values carried in the entries, and the default log name takes the formatted text as an opaque input.
- Clock values are integers (milliseconds) rather than the float seconds of `time.time()`; sub-millisecond differences in the idle test are not modelled.
- BackendMonitor.MonitorSerial, RaspberryPiMonitor.MonitorSerial: one clock reading, `Env.startedAt`, stands for both the header's start time and the first `last_activity`, which the scripts read separately (backend lines 128 and 134, Raspberry Pi lines 110 and 116).
- `MonitorLoop.Step`: one clock reading per iteration stands for the separate `time.time()` calls that compare and reset `last_activity`.
- The exact text of the log and console lines (the Japanese labels, the `=` × 50 separators, the blank lines) is represented structurally by `Entry`.
- Console output other than records and idle notices is not modelled: the start banner, "モニタリング終了" and the error message.
- Log files: `os.path.join` with the script directory, `flush`, and the `with` statement's own machinery are not modelled. The log is its sequence of entries plus an open flag. A failing log write is not modelled; only a failing read stands for an exception inside the loop.
- `test_serial_ports`, the help and usage text, and `traceback.print_exc` are not modelled; `ParseArgs` only says which of them `main` runs.
- A trace is finite. If it ends while `running` is still set, the session ends `StillRunning` with no footer and nothing closed, which stands for a script still blocked in `ser.read`.
- Video: font loading, all PIL drawing, OpenCV encoding, the progress bar, the ETA arithmetic, the detail lines and timestamp of `generate_frame`, and `main` are not modelled.
- `VideoTimeline.GetCommunicationLogs` takes the frame number instead of the float time `frame / 30`. `int(t / 3)` is then `frame / 90`.
