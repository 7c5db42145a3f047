/**
 * The read/record/idle loop of `monitor_serial`, as a function of an
 * abstract input trace. Both serial monitors run the same loop; they
 * differ only in whether the emitted entries also go to a log file
 * (see SerialSession).
 *
 * Each trace event is what happens at one poll of the loop: either a
 * read returns (bytes, possibly none, or a transport error) at clock
 * time `now`, or the SIGINT/SIGTERM handler runs and clears `running`.
 * Clock values are milliseconds.
 */
module MonitorLoop {
  import opened Wrappers
  import opened Render

  /** `ser.read(16)`: a read returns at most this many bytes (VMIN = 16). */
  const ReadSize: nat := 16

  /** An empty read produces an idle notice only after strictly more than 10 s of silence. */
  const IdleThreshold: int := 10_000

  datatype ReadResult = Bytes(data: seq<byte>) | ReadFailed

  datatype Event = Read(result: ReadResult, now: int) | Interrupt

  /** One block of the log file (or of the console output). */
  datatype Entry =
    | Header(port: string, startedAt: int, coalescingLine: bool)
    | Record(at: int, count: nat, hex: string, ascii: string)
    | IdleNotice(at: int)
    | Footer(endedAt: int)

  /** The loop's variables: the `running` flag, whether an exception escaped the
      loop, `last_activity`, and the entries printed so far. */
  datatype LoopState = LoopState(running: bool, failed: bool, lastActivity: int, emitted: seq<Entry>)

  /** The state when the loop is first reached: `running` is still true and
      `last_activity` was just read from the clock. */
  function Start(startedAt: int): (s: LoopState)
    ensures Active(s) && s.emitted == [] && s.lastActivity == startedAt
    ensures LoopInvariant(startedAt, s)
  {
    LoopState(true, false, startedAt, [])
  }

  /** `while running`, and no exception has unwound the loop. */
  predicate Active(s: LoopState) {
    s.running && !s.failed
  }

  /** An event after which no further read is started. */
  predicate Stops(e: Event) {
    e.Interrupt? || e.result.ReadFailed?
  }

  /** What `ser.read(16)` can return: never more than 16 bytes. */
  predicate ValidReads(trace: seq<Event>) {
    forall i :: 0 <= i < |trace| && trace[i].Read? && trace[i].result.Bytes? ==>
      |trace[i].result.data| <= ReadSize
  }

  /** The record printed (and logged) for a non-empty block received at `now`. */
  function RecordOf(data: seq<byte>, now: int): (r: Entry)
    ensures r.Record? && r.at == now && r.count == |data|
    ensures |r.hex| == 2 * |data| && FromHex(r.hex) == Some(data)
    ensures |r.ascii| == |data| && forall i :: 0 <= i < |data| ==> r.ascii[i] == AsciiChar(data[i])
  {
    HexRoundTrip(data);
    Record(now, |data|, ToHex(data), ToAscii(data))
  }

  /** One iteration of the loop body (or the signal handler). */
  function Step(s: LoopState, e: Event): (r: LoopState)
    ensures r.running <==> s.running && !e.Interrupt?
    ensures r.failed <==> s.failed || (e.Read? && e.result.ReadFailed?)
    ensures s.emitted <= r.emitted && |r.emitted| <= |s.emitted| + 1
    ensures |r.emitted| == |s.emitted| ==> r.lastActivity == s.lastActivity
    ensures |r.emitted| > |s.emitted| ==>
      && e.Read? && r.lastActivity == e.now
      && (r.emitted[|s.emitted|].Record? || r.emitted[|s.emitted|].IdleNotice?)
      && r.emitted[|s.emitted|].at == e.now
  {
    match e
    case Interrupt => s.(running := false)
    case Read(ReadFailed, _) => s.(failed := true)
    case Read(Bytes(data), now) =>
      if |data| > 0 then
        s.(lastActivity := now, emitted := s.emitted + [RecordOf(data, now)])
      else if now - s.lastActivity > IdleThreshold then
        s.(lastActivity := now, emitted := s.emitted + [IdleNotice(now)])
      else
        s
  }

  /** The loop run over a trace: it stops at the first poll that finds `running`
      cleared, at the first failed read, or when the trace is exhausted. */
  function RunLoop(s: LoopState, trace: seq<Event>): (r: LoopState)
    ensures s.emitted <= r.emitted
    ensures !Active(s) ==> r == s
    decreases |trace|
  {
    if !Active(s) || trace == [] then s else RunLoop(Step(s, trace[0]), trace[1..])
  }

  /** The events the loop actually consumes: the trace up to and including the
      first interrupt or failed read. */
  function Performed(trace: seq<Event>): (p: seq<Event>)
    ensures p <= trace
  {
    if trace == [] then []
    else if Stops(trace[0]) then [trace[0]]
    else [trace[0]] + Performed(trace[1..])
  }

  /** The records among some entries, in order. */
  function Records(es: seq<Entry>): seq<Entry> {
    if es == [] then [] else (if es[0].Record? then [es[0]] else []) + Records(es[1..])
  }

  /** Reference definition: one record per non-empty read, in trace order. */
  function DataRecords(events: seq<Event>): seq<Entry> {
    if events == [] then []
    else
      (match events[0]
       case Read(Bytes(d), now) => if |d| > 0 then [RecordOf(d, now)] else []
       case _ => [])
      + DataRecords(events[1..])
  }

  /** Time of the last record or idle notice among `es`, or `start` if none. */
  function LastActivity(start: int, es: seq<Entry>): int
    decreases |es|
  {
    if es == [] then start
    else
      match es[|es| - 1]
      case Record(at, _, _, _) => at
      case IdleNotice(at) => at
      case _ => LastActivity(start, es[..|es| - 1])
  }

  /** Every idle notice comes more than the threshold after the preceding activity. */
  ghost predicate Paced(start: int, es: seq<Entry>) {
    forall i :: 0 <= i < |es| && es[i].IdleNotice? ==>
      es[i].at - LastActivity(start, es[..i]) > IdleThreshold
  }

  /** The loop prints nothing but records and idle notices. */
  ghost predicate ActivityOnly(es: seq<Entry>) {
    forall i :: 0 <= i < |es| ==> es[i].Record? || es[i].IdleNotice?
  }

  /** What every loop state reached from `Start(start)` satisfies. */
  ghost predicate LoopInvariant(start: int, s: LoopState) {
    && ActivityOnly(s.emitted)
    && Paced(start, s.emitted)
    && s.lastActivity == LastActivity(start, s.emitted)
  }

  /** Shape of a log file: the header first and only first; a footer, if any, last. */
  ghost predicate SessionLog(log: seq<Entry>, stoppedNormally: bool) {
    && |log| >= 1 && log[0].Header?
    && (forall i :: 0 < i < |log| ==> !log[i].Header?)
    && (forall i :: 0 <= i < |log| - 1 ==> !log[i].Footer?)
    && (log[|log| - 1].Footer? <==> stoppedNormally)
  }

  // ----- one iteration -----

  /** A non-empty read prints exactly one record carrying its rendering and
      byte count, and resets `last_activity`. */
  lemma DataReadStep(s: LoopState, data: seq<byte>, now: int)
    requires Active(s) && 1 <= |data| <= ReadSize
    ensures var r := Step(s, Read(Bytes(data), now));
      && Active(r) && r.lastActivity == now
      && r.emitted == s.emitted + [Record(now, |data|, ToHex(data), ToAscii(data))]
      && 1 <= r.emitted[|s.emitted|].count <= ReadSize
      && FromHex(r.emitted[|s.emitted|].hex) == Some(data)
  {
    HexRoundTrip(data);
  }

  /** An empty read never prints a record; it prints one idle notice, and resets
      `last_activity`, exactly when the silence exceeds the threshold. */
  lemma EmptyReadStep(s: LoopState, now: int)
    requires Active(s)
    ensures var r := Step(s, Read(Bytes([]), now));
      && Active(r)
      && (now - s.lastActivity > IdleThreshold ==>
            r.emitted == s.emitted + [IdleNotice(now)] && r.lastActivity == now)
      && (now - s.lastActivity <= IdleThreshold ==> r == s)
  {
  }

  // ----- the whole loop -----

  /** No read is started after the flag is cleared or a read fails: the events
      consumed are all successful reads, except possibly the last, which is the
      one that stopped the loop. */
  lemma {:induction false} PerformedShape(trace: seq<Event>)
    ensures var p := Performed(trace);
      && (forall i :: 0 <= i < |p| - 1 ==> !Stops(p[i]))
      && (|p| < |trace| ==> p != [] && Stops(p[|p| - 1]))
      && (p == trace <==> forall i :: 0 <= i < |trace| - 1 ==> !Stops(trace[i]))
  {
    if trace != [] && !Stops(trace[0]) {
      PerformedShape(trace[1..]);
      var p := Performed(trace);
      assert p == [trace[0]] + Performed(trace[1..]);
      if forall i :: 0 <= i < |trace| - 1 ==> !Stops(trace[i]) {
        assert forall i :: 0 <= i < |trace[1..]| - 1 ==> !Stops(trace[1..][i]) by {
          forall i | 0 <= i < |trace[1..]| - 1 ensures !Stops(trace[1..][i]) {
            assert trace[1..][i] == trace[i + 1];
          }
        }
      }
      if p == trace {
        assert Performed(trace[1..]) == trace[1..];
        forall i | 0 <= i < |trace| - 1 ensures !Stops(trace[i]) {
          if i > 0 { assert trace[i] == trace[1..][i - 1]; }
        }
      }
    }
  }

  /** The loop's final state depends only on the events it consumed, and it
      says why the loop ended. */
  lemma {:induction false} LoopEnds(s: LoopState, trace: seq<Event>)
    requires Active(s)
    ensures var r, p := RunLoop(s, trace), Performed(trace);
      && RunLoop(s, p) == r
      && (!r.running <==> p != [] && p[|p| - 1].Interrupt?)
      && (r.failed <==> p != [] && p[|p| - 1].Read? && p[|p| - 1].result.ReadFailed?)
      && (Active(r) <==> forall i :: 0 <= i < |trace| ==> !Stops(trace[i]))
    decreases |trace|
  {
    if trace != [] {
      var s' := Step(s, trace[0]);
      if Stops(trace[0]) {
        assert RunLoop(s, [trace[0]]) == RunLoop(s', []);
      } else {
        LoopEnds(s', trace[1..]);
        var p := Performed(trace);
        assert p == [trace[0]] + Performed(trace[1..]);
        assert p[1..] == Performed(trace[1..]);
        if forall i :: 0 <= i < |trace[1..]| ==> !Stops(trace[1..][i]) {
          forall i | 0 <= i < |trace| ensures !Stops(trace[i]) {
            if i > 0 { assert trace[i] == trace[1..][i - 1]; }
          }
        }
      }
    }
  }

  lemma {:induction false} RecordsAppend(a: seq<Entry>, b: seq<Entry>)
    ensures Records(a + b) == Records(a) + Records(b)
  {
    if a == [] {
      assert a + b == b;
    } else {
      RecordsAppend(a[1..], b);
      assert (a + b)[0] == a[0] && (a + b)[1..] == a[1..] + b;
      calc {
        Records(a + b);
        (if a[0].Record? then [a[0]] else []) + Records(a[1..] + b);
        (if a[0].Record? then [a[0]] else []) + (Records(a[1..]) + Records(b));
      }
    }
  }

  /** One iteration adds to the printed records exactly what `DataRecords`
      gives for its event. */
  lemma StepRecords(s: LoopState, e: Event)
    requires Active(s)
    ensures Records(Step(s, e).emitted) == Records(s.emitted) + DataRecords([e])
  {
    assert DataRecords([e])[..] == DataRecords([e]);
    match e
    case Interrupt =>
    case Read(ReadFailed, _) =>
    case Read(Bytes(d), now) =>
      if |d| > 0 {
        RecordsAppend(s.emitted, [RecordOf(d, now)]);
        assert DataRecords([e]) == [RecordOf(d, now)];
      } else if now - s.lastActivity > IdleThreshold {
        RecordsAppend(s.emitted, [IdleNotice(now)]);
        assert DataRecords([e]) == [];
      } else {
        assert DataRecords([e]) == [];
      }
  }

  /** Each non-empty read consumed by the loop yields exactly one record, in
      order, and nothing else yields one: empty reads never produce a record. */
  lemma {:induction false} RecordsMatchReads(s: LoopState, trace: seq<Event>)
    requires Active(s)
    ensures Records(RunLoop(s, trace).emitted) == Records(s.emitted) + DataRecords(Performed(trace))
    decreases |trace|
  {
    if trace != [] {
      var e, s' := trace[0], Step(s, trace[0]);
      StepRecords(s, e);
      if !Stops(e) {
        RecordsMatchReads(s', trace[1..]);
        var p := Performed(trace);
        assert p == [e] + Performed(trace[1..]);
        assert p[0] == e && p[1..] == Performed(trace[1..]);
        assert DataRecords(p) == DataRecords([e]) + DataRecords(Performed(trace[1..]));
      }
    }
  }

  /** Records built from reads of at most 16 bytes carry a count in 1..16 and
      renderings of matching length. */
  lemma {:induction false} DataRecordsSized(events: seq<Event>)
    requires ValidReads(events)
    ensures forall i :: 0 <= i < |DataRecords(events)| ==>
      var e := DataRecords(events)[i];
      e.Record? && 1 <= e.count <= ReadSize && |e.hex| == 2 * e.count && |e.ascii| == e.count
  {
    if events != [] {
      assert ValidReads(events[1..]) by {
        forall i | 0 <= i < |events[1..]| ensures events[1..][i] == events[i + 1] { }
      }
      DataRecordsSized(events[1..]);
    }
  }

  lemma LastActivityAppend(start: int, es: seq<Entry>, e: Entry)
    requires e.Record? || e.IdleNotice?
    ensures LastActivity(start, es + [e]) == e.at
  {
  }

  /** One iteration keeps the loop invariant. */
  lemma StepKeepsInvariant(start: int, s: LoopState, e: Event)
    requires Active(s) && LoopInvariant(start, s)
    ensures LoopInvariant(start, Step(s, e))
  {
    var s' := Step(s, e);
    if s'.emitted != s.emitted {
      var n := |s.emitted|;
      assert s'.emitted == s.emitted + [s'.emitted[n]];
      var x := s'.emitted[n];
      LastActivityAppend(start, s.emitted, x);
      forall i | 0 <= i < |s'.emitted| && s'.emitted[i].IdleNotice?
        ensures s'.emitted[i].at - LastActivity(start, s'.emitted[..i]) > IdleThreshold
      {
        if i < n {
          assert s'.emitted[..i] == s.emitted[..i];
        } else {
          assert s'.emitted[..i] == s.emitted;
        }
      }
    }
  }

  /** The loop keeps the invariant over any trace. */
  lemma {:induction false} LoopKeepsInvariant(start: int, s: LoopState, trace: seq<Event>)
    requires LoopInvariant(start, s)
    ensures LoopInvariant(start, RunLoop(s, trace))
    decreases |trace|
  {
    if Active(s) && trace != [] {
      StepKeepsInvariant(start, s, trace[0]);
      LoopKeepsInvariant(start, Step(s, trace[0]), trace[1..]);
    }
  }

  /** Two consecutive idle notices (no record between them) are more than 10 s
      apart, and the first idle notice comes more than 10 s after the loop
      started: idle notices are rate-limited however many empty reads occur. */
  lemma IdleNoticesSpaced(startedAt: int, trace: seq<Event>)
    ensures var es := RunLoop(Start(startedAt), trace).emitted;
      && (forall i :: 0 <= i < |es| - 1 && es[i].IdleNotice? && es[i + 1].IdleNotice? ==>
            es[i + 1].at - es[i].at > IdleThreshold)
      && (|es| > 0 && es[0].IdleNotice? ==> es[0].at - startedAt > IdleThreshold)
  {
    var es := RunLoop(Start(startedAt), trace).emitted;
    LoopKeepsInvariant(startedAt, Start(startedAt), trace);
    forall i | 0 <= i < |es| - 1 && es[i].IdleNotice? && es[i + 1].IdleNotice?
      ensures es[i + 1].at - es[i].at > IdleThreshold
    {
      assert es[..i + 1] == es[..i] + [es[i]];
      LastActivityAppend(startedAt, es[..i], es[i]);
    }
    if |es| > 0 {
      assert es[..0] == [];
    }
  }

  /** Over a trace of reads of at most 16 bytes, the printed records are exactly
      one per non-empty read, each with a count in 1..16 and a hex text of twice
      that length. */
  lemma RecordsOfRun(startedAt: int, trace: seq<Event>)
    requires ValidReads(trace)
    ensures var rs := Records(RunLoop(Start(startedAt), trace).emitted);
      && rs == DataRecords(Performed(trace))
      && forall i :: 0 <= i < |rs| ==>
           rs[i].Record? && 1 <= rs[i].count <= ReadSize && |rs[i].hex| == 2 * rs[i].count && |rs[i].ascii| == rs[i].count
  {
    RecordsMatchReads(Start(startedAt), trace);
    var p := Performed(trace);
    assert ValidReads(p) by {
      forall i | 0 <= i < |p| ensures p[i] == trace[i] { }
    }
    DataRecordsSized(p);
  }

  /** A log made of a header, what the loop printed and, on a normal stop only,
      a footer, has the header first and the footer last and nowhere else. */
  lemma LoopLogShape(header: Entry, startedAt: int, trace: seq<Event>, endedAt: int)
    requires header.Header?
    ensures var r := RunLoop(Start(startedAt), trace);
      var stopped := !r.running && !r.failed;
      SessionLog([header] + r.emitted + (if stopped then [Footer(endedAt)] else []), stopped)
  {
    var r := RunLoop(Start(startedAt), trace);
    LoopKeepsInvariant(startedAt, Start(startedAt), trace);
    var stopped := !r.running && !r.failed;
    LogOfActivity(header, r.emitted, Footer(endedAt), stopped);
  }

  lemma LogOfActivity(header: Entry, es: seq<Entry>, footer: Entry, stopped: bool)
    requires header.Header? && footer.Footer? && ActivityOnly(es)
    ensures SessionLog([header] + es + (if stopped then [footer] else []), stopped)
  {
    var log := [header] + es + (if stopped then [footer] else []);
    assert |log| == |es| + 1 + (if stopped then 1 else 0);
    forall i | 0 < i <= |es| ensures log[i] == es[i - 1] && !log[i].Header? && !log[i].Footer? { }
  }
}
