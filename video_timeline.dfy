/**
 * video/elevator_video_generator.py: the timeline of the demo video.
 * All durations are whole seconds and the video runs at 30 frames per
 * second, so every time is kept exactly as a frame count: a time of
 * `t` seconds is frame `t * Fps`, and `frame_num / VIDEO_FPS` compared
 * against whole seconds becomes a comparison of frame counts.
 */
module VideoTimeline {
  import opened Wrappers

  const Fps: nat := 30
  const VideoDuration: nat := 30
  const TotalFrames: nat := Fps * VideoDuration
  /** One more communication log line is shown every 3 seconds. */
  const SecondsPerLog: nat := 3
  /** `logs[-8:]`: at most this many log lines are drawn. */
  const DisplayedLogs: nat := 8

  datatype Phase = Waiting | Moving | Arrived | Idle

  datatype PhaseSpan = PhaseSpan(phase: Phase, duration: nat)

  /** One row of `ElevatorScenario.scenarios`; durations in seconds. */
  datatype Scenario = Scenario(
    name: string, startFloor: string, targetFloor: Option<string>,
    loadWeight: nat, duration: nat, phases: seq<PhaseSpan>)

  /** What `_get_scenario_state` returns; both times in frames. */
  datatype ScenarioState = ScenarioState(
    scenario: Scenario, phase: Phase, scenarioTime: nat, totalTime: nat)

  /** `ElevatorScenario.scenarios`. */
  function Scenarios(): (ss: seq<Scenario>)
    ensures |ss| == 4
    ensures forall i :: 0 <= i < |ss| ==> (ss[i].targetFloor.None? <==> i == 3)
    ensures forall i, k :: 0 <= i < |ss| && 0 <= k < |ss[i].phases| ==> (ss[i].phases[k].phase == Idle <==> i == 3)
  {
    [ Scenario("1階から3階への移動", "1F", Some("3F"), 850, 8,
               [PhaseSpan(Waiting, 2), PhaseSpan(Moving, 4), PhaseSpan(Arrived, 2)]),
      Scenario("3階から地下1階への移動", "3F", Some("B1F"), 1200, 10,
               [PhaseSpan(Waiting, 2), PhaseSpan(Moving, 6), PhaseSpan(Arrived, 2)]),
      Scenario("地下1階から2階への移動", "B1F", Some("2F"), 650, 8,
               [PhaseSpan(Waiting, 2), PhaseSpan(Moving, 4), PhaseSpan(Arrived, 2)]),
      Scenario("待機状態", "2F", None, 0, 4,
               [PhaseSpan(Idle, 4)]) ]
  }

  predicate IsDigit(c: char) { '0' <= c <= '9' }

  /** A line that starts with a `[HH:MM:SS]` time stamp followed by a space. */
  predicate StampedLine(line: string) {
    && |line| > 11 && line[0] == '[' && line[9] == ']' && line[10] == ' '
    && line[3] == ':' && line[6] == ':'
    && IsDigit(line[1]) && IsDigit(line[2]) && IsDigit(line[4])
    && IsDigit(line[5]) && IsDigit(line[7]) && IsDigit(line[8])
  }

  /** `ElevatorScenario.communication_logs`. */
  function CommunicationLogs(): (logs: seq<string>)
    ensures |logs| == 10
    ensures forall i :: 0 <= i < |logs| ==> StampedLine(logs[i])
  {
    [ "[14:22:15] 現在階: 1F",
      "[14:22:16] 移動開始: 1F→3F",
      "[14:22:20] 着床完了: 3F",
      "[14:22:22] 荷重: 1200kg",
      "[14:22:25] 移動開始: 3F→B1F",
      "[14:22:31] 着床完了: B1F",
      "[14:22:33] 荷重: 650kg",
      "[14:22:36] 移動開始: B1F→2F",
      "[14:22:40] 着床完了: 2F",
      "[14:22:42] 荷重: 0kg" ]
  }

  /** The length of a scenario, in seconds. */
  function ScenarioLength(s: Scenario): nat { s.duration }

  /** The length of a phase, in seconds. */
  function PhaseLength(p: PhaseSpan): nat { p.duration }

  /** The lengths of consecutive spans (scenarios or phases), in order. */
  function Durations<T>(xs: seq<T>, length: T -> nat): (ds: seq<nat>)
    ensures |ds| == |xs| && forall i :: 0 <= i < |xs| ==> ds[i] == length(xs[i])
  {
    seq(|xs|, i requires 0 <= i < |xs| => length(xs[i]))
  }

  /** The sum of the first `i` durations: where span `i` starts. */
  function Prefix(ds: seq<nat>, i: nat): nat
    requires i <= |ds|
  {
    if i == 0 then 0 else Prefix(ds, i - 1) + ds[i - 1]
  }

  /** Where span `i` ends. */
  function SpanEnd(ds: seq<nat>, i: nat): nat
    requires i < |ds|
  {
    Prefix(ds, i) + ds[i]
  }

  /** Time `t` measured from the start of span `i`. */
  function TimeInto(ds: seq<nat>, t: int, i: nat): int
    requires i <= |ds|
  {
    t - Fps * Prefix(ds, i)
  }

  /** Span `i` is the first whose end lies beyond time `t` (in frames): the one
      the `elapsed + duration > current` walk stops at. */
  ghost predicate FirstSpan(ds: seq<nat>, t: int, i: int) {
    && 0 <= i < |ds|
    && t < Fps * SpanEnd(ds, i)
    && forall j :: 0 <= j < i ==> Fps * SpanEnd(ds, j) <= t
  }

  /** Every span ends at or before `t`: the walk runs off the end. */
  ghost predicate PastAllSpans(ds: seq<nat>, t: int) {
    forall j :: 0 <= j < |ds| ==> Fps * SpanEnd(ds, j) <= t
  }

  /** The phase the inner walk picks at scenario time `t`, 'waiting' when none matches. */
  ghost predicate PhaseAt(ps: seq<PhaseSpan>, t: int, phase: Phase) {
    || (exists k :: FirstSpan(Durations(ps, PhaseLength), t, k) && ps[k].phase == phase)
    || (PastAllSpans(Durations(ps, PhaseLength), t) && phase == Waiting)
  }

  lemma {:induction false} PrefixMonotone(ds: seq<nat>, i: nat, j: nat)
    requires i <= j <= |ds|
    ensures Prefix(ds, i) <= Prefix(ds, j)
    decreases j
  {
    if i < j {
      PrefixMonotone(ds, i, j - 1);
    }
  }

  /** Any time before the end of the last span falls in a first span. */
  lemma {:induction false} FirstSpanExists(ds: seq<nat>, t: int, n: nat)
    requires n <= |ds| && 0 <= t < Fps * Prefix(ds, n)
    ensures exists i :: 0 <= i < n && FirstSpan(ds, t, i)
    decreases n
  {
    if t < Fps * Prefix(ds, n - 1) {
      FirstSpanExists(ds, t, n - 1);
    } else {
      forall j | 0 <= j < n - 1 ensures Fps * SpanEnd(ds, j) <= t {
        PrefixMonotone(ds, j + 1, n - 1);
      }
      assert FirstSpan(ds, t, n - 1);
    }
  }

  /** The inner loop of `_get_scenario_state`: the first phase whose cumulative
      end exceeds the scenario time, else 'waiting'. */
  method CurrentPhase(ps: seq<PhaseSpan>, t: nat) returns (phase: Phase)
    ensures PhaseAt(ps, t, phase)
  {
    ghost var ds := Durations(ps, PhaseLength);
    var phaseElapsed := 0;
    var k := 0;
    while k < |ps|
      invariant 0 <= k <= |ps|
      invariant phaseElapsed == Fps * Prefix(ds, k)
      invariant forall j :: 0 <= j < k ==> Fps * SpanEnd(ds, j) <= t
    {
      if phaseElapsed + Fps * ps[k].duration > t {
        assert FirstSpan(ds, t, k);
        return ps[k].phase;
      }
      phaseElapsed := phaseElapsed + Fps * ps[k].duration;
      k := k + 1;
    }
    return Waiting;
  }

  /** `_get_scenario_state(frame_num)`: the first scenario whose cumulative end
      lies beyond the current time, the time into it (so 0 <= scenario_time <
      duration) and its phase; past the end of all scenarios, the last scenario
      in phase 'idle' at scenario time 0. `total_time` is always the frame's time. */
  method GetScenarioState(ss: seq<Scenario>, frame: nat) returns (st: ScenarioState)
    requires |ss| > 0
    ensures st.totalTime == frame
    ensures
      || (exists i :: FirstSpan(Durations(ss, ScenarioLength), frame, i)
            && st.scenario == ss[i]
            && st.scenarioTime == TimeInto(Durations(ss, ScenarioLength), frame, i)
            && st.scenarioTime < Fps * ss[i].duration
            && PhaseAt(ss[i].phases, st.scenarioTime, st.phase))
      || (PastAllSpans(Durations(ss, ScenarioLength), frame)
            && st == ScenarioState(ss[|ss| - 1], Idle, 0, frame))
  {
    ghost var ds := Durations(ss, ScenarioLength);
    var elapsed := 0;
    var i := 0;
    while i < |ss|
      invariant 0 <= i <= |ss|
      invariant elapsed == Fps * Prefix(ds, i) && elapsed <= frame
      invariant forall j :: 0 <= j < i ==> Fps * SpanEnd(ds, j) <= frame
    {
      if elapsed + Fps * ss[i].duration > frame {
        var scenarioTime := frame - elapsed;
        var phase := CurrentPhase(ss[i].phases, scenarioTime);
        assert FirstSpan(ds, frame, i);
        return ScenarioState(ss[i], phase, scenarioTime, frame);
      }
      elapsed := elapsed + Fps * ss[i].duration;
      i := i + 1;
    }
    return ScenarioState(ss[|ss| - 1], Idle, 0, frame);
  }

  /** The timing table: the scenarios last 8 + 10 + 8 + 4 = 30 s, which is
      VIDEO_DURATION, and each scenario's phases add up to its duration. */
  lemma ScenarioTable()
    ensures Prefix(Durations(Scenarios(), ScenarioLength), |Scenarios()|) == VideoDuration
    ensures forall i :: 0 <= i < |Scenarios()| ==>
      Prefix(Durations(Scenarios()[i].phases, PhaseLength), |Scenarios()[i].phases|) == Scenarios()[i].duration
  {
    var ss := Scenarios();
    var ds := Durations(ss, ScenarioLength);
    assert ds == [8, 10, 8, 4];
    assert Prefix(ds, 1) == 8;
    assert Prefix(ds, 2) == 18;
    assert Prefix(ds, 3) == 26;
    assert Prefix(ds, 4) == 30;
    var ps0, ps1, ps2 := Durations(ss[0].phases, PhaseLength), Durations(ss[1].phases, PhaseLength), Durations(ss[2].phases, PhaseLength);
    assert Prefix(ps0, 1) == 2 && Prefix(ps0, 3) == 8;
    assert Prefix(ps1, 1) == 2 && Prefix(ps1, 3) == 10;
    assert Prefix(ps2, 1) == 2 && Prefix(ps2, 3) == 8;
    assert Prefix(Durations(ss[3].phases, PhaseLength), 1) == 4;
  }

  /** Every frame `generate_video` draws (0 .. TOTAL_FRAMES-1) lies inside some
      scenario, and inside that scenario inside some phase: neither the 'idle'
      fallback after the last scenario nor the 'waiting' default is reached. */
  lemma EveryFrameScheduled(frame: nat)
    requires frame < TotalFrames
    ensures !PastAllSpans(Durations(Scenarios(), ScenarioLength), frame)
    ensures exists i :: FirstSpan(Durations(Scenarios(), ScenarioLength), frame, i)
    ensures forall i :: FirstSpan(Durations(Scenarios(), ScenarioLength), frame, i) ==>
      exists k :: FirstSpan(Durations(Scenarios()[i].phases, PhaseLength), TimeInto(Durations(Scenarios(), ScenarioLength), frame, i), k)
  {
    var ss := Scenarios();
    var ds := Durations(ss, ScenarioLength);
    ScenarioTable();
    FirstSpanExists(ds, frame, |ss|);
    forall i | FirstSpan(ds, frame, i)
      ensures exists k :: FirstSpan(Durations(ss[i].phases, PhaseLength), TimeInto(ds, frame, i), k)
    {
      var ps := ss[i].phases;
      if i > 0 {
        assert Fps * SpanEnd(ds, i - 1) <= frame;
      }
      FirstSpanExists(Durations(ps, PhaseLength), TimeInto(ds, frame, i), |ps|);
    }
  }

  /** `_get_communication_logs`: the first min(len(logs), int(t / 3) + 1) lines,
      where t = frame / 30 seconds. */
  function GetCommunicationLogs(logs: seq<string>, frame: nat): (shown: seq<string>)
    ensures shown <= logs
    ensures |shown| == if |logs| < frame / (Fps * SecondsPerLog) + 1 then |logs|
                       else frame / (Fps * SecondsPerLog) + 1
    ensures logs != [] ==> shown != []
  {
    var count := frame / (Fps * SecondsPerLog) + 1;
    if |logs| < count then logs else logs[..count]
  }

  /** A later frame shows an extension of what an earlier frame shows. */
  lemma LogsGrow(logs: seq<string>, earlier: nat, later: nat)
    requires earlier <= later
    ensures GetCommunicationLogs(logs, earlier) <= GetCommunicationLogs(logs, later)
  {
    var a, b := GetCommunicationLogs(logs, earlier), GetCommunicationLogs(logs, later);
    assert earlier / (Fps * SecondsPerLog) <= later / (Fps * SecondsPerLog);
    assert a == logs[..|a|] && b == logs[..|b|];
  }

  /** `logs[-8:]`: the newest (at most) eight lines. */
  function LastLogs(logs: seq<string>): (shown: seq<string>)
    ensures |shown| == if |logs| < DisplayedLogs then |logs| else DisplayedLogs
    ensures shown == logs[|logs| - |shown|..]
  {
    if |logs| <= DisplayedLogs then logs else logs[|logs| - DisplayedLogs..]
  }

  /** On the real log table: all ten lines are shown exactly from 27 s (frame
      810) on, and from then on the eight drawn are the ten minus the oldest two. */
  lemma AllLogsShown(frame: nat)
    ensures GetCommunicationLogs(CommunicationLogs(), frame) == CommunicationLogs()
            <==> frame >= 9 * Fps * SecondsPerLog
    ensures frame >= 9 * Fps * SecondsPerLog ==>
      LastLogs(GetCommunicationLogs(CommunicationLogs(), frame)) == CommunicationLogs()[2..]
  {
    var logs := CommunicationLogs();
    var shown := GetCommunicationLogs(logs, frame);
    if frame < 9 * Fps * SecondsPerLog {
      assert frame / (Fps * SecondsPerLog) < 9;
      assert |shown| < |logs|;
    } else {
      assert frame / (Fps * SecondsPerLog) >= 9;
      assert shown == logs;
    }
  }

  /** Python's rendering of a floor in an f-string; the idle scenario has no target. */
  function FloorText(floor: Option<string>): (text: string)
    ensures floor.Some? ==> text == floor.value
    ensures floor.None? ==> text == "None"
  {
    match floor
    case Some(f) => f
    case None => "None"
  }

  /** The status line of `generate_frame`, chosen by the phase alone. */
  function StatusText(s: Scenario, phase: Phase): (text: string)
    ensures phase == Moving ==> text == s.startFloor + " ⇒ " + FloorText(s.targetFloor)
    ensures phase == Arrived ==> text == "現在階: " + FloorText(s.targetFloor)
    ensures phase == Idle ==> text == "現在階: " + s.startFloor + " (待機中)"
    ensures phase == Waiting ==> text == "現在階: " + s.startFloor
  {
    match phase
    case Moving => s.startFloor + " ⇒ " + FloorText(s.targetFloor)
    case Arrived => "現在階: " + FloorText(s.targetFloor)
    case Idle => "現在階: " + s.startFloor + " (待機中)"
    case Waiting => "現在階: " + s.startFloor
  }

  /** Only scenarios with a target floor have a 'moving' or 'arrived' phase, so
      the status line of every scheduled phase shows a floor name and never `None`. */
  lemma TargetKnownWhenShown()
    ensures forall i, k :: 0 <= i < |Scenarios()| && 0 <= k < |Scenarios()[i].phases| ==>
      (Scenarios()[i].phases[k].phase == Moving || Scenarios()[i].phases[k].phase == Arrived) ==>
        Scenarios()[i].targetFloor.Some?
            && StatusText(Scenarios()[i], Scenarios()[i].phases[k].phase) != StatusText(Scenarios()[i].(targetFloor := None), Scenarios()[i].phases[k].phase)
  {
    var ss := Scenarios();
    forall i, k | 0 <= i < |ss| && 0 <= k < |ss[i].phases| && (ss[i].phases[k].phase == Moving || ss[i].phases[k].phase == Arrived)
      ensures ss[i].targetFloor.Some?
      ensures StatusText(ss[i], ss[i].phases[k].phase) != StatusText(ss[i].(targetFloor := None), ss[i].phases[k].phase)
    {
      assert i < 3;
    }
  }
}
