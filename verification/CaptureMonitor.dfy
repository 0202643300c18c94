/** The monitor of a captured engine process: two readers, a throttled auth probe, a hard
    timeout and an early exit after idle time, interleaved at the points where the coroutines
    give way. */
module CaptureMonitor {
  import opened PyText

  const INTERVAL := 0.1
  const THROTTLE := 1.5

  /** The run's settings: whether auth detection has an engine, the hard timeout and the idle
      grace, and the clock when the capture began. */
  datatype Config = Config(engine: bool, timeout: real, grace: real, begin: real) {
    predicate Valid() { timeout > 0.0 && grace > 0.0 }
  }

  /** What a parse of the recent output yields: no signal, or one that is high-confidence or
      not. */
  datatype Signal = NoSignal | LowSignal | HighSignal

  /** Where the capture coroutine stands. */
  datatype Place = Starting | AtTop | Sleeping(from: real) | Terminating | Closing | Waiting | Gathering | Done

  datatype State = State(
    place: Place,
    clock: real,
    started: real,
    lastOutput: real,
    lastProbe: real,
    dirty: bool,
    signal: Signal,
    armed: bool,
    exitCode: Option<int>,
    readerFailed: bool,
    outputFailed: bool,
    timedOut: bool,
    loopTimedOut: bool,
    earlyExit: bool)

  function Init(c: Config): State {
    State(Starting, c.begin, c.begin, c.begin, 0.0, false, NoSignal, false, None, false, false, false, false, false)
  }

  /** One atomic step. Times are readings of the monotonic clock; `seen` is what a parse would
      yield at that moment. */
  datatype Event =
    | Start(now: real)
    | Chunk(now: real)
    | Publish
    | ReaderProbe(now: real, seen: Signal)
    | ReaderFails
    | Exits(code: int)
    | Pass(now: real, seen: Signal, later: real)
    | Wake(now: real)
    | Terminated(now: real)
    | ForcedProbe(now: real, seen: Signal)
    | WaitExpires
    | Collected

  // ---------------------------------------------------------------------------------------
  // The probe

  /** The probe goes on to parse. */
  predicate Parses(c: Config, s: State, now: real, force: bool) {
    c.engine && (force || (now - s.lastProbe >= THROTTLE && s.dirty))
  }

  /** `_probe_auth_detection`. It runs without giving way, so its lock is always free. */
  function Probed(c: Config, s: State, now: real, force: bool, seen: Signal): State {
    if !Parses(c, s, now, force) then s.(clock := now)
    else s.(
      clock := now, lastProbe := now, dirty := false,
      signal := if seen != NoSignal then seen else s.signal,
      armed := s.armed || seen == HighSignal)
  }

  // ---------------------------------------------------------------------------------------
  // The steps

  predicate ReadersRun(s: State) { s.place != Done }

  /** One pass of the monitor loop, from its top to its sleep or its exit. */
  function Passed(c: Config, s: State, e: Event): State
    requires e.Pass?
  {
    if s.exitCode.Some? then s.(place := Closing)
    else if s.readerFailed then s.(outputFailed := true, place := Terminating)
    else Decided(c, Probed(c, s, e.now, false, e.seen).(clock := e.later))
  }

  /** What the loop decides once it has probed: time is up, time to exit early, or sleep. */
  function Decided(c: Config, s: State): State {
    if s.clock - s.started >= c.timeout then s.(timedOut := true, loopTimedOut := true, place := Terminating)
    else if s.armed && s.signal != NoSignal && s.clock - s.lastOutput >= c.grace then
      s.(earlyExit := true, place := Terminating)
    else s.(place := Sleeping(s.clock))
  }

  /** The state after an event, if it can happen. */
  function Next(c: Config, s: State, e: Event): Option<State> {
    match e
    case Start(now) =>
      if s.place == Starting && now >= s.clock then Some(s.(clock := now, started := now, place := AtTop)) else None
    case Chunk(now) =>
      if ReadersRun(s) && now >= s.clock then Some(s.(clock := now, lastOutput := now)) else None
    case Publish => if ReadersRun(s) then Some(s.(dirty := true)) else None
    case ReaderProbe(now, seen) =>
      if ReadersRun(s) && now >= s.clock then Some(Probed(c, s, now, false, seen)) else None
    case ReaderFails => if ReadersRun(s) then Some(s.(readerFailed := true)) else None
    case Exits(code) =>
      if s.exitCode.None? then Some(s.(exitCode := Some(code), place := if s.place == Waiting then Gathering else s.place))
      else None
    case Pass(now, seen, later) =>
      if s.place == AtTop && s.clock <= now <= later then Some(Passed(c, s, e)) else None
    case Wake(now) =>
      if s.place.Sleeping? && now >= s.clock && now >= s.place.from + INTERVAL then Some(s.(clock := now, place := AtTop)) else None
    case Terminated(now) =>
      if s.place == Terminating && now >= s.clock then Some(s.(clock := now, place := Closing)) else None
    case ForcedProbe(now, seen) =>
      if s.place == Closing && now >= s.clock then
        Some(Probed(c, s, now, true, seen).(place := if s.exitCode.None? then Waiting else Gathering))
      else None
    case WaitExpires => if s.place == Waiting then Some(s.(timedOut := true, place := Gathering)) else None
    case Collected => if s.place == Gathering then Some(s.(place := Done)) else None
  }

  /** The state a run leads to, if every event of it can happen in its turn. */
  function Reach(c: Config, events: seq<Event>): Option<State> {
    if events == [] then Some(Init(c))
    else
      match Reach(c, events[..|events| - 1])
      case None => None
      case Some(s) => Next(c, s, events[|events| - 1])
  }

  /** The failure reason the base monitor settles on; the engine's own hook decides the rest. */
  datatype Reason = AuthRequired | OutputRedactionFailed | Timeout | EngineHook

  function FailureReason(s: State): Reason {
    var returncode := if s.exitCode.Some? then s.exitCode.value else 1;
    if s.earlyExit then AuthRequired
    else if s.outputFailed then OutputRedactionFailed
    else if s.signal == HighSignal && returncode != 0 then AuthRequired
    else if s.timedOut then Timeout
    else EngineHook
  }

  /** The shared variables of `_capture_process_output`, updated in place. */
  class Capture {
    const config: Config
    var state: State

    constructor (config: Config)
      ensures this.config == config && state == Init(config)
    {
      this.config := config;
      this.state := Init(config);
    }

    /** `_probe_auth_detection`. */
    method ProbeAuthDetection(now: real, force: bool, seen: Signal)
      modifies this
      ensures state == Probed(config, old(state), now, force, seen)
    {
      state := state.(clock := now);
      if !config.engine {
        return;
      }
      if !force && now - state.lastProbe < THROTTLE {
        return;
      }
      if !force && !state.dirty {
        return;
      }
      var signal, armed := state.signal, state.armed;
      if seen != NoSignal {
        signal := seen;
      }
      if seen == HighSignal {
        armed := true;
      }
      state := state.(lastProbe := now, dirty := false, signal := signal, armed := armed);
    }

    /** The body of the monitor loop. */
    method MonitorPass(now: real, seen: Signal, later: real)
      modifies this
      ensures state == Passed(config, old(state), Pass(now, seen, later))
    {
      if state.exitCode.Some? {
        state := state.(place := Closing);
        return;
      }
      if state.readerFailed {
        state := state.(outputFailed := true, place := Terminating);
        return;
      }
      ProbeAuthDetection(now, false, seen);
      state := state.(clock := later);
      if later - state.started >= config.timeout {
        state := state.(timedOut := true, loopTimedOut := true, place := Terminating);
      } else if state.armed && state.signal != NoSignal && later - state.lastOutput >= config.grace {
        state := state.(earlyExit := true, place := Terminating);
      } else {
        state := state.(place := Sleeping(later));
      }
    }

    /** One event, if it can happen: a probe or a pass runs its code, the rest is what the
        readers, the process and the waits do to the variables. */
    method Take(e: Event) returns (possible: bool)
      modifies this
      ensures possible == Next(config, old(state), e).Some?
      ensures state == if possible then Next(config, old(state), e).value else old(state)
    {
      hide Probed, Passed;
      possible := Next(config, state, e).Some?;
      if !possible {
        return;
      }
      match e {
        case Pass(now, seen, later) => MonitorPass(now, seen, later);
        case ReaderProbe(now, seen) => ProbeAuthDetection(now, false, seen);
        case ForcedProbe(now, seen) =>
          ProbedPlace(config, state, now, seen);
          ProbeAuthDetection(now, true, seen);
          state := state.(place := if state.exitCode.None? then Waiting else Gathering);
        case _ => state := Next(config, state, e).value;
      }
    }

    /** A whole run, event by event. */
    method Drive(events: seq<Event>) returns (possible: bool)
      requires state == Init(config)
      modifies this
      ensures Reach(config, events) == if possible then Some(state) else None
    {
      hide Next;
      assert events[..0] == [];
      for k := 0 to |events|
        invariant Reach(config, events[..k]) == Some(state)
      {
        assert events[..k + 1][..k] == events[..k];
        possible := Take(events[k]);
        if !possible {
          StuckStays(config, events, k + 1);
          return;
        }
      }
      assert events[..|events|] == events;
      possible := true;
    }
  }

  lemma ProbedPlace(c: Config, s: State, now: real, seen: Signal)
    ensures Probed(c, s, now, true, seen).exitCode == s.exitCode
  {
  }

  lemma {:induction false} StuckStays(c: Config, events: seq<Event>, k: nat)
    requires k <= |events| && Reach(c, events[..k]).None?
    ensures Reach(c, events).None?
    decreases |events|
  {
    if k == |events| {
      assert events[..k] == events;
    } else {
      assert events[..|events| - 1][..k] == events[..k];
      StuckStays(c, events[..|events| - 1], k);
    }
  }

  // ---------------------------------------------------------------------------------------
  // Safety over every run

  function Last(events: seq<Event>): Event
    requires events != []
  {
    events[|events| - 1]
  }

  /** The run before its last event, and the state that event leads from. */
  lemma LastStep(c: Config, events: seq<Event>) returns (before: seq<Event>, s: State)
    requires Reach(c, events).Some? && events != []
    ensures before == events[..|events| - 1] && events == before + [Last(events)]
    ensures Reach(c, before) == Some(s) && Reach(c, events) == Next(c, s, Last(events))
  {
    hide Next;
    before := events[..|events| - 1];
    s := Reach(c, before).value;
  }

  /** The state before event `k` of a run that can happen. */
  lemma {:induction false} PrefixReached(c: Config, events: seq<Event>, k: nat)
    requires Reach(c, events).Some? && k <= |events|
    ensures Reach(c, events[..k]).Some?
    decreases |events|
  {
    if k == |events| {
      assert events[..k] == events;
    } else {
      assert events[..|events| - 1][..k] == events[..k];
      PrefixReached(c, events[..|events| - 1], k);
    }
  }

  predicate KeepsFlags(s: State, t: State) {
    && (s.armed ==> t.armed) && (s.earlyExit ==> t.earlyExit) && (s.outputFailed ==> t.outputFailed)
    && (s.loopTimedOut ==> t.loopTimedOut) && (s.timedOut ==> t.timedOut) && s.clock <= t.clock
  }

  /** What a probe leaves alone. */
  lemma ProbedKeeps(c: Config, s: State, now: real, force: bool, seen: Signal)
    ensures var p := Probed(c, s, now, force, seen);
      && p.clock == now && p.place == s.place && p.started == s.started && p.lastOutput == s.lastOutput
      && p.exitCode == s.exitCode && p.readerFailed == s.readerFailed && p.outputFailed == s.outputFailed
      && p.timedOut == s.timedOut && p.loopTimedOut == s.loopTimedOut && p.earlyExit == s.earlyExit
      && (s.armed ==> p.armed)
  {
  }

  /** What a probe records. */
  lemma ProbedRecords(c: Config, s: State, now: real, force: bool, seen: Signal)
    ensures var p, parsed := Probed(c, s, now, force, seen), Parses(c, s, now, force);
      && p.lastProbe == (if parsed then now else s.lastProbe)
      && p.signal == (if parsed && seen != NoSignal then seen else s.signal)
  {
    hide Parses;
  }

  /** What the decision leaves alone, and what it takes to exit early. */
  lemma DecidedKeeps(c: Config, s: State)
    ensures var d := Decided(c, s);
      && d.clock == s.clock && d.lastOutput == s.lastOutput && d.lastProbe == s.lastProbe
      && d.signal == s.signal && d.armed == s.armed
      && (d.earlyExit && !s.earlyExit ==> s.armed && s.clock - s.lastOutput >= c.grace)
  {
  }

  lemma PassKeepsFlags(c: Config, s: State, e: Event)
    requires e.Pass? && s.clock <= e.now <= e.later
    ensures KeepsFlags(s, Passed(c, s, e))
  {
    hide Probed;
    ProbedKeeps(c, s, e.now, false, e.seen);
  }

  lemma PassArms(c: Config, s: State, e: Event)
    requires e.Pass?
    ensures Arms(c, s, e, Passed(c, s, e))
  {
    hide Decided;
    DecidedKeeps(c, Probed(c, s, e.now, false, e.seen).(clock := e.later));
  }

  lemma PassTimes(c: Config, s: State, e: Event)
    requires e.Pass? && s.clock <= e.now <= e.later
    ensures s.clock <= Passed(c, s, e).clock && Passed(c, s, e).lastOutput == s.lastOutput
  {
    hide Probed, Decided;
    ProbedKeeps(c, s, e.now, false, e.seen);
    DecidedKeeps(c, Probed(c, s, e.now, false, e.seen).(clock := e.later));
  }

  lemma PassPassBudget(c: Config, s: State, e: Event, passes: nat)
    requires c.Valid() && e.Pass? && s.place == AtTop && s.clock <= e.now <= e.later && PassBudget(c, s, passes)
    ensures PassBudget(c, Passed(c, s, e), passes + 1)
  {
    hide Probed;
    ProbedKeeps(c, s, e.now, false, e.seen);
  }

  lemma PassParseBudget(c: Config, s: State, e: Event, parses: nat)
    requires e.Pass? && s.clock <= e.now <= e.later && ParseBudget(c, s, parses)
    ensures ParseBudget(c, Passed(c, s, e), parses + (if ParsesNow(c, s, e, false) then 1 else 0))
  {
    hide Decided;
    DecidedKeeps(c, Probed(c, s, e.now, false, e.seen).(clock := e.later));
  }

  /** Arming is never undone, and neither is any of the verdict flags. */
  lemma {:induction false} FlagsStay(c: Config, events: seq<Event>, k: nat)
    requires Reach(c, events).Some? && k <= |events|
    ensures Reach(c, events[..k]).Some?
    ensures KeepsFlags(Reach(c, events[..k]).value, Reach(c, events).value)
    decreases |events|
  {
    hide Reach, Next;
    if k == |events| {
      assert events[..k] == events;
    } else {
      var before, s := LastStep(c, events);
      assert before[..k] == events[..k];
      FlagsStay(c, before, k);
      StepKeepsFlags(c, s, Last(events));
    }
  }

  lemma StepKeepsFlags(c: Config, s: State, e: Event)
    requires Next(c, s, e).Some?
    ensures KeepsFlags(s, Next(c, s, e).value)
  {
    hide Passed;
    match e {
      case Pass(_, _, _) => PassKeepsFlags(c, s, e);
      case _ =>
    }
  }

  /** The readers go on publishing until the capture has collected them, and no longer. */
  lemma {:induction false} ReadersRunUntilCollected(c: Config, events: seq<Event>)
    requires Reach(c, events).Some?
    ensures Reach(c, events + [Publish]).Some? <==> Collected !in events
    ensures Reach(c, events).value.place == Done <==> Collected in events
    decreases |events|
  {
    hide Next;
    if events == [] {
      assert Reach(c, []).value.place == Starting;
    } else {
      var before, s := LastStep(c, events);
      ReadersRunUntilCollected(c, before);
      StepDone(c, s, Last(events));
      assert forall e :: e in events <==> e in before || e == Last(events);
    }
    PublishRuns(c, events);
  }

  lemma StepDone(c: Config, s: State, e: Event)
    requires Next(c, s, e).Some?
    ensures Next(c, s, e).value.place == Done <==> s.place == Done || e.Collected?
  {
    hide Probed;
    match e {
      case ReaderProbe(now, seen) => ProbedKeeps(c, s, now, false, seen);
      case Pass(now, seen, _) => ProbedKeeps(c, s, now, false, seen);
      case _ =>
    }
  }

  lemma PublishRuns(c: Config, events: seq<Event>)
    requires Reach(c, events).Some?
    ensures Reach(c, events + [Publish]).Some? <==> Reach(c, events).value.place != Done
  {
    assert (events + [Publish])[..|events|] == events;
  }

  /** The event is a probe that parsed the output and saw a high-confidence signal. */
  predicate ProbeSawHigh(c: Config, s: State, e: Event) {
    match e
    case ReaderProbe(now, seen) => seen == HighSignal && Parses(c, s, now, false)
    case ForcedProbe(now, seen) => seen == HighSignal && Parses(c, s, now, true)
    case Pass(now, seen, _) => seen == HighSignal && s.exitCode.None? && !s.readerFailed && Parses(c, s, now, false)
    case _ => false
  }

  /** Event `k` of the run is such a probe. */
  predicate SawHigh(c: Config, events: seq<Event>, k: nat) {
    k < |events| && Reach(c, events[..k]).Some? && ProbeSawHigh(c, Reach(c, events[..k]).value, events[k])
  }

  ghost predicate SomeSawHigh(c: Config, events: seq<Event>) {
    exists k: nat :: SawHigh(c, events, k)
  }

  lemma SawHighInLonger(c: Config, events: seq<Event>, e: Event)
    requires SomeSawHigh(c, events)
    ensures SomeSawHigh(c, events + [e])
  {
    var k: nat :| SawHigh(c, events, k);
    assert (events + [e])[..k] == events[..k];
    assert SawHigh(c, events + [e], k);
  }

  /** Arming, and every high-confidence signal held, goes back to a probe that saw one; and an
      armed capture holds a signal. */
  lemma {:induction false} ArmedBySomeProbe(c: Config, events: seq<Event>)
    requires Reach(c, events).Some?
    ensures var s := Reach(c, events).value;
      && (s.armed || s.signal == HighSignal ==> SomeSawHigh(c, events))
      && (s.armed ==> s.signal != NoSignal)
    decreases |events|
  {
    if events != [] {
      hide Reach, Next, SawHigh;
      var before, s := LastStep(c, events);
      ArmedBySomeProbe(c, before);
      StepArms(c, s, Last(events));
      if SomeSawHigh(c, before) {
        SawHighInLonger(c, before, Last(events));
      } else if ProbeSawHigh(c, s, Last(events)) {
        assert SawHigh(c, events, |events| - 1) by {
          LastSawHigh(c, events, s);
        }
      }
    }
  }

  lemma LastSawHigh(c: Config, events: seq<Event>, s: State)
    requires events != [] && Reach(c, events[..|events| - 1]) == Some(s) && ProbeSawHigh(c, s, Last(events))
    ensures SawHigh(c, events, |events| - 1)
  {
  }

  predicate Arms(c: Config, s: State, e: Event, t: State) {
    && (t.armed || t.signal == HighSignal ==> s.armed || s.signal == HighSignal || ProbeSawHigh(c, s, e))
    && ((s.armed ==> s.signal != NoSignal) ==> (t.armed ==> t.signal != NoSignal))
  }

  /** A step that arms, or records a high-confidence signal, is a probe that saw one. */
  lemma StepArms(c: Config, s: State, e: Event)
    requires Next(c, s, e).Some?
    ensures Arms(c, s, e, Next(c, s, e).value)
  {
    hide Passed;
    match e {
      case Pass(_, _, _) => PassArms(c, s, e);
      case _ =>
    }
  }

  lemma StepSawHigh(c: Config, s: State, e: Event)
    requires Next(c, s, e).Some? && ProbeSawHigh(c, s, e)
    ensures Next(c, s, e).value.armed
  {
  }

  /** A capture is armed exactly when some probe of the run so far has seen a high-confidence
      signal. */
  lemma ArmedExactly(c: Config, events: seq<Event>)
    requires Reach(c, events).Some?
    ensures Reach(c, events).value.armed <==> SomeSawHigh(c, events)
  {
    hide Next, ProbeSawHigh;
    ArmedBySomeProbe(c, events);
    if SomeSawHigh(c, events) {
      var k: nat :| SawHigh(c, events, k);
      PrefixReached(c, events, k + 1);
      assert events[..k + 1][..k] == events[..k];
      StepSawHigh(c, Reach(c, events[..k]).value, events[k]);
      FlagsStay(c, events, k + 1);
    }
  }

  /** The run's chunks before event `m` came no later than `t`. */
  predicate QuietSince(events: seq<Event>, m: nat, t: real) {
    m <= |events| && forall k :: 0 <= k < m && events[k].Chunk? ==> events[k].now <= t
  }

  lemma {:induction false} LastOutputIsLast(c: Config, events: seq<Event>)
    requires Reach(c, events).Some?
    ensures var s := Reach(c, events).value;
      c.begin <= s.lastOutput <= s.clock && QuietSince(events, |events|, s.lastOutput)
    decreases |events|
  {
    hide Next;
    if events != [] {
      var before, s := LastStep(c, events);
      LastOutputIsLast(c, before);
      StepTimes(c, s, Last(events));
      forall k | 0 <= k < |events| && events[k].Chunk? ensures events[k].now <= Reach(c, events).value.lastOutput {
        if k < |before| {
          assert before[k] == events[k];
        }
      }
    }
  }

  lemma {:induction false} LastOutputIsSome(c: Config, events: seq<Event>)
    requires Reach(c, events).Some?
    ensures var t := Reach(c, events).value.lastOutput;
      t == c.begin || exists k :: 0 <= k < |events| && events[k].Chunk? && events[k].now == t
    decreases |events|
  {
    hide Next;
    if events != [] {
      var before, s := LastStep(c, events);
      LastOutputIsSome(c, before);
      LastOutputIsLast(c, before);
      StepTimes(c, s, Last(events));
      if !Last(events).Chunk? && s.lastOutput != c.begin {
        var k :| 0 <= k < |before| && before[k].Chunk? && before[k].now == s.lastOutput;
        assert events[k] == before[k];
      }
    }
  }

  lemma StepTimes(c: Config, s: State, e: Event)
    requires Next(c, s, e).Some? && s.lastOutput <= s.clock
    ensures var t := Next(c, s, e).value;
      && s.clock <= t.clock && s.lastOutput <= t.lastOutput <= t.clock
      && (e.Chunk? ==> t.lastOutput == e.now) && (!e.Chunk? ==> t.lastOutput == s.lastOutput)
  {
    hide Passed;
    match e {
      case Pass(_, _, _) => PassTimes(c, s, e);
      case _ =>
    }
  }

  /** An early exit happened at a pass of the monitor: no chunk had come for the idle grace, and
      a probe, at the latest the one of that pass, had seen a high-confidence signal. */
  lemma {:induction false} EarlyExitIsJustified(c: Config, events: seq<Event>) returns (m: nat)
    requires c.Valid() && Reach(c, events).Some? && Reach(c, events).value.earlyExit
    ensures m < |events| && events[m].Pass?
    ensures QuietSince(events, m, events[m].later - c.grace) && c.begin <= events[m].later - c.grace
    ensures SomeSawHigh(c, events[..m + 1])
    decreases |events|
  {
    hide Next, SomeSawHigh;
    var before, s := LastStep(c, events);
    StepExitsEarly(c, s, Last(events));
    LastOutputIsLast(c, before);
    ArmedBySomeProbe(c, events);
    if s.earlyExit {
      m := EarlyExitIsJustified(c, before);
      assert before[..m + 1] == events[..m + 1];
    } else {
      m := |before|;
      assert events[..m + 1] == events;
    }
    forall k | 0 <= k < m && events[k].Chunk? ensures events[k].now <= events[m].later - c.grace {
      assert before[k] == events[k];
    }
  }

  lemma StepExitsEarly(c: Config, s: State, e: Event)
    requires Next(c, s, e).Some?
    ensures var t := Next(c, s, e).value;
      t.earlyExit && !s.earlyExit ==> e.Pass? && t.armed && e.later - s.lastOutput >= c.grace
  {
    hide Passed, Probed;
    match e {
      case Pass(_, _, _) => PassExitsEarly(c, s, e);
      case ReaderProbe(now, seen) => ProbedKeeps(c, s, now, false, seen);
      case ForcedProbe(now, seen) => ProbedKeeps(c, s, now, true, seen);
      case _ =>
    }
  }

  lemma PassExitsEarly(c: Config, s: State, e: Event)
    requires e.Pass?
    ensures var t := Passed(c, s, e); t.earlyExit && !s.earlyExit ==> t.armed && e.later - s.lastOutput >= c.grace
  {
    hide Probed, Decided;
    ProbedKeeps(c, s, e.now, false, e.seen);
    DecidedKeeps(c, Probed(c, s, e.now, false, e.seen).(clock := e.later));
  }

  /** The loop ends for one reason at most: a reader failed, the hard timeout, or the early
      exit; while it runs there is none yet. */
  lemma {:induction false} OneVerdict(c: Config, events: seq<Event>)
    requires Reach(c, events).Some?
    ensures var s := Reach(c, events).value;
      && !(s.outputFailed && s.loopTimedOut) && !(s.outputFailed && s.earlyExit) && !(s.loopTimedOut && s.earlyExit)
      && (InLoop(s) ==> NoVerdict(s))
    decreases |events|
  {
    hide Next;
    if events != [] {
      var before, s := LastStep(c, events);
      OneVerdict(c, before);
      StepVerdict(c, s, Last(events));
    }
  }

  predicate InLoop(s: State) { s.place.Starting? || s.place.AtTop? || s.place.Sleeping? }

  predicate NoVerdict(s: State) { !s.outputFailed && !s.loopTimedOut && !s.earlyExit && !s.timedOut }

  lemma StepVerdict(c: Config, s: State, e: Event)
    requires Next(c, s, e).Some?
    ensures var t := Next(c, s, e).value;
      if e.Pass? then
        s.place == AtTop && (NoVerdict(s) ==>
          !(t.outputFailed && t.loopTimedOut) && !(t.outputFailed && t.earlyExit) && !(t.loopTimedOut && t.earlyExit)
          && (InLoop(t) ==> NoVerdict(t)))
      else
        t.outputFailed == s.outputFailed && t.loopTimedOut == s.loopTimedOut && t.earlyExit == s.earlyExit
        && (InLoop(t) ==> InLoop(s) && t.timedOut == s.timedOut)
  {
  }

  /** The base monitor reports AUTH_REQUIRED only in runs where a probe recorded a
      high-confidence signal. */
  lemma AuthRequiredIsJustified(c: Config, events: seq<Event>)
    requires Reach(c, events).Some? && FailureReason(Reach(c, events).value) == AuthRequired
    ensures SomeSawHigh(c, events)
  {
    ArmedBySomeProbe(c, events);
    if Reach(c, events).value.earlyExit {
      EarlyExitArmed(c, events);
    }
  }

  lemma {:induction false} EarlyExitArmed(c: Config, events: seq<Event>)
    requires Reach(c, events).Some? && Reach(c, events).value.earlyExit
    ensures Reach(c, events).value.armed
    decreases |events|
  {
    hide Next;
    var before, s := LastStep(c, events);
    StepExitsEarly(c, s, Last(events));
    StepKeepsFlags(c, s, Last(events));
    if s.earlyExit {
      EarlyExitArmed(c, before);
    }
  }

  /** At a pass over a live process whose readers work and whose time is not up, the monitor
      exits early exactly when a probe has seen a high-confidence signal and no chunk has come
      for the idle grace. */
  lemma EarlyExitExactly(c: Config, events: seq<Event>, e: Event)
    requires c.Valid() && Reach(c, events).Some? && e.Pass? && Next(c, Reach(c, events).value, e).Some?
    requires var s := Reach(c, events).value;
      s.exitCode.None? && !s.readerFailed && e.later - s.started < c.timeout
    ensures Reach(c, events + [e]) == Next(c, Reach(c, events).value, e)
    ensures Reach(c, events + [e]).value.earlyExit <==>
      SomeSawHigh(c, events + [e]) && c.begin <= e.later - c.grace && QuietSince(events, |events|, e.later - c.grace)
  {
    hide SomeSawHigh;
    var s := Reach(c, events).value;
    assert (events + [e])[..|events|] == events;
    OneVerdict(c, events);
    ArmedExactly(c, events + [e]);
    ArmedBySomeProbe(c, events + [e]);
    LastOutputIsLast(c, events);
    LastOutputIsSome(c, events);
    PassDecides(c, s, e);
  }

  lemma PassDecides(c: Config, s: State, e: Event)
    requires e.Pass? && s.exitCode.None? && !s.readerFailed && e.later - s.started < c.timeout && !s.earlyExit
    ensures var t := Passed(c, s, e);
      t.earlyExit <==> t.armed && t.signal != NoSignal && e.later - s.lastOutput >= c.grace
  {
  }

  /** What the last parse of the run that found a signal saw. */
  function LastSeen(c: Config, events: seq<Event>): Signal {
    if events == [] then NoSignal
    else
      var before, e := events[..|events| - 1], Last(events);
      if Reach(c, before).Some? && Seen(c, Reach(c, before).value, e) != NoSignal then Seen(c, Reach(c, before).value, e)
      else LastSeen(c, before)
  }

  /** The signal an event's probe finds, if it parses. */
  function Seen(c: Config, s: State, e: Event): Signal {
    match e
    case ReaderProbe(now, seen) => if Parses(c, s, now, false) then seen else NoSignal
    case ForcedProbe(now, seen) => if Parses(c, s, now, true) then seen else NoSignal
    case Pass(now, seen, _) =>
      if s.exitCode.None? && !s.readerFailed && Parses(c, s, now, false) then seen else NoSignal
    case _ => NoSignal
  }

  lemma PassSeen(c: Config, s: State, e: Event)
    requires e.Pass?
    ensures Passed(c, s, e).signal == if Seen(c, s, e) != NoSignal then Seen(c, s, e) else s.signal
  {
    hide Decided, Probed, Parses;
    if s.exitCode.None? && !s.readerFailed {
      var p := Probed(c, s, e.now, false, e.seen);
      ProbedRecords(c, s, e.now, false, e.seen);
      DecidedSignal(c, p.(clock := e.later));
    }
  }

  lemma DecidedSignal(c: Config, s: State)
    ensures Decided(c, s).signal == s.signal
  {
  }

  lemma StepSeen(c: Config, s: State, e: Event)
    requires Next(c, s, e).Some?
    ensures Next(c, s, e).value.signal == if Seen(c, s, e) != NoSignal then Seen(c, s, e) else s.signal
  {
    hide Passed, Probed, Parses;
    match e {
      case Pass(_, _, _) => PassSeen(c, s, e);
      case ReaderProbe(now, seen) => ProbedRecords(c, s, now, false, seen);
      case ForcedProbe(now, seen) => ProbedRecords(c, s, now, true, seen);
      case _ =>
    }
  }

  lemma {:induction false} SignalIsLastSeen(c: Config, events: seq<Event>)
    requires Reach(c, events).Some?
    ensures Reach(c, events).value.signal == LastSeen(c, events)
    decreases |events|
  {
    hide Next, Seen;
    if events != [] {
      var before, s := LastStep(c, events);
      SignalIsLastSeen(c, before);
      StepSeen(c, s, Last(events));
    }
  }

  // ---------------------------------------------------------------------------------------
  // Bounds over every run

  function Passes(events: seq<Event>): nat {
    if events == [] then 0 else Passes(events[..|events| - 1]) + (if Last(events).Pass? then 1 else 0)
  }

  /** Parses by unforced probes, and by the forced one. */
  function UnforcedParses(c: Config, events: seq<Event>): nat {
    if events == [] then 0
    else
      var before := events[..|events| - 1];
      UnforcedParses(c, before) + (if Reach(c, before).Some? && ParsesNow(c, Reach(c, before).value, Last(events), false) then 1 else 0)
  }

  function ForcedParses(c: Config, events: seq<Event>): nat {
    if events == [] then 0
    else
      var before := events[..|events| - 1];
      ForcedParses(c, before) + (if Reach(c, before).Some? && ParsesNow(c, Reach(c, before).value, Last(events), true) then 1 else 0)
  }

  predicate ParsesNow(c: Config, s: State, e: Event, force: bool) {
    match e
    case ReaderProbe(now, _) => !force && Parses(c, s, now, false)
    case Pass(now, _, _) => !force && s.exitCode.None? && !s.readerFailed && Parses(c, s, now, false)
    case ForcedProbe(now, _) => force && Parses(c, s, now, true)
    case _ => false
  }

  /** How many passes a state allows: they are an interval apart, and all but the last began
      before the timeout. */
  predicate PassBudget(c: Config, s: State, passes: nat) {
    var n := passes as real;
    match s.place
    case Starting => passes == 0
    case AtTop => n * INTERVAL <= s.clock - s.started && (passes > 0 ==> (n - 1.0) * INTERVAL < c.timeout)
    case Sleeping(from) =>
      from <= s.clock && passes >= 1 && (n - 1.0) * INTERVAL <= from - s.started && from - s.started < c.timeout
    case _ => passes <= 1 || (n - 2.0) * INTERVAL < c.timeout
  }

  lemma StepPassBudget(c: Config, s: State, e: Event, passes: nat)
    requires c.Valid() && Next(c, s, e).Some? && PassBudget(c, s, passes)
    ensures PassBudget(c, Next(c, s, e).value, passes + (if e.Pass? then 1 else 0))
  {
    hide Passed;
    match e {
      case Pass(_, _, _) => PassPassBudget(c, s, e, passes);
      case _ =>
    }
  }

  lemma {:induction false} PassesAreSpaced(c: Config, events: seq<Event>)
    requires c.Valid() && Reach(c, events).Some?
    ensures PassBudget(c, Reach(c, events).value, Passes(events))
    decreases |events|
  {
    hide Next;
    if events != [] {
      var before, s := LastStep(c, events);
      PassesAreSpaced(c, before);
      StepPassBudget(c, s, Last(events), Passes(before));
    }
  }

  /** The loop makes fewer than timeout / interval + 2 passes. */
  lemma LoopIsBounded(c: Config, events: seq<Event>)
    requires c.Valid() && Reach(c, events).Some?
    ensures Passes(events) as real < c.timeout / 0.1 + 2.0
  {
    PassesAreSpaced(c, events);
  }

  /** The reading of the clock a probe throttles by. */
  function ProbeTime(e: Event): real {
    match e
    case ReaderProbe(now, _) => now
    case Pass(now, _, _) => now
    case ForcedProbe(now, _) => now
    case _ => 0.0
  }

  /** Event `k` of the run is an unforced probe that goes on to parse. */
  predicate ParsesAt(c: Config, events: seq<Event>, k: nat) {
    k < |events| && Reach(c, events[..k]).Some? && ParsesNow(c, Reach(c, events[..k]).value, events[k], false)
  }

  lemma PassKeepsProbe(c: Config, s: State, e: Event, t: real)
    requires e.Pass? && s.clock <= e.now <= e.later && t <= s.lastProbe <= s.clock
    ensures t <= Passed(c, s, e).lastProbe <= Passed(c, s, e).clock
  {
    hide Decided, Probed, Parses;
    ProbedKeeps(c, s, e.now, false, e.seen);
    ProbedRecords(c, s, e.now, false, e.seen);
    DecidedKeeps(c, Probed(c, s, e.now, false, e.seen).(clock := e.later));
  }

  /** The time of the last probe never falls back. */
  lemma StepKeepsProbe(c: Config, s: State, e: Event, t: real)
    requires Next(c, s, e).Some? && t <= s.lastProbe <= s.clock
    ensures t <= Next(c, s, e).value.lastProbe <= Next(c, s, e).value.clock
  {
    hide Passed;
    match e {
      case Pass(_, _, _) => PassKeepsProbe(c, s, e, t);
      case _ =>
    }
  }

  /** A parse leaves its own time. */
  lemma ParseLeavesTime(c: Config, s: State, e: Event)
    requires Next(c, s, e).Some? && ParsesNow(c, s, e, false)
    ensures Next(c, s, e).value.lastProbe == ProbeTime(e) <= Next(c, s, e).value.clock
  {
    hide Decided;
    if e.Pass? {
      DecidedKeeps(c, Probed(c, s, e.now, false, e.seen).(clock := e.later));
    }
  }

  lemma {:induction false} ProbedSince(c: Config, events: seq<Event>, j: nat)
    requires Reach(c, events).Some? && ParsesAt(c, events, j)
    ensures ProbeTime(events[j]) <= Reach(c, events).value.lastProbe <= Reach(c, events).value.clock
    decreases |events|
  {
    hide Next, ParsesNow, ProbeTime;
    var before, s := LastStep(c, events);
    if j == |before| {
      ParseLeavesTime(c, s, events[j]);
    } else {
      assert before[..j] == events[..j] && before[j] == events[j];
      ProbedSince(c, before, j);
      StepKeepsProbe(c, s, Last(events), ProbeTime(events[j]));
    }
  }

  /** Any two unforced probes of a run that parse are at least the throttle apart, whatever
      came between them. */
  lemma ParsesAreSpaced(c: Config, events: seq<Event>, j: nat, k: nat)
    requires Reach(c, events).Some? && j < k && ParsesAt(c, events, j) && ParsesAt(c, events, k)
    ensures ProbeTime(events[k]) - ProbeTime(events[j]) >= 1.5
  {
    var before := events[..k];
    assert before[..j] == events[..j] && before[j] == events[j];
    ProbedSince(c, before, j);
  }

  /** So many unforced parses need so much time. */
  predicate ParseBudget(c: Config, s: State, parses: nat) {
    c.begin <= s.clock
    && (parses > 0 ==> c.begin + (parses as real - 1.0) * THROTTLE <= s.lastProbe <= s.clock)
  }

  lemma StepParseBudget(c: Config, s: State, e: Event, parses: nat)
    requires Next(c, s, e).Some? && ParseBudget(c, s, parses)
    ensures ParseBudget(c, Next(c, s, e).value, parses + (if ParsesNow(c, s, e, false) then 1 else 0))
  {
    hide Passed;
    match e {
      case Pass(_, _, _) => PassParseBudget(c, s, e, parses);
      case _ =>
    }
  }

  lemma {:induction false} ParsesFitBudget(c: Config, events: seq<Event>)
    requires Reach(c, events).Some?
    ensures ParseBudget(c, Reach(c, events).value, UnforcedParses(c, events))
    decreases |events|
  {
    hide Next, ParsesNow;
    if events != [] {
      var before, s := LastStep(c, events);
      ParsesFitBudget(c, before);
      StepParseBudget(c, s, Last(events), UnforcedParses(c, before));
    }
  }

  predicate AfterForced(s: State) { s.place.Waiting? || s.place.Gathering? || s.place.Done? }

  lemma StepForced(c: Config, s: State, e: Event)
    requires Next(c, s, e).Some?
    ensures AfterForced(s) ==> AfterForced(Next(c, s, e).value) && !e.ForcedProbe?
    ensures e.ForcedProbe? ==> AfterForced(Next(c, s, e).value)
  {
    hide Passed, Probed;
    match e {
      case ReaderProbe(now, seen) => ProbedKeeps(c, s, now, false, seen);
      case _ =>
    }
  }

  lemma {:induction false} ForcedOnce(c: Config, events: seq<Event>)
    requires Reach(c, events).Some?
    ensures ForcedParses(c, events) <= 1 && (!AfterForced(Reach(c, events).value) ==> ForcedParses(c, events) == 0)
    decreases |events|
  {
    hide Next, AfterForced;
    if events != [] {
      var before, s := LastStep(c, events);
      ForcedOnce(c, before);
      StepForced(c, s, Last(events));
    }
  }

  /** A run of length T parses the output at most floor(T / 1.5) + 1 times, plus once forced. */
  lemma ParsesAreBounded(c: Config, events: seq<Event>)
    requires Reach(c, events).Some?
    ensures var length := Reach(c, events).value.clock - c.begin;
      UnforcedParses(c, events) <= (length / 1.5).Floor + 1 && ForcedParses(c, events) <= 1
  {
    ParsesFitBudget(c, events);
    ForcedOnce(c, events);
    var length := Reach(c, events).value.clock - c.begin;
    var n := UnforcedParses(c, events);
    if n > 0 {
      assert (n - 1) as real <= length / THROTTLE;
    }
  }
}
