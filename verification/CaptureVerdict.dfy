/** What a capture reports, told by the events of its run alone: which probes parse, what the
    monitor decides, and which failure reason follows. */
module CaptureVerdict {
  import opened PyText
  import opened CaptureMonitor

  // ---------------------------------------------------------------------------------------
  // The story of a run, up to event `k`

  predicate Exited(events: seq<Event>, k: nat)
    requires k <= |events|
  {
    exists j :: 0 <= j < k && events[j].Exits?
  }

  predicate ReaderFailed(events: seq<Event>, k: nat)
    requires k <= |events|
  {
    exists j :: 0 <= j < k && events[j].ReaderFails?
  }

  /** The process lives and its readers work. */
  predicate Running(events: seq<Event>, k: nat)
    requires k <= |events|
  {
    !Exited(events, k) && !ReaderFailed(events, k)
  }

  /** Event `k` is a probe that goes on to parse: the forced one always, any other one if at least
      1.5 seconds have passed since the parse before it and a reader has published something since
      then. A pass probes only while the process runs. */
  predicate Parsed(c: Config, events: seq<Event>, k: nat)
    requires k < |events|
    decreases k, 3
  {
    c.engine
    && match events[k]
       case ReaderProbe(now, _) => Due(c, events, k, now)
       case Pass(now, _, _) => Running(events, k) && Due(c, events, k, now)
       case ForcedProbe(_, _) => true
       case _ => false
  }

  predicate Due(c: Config, events: seq<Event>, k: nat, now: real)
    requires k < |events|
    decreases k, 2
  {
    && (forall j :: 0 <= j < k && Parsed(c, events, j) ==> now - ProbeTime(events[j]) >= 1.5)
    && ((forall j :: 0 <= j < k ==> !Parsed(c, events, j)) ==> now >= 1.5)
    && SomeFresh(c, events, k)
  }

  /** Something was published and not parsed before `k`. */
  predicate SomeFresh(c: Config, events: seq<Event>, k: nat)
    requires k <= |events|
    decreases k, 1
  {
    exists p :: 0 <= p < k && events[p].Publish? && NoParse(c, events, p + 1, k)
  }

  predicate NoParse(c: Config, events: seq<Event>, i: nat, k: nat)
    requires i <= k <= |events|
    decreases k, 0
  {
    forall j :: i <= j < k ==> !Parsed(c, events, j)
  }

  /** What the parse at event `k` sees, if there is one. */
  function Sees(c: Config, events: seq<Event>, k: nat): Signal
    requires k < |events|
  {
    if !Parsed(c, events, k) then NoSignal
    else match events[k]
      case ReaderProbe(_, seen) => seen
      case Pass(_, seen, _) => seen
      case ForcedProbe(_, seen) => seen
      case _ => NoSignal
  }

  predicate Armed(c: Config, events: seq<Event>, k: nat)
    requires k <= |events|
  {
    exists j :: 0 <= j < k && Sees(c, events, j) == HighSignal
  }

  /** The last parse that saw any signal saw a high-confidence one. */
  predicate LastSawHigh(c: Config, events: seq<Event>, k: nat)
    requires k <= |events|
  {
    exists j :: 0 <= j < k && Sees(c, events, j) == HighSignal && forall m :: j < m < k ==> Sees(c, events, m) == NoSignal
  }

  /** Event `k` is a pass that finds a reader failed while the process lives ... */
  predicate FindsFailure(events: seq<Event>, k: nat)
    requires k < |events|
  {
    events[k].Pass? && !Exited(events, k) && ReaderFailed(events, k)
  }

  /** ... or the time up ... */
  predicate FindsTimeUp(c: Config, events: seq<Event>, k: nat)
    requires k < |events|
  {
    events[k].Pass? && Running(events, k) && forall j :: 0 <= j < k && events[j].Start? ==> events[k].later - events[j].now >= c.timeout
  }

  /** ... or, with time left, a probe that saw a high-confidence signal, and no chunk for the idle
      grace. */
  predicate FindsIdleAuth(c: Config, events: seq<Event>, k: nat)
    requires k < |events|
  {
    && events[k].Pass? && Running(events, k) && !FindsTimeUp(c, events, k) && Armed(c, events, k + 1)
    && c.begin <= events[k].later - c.grace
    && forall j :: 0 <= j < k && events[j].Chunk? ==> events[j].now <= events[k].later - c.grace
  }

  // ---------------------------------------------------------------------------------------
  // The state tells the story

  function StateAt(c: Config, events: seq<Event>, k: nat): State
    requires k <= |events| && Reach(c, events[..k]).Some?
  {
    Reach(c, events[..k]).value
  }

  lemma StepAt(c: Config, events: seq<Event>, k: nat)
    requires k < |events| && Reach(c, events).Some?
    ensures Reach(c, events[..k]).Some? && Reach(c, events[..k + 1]).Some?
    ensures Next(c, StateAt(c, events, k), events[k]) == Some(StateAt(c, events, k + 1))
  {
    hide Next;
    PrefixReached(c, events, k);
    PrefixReached(c, events, k + 1);
    assert events[..k + 1][..k] == events[..k];
  }

  lemma InitAt(c: Config, events: seq<Event>)
    ensures Reach(c, events[..0]) == Some(Init(c))
  {
    assert events[..0] == [];
  }

  /** What an event does to what is known of the process and the readers. */
  lemma StepRuns(c: Config, s: State, e: Event)
    requires Next(c, s, e).Some?
    ensures var t := Next(c, s, e).value;
      && t.exitCode == (if e.Exits? then Some(e.code) else s.exitCode) && (e.Exits? ==> s.exitCode.None?)
      && (t.readerFailed <==> s.readerFailed || e.ReaderFails?)
      && t.started == (if e.Start? then e.now else s.started)
      && (e.Start? ==> s.place == Starting) && (t.place == Starting <==> s.place == Starting && !e.Start?)
      && (e.Pass? ==> s.place == AtTop)
  {
    hide Passed, Probed;
    match e {
      case Pass(_, _, _) => PassRuns(c, s, e);
      case ReaderProbe(now, seen) => ProbedKeeps(c, s, now, false, seen);
      case ForcedProbe(now, seen) => ProbedKeeps(c, s, now, true, seen);
      case _ =>
    }
  }

  lemma PassRuns(c: Config, s: State, e: Event)
    requires e.Pass?
    ensures var t := Passed(c, s, e);
      t.exitCode == s.exitCode && t.readerFailed == s.readerFailed && t.started == s.started && t.place != Starting
  {
    hide Probed;
    ProbedKeeps(c, s, e.now, false, e.seen);
  }

  ghost predicate Runs(events: seq<Event>, k: nat, s: State)
    requires k <= |events|
  {
    && (s.exitCode.Some? <==> Exited(events, k))
    && (forall j :: 0 <= j < k && events[j].Exits? ==> s.exitCode == Some(events[j].code))
    && (s.readerFailed <==> ReaderFailed(events, k))
    && (s.place == Starting <==> forall j :: 0 <= j < k ==> !events[j].Start?)
    && (forall j :: 0 <= j < k && events[j].Start? ==> events[j].now == s.started)
  }

  lemma RunsStep(c: Config, events: seq<Event>, k: nat, s: State, t: State)
    requires k < |events| && Next(c, s, events[k]) == Some(t) && Runs(events, k, s)
    ensures Runs(events, k + 1, t)
  {
    hide Next;
    StepRuns(c, s, events[k]);
  }

  lemma {:induction false} RunsAt(c: Config, events: seq<Event>, k: nat)
    requires Reach(c, events).Some? && k <= |events|
    ensures Reach(c, events[..k]).Some? && Runs(events, k, StateAt(c, events, k))
    decreases k
  {
    hide Next, Runs;
    PrefixReached(c, events, k);
    if k == 0 {
      InitAt(c, events);
      NothingRuns(c, events);
    } else {
      RunsAt(c, events, k - 1);
      StepAt(c, events, k - 1);
      RunsStep(c, events, k - 1, StateAt(c, events, k - 1), StateAt(c, events, k));
    }
  }

  lemma NothingRuns(c: Config, events: seq<Event>)
    ensures Runs(events, 0, Init(c))
  {
  }

  // ---------------------------------------------------------------------------------------
  // Parses

  /** The event parses in this state. */
  predicate ParsesIn(c: Config, s: State, e: Event) {
    ParsesNow(c, s, e, false) || ParsesNow(c, s, e, true)
  }

  /** What an event does to what the probes know. */
  lemma StepProbes(c: Config, s: State, e: Event)
    requires Next(c, s, e).Some?
    ensures var t := Next(c, s, e).value;
      var parsed := ParsesIn(c, s, e);
      && t.lastProbe == (if parsed then ProbeTime(e) else s.lastProbe)
      && t.dirty == (if parsed then false else s.dirty || e.Publish?)
      && s.clock <= t.clock && (parsed ==> s.clock <= ProbeTime(e) <= t.clock)
  {
    hide Decided;
    if e.Pass? {
      PassProbes(c, s, e);
    }
  }

  lemma PassProbes(c: Config, s: State, e: Event)
    requires e.Pass? && s.clock <= e.now <= e.later
    ensures var t := Passed(c, s, e);
      var parsed := s.exitCode.None? && !s.readerFailed && Parses(c, s, e.now, false);
      t.lastProbe == (if parsed then e.now else s.lastProbe) && t.dirty == (if parsed then false else s.dirty)
      && (parsed ==> t.clock == e.later) && s.clock <= t.clock
  {
    hide Decided, Parses, Probed;
    if s.exitCode.None? && !s.readerFailed {
      var p := Probed(c, s, e.now, false, e.seen).(clock := e.later);
      assert Passed(c, s, e) == Decided(c, p);
      hide Passed;
      ProbedKeeps(c, s, e.now, false, e.seen);
      ProbedRecords(c, s, e.now, false, e.seen);
      ProbedDirty(c, s, e.now, false, e.seen);
      DecidedKeeps(c, p);
      DecidedDirty(c, p);
    }
  }

  lemma ProbedDirty(c: Config, s: State, now: real, force: bool, seen: Signal)
    ensures Probed(c, s, now, force, seen).dirty == (s.dirty && !Parses(c, s, now, force))
  {
    hide Parses;
  }

  lemma DecidedDirty(c: Config, s: State)
    ensures Decided(c, s).dirty == s.dirty
  {
  }

  ghost predicate Probes(c: Config, events: seq<Event>, k: nat, s: State)
    requires k <= |events|
  {
    && (forall j :: 0 <= j < k && Parsed(c, events, j) ==> ProbeTime(events[j]) <= s.lastProbe && ProbeTime(events[j]) <= s.clock)
    && (if forall j :: 0 <= j < k ==> !Parsed(c, events, j) then s.lastProbe == 0.0
        else exists j :: 0 <= j < k && Parsed(c, events, j) && s.lastProbe == ProbeTime(events[j]))
    && (s.dirty <==> SomeFresh(c, events, k))
  }

  lemma DueExactly(c: Config, events: seq<Event>, k: nat, s: State, now: real)
    requires k < |events| && Probes(c, events, k, s)
    ensures Due(c, events, k, now) <==> now - s.lastProbe >= 1.5 && s.dirty
  {
  }

  lemma ParsedHere(c: Config, events: seq<Event>, k: nat, s: State)
    requires k < |events| && Probes(c, events, k, s) && Runs(events, k, s)
    ensures ParsesIn(c, s, events[k]) <==> Parsed(c, events, k)
  {
    hide Probes, Due, Exited, ReaderFailed;
    match events[k] {
      case ReaderProbe(now, _) => DueExactly(c, events, k, s, now);
      case Pass(now, _, _) => DueExactly(c, events, k, s, now);
      case _ =>
    }
  }

  lemma NoParseStep(c: Config, events: seq<Event>, i: nat, k: nat)
    requires i <= k < |events|
    ensures NoParse(c, events, i, k + 1) <==> NoParse(c, events, i, k) && !Parsed(c, events, k)
    ensures NoParse(c, events, k + 1, k + 1)
  {
  }

  lemma FreshAt(c: Config, events: seq<Event>, k: nat) returns (p: nat)
    requires k <= |events| && SomeFresh(c, events, k)
    ensures p < k && events[p].Publish? && NoParse(c, events, p + 1, k)
  {
    p :| 0 <= p < k && events[p].Publish? && NoParse(c, events, p + 1, k);
  }

  lemma FreshStep(c: Config, events: seq<Event>, k: nat)
    requires k < |events|
    ensures SomeFresh(c, events, k + 1) <==> events[k].Publish? || (!Parsed(c, events, k) && SomeFresh(c, events, k))
  {
    if events[k].Publish? {
      NoParseStep(c, events, k, k);
    }
    if SomeFresh(c, events, k) && !Parsed(c, events, k) {
      var p := FreshAt(c, events, k);
      NoParseStep(c, events, p + 1, k);
    }
    if SomeFresh(c, events, k + 1) && !events[k].Publish? {
      var p := FreshAt(c, events, k + 1);
      NoParseStep(c, events, p + 1, k);
    }
  }

  lemma ProbesStep(c: Config, events: seq<Event>, k: nat, s: State, t: State)
    requires k < |events| && Next(c, s, events[k]) == Some(t) && Probes(c, events, k, s) && Runs(events, k, s)
    ensures Probes(c, events, k + 1, t)
  {
    ParsedHere(c, events, k, s);
    StepProbes(c, s, events[k]);
    FreshStep(c, events, k);
    PublishIsNoProbe(c, events, k);
    hide Next, Runs, SomeFresh, NoParse, Due, Parsed, ParsesIn, ProbeTime;
    if Parsed(c, events, k) {
      assert exists j :: 0 <= j < k + 1 && Parsed(c, events, j) && t.lastProbe == ProbeTime(events[j]);
    } else if j :| 0 <= j < k && Parsed(c, events, j) && s.lastProbe == ProbeTime(events[j]) {
      assert 0 <= j < k + 1 && Parsed(c, events, j) && t.lastProbe == ProbeTime(events[j]);
    }
  }

  lemma PublishIsNoProbe(c: Config, events: seq<Event>, k: nat)
    requires k < |events|
    ensures events[k].Publish? ==> !Parsed(c, events, k)
  {
  }

  lemma {:induction false} ProbesAt(c: Config, events: seq<Event>, k: nat)
    requires Reach(c, events).Some? && k <= |events|
    ensures Reach(c, events[..k]).Some? && Probes(c, events, k, StateAt(c, events, k))
    decreases k
  {
    hide Next, Runs, Probes;
    PrefixReached(c, events, k);
    if k == 0 {
      InitAt(c, events);
      NothingProbed(c, events);
    } else {
      ProbesAt(c, events, k - 1);
      RunsAt(c, events, k - 1);
      StepAt(c, events, k - 1);
      ProbesStep(c, events, k - 1, StateAt(c, events, k - 1), StateAt(c, events, k));
    }
  }

  lemma NothingProbed(c: Config, events: seq<Event>)
    ensures Probes(c, events, 0, Init(c))
  {
  }

  /** Which probes of a run parse. */
  lemma ParsesExactly(c: Config, events: seq<Event>, k: nat)
    requires Reach(c, events).Some? && k < |events|
    ensures Reach(c, events[..k]).Some?
    ensures ParsesIn(c, StateAt(c, events, k), events[k]) <==> Parsed(c, events, k)
    ensures Seen(c, StateAt(c, events, k), events[k]) == Sees(c, events, k)
  {
    RunsAt(c, events, k);
    ProbesAt(c, events, k);
    ParsedHere(c, events, k, StateAt(c, events, k));
    hide Runs, Probes, Reach, Parsed, Parses;
  }

  // ---------------------------------------------------------------------------------------
  // Signals and verdicts

  ghost predicate Signals(c: Config, events: seq<Event>, k: nat, s: State)
    requires k <= |events|
  {
    && (s.armed <==> Armed(c, events, k)) && (s.signal == HighSignal <==> LastSawHigh(c, events, k))
    && (s.armed ==> s.signal != NoSignal)
  }

  lemma StepSignals(c: Config, s: State, e: Event)
    requires Next(c, s, e).Some?
    ensures var t := Next(c, s, e).value;
      && (t.armed <==> s.armed || Seen(c, s, e) == HighSignal)
      && t.signal == if Seen(c, s, e) != NoSignal then Seen(c, s, e) else s.signal
  {
    hide Passed, Parses;
    StepSeen(c, s, e);
    match e {
      case Pass(_, _, _) => PassSignals(c, s, e);
      case _ =>
    }
  }

  lemma PassSignals(c: Config, s: State, e: Event)
    requires e.Pass?
    ensures Passed(c, s, e).armed <==> s.armed || Seen(c, s, e) == HighSignal
  {
    hide Decided;
    DecidedKeeps(c, Probed(c, s, e.now, false, e.seen).(clock := e.later));
  }

  lemma SignalsStep(c: Config, events: seq<Event>, k: nat, s: State, t: State)
    requires k < |events| && Next(c, s, events[k]) == Some(t) && Signals(c, events, k, s)
    requires Seen(c, s, events[k]) == Sees(c, events, k)
    ensures Signals(c, events, k + 1, t)
  {
    hide Next, Seen, Sees;
    StepSignals(c, s, events[k]);
    if Sees(c, events, k) == NoSignal && LastSawHigh(c, events, k) {
      var j :| 0 <= j < k && Sees(c, events, j) == HighSignal && forall m :: j < m < k ==> Sees(c, events, m) == NoSignal;
      assert Sees(c, events, j) == HighSignal && forall m :: j < m < k + 1 ==> Sees(c, events, m) == NoSignal;
    }
  }

  lemma {:induction false} SignalsAt(c: Config, events: seq<Event>, k: nat)
    requires Reach(c, events).Some? && k <= |events|
    ensures Reach(c, events[..k]).Some? && Signals(c, events, k, StateAt(c, events, k))
    decreases k
  {
    hide Next, Signals, Seen, Sees;
    PrefixReached(c, events, k);
    if k == 0 {
      InitAt(c, events);
      NothingSeen(c, events);
    } else {
      SignalsAt(c, events, k - 1);
      StepAt(c, events, k - 1);
      ParsesExactly(c, events, k - 1);
      SignalsStep(c, events, k - 1, StateAt(c, events, k - 1), StateAt(c, events, k));
    }
  }

  lemma NothingSeen(c: Config, events: seq<Event>)
    ensures Signals(c, events, 0, Init(c))
  {
  }

  ghost predicate Verdicts(c: Config, events: seq<Event>, k: nat, s: State)
    requires k <= |events|
  {
    && (s.outputFailed <==> exists j :: 0 <= j < k && FindsFailure(events, j))
    && (s.loopTimedOut <==> exists j :: 0 <= j < k && FindsTimeUp(c, events, j))
    && (s.earlyExit <==> exists j :: 0 <= j < k && FindsIdleAuth(c, events, j))
    && (s.timedOut <==> s.loopTimedOut || exists j :: 0 <= j < k && events[j].WaitExpires?)
  }

  /** What an event decides. */
  lemma StepDecides(c: Config, s: State, e: Event)
    requires Next(c, s, e).Some?
    ensures var t := Next(c, s, e).value;
      && (t.outputFailed <==> s.outputFailed || (e.Pass? && s.exitCode.None? && s.readerFailed))
      && (t.loopTimedOut <==>
           s.loopTimedOut || (e.Pass? && s.exitCode.None? && !s.readerFailed && e.later - s.started >= c.timeout))
      && (t.earlyExit <==>
           s.earlyExit
           || (e.Pass? && s.exitCode.None? && !s.readerFailed && !(e.later - s.started >= c.timeout)
               && t.armed && t.signal != NoSignal && e.later - s.lastOutput >= c.grace))
      && (t.timedOut <==>
           s.timedOut || e.WaitExpires? || (e.Pass? && s.exitCode.None? && !s.readerFailed && e.later - s.started >= c.timeout))
  {
    hide Probed, Passed;
    match e {
      case Pass(_, _, _) => PassVerdicts(c, s, e);
      case ReaderProbe(now, seen) => ProbedKeeps(c, s, now, false, seen);
      case ForcedProbe(now, seen) => ProbedKeeps(c, s, now, true, seen);
      case _ =>
    }
  }

  lemma PassVerdicts(c: Config, s: State, e: Event)
    requires e.Pass?
    ensures var t := Passed(c, s, e);
      var late := s.exitCode.None? && !s.readerFailed && e.later - s.started >= c.timeout;
      && (t.outputFailed <==> s.outputFailed || (s.exitCode.None? && s.readerFailed))
      && (t.loopTimedOut <==> s.loopTimedOut || late) && (t.timedOut <==> s.timedOut || late)
      && (t.earlyExit <==>
           s.earlyExit
           || (s.exitCode.None? && !s.readerFailed && !late
               && t.armed && t.signal != NoSignal && e.later - s.lastOutput >= c.grace))
  {
    hide Probed;
    ProbedKeeps(c, s, e.now, false, e.seen);
  }

  /** The chunks before a pass, against its idle grace. */
  lemma IdleExactly(c: Config, events: seq<Event>, k: nat, later: real)
    requires Reach(c, events).Some? && k <= |events|
    ensures Reach(c, events[..k]).Some?
    ensures later - StateAt(c, events, k).lastOutput >= c.grace <==>
      c.begin <= later - c.grace && forall j :: 0 <= j < k && events[j].Chunk? ==> events[j].now <= later - c.grace
  {
    hide Reach;
    PrefixReached(c, events, k);
    var before := events[..k];
    LastOutputIsLast(c, before);
    LastOutputIsSome(c, before);
    assert forall j :: 0 <= j < k ==> before[j] == events[j];
    var t := Reach(c, before).value.lastOutput;
    if t != c.begin {
      var j :| 0 <= j < k && before[j].Chunk? && before[j].now == t;
      assert events[j].Chunk?;
    }
    forall j | 0 <= j < k && events[j].Chunk? ensures events[j].now <= t {
      assert before[j].Chunk?;
    }
  }

  /** A pass finds what its state finds. */
  lemma PassFinds(c: Config, events: seq<Event>, k: nat)
    requires Reach(c, events).Some? && k < |events| && events[k].Pass?
    ensures Reach(c, events[..k]).Some? && Reach(c, events[..k + 1]).Some?
    ensures var s, t, e := StateAt(c, events, k), StateAt(c, events, k + 1), events[k];
      && (FindsFailure(events, k) <==> s.exitCode.None? && s.readerFailed)
      && (FindsTimeUp(c, events, k) <==> s.exitCode.None? && !s.readerFailed && e.later - s.started >= c.timeout)
      && (FindsIdleAuth(c, events, k) <==>
           s.exitCode.None? && !s.readerFailed && !(e.later - s.started >= c.timeout)
           && t.armed && t.signal != NoSignal && e.later - s.lastOutput >= c.grace)
  {
    StepAt(c, events, k);
    RunsAt(c, events, k);
    SignalsAt(c, events, k + 1);
    IdleExactly(c, events, k, events[k].later);
    var s := StateAt(c, events, k);
    StepRuns(c, s, events[k]);
    hide Reach, Next, Exited, ReaderFailed, Armed, LastSawHigh;
  }

  lemma VerdictsStep(c: Config, events: seq<Event>, k: nat)
    requires Reach(c, events).Some? && k < |events|
    requires Reach(c, events[..k]).Some? && Verdicts(c, events, k, StateAt(c, events, k))
    ensures Reach(c, events[..k + 1]).Some? && Verdicts(c, events, k + 1, StateAt(c, events, k + 1))
  {
    StepAt(c, events, k);
    hide Reach, Next;
    StepDecides(c, StateAt(c, events, k), events[k]);
    if events[k].Pass? {
      PassFinds(c, events, k);
    }
    OnlyPassesFind(c, events, k);
    hide FindsFailure, FindsTimeUp, FindsIdleAuth;
  }

  lemma OnlyPassesFind(c: Config, events: seq<Event>, k: nat)
    requires k < |events|
    ensures FindsFailure(events, k) || FindsTimeUp(c, events, k) || FindsIdleAuth(c, events, k) ==> events[k].Pass?
  {
  }

  lemma {:induction false} VerdictsAt(c: Config, events: seq<Event>, k: nat)
    requires Reach(c, events).Some? && k <= |events|
    ensures Reach(c, events[..k]).Some? && Verdicts(c, events, k, StateAt(c, events, k))
    decreases k
  {
    hide Next, Verdicts;
    PrefixReached(c, events, k);
    if k == 0 {
      InitAt(c, events);
      NothingDecided(c, events);
    } else {
      VerdictsAt(c, events, k - 1);
      VerdictsStep(c, events, k - 1);
    }
  }

  lemma NothingDecided(c: Config, events: seq<Event>)
    ensures Verdicts(c, events, 0, Init(c))
  {
  }

  // ---------------------------------------------------------------------------------------
  // The failure reason

  predicate ReaderFailureFound(events: seq<Event>) {
    exists k :: 0 <= k < |events| && FindsFailure(events, k)
  }

  predicate TimeUpFound(c: Config, events: seq<Event>) {
    exists k :: 0 <= k < |events| && FindsTimeUp(c, events, k)
  }

  predicate IdleAuthFound(c: Config, events: seq<Event>) {
    exists k :: 0 <= k < |events| && FindsIdleAuth(c, events, k)
  }

  /** A high-confidence signal was the last one seen, and the process did not exit with success:
      without an exit code it counts as failed. */
  predicate AuthFailed(c: Config, events: seq<Event>) {
    LastSawHigh(c, events, |events|) && Exits(0) !in events
  }

  /** Every run's failure reason, by its events alone. */
  lemma ReasonExactly(c: Config, events: seq<Event>)
    requires Reach(c, events).Some?
    ensures var reason := FailureReason(Reach(c, events).value);
      var auth := IdleAuthFound(c, events) || (AuthFailed(c, events) && !ReaderFailureFound(events));
      && (reason == AuthRequired <==> auth)
      && (reason == OutputRedactionFailed <==> ReaderFailureFound(events))
      && (reason == Timeout <==>
           !auth && !ReaderFailureFound(events) && (TimeUpFound(c, events) || WaitExpires in events))
      && (reason == EngineHook <==>
           !auth && !ReaderFailureFound(events) && !TimeUpFound(c, events) && WaitExpires !in events)
  {
    var n := |events|;
    assert events[..n] == events;
    RunsAt(c, events, n);
    SignalsAt(c, events, n);
    VerdictsAt(c, events, n);
    OneVerdict(c, events);
    ExitCodeIs(events, Reach(c, events).value);
    hide Reach, Sees, FindsFailure, FindsTimeUp, FindsIdleAuth, Exited, ReaderFailed;
    assert (exists j :: 0 <= j < n && events[j].WaitExpires?) <==> WaitExpires in events;
  }

  lemma ExitCodeIs(events: seq<Event>, s: State)
    requires Runs(events, |events|, s)
    ensures s.exitCode == Some(0) <==> Exits(0) in events
  {
    if s.exitCode == Some(0) {
      var j :| 0 <= j < |events| && events[j].Exits?;
      assert events[j] == Exits(0);
    }
  }

  // ---------------------------------------------------------------------------------------
  // Where the capture stands, and what can happen next

  /** An event of the capture coroutine itself. */
  predicate Controls(e: Event) {
    e.Start? || e.Pass? || e.Wake? || e.Terminated? || e.ForcedProbe? || e.WaitExpires? || e.Collected?
  }

  /** Where the coroutine stands after event `j`, at event `k`. */
  function PlaceAfter(c: Config, events: seq<Event>, j: nat, k: nat): Place
    requires j < k <= |events|
  {
    match events[j]
    case Start(_) => AtTop
    case Wake(_) => AtTop
    case Pass(_, _, later) =>
      if Exited(events, j) then Closing
      else if FindsFailure(events, j) || FindsTimeUp(c, events, j) || FindsIdleAuth(c, events, j) then Terminating
      else Sleeping(later)
    case Terminated(_) => Closing
    case ForcedProbe(_, _) => if Exited(events, k) then Gathering else Waiting
    case WaitExpires => Gathering
    case _ => Done
  }

  /** The place that the last event of the coroutine led to; before the first one it is starting. */
  ghost predicate Stands(c: Config, events: seq<Event>, k: nat, place: Place)
    requires k <= |events|
  {
    if forall j :: 0 <= j < k ==> !Controls(events[j]) then place == Starting
    else exists j :: 0 <= j < k && Controls(events[j]) && (forall m :: j < m < k ==> !Controls(events[m])) && place == PlaceAfter(c, events, j, k)
  }

  /** How an event moves the coroutine. */
  lemma StepPlace(c: Config, events: seq<Event>, k: nat)
    requires Reach(c, events).Some? && k < |events|
    ensures Reach(c, events[..k]).Some? && Reach(c, events[..k + 1]).Some?
    ensures var s, t, e := StateAt(c, events, k), StateAt(c, events, k + 1), events[k];
      t.place == if Controls(e) then PlaceAfter(c, events, k, k + 1)
        else if e.Exits? && s.place == Waiting then Gathering
        else s.place
  {
    hide Next, Reach, Exited, ReaderFailed, Passed, FindsFailure, FindsTimeUp, FindsIdleAuth;
    StepAt(c, events, k);
    RunsAt(c, events, k);
    ExitedLater(events, k);
    var s, e := StateAt(c, events, k), events[k];
    StepMoves(c, s, e);
    if e.Pass? {
      PassFinds(c, events, k);
      PassPlace(c, s, e);
      StepIsPass(c, s, e);
    }
  }

  lemma StepIsPass(c: Config, s: State, e: Event)
    requires e.Pass? && Next(c, s, e).Some?
    ensures Next(c, s, e).value == Passed(c, s, e)
  {
    hide Passed;
  }

  lemma StepMoves(c: Config, s: State, e: Event)
    requires Next(c, s, e).Some?
    ensures Next(c, s, e).value.place ==
      match e
      case Start(_) => AtTop
      case Wake(_) => AtTop
      case Pass(_, _, _) => Passed(c, s, e).place
      case Terminated(_) => Closing
      case ForcedProbe(_, _) => if s.exitCode.None? then Waiting else Gathering
      case WaitExpires => Gathering
      case Collected => Done
      case Exits(_) => if s.place == Waiting then Gathering else s.place
      case _ => s.place
  {
    hide Passed, Probed;
    match e {
      case ReaderProbe(now, seen) => ProbedKeeps(c, s, now, false, seen);
      case _ =>
    }
  }

  lemma ExitedLater(events: seq<Event>, k: nat)
    requires k < |events|
    ensures Exited(events, k + 1) <==> Exited(events, k) || events[k].Exits?
  {
  }

  lemma PassPlace(c: Config, s: State, e: Event)
    requires e.Pass?
    ensures var t := Passed(c, s, e);
      t.place == if s.exitCode.Some? then Closing
        else if s.readerFailed || e.later - s.started >= c.timeout then Terminating
        else if t.armed && t.signal != NoSignal && e.later - s.lastOutput >= c.grace then Terminating
        else Sleeping(e.later)
  {
    hide Probed;
    ProbedKeeps(c, s, e.now, false, e.seen);
  }

  lemma StandsStep(c: Config, events: seq<Event>, k: nat, place: Place, next: Place)
    requires k < |events| && Stands(c, events, k, place)
    requires next == if Controls(events[k]) then PlaceAfter(c, events, k, k + 1)
      else if events[k].Exits? && place == Waiting then Gathering
      else place
    ensures Stands(c, events, k + 1, next)
  {
    hide FindsFailure, FindsTimeUp, FindsIdleAuth, Exited;
    ExitedLater(events, k);
    if !Controls(events[k]) && !(forall j :: 0 <= j < k ==> !Controls(events[j])) {
      var j :| 0 <= j < k && Controls(events[j]) && (forall m :: j < m < k ==> !Controls(events[m]))
        && place == PlaceAfter(c, events, j, k);
      assert next == PlaceAfter(c, events, j, k + 1);
      assert Controls(events[j]) && forall m :: j < m < k + 1 ==> !Controls(events[m]);
    }
  }

  lemma {:induction false} StandsAt(c: Config, events: seq<Event>, k: nat)
    requires Reach(c, events).Some? && k <= |events|
    ensures Reach(c, events[..k]).Some? && Stands(c, events, k, StateAt(c, events, k).place)
    decreases k
  {
    hide Next, Stands, PlaceAfter;
    PrefixReached(c, events, k);
    if k == 0 {
      InitAt(c, events);
      assert Stands(c, events, 0, Starting) by { NothingStands(c, events); }
    } else {
      StandsAt(c, events, k - 1);
      StepPlace(c, events, k - 1);
      StandsStep(c, events, k - 1, StateAt(c, events, k - 1).place, StateAt(c, events, k).place);
    }
  }

  lemma NothingStands(c: Config, events: seq<Event>)
    ensures Stands(c, events, 0, Starting)
  {
  }

  /** The last reading of the clock that event `j` makes; a pass makes none unless the process
      runs. */
  function Reading(events: seq<Event>, j: nat): Option<real>
    requires j < |events|
  {
    match events[j]
    case Start(now) => Some(now)
    case Chunk(now) => Some(now)
    case ReaderProbe(now, _) => Some(now)
    case Pass(_, _, later) => if Running(events, j) then Some(later) else None
    case Wake(now) => Some(now)
    case Terminated(now) => Some(now)
    case ForcedProbe(now, _) => Some(now)
    case _ => None
  }

  /** The time is not before the beginning, nor before any reading up to event `k`. */
  predicate NotBefore(c: Config, events: seq<Event>, k: nat, now: real)
    requires k <= |events|
  {
    now >= c.begin && forall j :: 0 <= j < k && Reading(events, j).Some? ==> now >= Reading(events, j).value
  }

  /** The clock stands where it was last read, or at the beginning. */
  ghost predicate Clocked(c: Config, events: seq<Event>, k: nat, clock: real)
    requires k <= |events|
  {
    NotBefore(c, events, k, clock) && (clock == c.begin || exists j :: 0 <= j < k && Reading(events, j) == Some(clock))
  }

  lemma ClockedExactly(c: Config, events: seq<Event>, k: nat, clock: real, now: real)
    requires k <= |events| && Clocked(c, events, k, clock)
    ensures NotBefore(c, events, k, now) <==> now >= clock
  {
    hide Running;
  }

  lemma StepClock(c: Config, events: seq<Event>, k: nat)
    requires Reach(c, events).Some? && k < |events|
    ensures Reach(c, events[..k]).Some? && Reach(c, events[..k + 1]).Some?
    ensures var s, t, r := StateAt(c, events, k), StateAt(c, events, k + 1), Reading(events, k);
      t.clock == (if r.Some? then r.value else s.clock) >= s.clock
  {
    hide Next, Reach, Exited, ReaderFailed, Passed;
    StepAt(c, events, k);
    RunsAt(c, events, k);
    var s, e := StateAt(c, events, k), events[k];
    StepReads(c, s, e);
    if e.Pass? {
      PassClock(c, s, e);
      StepIsPass(c, s, e);
    }
  }

  lemma StepReads(c: Config, s: State, e: Event)
    requires Next(c, s, e).Some?
    ensures var t := Next(c, s, e).value;
      match e
      case Start(now) => t.clock == now >= s.clock
      case Chunk(now) => t.clock == now >= s.clock
      case ReaderProbe(now, _) => t.clock == now >= s.clock
      case Pass(now, _, later) => s.clock <= now <= later
      case Wake(now) => t.clock == now >= s.clock
      case Terminated(now) => t.clock == now >= s.clock
      case ForcedProbe(now, _) => t.clock == now >= s.clock
      case _ => t.clock == s.clock
  {
    hide Passed, Probed;
    match e {
      case ReaderProbe(now, seen) => ProbedKeeps(c, s, now, false, seen);
      case ForcedProbe(now, seen) => ProbedKeeps(c, s, now, true, seen);
      case _ =>
    }
  }

  lemma PassClock(c: Config, s: State, e: Event)
    requires e.Pass?
    ensures Passed(c, s, e).clock == if s.exitCode.Some? || s.readerFailed then s.clock else e.later
  {
    hide Probed, Decided;
    DecidedKeeps(c, Probed(c, s, e.now, false, e.seen).(clock := e.later));
  }

  lemma ClockedStep(c: Config, events: seq<Event>, k: nat, clock: real, next: real)
    requires k < |events| && Clocked(c, events, k, clock)
    requires next == (if Reading(events, k).Some? then Reading(events, k).value else clock) >= clock
    ensures Clocked(c, events, k + 1, next)
  {
    hide Reading;
    if next != c.begin && Reading(events, k).None? {
      var j :| 0 <= j < k && Reading(events, j) == Some(clock);
      assert Reading(events, j) == Some(next);
    }
  }

  lemma {:induction false} ClockAt(c: Config, events: seq<Event>, k: nat)
    requires Reach(c, events).Some? && k <= |events|
    ensures Reach(c, events[..k]).Some? && Clocked(c, events, k, StateAt(c, events, k).clock)
    decreases k
  {
    hide Next, Clocked, Reading;
    PrefixReached(c, events, k);
    if k == 0 {
      InitAt(c, events);
      assert Clocked(c, events, 0, c.begin) by { NothingRead(c, events); }
    } else {
      ClockAt(c, events, k - 1);
      StepClock(c, events, k - 1);
      ClockedStep(c, events, k - 1, StateAt(c, events, k - 1).clock, StateAt(c, events, k).clock);
    }
  }

  lemma NothingRead(c: Config, events: seq<Event>)
    ensures Clocked(c, events, 0, c.begin)
  {
  }

  /** The events that can come where the coroutine stands, at times that do not go back; the process
      can exit once, whenever it likes, and the readers act until they are collected. */
  predicate CanCome(c: Config, events: seq<Event>, place: Place, e: Event) {
    var n := |events|;
    match e
    case Start(now) => place == Starting && NotBefore(c, events, n, now)
    case Pass(now, _, later) => place == AtTop && NotBefore(c, events, n, now) && now <= later
    case Wake(now) => place.Sleeping? && now - place.from >= 0.1 && NotBefore(c, events, n, now)
    case Terminated(now) => place == Terminating && NotBefore(c, events, n, now)
    case ForcedProbe(now, _) => place == Closing && NotBefore(c, events, n, now)
    case WaitExpires => place == Waiting
    case Collected => place == Gathering
    case Exits(_) => !Exited(events, n)
    case Chunk(now) => place != Done && NotBefore(c, events, n, now)
    case ReaderProbe(now, _) => place != Done && NotBefore(c, events, n, now)
    case Publish => place != Done
    case ReaderFails => place != Done
  }

  /** Which events a run can go on with, by its events alone. */
  lemma PossibleExactly(c: Config, events: seq<Event>, e: Event)
    requires Reach(c, events).Some?
    ensures Reach(c, events + [e]).Some? <==> exists place :: Stands(c, events, |events|, place) && CanCome(c, events, place, e)
  {
    var n, s := |events|, Reach(c, events).value;
    assert events[..n] == events && (events + [e])[..n] == events;
    StandsAt(c, events, n);
    RunsAt(c, events, n);
    ClockAt(c, events, n);
    forall now ensures NotBefore(c, events, n, now) <==> now >= s.clock {
      ClockedExactly(c, events, n, s.clock, now);
    }
    StandsOnce(c, events, n);
    hide Stands, Clocked, NotBefore, Exited, ReaderFailed, Probed, Passed;
    assert Reach(c, events + [e]) == Next(c, s, e);
    hide Reach;
    assert CanCome(c, events, s.place, e) <==> Next(c, s, e).Some?;
  }

  /** There is one place it stands at. */
  lemma StandsOnce(c: Config, events: seq<Event>, k: nat)
    requires k <= |events|
    ensures forall a, b :: Stands(c, events, k, a) && Stands(c, events, k, b) ==> a == b
  {
    hide PlaceAfter, Controls;
  }
}
