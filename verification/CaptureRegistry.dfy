/** The adapter's registry of active processes, over any interleaving of captures and cancels. */
module CaptureRegistry {
  import opened PyText

  type RunId = string
  type Lease = nat

  /** A value of the registry dict: what `_set_active_run_process` stores, or something else.
      `process` says that the process it holds is an asyncio process. */
  datatype Entry = Entry(process: bool, lease: Option<Lease>) | Raw(process: bool)

  /** Where a registered capture stands: before its protected block, in the block, in the
      finaliser's two waits for the readers, past them, past the removal of its entry, and at
      one of its ends: the lease released, the supervisor's release raised, or the coroutine
      ended before it removed its entry. */
  datatype Phase =
    Registered | Running | Collecting | Cancelling | Closing | Popped | Finalised | Unreleased | Abandoned

  /** The lease is `None` if the supervisor is switched off or finds no process id. */
  datatype Capture = Capture(run: RunId, lease: Option<Lease>, phase: Phase) {
    /** Its coroutine has not removed the entry, and still can. */
    predicate Live() {
      phase == Registered || phase == Running || phase == Collecting || phase == Cancelling || phase == Closing
    }
    predicate KeepsEntry() { Live() || phase == Abandoned }
    predicate Over() { phase == Finalised || phase == Unreleased || phase == Abandoned }
  }

  /** The captures in the order they registered, the registry, and the finalisers' releases. */
  datatype State = State(captures: seq<Capture>, registry: map<RunId, Entry>, releases: multiset<Lease>)

  const EMPTY := State([], map[], multiset{})

  /** `Begin` registers the process with the supervisor, which may grant a lease, and stores the
      entry; `Protect` enters the protected block and `SetupFails` raises before it; `Ends` leaves
      the block, by a verdict or by an exception. In the finaliser, `ReadersDone` ends a wait,
      `ReadersTimeOut` the first one, `Interrupt` cancels the coroutine in a wait; then `Pop`
      and `Release`, which does nothing without a lease, and which `ReleaseFails` replaces when the
      supervisor raises over a lease. `Cancel` is `cancel_run_process`. */
  datatype Event =
    | Begin(run: RunId, granted: bool)
    | Protect(k: nat)
    | SetupFails(k: nat)
    | Ends(k: nat)
    | ReadersDone(k: nat)
    | ReadersTimeOut(k: nat)
    | Interrupt(k: nat)
    | Pop(k: nat)
    | Release(k: nat)
    | ReleaseFails(k: nat)
    | Cancel(run: RunId)

  // ---------------------------------------------------------------------------------------
  // The steps

  function Moved(s: State, k: nat, from: set<Phase>, to: Phase): Option<State> {
    if k < |s.captures| && s.captures[k].phase in from then
      Some(s.(captures := s.captures[k := s.captures[k].(phase := to)]))
    else None
  }

  /** What the supervisor's `release` gives back. */
  function LeaseOf(c: Capture): multiset<Lease> {
    match c.lease
    case Some(lease) => multiset{lease}
    case None => multiset{}
  }

  /** The state after an event, if it can happen. Leases are never granted twice. */
  function Next(s: State, e: Event): Option<State> {
    match e
    case Begin(run, granted) =>
      var lease := if granted then Some(|s.captures|) else None;
      Some(s.(captures := s.captures + [Capture(run, lease, Registered)],
              registry := s.registry[run := Entry(true, lease)]))
    case Protect(k) => Moved(s, k, {Registered}, Running)
    case SetupFails(k) => Moved(s, k, {Registered}, Abandoned)
    case Ends(k) => Moved(s, k, {Running}, Collecting)
    case ReadersDone(k) => Moved(s, k, {Collecting, Cancelling}, Closing)
    case ReadersTimeOut(k) => Moved(s, k, {Collecting}, Cancelling)
    case Interrupt(k) => Moved(s, k, {Collecting, Cancelling}, Abandoned)
    case Pop(k) =>
      (match Moved(s, k, {Closing}, Popped)
       case Some(t) => Some(t.(registry := t.registry - {t.captures[k].run}))
       case None => None)
    case Release(k) =>
      (match Moved(s, k, {Popped}, Finalised)
       case Some(t) => Some(t.(releases := t.releases + LeaseOf(t.captures[k])))
       case None => None)
    case ReleaseFails(k) =>
      if k < |s.captures| && s.captures[k].lease.None? then None else Moved(s, k, {Popped}, Unreleased)
    case Cancel(run) => Some(s)
  }

  function From(s: State, events: seq<Event>): Option<State> {
    if events == [] then Some(s)
    else
      match From(s, events[..|events| - 1])
      case None => None
      case Some(t) => Next(t, events[|events| - 1])
  }

  function Reach(events: seq<Event>): Option<State> { From(EMPTY, events) }

  /** `_get_active_run_process_entry`: a bare process counts as an entry without a lease. */
  function Lookup(registry: map<RunId, Entry>, run: RunId): Option<Entry> {
    if run !in registry then None
    else if registry[run].Raw? then Some(Entry(registry[run].process, None))
    else Some(registry[run])
  }

  /** What `cancel_run_process` terminates: the lease, else the process, else nothing. */
  datatype Target = OfLease(lease: Lease) | OfProcess | Nothing

  function TargetOf(registry: map<RunId, Entry>, run: RunId): Target {
    match Lookup(registry, run)
    case Some(Entry(_, Some(lease))) => OfLease(lease)
    case Some(Entry(process, None)) => if process then OfProcess else Nothing
    case _ => Nothing
  }

  // ---------------------------------------------------------------------------------------
  // The invariant

  /** Capture `k` is the last one of its run, and its entry has not been removed. */
  predicate Holds(s: State, k: nat, run: RunId) {
    && k < |s.captures| && s.captures[k].run == run && s.captures[k].KeepsEntry()
    && forall j :: k < j < |s.captures| ==> s.captures[j].run != run
  }

  ghost predicate Held(s: State, run: RunId) { exists k: nat :: Holds(s, k, run) }

  ghost predicate EntryRight(s: State, run: RunId) {
    && (run in s.registry <==> Held(s, run))
    && (run in s.registry ==> forall k: nat :: Holds(s, k, run) ==> s.registry[run] == Entry(true, s.captures[k].lease))
  }

  /** A lease is granted to one capture; of two captures of a run the earlier one is not live; a
      run has an entry exactly if its last capture keeps one, and then it is that capture's own;
      and a lease was released by its finaliser once if that got so far, and never otherwise. */
  ghost predicate Sound(s: State) {
    && (forall k :: 0 <= k < |s.captures| ==> s.captures[k].lease in {None, Some(k)})
    && (forall j, k :: 0 <= j < k < |s.captures| && s.captures[j].run == s.captures[k].run ==> !s.captures[j].Live())
    && (forall run :: EntryRight(s, run))
    && (forall k: Lease :: s.releases[k] == if k < |s.captures| && Released(s.captures[k]) then 1 else 0)
  }

  predicate Released(c: Capture) { c.phase == Finalised && c.lease.Some? }

  /** No capture begins on a run that another live capture holds. */
  predicate Fresh(s: State, e: Event) {
    e.Begin? ==> forall k :: 0 <= k < |s.captures| && s.captures[k].Live() ==> s.captures[k].run != e.run
  }

  predicate DistinctRuns(events: seq<Event>) {
    events != [] ==>
      var before := events[..|events| - 1];
      DistinctRuns(before) && (Reach(before).Some? ==> Fresh(Reach(before).value, events[|events| - 1]))
  }

  predicate SameRuns(s: State, t: State) {
    |t.captures| == |s.captures| && forall i :: 0 <= i < |s.captures| ==> t.captures[i].run == s.captures[i].run
  }

  lemma HoldsAlike(s: State, t: State, k: nat, run: RunId)
    requires SameRuns(s, t)
    ensures Holds(t, k, run) <==>
      && k < |s.captures| && s.captures[k].run == run && t.captures[k].KeepsEntry()
      && forall j :: k < j < |s.captures| ==> s.captures[j].run != run
  {
    assert forall j :: 0 <= j < |s.captures| ==> (t.captures[j].run != run <==> s.captures[j].run != run);
  }

  /** A step leaves a run alone if its captures keep what they had. */
  lemma EntryKept(s: State, t: State, run: RunId)
    requires EntryRight(s, run)
    requires forall j: nat :: Holds(t, j, run) <==> Holds(s, j, run)
    requires |s.captures| <= |t.captures| && forall j :: 0 <= j < |s.captures| ==> t.captures[j].lease == s.captures[j].lease
    requires run in t.registry <==> run in s.registry
    requires run in s.registry ==> t.registry[run] == s.registry[run]
    ensures EntryRight(t, run)
  {
    assert forall j: nat :: Holds(s, j, run) ==> j < |s.captures|;
  }

  /** A change of phase that neither ends nor begins an entry or a release. */
  lemma MovedIsSound(s: State, k: nat, from: set<Phase>, to: Phase)
    requires Sound(s) && Moved(s, k, from, to).Some? && Finalised !in from && to != Finalised
    requires forall p :: p in from ==>
      s.captures[k].(phase := p).KeepsEntry() == s.captures[k].(phase := to).KeepsEntry()
      && (s.captures[k].(phase := to).Live() ==> s.captures[k].(phase := p).Live())
    ensures Sound(Moved(s, k, from, to).value)
  {
    var t := Moved(s, k, from, to).value;
    hide EntryRight, Holds;
    forall run ensures EntryRight(t, run) {
      forall j: nat ensures Holds(t, j, run) <==> Holds(s, j, run) {
        HoldsAlike(s, t, j, run);
        HoldsAlike(s, s, j, run);
      }
      EntryKept(s, t, run);
    }
  }

  lemma BeginIsSound(s: State, run: RunId, granted: bool)
    requires Sound(s) && Fresh(s, Begin(run, granted))
    ensures Sound(Next(s, Begin(run, granted)).value)
  {
    hide EntryRight;
    var t, n := Next(s, Begin(run, granted)).value, |s.captures|;
    assert forall j :: 0 <= j < n ==> t.captures[j] == s.captures[j];
    forall r ensures EntryRight(t, r) {
      if r == run {
        NewEntryRight(s, run, granted);
      } else {
        assert forall j: nat :: Holds(t, j, r) <==> Holds(s, j, r);
        EntryKept(s, t, r);
      }
    }
  }

  lemma NewEntryRight(s: State, run: RunId, granted: bool)
    ensures EntryRight(Next(s, Begin(run, granted)).value, run)
    ensures Holds(Next(s, Begin(run, granted)).value, |s.captures|, run)
  {
    var t, n := Next(s, Begin(run, granted)).value, |s.captures|;
    assert t.captures[n].run == run;
    assert Holds(t, n, run);
    forall j: nat | Holds(t, j, run) ensures j == n {
    }
  }

  lemma PopHolds(s: State, k: nat)
    requires Sound(s) && Next(s, Pop(k)).Some?
    ensures Holds(s, k, s.captures[k].run)
    ensures forall j: nat, r :: Holds(Next(s, Pop(k)).value, j, r) <==> r != s.captures[k].run && Holds(s, j, r)
  {
    var t, run := Next(s, Pop(k)).value, s.captures[k].run;
    assert Holds(s, k, run);
    forall j: nat, r ensures Holds(t, j, r) <==> r != run && Holds(s, j, r) {
      HoldsAlike(s, t, j, r);
    }
  }

  lemma PopIsSound(s: State, k: nat)
    requires Sound(s) && Next(s, Pop(k)).Some?
    ensures Sound(Next(s, Pop(k)).value)
  {
    hide Holds, EntryRight;
    var t := Next(s, Pop(k)).value;
    PopHolds(s, k);
    forall run ensures EntryRight(t, run) {
      if run == s.captures[k].run {
        assert EntryRight(t, run) by { NothingHeld(t, run); }
      } else {
        EntryKept(s, t, run);
      }
    }
  }

  lemma NothingHeld(s: State, run: RunId)
    requires run !in s.registry && forall j: nat :: !Holds(s, j, run)
    ensures EntryRight(s, run)
  {
  }

  lemma ReleaseIsSound(s: State, k: nat)
    requires Sound(s) && Next(s, Release(k)).Some?
    ensures Sound(Next(s, Release(k)).value)
  {
    var t := Next(s, Release(k)).value;
    hide EntryRight, Holds;
    forall run ensures EntryRight(t, run) {
      forall j: nat ensures Holds(t, j, run) <==> Holds(s, j, run) {
        HoldsAlike(s, t, j, run);
        HoldsAlike(s, s, j, run);
      }
      EntryKept(s, t, run);
    }
  }

  lemma StepIsSound(s: State, e: Event)
    requires Sound(s) && Fresh(s, e) && Next(s, e).Some?
    ensures Sound(Next(s, e).value)
  {
    hide Sound, Holds;
    match e {
      case Begin(run, granted) => BeginIsSound(s, run, granted);
      case Protect(k) => MovedIsSound(s, k, {Registered}, Running);
      case SetupFails(k) => MovedIsSound(s, k, {Registered}, Abandoned);
      case Ends(k) => MovedIsSound(s, k, {Running}, Collecting);
      case ReadersDone(k) => MovedIsSound(s, k, {Collecting, Cancelling}, Closing);
      case ReadersTimeOut(k) => MovedIsSound(s, k, {Collecting}, Cancelling);
      case Interrupt(k) => MovedIsSound(s, k, {Collecting, Cancelling}, Abandoned);
      case Pop(k) => PopIsSound(s, k);
      case Release(k) => ReleaseIsSound(s, k);
      case ReleaseFails(k) => MovedIsSound(s, k, {Popped}, Unreleased);
      case Cancel(_) =>
    }
  }

  lemma {:induction false} RunIsSound(events: seq<Event>)
    requires Reach(events).Some? && DistinctRuns(events)
    ensures Sound(Reach(events).value)
    decreases |events|
  {
    hide Sound, Next, Fresh;
    if events == [] {
      assert Sound(EMPTY) by { EmptyIsSound(); }
    } else {
      var before := events[..|events| - 1];
      RunIsSound(before);
      StepIsSound(Reach(before).value, events[|events| - 1]);
    }
  }

  lemma EmptyIsSound()
    ensures Sound(EMPTY)
  {
  }

  // ---------------------------------------------------------------------------------------
  // The adapter

  /** How a wait for the readers ends. */
  datatype Wait = AllDone | TimedOut | Interrupted

  predicate IsCut(first: Wait, second: Wait) {
    first == Interrupted || (first == TimedOut && second == Interrupted)
  }

  function WaitEvent(k: nat, how: Wait): Event {
    match how
    case AllDone => ReadersDone(k)
    case TimedOut => ReadersTimeOut(k)
    case Interrupted => Interrupt(k)
  }

  /** The events of a finaliser that nothing else comes between: its waits ... */
  function WaitEvents(k: nat, first: Wait, second: Wait): seq<Event> {
    [WaitEvent(k, first)] + if first == TimedOut then [WaitEvent(k, second)] else []
  }

  /** ... and what follows them, unless one was interrupted. */
  function FinaliserEvents(k: nat, first: Wait, second: Wait, raises: bool): seq<Event> {
    WaitEvents(k, first, second)
    + if IsCut(first, second) then [] else [Pop(k), if raises then ReleaseFails(k) else Release(k)]
  }

  /** A whole capture that nothing else comes between. */
  function CaptureEvents(k: nat, run: RunId, granted: bool, setupFails: bool, first: Wait, second: Wait, raises: bool): seq<Event> {
    [Begin(run, granted)]
    + if setupFails then [SetupFails(k)] else [Protect(k), Ends(k)] + FinaliserEvents(k, first, second, raises)
  }

  /** The registry dict of the adapter, with the captures it serves and the leases they have
      released. */
  class Adapter {
    var entries: map<RunId, Entry>
    var captures: seq<Capture>
    var releases: multiset<Lease>

    ghost function Now(): State
      reads this
    {
      State(captures, entries, releases)
    }

    ghost predicate Valid()
      reads this
    {
      Sound(Now())
    }

    constructor ()
      ensures Valid() && Now() == EMPTY
    {
      entries, captures, releases := map[], [], multiset{};
    }

    /** The registration of a capture: afterwards a cancel of its run aims at this capture,
        whatever was there before, and a cancel of any other run at what it did. */
    method Register(run: RunId, granted: bool) returns (k: nat)
      modifies this
      ensures Next(old(Now()), Begin(run, granted)) == Some(Now()) && releases == old(releases)
      ensures old(Valid()) && Fresh(old(Now()), Begin(run, granted)) ==> Valid()
      ensures k == |old(captures)| && |captures| == k + 1 && captures[k].phase == Registered && Holds(Now(), k, run)
      ensures TargetOf(entries, run) == if granted then OfLease(k) else OfProcess
      ensures forall other :: other != run ==> TargetOf(entries, other) == TargetOf(old(entries), other)
    {
      hide Sound;
      ghost var s := Now();
      k := |captures|;
      var lease := if granted then Some(k) else None;
      captures := captures + [Capture(run, lease, Registered)];
      entries := entries[run := Entry(true, lease)];
      if Sound(s) && Fresh(s, Begin(run, granted)) {
        StepIsSound(s, Begin(run, granted));
      }
    }

    /** From the registration into the protected block, or an exception on the way. */
    method Enter(k: nat, setupFails: bool)
      requires k < |captures| && captures[k].phase == Registered
      modifies this`captures
      ensures Next(old(Now()), if setupFails then SetupFails(k) else Protect(k)) == Some(Now())
      ensures old(Valid()) ==> Valid()
    {
      hide Sound;
      ghost var s := Now();
      captures := captures[k := captures[k].(phase := if setupFails then Abandoned else Running)];
      KeepsSound(s, if setupFails then SetupFails(k) else Protect(k), Now());
    }

    /** Out of the protected block, by a verdict or an exception. */
    method Leave(k: nat)
      requires k < |captures| && captures[k].phase == Running
      modifies this`captures
      ensures Next(old(Now()), Ends(k)) == Some(Now())
      ensures old(Valid()) ==> Valid()
    {
      hide Sound;
      ghost var s := Now();
      captures := captures[k := captures[k].(phase := Collecting)];
      KeepsSound(s, Ends(k), Now());
    }

    /** One wait of the finaliser: for the readers, or for the cancelled readers, which has no
        timeout. */
    method Await(k: nat, how: Wait)
      requires k < |captures|
      requires captures[k].phase == Collecting || (captures[k].phase == Cancelling && how != TimedOut)
      modifies this`captures
      ensures Next(old(Now()), WaitEvent(k, how)) == Some(Now())
      ensures old(Valid()) ==> Valid()
    {
      hide Sound;
      ghost var s := Now();
      var next := match how case AllDone => Closing case TimedOut => Cancelling case Interrupted => Abandoned;
      captures := captures[k := captures[k].(phase := next)];
      KeepsSound(s, WaitEvent(k, how), Now());
    }

    method RemoveEntry(k: nat)
      requires k < |captures| && captures[k].phase == Closing
      modifies this`captures, this`entries
      ensures Next(old(Now()), Pop(k)) == Some(Now())
      ensures old(Valid()) ==> Valid()
    {
      hide Sound;
      ghost var s := Now();
      entries := entries - {captures[k].run};
      captures := captures[k := captures[k].(phase := Popped)];
      KeepsSound(s, Pop(k), Now());
    }

    /** The supervisor's `release`, which has nothing to do, and so cannot raise, without a
        lease. */
    method ReleaseLease(k: nat, raises: bool)
      requires k < |captures| && captures[k].phase == Popped && (raises ==> captures[k].lease.Some?)
      modifies this`captures, this`releases
      ensures Next(old(Now()), if raises then ReleaseFails(k) else Release(k)) == Some(Now())
      ensures old(Valid()) ==> Valid()
    {
      hide Sound;
      ghost var s := Now();
      captures := captures[k := captures[k].(phase := if raises then Unreleased else Finalised)];
      if !raises && captures[k].lease.Some? {
        releases := releases + multiset{captures[k].lease.value};
      }
      assert s.releases + multiset{} == s.releases;
      KeepsSound(s, if raises then ReleaseFails(k) else Release(k), Now());
    }

    /** The waits of a finaliser: for the readers, and if that times out for the cancelled
        readers. */
    method AwaitReaders(k: nat, first: Wait, second: Wait)
      requires k < |captures| && captures[k].phase == Collecting && second != TimedOut
      modifies this`captures
      ensures From(old(Now()), WaitEvents(k, first, second)) == Some(Now())
      ensures old(Valid()) ==> Valid()
      ensures captures == old(captures)[k := old(captures)[k].(phase := if IsCut(first, second) then Abandoned else Closing)]
    {
      hide Sound, From;
      ghost var s := Now();
      Await(k, first);
      OneStep(s, WaitEvent(k, first), Now());
      if first == TimedOut {
        ghost var t := Now();
        Await(k, second);
        OneMore(s, [WaitEvent(k, first)], t, WaitEvent(k, second), Now());
      } else {
        assert [WaitEvent(k, first)] + [] == [WaitEvent(k, first)];
      }
    }

    /** The finaliser of capture `k`, with how its waits for the readers end and whether the
        supervisor raises. It takes the entry of its own run away and no other, and releases its
        own lease, if it has one, and no other; interrupted in a wait it does neither. */
    method Finaliser(k: nat, first: Wait, second: Wait, raises: bool)
      requires k < |captures| && captures[k].phase == Collecting && second != TimedOut
      requires raises ==> captures[k].lease.Some?
      modifies this
      ensures From(old(Now()), FinaliserEvents(k, first, second, raises)) == Some(Now())
      ensures old(Valid()) ==> Valid()
      ensures entries == if IsCut(first, second) then old(entries) else old(entries) - {old(captures[k].run)}
      ensures releases ==
        if IsCut(first, second) || raises then old(releases) else old(releases) + LeaseOf(old(captures[k]))
      ensures |captures| == |old(captures)| && captures[k].Over()
    {
      hide Sound, WaitEvents, From;
      ghost var s := Now();
      AwaitReaders(k, first, second);
      ghost var waits := WaitEvents(k, first, second);
      assert waits + [] == waits;
      if captures[k].phase == Abandoned {
        return;
      }
      ghost var t := Now();
      RemoveEntry(k);
      ghost var u := Now();
      OneMore(s, waits, t, Pop(k), u);
      ReleaseLease(k, raises);
      ghost var e := if raises then ReleaseFails(k) else Release(k);
      OneMore(s, waits + [Pop(k)], u, e, Now());
      assert waits + [Pop(k)] + [e] == waits + [Pop(k), e];
    }

    /** One capture from its registration to its end, with nothing else coming between: it leaves
        no entry of its run, unless it ended before it removed it. */
    method RunCapture(run: RunId, granted: bool, setupFails: bool, first: Wait, second: Wait, raises: bool) returns (k: nat)
      requires second != TimedOut && (raises ==> granted)
      modifies this
      ensures k == |old(captures)| && k < |captures| && captures[k].Over()
      ensures From(old(Now()), CaptureEvents(k, run, granted, setupFails, first, second, raises)) == Some(Now())
      ensures old(Valid()) && Fresh(old(Now()), Begin(run, granted)) ==> Valid()
      ensures run in entries <==> setupFails || IsCut(first, second)
      ensures releases == old(releases) +
        if granted && !(setupFails || raises || IsCut(first, second)) then multiset{k} else multiset{}
    {
      hide Sound, From, FinaliserEvents;
      ghost var s := Now();
      k := Register(run, granted);
      ghost var begin := Begin(run, granted);
      OneStep(s, begin, Now());
      ghost var t := Now();
      Enter(k, setupFails);
      if setupFails {
        OneMore(s, [begin], t, SetupFails(k), Now());
        return;
      }
      ghost var u := Now();
      OneMore(s, [begin], t, Protect(k), u);
      Leave(k);
      ghost var v := Now();
      OneMore(s, [begin] + [Protect(k)], u, Ends(k), v);
      Finaliser(k, first, second, raises);
      FromThen(s, [begin] + [Protect(k)] + [Ends(k)], v, FinaliserEvents(k, first, second, raises), Now());
      assert [begin] + [Protect(k)] + [Ends(k)] + FinaliserEvents(k, first, second, raises)
        == CaptureEvents(k, run, granted, setupFails, first, second, raises);
    }

    /** One event, if it can happen: the code that runs between two points where a coroutine gives
        way. */
    method Take(e: Event) returns (possible: bool)
      modifies this
      ensures possible == Next(old(Now()), e).Some?
      ensures Now() == if possible then Next(old(Now()), e).value else old(Now())
      ensures old(Valid()) && Fresh(old(Now()), e) ==> Valid()
    {
      hide Sound;
      if e.Begin? {
        var k := Register(e.run, e.granted);
        return true;
      } else if e.Cancel? {
        var answer, target := Cancel(e.run);
        return true;
      } else if e.k >= |captures| {
        return false;
      }
      var phase := captures[e.k].phase;
      match e {
        case Protect(k) =>
          if phase != Registered { return false; }
          Enter(k, false);
        case SetupFails(k) =>
          if phase != Registered { return false; }
          Enter(k, true);
        case Ends(k) =>
          if phase != Running { return false; }
          Leave(k);
        case ReadersDone(k) =>
          if phase != Collecting && phase != Cancelling { return false; }
          Await(k, AllDone);
        case ReadersTimeOut(k) =>
          if phase != Collecting { return false; }
          Await(k, TimedOut);
        case Interrupt(k) =>
          if phase != Collecting && phase != Cancelling { return false; }
          Await(k, Interrupted);
        case Pop(k) =>
          if phase != Closing { return false; }
          RemoveEntry(k);
        case Release(k) =>
          if phase != Popped { return false; }
          ReleaseLease(k, false);
        case ReleaseFails(k) =>
          if phase != Popped || captures[k].lease.None? { return false; }
          ReleaseLease(k, true);
      }
      return true;
    }

    /** Any interleaving, event by event. */
    method Drive(events: seq<Event>) returns (possible: bool)
      requires Now() == EMPTY
      modifies this
      ensures Reach(events) == if possible then Some(Now()) else None
      ensures possible && DistinctRuns(events) ==> Valid()
    {
      hide Next, Sound, Fresh;
      assert events[..0] == [];
      for k := 0 to |events|
        invariant Reach(events[..k]) == Some(Now())
      {
        assert events[..k + 1][..k] == events[..k];
        possible := Take(events[k]);
        if !possible {
          StuckStays(events, k + 1);
          return;
        }
      }
      assert events[..|events|] == events;
      if DistinctRuns(events) {
        RunIsSound(events);
      }
      possible := true;
    }

    /** `cancel_run_process`: it terminates the lease of the capture that holds the run, or the
        process if that capture has no lease, and answers true exactly if there is one. */
    method Cancel(run: RunId) returns (answer: bool, target: Target)
      ensures target == TargetOf(entries, run) && (answer <==> target != Nothing)
      ensures run !in entries ==> target == Nothing
      ensures run in entries ==>
        match entries[run]
        case Entry(_, Some(lease)) => target == OfLease(lease)
        case _ => target == if entries[run].process then OfProcess else Nothing
      ensures Valid() ==> (answer <==> Held(Now(), run))
      ensures Valid() ==> forall k: nat :: Holds(Now(), k, run) ==>
        target == if captures[k].lease.Some? then OfLease(k) else OfProcess
    {
      if Valid() {
        CancelFindsHolder(Now(), run);
      }
      var entry := Lookup(entries, run);
      if entry.None? {
        return false, Nothing;
      }
      if entry.value.lease.Some? {
        return true, OfLease(entry.value.lease.value);
      }
      if !entry.value.process {
        return false, Nothing;
      }
      return true, OfProcess;
    }
  }

  lemma KeepsSound(s: State, e: Event, t: State)
    requires Next(s, e) == Some(t) && !e.Begin?
    ensures Sound(s) ==> Sound(t)
  {
    hide Next, Sound;
    if Sound(s) {
      StepIsSound(s, e);
    }
  }

  lemma OneStep(s: State, e: Event, t: State)
    requires Next(s, e) == Some(t)
    ensures From(s, [e]) == Some(t)
  {
    hide Next;
    assert [e][..0] == [];
  }

  lemma OneMore(s: State, events: seq<Event>, t: State, e: Event, u: State)
    requires From(s, events) == Some(t) && Next(t, e) == Some(u)
    ensures From(s, events + [e]) == Some(u)
  {
    hide Next;
    assert (events + [e])[..|events|] == events;
  }

  lemma {:induction false} FromThen(s: State, a: seq<Event>, t: State, b: seq<Event>, u: State)
    requires From(s, a) == Some(t) && From(t, b) == Some(u)
    ensures From(s, a + b) == Some(u)
    decreases |b|
  {
    hide Next;
    if b == [] {
      assert a + b == a;
    } else {
      var most, last := b[..|b| - 1], b[|b| - 1];
      FromThen(s, a, t, most, From(t, most).value);
      OneMore(s, a + most, From(t, most).value, last, u);
      assert a + most + [last] == a + b;
    }
  }

  lemma {:induction false} StuckStays(events: seq<Event>, n: nat)
    requires n <= |events| && Reach(events[..n]).None?
    ensures Reach(events).None?
    decreases |events|
  {
    hide Next;
    if n == |events| {
      assert events[..n] == events;
    } else {
      assert events[..|events| - 1][..n] == events[..n];
      StuckStays(events[..|events| - 1], n);
    }
  }

  /** What a cancel finds in a sound state: the lease or the process of the capture that holds the
      run, or nothing. */
  lemma CancelFindsHolder(s: State, run: RunId)
    requires Sound(s)
    ensures TargetOf(s.registry, run) != Nothing <==> run in s.registry
    ensures run in s.registry <==> Held(s, run)
    ensures forall k: nat :: Holds(s, k, run) ==>
      TargetOf(s.registry, run) == if s.captures[k].lease.Some? then OfLease(k) else OfProcess
  {
    assert EntryRight(s, run);
    if k: nat :| Holds(s, k, run) {
      assert s.registry[run] == Entry(true, s.captures[k].lease);
    }
  }

  // ---------------------------------------------------------------------------------------
  // The registry over every run

  /** The registry holds an entry for a run exactly if the last capture of that run has not
      removed its own; and then the entry is that capture's. */
  lemma RegistryIsExact(events: seq<Event>, run: RunId)
    requires Reach(events).Some? && DistinctRuns(events)
    ensures var s := Reach(events).value;
      && (run in s.registry <==> Held(s, run))
      && forall k: nat :: Holds(s, k, run) ==>
           s.registry[run] == Entry(true, s.captures[k].lease) && s.captures[k].lease in {None, Some(k)}
  {
    RunIsSound(events);
    var s := Reach(events).value;
    hide Reach;
    assert EntryRight(s, run);
  }

  ghost predicate LiveRun(s: State, run: RunId) {
    exists k :: 0 <= k < |s.captures| && s.captures[k].Live() && s.captures[k].run == run
  }

  /** A later capture of the same run has begun. */
  ghost predicate Superseded(s: State, k: nat)
    requires k < |s.captures|
  {
    exists j :: k < j < |s.captures| && s.captures[j].run == s.captures[k].run
  }

  /** Between registration and removal a run always has its entry; and no other run has one
      exactly while every capture that ended without removing its entry has been followed by
      another capture of its run. */
  lemma RegistryIsLiveRuns(events: seq<Event>)
    requires Reach(events).Some? && DistinctRuns(events)
    ensures var s := Reach(events).value;
      && (forall run :: LiveRun(s, run) ==> run in s.registry)
      && ((forall run :: run in s.registry ==> LiveRun(s, run)) <==>
          (forall k :: 0 <= k < |s.captures| && s.captures[k].phase == Abandoned ==> Superseded(s, k)))
  {
    hide Sound, Holds, LiveRun, Superseded;
    RunIsSound(events);
    var s := Reach(events).value;
    forall run | LiveRun(s, run) ensures run in s.registry {
      LiveIsRegistered(s, run);
    }
    forall k | 0 <= k < |s.captures| && s.captures[k].phase == Abandoned && !Superseded(s, k)
      ensures s.captures[k].run in s.registry && !LiveRun(s, s.captures[k].run) {
      LeftoverIsRegistered(s, k);
    }
    forall run | run in s.registry && !LiveRun(s, run)
      ensures exists k :: 0 <= k < |s.captures| && s.captures[k].phase == Abandoned && !Superseded(s, k) {
      var k := RegisteredIsLiveOrLeft(s, run);
    }
  }

  lemma LiveIsRegistered(s: State, run: RunId)
    requires Sound(s) && LiveRun(s, run)
    ensures run in s.registry
  {
    var k :| 0 <= k < |s.captures| && s.captures[k].Live() && s.captures[k].run == run;
    assert Holds(s, k, run) && EntryRight(s, run);
  }

  lemma LeftoverIsRegistered(s: State, k: nat)
    requires Sound(s) && k < |s.captures| && s.captures[k].phase == Abandoned && !Superseded(s, k)
    ensures s.captures[k].run in s.registry && !LiveRun(s, s.captures[k].run)
  {
    assert Holds(s, k, s.captures[k].run) && EntryRight(s, s.captures[k].run);
  }

  lemma RegisteredIsLiveOrLeft(s: State, run: RunId) returns (k: nat)
    requires Sound(s) && run in s.registry && !LiveRun(s, run)
    ensures k < |s.captures| && s.captures[k].phase == Abandoned && !Superseded(s, k)
  {
    assert EntryRight(s, run);
    k :| Holds(s, k, run);
  }

  /** What has happened to capture `k`, by its phase; and its lease. */
  ghost predicate Recorded(events: seq<Event>, s: State, k: nat)
    requires k < |s.captures|
  {
    var c := s.captures[k];
    && c.lease in {None, Some(k)}
    && (c.phase == Finalised <==> Release(k) in events)
    && (c.phase == Unreleased <==> ReleaseFails(k) in events)
    && (c.phase == Unreleased ==> c.lease.Some?)
    && (c.phase == Abandoned <==> Interrupt(k) in events || SetupFails(k) in events)
  }

  ghost predicate Counted(s: State) {
    forall k: Lease :: s.releases[k] == if k < |s.captures| && Released(s.captures[k]) then 1 else 0
  }

  predicate About(e: Event, k: nat) {
    e in {Release(k), ReleaseFails(k), Interrupt(k), SetupFails(k)}
  }

  /** Nothing is recorded of captures to come. */
  ghost predicate Blank(events: seq<Event>, s: State) {
    forall e, k: nat :: e in events && About(e, k) ==> k < |s.captures|
  }

  lemma StepIsRecorded(events: seq<Event>, s: State, e: Event, k: nat)
    requires Next(s, e).Some? && k < |Next(s, e).value.captures| && Blank(events, s)
    requires k < |s.captures| ==> Recorded(events, s, k)
    ensures Recorded(events + [e], Next(s, e).value, k)
  {
    var t := Next(s, e).value;
    assert forall x :: x in events + [e] <==> x in events || x == e;
    if k == |s.captures| {
      assert !About(e, k);
      assert forall x :: x in events ==> !About(x, k);
    }
  }

  lemma StepIsBlank(events: seq<Event>, s: State, e: Event)
    requires Next(s, e).Some? && Blank(events, s)
    ensures Blank(events + [e], Next(s, e).value)
  {
  }

  lemma StepIsCounted(s: State, e: Event)
    requires Next(s, e).Some? && Counted(s)
    requires forall k :: 0 <= k < |s.captures| ==> s.captures[k].lease in {None, Some(k)}
    ensures Counted(Next(s, e).value)
  {
  }

  lemma {:induction false} RunIsRecorded(events: seq<Event>)
    requires Reach(events).Some?
    ensures var s := Reach(events).value;
      Blank(events, s) && Counted(s) && forall k :: 0 <= k < |s.captures| ==> Recorded(events, s, k)
    decreases |events|
  {
    hide Next, Recorded, Blank, Counted;
    if events == [] {
      assert Blank([], EMPTY) && Counted(EMPTY) by { EmptyIsBlank(); }
    } else {
      var before, e := events[..|events| - 1], events[|events| - 1];
      var s, t := Reach(before).value, Reach(events).value;
      RunIsRecorded(before);
      assert events == before + [e];
      forall k | 0 <= k < |s.captures| ensures s.captures[k].lease in {None, Some(k)} {
        RecordedLease(before, s, k);
      }
      StepIsBlank(before, s, e);
      StepIsCounted(s, e);
      forall k | 0 <= k < |t.captures| ensures Recorded(events, t, k) {
        StepIsRecorded(before, s, e, k);
      }
    }
  }

  lemma EmptyIsBlank()
    ensures Blank([], EMPTY) && Counted(EMPTY)
  {
  }

  lemma RecordedLease(events: seq<Event>, s: State, k: nat)
    requires k < |s.captures| && Recorded(events, s, k)
    ensures s.captures[k].lease in {None, Some(k)}
  {
  }

  /** Over any interleaving whatever, a lease has at most one release from its own finaliser and
      none before it is reached; and of a capture that is over it has one exactly if the setup
      did not raise, no wait of the finaliser was interrupted, and the supervisor did not raise:
      how the protected block was left, and whether the readers had to be cancelled, makes no
      difference. Nothing is released that was not granted. */
  lemma OneReleaseEach(events: seq<Event>, k: nat)
    requires Reach(events).Some? && k < |Reach(events).value.captures|
    ensures var s := Reach(events).value; var c := s.captures[k];
      && s.releases[k] <= 1 && (s.releases[k] == 1 ==> c.Over() && c.lease == Some(k))
      && (c.Over() && c.lease.Some? ==>
           (s.releases[k] == 1 <==> SetupFails(k) !in events && Interrupt(k) !in events && ReleaseFails(k) !in events))
      && forall lease: Lease :: lease in s.releases ==> lease < |s.captures|
  {
    RunIsRecorded(events);
    assert Recorded(events, Reach(events).value, k);
  }

  // ---------------------------------------------------------------------------------------
  // Shared runs

  predicate BeginsAt(events: seq<Event>, i: nat, run: RunId) {
    i < |events| && events[i].Begin? && events[i].run == run
  }

  /** Event `j` removes the entry of the run, for whichever of its captures. */
  predicate PopsAt(events: seq<Event>, s: State, j: nat, run: RunId) {
    j < |events| && events[j].Pop? && events[j].k < |s.captures| && s.captures[events[j].k].run == run
  }

  /** A capture of the run has begun after all removals of its entry. */
  ghost predicate BegunLast(events: seq<Event>, s: State, run: RunId) {
    exists i :: BeginsAt(events, i, run) && forall j :: PopsAt(events, s, j, run) ==> j < i
  }

  predicate LastOf(s: State, k: nat, run: RunId) {
    k < |s.captures| && s.captures[k].run == run && forall j :: k < j < |s.captures| ==> s.captures[j].run != run
  }

  /** An entry is that of the last capture. */
  ghost predicate LastHasEntry(s: State, run: RunId) {
    run in s.registry ==> forall k: nat :: LastOf(s, k, run) ==> s.registry[run] == Entry(true, s.captures[k].lease)
  }

  ghost predicate Tracked(events: seq<Event>, s: State, run: RunId) {
    && (run in s.registry <==> BegunLast(events, s, run))
    && LastHasEntry(s, run)
    && (forall e :: e in events && e.Pop? ==> e.k < |s.captures|)
  }

  lemma PopsStay(events: seq<Event>, s: State, e: Event, j: nat, run: RunId)
    requires Next(s, e).Some? && forall x :: x in events && x.Pop? ==> x.k < |s.captures|
    ensures j < |events| ==> (PopsAt(events + [e], Next(s, e).value, j, run) <==> PopsAt(events, s, j, run))
  {
    if j < |events| {
      assert (events + [e])[j] == events[j] && events[j] in events;
    }
  }

  /** How an event changes which of begin and removal came last. */
  lemma StepBegunLast(events: seq<Event>, s: State, e: Event, run: RunId)
    requires Next(s, e).Some? && forall x :: x in events && x.Pop? ==> x.k < |s.captures|
    ensures BegunLast(events + [e], Next(s, e).value, run) <==>
      if e.Begin? && e.run == run then true
      else if e.Pop? && s.captures[e.k].run == run then false
      else BegunLast(events, s, run)
  {
    var t, n, more := Next(s, e).value, |events|, events + [e];
    assert more[n] == e && forall i :: 0 <= i < n ==> more[i] == events[i];
    forall j: nat ensures j < n ==> (PopsAt(more, t, j, run) <==> PopsAt(events, s, j, run)) {
      PopsStay(events, s, e, j, run);
    }
    if e.Begin? && e.run == run {
      assert BeginsAt(more, n, run);
    } else if e.Pop? && s.captures[e.k].run == run {
      assert PopsAt(more, t, n, run);
    } else {
      assert !PopsAt(more, t, n, run) && !BeginsAt(more, n, run);
      forall i: nat ensures BeginsAt(more, i, run) <==> BeginsAt(events, i, run) {
      }
      forall j: nat ensures PopsAt(more, t, j, run) <==> PopsAt(events, s, j, run) {
      }
    }
  }

  lemma StepIsTracked(events: seq<Event>, s: State, e: Event, run: RunId)
    requires Next(s, e).Some? && Tracked(events, s, run)
    ensures Tracked(events + [e], Next(s, e).value, run)
  {
    hide BegunLast, LastHasEntry;
    StepBegunLast(events, s, e, run);
    StepHasEntry(s, e, run);
  }

  lemma StepHasEntry(s: State, e: Event, run: RunId)
    requires Next(s, e).Some? && LastHasEntry(s, run)
    ensures LastHasEntry(Next(s, e).value, run)
  {
    var t := Next(s, e).value;
    assert forall k :: 0 <= k < |s.captures| ==> t.captures[k].run == s.captures[k].run && t.captures[k].lease == s.captures[k].lease;
    if e.Begin? && e.run == run {
      assert t.captures[|s.captures|].run == run;
    } else {
      assert forall k: nat :: LastOf(t, k, run) <==> LastOf(s, k, run);
    }
  }

  lemma {:induction false} RunIsTracked(events: seq<Event>, run: RunId)
    requires Reach(events).Some?
    ensures Tracked(events, Reach(events).value, run)
    decreases |events|
  {
    hide Next, Tracked;
    if events == [] {
      assert Tracked([], EMPTY, run) by { EmptyIsTracked(run); }
    } else {
      var before, e := events[..|events| - 1], events[|events| - 1];
      RunIsTracked(before, run);
      StepIsTracked(before, Reach(before).value, e, run);
      assert events == before + [e];
    }
  }

  /** Over any interleaving, captures that share a run included: a run has an entry exactly if the
      last of its captures began after the last removal of an entry of that run, by whichever
      capture; and the entry is that of the last capture. */
  lemma EntryExactly(events: seq<Event>, run: RunId)
    requires Reach(events).Some?
    ensures var s := Reach(events).value;
      (run in s.registry <==> BegunLast(events, s, run)) && LastHasEntry(s, run)
  {
    RunIsTracked(events, run);
  }

  lemma EmptyIsTracked(run: RunId)
    ensures Tracked([], EMPTY, run)
  {
  }

  /** So two live captures of one run are one too many: the first to finish takes the entry of the
      other with it. */
  lemma SharedRunLosesEntry(run: RunId)
    ensures match Reach([Begin(run, true), Begin(run, true), Protect(0)] + [Ends(0), ReadersDone(0), Pop(0)])
      case Some(s) => |s.captures| == 2 && s.captures[1].Live() && s.captures[1].run == run && run !in s.registry
      case None => false
  {
    hide From;
    var s := Next(Next(Next(EMPTY, Begin(run, true)).value, Begin(run, true)).value, Protect(0)).value;
    ThreeSteps(EMPTY, Begin(run, true), Begin(run, true), Protect(0), s);
    assert |s.captures| == 2 && s.captures[0].phase == Running && s.captures[1] == Capture(run, Some(1), Registered);
    var t := Next(Next(Next(s, Ends(0)).value, ReadersDone(0)).value, Pop(0)).value;
    ThreeSteps(s, Ends(0), ReadersDone(0), Pop(0), t);
    FromThen(EMPTY, [Begin(run, true), Begin(run, true), Protect(0)], s, [Ends(0), ReadersDone(0), Pop(0)], t);
  }

  lemma ThreeSteps(s: State, a: Event, b: Event, c: Event, t: State)
    requires Next(s, a).Some? && Next(Next(s, a).value, b).Some?
    requires Next(Next(Next(s, a).value, b).value, c) == Some(t)
    ensures From(s, [a, b, c]) == Some(t)
  {
    hide From, Next;
    var u := Next(s, a).value;
    OneStep(s, a, u);
    OneMore(s, [a], u, b, Next(u, b).value);
    OneMore(s, [a] + [b], Next(u, b).value, c, t);
    assert [a] + [b] + [c] == [a, b, c];
  }

  /** The release needs an uninterrupted finaliser: cancelling it while it waits for the readers
      keeps the entry and the lease. */
  lemma InterruptKeepsLease(run: RunId)
    ensures match Reach([Begin(run, true), Protect(0), Ends(0)] + [Interrupt(0)])
      case Some(s) =>
        |s.captures| == 1 && s.captures[0].lease == Some(0) && !s.captures[0].Live() && run in s.registry && s.releases[0] == 0
      case None => false
  {
    hide From;
    var s := Next(Next(Next(EMPTY, Begin(run, true)).value, Protect(0)).value, Ends(0)).value;
    ThreeSteps(EMPTY, Begin(run, true), Protect(0), Ends(0), s);
    OneMore(EMPTY, [Begin(run, true), Protect(0), Ends(0)], s, Interrupt(0), Next(s, Interrupt(0)).value);
  }
}
