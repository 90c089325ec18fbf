/** The single-flight cache of parsed messages. Every region that holds the lock is one method, and so is
    every action that takes place outside it; a run is any sequence of them that the code allows. What a step
    does is a function of the state, so that runs can be quantified over. */
module EnvelopeCache {
  import opened Basics

  const TTL: int := 5000

  type Id = string

  datatype Envelope = Envelope(content: seq<char>, rawSize: nat)

  datatype Entry = Entry(serial: nat, env: Envelope, created: int)

  /** The stages of the goroutine that parses, with what it found: None is an error. */
  datatype Phase =
    | Parsing
    | Parsed(result: Option<Envelope>)     // the result is assigned
    | Closed(result: Option<Envelope>)     // waiters are released
    | Finished(result: Option<Envelope>)   // no longer in flight; returned to its caller

  datatype Flight = Flight(id: Id, phase: Phase, waiters: nat)

  datatype Timer = Timer(id: Id, deadline: int, fired: bool)   // fired: waiting for the lock

  datatype Served = Served(id: Id, env: Envelope, age: int)

  datatype Step =
    | Lookup(id: Id)
    | Parse(flight: nat, parses: bool)
    | Close(flight: nat)
    | Finish(flight: nat)
    | Wake(flight: nat)
    | Expire(timer: nat)
    | Fire(timer: nat)
    | Invalidate(id: Id)
    | InvalidateAll
    | Store(id: Id)
    | Delete(id: Id)
    | Tick(elapsed: nat)

  datatype LookupResult = Hit(env: Envelope) | Join(flight: nat) | Lead(flight: nat)

  /** What parsing the raw message stored under an id gives: ids are not reused and raw messages do not
      change. */
  type Parser = Id -> Envelope

  // ---------------------------------------------------------------- what always holds

  datatype State = State(
    entries: map<Id, Entry>,
    inflight: map<Id, nat>,
    flights: map<nat, Flight>,       // every parse there has been
    timers: map<nat, Timer>,         // of entries, by serial: neither stopped in time nor run
    stored: set<Id>,                 // the mailbox
    used: set<Id>,                   // every id there has been
    now: int,
    next: nat,
    served: seq<Served>)
  {
    predicate InProgress(f: nat) {
      f in flights && !flights[f].phase.Finished?
    }

    /** A parse is in flight under an id exactly while it is in progress, and under one id only one is. */
    ghost predicate SingleFlight() {
      && (forall id :: id in inflight ==> InProgress(inflight[id]) && flights[inflight[id]].id == id)
      && (forall f :: InProgress(f) ==> flights[f].id in inflight && inflight[flights[f].id] == f)
    }

    /** What is parsed or cached is what the message parses to. */
    ghost predicate Faithful(parsed: Parser) {
      && (forall f :: f in flights && !flights[f].phase.Parsing? && flights[f].phase.result.Some? ==>
                        flights[f].phase.result.value == parsed(flights[f].id))
      && (forall id :: id in entries ==> entries[id].env == parsed(id))
    }

    /** Every entry has a timer that will remove it, due when its time to live is over. */
    ghost predicate Timed() {
      && (forall id :: id in entries ==>
                         && entries[id].serial in timers
                         && timers[entries[id].serial].id == id
                         && timers[entries[id].serial].deadline == entries[id].created + TTL
                         && entries[id].created <= now)
      && (forall t :: t in timers ==> t < next && (timers[t].fired ==> timers[t].deadline <= now))
      && (forall f :: f in flights ==> f < next)
    }

    /** What was served is the parse of that message, and never from an entry past its time. */
    ghost predicate ServedWell(parsed: Parser) {
      forall k :: 0 <= k < |served| ==> served[k].env == parsed(served[k].id) && 0 <= served[k].age < TTL
    }

    ghost predicate Valid(parsed: Parser) {
      SingleFlight() && Faithful(parsed) && Timed() && ServedWell(parsed) && entries.Keys !! inflight.Keys
    }

    /** The parse succeeded, and its caller, or somebody who waits for it, has not been served yet. */
    predicate IsUnderWay(f: nat) {
      && f in flights && !flights[f].phase.Parsing? && flights[f].phase.result.Some?
      && !(flights[f].phase.Finished? && flights[f].waiters == 0)
    }

    ghost predicate ResultUnderWay(id: Id) {
      exists f :: IsUnderWay(f) && flights[f].id == id
    }

    /** Nothing is left from which a message could still be served. */
    ghost predicate Gone(id: Id) {
      id in used && id !in stored && id !in entries && !ResultUnderWay(id)
    }

    predicate Enabled(step: Step) {
      match step
      case Parse(f, _) => f in flights && flights[f].phase.Parsing?
      case Close(f) => f in flights && flights[f].phase.Parsed?
      case Finish(f) => f in flights && flights[f].phase.Closed?
      case Wake(f) => f in flights && (flights[f].phase.Closed? || flights[f].phase.Finished?) && flights[f].waiters > 0
      case Expire(t) => t in timers && timers[t].deadline <= now
      case Fire(t) => t in timers && timers[t].fired
      case Store(id) => id !in used
      case _ => true
    }
  }

  const EMPTY := State(map[], map[], map[], map[], {}, {}, 0, 0, [])

  // ---------------------------------------------------------------- what each step does

  /** Stopping a timer has no effect once it has fired. */
  function Stop(timers: map<nat, Timer>, serials: set<nat>): map<nat, Timer> {
    map t | t in timers && (t in serials ==> timers[t].fired) :: timers[t]
  }

  predicate IsFresh(s: State, id: Id) {
    id in s.entries && s.now - s.entries[id].created < TTL
  }

  predicate CanJoin(s: State, id: Id) {
    id in s.inflight && s.inflight[id] in s.flights
  }

  function JoinedOrLed(s: State, id: Id): State {
    if CanJoin(s, id) then
      var f := s.inflight[id];
      s.(flights := s.flights[f := s.flights[f].(waiters := s.flights[f].waiters + 1)])
    else
      s.(flights := s.flights[s.next := Flight(id, Parsing, 0)], inflight := s.inflight[id := s.next],
         next := s.next + 1)
  }

  function LookedUp(s: State, id: Id): State {
    if IsFresh(s, id)
    then s.(served := s.served + [Served(id, s.entries[id].env, s.now - s.entries[id].created)])
    else JoinedOrLed(s.(entries := s.entries - {id}), id)
  }

  function InPhase(s: State, f: nat, phase: Phase): State
    requires f in s.flights
  {
    s.(flights := s.flights[f := s.flights[f].(phase := phase)])
  }

  function Cached(s: State, id: Id, env: Envelope): State {
    var timers := if id in s.entries then Stop(s.timers, {s.entries[id].serial}) else s.timers;
    s.(entries := s.entries[id := Entry(s.next, env, s.now)], timers := timers[s.next := Timer(id, s.now + TTL, false)],
       next := s.next + 1)
  }

  function Landed(s: State, f: nat): State
    requires f in s.flights && s.flights[f].phase.Closed?
  {
    InPhase(s, f, Finished(s.flights[f].phase.result)).(inflight := s.inflight - {s.flights[f].id})
  }

  function Delivered(s: State, id: Id, result: Option<Envelope>): State {
    if result.None? then s else s.(served := s.served + [Served(id, result.value, 0)])
  }

  function FinishedFlight(s: State, f: nat): State
    requires f in s.flights && s.flights[f].phase.Closed?
  {
    var id, result := s.flights[f].id, s.flights[f].phase.result;
    if result.None? then Landed(s, f) else Delivered(Cached(Landed(s, f), id, result.value), id, result)
  }

  function Woken(s: State, f: nat): State
    requires f in s.flights && !s.flights[f].phase.Parsing? && s.flights[f].waiters > 0
  {
    Delivered(s.(flights := s.flights[f := s.flights[f].(waiters := s.flights[f].waiters - 1)]),
              s.flights[f].id, s.flights[f].phase.result)
  }

  function Fired(s: State, t: nat): State
    requires t in s.timers
  {
    var id := s.timers[t].id;
    s.(timers := s.timers - {t},
       entries := if id in s.entries && s.entries[id].serial == t then s.entries - {id} else s.entries)
  }

  function Invalidated(s: State, id: Id): State {
    if id in s.entries then s.(timers := Stop(s.timers, {s.entries[id].serial}), entries := s.entries - {id}) else s
  }

  function AllInvalidated(s: State): State {
    s.(timers := Stop(s.timers, set id | id in s.entries :: s.entries[id].serial), entries := map[])
  }

  /** Reading and parsing a message fails if it is not stored. */
  function ParseResult(parsed: Parser, s: State, id: Id, parses: bool): Option<Envelope> {
    if parses && id in s.stored then Some(parsed(id)) else None
  }

  function Next(parsed: Parser, s: State, step: Step): State
    requires s.Enabled(step)
  {
    match step
    case Lookup(id) => LookedUp(s, id)
    case Parse(f, parses) => InPhase(s, f, Parsed(ParseResult(parsed, s, s.flights[f].id, parses)))
    case Close(f) => InPhase(s, f, Closed(s.flights[f].phase.result))
    case Finish(f) => FinishedFlight(s, f)
    case Wake(f) => Woken(s, f)
    case Expire(t) => s.(timers := s.timers[t := s.timers[t].(fired := true)])
    case Fire(t) => Fired(s, t)
    case Invalidate(id) => Invalidated(s, id)
    case InvalidateAll => AllInvalidated(s)
    case Store(id) => s.(stored := s.stored + {id}, used := s.used + {id})
    case Delete(id) => s.(stored := s.stored - {id})
    case Tick(elapsed) => s.(now := s.now + elapsed)
  }

  // ---------------------------------------------------------------- every step keeps what holds

  /** t is a state that s can lead to: valid, with nothing served of messages that were gone, which stay so. */
  ghost predicate LeadsWell(parsed: Parser, s: State, t: State) {
    && t.Valid(parsed)
    && s.served <= t.served
    && (forall id :: s.Gone(id) ==> t.Gone(id) && !ServedSince(t, |s.served|, id))
  }

  ghost predicate ServedSince(t: State, n: nat, id: Id) {
    exists k :: n <= k < |t.served| && t.served[k].id == id
  }

  /** When no result comes under way and nothing is stored, cached or served, what is gone stays gone. */
  lemma NothingNew(parsed: Parser, s: State, t: State)
    requires t.Valid(parsed)
    requires t.served == s.served && t.stored <= s.stored && s.used <= t.used && t.entries.Keys <= s.entries.Keys
    requires forall g :: t.IsUnderWay(g) ==> s.IsUnderWay(g) && t.flights[g].id == s.flights[g].id
    ensures LeadsWell(parsed, s, t)
  {
    hide State.Valid, State.IsUnderWay;
  }

  lemma JoinedKeeps(parsed: Parser, s: State, id: Id, f: nat)
    requires s.Valid(parsed) && CanJoin(s, id) && f == s.inflight[id]
    ensures LeadsWell(parsed, s, s.(flights := s.flights[f := s.flights[f].(waiters := s.flights[f].waiters + 1)]))
  {
    hide LeadsWell;
    var t := s.(flights := s.flights[f := s.flights[f].(waiters := s.flights[f].waiters + 1)]);
    assert s.InProgress(f);
    assert forall g :: t.InProgress(g) == s.InProgress(g);
    NothingNew(parsed, s, t);
  }

  lemma LedIsSingle(s: State, id: Id, t: State)
    requires s.SingleFlight() && s.next !in s.flights && id !in s.inflight
    requires t == s.(flights := s.flights[s.next := Flight(id, Parsing, 0)], inflight := s.inflight[id := s.next],
                         next := s.next + 1)
    ensures t.SingleFlight()
  {
    assert forall g :: t.InProgress(g) <==> s.InProgress(g) || g == s.next;
  }

  lemma LedKeeps(parsed: Parser, s: State, id: Id, t: State)
    requires s.Valid(parsed) && id !in s.entries && id !in s.inflight
    requires t == s.(flights := s.flights[s.next := Flight(id, Parsing, 0)], inflight := s.inflight[id := s.next],
                         next := s.next + 1)
    ensures LeadsWell(parsed, s, t)
  {
    hide LeadsWell, State.SingleFlight;
    LedIsSingle(s, id, t);
    NothingNew(parsed, s, t);
  }

  lemma InflightCanBeJoined(parsed: Parser, s: State, id: Id)
    requires s.Valid(parsed) && id in s.inflight
    ensures CanJoin(s, id) && s.InProgress(s.inflight[id]) && s.flights[s.inflight[id]].id == id && id !in s.entries
  {
    hide State.Timed, State.Faithful;
  }

  lemma JoinedOrLedKeeps(parsed: Parser, s: State, id: Id)
    requires s.Valid(parsed) && id !in s.entries
    ensures LeadsWell(parsed, s, JoinedOrLed(s, id))
  {
    hide State.Valid, LeadsWell;
    if id in s.inflight {
      InflightCanBeJoined(parsed, s, id);
      JoinedKeeps(parsed, s, id, s.inflight[id]);
    } else {
      LedKeeps(parsed, s, id, JoinedOrLed(s, id));
    }
  }

  lemma EntryDropped(parsed: Parser, s: State, id: Id)
    requires s.Valid(parsed)
    ensures LeadsWell(parsed, s, s.(entries := s.entries - {id}))
  {
    var t := s.(entries := s.entries - {id});
    assert forall f :: t.IsUnderWay(f) == s.IsUnderWay(f) && t.InProgress(f) == s.InProgress(f);
  }

  lemma LeadsWellToItself(parsed: Parser, s: State)
    requires s.Valid(parsed)
    ensures LeadsWell(parsed, s, s)
  {
  }

  lemma LeadsWellTransitive(parsed: Parser, s: State, t: State, u: State)
    requires LeadsWell(parsed, s, t) && LeadsWell(parsed, t, u)
    ensures LeadsWell(parsed, s, u)
  {
    hide State.Valid, State.Gone;
    forall id | s.Gone(id) ensures !ServedSince(u, |s.served|, id) {
      forall k | |s.served| <= k < |u.served| ensures u.served[k].id != id {
        assert k < |t.served| ==> t.served[k] == u.served[k];
      }
    }
  }

  lemma LookedUpKeeps(parsed: Parser, s: State, id: Id)
    requires s.Valid(parsed)
    ensures LeadsWell(parsed, s, LookedUp(s, id))
  {
    if IsFresh(s, id) {
      var t := LookedUp(s, id);
      assert forall f :: t.IsUnderWay(f) == s.IsUnderWay(f) && t.InProgress(f) == s.InProgress(f);
    } else {
      hide State.Valid;
      EntryDropped(parsed, s, id);
      JoinedOrLedKeeps(parsed, s.(entries := s.entries - {id}), id);
      LeadsWellTransitive(parsed, s, s.(entries := s.entries - {id}), LookedUp(s, id));
    }
  }

  lemma PhaseKeeps(parsed: Parser, s: State, f: nat, phase: Phase)
    requires s.Valid(parsed) && f in s.flights
    requires (s.flights[f].phase.Parsing? && phase.Parsed?
              && (phase.result.Some? ==> s.flights[f].id in s.stored && phase.result.value == parsed(s.flights[f].id)))
             || (s.flights[f].phase.Parsed? && phase == Closed(s.flights[f].phase.result))
    ensures LeadsWell(parsed, s, InPhase(s, f, phase))
  {
    var t := InPhase(s, f, phase);
    assert t.Valid(parsed) by {
      assert forall g :: t.InProgress(g) == s.InProgress(g);
    }
    hide State.Valid;
    assert forall g :: t.IsUnderWay(g) ==> g in s.flights && (s.IsUnderWay(g) || s.flights[g].id in s.stored);
  }

  lemma LandedKeeps(parsed: Parser, s: State, f: nat)
    requires s.Valid(parsed) && f in s.flights && s.flights[f].phase.Closed?
    ensures LeadsWell(parsed, s, Landed(s, f))
    ensures s.flights[f].id !in s.entries && s.flights[f].id !in Landed(s, f).inflight
  {
    hide LeadsWell;
    var t := Landed(s, f);
    assert s.InProgress(f);
    assert forall g :: t.InProgress(g) <==> s.InProgress(g) && g != f;
    NothingNew(parsed, s, t);
  }

  lemma CachedKeeps(parsed: Parser, s: State, id: Id)
    requires s.Valid(parsed) && id !in s.entries && id !in s.inflight
    ensures Cached(s, id, parsed(id)).Valid(parsed)
    ensures forall other :: other != id && s.Gone(other) ==> Cached(s, id, parsed(id)).Gone(other)
  {
    var t := Cached(s, id, parsed(id));
    assert forall g :: t.IsUnderWay(g) == s.IsUnderWay(g) && t.InProgress(g) == s.InProgress(g);
  }

  lemma DeliveredKeeps(parsed: Parser, s: State, id: Id, result: Option<Envelope>)
    requires s.Valid(parsed) && (result.Some? ==> result.value == parsed(id))
    ensures Delivered(s, id, result).Valid(parsed)
    ensures forall other :: s.Gone(other) ==> Delivered(s, id, result).Gone(other)
    ensures forall other :: other != id || result.None? ==> !ServedSince(Delivered(s, id, result), |s.served|, other)
    ensures result.Some? ==> ServedSince(Delivered(s, id, result), |s.served|, id)
  {
    var t := Delivered(s, id, result);
    assert forall g :: t.IsUnderWay(g) == s.IsUnderWay(g) && t.InProgress(g) == s.InProgress(g);
    assert result.Some? ==> t.served[|s.served|].id == id;
  }

  lemma FinishedFlightKeeps(parsed: Parser, s: State, f: nat)
    requires s.Valid(parsed) && f in s.flights && s.flights[f].phase.Closed?
    ensures LeadsWell(parsed, s, FinishedFlight(s, f))
    ensures s.flights[f].phase.result.Some? ==> ServedSince(FinishedFlight(s, f), |s.served|, s.flights[f].id)
  {
    var id, result := s.flights[f].id, s.flights[f].phase.result;
    LandedKeeps(parsed, s, f);
    if result.Some? {
      assert s.IsUnderWay(f) && !s.Gone(id);
      assert result.value == parsed(id);
      hide State.Valid, State.Gone, ServedSince;
      CachedKeeps(parsed, Landed(s, f), id);
      DeliveredKeeps(parsed, Cached(Landed(s, f), id, result.value), id, result);
    }
  }

  lemma WaiterLeaves(parsed: Parser, s: State, t: State, f: nat)
    requires s.Valid(parsed) && s.Enabled(Wake(f))
    requires t == s.(flights := s.flights[f := s.flights[f].(waiters := s.flights[f].waiters - 1)])
    ensures t.Valid(parsed) && forall other :: s.Gone(other) ==> t.Gone(other)
    ensures s.flights[f].phase.result.Some? ==> !s.Gone(s.flights[f].id)
  {
    assert forall g :: t.InProgress(g) == s.InProgress(g);
    assert forall g :: t.IsUnderWay(g) ==> s.IsUnderWay(g) && t.flights[g].id == s.flights[g].id;
    assert s.flights[f].phase.result.Some? ==> s.IsUnderWay(f);
  }

  lemma WokenKeeps(parsed: Parser, s: State, f: nat)
    requires s.Valid(parsed) && s.Enabled(Wake(f))
    ensures LeadsWell(parsed, s, Woken(s, f))
    ensures s.flights[f].phase.result.Some? ==> ServedSince(Woken(s, f), |s.served|, s.flights[f].id)
  {
    hide State.Valid, State.Gone, ServedSince;
    var t := s.(flights := s.flights[f := s.flights[f].(waiters := s.flights[f].waiters - 1)]);
    WaiterLeaves(parsed, s, t, f);
    FlightIsFaithful(parsed, s, f);
    DeliveredKeeps(parsed, t, s.flights[f].id, s.flights[f].phase.result);
  }

  lemma WokenIsValid(parsed: Parser, s: State, f: nat)
    requires s.Valid(parsed) && s.Enabled(Wake(f))
    ensures Woken(s, f).Valid(parsed)
  {
    hide State.Valid, State.Gone, ServedSince, Woken;
    WokenKeeps(parsed, s, f);
  }

  lemma FlightIsFaithful(parsed: Parser, s: State, f: nat)
    requires s.Valid(parsed) && f in s.flights && !s.flights[f].phase.Parsing?
    ensures s.flights[f].phase.result.Some? ==> s.flights[f].phase.result.value == parsed(s.flights[f].id)
  {
  }

  /** Nothing that concerns flights and the mailbox changes, and entries only go. */
  lemma EntriesGo(parsed: Parser, s: State, t: State)
    requires s.Valid(parsed) && t == s.(entries := t.entries, timers := t.timers)
    requires t.Timed() && t.entries.Keys <= s.entries.Keys
    requires forall id :: id in t.entries ==> t.entries[id] == s.entries[id]
    ensures LeadsWell(parsed, s, t)
  {
    hide State.Timed;
    assert forall g :: t.IsUnderWay(g) == s.IsUnderWay(g) && t.InProgress(g) == s.InProgress(g);
  }

  lemma TimerStepKeeps(parsed: Parser, s: State, step: Step)
    requires s.Valid(parsed) && s.Enabled(step)
    requires step.Expire? || step.Fire? || step.Invalidate? || step.InvalidateAll?
    ensures LeadsWell(parsed, s, Next(parsed, s, step))
  {
    hide LeadsWell, State.SingleFlight, State.Faithful, State.ServedWell;
    EntriesGo(parsed, s, Next(parsed, s, step));
  }

  lemma OutsideStepKeeps(parsed: Parser, s: State, step: Step)
    requires s.Valid(parsed) && s.Enabled(step)
    requires step.Store? || step.Delete? || step.Tick?
    ensures LeadsWell(parsed, s, Next(parsed, s, step))
  {
    hide LeadsWell;
    var t := Next(parsed, s, step);
    assert t.Valid(parsed) by {
      assert forall g :: t.InProgress(g) == s.InProgress(g);
    }
    hide State.Valid;
    if step.Store? {
      StoredAnew(parsed, s, step.id);
    } else {
      NothingNew(parsed, s, t);
    }
  }

  lemma StoredAnew(parsed: Parser, s: State, id: Id)
    requires id !in s.used && s.(stored := s.stored + {id}, used := s.used + {id}).Valid(parsed)
    ensures LeadsWell(parsed, s, s.(stored := s.stored + {id}, used := s.used + {id}))
  {
    hide State.Valid;
    var t := s.(stored := s.stored + {id}, used := s.used + {id});
    assert forall g :: t.IsUnderWay(g) == s.IsUnderWay(g);
  }

  /** Every step keeps the invariant, and a message that is gone is not served by it and stays gone. */
  lemma StepKeeps(parsed: Parser, s: State, step: Step)
    requires s.Valid(parsed) && s.Enabled(step)
    ensures LeadsWell(parsed, s, Next(parsed, s, step))
  {
    hide State.Valid, LeadsWell;
    match step
    case Lookup(id) => LookedUpKeeps(parsed, s, id);
    case Parse(f, parses) => PhaseKeeps(parsed, s, f, Parsed(ParseResult(parsed, s, s.flights[f].id, parses)));
    case Close(f) => PhaseKeeps(parsed, s, f, Closed(s.flights[f].phase.result));
    case Finish(f) => FinishedFlightKeeps(parsed, s, f);
    case Wake(f) => WokenKeeps(parsed, s, f);
    case Expire(_) => TimerStepKeeps(parsed, s, step);
    case Fire(_) => TimerStepKeeps(parsed, s, step);
    case Invalidate(_) => TimerStepKeeps(parsed, s, step);
    case InvalidateAll => TimerStepKeeps(parsed, s, step);
    case Store(_) => OutsideStepKeeps(parsed, s, step);
    case Delete(_) => OutsideStepKeeps(parsed, s, step);
    case Tick(_) => OutsideStepKeeps(parsed, s, step);
  }

  // ---------------------------------------------------------------- runs

  /** The state after a run. A step that is not enabled does not take place. */
  function After(parsed: Parser, s: State, steps: seq<Step>): State
    decreases |steps|
  {
    if steps == [] then s
    else After(parsed, if s.Enabled(steps[0]) then Next(parsed, s, steps[0]) else s, steps[1..])
  }

  /** Every interleaving: whatever is served is the parse of that message, never from an entry past its
      time, and a message that was gone at the start is not served at all. */
  lemma {:induction false} RunKeeps(parsed: Parser, s: State, steps: seq<Step>)
    requires s.Valid(parsed)
    ensures LeadsWell(parsed, s, After(parsed, s, steps))
    decreases |steps|
  {
    LeadsWellToItself(parsed, s);
    if steps != [] {
      var t := if s.Enabled(steps[0]) then Next(parsed, s, steps[0]) else s;
      if s.Enabled(steps[0]) {
        StepKeeps(parsed, s, steps[0]);
      }
      hide State.Valid, State.Gone;
      RunKeeps(parsed, t, steps[1..]);
      LeadsWellTransitive(parsed, s, t, After(parsed, t, steps[1..]));
    }
  }

  lemma AfterOne(parsed: Parser, s: State, a: Step)
    requires s.Enabled(a)
    ensures After(parsed, s, [a]) == Next(parsed, s, a)
  {
    assert [a][1..] == [];
  }

  lemma AfterTwo(parsed: Parser, s: State, a: Step, b: Step)
    requires s.Enabled(a) && Next(parsed, s, a).Enabled(b)
    ensures After(parsed, s, [a, b]) == Next(parsed, Next(parsed, s, a), b)
  {
    hide Next;
    assert [a, b][1..] == [b];
    AfterOne(parsed, Next(parsed, s, a), b);
  }

  /** A result that is under way can still be served: some steps from here serve it. */
  lemma ResultCanBeServed(parsed: Parser, s: State, id: Id) returns (steps: seq<Step>)
    requires s.Valid(parsed) && s.ResultUnderWay(id)
    ensures ServedSince(After(parsed, s, steps), |s.served|, id)
  {
    var f :| s.IsUnderWay(f) && s.flights[f].id == id;
    if s.flights[f].phase.Parsed? {
      steps := [Close(f), Finish(f)];
      StepKeeps(parsed, s, Close(f));
      AfterTwo(parsed, s, Close(f), Finish(f));
      FinishedFlightKeeps(parsed, Next(parsed, s, Close(f)), f);
    } else if s.flights[f].phase.Closed? {
      steps := [Finish(f)];
      AfterOne(parsed, s, Finish(f));
      FinishedFlightKeeps(parsed, s, f);
    } else {
      steps := [Wake(f)];
      AfterOne(parsed, s, Wake(f));
      WokenKeeps(parsed, s, f);
    }
  }

  lemma DeletedAndInvalidated(parsed: Parser, s: State, id: Id)
    requires s.Valid(parsed) && id in s.used
    ensures var t := After(parsed, s, [Delete(id), Invalidate(id)]);
            && LeadsWell(parsed, s, t) && t.served == s.served
            && (t.Gone(id) <==> !s.ResultUnderWay(id)) && (t.ResultUnderWay(id) <==> s.ResultUnderWay(id))
  {
    AfterTwo(parsed, s, Delete(id), Invalidate(id));
    RunKeeps(parsed, s, [Delete(id), Invalidate(id)]);
    var t := Next(parsed, Next(parsed, s, Delete(id)), Invalidate(id));
    hide LeadsWell, State.Valid;
    assert forall g :: t.IsUnderWay(g) == s.IsUnderWay(g);
  }

  /** After a message has been deleted and its entry invalidated, no run serves it if and only if no
      successful parse of it was under way at that moment, to the cache or to somebody who waits. */
  lemma NeverServedAgainExactlyWhen(parsed: Parser, s: State, id: Id)
    requires s.Valid(parsed) && id in s.used
    ensures var t := After(parsed, s, [Delete(id), Invalidate(id)]);
            (forall steps :: !ServedSince(After(parsed, t, steps), |t.served|, id)) <==> !s.ResultUnderWay(id)
  {
    hide State.ResultUnderWay, State.Valid, After, ServedSince;
    var t := After(parsed, s, [Delete(id), Invalidate(id)]);
    DeletedAndInvalidated(parsed, s, id);
    hide State.Gone;
    if s.ResultUnderWay(id) {
      var steps := ResultCanBeServed(parsed, t, id);
      assert ServedSince(After(parsed, t, steps), |t.served|, id);
    } else {
      forall steps ensures !ServedSince(After(parsed, t, steps), |t.served|, id) {
        RunKeeps(parsed, t, steps);
      }
    }
  }

  /** A run in which it happens: a message is deleted and its entry invalidated while it is being parsed,
      and then it is cached, and a later lookup finds it. */
  lemma DeletedMessageIsServed(parsed: Parser, id: Id)
    ensures var deleted := After(parsed, EMPTY, [Store(id), Lookup(id), Parse(0, true), Delete(id), Invalidate(id)]);
            var t := After(parsed, deleted, [Close(0), Finish(0), Lookup(id)]);
            && deleted.served == [] && id !in deleted.stored && id !in deleted.entries
            && id !in t.stored && IsFresh(t, id)
            && t.served == [Served(id, parsed(id), 0), Served(id, parsed(id), 0)]
  {
    var flight := Flight(id, Parsing, 0);
    var s1 := EMPTY.(stored := {id}, used := {id});
    var s2 := s1.(inflight := map[id := 0], flights := map[0 := flight], next := 1);
    var s3 := s2.(flights := map[0 := flight.(phase := Parsed(Some(parsed(id))))]);
    var s4 := s3.(stored := {});
    var s5 := s4.(flights := map[0 := flight.(phase := Closed(Some(parsed(id))))]);
    var s6 := s5.(flights := map[0 := flight.(phase := Finished(Some(parsed(id))))], inflight := map[], next := 2,
                  entries := map[id := Entry(1, parsed(id), 0)], timers := map[1 := Timer(id, TTL, false)],
                  served := [Served(id, parsed(id), 0)]);
    AfterCons(parsed, EMPTY, s1, [Store(id), Lookup(id), Parse(0, true), Delete(id), Invalidate(id)]);
    AfterCons(parsed, s1, s2, [Lookup(id), Parse(0, true), Delete(id), Invalidate(id)]);
    AfterCons(parsed, s2, s3, [Parse(0, true), Delete(id), Invalidate(id)]);
    AfterCons(parsed, s3, s4, [Delete(id), Invalidate(id)]);
    AfterCons(parsed, s4, s4, [Invalidate(id)]);
    AfterCons(parsed, s4, s5, [Close(0), Finish(0), Lookup(id)]);
    AfterCons(parsed, s5, s6, [Finish(0), Lookup(id)]);
    AfterOne(parsed, s6, Lookup(id));
  }

  lemma AfterCons(parsed: Parser, s: State, t: State, steps: seq<Step>)
    requires steps != [] && s.Enabled(steps[0]) && t == Next(parsed, s, steps[0])
    ensures After(parsed, s, steps) == After(parsed, t, steps[1..])
  {
  }

  // ---------------------------------------------------------------- the cache

  class Cache {
    const parsed: Parser

    var entries: map<Id, Entry>
    var inflight: map<Id, nat>

    var flights: map<nat, Flight>
    var timers: map<nat, Timer>
    var stored: set<Id>
    var used: set<Id>
    var now: int
    var next: nat
    var served: seq<Served>          // what lookups have been given so far

    function Now(): State
      reads this
    {
      State(entries, inflight, flights, timers, stored, used, now, next, served)
    }

    ghost predicate Valid()
      reads this
    {
      Now().Valid(parsed)
    }

    constructor (parsed: Parser)
      ensures Valid() && Now() == EMPTY && this.parsed == parsed
    {
      this.parsed := parsed;
      entries, inflight, flights, timers := map[], map[], map[], map[];
      stored, used, now, next, served := {}, {}, 0, 0, [];
    }

    /** The locked part of a lookup. An entry past its time is dropped; its timer is left to run. */
    method GetCached(id: Id) returns (r: LookupResult)
      requires Valid()
      modifies this`entries, this`inflight, this`flights, this`next, this`served
      ensures Valid() && Now() == LookedUp(old(Now()), id)
      ensures r.Hit? <==> id in old(entries) && now - old(entries)[id].created < TTL
      ensures r.Hit? ==> r.env == parsed(id)
      ensures r.Join? <==> !r.Hit? && id in old(inflight)
      ensures r.Join? ==> r.flight == old(inflight)[id] && inflight == old(inflight)
                          && r.flight in old(flights) && !old(flights)[r.flight].phase.Finished?
                          && old(flights)[r.flight].id == id
      ensures r.Join? ==>
                var flight := old(flights)[r.flight];
                flights == old(flights)[r.flight := flight.(waiters := flight.waiters + 1)]
      ensures r.Lead? ==> id !in old(inflight) && inflight == old(inflight)[id := r.flight] && r.flight !in old(flights)
                          && flights == old(flights)[r.flight := Flight(id, Parsing, 0)]
      ensures r.Hit? ==> flights == old(flights) && inflight == old(inflight)
                         && served == old(served) + [Served(id, r.env, now - old(entries)[id].created)]
      ensures !r.Hit? ==> served == old(served)
    {
      hide LookedUp, State.Valid;
      LookedUpKeeps(parsed, Now(), id);
      LookupCases(parsed, Now(), id);
      if id in entries {
        var entry := entries[id];
        if now - entry.created < TTL {
          served := served + [Served(id, entry.env, now - entry.created)];
          return Hit(entry.env);
        }
        entries := entries - {id};
      }
      assert entries == old(entries) - {id};
      if id in inflight {
        var f := inflight[id];
        flights := flights[f := flights[f].(waiters := flights[f].waiters + 1)];
        return Join(f);
      }
      r := Lead(next);
      flights := flights[next := Flight(id, Parsing, 0)];
      inflight := inflight[id := next];
      next := next + 1;
    }

    method ParseEnvelope(f: nat, parses: bool)
      requires Valid() && Now().Enabled(Parse(f, parses))
      modifies this`flights
      ensures Valid() && Now() == Next(parsed, old(Now()), Parse(f, parses))
      ensures flights[f].phase
              == Parsed(if parses && flights[f].id in stored then Some(parsed(flights[f].id)) else None)
    {
      StepKeeps(parsed, Now(), Parse(f, parses));
      hide State.Valid;
      var id := flights[f].id;
      flights := flights[f := flights[f].(phase := Parsed(if parses && id in stored then Some(parsed(id)) else None))];
    }

    method CloseDone(f: nat)
      requires Valid() && Now().Enabled(Close(f))
      modifies this`flights
      ensures Valid() && Now() == Next(parsed, old(Now()), Close(f))
    {
      StepKeeps(parsed, Now(), Close(f));
      hide State.Valid;
      flights := flights[f := flights[f].(phase := Closed(flights[f].phase.result))];
    }

    /** storeEnvelopeLocked. */
    method StoreEnvelopeLocked(id: Id, env: Envelope)
      modifies this`entries, this`timers, this`next
      ensures Now() == Cached(old(Now()), id, env)
      ensures entries == old(entries)[id := Entry(old(next), env, now)]
      ensures timers == (if id in old(entries) then Stop(old(timers), {old(entries)[id].serial}) else old(timers))
                        [old(next) := Timer(id, now + TTL, false)]
    {
      if id in entries {
        timers := Stop(timers, {entries[id].serial});
      }
      entries := entries[id := Entry(next, env, now)];
      timers := timers[next := Timer(id, now + TTL, false)];
      next := next + 1;
    }

    /** The locked part of the deferred function, and the return to the leader's caller. The id has no entry
        at this point, so that there never is an older timer to stop. */
    method FinishFlight(f: nat)
      requires Valid() && Now().Enabled(Finish(f))
      modifies this`inflight, this`flights, this`entries, this`timers, this`next, this`served
      ensures Valid() && Now() == FinishedFlight(old(Now()), f)
      ensures old(flights)[f].id !in old(entries) && old(flights)[f].id !in inflight
    {
      FinishedFlightKeeps(parsed, Now(), f);
      LandedKeeps(parsed, Now(), f);
      hide State.Valid, Cached;
      var id, result := flights[f].id, flights[f].phase.result;
      inflight := inflight - {id};
      flights := flights[f := flights[f].(phase := Finished(result))];
      if result.Some? {
        StoreEnvelopeLocked(id, result.value);
        served := served + [Served(id, result.value, 0)];
      }
    }

    /** A waiter is released once the parse has been closed. */
    method WakeWaiter(f: nat)
      requires Valid() && Now().Enabled(Wake(f))
      modifies this`flights, this`served
      ensures Valid() && Now() == Woken(old(Now()), f)
      ensures flights[f].waiters == old(flights)[f].waiters - 1
    {
      hide State.Valid;
      WokenIsValid(parsed, Now(), f);
      var result := flights[f].phase.result;
      if result.Some? {
        served := served + [Served(flights[f].id, result.value, 0)];
      }
      flights := flights[f := flights[f].(waiters := flights[f].waiters - 1)];
    }

    method ExpireTimer(t: nat)
      requires Valid() && Now().Enabled(Expire(t))
      modifies this`timers
      ensures Valid() && Now() == Next(parsed, old(Now()), Expire(t))
    {
      StepKeeps(parsed, Now(), Expire(t));
      hide State.Valid;
      timers := timers[t := timers[t].(fired := true)];
    }

    /** The timer's function removes its own entry, and never a newer one under the same id. */
    method FireTimer(t: nat)
      requires Valid() && Now().Enabled(Fire(t))
      modifies this`timers, this`entries
      ensures Valid() && Now() == Fired(old(Now()), t)
      ensures forall id :: id in old(entries) ==> (id in entries <==> old(entries)[id].serial != t)
      ensures forall id :: id in entries ==> id in old(entries) && entries[id] == old(entries)[id]
    {
      StepKeeps(parsed, Now(), Fire(t));
      var id := timers[t].id;
      timers := timers - {t};
      if id in entries && entries[id].serial == t {
        entries := entries - {id};
      }
    }

    method InvalidateEntry(id: Id)
      requires Valid()
      modifies this`timers, this`entries
      ensures Valid() && Now() == Invalidated(old(Now()), id)
      ensures entries == old(entries) - {id}
      ensures timers == if id in old(entries) then Stop(old(timers), {old(entries)[id].serial}) else old(timers)
    {
      StepKeeps(parsed, Now(), Invalidate(id));
      hide State.Valid;
      if id in entries {
        timers := Stop(timers, {entries[id].serial});
        entries := entries - {id};
      }
    }

    method InvalidateAllEntries()
      requires Valid()
      modifies this`timers, this`entries
      ensures Valid() && Now() == AllInvalidated(old(Now()))
      ensures entries == map[]
      ensures forall t :: t in timers ==>
                timers[t].fired || forall id :: id in old(entries) ==> old(entries)[id].serial != t
    {
      StepKeeps(parsed, Now(), InvalidateAll);
      hide State.Valid;
      timers := Stop(timers, set id | id in entries :: entries[id].serial);
      entries := map[];
    }

    /** A message is deleted and its entry invalidated: when this is enough for it never to be served again. */
    method DeleteAndInvalidate(id: Id)
      requires Valid()
      modifies this`stored, this`timers, this`entries
      ensures Valid() && Now() == After(parsed, old(Now()), [Delete(id), Invalidate(id)])
      ensures id in used ==>
                ((forall steps :: !ServedSince(After(parsed, Now(), steps), |served|, id))
                 <==> !old(Now()).ResultUnderWay(id))
    {
      hide State.Valid, State.ResultUnderWay, Invalidated, ServedSince;
      AfterTwo(parsed, Now(), Delete(id), Invalidate(id));
      hide After;
      if id in used {
        NeverServedAgainExactlyWhen(parsed, Now(), id);
      }
      StepKeeps(parsed, Now(), Delete(id));
      stored := stored - {id};
      InvalidateEntry(id);
    }

    /** One step of the cache or of its surroundings. */
    method Take(step: Step)
      requires Valid() && Now().Enabled(step)
      modifies this
      ensures Valid() && Now() == Next(parsed, old(Now()), step)
    {
      hide State.Valid, LookedUp, FinishedFlight, Woken, Fired, Invalidated, AllInvalidated, InPhase;
      StepKeeps(parsed, Now(), step);
      match step
      case Lookup(id) => var _ := GetCached(id);
      case Parse(f, parses) => ParseEnvelope(f, parses);
      case Close(f) => CloseDone(f);
      case Finish(f) => FinishFlight(f);
      case Wake(f) => WakeWaiter(f);
      case Expire(t) => ExpireTimer(t);
      case Fire(t) => FireTimer(t);
      case Invalidate(id) => InvalidateEntry(id);
      case InvalidateAll => InvalidateAllEntries();
      case Store(id) => stored, used := stored + {id}, used + {id};
      case Delete(id) => stored := stored - {id};
      case Tick(elapsed) => now := now + elapsed;
    }

    /** Every interleaving keeps the invariant, and is the run that the lemmas above quantify over. */
    method Run(steps: seq<Step>)
      requires Valid()
      modifies this
      ensures Valid() && Now() == After(parsed, old(Now()), steps)
      ensures LeadsWell(parsed, old(Now()), Now())
    {
      hide State.Valid, Next, LeadsWell;
      RunKeeps(parsed, Now(), steps);
      for i := 0 to |steps|
        invariant Valid()
        invariant After(parsed, Now(), steps[i..]) == After(parsed, old(Now()), steps)
      {
        assert steps[i..][0] == steps[i] && steps[i..][1..] == steps[i + 1..];
        if Now().Enabled(steps[i]) {
          Take(steps[i]);
        }
      }
    }
  }

  /** What a lookup in a valid state finds. */
  lemma LookupCases(parsed: Parser, s: State, id: Id)
    requires s.Valid(parsed)
    ensures id in s.entries ==> s.entries[id].env == parsed(id)
    ensures id in s.inflight ==>
              CanJoin(s, id) && s.InProgress(s.inflight[id]) && s.flights[s.inflight[id]].id == id && id !in s.entries
    ensures s.next !in s.flights
    ensures LookedUp(s, id) == if IsFresh(s, id)
                               then
                                 s.(served := s.served + [Served(id, s.entries[id].env, s.now - s.entries[id].created)])
                               else JoinedOrLed(s.(entries := s.entries - {id}), id)
  {
  }

  /** An entry past its time has a timer that is due: it does not stay. */
  lemma OverdueEntryIsAboutToGo(parsed: Parser, s: State, id: Id)
    requires s.Valid(parsed) && id in s.entries && s.now - s.entries[id].created >= TTL
    ensures s.Enabled(Expire(s.entries[id].serial))
    ensures var t := s.entries[id].serial;
            id !in After(parsed, s, [Expire(t), Fire(t)]).entries
  {
    var t := s.entries[id].serial;
    AfterTwo(parsed, s, Expire(t), Fire(t));
  }
}
