/** Every lookup is answered once: those that join a parse are counted, and each of them is woken with its result. */
module EnvelopeAnswers {
  import opened Basics
  import opened EnvelopeCache

  function Waiters(s: State, f: nat): nat {
    if f in s.flights then s.flights[f].waiters else 0
  }

  /** The step is a lookup that joins the flight. */
  predicate JoinsFlight(s: State, step: Step, f: nat) {
    step.Lookup? && !IsFresh(s, step.id) && step.id in s.inflight && s.inflight[step.id] == f
  }

  predicate WakesFrom(s: State, step: Step, f: nat) {
    step == Wake(f) && s.Enabled(step)
  }

  function StepFrom(parsed: Parser, s: State, step: Step): State {
    if s.Enabled(step) then Next(parsed, s, step) else s
  }

  function Joins(parsed: Parser, s: State, steps: seq<Step>, f: nat): nat
    decreases |steps|
  {
    if steps == [] then 0
    else (if JoinsFlight(s, steps[0], f) then 1 else 0) + Joins(parsed, StepFrom(parsed, s, steps[0]), steps[1..], f)
  }

  function Wakes(parsed: Parser, s: State, steps: seq<Step>, f: nat): nat
    decreases |steps|
  {
    if steps == [] then 0
    else (if WakesFrom(s, steps[0], f) then 1 else 0) + Wakes(parsed, StepFrom(parsed, s, steps[0]), steps[1..], f)
  }

  /** What a lookup does: it is served from an entry within its time, or waits with the others for the parse that is
      in flight, or leads a new parse. */
  lemma LookupJoins(parsed: Parser, s: State, id: Id)
    requires s.Valid(parsed)
    ensures var t, hit := Next(parsed, s, Lookup(id)), IsFresh(s, id);
            && t.served == (if hit then s.served + [Served(id, parsed(id), s.now - s.entries[id].created)]
                            else s.served)
            && t.inflight == (if hit || id in s.inflight then s.inflight else s.inflight[id := s.next])
            && (forall f :: Waiters(t, f) == Waiters(s, f) + if JoinsFlight(s, Lookup(id), f) then 1 else 0)
            && t.flights.Keys == s.flights.Keys + (if hit || id in s.inflight then {} else {s.next})
            && (!hit && id !in s.inflight ==> t.flights[s.next] == Flight(id, Parsing, 0))
  {
    LookupCases(parsed, s, id);
  }

  /** A waiter that wakes gets the result of the parse, and is no longer waiting. */
  lemma WakeAnswers(parsed: Parser, s: State, f: nat)
    requires s.Valid(parsed) && s.Enabled(Wake(f))
    ensures var t, flight := Next(parsed, s, Wake(f)), s.flights[f];
            && t.flights == s.flights[f := flight.(waiters := flight.waiters - 1)]
            && t.served
               == s.served + (if flight.phase.result.Some? then [Served(flight.id, parsed(flight.id), 0)] else [])
            && t.inflight == s.inflight && t.stored == s.stored
  {
    FlightIsFaithful(parsed, s, f);
  }

  lemma OthersWait(parsed: Parser, s: State, step: Step, f: nat)
    requires s.Valid(parsed) && s.Enabled(step) && !step.Lookup? && !step.Wake?
    ensures Waiters(Next(parsed, s, step), f) == Waiters(s, f)
  {
    hide State.Valid;
  }

  lemma StepCounts(parsed: Parser, s: State, step: Step, f: nat)
    requires s.Valid(parsed)
    ensures StepFrom(parsed, s, step).Valid(parsed)
    ensures Waiters(s, f) + (if JoinsFlight(s, step, f) then 1 else 0)
            == (if WakesFrom(s, step, f) then 1 else 0) + Waiters(StepFrom(parsed, s, step), f)
  {
    hide State.Valid, Next, JoinsFlight;
    if s.Enabled(step) {
      StepKeeps(parsed, s, step);
      match step
      case Lookup(id) => LookupJoins(parsed, s, id);
      case Wake(g) => WakeAnswers(parsed, s, g); NoJoin(s, step, f);
      case _ => OthersWait(parsed, s, step, f); NoJoin(s, step, f);
    } else {
      NoJoin(s, step, f);
    }
  }

  lemma NoJoin(s: State, step: Step, f: nat)
    ensures !step.Lookup? ==> !JoinsFlight(s, step, f)
    ensures step.Lookup? ==> s.Enabled(step)
  {
  }

  /** On every run: who has joined a parse has been woken from it or still waits for it. */
  lemma {:induction false} JoinsAreWakesAndWaiters(parsed: Parser, s: State, steps: seq<Step>, f: nat)
    requires s.Valid(parsed)
    ensures Waiters(s, f) + Joins(parsed, s, steps, f)
            == Wakes(parsed, s, steps, f) + Waiters(After(parsed, s, steps), f)
    decreases |steps|
  {
    if steps != [] {
      hide State.Valid, JoinsFlight, WakesFrom, Waiters;
      StepCounts(parsed, s, steps[0], f);
      JoinsAreWakesAndWaiters(parsed, StepFrom(parsed, s, steps[0]), steps[1..], f);
    }
  }

  // ---------------------------------------------------------------- everybody is answered

  function Times<T>(n: nat, x: T): seq<T> {
    seq(n, _ => x)
  }

  /** What is left of a parse, up to its return. */
  function Remaining(s: State, f: nat, parses: bool): seq<Step>
    requires f in s.flights
  {
    match s.flights[f].phase
    case Parsing => [Parse(f, parses), Close(f), Finish(f)]
    case Parsed(_) => [Close(f), Finish(f)]
    case Closed(_) => [Finish(f)]
    case Finished(_) => []
  }

  function Outcome(parsed: Parser, s: State, f: nat, parses: bool): Option<Envelope>
    requires f in s.flights
  {
    if !s.flights[f].phase.Parsing? then s.flights[f].phase.result
    else if parses && s.flights[f].id in s.stored then Some(parsed(s.flights[f].id))
    else None
  }

  /** So many answers with the outcome of a flight: its message, if there is one. */
  function Answers(parsed: Parser, id: Id, outcome: Option<Envelope>, n: nat): seq<Served> {
    if outcome.None? then [] else Times(n, Served(id, parsed(id), 0))
  }

  lemma NoAnswers(parsed: Parser, s: State, id: Id, outcome: Option<Envelope>)
    ensures Answers(parsed, id, outcome, 0) == [] && After(parsed, s, Times(0, Wake(0))) == s
  {
  }

  lemma OneMoreAnswer(parsed: Parser, id: Id, outcome: Option<Envelope>, n: nat)
    requires n > 0
    ensures Answers(parsed, id, outcome, n)
            == (if outcome.Some? then [Served(id, parsed(id), 0)] else []) + Answers(parsed, id, outcome, n - 1)
  {
  }

  lemma {:induction false} WaitersWake(parsed: Parser, s: State, f: nat, n: nat)
    requires s.Valid(parsed) && f in s.flights && s.flights[f].waiters == n
    requires s.flights[f].phase.Closed? || s.flights[f].phase.Finished?
    ensures var t, flight := After(parsed, s, Times(n, Wake(f))), s.flights[f];
            && t.flights == s.flights[f := flight.(waiters := 0)]
            && t.served == s.served + Answers(parsed, flight.id, flight.phase.result, n)
    decreases n
  {
    hide State.Valid, Next, Answers, After;
    var flight := s.flights[f];
    NoAnswers(parsed, s, flight.id, flight.phase.result);
    assert n == 0 ==> Times(n, Wake(f)) == Times(0, Wake(0));
    if n > 0 {
      var t := Next(parsed, s, Wake(f));
      WakeAnswers(parsed, s, f);
      StepKeeps(parsed, s, Wake(f));
      AfterCons(parsed, s, t, Times(n, Wake(f)));
      assert Times(n, Wake(f))[1..] == Times(n - 1, Wake(f));
      WaitersWake(parsed, t, f, n - 1);
      OneMoreAnswer(parsed, flight.id, flight.phase.result, n);
    }
  }

  lemma {:induction false} AfterConcat(parsed: Parser, s: State, a: seq<Step>, b: seq<Step>)
    ensures After(parsed, s, a + b) == After(parsed, After(parsed, s, a), b)
    decreases |a|
  {
    if a == [] {
      assert a + b == b;
    } else {
      hide Next;
      assert (a + b)[1..] == a[1..] + b;
      AfterConcat(parsed, StepFrom(parsed, s, a[0]), a[1..], b);
    }
  }

  lemma ParsedNow(parsed: Parser, s: State, f: nat, parses: bool)
    requires s.Valid(parsed) && f in s.flights && s.flights[f].phase.Parsing?
    ensures var t := After(parsed, s, [Parse(f, parses)]);
            && t.Valid(parsed) && t.served == s.served
            && t.flights == s.flights[f := s.flights[f].(phase := Parsed(Outcome(parsed, s, f, parses)))]
  {
    AfterOne(parsed, s, Parse(f, parses));
    StepKeeps(parsed, s, Parse(f, parses));
  }

  lemma ClosedNow(parsed: Parser, s: State, f: nat)
    requires s.Valid(parsed) && f in s.flights && s.flights[f].phase.Parsed?
    ensures var t := After(parsed, s, [Close(f)]);
            && t.Valid(parsed) && t.served == s.served
            && t.flights == s.flights[f := s.flights[f].(phase := Closed(s.flights[f].phase.result))]
  {
    AfterOne(parsed, s, Close(f));
    StepKeeps(parsed, s, Close(f));
  }

  lemma FinishedNow(parsed: Parser, s: State, f: nat)
    requires s.Valid(parsed) && f in s.flights && s.flights[f].phase.Closed?
    ensures var t, flight := After(parsed, s, [Finish(f)]), s.flights[f];
            && t.Valid(parsed) && t.served == s.served + Answers(parsed, flight.id, flight.phase.result, 1)
            && t.flights == s.flights[f := flight.(phase := Finished(flight.phase.result))]
            && t.inflight == s.inflight - {flight.id}
            && (flight.phase.result.Some? ==> IsFresh(t, flight.id) && t.entries[flight.id].env == parsed(flight.id))
  {
    AfterOne(parsed, s, Finish(f));
    StepKeeps(parsed, s, Finish(f));
    FlightIsFaithful(parsed, s, f);
  }

  /** A parse that is in flight comes to its end: its caller has the outcome, and a message is cached. */
  lemma ParseEnds(parsed: Parser, s: State, f: nat, parses: bool)
    requires s.InProgress(f) && s.Valid(parsed)
    ensures var t, flight := After(parsed, s, Remaining(s, f, parses)), s.flights[f];
            var outcome := Outcome(parsed, s, f, parses);
            && t.Valid(parsed) && t.served == s.served + Answers(parsed, flight.id, outcome, 1)
            && t.flights == s.flights[f := flight.(phase := Finished(outcome))]
            && flight.id !in t.inflight
            && (outcome.Some? ==> IsFresh(t, flight.id) && t.entries[flight.id].env == parsed(flight.id))
  {
    hide State.Valid, After;
    var s1 := s;
    if s.flights[f].phase.Parsing? {
      ParsedNow(parsed, s, f, parses);
      s1 := After(parsed, s, [Parse(f, parses)]);
      AfterConcat(parsed, s, [Parse(f, parses)], [Close(f), Finish(f)]);
      assert [Parse(f, parses)] + [Close(f), Finish(f)] == [Parse(f, parses), Close(f), Finish(f)];
    }
    var s2 := s1;
    if s1.flights[f].phase.Parsed? {
      ClosedNow(parsed, s1, f);
      s2 := After(parsed, s1, [Close(f)]);
      AfterConcat(parsed, s1, [Close(f)], [Finish(f)]);
      assert [Close(f)] + [Finish(f)] == [Close(f), Finish(f)];
    }
    FinishedNow(parsed, s2, f);
  }

  /** From any state, when the parse goes on and everybody who waits is woken: exactly one answer each, for the caller
      and for everybody who has joined, the message if the parse succeeds, and nobody waits any more. */
  lemma EverybodyIsAnswered(parsed: Parser, s: State, f: nat, parses: bool)
    requires s.Valid(parsed) && s.InProgress(f)
    ensures var n, flight, outcome := s.flights[f].waiters, s.flights[f], Outcome(parsed, s, f, parses);
            var t := After(parsed, s, Remaining(s, f, parses) + Times(n, Wake(f)));
            && t.served == s.served + Answers(parsed, flight.id, outcome, n + 1)
            && t.flights == s.flights[f := Flight(flight.id, Finished(outcome), 0)]
  {
    hide State.Valid, After, Remaining;
    var n, flight, outcome := s.flights[f].waiters, s.flights[f], Outcome(parsed, s, f, parses);
    AfterConcat(parsed, s, Remaining(s, f, parses), Times(n, Wake(f)));
    ParseEnds(parsed, s, f, parses);
    var t := After(parsed, s, Remaining(s, f, parses));
    WaitersWake(parsed, t, f, n);
    assert Answers(parsed, flight.id, outcome, n + 1)
        == Answers(parsed, flight.id, outcome, 1) + Answers(parsed, flight.id, outcome, n);
  }
}
