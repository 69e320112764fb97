/**
 * When a share can be evaluated twice within the retention time. The clock is read before
 * the guard is locked, so the guard need not see its instants in order.
 */
module ShareInstants {
  import opened Wrappers
  import opened SubmitGuards
  import opened SubmitRuns

  /** A key is evaluated at `i` and again at `j`, within the retention time. */
  ghost predicate EvaluatesTooSoon(b: Bounds, states: seq<System>, events: seq<Event>, answers: seq<Option<Outcome>>,
                                   i: nat, j: nat)
  {
    && Run(b, states, events, answers) && i < j < |events| && events[i].key == events[j].key
    && EvaluatesAt(events, answers, i) && EvaluatesAt(events, answers, j)
    && events[j].now <= events[i].now + b.ttl
  }

  /** The instants of the events are some of `nows`, in their order: those at `places`. */
  ghost predicate DrawnFrom(events: seq<Event>, nows: seq<nat>, places: seq<nat>) {
    && |places| == |events|
    && (forall k :: 0 <= k < |places| ==> places[k] < |nows| && events[k].now == nows[places[k]])
    && (forall k, k' :: 0 <= k < k' < |places| ==> places[k] < places[k'])
  }

  /**
   * A start at `p`, its outcome in time at `q` (or `p` again, if it dies), an instant at `r`
   * past the time of that, and one at `s` that is nevertheless within the time of the start.
   */
  predicate ComesBack(b: Bounds, nows: seq<nat>, p: nat, q: nat, r: nat, s: nat) {
    && p <= q < r <= s < |nows|
    && nows[q] <= nows[p] + b.ttl && nows[r] > nows[q] + b.ttl && nows[s] <= nows[p] + b.ttl
  }

  ghost predicate AllowsEarlyEvaluation(b: Bounds, nows: seq<nat>) {
    b.maxEntries > 0 && exists p: nat, q: nat, r: nat, s: nat :: ComesBack(b, nows, p, q, r, s)
  }

  // ---------- it takes such instants ----------

  lemma EarlyEvaluationNeeds(b: Bounds, states: seq<System>, events: seq<Event>, answers: seq<Option<Outcome>>,
                             i: nat, j: nat, nows: seq<nat>, places: seq<nat>)
    requires EvaluatesTooSoon(b, states, events, answers, i, j) && DrawnFrom(events, nows, places)
    ensures AllowsEarlyEvaluation(b, nows)
  {
    if b.maxEntries == 0 {
      NoRoomNoReturn(b, states, events, answers, i, j);
      assert false;
    }
    EvaluatedTwice(b, states, events, answers, i, j);
    Places(b, events, i, j, nows, places);
  }

  lemma Places(b: Bounds, events: seq<Event>, i: nat, j: nat, nows: seq<nat>, places: seq<nat>)
    requires DrawnFrom(events, nows, places) && i < j < |events| && events[i].Check?
    requires exists f: nat, l: nat ::
               && LastSetAt(events, i, f) && f < l <= j
               && events[f].now <= events[i].now + b.ttl && events[l].now > events[f].now + b.ttl
    requires events[j].now <= events[i].now + b.ttl
    ensures exists p: nat, q: nat, r: nat, s: nat :: ComesBack(b, nows, p, q, r, s)
  {
    var f: nat, l: nat :|
      && LastSetAt(events, i, f) && f < l <= j
      && events[f].now <= events[i].now + b.ttl && events[l].now > events[f].now + b.ttl;
    assert ComesBack(b, nows, places[i], places[f], places[l], places[j]);
  }

  /** A guard that may hold nothing starts an evaluation at each event, each past the time of the one before. */
  lemma NoRoom(b: Bounds, states: seq<System>, events: seq<Event>, answers: seq<Option<Outcome>>, n: nat)
    requires Run(b, states, events, answers) && b.maxEntries == 0 && n + 1 < |events|
    ensures events[n + 1].now > events[n].now + b.ttl
  {
    RunIsTrace(b, states, events, answers);
    TraceKeepsInv(b, states, events, answers, n);
    assert Takes(b, states[n], events[n], states[n + 1], answers[n]);
    assert Takes(b, states[n + 1], events[n + 1], states[n + 2], answers[n + 1]);
    NoRoomStep(b, states[n], events[n]);
    Emptied(states[n + 1].guard, events[n + 1].now, b.ttl, events[n].key);
  }

  lemma NoRoomStep(b: Bounds, s: System, e: Event)
    requires Inv(s) && Enabled(s, e) && Timely(b, s, e) && b.maxEntries == 0
    ensures e.key in After(b, s, e).guard.entries && After(b, s, e).guard.entries[e.key].ts == e.now
  {
    ExpireKeeps(s.guard, e.now, b.ttl);
    PruneTwice(s.guard, e.now, b);
  }

  lemma Emptied(g: Guard<Outcome>, now: nat, ttl: nat, key: string)
    requires key in g.entries && |Expire(g, now, ttl).entries| == 0
    ensures Since(now, g.entries[key].ts) > ttl
  {
    ExpireKeeps(g, now, ttl);
  }

  lemma {:induction false} NoRoomNoReturn(b: Bounds, states: seq<System>, events: seq<Event>,
                                          answers: seq<Option<Outcome>>, i: nat, j: nat)
    requires Run(b, states, events, answers) && b.maxEntries == 0 && i < j < |events|
    ensures events[j].now > events[i].now + b.ttl
  {
    NoRoom(b, states, events, answers, j - 1);
    if i < j - 1 {
      NoRoomNoReturn(b, states, events, answers, i, j - 1);
    }
  }

  // ---------- a run for any such instants ----------

  function One(key: string, t: nat, o: Outcome): Guard<Outcome> {
    Guard(map[key := Entry(t, o)], [key])
  }

  lemma ExpireOne(key: string, t: nat, o: Outcome, now: nat, ttl: nat)
    ensures Expire(One(key, t, o), now, ttl) == if Since(now, t) > ttl then START.guard else One(key, t, o)
    ensures |One(key, t, o).entries| == 1
  {
    var g := One(key, t, o);
    assert g.order[1..] == [] && g.entries - {key} == map[];
    assert g.entries.Keys == {key};
  }

  /** A check, while nothing runs, that finds the guard empty or its one entry past its time. */
  lemma CheckAlone(b: Bounds, s: System, e: Event, s': System, key: string, t: nat, o: Outcome)
    requires e.Check? && s.running == map[]
    requires s.guard == START.guard || (s.guard == One(key, t, o) && Since(e.now, t) > b.ttl)
    requires s' == Started(s, One(e.key, e.now, InFlight), e)
    ensures Takes(b, s, e, s', None)
  {
    ExpireOne(key, t, o, e.now, b.ttl);
    assert Prune(s.guard, e.now, b) == START.guard && Prune(START.guard, e.now, b) == START.guard;
  }

  /** A check that finds another key's entry. */
  lemma CheckBeside(b: Bounds, s: System, e: Event, key: string, t: nat, o: Outcome)
    requires e.Check? && e.task !in s.running
    requires forall t :: t in s.running ==> Since(e.now, s.running[t].since) <= b.ttl
    requires s.guard == One(key, t, o) && Since(e.now, t) <= b.ttl && key != e.key && b.maxEntries > 0
    ensures Takes(b, s, e, After(b, s, e), None)
  {
    ExpireOne(key, t, o, e.now, b.ttl);
    assert Prune(s.guard, e.now, b) == s.guard;
  }

  lemma FinishOne(b: Bounds, s: System, e: Event, s': System, t: nat)
    requires e.Finish? && e.outcome != InFlight && s.running == map[e.task := Running(e.key, t)]
    requires s.guard == One(e.key, t, InFlight) && Since(e.now, t) <= b.ttl && b.maxEntries > 0
    requires s' == System(One(e.key, e.now, e.outcome), map[], s.crashed)
    ensures Takes(b, s, e, s', None)
  {
    ExpireOne(e.key, t, InFlight, e.now, b.ttl);
    assert Prune(s.guard, e.now, b) == s.guard;
    assert s.guard.entries[e.key := Entry(e.now, e.outcome)] == map[e.key := Entry(e.now, e.outcome)];
    assert s.running - {e.task} == map[];
  }

  /** A run goes on with a check that finds the guard empty or its one entry past its time. */
  lemma GoesOnAlone(b: Bounds, states: seq<System>, events: seq<Event>, answers: seq<Option<Outcome>>,
                    e: Event, s': System, key: string, t: nat, o: Outcome)
    requires Run(b, states, events, answers) && e.Check? && states[|events|].running == map[]
    requires var s := states[|events|];
             && (s.guard == START.guard || (s.guard == One(key, t, o) && Since(e.now, t) > b.ttl))
             && s' == Started(s, One(e.key, e.now, InFlight), e)
    ensures Run(b, states + [s'], events + [e], answers + [None])
  {
    CheckAlone(b, states[|events|], e, s', key, t, o);
    Extend(b, states, events, answers, e, s', None);
  }

  /** A run goes on with a check that finds another key's entry. */
  lemma GoesOnBeside(b: Bounds, states: seq<System>, events: seq<Event>, answers: seq<Option<Outcome>>,
                     e: Event, key: string, t: nat, o: Outcome)
    requires Run(b, states, events, answers) && e.Check? && e.task !in states[|events|].running
    requires var running := states[|events|].running;
             forall t :: t in running ==> Since(e.now, running[t].since) <= b.ttl
    requires states[|events|].guard == One(key, t, o) && Since(e.now, t) <= b.ttl && key != e.key && b.maxEntries > 0
    ensures Run(b, states + [After(b, states[|events|], e)], events + [e], answers + [None])
  {
    CheckBeside(b, states[|events|], e, key, t, o);
    Extend(b, states, events, answers, e, After(b, states[|events|], e), None);
  }

  lemma Extend(b: Bounds, states: seq<System>, events: seq<Event>, answers: seq<Option<Outcome>>,
               e: Event, s': System, answer: Option<Outcome>)
    requires Run(b, states, events, answers) && Takes(b, states[|events|], e, s', answer)
    ensures Run(b, states + [s'], events + [e], answers + [answer])
  {
  }

  lemma StartRun(b: Bounds)
    ensures Run(b, [START], [], [])
  {
  }

  /** After a run that left the entry of `a` alone: a look-up of `b` past its time, and then one of `a`. */
  lemma LookAndCheck(b: Bounds, states: seq<System>, events: seq<Event>, answers: seq<Option<Outcome>>,
                     t: nat, o: Outcome, t1: nat, t2: nat)
    returns (states': seq<System>)
    requires Run(b, states, events, answers) && states[|events|].running == map[] && b.maxEntries > 0
    requires states[|events|].guard == One("a", t, o) && t1 > t + b.ttl && t2 <= t1
    ensures Run(b, states', events + [Check(1, "b", t1, false)] + [Check(2, "a", t2, false)], answers + [None] + [None])
  {
    var s := states[|events|];
    var look, check := Check(1, "b", t1, false), Check(2, "a", t2, false);
    var s' := Started(s, One("b", t1, InFlight), look);
    GoesOnAlone(b, states, events, answers, look, s', "a", t, o);
    GoesOnBeside(b, states + [s'], events + [look], answers + [None], check, "b", t1, InFlight);
    states' := states + [s'] + [After(b, s', check)];
  }

  /** Two evaluations of `a`, the first of which dies, and a look-up of `b` that comes too late for it. */
  lemma AfterDeath(b: Bounds, t0: nat, t1: nat, t2: nat)
    returns (states: seq<System>, events: seq<Event>, answers: seq<Option<Outcome>>)
    requires b.maxEntries > 0 && t1 > t0 + b.ttl >= t2
    ensures events == [Check(0, "a", t0, true), Check(1, "b", t1, false), Check(2, "a", t2, false)]
    ensures EvaluatesTooSoon(b, states, events, answers, 0, 2)
  {
    var first := Check(0, "a", t0, true);
    var s1 := Started(START, One("a", t0, InFlight), first);
    StartRun(b);
    GoesOnAlone(b, [START], [], [], first, s1, "a", 0, InFlight);
    states := LookAndCheck(b, [START] + [s1], [] + [first], [] + [None], t0, InFlight, t1, t2);
    events := [] + [first] + [Check(1, "b", t1, false)] + [Check(2, "a", t2, false)];
    answers := [] + [None] + [None] + [None];
  }

  /** An evaluation of `a` from start to outcome. */
  lemma Opening(b: Bounds, t0: nat, t1: nat) returns (states: seq<System>)
    requires b.maxEntries > 0 && t1 <= t0 + b.ttl
    ensures Run(b, states, [Check(0, "a", t0, false), Finish(0, "a", t1, Accepted)], [None, None])
    ensures states[2] == System(One("a", t1, Accepted), map[], map[])
  {
    var check, finish := Check(0, "a", t0, false), Finish(0, "a", t1, Accepted);
    var s1 := System(One("a", t0, InFlight), map[0 := Running("a", t0)], map[]);
    assert START.crashed - {"a"} == map[];
    StartRun(b);
    GoesOnAlone(b, [START], [], [], check, s1, "a", 0, InFlight);
    var s2 := System(One("a", t1, Accepted), map[], map[]);
    FinishOne(b, s1, finish, s2, t0);
    Extend(b, [START] + [s1], [] + [check], [] + [None], finish, s2, None);
    states := [START] + [s1] + [s2];
    assert [] + [check] + [finish] == [check, finish];
  }

  /** Two evaluations of `a`, the second past the time of the first's outcome. */
  lemma AfterOutcome(b: Bounds, t0: nat, t1: nat, t2: nat)
    returns (states: seq<System>, events: seq<Event>, answers: seq<Option<Outcome>>)
    requires b.maxEntries > 0 && t1 <= t0 + b.ttl && t2 > t1 + b.ttl && t2 <= t0 + b.ttl
    ensures events == [Check(0, "a", t0, false), Finish(0, "a", t1, Accepted), Check(2, "a", t2, false)]
    ensures EvaluatesTooSoon(b, states, events, answers, 0, 2)
  {
    var opening := [Check(0, "a", t0, false), Finish(0, "a", t1, Accepted)];
    var check := Check(2, "a", t2, false);
    var before := Opening(b, t0, t1);
    var s' := Started(before[2], One("a", t2, InFlight), check);
    GoesOnAlone(b, before, opening, [None, None], check, s', "a", t1, Accepted);
    states, events, answers := before + [s'], opening + [check], [None, None] + [None];
  }

  /** Two evaluations of `a`, and a look-up of `b` that comes too late for the outcome of the first. */
  lemma AfterLateLook(b: Bounds, t0: nat, t1: nat, t2: nat, t3: nat)
    returns (states: seq<System>, events: seq<Event>, answers: seq<Option<Outcome>>)
    requires b.maxEntries > 0 && t1 <= t0 + b.ttl && t2 > t1 + b.ttl && t3 <= t0 + b.ttl && t3 <= t1 + b.ttl
    ensures events == [Check(0, "a", t0, false), Finish(0, "a", t1, Accepted), Check(1, "b", t2, false),
                       Check(2, "a", t3, false)]
    ensures EvaluatesTooSoon(b, states, events, answers, 0, 3)
  {
    var opening := [Check(0, "a", t0, false), Finish(0, "a", t1, Accepted)];
    var before := Opening(b, t0, t1);
    states := LookAndCheck(b, before, opening, [None, None], t1, Accepted, t2, t3);
    events := opening + [Check(1, "b", t2, false)] + [Check(2, "a", t3, false)];
    answers := [None, None] + [None] + [None];
  }

  lemma EarlyEvaluationHappens(b: Bounds, nows: seq<nat>, p: nat, q: nat, r: nat, s: nat)
    returns (states: seq<System>, events: seq<Event>, answers: seq<Option<Outcome>>, j: nat, places: seq<nat>)
    requires b.maxEntries > 0 && ComesBack(b, nows, p, q, r, s)
    ensures DrawnFrom(events, nows, places) && EvaluatesTooSoon(b, states, events, answers, 0, j)
  {
    if p == q {
      places, j := [p, r, s], 2;
      states, events, answers := AfterDeath(b, nows[p], nows[r], nows[s]);
    } else if nows[s] > nows[q] + b.ttl {
      places, j := [p, q, s], 2;
      states, events, answers := AfterOutcome(b, nows[p], nows[q], nows[s]);
    } else {
      places, j := [p, q, r, s], 3;
      states, events, answers := AfterLateLook(b, nows[p], nows[q], nows[r], nows[s]);
    }
  }

  ghost predicate SomeEarlyEvaluation(b: Bounds, nows: seq<nat>) {
    exists states, events, answers, i, j, places ::
      DrawnFrom(events, nows, places) && EvaluatesTooSoon(b, states, events, answers, i, j)
  }

  /**
   * For any instants, some timely run at some of them, in their order, evaluates a key twice
   * within the retention time exactly when they come back in this way.
   */
  lemma EarlyEvaluationsExactly(b: Bounds, nows: seq<nat>)
    ensures SomeEarlyEvaluation(b, nows) <==> AllowsEarlyEvaluation(b, nows)
  {
    if states, events, answers, i, j, places :|
      DrawnFrom(events, nows, places) && EvaluatesTooSoon(b, states, events, answers, i, j)
    {
      EarlyEvaluationNeeds(b, states, events, answers, i, j, nows, places);
    }
    if AllowsEarlyEvaluation(b, nows) {
      var p: nat, q: nat, r: nat, s: nat :| ComesBack(b, nows, p, q, r, s);
      var states, events, answers, j, places := EarlyEvaluationHappens(b, nows, p, q, r, s);
    }
  }

  /** Instants in order do not: then a key is evaluated at most once in any retention time. */
  lemma OrderedEvaluations(b: Bounds, nows: seq<nat>)
    requires forall k, k' :: 0 <= k <= k' < |nows| ==> nows[k] <= nows[k']
    ensures !AllowsEarlyEvaluation(b, nows)
  {
  }

  /** Others do: started and recorded at 0, forgotten at a look-up of another key at 11, and evaluated again at 5. */
  lemma EvaluatedTwiceTooSoon(b: Bounds)
    returns (states: seq<System>, events: seq<Event>, answers: seq<Option<Outcome>>)
    requires b == Bounds(10, 5)
    ensures events == [Check(0, "a", 0, false), Finish(0, "a", 0, Accepted), Check(1, "b", 11, false),
                       Check(2, "a", 5, false)]
    ensures EvaluatesTooSoon(b, states, events, answers, 0, 3)
  {
    states, events, answers := AfterLateLook(b, 0, 0, 11, 5);
  }
}
