/**
 * Concurrent share submissions. A task first looks its key up and, if it is new, records
 * it as in flight, in one critical section; then it evaluates the share; then it records
 * the outcome. The steps of any number of tasks interleave in any way.
 */
module SubmitRuns {
  import opened Wrappers
  import opened Caching
  import opened SubmitGuards

  datatype Outcome = InFlight | Accepted | Stale | LowDiff | Bad

  datatype Running = Running(key: string, since: nat)

  /** `crashed`: the keys whose last evaluation died, and since when. */
  datatype System = System(guard: Guard<Outcome>, running: map<nat, Running>, crashed: map<string, nat>)

  const START := System(Guard(map[], []), map[], map[])

  /** An evaluation that `dies` panics before it comes to an outcome, and does nothing more. */
  datatype Event =
    | Check(task: nat, key: string, now: nat, dies: bool)
    | Finish(task: nat, key: string, now: nat, outcome: Outcome)

  predicate Enabled(s: System, e: Event) {
    match e
    case Check(t, _, _, _) => t !in s.running
    case Finish(t, key, _, outcome) => t in s.running && s.running[t].key == key && outcome != InFlight
  }

  /** A new evaluation, one that will finish or one that will not. */
  function Started(s: System, guard: Guard<Outcome>, e: Event): System
    requires e.Check?
  {
    if e.dies then System(guard, s.running, s.crashed[e.key := e.now])
    else System(guard, s.running[e.task := Running(e.key, e.now)], s.crashed - {e.key})
  }

  function After(b: Bounds, s: System, e: Event): System {
    var pruned := Prune(s.guard, e.now, b);
    match e
    case Check(t, key, now, _) =>
      if key in pruned.entries then s.(guard := pruned)
      else Started(s, Added(Prune(pruned, now, b), key, now, InFlight), e)
    case Finish(t, key, now, outcome) =>
      System(Refreshed(pruned, key, now, outcome), s.running - {t}, s.crashed)
  }

  /** What a look-up answers: nothing if the key is new and will be evaluated. */
  function Answer(b: Bounds, s: System, e: Event): Option<Outcome> {
    var pruned := Prune(s.guard, e.now, b);
    if e.Check? && e.key in pruned.entries then Some(pruned.entries[e.key].outcome) else None
  }

  /** No evaluation is older than the retention time, and nothing is evicted for capacity. */
  ghost predicate Timely(b: Bounds, s: System, e: Event) {
    && (forall t :: t in s.running ==> Since(e.now, s.running[t].since) <= b.ttl)
    && |Expire(s.guard, e.now, b.ttl).entries| <= b.maxEntries
  }

  ghost predicate Takes(b: Bounds, s: System, e: Event, s': System, answer: Option<Outcome>) {
    Enabled(s, e) && Timely(b, s, e) && s' == After(b, s, e) && answer == Answer(b, s, e)
  }

  ghost predicate Run(b: Bounds, states: seq<System>, events: seq<Event>, answers: seq<Option<Outcome>>) {
    && |states| == |events| + 1 && |answers| == |events|
    && states[0] == START
    && forall i :: 0 <= i < |events| ==> Takes(b, states[i], events[i], states[i + 1], answers[i])
  }

  // ---------- a step, seen through the entries it keeps ----------

  ghost predicate Keeps(b: Bounds, g: Guard<Outcome>, now: nat, kept: map<string, Entry<Outcome>>) {
    && SubMap(kept, g.entries)
    && forall k :: k in g.entries && Since(now, g.entries[k].ts) <= b.ttl ==> k in kept
  }

  ghost predicate EffectOn(s: System, e: Event, kept: map<string, Entry<Outcome>>, s': System,
                           answer: Option<Outcome>)
  {
    match e
    case Check(t, key, now, dies) =>
      if key in kept then
        && s'.guard.entries == kept && answer == Some(kept[key].outcome)
        && s'.running == s.running && s'.crashed == s.crashed
      else
        && s'.guard.entries == kept[key := Entry(now, InFlight)] && answer == None
        && s'.running == (if dies then s.running else s.running[t := Running(key, now)])
        && s'.crashed == (if dies then s.crashed[key := now] else s.crashed - {key})
    case Finish(t, key, now, outcome) =>
      && s'.guard.entries == (if key in kept then kept[key := Entry(now, outcome)] else kept)
      && s'.running == s.running - {t} && s'.crashed == s.crashed && answer == None
  }

  ghost predicate Effect(b: Bounds, s: System, e: Event, s': System, answer: Option<Outcome>) {
    && Enabled(s, e)
    && (forall t :: t in s.running ==> Since(e.now, s.running[t].since) <= b.ttl)
    && exists kept :: Keeps(b, s.guard, e.now, kept) && EffectOn(s, e, kept, s', answer)
  }

  lemma StepHasEffect(b: Bounds, s: System, e: Event)
    requires Enabled(s, e) && Timely(b, s, e)
    ensures Effect(b, s, e, After(b, s, e), Answer(b, s, e))
  {
    var kept := Prune(s.guard, e.now, b).entries;
    assert Keeps(b, s.guard, e.now, kept) by {
      ExpireKeeps(s.guard, e.now, b.ttl);
    }
    StepEffectOn(b, s, e, kept);
  }

  lemma StepEffectOn(b: Bounds, s: System, e: Event, kept: map<string, Entry<Outcome>>)
    requires kept == Prune(s.guard, e.now, b).entries && |Expire(s.guard, e.now, b.ttl).entries| <= b.maxEntries
    ensures EffectOn(s, e, kept, After(b, s, e), Answer(b, s, e))
  {
    PruneTwice(s.guard, e.now, b);
  }

  ghost predicate Trace(b: Bounds, states: seq<System>, events: seq<Event>, answers: seq<Option<Outcome>>) {
    && |states| == |events| + 1 && |answers| == |events|
    && states[0] == START
    && forall i :: 0 <= i < |events| ==> Effect(b, states[i], events[i], states[i + 1], answers[i])
  }

  lemma RunIsTrace(b: Bounds, states: seq<System>, events: seq<Event>, answers: seq<Option<Outcome>>)
    requires Run(b, states, events, answers)
    ensures Trace(b, states, events, answers)
  {
    forall i | 0 <= i < |events| ensures Effect(b, states[i], events[i], states[i + 1], answers[i]) {
      assert Takes(b, states[i], events[i], states[i + 1], answers[i]);
      StepHasEffect(b, states[i], events[i]);
    }
  }

  /** The running evaluations are in flight, each under its own key, and who else is in flight has crashed. */
  ghost predicate Inv(s: System) {
    && (forall t :: t in s.running ==>
          s.running[t].key in s.guard.entries && s.running[t].key !in s.crashed &&
          s.guard.entries[s.running[t].key] == Entry(s.running[t].since, InFlight))
    && (forall t, t' :: t in s.running && t' in s.running && s.running[t].key == s.running[t'].key ==> t == t')
    && (forall k :: k in s.guard.entries && k in s.crashed ==> s.guard.entries[k] == Entry(s.crashed[k], InFlight))
    && (forall k :: k in s.guard.entries && s.guard.entries[k].outcome == InFlight ==>
          IsRunning(s, k) || k in s.crashed)
  }

  ghost predicate IsRunning(s: System, key: string) {
    exists t :: t in s.running && s.running[t].key == key
  }

  /** Who runs stays recorded, as long as the recorded entries are kept. */
  lemma EffectKeepsEntry(b: Bounds, s: System, e: Event, s': System, answer: Option<Outcome>, t: nat)
    requires Inv(s) && Effect(b, s, e, s', answer) && t in s'.running
    ensures s'.running[t].key in s'.guard.entries && s'.running[t].key !in s'.crashed
    ensures s'.guard.entries[s'.running[t].key] == Entry(s'.running[t].since, InFlight)
  {
    var kept :| Keeps(b, s.guard, e.now, kept) && EffectOn(s, e, kept, s', answer);
  }

  lemma EffectKeepsApart(b: Bounds, s: System, e: Event, s': System, answer: Option<Outcome>, t: nat, t': nat)
    requires Inv(s) && Effect(b, s, e, s', answer)
    requires t in s'.running && t' in s'.running && s'.running[t].key == s'.running[t'].key
    ensures t == t'
  {
    var kept :| Keeps(b, s.guard, e.now, kept) && EffectOn(s, e, kept, s', answer);
  }

  lemma EffectKeepsCrashed(b: Bounds, s: System, e: Event, s': System, answer: Option<Outcome>, k: string)
    requires Inv(s) && Effect(b, s, e, s', answer) && k in s'.guard.entries && k in s'.crashed
    ensures s'.guard.entries[k] == Entry(s'.crashed[k], InFlight)
  {
    var kept :| Keeps(b, s.guard, e.now, kept) && EffectOn(s, e, kept, s', answer);
  }

  lemma EffectKeepsRunners(b: Bounds, s: System, e: Event, s': System, answer: Option<Outcome>, k: string)
    requires Inv(s) && Effect(b, s, e, s', answer) && k in s'.guard.entries && s'.guard.entries[k].outcome == InFlight
    ensures IsRunning(s', k) || k in s'.crashed
  {
    var kept :| Keeps(b, s.guard, e.now, kept) && EffectOn(s, e, kept, s', answer);
    if e.Check? && k == e.key && k !in kept {
      assert !e.dies ==> s'.running[e.task].key == k;
    } else if IsRunning(s, k) {
      var t :| t in s.running && s.running[t].key == k;
      assert t in s'.running && s'.running[t].key == k;
    }
  }

  lemma EffectKeepsInv(b: Bounds, s: System, e: Event, s': System, answer: Option<Outcome>)
    requires Inv(s) && Effect(b, s, e, s', answer)
    ensures Inv(s')
  {
    forall t | t in s'.running
      ensures s'.running[t].key in s'.guard.entries && s'.running[t].key !in s'.crashed &&
              s'.guard.entries[s'.running[t].key] == Entry(s'.running[t].since, InFlight)
    {
      EffectKeepsEntry(b, s, e, s', answer, t);
    }
    forall t, t' | t in s'.running && t' in s'.running && s'.running[t].key == s'.running[t'].key ensures t == t' {
      EffectKeepsApart(b, s, e, s', answer, t, t');
    }
    forall k | k in s'.guard.entries && k in s'.crashed ensures s'.guard.entries[k] == Entry(s'.crashed[k], InFlight) {
      EffectKeepsCrashed(b, s, e, s', answer, k);
    }
    forall k | k in s'.guard.entries && s'.guard.entries[k].outcome == InFlight
      ensures IsRunning(s', k) || k in s'.crashed
    {
      EffectKeepsRunners(b, s, e, s', answer, k);
    }
  }

  lemma {:induction false} TraceKeepsInv(b: Bounds, states: seq<System>, events: seq<Event>,
                                         answers: seq<Option<Outcome>>, n: nat)
    requires Trace(b, states, events, answers) && n <= |events|
    ensures Inv(states[n])
  {
    if n > 0 {
      TraceKeepsInv(b, states, events, answers, n - 1);
      EffectKeepsInv(b, states[n - 1], events[n - 1], states[n], answers[n - 1]);
    }
  }

  /** In every interleaving no key is under evaluation twice at a time. */
  lemma OneEvaluationPerKey(b: Bounds, states: seq<System>, events: seq<Event>, answers: seq<Option<Outcome>>,
                            n: nat, t: nat, t': nat)
    requires Run(b, states, events, answers) && n <= |events|
    requires t in states[n].running && t' in states[n].running && states[n].running[t].key == states[n].running[t'].key
    ensures t == t'
  {
    RunIsTrace(b, states, events, answers);
    TraceKeepsInv(b, states, events, answers, n);
  }

  // ---------- what a repeat is told ----------

  /** The outcome that was last recorded for a key. */
  function LastOutcome(events: seq<Event>, n: nat, key: string): Option<Outcome>
    requires n <= |events|
  {
    if n == 0 then None
    else if events[n - 1].Finish? && events[n - 1].key == key then Some(events[n - 1].outcome)
    else LastOutcome(events, n - 1, key)
  }

  lemma {:induction false} EntriesRecordOutcomes(b: Bounds, states: seq<System>, events: seq<Event>,
                                                 answers: seq<Option<Outcome>>, n: nat, key: string)
    requires Trace(b, states, events, answers) && n <= |events|
    requires key in states[n].guard.entries && states[n].guard.entries[key].outcome != InFlight
    ensures LastOutcome(events, n, key) == Some(states[n].guard.entries[key].outcome)
  {
    if n > 0 {
      var s, e, s', answer := states[n - 1], events[n - 1], states[n], answers[n - 1];
      assert Effect(b, s, e, s', answer);
      var kept :| Keeps(b, s.guard, e.now, kept) && EffectOn(s, e, kept, s', answer);
      if e.Check? || e.key != key {
        EntriesRecordOutcomes(b, states, events, answers, n - 1, key);
      } else {
        TraceKeepsInv(b, states, events, answers, n - 1);
        assert key in kept;
      }
    }
  }

  /**
   * A repeat of an evaluation that runs is told that it is in flight. So may be one of an
   * evaluation that died, or else it is evaluated afresh. Any other that is not evaluated
   * afresh is told the outcome last recorded for its key.
   */
  lemma RepeatAnswer(b: Bounds, states: seq<System>, events: seq<Event>, answers: seq<Option<Outcome>>, i: nat)
    requires Run(b, states, events, answers) && i < |events| && events[i].Check?
    ensures IsRunning(states[i], events[i].key) ==> answers[i] == Some(InFlight)
    ensures events[i].key in states[i].crashed ==> answers[i] == Some(InFlight) || answers[i] == None
    ensures answers[i] == Some(InFlight) ==> IsRunning(states[i], events[i].key) || events[i].key in states[i].crashed
    ensures answers[i].Some? && answers[i].value != InFlight ==> answers[i] == LastOutcome(events, i, events[i].key)
  {
    RunIsTrace(b, states, events, answers);
    TraceKeepsInv(b, states, events, answers, i);
    var s, e := states[i], events[i];
    assert Effect(b, s, e, states[i + 1], answers[i]);
    var kept :| Keeps(b, s.guard, e.now, kept) && EffectOn(s, e, kept, states[i + 1], answers[i]);
    if answers[i].Some? && answers[i].value != InFlight {
      EntriesRecordOutcomes(b, states, events, answers, i, e.key);
    }
  }

  // ---------- one evaluation per retention time ----------

  predicate EvaluatesAt(events: seq<Event>, answers: seq<Option<Outcome>>, i: nat)
    requires i < |events| == |answers|
  {
    events[i].Check? && answers[i] == None
  }

  /** The task that started at `i` records its outcome at `f`. */
  predicate FinishedAt(events: seq<Event>, i: nat, f: nat)
    requires i < |events|
  {
    i < f < |events| && events[f].Finish? && events[f].task == events[i].task && events[f].key == events[i].key
  }

  /** What last set the entry of the evaluation that started at `i`: its outcome, or for one that dies its start. */
  predicate LastSetAt(events: seq<Event>, i: nat, f: nat)
    requires i < |events| && events[i].Check?
  {
    if events[i].dies then f == i else FinishedAt(events, i, f)
  }

  /** Until it finishes, a task runs on under its key. */
  lemma {:induction false} StillRunning(b: Bounds, states: seq<System>, events: seq<Event>,
                                        answers: seq<Option<Outcome>>, i: nat, n: nat)
    requires Trace(b, states, events, answers) && i < n <= |events| && EvaluatesAt(events, answers, i)
    requires !events[i].dies && forall f :: i < f < n ==> !FinishedAt(events, i, f)
    ensures events[i].task in states[n].running
    ensures states[n].running[events[i].task] == Running(events[i].key, events[i].now)
  {
    assert Effect(b, states[n - 1], events[n - 1], states[n], answers[n - 1]);
    if n > i + 1 {
      StillRunning(b, states, events, answers, i, n - 1);
      assert !FinishedAt(events, i, n - 1);
    }
  }

  /** An outcome, or the mark of an evaluation that dies, stays until a step comes past its time. */
  lemma {:induction false} OutcomeHolds(b: Bounds, states: seq<System>, events: seq<Event>,
                                        answers: seq<Option<Outcome>>, f: nat, n: nat)
    requires Trace(b, states, events, answers) && f < n <= |events|
    requires events[f].Finish? || (EvaluatesAt(events, answers, f) && events[f].dies)
    requires forall l :: f < l < n ==> Since(events[l].now, events[f].now) <= b.ttl
    ensures events[f].key in states[n].guard.entries
    ensures states[n].guard.entries[events[f].key] ==
            Entry(events[f].now, if events[f].Finish? then events[f].outcome else InFlight)
    ensures events[f].Check? ==> events[f].key in states[n].crashed
  {
    TraceKeepsInv(b, states, events, answers, n - 1);
    assert Effect(b, states[n - 1], events[n - 1], states[n], answers[n - 1]);
    if n > f + 1 {
      OutcomeHolds(b, states, events, answers, f, n - 1);
      assert Effect(b, states[f], events[f], states[f + 1], answers[f]);
    }
  }

  /** A repeat of an evaluation that died is told that it is in flight, until a step comes past its time. */
  lemma CrashIsInFlight(b: Bounds, states: seq<System>, events: seq<Event>, answers: seq<Option<Outcome>>,
                        i: nat, j: nat)
    requires Run(b, states, events, answers) && i < j < |events| && events[i].key == events[j].key
    requires EvaluatesAt(events, answers, i) && events[i].dies && events[j].Check?
    requires forall l :: i < l <= j ==> Since(events[l].now, events[i].now) <= b.ttl
    ensures answers[j] == Some(InFlight) && !IsRunning(states[j], events[i].key)
  {
    RunIsTrace(b, states, events, answers);
    OutcomeHolds(b, states, events, answers, i, j);
    TraceKeepsInv(b, states, events, answers, j);
    assert Effect(b, states[j], events[j], states[j + 1], answers[j]);
  }

  /**
   * A key is evaluated again only after some step more than the retention time later than its
   * outcome, recorded in time, or than the start of an evaluation that died.
   */
  lemma EvaluatedTwice(b: Bounds, states: seq<System>, events: seq<Event>, answers: seq<Option<Outcome>>,
                       i: nat, j: nat)
    requires Run(b, states, events, answers) && i < j < |events| && events[i].key == events[j].key
    requires EvaluatesAt(events, answers, i) && EvaluatesAt(events, answers, j)
    ensures exists f: nat, l: nat ::
              && LastSetAt(events, i, f) && f < l <= j
              && events[f].now <= events[i].now + b.ttl && events[l].now > events[f].now + b.ttl
  {
    RunIsTrace(b, states, events, answers);
    TraceEvaluatedTwice(b, states, events, answers, i, j);
  }

  lemma TraceEvaluatedTwice(b: Bounds, states: seq<System>, events: seq<Event>, answers: seq<Option<Outcome>>,
                            i: nat, j: nat)
    requires Trace(b, states, events, answers) && i < j < |events| && events[i].key == events[j].key
    requires EvaluatesAt(events, answers, i) && EvaluatesAt(events, answers, j)
    ensures exists f: nat, l: nat ::
              && LastSetAt(events, i, f) && f < l <= j
              && events[f].now <= events[i].now + b.ttl && events[l].now > events[f].now + b.ttl
  {
    TraceKeepsInv(b, states, events, answers, j);
    assert Effect(b, states[j], events[j], states[j + 1], answers[j]);
    var f := i;
    if !events[i].dies {
      f := FinishesInTime(b, states, events, answers, i, j);
    }
    if forall l :: f < l <= j ==> Since(events[l].now, events[f].now) <= b.ttl {
      OutcomeHolds(b, states, events, answers, f, j);
      assert false;
    }
  }

  /** The first time it finishes, while it runs. */
  lemma FinishesInTime(b: Bounds, states: seq<System>, events: seq<Event>, answers: seq<Option<Outcome>>,
                       i: nat, j: nat) returns (f: nat)
    requires Trace(b, states, events, answers) && i < j < |events| && events[i].key == events[j].key
    requires EvaluatesAt(events, answers, i) && EvaluatesAt(events, answers, j) && !events[i].dies
    ensures f < j && FinishedAt(events, i, f) && events[f].now <= events[i].now + b.ttl
  {
    TraceKeepsInv(b, states, events, answers, j);
    assert Effect(b, states[j], events[j], states[j + 1], answers[j]);
    if forall f :: i < f < j ==> !FinishedAt(events, i, f) {
      StillRunning(b, states, events, answers, i, j);
      assert false;
    }
    f :| i < f < j && FinishedAt(events, i, f);
    f := FirstFinish(events, i, f);
    StillRunning(b, states, events, answers, i, f);
    assert Effect(b, states[f], events[f], states[f + 1], answers[f]);
  }

  lemma {:induction false} FirstFinish(events: seq<Event>, i: nat, f: nat) returns (first: nat)
    requires i < |events| && FinishedAt(events, i, f)
    ensures first <= f && FinishedAt(events, i, first) && forall k :: i < k < first ==> !FinishedAt(events, i, k)
    decreases f
  {
    first := f;
    if k :| i < k < f && FinishedAt(events, i, k) {
      first := FirstFinish(events, i, k);
    }
  }

  // ---------- the key ----------

  function Decimal(n: nat): string {
    if n < 10 then [Digit(n)] else Decimal(n / 10) + [Digit(n % 10)]
  }

  function Digit(n: nat): char
    requires n < 10
  {
    '0' + (n as char)
  }

  /** `worker|job id|nonce` */
  function SubmitKey(worker: string, jobId: nat, nonce: string): string {
    worker + "|" + Decimal(jobId) + "|" + nonce
  }

  lemma {:induction false} DecimalChars(n: nat)
    ensures Decimal(n) != [] && forall c :: c in Decimal(n) ==> '0' <= c <= '9'
  {
    if n >= 10 {
      DecimalChars(n / 10);
    }
  }

  lemma {:induction false} DecimalInjective(n: nat, n': nat)
    requires Decimal(n) == Decimal(n')
    ensures n == n'
  {
    DecimalChars(n / 10);
    DecimalChars(n' / 10);
    var d, d' := Decimal(n), Decimal(n');
    assert d[|d| - 1] == Digit(n % 10) && d'[|d'| - 1] == Digit(n' % 10);
    if n >= 10 && n' >= 10 {
      assert d[..|d| - 1] == Decimal(n / 10) && d'[..|d'| - 1] == Decimal(n' / 10);
      DecimalInjective(n / 10, n' / 10);
    }
  }

  /** The last separator of a string is where it is. */
  lemma SplitAtLast(a: string, z: string, a': string, z': string, sep: char)
    requires a + [sep] + z == a' + [sep] + z' && sep !in z && sep !in z'
    ensures a == a' && z == z'
  {
    var s := a + [sep] + z;
    assert s[|a|] == sep && s[|a'|] == sep;
    assert s[..|a|] == a && s[..|a'|] == a';
    assert s[|a| + 1..] == z && s[|a'| + 1..] == z';
  }

  /**
   * Different submissions have different keys, whatever the workers are called: a nonce
   * that parses as a number holds no separator.
   */
  lemma SubmitKeyInjective(worker: string, jobId: nat, nonce: string, worker': string, jobId': nat, nonce': string)
    requires '|' !in nonce && '|' !in nonce'
    ensures SubmitKey(worker, jobId, nonce) == SubmitKey(worker', jobId', nonce') <==>
            worker == worker' && jobId == jobId' && nonce == nonce'
  {
    if SubmitKey(worker, jobId, nonce) == SubmitKey(worker', jobId', nonce') {
      SplitAtLast(worker + "|" + Decimal(jobId), nonce, worker' + "|" + Decimal(jobId'), nonce', '|');
      DecimalChars(jobId);
      DecimalChars(jobId');
      SplitAtLast(worker, Decimal(jobId), worker', Decimal(jobId'), '|');
      DecimalInjective(jobId, jobId');
    }
  }
}
