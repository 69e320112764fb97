/**
 * Guard and counters together. A submission that the guard finds new owes two things: to
 * record its outcome in the guard, and to be counted for its worker and overall. A repeat
 * owes nothing, and one whose search panics does neither. All steps of any number of
 * submissions interleave, in whichever order a submission does the two.
 */
module SubmitAccounting {
  import opened Caching
  import opened SubmitGuards
  import opened SubmitRuns
  import opened SubmitPipeline

  datatype Counting = Before | During | Done

  /** What an evaluated submission still owes; the verdict is the one it comes to. */
  datatype Duty = Duty(verdict: Ring.Verdict, recorded: bool, counting: Counting)

  datatype Joint = Joint(guard: System, stats: Stats.State, duties: map<nat, Duty>)

  const BEGINNING := Joint(START, Stats.EMPTY, map[])

  datatype Act =
    | Submit(task: nat, key: string, now: nat, verdict: Ring.Verdict)
    | Record(task: nat, key: string, now: nat)
    | Lookup(task: nat, worker: string)
    | CountWorker(task: nat)
    | CountOverall(task: nat)
    | Register(worker: string)
    | Retain(workers: set<string>)

  /** A duty that is done in both parts is over. */
  function Settled(duties: map<nat, Duty>, t: nat, duty: Duty): map<nat, Duty> {
    if duty.recorded && duty.counting == Done then duties - {t} else duties[t := duty]
  }

  predicate UsesGuard(s: Joint, a: Act) {
    a.Submit? || (a.Record? && a.task in s.duties)
  }

  /** The guard's event, for the two acts that use the guard. */
  function GuardEvent(s: Joint, a: Act): Event
    requires UsesGuard(s, a)
  {
    match a
    case Submit(t, key, now, v) => Check(t, key, now, v == Ring.Underflow)
    case Record(t, key, now) => Finish(t, key, now, OutcomeOf(s.duties[t].verdict))
  }

  predicate IsNew(b: Bounds, s: Joint, a: Act) {
    a.Submit? && Answer(b, s.guard, GuardEvent(s, a)).None?
  }

  ghost predicate Step(b: Bounds, s: Joint, a: Act, s': Joint) {
    match a
    case Submit(t, _, _, v) =>
      && t !in s.duties && v != Ring.NoJob && Enabled(s.guard, GuardEvent(s, a))
      && s'.guard == After(b, s.guard, GuardEvent(s, a)) && s'.stats == s.stats
      && s'.duties == if IsNew(b, s, a) && Evaluated(v) then s.duties[t := Duty(v, false, Before)] else s.duties
    case Record(t, _, _) =>
      && t in s.duties && !s.duties[t].recorded && Enabled(s.guard, GuardEvent(s, a))
      && s'.guard == After(b, s.guard, GuardEvent(s, a)) && s'.stats == s.stats
      && s'.duties == Settled(s.duties, t, s.duties[t].(recorded := true))
    case Lookup(t, worker) =>
      && t in s.duties && s.duties[t].counting == Before && s'.guard == s.guard
      && Stats.Step(s.stats, Stats.Lookup(t, worker, ClassOf(s.duties[t].verdict)), s'.stats)
      && s'.duties == s.duties[t := s.duties[t].(counting := During)]
    case CountWorker(t) =>
      && t in s.duties && s.duties[t].counting == During && s'.guard == s.guard
      && Stats.Step(s.stats, Stats.CountWorker(t), s'.stats) && s'.duties == s.duties
    case CountOverall(t) =>
      && t in s.duties && s.duties[t].counting == During && s'.guard == s.guard
      && Stats.Step(s.stats, Stats.CountOverall(t), s'.stats)
      && s'.duties == Settled(s.duties, t, s.duties[t].(counting := Done))
    case Register(worker) =>
      s' == s.(stats := s'.stats) && Stats.Step(s.stats, Stats.Register(worker), s'.stats)
    case Retain(workers) =>
      s' == s.(stats := s'.stats) && Stats.Step(s.stats, Stats.Retain(workers), s'.stats)
  }

  ghost predicate Run(b: Bounds, states: seq<Joint>, acts: seq<Act>) {
    && |states| == |acts| + 1 && states[0] == BEGINNING
    && forall i :: 0 <= i < |acts| ==> Step(b, states[i], acts[i], states[i + 1])
  }

  // ---------- counting ----------

  predicate EvaluatesIn(b: Bounds, s: Joint, a: Act, cls: Stats.Class) {
    IsNew(b, s, a) && Evaluated(a.verdict) && ClassOf(a.verdict) == cls
  }

  /** The submissions of a class that were evaluated to an end, not answered as repeats, by step `n`. */
  function Evaluations(b: Bounds, states: seq<Joint>, acts: seq<Act>, n: nat, cls: Stats.Class): nat
    requires n <= |acts| < |states|
  {
    if n == 0 then 0
    else
      Evaluations(b, states, acts, n - 1, cls) +
      if EvaluatesIn(b, states[n - 1], acts[n - 1], cls) then 1 else 0
  }

  predicate RecordsIn(s: Joint, a: Act, cls: Stats.Class) {
    a.Record? && a.task in s.duties && ClassOf(s.duties[a.task].verdict) == cls
  }

  /** The outcomes of a class that were recorded in the guard by step `n`. */
  function Recordings(states: seq<Joint>, acts: seq<Act>, n: nat, cls: Stats.Class): nat
    requires n <= |acts| < |states|
  {
    if n == 0 then 0
    else Recordings(states, acts, n - 1, cls) + if RecordsIn(states[n - 1], acts[n - 1], cls) then 1 else 0
  }

  function Uncounted(cls: Stats.Class): Duty -> nat {
    (d: Duty) => if ClassOf(d.verdict) == cls && d.counting != Done then 1 else 0
  }

  function Unrecorded(cls: Stats.Class): Duty -> nat {
    (d: Duty) => if ClassOf(d.verdict) == cls && !d.recorded then 1 else 0
  }

  /** A task holds a look-up, of its verdict's class, exactly while its duty is being counted. */
  predicate StatsAgreeAt(s: Joint, t: nat) {
    if t in s.duties && s.duties[t].counting == During
    then t in s.stats.tasks && s.stats.tasks[t].cls == ClassOf(s.duties[t].verdict)
    else t !in s.stats.tasks
  }

  ghost predicate StatsAgree(s: Joint) {
    forall t :: StatsAgreeAt(s, t)
  }

  /** The evaluations that run are those of the duties that are to be recorded. */
  ghost predicate GuardAgrees(s: Joint) {
    forall t :: t in s.duties && !s.duties[t].recorded <==> t in s.guard.running
  }

  ghost predicate Agree(s: Joint) {
    StatsAgree(s) && GuardAgrees(s)
  }

  lemma GuardStaysAgreed(b: Bounds, s: Joint, a: Act, s': Joint)
    requires GuardAgrees(s) && Step(b, s, a, s')
    ensures GuardAgrees(s')
  {
  }

  lemma StatsStayAgreed(b: Bounds, s: Joint, a: Act, s': Joint, u: nat)
    requires StatsAgreeAt(s, u) && Step(b, s, a, s')
    ensures StatsAgreeAt(s', u)
  {
    if a.Lookup? {
      var t := a.task;
      var obj :| s'.stats.tasks == s.stats.tasks[t := Stats.Holding(obj, ClassOf(s.duties[t].verdict))];
    }
  }

  lemma StepAgrees(b: Bounds, s: Joint, a: Act, s': Joint)
    requires Agree(s) && Step(b, s, a, s')
    ensures Agree(s')
  {
    forall u ensures StatsAgreeAt(s', u) {
      StatsStayAgreed(b, s, a, s', u);
    }
    GuardStaysAgreed(b, s, a, s');
  }

  /** A sum over the duties, when one changes and is dropped if it is over. */
  lemma SettledSum(duties: map<nat, Duty>, t: nat, duty: Duty, f: Duty -> nat)
    requires t in duties && (duty.recorded && duty.counting == Done ==> f(duty) == 0)
    ensures TotalSize(Settled(duties, t, duty), f) + f(duties[t]) == TotalSize(duties, f) + f(duty)
  {
    TotalSizeRemove(duties, f, t);
    Stats.SetChanges(duties, f, t, duty);
  }

  lemma StepCounts(b: Bounds, s: Joint, a: Act, s': Joint, cls: Stats.Class)
    requires Agree(s) && Step(b, s, a, s')
    ensures Stats.Of(s'.stats.overall, cls) + TotalSize(s'.duties, Uncounted(cls)) ==
            Stats.Of(s.stats.overall, cls) + TotalSize(s.duties, Uncounted(cls)) +
            if EvaluatesIn(b, s, a, cls) then 1 else 0
  {
    var f := Uncounted(cls);
    match a {
      case Submit(t, _, _, v) => Stats.SetChanges(s.duties, f, t, Duty(v, false, Before));
      case Record(t, _, _) => SettledSum(s.duties, t, s.duties[t].(recorded := true), f);
      case Lookup(t, _) => Stats.SetChanges(s.duties, f, t, s.duties[t].(counting := During));
      case CountOverall(t) =>
        assert StatsAgreeAt(s, t);
        SettledSum(s.duties, t, s.duties[t].(counting := Done), f);
        Stats.BumpOf(s.stats.overall, s.stats.tasks[t].cls, cls);
      case _ =>
    }
  }

  lemma StepRecords(b: Bounds, s: Joint, a: Act, s': Joint, cls: Stats.Class)
    requires Step(b, s, a, s')
    ensures TotalSize(s'.duties, Unrecorded(cls)) + (if RecordsIn(s, a, cls) then 1 else 0) ==
            TotalSize(s.duties, Unrecorded(cls)) + (if EvaluatesIn(b, s, a, cls) then 1 else 0)
  {
    var f := Unrecorded(cls);
    match a {
      case Submit(t, _, _, v) => Stats.SetChanges(s.duties, f, t, Duty(v, false, Before));
      case Record(t, _, _) => SettledSum(s.duties, t, s.duties[t].(recorded := true), f);
      case Lookup(t, _) => Stats.SetChanges(s.duties, f, t, s.duties[t].(counting := During));
      case CountOverall(t) => SettledSum(s.duties, t, s.duties[t].(counting := Done), f);
      case _ =>
    }
  }

  lemma StepKeepsBalance(b: Bounds, s: Joint, a: Act, s': Joint, cls: Stats.Class)
    requires Step(b, s, a, s') && Stats.Sound(s.stats) && Stats.Balanced(s.stats, cls)
    ensures Stats.Sound(s'.stats) && Stats.Balanced(s'.stats, cls)
  {
    match a {
      case Lookup(t, worker) =>
        Stats.StepBalances(s.stats, Stats.Lookup(t, worker, ClassOf(s.duties[t].verdict)), s'.stats, cls);
      case CountWorker(t) => Stats.StepBalances(s.stats, Stats.CountWorker(t), s'.stats, cls);
      case CountOverall(t) => Stats.StepBalances(s.stats, Stats.CountOverall(t), s'.stats, cls);
      case Register(worker) => Stats.StepBalances(s.stats, Stats.Register(worker), s'.stats, cls);
      case Retain(workers) => Stats.StepBalances(s.stats, Stats.Retain(workers), s'.stats, cls);
      case _ =>
    }
  }

  /**
   * In every reachable state, for every class: the evaluations are those counted overall and
   * those still to be, and they are those recorded in the guard and those still to be.
   */
  lemma {:induction false} JointConservation(b: Bounds, states: seq<Joint>, acts: seq<Act>, n: nat, cls: Stats.Class)
    requires Run(b, states, acts) && n <= |acts|
    ensures Agree(states[n]) && Stats.Sound(states[n].stats) && Stats.Balanced(states[n].stats, cls)
    ensures Evaluations(b, states, acts, n, cls) ==
            Stats.Of(states[n].stats.overall, cls) + TotalSize(states[n].duties, Uncounted(cls))
    ensures Evaluations(b, states, acts, n, cls) ==
            Recordings(states, acts, n, cls) + TotalSize(states[n].duties, Unrecorded(cls))
  {
    if n > 0 {
      JointConservation(b, states, acts, n - 1, cls);
      var s, a, s' := states[n - 1], acts[n - 1], states[n];
      StepAgrees(b, s, a, s');
      StepCounts(b, s, a, s', cls);
      StepRecords(b, s, a, s', cls);
      StepKeepsBalance(b, s, a, s', cls);
    }
  }

  /**
   * With no submission under way, for every class: the evaluations, the outcomes recorded in
   * the guard, the overall counter and the sum over live and dropped workers are the same.
   */
  lemma EvaluationsAreCounted(b: Bounds, states: seq<Joint>, acts: seq<Act>, n: nat, cls: Stats.Class)
    requires Run(b, states, acts) && n <= |acts| && states[n].duties == map[]
    ensures Stats.Of(states[n].stats.overall, cls) == Evaluations(b, states, acts, n, cls)
    ensures Recordings(states, acts, n, cls) == Evaluations(b, states, acts, n, cls)
    ensures TotalSize(states[n].stats.objects, Stats.OfAll(cls)) == Evaluations(b, states, acts, n, cls)
    ensures states[n].guard.running == map[]
  {
    JointConservation(b, states, acts, n, cls);
    NothingHeld(states[n]);
  }

  lemma NothingHeld(s: Joint)
    requires StatsAgree(s) && s.duties == map[]
    ensures s.stats.tasks == map[]
  {
    forall t ensures t !in s.stats.tasks {
      assert StatsAgreeAt(s, t);
    }
  }

  /** All submissions by step `n`, the repeats among them, and those whose search panics. */
  function Submissions(acts: seq<Act>, n: nat): nat
    requires n <= |acts|
  {
    if n == 0 then 0 else Submissions(acts, n - 1) + if acts[n - 1].Submit? then 1 else 0
  }

  function Repeats(b: Bounds, states: seq<Joint>, acts: seq<Act>, n: nat): nat
    requires n <= |acts| < |states|
  {
    if n == 0 then 0
    else
      Repeats(b, states, acts, n - 1) +
      if acts[n - 1].Submit? && !IsNew(b, states[n - 1], acts[n - 1]) then 1 else 0
  }

  function Crashes(b: Bounds, states: seq<Joint>, acts: seq<Act>, n: nat): nat
    requires n <= |acts| < |states|
  {
    if n == 0 then 0
    else
      Crashes(b, states, acts, n - 1) +
      if IsNew(b, states[n - 1], acts[n - 1]) && !Evaluated(acts[n - 1].verdict) then 1 else 0
  }

  lemma {:induction false} EachSubmissionIsOneKind(b: Bounds, states: seq<Joint>, acts: seq<Act>, n: nat)
    requires n <= |acts| < |states|
    ensures Submissions(acts, n) ==
            Repeats(b, states, acts, n) + Crashes(b, states, acts, n) +
            Evaluations(b, states, acts, n, Stats.Accepted) + Evaluations(b, states, acts, n, Stats.Stale) +
            Evaluations(b, states, acts, n, Stats.Invalid)
  {
    if n > 0 {
      EachSubmissionIsOneKind(b, states, acts, n - 1);
    }
  }

  /**
   * Over every run repeats and crashes count nowhere: with no submission under way the three
   * overall counters add up to all submissions but these.
   */
  lemma RepeatsCountNowhere(b: Bounds, states: seq<Joint>, acts: seq<Act>, n: nat)
    requires Run(b, states, acts) && n <= |acts| && states[n].duties == map[]
    ensures var c := states[n].stats.overall;
            c.accepted + c.stale + c.invalid ==
            Submissions(acts, n) - Repeats(b, states, acts, n) - Crashes(b, states, acts, n)
  {
    EachSubmissionIsOneKind(b, states, acts, n);
    EvaluationsAreCounted(b, states, acts, n, Stats.Accepted);
    EvaluationsAreCounted(b, states, acts, n, Stats.Stale);
    EvaluationsAreCounted(b, states, acts, n, Stats.Invalid);
  }

  /** Every use of the guard is in time, and nothing is evicted for capacity. */
  ghost predicate TimelyRun(b: Bounds, states: seq<Joint>, acts: seq<Act>) {
    && Run(b, states, acts)
    && forall i :: 0 <= i < |acts| && UsesGuard(states[i], acts[i]) ==>
         Timely(b, states[i].guard, GuardEvent(states[i], acts[i]))
  }

  lemma {:induction false} GuardInv(b: Bounds, states: seq<Joint>, acts: seq<Act>, n: nat)
    requires TimelyRun(b, states, acts) && n <= |acts|
    ensures Inv(states[n].guard)
  {
    if n > 0 {
      GuardInv(b, states, acts, n - 1);
      var s, a := states[n - 1], acts[n - 1];
      assert Step(b, s, a, states[n]);
      if UsesGuard(s, a) {
        var e := GuardEvent(s, a);
        StepHasEffect(b, s.guard, e);
        EffectKeepsInv(b, s.guard, e, After(b, s.guard, e), Answer(b, s.guard, e));
      }
    }
  }

  /** Then no two submissions with one key are under way, and so counted, at a time before their outcome is recorded. */
  lemma OneDutyPerKey(b: Bounds, states: seq<Joint>, acts: seq<Act>, n: nat, t: nat, t': nat)
    requires TimelyRun(b, states, acts) && n <= |acts|
    requires t in states[n].duties && !states[n].duties[t].recorded
    requires t' in states[n].duties && !states[n].duties[t'].recorded
    ensures t in states[n].guard.running && t' in states[n].guard.running
    ensures states[n].guard.running[t].key == states[n].guard.running[t'].key ==> t == t'
  {
    GuardInv(b, states, acts, n);
    JointConservation(b, states, acts, n, Stats.Accepted);
  }
}
