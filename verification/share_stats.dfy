/**
 * Share accounting. A worker's counters are an object that submissions keep hold of after
 * they have looked it up; pruning may drop it from the table meanwhile, and the worker then
 * gets a new one. Looking up, counting for the worker and counting overall are separate
 * steps, interleaved over any number of submissions.
 */
module ShareStats {
  import opened Caching

  datatype Class = Accepted | Stale | Invalid

  datatype Counts = Counts(accepted: nat, stale: nat, invalid: nat)

  function Of(c: Counts, cls: Class): nat {
    match cls
    case Accepted => c.accepted
    case Stale => c.stale
    case Invalid => c.invalid
  }

  function Bump(c: Counts, cls: Class): Counts {
    match cls
    case Accepted => c.(accepted := c.accepted + 1)
    case Stale => c.(stale := c.stale + 1)
    case Invalid => c.(invalid := c.invalid + 1)
  }

  datatype WorkStats = WorkStats(worker: string, counts: Counts)

  datatype Task = Holding(obj: nat, cls: Class) | Counted(cls: Class)

  /** `objects` are all that were ever made, `live` those in the table. */
  datatype State = State(objects: map<nat, WorkStats>, live: map<string, nat>, overall: Counts, tasks: map<nat, Task>)

  datatype Event =
    | Register(worker: string)
    | Lookup(task: nat, worker: string, cls: Class)
    | CountWorker(task: nat)
    | CountOverall(task: nat)
    | Retain(workers: set<string>)

  const EMPTY := State(map[], map[], Counts(0, 0, 0), map[])

  /** `get_create_stats` */
  ghost predicate GotStats(s: State, worker: string, s': State, obj: nat) {
    if worker in s.live then s' == s && obj == s.live[worker]
    else
      && obj !in s.objects
      && s' == s.(objects := s.objects[obj := WorkStats(worker, Counts(0, 0, 0))], live := s.live[worker := obj])
  }

  ghost predicate Step(s: State, e: Event, s': State) {
    match e
    case Register(worker) => exists obj :: GotStats(s, worker, s', obj)
    case Lookup(t, worker, cls) =>
      && t !in s.tasks
      && exists obj :: GotStats(s, worker, s'.(tasks := s.tasks), obj) && s'.tasks == s.tasks[t := Holding(obj, cls)]
    case CountWorker(t) =>
      && t in s.tasks && s.tasks[t].Holding? && s.tasks[t].obj in s.objects
      && var obj, cls := s.tasks[t].obj, s.tasks[t].cls;
         var o := s.objects[obj];
         s' == s.(objects := s.objects[obj := o.(counts := Bump(o.counts, cls))], tasks := s.tasks[t := Counted(cls)])
    case CountOverall(t) =>
      && t in s.tasks && s.tasks[t].Counted?
      && s' == s.(overall := Bump(s.overall, s.tasks[t].cls), tasks := s.tasks - {t})
    case Retain(workers) =>
      s' == s.(live := map w | w in s.live && w in workers :: s.live[w])
  }

  // ---------- sums ----------

  function OfWorker(worker: string, cls: Class): WorkStats -> nat {
    (o: WorkStats) => if o.worker == worker then Of(o.counts, cls) else 0
  }

  function OfAll(cls: Class): WorkStats -> nat {
    (o: WorkStats) => Of(o.counts, cls)
  }

  function IsCounted(cls: Class): Task -> nat {
    (t: Task) => if t == Counted(cls) then 1 else 0
  }

  function IsOpen(cls: Class): Task -> nat {
    (t: Task) => if t.cls == cls then 1 else 0
  }

  /** The submissions of a class that began by step `n`. */
  function Begun(events: seq<Event>, n: nat, cls: Class): nat
    requires n <= |events|
  {
    if n == 0 then 0
    else Begun(events, n - 1, cls) + if events[n - 1].Lookup? && events[n - 1].cls == cls then 1 else 0
  }

  /** The submissions of a class that had been counted for a worker by step `n`. */
  ghost function CountedFor(states: seq<State>, events: seq<Event>, n: nat, worker: string, cls: Class): nat
    requires n <= |events| < |states|
  {
    if n == 0 then 0
    else
      CountedFor(states, events, n - 1, worker, cls) +
      if CountsFor(states[n - 1], events[n - 1], worker, cls) then 1 else 0
  }

  predicate CountsFor(s: State, e: Event, worker: string, cls: Class) {
    e.CountWorker? && e.task in s.tasks && s.tasks[e.task].Holding? && s.tasks[e.task].cls == cls &&
    s.tasks[e.task].obj in s.objects && s.objects[s.tasks[e.task].obj].worker == worker
  }

  ghost predicate Run(states: seq<State>, events: seq<Event>) {
    && |states| == |events| + 1 && states[0] == EMPTY
    && forall i :: 0 <= i < |events| ==> Step(states[i], events[i], states[i + 1])
  }

  /** Tasks hold objects that exist, and the table names each worker's own object. */
  ghost predicate Sound(s: State) {
    && (forall t :: t in s.tasks && s.tasks[t].Holding? ==> s.tasks[t].obj in s.objects)
    && (forall w :: w in s.live ==> s.live[w] in s.objects && s.objects[s.live[w]].worker == w)
  }

  lemma SetChanges<K, V>(m: map<K, V>, size: V -> nat, k: K, v: V)
    ensures k in m ==> TotalSize(m[k := v], size) + size(m[k]) == TotalSize(m, size) + size(v)
    ensures k !in m ==> TotalSize(m[k := v], size) == TotalSize(m, size) + size(v)
  {
    TotalSizeSet(m, size, k, v);
    if k in m {
      TotalSizeRemove(m, size, k);
    } else {
      assert m - {k} == m;
    }
  }

  /** What a sum over the objects does in a step: it grows only as the step counts for a worker. */
  lemma ObjectsSum(s: State, e: Event, s': State, f: WorkStats -> nat)
    requires Sound(s) && Step(s, e, s') && forall w :: f(WorkStats(w, Counts(0, 0, 0))) == 0
    ensures Sound(s')
    ensures !e.CountWorker? ==> TotalSize(s'.objects, f) == TotalSize(s.objects, f)
    ensures e.CountWorker? ==>
              var o := s.objects[s.tasks[e.task].obj];
              TotalSize(s'.objects, f) + f(o) ==
              TotalSize(s.objects, f) + f(o.(counts := Bump(o.counts, s.tasks[e.task].cls)))
  {
    match e {
      case Register(worker) =>
        var obj :| GotStats(s, worker, s', obj);
        SetChanges(s.objects, f, obj, WorkStats(worker, Counts(0, 0, 0)));
      case Lookup(t, worker, cls) =>
        var obj :| GotStats(s, worker, s'.(tasks := s.tasks), obj) && s'.tasks == s.tasks[t := Holding(obj, cls)];
        SetChanges(s.objects, f, obj, WorkStats(worker, Counts(0, 0, 0)));
      case CountWorker(t) =>
        var obj := s.tasks[t].obj;
        SetChanges(s.objects, f, obj, s.objects[obj].(counts := Bump(s.objects[obj].counts, s.tasks[t].cls)));
      case _ =>
    }
  }

  lemma TasksSum(s: State, e: Event, s': State, f: Task -> nat)
    requires Step(s, e, s')
    ensures e.Register? || e.Retain? ==> s'.tasks == s.tasks
    ensures e.Lookup? ==> exists obj :: TotalSize(s'.tasks, f) == TotalSize(s.tasks, f) + f(Holding(obj, e.cls))
    ensures e.CountWorker? ==>
              TotalSize(s'.tasks, f) + f(s.tasks[e.task]) == TotalSize(s.tasks, f) + f(Counted(s.tasks[e.task].cls))
    ensures e.CountOverall? ==> TotalSize(s'.tasks, f) + f(s.tasks[e.task]) == TotalSize(s.tasks, f)
  {
    match e {
      case Lookup(t, worker, cls) =>
        var obj :| s'.tasks == s.tasks[t := Holding(obj, cls)];
        SetChanges(s.tasks, f, t, Holding(obj, cls));
      case CountWorker(t) =>
        SetChanges(s.tasks, f, t, Counted(s.tasks[t].cls));
      case CountOverall(t) =>
        TotalSizeRemove(s.tasks, f, t);
      case _ =>
    }
  }

  ghost predicate Balanced(s: State, cls: Class) {
    TotalSize(s.objects, OfAll(cls)) == Of(s.overall, cls) + TotalSize(s.tasks, IsCounted(cls))
  }

  lemma StepBalances(s: State, e: Event, s': State, cls: Class)
    requires Sound(s) && Step(s, e, s') && Balanced(s, cls)
    ensures Sound(s') && Balanced(s', cls)
  {
    ObjectsSum(s, e, s', OfAll(cls));
    TasksSum(s, e, s', IsCounted(cls));
    match e
    case CountWorker(t) => BumpOf(s.objects[s.tasks[t].obj].counts, s.tasks[t].cls, cls);
    case CountOverall(t) => BumpOf(s.overall, s.tasks[t].cls, cls);
    case _ =>
  }

  lemma BumpOf(c: Counts, bumped: Class, cls: Class)
    ensures Of(Bump(c, bumped), cls) == Of(c, cls) + if bumped == cls then 1 else 0
  {
  }

  lemma StepOpens(s: State, e: Event, s': State, cls: Class)
    requires Step(s, e, s')
    ensures Of(s'.overall, cls) + TotalSize(s'.tasks, IsOpen(cls)) ==
            Of(s.overall, cls) + TotalSize(s.tasks, IsOpen(cls)) + if e.Lookup? && e.cls == cls then 1 else 0
  {
    TasksSum(s, e, s', IsOpen(cls));
  }

  /**
   * In every reachable state, for every class: what the objects of live and dropped workers
   * add up to is what is counted overall and what is on its way there; and that with the
   * submissions still under way is every submission that began.
   */
  lemma {:induction false} Conservation(states: seq<State>, events: seq<Event>, n: nat, cls: Class)
    requires Run(states, events) && n <= |events|
    ensures Sound(states[n]) && Balanced(states[n], cls)
    ensures Begun(events, n, cls) == Of(states[n].overall, cls) + TotalSize(states[n].tasks, IsOpen(cls))
  {
    if n > 0 {
      Conservation(states, events, n - 1, cls);
      StepBalances(states[n - 1], events[n - 1], states[n], cls);
      StepOpens(states[n - 1], events[n - 1], states[n], cls);
    }
  }

  /** With no submission under way, live and dropped workers together make up the overall count. */
  lemma QuiescentTotals(states: seq<State>, events: seq<Event>, n: nat, cls: Class)
    requires Run(states, events) && n <= |events| && states[n].tasks == map[]
    ensures TotalSize(states[n].objects, OfAll(cls)) == Of(states[n].overall, cls) == Begun(events, n, cls)
  {
    Conservation(states, events, n, cls);
  }

  /** All the objects that a worker ever had add up to the submissions counted for that worker. */
  lemma {:induction false} WorkerTotals(states: seq<State>, events: seq<Event>, n: nat, worker: string, cls: Class)
    requires Run(states, events) && n <= |events|
    ensures Sound(states[n])
    ensures TotalSize(states[n].objects, OfWorker(worker, cls)) == CountedFor(states, events, n, worker, cls)
  {
    if n > 0 {
      WorkerTotals(states, events, n - 1, worker, cls);
      StepCountsWorker(states[n - 1], events[n - 1], states[n], worker, cls);
    }
  }

  lemma StepCountsWorker(s: State, e: Event, s': State, worker: string, cls: Class)
    requires Sound(s) && Step(s, e, s')
    ensures Sound(s')
    ensures TotalSize(s'.objects, OfWorker(worker, cls)) ==
            TotalSize(s.objects, OfWorker(worker, cls)) + if CountsFor(s, e, worker, cls) then 1 else 0
  {
    ObjectsSum(s, e, s', OfWorker(worker, cls));
  }
}
