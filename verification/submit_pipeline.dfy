/**
 * One share submission from its parameters to its reply: `handle_submit` without its
 * logging and waiting, over the guard, the search and the counters of the other modules.
 */
module SubmitPipeline {
  import opened Wrappers
  import opened SubmitGuards
  import opened SubmitRuns
  import Ring = JobRing
  import Stats = ShareStats
  import Nonce = Extranonce
  import Text = Hex

  /** What the miner is told. */
  datatype Response = Yes | StaleShare | LowDiffShare | BadShare | NoSuchJob | MalformedNonce | Crash

  /** The reply to a repeat, by what is recorded for its key. */
  function RepeatResponse(o: Outcome): Response {
    match o
    case Accepted => Yes
    case InFlight => Yes
    case Stale => StaleShare
    case LowDiff => LowDiffShare
    case Bad => BadShare
  }

  /** What a verdict is recorded as. */
  function OutcomeOf(v: Ring.Verdict): Outcome {
    match v
    case Share => Accepted
    case Stale => Stale
    case Bad => Bad
    case _ => LowDiff
  }

  /** Where a verdict is counted; low-difficulty shares and refused blocks are both invalid. */
  function ClassOf(v: Ring.Verdict): Stats.Class {
    match v
    case Share => Stats.Accepted
    case Stale => Stats.Stale
    case _ => Stats.Invalid
  }

  /** `replace("0x", "")` */
  function Without0x(s: string): string {
    if |s| < 2 then s
    else if s[..2] == "0x" then Without0x(s[2..])
    else [s[0]] + Without0x(s[1..])
  }

  /** The look-up and the insertion of a share's key, in one critical section. */
  method Begin(guard: SubmitGuard<Outcome>, key: string, now: nat, ghost task: nat, ghost dies: bool,
               ghost running: map<nat, Running>, ghost crashed: map<string, nat>)
    returns (answer: Option<Outcome>)
    modifies guard
    ensures var s, e := System(old(guard.State()), running, crashed), Check(task, key, now, dies);
            answer == Answer(guard.bounds, s, e) && guard.State() == After(guard.bounds, s, e).guard
  {
    answer := guard.Get(key, now);
    if answer.None? {
      guard.InsertInflight(key, now, InFlight);
    }
  }

  class ShareHandler {
    const guard: SubmitGuard<Outcome>
    var stats: map<string, Stats.Counts>
    var overall: Stats.Counts

    constructor ()
      ensures fresh(guard) && guard.State() == Guard(map[], []) && guard.bounds == Bounds(180, 50000)
      ensures stats == map[] && overall == Stats.Counts(0, 0, 0)
    {
      guard := new SubmitGuard(180, 50000);
      stats, overall := map[], Stats.Counts(0, 0, 0);
    }

    ghost function CountsOf(worker: string): Stats.Counts
      reads this
    {
      if worker in stats then stats[worker] else Stats.Counts(0, 0, 0)
    }

    method Count(worker: string, cls: Stats.Class)
      modifies this
      ensures overall == Stats.Bump(old(overall), cls)
      ensures stats == old(stats)[worker := Stats.Bump(old(CountsOf(worker)), cls)]
    {
      if worker !in stats {
        stats := stats[worker := Stats.Counts(0, 0, 0)];
      }
      stats := stats[worker := Stats.Bump(stats[worker], cls)];
      overall := Stats.Bump(overall, cls);
    }

    /** Recording and counting an evaluated share. */
    method Conclude(worker: string, key: string, v: Ring.Verdict, now: nat) returns (response: Response)
      requires v != Ring.NoJob && v != Ring.Underflow
      modifies this, guard
      ensures response == RepeatResponse(OutcomeOf(v))
      ensures guard.State() == Refreshed(Prune(old(guard.State()), now, guard.bounds), key, now, OutcomeOf(v))
      ensures overall == Stats.Bump(old(overall), ClassOf(v))
      ensures stats == old(stats)[worker := Stats.Bump(old(CountsOf(worker)), ClassOf(v))]
    {
      match v {
        case Stale =>
          guard.SetOutcome(key, now, Stale);
          Count(worker, Stats.Stale);
          response := StaleShare;
        case Bad =>
          Count(worker, Stats.Invalid);
          guard.SetOutcome(key, now, Bad);
          response := BadShare;
        case Share =>
          Count(worker, Stats.Accepted);
          guard.SetOutcome(key, now, Accepted);
          response := Yes;
        case LowDiff =>
          Count(worker, Stats.Invalid);
          guard.SetOutcome(key, now, LowDiff);
          response := LowDiffShare;
      }
    }

    /**
     * A submission that names no job or has no readable nonce changes nothing. A repeat
     * is answered from the guard and counts nowhere. Any other is searched for, recorded
     * under the search's verdict, counted once for its worker and once overall, and told
     * what a repeat of it would be told.
     */
    method HandleSubmit<J>(worker: string, jobs: map<nat, J>, jobId: nat, nonceParam: string, extranonce: string,
                           eval: (J, nat) -> Ring.Pow, node: J -> Ring.NodeReply, started: nat, finished: nat)
      returns (response: Response, ghost verdict: Ring.Verdict, ghost visited: seq<nat>)
      requires |extranonce| <= 16
      modifies this, guard
      ensures Handled(old(Values()), Submission(worker, jobId, Nonce.FinalNonce(extranonce, Without0x(nonceParam))),
                      Ring.SlotOf(jobId) in jobs, started, finished, guard.bounds, verdict, Values(), response)
      ensures verdict != Ring.NoJob ==>
                var nonce := Nonce.ParseHex(Nonce.FinalNonce(extranonce, Without0x(nonceParam)));
                nonce.Some? && Ring.SearchResult(jobs, jobId, (j: J) => eval(j, nonce.value), node, verdict, visited)
    {
      verdict, visited := Ring.NoJob, [];
      if jobId % Ring.MAX_JOBS !in jobs {
        return NoSuchJob, verdict, visited;
      }
      var text := Nonce.FinalNonce(extranonce, Without0x(nonceParam));
      var nonce := Nonce.ParseHex(text);
      if nonce.None? {
        return MalformedNonce, verdict, visited;
      }
      var key := SubmitKey(worker, jobId, text);
      var known := Begin(guard, key, started, 0, false, map[], map[]);
      if known.Some? {
        return RepeatResponse(known.value), verdict, visited;
      }
      var v: Ring.Verdict;
      v, visited := Ring.Search(jobs, jobId, (j: J) => eval(j, nonce.value), node);
      verdict := v;
      if v == Ring.Underflow {
        return Crash, verdict, visited;
      }
      response := Conclude(worker, key, v, finished);
    }

    ghost function Values(): Handler
      reads this, guard
    {
      Handler(guard.State(), stats, overall)
    }
  }

  datatype Submission = Submission(worker: string, jobId: nat, nonce: string)

  datatype Handler = Handler(guard: Guard<Outcome>, stats: map<string, Stats.Counts>, overall: Stats.Counts)

  function CountsIn(h: Handler, worker: string): Stats.Counts {
    if worker in h.stats then h.stats[worker] else Stats.Counts(0, 0, 0)
  }

  function Counted(h: Handler, worker: string, cls: Stats.Class): Handler {
    h.(stats := h.stats[worker := Stats.Bump(CountsIn(h, worker), cls)], overall := Stats.Bump(h.overall, cls))
  }

  /** The guard once a new submission is marked as in flight. */
  function Marked(g: Guard<Outcome>, sub: Submission, now: nat, b: Bounds): Guard<Outcome> {
    Added(Prune(Prune(g, now, b), now, b), SubmitKey(sub.worker, sub.jobId, sub.nonce), now, InFlight)
  }

  /** The effect of one submission, by cases. */
  ghost predicate Handled(h: Handler, sub: Submission, jobFound: bool, started: nat, finished: nat, b: Bounds,
                          v: Ring.Verdict, h': Handler, response: Response)
  {
    var key := SubmitKey(sub.worker, sub.jobId, sub.nonce);
    var pruned := Prune(h.guard, started, b);
    if !jobFound then h' == h && response == NoSuchJob && v == Ring.NoJob
    else if Nonce.ParseHex(sub.nonce).None? then h' == h && response == MalformedNonce && v == Ring.NoJob
    else if key in pruned.entries then
      h' == h.(guard := pruned) && response == RepeatResponse(pruned.entries[key].outcome) && v == Ring.NoJob
    else
      var marked := h.(guard := Marked(h.guard, sub, started, b));
      if v == Ring.Underflow then h' == marked && response == Crash
      else
        && v != Ring.NoJob && response == RepeatResponse(OutcomeOf(v))
        && h' == Counted(marked.(guard := Refreshed(Prune(marked.guard, finished, b), key, finished, OutcomeOf(v))),
                         sub.worker, ClassOf(v))
  }

  /** The guard tells submissions apart: any two whose nonces can be read have different keys. */
  lemma KeysTellApart(sub: Submission, sub': Submission)
    requires Nonce.ParseHex(sub.nonce).Some? && Nonce.ParseHex(sub'.nonce).Some?
    ensures SubmitKey(sub.worker, sub.jobId, sub.nonce) == SubmitKey(sub'.worker, sub'.jobId, sub'.nonce) <==>
            sub == sub'
  {
    NoSeparator(sub.nonce);
    NoSeparator(sub'.nonce);
    SubmitKeyInjective(sub.worker, sub.jobId, sub.nonce, sub'.worker, sub'.jobId, sub'.nonce);
  }

  lemma NoSeparator(nonce: string)
    requires Nonce.ParseHex(nonce).Some?
    ensures '|' !in nonce
  {
  }

  /**
   * Keys compare texts. For a miner with an extranonce and nonces of at most twelve digits,
   * two nonces are the same number exactly when they are the same in lower case with leading
   * zeros, but have the same key only if that is so without the lower case.
   */
  lemma SpellingDecides(worker: string, jobId: nat, extra: string, e: nat, n: string, n': string)
    requires Nonce.IsExtranonce(extra, e) && Text.IsHex(n) && Text.IsHex(n') && |n| <= 12 && |n'| <= 12
    ensures Nonce.ParseHex(Nonce.FinalNonce(extra, n)) == Nonce.ParseHex(Nonce.FinalNonce(extra, n')) <==>
            Text.Lower(Text.PadLeft(n, 12)) == Text.Lower(Text.PadLeft(n', 12))
    ensures SubmitKey(worker, jobId, Nonce.FinalNonce(extra, n)) ==
            SubmitKey(worker, jobId, Nonce.FinalNonce(extra, n')) <==>
            Text.PadLeft(n, 12) == Text.PadLeft(n', 12)
  {
    SpellingValue(extra, e, n, n');
    SpellingKey(worker, jobId, extra, e, n, n');
  }

  lemma SpellingValue(extra: string, e: nat, n: string, n': string)
    requires Nonce.IsExtranonce(extra, e) && Text.IsHex(n) && Text.IsHex(n') && |n| <= 12 && |n'| <= 12
    ensures Nonce.ParseHex(Nonce.FinalNonce(extra, n)).Some? && Nonce.ParseHex(Nonce.FinalNonce(extra, n')).Some?
    ensures Nonce.ParseHex(Nonce.FinalNonce(extra, n)) == Nonce.ParseHex(Nonce.FinalNonce(extra, n')) <==>
            Text.Lower(Text.PadLeft(n, 12)) == Text.Lower(Text.PadLeft(n', 12))
  {
    Nonce.CombinedNonce(extra, e, n);
    Nonce.CombinedNonce(extra, e, n');
    Text.PaddedValue(n, 12);
    Text.PaddedValue(n', 12);
    Text.SameValue(Text.PadLeft(n, 12), Text.PadLeft(n', 12));
  }

  lemma SpellingKey(worker: string, jobId: nat, extra: string, e: nat, n: string, n': string)
    requires Nonce.IsExtranonce(extra, e) && Text.IsHex(n) && Text.IsHex(n') && |n| <= 12 && |n'| <= 12
    ensures SubmitKey(worker, jobId, Nonce.FinalNonce(extra, n)) ==
            SubmitKey(worker, jobId, Nonce.FinalNonce(extra, n')) <==>
            Text.PadLeft(n, 12) == Text.PadLeft(n', 12)
  {
    SpellingValue(extra, e, n, n');
    var a, a' := Nonce.FinalNonce(extra, n), Nonce.FinalNonce(extra, n');
    KeysTellApart(Submission(worker, jobId, a), Submission(worker, jobId, a'));
    assert a[4..] == Text.PadLeft(n, 12) && a'[4..] == Text.PadLeft(n', 12);
  }

  /** So one share can be evaluated and counted once for each way to spell it. */
  lemma SpellingExample(worker: string, jobId: nat)
    ensures Nonce.ParseHex("0a") == Nonce.ParseHex("0A") == Some(10)
    ensures SubmitKey(worker, jobId, "0a") != SubmitKey(worker, jobId, "0A")
  {
    assert "0a"[..1] == "0" && "0A"[..1] == "0" && Text.ValueOf("0") == 0;
    assert Text.ValueOf("0a") == 10 && Text.ValueOf("0A") == 10;
    assert "0a"[1] != "0A"[1];
    KeysTellApart(Submission(worker, jobId, "0a"), Submission(worker, jobId, "0A"));
  }

  /** What a repeat is told, by what is recorded. */
  lemma RepeatIsTold(h: Handler, sub: Submission, started: nat, finished: nat, b: Bounds,
                     v: Ring.Verdict, h': Handler, response: Response)
    requires Handled(h, sub, true, started, finished, b, v, h', response) && Nonce.ParseHex(sub.nonce).Some?
    requires SubmitKey(sub.worker, sub.jobId, sub.nonce) in Prune(h.guard, started, b).entries
    ensures h'.overall == h.overall && h'.stats == h.stats
    ensures var o := Prune(h.guard, started, b).entries[SubmitKey(sub.worker, sub.jobId, sub.nonce)].outcome;
            && (o == InFlight || o == Accepted ==> response == Yes)
            && (o == Stale ==> response == StaleShare)
            && (o == LowDiff ==> response == LowDiffShare)
            && (o == Bad ==> response == BadShare)
  {
  }

  /** The counters after one more share, in the place given by three flags. */
  predicate Raised(c: Stats.Counts, c': Stats.Counts, accepted: nat, stale: nat, invalid: nat) {
    c' == Stats.Counts(c.accepted + accepted, c.stale + stale, c.invalid + invalid)
  }

  /** The counters, overall and of one worker, and what the guard records for a key. */
  predicate Recorded(h: Handler, worker: string, key: string, h': Handler,
                     outcome: Outcome, accepted: nat, stale: nat, invalid: nat)
  {
    && Raised(h.overall, h'.overall, accepted, stale, invalid)
    && Raised(CountsIn(h, worker), CountsIn(h', worker), accepted, stale, invalid)
    && (key in h'.guard.entries ==> h'.guard.entries[key].outcome == outcome)
  }

  /** Each verdict's reply, counters and recorded outcome. */
  lemma VerdictIsHandled(h: Handler, sub: Submission, jobFound: bool, started: nat, finished: nat, b: Bounds,
                         v: Ring.Verdict, h': Handler, response: Response)
    requires Handled(h, sub, jobFound, started, finished, b, v, h', response)
    ensures var w, key := sub.worker, SubmitKey(sub.worker, sub.jobId, sub.nonce);
            && (v == Ring.Share ==> response == Yes && Recorded(h, w, key, h', Accepted, 1, 0, 0))
            && (v == Ring.Stale ==> response == StaleShare && Recorded(h, w, key, h', Stale, 0, 1, 0))
            && (v == Ring.LowDiff ==> response == LowDiffShare && Recorded(h, w, key, h', LowDiff, 0, 0, 1))
            && (v == Ring.Bad ==> response == BadShare && Recorded(h, w, key, h', Bad, 0, 0, 1))
  {
  }

  /**
   * From the node and the targets to the miner: for the last job tried, yes if the node took
   * its block or only the pool's target is met, and a refusal by what was wrong otherwise.
   */
  lemma MinerIsTold<J>(h: Handler, sub: Submission, jobFound: bool, started: nat, finished: nat, b: Bounds,
                       v: Ring.Verdict, h': Handler, response: Response,
                       jobs: map<nat, J>, eval: J -> Ring.Pow, node: J -> Ring.NodeReply, visited: seq<nat>)
    requires Handled(h, sub, jobFound, started, finished, b, v, h', response)
    requires Ring.SearchResult(jobs, sub.jobId, eval, node, v, visited) && visited != [] && v != Ring.NoJob
    ensures Ring.SlotOf(visited[|visited| - 1]) in jobs
    ensures var last := jobs[Ring.SlotOf(visited[|visited| - 1])];
            var p, reply := eval(last), node(last);
            && (p.network && reply == Ring.BlockAccepted ==> response == Yes && Accepts(h, h'))
            && (p.network && reply == Ring.BlockRejected ==> response == LowDiffShare && !Accepts(h, h'))
            && (p.network && reply == Ring.BlockDuplicate ==> response == StaleShare && !Accepts(h, h'))
            && (p.network && reply == Ring.BlockFailed ==> response == BadShare && !Accepts(h, h'))
            && (!p.network && p.pool ==> response == Yes && Accepts(h, h'))
            && (!p.network && !p.pool && sub.jobId > 0 ==> response == LowDiffShare && !Accepts(h, h'))
  {
    Ring.VerdictMeans(jobs, sub.jobId, eval, node, v, visited);
    VerdictIsHandled(h, sub, jobFound, started, finished, b, v, h', response);
  }

  /** One more share has been accepted, overall. */
  predicate Accepts(h: Handler, h': Handler) {
    h'.overall.accepted == h.overall.accepted + 1
  }

  /** The outcome is there, if the evaluation was in time and nothing is evicted for capacity. */
  lemma VerdictIsRecorded(h: Handler, sub: Submission, jobFound: bool, started: nat, finished: nat, b: Bounds,
                          v: Ring.Verdict, h': Handler, response: Response)
    requires Handled(h, sub, jobFound, started, finished, b, v, h', response) && Evaluated(v)
    requires Fits(h.guard, started, b) && Fits(Marked(h.guard, sub, started, b), finished, b)
    requires Since(finished, started) <= b.ttl
    ensures SubmitKey(sub.worker, sub.jobId, sub.nonce) in h'.guard.entries
    ensures h'.guard.entries[SubmitKey(sub.worker, sub.jobId, sub.nonce)].ts == finished
  {
    PruneTwice(h.guard, started, b);
    ExpireKeeps(Marked(h.guard, sub, started, b), finished, b.ttl);
  }

  // ---------- the nonce ----------

  lemma {:induction false} NothingToRemove(s: string)
    requires Text.IsHex(s)
    ensures Without0x(s) == s
  {
    if |s| >= 2 {
      assert s[1] in s && s[..2] == [s[0], s[1]];
      assert s[1..] == s[1..] && forall c :: c in s[1..] ==> c in s;
      NothingToRemove(s[1..]);
      assert s == [s[0]] + s[1..];
    }
  }

  /** Hex digits lose nothing, and a `0x` in front of them is all that is lost. */
  lemma PrefixIsRemoved(s: string)
    requires Text.IsHex(s)
    ensures Without0x(s) == s && Without0x("0x" + s) == s
  {
    NothingToRemove(s);
    assert ("0x" + s)[..2] == "0x" && ("0x" + s)[2..] == s;
  }

  /**
   * Up to sixteen hex digits, with or without `0x` in front, are evaluated at their value for
   * a miner that has no extranonce.
   */
  lemma NonceAlone(s: string)
    requires Text.IsHex(s) && 1 <= |s| <= 16
    ensures Nonce.ParseHex(Nonce.FinalNonce("", Without0x(s))) == Some(Text.ValueOf(s))
    ensures Nonce.ParseHex(Nonce.FinalNonce("", Without0x("0x" + s))) == Some(Text.ValueOf(s))
  {
    PrefixIsRemoved(s);
    Nonce.ParseShort(s);
  }

  predicate Evaluated(v: Ring.Verdict) {
    v != Ring.NoJob && v != Ring.Underflow
  }

  /**
   * A submission raises a counter exactly if it was evaluated to an end: by one, the counter
   * of its verdict's class, once overall and once for its own worker, and no other.
   */
  lemma CountedExactlyOnce(h: Handler, sub: Submission, jobFound: bool, started: nat, finished: nat, b: Bounds,
                           v: Ring.Verdict, h': Handler, response: Response, w: string, cls: Stats.Class)
    requires Handled(h, sub, jobFound, started, finished, b, v, h', response)
    ensures Stats.Of(h'.overall, cls) ==
            Stats.Of(h.overall, cls) + if Evaluated(v) && cls == ClassOf(v) then 1 else 0
    ensures Stats.Of(CountsIn(h', w), cls) ==
            Stats.Of(CountsIn(h, w), cls) + if Evaluated(v) && w == sub.worker && cls == ClassOf(v) then 1 else 0
    ensures h'.stats.Keys == if Evaluated(v) then h.stats.Keys + {sub.worker} else h.stats.Keys
  {
    if Evaluated(v) {
      Stats.BumpOf(h.overall, ClassOf(v), cls);
      Stats.BumpOf(CountsIn(h, sub.worker), ClassOf(v), cls);
    }
  }

  /** Nothing is evicted for capacity at an instant. */
  predicate Fits(g: Guard<Outcome>, now: nat, b: Bounds) {
    |Expire(g, now, b.ttl).entries| <= b.maxEntries
  }

  /** A verdict reached within the retention time is recorded, and lasts that time. */
  lemma OutcomeLasts(g: Guard<Outcome>, sub: Submission, b: Bounds, t0: nat, t1: nat, outcome: Outcome, t2: nat)
    requires SubmitKey(sub.worker, sub.jobId, sub.nonce) !in Prune(g, t0, b).entries
    requires Fits(g, t0, b) && Fits(Marked(g, sub, t0, b), t1, b) && Since(t1, t0) <= b.ttl
    requires var key := SubmitKey(sub.worker, sub.jobId, sub.nonce);
             Fits(Refreshed(Prune(Marked(g, sub, t0, b), t1, b), key, t1, outcome), t2, b) && Since(t2, t1) <= b.ttl
    ensures var key := SubmitKey(sub.worker, sub.jobId, sub.nonce);
            var recorded := Refreshed(Prune(Marked(g, sub, t0, b), t1, b), key, t1, outcome);
            key in Prune(recorded, t2, b).entries && Prune(recorded, t2, b).entries[key].outcome == outcome
  {
    var key := SubmitKey(sub.worker, sub.jobId, sub.nonce);
    PruneTwice(g, t0, b);
    var marked := Marked(g, sub, t0, b);
    assert marked.entries[key] == Entry(t0, InFlight);
    ExpireKeeps(marked, t1, b.ttl);
    ExpireKeeps(Refreshed(Prune(marked, t1, b), key, t1, outcome), t2, b.ttl);
  }

  /**
   * A submission evaluated within the retention time, and made again within that time of its
   * outcome, gets the very reply that it got before and leaves the counters alone, unless an
   * entry is evicted for capacity meanwhile.
   */
  lemma RepeatGetsSameReply(h: Handler, sub: Submission, jobFound: bool, t0: nat, t1: nat, b: Bounds, v: Ring.Verdict,
                            h1: Handler, r1: Response, t2: nat, t3: nat, v2: Ring.Verdict, h2: Handler, r2: Response)
    requires Handled(h, sub, jobFound, t0, t1, b, v, h1, r1) && Handled(h1, sub, jobFound, t2, t3, b, v2, h2, r2)
    requires Evaluated(v) && Since(t1, t0) <= b.ttl && Since(t2, t1) <= b.ttl
    requires Fits(h.guard, t0, b) && Fits(Marked(h.guard, sub, t0, b), t1, b) && Fits(h1.guard, t2, b)
    ensures r2 == r1 && h2.stats == h1.stats && h2.overall == h1.overall && !Evaluated(v2)
  {
    OutcomeLasts(h.guard, sub, b, t0, t1, OutcomeOf(v), t2);
  }

  /**
   * A submission whose search panicked stays in flight: made again within the retention time,
   * it is told yes, though nothing evaluates it, and counts nowhere.
   */
  lemma CrashedRepeat(h: Handler, sub: Submission, jobFound: bool, t0: nat, t1: nat, b: Bounds,
                      h1: Handler, r1: Response, t2: nat, t3: nat, v2: Ring.Verdict, h2: Handler, r2: Response)
    requires Handled(h, sub, jobFound, t0, t1, b, Ring.Underflow, h1, r1)
    requires Handled(h1, sub, jobFound, t2, t3, b, v2, h2, r2)
    requires Since(t2, t0) <= b.ttl && Fits(h.guard, t0, b) && Fits(h1.guard, t2, b)
    ensures r1 == Crash && r2 == Yes && h2.stats == h.stats && h2.overall == h.overall
  {
    PruneTwice(h.guard, t0, b);
    ExpireKeeps(h1.guard, t2, b.ttl);
  }
}
