/**
 * The 300-slot ring of jobs sent to a miner, and the search through it: a share that is
 * too weak for the job it names is tried on the jobs before that one.
 */
module JobRing {
  import opened Wrappers

  const MAX_JOBS: nat := 300

  /** The newest id that a slot has been given, when `counter` ids are out. */
  predicate Newest(counter: nat, slot: nat, id: nat) {
    1 <= id <= counter && id % MAX_JOBS == slot && counter < id + MAX_JOBS
  }

  class MiningState<J> {
    var jobs: map<nat, J>
    var jobIds: map<nat, nat>
    var jobCounter: nat
    /** Every job ever added; the job with id `n` is at `n - 1`. */
    ghost var history: seq<J>

    ghost predicate Valid()
      reads this
    {
      && |history| == jobCounter
      && jobs.Keys == jobIds.Keys
      && (forall slot :: slot in jobIds ==>
            Newest(jobCounter, slot, jobIds[slot]) && jobs[slot] == history[jobIds[slot] - 1])
      && (forall id :: 1 <= id <= jobCounter < id + MAX_JOBS ==> id % MAX_JOBS in jobIds)
    }

    constructor ()
      ensures Valid() && history == []
    {
      jobs, jobIds, jobCounter, history := map[], map[], 0, [];
    }

    method AddJob(job: J) returns (id: nat)
      requires Valid()
      modifies this
      ensures Valid() && history == old(history) + [job] && id == |history|
    {
      jobCounter := jobCounter + 1;
      id := jobCounter;
      var slot := id % MAX_JOBS;
      forall s | s in jobIds && s != slot ensures Newest(id, s, jobIds[s]) {
        NewestMoves(id, s, jobIds[s]);
      }
      jobs := jobs[slot := job];
      jobIds := jobIds[slot := id];
      history := history + [job];
    }

    /** What the table holds, by the jobs that were ever added. */
    lemma IsRing()
      requires Valid()
      ensures RingOf(jobs, history)
    {
      forall id: nat ensures RingAt(jobs, history, id) {
        var slot, n := id % MAX_JOBS, Occupant(jobCounter, id);
        assert slot in jobIds ==> Newest(jobCounter, slot, jobIds[slot]);
        if slot in jobIds {
          OccupantIsNewest(jobCounter, id, jobIds[slot]);
        }
        if n >= 1 {
          OccupantIsNewest(jobCounter, id, n);
          assert n % MAX_JOBS in jobIds;
        }
      }
    }

    /** Whatever the slot holds: the job itself for the last 300 ids, a newer one for older ids. */
    method GetJob(id: nat) returns (job: Option<J>)
      requires Valid()
      ensures job.Some? <==> exists n :: Newest(jobCounter, id % MAX_JOBS, n)
      ensures forall n :: Newest(jobCounter, id % MAX_JOBS, n) ==> job == Some(history[n - 1])
      ensures 1 <= id <= jobCounter < id + MAX_JOBS ==> job == Some(history[id - 1])
    {
      var slot := id % MAX_JOBS;
      job := if slot in jobs then Some(jobs[slot]) else None;
      forall n: nat | Newest(jobCounter, slot, n) ensures slot in jobIds && jobIds[slot] == n {
        assert n % MAX_JOBS in jobIds;
        NewestIsUnique(jobCounter, slot, n, jobIds[slot]);
      }
      assert slot in jobIds ==> Newest(jobCounter, slot, jobIds[slot]);
      assert 1 <= id <= jobCounter < id + MAX_JOBS ==> Newest(jobCounter, slot, id);
    }
  }

  /** The newest id in the slot of `id`, when `counter` ids are out; below 1 if the slot has had none. */
  function Occupant(counter: nat, id: nat): int {
    counter - (counter - id) % MAX_JOBS
  }

  /** It is `id` for the last 300 ids, a newer one for older ids, and an older one for ids not given out yet. */
  lemma OccupantSide(counter: nat, id: nat)
    ensures Occupant(counter, id) == id <==> id <= counter < id + MAX_JOBS
    ensures Occupant(counter, id) > id <==> id + MAX_JOBS <= counter
  {
    var q := (counter - id) / MAX_JOBS;
    assert counter - id == MAX_JOBS * q + (counter - id) % MAX_JOBS;
  }

  lemma OccupantIsNewest(counter: nat, id: nat, n: nat)
    ensures Newest(counter, id % MAX_JOBS, n) <==> 1 <= n == Occupant(counter, id)
  {
    var q := (counter - id) / MAX_JOBS;
    assert counter - id == MAX_JOBS * q + (counter - id) % MAX_JOBS;
    if 1 <= n == Occupant(counter, id) {
      assert n == id + MAX_JOBS * q;
      SameSlot(id, q);
    }
    if Newest(counter, id % MAX_JOBS, n) {
      var p := n / MAX_JOBS - id / MAX_JOBS;
      assert n == id + MAX_JOBS * p;
      assert -1 < q - p < 1;
    }
  }

  lemma SameSlot(id: nat, q: int)
    ensures (id + MAX_JOBS * q) % MAX_JOBS == id % MAX_JOBS
  {
  }

  lemma NewestIsUnique(counter: nat, slot: nat, n: nat, n': nat)
    requires Newest(counter, slot, n) && Newest(counter, slot, n')
    ensures n == n'
  {
  }

  /** A slot that the next id does not take keeps its newest id. */
  lemma NewestMoves(counter: nat, slot: nat, id: nat)
    requires 1 <= counter && Newest(counter - 1, slot, id) && counter % MAX_JOBS != slot
    ensures Newest(counter, slot, id)
  {
    if counter == id + MAX_JOBS {
      assert false;
    }
  }

  // ---------- the search ----------

  /** How a job's proof of work compares for the submitted nonce: against the network's and the pool's target. */
  datatype Pow = Pow(network: bool, pool: bool)

  datatype NodeReply = BlockAccepted | BlockRejected | BlockDuplicate | BlockFailed

  datatype Verdict = Share | LowDiff | Stale | Bad | NoJob | Underflow

  predicate Hits(p: Pow) {
    p.network || p.pool
  }

  /** What a job that meets a target makes of the share; the network's target is looked at first. */
  function HitVerdict(p: Pow, reply: NodeReply): Verdict
    requires Hits(p)
  {
    if p.network then
      match reply
      case BlockAccepted => Share
      case BlockRejected => LowDiff
      case BlockDuplicate => Stale
      case BlockFailed => Bad
    else Share
  }

  function SlotOf(id: nat): nat {
    id % MAX_JOBS
  }

  function Limit(id: nat): nat {
    if id < MAX_JOBS then id else MAX_JOBS
  }

  /** The search ends at id 1 or one slot past where it began, and so at the limit. */
  lemma StopsAtLimit(id: nat, k: nat)
    requires k < id && k < MAX_JOBS
    ensures id - k == 1 || (id - k) % MAX_JOBS == (id % MAX_JOBS + 1) % MAX_JOBS <==> k + 1 == Limit(id)
  {
    var q, r := id / MAX_JOBS, id % MAX_JOBS;
    assert id == q * MAX_JOBS + r;
    if k <= r {
      assert (id - k) % MAX_JOBS == r - k;
    } else {
      assert id - k == (q - 1) * MAX_JOBS + (r - k + MAX_JOBS);
      assert (id - k) % MAX_JOBS == r - k + MAX_JOBS;
    }
  }

  lemma SlotsDiffer(id: nat, k: nat, k': nat)
    requires k < k' < MAX_JOBS && k' <= id
    ensures SlotOf(id - k) != SlotOf(id - k')
  {
  }

  /**
   * What a search from `id` comes to: it tries `id, id - 1, ...`, and stops at the first job
   * that meets a target, at the limit, or before an empty slot. Id 0 alone can make it count
   * below zero.
   */
  ghost predicate SearchResult<J>(jobs: map<nat, J>, id: nat, eval: J -> Pow, node: J -> NodeReply,
                                  verdict: Verdict, visited: seq<nat>)
  {
    && (verdict == NoJob <==> SlotOf(id) !in jobs)
    && (verdict == NoJob <==> visited == [])
    && (verdict == Underflow <==> id == 0 && SlotOf(id) in jobs && !Hits(eval(jobs[SlotOf(id)])))
    && |visited| <= (if id == 0 then 1 else Limit(id))
    && (forall k :: 0 <= k < |visited| ==> visited[k] == id - k && SlotOf(visited[k]) in jobs)
    && (forall k :: 0 <= k < |visited| - 1 ==> !Hits(eval(jobs[SlotOf(visited[k])])))
    && (verdict != NoJob && verdict != Underflow ==>
          var last := jobs[SlotOf(visited[|visited| - 1])];
          if Hits(eval(last)) then verdict == HitVerdict(eval(last), node(last))
          else verdict == LowDiff && (|visited| == Limit(id) || SlotOf(id - |visited|) !in jobs))
  }

  /** The loop of `handle_submit` over a ring that does not change meanwhile. */
  method Search<J>(jobs: map<nat, J>, id: nat, eval: J -> Pow, node: J -> NodeReply)
    returns (verdict: Verdict, ghost visited: seq<nat>)
    ensures SearchResult(jobs, id, eval, node, verdict, visited)
    ensures verdict == NoJob <==> SlotOf(id) !in jobs
  {
    visited := [];
    if id % MAX_JOBS !in jobs {
      return NoJob, visited;
    }
    var current, job, invalid := id, jobs[id % MAX_JOBS], false;
    while true
      invariant 0 <= current <= id && (id > 0 ==> current > 0)
      invariant |visited| == id - current && |visited| <= MAX_JOBS - 1
      invariant current % MAX_JOBS in jobs && job == jobs[current % MAX_JOBS]
      invariant forall k :: 0 <= k < |visited| ==> visited[k] == id - k && SlotOf(visited[k]) in jobs
      invariant forall k :: 0 <= k < |visited| ==> !Hits(eval(jobs[SlotOf(visited[k])]))
      invariant current != id ==> invalid
      decreases current
    {
      visited := visited + [current];
      if id > 0 {
        StopsAtLimit(id, id - current);
      }
      var p := eval(job);
      if p.network {
        match node(job) {
          case BlockAccepted => invalid := false; break;
          case BlockRejected => invalid := true; break;
          case BlockDuplicate => return Stale, visited;
          case BlockFailed => return Bad, visited;
        }
      }
      if !p.pool {
        if current == id {
          invalid := true;
        }
        if current == 1 || current % MAX_JOBS == ((id % MAX_JOBS) + 1) % MAX_JOBS {
          break;
        }
        if current == 0 {
          return Underflow, visited;
        }
        var prev := current - 1;
        if prev % MAX_JOBS !in jobs {
          break;
        }
        current, job := prev, jobs[prev % MAX_JOBS];
      } else {
        invalid := false;
        break;
      }
    }
    verdict := if invalid then LowDiff else Share;
  }

  /** The verdict in the words of the node and the targets, for the last job tried. */
  lemma VerdictMeans<J>(jobs: map<nat, J>, id: nat, eval: J -> Pow, node: J -> NodeReply,
                        verdict: Verdict, visited: seq<nat>)
    requires SearchResult(jobs, id, eval, node, verdict, visited) && visited != []
    ensures SlotOf(visited[|visited| - 1]) in jobs
    ensures var last := jobs[SlotOf(visited[|visited| - 1])];
            var p, reply := eval(last), node(last);
            && (verdict == Share <==> (p.network && reply == BlockAccepted) || (!p.network && p.pool))
            && (verdict == Stale <==> p.network && reply == BlockDuplicate)
            && (verdict == Bad <==> p.network && reply == BlockFailed)
            && (p.network && reply == BlockRejected ==> verdict == LowDiff)
            && (!p.network && !p.pool ==> verdict == LowDiff || (verdict == Underflow && id == 0))
  {
    assert visited[|visited| - 1] == id - (|visited| - 1);
  }

  /** The ring and the targets decide the search. */
  lemma SearchIsDetermined<J>(jobs: map<nat, J>, id: nat, eval: J -> Pow, node: J -> NodeReply,
                              v: Verdict, visited: seq<nat>, v': Verdict, visited': seq<nat>)
    requires SearchResult(jobs, id, eval, node, v, visited) && SearchResult(jobs, id, eval, node, v', visited')
    ensures v == v' && visited == visited'
  {
    if |visited| < |visited'| {
      SearchNotShorter(jobs, id, eval, node, v, visited, v', visited');
    } else if |visited'| < |visited| {
      SearchNotShorter(jobs, id, eval, node, v', visited', v, visited);
    }
  }

  /** Where a search has gone on, it had met no target, had not reached the limit, and found a job. */
  lemma SearchGoesOn<J>(jobs: map<nat, J>, id: nat, eval: J -> Pow, node: J -> NodeReply,
                        v: Verdict, visited: seq<nat>, n: nat)
    requires SearchResult(jobs, id, eval, node, v, visited) && 0 < n < |visited|
    ensures n < Limit(id) && SlotOf(id - n) in jobs
    ensures SlotOf(id - (n - 1)) in jobs && !Hits(eval(jobs[SlotOf(id - (n - 1))]))
  {
    assert visited[n - 1] == id - (n - 1) && visited[n] == id - n;
  }

  lemma SearchNotShorter<J>(jobs: map<nat, J>, id: nat, eval: J -> Pow, node: J -> NodeReply,
                            v: Verdict, visited: seq<nat>, v': Verdict, visited': seq<nat>)
    requires SearchResult(jobs, id, eval, node, v, visited) && SearchResult(jobs, id, eval, node, v', visited')
    ensures |visited| >= |visited'|
  {
    var n := |visited|;
    if 0 < n < |visited'| {
      SearchGoesOn(jobs, id, eval, node, v', visited', n);
      assert false;
    }
  }

  /** The ids tried are at least 1, go down one by one, and are in pairwise different slots. */
  lemma VisitsDistinctSlots<J>(jobs: map<nat, J>, id: nat, eval: J -> Pow, node: J -> NodeReply,
                               verdict: Verdict, visited: seq<nat>, k: nat, k': nat)
    requires SearchResult(jobs, id, eval, node, verdict, visited) && id >= 1 && k < k' < |visited|
    ensures |visited| <= 300 && visited[k] > visited[k'] >= 1
    ensures SlotOf(visited[k]) != SlotOf(visited[k'])
  {
    SlotsDiffer(id, k, k');
  }

  /** The slot of an id holds the newest job that was put there, if there was one. */
  ghost predicate RingAt<J>(jobs: map<nat, J>, history: seq<J>, id: nat) {
    var n := Occupant(|history|, id);
    && (SlotOf(id) in jobs <==> n >= 1)
    && (n >= 1 ==> jobs[SlotOf(id)] == history[n - 1])
  }

  ghost predicate RingOf<J>(jobs: map<nat, J>, history: seq<J>) {
    forall id: nat :: RingAt(jobs, history, id)
  }

  /**
   * On a miner's own ring a search tries the job of each id, as long as the id is among the
   * last 300; for an older id it tries a newer job, and for an id not given out yet an older one.
   */
  lemma SearchTries<J>(jobs: map<nat, J>, history: seq<J>, id: nat, eval: J -> Pow, node: J -> NodeReply,
                       verdict: Verdict, visited: seq<nat>, k: nat)
    requires RingOf(jobs, history) && SearchResult(jobs, id, eval, node, verdict, visited) && k < |visited|
    ensures var n := Occupant(|history|, id - k);
            && 1 <= n <= |history| && jobs[SlotOf(visited[k])] == history[n - 1]
            && (n == id - k <==> id - k <= |history| < id - k + 300)
            && (n > id - k <==> id - k + 300 <= |history|)
  {
    assert visited[k] == id - k && SlotOf(visited[k]) in jobs;
    assert RingAt(jobs, history, id - k);
    OccupantSide(|history|, id - k);
  }

  /** With id 0 a search of any ring that has a job there panics exactly if that job meets no target. */
  lemma JobZero<J>(jobs: map<nat, J>, eval: J -> Pow, node: J -> NodeReply, verdict: Verdict, visited: seq<nat>)
    requires SearchResult(jobs, 0, eval, node, verdict, visited) && 0 in jobs
    ensures verdict == Underflow <==> !Hits(eval(jobs[0]))
  {
  }

  /** And it does: a full ring and a share that is too weak. */
  lemma JobZeroExample<J>(jobs: map<nat, J>, node: J -> NodeReply)
    requires forall s :: s < MAX_JOBS ==> s in jobs
    ensures SearchResult(jobs, 0, (j: J) => Pow(false, false), node, Underflow, [0])
  {
  }

  /** A search of a full ring that meets no target has tried the job in every slot, each once. */
  lemma FullSearch<J>(jobs: map<nat, J>, id: nat, eval: J -> Pow, node: J -> NodeReply,
                      verdict: Verdict, visited: seq<nat>, slot: nat)
    requires SearchResult(jobs, id, eval, node, verdict, visited)
    requires forall s :: s < MAX_JOBS ==> s in jobs
    requires MAX_JOBS <= id && slot < MAX_JOBS
    requires forall k :: 0 <= k < |visited| ==> !Hits(eval(jobs[SlotOf(visited[k])]))
    ensures |visited| == 300 && verdict == LowDiff
    ensures exists k :: 0 <= k < |visited| && SlotOf(visited[k]) == slot
    ensures forall k, k' :: 0 <= k < k' < |visited| ==> SlotOf(visited[k]) != SlotOf(visited[k'])
    ensures forall s :: s in jobs && s < MAX_JOBS ==> !Hits(eval(jobs[s]))
  {
    SlotTried(id, visited, slot);
    forall s | s in jobs && s < MAX_JOBS ensures !Hits(eval(jobs[s])) {
      SlotTried(id, visited, s);
    }
    forall k, k' | 0 <= k < k' < |visited| ensures SlotOf(visited[k]) != SlotOf(visited[k']) {
      SlotsDiffer(id, k, k');
    }
  }

  lemma SlotTried(id: nat, visited: seq<nat>, slot: nat)
    requires |visited| == MAX_JOBS <= id && slot < MAX_JOBS
    requires forall k :: 0 <= k < |visited| ==> visited[k] == id - k
    ensures exists k :: 0 <= k < |visited| && SlotOf(visited[k]) == slot
  {
    var k := (id - slot) % MAX_JOBS;
    assert (id - k) % MAX_JOBS == slot;
    assert SlotOf(visited[k]) == slot;
  }
}
