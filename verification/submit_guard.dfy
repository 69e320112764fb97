/**
 * The time- and capacity-bounded map behind both duplicate guards: `DuplicateSubmitGuard`
 * for shares, whose entries carry an outcome, and `BlockSubmitGuard` for blocks, whose
 * entries carry none. Their `prune` is the same code.
 */
module SubmitGuards {
  import opened Wrappers
  import opened Caching

  datatype Entry<+O> = Entry(ts: nat, outcome: O)

  /** The map of a guard and the queue of its keys, oldest first. */
  datatype Guard<+O> = Guard(entries: map<string, Entry<O>>, order: seq<string>)

  datatype Bounds = Bounds(ttl: nat, maxEntries: nat)

  /**
   * `duration_since`, which is zero for a later instant. Callers take the time before they
   * take the lock, so the instants a guard sees need not be in order.
   */
  function Since(now: nat, ts: nat): nat {
    if now > ts then now - ts else 0
  }

  /** The first loop of `prune`: drop from the front what is gone or too old. */
  function Expire<O>(g: Guard<O>, now: nat, ttl: nat): Guard<O>
    decreases |g.order|
  {
    if g.order == [] then g
    else
      var front := g.order[0];
      if front !in g.entries || Since(now, g.entries[front].ts) > ttl
      then Expire(Guard(g.entries - {front}, g.order[1..]), now, ttl)
      else g
  }

  /** The second loop: drop from the front while there are too many. */
  function Trim<O>(g: Guard<O>, maxEntries: nat): Guard<O>
    decreases |g.order|
  {
    if |g.entries| <= maxEntries || g.order == [] then g
    else Trim(Guard(g.entries - {g.order[0]}, g.order[1..]), maxEntries)
  }

  function Prune<O>(g: Guard<O>, now: nat, b: Bounds): Guard<O> {
    Trim(Expire(g, now, b.ttl), b.maxEntries)
  }

  /** Every recorded key still has a place in the queue. */
  ghost predicate Queued<O>(g: Guard<O>) {
    forall k :: k in g.entries ==> k in g.order
  }

  lemma QueuedTail<O>(g: Guard<O>)
    requires Queued(g) && g.order != []
    ensures Queued(Guard(g.entries - {g.order[0]}, g.order[1..]))
  {
    assert g.order == [g.order[0]] + g.order[1..];
  }

  /** Expiry takes only what is too old, and changes nothing that it keeps. */
  lemma {:induction false} ExpireKeeps<O>(g: Guard<O>, now: nat, ttl: nat)
    ensures SubMap(Expire(g, now, ttl).entries, g.entries)
    ensures forall k :: k in g.entries && Since(now, g.entries[k].ts) <= ttl ==> k in Expire(g, now, ttl).entries
    ensures Queued(g) ==> Queued(Expire(g, now, ttl))
    decreases |g.order|
  {
    if g.order != [] {
      var front := g.order[0];
      if front !in g.entries || Since(now, g.entries[front].ts) > ttl {
        ExpireKeeps(Guard(g.entries - {front}, g.order[1..]), now, ttl);
        if Queued(g) {
          QueuedTail(g);
        }
      }
    }
  }

  /** With every key queued the second loop never runs dry: it ends within the bound. */
  lemma {:induction false} TrimBounds<O>(g: Guard<O>, maxEntries: nat)
    requires Queued(g)
    ensures |Trim(g, maxEntries).entries| <= maxEntries
    ensures Queued(Trim(g, maxEntries))
    ensures SubMap(Trim(g, maxEntries).entries, g.entries)
    decreases |g.order|
  {
    assert g.order == [] ==> g.entries.Keys == {};
    if |g.entries| > maxEntries {
      QueuedTail(g);
      TrimBounds(Guard(g.entries - {g.order[0]}, g.order[1..]), maxEntries);
    }
  }

  lemma PruneBounds<O>(g: Guard<O>, now: nat, b: Bounds)
    requires Queued(g)
    ensures Queued(Prune(g, now, b)) && |Prune(g, now, b).entries| <= b.maxEntries
    ensures SubMap(Prune(g, now, b).entries, g.entries)
  {
    ExpireKeeps(g, now, b.ttl);
    TrimBounds(Expire(g, now, b.ttl), b.maxEntries);
  }

  lemma {:induction false} ExpireTwice<O>(g: Guard<O>, now: nat, ttl: nat)
    ensures Expire(Expire(g, now, ttl), now, ttl) == Expire(g, now, ttl)
    decreases |g.order|
  {
    if g.order != [] {
      var front := g.order[0];
      if front !in g.entries || Since(now, g.entries[front].ts) > ttl {
        ExpireTwice(Guard(g.entries - {front}, g.order[1..]), now, ttl);
      }
    }
  }

  /** The insertion that prunes a guard just pruned at the same instant finds nothing to prune. */
  lemma PruneTwice<O>(g: Guard<O>, now: nat, b: Bounds)
    requires |Expire(g, now, b.ttl).entries| <= b.maxEntries
    ensures Prune(Prune(g, now, b), now, b) == Prune(g, now, b)
  {
    ExpireTwice(g, now, b.ttl);
  }

  function Added<O>(g: Guard<O>, key: string, now: nat, outcome: O): Guard<O> {
    if key in g.entries then g else Guard(g.entries[key := Entry(now, outcome)], g.order + [key])
  }

  function Refreshed<O>(g: Guard<O>, key: string, now: nat, outcome: O): Guard<O> {
    if key in g.entries then Guard(g.entries[key := Entry(now, outcome)], g.order) else g
  }

  class SubmitGuard<O> {
    const bounds: Bounds
    var entries: map<string, Entry<O>>
    var order: seq<string>

    ghost function State(): Guard<O>
      reads this
    {
      Guard(entries, order)
    }

    constructor (ttl: nat, maxEntries: nat)
      ensures bounds == Bounds(ttl, maxEntries) && State() == Guard(map[], [])
    {
      bounds := Bounds(ttl, maxEntries);
      entries, order := map[], [];
    }

    method PruneNow(now: nat)
      modifies this
      ensures State() == Prune(old(State()), now, bounds)
    {
      while order != []
        invariant Expire(State(), now, bounds.ttl) == Expire(old(State()), now, bounds.ttl)
        decreases |order|
      {
        var front := order[0];
        var remove := if front in entries then Since(now, entries[front].ts) > bounds.ttl else true;
        if !remove {
          break;
        }
        order := order[1..];
        entries := entries - {front};
      }
      assert State() == Expire(old(State()), now, bounds.ttl);
      while |entries| > bounds.maxEntries
        invariant Trim(State(), bounds.maxEntries) == Prune(old(State()), now, bounds)
        decreases |order|
      {
        if order == [] {
          break;
        }
        var key := order[0];
        order := order[1..];
        entries := entries - {key};
      }
    }

    method Get(key: string, now: nat) returns (outcome: Option<O>)
      modifies this
      ensures State() == Prune(old(State()), now, bounds)
      ensures outcome == if key in entries then Some(entries[key].outcome) else None
    {
      PruneNow(now);
      outcome := if key in entries then Some(entries[key].outcome) else None;
    }

    method InsertInflight(key: string, now: nat, inFlight: O)
      modifies this
      ensures State() == Added(Prune(old(State()), now, bounds), key, now, inFlight)
    {
      PruneNow(now);
      if key in entries {
        return;
      }
      entries := entries[key := Entry(now, inFlight)];
      order := order + [key];
    }

    method SetOutcome(key: string, now: nat, outcome: O)
      modifies this
      ensures State() == Refreshed(Prune(old(State()), now, bounds), key, now, outcome)
    {
      PruneNow(now);
      if key in entries {
        entries := entries[key := Entry(now, outcome)];
      }
    }

    /** `BlockSubmitGuard::try_mark` */
    method TryMark(hash: string, now: nat, mark: O) returns (marked: bool)
      modifies this
      ensures var pruned := Prune(old(State()), now, bounds);
              State() == Added(pruned, hash, now, mark) && (marked <==> hash !in pruned.entries)
    {
      PruneNow(now);
      if hash in entries {
        return false;
      }
      entries := entries[hash := Entry(now, mark)];
      order := order + [hash];
      marked := true;
    }

    /** `BlockSubmitGuard::remove`, which leaves the key's place in the queue behind. */
    method Remove(hash: string, now: nat)
      modifies this
      ensures var pruned := Prune(old(State()), now, bounds);
              State() == Guard(pruned.entries - {hash}, pruned.order)
    {
      PruneNow(now);
      entries := entries - {hash};
    }
  }

  // ---------- runs of the block guard ----------

  datatype BlockOp = TryMark(hash: string, now: nat) | Remove(hash: string, now: nat)

  function AfterBlockOp(b: Bounds, g: Guard<()>, op: BlockOp): Guard<()> {
    var pruned := Prune(g, op.now, b);
    match op
    case TryMark(hash, now) => Added(pruned, hash, now, ())
    case Remove(hash, _) => Guard(pruned.entries - {hash}, pruned.order)
  }

  /** The guard after the first `n` calls of a run that starts empty. */
  function BlockGuardAt(b: Bounds, ops: seq<BlockOp>, n: nat): Guard<()>
    requires n <= |ops|
  {
    if n == 0 then Guard(map[], []) else AfterBlockOp(b, BlockGuardAt(b, ops, n - 1), ops[n - 1])
  }

  predicate MarksAt(b: Bounds, ops: seq<BlockOp>, i: nat)
    requires i < |ops|
  {
    ops[i].TryMark? && ops[i].hash !in Prune(BlockGuardAt(b, ops, i), ops[i].now, b).entries
  }

  predicate FitsAt(b: Bounds, ops: seq<BlockOp>, i: nat)
    requires i < |ops|
  {
    |Expire(BlockGuardAt(b, ops, i), ops[i].now, b.ttl).entries| <= b.maxEntries
  }

  /** The call removes no mark of the hash and finds nothing to evict for capacity. */
  predicate LeavesAlone(b: Bounds, ops: seq<BlockOp>, l: nat, hash: string)
    requires l < |ops|
  {
    FitsAt(b, ops, l) && (ops[l].Remove? ==> ops[l].hash != hash)
  }

  /** An addition to a guard just pruned goes one above the bound exactly if the key is new and the guard is full. */
  lemma AddedCount<O>(g: Guard<O>, now: nat, b: Bounds, key: string, outcome: O)
    requires Queued(g)
    ensures var pruned := Prune(g, now, b);
            var added := Added(pruned, key, now, outcome);
            && Queued(added) && |added.entries| <= b.maxEntries + 1
            && (|added.entries| == b.maxEntries + 1 <==> key !in pruned.entries && |pruned.entries| == b.maxEntries)
  {
    PruneBounds(g, now, b);
    CountSet(Prune(g, now, b).entries, key, Entry(now, outcome));
  }

  lemma RemovedCount<O>(g: Guard<O>, now: nat, b: Bounds, key: string)
    requires Queued(g)
    ensures var pruned := Prune(g, now, b);
            Queued(Guard(pruned.entries - {key}, pruned.order)) && |pruned.entries - {key}| <= b.maxEntries
  {
    var pruned := Prune(g, now, b);
    PruneBounds(g, now, b);
    if key in pruned.entries {
      RemoveShrinks(pruned.entries, key);
    } else {
      assert pruned.entries - {key} == pruned.entries;
    }
  }

  /** In every run every mark is queued, and the guard holds at most one entry above its bound. */
  lemma {:induction false} BlockGuardBounded(b: Bounds, ops: seq<BlockOp>, n: nat)
    requires n <= |ops|
    ensures Queued(BlockGuardAt(b, ops, n)) && |BlockGuardAt(b, ops, n).entries| <= b.maxEntries + 1
  {
    if n > 0 {
      BlockGuardBounded(b, ops, n - 1);
      var op, g := ops[n - 1], BlockGuardAt(b, ops, n - 1);
      if op.TryMark? {
        AddedCount(g, op.now, b, op.hash, ());
      } else {
        RemovedCount(g, op.now, b, op.hash);
      }
    }
  }

  /** It holds that one more exactly after a call that marks, on a guard that was full after its pruning. */
  lemma BlockGuardOverfull(b: Bounds, ops: seq<BlockOp>, n: nat)
    requires n < |ops|
    ensures |BlockGuardAt(b, ops, n + 1).entries| == b.maxEntries + 1 <==>
            MarksAt(b, ops, n) && |Prune(BlockGuardAt(b, ops, n), ops[n].now, b).entries| == b.maxEntries
  {
    BlockGuardBounded(b, ops, n);
    var op, g := ops[n], BlockGuardAt(b, ops, n);
    if op.TryMark? {
      AddedCount(g, op.now, b, op.hash, ());
    } else {
      RemovedCount(g, op.now, b, op.hash);
    }
  }

  /** And it comes to that: two marks under a bound of one. */
  lemma BlockGuardOverfullExample(b: Bounds, ops: seq<BlockOp>)
    requires b == Bounds(10, 1) && ops == [TryMark("a", 0), TryMark("b", 0)]
    ensures |BlockGuardAt(b, ops, 2).entries| == 2
  {
    var empty: Guard<()>, g := Guard(map[], []), BlockGuardAt(b, ops, 1);
    assert BlockGuardAt(b, ops, 0) == empty && Prune(empty, 0, b) == empty;
    assert g == Guard(map["a" := Entry(0, ())], ["a"]);
    assert Prune(g, 0, b) == g;
    assert MarksAt(b, ops, 1);
    BlockGuardOverfull(b, ops, 1);
  }

  // ---------- runs of the share guard ----------

  datatype ShareOp<O> =
    | Look(key: string, now: nat)
    | Enter(key: string, now: nat, inFlight: O)
    | Record(key: string, now: nat, outcome: O)

  function AfterShareOp<O>(b: Bounds, g: Guard<O>, op: ShareOp<O>): Guard<O> {
    var pruned := Prune(g, op.now, b);
    match op
    case Look(_, _) => pruned
    case Enter(key, now, inFlight) => Added(pruned, key, now, inFlight)
    case Record(key, now, outcome) => Refreshed(pruned, key, now, outcome)
  }

  function ShareGuardAt<O>(b: Bounds, ops: seq<ShareOp<O>>, n: nat): Guard<O>
    requires n <= |ops|
  {
    if n == 0 then Guard(map[], []) else AfterShareOp(b, ShareGuardAt(b, ops, n - 1), ops[n - 1])
  }

  lemma AfterShareOpCount<O>(b: Bounds, g: Guard<O>, op: ShareOp<O>)
    requires Queued(g)
    ensures var pruned, g' := Prune(g, op.now, b), AfterShareOp(b, g, op);
            && Queued(g') && |g'.entries| <= b.maxEntries + 1
            && (|g'.entries| == b.maxEntries + 1 <==>
                  op.Enter? && op.key !in pruned.entries && |pruned.entries| == b.maxEntries)
  {
    PruneBounds(g, op.now, b);
    match op
    case Look(_, _) =>
    case Enter(key, now, inFlight) => AddedCount(g, now, b, key, inFlight);
    case Record(key, now, outcome) => CountSet(Prune(g, now, b).entries, key, Entry(now, outcome));
  }

  /** The share guard too holds at most one above its bound, and it does so exactly after such an insertion. */
  lemma {:induction false} ShareGuardOverfull<O>(b: Bounds, ops: seq<ShareOp<O>>, n: nat)
    requires n <= |ops|
    ensures var g := ShareGuardAt(b, ops, n);
            && Queued(g) && |g.entries| <= b.maxEntries + 1
            && (n > 0 ==>
                  var pruned := Prune(ShareGuardAt(b, ops, n - 1), ops[n - 1].now, b);
                  |g.entries| == b.maxEntries + 1 <==>
                  ops[n - 1].Enter? && ops[n - 1].key !in pruned.entries && |pruned.entries| == b.maxEntries)
  {
    if n > 0 {
      ShareGuardOverfull(b, ops, n - 1);
      AfterShareOpCount(b, ShareGuardAt(b, ops, n - 1), ops[n - 1]);
    }
  }

  lemma ShareGuardOverfullExample(b: Bounds, ops: seq<ShareOp<()>>)
    requires b == Bounds(10, 1) && ops == [Enter("a", 0, ()), Enter("b", 0, ())]
    ensures |ShareGuardAt(b, ops, 2).entries| == 2
  {
    var empty: Guard<()>, g := Guard(map[], []), ShareGuardAt(b, ops, 1);
    assert ShareGuardAt(b, ops, 0) == empty && Prune(empty, 0, b) == empty;
    assert g == Guard(map["a" := Entry(0, ())], ["a"]);
    assert Prune(g, 0, b) == g;
    ShareGuardOverfull(b, ops, 2);
  }

  // ---------- marks of the block guard ----------

  lemma CallKeepsMark(b: Bounds, ops: seq<BlockOp>, l: nat, hash: string)
    requires l < |ops| && LeavesAlone(b, ops, l, hash) && hash in BlockGuardAt(b, ops, l).entries
    requires Since(ops[l].now, BlockGuardAt(b, ops, l).entries[hash].ts) <= b.ttl
    ensures hash in Prune(BlockGuardAt(b, ops, l), ops[l].now, b).entries
    ensures hash in BlockGuardAt(b, ops, l + 1).entries
    ensures BlockGuardAt(b, ops, l + 1).entries[hash] == BlockGuardAt(b, ops, l).entries[hash]
  {
    ExpireKeeps(BlockGuardAt(b, ops, l), ops[l].now, b.ttl);
  }

  /** A mark stays as it is until it is removed, evicted, or seen by a call past its time. */
  lemma {:induction false} MarkHolds(b: Bounds, ops: seq<BlockOp>, i: nat, n: nat)
    requires i < n <= |ops| && MarksAt(b, ops, i)
    requires forall l :: i < l < n ==> LeavesAlone(b, ops, l, ops[i].hash)
    requires forall l :: i < l < n ==> Since(ops[l].now, ops[i].now) <= b.ttl
    ensures ops[i].hash in BlockGuardAt(b, ops, n).entries
    ensures BlockGuardAt(b, ops, n).entries[ops[i].hash].ts == ops[i].now
  {
    if n > i + 1 {
      MarkHolds(b, ops, i, n - 1);
      CallKeepsMark(b, ops, n - 1, ops[i].hash);
    }
  }

  /**
   * Between two successful marks of one hash, with no removal of it and no eviction for
   * capacity, some call came more than the retention time after the first mark.
   */
  lemma MarkedTwice(b: Bounds, ops: seq<BlockOp>, i: nat, j: nat)
    requires i < j < |ops| && MarksAt(b, ops, i) && MarksAt(b, ops, j) && ops[i].hash == ops[j].hash
    requires forall l :: i < l <= j ==> LeavesAlone(b, ops, l, ops[i].hash)
    ensures exists l :: i < l <= j && Since(ops[l].now, ops[i].now) > b.ttl
  {
    if forall l :: i < l <= j ==> Since(ops[l].now, ops[i].now) <= b.ttl {
      MarkHolds(b, ops, i, j);
      CallKeepsMark(b, ops, j, ops[i].hash);
      assert false;
    }
  }
}
