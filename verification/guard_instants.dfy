/**
 * What the instants that a guard sees mean for it. The clock is read before the lock is
 * taken, so they need not be in order.
 */
module GuardInstants {
  import opened SubmitGuards

  /** A hash is marked at `i` and again at `j`, too soon, though nobody removed or evicted the mark. */
  ghost predicate MarksTooSoon(b: Bounds, ops: seq<BlockOp>, i: nat, j: nat) {
    && i < j < |ops| && MarksAt(b, ops, i) && MarksAt(b, ops, j) && ops[i].hash == ops[j].hash
    && (forall l :: i < l <= j ==> LeavesAlone(b, ops, l, ops[i].hash))
    && ops[j].now <= ops[i].now + b.ttl
  }

  /** An instant past the time of an earlier one, and then one within it. */
  predicate GoesBack(b: Bounds, nows: seq<nat>, i: nat, l: nat, j: nat) {
    i < l < j < |nows| && nows[l] > nows[i] + b.ttl >= nows[j]
  }

  /** There is such a place. A guard that may hold nothing forgets at each call, so there `l` comes right after `i`. */
  ghost predicate AllowsEarlyMark(b: Bounds, nows: seq<nat>) {
    exists i: nat, l: nat, j: nat :: GoesBack(b, nows, i, l, j) && (b.maxEntries == 0 ==> l == i + 1)
  }

  predicate At(ops: seq<BlockOp>, nows: seq<nat>) {
    |ops| == |nows| && forall k :: 0 <= k < |ops| ==> ops[k].now == nows[k]
  }

  lemma EarlyMarkNeeds(b: Bounds, ops: seq<BlockOp>, nows: seq<nat>, i: nat, j: nat)
    requires MarksTooSoon(b, ops, i, j) && At(ops, nows)
    ensures AllowsEarlyMark(b, nows)
  {
    LateCall(b, ops, i, j);
    LatePlace(b, ops, nows, i, j);
  }

  /** Some call before `j` comes past the time of `i`, and for a guard that may hold nothing the next one does. */
  ghost predicate IsLate(b: Bounds, ops: seq<BlockOp>, i: nat, j: nat)
    requires i < j < |ops|
  {
    exists l :: i < l <= j && (b.maxEntries == 0 ==> l == i + 1) && Since(ops[l].now, ops[i].now) > b.ttl
  }

  lemma LateCall(b: Bounds, ops: seq<BlockOp>, i: nat, j: nat)
    requires i < j < |ops| && MarksAt(b, ops, i) && MarksAt(b, ops, j) && ops[i].hash == ops[j].hash
    requires forall l :: i < l <= j ==> LeavesAlone(b, ops, l, ops[i].hash)
    ensures IsLate(b, ops, i, j)
  {
    if b.maxEntries == 0 {
      assert LeavesAlone(b, ops, i + 1, ops[i].hash);
      HoldingNothing(b, ops, i);
    } else {
      MarkedTwice(b, ops, i, j);
    }
  }

  lemma LatePlace(b: Bounds, ops: seq<BlockOp>, nows: seq<nat>, i: nat, j: nat)
    requires i < j < |ops| && At(ops, nows) && IsLate(b, ops, i, j) && ops[j].now <= ops[i].now + b.ttl
    ensures AllowsEarlyMark(b, nows)
  {
    var l: nat :| i < l <= j && (b.maxEntries == 0 ==> l == i + 1) && Since(ops[l].now, ops[i].now) > b.ttl;
    assert GoesBack(b, nows, i, l, j);
  }

  lemma HoldingNothing(b: Bounds, ops: seq<BlockOp>, i: nat)
    requires i + 1 < |ops| && MarksAt(b, ops, i) && b.maxEntries == 0
    requires LeavesAlone(b, ops, i + 1, ops[i].hash)
    ensures ops[i + 1].now > ops[i].now + b.ttl
  {
    MarkIsThere(b, ops, i);
    NothingKept(BlockGuardAt(b, ops, i + 1), ops[i + 1].now, b.ttl, ops[i].hash);
  }

  lemma MarkIsThere(b: Bounds, ops: seq<BlockOp>, i: nat)
    requires i < |ops| && MarksAt(b, ops, i)
    ensures ops[i].hash in BlockGuardAt(b, ops, i + 1).entries
    ensures BlockGuardAt(b, ops, i + 1).entries[ops[i].hash].ts == ops[i].now
  {
  }

  lemma NothingKept<O>(g: Guard<O>, now: nat, ttl: nat, key: string)
    requires key in g.entries && |Expire(g, now, ttl).entries| == 0
    ensures Since(now, g.entries[key].ts) > ttl
  {
    ExpireKeeps(g, now, ttl);
  }

  // ---------- a run for any such instants ----------

  /** Two marks of one hash, and other calls that find nothing to do. */
  ghost predicate TwoMarks(ops: seq<BlockOp>, i: nat, j: nat) {
    forall k :: 0 <= k < |ops| ==>
      ops[k] == if k == i || k == j then TryMark("a", ops[k].now) else BlockOp.Remove("b", ops[k].now)
  }

  const NO_MARK: Guard<()> := Guard(map[], [])

  function OneMark(t: nat): Guard<()> {
    Guard(map["a" := Entry(t, ())], ["a"])
  }

  lemma ExpireOneMark(t: nat, now: nat, ttl: nat)
    ensures Expire(OneMark(t), now, ttl) == if Since(now, t) > ttl then NO_MARK else OneMark(t)
  {
    var g := OneMark(t);
    assert g.order[1..] == [] && g.entries - {"a"} == map[];
  }

  lemma TrimOneMark(t: nat, maxEntries: nat)
    ensures Trim(OneMark(t), maxEntries) == if maxEntries == 0 then NO_MARK else OneMark(t)
  {
    var g := OneMark(t);
    assert g.order[1..] == [] && g.entries - {"a"} == map[];
    assert g.entries.Keys == {"a"} && |g.entries| == 1;
    assert maxEntries == 0 ==> Trim(Guard(g.entries - {"a"}, g.order[1..]), 0) == NO_MARK;
  }

  lemma CallOnNothing(b: Bounds, now: nat)
    ensures AfterBlockOp(b, NO_MARK, BlockOp.Remove("b", now)) == NO_MARK
    ensures AfterBlockOp(b, NO_MARK, TryMark("a", now)) == OneMark(now)
    ensures "a" !in Prune(NO_MARK, now, b).entries && |Expire(NO_MARK, now, b.ttl).entries| == 0
  {
    assert Prune(NO_MARK, now, b) == NO_MARK;
  }

  lemma CallOnMark(b: Bounds, t: nat, now: nat)
    ensures AfterBlockOp(b, OneMark(t), BlockOp.Remove("b", now)) ==
            if Since(now, t) > b.ttl || b.maxEntries == 0 then NO_MARK else OneMark(t)
    ensures |Expire(OneMark(t), now, b.ttl).entries| == if Since(now, t) > b.ttl then 0 else 1
  {
    ExpireOneMark(t, now, b.ttl);
    TrimOneMark(t, b.maxEntries);
    assert OneMark(t).entries.Keys == {"a"};
    assert OneMark(t).entries - {"b"} == OneMark(t).entries;
  }

  /** What call `k` of such a run makes of a guard with no mark or with one. */
  ghost predicate Moves(g: Guard<()>, g': Guard<()>, t: nat, i: nat, l: nat, k: nat) {
    && (g == NO_MARK ==> g' == if k == i then OneMark(t) else NO_MARK)
    && (g == OneMark(t) && k > i ==> g' == NO_MARK || (k != l && g' == OneMark(t)))
  }

  lemma CallMoves(b: Bounds, g: Guard<()>, op: BlockOp, t: nat, i: nat, l: nat, k: nat)
    requires op == if k == i then TryMark("a", t) else BlockOp.Remove("b", op.now)
    requires k == l ==> op.now > t + b.ttl
    ensures Moves(g, AfterBlockOp(b, g, op), t, i, l, k)
  {
    CallOnNothing(b, op.now);
    CallOnMark(b, t, op.now);
  }

  lemma GuardMoves(b: Bounds, ops: seq<BlockOp>, i: nat, l: nat, j: nat, k: nat)
    requires TwoMarks(ops, i, j) && i < l < j < |ops| && k < j && ops[l].now > ops[i].now + b.ttl
    ensures Moves(BlockGuardAt(b, ops, k), BlockGuardAt(b, ops, k + 1), ops[i].now, i, l, k)
  {
    CallMoves(b, BlockGuardAt(b, ops, k), ops[k], ops[i].now, i, l, k);
  }

  /** Nothing at first, then the mark from call `i` on, and nothing again after call `l` at the latest. */
  ghost predicate Shape(g: Guard<()>, t: nat, i: nat, l: nat, n: nat) {
    (g == NO_MARK && n != i + 1) || (i < n <= l && g == OneMark(t))
  }

  lemma {:induction false} Walk(gs: seq<Guard<()>>, t: nat, i: nat, l: nat, n: nat)
    requires i < l && n < |gs| && gs[0] == NO_MARK
    requires forall k, k' :: 0 <= k && k' == k + 1 < |gs| ==> Moves(gs[k], gs[k'], t, i, l, k)
    ensures Shape(gs[n], t, i, l, n)
  {
    if n > 0 {
      Walk(gs, t, i, l, n - 1);
      assert Moves(gs[n - 1], gs[n], t, i, l, n - 1);
    }
  }

  function Guards(b: Bounds, ops: seq<BlockOp>, n: nat): (gs: seq<Guard<()>>)
    requires n <= |ops|
    ensures |gs| == n + 1 && forall k :: 0 <= k <= n ==> gs[k] == BlockGuardAt(b, ops, k)
  {
    seq(n + 1, k requires 0 <= k <= n => BlockGuardAt(b, ops, k))
  }

  lemma GuardsMove(b: Bounds, ops: seq<BlockOp>, i: nat, l: nat, j: nat, gs: seq<Guard<()>>)
    requires TwoMarks(ops, i, j) && i < l < j < |ops| && ops[l].now > ops[i].now + b.ttl && gs == Guards(b, ops, j)
    ensures gs[0] == NO_MARK
    ensures forall k, k' :: 0 <= k && k' == k + 1 < |gs| ==> Moves(gs[k], gs[k'], ops[i].now, i, l, k)
  {
    forall k, k' | 0 <= k && k' == k + 1 < |gs| ensures Moves(gs[k], gs[k'], ops[i].now, i, l, k) {
      GuardMoves(b, ops, i, l, j, k);
    }
  }

  lemma Shapes(b: Bounds, ops: seq<BlockOp>, i: nat, l: nat, j: nat, n: nat)
    requires TwoMarks(ops, i, j) && i < l < j < |ops| && n <= j && ops[l].now > ops[i].now + b.ttl
    ensures Shape(BlockGuardAt(b, ops, n), ops[i].now, i, l, n)
  {
    var gs := Guards(b, ops, j);
    GuardsMove(b, ops, i, l, j, gs);
    Walk(gs, ops[i].now, i, l, n);
  }

  lemma EarlyMarkHappens(b: Bounds, ops: seq<BlockOp>, nows: seq<nat>, i: nat, l: nat, j: nat)
    requires At(ops, nows) && GoesBack(b, nows, i, l, j) && (b.maxEntries == 0 ==> l == i + 1)
    requires TwoMarks(ops, i, j)
    ensures MarksTooSoon(b, ops, i, j)
  {
    Shapes(b, ops, i, l, j, i);
    CallOnNothing(b, ops[i].now);
    Shapes(b, ops, i, l, j, j);
    CallOnNothing(b, ops[j].now);
    forall k | i < k <= j ensures LeavesAlone(b, ops, k, ops[i].hash) {
      Shapes(b, ops, i, l, j, k);
      Fits(b, BlockGuardAt(b, ops, k), ops[k].now, ops[i].now);
    }
  }

  lemma Fits(b: Bounds, g: Guard<()>, now: nat, t: nat)
    requires g == NO_MARK || g == OneMark(t)
    requires b.maxEntries > 0 || g == NO_MARK || Since(now, t) > b.ttl
    ensures |Expire(g, now, b.ttl).entries| <= b.maxEntries
  {
    CallOnNothing(b, now);
    CallOnMark(b, t, now);
  }

  function MarkAndMark(nows: seq<nat>, i: nat, j: nat): (ops: seq<BlockOp>)
    ensures At(ops, nows) && TwoMarks(ops, i, j)
  {
    seq(|nows|, k requires 0 <= k < |nows| =>
      if k == i || k == j then TryMark("a", nows[k]) else BlockOp.Remove("b", nows[k]))
  }

  /**
   * For any instants, some run of calls at them marks a hash twice within the retention time,
   * without a removal or an eviction of it, exactly when an instant past the time of an
   * earlier one is followed by one within it.
   */
  lemma EarlyMarksExactly(b: Bounds, nows: seq<nat>)
    ensures (exists ops, i, j :: At(ops, nows) && MarksTooSoon(b, ops, i, j)) <==> AllowsEarlyMark(b, nows)
  {
    if ops, i, j :| At(ops, nows) && MarksTooSoon(b, ops, i, j) {
      EarlyMarkNeeds(b, ops, nows, i, j);
    }
    if i: nat, l: nat, j: nat :| GoesBack(b, nows, i, l, j) && (b.maxEntries == 0 ==> l == i + 1) {
      EarlyMarkHappens(b, MarkAndMark(nows, i, j), nows, i, l, j);
    }
  }

  /** Instants in order allow none. */
  lemma OrderedMarks(b: Bounds, nows: seq<nat>)
    requires forall k, k' :: 0 <= k <= k' < |nows| ==> nows[k] <= nows[k']
    ensures !AllowsEarlyMark(b, nows)
  {
  }

  /** Others do: marked at 0, expired by a call at 11, and marked again at 5. */
  lemma MarkedTwiceTooSoon(b: Bounds, nows: seq<nat>)
    requires b == Bounds(10, 5) && nows == [0, 11, 5]
    ensures MarksTooSoon(b, MarkAndMark(nows, 0, 2), 0, 2)
  {
    EarlyMarkHappens(b, MarkAndMark(nows, 0, 2), nows, 0, 1, 2);
  }

  // ---------- the order of eviction ----------

  function KeysOf(order: seq<string>): set<string> {
    set k | k in order
  }

  /** `g'` is `g` without the first `p` places of its queue and all entries that have one of them, and no fewer do. */
  ghost predicate Cut<O>(g: Guard<O>, maxEntries: nat, p: nat, g': Guard<O>) {
    && p <= |g.order| && g' == Guard(g.entries - KeysOf(g.order[..p]), g.order[p..])
    && |g.entries - KeysOf(g.order[..p])| <= maxEntries
    && (p > 0 ==> |g.entries - KeysOf(g.order[..p - 1])| > maxEntries)
  }

  lemma CutNone<O>(g: Guard<O>)
    ensures g.entries - KeysOf(g.order[..0]) == g.entries && g.order[0..] == g.order
  {
  }

  lemma CutMore<O>(g: Guard<O>, maxEntries: nat, q: nat, g': Guard<O>)
    requires |g.entries| > maxEntries && g.order != []
    requires Cut(Guard(g.entries - {g.order[0]}, g.order[1..]), maxEntries, q, g')
    ensures Cut(g, maxEntries, q + 1, g')
  {
    var rest := g.entries - {g.order[0]};
    assert rest - KeysOf(g.order[1..][..q]) == g.entries - KeysOf(g.order[..q + 1]) by {
      FrontKeys(g.entries, g.order, q);
    }
    assert g.order[1..][q..] == g.order[q + 1..];
    assert |g.entries - KeysOf(g.order[..q])| > maxEntries by {
      if q > 0 {
        FrontKeys(g.entries, g.order, q - 1);
      } else {
        CutNone(g);
      }
    }
  }

  lemma FrontKeys<O>(entries: map<string, Entry<O>>, order: seq<string>, q: nat)
    requires order != [] && q < |order|
    ensures entries - {order[0]} - KeysOf(order[1..][..q]) == entries - KeysOf(order[..q + 1])
  {
    assert order[..q + 1] == [order[0]] + order[1..][..q];
  }

  /** Trimming drops the shortest front of the queue that it must, and every entry with a place in it. */
  lemma {:induction false} TrimExactly<O>(g: Guard<O>, maxEntries: nat) returns (p: nat)
    requires Queued(g)
    ensures Cut(g, maxEntries, p, Trim(g, maxEntries))
    decreases |g.order|
  {
    assert g.order == [] ==> g.entries.Keys == {};
    if |g.entries| <= maxEntries {
      p := 0;
      CutNone(g);
    } else {
      QueuedTail(g);
      var tail := Guard(g.entries - {g.order[0]}, g.order[1..]);
      var q := TrimExactly(tail, maxEntries);
      CutMore(g, maxEntries, q, Trim(tail, maxEntries));
      p := q + 1;
    }
  }

  /** The first place of a key in the queue, which decides when it is evicted. */
  function FirstPlace(order: seq<string>, key: string): (p: nat)
    ensures p <= |order| && (p < |order| <==> key in order)
    ensures key !in order[..p] && (p < |order| ==> order[p] == key)
  {
    if order == [] || order[0] == key then 0
    else
      var p := FirstPlace(order[1..], key);
      assert order == [order[0]] + order[1..] && order[..1 + p] == [order[0]] + order[1..][..p];
      1 + p
  }

  /**
   * A new mark is behind all others, and so evicted after them, exactly when its hash has no
   * place in the queue left from an earlier mark; a removal leaves one. Otherwise it takes the
   * turn of that earlier mark.
   */
  lemma MarkTakesTurn<O>(g: Guard<O>, key: string, now: nat, outcome: O)
    requires key !in g.entries
    ensures FirstPlace(Added(g, key, now, outcome).order, key) == FirstPlace(g.order, key)
    ensures FirstPlace(Added(g, key, now, outcome).order, key) == |g.order| <==> key !in g.order
    ensures forall k :: k in g.order ==>
              FirstPlace(Added(g, key, now, outcome).order, k) == FirstPlace(g.order, k) < |g.order|
  {
    PlaceAppend(g.order, key, key);
    forall k | k in g.order ensures FirstPlace(Added(g, key, now, outcome).order, k) == FirstPlace(g.order, k) {
      PlaceAppend(g.order, key, k);
    }
  }

  lemma {:induction false} PlaceAppend(order: seq<string>, key: string, k: string)
    requires k in order || k == key
    ensures FirstPlace(order + [key], k) == FirstPlace(order, k)
  {
    if order != [] && order[0] != k {
      assert (order + [key])[1..] == order[1..] + [key];
      PlaceAppend(order[1..], key, k);
    }
  }

  /**
   * So it can go first: behind a mark that stays, a hash that was marked, removed and marked
   * again is evicted before one marked in between.
   */
  lemma RemarkedGoesFirst(b: Bounds, ops: seq<BlockOp>)
    requires b == Bounds(10, 3)
    requires ops == [TryMark("x", 0), TryMark("a", 0), TryMark("b", 0), BlockOp.Remove("a", 0), TryMark("a", 0)]
    ensures BlockGuardAt(b, ops, 5).order == ["x", "a", "b", "a"]
    ensures Trim(BlockGuardAt(b, ops, 5), 1).entries == map["b" := Entry(0, ())]
  {
    var e: Entry<()> := Entry(0, ());
    var m2, m3 := map["x" := e, "a" := e], map["x" := e, "a" := e, "b" := e];
    assert BlockGuardAt(b, ops, 0) == NO_MARK;
    QuietCall(b, ops, 0, NO_MARK, Guard(map["x" := e], ["x"]));
    QuietCall(b, ops, 1, Guard(map["x" := e], ["x"]), Guard(m2, ["x", "a"]));
    QuietCall(b, ops, 2, Guard(m2, ["x", "a"]), Guard(m3, ["x", "a", "b"]));
    assert m3 - {"a"} == map["x" := e, "b" := e];
    QuietCall(b, ops, 3, Guard(m3, ["x", "a", "b"]), Guard(m3 - {"a"}, ["x", "a", "b"]));
    var g5 := Guard(map["x" := e, "b" := e, "a" := e], ["x", "a", "b", "a"]);
    QuietCall(b, ops, 4, Guard(m3 - {"a"}, ["x", "a", "b"]), g5);
    TrimmedFirst(e, g5);
  }

  /** A call that finds nothing to prune. */
  lemma QuietCall(b: Bounds, ops: seq<BlockOp>, n: nat, g: Guard<()>, g': Guard<()>)
    requires n < |ops| && BlockGuardAt(b, ops, n) == g && |g.entries| <= b.maxEntries
    requires g.order == [] || (g.order[0] in g.entries && Since(ops[n].now, g.entries[g.order[0]].ts) <= b.ttl)
    requires g' == if ops[n].TryMark? then Added(g, ops[n].hash, ops[n].now, ())
                   else Guard(g.entries - {ops[n].hash}, g.order)
    ensures BlockGuardAt(b, ops, n + 1) == g'
  {
  }

  lemma TrimmedFirst(e: Entry<()>, g: Guard<()>)
    requires g == Guard(map["x" := e, "b" := e, "a" := e], ["x", "a", "b", "a"])
    ensures Trim(g, 1).entries == map["b" := e]
  {
    var h := Guard(g.entries - {"x"}, g.order[1..]);
    assert h == Guard(map["b" := e, "a" := e], ["a", "b", "a"]);
    assert h.entries - {"a"} == map["b" := e];
    assert Trim(h, 1) == Trim(Guard(map["b" := e], h.order[1..]), 1);
    assert Trim(g, 1) == Trim(h, 1);
  }
}
