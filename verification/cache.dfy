/**
 * The bounded cache with random eviction. An eviction picks an index of the underlying
 * index map at random, which is any entry at all: it is modelled as an arbitrary choice of
 * key, so what is proved holds for every choice.
 */
module Caching {
  import opened Wrappers

  datatype Policy =
    | Empty
    | Count(maxSize: nat)
    | Tracked(maxSize: nat, minItems: nat)

  /** `CachePolicyInner` */
  datatype Limits = Limits(tracked: bool, maxSize: nat, minItems: nat)

  function ToLimits(policy: Policy): Limits {
    match policy
    case Empty => Limits(false, 0, 0)
    case Count(maxSize) => Limits(false, maxSize, 0)
    case Tracked(maxSize, minItems) => Limits(true, maxSize, minItems)
  }

  ghost predicate SubMap<K, V>(a: map<K, V>, b: map<K, V>) {
    forall k :: k in a ==> k in b && a[k] == b[k]
  }

  /** The sum of the entries' estimated sizes. */
  ghost function TotalSize<K, V>(m: map<K, V>, size: V -> nat): nat
    decreases |m|
  {
    if m == map[] then 0
    else
      var k :| k in m;
      RemoveShrinks(m, k);
      size(m[k]) + TotalSize(m - {k}, size)
  }

  lemma RemoveShrinks<K, V>(m: map<K, V>, k: K)
    requires k in m
    ensures |m - {k}| == |m| - 1
  {
    assert (m - {k}).Keys == m.Keys - {k};
    assert |m.Keys - {k}| == |m.Keys| - 1;
  }

  lemma {:induction false} TotalSizeRemove<K, V>(m: map<K, V>, size: V -> nat, k: K)
    requires k in m
    ensures TotalSize(m, size) == size(m[k]) + TotalSize(m - {k}, size)
    decreases |m|
  {
    var k' :| k' in m && TotalSize(m, size) == size(m[k']) + TotalSize(m - {k'}, size);
    if k != k' {
      RemoveShrinks(m, k);
      RemoveShrinks(m, k');
      TotalSizeRemove(m - {k'}, size, k);
      TotalSizeRemove(m - {k}, size, k');
      assert m - {k'} - {k} == m - {k} - {k'};
    }
  }

  lemma {:induction false} TotalSizeSet<K, V>(m: map<K, V>, size: V -> nat, k: K, v: V)
    ensures TotalSize(m[k := v], size) == size(v) + TotalSize(m - {k}, size)
  {
    TotalSizeRemove(m[k := v], size, k);
    assert m[k := v] - {k} == m - {k};
  }

  lemma CountSet<K, V>(m: map<K, V>, k: K, v: V)
    ensures k in m ==> |m[k := v]| == |m|
    ensures k !in m ==> |m[k := v]| == |m| + 1 && m - {k} == m
  {
    assert m[k := v].Keys == m.Keys + {k};
  }

  /** What tracked mode tolerates: the size limit, or no more than the minimum of items. */
  ghost predicate Tolerated<K, V>(limits: Limits, size: V -> nat, m: map<K, V>) {
    TotalSize(m, size) <= limits.maxSize || |m| <= limits.minItems
  }

  /**
   * `after` is `full` with just enough evicted: it is tolerated, and unless nothing was
   * evicted, the last entry to go had to go.
   */
  ghost predicate Evicted<K, V>(limits: Limits, size: V -> nat, full: map<K, V>, after: map<K, V>) {
    && SubMap(after, full)
    && Tolerated(limits, size, after)
    && (after == full || exists k :: k in full && k !in after && !Tolerated(limits, size, after[k := full[k]]))
  }

  /** All three policies' outcomes of an insertion. */
  ghost predicate Inserted<K, V>(limits: Limits, size: V -> nat, before: map<K, V>, k: K, v: V, after: map<K, V>) {
    if limits.maxSize == 0 then
      after == before
    else if limits.tracked then
      Evicted(limits, size, before[k := v], after)
    else if |before| == limits.maxSize then
      exists gone :: gone in before && after == (before - {gone})[k := v]
    else
      after == before[k := v]
  }

  /** Under every policy nothing is in the cache afterwards that an unbounded one would not hold. */
  lemma InsertedSubMap<K, V>(limits: Limits, size: V -> nat, before: map<K, V>, k: K, v: V, after: map<K, V>)
    requires Inserted(limits, size, before, k, v, after) && (limits.maxSize == 0 ==> before == map[])
    ensures SubMap(after, before[k := v])
  {
  }

  lemma {:induction false} SubMapSize<K, V>(a: map<K, V>, b: map<K, V>, size: V -> nat)
    requires SubMap(a, b)
    ensures TotalSize(a, size) <= TotalSize(b, size) && |a| <= |b|
    decreases |b|
  {
    if a != b {
      assert exists k :: k in b && k !in a by {
        assert a.Keys != b.Keys;
      }
      var k :| k in b && k !in a;
      RemoveShrinks(b, k);
      TotalSizeRemove(b, size, k);
      SubMapSize(a, b - {k}, size);
    }
  }

  /** Nothing is evicted from what is tolerated. */
  lemma NothingEvicted<K, V>(limits: Limits, size: V -> nat, full: map<K, V>, after: map<K, V>)
    requires Evicted(limits, size, full, after) && Tolerated(limits, size, full)
    ensures after == full
  {
    if k :| k in full && k !in after && !Tolerated(limits, size, after[k := full[k]]) {
      SubMapSize(after[k := full[k]], full, size);
    }
  }

  /** Of an insertion a counting cache keeps the new entry, and all others but one, or all while there is room. */
  lemma CountKeeps<K, V>(maxSize: nat, size: V -> nat, before: map<K, V>, k: K, v: V, after: map<K, V>)
    requires Inserted(ToLimits(Count(maxSize)), size, before, k, v, after) && maxSize > 0
    ensures k in after && after[k] == v
    ensures |before| < maxSize ==> after == before[k := v]
    ensures |before.Keys - after.Keys| <= 1
  {
    if |before| == maxSize {
      var gone :| gone in before && after == (before - {gone})[k := v];
      SubsetSize(before.Keys - after.Keys, {gone});
    } else {
      assert before.Keys - after.Keys == {};
    }
  }

  /** A tracking cache keeps everything while all of it fits. */
  lemma TrackedKeeps<K, V>(maxSize: nat, minItems: nat, size: V -> nat, before: map<K, V>, k: K, v: V,
                           after: map<K, V>)
    requires Inserted(ToLimits(Tracked(maxSize, minItems)), size, before, k, v, after) && maxSize > 0
    requires TotalSize(before[k := v], size) <= maxSize || |before[k := v]| <= minItems
    ensures after == before[k := v]
  {
    NothingEvicted(ToLimits(Tracked(maxSize, minItems)), size, before[k := v], after);
  }

  lemma SubsetSize<K>(a: set<K>, b: set<K>)
    requires a <= b
    ensures |a| <= |b|
  {
    assert b == a + (b - a);
  }

  /** What each policy promises of the contents. */
  ghost predicate Respects<K, V>(policy: Policy, size: V -> nat, m: map<K, V>) {
    match policy
    case Empty => m == map[]
    case Count(maxSize) => |m| <= maxSize
    case Tracked(maxSize, minItems) => TotalSize(m, size) <= maxSize || |m| <= minItems
  }

  /** Each of the pairs inserted in its turn. */
  ghost predicate InsertedAll<K, V>(limits: Limits, size: V -> nat, trail: seq<map<K, V>>, pairs: seq<(K, V)>) {
    && |trail| == |pairs| + 1
    && forall i :: 0 <= i < |pairs| ==> InsertedAt(limits, size, trail, pairs, i)
  }

  ghost predicate InsertedAt<K, V>(limits: Limits, size: V -> nat, trail: seq<map<K, V>>, pairs: seq<(K, V)>, i: nat)
    requires i < |pairs| < |trail|
  {
    Inserted(limits, size, trail[i], pairs[i].0, pairs[i].1, trail[i + 1])
  }

  lemma InsertedStill<K, V>(limits: Limits, size: V -> nat, trail: seq<map<K, V>>, pairs: seq<(K, V)>,
                            trail': seq<map<K, V>>, pairs': seq<(K, V)>, i: nat)
    requires |trail| == |pairs| + 1 && trail <= trail' && pairs <= pairs' && |trail'| == |pairs'| + 1 && i < |pairs|
    requires InsertedAt(limits, size, trail, pairs, i)
    ensures InsertedAt(limits, size, trail', pairs', i)
  {
    assert trail'[i] == trail[i] && trail'[i + 1] == trail[i + 1] && pairs'[i] == pairs[i];
  }

  lemma InsertedSnoc<K, V>(limits: Limits, size: V -> nat, trail: seq<map<K, V>>, pairs: seq<(K, V)>,
                           trail': seq<map<K, V>>, pairs': seq<(K, V)>)
    requires InsertedAll(limits, size, trail, pairs)
    requires trail <= trail' && pairs <= pairs' && |trail'| == |pairs'| + 1 && |pairs'| == |pairs| + 1
    requires InsertedAt(limits, size, trail', pairs', |pairs|)
    ensures InsertedAll(limits, size, trail', pairs')
  {
    forall i | 0 <= i < |pairs'| ensures InsertedAt(limits, size, trail', pairs', i) {
      if i < |pairs| {
        InsertedStill(limits, size, trail, pairs, trail', pairs', i);
      }
    }
  }

  lemma InsertedPrefix<K, V>(limits: Limits, size: V -> nat, trail: seq<map<K, V>>, pairs: seq<(K, V)>, n: nat)
    requires InsertedAll(limits, size, trail, pairs) && n <= |pairs|
    ensures InsertedAll(limits, size, trail[..n + 1], pairs[..n])
  {
    var trail', pairs' := trail[..n + 1], pairs[..n];
    forall i | 0 <= i < n ensures InsertedAt(limits, size, trail', pairs', i) {
      assert InsertedAt(limits, size, trail, pairs, i);
    }
  }

  lemma {:induction false} InsertedAllSubMap<K, V>(limits: Limits, size: V -> nat, trail: seq<map<K, V>>,
                                                   pairs: seq<(K, V)>)
    requires InsertedAll(limits, size, trail, pairs) && limits.maxSize > 0
    ensures SubMap(trail[|pairs|], WithAll(trail[0], pairs))
  {
    if pairs != [] {
      var n := |pairs| - 1;
      InsertedPrefix(limits, size, trail, pairs, n);
      InsertedAllSubMap(limits, size, trail[..n + 1], pairs[..n]);
      assert InsertedAt(limits, size, trail, pairs, n);
      InsertedSubMap(limits, size, trail[n], pairs[n].0, pairs[n].1, trail[n + 1]);
    }
  }

  class Cache<K(==), V> {
    var entries: map<K, V>
    var trackedSize: nat
    const limits: Limits
    const size: V -> nat

    ghost predicate Valid()
      reads this
    {
      && (limits.tracked ==> trackedSize == TotalSize(entries, size) && Tolerated(limits, size, entries))
      && (!limits.tracked ==> trackedSize == 0 && |entries| <= limits.maxSize)
      && (limits.maxSize == 0 ==> entries == map[])
    }

    /** The bounds in the policy's own words, for every state that the methods keep. */
    lemma RespectsPolicy(policy: Policy)
      requires Valid() && limits == ToLimits(policy)
      ensures Respects(policy, size, entries)
      ensures policy.Tracked? ==> trackedSize == TotalSize(entries, size)
    {
    }

    constructor (policy: Policy, size: V -> nat)
      ensures Valid() && entries == map[] && limits == ToLimits(policy) && this.size == size
    {
      limits := ToLimits(policy);
      this.size := size;
      entries := map[];
      trackedSize := 0;
    }

    method Get(key: K) returns (data: Option<V>)
      ensures data == if key in entries then Some(entries[key]) else None
    {
      data := if key in entries then Some(entries[key]) else None;
    }

    method TrackedEvict()
      requires limits.tracked && trackedSize == TotalSize(entries, size)
      modifies this
      ensures trackedSize == TotalSize(entries, size)
      ensures Evicted(limits, size, old(entries), entries)
    {
      while trackedSize > limits.maxSize && |entries| > limits.minItems
        invariant trackedSize == TotalSize(entries, size)
        invariant SubMap(entries, old(entries))
        invariant entries == old(entries) ||
                  exists k :: k in old(entries) && k !in entries &&
                              !Tolerated(limits, size, entries[k := old(entries)[k]])
        decreases |entries|
      {
        var k :| k in entries;
        TotalSizeRemove(entries, size, k);
        RemoveShrinks(entries, k);
        assert (entries - {k})[k := entries[k]] == entries;
        trackedSize := trackedSize - size(entries[k]);
        entries := entries - {k};
      }
    }

    /** `Inner::insert`, reached only when the cache can hold anything. */
    method InsertInner(key: K, data: V)
      requires Valid() && limits.maxSize > 0
      modifies this
      ensures Valid()
      ensures Inserted(limits, size, old(entries), key, data, entries)
    {
      CountSet(entries, key, data);
      if limits.tracked {
        TotalSizeSet(entries, size, key, data);
        trackedSize := trackedSize + size(data);
        if key in entries {
          TotalSizeRemove(entries, size, key);
          trackedSize := trackedSize - size(entries[key]);
        }
        entries := entries[key := data];
        TrackedEvict();
      } else {
        if |entries| == limits.maxSize {
          assert entries != map[];
          var gone :| gone in entries;
          RemoveShrinks(entries, gone);
          entries := entries - {gone};
          CountSet(entries, key, data);
        }
        entries := entries[key := data];
      }
    }

    method Insert(key: K, data: V)
      requires Valid()
      modifies this
      ensures Valid()
      ensures Inserted(limits, size, old(entries), key, data, entries)
      ensures SubMap(entries, old(entries)[key := data])
    {
      if limits.maxSize == 0 {
        return;
      }
      InsertInner(key, data);
      InsertedSubMap(limits, size, old(entries), key, data, entries);
    }

    /** One insertion after the other; `trail` are the contents between them. */
    method InsertMany(pairs: seq<(K, V)>) returns (ghost trail: seq<map<K, V>>)
      requires Valid()
      modifies this
      ensures Valid()
      ensures limits.maxSize == 0 ==> entries == old(entries)
      ensures limits.maxSize > 0 ==> InsertedAll(limits, size, trail, pairs)
      ensures limits.maxSize > 0 ==> trail[0] == old(entries) && trail[|pairs|] == entries
      ensures SubMap(entries, WithAll(old(entries), pairs))
    {
      trail := [entries];
      if limits.maxSize == 0 {
        return;
      }
      for i := 0 to |pairs|
        invariant Valid()
        invariant InsertedAll(limits, size, trail, pairs[..i]) && trail[0] == old(entries) && trail[i] == entries
      {
        InsertInner(pairs[i].0, pairs[i].1);
        InsertedSnoc(limits, size, trail, pairs[..i], trail + [entries], pairs[..i + 1]);
        trail := trail + [entries];
      }
      assert pairs[..|pairs|] == pairs;
      InsertedAllSubMap(limits, size, trail, pairs);
    }

    method UpdateIfEntryExists(key: K, op: V -> V)
      requires Valid()
      modifies this
      ensures Valid()
      ensures SubMap(entries, Updated(old(entries), key, op))
      ensures limits.tracked ==> Evicted(limits, size, Updated(old(entries), key, op), entries)
      ensures !limits.tracked ==> entries == Updated(old(entries), key, op)
    {
      if limits.maxSize == 0 {
        return;
      }
      if key in entries {
        TotalSizeSet(entries, size, key, op(entries[key]));
        CountSet(entries, key, op(entries[key]));
        if limits.tracked {
          TotalSizeRemove(entries, size, key);
          trackedSize := trackedSize - size(entries[key]);
          entries := entries[key := op(entries[key])];
          trackedSize := trackedSize + size(entries[key]);
          TrackedEvict();
        } else {
          entries := entries[key := op(entries[key])];
        }
      }
    }

    method Remove(key: K)
      requires Valid()
      modifies this
      ensures Valid()
      ensures entries == old(entries) - {key}
    {
      if limits.maxSize == 0 {
        return;
      }
      if key in entries {
        TotalSizeRemove(entries, size, key);
        RemoveShrinks(entries, key);
        if limits.tracked {
          trackedSize := trackedSize - size(entries[key]);
        }
        entries := entries - {key};
      }
    }

    method RemoveMany(keys: seq<K>)
      requires Valid()
      modifies this
      ensures Valid()
      ensures SubMap(entries, old(entries))
      ensures forall k :: k in old(entries) ==> (k in entries <==> k !in keys)
    {
      if limits.maxSize == 0 {
        return;
      }
      for i := 0 to |keys|
        invariant Valid()
        invariant SubMap(entries, old(entries))
        invariant forall k :: k in old(entries) ==> (k in entries <==> k !in keys[..i])
      {
        Remove(keys[i]);
        assert keys[..i + 1] == keys[..i] + [keys[i]];
      }
      assert keys[..|keys|] == keys;
    }

    method RemoveAll()
      requires Valid()
      modifies this
      ensures Valid() && entries == map[]
    {
      if limits.maxSize == 0 {
        return;
      }
      entries := map[];
      if limits.tracked {
        trackedSize := 0;
      }
    }
  }

  function WithAll<K, V>(m: map<K, V>, pairs: seq<(K, V)>): map<K, V> {
    if pairs == [] then m
    else WithAll(m, pairs[..|pairs| - 1])[pairs[|pairs| - 1].0 := pairs[|pairs| - 1].1]
  }

  function Updated<K, V>(m: map<K, V>, k: K, op: V -> V): map<K, V> {
    if k in m then m[k := op(m[k])] else m
  }

  /** The calls on a cache, and what each would do to a map that never evicts. */
  datatype CacheOp<K, !V> =
    | Insert(key: K, data: V)
    | Update(key: K, op: V -> V)
    | Remove(key: K)
    | RemoveAll

  function Unbounded<K, V>(m: map<K, V>, op: CacheOp<K, V>): map<K, V> {
    match op
    case Insert(k, v) => m[k := v]
    case Update(k, f) => Updated(m, k, f)
    case Remove(k) => m - {k}
    case RemoveAll => map[]
  }

  function UnboundedRun<K, V>(m: map<K, V>, ops: seq<CacheOp<K, V>>): map<K, V> {
    if ops == [] then m else Unbounded(UnboundedRun(m, ops[..|ops| - 1]), ops[|ops| - 1])
  }

  /** After any calls and evictions the cache holds a part of what an unbounded one would hold. */
  lemma {:induction false} RunIsSubMap<K, V>(states: seq<map<K, V>>, ops: seq<CacheOp<K, V>>)
    requires |states| == |ops| + 1
    requires forall i :: 0 <= i < |ops| ==> SubMap(states[i + 1], Unbounded(states[i], ops[i]))
    ensures SubMap(states[|ops|], UnboundedRun(states[0], ops))
  {
    var n := |ops|;
    if n > 0 {
      var rest := ops[..n - 1];
      forall i | 0 <= i < |rest| ensures SubMap(states[..n][i + 1], Unbounded(states[..n][i], rest[i])) {
        assert states[..n][i] == states[i] && rest[i] == ops[i];
      }
      RunIsSubMap(states[..n], rest);
      var c, m := states[n - 1], UnboundedRun(states[0], rest);
      assert SubMap(c, m);
      assert SubMap(states[n], Unbounded(c, ops[n - 1]));
      assert SubMap(Unbounded(c, ops[n - 1]), Unbounded(m, ops[n - 1]));
    }
  }
}
