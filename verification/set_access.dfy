/** The set stores' classes, whose methods take the steps of `SetModel`. */
module SetAccess {
  import opened Wrappers
  import opened Bytes
  import opened Database
  import opened Caching
  import opened Sequences
  import opened SetModel

  lemma SinglePhysical<T(!new)>(cfg: Config<T>, mut: Mutation<T>)
    ensures PhysicalAll(cfg, [mut]) == Physical(cfg, mut)
  {
    assert [mut][..0] == [];
  }

  lemma SingleCached<T>(c: map<Bytes, set<T>>, mut: Mutation<T>)
    ensures CachedAll(c, [mut]) == Cached(c, mut)
  {
    assert [mut][..0] == [];
  }

  /** Access without a cache. */
  class DbSetAccess<T(!new, ==)> {
    const db: Db
    const cfg: Config<T>

    constructor (db: Db, cfg: Config<T>)
      ensures this.db == db && this.cfg == cfg
    {
      this.db := db;
      this.cfg := cfg;
    }

    /** The bucket iterator, collected. */
    method Collect(key: Bytes) returns (r: Result<set<T>, StoreError>)
      ensures r == DiskSet(cfg, db.rows, key)
    {
      var path := cfg.Bucket(key).path;
      var out: set<T> := {};
      var rest := db.rows.Keys;
      ghost var seen: set<Bytes> := {};
      while rest != {}
        invariant rest <= db.rows.Keys && seen == BucketRows(db.rows, path) - rest
        invariant forall row :: row in seen ==> Element(cfg, key, row).Some?
        invariant out == set row | row in seen :: Element(cfg, key, row).value
        decreases rest
      {
        var row :| row in rest;
        if path <= row {
          assert row in BucketRows(db.rows, path);
          var element := cfg.codec.decode(row[cfg.Bucket(key).prefixLen..]);
          if element.None? {
            return Err(DeserializationError);
          }
          out := out + {element.value};
          seen := seen + {row};
        }
        rest := rest - {row};
      }
      assert seen == BucketRows(db.rows, path);
      r := Ok(out);
    }

    method Write(w: Writer, key: Bytes, data: T)
      requires w.Direct? ==> w.db == db
      modifies w.Sink()
      ensures w.Emitted(Physical(cfg, Add(key, data)))
    {
      w.Put(cfg.RowKey(key, data), []);
    }

    method Delete(w: Writer, key: Bytes, data: T)
      requires w.Direct? ==> w.db == db
      modifies w.Sink()
      ensures w.Emitted(Physical(cfg, Drop(key, data)))
    {
      w.Delete(cfg.RowKey(key, data));
    }

    method DeleteBucket(w: Writer, key: Bytes)
      requires cfg.Valid() && (w.Direct? ==> w.db == db)
      modifies w.Sink()
      ensures w.Emitted(Physical(cfg, DropBucket(key)))
    {
      var path := cfg.Bucket(key).path;
      BucketRange(cfg, key);
      w.DeleteRange(path, NextPrefix(path).value);
    }
  }

  class CachedDbSetAccess<T(!new, ==)> {
    const inner: DbSetAccess<T>
    const cache: Cache<Bytes, set<T>>

    ghost predicate Valid()
      reads cache
    {
      cache.Valid() && inner.cfg.Valid()
    }

    ghost function At(pending: seq<BatchOp>): State<T>
      reads inner.db, cache
    {
      Store(inner.db.rows, pending, cache.entries)
    }

    constructor (db: Db, policy: Policy, size: set<T> -> nat, cfg: Config<T>)
      requires cfg.Valid()
      ensures Valid() && inner.db == db && inner.cfg == cfg && fresh(cache) && cache.entries == map[]
    {
      inner := new DbSetAccess(db, cfg);
      cache := new Cache(policy, size);
    }

    method Read(key: Bytes, ghost pending: seq<BatchOp>) returns (r: Result<set<T>, StoreError>)
      requires Valid()
      modifies cache
      ensures Valid()
      ensures Step(inner.cfg, old(At(pending)), Op.Read(key), At(pending), r)
    {
      var cached := cache.Get(key);
      if cached.Some? {
        return Ok(cached.value);
      }
      r := inner.Collect(key);
      if r.Ok? {
        cache.Insert(key, r.value);
      }
    }

    method Write(w: Writer, key: Bytes, data: T, ghost open: seq<BatchOp>)
      requires Valid() && (w.Direct? ==> w.db == inner.db)
      modifies cache, w.Sink()
      ensures Valid()
      ensures Step(inner.cfg, old(At(w.Pending(open))), Mutate([Add(key, data)], w.Batched?),
                   At(w.Pending(open)), Ok({}))
    {
      cache.UpdateIfEntryExists(key, (s: set<T>) => s + {data});
      SingleCached(old(cache.entries), Add(key, data));
      SinglePhysical(inner.cfg, Add(key, data));
      inner.Write(w, key, data);
    }

    method Delete(w: Writer, key: Bytes, data: T, ghost open: seq<BatchOp>)
      requires Valid() && (w.Direct? ==> w.db == inner.db)
      modifies cache, w.Sink()
      ensures Valid()
      ensures Step(inner.cfg, old(At(w.Pending(open))), Mutate([Drop(key, data)], w.Batched?),
                   At(w.Pending(open)), Ok({}))
    {
      cache.UpdateIfEntryExists(key, (s: set<T>) => s - {data});
      SingleCached(old(cache.entries), Drop(key, data));
      SinglePhysical(inner.cfg, Drop(key, data));
      inner.Delete(w, key, data);
    }

    method DeleteBucket(w: Writer, key: Bytes, ghost open: seq<BatchOp>)
      requires Valid() && (w.Direct? ==> w.db == inner.db)
      modifies cache, w.Sink()
      ensures Valid()
      ensures Step(inner.cfg, old(At(w.Pending(open))), Mutate([DropBucket(key)], w.Batched?),
                   At(w.Pending(open)), Ok({}))
    {
      cache.Remove(key);
      SingleCached(old(cache.entries), DropBucket(key));
      SinglePhysical(inner.cfg, DropBucket(key));
      inner.DeleteBucket(w, key);
    }
  }

  /** The mutations of one `CachedDbSetItem::update`: all removals, then all additions. */
  function UpdateMuts<T>(added: seq<T>, removed: seq<T>): seq<Mutation<T>> {
    Drops(removed) + Adds(added)
  }

  function Drops<T>(items: seq<T>): seq<Mutation<T>> {
    seq(|items|, i requires 0 <= i < |items| => Drop([], items[i]))
  }

  function Adds<T>(items: seq<T>): seq<Mutation<T>> {
    seq(|items|, i requires 0 <= i < |items| => Add([], items[i]))
  }

  function ChangeAll<T(==)>(s: set<T>, muts: seq<Mutation<T>>): set<T> {
    if muts == [] then s else Change(ChangeAll(s, muts[..|muts| - 1]), muts[|muts| - 1])
  }

  lemma PhysicalSnoc<T(!new)>(cfg: Config<T>, muts: seq<Mutation<T>>, mut: Mutation<T>)
    ensures PhysicalAll(cfg, muts + [mut]) == PhysicalAll(cfg, muts) + Physical(cfg, mut)
  {
    assert (muts + [mut])[..|muts|] == muts;
  }

  lemma {:induction false} PhysicalAppend<T(!new)>(cfg: Config<T>, a: seq<Mutation<T>>, b: seq<Mutation<T>>)
    ensures PhysicalAll(cfg, a + b) == PhysicalAll(cfg, a) + PhysicalAll(cfg, b)
    decreases |b|
  {
    if b == [] {
      assert a + b == a;
    } else {
      var b', last := b[..|b| - 1], b[|b| - 1];
      PhysicalAppend(cfg, a, b');
      SplitLast(a, b);
      PhysicalSnoc(cfg, a + b', last);
      PhysicalSnoc(cfg, b', last);
      Associative(PhysicalAll(cfg, a), PhysicalAll(cfg, b'), Physical(cfg, last));
    }
  }

  lemma {:induction false} ChangeAppend<T>(s: set<T>, a: seq<Mutation<T>>, b: seq<Mutation<T>>)
    ensures ChangeAll(s, a + b) == ChangeAll(ChangeAll(s, a), b)
    decreases |b|
  {
    if b == [] {
      assert a + b == a;
    } else {
      var n, ab := |b| - 1, a + b;
      ChangeAppend(s, a, b[..n]);
      assert ab[..|ab| - 1] == a + b[..n] && ab[|ab| - 1] == b[n];
    }
  }

  /** Changing the one cached set of an item is what the cache model says. */
  lemma {:induction false} ItemCached<T>(s: set<T>, muts: seq<Mutation<T>>)
    requires forall mut :: mut in muts ==> mut.key == [] && !mut.DropBucket?
    ensures CachedAll(map[[] := s], muts) == map[[] := ChangeAll(s, muts)]
  {
    if muts != [] {
      ItemCached(s, muts[..|muts| - 1]);
    }
  }

  lemma ItemStep<T(!new)>(cfg: Config<T>, s: State<T>, before: set<T>, muts: seq<Mutation<T>>, batched: bool)
    requires s.cache == map[[] := before]
    requires forall mut :: mut in muts ==> mut.key == [] && !mut.DropBucket?
    ensures var s' := Emit(s, PhysicalAll(cfg, muts), batched, map[[] := ChangeAll(before, muts)]);
            Step(cfg, s, Mutate(muts, batched), s', Ok({}))
  {
    ItemCached(before, muts);
  }

  lemma {:induction false} SpecIsChange<T>(m: map<Bytes, set<T>>, muts: seq<Mutation<T>>, k: Bytes)
    requires forall mut :: mut in muts ==> mut.key == k
    ensures SetOf(SpecAll(m, muts), k) == ChangeAll(SetOf(m, k), muts)
  {
    if muts != [] {
      SpecIsChange(m, muts[..|muts| - 1], k);
    }
  }

  /** Applied to one set, they leave what was added, and of the rest what was not removed. */
  lemma {:induction false} UpdateMeaning<T>(s: set<T>, added: seq<T>, removed: seq<T>, x: T)
    ensures x in ChangeAll(s, UpdateMuts(added, removed)) <==> x in added || (x in s && x !in removed)
    decreases |added| + |removed|
  {
    var muts := UpdateMuts(added, removed);
    var n := |muts| - 1;
    if added != [] {
      var added' := added[..|added| - 1];
      assert muts[..n] == UpdateMuts(added', removed);
      UpdateMeaning(s, added', removed, x);
      assert added == added' + [added[|added| - 1]];
    } else if removed != [] {
      var removed' := removed[..|removed| - 1];
      assert muts[..n] == UpdateMuts(added, removed');
      UpdateMeaning(s, added, removed', x);
      assert removed == removed' + [removed[|removed| - 1]];
    }
  }

  class CachedDbSetItem<T(!new, ==)> {
    const access: DbSetAccess<T>
    var cachedSet: Option<set<T>>

    ghost function At(pending: seq<BatchOp>): State<T>
      reads this, access.db
    {
      Store(access.db.rows, pending, if cachedSet.Some? then map[[] := cachedSet.value] else map[])
    }

    constructor (db: Db, cfg: Config<T>)
      requires cfg.Valid() && cfg.keyLen == 0
      ensures access.db == db && access.cfg == cfg && cachedSet == None
    {
      access := new DbSetAccess(db, cfg);
      cachedSet := None;
    }

    method Read(ghost pending: seq<BatchOp>) returns (r: Result<set<T>, StoreError>)
      modifies this
      ensures Step(access.cfg, old(At(pending)), Op.Read([]), At(pending), r)
      ensures r.Ok? ==> cachedSet == Some(r.value)
      ensures r.Err? ==> cachedSet == old(cachedSet)
    {
      if cachedSet.Some? {
        return Ok(cachedSet.value);
      }
      r := access.Collect([]);
      if r.Ok? {
        cachedSet := Some(r.value);
      }
    }

    method RemoveItems(w: Writer, current: set<T>, items: seq<T>) returns (next: set<T>)
      requires w.Direct? ==> w.db == access.db
      modifies w.Sink()
      ensures w.Emitted(PhysicalAll(access.cfg, Drops(items)))
      ensures next == ChangeAll(current, Drops(items))
    {
      next := current;
      ghost var muts := Drops(items);
      for i := 0 to |items|
        invariant next == ChangeAll(current, muts[..i])
        invariant w.Emitted(PhysicalAll(access.cfg, muts[..i]))
      {
        access.Delete(w, [], items[i]);
        next := next - {items[i]};
        MutsPrefix(access.cfg, current, muts, i);
        if w.Direct? {
          ApplyAppend(old(access.db.rows), PhysicalAll(access.cfg, muts[..i]), Physical(access.cfg, muts[i]));
        }
      }
      assert muts[..|items|] == muts;
    }

    method AddItems(w: Writer, current: set<T>, items: seq<T>) returns (next: set<T>)
      requires w.Direct? ==> w.db == access.db
      modifies w.Sink()
      ensures w.Emitted(PhysicalAll(access.cfg, Adds(items)))
      ensures next == ChangeAll(current, Adds(items))
    {
      next := current;
      ghost var muts := Adds(items);
      for i := 0 to |items|
        invariant next == ChangeAll(current, muts[..i])
        invariant w.Emitted(PhysicalAll(access.cfg, muts[..i]))
      {
        access.Write(w, [], items[i]);
        next := next + {items[i]};
        MutsPrefix(access.cfg, current, muts, i);
        if w.Direct? {
          ApplyAppend(old(access.db.rows), PhysicalAll(access.cfg, muts[..i]), Physical(access.cfg, muts[i]));
        }
      }
      assert muts[..|items|] == muts;
    }

    /** The two loops of `update`, over a set that is already cached. */
    method ApplyUpdate(w: Writer, added: seq<T>, removed: seq<T>, ghost open: seq<BatchOp>)
      requires cachedSet.Some? && (w.Direct? ==> w.db == access.db)
      modifies this, w.Sink()
      ensures cachedSet.Some?
      ensures Step(access.cfg, old(At(w.Pending(open))), Mutate(UpdateMuts(added, removed), w.Batched?),
                   At(w.Pending(open)), Ok({}))
    {
      ghost var s, cfg, before := At(w.Pending(open)), access.cfg, cachedSet.value;
      ghost var drops, adds := PhysicalAll(cfg, Drops(removed)), PhysicalAll(cfg, Adds(added));
      var kept := RemoveItems(w, cachedSet.value, removed);
      var next := AddItems(w, kept, added);
      cachedSet := Some(next);
      assert PhysicalAll(cfg, UpdateMuts(added, removed)) == drops + adds by {
        PhysicalAppend(cfg, Drops(removed), Adds(added));
      }
      if w.Direct? {
        ApplyAppend(s.rows, drops, adds);
      } else {
        assert s.pending + drops + adds == s.pending + (drops + adds);
      }
      ChangeAppend(before, Drops(removed), Adds(added));
      ItemStep(cfg, s, before, UpdateMuts(added, removed), w.Batched?);
    }

    method Update(w: Writer, added: seq<T>, removed: seq<T>, ghost open: seq<BatchOp>)
      returns (r: Result<set<T>, StoreError>)
      requires w.Direct? ==> w.db == access.db
      modifies this, w.Sink()
      ensures ItemUpdated(access.cfg, old(At(w.Pending(open))), added, removed, w.Batched?, At(w.Pending(open)), r)
    {
      r := Read(w.Pending(open));
      if r.Ok? {
        ApplyUpdate(w, added, removed, open);
        r := Ok(cachedSet.value);
      }
    }
  }

  lemma MutsPrefix<T(!new)>(cfg: Config<T>, s: set<T>, muts: seq<Mutation<T>>, i: nat)
    requires i < |muts|
    ensures PhysicalAll(cfg, muts[..i + 1]) == PhysicalAll(cfg, muts[..i]) + Physical(cfg, muts[i])
    ensures ChangeAll(s, muts[..i + 1]) == Change(ChangeAll(s, muts[..i]), muts[i])
  {
    assert muts[..i + 1][..i] == muts[..i];
  }

  /** An update is a read and then one change of cache and rows, and returns the set it leaves. */
  ghost predicate ItemUpdated<T(!new)>(cfg: Config<T>, s: State<T>, added: seq<T>, removed: seq<T>, batched: bool,
                                   s': State<T>, r: Result<set<T>, StoreError>)
  {
    exists mid, got ::
      && Step(cfg, s, Read([]), mid, got)
      && (got.Err? ==> s' == mid && r == got)
      && (got.Ok? ==>
            && Step(cfg, mid, Mutate(UpdateMuts(added, removed), batched), s', Ok({}))
            && [] in s'.cache && r == Ok(s'.cache[[]]))
  }

  /** In a sound state an update returns, and leaves in the rows to be, what was added and what was kept. */
  lemma UpdateCorrect<T(!new)>(cfg: Config<T>, s: State<T>, added: seq<T>, removed: seq<T>, batched: bool, s': State<T>,
                               r: Result<set<T>, StoreError>, d: map<Bytes, set<T>>, m: map<Bytes, set<T>>)
    requires cfg.Valid() && cfg.keyLen == 0 && Inv(cfg, s, d, m)
    requires [] in s.cache || !Staged(cfg, s.pending, [])
    requires batched || Independent(PhysicalAll(cfg, UpdateMuts(added, removed)), s.pending)
    requires ItemUpdated(cfg, s, added, removed, batched, s', r)
    ensures r.Ok? && DiskSet(cfg, s'.Future(), []) == r
    ensures forall x :: x in r.value <==> x in added || (x in SetOf(m, []) && x !in removed)
  {
    var muts := UpdateMuts(added, removed);
    var mid, got :|
      && Step(cfg, s, Read([]), mid, got)
      && (got.Err? ==> s' == mid && r == got)
      && (got.Ok? ==> Step(cfg, mid, Mutate(muts, batched), s', Ok({})) && [] in s'.cache && r == Ok(s'.cache[[]]));
    ReadKeepsInv(cfg, s, [], mid, got, d, m);
    MutateKeepsInv(cfg, mid, muts, batched, s', d, m);
    assert s'.cache[[]] == SetOf(SpecAll(m, muts), []);
    SpecIsChange(m, muts, []);
    forall x ensures x in r.value <==> x in added || (x in SetOf(m, []) && x !in removed) {
      UpdateMeaning(SetOf(m, []), added, removed, x);
    }
  }
}
