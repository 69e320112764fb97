/** `CachedDbAccess` itself: every method is shown to take a step of the model in `KvModel`. */
module CachedAccess {
  import opened Wrappers
  import opened Bytes
  import opened Database
  import opened Caching
  import opened Keys
  import opened KvModel

  function Sets<V>(pairs: seq<(Bytes, V)>): (muts: seq<Mutation<V>>)
    ensures |muts| == |pairs|
  {
    seq(|pairs|, i requires 0 <= i < |pairs| => Set(pairs[i].0, pairs[i].1))
  }

  function Unsets<V>(keys: seq<Bytes>): (muts: seq<Mutation<V>>)
    ensures |muts| == |keys|
  {
    seq(|keys|, i requires 0 <= i < |keys| => Unset(keys[i]))
  }

  lemma {:induction false} PhysicalSnoc<V(!new)>(cfg: Config<V>, muts: seq<Mutation<V>>, mut: Mutation<V>)
    ensures PhysicalAll(cfg, muts + [mut]) == PhysicalAll(cfg, muts) + Physical(cfg, mut)
  {
    if muts == [] {
      assert [mut][1..] == [];
    } else {
      assert (muts + [mut])[1..] == muts[1..] + [mut];
      PhysicalSnoc(cfg, muts[1..], mut);
    }
  }

  lemma {:induction false} LogicalSnoc<V>(m: map<Bytes, V>, muts: seq<Mutation<V>>, mut: Mutation<V>)
    ensures LogicalAll(m, muts + [mut]) == Logical(LogicalAll(m, muts), mut)
    decreases muts
  {
    if muts == [] {
      assert [mut][1..] == [];
    } else {
      assert (muts + [mut])[1..] == muts[1..] + [mut];
      LogicalSnoc(Logical(m, muts[0]), muts[1..], mut);
    }
  }

  lemma {:induction false} SetsAreInsertions<V>(m: map<Bytes, V>, pairs: seq<(Bytes, V)>)
    ensures WithAll(m, pairs) == LogicalAll(m, Sets(pairs))
  {
    if pairs != [] {
      var n := |pairs| - 1;
      SetsAreInsertions(m, pairs[..n]);
      assert Sets(pairs) == Sets(pairs[..n]) + [Set(pairs[n].0, pairs[n].1)];
      LogicalSnoc(m, Sets(pairs[..n]), Set(pairs[n].0, pairs[n].1));
    }
  }

  lemma {:induction false} UnsetsAreRemovals<V>(m: map<Bytes, V>, keys: seq<Bytes>, k: Bytes)
    ensures k in LogicalAll(m, Unsets(keys)) <==> k in m && k !in keys
    ensures k in m && k !in keys ==> LogicalAll(m, Unsets(keys))[k] == m[k]
  {
    if keys != [] {
      var n := |keys| - 1;
      UnsetsAreRemovals(m, keys[..n], k);
      assert Unsets<V>(keys) == Unsets<V>(keys[..n]) + [Unset(keys[n])];
      LogicalSnoc(m, Unsets(keys[..n]), Unset(keys[n]));
      assert keys == keys[..n] + [keys[n]];
    }
  }

  class CachedDbAccess<V(!new)> {
    const db: Db
    const cache: Cache<Bytes, V>
    const cfg: Config<V>

    ghost predicate Valid()
      reads cache
    {
      cache.Valid() && cfg.Valid()
    }

    /** The model's state, next to an open batch that holds `pending`. */
    ghost function At(pending: seq<BatchOp>): State<V>
      reads db, cache
    {
      Store(db.rows, pending, cache.entries)
    }

    constructor (db: Db, policy: Policy, size: V -> nat, cfg: Config<V>)
      requires cfg.Valid()
      ensures Valid() && this.db == db && this.cfg == cfg && fresh(cache) && cache.entries == map[]
    {
      this.db := db;
      this.cache := new Cache(policy, size);
      this.cfg := cfg;
    }

    method Has(key: Bytes, ghost pending: seq<BatchOp>) returns (found: bool)
      requires Valid()
      ensures Step(cfg, At(pending), Op.Has(key), At(pending), Present(found))
    {
      if key in cache.entries {
        return true;
      }
      if cfg.suffix.Some? {
        var first := FindFirst(db.rows.Keys, cfg.ScanKey(key));
        return first.Some?;
      }
      found := cfg.ScanKey(key) in db.rows;
    }

    method Read(key: Bytes, ghost pending: seq<BatchOp>) returns (r: Result<V, StoreError>)
      requires Valid()
      modifies cache
      ensures Valid()
      ensures Step(cfg, old(At(pending)), Op.Read(key), At(pending), Value(r))
    {
      var cached := cache.Get(key);
      if cached.Some? {
        return Ok(cached.value);
      }
      if cfg.suffix.Some? {
        r := ReadVersioned(key, pending);
        return;
      }
      var slice := db.Get(cfg.ScanKey(key));
      if slice.None? {
        return Err(KeyNotFound);
      }
      var data := cfg.codec.decode(slice.value);
      if data.None? {
        return Err(DeserializationError);
      }
      cache.Insert(key, data.value);
      r := Ok(data.value);
    }

    method ReadVersioned(key: Bytes, ghost pending: seq<BatchOp>) returns (r: Result<V, StoreError>)
      requires Valid() && cfg.suffix.Some? && key !in cache.entries
      modifies cache
      ensures Valid()
      ensures Step(cfg, old(At(pending)), Op.Read(key), At(pending), Value(r))
    {
      var scan := cfg.ScanKey(key);
      var first := FindFirst(db.rows.Keys, scan);
      if first.None? {
        return Err(KeyNotFound);
      }
      var row, bytes := first.value, db.rows[first.value];
      assert forall r' :: IsFirst(db.rows.Keys, scan, r') ==> r' == row by {
        forall r' | IsFirst(db.rows.Keys, scan, r') ensures r' == row {
          FirstIsUnique(db.rows.Keys, scan, r', row);
        }
      }
      var data: Option<V>;
      if |row| == |scan| {
        data := cfg.codec.decodeLegacy(bytes);
      } else if |row| == |scan| + 1 {
        var tail := row[|scan|];
        if tail != cfg.suffix.value {
          return Err(DataInconsistency);
        }
        data := cfg.codec.decode(bytes);
      } else {
        return Err(DataInconsistency);
      }
      if data.None? {
        return Err(DeserializationError);
      }
      cache.Insert(key, data.value);
      r := Ok(data.value);
    }

    method Write(w: Writer, key: Bytes, data: V, ghost open: seq<BatchOp>)
      requires Valid() && (w.Direct? ==> w.db == db)
      modifies cache, w.Sink()
      ensures Valid()
      ensures Step(cfg, old(At(w.Pending(open))), Mutate([Set(key, data)], w.Batched?), At(w.Pending(open)), Done)
    {
      var bytes := cfg.codec.encode(data);
      cache.Insert(key, data);
      w.Put(cfg.WriteKey(key), bytes);
      SingleMutation(cfg, old(cache.entries), Set(key, data));
    }

    /** How the owning stores insert: only where nothing is there yet. */
    method Insert(w: Writer, key: Bytes, data: V, ghost open: seq<BatchOp>) returns (r: Result<(), StoreError>)
      requires Valid() && (w.Direct? ==> w.db == db)
      modifies cache, w.Sink()
      ensures Valid()
      ensures Step(cfg, old(At(w.Pending(open))), Op.Insert(key, data, w.Batched?), At(w.Pending(open)),
                   if r.Ok? then Done else Value(Err(r.error)))
    {
      var found := Has(key, w.Pending(open));
      if found {
        return Err(AlreadyExists);
      }
      Write(w, key, data, open);
      r := Ok(());
    }

    method PutAll(w: Writer, pairs: seq<(Bytes, V)>)
      requires w.Direct? ==> w.db == db
      modifies w.Sink()
      ensures w.Emitted(PhysicalAll(cfg, Sets(pairs)))
    {
      for i := 0 to |pairs|
        invariant w.Emitted(PhysicalAll(cfg, Sets(pairs[..i])))
      {
        var key, data := pairs[i].0, pairs[i].1;
        var bytes := cfg.codec.encode(data);
        ghost var ops := PhysicalAll(cfg, Sets(pairs[..i]));
        w.Put(cfg.WriteKey(key), bytes);
        assert Sets(pairs[..i + 1]) == Sets(pairs[..i]) + [Set(key, data)];
        PhysicalSnoc(cfg, Sets(pairs[..i]), Set(key, data));
        if w.Direct? {
          ApplyAppend(old(db.rows), ops, [Put(cfg.WriteKey(key), bytes)]);
        }
      }
      assert pairs[..|pairs|] == pairs;
    }

    method WriteMany(w: Writer, pairs: seq<(Bytes, V)>, ghost open: seq<BatchOp>)
      requires Valid() && (w.Direct? ==> w.db == db)
      modifies cache, w.Sink()
      ensures Valid()
      ensures Step(cfg, old(At(w.Pending(open))), Mutate(Sets(pairs), w.Batched?), At(w.Pending(open)), Done)
    {
      ghost var _ := cache.InsertMany(pairs);
      SetsAreInsertions(old(cache.entries), pairs);
      PutAll(w, pairs);
    }

    method WriteManyWithoutCache(w: Writer, pairs: seq<(Bytes, V)>, ghost open: seq<BatchOp>)
      requires Valid() && (w.Direct? ==> w.db == db)
      modifies cache, w.Sink()
      ensures Valid() && cache.entries == map[]
      ensures Step(cfg, old(At(w.Pending(open))), Mutate(Sets(pairs), w.Batched?), At(w.Pending(open)), Done)
    {
      PutAll(w, pairs);
      assert w.Batched? ==> db.rows == old(db.rows);
      cache.RemoveAll();
    }

    method DeleteBothLayouts(w: Writer, key: Bytes)
      requires w.Direct? ==> w.db == db
      modifies w.Sink()
      ensures w.Emitted(Physical(cfg, Unset(key)))
    {
      if cfg.suffix.Some? {
        w.Delete(cfg.WriteKey(key));
      }
      w.Delete(cfg.ScanKey(key));
      if w.Direct? && cfg.suffix.Some? {
        ApplyAppend(old(db.rows), [BatchOp.Delete(cfg.WriteKey(key))], [BatchOp.Delete(cfg.ScanKey(key))]);
      }
    }

    method Delete(w: Writer, key: Bytes, ghost open: seq<BatchOp>)
      requires Valid() && (w.Direct? ==> w.db == db)
      modifies cache, w.Sink()
      ensures Valid()
      ensures Step(cfg, old(At(w.Pending(open))), Mutate([Unset(key)], w.Batched?), At(w.Pending(open)), Done)
    {
      cache.Remove(key);
      DeleteBothLayouts(w, key);
      SingleMutation(cfg, old(cache.entries), Unset(key));
    }

    method DeleteRows(w: Writer, keys: seq<Bytes>)
      requires w.Direct? ==> w.db == db
      modifies w.Sink()
      ensures w.Emitted(PhysicalAll(cfg, Unsets(keys)))
    {
      for i := 0 to |keys|
        invariant w.Emitted(PhysicalAll(cfg, Unsets(keys[..i])))
      {
        ghost var ops := PhysicalAll(cfg, Unsets(keys[..i]));
        DeleteBothLayouts(w, keys[i]);
        assert Unsets<V>(keys[..i + 1]) == Unsets<V>(keys[..i]) + [Unset(keys[i])];
        PhysicalSnoc(cfg, Unsets(keys[..i]), Unset(keys[i]));
        if w.Direct? {
          ApplyAppend(old(db.rows), ops, Physical(cfg, Unset(keys[i])));
        }
      }
      assert keys[..|keys|] == keys;
    }

    method DeleteMany(w: Writer, keys: seq<Bytes>, ghost open: seq<BatchOp>)
      requires Valid() && (w.Direct? ==> w.db == db)
      modifies cache, w.Sink()
      ensures Valid()
      ensures Step(cfg, old(At(w.Pending(open))), Mutate(Unsets(keys), w.Batched?), At(w.Pending(open)), Done)
    {
      cache.RemoveMany(keys);
      ghost var expected := LogicalAll(old(cache.entries), Unsets(keys));
      forall k | k in cache.entries ensures k in expected && expected[k] == cache.entries[k] {
        UnsetsAreRemovals(old(cache.entries), keys, k);
      }
      DeleteRows(w, keys);
    }

    method DeleteAll(w: Writer, ghost open: seq<BatchOp>)
      requires Valid() && (w.Direct? ==> w.db == db)
      modifies cache, w.Sink()
      ensures Valid()
      ensures Step(cfg, old(At(w.Pending(open))), Mutate([Clear], w.Batched?), At(w.Pending(open)), Done)
    {
      cache.RemoveAll();
      var path := PrefixOnly(cfg.prefix).path;
      assert path == cfg.prefix;
      w.DeleteRange(path, NextPrefix(path).value);
      SingleMutation(cfg, old(cache.entries), Clear);
    }
  }
}
