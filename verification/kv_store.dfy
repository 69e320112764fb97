/**
 * The values of `CachedDbAccess`: rows on disk in an old and a new layout, a write batch
 * not yet committed, and a cache that may drop anything at any time. The theorem is that
 * no client can tell all this from one plain map.
 */
module KvModel {
  import opened Wrappers
  import opened Bytes
  import opened Database
  import opened Caching
  import opened Keys
  import opened Codecs

  datatype Config<!V(!new)> = Config(prefix: Bytes, keyLen: nat, suffix: Option<byte>, codec: Codec<V>)
  {
    ghost predicate Valid() {
      NextPrefix(prefix).Some? && codec.Lossless()
    }

    /** The path without a version byte: the old layout's row, and the start of any scan. */
    function ScanKey(k: Bytes): Bytes {
      New(prefix, k).path
    }

    /** `build_write_key` */
    function WriteKey(k: Bytes): Bytes {
      match suffix
      case None => ScanKey(k)
      case Some(v) => New(prefix, k).AddSuffix([v]).path
    }

    function KeyOf(row: Bytes): Bytes
      requires |prefix| + keyLen <= |row|
    {
      row[|prefix|..|prefix| + keyLen]
    }

    predicate HasShape(row: Bytes) {
      var n := |prefix| + keyLen;
      |row| == n || (suffix.Some? && |row| == n + 1 && row[n] == suffix.value)
    }
  }

  // ---------- what a read finds on disk ----------

  /** How `read_versioned` takes the first row of its scan, by the length of the row's key. */
  function DecodeRow<V(!new)>(cfg: Config<V>, scanLen: nat, row: Bytes, bytes: Bytes): Result<V, StoreError> {
    if |row| == scanLen then OrError(cfg.codec.decodeLegacy(bytes))
    else if |row| == scanLen + 1 then
      if cfg.suffix == Some(row[scanLen]) then OrError(cfg.codec.decode(bytes)) else Err(DataInconsistency)
    else Err(DataInconsistency)
  }

  ghost function DiskRead<V(!new)>(cfg: Config<V>, rows: Rows, k: Bytes): Result<V, StoreError> {
    var scan := cfg.ScanKey(k);
    if cfg.suffix.None? then
      if scan in rows then OrError(cfg.codec.decode(rows[scan])) else Err(KeyNotFound)
    else if exists r :: IsFirst(rows.Keys, scan, r) then
      var r :| IsFirst(rows.Keys, scan, r);
      DecodeRow(cfg, |scan|, r, rows[r])
    else Err(KeyNotFound)
  }

  ghost predicate DiskHas<V(!new)>(cfg: Config<V>, rows: Rows, k: Bytes) {
    if cfg.suffix.None? then cfg.ScanKey(k) in rows else exists r :: r in rows && cfg.ScanKey(k) <= r
  }

  // ---------- the plain map behind the rows ----------

  ghost predicate RowFor<V(!new)>(cfg: Config<V>, rows: Rows, k: Bytes, v: V) {
    var live, legacy := cfg.WriteKey(k), cfg.ScanKey(k);
    || (live in rows && cfg.codec.decode(rows[live]) == Some(v) && (cfg.suffix.Some? ==> legacy !in rows))
    || (cfg.suffix.Some? && legacy in rows && live !in rows && cfg.codec.decodeLegacy(rows[legacy]) == Some(v))
  }

  /**
   * The rows under the store's prefix are one row for each key of `m`, in one of the two
   * layouts and decoding to the key's value, and nothing else.
   */
  ghost predicate Represents<V(!new)>(cfg: Config<V>, rows: Rows, m: map<Bytes, V>) {
    && (forall r :: r in rows && cfg.prefix <= r ==> cfg.HasShape(r) && cfg.KeyOf(r) in m)
    && (forall k :: k in m ==> |k| == cfg.keyLen && RowFor(cfg, rows, k, m[k]))
  }

  /** A row under a key's scan path is one of the two rows that the key can have. */
  lemma RowIsOwn<V(!new)>(cfg: Config<V>, r: Bytes)
    requires cfg.prefix <= r && cfg.HasShape(r)
    ensures r == cfg.ScanKey(cfg.KeyOf(r)) || (cfg.suffix.Some? && r == cfg.WriteKey(cfg.KeyOf(r)))
    ensures forall k :: |k| == cfg.keyLen && cfg.ScanKey(k) <= r ==> k == cfg.KeyOf(r)
  {
    var n := |cfg.prefix| + cfg.keyLen;
    assert r == cfg.prefix + cfg.KeyOf(r) + r[n..];
    forall k | |k| == cfg.keyLen && cfg.ScanKey(k) <= r ensures k == cfg.KeyOf(r) {
      assert cfg.ScanKey(k)[|cfg.prefix|..] == k;
      assert r[..n] == cfg.ScanKey(k);
    }
  }

  lemma KeysAreOwn<V(!new)>(cfg: Config<V>, k: Bytes)
    requires |k| == cfg.keyLen
    ensures cfg.prefix <= cfg.ScanKey(k) && cfg.HasShape(cfg.ScanKey(k)) && cfg.KeyOf(cfg.ScanKey(k)) == k
    ensures cfg.prefix <= cfg.WriteKey(k) && cfg.HasShape(cfg.WriteKey(k)) && cfg.KeyOf(cfg.WriteKey(k)) == k
  {
  }

  /** Different keys have different rows, and so have the two layouts of one key. */
  lemma RowsAreDistinct<V(!new)>(cfg: Config<V>, k: Bytes, k': Bytes)
    requires |k| == |k'| == cfg.keyLen
    ensures k != k' ==> {cfg.ScanKey(k), cfg.WriteKey(k)} !! {cfg.ScanKey(k'), cfg.WriteKey(k')}
    ensures cfg.suffix.Some? ==> cfg.ScanKey(k) < cfg.WriteKey(k)
  {
    KeysAreOwn(cfg, k);
    KeysAreOwn(cfg, k');
  }

  lemma RowForFrame<V(!new)>(cfg: Config<V>, rows: Rows, rows': Rows, k: Bytes, v: V)
    requires RowFor(cfg, rows, k, v)
    requires SameRow(rows', rows, cfg.ScanKey(k)) && SameRow(rows', rows, cfg.WriteKey(k))
    ensures RowFor(cfg, rows', k, v)
  {
  }

  /** No logical key ever owns two rows. */
  lemma OneRowPerKey<V(!new)>(cfg: Config<V>, rows: Rows, m: map<Bytes, V>, r: Bytes, r': Bytes)
    requires Represents(cfg, rows, m)
    requires r in rows && cfg.prefix <= r && r' in rows && cfg.prefix <= r'
    requires cfg.KeyOf(r) == cfg.KeyOf(r')
    ensures r == r'
  {
    RowIsOwn(cfg, r);
    RowIsOwn(cfg, r');
    assert RowFor(cfg, rows, cfg.KeyOf(r), m[cfg.KeyOf(r)]);
  }

  /** The rows determine the map. */
  lemma RepresentsUnique<V(!new)>(cfg: Config<V>, rows: Rows, m: map<Bytes, V>, m': map<Bytes, V>)
    requires Represents(cfg, rows, m) && Represents(cfg, rows, m')
    ensures m == m'
  {
    forall k | k in m ensures k in m' && m[k] == m'[k] {
      KeysAreOwn(cfg, k);
    }
    forall k | k in m' ensures k in m {
      KeysAreOwn(cfg, k);
    }
  }

  /** What a scan of a key's path can meet. */
  lemma ScanMeets<V(!new)>(cfg: Config<V>, rows: Rows, m: map<Bytes, V>, k: Bytes, r: Bytes)
    requires Represents(cfg, rows, m) && |k| == cfg.keyLen && r in rows && cfg.ScanKey(k) <= r
    ensures k in m && (r == cfg.ScanKey(k) || (cfg.suffix.Some? && r == cfg.WriteKey(k)))
  {
    KeysAreOwn(cfg, k);
    assert cfg.prefix <= cfg.ScanKey(k);
    RowIsOwn(cfg, r);
  }

  /** Both kinds of existence check and both kinds of read answer as the map does. */
  lemma DiskAgrees<V(!new)>(cfg: Config<V>, rows: Rows, m: map<Bytes, V>, k: Bytes)
    requires Represents(cfg, rows, m) && |k| == cfg.keyLen
    ensures DiskHas(cfg, rows, k) <==> k in m
    ensures DiskRead(cfg, rows, k) == if k in m then Ok(m[k]) else Err(KeyNotFound)
  {
    var scan, live := cfg.ScanKey(k), cfg.WriteKey(k);
    RowsAreDistinct(cfg, k, k);
    forall r | r in rows && scan <= r ensures k in m && (r == scan || r == live) {
      ScanMeets(cfg, rows, m, k, r);
    }
    if k in m {
      assert RowFor(cfg, rows, k, m[k]);
      var row := if live in rows then live else scan;
      LexIrreflexive(row);
      assert IsFirst(rows.Keys, scan, row);
      forall r | IsFirst(rows.Keys, scan, r) ensures r == row {
        FirstIsUnique(rows.Keys, scan, r, row);
      }
    }
  }

  // ---------- mutations ----------

  datatype Mutation<V> =
    | Set(key: Bytes, value: V)
    | Unset(key: Bytes)
    | Clear

  function Logical<V>(m: map<Bytes, V>, mut: Mutation<V>): map<Bytes, V> {
    match mut
    case Set(k, v) => m[k := v]
    case Unset(k) => m - {k}
    case Clear => map[]
  }

  function LogicalAll<V>(m: map<Bytes, V>, muts: seq<Mutation<V>>): map<Bytes, V>
    decreases muts
  {
    if muts == [] then m else LogicalAll(Logical(m, muts[0]), muts[1..])
  }

  /** What is written for a mutation; deletion clears both layouts. */
  function Physical<V(!new)>(cfg: Config<V>, mut: Mutation<V>): seq<BatchOp> {
    match mut
    case Set(k, v) => [Put(cfg.WriteKey(k), cfg.codec.encode(v))]
    case Unset(k) =>
      if cfg.suffix.Some? then [Delete(cfg.WriteKey(k)), Delete(cfg.ScanKey(k))] else [Delete(cfg.ScanKey(k))]
    case Clear =>
      var path := PrefixOnly(cfg.prefix).path;
      match NextPrefix(path)
      case Some(to) => [DeleteRange(path, to)]
      case None => []
  }

  function PhysicalAll<V(!new)>(cfg: Config<V>, muts: seq<Mutation<V>>): seq<BatchOp> {
    if muts == [] then [] else Physical(cfg, muts[0]) + PhysicalAll(cfg, muts[1..])
  }

  lemma SingleMutation<V(!new)>(cfg: Config<V>, m: map<Bytes, V>, mut: Mutation<V>)
    ensures PhysicalAll(cfg, [mut]) == Physical(cfg, mut)
    ensures LogicalAll(m, [mut]) == Logical(m, mut)
  {
    assert [mut][1..] == [];
  }

  predicate KeyFits<V(!new)>(cfg: Config<V>, mut: Mutation<V>) {
    mut.Clear? || |mut.key| == cfg.keyLen
  }

  /** No write puts a row of the new layout next to one of the old layout. */
  predicate Guarded<V(!new)>(cfg: Config<V>, rows: Rows, mut: Mutation<V>) {
    mut.Set? && cfg.suffix.Some? ==> cfg.ScanKey(mut.key) !in rows
  }

  predicate GuardedAll<V(!new)>(cfg: Config<V>, rows: Rows, muts: seq<Mutation<V>>)
    decreases muts
  {
    muts == [] ||
    (KeyFits(cfg, muts[0]) && Guarded(cfg, rows, muts[0]) &&
     GuardedAll(cfg, Apply(rows, Physical(cfg, muts[0])), muts[1..]))
  }

  lemma ApplyTwo(rows: Rows, a: BatchOp, b: BatchOp)
    ensures Apply(rows, [a, b]) == ApplyOp(ApplyOp(rows, a), b)
  {
    assert [a, b][1..] == [b];
    ApplyOne(ApplyOp(rows, a), b);
  }

  lemma SetRepresents<V(!new)>(cfg: Config<V>, rows: Rows, m: map<Bytes, V>, k: Bytes, v: V)
    requires cfg.Valid() && Represents(cfg, rows, m) && |k| == cfg.keyLen && Guarded(cfg, rows, Set(k, v))
    ensures Represents(cfg, ApplyOp(rows, Put(cfg.WriteKey(k), cfg.codec.encode(v))), m[k := v])
  {
    var rows' := ApplyOp(rows, Put(cfg.WriteKey(k), cfg.codec.encode(v)));
    KeysAreOwn(cfg, k);
    RowsAreDistinct(cfg, k, k);
    assert RowFor(cfg, rows', k, v);
    forall k' | k' in m && k' != k ensures RowFor(cfg, rows', k', m[k']) {
      RowsAreDistinct(cfg, k, k');
      RowForFrame(cfg, rows, rows', k', m[k']);
    }
  }

  lemma UnsetRows<V(!new)>(cfg: Config<V>, rows: Rows, k: Bytes)
    ensures Apply(rows, Physical(cfg, Unset(k))) == rows - {cfg.WriteKey(k), cfg.ScanKey(k)}
  {
    ApplyOne(rows, Delete(cfg.ScanKey(k)));
    ApplyTwo(rows, Delete(cfg.WriteKey(k)), Delete(cfg.ScanKey(k)));
  }

  lemma UnsetRepresents<V(!new)>(cfg: Config<V>, rows: Rows, m: map<Bytes, V>, k: Bytes)
    requires Represents(cfg, rows, m) && |k| == cfg.keyLen
    ensures Represents(cfg, Apply(rows, Physical(cfg, Unset(k))), m - {k})
  {
    var rows' := rows - {cfg.WriteKey(k), cfg.ScanKey(k)};
    UnsetRows(cfg, rows, k);
    forall r | r in rows' && cfg.prefix <= r ensures cfg.KeyOf(r) != k {
      RowIsOwn(cfg, r);
    }
    forall k' | k' in m - {k} ensures RowFor(cfg, rows', k', m[k']) {
      RowsAreDistinct(cfg, k, k');
      RowForFrame(cfg, rows, rows', k', m[k']);
    }
  }

  lemma ClearRepresents<V(!new)>(cfg: Config<V>, rows: Rows)
    requires cfg.Valid()
    ensures Represents(cfg, Apply(rows, Physical(cfg, Clear)), map[])
  {
    var path := PrefixOnly(cfg.prefix).path;
    assert path == cfg.prefix;
    ApplyOne(rows, DeleteRange(path, NextPrefix(path).value));
    forall r | r in Apply(rows, Physical(cfg, Clear)) ensures !(cfg.prefix <= r) {
      PrefixRangeExact(path, r);
    }
  }

  /** Writing rows and changing the map commute, in whatever order mutations come. */
  lemma {:induction false} MutationsCommute<V(!new)>(cfg: Config<V>, rows: Rows, m: map<Bytes, V>,
                                                     muts: seq<Mutation<V>>)
    requires cfg.Valid() && Represents(cfg, rows, m) && GuardedAll(cfg, rows, muts)
    ensures Represents(cfg, Apply(rows, PhysicalAll(cfg, muts)), LogicalAll(m, muts))
    decreases muts
  {
    if muts != [] {
      var ops := Physical(cfg, muts[0]);
      match muts[0] {
        case Set(k, v) =>
          SetRepresents(cfg, rows, m, k, v);
          ApplyOne(rows, Put(cfg.WriteKey(k), cfg.codec.encode(v)));
        case Unset(k) =>
          UnsetRepresents(cfg, rows, m, k);
        case Clear =>
          ClearRepresents(cfg, rows);
      }
      MutationsCommute(cfg, Apply(rows, ops), Logical(m, muts[0]), muts[1..]);
      ApplyAppend(rows, ops, PhysicalAll(cfg, muts[1..]));
    }
  }

  lemma {:induction false} LogicalMonotone<V>(c: map<Bytes, V>, m: map<Bytes, V>, muts: seq<Mutation<V>>)
    requires SubMap(c, m)
    ensures SubMap(LogicalAll(c, muts), LogicalAll(m, muts))
    decreases muts
  {
    if muts != [] {
      LogicalMonotone(Logical(c, muts[0]), Logical(m, muts[0]), muts[1..]);
    }
  }

  // ---------- the store as a state machine ----------

  type State<V> = Store<map<Bytes, V>>

  datatype Op<V> =
    | Has(key: Bytes)
    | Read(key: Bytes)
    | Insert(key: Bytes, value: V, batched: bool)
    | Mutate(muts: seq<Mutation<V>>, batched: bool)
    | Foreign(ops: seq<BatchOp>, batched: bool)
    | Commit

  datatype Reply<+V> = Present(b: bool) | Value(r: Result<V, StoreError>) | Done

  ghost predicate Mutated<V(!new)>(cfg: Config<V>, s: State<V>, muts: seq<Mutation<V>>, batched: bool, s': State<V>) {
    && s' == Emit(s, PhysicalAll(cfg, muts), batched, s'.cache)
    && SubMap(s'.cache, LogicalAll(s.cache, muts))
  }

  ghost predicate Step<V(!new)>(cfg: Config<V>, s: State<V>, op: Op<V>, s': State<V>, reply: Reply<V>) {
    match op
    case Has(k) =>
      s' == s && reply == Present(k in s.cache || DiskHas(cfg, s.rows, k))
    case Read(k) =>
      if k in s.cache then s' == s && reply == Value(Ok(s.cache[k]))
      else
        var r := DiskRead(cfg, s.rows, k);
        && reply == Value(r)
        && s' == s.(cache := s'.cache)
        && if r.Ok? then SubMap(s'.cache, s.cache[k := r.value]) else s'.cache == s.cache
    case Insert(k, v, batched) =>
      if k in s.cache || DiskHas(cfg, s.rows, k) then s' == s && reply == Value(Err(AlreadyExists))
      else reply == Done && Mutated(cfg, s, [Set(k, v)], batched, s')
    case Mutate(muts, batched) =>
      reply == Done && Mutated(cfg, s, muts, batched, s')
    case Foreign(ops, batched) =>
      && reply == Done && s' == Emit(s, ops, batched, s.cache)
      && forall r :: cfg.prefix <= r ==> !TouchedBy(ops, r)
    case Commit =>
      reply == Done && s' == Store(s.Future(), [], s.cache)
  }

  /** Some operation of the pending batch bears on the key. */
  ghost predicate Staged<V(!new)>(cfg: Config<V>, pending: seq<BatchOp>, k: Bytes) {
    exists r :: cfg.ScanKey(k) <= r && TouchedBy(pending, r)
  }

  /**
   * What callers owe the store: keys of the one length, no old-layout row left beside a new
   * one, no direct write to a row that an open batch touches too, and no look past the cache
   * at a key that an open batch is about to change.
   */
  ghost predicate Admissible<V(!new)>(cfg: Config<V>, s: State<V>, op: Op<V>) {
    match op
    case Has(k) => |k| == cfg.keyLen && (k in s.cache || !Staged(cfg, s.pending, k))
    case Read(k) => |k| == cfg.keyLen && (k in s.cache || !Staged(cfg, s.pending, k))
    case Insert(k, _, _) => |k| == cfg.keyLen && (k in s.cache || !Staged(cfg, s.pending, k))
    case Mutate(muts, batched) =>
      && GuardedAll(cfg, s.Future(), muts)
      && (batched || (GuardedAll(cfg, s.rows, muts) && Independent(PhysicalAll(cfg, muts), s.pending)))
    case Foreign(_, _) => true
    case Commit => true
  }

  // ---------- the specification: a plain map ----------

  function SpecMap<V>(m: map<Bytes, V>, op: Op<V>): map<Bytes, V> {
    match op
    case Insert(k, v, _) => if k in m then m else m[k := v]
    case Mutate(muts, _) => LogicalAll(m, muts)
    case _ => m
  }

  function SpecReply<V>(m: map<Bytes, V>, op: Op<V>): Reply<V> {
    match op
    case Has(k) => Present(k in m)
    case Read(k) => Value(if k in m then Ok(m[k]) else Err(KeyNotFound))
    case Insert(k, _, _) => if k in m then Value(Err(AlreadyExists)) else Done
    case _ => Done
  }

  /** What is on disk stands for `d`, what it will be stands for `m`, and the cache is part of `m`. */
  ghost predicate Inv<V(!new)>(cfg: Config<V>, s: State<V>, d: map<Bytes, V>, m: map<Bytes, V>) {
    && Represents(cfg, s.rows, d)
    && Represents(cfg, s.Future(), m)
    && SubMap(s.cache, m)
  }

  function Committed<V>(d: map<Bytes, V>, m: map<Bytes, V>, op: Op<V>): map<Bytes, V> {
    match op
    case Insert(k, v, batched) => if batched || k in m then d else d[k := v]
    case Mutate(muts, batched) => if batched then d else LogicalAll(d, muts)
    case Commit => m
    case _ => d
  }

  /** A key that the batch does not bear on stands as it will stand. */
  lemma UnstagedAgrees<V(!new)>(cfg: Config<V>, s: State<V>, d: map<Bytes, V>, m: map<Bytes, V>, k: Bytes)
    requires Inv(cfg, s, d, m) && |k| == cfg.keyLen && !Staged(cfg, s.pending, k)
    ensures k in d <==> k in m
    ensures k in d ==> d[k] == m[k]
    ensures SameRow(s.Future(), s.rows, cfg.ScanKey(k))
  {
    KeysAreOwn(cfg, k);
    assert cfg.ScanKey(k) <= cfg.WriteKey(k);
    ApplyFrame(s.rows, s.pending, cfg.ScanKey(k));
    ApplyFrame(s.rows, s.pending, cfg.WriteKey(k));
    if k in d {
      assert RowFor(cfg, s.rows, k, d[k]);
    }
    if k in m {
      assert RowFor(cfg, s.Future(), k, m[k]);
    }
  }

  lemma MutatedKeepsInv<V(!new)>(cfg: Config<V>, s: State<V>, muts: seq<Mutation<V>>, batched: bool, s': State<V>,
                                 d: map<Bytes, V>, m: map<Bytes, V>)
    requires cfg.Valid() && Inv(cfg, s, d, m) && Mutated(cfg, s, muts, batched, s')
    requires Admissible(cfg, s, Mutate(muts, batched))
    ensures Inv(cfg, s', if batched then d else LogicalAll(d, muts), LogicalAll(m, muts))
  {
    EmitFuture(s, PhysicalAll(cfg, muts), batched, s'.cache);
    MutationsCommute(cfg, s.Future(), m, muts);
    if !batched {
      MutationsCommute(cfg, s.rows, d, muts);
    }
    LogicalMonotone(s.cache, m, muts);
  }

  /** What the rows stand for depends on the rows under the prefix only. */
  lemma RepresentsFrame<V(!new)>(cfg: Config<V>, rows: Rows, rows': Rows, m: map<Bytes, V>)
    requires Represents(cfg, rows, m) && forall r :: cfg.prefix <= r ==> SameRow(rows', rows, r)
    ensures Represents(cfg, rows', m)
  {
    forall r | r in rows' && cfg.prefix <= r ensures r in rows {
      assert SameRow(rows', rows, r);
    }
    forall k | k in m ensures RowFor(cfg, rows', k, m[k]) {
      KeysAreOwn(cfg, k);
      RowForFrame(cfg, rows, rows', k, m[k]);
    }
  }

  /** A look past the cache at a key that is not staged finds what the map will hold. */
  lemma LookAgrees<V(!new)>(cfg: Config<V>, s: State<V>, d: map<Bytes, V>, m: map<Bytes, V>, k: Bytes)
    requires Inv(cfg, s, d, m) && |k| == cfg.keyLen && (k in s.cache || !Staged(cfg, s.pending, k))
    ensures k in s.cache || DiskHas(cfg, s.rows, k) <==> k in m
    ensures k !in s.cache ==> DiskRead(cfg, s.rows, k) == if k in m then Ok(m[k]) else Err(KeyNotFound)
    ensures k !in m ==> cfg.ScanKey(k) !in s.Future()
  {
    KeysAreOwn(cfg, k);
    if k !in s.cache {
      DiskAgrees(cfg, s.rows, d, k);
      UnstagedAgrees(cfg, s, d, m, k);
    }
  }

  lemma InsertRefines<V(!new)>(cfg: Config<V>, s: State<V>, op: Op<V>, s': State<V>, reply: Reply<V>,
                               d: map<Bytes, V>, m: map<Bytes, V>)
    requires cfg.Valid() && Inv(cfg, s, d, m) && op.Insert?
    requires Step(cfg, s, op, s', reply) && Admissible(cfg, s, op)
    ensures reply == SpecReply(m, op)
    ensures Inv(cfg, s', Committed(d, m, op), SpecMap(m, op))
  {
    var k, mut := op.key, Set(op.key, op.value);
    LookAgrees(cfg, s, d, m, k);
    if k !in m {
      SingleMutation(cfg, m, mut);
      SingleMutation(cfg, d, mut);
      InsertIsAdmissible(cfg, s, d, m, mut);
      MutatedKeepsInv(cfg, s, [mut], op.batched, s', d, m);
    }
  }

  /** A key that is not there, and that no batch bears on, can be written in either way. */
  lemma InsertIsAdmissible<V(!new)>(cfg: Config<V>, s: State<V>, d: map<Bytes, V>, m: map<Bytes, V>, mut: Mutation<V>)
    requires Inv(cfg, s, d, m) && mut.Set? && |mut.key| == cfg.keyLen
    requires mut.key !in m && !Staged(cfg, s.pending, mut.key)
    ensures forall batched :: Admissible(cfg, s, Mutate([mut], batched))
  {
    SingleMutation(cfg, m, mut);
    UnstagedAgrees(cfg, s, d, m, mut.key);
    KeysAreOwn(cfg, mut.key);
    SetIsGuarded(cfg, s.Future(), mut);
    SetIsGuarded(cfg, s.rows, mut);
    forall r ensures !(TouchedBy(PhysicalAll(cfg, [mut]), r) && TouchedBy(s.pending, r)) {
      if TouchedBy(PhysicalAll(cfg, [mut]), r) {
        assert r == cfg.WriteKey(mut.key) && cfg.ScanKey(mut.key) <= r;
      }
    }
  }

  lemma SetIsGuarded<V(!new)>(cfg: Config<V>, rows: Rows, mut: Mutation<V>)
    requires mut.Set? && |mut.key| == cfg.keyLen && cfg.ScanKey(mut.key) !in rows
    ensures GuardedAll(cfg, rows, [mut])
  {
    assert [mut][1..] == [];
  }

  /** Other stores' writes, into this batch, into others or past all of them, change nothing here. */
  lemma ForeignRefines<V(!new)>(cfg: Config<V>, s: State<V>, ops: seq<BatchOp>, batched: bool,
                                d: map<Bytes, V>, m: map<Bytes, V>)
    requires Inv(cfg, s, d, m) && forall r :: cfg.prefix <= r ==> !TouchedBy(ops, r)
    ensures Inv(cfg, Emit(s, ops, batched, s.cache), d, m)
  {
    var s' := Emit(s, ops, batched, s.cache);
    forall r | cfg.prefix <= r ensures SameRow(s'.rows, s.rows, r) && SameRow(s'.Future(), s.Future(), r) {
      EmitFrame(s, ops, batched, s.cache, r);
    }
    RepresentsFrame(cfg, s.rows, s'.rows, d);
    RepresentsFrame(cfg, s.Future(), s'.Future(), m);
  }

  /** One step of the store is one step of the map, with the map's reply. */
  lemma StepRefines<V(!new)>(cfg: Config<V>, s: State<V>, op: Op<V>, s': State<V>, reply: Reply<V>,
                             d: map<Bytes, V>, m: map<Bytes, V>)
    requires cfg.Valid() && Inv(cfg, s, d, m)
    requires Step(cfg, s, op, s', reply) && Admissible(cfg, s, op)
    ensures reply == SpecReply(m, op)
    ensures Inv(cfg, s', Committed(d, m, op), SpecMap(m, op))
  {
    match op {
      case Has(k) => LookAgrees(cfg, s, d, m, k);
      case Read(k) => LookAgrees(cfg, s, d, m, k);
      case Insert(_, _, _) => InsertRefines(cfg, s, op, s', reply, d, m);
      case Mutate(muts, batched) => MutatedKeepsInv(cfg, s, muts, batched, s', d, m);
      case Foreign(ops, batched) => ForeignRefines(cfg, s, ops, batched, d, m);
      case Commit =>
    }
  }

  ghost predicate Run<V(!new)>(cfg: Config<V>, states: seq<State<V>>, ops: seq<Op<V>>, replies: seq<Reply<V>>) {
    && |states| == |ops| + 1 && |replies| == |ops|
    && forall i :: 0 <= i < |ops| ==>
         Step(cfg, states[i], ops[i], states[i + 1], replies[i]) && Admissible(cfg, states[i], ops[i])
  }

  function SpecRun<V>(m: map<Bytes, V>, ops: seq<Op<V>>): map<Bytes, V> {
    if ops == [] then m else SpecMap(SpecRun(m, ops[..|ops| - 1]), ops[|ops| - 1])
  }

  ghost predicate StandsFor<V(!new)>(cfg: Config<V>, s: State<V>, m: map<Bytes, V>) {
    exists d :: Inv(cfg, s, d, m)
  }

  lemma StepStands<V(!new)>(cfg: Config<V>, s: State<V>, op: Op<V>, s': State<V>, reply: Reply<V>, m: map<Bytes, V>)
    requires cfg.Valid() && StandsFor(cfg, s, m)
    requires Step(cfg, s, op, s', reply) && Admissible(cfg, s, op)
    ensures reply == SpecReply(m, op) && StandsFor(cfg, s', SpecMap(m, op))
  {
    var d :| Inv(cfg, s, d, m);
    StepRefines(cfg, s, op, s', reply, d, m);
  }

  lemma SpecSnoc<V>(m: map<Bytes, V>, ops: seq<Op<V>>, op: Op<V>)
    ensures SpecRun(m, ops + [op]) == SpecMap(SpecRun(m, ops), op)
  {
    assert (ops + [op])[..|ops|] == ops;
  }

  lemma {:induction false} RunStands<V(!new)>(cfg: Config<V>, states: seq<State<V>>, ops: seq<Op<V>>,
                                              replies: seq<Reply<V>>, m: map<Bytes, V>, n: nat)
    requires cfg.Valid() && Run(cfg, states, ops, replies) && StandsFor(cfg, states[0], m) && n <= |ops|
    ensures StandsFor(cfg, states[n], SpecRun(m, ops[..n]))
  {
    if n > 0 {
      RunStands(cfg, states, ops, replies, m, n - 1);
      var before, op := ops[..n - 1], ops[n - 1];
      assert ops[..n] == before + [op];
      StepStands(cfg, states[n - 1], op, states[n], replies[n - 1], SpecRun(m, before));
      SpecSnoc(m, before, op);
    }
  }

  /**
   * Over every run, with every choice of evictions, starting from rows in either layout:
   * each reply is the plain map's, and after the last step the rows to be and the cache
   * still stand for that map.
   */
  lemma RunRefines<V(!new)>(cfg: Config<V>, states: seq<State<V>>, ops: seq<Op<V>>, replies: seq<Reply<V>>,
                            m: map<Bytes, V>)
    requires cfg.Valid() && Run(cfg, states, ops, replies) && StandsFor(cfg, states[0], m)
    ensures forall i :: 0 <= i < |ops| ==> replies[i] == SpecReply(SpecRun(m, ops[..i]), ops[i])
    ensures StandsFor(cfg, states[|ops|], SpecRun(m, ops))
  {
    forall i | 0 <= i < |ops| ensures replies[i] == SpecReply(SpecRun(m, ops[..i]), ops[i]) {
      RunStands(cfg, states, ops, replies, m, i);
      StepStands(cfg, states[i], ops[i], states[i + 1], replies[i], SpecRun(m, ops[..i]));
    }
    RunStands(cfg, states, ops, replies, m, |ops|);
    assert ops[..|ops|] == ops;
  }

  /** Right after a commit, anywhere in a run, every cached value is what the database decodes to for its key. */
  lemma CacheMatchesDiskAfterCommit<V(!new)>(cfg: Config<V>, states: seq<State<V>>, ops: seq<Op<V>>,
                                             replies: seq<Reply<V>>, m: map<Bytes, V>, n: nat, k: Bytes)
    requires cfg.Valid() && Run(cfg, states, ops, replies) && StandsFor(cfg, states[0], m)
    requires n < |ops| && ops[n].Commit? && k in states[n + 1].cache
    ensures DiskRead(cfg, states[n + 1].rows, k) == Ok(states[n + 1].cache[k])
  {
    RunStands(cfg, states, ops, replies, m, n);
    assert Step(cfg, states[n], ops[n], states[n + 1], replies[n]);
    CommitAgrees(cfg, states[n], states[n + 1], SpecRun(m, ops[..n]), k);
  }

  lemma CommitAgrees<V(!new)>(cfg: Config<V>, s: State<V>, s': State<V>, m: map<Bytes, V>, k: Bytes)
    requires StandsFor(cfg, s, m) && s' == Store(s.Future(), [], s.cache) && k in s.cache
    ensures DiskRead(cfg, s'.rows, k) == Ok(s.cache[k])
  {
    var d :| Inv(cfg, s, d, m);
    DiskAgrees(cfg, s'.rows, m, k);
  }

  /** In no state of a run does a logical key own two rows. */
  lemma RunKeepsOneRow<V(!new)>(cfg: Config<V>, states: seq<State<V>>, ops: seq<Op<V>>, replies: seq<Reply<V>>,
                                m: map<Bytes, V>, n: nat, r: Bytes, r': Bytes)
    requires cfg.Valid() && Run(cfg, states, ops, replies) && StandsFor(cfg, states[0], m) && n <= |ops|
    requires r in states[n].rows && r' in states[n].rows && cfg.prefix <= r && cfg.prefix <= r'
    ensures cfg.HasShape(r) && cfg.HasShape(r')
    ensures cfg.KeyOf(r) == cfg.KeyOf(r') ==> r == r'
  {
    RunStands(cfg, states, ops, replies, m, n);
    var d :| Inv(cfg, states[n], d, SpecRun(m, ops[..n]));
    if cfg.KeyOf(r) == cfg.KeyOf(r') {
      OneRowPerKey(cfg, states[n].rows, d, r, r');
    }
  }

  /** A versioned read misses exactly when no row starts with the key's path. */
  lemma ReadMisses<V(!new)>(cfg: Config<V>, rows: Rows, k: Bytes)
    requires cfg.suffix.Some?
    ensures DiskRead(cfg, rows, k) == Err(KeyNotFound) <==> forall r :: r in rows ==> !(cfg.ScanKey(k) <= r)
  {
    var scan := cfg.ScanKey(k);
    if r :| r in rows && scan <= r {
      var first := FirstExists(rows.Keys, scan, r);
      assert IsFirst(rows.Keys, scan, first);
    }
  }

  /** Its other errors: a first row of neither layout is inconsistent, one of either that does not decode is not. */
  lemma ReadErrors<V(!new)>(cfg: Config<V>, rows: Rows, k: Bytes, r: Bytes)
    requires cfg.suffix.Some? && IsFirst(rows.Keys, cfg.ScanKey(k), r)
    ensures DiskRead(cfg, rows, k) == Err(DataInconsistency) <==> r != cfg.ScanKey(k) && r != cfg.WriteKey(k)
    ensures DiskRead(cfg, rows, k) == Err(DeserializationError) <==>
            || (r == cfg.ScanKey(k) && cfg.codec.decodeLegacy(rows[r]).None?)
            || (r == cfg.WriteKey(k) && cfg.codec.decode(rows[r]).None?)
  {
    var scan := cfg.ScanKey(k);
    forall r' | IsFirst(rows.Keys, scan, r') ensures r' == r {
      FirstIsUnique(rows.Keys, scan, r', r);
    }
    var tail := r[|scan|..];
    assert r == scan + tail;
    assert tail == [] ==> r == scan;
    assert |tail| == 1 ==> tail == [r[|scan|]];
  }

  /** A row of the old layout is what a scan meets first, and so what a read returns. */
  lemma LegacyRowComesFirst<V(!new)>(cfg: Config<V>, rows: Rows, k: Bytes)
    requires cfg.suffix.Some? && cfg.ScanKey(k) in rows
    ensures DiskRead(cfg, rows, k) == OrError(cfg.codec.decodeLegacy(rows[cfg.ScanKey(k)]))
  {
    var scan := cfg.ScanKey(k);
    forall r | r in rows && scan <= r ensures !LexLt(r, scan) {
      LexIrreflexive(scan);
      if r != scan {
        PrefixFirst(scan, r);
        if LexLt(r, scan) {
          LexTransitive(scan, r, scan);
        }
      }
    }
    assert IsFirst(rows.Keys, scan, scan);
    forall r | IsFirst(rows.Keys, scan, r) ensures r == scan {
      FirstIsUnique(rows.Keys, scan, r, scan);
    }
  }

  /**
   * Whatever is on disk, a versioned read returns a value only from a row of one of the two
   * layouts: a row with another version byte or of another length is an error, not a value.
   */
  lemma ReadIsFromOwnRow<V(!new)>(cfg: Config<V>, rows: Rows, k: Bytes)
    requires cfg.suffix.Some? && DiskRead(cfg, rows, k).Ok?
    ensures var v, scan, live := DiskRead(cfg, rows, k).value, cfg.ScanKey(k), cfg.WriteKey(k);
            if scan in rows then cfg.codec.decodeLegacy(rows[scan]) == Some(v)
            else live in rows && cfg.codec.decode(rows[live]) == Some(v)
  {
    var scan := cfg.ScanKey(k);
    if scan in rows {
      LegacyRowComesFirst(cfg, rows, k);
    } else {
      var r :| IsFirst(rows.Keys, scan, r) && DiskRead(cfg, rows, k) == DecodeRow(cfg, |scan|, r, rows[r]);
      var tail := r[|scan|..];
      assert r == scan + tail;
      assert tail == [] ==> r == scan;
      assert DecodeRow(cfg, |scan|, r, rows[r]).Ok?;
      assert |tail| == 1 && r == cfg.WriteKey(k);
    }
  }

  /**
   * The guard is needed, and only against rows of the old layout: a write without it is
   * what an uncached read then finds exactly when the key had no such row, or one with
   * that very value. Otherwise the old row sorts first and hides the new one.
   */
  lemma UnguardedWrite<V(!new)>(cfg: Config<V>, rows: Rows, m: map<Bytes, V>, k: Bytes, v: V)
    requires cfg.Valid() && Represents(cfg, rows, m) && |k| == cfg.keyLen && cfg.suffix.Some?
    ensures cfg.ScanKey(k) in rows ==> k in m
    ensures DiskRead(cfg, Apply(rows, Physical(cfg, Set(k, v))), k) == Ok(v) <==>
            (cfg.ScanKey(k) in rows ==> m[k] == v)
  {
    KeysAreOwn(cfg, k);
    RowsAreDistinct(cfg, k, k);
    var put := Put(cfg.WriteKey(k), cfg.codec.encode(v));
    ApplyOne(rows, put);
    if cfg.ScanKey(k) in rows {
      LegacyRowComesFirst(cfg, ApplyOp(rows, put), k);
      assert RowFor(cfg, rows, k, m[k]);
    } else {
      SetRepresents(cfg, rows, m, k, v);
      DiskAgrees(cfg, ApplyOp(rows, put), m[k := v], k);
    }
  }

  predicate BearsOn<V>(mut: Mutation<V>, k: Bytes) {
    mut.Clear? || mut.key == k
  }

  /** The last mutation that bears on a key. */
  function LastOn<V>(muts: seq<Mutation<V>>, k: Bytes): Option<Mutation<V>> {
    if muts == [] then None
    else
      var later := LastOn(muts[1..], k);
      if later.Some? then later else if BearsOn(muts[0], k) then Some(muts[0]) else None
  }

  lemma {:induction false} LastDecides<V>(m: map<Bytes, V>, muts: seq<Mutation<V>>, k: Bytes)
    ensures var m', last := LogicalAll(m, muts), LastOn(muts, k);
            && (last.None? ==> (k in m' <==> k in m) && (k in m ==> m'[k] == m[k]))
            && (last.Some? ==> BearsOn(last.value, k) && (k in m' <==> last.value.Set?))
            && (last.Some? && last.value.Set? ==> m'[k] == last.value.value)
    decreases muts
  {
    if muts != [] {
      LastDecides(Logical(m, muts[0]), muts[1..], k);
    }
  }

  /**
   * Reading a key past the cache while `muts` are staged keeps the cache right, whatever is
   * evicted then, exactly when the key is not on disk, or nothing staged bears on it, or the
   * last that does writes the very value that is on disk. Otherwise the old value can stay
   * cached after the commit.
   */
  lemma ReadWhileStaged<V(!new)>(cfg: Config<V>, s: State<V>, d: map<Bytes, V>, muts: seq<Mutation<V>>, k: Bytes)
    requires cfg.Valid() && Represents(cfg, s.rows, d)
    requires s.pending == PhysicalAll(cfg, muts) && GuardedAll(cfg, s.rows, muts)
    requires SubMap(s.cache, LogicalAll(d, muts)) && |k| == cfg.keyLen && k !in s.cache
    ensures Represents(cfg, s.Future(), LogicalAll(d, muts))
    ensures (forall s', reply :: Step(cfg, s, Read(k), s', reply) ==> SubMap(s'.cache, LogicalAll(d, muts))) <==>
            (k !in d || LastOn(muts, k).None? || LastOn(muts, k) == Some(Set(k, d[k])))
  {
    MutationsCommute(cfg, s.rows, d, muts);
    DiskAgrees(cfg, s.rows, d, k);
    LastDecides(d, muts, k);
    if k in d {
      var s' := s.(cache := s.cache[k := d[k]]);
      assert Step(cfg, s, Read(k), s', Value(Ok(d[k])));
      assert k in s'.cache && s'.cache[k] == d[k];
    }
  }

  /**
   * Likewise for a direct write of a key while `muts` are staged: whatever is evicted, the
   * cache is what the rows will be after the commit exactly when nothing staged bears on the
   * key, or the last that does writes the same value.
   */
  lemma WriteWhileStaged<V(!new)>(cfg: Config<V>, s: State<V>, d: map<Bytes, V>, muts: seq<Mutation<V>>,
                                  k: Bytes, v: V)
    requires cfg.Valid() && Represents(cfg, s.rows, d) && s.pending == PhysicalAll(cfg, muts)
    requires GuardedAll(cfg, s.rows, [Set(k, v)] + muts) && SubMap(s.cache, LogicalAll(d, muts))
    ensures forall s' :: Mutated(cfg, s, [Set(k, v)], false, s') ==>
              Represents(cfg, s'.Future(), LogicalAll(d, [Set(k, v)] + muts))
    ensures (forall s' :: Mutated(cfg, s, [Set(k, v)], false, s') ==>
               SubMap(s'.cache, LogicalAll(d, [Set(k, v)] + muts))) <==>
            (LastOn(muts, k).None? || LastOn(muts, k) == Some(Set(k, v)))
  {
    WriteReaches(cfg, s, d, muts, k, v);
    SetFirst(d, muts, k, v);
    forall k' | k' in s.cache && k' != k
      ensures k' in LogicalAll(d, [Set(k, v)] + muts) && LogicalAll(d, [Set(k, v)] + muts)[k'] == s.cache[k']
    {
      SetElsewhere(d, muts, k, v, k');
    }
    CachesAfterWrite(cfg, s, k, v, LogicalAll(d, [Set(k, v)] + muts));
  }

  lemma CachesAfterWrite<V(!new)>(cfg: Config<V>, s: State<V>, k: Bytes, v: V, m: map<Bytes, V>)
    requires forall k' :: k' in s.cache && k' != k ==> k' in m && m[k'] == s.cache[k']
    ensures (forall s' :: Mutated(cfg, s, [Set(k, v)], false, s') ==> SubMap(s'.cache, m)) <==> k in m && m[k] == v
  {
    SingleMutation(cfg, s.cache, Set(k, v));
    var s' := Emit(s, PhysicalAll(cfg, [Set(k, v)]), false, s.cache[k := v]);
    assert Mutated(cfg, s, [Set(k, v)], false, s') && k in s'.cache && s'.cache[k] == v;
  }

  lemma WriteReaches<V(!new)>(cfg: Config<V>, s: State<V>, d: map<Bytes, V>, muts: seq<Mutation<V>>, k: Bytes, v: V)
    requires cfg.Valid() && Represents(cfg, s.rows, d) && s.pending == PhysicalAll(cfg, muts)
    requires GuardedAll(cfg, s.rows, [Set(k, v)] + muts)
    ensures forall s' :: Mutated(cfg, s, [Set(k, v)], false, s') ==>
              Represents(cfg, s'.Future(), LogicalAll(d, [Set(k, v)] + muts))
  {
    var all := [Set(k, v)] + muts;
    assert all[0] == Set(k, v) && all[1..] == muts;
    SingleMutation(cfg, d, Set(k, v));
    MutationsCommute(cfg, s.rows, d, all);
    ApplyAppend(s.rows, Physical(cfg, Set(k, v)), s.pending);
  }

  lemma SetFirst<V>(d: map<Bytes, V>, muts: seq<Mutation<V>>, k: Bytes, v: V)
    ensures var m := LogicalAll(d, [Set(k, v)] + muts);
            k in m && m[k] == v <==> LastOn(muts, k).None? || LastOn(muts, k) == Some(Set(k, v))
  {
    var all := [Set(k, v)] + muts;
    assert all[0] == Set(k, v) && all[1..] == muts;
    LastDecides(d, all, k);
  }

  lemma SetElsewhere<V>(d: map<Bytes, V>, muts: seq<Mutation<V>>, k: Bytes, v: V, k': Bytes)
    requires k' != k && k' in LogicalAll(d, muts)
    ensures var m := LogicalAll(d, [Set(k, v)] + muts); k' in m && m[k'] == LogicalAll(d, muts)[k']
  {
    var all := [Set(k, v)] + muts;
    assert all[0] == Set(k, v) && all[1..] == muts;
    LastDecides(d, all, k');
    LastDecides(d, muts, k');
  }

  // ---------- the two conditions at work ----------

  /** One byte for one byte, in the old format as in the new. */
  function ByteCodec(): Codec<byte> {
    var decode := (b: Bytes) => if |b| == 1 then Some(b[0]) else None;
    Codec((v: byte) => [v], decode, decode)
  }

  function ByteStore(): Config<byte> {
    Config([7], 1, Some(1), ByteCodec())
  }

  /** Over the old row of a key with value 1, a write of 2 is lost: reads still find 1. */
  lemma UnguardedWriteExample(k: Bytes, rows: Rows)
    requires k == [5] && rows == map[[7, 5] := [1]]
    ensures ByteStore().Valid()
    ensures DiskRead(ByteStore(), Apply(rows, Physical(ByteStore(), Set(k, 2))), k) == Ok(1)
  {
    var cfg := ByteStore();
    assert cfg.ScanKey(k) == [7, 5];
    assert cfg.WriteKey(k) == [7, 5, 1];
    ApplyOne(rows, Put(cfg.WriteKey(k), [2]));
    LegacyRowComesFirst(cfg, Apply(rows, Physical(cfg, Set(k, 2))), k);
  }

  /** With 1 on disk and 2 staged, a read past the cache leaves 1 cached after the commit puts 2 on disk. */
  lemma ReadWhileStagedExample(k: Bytes, rows: Rows) returns (s1: State<byte>, s2: State<byte>)
    requires k == [5] && rows == map[[7, 5, 1] := [1]]
    ensures ByteStore().Valid()
    ensures Step(ByteStore(), Store(rows, [Put([7, 5, 1], [2])], map[]), Read(k), s1, Value(Ok(1)))
    ensures Step(ByteStore(), s1, Commit, s2, Done)
    ensures s2.cache == map[k := 1] && DiskRead(ByteStore(), s2.rows, k) == Ok(2)
  {
    var cfg, put := ByteStore(), Put([7, 5, 1], [2]);
    assert cfg.ScanKey(k) == [7, 5];
    assert cfg.WriteKey(k) == [7, 5, 1];
    OneLiveRow(cfg, rows, k, 1);
    DiskAgrees(cfg, rows, map[k := 1], k);
    s1 := Store(rows, [put], map[k := 1]);
    s2 := Store(s1.Future(), [], s1.cache);
    ApplyOne(rows, put);
    OneLiveRow(cfg, s2.rows, k, 2);
    DiskAgrees(cfg, s2.rows, map[k := 2], k);
  }

  lemma OneLiveRow<V(!new)>(cfg: Config<V>, rows: Rows, k: Bytes, v: V)
    requires cfg.suffix.Some? && |k| == cfg.keyLen
    requires rows.Keys == {cfg.WriteKey(k)} && cfg.codec.decode(rows[cfg.WriteKey(k)]) == Some(v)
    ensures Represents(cfg, rows, map[k := v])
  {
    KeysAreOwn(cfg, k);
    RowsAreDistinct(cfg, k, k);
  }
}
