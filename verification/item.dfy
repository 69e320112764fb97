/**
 * `CachedDbItem`: one value, kept under a live key, with an older row under a legacy key
 * that is moved to the live key when it is first read. It is one optional value.
 */
module ItemModel {
  import opened Wrappers
  import opened Bytes
  import opened Database
  import opened Codecs

  datatype Config<!T(!new)> = Config(live: Bytes, legacy: Option<Bytes>, codec: Codec<T>)
  {
    ghost predicate Valid() {
      legacy != Some(live) && codec.Lossless()
    }

    predicate Owns(k: Bytes) {
      k == live || legacy == Some(k)
    }
  }

  function Plain<T(!new)>(key: Bytes, codec: Codec<T>): Config<T> {
    Config(key, None, codec)
  }

  /** `new_with_version_suffix` */
  function Versioned<T(!new)>(prefix: Bytes, current: byte, legacy: Option<byte>, codec: Codec<T>): Config<T> {
    Config(prefix + [current], Some(match legacy case None => prefix case Some(s) => prefix + [s]), codec)
  }

  ghost function DiskValue<T(!new)>(cfg: Config<T>, rows: Rows): Result<T, StoreError> {
    if cfg.live in rows then OrError(cfg.codec.decode(rows[cfg.live]))
    else if cfg.legacy.Some? && cfg.legacy.value in rows then OrError(cfg.codec.decodeLegacy(rows[cfg.legacy.value]))
    else Err(KeyNotFound)
  }

  /** The two keys differ, and so the old row is told from the new, exactly when the suffixes do. */
  lemma VersionedKeysDiffer<T(!new)>(prefix: Bytes, current: byte, legacy: Option<byte>, codec: Codec<T>)
    requires codec.Lossless()
    ensures Versioned(prefix, current, legacy, codec).Valid() <==> legacy != Some(current)
  {
    assert |prefix + [current]| == |prefix| + 1;
    if legacy.Some? {
      assert (prefix + [current])[|prefix|] == current && (prefix + [legacy.value])[|prefix|] == legacy.value;
    }
  }

  /** A versioned item is written under its prefix and the current suffix, in the new format, and nowhere else. */
  lemma VersionedWrite<T(!new)>(prefix: Bytes, current: byte, legacy: Option<byte>, codec: Codec<T>,
                                s: State<T>, item: T, s': State<T>)
    requires codec.Lossless()
    requires Step(Versioned(prefix, current, legacy, codec), s, Write(item, false), s', None)
    ensures prefix + [current] in s'.rows && codec.decode(s'.rows[prefix + [current]]) == Some(item)
    ensures forall k :: k != prefix + [current] ==> SameRow(s'.rows, s.rows, k)
  {
    ApplyOne(s.rows, Put(prefix + [current], codec.encode(item)));
  }

  /** And what is read when no row is there is decoded as old from the bare prefix, or from the old suffix. */
  lemma VersionedLegacy<T(!new)>(prefix: Bytes, current: byte, legacy: Option<byte>, codec: Codec<T>, rows: Rows)
    requires prefix + [current] !in rows
    ensures var oldKey := if legacy.None? then prefix else prefix + [legacy.value];
            DiskValue(Versioned(prefix, current, legacy, codec), rows) ==
            if oldKey in rows then OrError(codec.decodeLegacy(rows[oldKey])) else Err(KeyNotFound)
  {
  }

  /** With one suffix for both, the item is a plain one and the old decoder is never used. */
  lemma SameSuffixIsPlain<T(!new)>(prefix: Bytes, s: byte, codec: Codec<T>, rows: Rows)
    ensures DiskValue(Versioned(prefix, s, Some(s), codec), rows) == DiskValue(Plain(prefix + [s], codec), rows)
  {
  }

  type State<T> = Store<Option<T>>

  /**
   * The last three are restarts: between operations, between the put and the delete of a
   * migration, and between the two deletes of a direct removal, which leaves `left`.
   */
  datatype Op<!T> =
    | Read
    | Write(item: T, batched: bool)
    | Update(op: T -> T, batched: bool)
    | Remove(batched: bool)
    | Foreign(ops: seq<BatchOp>, batched: bool)
    | Commit
    | Restart
    | RestartInMigration
    | RestartInRemove(left: Result<T, StoreError>)

  predicate IsRestart<T>(op: Op<T>) {
    op.Restart? || op.RestartInMigration? || op.RestartInRemove?
  }

  function Moved<T(!new)>(cfg: Config<T>, rows: Rows, item: T): Rows
    requires cfg.legacy.Some?
  {
    rows[cfg.live := cfg.codec.encode(item)] - {cfg.legacy.value}
  }

  function RemoveOps<T(!new)>(cfg: Config<T>): seq<BatchOp> {
    match cfg.legacy
    case Some(k) => [Delete(cfg.live), Delete(k)]
    case None => [Delete(cfg.live)]
  }

  ghost function Current<T(!new)>(cfg: Config<T>, s: State<T>): Result<T, StoreError> {
    if s.cache.Some? then Ok(s.cache.value) else DiskValue(cfg, s.rows)
  }

  function PutOps<T(!new)>(cfg: Config<T>, item: T): seq<BatchOp> {
    [Put(cfg.live, cfg.codec.encode(item))]
  }

  /** A step and its reply; only reads and updates return something. */
  ghost predicate Step<T(!new)>(cfg: Config<T>, s: State<T>, op: Op<T>, s': State<T>,
                                reply: Option<Result<T, StoreError>>)
  {
    match op
    case Read =>
      && reply == Some(Current(cfg, s))
      && (s.cache.Some? || reply.value.Err? ==> s' == s)
      && (s.cache.None? && reply.value.Ok? ==>
            var v := reply.value.value;
            if cfg.live in s.rows then s' == s.(cache := Some(v))
            else s' == s.(rows := Moved(cfg, s.rows, v), cache := Some(v)))
    case Write(item, batched) =>
      reply == None && s' == Emit(s, PutOps(cfg, item), batched, Some(item))
    case Update(f, batched) =>
      (match Current(cfg, s)
       case Err(e) => reply == Some(Err(e)) && s' == s
       case Ok(v) => reply == Some(Ok(f(v))) && s' == Emit(s, PutOps(cfg, f(v)), batched, Some(f(v))))
    case Remove(batched) =>
      reply == None && s' == Emit(s, RemoveOps(cfg), batched, None)
    case Foreign(ops, batched) =>
      reply == None && s' == Emit(s, ops, batched, s.cache) && forall k :: cfg.Owns(k) ==> !TouchedBy(ops, k)
    case Commit =>
      reply == None && s' == Store(s.Future(), [], s.cache)
    case Restart =>
      reply == None && s' == Store(s.rows, [], None)
    case RestartInMigration =>
      && reply == None && s.cache.None? && cfg.live !in s.rows && DiskValue(cfg, s.rows).Ok?
      && s' == Store(s.rows[cfg.live := cfg.codec.encode(DiskValue(cfg, s.rows).value)], [], None)
    case RestartInRemove(left) =>
      reply == None && s' == Store(s.rows - {cfg.live}, [], None) && left == DiskValue(cfg, s'.rows)
  }

  ghost predicate Staged<T(!new)>(cfg: Config<T>, pending: seq<BatchOp>) {
    exists k :: cfg.Owns(k) && TouchedBy(pending, k)
  }

  /**
   * No direct write to a row that an open batch touches too, and no look past the cache at a
   * value that an open batch is about to change.
   */
  ghost predicate Admissible<T(!new)>(cfg: Config<T>, s: State<T>, op: Op<T>) {
    match op
    case Read => s.cache.Some? || !Staged(cfg, s.pending)
    case Update(f, batched) =>
      && (s.cache.Some? || !Staged(cfg, s.pending))
      && (batched || !TouchedBy(s.pending, cfg.live))
    case Write(item, batched) => batched || !TouchedBy(s.pending, cfg.live)
    case Remove(batched) => batched || !Staged(cfg, s.pending)
    case _ => true
  }

  // ---------- the specification: one value, or the error that there is none ----------

  /** `d` is the value on disk and `m` the value once the batch is committed. */
  function SpecValue<T>(d: Result<T, StoreError>, m: Result<T, StoreError>, op: Op<T>): Result<T, StoreError> {
    match op
    case Write(item, _) => Ok(item)
    case Update(f, _) => if m.Ok? then Ok(f(m.value)) else m
    case Remove(_) => Err(KeyNotFound)
    case Restart => d
    case RestartInMigration => d
    case RestartInRemove(left) => left
    case _ => m
  }

  function SpecCommitted<T>(d: Result<T, StoreError>, m: Result<T, StoreError>, op: Op<T>): Result<T, StoreError> {
    match op
    case Write(_, batched) => if batched then d else SpecValue(d, m, op)
    case Update(_, batched) => if batched then d else SpecValue(d, m, op)
    case Remove(batched) => if batched then d else SpecValue(d, m, op)
    case RestartInRemove(left) => left
    case Commit => m
    case _ => d
  }

  function SpecReply<T>(m: Result<T, StoreError>, op: Op<T>): Option<Result<T, StoreError>> {
    match op
    case Read => Some(m)
    case Update(f, _) => Some(if m.Ok? then Ok(f(m.value)) else m)
    case _ => None
  }

  ghost predicate Inv<T(!new)>(cfg: Config<T>, s: State<T>, d: Result<T, StoreError>, m: Result<T, StoreError>) {
    && DiskValue(cfg, s.rows) == d
    && DiskValue(cfg, s.Future()) == m
    && (s.cache.Some? ==> m == Ok(s.cache.value))
  }

  lemma RemoveClears<T(!new)>(cfg: Config<T>, rows: Rows)
    ensures DiskValue(cfg, Apply(rows, RemoveOps(cfg))) == Err(KeyNotFound)
  {
    RemoveErases(cfg, rows);
    ErasedMeans(cfg, Apply(rows, RemoveOps(cfg)));
  }

  /** The value on disk depends on the item's own rows only. */
  lemma DiskValueFrame<T(!new)>(cfg: Config<T>, rows: Rows, rows': Rows)
    requires forall k :: cfg.Owns(k) ==> SameRow(rows', rows, k)
    ensures DiskValue(cfg, rows') == DiskValue(cfg, rows)
  {
    assert cfg.Owns(cfg.live) && (cfg.legacy.Some? ==> cfg.Owns(cfg.legacy.value));
  }

  lemma UnstagedValue<T(!new)>(cfg: Config<T>, rows: Rows, ops: seq<BatchOp>)
    requires !Staged(cfg, ops)
    ensures DiskValue(cfg, Apply(rows, ops)) == DiskValue(cfg, rows)
  {
    forall k | cfg.Owns(k) ensures SameRow(Apply(rows, ops), rows, k) {
      ApplyFrame(rows, ops, k);
    }
    DiskValueFrame(cfg, rows, Apply(rows, ops));
  }

  /** Moving a row keeps the value, also when it stops after the put and before the delete. */
  lemma MoveKeepsValue<T(!new)>(cfg: Config<T>, rows: Rows)
    requires cfg.Valid() && cfg.live !in rows && DiskValue(cfg, rows).Ok?
    ensures DiskValue(cfg, rows[cfg.live := cfg.codec.encode(DiskValue(cfg, rows).value)]) == DiskValue(cfg, rows)
    ensures DiskValue(cfg, Moved(cfg, rows, DiskValue(cfg, rows).value)) == DiskValue(cfg, rows)
  {
  }

  lemma EmitKeepsInv<T(!new)>(cfg: Config<T>, s: State<T>, ops: seq<BatchOp>, batched: bool, cache: Option<T>,
                              d: Result<T, StoreError>, m: Result<T, StoreError>, m': Result<T, StoreError>)
    requires Inv(cfg, s, d, m) && (batched || Independent(ops, s.pending))
    requires forall rows :: DiskValue(cfg, Apply(rows, ops)) == m'
    requires cache.Some? ==> m' == Ok(cache.value)
    ensures Inv(cfg, Emit(s, ops, batched, cache), if batched then d else m', m')
  {
    EmitFuture(s, ops, batched, cache);
  }

  lemma PutDecides<T(!new)>(cfg: Config<T>, item: T)
    requires cfg.Valid()
    ensures forall rows :: DiskValue(cfg, Apply(rows, PutOps(cfg, item))) == Ok(item)
    ensures forall k :: TouchedBy(PutOps(cfg, item), k) <==> k == cfg.live
  {
    forall rows ensures DiskValue(cfg, Apply(rows, PutOps(cfg, item))) == Ok(item) {
      ApplyOne(rows, Put(cfg.live, cfg.codec.encode(item)));
    }
    assert Put(cfg.live, cfg.codec.encode(item)) in PutOps(cfg, item);
  }

  lemma RemoveTouches<T(!new)>(cfg: Config<T>)
    ensures forall k :: TouchedBy(RemoveOps(cfg), k) <==> cfg.Owns(k)
  {
    assert Delete(cfg.live) in RemoveOps(cfg);
    assert cfg.legacy.Some? ==> Delete(cfg.legacy.value) in RemoveOps(cfg);
  }

  lemma ForeignKeepsInv<T(!new)>(cfg: Config<T>, s: State<T>, ops: seq<BatchOp>, batched: bool,
                                 d: Result<T, StoreError>, m: Result<T, StoreError>)
    requires Inv(cfg, s, d, m) && forall k :: cfg.Owns(k) ==> !TouchedBy(ops, k)
    ensures Inv(cfg, Emit(s, ops, batched, s.cache), d, m)
  {
    var s' := Emit(s, ops, batched, s.cache);
    forall k | cfg.Owns(k) ensures SameRow(s'.rows, s.rows, k) && SameRow(s'.Future(), s.Future(), k) {
      EmitFrame(s, ops, batched, s.cache, k);
    }
    DiskValueFrame(cfg, s.rows, s'.rows);
    DiskValueFrame(cfg, s.Future(), s'.Future());
  }

  lemma StepRefines<T(!new)>(cfg: Config<T>, s: State<T>, op: Op<T>, s': State<T>, reply: Option<Result<T, StoreError>>,
                             d: Result<T, StoreError>, m: Result<T, StoreError>)
    requires cfg.Valid() && Inv(cfg, s, d, m)
    requires Step(cfg, s, op, s', reply) && Admissible(cfg, s, op)
    ensures reply == SpecReply(m, op)
    ensures Inv(cfg, s', SpecCommitted(d, m, op), SpecValue(d, m, op))
    ensures op.RestartInRemove? ==> NothingOrOld(cfg, OldBytes(cfg, s), op.left)
  {
    if op.RestartInRemove? {
      StepLeavesOld(cfg, s, op, s', reply);
    }
    match op {
      case Read =>
        if s.cache.None? {
          UnstagedValue(cfg, s.rows, s.pending);
          UnstagedValue(cfg, s'.rows, s.pending);
          if reply.value.Ok? && cfg.live !in s.rows {
            MoveKeepsValue(cfg, s.rows);
          }
        }
      case Write(item, batched) =>
        PutDecides(cfg, item);
        EmitKeepsInv(cfg, s, PutOps(cfg, item), batched, Some(item), d, m, Ok(item));
      case Update(f, batched) =>
        if s.cache.None? {
          UnstagedValue(cfg, s.rows, s.pending);
        }
        if m.Ok? {
          var item := f(m.value);
          PutDecides(cfg, item);
          EmitKeepsInv(cfg, s, PutOps(cfg, item), batched, Some(item), d, m, Ok(item));
        }
      case Remove(batched) =>
        forall rows ensures DiskValue(cfg, Apply(rows, RemoveOps(cfg))) == Err(KeyNotFound) {
          RemoveClears(cfg, rows);
        }
        RemoveTouches(cfg);
        EmitKeepsInv(cfg, s, RemoveOps(cfg), batched, None, d, m, Err(KeyNotFound));
      case Foreign(ops, batched) =>
        ForeignKeepsInv(cfg, s, ops, batched, d, m);
      case RestartInMigration =>
        MoveKeepsValue(cfg, s.rows);
      case _ =>
    }
  }

  ghost predicate Run<T(!new)>(cfg: Config<T>, states: seq<State<T>>, ops: seq<Op<T>>,
                               replies: seq<Option<Result<T, StoreError>>>)
  {
    && |states| == |ops| + 1 && |replies| == |ops|
    && forall i :: 0 <= i < |ops| ==>
         Step(cfg, states[i], ops[i], states[i + 1], replies[i]) && Admissible(cfg, states[i], ops[i])
  }

  /** The value on disk and after the batch, at the end of a run. */
  function SpecRun<T>(d: Result<T, StoreError>, m: Result<T, StoreError>, ops: seq<Op<T>>)
    : (Result<T, StoreError>, Result<T, StoreError>)
  {
    if ops == [] then (d, m)
    else
      var p := SpecRun(d, m, ops[..|ops| - 1]);
      var op := ops[|ops| - 1];
      (SpecCommitted(p.0, p.1, op), SpecValue(p.0, p.1, op))
  }

  lemma {:induction false} RunInv<T(!new)>(cfg: Config<T>, states: seq<State<T>>, ops: seq<Op<T>>,
                                           replies: seq<Option<Result<T, StoreError>>>,
                                           d: Result<T, StoreError>, m: Result<T, StoreError>, n: nat)
    requires cfg.Valid() && Run(cfg, states, ops, replies) && Inv(cfg, states[0], d, m) && n <= |ops|
    ensures Inv(cfg, states[n], SpecRun(d, m, ops[..n]).0, SpecRun(d, m, ops[..n]).1)
  {
    if n > 0 {
      RunInv(cfg, states, ops, replies, d, m, n - 1);
      var p := SpecRun(d, m, ops[..n - 1]);
      StepRefines(cfg, states[n - 1], ops[n - 1], states[n], replies[n - 1], p.0, p.1);
      assert ops[..n][..n - 1] == ops[..n - 1];
    }
  }

  /** The bytes of the legacy row, now and once the batch is committed. */
  ghost function OldBytes<T(!new)>(cfg: Config<T>, s: State<T>): set<Bytes> {
    if cfg.legacy.None? then {}
    else
      var k := cfg.legacy.value;
      (if k in s.rows then {s.rows[k]} else {}) + (if k in s.Future() then {s.Future()[k]} else {})
  }

  /** No operation writes a legacy row. */
  lemma StepKeepsOldBytes<T(!new)>(cfg: Config<T>, s: State<T>, op: Op<T>, s': State<T>,
                                   reply: Option<Result<T, StoreError>>)
    requires cfg.Valid() && Step(cfg, s, op, s', reply) && Admissible(cfg, s, op)
    ensures OldBytes(cfg, s') <= OldBytes(cfg, s)
  {
    if cfg.legacy.Some? {
      var k := cfg.legacy.value;
      match op {
        case Write(item, batched) =>
          PutDecides(cfg, item);
          EmitFrame(s, PutOps(cfg, item), batched, Some(item), k);
        case Update(f, batched) =>
          if Current(cfg, s).Ok? {
            var item := f(Current(cfg, s).value);
            PutDecides(cfg, item);
            EmitFrame(s, PutOps(cfg, item), batched, Some(item), k);
          }
        case Remove(batched) =>
          RemoveTouches(cfg);
          EmitFuture(s, RemoveOps(cfg), batched, None);
          RemoveErases(cfg, s.Future());
          RemoveErases(cfg, s.rows);
          assert cfg.Owns(k);
        case Foreign(ops, batched) =>
          EmitFrame(s, ops, batched, s.cache, k);
        case Read =>
          if s.cache.None? {
            assert cfg.Owns(k);
            ApplyFrame(s'.rows, s.pending, k);
          }
        case _ =>
      }
    }
  }

  lemma {:induction false} RunKeepsOldBytes<T(!new)>(cfg: Config<T>, states: seq<State<T>>, ops: seq<Op<T>>,
                                                     replies: seq<Option<Result<T, StoreError>>>, i: nat, n: nat)
    requires cfg.Valid() && Run(cfg, states, ops, replies) && i <= n <= |ops|
    ensures OldBytes(cfg, states[n]) <= OldBytes(cfg, states[i])
  {
    if i < n {
      RunKeepsOldBytes(cfg, states, ops, replies, i, n - 1);
      StepKeepsOldBytes(cfg, states[n - 1], ops[n - 1], states[n], replies[n - 1]);
    }
  }

  /** Nothing, or what a legacy row with some of these bytes decodes to. */
  ghost predicate NothingOrOld<T(!new)>(cfg: Config<T>, rows: set<Bytes>, left: Result<T, StoreError>) {
    left == Err(KeyNotFound) || exists x :: x in rows && left == OrError(cfg.codec.decodeLegacy(x))
  }

  /** An interrupted removal leaves nothing, or a legacy value that the item had from the start. */
  lemma LeftIsOld<T(!new)>(cfg: Config<T>, states: seq<State<T>>, ops: seq<Op<T>>,
                           replies: seq<Option<Result<T, StoreError>>>, i: nat, n: nat)
    requires cfg.Valid() && Run(cfg, states, ops, replies) && i <= n < |ops| && ops[n].RestartInRemove?
    ensures NothingOrOld(cfg, OldBytes(cfg, states[i]), ops[n].left)
  {
    RunKeepsOldBytes(cfg, states, ops, replies, i, n);
    StepLeavesOld(cfg, states[n], ops[n], states[n + 1], replies[n]);
  }

  lemma StepLeavesOld<T(!new)>(cfg: Config<T>, s: State<T>, op: Op<T>, s': State<T>,
                               reply: Option<Result<T, StoreError>>)
    requires cfg.Valid() && Step(cfg, s, op, s', reply) && op.RestartInRemove?
    ensures NothingOrOld(cfg, OldBytes(cfg, s), op.left)
  {
    if cfg.legacy.Some? && cfg.legacy.value in s.rows {
      assert s.rows[cfg.legacy.value] in OldBytes(cfg, s);
    }
  }

  /**
   * Over every run, with restarts between operations, in a migration and in a removal, each
   * reply is that of one value or of its absence. An interrupted removal leaves nothing, or a
   * value that a legacy row had from the start; `RemoveInterrupted` says which.
   */
  lemma RunRefines<T(!new)>(cfg: Config<T>, states: seq<State<T>>, ops: seq<Op<T>>,
                            replies: seq<Option<Result<T, StoreError>>>,
                            d: Result<T, StoreError>, m: Result<T, StoreError>)
    requires cfg.Valid() && Run(cfg, states, ops, replies) && Inv(cfg, states[0], d, m)
    ensures forall i :: 0 <= i < |ops| ==> replies[i] == SpecReply(SpecRun(d, m, ops[..i]).1, ops[i])
    ensures Inv(cfg, states[|ops|], SpecRun(d, m, ops).0, SpecRun(d, m, ops).1)
    ensures forall i :: 0 <= i < |ops| && ops[i].RestartInRemove? ==>
              NothingOrOld(cfg, OldBytes(cfg, states[0]), ops[i].left)
  {
    forall i | 0 <= i < |ops| && ops[i].RestartInRemove?
      ensures NothingOrOld(cfg, OldBytes(cfg, states[0]), ops[i].left)
    {
      LeftIsOld(cfg, states, ops, replies, 0, i);
    }
    forall i | 0 <= i < |ops| ensures replies[i] == SpecReply(SpecRun(d, m, ops[..i]).1, ops[i]) {
      RunInv(cfg, states, ops, replies, d, m, i);
      var p := SpecRun(d, m, ops[..i]);
      StepRefines(cfg, states[i], ops[i], states[i + 1], replies[i], p.0, p.1);
    }
    RunInv(cfg, states, ops, replies, d, m, |ops|);
    assert ops[..|ops|] == ops;
  }

  // ---------- removals ----------

  ghost predicate Erased<T(!new)>(cfg: Config<T>, rows: Rows) {
    forall k :: cfg.Owns(k) ==> k !in rows
  }

  /** A removal is in the open batch: nothing may look past the cache until it is committed or lost. */
  ghost predicate Removing<T(!new)>(cfg: Config<T>, s: State<T>) {
    s.cache.None? && Erased(cfg, s.Future()) && TouchedBy(s.pending, cfg.live)
  }

  ghost predicate Removed<T(!new)>(cfg: Config<T>, s: State<T>) {
    s.cache.None? && Erased(cfg, s.Future()) && Erased(cfg, s.rows)
  }

  lemma RemoveErases<T(!new)>(cfg: Config<T>, rows: Rows)
    ensures Erased(cfg, Apply(rows, RemoveOps(cfg)))
  {
    ApplyOne(rows, Delete(cfg.live));
    if cfg.legacy.Some? {
      ApplyAppend(rows, [Delete(cfg.live)], [Delete(cfg.legacy.value)]);
      assert [Delete(cfg.live)] + [Delete(cfg.legacy.value)] == RemoveOps(cfg);
      ApplyOne(rows - {cfg.live}, Delete(cfg.legacy.value));
    }
  }

  lemma RemoveStarts<T(!new)>(cfg: Config<T>, s: State<T>, batched: bool, s': State<T>)
    requires s' == Emit(s, RemoveOps(cfg), batched, None) && Admissible(cfg, s, Remove(batched))
    ensures if batched then Removing(cfg, s') else Removed(cfg, s')
  {
    RemoveTouches(cfg);
    EmitFuture(s, RemoveOps(cfg), batched, None);
    RemoveErases(cfg, s.Future());
    RemoveErases(cfg, s.rows);
    if batched {
      TouchedAppend(s.pending, RemoveOps(cfg), cfg.live);
    }
  }

  lemma TouchedAppend(a: seq<BatchOp>, b: seq<BatchOp>, k: Bytes)
    ensures TouchedBy(a + b, k) <==> TouchedBy(a, k) || TouchedBy(b, k)
  {
  }

  lemma ForeignErases<T(!new)>(cfg: Config<T>, s: State<T>, ops: seq<BatchOp>, batched: bool)
    requires forall k :: cfg.Owns(k) ==> !TouchedBy(ops, k)
    ensures var s' := Emit(s, ops, batched, s.cache);
            (Erased(cfg, s'.rows) <==> Erased(cfg, s.rows)) && (Erased(cfg, s'.Future()) <==> Erased(cfg, s.Future()))
  {
    var s' := Emit(s, ops, batched, s.cache);
    forall k | cfg.Owns(k) ensures SameRow(s'.rows, s.rows, k) && SameRow(s'.Future(), s.Future(), k) {
      EmitFrame(s, ops, batched, s.cache, k);
    }
  }

  lemma RemovingGoesOn<T(!new)>(cfg: Config<T>, s: State<T>, op: Op<T>, s': State<T>,
                                reply: Option<Result<T, StoreError>>)
    requires Removing(cfg, s) && Step(cfg, s, op, s', reply) && Admissible(cfg, s, op)
    requires !op.Write? && !IsRestart(op)
    ensures !op.Read? && !op.Update?
    ensures if op.Commit? then Removed(cfg, s') else Removing(cfg, s')
    ensures !op.Commit? ==> DiskValue(cfg, s'.rows) == DiskValue(cfg, s.rows)
  {
    assert cfg.Owns(cfg.live);
    match op {
      case Remove(batched) =>
        RemoveStarts(cfg, s, batched, s');
      case Foreign(ops, batched) =>
        ForeignErases(cfg, s, ops, batched);
        TouchedAppend(s.pending, ops, cfg.live);
        forall k | cfg.Owns(k) ensures SameRow(s'.rows, s.rows, k) {
          EmitFrame(s, ops, batched, s.cache, k);
        }
        DiskValueFrame(cfg, s.rows, s'.rows);
      case _ =>
    }
  }

  lemma ErasedMeans<T(!new)>(cfg: Config<T>, rows: Rows)
    requires Erased(cfg, rows)
    ensures DiskValue(cfg, rows) == Err(KeyNotFound)
  {
    assert cfg.Owns(cfg.live) && (cfg.legacy.Some? ==> cfg.Owns(cfg.legacy.value));
  }

  lemma RemovedGoesOn<T(!new)>(cfg: Config<T>, s: State<T>, op: Op<T>, s': State<T>,
                               reply: Option<Result<T, StoreError>>)
    requires Removed(cfg, s) && Step(cfg, s, op, s', reply) && Admissible(cfg, s, op) && !op.Write?
    ensures Removed(cfg, s') && (op.Read? ==> reply == Some(Err(KeyNotFound)))
  {
    ErasedMeans(cfg, s.rows);
    match op {
      case Remove(batched) =>
        EmitFuture(s, RemoveOps(cfg), batched, None);
        RemoveErases(cfg, s.Future());
        RemoveErases(cfg, s.rows);
        RemoveTouches(cfg);
      case Foreign(ops, batched) =>
        ForeignErases(cfg, s, ops, batched);
      case _ =>
    }
  }

  /** After `i` and before `j` the batch is committed, and no restart comes before that. */
  ghost predicate CommitsFirst<T>(ops: seq<Op<T>>, i: nat, j: nat)
    requires j <= |ops|
  {
    exists c :: i < c < j && ops[c].Commit? && forall k :: i < k < c ==> !IsRestart(ops[k])
  }

  lemma {:induction false} StillRemoving<T(!new)>(cfg: Config<T>, states: seq<State<T>>, ops: seq<Op<T>>,
                                                  replies: seq<Option<Result<T, StoreError>>>, i: nat, n: nat)
    requires Run(cfg, states, ops, replies) && i < n <= |ops| && ops[i] == Remove(true)
    requires forall k :: i < k < n ==> !ops[k].Write? && !IsRestart(ops[k]) && !ops[k].Commit?
    ensures Removing(cfg, states[n]) && DiskValue(cfg, states[n].rows) == DiskValue(cfg, states[i].rows)
  {
    assert Step(cfg, states[n - 1], ops[n - 1], states[n], replies[n - 1]);
    if n == i + 1 {
      RemoveStarts(cfg, states[i], true, states[n]);
    } else {
      StillRemoving(cfg, states, ops, replies, i, n - 1);
      RemovingGoesOn(cfg, states[n - 1], ops[n - 1], states[n], replies[n - 1]);
    }
  }

  lemma NoReadMeanwhile<T(!new)>(cfg: Config<T>, states: seq<State<T>>, ops: seq<Op<T>>,
                                 replies: seq<Option<Result<T, StoreError>>>, i: nat, j: nat)
    requires Run(cfg, states, ops, replies) && i < j < |ops| && ops[i] == Remove(true)
    requires forall k :: i < k < j ==> !ops[k].Write? && !IsRestart(ops[k]) && !ops[k].Commit?
    ensures !ops[j].Read?
  {
    StillRemoving(cfg, states, ops, replies, i, j);
    assert cfg.Owns(cfg.live) && Admissible(cfg, states[j], ops[j]);
  }

  lemma {:induction false} StaysRemoved<T(!new)>(cfg: Config<T>, states: seq<State<T>>, ops: seq<Op<T>>,
                                                 replies: seq<Option<Result<T, StoreError>>>, i: nat, n: nat)
    requires Run(cfg, states, ops, replies) && i <= n <= |ops| && Removed(cfg, states[i])
    requires forall k :: i <= k < n ==> !ops[k].Write?
    ensures Removed(cfg, states[n])
  {
    if i < n {
      StaysRemoved(cfg, states, ops, replies, i, n - 1);
      RemovedGoesOn(cfg, states[n - 1], ops[n - 1], states[n], replies[n - 1]);
    }
  }

  lemma {:induction false} FirstCommit<T>(ops: seq<Op<T>>, i: nat, c: nat) returns (first: nat)
    requires i < c < |ops| && ops[c].Commit? && forall k :: i < k < c ==> !IsRestart(ops[k])
    ensures i < first <= c && ops[first].Commit?
    ensures forall k :: i < k < first ==> !IsRestart(ops[k]) && !ops[k].Commit?
    decreases c
  {
    first := c;
    if k :| i < k < c && ops[k].Commit? {
      first := FirstCommit(ops, i, k);
    }
  }

  lemma {:induction false} FirstRestart<T>(ops: seq<Op<T>>, i: nat, r: nat) returns (first: nat)
    requires i < r < |ops| && IsRestart(ops[r])
    ensures i < first <= r && IsRestart(ops[first]) && forall k :: i < k < first ==> !IsRestart(ops[k])
    decreases r
  {
    first := r;
    if k :| i < k < r && IsRestart(ops[k]) {
      first := FirstRestart(ops, i, k);
    }
  }

  /**
   * In no run is a removed value read again before something is written, whatever updates,
   * restarts, interrupted removals and commits come in between: after a direct removal at
   * once, after a batched one if its batch is committed before any restart.
   */
  lemma NothingReappears<T(!new)>(cfg: Config<T>, states: seq<State<T>>, ops: seq<Op<T>>,
                                  replies: seq<Option<Result<T, StoreError>>>, i: nat, j: nat)
    requires Run(cfg, states, ops, replies) && i < j < |ops| && ops[i].Remove? && ops[j].Read?
    requires forall k :: i < k < j ==> !ops[k].Write?
    requires ops[i].batched ==> CommitsFirst(ops, i, j)
    ensures replies[j] == Some(Err(KeyNotFound))
  {
    assert Step(cfg, states[i], ops[i], states[i + 1], replies[i]);
    var n := i + 1;
    RemoveStarts(cfg, states[i], ops[i].batched, states[n]);
    if ops[i].batched {
      var any :| i < any < j && ops[any].Commit? && forall k :: i < k < any ==> !IsRestart(ops[k]);
      var c := FirstCommit(ops, i, any);
      StillRemoving(cfg, states, ops, replies, i, c);
      RemovingGoesOn(cfg, states[c], ops[c], states[c + 1], replies[c]);
      n := c + 1;
    }
    StaysRemoved(cfg, states, ops, replies, n, j);
    RemovedGoesOn(cfg, states[j], ops[j], states[j + 1], replies[j]);
  }

  ghost predicate HasValue<T(!new)>(cfg: Config<T>, s: State<T>) {
    var d, m := DiskValue(cfg, s.rows), DiskValue(cfg, s.Future());
    d.Ok? && m.Ok? && Inv(cfg, s, d, m)
  }

  lemma {:induction false} ValueStays<T(!new)>(cfg: Config<T>, states: seq<State<T>>, ops: seq<Op<T>>,
                                               replies: seq<Option<Result<T, StoreError>>>, i: nat, n: nat)
    requires cfg.Valid() && Run(cfg, states, ops, replies) && i <= n <= |ops| && HasValue(cfg, states[i])
    requires forall k :: i <= k < n ==> !ops[k].Remove? && !ops[k].RestartInRemove?
    ensures HasValue(cfg, states[n])
  {
    if i < n {
      ValueStays(cfg, states, ops, replies, i, n - 1);
      var s := states[n - 1];
      StepRefines(cfg, s, ops[n - 1], states[n], replies[n - 1], DiskValue(cfg, s.rows), DiskValue(cfg, s.Future()));
    }
  }

  /** A restart brings back what is on disk. */
  lemma RestartRestores<T(!new)>(cfg: Config<T>, s: State<T>, op: Op<T>, s': State<T>,
                                 reply: Option<Result<T, StoreError>>)
    requires cfg.Valid() && Step(cfg, s, op, s', reply) && (op.Restart? || op.RestartInMigration?)
    requires DiskValue(cfg, s.rows).Ok?
    ensures HasValue(cfg, s')
  {
    if op.RestartInMigration? {
      MoveKeepsValue(cfg, s.rows);
    }
  }

  /**
   * The commit before any restart is exactly what a batched removal needs: of a value that
   * is on disk, and with no write or other removal in between, a later read fails if and only
   * if the batch was committed first. A restart before that brings the value back.
   */
  lemma BatchedRemoval<T(!new)>(cfg: Config<T>, states: seq<State<T>>, ops: seq<Op<T>>,
                                replies: seq<Option<Result<T, StoreError>>>, i: nat, j: nat)
    requires cfg.Valid() && Run(cfg, states, ops, replies) && i < j < |ops|
    requires ops[i] == Remove(true) && DiskValue(cfg, states[i].rows).Ok? && ops[j].Read?
    requires forall k :: i < k < j ==> !ops[k].Write? && !ops[k].Remove? && !ops[k].RestartInRemove?
    ensures replies[j] == Some(Err(KeyNotFound)) <==> CommitsFirst(ops, i, j)
  {
    if CommitsFirst(ops, i, j) {
      NothingReappears(cfg, states, ops, replies, i, j);
    } else if r :| i < r < j && IsRestart(ops[r]) {
      var first := FirstRestart(ops, i, r);
      forall k | i < k < first ensures !ops[k].Commit? {
        assert ops[k].Commit? ==> CommitsFirst(ops, i, j);
      }
      StillRemoving(cfg, states, ops, replies, i, first);
      RestartRestores(cfg, states[first], ops[first], states[first + 1], replies[first]);
      ValueStays(cfg, states, ops, replies, first + 1, j);
      var s := states[j];
      StepRefines(cfg, s, ops[j], states[j + 1], replies[j], DiskValue(cfg, s.rows), DiskValue(cfg, s.Future()));
    } else {
      forall k | i < k < j ensures !ops[k].Commit? {
        assert ops[k].Commit? ==> CommitsFirst(ops, i, j);
      }
      NoReadMeanwhile(cfg, states, ops, replies, i, j);
      assert false;
    }
  }

  // ---------- a removal that is interrupted ----------

  /** A direct removal that stops between its two deletes leaves nothing exactly when there is no legacy row. */
  lemma RemoveInterrupted<T(!new)>(cfg: Config<T>, s: State<T>, left: Result<T, StoreError>, s': State<T>,
                                   reply: Option<Result<T, StoreError>>)
    requires cfg.Valid() && Step(cfg, s, RestartInRemove(left), s', reply)
    ensures Current(cfg, s') == left
    ensures left == Err(KeyNotFound) <==> (cfg.legacy.None? || cfg.legacy.value !in s.rows)
  {
  }

  /**
   * Such a row can be there beside a live one, for an update does not migrate: of an item that
   * has its legacy row only, update it, stop in its removal, and the value before the update
   * is back.
   */
  lemma UpdateIsUncovered<T(!new)>(cfg: Config<T>, rows: Rows, before: T, f: T -> T)
    returns (s1: State<T>, s2: State<T>, s3: State<T>)
    requires cfg.Valid() && cfg.legacy.Some? && cfg.live !in rows
    requires cfg.legacy.value in rows && cfg.codec.decodeLegacy(rows[cfg.legacy.value]) == Some(before)
    ensures Step(cfg, Store(rows, [], None), Update(f, false), s1, Some(Ok(f(before))))
    ensures Step(cfg, s1, RestartInRemove(Ok(before)), s2, None)
    ensures Step(cfg, s2, Read, s3, Some(Ok(before)))
  {
    var s0 := Store(rows, [], None);
    s1 := Emit(s0, PutOps(cfg, f(before)), false, Some(f(before)));
    ApplyOne(rows, Put(cfg.live, cfg.codec.encode(f(before))));
    s2 := Store(s1.rows - {cfg.live}, [], None);
    s3 := Store(Moved(cfg, s2.rows, before), [], Some(before));
  }

  /**
   * A read that finds the legacy row only puts the value it returns under the live key, in the
   * new format, and deletes the legacy row, now and for the open batch.
   */
  lemma ReadMigrates<T(!new)>(cfg: Config<T>, s: State<T>, s': State<T>, v: T)
    requires cfg.Valid() && Step(cfg, s, Read, s', Some(Ok(v))) && Admissible(cfg, s, Read)
    requires s.cache.None? && cfg.legacy.Some? && cfg.live !in s.rows
    ensures cfg.legacy.value in s.rows && cfg.codec.decodeLegacy(s.rows[cfg.legacy.value]) == Some(v)
    ensures cfg.live in s'.rows && cfg.codec.decode(s'.rows[cfg.live]) == Some(v)
    ensures cfg.legacy.value !in s'.rows && OldBytes(cfg, s') == {} && s'.cache == Some(v)
    ensures forall k :: k != cfg.live && k != cfg.legacy.value ==> SameRow(s'.rows, s.rows, k)
  {
    assert cfg.Owns(cfg.legacy.value);
    ApplyFrame(s'.rows, s.pending, cfg.legacy.value);
  }

  /** So after such a read no interrupted removal, anywhere later in a run, leaves a value. */
  lemma CleanAfterMigration<T(!new)>(cfg: Config<T>, states: seq<State<T>>, ops: seq<Op<T>>,
                                     replies: seq<Option<Result<T, StoreError>>>, i: nat, n: nat)
    requires cfg.Valid() && Run(cfg, states, ops, replies) && i < n < |ops| && ops[n].RestartInRemove?
    requires ops[i].Read? && states[i].cache.None? && replies[i].Some? && replies[i].value.Ok?
    requires cfg.legacy.Some? && cfg.live !in states[i].rows
    ensures ops[n].left == Err(KeyNotFound)
  {
    ReadMigrates(cfg, states[i], states[i + 1], replies[i].value.value);
    CleanOnceMigrated(cfg, states, ops, replies, i + 1, n);
  }

  /** Once the legacy row is gone, in no later state of a run does an interrupted removal leave a value. */
  lemma CleanOnceMigrated<T(!new)>(cfg: Config<T>, states: seq<State<T>>, ops: seq<Op<T>>,
                                   replies: seq<Option<Result<T, StoreError>>>, i: nat, n: nat)
    requires cfg.Valid() && Run(cfg, states, ops, replies) && i <= n <= |ops| && OldBytes(cfg, states[i]) == {}
    ensures OldBytes(cfg, states[n]) == {}
    ensures n < |ops| && ops[n].RestartInRemove? ==> ops[n].left == Err(KeyNotFound)
  {
    RunKeepsOldBytes(cfg, states, ops, replies, i, n);
    if n < |ops| && ops[n].RestartInRemove? {
      LeftIsOld(cfg, states, ops, replies, i, n);
    }
  }
}

/** The class, whose methods take the steps of `ItemModel`. */
module CachedItem {
  import opened Wrappers
  import opened Database
  import opened ItemModel

  class CachedDbItem<T(!new)> {
    const db: Db
    const cfg: Config<T>
    var cachedItem: Option<T>

    ghost function At(pending: seq<BatchOp>): State<T>
      reads this, db
    {
      Store(db.rows, pending, cachedItem)
    }

    constructor (db: Db, cfg: Config<T>)
      requires cfg.Valid()
      ensures this.db == db && this.cfg == cfg && cachedItem == None
    {
      this.db := db;
      this.cfg := cfg;
      cachedItem := None;
    }

    method Read(ghost pending: seq<BatchOp>) returns (r: Result<T, StoreError>)
      requires cfg.Valid()
      modifies this, db
      ensures Step(cfg, old(At(pending)), Op.Read, At(pending), Some(r))
    {
      if cachedItem.Some? {
        return Ok(cachedItem.value);
      }
      var slice := db.Get(cfg.live);
      if slice.Some? {
        var item := cfg.codec.decode(slice.value);
        if item.None? {
          return Err(DeserializationError);
        }
        cachedItem := item;
        return Ok(item.value);
      }
      if cfg.legacy.Some? {
        slice := db.Get(cfg.legacy.value);
        if slice.Some? {
          var item := cfg.codec.decodeLegacy(slice.value);
          if item.None? {
            return Err(DeserializationError);
          }
          var bytes := cfg.codec.encode(item.value);
          db.rows := db.rows[cfg.live := bytes];
          db.rows := db.rows - {cfg.legacy.value};
          cachedItem := item;
          return Ok(item.value);
        }
      }
      return Err(KeyNotFound);
    }

    method Write(w: Writer, item: T, ghost open: seq<BatchOp>)
      requires w.Direct? ==> w.db == db
      modifies this, w.Sink()
      ensures Step(cfg, old(At(w.Pending(open))), Op.Write(item, w.Batched?), At(w.Pending(open)), None)
    {
      cachedItem := Some(item);
      w.Put(cfg.live, cfg.codec.encode(item));
    }

    method Remove(w: Writer, ghost open: seq<BatchOp>)
      requires w.Direct? ==> w.db == db
      modifies this, w.Sink()
      ensures Step(cfg, old(At(w.Pending(open))), Op.Remove(w.Batched?), At(w.Pending(open)), None)
    {
      cachedItem := None;
      w.Delete(cfg.live);
      if cfg.legacy.Some? {
        w.Delete(cfg.legacy.value);
        if w.Direct? {
          ApplyAppend(old(db.rows), [Delete(cfg.live)], [Delete(cfg.legacy.value)]);
        }
      }
    }

    method Update(w: Writer, op: T -> T, ghost open: seq<BatchOp>) returns (r: Result<T, StoreError>)
      requires cfg.Valid() && (w.Direct? ==> w.db == db)
      modifies this, w.Sink()
      ensures Step(cfg, old(At(w.Pending(open))), Op.Update(op, w.Batched?), At(w.Pending(open)), Some(r))
    {
      var item := cachedItem;
      cachedItem := None;
      if item.None? {
        var slice := db.Get(cfg.live);
        if slice.Some? {
          item := cfg.codec.decode(slice.value);
        } else if cfg.legacy.Some? {
          slice := db.Get(cfg.legacy.value);
          if slice.Some? {
            item := cfg.codec.decodeLegacy(slice.value);
          }
        }
        if slice.None? {
          return Err(KeyNotFound);
        }
        if item.None? {
          return Err(DeserializationError);
        }
      }
      var next := op(item.value);
      cachedItem := Some(next);
      w.Put(cfg.live, cfg.codec.encode(next));
      r := Ok(next);
    }
  }
}
