/**
 * Set stores: the elements of a key's set are rows under the key's bucket, and a cached
 * set must be exactly what a scan of the bucket would collect.
 */
module SetModel {
  import opened Wrappers
  import opened Bytes
  import opened Database
  import opened Caching
  import opened Keys
  import opened Codecs

  datatype Config<!T(!new)> = Config(prefix: Bytes, keyLen: nat, codec: Codec<T>)
  {
    ghost predicate Valid() {
      NextPrefix(prefix).Some? && codec.Lossless()
    }

    function Bucket(k: Bytes): DbKey {
      NewWithBucket(prefix, k, [])
    }

    /** `get_db_key` */
    function RowKey(k: Bytes, d: T): Bytes {
      NewWithBucket(prefix, k, codec.encode(d)).path
    }
  }

  ghost predicate WellFormedRow<T(!new)>(cfg: Config<T>, r: Bytes) {
    var n := |cfg.prefix| + cfg.keyLen;
    n <= |r| && cfg.codec.decode(r[n..]).Some? && cfg.codec.encode(cfg.codec.decode(r[n..]).value) == r[n..]
  }

  /** Every row under the store's prefix was written for some key and element. */
  ghost predicate WellFormed<T(!new)>(cfg: Config<T>, rows: Rows) {
    forall r :: r in rows && cfg.prefix <= r ==> WellFormedRow(cfg, r)
  }

  /** What the bucket iterator yields for a row: the bytes after the bucket's prefix length, decoded. */
  function Element<T(!new)>(cfg: Config<T>, k: Bytes, r: Bytes): Option<T>
    requires cfg.Bucket(k).path <= r
  {
    cfg.codec.decode(r[cfg.Bucket(k).prefixLen..])
  }

  ghost function BucketRows(rows: Rows, path: Bytes): set<Bytes> {
    set r | r in rows && path <= r
  }

  /** A scan of the bucket, collected into a set; one bad row fails it. */
  ghost function DiskSet<T(!new)>(cfg: Config<T>, rows: Rows, k: Bytes): Result<set<T>, StoreError> {
    var found := BucketRows(rows, cfg.Bucket(k).path);
    if forall r :: r in found ==> Element(cfg, k, r).Some? then Ok(set r | r in found :: Element(cfg, k, r).value)
    else Err(DeserializationError)
  }

  // ---------- rows and elements ----------

  lemma RowKeyParts<T(!new)>(cfg: Config<T>, k: Bytes, d: T)
    requires |k| == cfg.keyLen
    ensures cfg.RowKey(k, d) == cfg.prefix + k + cfg.codec.encode(d)
    ensures cfg.Bucket(k).path == cfg.prefix + k && cfg.Bucket(k).prefixLen == |cfg.prefix| + cfg.keyLen
    ensures cfg.RowKey(k, d)[|cfg.prefix| + cfg.keyLen..] == cfg.codec.encode(d)
  {
  }

  /** Buckets of different keys never share a row, and different elements have different rows. */
  lemma RowKeyInjective<T(!new)>(cfg: Config<T>, k: Bytes, d: T, k': Bytes, d': T)
    requires cfg.codec.Lossless() && |k| == |k'| == cfg.keyLen
    ensures cfg.RowKey(k, d) == cfg.RowKey(k', d') <==> k == k' && d == d'
    ensures cfg.Bucket(k).path <= cfg.RowKey(k', d') <==> k == k'
  {
    RowKeyParts(cfg, k, d);
    RowKeyParts(cfg, k', d');
    var p, n := |cfg.prefix|, |cfg.prefix| + cfg.keyLen;
    var r, r' := cfg.RowKey(k, d), cfg.RowKey(k', d');
    assert r[p..n] == k && r'[p..n] == k';
    if r == r' {
      assert cfg.codec.decode(cfg.codec.encode(d)) == Some(d);
      assert cfg.codec.decode(cfg.codec.encode(d')) == Some(d');
    }
    if cfg.Bucket(k).path <= r' {
      assert r'[..n] == cfg.prefix + k;
      assert r'[..n][p..] == k;
    }
  }

  /** An element is in the set that a scan collects exactly when its row is there. */
  lemma DiskSetMember<T(!new)>(cfg: Config<T>, rows: Rows, k: Bytes, d: T)
    requires cfg.Valid() && WellFormed(cfg, rows) && |k| == cfg.keyLen
    ensures DiskSet(cfg, rows, k).Ok?
    ensures d in DiskSet(cfg, rows, k).value <==> cfg.RowKey(k, d) in rows
  {
    var path, n := cfg.Bucket(k).path, |cfg.prefix| + cfg.keyLen;
    RowKeyParts(cfg, k, d);
    forall r | r in rows && path <= r
      ensures Element(cfg, k, r).Some? && r == cfg.RowKey(k, Element(cfg, k, r).value)
    {
      assert cfg.prefix <= path;
      RowKeyParts(cfg, k, Element(cfg, k, r).value);
      assert r == r[..n] + r[n..] && r[..n] == path;
    }
    if cfg.RowKey(k, d) in rows {
      var r := cfg.RowKey(k, d);
      assert r in BucketRows(rows, path) && Element(cfg, k, r) == Some(d);
    }
  }

  lemma BucketRange<T(!new)>(cfg: Config<T>, k: Bytes)
    requires cfg.Valid()
    ensures NextPrefix(cfg.Bucket(k).path).Some?
  {
    NextPrefixExists(cfg.prefix);
    var i :| 0 <= i < |cfg.prefix| && cfg.prefix[i] < 255;
    assert cfg.Bucket(k).path[i] == cfg.prefix[i];
    NextPrefixExists(cfg.Bucket(k).path);
  }

  // ---------- mutations ----------

  datatype Mutation<T> =
    | Add(key: Bytes, data: T)
    | Drop(key: Bytes, data: T)
    | DropBucket(key: Bytes)

  function Physical<T(!new)>(cfg: Config<T>, mut: Mutation<T>): seq<BatchOp> {
    match mut
    case Add(k, d) => [Put(cfg.RowKey(k, d), [])]
    case Drop(k, d) => [Delete(cfg.RowKey(k, d))]
    case DropBucket(k) =>
      match NextPrefix(cfg.Bucket(k).path)
      case Some(to) => [DeleteRange(cfg.Bucket(k).path, to)]
      case None => []
  }

  function PhysicalAll<T(!new)>(cfg: Config<T>, muts: seq<Mutation<T>>): seq<BatchOp> {
    if muts == [] then [] else PhysicalAll(cfg, muts[..|muts| - 1]) + Physical(cfg, muts[|muts| - 1])
  }

  /** The effect of a mutation on one set. */
  function Change<T(==)>(s: set<T>, mut: Mutation<T>): set<T> {
    match mut
    case Add(_, d) => s + {d}
    case Drop(_, d) => s - {d}
    case DropBucket(_) => {}
  }

  /** On the cache: a set that is not cached is not made, and a dropped bucket is forgotten. */
  function Cached<T(==)>(c: map<Bytes, set<T>>, mut: Mutation<T>): map<Bytes, set<T>> {
    if mut.DropBucket? then c - {mut.key}
    else if mut.key in c then c[mut.key := Change(c[mut.key], mut)]
    else c
  }

  function CachedAll<T(==)>(c: map<Bytes, set<T>>, muts: seq<Mutation<T>>): map<Bytes, set<T>> {
    if muts == [] then c else Cached(CachedAll(c, muts[..|muts| - 1]), muts[|muts| - 1])
  }

  /** The specification: a set for every key, empty unless told otherwise. */
  function SetOf<T>(m: map<Bytes, set<T>>, k: Bytes): set<T> {
    if k in m then m[k] else {}
  }

  function Spec<T(==)>(m: map<Bytes, set<T>>, mut: Mutation<T>): map<Bytes, set<T>> {
    m[mut.key := Change(SetOf(m, mut.key), mut)]
  }

  function SpecAll<T(==)>(m: map<Bytes, set<T>>, muts: seq<Mutation<T>>): map<Bytes, set<T>> {
    if muts == [] then m else Spec(SpecAll(m, muts[..|muts| - 1]), muts[|muts| - 1])
  }

  ghost predicate Represents<T(!new)>(cfg: Config<T>, rows: Rows, m: map<Bytes, set<T>>) {
    && WellFormed(cfg, rows)
    && forall k :: |k| == cfg.keyLen ==> DiskSet(cfg, rows, k) == Ok(SetOf(m, k))
  }

  /** Deleting a bucket removes the rows that start with its path, and no others. */
  lemma DropBucketExact<T(!new)>(cfg: Config<T>, rows: Rows, k: Bytes)
    requires cfg.Valid()
    ensures Apply(rows, Physical(cfg, DropBucket(k))) == map r | r in rows && !(cfg.Bucket(k).path <= r) :: rows[r]
  {
    var path := cfg.Bucket(k).path;
    BucketRange(cfg, k);
    ApplyOne(rows, DeleteRange(path, NextPrefix(path).value));
    forall r | r in rows ensures InRange(r, path, NextPrefix(path).value) <==> path <= r {
      PrefixRangeExact(path, r);
    }
  }

  lemma MutationRows<T(!new)>(cfg: Config<T>, rows: Rows, mut: Mutation<T>, k: Bytes, d: T)
    requires cfg.Valid() && WellFormed(cfg, rows) && |mut.key| == |k| == cfg.keyLen
    ensures WellFormed(cfg, Apply(rows, Physical(cfg, mut)))
    ensures cfg.RowKey(k, d) in Apply(rows, Physical(cfg, mut)) <==>
            if k == mut.key then d in Change(DiskSet(cfg, rows, k).value, mut) else cfg.RowKey(k, d) in rows
  {
    DiskSetMember(cfg, rows, k, d);
    match mut {
      case Add(k', d') =>
        ApplyOne(rows, Put(cfg.RowKey(k', d'), []));
        RowKeyParts(cfg, k', d');
        RowKeyInjective(cfg, k, d, k', d');
      case Drop(k', d') =>
        ApplyOne(rows, Delete(cfg.RowKey(k', d')));
        RowKeyInjective(cfg, k, d, k', d');
      case DropBucket(k') =>
        DropBucketExact(cfg, rows, k');
        RowKeyInjective(cfg, k', d, k, d);
    }
  }

  lemma MutationCommutes<T(!new)>(cfg: Config<T>, rows: Rows, m: map<Bytes, set<T>>, mut: Mutation<T>)
    requires cfg.Valid() && Represents(cfg, rows, m) && |mut.key| == cfg.keyLen
    ensures Represents(cfg, Apply(rows, Physical(cfg, mut)), Spec(m, mut))
  {
    var rows' := Apply(rows, Physical(cfg, mut));
    assert WellFormed(cfg, rows') by {
      if !mut.DropBucket? {
        MutationRows(cfg, rows, mut, mut.key, mut.data);
      } else {
        DropBucketExact(cfg, rows, mut.key);
      }
    }
    forall k | |k| == cfg.keyLen ensures DiskSet(cfg, rows', k) == Ok(SetOf(Spec(m, mut), k)) {
      assert DiskSet(cfg, rows, k) == Ok(SetOf(m, k));
      forall d ensures DiskSet(cfg, rows', k).Ok? &&
                       (d in DiskSet(cfg, rows', k).value <==> d in SetOf(Spec(m, mut), k)) {
        DiskSetMember(cfg, rows', k, d);
        DiskSetMember(cfg, rows, k, d);
        MutationRows(cfg, rows, mut, k, d);
      }
      DiskSetOk(cfg, rows', k);
      assert DiskSet(cfg, rows', k).value == SetOf(Spec(m, mut), k);
    }
  }

  lemma DiskSetOk<T(!new)>(cfg: Config<T>, rows: Rows, k: Bytes)
    requires WellFormed(cfg, rows) && |k| == cfg.keyLen
    ensures DiskSet(cfg, rows, k).Ok?
  {
    var path := cfg.Bucket(k).path;
    assert cfg.prefix <= path && cfg.Bucket(k).prefixLen == |cfg.prefix| + cfg.keyLen;
  }

  lemma {:induction false} MutationsCommute<T(!new)>(cfg: Config<T>, rows: Rows, m: map<Bytes, set<T>>,
                                                     muts: seq<Mutation<T>>)
    requires cfg.Valid() && Represents(cfg, rows, m) && forall mut :: mut in muts ==> |mut.key| == cfg.keyLen
    ensures Represents(cfg, Apply(rows, PhysicalAll(cfg, muts)), SpecAll(m, muts))
  {
    var n := |muts|;
    if n > 0 {
      MutationsCommute(cfg, rows, m, muts[..n - 1]);
      MutationCommutes(cfg, Apply(rows, PhysicalAll(cfg, muts[..n - 1])), SpecAll(m, muts[..n - 1]), muts[n - 1]);
      ApplyAppend(rows, PhysicalAll(cfg, muts[..n - 1]), Physical(cfg, muts[n - 1]));
    }
  }

  // ---------- the store as a state machine ----------

  type State<T> = Store<map<Bytes, set<T>>>

  datatype Op<T> =
    | Read(key: Bytes)
    | Mutate(muts: seq<Mutation<T>>, batched: bool)
    | Foreign(ops: seq<BatchOp>, batched: bool)
    | Commit

  ghost predicate Step<T(!new)>(cfg: Config<T>, s: State<T>, op: Op<T>, s': State<T>, reply: Result<set<T>, StoreError>)
  {
    match op
    case Read(k) =>
      if k in s.cache then s' == s && reply == Ok(s.cache[k])
      else
        && reply == DiskSet(cfg, s.rows, k)
        && s' == s.(cache := s'.cache)
        && if reply.Ok? then SubMap(s'.cache, s.cache[k := reply.value]) else s'.cache == s.cache
    case Mutate(muts, batched) =>
      && s' == Emit(s, PhysicalAll(cfg, muts), batched, s'.cache)
      && SubMap(s'.cache, CachedAll(s.cache, muts))
    case Foreign(ops, batched) =>
      s' == Emit(s, ops, batched, s.cache) && forall r :: cfg.prefix <= r ==> !TouchedBy(ops, r)
    case Commit =>
      s' == Store(s.Future(), [], s.cache)
  }

  ghost predicate Staged<T(!new)>(cfg: Config<T>, pending: seq<BatchOp>, k: Bytes) {
    exists r :: cfg.Bucket(k).path <= r && TouchedBy(pending, r)
  }

  /**
   * What callers owe the store: keys of the one length, no direct write to a row that an
   * open batch touches too, and no scan of a bucket that an open batch is about to change.
   */
  ghost predicate Admissible<T(!new)>(cfg: Config<T>, s: State<T>, op: Op<T>) {
    match op
    case Read(k) => |k| == cfg.keyLen && (k in s.cache || !Staged(cfg, s.pending, k))
    case Mutate(muts, batched) =>
      && (forall mut :: mut in muts ==> |mut.key| == cfg.keyLen)
      && (batched || Independent(PhysicalAll(cfg, muts), s.pending))
    case Foreign(_, _) => true
    case Commit => true
  }

  /** Cached sets are the sets that the rows will hold. */
  ghost predicate Inv<T(!new)>(cfg: Config<T>, s: State<T>, d: map<Bytes, set<T>>, m: map<Bytes, set<T>>) {
    && Represents(cfg, s.rows, d)
    && Represents(cfg, s.Future(), m)
    && forall k :: k in s.cache ==> |k| == cfg.keyLen && s.cache[k] == SetOf(m, k)
  }

  function SpecStep<T(==)>(m: map<Bytes, set<T>>, op: Op<T>): map<Bytes, set<T>> {
    if op.Mutate? then SpecAll(m, op.muts) else m
  }

  function SpecCommitted<T(==)>(d: map<Bytes, set<T>>, m: map<Bytes, set<T>>, op: Op<T>): map<Bytes, set<T>> {
    match op
    case Mutate(muts, batched) => if batched then d else SpecAll(d, muts)
    case Commit => m
    case _ => d
  }

  lemma {:induction false} CachedMatches<T>(c: map<Bytes, set<T>>, m: map<Bytes, set<T>>, muts: seq<Mutation<T>>,
                                            k: Bytes)
    requires forall k :: k in c ==> c[k] == SetOf(m, k)
    ensures k in CachedAll(c, muts) ==> k in c && CachedAll(c, muts)[k] == SetOf(SpecAll(m, muts), k)
  {
    var n := |muts|;
    if n > 0 {
      CachedMatches(c, m, muts[..n - 1], k);
      CachedMatches(c, m, muts[..n - 1], muts[n - 1].key);
    }
  }

  lemma DiskSetFrame<T(!new)>(cfg: Config<T>, rows: Rows, rows': Rows, k: Bytes)
    requires forall r :: cfg.Bucket(k).path <= r ==> SameRow(rows', rows, r)
    ensures DiskSet(cfg, rows', k) == DiskSet(cfg, rows, k)
  {
    var path := cfg.Bucket(k).path;
    forall r: Bytes ensures r in BucketRows(rows, path) <==> r in BucketRows(rows', path) {
      if path <= r {
        assert SameRow(rows', rows, r);
      }
    }
    assert BucketRows(rows, path) == BucketRows(rows', path);
  }

  lemma UnstagedSet<T(!new)>(cfg: Config<T>, rows: Rows, ops: seq<BatchOp>, k: Bytes)
    requires !Staged(cfg, ops, k)
    ensures DiskSet(cfg, Apply(rows, ops), k) == DiskSet(cfg, rows, k)
  {
    forall r | cfg.Bucket(k).path <= r ensures SameRow(Apply(rows, ops), rows, r) {
      ApplyFrame(rows, ops, r);
    }
    DiskSetFrame(cfg, rows, Apply(rows, ops), k);
  }

  /** What the rows stand for depends on the rows under the prefix only. */
  lemma RepresentsFrame<T(!new)>(cfg: Config<T>, rows: Rows, rows': Rows, m: map<Bytes, set<T>>)
    requires Represents(cfg, rows, m) && forall r :: cfg.prefix <= r ==> SameRow(rows', rows, r)
    ensures Represents(cfg, rows', m)
  {
    forall r | r in rows' && cfg.prefix <= r ensures r in rows {
      assert SameRow(rows', rows, r);
    }
    forall k | |k| == cfg.keyLen ensures DiskSet(cfg, rows', k) == Ok(SetOf(m, k)) {
      assert DiskSet(cfg, rows, k) == Ok(SetOf(m, k));
      assert cfg.prefix <= cfg.Bucket(k).path;
      DiskSetFrame(cfg, rows, rows', k);
    }
  }

  lemma ReadKeepsInv<T(!new)>(cfg: Config<T>, s: State<T>, k: Bytes, s': State<T>, reply: Result<set<T>, StoreError>,
                              d: map<Bytes, set<T>>, m: map<Bytes, set<T>>)
    requires Inv(cfg, s, d, m)
    requires Step(cfg, s, Read(k), s', reply) && Admissible(cfg, s, Read(k))
    ensures reply == Ok(SetOf(m, k)) && Inv(cfg, s', d, m)
  {
    assert DiskSet(cfg, s.Future(), k) == Ok(SetOf(m, k));
    if k !in s.cache {
      UnstagedSet(cfg, s.rows, s.pending, k);
    }
  }

  lemma MutateKeepsInv<T(!new)>(cfg: Config<T>, s: State<T>, muts: seq<Mutation<T>>, batched: bool, s': State<T>,
                                d: map<Bytes, set<T>>, m: map<Bytes, set<T>>)
    requires cfg.Valid() && Inv(cfg, s, d, m) && Admissible(cfg, s, Mutate(muts, batched))
    requires s' == Emit(s, PhysicalAll(cfg, muts), batched, s'.cache) && SubMap(s'.cache, CachedAll(s.cache, muts))
    ensures Inv(cfg, s', if batched then d else SpecAll(d, muts), SpecAll(m, muts))
  {
    EmitFuture(s, PhysicalAll(cfg, muts), batched, s'.cache);
    MutationsCommute(cfg, s.Future(), m, muts);
    if !batched {
      MutationsCommute(cfg, s.rows, d, muts);
    }
    forall k | k in s'.cache ensures |k| == cfg.keyLen && s'.cache[k] == SetOf(SpecAll(m, muts), k) {
      CachedMatches(s.cache, m, muts, k);
    }
  }

  /** Other stores' writes, into this batch, into others or past all of them, change nothing here. */
  lemma ForeignKeepsInv<T(!new)>(cfg: Config<T>, s: State<T>, ops: seq<BatchOp>, batched: bool,
                                 d: map<Bytes, set<T>>, m: map<Bytes, set<T>>)
    requires Inv(cfg, s, d, m) && forall r :: cfg.prefix <= r ==> !TouchedBy(ops, r)
    ensures Inv(cfg, Emit(s, ops, batched, s.cache), d, m)
  {
    var s' := Emit(s, ops, batched, s.cache);
    forall r | cfg.prefix <= r ensures SameRow(s'.rows, s.rows, r) && SameRow(s'.Future(), s.Future(), r) {
      EmitFrame(s, ops, batched, s.cache, r);
    }
    RepresentsFrame(cfg, s.rows, s'.rows, d);
    RepresentsFrame(cfg, s.Future(), s'.Future(), m);
  }

  lemma StepRefines<T(!new)>(cfg: Config<T>, s: State<T>, op: Op<T>, s': State<T>, reply: Result<set<T>, StoreError>,
                             d: map<Bytes, set<T>>, m: map<Bytes, set<T>>)
    requires cfg.Valid() && Inv(cfg, s, d, m)
    requires Step(cfg, s, op, s', reply) && Admissible(cfg, s, op)
    ensures op.Read? ==> reply == Ok(SetOf(m, op.key))
    ensures Inv(cfg, s', SpecCommitted(d, m, op), SpecStep(m, op))
  {
    match op {
      case Read(k) => ReadKeepsInv(cfg, s, k, s', reply, d, m);
      case Mutate(muts, batched) => MutateKeepsInv(cfg, s, muts, batched, s', d, m);
      case Foreign(ops, batched) => ForeignKeepsInv(cfg, s, ops, batched, d, m);
      case Commit =>
    }
  }

  ghost predicate StandsFor<T(!new)>(cfg: Config<T>, s: State<T>, m: map<Bytes, set<T>>) {
    exists d :: Inv(cfg, s, d, m)
  }

  lemma StepStands<T(!new)>(cfg: Config<T>, s: State<T>, op: Op<T>, s': State<T>, reply: Result<set<T>, StoreError>,
                                m: map<Bytes, set<T>>)
    requires cfg.Valid() && StandsFor(cfg, s, m)
    requires Step(cfg, s, op, s', reply) && Admissible(cfg, s, op)
    ensures op.Read? ==> reply == Ok(SetOf(m, op.key))
    ensures StandsFor(cfg, s', SpecStep(m, op))
  {
    var d :| Inv(cfg, s, d, m);
    StepRefines(cfg, s, op, s', reply, d, m);
  }

  ghost predicate Run<T(!new)>(cfg: Config<T>, states: seq<State<T>>, ops: seq<Op<T>>,
                               replies: seq<Result<set<T>, StoreError>>)
  {
    && |states| == |ops| + 1 && |replies| == |ops|
    && forall i :: 0 <= i < |ops| ==>
         Step(cfg, states[i], ops[i], states[i + 1], replies[i]) && Admissible(cfg, states[i], ops[i])
  }

  function SpecRun<T(==)>(m: map<Bytes, set<T>>, ops: seq<Op<T>>): map<Bytes, set<T>> {
    if ops == [] then m else SpecStep(SpecRun(m, ops[..|ops| - 1]), ops[|ops| - 1])
  }

  lemma SpecPrefix<T>(m: map<Bytes, set<T>>, ops: seq<Op<T>>, n: nat)
    requires 0 < n <= |ops|
    ensures SpecRun(m, ops[..n]) == SpecStep(SpecRun(m, ops[..n - 1]), ops[n - 1])
  {
    assert ops[..n][..n - 1] == ops[..n - 1];
  }

  lemma {:induction false} RunStands<T(!new)>(cfg: Config<T>, states: seq<State<T>>, ops: seq<Op<T>>,
                                              replies: seq<Result<set<T>, StoreError>>, m: map<Bytes, set<T>>, n: nat)
    requires cfg.Valid() && Run(cfg, states, ops, replies) && StandsFor(cfg, states[0], m) && n <= |ops|
    ensures StandsFor(cfg, states[n], SpecRun(m, ops[..n]))
  {
    if n > 0 {
      RunStands(cfg, states, ops, replies, m, n - 1);
      StepStands(cfg, states[n - 1], ops[n - 1], states[n], replies[n - 1], SpecRun(m, ops[..n - 1]));
      SpecPrefix(m, ops, n);
    }
  }

  /** Over every run and every eviction each read returns the key's set, and cached sets stay right. */
  lemma RunRefines<T(!new)>(cfg: Config<T>, states: seq<State<T>>, ops: seq<Op<T>>,
                            replies: seq<Result<set<T>, StoreError>>, m: map<Bytes, set<T>>)
    requires cfg.Valid() && Run(cfg, states, ops, replies) && StandsFor(cfg, states[0], m)
    ensures forall i :: 0 <= i < |ops| && ops[i].Read? ==> replies[i] == Ok(SetOf(SpecRun(m, ops[..i]), ops[i].key))
    ensures StandsFor(cfg, states[|ops|], SpecRun(m, ops))
  {
    forall i | 0 <= i < |ops| && ops[i].Read? ensures replies[i] == Ok(SetOf(SpecRun(m, ops[..i]), ops[i].key)) {
      RunStands(cfg, states, ops, replies, m, i);
      StepStands(cfg, states[i], ops[i], states[i + 1], replies[i], SpecRun(m, ops[..i]));
    }
    RunStands(cfg, states, ops, replies, m, |ops|);
    assert ops[..|ops|] == ops;
  }

  /** Every cached set that no open batch bears on is exactly what a scan of its bucket would collect. */
  lemma CachedSetsMatchDisk<T(!new)>(cfg: Config<T>, states: seq<State<T>>, ops: seq<Op<T>>,
                                     replies: seq<Result<set<T>, StoreError>>, m: map<Bytes, set<T>>, n: nat, k: Bytes)
    requires cfg.Valid() && Run(cfg, states, ops, replies) && StandsFor(cfg, states[0], m) && n <= |ops|
    requires k in states[n].cache && !Staged(cfg, states[n].pending, k)
    ensures DiskSet(cfg, states[n].rows, k) == Ok(states[n].cache[k])
  {
    RunStands(cfg, states, ops, replies, m, n);
    UnstagedSet(cfg, states[n].rows, states[n].pending, k);
  }
}
