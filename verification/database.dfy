/** RocksDB as an ordered map of byte strings, write batches, and direct or batched writers. */
module Database {
  import opened Wrappers
  import opened Bytes

  type Rows = map<Bytes, Bytes>

  datatype BatchOp =
    | Put(key: Bytes, value: Bytes)
    | Delete(key: Bytes)
    | DeleteRange(from: Bytes, to: Bytes)

  function ApplyOp(rows: Rows, op: BatchOp): Rows {
    match op
    case Put(k, v) => rows[k := v]
    case Delete(k) => rows - {k}
    case DeleteRange(from, to) => map k | k in rows && !InRange(k, from, to) :: rows[k]
  }

  /** A batch takes effect in the order in which it was filled. */
  function Apply(rows: Rows, ops: seq<BatchOp>): Rows
    decreases ops
  {
    if ops == [] then rows else Apply(ApplyOp(rows, ops[0]), ops[1..])
  }

  lemma ApplyOne(rows: Rows, op: BatchOp)
    ensures Apply(rows, [op]) == ApplyOp(rows, op)
  {
    assert [op][1..] == [];
  }

  lemma {:induction false} ApplyAppend(rows: Rows, a: seq<BatchOp>, b: seq<BatchOp>)
    ensures Apply(rows, a + b) == Apply(Apply(rows, a), b)
    decreases a
  {
    if a == [] {
      assert a + b == b;
    } else {
      assert (a + b)[1..] == a[1..] + b;
      ApplyAppend(ApplyOp(rows, a[0]), a[1..], b);
    }
  }

  predicate Touches(op: BatchOp, k: Bytes) {
    match op
    case Put(k', _) => k == k'
    case Delete(k') => k == k'
    case DeleteRange(from, to) => InRange(k, from, to)
  }

  ghost predicate TouchedBy(ops: seq<BatchOp>, k: Bytes) {
    exists op :: op in ops && Touches(op, k)
  }

  ghost predicate SameRow(a: Rows, b: Rows, k: Bytes) {
    (k in a <==> k in b) && (k in a ==> a[k] == b[k])
  }

  /** A row that no operation of a batch touches is as it was. */
  lemma {:induction false} ApplyFrame(rows: Rows, ops: seq<BatchOp>, k: Bytes)
    requires !TouchedBy(ops, k)
    ensures SameRow(Apply(rows, ops), rows, k)
    decreases ops
  {
    if ops != [] {
      assert ops[0] in ops && forall op :: op in ops[1..] ==> op in ops;
      ApplyFrame(ApplyOp(rows, ops[0]), ops[1..], k);
    }
  }

  /** What a batch makes of a row depends on that row only. */
  lemma {:induction false} ApplyLocal(a: Rows, b: Rows, ops: seq<BatchOp>, k: Bytes)
    requires SameRow(a, b, k)
    ensures SameRow(Apply(a, ops), Apply(b, ops), k)
    decreases ops
  {
    if ops != [] {
      ApplyLocal(ApplyOp(a, ops[0]), ApplyOp(b, ops[0]), ops[1..], k);
    }
  }

  /** No row is touched by both. */
  ghost predicate Independent(a: seq<BatchOp>, b: seq<BatchOp>) {
    forall k :: !(TouchedBy(a, k) && TouchedBy(b, k))
  }

  /** Independent lists of operations may be applied in either order. */
  lemma ApplyCommutes(rows: Rows, a: seq<BatchOp>, b: seq<BatchOp>)
    requires Independent(a, b)
    ensures Apply(Apply(rows, a), b) == Apply(Apply(rows, b), a)
  {
    var ab, ba := Apply(Apply(rows, a), b), Apply(Apply(rows, b), a);
    forall k ensures SameRow(ab, ba, k) {
      if !TouchedBy(a, k) {
        ApplyFrame(rows, a, k);
        ApplyLocal(Apply(rows, a), rows, b, k);
        ApplyFrame(Apply(rows, b), a, k);
      } else {
        ApplyFrame(rows, b, k);
        ApplyLocal(Apply(rows, b), rows, a, k);
        ApplyFrame(Apply(rows, a), b, k);
      }
    }
    SameRows(ab, ba);
  }

  lemma SameRows(a: Rows, b: Rows)
    requires forall k :: SameRow(a, b, k)
    ensures a == b
  {
    forall k ensures k in a <==> k in b {
      assert SameRow(a, b, k);
    }
    forall k | k in a ensures a[k] == b[k] {
      assert SameRow(a, b, k);
    }
  }

  /** A store: the rows, the operations of a batch that is open, and whatever the store caches. */
  datatype Store<+C> = Store(rows: Rows, pending: seq<BatchOp>, cache: C)
  {
    /** The rows once the open batch is committed. */
    function Future(): Rows {
      Apply(rows, pending)
    }
  }

  /** A write, into the batch or past it. */
  function Emit<C>(s: Store<C>, ops: seq<BatchOp>, batched: bool, cache: C): Store<C> {
    if batched then Store(s.rows, s.pending + ops, cache) else Store(Apply(s.rows, ops), s.pending, cache)
  }

  /** A write past an open batch that touches none of its rows might as well have gone into it. */
  lemma EmitFuture<C>(s: Store<C>, ops: seq<BatchOp>, batched: bool, cache: C)
    requires batched || Independent(ops, s.pending)
    ensures Emit(s, ops, batched, cache).Future() == Apply(s.Future(), ops)
  {
    if batched {
      ApplyAppend(s.rows, s.pending, ops);
    } else {
      ApplyCommutes(s.rows, ops, s.pending);
    }
  }

  /** A row that a write leaves alone is the same after it, now and once the batch is committed. */
  lemma EmitFrame<C>(s: Store<C>, ops: seq<BatchOp>, batched: bool, cache: C, k: Bytes)
    requires !TouchedBy(ops, k)
    ensures SameRow(Emit(s, ops, batched, cache).rows, s.rows, k)
    ensures SameRow(Emit(s, ops, batched, cache).Future(), s.Future(), k)
  {
    if batched {
      ApplyAppend(s.rows, s.pending, ops);
      ApplyFrame(s.Future(), ops, k);
    } else {
      ApplyFrame(s.rows, ops, k);
      ApplyLocal(Apply(s.rows, ops), s.rows, s.pending, k);
    }
  }

  class Db {
    var rows: Rows

    constructor (rows: Rows)
      ensures this.rows == rows
    {
      this.rows := rows;
    }

    method Get(key: Bytes) returns (value: Option<Bytes>)
      ensures value == if key in rows then Some(rows[key]) else None
    {
      value := if key in rows then Some(rows[key]) else None;
    }

    method Write(batch: WriteBatch)
      modifies this
      ensures rows == Apply(old(rows), batch.ops)
    {
      var ops := batch.ops;
      var i := 0;
      while i < |ops|
        invariant 0 <= i <= |ops|
        invariant Apply(old(rows), ops) == Apply(rows, ops[i..])
      {
        rows := ApplyOp(rows, ops[i]);
        i := i + 1;
      }
    }
  }

  class WriteBatch {
    var ops: seq<BatchOp>

    constructor ()
      ensures ops == []
    {
      ops := [];
    }
  }

  /** `DbWriter`: the same three calls, applied at once or recorded for a later commit. */
  datatype Writer = Direct(db: Db) | Batched(batch: WriteBatch) {

    ghost function Sink(): set<object> {
      match this
      case Direct(db) => {db}
      case Batched(batch) => {batch}
    }

    /** The open batch: the writer's own, or for a direct writer one that is open elsewhere. */
    ghost function Pending(open: seq<BatchOp>): seq<BatchOp>
      reads Sink()
    {
      match this
      case Direct(_) => open
      case Batched(batch) => batch.ops
    }

    twostate predicate Emitted(ops: seq<BatchOp>)
      reads Sink()
    {
      match this
      case Direct(db) => db.rows == Apply(old(db.rows), ops)
      case Batched(batch) => batch.ops == old(batch.ops) + ops
    }

    method Put(key: Bytes, value: Bytes)
      modifies Sink()
      ensures Emitted([BatchOp.Put(key, value)])
    {
      match this
      case Direct(db) => db.rows := db.rows[key := value];
      case Batched(batch) => batch.ops := batch.ops + [BatchOp.Put(key, value)];
    }

    method Delete(key: Bytes)
      modifies Sink()
      ensures Emitted([BatchOp.Delete(key)])
    {
      match this
      case Direct(db) => db.rows := db.rows - {key};
      case Batched(batch) => batch.ops := batch.ops + [BatchOp.Delete(key)];
    }

    method DeleteRange(from: Bytes, to: Bytes)
      modifies Sink()
      ensures Emitted([BatchOp.DeleteRange(from, to)])
    {
      match this {
        case Direct(db) =>
          var batch := new WriteBatch();
          batch.ops := [BatchOp.DeleteRange(from, to)];
          db.Write(batch);
        case Batched(batch) =>
          batch.ops := batch.ops + [BatchOp.DeleteRange(from, to)];
      }
    }
  }
}
