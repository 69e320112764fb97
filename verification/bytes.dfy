/** Byte strings in RocksDB's key order, and the half-open range that a prefix scan covers. */
module Bytes {
  import opened Wrappers

  type byte = x: int | 0 <= x < 256
  type Bytes = seq<byte>

  /** Strict lexicographic order, the order of the keys in the database. */
  predicate LexLt(a: Bytes, b: Bytes) {
    b != [] && (a == [] || a[0] < b[0] || (a[0] == b[0] && LexLt(a[1..], b[1..])))
  }

  lemma {:induction false} LexTotal(a: Bytes, b: Bytes)
    ensures a == b || LexLt(a, b) || LexLt(b, a)
  {
    if a != [] && b != [] && a[0] == b[0] {
      LexTotal(a[1..], b[1..]);
      assert a == [a[0]] + a[1..] && b == [b[0]] + b[1..];
    }
  }

  lemma {:induction false} LexTransitive(a: Bytes, b: Bytes, c: Bytes)
    requires LexLt(a, b) && LexLt(b, c)
    ensures LexLt(a, c)
  {
    if a != [] && a[0] == b[0] == c[0] {
      LexTransitive(a[1..], b[1..], c[1..]);
    }
  }

  lemma {:induction false} LexIrreflexive(a: Bytes)
    ensures !LexLt(a, a)
  {
    if a != [] {
      LexIrreflexive(a[1..]);
    }
  }

  /** A proper prefix sorts before every extension of it. */
  lemma {:induction false} PrefixFirst(p: Bytes, k: Bytes)
    requires p < k
    ensures LexLt(p, k)
  {
    if p != [] {
      PrefixFirst(p[1..], k[1..]);
    }
  }

  /**
   * The exclusive upper bound that `PrefixRange` derives from a prefix: the last byte that
   * is not 0xFF goes up by one and everything after it is dropped. There is no such bound
   * for a prefix that is empty or all 0xFF, and the callers' `unwrap` panics on it.
   */
  function NextPrefix(p: Bytes): (hi: Option<Bytes>) {
    if p == [] then None
    else
      match NextPrefix(p[1..])
      case Some(h) => Some([p[0]] + h)
      case None => if p[0] < 255 then Some([p[0] + 1]) else None
  }

  predicate InRange(k: Bytes, from: Bytes, to: Bytes) {
    !LexLt(k, from) && LexLt(k, to)
  }

  /** The bound exists exactly for the prefixes with a byte below 0xFF. */
  lemma {:induction false} NextPrefixExists(p: Bytes)
    ensures NextPrefix(p).Some? <==> exists i :: 0 <= i < |p| && p[i] < 255
  {
    if p != [] {
      NextPrefixExists(p[1..]);
      if i :| 0 <= i < |p| && p[i] < 255 {
        if i > 0 {
          assert p[1..][i - 1] < 255;
        }
      }
      if j :| 0 <= j < |p[1..]| && p[1..][j] < 255 {
        assert p[j + 1] < 255;
      }
    }
  }

  /** A prefix range holds exactly the keys that start with the prefix. */
  lemma {:induction false} PrefixRangeExact(p: Bytes, k: Bytes)
    requires NextPrefix(p).Some?
    ensures InRange(k, p, NextPrefix(p).value) <==> p <= k
  {
    var hi := NextPrefix(p).value;
    if k == [] {
    } else if NextPrefix(p[1..]).Some? {
      assert hi[1..] == NextPrefix(p[1..]).value;
      PrefixRangeExact(p[1..], k[1..]);
      assert p == [p[0]] + p[1..] && k == [k[0]] + k[1..];
    } else {
      AllOnesIsLast(p[1..], k[1..]);
      assert hi[1..] == [] && !LexLt(k[1..], []);
      assert p == [p[0]] + p[1..] && k == [k[0]] + k[1..];
    }
  }

  /** Nothing but its own extensions sorts at or after a string of 0xFF bytes. */
  lemma {:induction false} AllOnesIsLast(p: Bytes, k: Bytes)
    requires NextPrefix(p).None?
    ensures !LexLt(k, p) <==> p <= k
  {
    if p != [] && k != [] {
      assert p[0] == 255;
      AllOnesIsLast(p[1..], k[1..]);
      assert p == [p[0]] + p[1..] && k == [k[0]] + k[1..];
    }
  }

  /** The first key of a scan over the keys that start with `p`. */
  ghost predicate IsFirst(keys: set<Bytes>, p: Bytes, k: Bytes) {
    && k in keys && p <= k
    && forall k' :: k' in keys && p <= k' ==> !LexLt(k', k)
  }

  lemma FirstIsUnique(keys: set<Bytes>, p: Bytes, k: Bytes, k': Bytes)
    requires IsFirst(keys, p, k) && IsFirst(keys, p, k')
    ensures k == k'
  {
    LexTotal(k, k');
  }

  function Before(keys: set<Bytes>, k: Bytes): set<Bytes> {
    set x | x in keys && LexLt(x, k)
  }

  /** If any key has the prefix, one is the first. */
  lemma {:induction false} FirstExists(keys: set<Bytes>, p: Bytes, k: Bytes) returns (first: Bytes)
    requires k in keys && p <= k
    ensures IsFirst(keys, p, first)
    decreases Before(keys, k)
  {
    first := k;
    if k' :| k' in keys && p <= k' && LexLt(k', k) {
      forall x | x in Before(keys, k') ensures x in Before(keys, k) {
        LexTransitive(x, k', k);
      }
      LexIrreflexive(k');
      assert k' in Before(keys, k) && k' !in Before(keys, k');
      first := FirstExists(keys, p, k');
    }
  }

  /** Finds the first key with a prefix by a pass over all keys. */
  method FindFirst(keys: set<Bytes>, p: Bytes) returns (first: Option<Bytes>)
    ensures first.Some? ==> IsFirst(keys, p, first.value)
    ensures first.None? ==> forall k :: k in keys ==> !(p <= k)
  {
    first := None;
    var rest := keys;
    while rest != {}
      invariant rest <= keys
      invariant first.Some? ==> IsFirst(keys - rest, p, first.value)
      invariant first.None? ==> forall k :: k in keys - rest ==> !(p <= k)
      decreases rest
    {
      var k :| k in rest;
      if p <= k && (first.None? || LexLt(k, first.value)) {
        forall k' | k' in keys - rest && p <= k' ensures !LexLt(k', k) {
          if LexLt(k', k) {
            LexTransitive(k', k, first.value);
          }
        }
        LexIrreflexive(k);
        first := Some(k);
      }
      assert keys - (rest - {k}) == (keys - rest) + {k};
      rest := rest - {k};
    }
    assert keys - rest == keys;
  }
}
