/**
 * The bytes from which the pre-proof-of-work hash of a block header is made. Two headers
 * give the same bytes only if they agree in everything that is written.
 */
module HeaderStream {
  import opened Bytes
  import opened Endian
  import opened Sequences

  type Hash = h: Bytes | |h| == 32 witness seq(32, _ => 0)

  datatype Header = Header(
    version: nat,
    parentsByLevel: seq<seq<Hash>>,
    hashMerkleRoot: Hash,
    acceptedIdMerkleRoot: Hash,
    utxoCommitment: Hash,
    timestamp: nat,
    bits: nat,
    nonce: nat,
    daaScore: nat,
    blueScore: nat,
    blueWork: nat,
    pruningPoint: Hash)
  {
    /** The ranges of the source's integer types. */
    ghost predicate Valid() {
      && version < Pow256(2) && bits < Pow256(4) && daaScore < Pow256(8) && blueScore < Pow256(8)
      && blueWork < Pow256(24) && |parentsByLevel| < Pow256(8)
      && forall level :: level in parentsByLevel ==> |level| < Pow256(8)
    }
  }

  function Concat(hashes: seq<Hash>): Bytes {
    if hashes == [] then [] else hashes[0] + Concat(hashes[1..])
  }

  function LevelBytes(level: seq<Hash>): Bytes {
    ToLE(|level|, 8) + Concat(level)
  }

  function LevelsBytes(levels: seq<seq<Hash>>): Bytes {
    if levels == [] then [] else LevelBytes(levels[0]) + LevelsBytes(levels[1..])
  }

  /** Big-endian bytes without leading zeros. */
  function Strip(b: Bytes): Bytes {
    if b != [] && b[0] == 0 then Strip(b[1..]) else b
  }

  function WorkBytes(work: nat): Bytes {
    Strip(ToBE(work, 24))
  }

  /** The fields between the parents and the blue work; time and nonce are written as zero. */
  function Middle(h: Header): Bytes {
    h.hashMerkleRoot + h.acceptedIdMerkleRoot + h.utxoCommitment +
    ToLE(0, 8) + ToLE(h.bits, 4) + ToLE(0, 8) + ToLE(h.daaScore, 8) + ToLE(h.blueScore, 8)
  }

  function HeaderBytes(h: Header): Bytes {
    ToLE(h.version, 2) + (ToLE(|h.parentsByLevel|, 8) + (LevelsBytes(h.parentsByLevel) + (Middle(h) +
    (ToLE(|WorkBytes(h.blueWork)|, 8) + (WorkBytes(h.blueWork) + h.pruningPoint)))))
  }

  // ---------- feeding the hasher ----------

  lemma {:induction false} ConcatSnoc(hashes: seq<Hash>, h: Hash)
    ensures Concat(hashes + [h]) == Concat(hashes) + h
  {
    if hashes != [] {
      assert (hashes + [h])[1..] == hashes[1..] + [h];
      ConcatSnoc(hashes[1..], h);
    }
  }

  lemma {:induction false} LevelsSnoc(levels: seq<seq<Hash>>, level: seq<Hash>)
    ensures LevelsBytes(levels + [level]) == LevelsBytes(levels) + LevelBytes(level)
  {
    if levels != [] {
      assert (levels + [level])[1..] == levels[1..] + [level];
      LevelsSnoc(levels[1..], level);
    }
  }

  class BlockHasher {
    /** Everything it has been fed. */
    var fed: Bytes

    constructor ()
      ensures fed == []
    {
      fed := [];
    }

    method Update(bytes: Bytes)
      modifies this
      ensures fed == old(fed) + bytes
    {
      fed := fed + bytes;
    }
  }

  method FeedLevel(hasher: BlockHasher, level: seq<Hash>)
    modifies hasher
    ensures hasher.fed == old(hasher.fed) + LevelBytes(level)
  {
    hasher.Update(ToLE(|level|, 8));
    for i := 0 to |level|
      invariant hasher.fed == old(hasher.fed) + (ToLE(|level|, 8) + Concat(level[..i]))
    {
      ConcatSnoc(level[..i], level[i]);
      assert level[..i + 1] == level[..i] + [level[i]];
      hasher.Update(level[i]);
    }
    assert level[..|level|] == level;
  }

  method FeedLevels(hasher: BlockHasher, levels: seq<seq<Hash>>)
    modifies hasher
    ensures hasher.fed == old(hasher.fed) + LevelsBytes(levels)
  {
    for i := 0 to |levels|
      invariant hasher.fed == old(hasher.fed) + LevelsBytes(levels[..i])
    {
      LevelsSnoc(levels[..i], levels[i]);
      assert levels[..i + 1] == levels[..i] + [levels[i]];
      FeedLevel(hasher, levels[i]);
    }
    assert levels[..|levels|] == levels;
  }

  method FeedMiddle(hasher: BlockHasher, h: Header)
    modifies hasher
    ensures hasher.fed == old(hasher.fed) + Middle(h)
  {
    ghost var before := hasher.fed;
    hasher.Update(h.hashMerkleRoot);
    hasher.Update(h.acceptedIdMerkleRoot);
    hasher.Update(h.utxoCommitment);
    ghost var m3 := h.hashMerkleRoot + h.acceptedIdMerkleRoot + h.utxoCommitment;
    assert hasher.fed == before + m3;
    hasher.Update(ToLE(0, 8));
    hasher.Update(ToLE(h.bits, 4));
    hasher.Update(ToLE(0, 8));
    ghost var m6 := m3 + ToLE(0, 8) + ToLE(h.bits, 4) + ToLE(0, 8);
    assert hasher.fed == before + m6 by {
      Regroup(before, m3, ToLE(0, 8), ToLE(h.bits, 4), ToLE(0, 8));
    }
    hasher.Update(ToLE(h.daaScore, 8));
    hasher.Update(ToLE(h.blueScore, 8));
    Regroup(before, m6, ToLE(h.daaScore, 8), ToLE(h.blueScore, 8), []);
    assert before + m6 + ToLE(h.daaScore, 8) + ToLE(h.blueScore, 8) + [] == hasher.fed;
  }

  lemma Regroup(x: Bytes, m: Bytes, a: Bytes, b: Bytes, c: Bytes)
    ensures x + m + a + b + c == x + (m + a + b + c)
  {
  }

  /** Finds where the leading zeros end. */
  method FirstNonZero(b: Bytes) returns (start: nat)
    ensures start <= |b| && b[start..] == Strip(b)
  {
    start := 0;
    while start < |b| && b[start] == 0
      invariant start <= |b| && Strip(b[start..]) == Strip(b)
    {
      assert b[start..][1..] == b[start + 1..];
      start := start + 1;
    }
  }

  /** `serialize_block_header`, up to the finalisation of the hasher. */
  method SerializeBlockHeader(h: Header) returns (hasher: BlockHasher)
    ensures fresh(hasher) && hasher.fed == HeaderBytes(h)
  {
    hasher := new BlockHasher();
    hasher.Update(ToLE(h.version, 2));
    hasher.Update(ToLE(|h.parentsByLevel|, 8));
    assert hasher.fed == ToLE(h.version, 2) + ToLE(|h.parentsByLevel|, 8);
    FeedLevels(hasher, h.parentsByLevel);
    FeedMiddle(hasher, h);
    var be := ToBE(h.blueWork, 24);
    var start := FirstNonZero(be);
    hasher.Update(ToLE(|be[start..]|, 8));
    hasher.Update(be[start..]);
    hasher.Update(h.pruningPoint);
    Nest(ToLE(h.version, 2), ToLE(|h.parentsByLevel|, 8), LevelsBytes(h.parentsByLevel), Middle(h),
         ToLE(|WorkBytes(h.blueWork)|, 8), WorkBytes(h.blueWork), h.pruningPoint);
  }

  lemma Nest(a: Bytes, b: Bytes, c: Bytes, d: Bytes, e: Bytes, f: Bytes, g: Bytes)
    ensures a + b + c + d + e + f + g == a + (b + (c + (d + (e + (f + g)))))
  {
    var fg := f + g;
    assert a + b + c + d + e + f + g == a + b + c + d + e + fg;
    var efg := e + fg;
    assert a + b + c + d + e + fg == a + b + c + d + efg;
    var defg := d + efg;
    assert a + b + c + d + efg == a + b + c + defg;
    assert a + b + c + defg == a + (b + (c + defg));
  }

  // ---------- the bytes determine the header ----------

  lemma {:induction false} ConcatLength(hashes: seq<Hash>)
    ensures |Concat(hashes)| == 32 * |hashes|
  {
    if hashes != [] {
      ConcatLength(hashes[1..]);
    }
  }

  lemma {:induction false} ConcatInjective(a: seq<Hash>, b: seq<Hash>)
    requires |a| == |b| && Concat(a) == Concat(b)
    ensures a == b
  {
    if a != [] {
      Cancel(a[0], Concat(a[1..]), b[0], Concat(b[1..]));
      ConcatInjective(a[1..], b[1..]);
      assert a == [a[0]] + a[1..] && b == [b[0]] + b[1..];
    }
  }

  /** A level can be read off the front of whatever follows it. */
  lemma LevelPrefix(a: seq<Hash>, x: Bytes, b: seq<Hash>, y: Bytes)
    requires |a| < Pow256(8) && |b| < Pow256(8) && LevelBytes(a) + x == LevelBytes(b) + y
    ensures a == b && x == y
  {
    assert LevelBytes(a) + x == ToLE(|a|, 8) + (Concat(a) + x);
    assert LevelBytes(b) + y == ToLE(|b|, 8) + (Concat(b) + y);
    Cancel(ToLE(|a|, 8), Concat(a) + x, ToLE(|b|, 8), Concat(b) + y);
    ToLEInjective(|a|, |b|, 8);
    ConcatLength(a);
    ConcatLength(b);
    Cancel(Concat(a), x, Concat(b), y);
    ConcatInjective(a, b);
  }

  lemma LevelsHead(levels: seq<seq<Hash>>, x: Bytes)
    requires levels != []
    ensures LevelsBytes(levels) + x == LevelBytes(levels[0]) + (LevelsBytes(levels[1..]) + x)
  {
  }

  lemma {:induction false} LevelsPrefix(a: seq<seq<Hash>>, x: Bytes, b: seq<seq<Hash>>, y: Bytes)
    requires |a| == |b| && LevelsBytes(a) + x == LevelsBytes(b) + y
    requires forall level :: level in a ==> |level| < Pow256(8)
    requires forall level :: level in b ==> |level| < Pow256(8)
    ensures a == b && x == y
  {
    if a == [] {
      assert LevelsBytes(a) + x == x && LevelsBytes(b) + y == y;
    } else {
      LevelsHead(a, x);
      LevelsHead(b, y);
      LevelPrefix(a[0], LevelsBytes(a[1..]) + x, b[0], LevelsBytes(b[1..]) + y);
      LevelsPrefix(a[1..], x, b[1..], y);
      assert a == [a[0]] + a[1..] && b == [b[0]] + b[1..];
    }
  }

  /** Of bytes of a known length, the leading zeros need not be kept. */
  lemma {:induction false} StripInjective(a: Bytes, b: Bytes)
    requires |a| == |b| && Strip(a) == Strip(b)
    ensures a == b
  {
    StripLength(a);
    StripLength(b);
    if a != [] {
      if a[0] == 0 && b[0] == 0 {
        StripInjective(a[1..], b[1..]);
        assert a == [a[0]] + a[1..] && b == [b[0]] + b[1..];
      }
    }
  }

  lemma {:induction false} StripLength(a: Bytes)
    ensures |Strip(a)| <= |a|
    ensures a != [] && a[0] == 0 ==> |Strip(a)| < |a|
  {
    if a != [] && a[0] == 0 {
      StripLength(a[1..]);
    }
  }

  lemma WorkInjective(v: nat, w: nat)
    requires v < Pow256(24) && w < Pow256(24) && WorkBytes(v) == WorkBytes(w)
    ensures v == w
  {
    StripInjective(ToBE(v, 24), ToBE(w, 24));
    ToBEInjective(v, w, 24);
  }

  lemma MiddleInjective(h: Header, k: Header)
    requires h.Valid() && k.Valid() && Middle(h) == Middle(k)
    ensures h.hashMerkleRoot == k.hashMerkleRoot && h.acceptedIdMerkleRoot == k.acceptedIdMerkleRoot
    ensures h.utxoCommitment == k.utxoCommitment
    ensures h.bits == k.bits && h.daaScore == k.daaScore && h.blueScore == k.blueScore
  {
    var h3, k3 := h.hashMerkleRoot + h.acceptedIdMerkleRoot + h.utxoCommitment,
                  k.hashMerkleRoot + k.acceptedIdMerkleRoot + k.utxoCommitment;
    var h5, k5 := h3 + ToLE(0, 8) + ToLE(h.bits, 4), k3 + ToLE(0, 8) + ToLE(k.bits, 4);
    var h7, k7 := h5 + ToLE(0, 8) + ToLE(h.daaScore, 8), k5 + ToLE(0, 8) + ToLE(k.daaScore, 8);
    Cancel(h7, ToLE(h.blueScore, 8), k7, ToLE(k.blueScore, 8));
    Cancel(h5 + ToLE(0, 8), ToLE(h.daaScore, 8), k5 + ToLE(0, 8), ToLE(k.daaScore, 8));
    Cancel(h5, ToLE(0, 8), k5, ToLE(0, 8));
    Cancel(h3 + ToLE(0, 8), ToLE(h.bits, 4), k3 + ToLE(0, 8), ToLE(k.bits, 4));
    Cancel(h3, ToLE(0, 8), k3, ToLE(0, 8));
    Cancel(h.hashMerkleRoot + h.acceptedIdMerkleRoot, h.utxoCommitment,
           k.hashMerkleRoot + k.acceptedIdMerkleRoot, k.utxoCommitment);
    Cancel(h.hashMerkleRoot, h.acceptedIdMerkleRoot, k.hashMerkleRoot, k.acceptedIdMerkleRoot);
    ToLEInjective(h.bits, k.bits, 4);
    ToLEInjective(h.daaScore, k.daaScore, 8);
    ToLEInjective(h.blueScore, k.blueScore, 8);
  }

  /** The blue work and the pruning point can be told apart, though neither's place is fixed. */
  lemma TailInjective(v: nat, p: Hash, w: nat, q: Hash)
    requires v < Pow256(24) && w < Pow256(24)
    requires ToLE(|WorkBytes(v)|, 8) + (WorkBytes(v) + p) == ToLE(|WorkBytes(w)|, 8) + (WorkBytes(w) + q)
    ensures v == w && p == q
  {
    var a, b := WorkBytes(v), WorkBytes(w);
    Cancel(ToLE(|a|, 8), a + p, ToLE(|b|, 8), b + q);
    assert |a| == |b|;
    Cancel(a, p, b, q);
    WorkInjective(v, w);
  }

  /** Two headers give the same bytes exactly when they agree in all but time and nonce. */
  lemma HeaderBytesInjective(h: Header, k: Header)
    requires h.Valid() && k.Valid()
    ensures HeaderBytes(h) == HeaderBytes(k) <==> h == k.(timestamp := h.timestamp, nonce := h.nonce)
  {
    if HeaderBytes(h) == HeaderBytes(k) {
      var hTail := ToLE(|WorkBytes(h.blueWork)|, 8) + (WorkBytes(h.blueWork) + h.pruningPoint);
      var kTail := ToLE(|WorkBytes(k.blueWork)|, 8) + (WorkBytes(k.blueWork) + k.pruningPoint);
      var hBody, kBody := LevelsBytes(h.parentsByLevel) + (Middle(h) + hTail),
                          LevelsBytes(k.parentsByLevel) + (Middle(k) + kTail);
      Cancel(ToLE(h.version, 2), ToLE(|h.parentsByLevel|, 8) + hBody,
             ToLE(k.version, 2), ToLE(|k.parentsByLevel|, 8) + kBody);
      Cancel(ToLE(|h.parentsByLevel|, 8), hBody, ToLE(|k.parentsByLevel|, 8), kBody);
      ToLEInjective(h.version, k.version, 2);
      ToLEInjective(|h.parentsByLevel|, |k.parentsByLevel|, 8);
      LevelsPrefix(h.parentsByLevel, Middle(h) + hTail, k.parentsByLevel, Middle(k) + kTail);
      Cancel(Middle(h), hTail, Middle(k), kTail);
      MiddleInjective(h, k);
      TailInjective(h.blueWork, h.pruningPoint, k.blueWork, k.pruningPoint);
    }
  }

  // ---------- where each field is ----------

  /** The next field is in `b[i..j]`. */
  lemma Next(b: Bytes, i: nat, x: Bytes, j: nat, rest: Bytes)
    requires i <= |b| && b[i..] == x + rest && j == i + |x|
    ensures j <= |b| && b[i..j] == x && b[j..] == rest
  {
    assert b[i..j] == b[i..][..|x|];
    assert b[j..] == b[i..][|x|..];
  }

  /** The next field is a number of `w` bytes. */
  lemma NextNumber(b: Bytes, i: nat, n: nat, w: nat, rest: Bytes)
    requires n < Pow256(w) && i <= |b| && b[i..] == ToLE(n, w) + rest
    ensures i + w <= |b| && FromLE(b[i..i + w]) == n && b[i + w..] == rest
  {
    Next(b, i, ToLE(n, w), i + w, rest);
    FromToLE(n, w);
  }

  /** The bytes that a list of levels takes. */
  function LevelsLength(levels: seq<seq<Hash>>): nat {
    if levels == [] then 0 else 8 + 32 * |levels[0]| + LevelsLength(levels[1..])
  }

  lemma {:induction false} LevelsLengthIs(levels: seq<seq<Hash>>)
    ensures |LevelsBytes(levels)| == LevelsLength(levels)
  {
    if levels != [] {
      ConcatLength(levels[0]);
      LevelsLengthIs(levels[1..]);
    }
  }

  function Tail(h: Header): Bytes {
    ToLE(|WorkBytes(h.blueWork)|, 8) + (WorkBytes(h.blueWork) + h.pruningPoint)
  }

  /** What comes after the first ten bytes. */
  function Body(h: Header): Bytes {
    LevelsBytes(h.parentsByLevel) + (Middle(h) + Tail(h))
  }

  /** The version and the number of levels come first. */
  lemma FrontLayout(h: Header)
    requires h.Valid()
    ensures var b := HeaderBytes(h);
            && |b| >= 10 && FromLE(b[0..2]) == h.version && FromLE(b[2..10]) == |h.parentsByLevel|
            && b[10..] == Body(h)
  {
    var b := HeaderBytes(h);
    assert b[0..] == b;
    NextNumber(b, 0, h.version, 2, ToLE(|h.parentsByLevel|, 8) + Body(h));
    NextNumber(b, 2, |h.parentsByLevel|, 8, Body(h));
  }

  lemma MiddleNested(h: Header, rest: Bytes)
    ensures Middle(h) + rest ==
            h.hashMerkleRoot + (h.acceptedIdMerkleRoot + (h.utxoCommitment +
            (ToLE(0, 8) + (ToLE(h.bits, 4) + (ToLE(0, 8) + (ToLE(h.daaScore, 8) + (ToLE(h.blueScore, 8) + rest)))))))
  {
    var scores := ToLE(h.daaScore, 8) + (ToLE(h.blueScore, 8) + rest);
    var m3 := h.hashMerkleRoot + h.acceptedIdMerkleRoot + h.utxoCommitment;
    var m6 := m3 + ToLE(0, 8) + ToLE(h.bits, 4) + ToLE(0, 8);
    Nest3(m6, ToLE(h.daaScore, 8), ToLE(h.blueScore, 8), rest);
    Nest3(m3 + ToLE(0, 8), ToLE(h.bits, 4), ToLE(0, 8), scores);
    var after := ToLE(h.bits, 4) + (ToLE(0, 8) + scores);
    Nest3(h.hashMerkleRoot + h.acceptedIdMerkleRoot, h.utxoCommitment, ToLE(0, 8), after);
    Nest3([], h.hashMerkleRoot, h.acceptedIdMerkleRoot, h.utxoCommitment + (ToLE(0, 8) + after));
    assert [] + h.hashMerkleRoot == h.hashMerkleRoot;
  }

  lemma Nest3(a: Bytes, x: Bytes, y: Bytes, rest: Bytes)
    ensures a + x + y + rest == a + (x + (y + rest))
  {
  }

  /** The fields of the middle part of a stream, from `p` on. */
  ghost predicate MiddleAt(b: Bytes, p: nat, h: Header) {
    && p + 132 <= |b|
    && b[p..p + 32] == h.hashMerkleRoot
    && b[p + 32..p + 64] == h.acceptedIdMerkleRoot
    && b[p + 64..p + 96] == h.utxoCommitment
    && FromLE(b[p + 96..p + 104]) == 0
    && FromLE(b[p + 104..p + 108]) == h.bits
    && FromLE(b[p + 108..p + 116]) == 0
    && FromLE(b[p + 116..p + 124]) == h.daaScore
    && FromLE(b[p + 124..p + 132]) == h.blueScore
  }

  lemma MiddleLayout(b: Bytes, p: nat, h: Header, rest: Bytes)
    requires h.Valid() && p <= |b| && b[p..] == Middle(h) + rest
    ensures MiddleAt(b, p, h) && b[p + 132..] == rest
  {
    MiddleNested(h, rest);
    var r8 := ToLE(h.blueScore, 8) + rest;
    var r7 := ToLE(h.daaScore, 8) + r8;
    var r6 := ToLE(0, 8) + r7;
    var r5 := ToLE(h.bits, 4) + r6;
    var r4 := ToLE(0, 8) + r5;
    Next(b, p, h.hashMerkleRoot, p + 32, h.acceptedIdMerkleRoot + (h.utxoCommitment + r4));
    Next(b, p + 32, h.acceptedIdMerkleRoot, p + 64, h.utxoCommitment + r4);
    Next(b, p + 64, h.utxoCommitment, p + 96, r4);
    NextNumber(b, p + 96, 0, 8, r5);
    NextNumber(b, p + 104, h.bits, 4, r6);
    NextNumber(b, p + 108, 0, 8, r7);
    NextNumber(b, p + 116, h.daaScore, 8, r8);
    NextNumber(b, p + 124, h.blueScore, 8, rest);
  }

  lemma {:induction false} StripKeepsValue(b: Bytes)
    ensures FromBE(Strip(b)) == FromBE(b) && (Strip(b) != [] ==> Strip(b)[0] != 0)
  {
    if b != [] && b[0] == 0 {
      StripKeepsValue(b[1..]);
      FromLEZero(Reversed(b[1..]));
    }
  }

  /** The work's length, the work without leading zeros and the pruning point, from `q` to the end. */
  ghost predicate TailAt(b: Bytes, q: nat, h: Header) {
    && q + 40 <= |b|
    && FromLE(b[q..q + 8]) == |b| - q - 40
    && FromBE(b[q + 8..|b| - 32]) == h.blueWork
    && (q + 40 < |b| ==> b[q + 8] != 0)
    && b[|b| - 32..] == h.pruningPoint
  }

  lemma WorkIs(work: nat)
    requires work < Pow256(24)
    ensures var b := WorkBytes(work); FromBE(b) == work && |b| <= 24 && (b != [] ==> b[0] != 0)
  {
    var w := 24;
    StripKeepsValue(ToBE(work, w));
    StripLength(ToBE(work, w));
    FromToBE(work, w);
  }

  lemma TailLayout(b: Bytes, q: nat, h: Header)
    requires h.Valid() && q <= |b| && b[q..] == Tail(h)
    ensures TailAt(b, q, h)
  {
    WorkIs(h.blueWork);
    WorkLayout(b, q, WorkBytes(h.blueWork), h.pruningPoint);
  }

  lemma WorkLayout(b: Bytes, q: nat, work: Bytes, point: Hash)
    requires |work| <= 24 && q <= |b| && b[q..] == ToLE(|work|, 8) + (work + point)
    ensures |b| == q + 40 + |work| && FromLE(b[q..q + 8]) == |work|
    ensures b[q + 8..|b| - 32] == work && b[|b| - 32..] == point
  {
    var w := 8;
    SmallLength(|work|, w);
    NextNumber(b, q, |work|, w, work + point);
    PointLayout(b, q + 8, work, point);
  }

  lemma PointLayout(b: Bytes, q: nat, work: Bytes, point: Hash)
    requires q <= |b| && b[q..] == work + point
    ensures |b| == q + 32 + |work| && b[q..|b| - 32] == work && b[|b| - 32..] == point
  {
    Next(b, q, work, |b| - 32, point);
  }

  lemma SmallLength(n: nat, w: nat)
    requires n <= 24 && w == 8
    ensures n < Pow256(w)
  {
    assert Pow256(w) == 256 * Pow256(w - 1);
  }

  lemma BodyLayout(b: Bytes, p: nat, h: Header)
    requires |b| >= 10 && b[10..] == Body(h) && p == 10 + LevelsLength(h.parentsByLevel)
    ensures p <= |b| && b[p..] == Middle(h) + Tail(h)
  {
    LevelsLengthIs(h.parentsByLevel);
    Next(b, 10, LevelsBytes(h.parentsByLevel), p, Middle(h) + Tail(h));
  }

  lemma MiddleOfBody(b: Bytes, p: nat, h: Header)
    requires h.Valid() && |b| >= 10 && b[10..] == Body(h) && p == 10 + LevelsLength(h.parentsByLevel)
    ensures MiddleAt(b, p, h)
  {
    BodyLayout(b, p, h);
    MiddleLayout(b, p, h, Tail(h));
  }

  /** Every field between the parents and the work is in its own place in the bytes. */
  lemma MiddleOfHeader(h: Header, p: nat)
    requires h.Valid() && p == 10 + LevelsLength(h.parentsByLevel)
    ensures MiddleAt(HeaderBytes(h), p, h)
  {
    FrontLayout(h);
    MiddleOfBody(HeaderBytes(h), p, h);
  }

  lemma TailAfterMiddle(b: Bytes, p: nat, h: Header)
    requires h.Valid() && p <= |b| && b[p..] == Middle(h) + Tail(h)
    ensures TailAt(b, p + 132, h)
  {
    Next(b, p, Middle(h), p + 132, Tail(h));
    TailLayout(b, p + 132, h);
  }

  lemma TailOfBody(b: Bytes, p: nat, h: Header)
    requires h.Valid() && |b| >= 10 && b[10..] == Body(h) && p == 10 + LevelsLength(h.parentsByLevel)
    ensures TailAt(b, p + 132, h)
  {
    BodyLayout(b, p, h);
    TailAfterMiddle(b, p, h);
  }

  /** The work's length is where those fields end; the work and the pruning point reach to the end. */
  lemma TailOfHeader(h: Header, p: nat)
    requires h.Valid() && p == 10 + LevelsLength(h.parentsByLevel)
    ensures TailAt(HeaderBytes(h), p + 132, h)
  {
    FrontLayout(h);
    TailOfBody(HeaderBytes(h), p, h);
  }

  lemma {:induction false} HashAt(hashes: seq<Hash>, k: nat)
    requires k < |hashes|
    ensures 32 * k + 32 <= |Concat(hashes)| && Concat(hashes)[32 * k..32 * k + 32] == hashes[k]
  {
    ConcatLength(hashes);
    var all := Concat(hashes);
    if k == 0 {
      assert all[..32] == hashes[0];
    } else {
      HashAt(hashes[1..], k - 1);
      assert all[32..] == Concat(hashes[1..]);
      assert all[32 * k..32 * k + 32] == all[32..][32 * (k - 1)..32 * (k - 1) + 32];
    }
  }

  lemma HashesLayout(b: Bytes, p: nat, level: seq<Hash>, rest: Bytes, end: nat)
    requires p <= |b| && b[p..] == Concat(level) + rest && end == p + 32 * |level|
    ensures end <= |b| && b[p..end] == Concat(level) && b[end..] == rest
  {
    ConcatLength(level);
    Next(b, p, Concat(level), end, rest);
  }

  lemma LengthLayout(b: Bytes, p: nat, level: seq<Hash>, rest: Bytes)
    requires p <= |b| && b[p..] == LevelBytes(level) + rest && |level| < Pow256(8)
    ensures p + 8 <= |b| && FromLE(b[p..p + 8]) == |level| && b[p + 8..] == Concat(level) + rest
  {
    Associative(ToLE(|level|, 8), Concat(level), rest);
    NextNumber(b, p, |level|, 8, Concat(level) + rest);
  }

  /** A level is its length and then its hashes. */
  lemma LevelLayout(b: Bytes, p: nat, level: seq<Hash>, rest: Bytes, end: nat)
    requires p <= |b| && b[p..] == LevelBytes(level) + rest && |level| < Pow256(8) && end == p + 8 + 32 * |level|
    ensures end <= |b| && b[end..] == rest
    ensures FromLE(b[p..p + 8]) == |level| && b[p + 8..end] == Concat(level)
  {
    LengthLayout(b, p, level, rest);
    HashesLayout(b, p + 8, level, rest, end);
  }

  /** Where level `i` starts, counted from the second level on. */
  lemma StartNext(levels: seq<seq<Hash>>, i: nat)
    requires 0 < i <= |levels|
    ensures LevelsLength(levels[..i]) == 8 + 32 * |levels[0]| + LevelsLength(levels[1..][..i - 1])
  {
    assert levels[..i][1..] == levels[1..][..i - 1];
  }

  /** Level `i` starts after all before it. */
  lemma {:induction false} LevelAt(b: Bytes, p: nat, levels: seq<seq<Hash>>, rest: Bytes, i: nat) returns (after: Bytes)
    requires p <= |b| && b[p..] == LevelsBytes(levels) + rest && i < |levels|
    requires forall level :: level in levels ==> |level| < Pow256(8)
    ensures var q := p + LevelsLength(levels[..i]); q <= |b| && b[q..] == LevelBytes(levels[i]) + after
    decreases i
  {
    LevelsHead(levels, rest);
    after := LevelsBytes(levels[1..]) + rest;
    if i > 0 {
      LevelLayout(b, p, levels[0], after, p + 8 + 32 * |levels[0]|);
      after := LevelAt(b, p + 8 + 32 * |levels[0]|, levels[1..], rest, i - 1);
      StartNext(levels, i);
    }
  }

  /** Parent `k` of a level that starts at `q`. */
  lemma ParentIn(b: Bytes, q: nat, level: seq<Hash>, rest: Bytes, k: nat, from: nat)
    requires q <= |b| && b[q..] == LevelBytes(level) + rest && |level| < Pow256(8)
    requires k < |level| && from == q + 8 + 32 * k
    ensures from + 32 <= |b| && FromLE(b[q..q + 8]) == |level| && b[from..from + 32] == level[k]
  {
    LevelLayout(b, q, level, rest, q + 8 + 32 * |level|);
    HashAt(level, k);
    ConcatLength(level);
    Within(b, q + 8, q + 8 + 32 * |level|, Concat(level), 32 * k, from, 32);
  }

  lemma Within(b: Bytes, i: nat, j: nat, x: Bytes, lo: nat, from: nat, n: nat)
    requires i <= j <= |b| && b[i..j] == x && lo + n <= |x| && from == i + lo
    ensures b[from..from + n] == x[lo..lo + n]
  {
    var y := b[from..from + n];
    forall m | 0 <= m < n ensures y[m] == x[lo + m] {
      assert x[lo + m] == b[i..j][lo + m];
    }
  }

  /** The length of level `i`, also when it is empty. */
  lemma LevelOfHeader(h: Header, i: nat, q: nat)
    requires h.Valid() && i < |h.parentsByLevel| && q == 10 + LevelsLength(h.parentsByLevel[..i])
    ensures q + 8 <= |HeaderBytes(h)| && FromLE(HeaderBytes(h)[q..q + 8]) == |h.parentsByLevel[i]|
  {
    FrontLayout(h);
    LevelOf(HeaderBytes(h), h, i, q);
  }

  lemma LevelOf(b: Bytes, h: Header, i: nat, q: nat)
    requires h.Valid() && |b| >= 10 && b[10..] == Body(h)
    requires i < |h.parentsByLevel| && q == 10 + LevelsLength(h.parentsByLevel[..i])
    ensures q + 8 <= |b| && FromLE(b[q..q + 8]) == |h.parentsByLevel[i]|
  {
    var after := LevelAt(b, 10, h.parentsByLevel, Middle(h) + Tail(h), i);
    LengthLayout(b, q, h.parentsByLevel[i], after);
  }

  lemma ParentOf(b: Bytes, h: Header, i: nat, k: nat, q: nat, from: nat)
    requires h.Valid() && |b| >= 10 && b[10..] == Body(h)
    requires i < |h.parentsByLevel| && k < |h.parentsByLevel[i]|
    requires q == 10 + LevelsLength(h.parentsByLevel[..i]) && from == q + 8 + 32 * k
    ensures from + 32 <= |b| && FromLE(b[q..q + 8]) == |h.parentsByLevel[i]|
    ensures b[from..from + 32] == h.parentsByLevel[i][k]
  {
    var after := LevelAt(b, 10, h.parentsByLevel, Middle(h) + Tail(h), i);
    ParentIn(b, q, h.parentsByLevel[i], after, k, from);
  }

  /** Parent `k` of level `i`: after the levels before, the level's length and the parents before it. */
  lemma ParentOfHeader(h: Header, i: nat, k: nat, q: nat, from: nat)
    requires h.Valid() && i < |h.parentsByLevel| && k < |h.parentsByLevel[i]|
    requires q == 10 + LevelsLength(h.parentsByLevel[..i]) && from == q + 8 + 32 * k
    ensures var b := HeaderBytes(h);
            && from + 32 <= |b| && FromLE(b[q..q + 8]) == |h.parentsByLevel[i]|
            && b[from..from + 32] == h.parentsByLevel[i][k]
  {
    FrontLayout(h);
    ParentOf(HeaderBytes(h), h, i, k, q, from);
  }
}
