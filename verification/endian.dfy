/** Fixed-width numbers as bytes, and bytes as lower-case hex. */
module Endian {
  import opened Bytes

  function Pow256(w: nat): (p: nat)
    ensures p >= 1
  {
    if w == 0 then 1 else 256 * Pow256(w - 1)
  }

  /** The `w` low bytes of a number, least significant first. */
  function ToLE(n: nat, w: nat): (b: Bytes)
    ensures |b| == w
  {
    if w == 0 then [] else [n % 256] + ToLE(n / 256, w - 1)
  }

  /** Byte `i` of a number is the one that counts 256 to the `i`. */
  lemma {:induction false} ToLEAt(low: nat, c: byte, high: nat, i: nat, w: nat)
    requires low < Pow256(i) && i < w
    ensures ToLE(low + Pow256(i) * (c + 256 * high), w)[i] == c
  {
    var x := c + 256 * high;
    if i > 0 {
      var n := low + Pow256(i) * x;
      Associates(Pow256(i - 1), x);
      assert n / 256 == low / 256 + Pow256(i - 1) * x;
      ToLEAt(low / 256, c, high, i - 1, w - 1);
    }
  }

  lemma Associates(p: nat, x: nat)
    ensures 256 * p * x == 256 * (p * x)
  {
  }

  function FromLE(b: Bytes): nat {
    if b == [] then 0 else b[0] + 256 * FromLE(b[1..])
  }

  function Reversed(b: Bytes): (r: Bytes)
    ensures |r| == |b| && forall i :: 0 <= i < |b| ==> r[i] == b[|b| - 1 - i]
  {
    if b == [] then [] else Reversed(b[1..]) + [b[0]]
  }

  function ToBE(n: nat, w: nat): (b: Bytes)
    ensures |b| == w
  {
    Reversed(ToLE(n, w))
  }

  function FromBE(b: Bytes): nat {
    FromLE(Reversed(b))
  }

  lemma ReversedTwice(b: Bytes)
    ensures Reversed(Reversed(b)) == b
  {
  }

  /** Reading back what was written, for every number that fits. */
  lemma {:induction false} FromToLE(n: nat, w: nat)
    requires n < Pow256(w)
    ensures FromLE(ToLE(n, w)) == n
  {
    if w > 0 {
      FromToLE(n / 256, w - 1);
      assert ToLE(n, w)[1..] == ToLE(n / 256, w - 1);
    }
  }

  lemma {:induction false} ToFromLE(b: Bytes)
    ensures FromLE(b) < Pow256(|b|) && ToLE(FromLE(b), |b|) == b
  {
    if b != [] {
      ToFromLE(b[1..]);
      assert b == [b[0]] + b[1..];
    }
  }

  lemma {:induction false} FromLEZero(b: Bytes)
    ensures FromLE(b + [0]) == FromLE(b)
  {
    if b != [] {
      assert (b + [0])[1..] == b[1..] + [0];
      FromLEZero(b[1..]);
    }
  }

  lemma FromToBE(n: nat, w: nat)
    requires n < Pow256(w)
    ensures FromBE(ToBE(n, w)) == n
  {
    ReversedTwice(ToLE(n, w));
    FromToLE(n, w);
  }

  lemma ToLEInjective(n: nat, m: nat, w: nat)
    requires n < Pow256(w) && m < Pow256(w) && ToLE(n, w) == ToLE(m, w)
    ensures n == m
  {
    FromToLE(n, w);
    FromToLE(m, w);
  }

  lemma ToBEInjective(n: nat, m: nat, w: nat)
    requires n < Pow256(w) && m < Pow256(w) && ToBE(n, w) == ToBE(m, w)
    ensures n == m
  {
    ReversedTwice(ToLE(n, w));
    ReversedTwice(ToLE(m, w));
    ToLEInjective(n, m, w);
  }

  /** Equal concatenations with parts of equal length have equal parts. */
  lemma Cancel(a: Bytes, x: Bytes, b: Bytes, y: Bytes)
    requires a + x == b + y && |a| == |b|
    ensures a == b && x == y
  {
    assert a == (a + x)[..|a|] && b == (b + y)[..|b|];
    assert x == (a + x)[|a|..] && y == (b + y)[|b|..];
  }
}
