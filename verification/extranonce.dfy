/** The cyclic extranonce allocator, and how an extranonce splits the space of nonces. */
module Extranonce {
  import opened Wrappers
  import opened Hex

  const MAX_EXTRANONCE: nat := 65535

  const MAX_U64: nat := 0xFFFF_FFFF_FFFF_FFFF

  /** The nonces of one extranonce: twelve hex digits, 2^48. */
  const SHARE_OF_NONCES: nat := 0x1_0000_0000_0000

  class Allocator {
    /** `GLOBAL_NEXT_EXTRANONCE` */
    var next: nat
    /** How many have been handed out. */
    ghost var count: nat

    ghost predicate Valid()
      reads this
    {
      next == count % 65536
    }

    constructor ()
      ensures Valid() && count == 0
    {
      next, count := 0, 0;
    }

    /** The atomic update: the old value is handed out, and the last is followed by the first. */
    method FetchNext() returns (value: nat)
      requires Valid()
      modifies this
      ensures Valid() && count == old(count) + 1 && value == old(count) % 65536
    {
      value := next;
      next := if value < MAX_EXTRANONCE then value + 1 else 0;
      count := count + 1;
    }

    /** The k-th miner that needs one gets `k mod 65536` in four digits; the others get none. */
    method Assign(isBitmain: bool) returns (extranonce: string)
      requires Valid()
      modifies this
      ensures Valid()
      ensures isBitmain ==> extranonce == "" && count == old(count)
      ensures !isBitmain ==> IsExtranonce(extranonce, old(count) % 65536) && count == old(count) + 1
    {
      if isBitmain {
        return "";
      }
      var value := FetchNext();
      extranonce := PadLeft(ToHex(value), 4);
      FourDigits(value);
    }
  }

  /** The text of an extranonce: always four hex digits. */
  predicate IsExtranonce(text: string, value: nat) {
    |text| == 4 && IsHex(text) && ValueOf(text) == value
  }

  lemma FourDigits(value: nat)
    requires value < 65536
    ensures IsExtranonce(PadLeft(ToHex(value), 4), value)
  {
    Pow16Is(4);
    PaddedIsFixed(value, 4);
    FixedValue(value, 4);
  }

  /** The nonce text that is parsed: the extranonce in front when there is room for it. */
  function FinalNonce(extranonce: string, nonce: string): string
    requires |extranonce| <= 16
  {
    if extranonce != "" && |nonce| <= 16 - |extranonce| then extranonce + PadLeft(nonce, 16 - |extranonce|) else nonce
  }

  /** `u64::from_str_radix(_, 16)` */
  function ParseHex(s: string): Option<nat> {
    var digits := if |s| > 1 && s[0] == '+' then s[1..] else s;
    if digits != "" && IsHex(digits) && ValueOf(digits) <= MAX_U64 then Some(ValueOf(digits)) else None
  }

  /** The nonce `x` of the share with number `e`, all shares being of the same size. */
  function Placed(e: nat, share: nat, x: nat): nat {
    e * share + x
  }

  /** With a nonce of at most twelve digits the sum of both parts, and always a 64-bit number. */
  lemma CombinedNonce(extra: string, e: nat, nonce: string)
    requires IsExtranonce(extra, e) && IsHex(nonce) && |nonce| <= 12
    ensures ParseHex(FinalNonce(extra, nonce)) == Some(Placed(e, SHARE_OF_NONCES, ValueOf(nonce)))
    ensures ValueOf(nonce) < SHARE_OF_NONCES
  {
    var w := 16 - |extra|;
    ShareIs(w);
    CombinedParts(extra, nonce, w, SHARE_OF_NONCES);
  }

  lemma ShareIs(w: nat)
    requires w == 12
    ensures Pow16(w) == SHARE_OF_NONCES
  {
    assert Pow16(12) == SHARE_OF_NONCES;
  }

  lemma SpaceIs(w: nat)
    requires w == 16
    ensures Pow16(w) == MAX_U64 + 1
  {
    ShareIs(w - 4);
    assert Pow16(w - 3) == 16 * Pow16(w - 4) && Pow16(w - 2) == 16 * Pow16(w - 3) && Pow16(w - 1) == 16 * Pow16(w - 2);
  }

  lemma CombinedParts(extra: string, nonce: string, w: nat, share: nat)
    requires IsHex(extra) && IsHex(nonce) && 0 < |extra| && |extra| + w == 16 && |nonce| <= w && Pow16(w) == share
    ensures ParseHex(FinalNonce(extra, nonce)) == Some(Placed(ValueOf(extra), share, ValueOf(nonce)))
    ensures ValueOf(nonce) < share
  {
    var padded := PadLeft(nonce, w);
    PaddedValue(nonce, w);
    ValueBound(padded);
    ValueAppend(extra, padded);
    ParseFull(extra + padded);
  }

  /** Sixteen hex digits always parse. */
  lemma ParseFull(s: string)
    requires IsHex(s) && |s| == 16
    ensures ParseHex(s) == Some(ValueOf(s))
  {
    ValueBound(s);
    SpaceIs(|s|);
    assert s[0] in s;
  }

  /**
   * Any two of 65536 consecutive miners with an extranonce search disjoint ranges: no two
   * of their nonces, as the bridge combines them, are the same.
   */
  lemma DisjointRanges(i: nat, extra: string, nonce: string, j: nat, extra': string, nonce': string)
    requires i < j < i + 65536 && IsExtranonce(extra, i % 65536) && IsExtranonce(extra', j % 65536)
    requires IsHex(nonce) && |nonce| <= 12 && IsHex(nonce') && |nonce'| <= 12
    ensures ParseHex(FinalNonce(extra, nonce)) != ParseHex(FinalNonce(extra', nonce'))
  {
    IndicesDiffer(i, j);
    CombinedNonce(extra, i % 65536, nonce);
    CombinedNonce(extra', j % 65536, nonce');
    Separate(i % 65536, ValueOf(nonce), j % 65536, ValueOf(nonce'), SHARE_OF_NONCES);
  }

  lemma IndicesDiffer(i: nat, j: nat)
    requires i < j < i + 65536
    ensures i % 65536 != j % 65536
  {
  }

  lemma Separate(a: nat, x: nat, b: nat, y: nat, p: nat)
    requires a != b && x < p && y < p
    ensures Placed(a, p, x) != Placed(b, p, y)
  {
    if a < b {
      assert (a + 1) * p <= b * p;
    } else {
      assert (b + 1) * p <= a * p;
    }
  }

  /** A longer nonce is taken as it is, so the split binds only miners that leave room for it. */
  lemma LongNonceEscapes(extra: string, nonce: string)
    requires |extra| == 4 && IsHex(nonce) && 12 < |nonce| <= 16
    ensures ParseHex(FinalNonce(extra, nonce)) == Some(ValueOf(nonce))
  {
    ParseShort(nonce);
  }

  /** Up to sixteen hex digits parse to their value. */
  lemma ParseShort(nonce: string)
    requires IsHex(nonce) && 1 <= |nonce| <= 16
    ensures ParseHex(nonce) == Some(ValueOf(nonce))
  {
    var w := 16;
    ValueBound(nonce);
    Pow16Monotone(|nonce|, w);
    SpaceIs(w);
    assert nonce[0] in nonce;
  }

  /** The number of the share that a nonce falls into. */
  function ShareOf(x: nat): nat {
    x / SHARE_OF_NONCES
  }

  lemma PlacedShare(e: nat, x: nat)
    requires x < SHARE_OF_NONCES
    ensures ShareOf(Placed(e, SHARE_OF_NONCES, x)) == e
  {
  }

  /** A miner stays in its own share exactly when it leaves room for the extranonce, or spells the share itself. */
  lemma OwnShare(extra: string, e: nat, nonce: string)
    requires IsExtranonce(extra, e) && IsHex(nonce) && |nonce| <= 16
    ensures ParseHex(FinalNonce(extra, nonce)).Some?
    ensures ShareOf(ParseHex(FinalNonce(extra, nonce)).value) == e <==> |nonce| <= 12 || ShareOf(ValueOf(nonce)) == e
  {
    if |nonce| <= 12 {
      CombinedNonce(extra, e, nonce);
      PlacedShare(e, ValueOf(nonce));
    } else {
      LongNonceEscapes(extra, nonce);
    }
  }

  /** So with sixteen digits a miner can repeat any nonce of any other. */
  lemma LongNonceCollides(extra: string, e: nat, extra': string, e': nat, nonce': string)
    requires IsExtranonce(extra, e) && IsExtranonce(extra', e') && IsHex(nonce') && |nonce'| <= 12
    ensures ParseHex(FinalNonce(extra, extra' + PadLeft(nonce', 12))) == ParseHex(FinalNonce(extra', nonce'))
  {
  }

  lemma {:induction false} Pow16Monotone(n: nat, m: nat)
    requires n <= m
    ensures Pow16(n) <= Pow16(m)
  {
    if n < m {
      Pow16Monotone(n, m - 1);
    }
  }
}
