/** Hexadecimal text: of bytes, of numbers with and without a width, and back. */
module Hex {
  import opened Bytes
  import opened Endian
  import opened Wrappers

  function Digit(n: nat): char
    requires n < 16
  {
    "0123456789abcdef"[n]
  }

  function DigitValue(c: char): (v: Option<nat>)
    ensures v.Some? ==> v.value < 16
  {
    if '0' <= c <= '9' then Some((c - '0') as nat)
    else if 'a' <= c <= 'f' then Some((c - 'a') as nat + 10)
    else if 'A' <= c <= 'F' then Some((c - 'A') as nat + 10)
    else None
  }

  predicate IsHex(s: string) {
    forall c :: c in s ==> DigitValue(c).Some?
  }

  lemma DigitRoundTrip(n: nat)
    requires n < 16
    ensures DigitValue(Digit(n)) == Some(n)
  {
  }

  function Pow16(w: nat): (p: nat)
    ensures p >= 1
  {
    if w == 0 then 1 else 16 * Pow16(w - 1)
  }

  /** `{:x}`: as many digits as it takes. */
  function ToHex(n: nat): string {
    if n < 16 then [Digit(n)] else ToHex(n / 16) + [Digit(n % 16)]
  }

  function Zeros(n: nat): (s: string)
    ensures |s| == n && forall c :: c in s ==> c == '0'
  {
    seq(n, _ => '0')
  }

  /** `{:0>w}` */
  function PadLeft(s: string, w: nat): string {
    if |s| < w then Zeros(w - |s|) + s else s
  }

  /** Exactly `w` digits, the low ones. */
  function FixedHex(n: nat, w: nat): (s: string)
    ensures |s| == w
  {
    if w == 0 then "" else FixedHex(n / 16, w - 1) + [Digit(n % 16)]
  }

  lemma {:induction false} FixedZero(w: nat)
    ensures FixedHex(0, w) == Zeros(w)
  {
    if w > 0 {
      FixedZero(w - 1);
    }
  }

  /** A number that fits is padded to exactly its width. */
  lemma {:induction false} PaddedIsFixed(n: nat, w: nat)
    requires n < Pow16(w) && w > 0
    ensures |ToHex(n)| <= w && PadLeft(ToHex(n), w) == FixedHex(n, w)
  {
    if n < 16 {
      FixedZero(w - 1);
      assert n / 16 == 0;
    } else {
      PaddedIsFixed(n / 16, w - 1);
      assert PadLeft(ToHex(n), w) == PadLeft(ToHex(n / 16), w - 1) + [Digit(n % 16)];
    }
  }

  /** The value of a string of hex digits. */
  function ValueOf(s: string): nat
    requires IsHex(s)
  {
    if s == "" then 0 else 16 * ValueOf(s[..|s| - 1]) + DigitValue(s[|s| - 1]).value
  }

  lemma {:induction false} FixedValue(n: nat, w: nat)
    requires n < Pow16(w)
    ensures IsHex(FixedHex(n, w)) && ValueOf(FixedHex(n, w)) == n
  {
    if w > 0 {
      FixedValue(n / 16, w - 1);
      DigitRoundTrip(n % 16);
      var s := FixedHex(n, w);
      assert s[..|s| - 1] == FixedHex(n / 16, w - 1);
    }
  }

  lemma {:induction false} ValueBound(s: string)
    requires IsHex(s)
    ensures ValueOf(s) < Pow16(|s|)
  {
    if s != "" {
      ValueBound(s[..|s| - 1]);
    }
  }

  lemma {:induction false} ValueAppend(a: string, b: string)
    requires IsHex(a) && IsHex(b)
    ensures IsHex(a + b) && ValueOf(a + b) == ValueOf(a) * Pow16(|b|) + ValueOf(b)
  {
    if b == "" {
      assert a + b == a;
    } else {
      var n, ab := |b| - 1, a + b;
      ValueAppend(a, b[..n]);
      assert ab[..|ab| - 1] == a + b[..n] && ab[|ab| - 1] == b[n];
      Horner(ValueOf(a), Pow16(n), ValueOf(b[..n]), DigitValue(b[n]).value);
    }
  }

  lemma Horner(a: nat, p: nat, b: nat, d: nat)
    ensures 16 * (a * p + b) + d == a * (16 * p) + (16 * b + d)
  {
  }

  function LowerChar(c: char): char {
    if 'A' <= c <= 'F' then 'a' + (c - 'A') else c
  }

  function Lower(s: string): (r: string)
    ensures |r| == |s| && forall i :: 0 <= i < |s| ==> r[i] == LowerChar(s[i])
  {
    seq(|s|, i requires 0 <= i < |s| => LowerChar(s[i]))
  }

  lemma SameDigit(c: char, c': char)
    requires DigitValue(c).Some? && DigitValue(c').Some?
    ensures DigitValue(c) == DigitValue(c') <==> LowerChar(c) == LowerChar(c')
  {
  }

  /** Two spellings of one length have the same value exactly when they are the same in lower case. */
  lemma {:induction false} SameValue(a: string, b: string)
    requires IsHex(a) && IsHex(b) && |a| == |b|
    ensures ValueOf(a) == ValueOf(b) <==> Lower(a) == Lower(b)
  {
    if a != "" {
      var n := |a| - 1;
      SameValue(a[..n], b[..n]);
      SameDigit(a[n], b[n]);
      assert Lower(a) == Lower(a[..n]) + [LowerChar(a[n])] && Lower(b) == Lower(b[..n]) + [LowerChar(b[n])];
    }
  }

  /** Padding does not change the value. */
  lemma PaddedValue(s: string, w: nat)
    requires IsHex(s)
    ensures IsHex(PadLeft(s, w)) && ValueOf(PadLeft(s, w)) == ValueOf(s)
  {
    if |s| < w {
      ZerosValue(w - |s|);
      ValueAppend(Zeros(w - |s|), s);
    }
  }

  lemma Pow16Is(w: nat)
    requires w == 4
    ensures Pow16(w) == 65536
  {
    assert Pow16(1) == 16 && Pow16(2) == 256 && Pow16(3) == 4096;
  }

  lemma {:induction false} ZerosValue(n: nat)
    ensures IsHex(Zeros(n)) && ValueOf(Zeros(n)) == 0
  {
    if n > 0 {
      ZerosValue(n - 1);
      assert Zeros(n)[..n - 1] == Zeros(n - 1);
    }
  }

  /** `hex::encode` */
  function Encode(b: Bytes): (s: string)
    ensures |s| == 2 * |b|
  {
    if b == [] then "" else [Digit(b[0] / 16), Digit(b[0] % 16)] + Encode(b[1..])
  }

  /** The text of byte `i`: two digits in lower case, the high half first. */
  lemma {:induction false} EncodeAt(b: Bytes, i: nat)
    requires i < |b|
    ensures var hi, lo := Encode(b)[2 * i], Encode(b)[2 * i + 1];
            && hi in "0123456789abcdef" && lo in "0123456789abcdef"
            && (exists h: nat, l: nat :: DigitValue(hi) == Some(h) && DigitValue(lo) == Some(l) && b[i] == 16 * h + l)
  {
    if i > 0 {
      EncodeAt(b[1..], i - 1);
    } else {
      DigitRoundTrip(b[0] / 16);
      DigitRoundTrip(b[0] % 16);
      assert b[0] == 16 * (b[0] / 16) + b[0] % 16;
    }
  }

  function Decode(s: string): Option<Bytes> {
    if s == "" then Some([])
    else if |s| == 1 then None
    else
      var pair, rest := DecodePair(s[0], s[1]), Decode(s[2..]);
      if pair.Some? && rest.Some? then Some([pair.value] + rest.value) else None
  }

  function DecodePair(hi: char, lo: char): Option<byte> {
    var h, l := DigitValue(hi), DigitValue(lo);
    if h.Some? && l.Some? then Some(h.value * 16 + l.value) else None
  }

  lemma PairRoundTrip(x: byte)
    ensures DecodePair(Digit(x / 16), Digit(x % 16)) == Some(x)
  {
    DigitRoundTrip(x / 16);
    DigitRoundTrip(x % 16);
  }

  lemma {:induction false} DecodeEncode(b: Bytes)
    ensures Decode(Encode(b)) == Some(b)
  {
    if b != [] {
      DecodeEncode(b[1..]);
      PairRoundTrip(b[0]);
      var s := Encode(b);
      assert s[0] == Digit(b[0] / 16) && s[1] == Digit(b[0] % 16) && s[2..] == Encode(b[1..]);
      assert b == [b[0]] + b[1..];
    }
  }

  lemma {:induction false} EncodeSnoc(b: Bytes, x: byte)
    ensures Encode(b + [x]) == Encode(b) + [Digit(x / 16), Digit(x % 16)]
  {
    if b == [] {
      assert [x][1..] == [];
    } else {
      assert (b + [x])[1..] == b[1..] + [x];
      EncodeSnoc(b[1..], x);
    }
  }

  lemma {:induction false} EncodeAppend(a: Bytes, b: Bytes)
    ensures Encode(a + b) == Encode(a) + Encode(b)
  {
    if a == [] {
      assert a + b == b;
    } else {
      assert (a + b)[1..] == a[1..] + b;
      EncodeAppend(a[1..], b);
    }
  }

  /** Bytes as text are the digits of the number they spell, most significant first. */
  lemma {:induction false} FixedIsEncoded(n: nat, w: nat)
    ensures FixedHex(n, 2 * w) == Encode(ToBE(n, w))
  {
    if w > 0 {
      FixedIsEncoded(n / 256, w - 1);
      assert ToLE(n, w)[1..] == ToLE(n / 256, w - 1);
      assert ToBE(n, w) == ToBE(n / 256, w - 1) + [n % 256];
      EncodeSnoc(ToBE(n / 256, w - 1), n % 256);
      assert n / 16 / 16 == n / 256 && n / 16 % 16 == n % 256 / 16 && n % 16 == n % 256 % 16;
    }
  }

  lemma {:induction false} PowersAgree(w: nat)
    ensures Pow16(2 * w) == Pow256(w)
  {
    if w > 0 {
      PowersAgree(w - 1);
    }
  }
}
