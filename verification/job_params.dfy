/** The two encodings of a job, hash and time, that are sent to miners; they are the same text. */
module JobParams {
  import opened Wrappers
  import opened Bytes
  import opened Endian
  import opened Hex

  /** `generate_iceriver_job_params` */
  function IceRiverParams(hash: Bytes, timestamp: nat): string {
    Encode(hash) + Encode(ToLE(timestamp, 8))
  }

  function Hex16(n: nat): string {
    PadLeft(ToHex(n), 16)
  }

  /** One word of the hash: its eight bytes, most significant first. */
  function Word(data: Bytes, i: nat): nat
    requires i < 4 && 8 * i + 8 <= |data|
  {
    FromBE(data[8 * i..8 * i + 8])
  }

  lemma WordText(b: Bytes)
    requires |b| == 8
    ensures Hex16(FromBE(b)) == Encode(b)
  {
    ToFromLE(Reversed(b));
    PowersAgree(8);
    PaddedIsFixed(FromBE(b), 16);
    FixedIsEncoded(FromBE(b), 8);
    ReversedTwice(b);
  }

  /** The swapped time reads, as a big-endian word, like the time in little-endian bytes. */
  lemma SwappedText(timestamp: nat)
    ensures Hex16(FromLE(ToBE(timestamp, 8))) == Encode(ToLE(timestamp, 8))
  {
    var le, be := ToLE(timestamp, 8), ToBE(timestamp, 8);
    ReversedTwice(le);
    assert FromLE(be) == FromBE(le);
    WordText(le);
  }

  lemma FourWords(h: Bytes)
    requires |h| == 32
    ensures Encode(h) == Encode(h[0..8]) + Encode(h[8..16]) + Encode(h[16..24]) + Encode(h[24..32])
  {
    SplitText(h, 24);
    SplitText(h[..24], 16);
    SplitText(h[..16], 8);
    assert h[..24][..16] == h[..16] && h[..24][16..] == h[16..24];
    assert h[..16][..8] == h[0..8] && h[..16][8..] == h[8..16] && h[24..] == h[24..32];
  }

  lemma SplitText(b: Bytes, n: nat)
    requires n <= |b|
    ensures Encode(b) == Encode(b[..n]) + Encode(b[n..])
  {
    EncodeAppend(b[..n], b[n..]);
    assert b == b[..n] + b[n..];
  }

  /**
   * `generate_large_job_params`. With fewer than 32 bytes it indexes a word that was never
   * read and panics; with more it uses the first 32. Otherwise the text is the other encoder's.
   */
  method LargeParams(data: Bytes, timestamp: nat) returns (text: Option<string>)
    requires timestamp < Pow256(8)
    ensures text.None? <==> |data| < 32
    ensures text.Some? ==> text.value == IceRiverParams(data[..32], timestamp) && |text.value| == 80
  {
    var ids := [];
    for i := 0 to 4
      invariant forall j :: 0 <= j < i && 8 * j + 8 <= |data| ==> j < |ids| && ids[j] == Word(data, j)
      invariant |ids| <= i && (8 * i <= |data| <==> |ids| == i)
    {
      var offset := i * 8;
      if offset + 8 <= |data| {
        ids := ids + [FromBE(data[offset..offset + 8])];
      }
    }
    var swapped := FromLE(ToBE(timestamp, 8));
    ids := ids + [swapped];
    if |ids| < 5 {
      return None;
    }
    FiveWords(data, timestamp);
    text := Some(Hex16(ids[0]) + Hex16(ids[1]) + Hex16(ids[2]) + Hex16(ids[3]) + Hex16(ids[4]));
  }

  /** The five words in sixteen digits each are hash and time in the other encoder's bytes. */
  lemma FiveWords(data: Bytes, timestamp: nat)
    requires |data| >= 32
    ensures Hex16(Word(data, 0)) + Hex16(Word(data, 1)) + Hex16(Word(data, 2)) + Hex16(Word(data, 3)) +
            Hex16(FromLE(ToBE(timestamp, 8))) == IceRiverParams(data[..32], timestamp)
  {
    var h := data[..32];
    assert h[0..8] == data[0..8] && h[8..16] == data[8..16] && h[16..24] == data[16..24] && h[24..32] == data[24..32];
    WordText(data[0..8]);
    WordText(data[8..16]);
    WordText(data[16..24]);
    WordText(data[24..32]);
    SwappedText(timestamp);
    FourWords(h);
  }

  /** How a miner reads the text back. */
  function ReadParams(text: string): Option<(Bytes, nat)> {
    if |text| != 80 then None
    else
      match (Decode(text[..64]), Decode(text[64..]))
      case (Some(hash), Some(time)) => Some((hash, FromLE(time)))
      case _ => None
  }

  lemma ReadBack(hash: Bytes, timestamp: nat)
    requires |hash| == 32 && timestamp < Pow256(8)
    ensures ReadParams(IceRiverParams(hash, timestamp)) == Some((hash, timestamp))
  {
    var text := IceRiverParams(hash, timestamp);
    assert text[..64] == Encode(hash) && text[64..] == Encode(ToLE(timestamp, 8));
    DecodeEncode(hash);
    DecodeEncode(ToLE(timestamp, 8));
    FromToLE(timestamp, 8);
  }
}
