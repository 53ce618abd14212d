/** Per-pixel colour arithmetic shared by both encoders: the full-range
    BT.601 luma and colour-difference weights rounded to three decimals,
    channel sums over a group of pixels, and the saturating store into an
    unsigned char. */
module Colour {

  import opened Seqs

  /** An unsigned char. */
  type byte = x: int | 0 <= x < 256

  /** One pixel of an 8-bit, three-channel OpenCV image; the channels are in
      OpenCV's order, so bgr[0] is blue, bgr[1] green and bgr[2] red. */
  datatype Bgr = Bgr(b: byte, g: byte, r: byte)

  datatype Channel = Blue | Green | Red

  function Value(p: Bgr, c: Channel): byte
  {
    match c
    case Blue => p.b
    case Green => p.g
    case Red => p.r
  }

  /** The store `v > 255 ? 255 : v < 0 ? 0 : (unsigned char) v`: saturation at
      both ends, and in between the cast truncates toward zero (it never
      rounds up). */
  function Saturate(v: real): (c: byte)
    ensures v > 255.0 ==> c == 255
    ensures v < 0.0 ==> c == 0
    ensures 0.0 <= v <= 255.0 ==> c as real <= v < c as real + 1.0
  {
    if v > 255.0 then 255 else if v < 0.0 then 0 else v.Floor
  }

  /** Saturation preserves order, so a larger computed value never stores a
      smaller byte. */
  lemma SaturateMonotone(v: real, v': real)
    requires v <= v'
    ensures Saturate(v) <= Saturate(v')
  {
    if 0.0 <= v && v' <= 255.0 {
      assert Saturate(v) as real <= v <= v' < Saturate(v') as real + 1.0;
    }
  }

  /** Luma of one pixel: 0.299 R + 0.587 G + 0.114 B. */
  function Luma(p: Bgr): real
  {
    p.r as real * 0.299 + p.g as real * 0.587 + p.b as real * 0.114
  }

  /** The weights sum to one, so luma never leaves [0, 255] and neither clamp
      of the luma store is ever taken: the stored byte is the truncation. */
  lemma LumaInRange(p: Bgr)
    ensures 0.0 <= Luma(p) <= 255.0
    ensures Saturate(Luma(p)) == Luma(p).Floor
  {
  }

  /** Sum of one channel over a group of pixels. */
  function Sum(ps: seq<Bgr>, c: Channel): (s: nat)
    ensures s <= 255 * |ps|
  {
    if ps == [] then 0 else Value(ps[0], c) + Sum(ps[1..], c)
  }

  /** Mean of one channel over a non-empty group of pixels. */
  function Mean(ps: seq<Bgr>, c: Channel): real
    requires |ps| > 0
  {
    Sum(ps, c) as real / |ps| as real
  }

  /** The colour-difference equations applied to one (R, G, B) triple. */
  function U(r: real, g: real, b: real): real
  {
    r * (-0.169) + g * (-0.331) + b * 0.500 + 128.0
  }

  function V(r: real, g: real, b: real): real
  {
    r * 0.500 + g * (-0.419) + b * (-0.081) + 128.0
  }

  /** Shared U and V of a horizontal pair, computed as the packing loop does
      from the pair's channel sums divided by 2. */
  function PairU(p0: Bgr, p1: Bgr): real
  {
    (p0.r + p1.r) as real * (-0.169) / 2.0 + (p0.g + p1.g) as real * (-0.331) / 2.0
      + (p0.b + p1.b) as real * 0.500 / 2.0 + 128.0
  }

  function PairV(p0: Bgr, p1: Bgr): real
  {
    (p0.r + p1.r) as real * 0.500 / 2.0 + (p0.g + p1.g) as real * (-0.419) / 2.0
      + (p0.b + p1.b) as real * (-0.081) / 2.0 + 128.0
  }

  /** Shared U and V of a 2x2 block, computed from the four pixels' channel
      sums divided by 4. */
  function BlockU(p00: Bgr, p01: Bgr, p10: Bgr, p11: Bgr): real
  {
    (p00.r + p01.r + p10.r + p11.r) as real * (-0.169) / 4.0
      + (p00.g + p01.g + p10.g + p11.g) as real * (-0.331) / 4.0
      + (p00.b + p01.b + p10.b + p11.b) as real * 0.500 / 4.0 + 128.0
  }

  function BlockV(p00: Bgr, p01: Bgr, p10: Bgr, p11: Bgr): real
  {
    (p00.r + p01.r + p10.r + p11.r) as real * 0.500 / 4.0
      + (p00.g + p01.g + p10.g + p11.g) as real * (-0.419) / 4.0
      + (p00.b + p01.b + p10.b + p11.b) as real * (-0.081) / 4.0 + 128.0
  }

  lemma {:induction false} SumConcat(a: seq<Bgr>, b: seq<Bgr>, c: Channel)
    ensures Sum(a + b, c) == Sum(a, c) + Sum(b, c)
  {
    if a == [] {
      assert a + b == b;
    } else {
      assert (a + b)[1..] == a[1..] + b;
      SumConcat(a[1..], b, c);
    }
  }

  /** Taking pixel i out of a group removes exactly its value from the sum. */
  lemma SumRemove(qs: seq<Bgr>, i: nat, c: Channel)
    requires i < |qs|
    ensures Sum(qs, c) == Value(qs[i], c) + Sum(qs[..i] + qs[i + 1..], c)
  {
    assert qs == qs[..i] + ([qs[i]] + qs[i + 1..]);
    SumConcat(qs[..i], [qs[i]] + qs[i + 1..], c);
    SumConcat(qs[..i], qs[i + 1..], c);
    assert ([qs[i]] + qs[i + 1..])[1..] == qs[i + 1..];
  }

  /** Channel sums do not depend on the order of the pixels: any two groups
      holding the same pixels (as a multiset) have the same sums. */
  lemma {:induction false} SumPermutation(ps: seq<Bgr>, qs: seq<Bgr>, c: Channel)
    requires multiset(ps) == multiset(qs)
    ensures Sum(ps, c) == Sum(qs, c)
  {
    if ps == [] {
      assert |qs| == |multiset(qs)| == 0;
    } else {
      var i := MultisetHead(ps, qs);
      SumPermutation(ps[1..], qs[..i] + qs[i + 1..], c);
      SumRemove(qs, i, c);
    }
  }

  /** Channel means do not depend on the order of the pixels. */
  lemma MeanPermutation(ps: seq<Bgr>, qs: seq<Bgr>, c: Channel)
    requires |ps| > 0 && multiset(ps) == multiset(qs)
    ensures |qs| == |ps| && Mean(qs, c) == Mean(ps, c)
  {
    assert |qs| == |multiset(qs)| == |multiset(ps)| == |ps|;
    SumPermutation(ps, qs, c);
  }

  /** The pair formula is the colour-difference transform of the pair's mean
      colour. */
  lemma PairChromaIsMeanTransform(p0: Bgr, p1: Bgr)
    ensures var ps := [p0, p1];
      && PairU(p0, p1) == U(Mean(ps, Red), Mean(ps, Green), Mean(ps, Blue))
      && PairV(p0, p1) == V(Mean(ps, Red), Mean(ps, Green), Mean(ps, Blue))
  {
    var ps := [p0, p1];
    assert ps[1..] == [p1];
    assert Sum(ps, Red) == p0.r + p1.r;
    assert Sum(ps, Green) == p0.g + p1.g;
    assert Sum(ps, Blue) == p0.b + p1.b;
    assert Mean(ps, Red) == (p0.r + p1.r) as real / 2.0;
    assert Mean(ps, Green) == (p0.g + p1.g) as real / 2.0;
    assert Mean(ps, Blue) == (p0.b + p1.b) as real / 2.0;
  }

  /** The block formula is the colour-difference transform of the block's
      mean colour. */
  lemma BlockChromaIsMeanTransform(p00: Bgr, p01: Bgr, p10: Bgr, p11: Bgr)
    ensures var ps := [p00, p01, p10, p11];
      && BlockU(p00, p01, p10, p11) == U(Mean(ps, Red), Mean(ps, Green), Mean(ps, Blue))
      && BlockV(p00, p01, p10, p11) == V(Mean(ps, Red), Mean(ps, Green), Mean(ps, Blue))
  {
    var ps := [p00, p01, p10, p11];
    assert ps == [p00, p01] + [p10, p11];
    assert [p00, p01][1..] == [p01] && [p10, p11][1..] == [p11];
    SumConcat([p00, p01], [p10, p11], Red);
    SumConcat([p00, p01], [p10, p11], Green);
    SumConcat([p00, p01], [p10, p11], Blue);
    assert Mean(ps, Red) == (p00.r + p01.r + p10.r + p11.r) as real / 4.0;
    assert Mean(ps, Green) == (p00.g + p01.g + p10.g + p11.g) as real / 4.0;
    assert Mean(ps, Blue) == (p00.b + p01.b + p10.b + p11.b) as real / 4.0;
  }

  /** Permuting the four pixels of a block leaves its U and V unchanged. */
  lemma BlockChromaPermutation(p00: Bgr, p01: Bgr, p10: Bgr, p11: Bgr,
                               q00: Bgr, q01: Bgr, q10: Bgr, q11: Bgr)
    requires multiset([p00, p01, p10, p11]) == multiset([q00, q01, q10, q11])
    ensures BlockU(q00, q01, q10, q11) == BlockU(p00, p01, p10, p11)
    ensures BlockV(q00, q01, q10, q11) == BlockV(p00, p01, p10, p11)
  {
    var ps, qs := [p00, p01, p10, p11], [q00, q01, q10, q11];
    BlockChromaIsMeanTransform(p00, p01, p10, p11);
    BlockChromaIsMeanTransform(q00, q01, q10, q11);
    MeanPermutation(ps, qs, Red);
    MeanPermutation(ps, qs, Green);
    MeanPermutation(ps, qs, Blue);
  }

  /** Swapping the two pixels of a pair leaves its U and V unchanged. */
  lemma PairChromaSwap(p0: Bgr, p1: Bgr)
    ensures PairU(p1, p0) == PairU(p0, p1) && PairV(p1, p0) == PairV(p0, p1)
  {
  }

  /** Shared U and V lie in [0.5, 255.5]: the `< 0` clamp of the chroma
      store is never taken, while the `> 255` clamp is (see BlueSaturatesU). */
  lemma ChromaBounds(p00: Bgr, p01: Bgr, p10: Bgr, p11: Bgr)
    ensures 0.5 <= PairU(p00, p01) <= 255.5 && 0.5 <= PairV(p00, p01) <= 255.5
    ensures 0.5 <= BlockU(p00, p01, p10, p11) <= 255.5
    ensures 0.5 <= BlockV(p00, p01, p10, p11) <= 255.5
  {
  }

  const White := Bgr(255, 255, 255)

  /** A white pair stores luma 255 and neutral chroma 128 in both U and V. */
  lemma WhitePair()
    ensures Saturate(Luma(White)) == 255
    ensures Saturate(PairU(White, White)) == 128
    ensures Saturate(PairV(White, White)) == 128
  {
  }

  /** A pair of saturated blue pixels computes U = 255.5, so the upper clamp
      is reachable and stores 255. */
  lemma BlueSaturatesU()
    ensures PairU(Bgr(255, 0, 0), Bgr(255, 0, 0)) == 255.5
    ensures Saturate(PairU(Bgr(255, 0, 0), Bgr(255, 0, 0))) == 255
  {
  }

  /** The block red, green / blue, white averages to grey 127.5 in every
      channel, which has no colour difference: U = V = 128. */
  lemma PrimariesBlockIsNeutral()
    ensures BlockU(Bgr(0, 0, 255), Bgr(0, 255, 0), Bgr(255, 0, 0), White) == 128.0
    ensures BlockV(Bgr(0, 0, 255), Bgr(0, 255, 0), Bgr(255, 0, 0), White) == 128.0
  {
  }
}
