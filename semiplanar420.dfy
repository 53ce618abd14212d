/** Benchmark block [3] (cvtColorTwoPlane, semi-planar YUV to BGR): the loop
    that turns the decoded BGR image into the two planes read as
    COLOR_YUV2RGB_NV21. For every 2x2 block with top-left pixel (x, y), x and
    y even, it stores the four lumas at the pixels' own positions of a w*h
    luma plane, and one U, V pair computed from the block's channel sums at
    y*(w/2) + x and y*(w/2) + x + 1 of a (w/2)*(h/2)*2 chroma plane, U first. */
module SemiPlanar420 {
  import opened Colour
  import opened Arith
  import opened Seqs

  /** The four pixels of a 2x2 block: row y then row y+1, left then right. */
  datatype Block = Block(p00: Bgr, p01: Bgr, p10: Bgr, p11: Bgr)

  /** The image dimensions the loop runs on: both even, w*h pixels. */
  predicate Dims(src: seq<Bgr>, w: nat, h: nat)
  {
    w % 2 == 0 && h % 2 == 0 && |src| == w * h
  }

  /** The block at an even row and column lies wholly inside the image. */
  lemma BlockBound(w: nat, h: nat, y: nat, x: nat)
    requires w % 2 == 0 && h % 2 == 0 && y % 2 == 0 && x % 2 == 0 && y < h && x < w
    ensures x + 2 <= w && y + 2 <= h
    ensures (y + 1) * w == y * w + w && (y + 1) * w + x + 1 < w * h
  {
    RowEnd(y, w, h);
    RowBound(y + 1, x + 1, w, h);
  }

  function BlockAt(src: seq<Bgr>, w: nat, h: nat, y: nat, x: nat): Block
    requires Dims(src, w, h) && y % 2 == 0 && x % 2 == 0 && y < h && x < w
  {
    BlockBound(w, h, y, x);
    Block(src[y * w + x], src[y * w + x + 1], src[(y + 1) * w + x], src[(y + 1) * w + x + 1])
  }

  function BlockUByte(b: Block): byte
  {
    Saturate(BlockU(b.p00, b.p01, b.p10, b.p11))
  }

  function BlockVByte(b: Block): byte
  {
    Saturate(BlockV(b.p00, b.p01, b.p10, b.p11))
  }

  /** The luma plane: byte k is the stored luma of pixel k. */
  function LumaPlane(src: seq<Bgr>): (plane: seq<byte>)
    ensures |plane| == |src|
  {
    if src == [] then [] else LumaPlane(src[..|src| - 1]) + [Saturate(Luma(src[|src| - 1]))]
  }

  lemma {:induction false} LumaPlaneAt(src: seq<Bgr>, k: nat)
    requires k < |src|
    ensures LumaPlane(src)[k] == Saturate(Luma(src[k]))
  {
    var n := |src|;
    if k < n - 1 {
      LumaPlaneAt(src[..n - 1], k);
      assert LumaPlane(src)[k] == LumaPlane(src[..n - 1])[k];
    }
  }

  /** Size of the chroma plane: (w/2)*(h/2) elements of two bytes. */
  function ChromaSize(w: nat, h: nat): nat
  {
    (w / 2) * (h / 2) * 2
  }

  /** Every byte j of the chroma plane is slot j % 2 of the block at row
      2*(j/2/(w/2)), column 2*(j/2 % (w/2)), and that block is inside the
      image. */
  lemma ChromaPositionCovers(w: nat, h: nat, j: nat)
    requires w % 2 == 0 && h % 2 == 0 && j < ChromaSize(w, h)
    ensures w > 0
    ensures var y, x := j / 2 / (w / 2) * 2, j / 2 % (w / 2) * 2;
      y < h && x < w && y * (w / 2) + x + j % 2 == j
  {
    var hw := w / 2;
    assert hw > 0;
    var m := j / 2;
    var row, col := m / hw, m % hw;
    assert j == 2 * m + j % 2;
    assert m == row * hw + col;
    assert row * 2 * hw + col * 2 == 2 * m;
    assert m < hw * (h / 2);
    if row >= h / 2 {
      MulNonneg(row - h / 2, hw);
    }
  }

  /** The block a chroma byte belongs to. */
  function ChromaBlock(src: seq<Bgr>, w: nat, h: nat, j: nat): Block
    requires Dims(src, w, h) && j < ChromaSize(w, h)
  {
    ChromaPositionCovers(w, h, j);
    BlockAt(src, w, h, j / 2 / (w / 2) * 2, j / 2 % (w / 2) * 2)
  }

  /** Byte j of the chroma plane: U of its block when j is even, V when odd. */
  function ChromaByte(src: seq<Bgr>, w: nat, h: nat, j: nat): byte
    requires Dims(src, w, h) && j < ChromaSize(w, h)
  {
    if j % 2 == 0 then BlockUByte(ChromaBlock(src, w, h, j)) else BlockVByte(ChromaBlock(src, w, h, j))
  }

  /** The first n bytes of the chroma plane. */
  function ChromaPrefix(src: seq<Bgr>, w: nat, h: nat, n: nat): (plane: seq<byte>)
    requires Dims(src, w, h) && n <= ChromaSize(w, h)
    ensures |plane| == n
  {
    if n == 0 then [] else ChromaPrefix(src, w, h, n - 1) + [ChromaByte(src, w, h, n - 1)]
  }

  /** The chroma plane. */
  function ChromaPlane(src: seq<Bgr>, w: nat, h: nat): (plane: seq<byte>)
    requires Dims(src, w, h)
    ensures |plane| == ChromaSize(w, h)
  {
    ChromaPrefix(src, w, h, ChromaSize(w, h))
  }

  lemma {:induction false} ChromaPrefixAt(src: seq<Bgr>, w: nat, h: nat, n: nat, j: nat)
    requires Dims(src, w, h) && j < n <= ChromaSize(w, h)
    ensures ChromaPrefix(src, w, h, n)[j] == ChromaByte(src, w, h, j)
  {
    if j < n - 1 {
      ChromaPrefixAt(src, w, h, n - 1, j);
    }
  }

  /** Write positions in the chroma plane never collide: slot c of the block
      at (x, y) goes to y*(w/2) + x + c, inside the plane, and that position
      alone gives back y, x and c. It is byte x of row y/2 when the plane is
      read as w bytes per row. */
  lemma ChromaPositionDecodes(w: nat, h: nat, y: nat, x: nat, c: nat)
    requires w % 2 == 0 && h % 2 == 0 && y % 2 == 0 && x % 2 == 0 && y < h && x < w && c < 2
    ensures y * (w / 2) == y / 2 * w
    ensures var j := y * (w / 2) + x + c;
      && j < ChromaSize(w, h)
      && j % 2 == c && j / 2 / (w / 2) * 2 == y && j / 2 % (w / 2) * 2 == x
  {
    var hw := w / 2;
    var j := y * hw + x + c;
    HalfRow(y, w);
    assert y * hw + x == 2 * ((y / 2) * hw + x / 2);
    DivModUnique(j, 2, (y / 2) * hw + x / 2, c);
    DivModUnique((y / 2) * hw + x / 2, hw, y / 2, x / 2);
    RowBound(y / 2, x / 2, hw, h / 2);
    assert j < 2 * ((h / 2) * hw);
  }

  /** Write positions in the luma plane never collide: pixel (x+dx, y+dy) of
      the block at (x, y) goes to (y+dy)*w + x+dx, inside the plane, and that
      position alone gives back its row and column. */
  lemma LumaPositionDecodes(w: nat, h: nat, y: nat, x: nat, dy: nat, dx: nat)
    requires w % 2 == 0 && h % 2 == 0 && y % 2 == 0 && x % 2 == 0 && y < h && x < w
    requires dy < 2 && dx < 2
    ensures var k := (y + dy) * w + x + dx;
      k < w * h && k / w == y + dy && k % w == x + dx
  {
    BlockBound(w, h, y, x);
    RowBound(y + dy, x + dx, w, h);
    DivModUnique((y + dy) * w + x + dx, w, y + dy, x + dx);
  }

  /** Write positions cover the luma plane: every byte k < w*h is pixel
      (k % w % 2, k / w % 2) of the block at row k/w - k/w % 2 and column
      k % w - k % w % 2. */
  lemma LumaPositionCovers(w: nat, h: nat, k: nat)
    requires w % 2 == 0 && h % 2 == 0 && k < w * h
    ensures w > 0
    ensures var r, c := k / w, k % w;
      var y, x := r - r % 2, c - c % 2;
      y % 2 == 0 && x % 2 == 0 && y < h && x < w && (y + r % 2) * w + x + c % 2 == k
  {
    assert w > 0;
    var r := k / w;
    if r >= h {
      MulNonneg(r - h, w);
    }
  }

  /** Bytes y*(w/2) + x and y*(w/2) + x + 1 of the chroma plane are the U and
      V of the block at (x, y). */
  lemma ChromaAt(src: seq<Bgr>, w: nat, h: nat, y: nat, x: nat)
    requires Dims(src, w, h) && y % 2 == 0 && x % 2 == 0 && y < h && x < w
    ensures y * (w / 2) + x + 1 < |ChromaPlane(src, w, h)|
    ensures ChromaPlane(src, w, h)[y * (w / 2) + x] == BlockUByte(BlockAt(src, w, h, y, x))
    ensures ChromaPlane(src, w, h)[y * (w / 2) + x + 1] == BlockVByte(BlockAt(src, w, h, y, x))
  {
    var j := y * (w / 2) + x;
    ChromaPositionDecodes(w, h, y, x, 0);
    ChromaPositionDecodes(w, h, y, x, 1);
    ChromaPrefixAt(src, w, h, ChromaSize(w, h), j);
    ChromaPrefixAt(src, w, h, ChromaSize(w, h), j + 1);
    assert ChromaBlock(src, w, h, j) == BlockAt(src, w, h, y, x);
    assert ChromaBlock(src, w, h, j + 1) == BlockAt(src, w, h, y, x);
  }

  /** The stored lumas of the block whose top-left pixel is row + x in an
      image w pixels wide. */
  lemma LumaValues(src: seq<Bgr>, w: nat, row: nat, x: nat)
    requires row + w + x + 1 < |src|
    ensures var lp := LumaPlane(src);
      && lp[row + x] == Saturate(Luma(src[row + x]))
      && lp[row + x + 1] == Saturate(Luma(src[row + x + 1]))
      && lp[row + w + x] == Saturate(Luma(src[row + w + x]))
      && lp[row + w + x + 1] == Saturate(Luma(src[row + w + x + 1]))
  {
    LumaPlaneAt(src, row + x);
    LumaPlaneAt(src, row + x + 1);
    LumaPlaneAt(src, row + w + x);
    LumaPlaneAt(src, row + w + x + 1);
  }

  /** What the loop body must store for the block at (x, y), in terms of the
      offsets row = y*w and crow = y*(w/2). */
  lemma BlockValues(src: seq<Bgr>, w: nat, h: nat, y: nat, x: nat, row: nat, crow: nat)
    requires Dims(src, w, h) && y % 2 == 0 && x % 2 == 0 && y < h && x < w
    requires row == Rows(y, w) && crow == Rows(y / 2, w)
    ensures row + w + x + 1 < |src| && crow + x + 1 < ChromaSize(w, h)
    ensures BlockAt(src, w, h, y, x)
      == Block(src[row + x], src[row + x + 1], src[row + w + x], src[row + w + x + 1])
    ensures ChromaPlane(src, w, h)[crow + x] == BlockUByte(BlockAt(src, w, h, y, x))
    ensures ChromaPlane(src, w, h)[crow + x + 1] == BlockVByte(BlockAt(src, w, h, y, x))
  {
    RowsProduct(y, w);
    RowsProduct(y / 2, w);
    HalfRow(y, w);
    BlockBound(w, h, y, x);
    ChromaAt(src, w, h, y, x);
  }

  /** Progress of the two-plane loop in the luma plane inside the row pair
      that starts at offset row: every earlier row, and columns before x of
      the two rows of the pair, hold their final values. */
  ghost predicate LumaStored(l: seq<byte>, lp: seq<byte>, w: nat, row: nat, x: nat)
  {
    && |l| == |lp| && x <= w && row + w + w <= |l|
    && l[..row] == lp[..row]
    && l[row..row + x] == lp[row..row + x]
    && l[row + w..row + w + x] == lp[row + w..row + w + x]
  }

  /** Once both rows of a pair are complete, everything up to the end of the
      pair holds its final value. */
  lemma LumaRowsDone(l: seq<byte>, lp: seq<byte>, w: nat, row: nat)
    requires LumaStored(l, lp, w, row, w)
    ensures l[..row + w + w] == lp[..row + w + w]
  {
    SliceJoin(l, lp, row, row + w);
    SliceJoin(l, lp, row + w, row + w + w);
  }

  /** Progress in the chroma plane: the first n bytes hold their final values. */
  ghost predicate ChromaStored(c: seq<byte>, cp: seq<byte>, n: nat)
  {
    |c| == |cp| && n <= |c| && c[..n] == cp[..n]
  }

  ghost predicate Stored(l: seq<byte>, c: seq<byte>, lp: seq<byte>, cp: seq<byte>,
                         w: nat, row: nat, crow: nat, x: nat)
  {
    LumaStored(l, lp, w, row, x) && ChromaStored(c, cp, crow + x)
  }

  /** Stores the four lumas of the block at column x of the row pair that
      starts at offset row: indices row + x, row + x + 1, row + w + x and
      row + w + x + 1. */
  method StoreLumas(luma: array<byte>, w: nat, row: nat, x: nat,
                    b00: byte, b01: byte, b10: byte, b11: byte, ghost lp: seq<byte>)
    requires x + 2 <= w && LumaStored(luma[..], lp, w, row, x)
    requires lp[row + x] == b00 && lp[row + x + 1] == b01
    requires lp[row + w + x] == b10 && lp[row + w + x + 1] == b11
    modifies luma
    ensures LumaStored(luma[..], lp, w, row, x + 2)
  {
    ghost var l0 := luma[..];
    luma[row + x] := b00;
    luma[row + x + 1] := b01;
    luma[row + w + x] := b10;
    luma[row + w + x + 1] := b11;
    assert luma[..row] == l0[..row];
    forall k | row <= k < row + x + 2 ensures luma[k] == lp[k] {
      if k < row + x { assert luma[k] == l0[row..row + x][k - row]; }
    }
    forall k | row + w <= k < row + w + x + 2 ensures luma[k] == lp[k] {
      if k < row + w + x { assert luma[k] == l0[row + w..row + w + x][k - row - w]; }
    }
  }

  /** Stores the U and V of one block at chroma indices n and n + 1. */
  method StoreChroma(chroma: array<byte>, n: nat, u: byte, v: byte, ghost cp: seq<byte>)
    requires n + 2 <= |cp| && ChromaStored(chroma[..], cp, n)
    requires cp[n] == u && cp[n + 1] == v
    modifies chroma
    ensures ChromaStored(chroma[..], cp, n + 2)
  {
    ghost var c0 := chroma[..];
    chroma[n] := u;
    chroma[n + 1] := v;
    forall k | 0 <= k < n + 2 ensures chroma[k] == cp[k] {
      if k < n { assert chroma[k] == c0[..n][k]; }
    }
  }

  /** The body of the two-plane loop for the block at (x, y), where row is
      y*w and crow is y*(w/2): compute the four lumas and the block's u and
      v, and store the lumas at y*w + x, y*w + x + 1, (y+1)*w + x,
      (y+1)*w + x + 1 and u, v at y*(w/2) + x and y*(w/2) + x + 1. The
      planes lp and cp hold what those bytes must become (BlockValues); the
      loop's progress advances by one block. */
  method StoreBlock(luma: array<byte>, chroma: array<byte>, src: seq<Bgr>, w: nat, x: nat,
                    row: nat, crow: nat, ghost lp: seq<byte>, ghost cp: seq<byte>)
    requires luma.Length == |src| && luma != chroma
    requires x + 2 <= w && crow + x + 2 <= |cp|
    requires Stored(luma[..], chroma[..], lp, cp, w, row, crow, x)
    requires lp[row + x] == Saturate(Luma(src[row + x]))
    requires lp[row + x + 1] == Saturate(Luma(src[row + x + 1]))
    requires lp[row + w + x] == Saturate(Luma(src[row + w + x]))
    requires lp[row + w + x + 1] == Saturate(Luma(src[row + w + x + 1]))
    requires cp[crow + x] == BlockUByte(Block(src[row + x], src[row + x + 1], src[row + w + x], src[row + w + x + 1]))
    requires cp[crow + x + 1] == BlockVByte(Block(src[row + x], src[row + x + 1], src[row + w + x], src[row + w + x + 1]))
    modifies luma, chroma
    ensures Stored(luma[..], chroma[..], lp, cp, w, row, crow, x + 2)
  {
    var p00, p01 := src[row + x], src[row + x + 1];
    var p10, p11 := src[row + w + x], src[row + w + x + 1];
    var y00 := Luma(p00);
    var y01 := Luma(p01);
    var y10 := Luma(p10);
    var y11 := Luma(p11);
    var u := BlockU(p00, p01, p10, p11);
    var v := BlockV(p00, p01, p10, p11);
    StoreLumas(luma, w, row, x, Saturate(y00), Saturate(y01), Saturate(y10), Saturate(y11), lp);
    StoreChroma(chroma, crow + x, Saturate(u), Saturate(v), cp);
  }

  /** The inner loop of the two-plane encoder: the blocks of the row pair
      y, y + 1 (y*w = row, y*(w/2) = crow) from left to right. */
  method EncodeRowPair(luma: array<byte>, chroma: array<byte>, src: seq<Bgr>, w: nat, h: nat,
                       y: nat, row: nat, crow: nat, ghost lp: seq<byte>, ghost cp: seq<byte>)
    requires Dims(src, w, h) && y % 2 == 0 && y < h && row == Rows(y, w) && crow == Rows(y / 2, w)
    requires lp == LumaPlane(src) && cp == ChromaPlane(src, w, h)
    requires luma.Length == |src| && chroma.Length == |cp| && luma != chroma
    requires row + w + w <= |src| && crow + w <= |cp|
    requires luma[..row] == lp[..row] && chroma[..crow] == cp[..crow]
    modifies luma, chroma
    ensures luma[..row + w + w] == lp[..row + w + w] && chroma[..crow + w] == cp[..crow + w]
  {
    assert luma[row..row] == lp[row..row] && luma[row + w..row + w] == lp[row + w..row + w];
    var x := 0;
    while x < w
      invariant x % 2 == 0
      invariant Stored(luma[..], chroma[..], lp, cp, w, row, crow, x)
    {
      EvenStep(x, w);
      BlockValues(src, w, h, y, x, row, crow);
      LumaValues(src, w, row, x);
      StoreBlock(luma, chroma, src, w, x, row, crow, lp, cp);
      x := x + 2;
    }
    assert x == w;
    LumaRowsDone(luma[..], lp, w, row);
  }

  /** Moving from row y to row y + 2 advances the luma index by 2*w and the
      chroma index by w, both still inside their planes. */
  lemma RowPairStep(w: nat, h: nat, y: nat, row: nat, crow: nat, n: nat, m: nat)
    requires w % 2 == 0 && h % 2 == 0 && y % 2 == 0 && y < h
    requires row == y * w && crow == y * (w / 2) && n == w * h && m == ChromaSize(w, h)
    ensures y + 2 <= h && (y + 2) % 2 == 0
    ensures row + w + w <= n && row + w + w == (y + 2) * w
    ensures crow + w <= m && crow + w == (y + 2) * (w / 2)
  {
    RowEnd(y, w, h);
    RowEnd(y + 1, w, h);
    HalfRows(y, w, h);
  }

  /** After the last row pair both indices sit at the ends of their planes. */
  lemma LastRowPair(w: nat, h: nat, y: nat, row: nat, crow: nat, n: nat, m: nat)
    requires w % 2 == 0 && h % 2 == 0 && y == h
    requires row == y * w && crow == y * (w / 2) && n == w * h && m == ChromaSize(w, h)
    ensures row == n && crow == m
  {
    if h > 0 {
      HalfRows(0, w, h);
    }
  }

  /** The two-plane loop: for every even row y and even column x it handles
      the block at (x, y). The planes it fills are exactly the luma plane and
      the chroma plane of the image. */
  method EncodeSemiPlanar(src: seq<Bgr>, w: nat, h: nat) returns (luma: array<byte>, chroma: array<byte>)
    requires Dims(src, w, h)
    ensures fresh(luma) && fresh(chroma)
    ensures luma[..] == LumaPlane(src) && chroma[..] == ChromaPlane(src, w, h)
  {
    luma := new byte[w * h];
    chroma := new byte[(w / 2) * (h / 2) * 2];
    ghost var lp, cp := LumaPlane(src), ChromaPlane(src, w, h);
    ghost var n, m := |lp|, |cp|;
    var y := 0;
    ghost var done: nat, cdone: nat := 0, 0;
    while y < h
      invariant y <= h && y % 2 == 0
      invariant done == y * w && cdone == y * (w / 2) && done <= n && cdone <= m
      invariant luma[..done] == lp[..done]
      invariant chroma[..cdone] == cp[..cdone]
    {
      RowPairStep(w, h, y, done, cdone, n, m);
      var row, crow := y * w, y * (w / 2);
      assert row == done && crow == cdone;
      assert row == Rows(y, w) && crow == Rows(y / 2, w) by {
        RowsProduct(y, w);
        RowsProduct(y / 2, w);
        HalfRow(y, w);
      }
      EncodeRowPair(luma, chroma, src, w, h, y, row, crow, lp, cp);
      y, done, cdone := y + 2, row + w + w, crow + w;
    }
    LastRowPair(w, h, y, done, cdone, n, m);
    assert luma[..] == luma[..done] && chroma[..] == chroma[..cdone];
  }

  /** Byte k of the luma plane depends on pixel k alone: images that agree
      at k store the same luma there, whatever their other pixels. */
  lemma LumaIndependence(src: seq<Bgr>, src': seq<Bgr>, k: nat)
    requires |src| == |src'| && k < |src| && src[k] == src'[k]
    ensures LumaPlane(src)[k] == LumaPlane(src')[k]
  {
    LumaPlaneAt(src, k);
    LumaPlaneAt(src', k);
  }

  /** The U and V stored for a block depend only on the block's four pixels
      as a multiset: two images whose blocks at (x, y) hold the same pixels
      in any arrangement store the same chroma bytes for it, at
      y*(w/2) + x and y*(w/2) + x + 1. */
  lemma BlockPermutation(src: seq<Bgr>, src': seq<Bgr>, w: nat, h: nat, y: nat, x: nat)
    requires Dims(src, w, h) && Dims(src', w, h)
    requires y % 2 == 0 && x % 2 == 0 && y < h && x < w
    requires var b, b' := BlockAt(src, w, h, y, x), BlockAt(src', w, h, y, x);
      multiset([b.p00, b.p01, b.p10, b.p11]) == multiset([b'.p00, b'.p01, b'.p10, b'.p11])
    ensures 0 <= y * (w / 2) && y * (w / 2) + x + 1 < |ChromaPlane(src, w, h)| == |ChromaPlane(src', w, h)|
    ensures ChromaPlane(src', w, h)[y * (w / 2) + x] == ChromaPlane(src, w, h)[y * (w / 2) + x]
    ensures ChromaPlane(src', w, h)[y * (w / 2) + x + 1] == ChromaPlane(src, w, h)[y * (w / 2) + x + 1]
  {
    var b, b' := BlockAt(src, w, h, y, x), BlockAt(src', w, h, y, x);
    MulNonneg(y, w / 2);
    ChromaAt(src, w, h, y, x);
    ChromaAt(src', w, h, y, x);
    BlockChromaPermutation(b.p00, b.p01, b.p10, b.p11, b'.p00, b'.p01, b'.p10, b'.p11);
  }

  /** The U and V of a white block are the neutral 128. */
  lemma WhiteBlockChroma()
    ensures BlockUByte(Block(White, White, White, White)) == 128
    ensures BlockVByte(Block(White, White, White, White)) == 128
  {
    assert BlockU(White, White, White, White) == 128.0;
    assert BlockV(White, White, White, White) == 128.0;
  }

  lemma WhiteBlock(src: seq<Bgr>, w: nat, h: nat, y: nat, x: nat)
    requires Dims(src, w, h) && forall k :: 0 <= k < |src| ==> src[k] == White
    requires y % 2 == 0 && x % 2 == 0 && y < h && x < w
    ensures BlockAt(src, w, h, y, x) == Block(White, White, White, White)
  {
    BlockBound(w, h, y, x);
  }

  lemma WhiteChromaBlock(src: seq<Bgr>, w: nat, h: nat, j: nat)
    requires Dims(src, w, h) && forall k :: 0 <= k < |src| ==> src[k] == White
    requires j < ChromaSize(w, h)
    ensures ChromaBlock(src, w, h, j) == Block(White, White, White, White)
  {
    ChromaPositionCovers(w, h, j);
    var y, x := j / 2 / (w / 2) * 2, j / 2 % (w / 2) * 2;
    WhiteBlock(src, w, h, y, x);
  }

  lemma WhiteChromaByte(src: seq<Bgr>, w: nat, h: nat, j: nat)
    requires Dims(src, w, h) && forall k :: 0 <= k < |src| ==> src[k] == White
    requires j < ChromaSize(w, h)
    ensures ChromaByte(src, w, h, j) == 128
  {
    WhiteChromaBlock(src, w, h, j);
    WhiteBlockChroma();
  }

  /** An all-white image stores luma 255 everywhere and the neutral chroma
      128 in every U and V byte. */
  lemma WhiteImage(src: seq<Bgr>, w: nat, h: nat)
    requires Dims(src, w, h) && forall k :: 0 <= k < |src| ==> src[k] == White
    ensures forall k :: 0 <= k < |src| ==> LumaPlane(src)[k] == 255
    ensures forall j :: 0 <= j < ChromaSize(w, h) ==> ChromaPlane(src, w, h)[j] == 128
  {
    forall k | 0 <= k < |src| ensures LumaPlane(src)[k] == 255 {
      LumaPlaneAt(src, k);
      WhitePair();
    }
    forall j | 0 <= j < ChromaSize(w, h) ensures ChromaPlane(src, w, h)[j] == 128 {
      ChromaPrefixAt(src, w, h, ChromaSize(w, h), j);
      WhiteChromaByte(src, w, h, j);
    }
  }
}
