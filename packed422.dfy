/** Benchmark block [2] (cvtColor, packed YUV to BGR): the loop that turns the
    decoded BGR image into the packed 4:2:2 buffer read as COLOR_YUV2BGR_YUYV.
    Each horizontal pixel pair (x, x+1) of row y yields four bytes
    Y0, U, Y1, V; the two lumas are per pixel and U, V are shared, computed
    from the pair's channel sums. */
module Packed422 {
  import opened Colour
  import opened Arith
  import opened Seqs

  /** What one byte of the packed buffer holds: the luma of a pixel, or the
      U or V shared by the pair (p0, p1). */
  datatype Sample = YOf(p: Bgr) | UOf(p0: Bgr, p1: Bgr) | VOf(p0: Bgr, p1: Bgr)

  /** The byte the loop stores for a sample. */
  function Store(s: Sample): byte
  {
    match s
    case YOf(p) => Saturate(Luma(p))
    case UOf(p0, p1) => Saturate(PairU(p0, p1))
    case VOf(p0, p1) => Saturate(PairV(p0, p1))
  }

  /** The four samples of the pair (p0, p1), in the order Y0, U, Y1, V. */
  function PairSamples(p0: Bgr, p1: Bgr): seq<Sample>
  {
    [YOf(p0), UOf(p0, p1), YOf(p1), VOf(p0, p1)]
  }

  /** The layout of the packed buffer of a row-major image (pixel (x, y) at
      src[y*w + x], w even): the pairs src[0], src[1]; src[2], src[3]; ... in
      order, four samples each. Since w is even no pair straddles two rows
      (see PairStart). */
  function Layout(src: seq<Bgr>): (l: seq<Sample>)
    requires |src| % 2 == 0
    ensures |l| == 2 * |src|
  {
    if src == [] then []
    else Layout(src[..|src| - 2]) + PairSamples(src[|src| - 2], src[|src| - 1])
  }

  /** The packed buffer: every sample of the layout, stored. */
  function Pack(src: seq<Bgr>): (buf: seq<byte>)
    requires |src| % 2 == 0
  {
    var l := Layout(src);
    seq(|l|, k requires 0 <= k < |l| => Store(l[k]))
  }

  /** Samples 2*i .. 2*i+3 of the layout are the four samples of the pair
      that starts at the even pixel index i. */
  lemma {:induction false} LayoutAt(src: seq<Bgr>, i: nat)
    requires |src| % 2 == 0 && i % 2 == 0 && i + 1 < |src|
    ensures 2 * i + 4 <= |Layout(src)|
    ensures Layout(src)[2 * i..2 * i + 4] == PairSamples(src[i], src[i + 1])
  {
    var n := |src|;
    var front := src[..n - 2];
    if i < n - 2 {
      LayoutAt(front, i);
      SliceOfFront(Layout(front), PairSamples(src[n - 2], src[n - 1]), 2 * i, 2 * i + 4);
    } else {
      SliceOfBack(Layout(front), PairSamples(src[n - 2], src[n - 1]));
    }
  }

  /** The same, one sample at a time. */
  lemma SamplesAt(src: seq<Bgr>, i: nat)
    requires |src| % 2 == 0 && i % 2 == 0 && i + 1 < |src|
    ensures 2 * i + 4 <= |Layout(src)|
    ensures var l := Layout(src);
      && l[2 * i] == YOf(src[i]) && l[2 * i + 1] == UOf(src[i], src[i + 1])
      && l[2 * i + 2] == YOf(src[i + 1]) && l[2 * i + 3] == VOf(src[i], src[i + 1])
  {
    LayoutAt(src, i);
    var s := Layout(src)[2 * i..2 * i + 4];
    assert s[0] == Layout(src)[2 * i] && s[1] == Layout(src)[2 * i + 1];
    assert s[2] == Layout(src)[2 * i + 2] && s[3] == Layout(src)[2 * i + 3];
  }

  /** The four bytes stored for the pair that starts at the even pixel
      index i: Y0, U, Y1, V at bytes 2*i .. 2*i+3. */
  lemma PairAt(src: seq<Bgr>, i: nat)
    requires |src| % 2 == 0 && i % 2 == 0 && i + 1 < |src|
    ensures 2 * i + 4 <= |Pack(src)|
    ensures var s := Pack(src);
      && s[2 * i] == Saturate(Luma(src[i])) && s[2 * i + 1] == Saturate(PairU(src[i], src[i + 1]))
      && s[2 * i + 2] == Saturate(Luma(src[i + 1])) && s[2 * i + 3] == Saturate(PairV(src[i], src[i + 1]))
  {
    SamplesAt(src, i);
  }

  /** The first pixel y*w + x of a pair has an even index, and its partner is
      still inside the image. */
  lemma PairStart(w: nat, h: nat, y: nat, x: nat)
    requires w % 2 == 0 && y < h && x < w && x % 2 == 0
    ensures (w * h) % 2 == 0
    ensures (y * w + x) % 2 == 0 && y * w + x + 1 < w * h
  {
    EvenProduct(w, h);
    RowBound(y, x + 1, w, h);
    DivModUnique(y * w + x, 2, y * (w / 2) + x / 2, 0);
  }

  /** Layout in image coordinates: for an even column x of row y, the pair
      (x, x+1) occupies bytes 2*(y*w + x) .. 2*(y*w + x) + 3 of the w*h*2
      buffer, as [Y0, U, Y1, V]. */
  lemma PackedLayout(src: seq<Bgr>, w: nat, h: nat, y: nat, x: nat)
    requires w % 2 == 0 && |src| == w * h
    requires y < h && x < w && x % 2 == 0
    ensures |src| % 2 == 0 && y * w + x + 1 < |src| && 2 * (y * w + x) + 4 <= |Pack(src)| == w * h * 2
    ensures var i, k := y * w + x, 2 * (y * w + x);
      && Pack(src)[k] == Saturate(Luma(src[i]))
      && Pack(src)[k + 1] == Saturate(PairU(src[i], src[i + 1]))
      && Pack(src)[k + 2] == Saturate(Luma(src[i + 1]))
      && Pack(src)[k + 3] == Saturate(PairV(src[i], src[i + 1]))
  {
    PairStart(w, h, y, x);
    PairAt(src, y * w + x);
  }

  /** Write positions never collide: slot j of the pair at (x, y) goes to
      2*(y*w + x) + j, and that position alone gives back y, x and j. */
  lemma PackedPositionDecodes(w: nat, h: nat, y: nat, x: nat, j: nat)
    requires w % 2 == 0 && y < h && x < w && x % 2 == 0 && j < 4
    ensures var k := 2 * (y * w + x) + j;
      && k < w * h * 2
      && k % 4 == j && k / 4 / (w / 2) == y && k / 4 % (w / 2) * 2 == x
  {
    var k := 2 * (y * w + x) + j;
    RowBound(y, x + 1, w, h);
    assert 2 * (y * w + x) == 4 * (y * (w / 2) + x / 2);
    DivModUnique(k, 4, y * (w / 2) + x / 2, j);
    DivModUnique(y * (w / 2) + x / 2, w / 2, y, x / 2);
  }

  /** Write positions cover the buffer: every byte k of the w*h*2 buffer is
      slot k % 4 of the pair at row k/4/(w/2), column 2*(k/4 % (w/2)). */
  lemma PackedPositionCovers(w: nat, h: nat, k: nat)
    requires w % 2 == 0 && k < w * h * 2
    ensures w > 0
    ensures var y, x := k / 4 / (w / 2), k / 4 % (w / 2) * 2;
      y < h && x < w && x % 2 == 0 && 2 * (y * w + x) + k % 4 == k
  {
    var hw := w / 2;
    assert w > 0;
    var m := k / 4;
    var y, c := m / hw, m % hw;
    assert k == 4 * m + k % 4;
    assert m == y * hw + c;
    assert 2 * (y * w + c * 2) == 4 * (y * hw + c);
    if y >= h {
      MulNonneg(y - h, hw);
    }
  }

  /** The luma byte of pixel j sits at position 2*j and is the luma of pixel
      j alone. */
  lemma LumaOfPixel(src: seq<Bgr>, j: nat)
    requires |src| % 2 == 0 && j < |src|
    ensures 2 * j < |Pack(src)| && Pack(src)[2 * j] == Saturate(Luma(src[j]))
  {
    var i := j / 2 * 2;
    SamplesAt(src, i);
  }

  /** Luma independence: replacing one pixel never alters the stored luma of
      any other pixel, its pair partner included. */
  lemma LumaIndependence(src: seq<Bgr>, i: nat, p: Bgr, j: nat)
    requires |src| % 2 == 0 && i < |src| && j < |src| && i != j
    ensures 2 * j < |Pack(src)| && Pack(src[i := p])[2 * j] == Pack(src)[2 * j]
  {
    LumaOfPixel(src, j);
    LumaOfPixel(src[i := p], j);
  }

  /** Swapping the two pixels of a pair swaps their luma bytes and leaves the
      shared U and V bytes unchanged. */
  lemma PairSwap(src: seq<Bgr>, i: nat)
    requires |src| % 2 == 0 && i % 2 == 0 && i + 1 < |src|
    ensures 2 * i + 4 <= |Pack(src)|
    ensures var s, t := Pack(src), Pack(src[i := src[i + 1]][i + 1 := src[i]]);
      && t[2 * i] == s[2 * i + 2] && t[2 * i + 2] == s[2 * i]
      && t[2 * i + 1] == s[2 * i + 1] && t[2 * i + 3] == s[2 * i + 3]
  {
    SamplesAt(src, i);
    SamplesAt(src[i := src[i + 1]][i + 1 := src[i]], i);
    PairChromaSwap(src[i], src[i + 1]);
  }

  /** In an all-white image every even byte is a luma sample of a white
      pixel and every odd byte a chroma sample of a white pair. */
  lemma WhiteSample(src: seq<Bgr>, k: nat)
    requires |src| % 2 == 0 && k < 2 * |src|
    requires forall i :: 0 <= i < |src| ==> src[i] == White
    ensures k < |Layout(src)|
    ensures var s := Layout(src)[k];
      if k % 2 == 0 then s == YOf(White) else s == UOf(White, White) || s == VOf(White, White)
  {
    PairOfByte(k, |src|);
    var i := k / 4 * 2;
    SamplesAt(src, i);
  }

  /** An all-white image packs to luma 255 at every even byte and neutral
      chroma 128 at every odd byte. */
  lemma WhiteImage(src: seq<Bgr>)
    requires |src| % 2 == 0
    requires forall i :: 0 <= i < |src| ==> src[i] == White
    ensures forall k :: 0 <= k < |Pack(src)| ==> Pack(src)[k] == if k % 2 == 0 then 255 else 128
  {
    WhitePair();
    forall k | 0 <= k < |Pack(src)| ensures Pack(src)[k] == if k % 2 == 0 then 255 else 128 {
      WhiteSample(src, k);
    }
  }

  /** Stores four bytes at counter .. counter+3, extending a prefix of the
      target buffer by those four bytes. */
  method StoreQuad(buf: array<byte>, counter: nat, b0: byte, b1: byte, b2: byte, b3: byte,
                   ghost target: seq<byte>)
    requires counter + 4 <= buf.Length && counter + 4 <= |target|
    requires buf[..counter] == target[..counter]
    requires target[counter] == b0 && target[counter + 1] == b1
    requires target[counter + 2] == b2 && target[counter + 3] == b3
    modifies buf
    ensures buf[..counter + 4] == target[..counter + 4]
  {
    ghost var before := buf[..counter];
    buf[counter + 0] := b0;
    buf[counter + 1] := b1;
    buf[counter + 2] := b2;
    buf[counter + 3] := b3;
    assert buf[..counter] == before;
    forall k | 0 <= k < counter + 4 ensures buf[k] == target[k] {
      if k < counter {
        assert buf[k] == before[k];
      }
    }
  }

  /** One step of the packing loop, for the pair that starts at the even
      pixel index i: the two lumas and the pair's shared U and V, saturated
      and stored as Y0, U, Y1, V at the counter 2*i. */
  method StorePair(buf: array<byte>, counter: nat, src: seq<Bgr>, i: nat)
    requires |src| % 2 == 0 && i % 2 == 0 && i + 1 < |src|
    requires counter == 2 * i && buf.Length == 2 * |src|
    requires buf[..counter] == Pack(src)[..counter]
    modifies buf
    ensures buf[..counter + 4] == Pack(src)[..counter + 4]
  {
    PairAt(src, i);
    var p0, p1 := src[i], src[i + 1];
    var y0 := Luma(p0);
    var y1 := Luma(p1);
    var u := PairU(p0, p1);
    var v := PairV(p0, p1);
    StoreQuad(buf, counter, Saturate(y0), Saturate(u), Saturate(y1), Saturate(v), Pack(src));
  }

  /** Row y of an image of even width w starts at the even pixel
      y*w = Rows(y, w) and ends inside the image. */
  lemma RowStart(w: nat, h: nat, y: nat)
    requires w % 2 == 0 && y < h
    ensures y * w == Rows(y, w) && (y * w) % 2 == 0 && y * w + w <= w * h
  {
    RowsProduct(y, w);
    RowEnd(y, w, h);
    EvenProduct(w, y);
  }

  /** The inner packing loop for the row that starts at pixel row: every
      even column x handles the pixels row + x and row + x + 1, storing their
      four bytes at the counter, which advances by four per pair and by 2*w
      over the row. */
  method EncodeRow(buf: array<byte>, src: seq<Bgr>, w: nat, row: nat, counter: nat) returns (next: nat)
    requires |src| % 2 == 0 && w % 2 == 0 && row % 2 == 0 && row + w <= |src|
    requires buf.Length == 2 * |src| && counter == 2 * row
    requires buf[..counter] == Pack(src)[..counter]
    modifies buf
    ensures next == counter + 2 * w && buf[..next] == Pack(src)[..next]
  {
    next := counter;
    var x := 0;
    while x < w
      invariant x <= w && x % 2 == 0 && next == 2 * (row + x)
      invariant buf[..next] == Pack(src)[..next]
    {
      EvenStep(x, w);
      StorePair(buf, next, src, row + x);
      next := next + 4;
      x := x + 2;
    }
  }

  /** The packing loop: for every row y and every even column x it handles
      the pixels (x, y) and (x+1, y), storing their four bytes at a counter
      that advances by four. The buffer it fills is exactly the packed
      image. */
  method EncodePacked(src: seq<Bgr>, w: nat, h: nat) returns (buf: array<byte>)
    requires w % 2 == 0 && |src| == w * h
    ensures fresh(buf) && |src| % 2 == 0 && buf[..] == Pack(src)
  {
    EvenProduct(w, h);
    buf := new byte[w * h * 2];
    var counter := 0;
    for y := 0 to h
      invariant counter == 2 * Rows(y, w) && Rows(y, w) <= |src|
      invariant buf[..counter] == Pack(src)[..counter]
    {
      var row := y * w;
      RowStart(w, h, y);
      counter := EncodeRow(buf, src, w, row, counter);
    }
    RowsProduct(h, w);
    assert buf[..] == buf[..counter];
  }
}
