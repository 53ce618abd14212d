/** Small facts about row-major indexing and Euclidean division that the
    encoders' index computations rely on. */
module Arith {

  lemma MulNonneg(a: int, b: int)
    requires a >= 0 && b >= 0
    ensures a * b >= 0
  {
  }

  /** Quotient and remainder are determined by any decomposition a == q*d + r
      with 0 <= r < d. */
  lemma DivModUnique(a: int, d: int, q: int, r: int)
    requires 0 < d && 0 <= r < d && a == q * d + r
    ensures a / d == q && a % d == r
  {
    var q', r' := a / d, a % d;
    var t := q - q';
    assert t * d == r' - r by {
      assert a == q' * d + r';
      assert q * d - q' * d == (q - q') * d;
    }
    if t > 0 {
      MulNonneg(t - 1, d);
    } else if t < 0 {
      MulNonneg(-t - 1, d);
    }
  }

  /** Bytes 2*i .. 2*i+3 of a four-bytes-per-pair buffer all belong to the
      pair whose first pixel is the even index i, one slot each. */
  lemma PairIndex(i: nat)
    requires i % 2 == 0
    ensures (2 * i) / 4 * 2 == i && (2 * i) % 4 == 0
    ensures (2 * i + 1) / 4 * 2 == i && (2 * i + 1) % 4 == 1
    ensures (2 * i + 2) / 4 * 2 == i && (2 * i + 2) % 4 == 2
    ensures (2 * i + 3) / 4 * 2 == i && (2 * i + 3) % 4 == 3
  {
  }

  /** Byte k of a four-bytes-per-pair buffer for n pixels (n even) is slot
      k % 4 of the pair whose first pixel is the even index k/4*2. */
  lemma PairOfByte(k: nat, n: nat)
    requires n % 2 == 0 && k < 2 * n
    ensures var i := k / 4 * 2;
      && i % 2 == 0 && i + 1 < n && k == 2 * i + k % 4
      && (k % 2 == 0 <==> k % 4 == 0 || k % 4 == 2)
  {
    var q, r := k / 4, k % 4;
    assert k == 4 * q + r;
    assert n == 2 * (n / 2) && 4 * q < 4 * (n / 2);
    DivModUnique(k, 2, 2 * q + r / 2, r % 2);
  }

  /** Stepping an even column by two stays inside an even-width row. */
  lemma EvenStep(x: nat, w: nat)
    requires x % 2 == 0 && w % 2 == 0 && x < w
    ensures x + 2 <= w && (x + 2) % 2 == 0
  {
  }

  /** Row y of a w-by-h image ends at or before pixel h*w. */
  lemma RowEnd(y: nat, w: nat, h: nat)
    requires y < h
    ensures y * w + w == (y + 1) * w <= h * w
  {
    MulNonneg(h - y - 1, w);
    assert (h - y - 1) * w == h * w - y * w - w;
  }

  /** The row-major index of a pixel inside a w-by-h image is below w*h. */
  lemma RowBound(y: nat, x: nat, w: nat, h: nat)
    requires y < h && x < w
    ensures y * w + x < h * w
  {
    RowEnd(y, w, h);
  }

  /** n rows of w elements, counted one row at a time; loops that advance a
      row offset state their position with it, which keeps products of
      variables out of their proofs. */
  function Rows(n: nat, w: nat): nat
  {
    if n == 0 then 0 else Rows(n - 1, w) + w
  }

  lemma {:induction false} RowsProduct(n: nat, w: nat)
    ensures Rows(n, w) == n * w
  {
    if n > 0 {
      RowsProduct(n - 1, w);
    }
  }

  /** An image of even width has an even number of pixels. */
  lemma EvenProduct(w: nat, h: nat)
    requires w % 2 == 0
    ensures (w * h) % 2 == 0
  {
    DivModUnique(w * h, 2, (w / 2) * h, 0);
  }

  /** For even y and even w, y*(w/2) is the start of row y/2 of a w-wide plane. */
  lemma HalfRow(y: nat, w: nat)
    requires y % 2 == 0 && w % 2 == 0
    ensures y * (w / 2) == (y / 2) * w
  {
    var a, b := y / 2, w / 2;
    assert y == 2 * a && w == 2 * b;
    assert y * b == 2 * a * b == a * w;
  }

  /** Two rows of a plane w/2 elements wide hold w elements, and the rows
      of an even-height image fill the (w/2)*(h/2)*2 chroma plane exactly. */
  lemma HalfRows(y: nat, w: nat, h: nat)
    requires y % 2 == 0 && w % 2 == 0 && h % 2 == 0 && y < h
    ensures y * (w / 2) + w == (y + 2) * (w / 2) <= (w / 2) * (h / 2) * 2
    ensures h * (w / 2) == (w / 2) * (h / 2) * 2
  {
    var b := w / 2;
    assert (y + 2) * b == y * b + 2 * b;
    MulNonneg(h - y - 2, b);
    assert (h - y - 2) * b == h * b - (y + 2) * b;
    assert h == 2 * (h / 2);
    assert h * b == b * (h / 2) * 2;
  }
}

/** Slices of concatenations, stated once for any element type so that the
    encoders' layout proofs never look inside the elements. */
module Seqs {

  lemma SliceOfFront<T>(a: seq<T>, b: seq<T>, lo: nat, hi: nat)
    requires lo <= hi <= |a|
    ensures (a + b)[lo..hi] == a[lo..hi]
  {
  }

  lemma SliceOfBack<T>(a: seq<T>, b: seq<T>)
    ensures (a + b)[|a|..|a| + |b|] == b
  {
  }

  /** Two sequences that agree before i and between i and j agree before j. */
  lemma SliceJoin<T>(a: seq<T>, b: seq<T>, i: nat, j: nat)
    requires i <= j <= |a| && j <= |b|
    requires a[..i] == b[..i] && a[i..j] == b[i..j]
    ensures a[..j] == b[..j]
  {
    assert a[..j] == a[..i] + a[i..j];
    assert b[..j] == b[..i] + b[i..j];
  }

  /** A non-empty sequence with the same elements as qs has its head at some
      index i of qs, and its tail has the same elements as qs without that
      index. */
  lemma MultisetHead<T>(ps: seq<T>, qs: seq<T>) returns (i: nat)
    requires |ps| > 0 && multiset(ps) == multiset(qs)
    ensures i < |qs| && qs[i] == ps[0]
    ensures multiset(ps[1..]) == multiset(qs[..i] + qs[i + 1..])
  {
    var p := ps[0];
    assert p in multiset(qs);
    i :| 0 <= i < |qs| && qs[i] == p;
    assert qs == qs[..i] + [p] + qs[i + 1..];
    assert ps == [p] + ps[1..];
    assert multiset(qs[..i] + qs[i + 1..]) == multiset(qs) - multiset{p};
    assert multiset(ps[1..]) == multiset(ps) - multiset{p};
  }
}
