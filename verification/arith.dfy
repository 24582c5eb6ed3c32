/** Non-linear integer facts used by the raster index arithmetic and the
    rounded mean of the box blur. The solver does not find these unaided. */
module Arith {

  /** Multiplication by a non-negative factor is monotone. */
  lemma {:induction false} MulMono(a: int, b: int, c: nat)
    requires a <= b
    ensures a * c <= b * c
  {
    if c > 0 {
      MulMono(a, b, c - 1);
      assert a * c == a * (c - 1) + a;
      assert b * c == b * (c - 1) + b;
    }
  }

  /** Multiplication distributes over addition. */
  lemma Distrib(a: int, b: int, c: int)
    ensures (a + b) * c == a * c + b * c
  {
  }

  /** Adding one more row of `n` to a block of `a` rows, scaled by `k`. */
  lemma ScaleStep(a: int, n: int, k: int)
    ensures k * ((a + 1) * n) == k * (a * n) + k * n
  {
    Distrib(a, 1, n);
    Distrib(a * n, n, k);
    assert k * (a * n + n) == (a * n + n) * k;
  }

  /** A non-zero integer multiple of `w` is at least `w` away from zero. */
  lemma MulAwayFromZero(a: int, w: int)
    requires w >= 0
    ensures a >= 1 ==> a * w >= w
    ensures a <= -1 ==> a * w <= -w
  {
    if a >= 1 {
      MulMono(1, a, w);
    }
    if a <= -1 {
      MulMono(a, -1, w);
    }
  }

  /** Euclidean division is unique: a quotient/remainder pair with the
      remainder in range is the one `/` and `%` compute. */
  lemma DivModUnique(k: int, w: int, q: int, r: int)
    requires w > 0 && 0 <= r < w && k == q * w + r
    ensures k / w == q && k % w == r
  {
    var q', r' := k / w, k % w;
    assert (q - q') * w == r' - r;
    MulAwayFromZero(q - q', w);
  }

  /** The row-major index of a position inside a `w` by `h` grid lies in the grid. */
  lemma IndexInGrid(w: int, h: int, x: int, y: int)
    requires 0 <= x < w && 0 <= y < h
    ensures 0 <= x + y * w < w * h
  {
    MulMono(0, y, w);
    MulMono(y + 1, h, w);
    assert (y + 1) * w == y * w + w;
  }

  /** Every index of a `w` by `h` grid splits into a column `k % w` and a row `k / w`. */
  lemma GridSplit(w: nat, h: nat, k: int)
    requires 0 <= k < w * h
    ensures w > 0 && 0 <= k % w < w && 0 <= k / w < h && k == k % w + (k / w) * w
  {
    if w > 0 && k / w >= h {
      assert h * w == w * h;
      MulMono(h, k / w, w);
    }
  }

  /** The rounded mean `(s + c/2) / c` of `c` values that all lie in
      `[lo, hi]` lies in `[lo, hi]` too. */
  lemma RoundedMeanBounds(s: int, c: int, lo: int, hi: int)
    requires c > 0 && lo * c <= s <= hi * c
    ensures lo <= (s + c / 2) / c <= hi
  {
    var q := (s + c / 2) / c;
    var r := (s + c / 2) % c;
    assert s + c / 2 == q * c + r;
    assert (q - hi) * c == q * c - hi * c;
    assert (lo - q) * c == lo * c - q * c;
    MulAwayFromZero(q - hi, c);
    MulAwayFromZero(lo - q, c);
  }
}
