/** The box blur. Each pixel becomes the rounded mean of the
    (2dx+1)-by-(2dy+1) window around it, clipped to the image. The source
    first builds a summed-area table (integral image) of the original
    pixels and then reads every window sum off four table entries; this
    module proves that the result equals the direct, brute-force mean. */
module Blur {
  import opened Raster
  import Arith

  /** Sum of column x over the rows [y0, y1). */
  function ColumnSum(img: Image, x: int, y0: int, y1: int): int
    requires img.Valid() && 0 <= x < img.width && 0 <= y0 && y1 <= img.height
    decreases y1 - y0
  {
    if y1 <= y0 then 0 else ColumnSum(img, x, y0, y1 - 1) + GetPixel(img, x, y1 - 1)
  }

  /** Sum of the pixels in the box [x0, x1) x [y0, y1). */
  function BoxSum(img: Image, x0: int, x1: int, y0: int, y1: int): int
    requires img.Valid() && 0 <= x0 && x1 <= img.width && 0 <= y0 && y1 <= img.height
    decreases x1 - x0
  {
    if x1 <= x0 then 0 else BoxSum(img, x0, x1 - 1, y0, y1) + ColumnSum(img, x1 - 1, y0, y1)
  }

  /** Sum of the pixels with column <= x and row <= y: what the table holds
      at [y][x]. An index of -1 stands for the empty sum. */
  function Prefix(img: Image, x: int, y: int): int
    requires img.Valid() && -1 <= x < img.width && -1 <= y < img.height
  {
    BoxSum(img, 0, x + 1, 0, y + 1)
  }

  lemma {:induction false} ColumnSplit(img: Image, x: int, y0: int, y1: int, y2: int)
    requires img.Valid() && 0 <= x < img.width && 0 <= y0 <= y1 <= y2 <= img.height
    ensures ColumnSum(img, x, y0, y2) == ColumnSum(img, x, y0, y1) + ColumnSum(img, x, y1, y2)
    decreases y2
  {
    if y2 > y1 {
      ColumnSplit(img, x, y0, y1, y2 - 1);
    }
  }

  lemma {:induction false} BoxSplitX(img: Image, x0: int, x1: int, x2: int, y0: int, y1: int)
    requires img.Valid() && 0 <= x0 <= x1 <= x2 <= img.width && 0 <= y0 && y1 <= img.height
    ensures BoxSum(img, x0, x2, y0, y1) == BoxSum(img, x0, x1, y0, y1) + BoxSum(img, x1, x2, y0, y1)
    decreases x2
  {
    if x2 > x1 {
      BoxSplitX(img, x0, x1, x2 - 1, y0, y1);
    }
  }

  lemma {:induction false} BoxSplitY(img: Image, x0: int, x1: int, y0: int, y1: int, y2: int)
    requires img.Valid() && 0 <= x0 && x1 <= img.width && 0 <= y0 <= y1 <= y2 <= img.height
    ensures BoxSum(img, x0, x1, y0, y2) == BoxSum(img, x0, x1, y0, y1) + BoxSum(img, x0, x1, y1, y2)
    decreases x1 - x0
  {
    if x1 > x0 {
      BoxSplitY(img, x0, x1 - 1, y0, y1, y2);
      ColumnSplit(img, x1 - 1, y0, y1, y2);
    }
  }

  /** A box with no rows sums to zero. */
  lemma {:induction false} NoRowsZero(img: Image, x0: int, x1: int, y: int)
    requires img.Valid() && 0 <= x0 && x1 <= img.width && 0 <= y <= img.height
    ensures BoxSum(img, x0, x1, y, y) == 0
    decreases x1 - x0
  {
    if x1 > x0 {
      NoRowsZero(img, x0, x1 - 1, y);
    }
  }

  /** The four cases by which the table is filled: the pixel itself, plus
      the entry to the left and the entry above, minus the entry diagonally
      up-left that both of them contain; absent entries count as zero. */
  lemma PrefixRecurrence(img: Image, x: int, y: int)
    requires img.Valid() && ValidPos(img, x, y)
    ensures x == 0 && y == 0 ==> Prefix(img, x, y) == GetPixel(img, x, y)
    ensures x == 0 && y > 0 ==> Prefix(img, x, y) == GetPixel(img, x, y) + Prefix(img, x, y - 1)
    ensures x > 0 && y == 0 ==> Prefix(img, x, y) == GetPixel(img, x, y) + Prefix(img, x - 1, y)
    ensures x > 0 && y > 0 ==>
      Prefix(img, x, y) ==
      GetPixel(img, x, y) + Prefix(img, x - 1, y) + Prefix(img, x, y - 1) - Prefix(img, x - 1, y - 1)
  {
    NoRowsZero(img, 0, x, 0);
    assert Prefix(img, x, y) == Prefix(img, x - 1, y) + ColumnSum(img, x, 0, y) + GetPixel(img, x, y);
    assert Prefix(img, x, y - 1) == Prefix(img, x - 1, y - 1) + ColumnSum(img, x, 0, y);
  }

  /** Rows and columns with an index of -1 in the table read as zero. */
  lemma PrefixEdges(img: Image, x: int, y: int)
    requires img.Valid() && -1 <= x < img.width && -1 <= y < img.height
    ensures x == -1 || y == -1 ==> Prefix(img, x, y) == 0
  {
    NoRowsZero(img, 0, x + 1, 0);
  }

  /** Inclusion-exclusion: the sum over [xm..xM] x [ym..yM] is the table
      entry at its far corner, minus the two strips to its left and above,
      plus the corner block they share. */
  lemma InclusionExclusion(img: Image, xm: int, xM: int, ym: int, yM: int)
    requires img.Valid() && 0 <= xm <= xM < img.width && 0 <= ym <= yM < img.height
    ensures Prefix(img, xM, yM) - Prefix(img, xm - 1, yM) - Prefix(img, xM, ym - 1) + Prefix(img, xm - 1, ym - 1)
      == BoxSum(img, xm, xM + 1, ym, yM + 1)
  {
    BoxSplitX(img, 0, xm, xM + 1, 0, yM + 1);
    BoxSplitX(img, 0, xm, xM + 1, 0, ym);
    BoxSplitY(img, xm, xM + 1, 0, ym, yM + 1);
  }

  function Max(a: int, b: int): int { if a < b then b else a }
  function Min(a: int, b: int): int { if a < b then a else b }

  /** Number of integers in [a0, a1) that also lie in [0, n). */
  function Span(a0: int, a1: int, n: int): nat {
    if Min(a1, n) > Max(a0, 0) then Min(a1, n) - Max(a0, 0) else 0
  }

  /** The brute-force reference, as in the commented-out version of the
      blur: walk column k over the rows [l0, l1) of the UNCLIPPED window
      and add up the pixels at valid positions. */
  function BruteColumnSum(img: Image, k: int, l0: int, l1: int): int
    requires img.Valid()
    decreases l1 - l0
  {
    if l1 <= l0 then 0 else BruteColumnSum(img, k, l0, l1 - 1) + PixelOrBlack(img, k, l1 - 1)
  }

  /** How many positions of column k over the rows [l0, l1) are valid. */
  function BruteColumnCount(img: Image, k: int, l0: int, l1: int): int
    requires img.Valid()
    decreases l1 - l0
  {
    if l1 <= l0 then 0 else BruteColumnCount(img, k, l0, l1 - 1) + (if ValidPos(img, k, l1 - 1) then 1 else 0)
  }

  /** Sum of the valid pixels of the window [k0, k1) x [l0, l1). */
  function BruteSum(img: Image, k0: int, k1: int, l0: int, l1: int): int
    requires img.Valid()
    decreases k1 - k0
  {
    if k1 <= k0 then 0 else BruteSum(img, k0, k1 - 1, l0, l1) + BruteColumnSum(img, k1 - 1, l0, l1)
  }

  /** Number of valid positions in the window [k0, k1) x [l0, l1). */
  function BruteCount(img: Image, k0: int, k1: int, l0: int, l1: int): int
    requires img.Valid()
    decreases k1 - k0
  {
    if k1 <= k0 then 0 else BruteCount(img, k0, k1 - 1, l0, l1) + BruteColumnCount(img, k1 - 1, l0, l1)
  }

  /** Skipping invalid positions is the same as clipping the column to the image. */
  lemma {:induction false} BruteColumnClipped(img: Image, k: int, l0: int, l1: int)
    requires img.Valid()
    ensures BruteColumnSum(img, k, l0, l1) ==
      if 0 <= k < img.width then ColumnSum(img, k, Max(l0, 0), Min(l1, img.height)) else 0
    ensures BruteColumnCount(img, k, l0, l1) == if 0 <= k < img.width then Span(l0, l1, img.height) else 0
    decreases l1 - l0
  {
    if l1 > l0 {
      BruteColumnClipped(img, k, l0, l1 - 1);
    }
  }

  /** Skipping invalid positions is the same as clipping the window to the image. */
  lemma {:induction false} BruteClipped(img: Image, k0: int, k1: int, l0: int, l1: int)
    requires img.Valid()
    ensures BruteSum(img, k0, k1, l0, l1) ==
      BoxSum(img, Max(k0, 0), Min(k1, img.width), Max(l0, 0), Min(l1, img.height))
    ensures BruteCount(img, k0, k1, l0, l1) == Span(k0, k1, img.width) * Span(l0, l1, img.height)
    decreases k1 - k0
  {
    if k1 > k0 {
      BruteClipped(img, k0, k1 - 1, l0, l1);
      BruteColumnClipped(img, k1 - 1, l0, l1);
      var s := Span(l0, l1, img.height);
      var e := if 0 <= k1 - 1 < img.width then 1 else 0;
      assert Span(k0, k1, img.width) == Span(k0, k1 - 1, img.width) + e;
      Arith.Distrib(Span(k0, k1 - 1, img.width), e, s);
    }
  }

  /** A column whose pixels lie in [lo, hi] sums to between lo and hi times its length. */
  lemma {:induction false} ColumnBounds(img: Image, x: int, y0: int, y1: int, lo: int, hi: int)
    requires img.Valid() && 0 <= x < img.width && 0 <= y0 <= y1 <= img.height
    requires forall y :: y0 <= y < y1 ==> lo <= GetPixel(img, x, y) <= hi
    ensures lo * (y1 - y0) <= ColumnSum(img, x, y0, y1) <= hi * (y1 - y0)
    decreases y1 - y0
  {
    if y1 > y0 {
      ColumnBounds(img, x, y0, y1 - 1, lo, hi);
      assert lo * (y1 - y0) == lo * (y1 - 1 - y0) + lo;
      assert hi * (y1 - y0) == hi * (y1 - 1 - y0) + hi;
    }
  }

  /** A box whose pixels lie in [lo, hi] sums to between lo and hi times its area. */
  lemma {:induction false} BoxBounds(img: Image, x0: int, x1: int, y0: int, y1: int, lo: int, hi: int)
    requires img.Valid() && 0 <= x0 <= x1 <= img.width && 0 <= y0 <= y1 <= img.height
    requires forall x, y :: x0 <= x < x1 && y0 <= y < y1 ==> lo <= GetPixel(img, x, y) <= hi
    ensures lo * ((x1 - x0) * (y1 - y0)) <= BoxSum(img, x0, x1, y0, y1) <= hi * ((x1 - x0) * (y1 - y0))
    decreases x1 - x0
  {
    if x1 > x0 {
      var n := y1 - y0;
      var rest, col := BoxSum(img, x0, x1 - 1, y0, y1), ColumnSum(img, x1 - 1, y0, y1);
      assert lo * ((x1 - 1 - x0) * n) <= rest <= hi * ((x1 - 1 - x0) * n) by {
        BoxBounds(img, x0, x1 - 1, y0, y1, lo, hi);
      }
      assert lo * n <= col <= hi * n by {
        ColumnBounds(img, x1 - 1, y0, y1, lo, hi);
      }
      Arith.ScaleStep(x1 - 1 - x0, n, lo);
      Arith.ScaleStep(x1 - 1 - x0, n, hi);
      assert BoxSum(img, x0, x1, y0, y1) == rest + col;
    }
  }

  /** Left and right column of the clipped window around x (`xm`, `xM` in
      the source); the same functions give the top and bottom rows. */
  function WindowLo(v: int, d: int): (r: int)
    ensures r >= 0 && r >= v - d && (r == 0 || r == v - d)
  {
    Max(v - d, 0)
  }

  function WindowHi(v: int, d: int, n: int): (r: int)
    ensures r <= n - 1 && r <= v + d && (r == n - 1 || r == v + d)
  {
    Min(v + d, n - 1)
  }

  /** The brute-force window around a valid (x, y) is the clipped window:
      its sum is the box sum over [xm..xM] x [ym..yM], its count the box's
      area (at least 1), and the sum lies between 0 and 255 times the count. */
  lemma WindowFacts(img: Image, x: int, y: int, dx: int, dy: int)
    requires img.Valid() && ValidPos(img, x, y) && dx >= 0 && dy >= 0
    ensures var xm, xM := WindowLo(x, dx), WindowHi(x, dx, img.width);
      var ym, yM := WindowLo(y, dy), WindowHi(y, dy, img.height);
      && 0 <= xm <= x <= xM < img.width && 0 <= ym <= y <= yM < img.height
      && BruteSum(img, x - dx, x + dx + 1, y - dy, y + dy + 1) == BoxSum(img, xm, xM + 1, ym, yM + 1)
      && BruteCount(img, x - dx, x + dx + 1, y - dy, y + dy + 1) == (xM - xm + 1) * (yM - ym + 1)
  {
    var xm, xM := WindowLo(x, dx), WindowHi(x, dx, img.width);
    var ym, yM := WindowLo(y, dy), WindowHi(y, dy, img.height);
    var k0, k1, l0, l1 := x - dx, x + dx + 1, y - dy, y + dy + 1;
    assert Span(k0, k1, img.width) == xM - xm + 1;
    assert Span(l0, l1, img.height) == yM - ym + 1;
    assert BruteSum(img, k0, k1, l0, l1) == BoxSum(img, xm, xM + 1, ym, yM + 1) by {
      BruteClipped(img, k0, k1, l0, l1);
    }
    assert BruteCount(img, k0, k1, l0, l1) == (xM - xm + 1) * (yM - ym + 1) by {
      BruteClipped(img, k0, k1, l0, l1);
    }
  }

  /** The count of a window is positive and its sum is that of at most
      `count` bytes. */
  lemma WindowSumRange(img: Image, x: int, y: int, dx: int, dy: int)
    requires img.Valid() && ValidPos(img, x, y) && dx >= 0 && dy >= 0
    ensures BruteCount(img, x - dx, x + dx + 1, y - dy, y + dy + 1) >= 1
    ensures 0 <= BruteSum(img, x - dx, x + dx + 1, y - dy, y + dy + 1)
      <= 255 * BruteCount(img, x - dx, x + dx + 1, y - dy, y + dy + 1)
  {
    WindowFacts(img, x, y, dx, dy);
    var xm, xM := WindowLo(x, dx), WindowHi(x, dx, img.width);
    var ym, yM := WindowLo(y, dy), WindowHi(y, dy, img.height);
    BoxBounds(img, xm, xM + 1, ym, yM + 1, 0, 255);
    Arith.MulMono(1, xM - xm + 1, yM - ym + 1);
  }

  /** The mean of `count` levels adding up to `sum`, rounded half up: the
      source adds half the count, itself an integer quotient, to the sum
      before dividing. The second ensures says the result is the integer
      nearest to sum/count, a tie going up: r - 1/2 <= sum/count < r + 1/2. */
  function RoundedMean(sum: int, count: int): (r: Byte)
    requires count > 0 && 0 <= sum <= 255 * count
    ensures r * count <= sum + count / 2 < (r + 1) * count
    ensures count * (2 * r - 1) <= 2 * sum < count * (2 * r + 1)
  {
    Arith.RoundedMeanBounds(sum, count, 0, 255);
    var r := (sum + count / 2) / count;
    assert count * (2 * r - 1) == 2 * (r * count) - count;
    assert count * (2 * r + 1) == 2 * ((r + 1) * count) - count;
    r
  }

  /** The brute-force blurred level at a valid (x, y): the mean of the valid
      pixels in the window, rounded half up. */
  function BrutePixel(img: Image, x: int, y: int, dx: int, dy: int): Byte
    requires img.Valid() && ValidPos(img, x, y) && dx >= 0 && dy >= 0
  {
    WindowSumRange(img, x, y, dx, dy);
    RoundedMean(BruteSum(img, x - dx, x + dx + 1, y - dy, y + dy + 1),
                BruteCount(img, x - dx, x + dx + 1, y - dy, y + dy + 1))
  }

  /** The brute-force level read through the clipped window: the rounded
      mean of the box [xm..xM] x [ym..yM]. */
  lemma BrutePixelClipped(img: Image, x: int, y: int, dx: int, dy: int)
    requires img.Valid() && ValidPos(img, x, y) && dx >= 0 && dy >= 0
    ensures var xm, xM := WindowLo(x, dx), WindowHi(x, dx, img.width);
      var ym, yM := WindowLo(y, dy), WindowHi(y, dy, img.height);
      var count := (xM - xm + 1) * (yM - ym + 1);
      && 0 <= xm <= x <= xM < img.width && 0 <= ym <= y <= yM < img.height
      && count > 0 && 0 <= BoxSum(img, xm, xM + 1, ym, yM + 1) <= 255 * count
      && BrutePixel(img, x, y, dx, dy) == RoundedMean(BoxSum(img, xm, xM + 1, ym, yM + 1), count)
  {
    WindowFacts(img, x, y, dx, dy);
    WindowSumRange(img, x, y, dx, dy);
  }

  /** The brute-force blurred image: every level computed from the ORIGINAL
      pixels. */
  function BlurRef(img: Image, dx: int, dy: int): (r: Image)
    requires img.Valid() && dx >= 0 && dy >= 0
    ensures r.Valid() && r.width == img.width && r.height == img.height && r.maxval == img.maxval
    ensures forall x, y :: ValidPos(img, x, y) ==> GetPixel(r, x, y) == BrutePixel(img, x, y, dx, dy)
  {
    var r := Tabulate(img.width, img.height, img.maxval,
      (x, y) => if ValidPos(img, x, y) then BrutePixel(img, x, y, dx, dy) else 0);
    assert forall x, y :: ValidPos(r, x, y) ==> GetPixel(r, x, y) == BrutePixel(img, x, y, dx, dy);
    r
  }

  /** Builds the summed-area table the way the source does, column by column
      and down each column: entry [y][x] is the sum of the original pixels
      with column <= x and row <= y. */
  method SummedAreaTable(img: Image) returns (sum: seq<seq<int>>)
    requires img.Valid()
    ensures |sum| == img.height
    ensures forall j :: 0 <= j < img.height ==> |sum[j]| == img.width
    ensures forall j, i :: 0 <= j < img.height && 0 <= i < img.width ==> sum[j][i] == Prefix(img, i, j)
  {
    var w, h := img.width, img.height;
    sum := seq(h, _ => seq(w, _ => 0));
    var i := 0;
    while i < w
      invariant 0 <= i <= w
      invariant |sum| == h && forall j :: 0 <= j < h ==> |sum[j]| == w
      invariant forall j, ii :: 0 <= j < h && 0 <= ii < i ==> sum[j][ii] == Prefix(img, ii, j)
    {
      var j := 0;
      while j < h
        invariant 0 <= j <= h
        invariant |sum| == h && forall jj :: 0 <= jj < h ==> |sum[jj]| == w
        invariant forall jj, ii :: 0 <= jj < h && 0 <= ii < i ==> sum[jj][ii] == Prefix(img, ii, jj)
        invariant forall jj :: 0 <= jj < j ==> sum[jj][i] == Prefix(img, i, jj)
      {
        var v;
        if i == 0 && j == 0 {
          v := GetPixel(img, i, j);
        } else if i == 0 {
          v := GetPixel(img, i, j) + sum[j - 1][i];
        } else if j == 0 {
          v := GetPixel(img, i, j) + sum[j][i - 1];
        } else {
          v := GetPixel(img, i, j) + sum[j][i - 1] + sum[j - 1][i] - sum[j - 1][i - 1];
        }
        PrefixRecurrence(img, i, j);
        sum := sum[j := sum[j][i := v]];
        j := j + 1;
      }
      i := i + 1;
    }
  }

  /** The level the source computes for (x, y) from four table entries of
      the clipped window [xm..xM] x [ym..yM] (an entry with an index of -1
      reads as zero) is the brute-force level of that pixel. */
  lemma TableLevel(img: Image, sum: seq<seq<int>>, x: int, y: int, dx: int, dy: int,
                   xm: int, xM: int, ym: int, yM: int, a: int, b: int, c: int, d: int, count: int)
    requires img.Valid() && ValidPos(img, x, y) && dx >= 0 && dy >= 0
    requires |sum| == img.height && forall j :: 0 <= j < img.height ==> |sum[j]| == img.width
    requires forall j, i :: 0 <= j < img.height && 0 <= i < img.width ==> sum[j][i] == Prefix(img, i, j)
    requires xm == WindowLo(x, dx) && xM == WindowHi(x, dx, img.width)
    requires ym == WindowLo(y, dy) && yM == WindowHi(y, dy, img.height)
    requires a == if ym < 1 || xm < 1 then 0 else sum[ym - 1][xm - 1]
    requires b == if ym < 1 then 0 else sum[ym - 1][xM]
    requires c == if xm < 1 then 0 else sum[yM][xm - 1]
    requires d == sum[yM][xM]
    requires count == (xM - xm + 1) * (yM - ym + 1)
    ensures count > 0 && 0 <= d - b - c + a <= 255 * count
    ensures (d - b - c + a + count / 2) / count == BrutePixel(img, x, y, dx, dy)
  {
    WindowFacts(img, x, y, dx, dy);
    WindowSumRange(img, x, y, dx, dy);
    InclusionExclusion(img, xm, xM, ym, yM);
    PrefixEdges(img, xm - 1, ym - 1);
    PrefixEdges(img, xM, ym - 1);
    PrefixEdges(img, xm - 1, yM);
    var soma := d - b - c + a;
    assert soma == BruteSum(img, x - dx, x + dx + 1, y - dy, y + dy + 1);
    assert count == BruteCount(img, x - dx, x + dx + 1, y - dy, y + dy + 1);
    assert BrutePixel(img, x, y, dx, dy) == RoundedMean(soma, count);
  }

  /** The table-based blur. The levels are written over the image one at a
      time, but each is read off the table of the ORIGINAL pixels, so no
      write feeds into a later level and the result is exactly the
      brute-force blurred image. */
  method Blur(img: Image, dx: int, dy: int) returns (r: Image)
    requires img.Valid() && dx >= 0 && dy >= 0
    ensures r == BlurRef(img, dx, dy)
  {
    var w, h := img.width, img.height;
    var sum := SummedAreaTable(img);
    r := img;
    var x := 0;
    while x < w
      invariant 0 <= x <= w
      invariant r.Valid() && r.width == w && r.height == h && r.maxval == img.maxval
      invariant forall i, j :: 0 <= i < x && 0 <= j < h ==> GetPixel(r, i, j) == BrutePixel(img, i, j, dx, dy)
    {
      var y := 0;
      while y < h
        invariant 0 <= y <= h
        invariant r.Valid() && r.width == w && r.height == h && r.maxval == img.maxval
        invariant forall i, j :: 0 <= i < x && 0 <= j < h ==> GetPixel(r, i, j) == BrutePixel(img, i, j, dx, dy)
        invariant forall j :: 0 <= j < y ==> GetPixel(r, x, j) == BrutePixel(img, x, j, dx, dy)
      {
        var xM := if x + dx < w - 1 then x + dx else w - 1;
        var xm := if x - dx > 0 then x - dx else 0;
        var yM := if y + dy < h - 1 then y + dy else h - 1;
        var ym := if y - dy > 0 then y - dy else 0;
        var count := (xM - xm + 1) * (yM - ym + 1);
        var a := if ym < 1 || xm < 1 then 0 else sum[ym - 1][xm - 1];
        var b := if ym < 1 then 0 else sum[ym - 1][xM];
        var c := if xm < 1 then 0 else sum[yM][xm - 1];
        var d := sum[yM][xM];
        TableLevel(img, sum, x, y, dx, dy, xm, xM, ym, yM, a, b, c, d, count);
        var soma := d - b - c + a;
        r := SetPixel(r, x, y, (soma + count / 2) / count);
        y := y + 1;
      }
      x := x + 1;
    }
    Extensionality(r, BlurRef(img, dx, dy));
  }

  /** With dx = dy = 0 the window of (x, y) is the pixel itself. */
  lemma BrutePixelZeroRadius(img: Image, x: int, y: int)
    requires img.Valid() && ValidPos(img, x, y)
    ensures BrutePixel(img, x, y, 0, 0) == GetPixel(img, x, y)
  {
    var p := GetPixel(img, x, y);
    assert BruteSum(img, x, x + 1, y, y + 1) == p by {
      assert BruteSum(img, x, x, y, y + 1) == 0;
      assert BruteColumnSum(img, x, y, y) == 0;
    }
    assert BruteCount(img, x, x + 1, y, y + 1) == 1 by {
      assert BruteCount(img, x, x, y, y + 1) == 0;
      assert BruteColumnCount(img, x, y, y) == 0;
    }
    assert BrutePixel(img, x, y, 0, 0) == RoundedMean(p, 1);
  }

  /** A zero radius leaves the image as it was. */
  lemma BlurZeroRadius(img: Image)
    requires img.Valid()
    ensures BlurRef(img, 0, 0) == img
  {
    var r := BlurRef(img, 0, 0);
    assert forall x, y :: ValidPos(r, x, y) ==> GetPixel(r, x, y) == GetPixel(img, x, y) by {
      forall x, y | ValidPos(r, x, y)
        ensures GetPixel(r, x, y) == GetPixel(img, x, y)
      {
        BrutePixelZeroRadius(img, x, y);
      }
    }
    Extensionality(r, img);
  }

  /** A blurred level lies between the darkest and the brightest pixel of
      its clipped window. */
  lemma BlurWithinWindow(img: Image, dx: int, dy: int, x: int, y: int, lo: int, hi: int)
    requires img.Valid() && dx >= 0 && dy >= 0 && ValidPos(img, x, y)
    requires forall k, l :: ValidPos(img, k, l) && x - dx <= k <= x + dx && y - dy <= l <= y + dy ==>
      lo <= GetPixel(img, k, l) <= hi
    ensures lo <= GetPixel(BlurRef(img, dx, dy), x, y) <= hi
  {
    BrutePixelClipped(img, x, y, dx, dy);
    var xm, xM := WindowLo(x, dx), WindowHi(x, dx, img.width);
    var ym, yM := WindowLo(y, dy), WindowHi(y, dy, img.height);
    var count := (xM - xm + 1) * (yM - ym + 1);
    var sum := BoxSum(img, xm, xM + 1, ym, yM + 1);
    assert lo * count <= sum <= hi * count by {
      BoxBounds(img, xm, xM + 1, ym, yM + 1, lo, hi);
    }
    assert lo <= RoundedMean(sum, count) <= hi by {
      Arith.RoundedMeanBounds(sum, count, lo, hi);
    }
    assert BrutePixel(img, x, y, dx, dy) == RoundedMean(sum, count);
    assert GetPixel(BlurRef(img, dx, dy), x, y) == BrutePixel(img, x, y, dx, dy);
  }

  /** A window that covers the whole image gives every pixel the same level:
      the rounded mean of all pixels. */
  lemma BlurWholeImage(img: Image, dx: int, dy: int, x: int, y: int)
    requires img.Valid() && dx >= img.width && dy >= img.height && ValidPos(img, x, y)
    ensures GetPixel(BlurRef(img, dx, dy), x, y) ==
      (BoxSum(img, 0, img.width, 0, img.height) + (img.width * img.height) / 2) / (img.width * img.height)
  {
    BrutePixelClipped(img, x, y, dx, dy);
    var w, h := img.width, img.height;
    assert WindowLo(x, dx) == 0 && WindowHi(x, dx, w) == w - 1;
    assert WindowLo(y, dy) == 0 && WindowHi(y, dy, h) == h - 1;
    assert BrutePixel(img, x, y, dx, dy) == RoundedMean(BoxSum(img, 0, w, 0, h), w * h);
  }
}
