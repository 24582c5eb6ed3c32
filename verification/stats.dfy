/** Pixel statistics: the darkest and brightest gray levels of an image,
    accumulated into the caller's running minimum and maximum. */
module Stats {
  import opened Raster

  /** The final contents of the two out-parameters. */
  datatype MinMax = MinMax(min: Byte, max: Byte)

  /** (i, j) is still to be visited when the scan stands at (x, y); the scan
      runs over columns outside and rows inside. */
  predicate Remaining(img: Image, x: int, y: int, i: int, j: int) {
    ValidPos(img, i, j) && (i > x || (i == x && j >= y))
  }

  /** `m` is the smallest of `m0` and the levels still to be visited. */
  ghost predicate IsLeast(img: Image, x: int, y: int, m0: int, m: int)
    requires img.Valid()
  {
    && m <= m0
    && (forall i, j :: Remaining(img, x, y, i, j) ==> m <= GetPixel(img, i, j))
    && (m == m0 || exists i, j :: Remaining(img, x, y, i, j) && GetPixel(img, i, j) == m)
  }

  /** `m` is the largest of `m0` and the levels still to be visited. */
  ghost predicate IsGreatest(img: Image, x: int, y: int, m0: int, m: int)
    requires img.Valid()
  {
    && m >= m0
    && (forall i, j :: Remaining(img, x, y, i, j) ==> GetPixel(img, i, j) <= m)
    && (m == m0 || exists i, j :: Remaining(img, x, y, i, j) && GetPixel(img, i, j) == m)
  }

  /** The scan as the source writes it, from (x, y) on: a level below the
      running minimum replaces it, and only OTHERWISE (`else if`) is the
      running maximum compared. The minimum always comes out right; the
      maximum at least whenever the running minimum starts at or below it. */
  function ScanAsWritten(img: Image, x: int, y: int, mn: Byte, mx: Byte): (r: MinMax)
    requires img.Valid() && 0 <= x <= img.width && 0 <= y <= img.height
    ensures IsLeast(img, x, y, mn, r.min)
    ensures r.max >= mx
    ensures r.max == mx || exists i, j :: Remaining(img, x, y, i, j) && GetPixel(img, i, j) == r.max
    ensures mn <= mx ==> IsGreatest(img, x, y, mx, r.max)
    decreases img.width - x, img.height - y
  {
    if x == img.width then MinMax(mn, mx)
    else if y == img.height then ScanAsWritten(img, x + 1, 0, mn, mx)
    else
      var p := GetPixel(img, x, y);
      if mn > p then ScanAsWritten(img, x, y + 1, p, mx)
      else if mx < p then ScanAsWritten(img, x, y + 1, mn, p)
      else ScanAsWritten(img, x, y + 1, mn, mx)
  }

  /** The statistics as the source computes them, starting from the caller's
      `*min` and `*max`. */
  function StatsAsWritten(img: Image, min0: Byte, max0: Byte): (r: MinMax)
    requires img.Valid()
    ensures IsLeast(img, 0, 0, min0, r.min)
    ensures min0 <= max0 ==> IsGreatest(img, 0, 0, max0, r.max)
  {
    ScanAsWritten(img, 0, 0, min0, max0)
  }

  /** With the usual start `*min = 255`, `*max = 0`, a one-pixel image of
      level 5 reports a maximum of 0: the only pixel lowers the minimum, so
      the `else if` never looks at the maximum. */
  lemma StatsAsWrittenMissesMax()
    ensures var img := Image(1, 1, 255, [5]);
      img.Valid() && StatsAsWritten(img, 255, 0) == MinMax(5, 0) && GetPixel(img, 0, 0) == 5
  {
    var img := Image(1, 1, 255, [5]);
    assert GetPixel(img, 0, 0) == 5;
  }

  /** The scan with the two comparisons independent, as the documented
      contract (minimum and maximum level) requires. */
  function Scan(img: Image, x: int, y: int, mn: Byte, mx: Byte): (r: MinMax)
    requires img.Valid() && 0 <= x <= img.width && 0 <= y <= img.height
    ensures IsLeast(img, x, y, mn, r.min)
    ensures IsGreatest(img, x, y, mx, r.max)
    decreases img.width - x, img.height - y
  {
    if x == img.width then MinMax(mn, mx)
    else if y == img.height then Scan(img, x + 1, 0, mn, mx)
    else
      var p := GetPixel(img, x, y);
      Scan(img, x, y + 1, if p < mn then p else mn, if mx < p then p else mx)
  }

  /** The corrected statistics: the least of `*min` and all levels, and the
      greatest of `*max` and all levels, whatever the starting values. */
  function ImageStats(img: Image, min0: Byte, max0: Byte): (r: MinMax)
    requires img.Valid()
    ensures IsLeast(img, 0, 0, min0, r.min)
    ensures IsGreatest(img, 0, 0, max0, r.max)
  {
    Scan(img, 0, 0, min0, max0)
  }

  /** When the caller's starting minimum is at or below its starting maximum,
      the `else if` does no harm: both scans give the same result. */
  lemma StatsAgreeWhenOrdered(img: Image, min0: Byte, max0: Byte)
    requires img.Valid() && min0 <= max0
    ensures StatsAsWritten(img, min0, max0) == ImageStats(img, min0, max0)
  {
  }
}
