/** Sub-image search: the exact match test at one offset and the
    exhaustive locate that returns the first matching offset. */
module SubImage {
  import opened Raster
  import Geometry
  import Compositing

  /** Every pixel of `img2`, placed with its top-left pixel at (x, y), falls
      inside `img1` (nothing to fit when `img2` has no pixels). The match
      reads `img1` at each of these positions through the checked accessor,
      so a caller must ensure this. */
  predicate Fits(img1: Image, x: int, y: int, img2: Image) {
    img2.width == 0 || img2.height == 0 ||
    (x + img2.width <= img1.width && y + img2.height <= img1.height)
  }

  /** Every pixel of `img2` equals the pixel of `img1` it covers when placed
      at (x, y). */
  ghost predicate Matches(img1: Image, x: int, y: int, img2: Image)
    requires img1.Valid() && img2.Valid()
  {
    forall i, j :: ValidPos(img2, i, j) ==>
      ValidPos(img1, x + i, y + j) && GetPixel(img1, x + i, y + j) == GetPixel(img2, i, j)
  }

  /** Compares column i of `img2`, from row j down, with `img1`; stops at the
      first mismatch. */
  function MatchColumn(img1: Image, x: int, y: int, img2: Image, i: int, j: int): (r: bool)
    requires img1.Valid() && img2.Valid() && ValidPos(img1, x, y) && Fits(img1, x, y, img2)
    requires 0 <= i < img2.width && 0 <= j <= img2.height
    ensures r <==> forall jj :: j <= jj < img2.height ==>
      GetPixel(img1, x + i, y + jj) == GetPixel(img2, i, jj)
    decreases img2.height - j
  {
    j == img2.height ||
    (GetPixel(img1, x + i, y + j) == GetPixel(img2, i, j) && MatchColumn(img1, x, y, img2, i, j + 1))
  }

  /** Compares the columns of `img2` from column i on, column by column. */
  function MatchColumns(img1: Image, x: int, y: int, img2: Image, i: int): (r: bool)
    requires img1.Valid() && img2.Valid() && ValidPos(img1, x, y) && Fits(img1, x, y, img2)
    requires 0 <= i <= img2.width
    ensures r <==> forall ii, jj :: i <= ii < img2.width && 0 <= jj < img2.height ==>
      GetPixel(img1, x + ii, y + jj) == GetPixel(img2, ii, jj)
    decreases img2.width - i
  {
    i == img2.width ||
    (MatchColumn(img1, x, y, img2, i, 0) && MatchColumns(img1, x, y, img2, i + 1))
  }

  /** True exactly when `img2` matches `img1` at (x, y). The scan runs over
      columns outside and rows inside and gives up at the first mismatch. */
  function MatchSubImage(img1: Image, x: int, y: int, img2: Image): (r: bool)
    requires img1.Valid() && img2.Valid() && ValidPos(img1, x, y) && Fits(img1, x, y, img2)
    ensures r <==> Matches(img1, x, y, img2)
  {
    MatchColumns(img1, x, y, img2, 0)
  }

  /** Matching at an offset is the same as cropping the covered rectangle and
      finding `img2` there (up to maxval). */
  lemma MatchIffCrop(img1: Image, x: int, y: int, img2: Image)
    requires img1.Valid() && img2.Valid() && ValidPos(img1, x, y)
    requires ValidRect(img1, x, y, img2.width, img2.height)
    ensures Fits(img1, x, y, img2)
    ensures MatchSubImage(img1, x, y, img2) <==>
      Geometry.Crop(img1, x, y, img2.width, img2.height) == img2.(maxval := img1.maxval)
  {
    var c := Geometry.Crop(img1, x, y, img2.width, img2.height);
    if Matches(img1, x, y, img2) {
      MatchedCropIsPattern(img1, x, y, img2);
    }
    if c == img2.(maxval := img1.maxval) {
      CroppedPatternMatches(img1, x, y, img2);
    }
  }

  lemma MatchedCropIsPattern(img1: Image, x: int, y: int, img2: Image)
    requires img1.Valid() && img2.Valid() && ValidPos(img1, x, y)
    requires ValidRect(img1, x, y, img2.width, img2.height)
    requires Matches(img1, x, y, img2)
    ensures Geometry.Crop(img1, x, y, img2.width, img2.height) == img2.(maxval := img1.maxval)
  {
    var c := Geometry.Crop(img1, x, y, img2.width, img2.height);
    var s := img2.(maxval := img1.maxval);
    assert forall i, j :: ValidPos(c, i, j) ==> GetPixel(c, i, j) == GetPixel(s, i, j) by {
      forall i, j | ValidPos(c, i, j)
        ensures GetPixel(c, i, j) == GetPixel(s, i, j)
      {
        assert GetPixel(c, i, j) == GetPixel(img1, x + i, y + j);
        assert ValidPos(img2, i, j);
        assert GetPixel(img1, x + i, y + j) == GetPixel(img2, i, j);
        assert GetPixel(s, i, j) == img2.pixel[Index(img2, i, j)];
      }
    }
    Extensionality(c, s);
  }

  lemma CroppedPatternMatches(img1: Image, x: int, y: int, img2: Image)
    requires img1.Valid() && img2.Valid() && ValidPos(img1, x, y)
    requires ValidRect(img1, x, y, img2.width, img2.height)
    requires Geometry.Crop(img1, x, y, img2.width, img2.height) == img2.(maxval := img1.maxval)
    ensures Matches(img1, x, y, img2)
  {
    var c := Geometry.Crop(img1, x, y, img2.width, img2.height);
    forall i, j | ValidPos(img2, i, j)
      ensures ValidPos(img1, x + i, y + j) && GetPixel(img1, x + i, y + j) == GetPixel(img2, i, j)
    {
      assert GetPixel(c, i, j) == GetPixel(img1, x + i, y + j);
    }
  }

  /** Outcome of the scan: the first matching offset, if any. */
  datatype Location = NotFound | Found(x: int, y: int)

  /** Outcome of the locate call: its return value and the final contents of
      the two position out-parameters. */
  datatype Search = Search(found: bool, px: int, py: int)

  /** Offset (i, j) is tried before offset (x, y): columns outside, rows inside. */
  predicate ScansBefore(i: int, j: int, x: int, y: int) {
    i < x || (i == x && j < y)
  }

  /** The scan only visits valid positions of `img1`: either it visits none
      (`img2` wider or taller than `img1`) or `img1` has pixels. An `img2`
      with no pixels matches at the very first offset, (0, 0). */
  predicate ScanSafe(img1: Image, img2: Image) {
    img2.width > img1.width || img2.height > img1.height ||
    (img1.width > 0 && img1.height > 0)
  }

  /** Tries offsets (i, j), (i, j+1), ... down to the last row offset. */
  function LocateInColumn(img1: Image, img2: Image, i: int, j: int): (r: Location)
    requires img1.Valid() && img2.Valid() && ScanSafe(img1, img2)
    requires 0 <= i <= img1.width - img2.width && 0 <= j
    requires (img2.width == 0 || img2.height == 0) && img2.height <= img1.height ==> i == 0 && j == 0
    ensures r.Found? ==> r.x == i && j <= r.y <= img1.height - img2.height
    ensures r.Found? ==> Matches(img1, r.x, r.y, img2)
    ensures r.Found? ==> forall jj :: j <= jj < r.y ==> !Matches(img1, i, jj, img2)
    ensures r.NotFound? ==> forall jj :: j <= jj <= img1.height - img2.height ==> !Matches(img1, i, jj, img2)
    decreases img1.height - img2.height - j
  {
    if j > img1.height - img2.height then NotFound
    else if MatchSubImage(img1, i, j, img2) then Found(i, j)
    else LocateInColumn(img1, img2, i, j + 1)
  }

  /** Tries the column offsets from i on, each one from row offset 0 down. */
  function LocateFrom(img1: Image, img2: Image, i: int): (r: Location)
    requires img1.Valid() && img2.Valid() && ScanSafe(img1, img2) && 0 <= i
    requires (img2.width == 0 || img2.height == 0) && img2.height <= img1.height ==> i == 0
    ensures r.Found? ==> i <= r.x <= img1.width - img2.width && 0 <= r.y <= img1.height - img2.height
    ensures r.Found? ==> Matches(img1, r.x, r.y, img2)
    ensures r.Found? ==> forall ii, jj ::
      (i <= ii <= img1.width - img2.width && 0 <= jj <= img1.height - img2.height &&
       ScansBefore(ii, jj, r.x, r.y)) ==> !Matches(img1, ii, jj, img2)
    ensures r.NotFound? ==> forall ii, jj ::
      i <= ii <= img1.width - img2.width && 0 <= jj <= img1.height - img2.height ==> !Matches(img1, ii, jj, img2)
    decreases img1.width - img2.width + 1 - i
  {
    if i > img1.width - img2.width then NotFound
    else match LocateInColumn(img1, img2, i, 0)
      case Found(x, y) => Found(x, y)
      case NotFound => LocateFrom(img1, img2, i + 1)
  }

  /** Searches for `img2` inside `img1`, offsets in the order (0,0), (0,1),
      ..., (1,0), ...; on success reports the first matching offset, on
      failure leaves the given (px, py) as they were. */
  function LocateSubImage(img1: Image, px: int, py: int, img2: Image): (r: Search)
    requires img1.Valid() && img2.Valid() && ScanSafe(img1, img2)
    ensures r.found <==> exists i, j ::
      0 <= i <= img1.width - img2.width && 0 <= j <= img1.height - img2.height && Matches(img1, i, j, img2)
    ensures r.found ==> 0 <= r.px <= img1.width - img2.width && 0 <= r.py <= img1.height - img2.height
    ensures r.found ==> Matches(img1, r.px, r.py, img2)
    ensures r.found ==> forall i, j ::
      (0 <= i <= img1.width - img2.width && 0 <= j <= img1.height - img2.height &&
       ScansBefore(i, j, r.px, r.py)) ==> !Matches(img1, i, j, img2)
    ensures !r.found ==> r.px == px && r.py == py
  {
    match LocateFrom(img1, img2, 0)
    case Found(x, y) => Search(true, x, y)
    case NotFound => Search(false, px, py)
  }

  /** An image is found inside itself at (0, 0). */
  lemma LocateSelf(img: Image, px: int, py: int)
    requires img.Valid() && img.width > 0 && img.height > 0
    ensures LocateSubImage(img, px, py, img) == Search(true, 0, 0)
  {
    assert Matches(img, 0, 0, img);
  }

  /** A pattern wider or taller than the image is not found, and the
      positions are left alone. */
  lemma LocateTooLarge(img1: Image, px: int, py: int, img2: Image)
    requires img1.Valid() && img2.Valid()
    requires img2.width > img1.width || img2.height > img1.height
    ensures LocateSubImage(img1, px, py, img2) == Search(false, px, py)
  {
  }

  /** After pasting `src` at (x, y), locating `src` succeeds, at (x, y) or at
      an offset the scan reaches earlier. */
  lemma LocateAfterPaste(dest: Image, x: int, y: int, src: Image, px: int, py: int)
    requires dest.Valid() && src.Valid()
    requires ValidPos(dest, x, y) && ValidRect(dest, x, y, src.width, src.height)
    ensures ScanSafe(Compositing.Paste(dest, x, y, src), src)
    ensures LocateSubImage(Compositing.Paste(dest, x, y, src), px, py, src).found
    ensures var r := LocateSubImage(Compositing.Paste(dest, x, y, src), px, py, src);
      (r.px == x && r.py == y) || ScansBefore(r.px, r.py, x, y)
  {
    var p := Compositing.Paste(dest, x, y, src);
    assert Matches(p, x, y, src);
  }
}
