/** Pixel transformations that change levels in place but never positions
    or geometry: the photographic negative and the threshold. */
module Pointwise {
  import opened Raster

  /** Every pixel p becomes `PixMax - p`. The constant 255 is used whatever
      the image's own maxval is. */
  function Negative(img: Image): (r: Image)
    requires img.Valid()
    ensures r.Valid() && r.width == img.width && r.height == img.height && r.maxval == img.maxval
    ensures forall x, y :: ValidPos(img, x, y) ==> GetPixel(r, x, y) == PixMax - GetPixel(img, x, y)
  {
    img.(pixel := seq(|img.pixel|, k requires 0 <= k < |img.pixel| => PixMax - img.pixel[k]))
  }

  /** The negative is its own inverse. */
  lemma NegativeInvolution(img: Image)
    requires img.Valid()
    ensures Negative(Negative(img)) == img
  {
    Extensionality(Negative(Negative(img)), img);
  }

  /** Pixels below `thr` become black (0) and all others white (maxval). */
  function Threshold(img: Image, thr: Byte): (r: Image)
    requires img.Valid()
    ensures r.Valid() && r.width == img.width && r.height == img.height && r.maxval == img.maxval
    ensures forall x, y :: ValidPos(img, x, y) ==>
      GetPixel(r, x, y) == (if GetPixel(img, x, y) < thr then 0 else img.maxval)
  {
    img.(pixel := seq(|img.pixel|, k requires 0 <= k < |img.pixel| =>
      if img.pixel[k] < thr then 0 else img.maxval))
  }

  /** After a threshold the image is two-level: only black and maxval occur. */
  lemma ThresholdTwoLevels(img: Image, thr: Byte, x: int, y: int)
    requires img.Valid() && ValidPos(img, x, y)
    ensures GetPixel(Threshold(img, thr), x, y) in {0, img.maxval}
  {
  }

  /** A threshold at a level in [0, maxval] is idempotent; one above maxval
      is not, since the second pass turns the white pixels black. */
  lemma ThresholdIdempotent(img: Image, thr: Byte)
    requires img.Valid() && thr <= img.maxval
    ensures Threshold(Threshold(img, thr), thr) == Threshold(img, thr)
  {
    Extensionality(Threshold(Threshold(img, thr), thr), Threshold(img, thr));
  }
}
