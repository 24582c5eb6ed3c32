/** Geometric transformations. Each one allocates and returns a new image;
    being a function of its argument, the source image is left as it was. */
module Geometry {
  import opened Raster

  /** A quarter turn. The source's comment calls it clockwise, but its
      assignment moves input pixel (y, i) to output (i, width-1-y), which is
      a COUNTER-clockwise turn; this is the mapping modelled. */
  function Rotate(img: Image): (r: Image)
    requires img.Valid()
    ensures r.Valid() && r.width == img.height && r.height == img.width && r.maxval == img.maxval
    ensures forall ox, oy :: ValidPos(r, ox, oy) ==>
      GetPixel(r, ox, oy) == GetPixel(img, img.width - 1 - oy, ox)
  {
    var r := Tabulate(img.height, img.width, img.maxval,
      (ox, oy) => PixelOrBlack(img, img.width - 1 - oy, ox));
    assert forall ox, oy :: ValidPos(r, ox, oy) ==>
      GetPixel(r, ox, oy) == PixelOrBlack(img, img.width - 1 - oy, ox);
    r
  }

  /** The assignment as the source writes it: input pixel (y, i) lands at
      output position (i, width-1-y). */
  lemma RotateMovesPixels(img: Image, i: int, y: int)
    requires img.Valid() && 0 <= i < img.height && 0 <= y < img.width
    ensures GetPixel(Rotate(img), i, img.width - 1 - y) == GetPixel(img, y, i)
  {
  }

  /** The input's top-right corner becomes the output's top-left corner:
      the turn is counter-clockwise. */
  lemma RotateCounterClockwise(img: Image)
    requires img.Valid() && img.width > 0 && img.height > 0
    ensures GetPixel(Rotate(img), 0, 0) == GetPixel(img, img.width - 1, 0)
    ensures GetPixel(Rotate(img), img.height - 1, img.width - 1) == GetPixel(img, 0, img.height - 1)
  {
  }

  /** Two quarter turns are a half turn: the image upside down and flipped. */
  lemma RotateTwice(img: Image)
    requires img.Valid()
    ensures Rotate(Rotate(img)).Valid()
    ensures Rotate(Rotate(img)).width == img.width && Rotate(Rotate(img)).height == img.height
    ensures Rotate(Rotate(img)).maxval == img.maxval
    ensures forall x, y :: ValidPos(img, x, y) ==>
      GetPixel(Rotate(Rotate(img)), x, y) == GetPixel(img, img.width - 1 - x, img.height - 1 - y)
  {
    var r1 := Rotate(img);
    var r2 := Rotate(r1);
    forall x, y | ValidPos(img, x, y)
      ensures GetPixel(r2, x, y) == GetPixel(img, img.width - 1 - x, img.height - 1 - y)
    {
      assert GetPixel(r2, x, y) == GetPixel(r1, img.height - 1 - y, x);
    }
  }

  /** Turning an image upside down and flipping it, twice, gives it back. */
  lemma HalfTurnTwice(a: Image, b: Image, c: Image)
    requires a.Valid() && b.Valid() && c.Valid()
    requires b.width == a.width && b.height == a.height && b.maxval == a.maxval
    requires c.width == a.width && c.height == a.height && c.maxval == a.maxval
    requires forall x, y {:trigger GetPixel(b, x, y)} :: ValidPos(a, x, y) ==>
      GetPixel(b, x, y) == GetPixel(a, a.width - 1 - x, a.height - 1 - y)
    requires forall x, y {:trigger GetPixel(c, x, y)} :: ValidPos(b, x, y) ==>
      GetPixel(c, x, y) == GetPixel(b, b.width - 1 - x, b.height - 1 - y)
    ensures c == a
  {
    assert forall x, y :: ValidPos(c, x, y) ==> GetPixel(c, x, y) == GetPixel(a, x, y) by {
      forall x, y | ValidPos(c, x, y)
        ensures GetPixel(c, x, y) == GetPixel(a, x, y)
      {
        var x', y' := a.width - 1 - x, a.height - 1 - y;
        assert GetPixel(c, x, y) == GetPixel(b, x', y');
        assert a.width - 1 - x' == x && a.height - 1 - y' == y;
      }
    }
    Extensionality(c, a);
  }

  /** Four quarter turns give back the original image. */
  lemma RotateFourTimes(img: Image)
    requires img.Valid()
    ensures Rotate(Rotate(Rotate(Rotate(img)))) == img
  {
    var r2 := Rotate(Rotate(img));
    RotateTwice(img);
    RotateTwice(r2);
    HalfTurnTwice(img, r2, Rotate(Rotate(r2)));
  }

  /** A left-right flip: input (x, y) goes to output (width-1-x, y). */
  function Mirror(img: Image): (r: Image)
    requires img.Valid()
    ensures r.Valid() && r.width == img.width && r.height == img.height && r.maxval == img.maxval
    ensures forall x, y :: ValidPos(img, x, y) ==>
      GetPixel(r, img.width - 1 - x, y) == GetPixel(img, x, y)
  {
    var r := Tabulate(img.width, img.height, img.maxval,
      (x, y) => PixelOrBlack(img, img.width - 1 - x, y));
    assert forall x, y :: ValidPos(r, x, y) ==> GetPixel(r, x, y) == PixelOrBlack(img, img.width - 1 - x, y);
    r
  }

  /** Flipping twice gives back the original image. */
  lemma MirrorInvolution(img: Image)
    requires img.Valid()
    ensures Mirror(Mirror(img)) == img
  {
    var m := Mirror(img);
    var mm := Mirror(m);
    forall x, y | ValidPos(mm, x, y)
      ensures GetPixel(mm, x, y) == GetPixel(img, x, y)
    {
      assert GetPixel(mm, img.width - 1 - (img.width - 1 - x), y) == GetPixel(m, img.width - 1 - x, y);
    }
    Extensionality(mm, img);
  }

  /** The w-by-h rectangle with top-left corner (x, y), as a new image with
      the source's maxval. */
  function Crop(img: Image, x: int, y: int, w: int, h: int): (r: Image)
    requires img.Valid() && ValidPos(img, x, y) && ValidRect(img, x, y, w, h)
    ensures r.Valid() && r.width == w && r.height == h && r.maxval == img.maxval
    ensures forall i, j :: 0 <= i < w && 0 <= j < h ==> GetPixel(r, i, j) == GetPixel(img, x + i, y + j)
  {
    var r := Tabulate(w, h, img.maxval, (i, j) => PixelOrBlack(img, x + i, y + j));
    assert forall i, j :: ValidPos(r, i, j) ==> GetPixel(r, i, j) == PixelOrBlack(img, x + i, y + j);
    r
  }
}
