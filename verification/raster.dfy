/** The raster store of the 8-bit grayscale image engine: the image record,
    the row-major index `x + y*width`, the two geometry predicates and the
    primitive pixel get/set that every other operation is built on. */
module Raster {
  import Arith

  /** An 8-bit gray level (the C type `uint8`). */
  type Byte = b: int | 0 <= b < 256

  /** The largest value a pixel can hold and the largest accepted maxval. */
  const PixMax: Byte := 255

  /** An image: its dimensions, its maximum gray level (white) and its pixels
      as one raster scan, left to right and top to bottom. Nothing forces
      the pixels to stay at or below `maxval`: the source stores whatever
      byte it is given. */
  datatype Image = Image(width: nat, height: nat, maxval: Byte, pixel: seq<Byte>) {

    /** The record is well formed: one byte per position and a positive maxval. */
    predicate Valid() {
      0 < maxval && |pixel| == width * height
    }
  }

  /** Position (x,y) lies inside the image. */
  predicate ValidPos(img: Image, x: int, y: int) {
    0 <= x < img.width && 0 <= y < img.height
  }

  /** The rectangle with top-left corner (x,y), width `w` and height `h`
      passes the source's check. The far edge is compared with a STRICT
      `<`, so a rectangle that reaches the last column or row is refused. */
  predicate ValidRect(img: Image, x: int, y: int, w: int, h: int)
    requires ValidPos(img, x, y)
  {
    0 <= w < img.width - x && 0 <= h < img.height - y
  }

  /** Given a valid corner, the check accepts exactly the rectangles of
      non-negative size whose far corner (x+w, y+h), one step beyond the
      rectangle on both axes, is itself a position of the image. */
  lemma ValidRectFarCorner(img: Image, x: int, y: int, w: int, h: int)
    requires ValidPos(img, x, y)
    ensures ValidRect(img, x, y, w, h) <==> 0 <= w && 0 <= h && ValidPos(img, x + w, y + h)
  {
  }

  /** A rectangle that reaches the right or bottom edge is refused, even
      though it lies inside the image; in particular the whole image is. */
  lemma ValidRectRefusesEdge(img: Image, x: int, y: int, w: int, h: int)
    requires ValidPos(img, x, y)
    requires x + w == img.width || y + h == img.height
    ensures !ValidRect(img, x, y, w, h)
  {
  }

  /** The index of the first pixel of row y: y rows of `width` pixels
      precede it. Written as a repeated sum, `y * width` in closed form is
      what RowStartIsProduct states. */
  function RowStart(width: nat, y: nat): nat {
    if y == 0 then 0 else RowStart(width, y - 1) + width
  }

  lemma {:induction false} RowStartIsProduct(width: nat, y: nat)
    ensures RowStart(width, y) == y * width
  {
    if y > 0 {
      RowStartIsProduct(width, y - 1);
      Arith.Distrib(y - 1, 1, width);
    }
  }

  /** The linear index of position (x,y) in the raster scan (`G` in the
      source): `x + y*width`. */
  function Index(img: Image, x: int, y: int): (k: int)
    requires img.Valid() && ValidPos(img, x, y)
    ensures 0 <= k < |img.pixel|
  {
    RowStartIsProduct(img.width, y);
    Arith.IndexInGrid(img.width, img.height, x, y);
    x + RowStart(img.width, y)
  }

  /** The index is a bijection: column and row are recovered from it. */
  lemma IndexRoundTrip(img: Image, x: int, y: int)
    requires img.Valid() && ValidPos(img, x, y)
    ensures Index(img, x, y) % img.width == x && Index(img, x, y) / img.width == y
  {
    RowStartIsProduct(img.width, y);
    Arith.DivModUnique(x + y * img.width, img.width, y, x);
  }

  /** The index is the row-major offset `x + y*width`. */
  lemma IndexValue(img: Image, x: int, y: int)
    requires img.Valid() && ValidPos(img, x, y)
    ensures Index(img, x, y) == x + y * img.width
  {
    IndexRoundTrip(img, x, y);
  }

  /** Every slot of the pixel buffer is the index of exactly one position. */
  lemma IndexOnto(img: Image, k: int)
    requires img.Valid() && 0 <= k < |img.pixel|
    ensures img.width > 0 && ValidPos(img, k % img.width, k / img.width)
    ensures Index(img, k % img.width, k / img.width) == k
  {
    Arith.GridSplit(img.width, img.height, k);
    RowStartIsProduct(img.width, k / img.width);
  }

  /** A new all-black image of the given size. */
  function Create(width: int, height: int, maxval: Byte): (r: Image)
    requires width >= 0 && height >= 0 && 0 < maxval
    ensures r.Valid() && r.width == width && r.height == height && r.maxval == maxval
    ensures |r.pixel| == width * height
    ensures forall x, y :: ValidPos(r, x, y) ==> GetPixel(r, x, y) == 0
  {
    Image(width, height, maxval, seq(width * height, _ => 0))
  }

  /** The gray level at a valid position. */
  function GetPixel(img: Image, x: int, y: int): Byte
    requires img.Valid() && ValidPos(img, x, y)
  {
    img.pixel[Index(img, x, y)]
  }

  /** The image with the pixel at a valid position replaced by `level`. */
  function SetPixel(img: Image, x: int, y: int, level: Byte): (r: Image)
    requires img.Valid() && ValidPos(img, x, y)
    ensures r.Valid() && r.width == img.width && r.height == img.height && r.maxval == img.maxval
    ensures GetPixel(r, x, y) == level
    ensures forall i, j :: ValidPos(img, i, j) && (i != x || j != y) ==> GetPixel(r, i, j) == GetPixel(img, i, j)
  {
    var k := Index(img, x, y);
    assert forall i, j :: ValidPos(img, i, j) && (i != x || j != y) ==> Index(img, i, j) != k by {
      forall i, j | ValidPos(img, i, j) && (i != x || j != y)
        ensures Index(img, i, j) != k
      {
        IndexRoundTrip(img, i, j);
        IndexRoundTrip(img, x, y);
      }
    }
    img.(pixel := img.pixel[k := level])
  }

  /** Storing back the level just read changes nothing. */
  lemma SetOwnPixel(img: Image, x: int, y: int)
    requires img.Valid() && ValidPos(img, x, y)
    ensures SetPixel(img, x, y, GetPixel(img, x, y)) == img
  {
  }

  /** Two well-formed images of the same size and maxval that agree at every
      position are the same image. */
  lemma Extensionality(a: Image, b: Image)
    requires a.Valid() && b.Valid()
    requires a.width == b.width && a.height == b.height && a.maxval == b.maxval
    requires forall x, y :: ValidPos(a, x, y) ==> GetPixel(a, x, y) == GetPixel(b, x, y)
    ensures a == b
  {
    forall k | 0 <= k < |a.pixel|
      ensures a.pixel[k] == b.pixel[k]
    {
      IndexOnto(a, k);
      IndexOnto(b, k);
    }
  }

  /** The level at (x,y), or black when (x,y) lies outside the image. */
  function PixelOrBlack(img: Image, x: int, y: int): Byte
    requires img.Valid()
  {
    if ValidPos(img, x, y) then GetPixel(img, x, y) else 0
  }

  /** The image of the given size whose pixel at (x,y) is `f(x, y)`; every
      transform that allocates a new image is built through it. */
  function Tabulate(width: nat, height: nat, maxval: Byte, f: (int, int) -> Byte): (r: Image)
    requires 0 < maxval
    ensures r.Valid() && r.width == width && r.height == height && r.maxval == maxval
    ensures forall x, y :: ValidPos(r, x, y) ==> GetPixel(r, x, y) == f(x, y)
  {
    var r := Image(width, height, maxval,
      seq(width * height, k requires 0 <= k < width * height =>
        Arith.GridSplit(width, height, k);
        f(k % width, k / width)));
    assert forall x, y :: ValidPos(r, x, y) ==> GetPixel(r, x, y) == f(x, y) by {
      forall x, y | ValidPos(r, x, y)
        ensures GetPixel(r, x, y) == f(x, y)
      {
        IndexRoundTrip(r, x, y);
      }
    }
    r
  }
}
