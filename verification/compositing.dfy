/** Operations on two images: pasting one image into another. */
module Compositing {
  import opened Raster
  import Geometry

  /** The level at (i, j) once `src` covers `dest` from (x, y) on. */
  function PastedPixel(dest: Image, x: int, y: int, src: Image, i: int, j: int): Byte
    requires dest.Valid() && src.Valid()
  {
    if x <= i < x + src.width && y <= j < y + src.height
    then PixelOrBlack(src, i - x, j - y)
    else PixelOrBlack(dest, i, j)
  }

  /** `dest` with `src` written over it, `src`'s top-left pixel landing at
      (x, y); size and maxval are those of `dest`. */
  function Paste(dest: Image, x: int, y: int, src: Image): (r: Image)
    requires dest.Valid() && src.Valid()
    requires ValidPos(dest, x, y) && ValidRect(dest, x, y, src.width, src.height)
    ensures r.Valid() && r.width == dest.width && r.height == dest.height && r.maxval == dest.maxval
    ensures forall i, j :: ValidPos(src, i, j) ==> GetPixel(r, x + i, y + j) == GetPixel(src, i, j)
    ensures forall i, j :: ValidPos(dest, i, j) && !(x <= i < x + src.width && y <= j < y + src.height) ==>
      GetPixel(r, i, j) == GetPixel(dest, i, j)
  {
    var r := Tabulate(dest.width, dest.height, dest.maxval, (i, j) => PastedPixel(dest, x, y, src, i, j));
    assert forall i, j :: ValidPos(r, i, j) ==> GetPixel(r, i, j) == PastedPixel(dest, x, y, src, i, j);
    assert forall i, j :: ValidPos(src, i, j) ==> GetPixel(r, x + i, y + j) == GetPixel(src, i, j) by {
      forall i, j | ValidPos(src, i, j)
        ensures GetPixel(r, x + i, y + j) == GetPixel(src, i, j)
      {
        assert ValidPos(r, x + i, y + j);
        assert PastedPixel(dest, x, y, src, x + i, y + j) == PixelOrBlack(src, i, j);
      }
    }
    r
  }

  /** Cropping the rectangle just pasted gives back the pasted image, now
      carrying the destination's maxval. */
  lemma CropAfterPaste(dest: Image, x: int, y: int, src: Image)
    requires dest.Valid() && src.Valid()
    requires ValidPos(dest, x, y) && ValidRect(dest, x, y, src.width, src.height)
    ensures Paste(dest, x, y, src).Valid()
    ensures ValidPos(Paste(dest, x, y, src), x, y)
    ensures ValidRect(Paste(dest, x, y, src), x, y, src.width, src.height)
    ensures Geometry.Crop(Paste(dest, x, y, src), x, y, src.width, src.height) == src.(maxval := dest.maxval)
  {
    var p := Paste(dest, x, y, src);
    var c := Geometry.Crop(p, x, y, src.width, src.height);
    var s := src.(maxval := dest.maxval);
    assert forall i, j :: ValidPos(c, i, j) ==> GetPixel(c, i, j) == GetPixel(s, i, j) by {
      forall i, j | ValidPos(c, i, j)
        ensures GetPixel(c, i, j) == GetPixel(s, i, j)
      {
        assert GetPixel(c, i, j) == GetPixel(p, x + i, y + j);
        assert GetPixel(p, x + i, y + j) == GetPixel(src, i, j);
        assert s.pixel == src.pixel && s.width == src.width;
        assert Index(s, i, j) == Index(src, i, j);
      }
    }
    Extensionality(c, s);
  }

  /** Pasting the rectangle a crop just took out leaves the image as it was. */
  lemma PasteOwnCrop(img: Image, x: int, y: int, w: int, h: int)
    requires img.Valid() && ValidPos(img, x, y) && ValidRect(img, x, y, w, h)
    ensures Paste(img, x, y, Geometry.Crop(img, x, y, w, h)) == img
  {
    var c := Geometry.Crop(img, x, y, w, h);
    var p := Paste(img, x, y, c);
    assert forall i, j :: ValidPos(p, i, j) ==> GetPixel(p, i, j) == GetPixel(img, i, j) by {
      forall i, j | ValidPos(p, i, j)
        ensures GetPixel(p, i, j) == GetPixel(img, i, j)
      {
        if x <= i < x + w && y <= j < y + h {
          assert GetPixel(p, x + (i - x), y + (j - y)) == GetPixel(c, i - x, j - y);
        }
      }
    }
    Extensionality(p, img);
  }
}
