/** The pixel store: a row-major buffer of RGB pixels whose channel values
    are normalised to [0,1]. Pixel `(x, y)` of an image of width `w` lives
    at flat index `w*y + x`. */
module Images {

  /** One pixel: three channel values. The values are doubles in the program;
      here they are exact reals. */
  datatype Pixel = Pixel(r: real, g: real, b: real)

  /** Column of flat index `i` in a row-major raster of the given width. */
  function Col(width: nat, i: nat): nat
    requires width > 0
  {
    i % width
  }

  /** Row of flat index `i` in a row-major raster of the given width. */
  function Row(width: nat, i: nat): nat
    requires width > 0
  {
    i / width
  }

  /** A product of a non-negative number by a factor of at least one is no smaller. */
  lemma MulAtLeast(a: int, k: int)
    requires a >= 0 && k >= 1
    ensures a * k >= a
  {
  }

  /** The flat index of an in-row coordinate decodes back to that coordinate. */
  lemma FlatIndexCoords(width: nat, x: nat, y: nat)
    requires x < width
    ensures Col(width, width * y + x) == x && Row(width, width * y + x) == y
  {
    var i := width * y + x;
    var q, r := i / width, i % width;
    assert width * q + r == width * y + x;
    if q > y {
      MulAtLeast(width, q - y);
    } else if q < y {
      MulAtLeast(width, y - q);
    }
  }

  /** A coordinate inside a `width` by `height` raster has a flat index below its area. */
  lemma FlatIndexInRange(width: nat, height: nat, x: nat, y: nat)
    requires x < width && y < height
    ensures width * y + x < width * height
  {
    assert width * (y + 1) == width * y + width;
    assert width * (y + 1) <= width * height;
  }

  /** An image: its dimensions and its row-major pixel data. */
  class Image {
    var width: nat
    var height: nat
    var data: seq<Pixel>

    /** The class invariant: the data holds exactly one pixel per coordinate. */
    ghost predicate Valid()
      reads this
    {
      |data| == width * height
    }

    /** The default-constructed image: no pixels. */
    constructor ()
      ensures Valid()
      ensures width == 0 && height == 0 && data == []
    {
      width, height, data := 0, 0, [];
    }

    /** The state a successful load leaves behind: the decoded dimensions and
        one pixel per coordinate, in row-major order. */
    constructor FromPixels(w: nat, h: nat, pixels: seq<Pixel>)
      requires |pixels| == w * h
      ensures Valid()
      ensures width == w && height == h && data == pixels
    {
      width, height, data := w, h, pixels;
    }

    /** The number of columns. */
    function Width(): nat
      reads this
    {
      width
    }

    /** The number of rows. */
    function Height(): nat
      reads this
    {
      height
    }

    /** The number of pixels of a valid image. */
    function Area(): (a: nat)
      reads this
      ensures Valid() ==> a == |data|
    {
      width * height
    }

    /** The pixel at column `x`, row `y`. The only check is that the flat
        index lies inside the data; a column past the row's end reads the
        next row. */
    function GetPixel(x: nat, y: nat): (p: Pixel)
      reads this
      requires width * y + x < |data|
      ensures x < width ==>
                forall i | 0 <= i < |data| && Col(width, i) == x && Row(width, i) == y :: data[i] == p
    {
      data[width * y + x]
    }

    /** Overwrites the pixel at column `x`, row `y` in place. */
    method SetPixel(x: nat, y: nat, p: Pixel)
      requires width * y + x < |data|
      modifies this
      ensures width == old(width) && height == old(height) && |data| == old(|data|)
      ensures old(Valid()) ==> Valid()
      ensures data == old(data)[width * y + x := p]
      ensures GetPixel(x, y) == p
      ensures forall i :: 0 <= i < |data| && i != width * y + x ==> data[i] == old(data[i])
    {
      data := data[width * y + x := p];
    }
  }
}
