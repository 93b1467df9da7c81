// Pixel buffers of the two image libraries the program uses: Unity's
// `Texture2D` in the sprite-collection builder and Qt's `QImage` in the
// atlas builder. A colour is four channels of 0..255; only the alpha
// channel is ever inspected.

module Pixels {
  newtype byte = x: int | 0 <= x < 256

  datatype Color = Color(r: byte, g: byte, b: byte, a: byte)

  /** `new Color(0, 0, 0, 0)`, `Color.clear` and `Qt::transparent`. */
  const Clear: Color := Color(0, 0, 0, 0)

  /**
   * Unity's repeat wrap mode, the mode of a texture created with
   * `new Texture2D(w, h)`: an out-of-range coordinate is taken modulo
   * the side, negative ones included.
   */
  function Repeat(v: int, n: int): (r: int)
    requires n > 0
    ensures 0 <= r < n
    ensures 0 <= v < n ==> r == v
    ensures v == n ==> r == 0
  {
    if 0 <= v < n then v else v % n
  }

  /** `Mathf.Min`. */
  function Min(a: int, b: int): int
  {
    if a < b then a else b
  }

  /** `Mathf.Clamp(v, lo, hi)` for `lo <= hi`. */
  function Clamp(v: int, lo: int, hi: int): (r: int)
    requires lo <= hi
    ensures lo <= r <= hi
    ensures lo <= v <= hi ==> r == v
    ensures v < lo ==> r == lo
    ensures v > hi ==> r == hi
  {
    if v < lo then lo else if v > hi then hi else v
  }

  /**
   * A Unity `Texture2D` in repeat wrap mode. Pixel (x, y) is `data[x, y]`.
   * A new texture's pixels are unspecified, so the constructor says
   * nothing about them.
   */
  class Texture {
    const width: int
    const height: int
    const data: array2<Color>

    ghost predicate Valid()
    {
      width > 0 && height > 0 && data.Length0 == width && data.Length1 == height
    }

    constructor (width: int, height: int)
      requires width > 0 && height > 0
      ensures Valid() && this.width == width && this.height == height && fresh(data)
    {
      this.width := width;
      this.height := height;
      data := new Color[width, height];
    }

    /** `GetPixel`: coordinates wrap. */
    function GetPixel(x: int, y: int): Color
      requires Valid()
      reads data
    {
      data[Repeat(x, width), Repeat(y, height)]
    }

    /** `SetPixel`: coordinates wrap, so exactly one pixel changes. */
    method SetPixel(x: int, y: int, c: Color)
      requires Valid()
      modifies data
      ensures data[Repeat(x, width), Repeat(y, height)] == c
      ensures forall i, j :: 0 <= i < width && 0 <= j < height && (i, j) != (Repeat(x, width), Repeat(y, height)) ==>
                data[i, j] == old(data[i, j])
    {
      data[Repeat(x, width), Repeat(y, height)] := c;
    }
  }

  /**
   * A Qt `QImage` in ARGB32. Pixel (x, y) is `data[x, y]`, rows counted
   * from the top. A zero side makes a null image.
   */
  class Image {
    const width: int
    const height: int
    const data: array2<Color>

    ghost predicate Valid()
    {
      width >= 0 && height >= 0 && data.Length0 == width && data.Length1 == height
    }

    predicate InRange(x: int, y: int)
    {
      0 <= x < width && 0 <= y < height
    }

    constructor (width: int, height: int)
      requires width >= 0 && height >= 0
      ensures Valid() && this.width == width && this.height == height && fresh(data)
    {
      this.width := width;
      this.height := height;
      data := new Color[width, height];
    }

    /** `pixelColor`, which the callers use only inside the image. */
    function PixelColor(x: int, y: int): Color
      requires Valid() && InRange(x, y)
      reads data
    {
      data[x, y]
    }

    /** `setPixelColor`: a write outside the image is ignored. */
    method SetPixelColor(x: int, y: int, c: Color)
      requires Valid()
      modifies data
      ensures InRange(x, y) ==> data[x, y] == c
      ensures forall i, j :: InRange(i, j) && (i, j) != (x, y) ==> data[i, j] == old(data[i, j])
    {
      if InRange(x, y) {
        data[x, y] := c;
      }
    }
  }
}
