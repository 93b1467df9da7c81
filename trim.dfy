// `trimImage` of the emote builder: cut a frame down to the smallest box
// that holds every pixel with non-zero alpha and the frame's centre.

module Trim {
  import opened Pixels

  /** Pixel (x, y) lies in the image and is not fully transparent. */
  ghost predicate Opaque(image: Image, x: int, y: int)
    requires image.Valid()
    reads image.data
  {
    image.InRange(x, y) && image.data[x, y].a != 0
  }

  /** Loop position (i, j) comes before (x, y) when columns are scanned left to right, each top to bottom. */
  predicate Visited(i: int, j: int, x: int, y: int)
  {
    i < x || (i == x && j < y)
  }

  /**
   * The bounds after scanning every position before (x, y): each holds
   * the centre and every opaque pixel seen, and each side is the centre's
   * or touches an opaque pixel.
   */
  ghost predicate BoxSoFar(image: Image, left: int, top: int, right: int, bottom: int, x: int, y: int)
    requires image.Valid()
    reads image.data
  {
    left <= image.width / 2 <= right && top <= image.height / 2 <= bottom
    && (forall i, j :: Opaque(image, i, j) && Visited(i, j, x, y) ==> left <= i <= right && top <= j <= bottom)
    && (left == image.width / 2 || exists j :: Opaque(image, left, j))
    && (right == image.width / 2 || exists j :: Opaque(image, right, j))
    && (top == image.height / 2 || exists i :: Opaque(image, i, top))
    && (bottom == image.height / 2 || exists i :: Opaque(image, i, bottom))
  }

  /**
   * The trimming box: the smallest box (left, top, right, bottom),
   * corners included, that holds every opaque pixel and the centre
   * (width / 2, height / 2).
   */
  ghost predicate TightBox(image: Image, left: int, top: int, right: int, bottom: int)
    requires image.Valid()
    reads image.data
  {
    left <= image.width / 2 <= right && top <= image.height / 2 <= bottom
    && (forall i, j :: Opaque(image, i, j) ==> left <= i <= right && top <= j <= bottom)
    && (left == image.width / 2 || exists j :: Opaque(image, left, j))
    && (right == image.width / 2 || exists j :: Opaque(image, right, j))
    && (top == image.height / 2 || exists i :: Opaque(image, i, top))
    && (bottom == image.height / 2 || exists i :: Opaque(image, i, bottom))
  }

  /** `std::min` and `std::max`. */
  function Min(a: int, b: int): int { if b < a then b else a }
  function Max(a: int, b: int): int { if a < b then b else a }

  /** Scanning an opaque pixel widens the box to hold it. */
  lemma ScanOpaque(image: Image, left: int, top: int, right: int, bottom: int, x: int, y: int)
    requires image.Valid() && Opaque(image, x, y)
    requires BoxSoFar(image, left, top, right, bottom, x, y)
    ensures BoxSoFar(image, Min(left, x), Min(top, y), Max(right, x), Max(bottom, y), x, y + 1)
  {
  }

  /** Scanning a transparent pixel leaves the box as it is. */
  lemma ScanTransparent(image: Image, left: int, top: int, right: int, bottom: int, x: int, y: int)
    requires image.Valid() && image.InRange(x, y) && !Opaque(image, x, y)
    requires BoxSoFar(image, left, top, right, bottom, x, y)
    ensures BoxSoFar(image, left, top, right, bottom, x, y + 1)
  {
  }

  /** A finished column moves the scan to the top of the next one. */
  lemma ScanNextColumn(image: Image, left: int, top: int, right: int, bottom: int, x: int)
    requires image.Valid()
    requires BoxSoFar(image, left, top, right, bottom, x, image.height)
    ensures BoxSoFar(image, left, top, right, bottom, x + 1, 0)
  {
    assert forall i, j :: Opaque(image, i, j) && Visited(i, j, x + 1, 0) ==> Visited(i, j, x, image.height);
  }

  /** The scan of `trimImage` (emote_builder.cpp): the four bounds of the trimming box. */
  method TrimBounds(image: Image) returns (left: int, top: int, right: int, bottom: int)
    requires image.Valid()
    ensures TightBox(image, left, top, right, bottom)
  {
    var width, height := image.width, image.height;
    top := height / 2;
    bottom := top;
    left := width / 2;
    right := left;
    var x := 0;
    while x < width
      invariant 0 <= x <= width
      invariant BoxSoFar(image, left, top, right, bottom, x, 0)
    {
      left, top, right, bottom := ScanColumn(image, left, top, right, bottom, x);
      x := x + 1;
    }
  }

  /** The inner loop of the scan: column `x`, top to bottom. */
  method ScanColumn(image: Image, left0: int, top0: int, right0: int, bottom0: int, x: int)
    returns (left: int, top: int, right: int, bottom: int)
    requires image.Valid() && 0 <= x < image.width
    requires BoxSoFar(image, left0, top0, right0, bottom0, x, 0)
    ensures BoxSoFar(image, left, top, right, bottom, x + 1, 0)
  {
    left, top, right, bottom := left0, top0, right0, bottom0;
    var y := 0;
    while y < image.height
      invariant 0 <= y <= image.height
      invariant BoxSoFar(image, left, top, right, bottom, x, y)
    {
      left, top, right, bottom := ScanPixel(image, left, top, right, bottom, x, y);
      y := y + 1;
    }
    ScanNextColumn(image, left, top, right, bottom, x);
  }

  /** The body of the inner loop: an opaque pixel at (x, y) widens the box to hold it. */
  method ScanPixel(image: Image, left0: int, top0: int, right0: int, bottom0: int, x: int, y: int)
    returns (left: int, top: int, right: int, bottom: int)
    requires image.Valid() && image.InRange(x, y)
    requires BoxSoFar(image, left0, top0, right0, bottom0, x, y)
    ensures BoxSoFar(image, left, top, right, bottom, x, y + 1)
  {
    if image.PixelColor(x, y).a != 0 {
      ScanOpaque(image, left0, top0, right0, bottom0, x, y);
      top := Min(top0, y);
      bottom := Max(bottom0, y);
      left := Min(left0, x);
      right := Max(right0, x);
    } else {
      ScanTransparent(image, left0, top0, right0, bottom0, x, y);
      left, top, right, bottom := left0, top0, right0, bottom0;
    }
  }

  /** The trimming box is determined by the image: two boxes that both satisfy `TightBox` are the same. */
  lemma TightBoxUnique(image: Image, l1: int, t1: int, r1: int, b1: int, l2: int, t2: int, r2: int, b2: int)
    requires image.Valid()
    requires TightBox(image, l1, t1, r1, b1) && TightBox(image, l2, t2, r2, b2)
    ensures l1 == l2 && t1 == t2 && r1 == r2 && b1 == b2
  {
    SideDetermined(image, l1, t1, r1, b1, l2, t2, r2, b2);
    SideDetermined(image, l2, t2, r2, b2, l1, t1, r1, b1);
  }

  /** Each side of one trimming box is at least as far out as the other's. */
  lemma SideDetermined(image: Image, l1: int, t1: int, r1: int, b1: int, l2: int, t2: int, r2: int, b2: int)
    requires image.Valid()
    requires TightBox(image, l1, t1, r1, b1) && TightBox(image, l2, t2, r2, b2)
    ensures l2 <= l1 && t2 <= t1 && r1 <= r2 && b1 <= b2
  {
    if l1 != image.width / 2 {
      var j :| Opaque(image, l1, j);
    }
    if r1 != image.width / 2 {
      var j :| Opaque(image, r1, j);
    }
    if t1 != image.height / 2 {
      var i :| Opaque(image, i, t1);
    }
    if b1 != image.height / 2 {
      var i :| Opaque(image, i, b1);
    }
  }

  /** The pixel `QImage::copy` takes from (x, y) of the image: transparent outside it. */
  function CopiedPixel(image: Image, x: int, y: int): Color
    requires image.Valid()
    reads image.data
  {
    if image.InRange(x, y) then image.data[x, y] else Clear
  }

  /**
   * `QImage::copy(x, y, w, h)`: a new w by h image whose pixel (i, j) is
   * the image's (x + i, y + j), transparent where that lies outside; a
   * null image copies to a null image.
   */
  method Copy(image: Image, x: int, y: int, w: int, h: int) returns (result: Image)
    requires image.Valid() && w >= 0 && h >= 0
    ensures fresh(result) && fresh(result.data) && result.Valid()
    ensures image.width == 0 || image.height == 0 ==> result.width == 0 && result.height == 0
    ensures image.width > 0 && image.height > 0 ==>
              result.width == w && result.height == h
              && forall i, j :: 0 <= i < w && 0 <= j < h ==> result.data[i, j] == CopiedPixel(image, x + i, y + j)
  {
    if image.width == 0 || image.height == 0 {
      result := new Image(0, 0);
      return;
    }
    result := new Image(w, h);
    var i := 0;
    while i < w
      invariant 0 <= i <= w
      invariant forall i', j :: 0 <= i' < i && 0 <= j < h ==> result.data[i', j] == CopiedPixel(image, x + i', y + j)
    {
      var j := 0;
      while j < h
        invariant 0 <= j <= h
        invariant forall i', j' :: 0 <= i' < i && 0 <= j' < h ==> result.data[i', j'] == CopiedPixel(image, x + i', y + j')
        invariant forall j' :: 0 <= j' < j ==> result.data[i, j'] == CopiedPixel(image, x + i, y + j')
      {
        result.SetPixelColor(i, j, CopiedPixel(image, x + i, y + j));
        j := j + 1;
      }
      i := i + 1;
    }
  }

  /**
   * `trimImage`: the trimming box copied out of the image. Every opaque
   * pixel survives, shifted by the box's corner, and nothing outside the
   * box does.
   */
  method TrimImage(image: Image) returns (trimmed: Image, ghost left: int, ghost top: int)
    requires image.Valid()
    ensures fresh(trimmed) && trimmed.Valid()
    ensures image.width == 0 || image.height == 0 ==> trimmed.width == 0 && trimmed.height == 0
    ensures image.width > 0 && image.height > 0 ==>
              TightBox(image, left, top, left + trimmed.width - 1, top + trimmed.height - 1)
              && forall i, j :: 0 <= i < trimmed.width && 0 <= j < trimmed.height ==>
                   trimmed.data[i, j] == image.data[left + i, top + j]
  {
    var l, t, r, b := TrimBounds(image);
    left, top := l, t;
    trimmed := Copy(image, l, t, r - l + 1, b - t + 1);
  }

  /** Trimming drops no opaque pixel: each reappears at its place less the box's corner. */
  lemma TrimKeepsOpaque(image: Image, trimmed: Image, left: int, top: int)
    requires image.Valid() && trimmed.Valid() && image.width > 0 && image.height > 0
    requires TightBox(image, left, top, left + trimmed.width - 1, top + trimmed.height - 1)
    requires forall i, j :: 0 <= i < trimmed.width && 0 <= j < trimmed.height ==>
               trimmed.data[i, j] == image.data[left + i, top + j]
    ensures 1 <= trimmed.width <= image.width && 1 <= trimmed.height <= image.height
    ensures forall x, y :: Opaque(image, x, y) ==> Opaque(trimmed, x - left, y - top)
  {
    forall x, y | Opaque(image, x, y)
      ensures Opaque(trimmed, x - left, y - top)
    {
      assert trimmed.data[x - left, y - top] == image.data[x, y];
    }
  }
}
