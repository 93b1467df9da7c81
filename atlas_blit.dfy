// The pixel copy of the atlas builder's `rebuild`: each entry's source
// frame is written into the page image, counting page rows from the
// bottom; a flipped entry is written turned a quarter, its source read
// bottom row first.

module AtlasBlit {
  import opened Pixels
  import opened AtlasBuilder

  /** The page row the blit's row 0 lands on: rows are counted up from the page's bottom edge. */
  function BaseRow(e: Entry, pageHeight: int): int
  {
    pageHeight - e.h - e.y
  }

  /** The loop column whose write lands on page pixel `(i, j)`. */
  function LoopX(e: Entry, pageHeight: int, i: int, j: int): int
  {
    if e.flipped then j - BaseRow(e, pageHeight) else i - e.x
  }

  /** The loop row whose write lands on page pixel `(i, j)`. */
  function LoopY(e: Entry, pageHeight: int, i: int, j: int): int
  {
    if e.flipped then i - e.x else j - BaseRow(e, pageHeight)
  }

  /** The source row the write at loop row `y` reads: the bottom row first when flipped. */
  function ReadY(e: Entry, srcHeight: int, y: int): int
  {
    if e.flipped then srcHeight - y - 1 else y
  }

  /** The page column the write at loop position `(x, y)` targets. */
  function WriteX(e: Entry, x: int, y: int): int
  {
    if e.flipped then e.x + y else e.x + x
  }

  /** The page row the write at loop position `(x, y)` targets. */
  function WriteY(e: Entry, pageHeight: int, x: int, y: int): int
  {
    if e.flipped then BaseRow(e, pageHeight) + x else BaseRow(e, pageHeight) + y
  }

  /** Loop position `(x, y)` comes before `(x2, y2)` in the row-by-row loop. */
  predicate Before(x: int, y: int, x2: int, y2: int)
  {
    y < y2 || (y == y2 && x < x2)
  }

  /**
   * Page pixel `(i, j)` once the loop has written every position before
   * `(x, y)`: the source pixel written there if any, else `prior`.
   */
  function BlitPixel(source: Image, e: Entry, pageHeight: int, i: int, j: int, prior: Color, x: int, y: int): Color
    requires source.Valid()
    reads source.data
  {
    var lx, ly := LoopX(e, pageHeight, i, j), LoopY(e, pageHeight, i, j);
    if 0 <= lx < source.width && 0 <= ly < source.height && Before(lx, ly, x, y)
    then source.data[lx, ReadY(e, source.height, ly)]
    else prior
  }

  /**
   * Writes one entry's source frame into the page (builder.cpp, `rebuild`):
   * afterwards each page pixel some loop position writes holds the source
   * pixel read there, and every other pixel is unchanged.
   */
  method BlitEntry(tex: Image, e: Entry, source: Image)
    requires tex.Valid() && source.Valid() && tex.data != source.data
    modifies tex.data
    ensures forall i, j :: 0 <= i < tex.width && 0 <= j < tex.height ==>
              tex.data[i, j] == BlitPixel(source, e, tex.height, i, j, old(tex.data[i, j]), 0, source.height)
  {
    var y := 0;
    while y < source.height
      invariant 0 <= y <= source.height
      invariant forall i, j :: 0 <= i < tex.width && 0 <= j < tex.height ==>
                  tex.data[i, j] == BlitPixel(source, e, tex.height, i, j, old(tex.data[i, j]), 0, y)
    {
      var x := 0;
      while x < source.width
        invariant 0 <= x <= source.width
        invariant forall i, j :: 0 <= i < tex.width && 0 <= j < tex.height ==>
                    tex.data[i, j] == BlitPixel(source, e, tex.height, i, j, old(tex.data[i, j]), x, y)
      {
        tex.SetPixelColor(WriteX(e, x, y), WriteY(e, tex.height, x, y), source.PixelColor(x, ReadY(e, source.height, y)));
        x := x + 1;
      }
      y := y + 1;
    }
  }
}
