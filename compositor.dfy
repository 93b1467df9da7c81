// The page compositor of the sprite-collection build: each page texture is
// cleared, then every entry's texture is written at the entry's corner,
// turned a quarter when the entry is flipped.

module AtlasCompositor {
  import opened Pixels
  import opened AtlasRect
  import opened AtlasBuilder

  /** The source column a write of entry `e` lands on page pixel (i, j) from. */
  function SrcX(e: Entry, i: int, j: int): int
  {
    if e.flipped then j - e.y else i - e.x
  }

  /** The source row a write of entry `e` lands on page pixel (i, j) from. */
  function SrcY(e: Entry, i: int, j: int): int
  {
    if e.flipped then i - e.x else j - e.y
  }

  /** The page column source pixel (x, y) of entry `e` is written to. */
  function DstX(e: Entry, x: int, y: int): int
  {
    if e.flipped then e.x + y else e.x + x
  }

  /** The page row source pixel (x, y) of entry `e` is written to. */
  function DstY(e: Entry, x: int, y: int): int
  {
    if e.flipped then e.y + x else e.y + y
  }

  /** Source position (x, y) comes before (x2, y2) in the row-by-row loop. */
  predicate Earlier(x: int, y: int, x2: int, y2: int)
  {
    y < y2 || (y == y2 && x < x2)
  }

  /** Page pixel (i, j) is written when entry `e`'s `w` by `h` source is blitted. */
  predicate Covers(e: Entry, w: int, h: int, i: int, j: int)
  {
    0 <= SrcX(e, i, j) < w && 0 <= SrcY(e, i, j) < h
  }

  /** Every write of the entry lands inside the page, so no write wraps. */
  predicate Fits(e: Entry, w: int, h: int, pageWidth: int, pageHeight: int)
  {
    0 <= e.x && 0 <= e.y
    && if e.flipped then e.x + h <= pageWidth && e.y + w <= pageHeight
       else e.x + w <= pageWidth && e.y + h <= pageHeight
  }

  /**
   * Page pixel (i, j) once the blit of `source` has written every position
   * before (x, y): the source pixel written there if any, else `prior`.
   */
  ghost function EntryPixel(source: Texture, e: Entry, i: int, j: int, prior: Color, x: int, y: int): Color
    requires source.Valid()
    reads source.data
  {
    var sx, sy := SrcX(e, i, j), SrcY(e, i, j);
    if 0 <= sx < source.width && 0 <= sy < source.height && Earlier(sx, sy, x, y)
    then source.data[sx, sy]
    else prior
  }

  /** Every texture of the list is a valid texture. */
  ghost predicate AllValid(textures: seq<Texture>)
  {
    forall k :: 0 <= k < |textures| ==> textures[k].Valid()
  }

  /** Every entry names a texture of the list and fits the page. */
  ghost predicate EntriesFit(entries: seq<Entry>, textures: seq<Texture>, pageWidth: int, pageHeight: int)
  {
    forall k :: 0 <= k < |entries| ==>
      0 <= entries[k].index < |textures|
      && Fits(entries[k], textures[entries[k].index].width, textures[entries[k].index].height, pageWidth, pageHeight)
  }

  /** The pixel arrays of the texture list. */
  ghost function Frames(textures: seq<Texture>): set<array2<Color>>
  {
    set k | 0 <= k < |textures| :: textures[k].data
  }

  /**
   * Page pixel (i, j) after the clear and the first `n` entries: the last
   * of them to cover it wins, and an uncovered pixel is clear.
   */
  ghost function Composed(entries: seq<Entry>, textures: seq<Texture>, i: int, j: int, n: int): Color
    requires 0 <= n <= |entries| && AllValid(textures)
    requires forall k :: 0 <= k < |entries| ==> 0 <= entries[k].index < |textures|
    reads Frames(textures)
    decreases n
  {
    if n == 0 then Clear
    else
      var e := entries[n - 1];
      var source := textures[e.index];
      if Covers(e, source.width, source.height, i, j) then source.data[SrcX(e, i, j), SrcY(e, i, j)]
      else Composed(entries, textures, i, j, n - 1)
  }

  /** The clearing loop: every pixel of the page becomes `Color.clear`. */
  method ClearPage(tex: Texture)
    requires tex.Valid()
    modifies tex.data
    ensures forall i, j :: 0 <= i < tex.width && 0 <= j < tex.height ==> tex.data[i, j] == Clear
  {
    for yy := 0 to tex.height
      invariant forall i, j :: 0 <= i < tex.width && 0 <= j < yy ==> tex.data[i, j] == Clear
    {
      for xx := 0 to tex.width
        invariant forall i, j :: 0 <= i < tex.width && 0 <= j < yy ==> tex.data[i, j] == Clear
        invariant forall i, j :: 0 <= i < xx && j == yy ==> tex.data[i, j] == Clear
      {
        tex.SetPixel(xx, yy, Clear);
      }
    }
  }

  /**
   * The blit of one entry: each page pixel a source position is written
   * to holds that source pixel, and every other pixel is unchanged.
   */
  method BlitSource(tex: Texture, entry: Entry, source: Texture)
    requires tex.Valid() && source.Valid() && tex.data != source.data
    requires Fits(entry, source.width, source.height, tex.width, tex.height)
    modifies tex.data
    ensures forall i, j :: 0 <= i < tex.width && 0 <= j < tex.height ==>
              tex.data[i, j] == EntryPixel(source, entry, i, j, old(tex.data[i, j]), 0, source.height)
  {
    for y := 0 to source.height
      invariant forall i, j :: 0 <= i < tex.width && 0 <= j < tex.height ==>
                  tex.data[i, j] == EntryPixel(source, entry, i, j, old(tex.data[i, j]), 0, y)
    {
      for x := 0 to source.width
        invariant forall i, j :: 0 <= i < tex.width && 0 <= j < tex.height ==>
                    tex.data[i, j] == EntryPixel(source, entry, i, j, old(tex.data[i, j]), x, y)
      {
        tex.SetPixel(DstX(entry, x, y), DstY(entry, x, y), source.GetPixel(x, y));
      }
    }
  }

  /**
   * The compositor of `Rebuild`: the page is cleared and every entry's
   * texture written in list order, so each pixel holds what the last
   * entry covering it wrote, or clear.
   */
  method CompositePage(tex: Texture, entries: seq<Entry>, textureList: seq<Texture>)
    requires tex.Valid() && AllValid(textureList)
    requires EntriesFit(entries, textureList, tex.width, tex.height)
    requires tex.data !in Frames(textureList)
    modifies tex.data
    ensures forall i, j :: 0 <= i < tex.width && 0 <= j < tex.height ==>
              tex.data[i, j] == Composed(entries, textureList, i, j, |entries|)
  {
    ClearPage(tex);
    for k := 0 to |entries|
      invariant forall i, j :: 0 <= i < tex.width && 0 <= j < tex.height ==>
                  tex.data[i, j] == Composed(entries, textureList, i, j, k)
    {
      var entry := entries[k];
      var source := textureList[entry.index];
      assert source.data in Frames(textureList);
      BlitSource(tex, entry, source);
    }
  }

  /** A source whose size matches its entry's (turned when flipped) covers exactly the entry's rectangle. */
  lemma CoversEntryRect(e: Entry, w: int, h: int, i: int, j: int)
    requires EntryMatchesSource(e, RectSize(w, h))
    ensures Covers(e, w, h, i, j) <==> HasCell(EntryRect(e), i, j)
  {
  }

  /**
   * On a page whose entries do not overlap, with every texture the size
   * its entry records, each pixel holds the source pixel of the entry
   * covering it, and a pixel no entry covers is clear: the order of the
   * entries does not matter.
   */
  lemma {:induction false} DisjointComposite(entries: seq<Entry>, textures: seq<Texture>, i: int, j: int, n: int)
    requires 0 <= n <= |entries| && AllValid(textures)
    requires forall k :: 0 <= k < |entries| ==> 0 <= entries[k].index < |textures|
    requires forall k :: 0 <= k < |entries| ==>
               EntryMatchesSource(entries[k], RectSize(textures[entries[k].index].width, textures[entries[k].index].height))
    requires forall k, l :: 0 <= k < l < |entries| ==> !Intersects(EntryRect(entries[k]), EntryRect(entries[l]))
    ensures forall k :: 0 <= k < n && HasCell(EntryRect(entries[k]), i, j) ==>
              var source := textures[entries[k].index];
              Covers(entries[k], source.width, source.height, i, j)
              && Composed(entries, textures, i, j, n) == source.data[SrcX(entries[k], i, j), SrcY(entries[k], i, j)]
    ensures (forall k :: 0 <= k < n ==> !HasCell(EntryRect(entries[k]), i, j)) ==> Composed(entries, textures, i, j, n) == Clear
  {
    if n > 0 {
      DisjointComposite(entries, textures, i, j, n - 1);
      var e := entries[n - 1];
      var source := textures[e.index];
      CoversEntryRect(e, source.width, source.height, i, j);
      forall k | 0 <= k < n - 1 && HasCell(EntryRect(entries[k]), i, j)
        ensures !HasCell(EntryRect(e), i, j)
      {
        var other := textures[entries[k].index];
        CoversEntryRect(entries[k], other.width, other.height, i, j);
        if HasCell(EntryRect(e), i, j) {
          SharedCellIntersects(EntryRect(entries[k]), EntryRect(e), i, j);
          assert false;
        }
      }
    }
  }
}
