// Recovering one frame from a loaded atlas page: crop the entry's
// rectangle out of the page and, for a flipped entry, turn it back.

module TextureUtility {
  import opened Pixels
  import opened AtlasBuilder
  import opened AtlasBlit

  /** `out` holds the `out.width` by `out.height` rectangle of `src` whose corner is the entry's (x, y). */
  ghost predicate CropOf(out: Texture, src: Texture, e: Entry)
    requires out.Valid() && src.Valid()
    reads out.data, src.data
  {
    forall x, y :: 0 <= x < out.width && 0 <= y < out.height ==> out.data[x, y] == src.GetPixel(e.x + x, e.y + y)
  }

  /**
   * `out` is `t` turned back a quarter: sides swapped, and column `c` of
   * `out` is row `t.height - 1 - c` of `t`, so that it undoes the turn a
   * flipped entry gets when it is written into the page.
   */
  ghost predicate Unflipped(out: Texture, t: Texture)
    requires out.Valid() && t.Valid()
    reads out.data, t.data
  {
    out.width == t.height && out.height == t.width
    && forall c, r :: 0 <= c < out.width && 0 <= r < out.height ==> out.data[c, r] == t.data[r, t.height - 1 - c]
  }

  /**
   * What `UndoFlip` as written produces: row `y` of `t` goes to column
   * `t.height - y`, one to the right of `Unflipped`, and row 0, whose
   * column is one past the last, wraps round to column 0.
   */
  ghost predicate UnflippedAsWritten(out: Texture, t: Texture)
    requires out.Valid() && t.Valid()
    reads out.data, t.data
  {
    out.width == t.height && out.height == t.width
    && forall c, r :: 0 <= c < out.width && 0 <= r < out.height ==>
         out.data[c, r] == t.data[r, Repeat(t.height - c, t.height)]
  }

  lemma RepeatReflect(h: int, y: int)
    requires 0 <= y < h
    ensures Repeat(h - Repeat(h - y, h), h) == y
  {
    if y > 0 {
      assert Repeat(h - y, h) == h - y;
    }
  }

  /** `Utility.UndoFlip` as written; the new texture replaces the caller's reference, so it is returned. */
  method UndoFlip(texture: Texture) returns (unflipped: Texture)
    requires texture.Valid()
    ensures fresh(unflipped) && fresh(unflipped.data) && unflipped.Valid()
    ensures UnflippedAsWritten(unflipped, texture)
  {
    unflipped := new Texture(texture.height, texture.width);
    var x := 0;
    while x < texture.width
      invariant 0 <= x <= texture.width
      invariant forall c, r :: 0 <= c < unflipped.width && 0 <= r < x ==>
                  unflipped.data[c, r] == texture.data[r, Repeat(texture.height - c, texture.height)]
    {
      var y := 0;
      while y < texture.height
        invariant 0 <= y <= texture.height
        invariant forall c, r :: 0 <= c < unflipped.width && 0 <= r < x ==>
                    unflipped.data[c, r] == texture.data[r, Repeat(texture.height - c, texture.height)]
        invariant forall c :: 0 <= c < unflipped.width && Repeat(texture.height - c, texture.height) < y ==>
                    unflipped.data[c, x] == texture.data[x, Repeat(texture.height - c, texture.height)]
      {
        RepeatReflect(texture.height, y);
        unflipped.SetPixel(texture.height - y, x, texture.GetPixel(x, y));
        y := y + 1;
      }
      x := x + 1;
    }
  }

  /** `UndoFlip` writing row `y` to column `height - 1 - y`, the inverse of the page blit's turn. */
  method UndoFlipCorrected(texture: Texture) returns (unflipped: Texture)
    requires texture.Valid()
    ensures fresh(unflipped) && fresh(unflipped.data) && unflipped.Valid()
    ensures Unflipped(unflipped, texture)
  {
    unflipped := new Texture(texture.height, texture.width);
    var x := 0;
    while x < texture.width
      invariant 0 <= x <= texture.width
      invariant forall c, r :: 0 <= c < unflipped.width && 0 <= r < x ==>
                  unflipped.data[c, r] == texture.data[r, texture.height - 1 - c]
    {
      var y := 0;
      while y < texture.height
        invariant 0 <= y <= texture.height
        invariant forall c, r :: 0 <= c < unflipped.width && 0 <= r < x ==>
                    unflipped.data[c, r] == texture.data[r, texture.height - 1 - c]
        invariant forall c :: texture.height - y <= c < unflipped.width ==>
                    unflipped.data[c, x] == texture.data[x, texture.height - 1 - c]
      {
        unflipped.SetPixel(texture.height - 1 - y, x, texture.GetPixel(x, y));
        y := y + 1;
      }
      x := x + 1;
    }
  }

  /** The copy loop of `Utility.SubTexture`: the entry's `w` by `h` rectangle of the page. */
  method CropEntry(sourceTexture: Texture, entry: Entry) returns (outTexture: Texture)
    requires sourceTexture.Valid() && entry.w > 0 && entry.h > 0
    ensures fresh(outTexture) && fresh(outTexture.data) && outTexture.Valid()
    ensures outTexture.width == entry.w && outTexture.height == entry.h && CropOf(outTexture, sourceTexture, entry)
  {
    outTexture := new Texture(entry.w, entry.h);
    var x := 0;
    while x < outTexture.width
      invariant 0 <= x <= outTexture.width
      invariant forall i, j :: 0 <= i < x && 0 <= j < outTexture.height ==>
                  outTexture.data[i, j] == sourceTexture.GetPixel(entry.x + i, entry.y + j)
    {
      var y := 0;
      while y < outTexture.height
        invariant 0 <= y <= outTexture.height
        invariant forall i, j :: 0 <= i < x && 0 <= j < outTexture.height ==>
                    outTexture.data[i, j] == sourceTexture.GetPixel(entry.x + i, entry.y + j)
        invariant forall j :: 0 <= j < y ==> outTexture.data[x, j] == sourceTexture.GetPixel(entry.x + x, entry.y + j)
      {
        outTexture.SetPixel(x, y, sourceTexture.GetPixel(entry.x + x, entry.y + y));
        y := y + 1;
      }
      x := x + 1;
    }
  }

  /**
   * `Utility.SubTexture` as written: the entry's `w` by `h` rectangle of
   * the page, turned back with `UndoFlip` when the entry is flipped, so
   * that column `c` of a flipped result is the page row `h - c` of the
   * rectangle, wrapping to row 0 for column 0.
   */
  method SubTexture(sourceTexture: Texture, entry: Entry) returns (outTexture: Texture)
    requires sourceTexture.Valid() && entry.w > 0 && entry.h > 0
    ensures fresh(outTexture) && fresh(outTexture.data) && outTexture.Valid()
    ensures !entry.flipped ==> outTexture.width == entry.w && outTexture.height == entry.h
                               && CropOf(outTexture, sourceTexture, entry)
    ensures entry.flipped ==> outTexture.width == entry.h && outTexture.height == entry.w
                              && forall c, r :: 0 <= c < entry.h && 0 <= r < entry.w ==>
                                   outTexture.data[c, r] == sourceTexture.GetPixel(entry.x + r, entry.y + Repeat(entry.h - c, entry.h))
  {
    outTexture := CropEntry(sourceTexture, entry);
    if entry.flipped {
      outTexture := UndoFlip(outTexture);
    }
  }

  /**
   * `SubTexture` turning a flipped entry back with `UndoFlipCorrected`:
   * column `c` of a flipped result is the page row `h - 1 - c` of the
   * rectangle.
   */
  method SubTextureCorrected(sourceTexture: Texture, entry: Entry) returns (outTexture: Texture)
    requires sourceTexture.Valid() && entry.w > 0 && entry.h > 0
    ensures fresh(outTexture) && fresh(outTexture.data) && outTexture.Valid()
    ensures !entry.flipped ==> outTexture.width == entry.w && outTexture.height == entry.h
                               && CropOf(outTexture, sourceTexture, entry)
    ensures entry.flipped ==> outTexture.width == entry.h && outTexture.height == entry.w
                              && forall c, r :: 0 <= c < entry.h && 0 <= r < entry.w ==>
                                   outTexture.data[c, r] == sourceTexture.GetPixel(entry.x + r, entry.y + entry.h - 1 - c)
  {
    outTexture := CropEntry(sourceTexture, entry);
    if entry.flipped {
      outTexture := UndoFlipCorrected(outTexture);
    }
  }

  // ---------------------------------------------------------------------
  // From the builder's page back to the frame
  // ---------------------------------------------------------------------

  /**
   * A page image read back as a texture: same size, rows reversed, since
   * the image counts rows from the top and the texture from the bottom.
   */
  ghost predicate RowsReversed(t: Texture, img: Image)
    requires t.Valid() && img.Valid()
    reads t.data, img.data
  {
    t.width == img.width && t.height == img.height
    && forall i, j :: 0 <= i < t.width && 0 <= j < t.height ==> t.data[i, j] == img.data[i, img.height - 1 - j]
  }

  /** Page pixel `(i, j)` is one the blit of an entry with a `w` by `h` source writes. */
  predicate Covers(e: Entry, pageHeight: int, w: int, h: int, i: int, j: int)
  {
    0 <= LoopX(e, pageHeight, i, j) < w && 0 <= LoopY(e, pageHeight, i, j) < h
  }

  /** Every page pixel the blit of `e` covers holds the source pixel it wrote. */
  ghost predicate HoldsBlit(page: Image, e: Entry, source: Image)
    requires page.Valid() && source.Valid()
    reads page.data, source.data
  {
    forall i, j :: 0 <= i < page.width && 0 <= j < page.height && Covers(e, page.height, source.width, source.height, i, j) ==>
      page.data[i, j] == source.data[LoopX(e, page.height, i, j), ReadY(e, source.height, LoopY(e, page.height, i, j))]
  }

  /** `BlitEntry`'s result holds the blit. */
  lemma BlitEntryHolds(page: Image, e: Entry, source: Image, prior: array2<Color>)
    requires page.Valid() && source.Valid()
    requires prior.Length0 == page.width && prior.Length1 == page.height
    requires forall i, j :: 0 <= i < page.width && 0 <= j < page.height ==>
               page.data[i, j] == BlitPixel(source, e, page.height, i, j, prior[i, j], 0, source.height)
    ensures HoldsBlit(page, e, source)
  {
  }

  /** The entry's rectangle lies inside the page, as every page the builder makes guarantees. */
  predicate InsidePage(e: Entry, width: int, height: int)
  {
    0 <= e.x && 0 <= e.y && e.x + e.w <= width && e.y + e.h <= height
  }

  /**
   * A frame blitted into a page, read back as a texture and cut out with
   * `SubTextureCorrected`, comes back as the frame itself (rows reversed, as a
   * texture holds them), flipped or not.
   */
  lemma SubTextureRecoversFrame(frame: Image, page: Image, pageTexture: Texture, crop: Texture, e: Entry)
    requires frame.Valid() && page.Valid() && pageTexture.Valid() && crop.Valid()
    requires e.w > 0 && e.h > 0 && InsidePage(e, page.width, page.height)
    requires if e.flipped then e.w == frame.height && e.h == frame.width else e.w == frame.width && e.h == frame.height
    requires HoldsBlit(page, e, frame) && RowsReversed(pageTexture, page)
    requires if e.flipped then crop.width == e.h && crop.height == e.w
                               && forall c, r :: 0 <= c < e.h && 0 <= r < e.w ==>
                                    crop.data[c, r] == pageTexture.GetPixel(e.x + r, e.y + e.h - 1 - c)
             else crop.width == e.w && crop.height == e.h && CropOf(crop, pageTexture, e)
    ensures crop.width == frame.width && crop.height == frame.height
    ensures forall c, r :: 0 <= c < crop.width && 0 <= r < crop.height ==>
              crop.data[c, r] == frame.data[c, frame.height - 1 - r]
  {
    forall c, r | 0 <= c < crop.width && 0 <= r < crop.height
      ensures crop.data[c, r] == frame.data[c, frame.height - 1 - r]
    {
      if e.flipped {
        var i, j := e.x + r, e.y + e.h - 1 - c;
        assert crop.data[c, r] == pageTexture.data[i, j];
        assert Covers(e, page.height, frame.width, frame.height, i, page.height - 1 - j);
      } else {
        var i, j := e.x + c, e.y + r;
        assert crop.data[c, r] == pageTexture.data[i, j];
        assert Covers(e, page.height, frame.width, frame.height, i, page.height - 1 - j);
      }
    }
  }

  /**
   * With `SubTexture` as written, through `UndoFlip`, a flipped frame comes back shifted one
   * column: column 0 of the result is the frame's last column. A frame
   * at least two wide whose first and last columns differ in the texture's
   * row 0 shows it.
   */
  lemma AsWrittenUndoFlipShifts(frame: Image, page: Image, pageTexture: Texture, out: Texture, e: Entry)
    requires frame.Valid() && page.Valid() && pageTexture.Valid() && out.Valid()
    requires e.flipped && e.w == frame.height && e.h == frame.width && e.w > 0 && e.h >= 2
    requires InsidePage(e, page.width, page.height)
    requires HoldsBlit(page, e, frame) && RowsReversed(pageTexture, page)
    requires out.width == e.h && out.height == e.w
    requires forall c, r :: 0 <= c < e.h && 0 <= r < e.w ==>
               out.data[c, r] == pageTexture.GetPixel(e.x + r, e.y + Repeat(e.h - c, e.h))
    requires frame.data[0, frame.height - 1] != frame.data[frame.width - 1, frame.height - 1]
    ensures out.width == frame.width && out.height == frame.height
    ensures out.data[0, 0] == frame.data[frame.width - 1, frame.height - 1] != frame.data[0, frame.height - 1]
  {
    assert out.data[0, 0] == pageTexture.data[e.x, e.y];
    assert Covers(e, page.height, frame.width, frame.height, e.x, page.height - 1 - e.y);
  }
}
