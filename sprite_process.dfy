// The integer part of `ProcessTexture` (tk2dSpriteCollectionBuilder.cs):
// find the columns and rows of a region that hold visible pixels, cut the
// region down to them unless trimming is off, copy it into a new texture
// with a `pad` wide border, and fill the border (from the source for dice
// tiles, with `PadTexture` otherwise).

module SpriteProcess {
  import opened Pixels
  import opened SpritePad

  /** The region of the source a sprite-lut records: `rx`, `ry`, `rw`, `rh`. */
  datatype LutRect = LutRect(rx: int, ry: int, rw: int, rh: int)

  /** Pixel (x, y) of the region whose corner is (sx, sy) has alpha above zero. */
  ghost predicate Visible(src: Texture, sx: int, sy: int, x: int, y: int)
    requires src.Valid()
    reads src.data
  {
    src.GetPixel(sx + x, sy + y).a > 0
  }

  /** Column `x` of the region holds a visible pixel among its `th` rows. */
  ghost predicate ColumnVisible(src: Texture, sx: int, sy: int, th: int, x: int)
    requires src.Valid()
    reads src.data
  {
    exists y :: 0 <= y < th && Visible(src, sx, sy, x, y)
  }

  /** Row `y` of the region holds a visible pixel among its first `xs` columns. */
  ghost predicate RowVisible(src: Texture, sx: int, sy: int, xs: int, y: int)
    requires src.Valid()
    reads src.data
  {
    exists x :: 0 <= x < xs && Visible(src, sx, sy, x, y)
  }

  /** Some pixel among the first `xs` columns of the region is visible. */
  ghost predicate AnyVisible(src: Texture, sx: int, sy: int, xs: int, th: int)
    requires src.Valid()
    reads src.data
  {
    exists x :: 0 <= x < xs && ColumnVisible(src, sx, sy, th, x)
  }

  /** One more row of a column: visible so far, or visible in the new row. */
  lemma ColumnStep(src: Texture, sx: int, sy: int, n: int, x: int)
    requires src.Valid() && n >= 0
    ensures ColumnVisible(src, sx, sy, n + 1, x) <==> ColumnVisible(src, sx, sy, n, x) || Visible(src, sx, sy, x, n)
  {
    if ColumnVisible(src, sx, sy, n + 1, x) && !Visible(src, sx, sy, x, n) {
      var y :| 0 <= y < n + 1 && Visible(src, sx, sy, x, y);
      assert y < n;
    }
  }

  /** One more column of a row: visible so far, or visible in the new column. */
  lemma RowStep(src: Texture, sx: int, sy: int, xs: int, y: int)
    requires src.Valid() && xs >= 0
    ensures RowVisible(src, sx, sy, xs + 1, y) <==> RowVisible(src, sx, sy, xs, y) || Visible(src, sx, sy, xs, y)
  {
    if RowVisible(src, sx, sy, xs + 1, y) && !Visible(src, sx, sy, xs, y) {
      var x :| 0 <= x < xs + 1 && Visible(src, sx, sy, x, y);
      assert x < xs;
    }
  }

  /** One more column of the region: something visible so far, or in the new column. */
  lemma AnyStep(src: Texture, sx: int, sy: int, xs: int, th: int)
    requires src.Valid() && xs >= 0
    ensures AnyVisible(src, sx, sy, xs + 1, th) <==> AnyVisible(src, sx, sy, xs, th) || ColumnVisible(src, sx, sy, th, xs)
  {
    if AnyVisible(src, sx, sy, xs + 1, th) && !ColumnVisible(src, sx, sy, th, xs) {
      var x :| 0 <= x < xs + 1 && ColumnVisible(src, sx, sy, th, x);
      assert x < xs;
    }
  }

  /** A 0/1 flag. */
  function Flag(b: bool): int
  {
    if b then 1 else 0
  }

  /**
   * The occupancy scan of `ProcessTexture`: `ww[x]` is 1 exactly when
   * column x holds a visible pixel, `hh[y]` likewise for row y, and the
   * count is positive exactly when some pixel is visible.
   */
  method ScanOccupancy(srcTex: Texture, sx: int, sy: int, tw: int, th: int)
    returns (ww: array<int>, hh: array<int>, numNotTransparent: int)
    requires srcTex.Valid() && tw >= 0 && th >= 0
    ensures fresh(ww) && fresh(hh) && ww.Length == tw && hh.Length == th
    ensures forall x :: 0 <= x < tw ==> ww[x] == Flag(ColumnVisible(srcTex, sx, sy, th, x))
    ensures forall y :: 0 <= y < th ==> hh[y] == Flag(RowVisible(srcTex, sx, sy, tw, y))
    ensures numNotTransparent > 0 <==> AnyVisible(srcTex, sx, sy, tw, th)
  {
    ww := new int[tw];
    hh := new int[th];
    for x := 0 to tw
      invariant forall x' :: 0 <= x' < x ==> ww[x'] == 0
    {
      ww[x] := 0;
    }
    for y := 0 to th
      invariant forall y' :: 0 <= y' < y ==> hh[y'] == 0
      invariant forall x' :: 0 <= x' < tw ==> ww[x'] == 0
    {
      hh[y] := 0;
    }
    numNotTransparent := 0;
    for x := 0 to tw
      invariant forall x' :: 0 <= x' < x ==> ww[x'] == Flag(ColumnVisible(srcTex, sx, sy, th, x'))
      invariant forall x' :: x <= x' < tw ==> ww[x'] == 0
      invariant forall y :: 0 <= y < th ==> hh[y] == Flag(RowVisible(srcTex, sx, sy, x, y))
      invariant numNotTransparent >= 0 && (numNotTransparent > 0 <==> AnyVisible(srcTex, sx, sy, x, th))
    {
      AnyStep(srcTex, sx, sy, x, th);
      numNotTransparent := MarkColumn(srcTex, sx, sy, th, x, ww, hh, numNotTransparent);
    }
  }

  /** The inner loop of the occupancy scan: column `x`, bottom to top. */
  method MarkColumn(srcTex: Texture, sx: int, sy: int, th: int, x: int, ww: array<int>, hh: array<int>, count0: int)
    returns (count: int)
    requires srcTex.Valid() && 0 <= x < ww.Length && hh.Length == th && ww != hh && count0 >= 0
    requires ww[x] == 0
    requires forall y :: 0 <= y < th ==> hh[y] == Flag(RowVisible(srcTex, sx, sy, x, y))
    modifies ww, hh
    ensures ww[x] == Flag(ColumnVisible(srcTex, sx, sy, th, x))
    ensures forall x' :: 0 <= x' < ww.Length && x' != x ==> ww[x'] == old(ww[x'])
    ensures forall y :: 0 <= y < th ==> hh[y] == Flag(RowVisible(srcTex, sx, sy, x + 1, y))
    ensures count >= count0 && (count > 0 <==> count0 > 0 || ColumnVisible(srcTex, sx, sy, th, x))
  {
    count := count0;
    for y := 0 to th
      invariant forall x' :: 0 <= x' < ww.Length && x' != x ==> ww[x'] == old(ww[x'])
      invariant ww[x] == Flag(ColumnVisible(srcTex, sx, sy, y, x))
      invariant forall y' :: 0 <= y' < y ==> hh[y'] == Flag(RowVisible(srcTex, sx, sy, x + 1, y'))
      invariant forall y' :: y <= y' < th ==> hh[y'] == Flag(RowVisible(srcTex, sx, sy, x, y'))
      invariant count >= count0 && (count > 0 <==> count0 > 0 || ColumnVisible(srcTex, sx, sy, y, x))
    {
      ColumnStep(srcTex, sx, sy, y, x);
      RowStep(srcTex, sx, sy, x, y);
      var col := srcTex.GetPixel(sx + x, sy + y);
      if col.a > 0 {
        ww[x] := 1;
        hh[y] := 1;
        count := count + 1;
      }
    }
  }

  /** The forward search of `ProcessTexture`: the first index holding 1, or 0 when there is none. */
  method FirstMarked(a: array<int>) returns (r: int)
    ensures (0 <= r < a.Length && a[r] == 1 && forall i :: 0 <= i < r ==> a[i] != 1)
            || (r == 0 && forall i :: 0 <= i < a.Length ==> a[i] != 1)
  {
    r := 0;
    var x := 0;
    while x < a.Length
      invariant 0 <= x <= a.Length
      invariant forall i :: 0 <= i < x ==> a[i] != 1
    {
      if a[x] == 1 {
        r := x;
        return;
      }
      x := x + 1;
    }
  }

  /** The backward search of `ProcessTexture`: the last index holding 1, or 0 when there is none. */
  method LastMarked(a: array<int>) returns (r: int)
    ensures (0 <= r < a.Length && a[r] == 1 && forall i :: r < i < a.Length ==> a[i] != 1)
            || (r == 0 && forall i :: 0 <= i < a.Length ==> a[i] != 1)
  {
    r := 0;
    var x := a.Length - 1;
    while x >= 0
      invariant -1 <= x < a.Length
      invariant forall i :: x < i < a.Length ==> a[i] != 1
    {
      if a[x] == 1 {
        r := x;
        return;
      }
      x := x - 1;
    }
  }

  /** The source pixel copied to (i, j) of the padded buffer whose interior starts at source (ox, oy). */
  ghost function CopiedFrom(src: Texture, ox: int, oy: int, pad: int, i: int, j: int): Color
    requires src.Valid()
    reads src.data
  {
    src.GetPixel(ox + i - pad, oy + j - pad)
  }

  /**
   * The copy loop of `ProcessTexture`: a new `w1 + 2 pad` by `h1 + 2 pad`
   * texture whose interior is the `w1` by `h1` region at (ox, oy).
   */
  method CopyRegion(srcTex: Texture, ox: int, oy: int, w1: int, h1: int, pad: int) returns (dtex: Texture)
    requires srcTex.Valid() && w1 > 0 && h1 > 0 && pad >= 0
    ensures fresh(dtex) && fresh(dtex.data) && dtex.Valid()
    ensures dtex.width == w1 + 2 * pad && dtex.height == h1 + 2 * pad
    ensures forall i, j :: pad <= i < pad + w1 && pad <= j < pad + h1 ==> dtex.data[i, j] == CopiedFrom(srcTex, ox, oy, pad, i, j)
  {
    dtex := new Texture(w1 + pad * 2, h1 + pad * 2);
    for x := 0 to w1
      invariant forall i, j :: pad <= i < pad + x && pad <= j < pad + h1 ==> dtex.data[i, j] == CopiedFrom(srcTex, ox, oy, pad, i, j)
    {
      for y := 0 to h1
        invariant forall i, j :: pad <= i < pad + x && pad <= j < pad + h1 ==> dtex.data[i, j] == CopiedFrom(srcTex, ox, oy, pad, i, j)
        invariant forall i, j :: i == pad + x && pad <= j < pad + y ==> dtex.data[i, j] == CopiedFrom(srcTex, ox, oy, pad, i, j)
      {
        var col := srcTex.GetPixel(ox + x, oy + y);
        dtex.SetPixel(x + pad, y + pad, col);
      }
    }
  }

  /** Pixel (i, j) lies in the `pad` wide border of a `w1` by `h1` interior. */
  predicate InBorder(pad: int, w1: int, h1: int, i: int, j: int)
  {
    !(pad <= j < h1 + pad && pad <= i < w1 + pad)
  }

  /** The source pixel a dice tile's border takes at (i, j): the nearest one inside the source. */
  ghost function DiceBorderFrom(src: Texture, ox: int, oy: int, pad: int, i: int, j: int): Color
    requires src.Valid()
    reads src.data
  {
    src.GetPixel(Clamp(ox + i - pad, 0, src.width - 1), Clamp(oy + j - pad, 0, src.height - 1))
  }

  /** The dice padding loop of `ProcessTexture`: every border pixel comes from the source, clamped to its edges. */
  method FillDiceBorder(dtex: Texture, srcTex: Texture, ox: int, oy: int, w1: int, h1: int, pad: int)
    requires dtex.Valid() && srcTex.Valid() && dtex.data != srcTex.data
    modifies dtex.data
    ensures forall i, j :: 0 <= i < dtex.width && 0 <= j < dtex.height ==>
              dtex.data[i, j] == (if InBorder(pad, w1, h1, i, j) then DiceBorderFrom(srcTex, ox, oy, pad, i, j) else old(dtex.data[i, j]))
  {
    for y := 0 to dtex.height
      invariant forall i, j :: 0 <= i < dtex.width && 0 <= j < dtex.height ==>
                  dtex.data[i, j] == (if j < y && InBorder(pad, w1, h1, i, j) then DiceBorderFrom(srcTex, ox, oy, pad, i, j)
                                      else old(dtex.data[i, j]))
    {
      FillDiceRow(dtex, srcTex, ox, oy, w1, h1, pad, y);
    }
  }

  /** The inner loop of the dice padding: row `y`, skipping the interior. */
  method FillDiceRow(dtex: Texture, srcTex: Texture, ox: int, oy: int, w1: int, h1: int, pad: int, y: int)
    requires dtex.Valid() && srcTex.Valid() && dtex.data != srcTex.data && 0 <= y < dtex.height
    modifies dtex.data
    ensures forall i, j :: 0 <= i < dtex.width && 0 <= j < dtex.height ==>
              dtex.data[i, j] == (if j == y && InBorder(pad, w1, h1, i, j) then DiceBorderFrom(srcTex, ox, oy, pad, i, j)
                                  else old(dtex.data[i, j]))
  {
    for x := 0 to dtex.width
      invariant forall i, j :: 0 <= i < dtex.width && 0 <= j < dtex.height ==>
                  dtex.data[i, j] == (if j == y && i < x && InBorder(pad, w1, h1, i, j) then DiceBorderFrom(srcTex, ox, oy, pad, i, j)
                                      else old(dtex.data[i, j]))
    {
      if y >= pad && y < h1 + pad && x >= pad && x < w1 + pad {
        continue;
      }
      var px := Clamp(ox + x - pad, 0, srcTex.width - 1);
      var py := Clamp(oy + y - pad, 0, srcTex.height - 1);
      var col := srcTex.GetPixel(px, py);
      dtex.SetPixel(x, y, col);
    }
  }

  /**
   * The trimming box of a region: the first and last columns and rows
   * holding a visible pixel, as a rectangle of the source.
   */
  ghost predicate TrimmedRect(src: Texture, sx: int, sy: int, tw: int, th: int, r: LutRect)
    requires src.Valid()
    reads src.data
  {
    var x0, y0 := r.rx - sx, r.ry - sy;
    var x1, y1 := x0 + r.rw - 1, y0 + r.rh - 1;
    0 <= x0 <= x1 < tw && 0 <= y0 <= y1 < th
    && ColumnVisible(src, sx, sy, th, x0) && ColumnVisible(src, sx, sy, th, x1)
    && RowVisible(src, sx, sy, tw, y0) && RowVisible(src, sx, sy, tw, y1)
    && (forall x :: 0 <= x < tw && ColumnVisible(src, sx, sy, th, x) ==> x0 <= x <= x1)
    && (forall y :: 0 <= y < th && RowVisible(src, sx, sy, tw, y) ==> y0 <= y <= y1)
  }

  /**
   * Pixel (i, j), in an interior column `i`, of the row pass of
   * `PadTexture` run over a buffer whose `w1` by `h1` interior is the
   * region at (ox, oy).
   */
  ghost function RowPaddedOver(src: Texture, ox: int, oy: int, h1: int, pad: int, mode: Pad, i: int, j: int): Color
    requires src.Valid()
    reads src.data
  {
    var top, bottom := CopiedFrom(src, ox, oy, pad, i, pad), CopiedFrom(src, ox, oy, pad, i, pad + h1 - 1);
    if j < pad then
      (match mode
       case Extend => top
       case TileX => bottom
       case TileXY => bottom
       case _ => Clear)
    else if j > pad + h1 - 1 then
      (match mode
       case Extend => bottom
       case TileX => top
       case TileXY => top
       case _ => Clear)
    else CopiedFrom(src, ox, oy, pad, i, j)
  }

  /**
   * Pixel (i, j) of an undiced padded copy: `PadTexture` run over a buffer
   * whose `w1` by `h1` interior is the region at (ox, oy). `Extend` repeats
   * the nearest edge pixel, the tile modes the opposite edge's pixel along
   * their axes, and `BlackZeroAlpha` clears the border. In `TileX` mode the
   * side borders repeat the last colours the row pass read, two pixels of
   * the fresh buffer's right border that nothing has written yet; their
   * colours are `side0` and `side1`.
   */
  ghost function PaddedOver(src: Texture, ox: int, oy: int, w1: int, h1: int, pad: int, mode: Pad,
                            side0: Color, side1: Color, i: int, j: int): Color
    requires src.Valid()
    reads src.data
  {
    var left, right := pad, pad + w1 - 1;
    if i < left then
      (match mode
       case Extend => RowPaddedOver(src, ox, oy, h1, pad, mode, left, j)
       case TileY => RowPaddedOver(src, ox, oy, h1, pad, mode, right, j)
       case TileXY => RowPaddedOver(src, ox, oy, h1, pad, mode, right, j)
       case TileX => side0
       case _ => Clear)
    else if i > right then
      (match mode
       case Extend => RowPaddedOver(src, ox, oy, h1, pad, mode, right, j)
       case TileY => RowPaddedOver(src, ox, oy, h1, pad, mode, left, j)
       case TileXY => RowPaddedOver(src, ox, oy, h1, pad, mode, left, j)
       case TileX => side1
       case _ => Clear)
    else RowPaddedOver(src, ox, oy, h1, pad, mode, i, j)
  }

  /**
   * `PadTexture` over a buffer whose interior is the copied region gives
   * `PaddedOver`, the `TileX` side colours being the ones the result
   * holds in row `pad`.
   */
  lemma PaddedIsPaddedOver(tex: Texture, src: Texture, ox: int, oy: int, w1: int, h1: int, pad: int, mode: Pad, i: int, j: int)
    requires tex.Valid() && src.Valid() && w1 > 0 && h1 > 0 && 0 <= pad
    requires tex.width == w1 + 2 * pad && tex.height == h1 + 2 * pad
    requires forall x, y :: pad <= x < pad + w1 && pad <= y < pad + h1 ==> tex.data[x, y] == CopiedFrom(src, ox, oy, pad, x, y)
    requires 0 <= i < tex.width && 0 <= j < tex.height
    ensures Padded(tex, mode, pad, i, j)
              == PaddedOver(src, ox, oy, w1, h1, pad, mode, Padded(tex, mode, pad, 0, pad),
                            Padded(tex, mode, pad, tex.width - 1, pad), i, j)
  {
    var left, right := pad, pad + w1 - 1;
    var x := if i < left then (if mode == TileY || mode == TileXY then right else left)
             else if i > right then (if mode == TileY || mode == TileXY then left else right)
             else i;
    assert tex.data[x, pad] == CopiedFrom(src, ox, oy, pad, x, pad);
    assert tex.data[x, pad + h1 - 1] == CopiedFrom(src, ox, oy, pad, x, pad + h1 - 1);
    if pad <= j < pad + h1 {
      assert tex.data[x, j] == CopiedFrom(src, ox, oy, pad, x, j);
    }
  }

  /**
   * `dtex` is the padded copy of the rectangle `lut` of the source: its
   * interior is the rectangle; a dice tile's border is the source around
   * the rectangle, clamped to the source's edges; any other border is
   * `PaddedOver` in the pad mode, which with `Extend` padding repeats the
   * rectangle's edge pixels.
   */
  ghost predicate PaddedFrom(dtex: Texture, src: Texture, lut: LutRect, pad: int, padMode: Pad, isDiced: bool)
    requires dtex.Valid() && src.Valid()
    reads dtex.data, src.data
  {
    0 <= pad && 0 < lut.rw && 0 < lut.rh
    && dtex.width == lut.rw + 2 * pad && dtex.height == lut.rh + 2 * pad
    && (forall i, j :: pad <= i < pad + lut.rw && pad <= j < pad + lut.rh ==>
          dtex.data[i, j] == CopiedFrom(src, lut.rx, lut.ry, pad, i, j))
    && (isDiced ==> forall i, j :: 0 <= i < dtex.width && 0 <= j < dtex.height && InBorder(pad, lut.rw, lut.rh, i, j) ==>
          dtex.data[i, j] == DiceBorderFrom(src, lut.rx, lut.ry, pad, i, j))
    && (!isDiced ==> forall i, j :: 0 <= i < dtex.width && 0 <= j < dtex.height ==>
          dtex.data[i, j] == PaddedOver(src, lut.rx, lut.ry, lut.rw, lut.rh, pad, Effective(padMode),
                                        dtex.data[0, pad], dtex.data[dtex.width - 1, pad], i, j))
    && (!isDiced && Effective(padMode) == Extend ==> forall i, j :: 0 <= i < dtex.width && 0 <= j < dtex.height ==>
          dtex.data[i, j] == CopiedFrom(src, lut.rx, lut.ry, pad, Clamp(i, pad, pad + lut.rw - 1), Clamp(j, pad, pad + lut.rh - 1)))
  }

  /**
   * `ProcessTexture` without premultiplied alpha and custom geometry: null
   * exactly when trimming is allowed and nothing in the region is visible,
   * the lut then left as it was; otherwise the trimming box of the region
   * (the whole region when trimming is off) copied into a padded texture.
   */
  method ProcessTexture(settingsDisableTrimming: bool, disableTrimming: bool, padMode: Pad, isDiced: bool,
                        srcTex: Texture, sx: int, sy: int, tw: int, th: int, lut0: LutRect, padAmount: int)
    returns (dtex: Texture?, lut: LutRect)
    requires srcTex.Valid() && tw > 0 && th > 0 && padAmount >= 0
    ensures var allowTrimming := !settingsDisableTrimming && !disableTrimming;
            (dtex == null <==> allowTrimming && !AnyVisible(srcTex, sx, sy, tw, th))
            && (dtex == null ==> lut == lut0)
            && (dtex != null ==>
                  fresh(dtex) && fresh(dtex.data) && dtex.Valid()
                  && (!allowTrimming ==> lut == LutRect(sx, sy, tw, th))
                  && (allowTrimming ==> TrimmedRect(srcTex, sx, sy, tw, th, lut))
                  && PaddedFrom(dtex, srcTex, lut, padAmount, padMode, isDiced))
  {
    var allowTrimming := !settingsDisableTrimming && !disableTrimming;
    var ww, hh, numNotTransparent := ScanOccupancy(srcTex, sx, sy, tw, th);
    if !allowTrimming || numNotTransparent > 0 {
      var x0, x1, y0, y1 := TrimBounds(srcTex, sx, sy, tw, th, ww, hh, numNotTransparent > 0);
      ghost var box := LutRect(sx + x0, sy + y0, x1 - x0 + 1, y1 - y0 + 1);
      x1 := Min(x1, tw - 1);
      y1 := Min(y1, th - 1);
      var w1 := x1 - x0 + 1;
      var h1 := y1 - y0 + 1;
      if !allowTrimming {
        x0, y0, w1, h1 := 0, 0, tw, th;
      }
      lut := LutRect(sx + x0, sy + y0, w1, h1);
      assert allowTrimming ==> lut == box;
      dtex := PaddedCopy(srcTex, lut, padAmount, padMode, isDiced);
    } else {
      dtex, lut := null, lut0;
    }
  }

  /** `lo..hi` runs from the first 1 of `flags` to its last. */
  predicate MarkedSpan(flags: seq<int>, lo: int, hi: int)
  {
    0 <= lo <= hi < |flags| && flags[lo] == 1 && flags[hi] == 1
    && forall i :: 0 <= i < |flags| && flags[i] == 1 ==> lo <= i <= hi
  }

  /** A visible pixel of the region, when there is one. */
  lemma SomeVisible(src: Texture, sx: int, sy: int, tw: int, th: int) returns (x: int, y: int)
    requires src.Valid() && AnyVisible(src, sx, sy, tw, th)
    ensures 0 <= x < tw && 0 <= y < th && Visible(src, sx, sy, x, y)
    ensures ColumnVisible(src, sx, sy, th, x) && RowVisible(src, sx, sy, tw, y)
  {
    x :| 0 <= x < tw && ColumnVisible(src, sx, sy, th, x);
    y :| 0 <= y < th && Visible(src, sx, sy, x, y);
  }

  /** Spans of the column and row flags make the trimming box. */
  lemma SpansMakeTrimmedRect(src: Texture, sx: int, sy: int, tw: int, th: int, ws: seq<int>, hs: seq<int>,
                             x0: int, x1: int, y0: int, y1: int)
    requires src.Valid() && |ws| == tw && |hs| == th
    requires forall x :: 0 <= x < tw ==> ws[x] == Flag(ColumnVisible(src, sx, sy, th, x))
    requires forall y :: 0 <= y < th ==> hs[y] == Flag(RowVisible(src, sx, sy, tw, y))
    requires MarkedSpan(ws, x0, x1) && MarkedSpan(hs, y0, y1)
    ensures TrimmedRect(src, sx, sy, tw, th, LutRect(sx + x0, sy + y0, x1 - x0 + 1, y1 - y0 + 1))
  {
  }

  /**
   * The four searches of `ProcessTexture` over the occupancy flags; when
   * something is visible they give the trimming box.
   */
  method TrimBounds(srcTex: Texture, sx: int, sy: int, tw: int, th: int, ww: array<int>, hh: array<int>, ghost anyVisible: bool)
    returns (x0: int, x1: int, y0: int, y1: int)
    requires srcTex.Valid() && ww.Length == tw && hh.Length == th && tw > 0 && th > 0
    requires forall x :: 0 <= x < tw ==> ww[x] == Flag(ColumnVisible(srcTex, sx, sy, th, x))
    requires forall y :: 0 <= y < th ==> hh[y] == Flag(RowVisible(srcTex, sx, sy, tw, y))
    requires anyVisible == AnyVisible(srcTex, sx, sy, tw, th)
    ensures 0 <= x0 < tw && 0 <= x1 < tw && 0 <= y0 < th && 0 <= y1 < th
    ensures anyVisible ==> TrimmedRect(srcTex, sx, sy, tw, th, LutRect(sx + x0, sy + y0, x1 - x0 + 1, y1 - y0 + 1))
  {
    x0 := FirstMarked(ww);
    x1 := LastMarked(ww);
    y0 := FirstMarked(hh);
    y1 := LastMarked(hh);
    if anyVisible {
      var x, y := SomeVisible(srcTex, sx, sy, tw, th);
      assert ww[x] == 1 && hh[y] == 1;
      assert MarkedSpan(ww[..], x0, x1);
      assert MarkedSpan(hh[..], y0, y1);
      SpansMakeTrimmedRect(srcTex, sx, sy, tw, th, ww[..], hh[..], x0, x1, y0, y1);
    }
  }

  /** Allocates the padded copy and fills its border, from the source for dice tiles, with `PadTexture` otherwise. */
  method PaddedCopy(srcTex: Texture, lut: LutRect, padAmount: int, padMode: Pad, isDiced: bool) returns (dtex: Texture)
    requires srcTex.Valid() && lut.rw > 0 && lut.rh > 0 && padAmount >= 0
    ensures fresh(dtex) && fresh(dtex.data) && dtex.Valid()
    ensures PaddedFrom(dtex, srcTex, lut, padAmount, padMode, isDiced)
  {
    dtex := CopyRegion(srcTex, lut.rx, lut.ry, lut.rw, lut.rh, padAmount);
    if isDiced {
      FillDiceBorder(dtex, srcTex, lut.rx, lut.ry, lut.rw, lut.rh, padAmount);
    }
    if !isDiced {
      label copied:
      ghost var mode := Effective(padMode);
      ghost var w := dtex.width;
      forall i, j | 0 <= i < dtex.width && 0 <= j < dtex.height
        ensures Padded(dtex, mode, padAmount, i, j)
                  == PaddedOver(srcTex, lut.rx, lut.ry, lut.rw, lut.rh, padAmount, mode, Padded(dtex, mode, padAmount, 0, padAmount),
                                Padded(dtex, mode, padAmount, w - 1, padAmount), i, j)
      {
        PaddedIsPaddedOver(dtex, srcTex, lut.rx, lut.ry, lut.rw, lut.rh, padAmount, mode, i, j);
      }
      PadTexture(dtex, padAmount, padMode);
      assert dtex.data[0, padAmount] == old@copied(Padded(dtex, mode, padAmount, 0, padAmount));
      assert dtex.data[w - 1, padAmount] == old@copied(Padded(dtex, mode, padAmount, w - 1, padAmount));
      if Effective(padMode) == Extend {
        forall i, j | 0 <= i < dtex.width && 0 <= j < dtex.height
          ensures dtex.data[i, j] == CopiedFrom(srcTex, lut.rx, lut.ry, padAmount,
                                                Clamp(i, padAmount, padAmount + lut.rw - 1), Clamp(j, padAmount, padAmount + lut.rh - 1))
        {
          var ci, cj := Clamp(i, padAmount, padAmount + lut.rw - 1), Clamp(j, padAmount, padAmount + lut.rh - 1);
          assert old@copied(Padded(dtex, Extend, padAmount, i, j)) == old@copied(dtex.data[ci, cj]);
        }
      }
    }
  }

  /** A fully solid region is never trimmed: its trimming box is the whole region. */
  lemma SolidRegionUntrimmed(src: Texture, sx: int, sy: int, tw: int, th: int, r: LutRect)
    requires src.Valid() && tw > 0 && th > 0
    requires FullySolid(src, sx, sy, tw, th)
    requires TrimmedRect(src, sx, sy, tw, th, r)
    ensures r == LutRect(sx, sy, tw, th)
  {
    assert SolidAt(src, sx + 0, sy + 0) && SolidAt(src, sx + tw - 1, sy + th - 1);
    assert Visible(src, sx, sy, 0, 0) && Visible(src, sx, sy, tw - 1, th - 1);
    assert ColumnVisible(src, sx, sy, th, 0) && ColumnVisible(src, sx, sy, th, tw - 1);
    assert RowVisible(src, sx, sy, tw, 0) && RowVisible(src, sx, sy, tw, th - 1);
  }

  /** Every visible pixel of the region lies inside its trimming box. */
  lemma TrimmedRectHoldsVisible(src: Texture, sx: int, sy: int, tw: int, th: int, r: LutRect, x: int, y: int)
    requires src.Valid() && TrimmedRect(src, sx, sy, tw, th, r)
    requires 0 <= x < tw && 0 <= y < th && Visible(src, sx, sy, x, y)
    ensures r.rx <= sx + x < r.rx + r.rw && r.ry <= sy + y < r.ry + r.rh
  {
    assert ColumnVisible(src, sx, sy, th, x);
    assert RowVisible(src, sx, sy, tw, y);
  }
}
