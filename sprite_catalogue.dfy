// The catalogue loop of the sprite-collection build: every sprite's source
// texture becomes one lut, or, when it is diced, one lut per kept tile of
// the dice grid; a sprite whose source texture was already catalogued
// becomes a duplicate of the first lut with that source.

module SpriteCatalogue {
  import opened Pixels
  import opened SpritePad
  import opened SpriteProcess
  import opened DiceGrid
  import opened SpriteLuts

  /** Which dice tiles a diced sprite keeps. */
  datatype DiceFilter = Complete | SolidOnly | TransparentOnly

  /** The per-sprite parameters the catalogue reads; the dice units are already rescaled. */
  datatype TextureParam = TextureParam(dice: bool, diceUnitX: int, diceUnitY: int, diceFilter: DiceFilter,
                                       disableTrimming: bool, pad: Pad)

  /** Trimming is allowed unless the collection or the sprite disables it. */
  function AllowTrimming(settingsDisableTrimming: bool, param: TextureParam): bool
  {
    !settingsDisableTrimming && !param.disableTrimming
  }

  /** A missing source texture is replaced by the blank texture. */
  function SourceOf(sourceTextures: seq<Texture?>, blank: Texture, i: int): Texture
    requires 0 <= i < |sourceTextures|
  {
    if sourceTextures[i] == null then blank else sourceTextures[i]
  }

  /** A sprite is diced when asked to and its source texture is present. */
  predicate Diced(params: seq<TextureParam>, sourceTextures: seq<Texture?>, i: int)
    requires 0 <= i < |params| == |sourceTextures|
  {
    params[i].dice && sourceTextures[i] != null
  }

  // ---------------------------------------------------------------------
  // Dicing
  // ---------------------------------------------------------------------

  /**
   * A tile survives the dice filter: the filter applies only when trimming
   * is allowed, `SolidOnly` drops tiles with a pixel below full alpha and
   * `TransparentOnly` drops fully solid tiles.
   */
  ghost predicate PassesFilter(filter: DiceFilter, allowTrimming: bool, src: Texture, t: Tile)
    requires src.Valid()
    reads src.data
  {
    !allowTrimming
    || ((filter == SolidOnly ==> FullySolid(src, t.sx, t.sy, t.tw, t.th))
        && (filter == TransparentOnly ==> !FullySolid(src, t.sx, t.sy, t.tw, t.th)))
  }

  /** A tile becomes a lut: it passes the filter and, when trimming is allowed, holds a visible pixel. */
  ghost predicate Kept(filter: DiceFilter, allowTrimming: bool, src: Texture, t: Tile)
    requires src.Valid()
    reads src.data
  {
    PassesFilter(filter, allowTrimming, src, t) && (!allowTrimming || AnyVisible(src, t.sx, t.sy, t.tw, t.th))
  }

  /** The tiles that become luts. */
  ghost function KeptSet(filter: DiceFilter, allowTrimming: bool, src: Texture): iset<Tile>
    requires src.Valid()
    reads src.data
  {
    iset t: Tile | Kept(filter, allowTrimming, src, t)
  }

  /** The tiles of `ts` that are in `keep`, in order. */
  function KeptTiles(keep: iset<Tile>, ts: seq<Tile>): seq<Tile>
  {
    if |ts| == 0 then []
    else (if ts[0] in keep then [ts[0]] else []) + KeptTiles(keep, ts[1..])
  }

  /** Keeping tiles distributes over concatenation. */
  lemma {:induction false} KeptTilesAppend(keep: iset<Tile>, a: seq<Tile>, b: seq<Tile>)
    ensures KeptTiles(keep, a + b) == KeptTiles(keep, a) + KeptTiles(keep, b)
  {
    if |a| > 0 {
      assert (a + b)[1..] == a[1..] + b;
      KeptTilesAppend(keep, a[1..], b);
    } else {
      assert a + b == b;
    }
  }

  /** The kept tiles are tiles of the list that are in `keep`. */
  lemma {:induction false} KeptTilesSound(keep: iset<Tile>, ts: seq<Tile>, k: int)
    requires 0 <= k < |KeptTiles(keep, ts)|
    ensures KeptTiles(keep, ts)[k] in ts && KeptTiles(keep, ts)[k] in keep
  {
    if |ts| > 0 {
      if ts[0] in keep && k == 0 {
      } else {
        var k' := if ts[0] in keep then k - 1 else k;
        KeptTilesSound(keep, ts[1..], k');
      }
    }
  }

  /** Rectangle `r` is non-empty and lies within tile `t`. */
  predicate WithinTile(r: LutRect, t: Tile)
  {
    t.sx <= r.rx && 0 < r.rw && r.rx + r.rw <= t.sx + t.tw
    && t.sy <= r.ry && 0 < r.rh && r.ry + r.rh <= t.sy + t.th
  }

  /**
   * What a dice lut records of its tile: its sprite and source, a texture,
   * no hash yet, and the whole tile, or when trimming is allowed a part of
   * it (the tile's tight box of visible pixels, as `DiceTile` states).
   */
  ghost predicate DiceLutOf(l: SpriteLut, i: int, src: Texture, t: Tile, allowTrimming: bool)
  {
    l.source == i && l.sourceTex == src && l.isSplit && !l.isDuplicate && l.hash == []
    && l.tex != null && l.tex.Valid()
    && (!allowTrimming ==> l.rect == LutRect(t.sx, t.sy, t.tw, t.th))
    && (allowTrimming ==> WithinTile(l.rect, t))
  }

  /**
   * One tile of the dice loop: the filter checks, then `ProcessTexture`
   * with extended padding for a diced texture. The tile is kept exactly
   * when it passes the filter and `ProcessTexture` returns a texture.
   */
  method DiceTile(param: TextureParam, settingsDisableTrimming: bool, i: int, srcTex: Texture, t: Tile, padAmount: int)
    returns (kept: bool, lut: SpriteLut)
    requires srcTex.Valid() && t.tw > 0 && t.th > 0 && padAmount >= 0
    ensures var allowTrimming := AllowTrimming(settingsDisableTrimming, param);
            kept == Kept(param.diceFilter, allowTrimming, srcTex, t)
            && (kept ==> DiceLutOf(lut, i, srcTex, t, allowTrimming) && fresh(lut.tex)
                         && (allowTrimming ==> TrimmedRect(srcTex, t.sx, t.sy, t.tw, t.th, lut.rect))
                         && PaddedFrom(lut.tex, srcTex, lut.rect, padAmount, Extend, true))
  {
    var allowTrimming := AllowTrimming(settingsDisableTrimming, param);
    lut := SpriteLut(i, srcTex, null, true, LutRect(0, 0, 0, 0), false, 0, []);
    if allowTrimming {
      if param.diceFilter == SolidOnly {
        var solid := TextureRectFullySolid(srcTex, t.sx, t.sy, t.tw, t.th);
        if !solid {
          return false, lut;
        }
      }
      if param.diceFilter == TransparentOnly {
        var solid := TextureRectFullySolid(srcTex, t.sx, t.sy, t.tw, t.th);
        if solid {
          return false, lut;
        }
      }
    }
    var dest, rect := ProcessTexture(settingsDisableTrimming, param.disableTrimming, Extend, true,
                                     srcTex, t.sx, t.sy, t.tw, t.th, lut.rect, padAmount);
    if dest == null {
      return false, lut;
    }
    kept := true;
    lut := lut.(tex := dest, rect := rect);
  }

  // ---------------------------------------------------------------------
  // The duplicate search
  // ---------------------------------------------------------------------

  /** The first of the first `n` luts whose source texture is `src`, or `n` when there is none. */
  function FirstSameSource(luts: seq<SpriteLut>, src: Texture?, n: int): (f: int)
    requires 0 <= n <= |luts|
    ensures 0 <= f <= n
    ensures f < n ==> luts[f].sourceTex == src
    ensures forall k :: 0 <= k < f ==> luts[k].sourceTex != src
    decreases n
  {
    if n == 0 then 0
    else
      var f := FirstSameSource(luts, src, n - 1);
      if f < n - 1 then f else if luts[n - 1].sourceTex == src then n - 1 else n
  }

  /** Only the luts before `n` decide the search. */
  lemma {:induction false} FirstSameSourcePrefix(luts: seq<SpriteLut>, luts': seq<SpriteLut>, src: Texture?, n: int)
    requires 0 <= n <= |luts| <= |luts'| && luts'[..|luts|] == luts
    ensures FirstSameSource(luts', src, n) == FirstSameSource(luts, src, n)
    decreases n
  {
    if n > 0 {
      FirstSameSourcePrefix(luts, luts', src, n - 1);
      assert luts'[n - 1] == luts[n - 1];
    }
  }

  /** The search loop of the catalogue: the first lut with the same source texture. */
  method FindSameSource(luts: seq<SpriteLut>, src: Texture?) returns (j: int)
    ensures j == FirstSameSource(luts, src, |luts|)
  {
    j := 0;
    while j < |luts|
      invariant 0 <= j <= |luts|
      invariant forall k :: 0 <= k < j ==> luts[k].sourceTex != src
    {
      if luts[j].sourceTex == src {
        break;
      }
      j := j + 1;
    }
    FirstUnique(luts, src, j);
  }

  /** The first match is determined by being a match with none before it. */
  lemma FirstUnique(luts: seq<SpriteLut>, src: Texture?, j: int)
    requires 0 <= j <= |luts| && (j < |luts| ==> luts[j].sourceTex == src)
    requires forall k :: 0 <= k < j ==> luts[k].sourceTex != src
    ensures j == FirstSameSource(luts, src, |luts|)
  {
  }

  /** Every duplicate copies slot, texture and rectangle from the first earlier lut with its source texture. */
  ghost predicate CopiesFirst(luts: seq<SpriteLut>)
  {
    forall p :: 0 <= p < |luts| && luts[p].isDuplicate ==>
      var f := FirstSameSource(luts, luts[p].sourceTex, p);
      f < p && luts[p].atlasIndex == luts[f].atlasIndex && luts[p].tex == luts[f].tex && luts[p].rect == luts[f].rect
  }

  /** Under `CopiesFirst`, the first lut with a given source is never a duplicate. */
  lemma FirstIsOriginal(luts: seq<SpriteLut>, src: Texture?)
    requires CopiesFirst(luts)
    ensures var f := FirstSameSource(luts, src, |luts|);
            f < |luts| ==> !luts[f].isDuplicate
  {
    var f := FirstSameSource(luts, src, |luts|);
    if f < |luts| {
      var g := FirstSameSource(luts, src, f);
      assert g == f;
    }
  }

  /** Appending luts that are no duplicates keeps `CopiesFirst`. */
  lemma CopiesFirstExtend(luts: seq<SpriteLut>, luts': seq<SpriteLut>)
    requires CopiesFirst(luts) && |luts| <= |luts'| && luts'[..|luts|] == luts
    requires forall p :: |luts| <= p < |luts'| ==> !luts'[p].isDuplicate
    ensures CopiesFirst(luts')
  {
    forall p | 0 <= p < |luts'| && luts'[p].isDuplicate
      ensures var f := FirstSameSource(luts', luts'[p].sourceTex, p);
              f < p && luts'[p].atlasIndex == luts'[f].atlasIndex && luts'[p].tex == luts'[f].tex && luts'[p].rect == luts'[f].rect
    {
      assert luts'[p] == luts[p];
      FirstSameSourcePrefix(luts, luts', luts[p].sourceTex, p);
      var f := FirstSameSource(luts, luts[p].sourceTex, p);
      assert luts'[f] == luts[f];
    }
  }

  // ---------------------------------------------------------------------
  // One sprite
  // ---------------------------------------------------------------------

  /** What the catalogue keeps of every lut, whatever its kind. */
  ghost predicate Catalogued(l: SpriteLut, params: seq<TextureParam>, sourceTextures: seq<Texture?>, blank: Texture)
    requires |params| == |sourceTextures|
  {
    0 <= l.source < |params| && l.sourceTex == SourceOf(sourceTextures, blank, l.source)
    && l.isSplit == Diced(params, sourceTextures, l.source)
    && l.tex != null && l.tex.Valid() && l.hash == []
  }

  /**
   * `added` are the luts of the kept tiles `tiles`, in order, each with
   * the next slot from `num` on.
   */
  ghost predicate DiceLuts(added: seq<SpriteLut>, i: int, src: Texture, tiles: seq<Tile>, allowTrimming: bool, num: int)
  {
    |added| == |tiles|
    && forall k :: 0 <= k < |added| ==> DiceLutOf(added[k], i, src, tiles[k], allowTrimming) && added[k].atlasIndex == num + k
  }

  /** The luts of two runs of tiles join into the luts of the joined run. */
  lemma DiceLutsAppend(a: seq<SpriteLut>, b: seq<SpriteLut>, i: int, src: Texture, ta: seq<Tile>, tb: seq<Tile>,
                       allowTrimming: bool, num: int)
    requires src.Valid()
    requires DiceLuts(a, i, src, ta, allowTrimming, num) && DiceLuts(b, i, src, tb, allowTrimming, num + |a|)
    ensures DiceLuts(a + b, i, src, ta + tb, allowTrimming, num)
  {
    forall k | 0 <= k < |a + b|
      ensures DiceLutOf((a + b)[k], i, src, (ta + tb)[k], allowTrimming) && (a + b)[k].atlasIndex == num + k
    {
      if k < |a| {
        assert (a + b)[k] == a[k] && (ta + tb)[k] == ta[k];
      } else {
        assert (a + b)[k] == b[k - |a|] && (ta + tb)[k] == tb[k - |a|];
      }
    }
  }

  /** The column of tiles at `sx`, bottom to top: every kept tile becomes a lut with the next slot. */
  method DiceColumn(param: TextureParam, settingsDisableTrimming: bool, i: int, srcTex: Texture, ux: int, uy: int, sx: int,
                    num: int, padAmount: int)
    returns (added: seq<SpriteLut>, num': int)
    requires srcTex.Valid() && ux > 0 && uy > 0 && 0 <= sx < srcTex.width && padAmount >= 0
    ensures DiceLuts(added, i, srcTex, KeptTiles(KeptSet(param.diceFilter, AllowTrimming(settingsDisableTrimming, param), srcTex),
                                                 ColumnTiles(srcTex.width, srcTex.height, ux, uy, sx, 0)),
                     AllowTrimming(settingsDisableTrimming, param), num)
    ensures num' == num + |added|
  {
    var allowTrimming := AllowTrimming(settingsDisableTrimming, param);
    var w, h := srcTex.width, srcTex.height;
    ghost var keep := KeptSet(param.diceFilter, allowTrimming, srcTex);
    added, num' := [], num;
    ghost var done: seq<Tile> := [];
    ghost var all := KeptTiles(keep, ColumnTiles(w, h, ux, uy, sx, 0));
    var sy := 0;
    while sy < h
      invariant 0 <= sy
      invariant ColumnRest(keep, all, done, w, h, ux, uy, sx, sy)
      invariant DiceLuts(added, i, srcTex, done, allowTrimming, num) && num' == num + |added|
      decreases h - sy
    {
      added, num', done := DiceStep(param, settingsDisableTrimming, i, srcTex, ux, uy, sx, sy, padAmount, added, num, num', done, keep, all);
      sy := sy + uy;
    }
  }

  /** The kept tiles `all` of a column are those `done` below `sy` and the kept tiles from `sy` up. */
  ghost predicate ColumnRest(keep: iset<Tile>, all: seq<Tile>, done: seq<Tile>, w: int, h: int, ux: int, uy: int, sx: int, sy: int)
    requires ux > 0 && uy > 0 && sy >= 0
  {
    all == done + KeptTiles(keep, ColumnTiles(w, h, ux, uy, sx, sy))
  }

  /** One tile of a column: a kept tile's lut is appended with the next slot. */
  method DiceStep(param: TextureParam, settingsDisableTrimming: bool, i: int, srcTex: Texture, ux: int, uy: int, sx: int, sy: int,
                  padAmount: int, added: seq<SpriteLut>, num: int, next: int, ghost done: seq<Tile>, ghost keep: iset<Tile>,
                  ghost all: seq<Tile>)
    returns (added': seq<SpriteLut>, next': int, ghost done': seq<Tile>)
    requires srcTex.Valid() && ux > 0 && uy > 0 && 0 <= sx < srcTex.width && 0 <= sy < srcTex.height && padAmount >= 0
    requires ColumnRest(keep, all, done, srcTex.width, srcTex.height, ux, uy, sx, sy)
    requires keep == KeptSet(param.diceFilter, AllowTrimming(settingsDisableTrimming, param), srcTex)
    requires DiceLuts(added, i, srcTex, done, AllowTrimming(settingsDisableTrimming, param), num) && next == num + |added|
    ensures DiceLuts(added', i, srcTex, done', AllowTrimming(settingsDisableTrimming, param), num) && next' == num + |added'|
    ensures ColumnRest(keep, all, done', srcTex.width, srcTex.height, ux, uy, sx, sy + uy)
  {
    var t := Tile(sx, sy, Min(ux, srcTex.width - sx), Min(uy, srcTex.height - sy));
    var kept, lut := DiceTile(param, settingsDisableTrimming, i, srcTex, t, padAmount);
    ColumnUnfold(keep, srcTex.width, srcTex.height, ux, uy, sx, sy, done);
    added', next', done' := added, next, done;
    if kept {
      lut := lut.(atlasIndex := next);
      DiceLutsAppend(added, [lut], i, srcTex, done, [t], AllowTrimming(settingsDisableTrimming, param), num);
      added', next', done' := added + [lut], next + 1, done + [t];
    }
  }

  /** One step up the column: the tile at `sy` is kept or not, and the rest of the column follows. */
  lemma ColumnUnfold(keep: iset<Tile>, w: int, h: int, ux: int, uy: int, sx: int, sy: int, done: seq<Tile>)
    requires ux > 0 && uy > 0 && 0 <= sy < h
    ensures var t := Tile(sx, sy, Min(ux, w - sx), Min(uy, h - sy));
            done + KeptTiles(keep, ColumnTiles(w, h, ux, uy, sx, sy))
            == (if t in keep then done + [t] else done) + KeptTiles(keep, ColumnTiles(w, h, ux, uy, sx, sy + uy))
  {
    var t := Tile(sx, sy, Min(ux, w - sx), Min(uy, h - sy));
    var tail := ColumnTiles(w, h, ux, uy, sx, sy + uy);
    assert ColumnTiles(w, h, ux, uy, sx, sy) == [t] + tail;
    KeptTilesAppend(keep, [t], tail);
    assert KeptTiles(keep, [t]) == if t in keep then [t] else [];
  }

  /** One column to the right: the kept tiles of the column at `sx`, then those of the columns after it. */
  lemma TilesUnfold(keep: iset<Tile>, w: int, h: int, ux: int, uy: int, sx: int, done: seq<Tile>)
    requires ux > 0 && uy > 0 && 0 <= sx < w
    ensures done + KeptTiles(keep, TilesFrom(w, h, ux, uy, sx))
            == (done + KeptTiles(keep, ColumnTiles(w, h, ux, uy, sx, 0))) + KeptTiles(keep, TilesFrom(w, h, ux, uy, sx + ux))
  {
    var tiles := ColumnTiles(w, h, ux, uy, sx, 0);
    var rest := TilesFrom(w, h, ux, uy, sx + ux);
    assert TilesFrom(w, h, ux, uy, sx) == tiles + rest;
    KeptTilesAppend(keep, tiles, rest);
  }

  /**
   * A diced sprite: the columns of the dice grid left to right. The new
   * luts are exactly the kept tiles of `Tiles`, in the loop's order, each
   * with the next slot.
   */
  method DiceSource(param: TextureParam, settingsDisableTrimming: bool, i: int, srcTex: Texture, num: int, padAmount: int)
    returns (added: seq<SpriteLut>, num': int)
    requires srcTex.Valid() && padAmount >= 0
    ensures DiceLuts(added, i, srcTex, KeptTiles(KeptSet(param.diceFilter, AllowTrimming(settingsDisableTrimming, param), srcTex),
                                                 Tiles(srcTex.width, srcTex.height, param.diceUnitX, param.diceUnitY)),
                     AllowTrimming(settingsDisableTrimming, param), num)
    ensures num' == num + |added|
  {
    var allowTrimming := AllowTrimming(settingsDisableTrimming, param);
    var w, h := srcTex.width, srcTex.height;
    var ux := DiceUnit(param.diceUnitX, w);
    var uy := DiceUnit(param.diceUnitY, h);
    ghost var keep := KeptSet(param.diceFilter, allowTrimming, srcTex);
    added, num' := [], num;
    ghost var done: seq<Tile> := [];
    ghost var all := KeptTiles(keep, TilesFrom(w, h, ux, uy, 0));
    var sx := 0;
    while sx < w
      invariant 0 <= sx
      invariant GridRest(keep, all, done, w, h, ux, uy, sx)
      invariant DiceLuts(added, i, srcTex, done, allowTrimming, num) && num' == num + |added|
      decreases w - sx
    {
      added, num', done := AppendColumn(param, settingsDisableTrimming, i, srcTex, ux, uy, sx, padAmount, added, num, num', done, keep, all);
      sx := sx + ux;
    }
  }

  /** The kept tiles `all` of the grid are those `done` left of `sx` and the kept tiles from `sx` on. */
  ghost predicate GridRest(keep: iset<Tile>, all: seq<Tile>, done: seq<Tile>, w: int, h: int, ux: int, uy: int, sx: int)
    requires ux > 0 && uy > 0 && sx >= 0
  {
    all == done + KeptTiles(keep, TilesFrom(w, h, ux, uy, sx))
  }

  /** One column of a diced sprite: its kept tiles' luts follow those of the columns before it. */
  method AppendColumn(param: TextureParam, settingsDisableTrimming: bool, i: int, srcTex: Texture, ux: int, uy: int, sx: int,
                      padAmount: int, added: seq<SpriteLut>, num: int, next: int, ghost done: seq<Tile>, ghost keep: iset<Tile>,
                      ghost all: seq<Tile>)
    returns (added': seq<SpriteLut>, next': int, ghost done': seq<Tile>)
    requires srcTex.Valid() && ux > 0 && uy > 0 && 0 <= sx < srcTex.width && padAmount >= 0
    requires GridRest(keep, all, done, srcTex.width, srcTex.height, ux, uy, sx)
    requires keep == KeptSet(param.diceFilter, AllowTrimming(settingsDisableTrimming, param), srcTex)
    requires DiceLuts(added, i, srcTex, done, AllowTrimming(settingsDisableTrimming, param), num) && next == num + |added|
    ensures DiceLuts(added', i, srcTex, done', AllowTrimming(settingsDisableTrimming, param), num) && next' == num + |added'|
    ensures GridRest(keep, all, done', srcTex.width, srcTex.height, ux, uy, sx + ux)
  {
    var more;
    more, next' := DiceColumn(param, settingsDisableTrimming, i, srcTex, ux, uy, sx, next, padAmount);
    ghost var column := KeptTiles(keep, ColumnTiles(srcTex.width, srcTex.height, ux, uy, sx, 0));
    TilesUnfold(keep, srcTex.width, srcTex.height, ux, uy, sx, done);
    DiceLutsAppend(added, more, i, srcTex, done, column, AllowTrimming(settingsDisableTrimming, param), num);
    added', done' := added + more, done + column;
  }

  /**
   * What a lut of an undiced sprite records: a duplicate copies the first
   * earlier lut with the same source; otherwise it takes the next slot and
   * the whole texture, the tight box of its visible pixels when trimming,
   * or, when trimming finds nothing visible, a clear 1 by 1 texture over
   * the centre pixel.
   */
  ghost predicate WholeLutOf(l: SpriteLut, luts: seq<SpriteLut>, num: int, i: int, src: Texture, allowTrimming: bool)
    requires src.Valid()
    reads src.data, if l.tex != null then {l.tex.data} else {}
  {
    var j := FirstSameSource(luts, src, |luts|);
    l.source == i && l.sourceTex == src && !l.isSplit && l.hash == [] && l.tex != null && l.tex.Valid()
    && (l.isDuplicate <==> j < |luts|)
    && (j < |luts| ==> l.atlasIndex == luts[j].atlasIndex && l.tex == luts[j].tex && l.rect == luts[j].rect)
    && (j == |luts| ==>
          l.atlasIndex == num
          && (!allowTrimming ==> l.rect == LutRect(0, 0, src.width, src.height))
          && (allowTrimming && AnyVisible(src, 0, 0, src.width, src.height) ==>
                TrimmedRect(src, 0, 0, src.width, src.height, l.rect))
          && (allowTrimming && !AnyVisible(src, 0, 0, src.width, src.height) ==>
                l.rect == LutRect(src.width / 2, src.height / 2, 1, 1) && AllClear(l.tex)))
  }

  /**
   * An undiced sprite: a duplicate of the first lut with the same source
   * texture, or a new lut processed from the whole texture, with the clear
   * fallback when trimming leaves nothing.
   */
  method WholeSource(param: TextureParam, settingsDisableTrimming: bool, i: int, srcTex: Texture,
                     luts: seq<SpriteLut>, num: int, padAmount: int)
    returns (lut: SpriteLut, num': int)
    requires srcTex.Valid() && padAmount >= 0
    requires forall p :: 0 <= p < |luts| ==> luts[p].tex != null && luts[p].tex.Valid()
    ensures WholeLutOf(lut, luts, num, i, srcTex, AllowTrimming(settingsDisableTrimming, param))
    ensures num' == if lut.isDuplicate then num else num + 1
    ensures !lut.isDuplicate && AllowTrimming(settingsDisableTrimming, param) && !AnyVisible(srcTex, 0, 0, srcTex.width, srcTex.height)
            ==> fresh(lut.tex)
    ensures !lut.isDuplicate && (!AllowTrimming(settingsDisableTrimming, param) || AnyVisible(srcTex, 0, 0, srcTex.width, srcTex.height))
            ==> fresh(lut.tex) && PaddedFrom(lut.tex, srcTex, lut.rect, padAmount, param.pad, false)
  {
    var j := FindSameSource(luts, srcTex);
    if j < |luts| {
      lut := SpriteLut(i, srcTex, luts[j].tex, false, luts[j].rect, true, luts[j].atlasIndex, []);
      return lut, num;
    }
    lut := SpriteLut(i, srcTex, null, false, LutRect(0, 0, 0, 0), false, num, []);
    num' := num + 1;
    var dest, rect := ProcessTexture(settingsDisableTrimming, param.disableTrimming, param.pad, false,
                                     srcTex, 0, 0, srcTex.width, srcTex.height, lut.rect, padAmount);
    if dest != null {
      lut := lut.(tex := dest, rect := rect);
    } else {
      var blankTex := new Texture(1, 1);
      blankTex.SetPixel(0, 0, Clear);
      PadTexture(blankTex, padAmount, param.pad);
      lut := lut.(tex := blankTex, rect := LutRect(srcTex.width / 2, srcTex.height / 2, 1, 1));
    }
  }

  /** Appending an undiced sprite's lut keeps `CopiesFirst`: a duplicate copies the first lut with its source. */
  lemma CopiesFirstAppend(luts: seq<SpriteLut>, l: SpriteLut)
    requires CopiesFirst(luts)
    requires l.isDuplicate ==>
               var f := FirstSameSource(luts, l.sourceTex, |luts|);
               f < |luts| && l.atlasIndex == luts[f].atlasIndex && l.tex == luts[f].tex && l.rect == luts[f].rect
    ensures CopiesFirst(luts + [l])
  {
    var luts' := luts + [l];
    assert luts'[..|luts|] == luts;
    forall p | 0 <= p < |luts'| && luts'[p].isDuplicate
      ensures var f := FirstSameSource(luts', luts'[p].sourceTex, p);
              f < p && luts'[p].atlasIndex == luts'[f].atlasIndex && luts'[p].tex == luts'[f].tex && luts'[p].rect == luts'[f].rect
    {
      var src := luts'[p].sourceTex;
      FirstSameSourcePrefix(luts, luts', src, p);
      var f := FirstSameSource(luts, src, p);
      assert luts'[f] == luts[f];
    }
  }

  // ---------------------------------------------------------------------
  // The catalogue loop
  // ---------------------------------------------------------------------

  /**
   * The luts `added` that sprite `i` contributes after the luts `before`,
   * numbered on from the originals of `before`: a diced sprite's are the
   * luts of its kept tiles in the loop's order; any other sprite's is one
   * lut, a copy of the first earlier lut with its source or processed from
   * the whole texture, padded in the sprite's mode when not the clear
   * fallback.
   */
  ghost predicate SpriteEntries(params: seq<TextureParam>, sourceTextures: seq<Texture?>, blank: Texture,
                                settingsDisableTrimming: bool, padSettings: PadSettings, i: int,
                                before: seq<SpriteLut>, added: seq<SpriteLut>)
    requires |params| == |sourceTextures| == |padSettings.extraPadding| && 0 <= i < |params|
    requires SourceOf(sourceTextures, blank, i).Valid()
    reads SourceOf(sourceTextures, blank, i).data, set l | l in added && l.tex != null :: l.tex.data
  {
    var src, param := SourceOf(sourceTextures, blank, i), params[i];
    var allowTrimming, num := AllowTrimming(settingsDisableTrimming, param), NonDupsBefore(before, |before|);
    if Diced(params, sourceTextures, i) then
      DiceLuts(added, i, src, KeptTiles(KeptSet(param.diceFilter, allowTrimming, src),
                                        Tiles(src.width, src.height, param.diceUnitX, param.diceUnitY)), allowTrimming, num)
    else
      |added| == 1 && WholeLutOf(added[0], before, num, i, src, allowTrimming)
      && (!added[0].isDuplicate && (!allowTrimming || AnyVisible(src, 0, 0, src.width, src.height))
          ==> PaddedFrom(added[0].tex, src, added[0].rect, GetPadAmount(padSettings, i), param.pad, false))
  }

  /**
   * Sprite `i` of the catalogue loop: a diced sprite adds the luts of its
   * kept tiles, any other sprite exactly one lut, processed or duplicated,
   * as `SpriteEntries` states. The lut list keeps its invariant.
   */
  method CatalogueSprite(params: seq<TextureParam>, sourceTextures: seq<Texture?>, blank: Texture,
                         settingsDisableTrimming: bool, padSettings: PadSettings, i: int,
                         luts: seq<SpriteLut>, num: int)
    returns (luts': seq<SpriteLut>, num': int)
    requires |sourceTextures| == |params| == |padSettings.extraPadding| && 0 <= i < |params|
    requires SourceOf(sourceTextures, blank, i).Valid()
    requires Resolved(luts, num, false) && CopiesFirst(luts)
    requires forall p :: 0 <= p < |luts| ==> luts[p].tex != null && luts[p].tex.Valid()
    ensures |luts| <= |luts'| && luts'[..|luts|] == luts
    ensures forall p :: |luts| <= p < |luts'| ==> luts'[p].source == i && Catalogued(luts'[p], params, sourceTextures, blank)
    ensures !Diced(params, sourceTextures, i) ==> |luts'| == |luts| + 1
    ensures SpriteEntries(params, sourceTextures, blank, settingsDisableTrimming, padSettings, i, luts, luts'[|luts|..])
    ensures Resolved(luts', num', false) && CopiesFirst(luts')
  {
    var srcTex := SourceOf(sourceTextures, blank, i);
    var param := params[i];
    var padAmount := GetPadAmount(padSettings, i);
    if Diced(params, sourceTextures, i) {
      var added;
      added, num' := DiceSource(param, settingsDisableTrimming, i, srcTex, num, padAmount);
      AppendFresh(luts, num, false, added);
      CopiesFirstExtend(luts, luts + added);
      luts' := luts + added;
      assert luts'[..|luts|] == luts;
      assert luts'[|luts|..] == added;
      forall p | |luts| <= p < |luts'|
        ensures luts'[p].source == i && Catalogued(luts'[p], params, sourceTextures, blank)
      {
        assert luts'[p] == added[p - |luts|];
      }
    } else {
      var lut;
      lut, num' := WholeSource(param, settingsDisableTrimming, i, srcTex, luts, num, padAmount);
      var f := FirstSameSource(luts, srcTex, |luts|);
      FirstIsOriginal(luts, srcTex);
      AppendDense(luts, num, lut);
      AppendLinked(luts, false, lut, f);
      CopiesFirstAppend(luts, lut);
      luts' := luts + [lut];
      assert luts'[..|luts|] == luts;
      assert luts'[|luts|..] == [lut];
    }
  }

  /**
   * The catalogue loop of `Rebuild`: every sprite in order. The lut list
   * keeps its invariant (dense slots, every duplicate linked to an earlier
   * original with the same texture, copied from the first lut with its
   * source); the luts run through the sprites in order; a sprite has more
   * than one lut only when diced; and every undiced sprite has its lut.
   * Sprite `i`'s luts are those from `starts[i]` to `starts[i + 1]`, and
   * they are its `SpriteEntries` after the luts before them.
   */
  method Catalogue(params: seq<TextureParam>, sourceTextures: seq<Texture?>, blank: Texture,
                   settingsDisableTrimming: bool, padSettings: PadSettings)
    returns (luts: seq<SpriteLut>, num: int, ghost starts: seq<int>)
    requires |sourceTextures| == |params| == |padSettings.extraPadding|
    requires blank.Valid()
    requires forall i :: 0 <= i < |sourceTextures| && sourceTextures[i] != null ==> sourceTextures[i].Valid()
    ensures Resolved(luts, num, false) && CopiesFirst(luts)
    ensures forall p :: 0 <= p < |luts| ==> Catalogued(luts[p], params, sourceTextures, blank)
    ensures forall p, q :: 0 <= p < q < |luts| ==> luts[p].source <= luts[q].source
    ensures forall p, q :: 0 <= p < |luts| && 0 <= q < |luts| && p != q && luts[p].source == luts[q].source ==> luts[p].isSplit
    ensures forall i :: 0 <= i < |params| && !Diced(params, sourceTextures, i) ==>
              exists p :: 0 <= p < |luts| && luts[p].source == i
    ensures Runs(params, sourceTextures, blank, settingsDisableTrimming, padSettings, luts, starts, |params|)
  {
    luts, num, starts := [], 0, [0];
    for i := 0 to |params|
      invariant Runs(params, sourceTextures, blank, settingsDisableTrimming, padSettings, luts, starts, i)
      invariant Resolved(luts, num, false) && CopiesFirst(luts)
      invariant forall p :: 0 <= p < |luts| ==> Catalogued(luts[p], params, sourceTextures, blank) && luts[p].source < i
      invariant forall p, q :: 0 <= p < q < |luts| ==> luts[p].source <= luts[q].source
      invariant forall p, q :: 0 <= p < |luts| && 0 <= q < |luts| && p != q && luts[p].source == luts[q].source ==> luts[p].isSplit
      invariant forall i' :: 0 <= i' < i && !Diced(params, sourceTextures, i') ==> exists p :: 0 <= p < |luts| && luts[p].source == i'
    {
      luts, num, starts := CatalogueNext(params, sourceTextures, blank, settingsDisableTrimming, padSettings, i, luts, num, starts);
    }
  }

  /** One turn of the catalogue loop: sprite `i`'s luts join the list and the loop's invariant moves on to `i + 1`. */
  method CatalogueNext(params: seq<TextureParam>, sourceTextures: seq<Texture?>, blank: Texture,
                       settingsDisableTrimming: bool, padSettings: PadSettings, i: int,
                       luts: seq<SpriteLut>, num: int, ghost starts: seq<int>)
    returns (luts': seq<SpriteLut>, num': int, ghost starts': seq<int>)
    requires |sourceTextures| == |params| == |padSettings.extraPadding| && 0 <= i < |params|
    requires forall i :: 0 <= i < |params| ==> SourceOf(sourceTextures, blank, i).Valid()
    requires Runs(params, sourceTextures, blank, settingsDisableTrimming, padSettings, luts, starts, i)
    requires Resolved(luts, num, false) && CopiesFirst(luts)
    requires forall p :: 0 <= p < |luts| ==> Catalogued(luts[p], params, sourceTextures, blank) && luts[p].source < i
    requires forall p, q :: 0 <= p < q < |luts| ==> luts[p].source <= luts[q].source
    requires forall p, q :: 0 <= p < |luts| && 0 <= q < |luts| && p != q && luts[p].source == luts[q].source ==> luts[p].isSplit
    requires forall i' :: 0 <= i' < i && !Diced(params, sourceTextures, i') ==> exists p :: 0 <= p < |luts| && luts[p].source == i'
    ensures Runs(params, sourceTextures, blank, settingsDisableTrimming, padSettings, luts', starts', i + 1)
    ensures Resolved(luts', num', false) && CopiesFirst(luts')
    ensures forall p :: 0 <= p < |luts'| ==> Catalogued(luts'[p], params, sourceTextures, blank) && luts'[p].source < i + 1
    ensures forall p, q :: 0 <= p < q < |luts'| ==> luts'[p].source <= luts'[q].source
    ensures forall p, q :: 0 <= p < |luts'| && 0 <= q < |luts'| && p != q && luts'[p].source == luts'[q].source ==> luts'[p].isSplit
    ensures forall i' :: 0 <= i' < i + 1 && !Diced(params, sourceTextures, i') ==> exists p :: 0 <= p < |luts'| && luts'[p].source == i'
  {
    luts', num', starts' := CatalogueRun(params, sourceTextures, blank, settingsDisableTrimming, padSettings, i, luts, num, starts);
    CatalogueStep(params, sourceTextures, blank, i, luts, luts');
  }

  /** Sprite `i`'s luts join the list as the next run. */
  method CatalogueRun(params: seq<TextureParam>, sourceTextures: seq<Texture?>, blank: Texture,
                      settingsDisableTrimming: bool, padSettings: PadSettings, i: int,
                      luts: seq<SpriteLut>, num: int, ghost starts: seq<int>)
    returns (luts': seq<SpriteLut>, num': int, ghost starts': seq<int>)
    requires |sourceTextures| == |params| == |padSettings.extraPadding| && 0 <= i < |params|
    requires forall i :: 0 <= i < |params| ==> SourceOf(sourceTextures, blank, i).Valid()
    requires Runs(params, sourceTextures, blank, settingsDisableTrimming, padSettings, luts, starts, i)
    requires Resolved(luts, num, false) && CopiesFirst(luts)
    requires forall p :: 0 <= p < |luts| ==> luts[p].tex != null && luts[p].tex.Valid()
    ensures Runs(params, sourceTextures, blank, settingsDisableTrimming, padSettings, luts', starts', i + 1)
    ensures |luts| <= |luts'| && luts'[..|luts|] == luts
    ensures forall p :: |luts| <= p < |luts'| ==> luts'[p].source == i && Catalogued(luts'[p], params, sourceTextures, blank)
    ensures !Diced(params, sourceTextures, i) ==> |luts'| == |luts| + 1
    ensures Resolved(luts', num', false) && CopiesFirst(luts')
  {
    luts', num' := CatalogueSprite(params, sourceTextures, blank, settingsDisableTrimming, padSettings, i, luts, num);
    RunsExtend(params, sourceTextures, blank, settingsDisableTrimming, padSettings, luts, luts', starts, i);
    starts' := starts + [|luts'|];
  }

  /** Sprite `i`'s luts run from `starts[i]` to `starts[i + 1]`, for the first `n` sprites. */
  ghost predicate Runs(params: seq<TextureParam>, sourceTextures: seq<Texture?>, blank: Texture,
                       settingsDisableTrimming: bool, padSettings: PadSettings,
                       luts: seq<SpriteLut>, starts: seq<int>, n: int)
    requires |params| == |sourceTextures| == |padSettings.extraPadding| && 0 <= n <= |params|
    requires forall i :: 0 <= i < |params| ==> SourceOf(sourceTextures, blank, i).Valid()
    reads set i | 0 <= i < n :: SourceOf(sourceTextures, blank, i).data
    reads set l | l in luts && l.tex != null :: l.tex.data
  {
    Starts(starts, n, |luts|)
    && forall i :: 0 <= i < n ==>
         SpriteEntries(params, sourceTextures, blank, settingsDisableTrimming, padSettings, i,
                       luts[..starts[i]], luts[starts[i]..starts[i + 1]])
  }

  /** A slice within the prefix `a` of `b` is the same slice of `a`. */
  lemma SliceOfPrefix(a: seq<SpriteLut>, b: seq<SpriteLut>, lo: int, hi: int)
    requires |a| <= |b| && b[..|a|] == a && 0 <= lo <= hi <= |a|
    ensures b[lo..hi] == a[lo..hi]
  {
    forall k | lo <= k < hi ensures b[k] == a[k] {
      assert b[..|a|][k] == b[k];
    }
  }

  /** One more sprite's luts extend the runs. */
  lemma RunsExtend(params: seq<TextureParam>, sourceTextures: seq<Texture?>, blank: Texture,
                   settingsDisableTrimming: bool, padSettings: PadSettings,
                   luts: seq<SpriteLut>, luts': seq<SpriteLut>, starts: seq<int>, n: int)
    requires |params| == |sourceTextures| == |padSettings.extraPadding| && 0 <= n < |params|
    requires forall i :: 0 <= i < |params| ==> SourceOf(sourceTextures, blank, i).Valid()
    requires Runs(params, sourceTextures, blank, settingsDisableTrimming, padSettings, luts, starts, n)
    requires |luts| <= |luts'| && luts'[..|luts|] == luts
    requires SpriteEntries(params, sourceTextures, blank, settingsDisableTrimming, padSettings, n, luts, luts'[|luts|..])
    ensures Runs(params, sourceTextures, blank, settingsDisableTrimming, padSettings, luts', starts + [|luts'|], n + 1)
  {
    var starts' := starts + [|luts'|];
    forall i | 0 <= i < n + 1
      ensures SpriteEntries(params, sourceTextures, blank, settingsDisableTrimming, padSettings, i,
                            luts'[..starts'[i]], luts'[starts'[i]..starts'[i + 1]])
    {
      if i < n {
        assert starts'[i] == starts[i] && starts'[i + 1] == starts[i + 1];
        SliceOfPrefix(luts, luts', 0, starts[i]);
        SliceOfPrefix(luts, luts', starts[i], starts[i + 1]);
      } else {
        assert luts'[..starts'[i]] == luts;
      }
    }
  }

  /** `starts` runs from 0 up to `total` over `n` steps, never going down. */
  predicate Starts(starts: seq<int>, n: int, total: int)
  {
    0 <= n && |starts| == n + 1 && starts[0] == 0 && starts[n] == total
    && (forall k :: 0 <= k <= n ==> 0 <= starts[k] <= total)
    && forall j, k :: 0 <= j <= k <= n ==> starts[j] <= starts[k]
  }

  /** The order, uniqueness and coverage facts survive one sprite's luts. */
  lemma CatalogueStep(params: seq<TextureParam>, sourceTextures: seq<Texture?>, blank: Texture, i: int,
                      luts: seq<SpriteLut>, luts': seq<SpriteLut>)
    requires |sourceTextures| == |params| && 0 <= i < |params|
    requires forall p :: 0 <= p < |luts| ==> Catalogued(luts[p], params, sourceTextures, blank) && luts[p].source < i
    requires forall p, q :: 0 <= p < q < |luts| ==> luts[p].source <= luts[q].source
    requires forall p, q :: 0 <= p < |luts| && 0 <= q < |luts| && p != q && luts[p].source == luts[q].source ==> luts[p].isSplit
    requires forall i' :: 0 <= i' < i && !Diced(params, sourceTextures, i') ==> exists p :: 0 <= p < |luts| && luts[p].source == i'
    requires |luts| <= |luts'| && luts'[..|luts|] == luts
    requires forall p :: |luts| <= p < |luts'| ==> luts'[p].source == i && Catalogued(luts'[p], params, sourceTextures, blank)
    requires !Diced(params, sourceTextures, i) ==> |luts'| == |luts| + 1
    ensures forall p :: 0 <= p < |luts'| ==> Catalogued(luts'[p], params, sourceTextures, blank) && luts'[p].source < i + 1
    ensures forall p, q :: 0 <= p < q < |luts'| ==> luts'[p].source <= luts'[q].source
    ensures forall p, q :: 0 <= p < |luts'| && 0 <= q < |luts'| && p != q && luts'[p].source == luts'[q].source ==> luts'[p].isSplit
    ensures forall i' :: 0 <= i' < i + 1 && !Diced(params, sourceTextures, i') ==> exists p :: 0 <= p < |luts'| && luts'[p].source == i'
  {
    assert forall p :: 0 <= p < |luts| ==> luts'[p] == luts[p];
    forall i' | 0 <= i' < i + 1 && !Diced(params, sourceTextures, i')
      ensures exists p :: 0 <= p < |luts'| && luts'[p].source == i'
    {
      if i' < i {
        var p :| 0 <= p < |luts| && luts[p].source == i';
        assert luts'[p].source == i';
      } else {
        assert luts'[|luts|].source == i';
      }
    }
    forall p, q | 0 <= p < |luts'| && 0 <= q < |luts'| && p != q && luts'[p].source == luts'[q].source
      ensures luts'[p].isSplit
    {
      if |luts| <= p && |luts| <= q {
        assert Diced(params, sourceTextures, i);
      }
    }
  }
}
