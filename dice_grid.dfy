// The dice grid of the sprite-collection build: a diced texture is cut
// into tiles of one dice unit, column by column, each column bottom to
// top, the last tile of a row or column cut short at the texture's edge.

module DiceGrid {
  import opened Pixels

  /** A tile: corner (sx, sy) and size tw by th. */
  datatype Tile = Tile(sx: int, sy: int, tw: int, th: int)

  /** The dice unit along a side: a unit of zero or less means the whole side. */
  function DiceUnit(unit: int, side: int): int
  {
    if unit <= 0 then side else unit
  }

  /** The tiles of column `sx`, rows `sy` upwards, of a `w` by `h` texture. */
  function ColumnTiles(w: int, h: int, ux: int, uy: int, sx: int, sy: int): seq<Tile>
    requires ux > 0 && uy > 0
    decreases h - sy
  {
    if sy >= h then []
    else [Tile(sx, sy, Min(ux, w - sx), Min(uy, h - sy))] + ColumnTiles(w, h, ux, uy, sx, sy + uy)
  }

  /** The tiles of the columns from `sx` rightwards. */
  function TilesFrom(w: int, h: int, ux: int, uy: int, sx: int): seq<Tile>
    requires ux > 0 && uy > 0
    decreases w - sx
  {
    if sx >= w then []
    else ColumnTiles(w, h, ux, uy, sx, 0) + TilesFrom(w, h, ux, uy, sx + ux)
  }

  /** The tiles the dice loop of `Rebuild` visits, in its order. */
  function Tiles(w: int, h: int, diceUnitX: int, diceUnitY: int): seq<Tile>
    requires w > 0 && h > 0
  {
    TilesFrom(w, h, DiceUnit(diceUnitX, w), DiceUnit(diceUnitY, h), 0)
  }

  /**
   * The grid line at or below `x >= 0` when lines are `u` apart from 0,
   * that is `x - x % u`, counted out in whole units.
   */
  function Corner(x: int, u: int): (c: int)
    requires x >= 0 && u > 0
    ensures 0 <= c <= x < c + u
    decreases x
  {
    if x < u then 0 else u + Corner(x - u, u)
  }

  /** `v` lies on a grid line `u` apart from 0. */
  predicate OnLine(v: int, u: int)
    requires u > 0
  {
    v >= 0 && Corner(v, u) == v
  }

  /** Tile `t` sits on the grid of a `w` by `h` texture cut in `ux` by `uy` units. */
  predicate OnGrid(w: int, h: int, ux: int, uy: int, t: Tile)
    requires ux > 0 && uy > 0
  {
    0 <= t.sx < w && 0 <= t.sy < h && OnLine(t.sx, ux) && OnLine(t.sy, uy)
    && t.tw == Min(ux, w - t.sx) && t.th == Min(uy, h - t.sy)
  }

  /** Pixel (x, y) lies in tile `t`. */
  predicate Holds(t: Tile, x: int, y: int)
  {
    t.sx <= x < t.sx + t.tw && t.sy <= y < t.sy + t.th
  }

  /** Moving up from a grid line by `d` moves the corner by the same line. */
  lemma {:induction false} CornerAdd(s: int, d: int, u: int)
    requires u > 0 && OnLine(s, u) && d >= 0
    ensures Corner(s + d, u) == s + Corner(d, u)
    decreases s
  {
    if s > 0 {
      assert s >= u;
      CornerAdd(s - u, d, u);
    }
  }

  /** A corner is on a grid line. */
  lemma {:induction false} CornerOnLine(x: int, u: int)
    requires x >= 0 && u > 0
    ensures OnLine(Corner(x, u), u)
    decreases x
  {
    if x >= u {
      CornerOnLine(x - u, u);
      CornerAdd(u, Corner(x - u, u), u);
    }
  }

  /** The line after a grid line is a grid line, and nothing in between is. */
  lemma NextLine(v: int, s: int, u: int)
    requires u > 0 && OnLine(s, u) && s <= v
    ensures OnLine(s + u, u)
    ensures OnLine(v, u) <==> v == s || (s + u <= v && OnLine(v, u))
  {
    CornerAdd(s, u, u);
    CornerAdd(s, v - s, u);
  }

  /** A column holds exactly the grid tiles of its column from row `s` upwards. */
  lemma {:induction false} ColumnTilesMembers(w: int, h: int, ux: int, uy: int, sx: int, s: int, t: Tile)
    requires ux > 0 && uy > 0 && OnLine(s, uy)
    ensures t in ColumnTiles(w, h, ux, uy, sx, s) <==>
              t.sx == sx && s <= t.sy < h && OnLine(t.sy, uy) && t.tw == Min(ux, w - sx) && t.th == Min(uy, h - t.sy)
    decreases h - s
  {
    if s < h {
      NextLine(s, s, uy);
      ColumnTilesMembers(w, h, ux, uy, sx, s + uy, t);
      if s <= t.sy {
        NextLine(t.sy, s, uy);
      }
    }
  }

  /** The columns from `s` onwards hold exactly the grid tiles whose column is `s` or later. */
  lemma {:induction false} TilesFromMembers(w: int, h: int, ux: int, uy: int, s: int, t: Tile)
    requires ux > 0 && uy > 0 && OnLine(s, ux)
    ensures t in TilesFrom(w, h, ux, uy, s) <==> OnGrid(w, h, ux, uy, t) && s <= t.sx
    decreases w - s
  {
    if s < w {
      NextLine(s, s, ux);
      assert OnLine(0, uy);
      ColumnTilesMembers(w, h, ux, uy, s, 0, t);
      TilesFromMembers(w, h, ux, uy, s + ux, t);
      if s <= t.sx {
        NextLine(t.sx, s, ux);
      }
    }
  }

  /** A tile is visited exactly when it is a grid tile: inside the texture, on the unit grid, cut at the edge. */
  lemma TilesMembers(w: int, h: int, diceUnitX: int, diceUnitY: int, t: Tile)
    requires w > 0 && h > 0
    ensures t in Tiles(w, h, diceUnitX, diceUnitY) <==> OnGrid(w, h, DiceUnit(diceUnitX, w), DiceUnit(diceUnitY, h), t)
  {
    assert OnLine(0, DiceUnit(diceUnitX, w));
    TilesFromMembers(w, h, DiceUnit(diceUnitX, w), DiceUnit(diceUnitY, h), 0, t);
  }

  /** The only grid line within one unit below `x` is its corner. */
  lemma GridCorner(a: int, x: int, u: int)
    requires u > 0 && OnLine(a, u) && a <= x < a + u
    ensures a == Corner(x, u)
  {
    CornerAdd(a, x - a, u);
  }

  /**
   * The tiles partition the texture: every pixel lies in the tile at its
   * grid corner, that tile is visited, and no other visited tile holds it.
   */
  lemma TilesPartition(w: int, h: int, diceUnitX: int, diceUnitY: int, x: int, y: int)
    requires w > 0 && h > 0 && 0 <= x < w && 0 <= y < h
    ensures var ux, uy := DiceUnit(diceUnitX, w), DiceUnit(diceUnitY, h);
            var t := Tile(Corner(x, ux), Corner(y, uy), Min(ux, w - Corner(x, ux)), Min(uy, h - Corner(y, uy)));
            t in Tiles(w, h, diceUnitX, diceUnitY) && Holds(t, x, y)
            && forall t' :: t' in Tiles(w, h, diceUnitX, diceUnitY) && Holds(t', x, y) ==> t' == t
  {
    var ux, uy := DiceUnit(diceUnitX, w), DiceUnit(diceUnitY, h);
    var t := Tile(Corner(x, ux), Corner(y, uy), Min(ux, w - Corner(x, ux)), Min(uy, h - Corner(y, uy)));
    CornerOnLine(x, ux);
    CornerOnLine(y, uy);
    TilesMembers(w, h, diceUnitX, diceUnitY, t);
    forall t' | t' in Tiles(w, h, diceUnitX, diceUnitY) && Holds(t', x, y)
      ensures t' == t
    {
      TilesMembers(w, h, diceUnitX, diceUnitY, t');
      GridCorner(t'.sx, x, ux);
      GridCorner(t'.sy, y, uy);
    }
  }
}
