// Padding of the sprite-collection build (tk2dSpriteCollectionBuilder.cs):
// how wide the border around each sprite is, how `PadTexture` fills that
// border in place, and the solidity test the dicer's filters use.

module SpritePad {
  import opened Pixels

  /** `tk2dSpriteCollectionDefinition.Pad`. */
  datatype Pad = Default | BlackZeroAlpha | Extend | TileX | TileY | TileXY

  /** The pad settings `GetPadAmount` reads from the collection and from each sprite's parameters. */
  datatype PadSettings = PadSettings(padAmount: int, pointFiltering: bool, extraPadding: seq<int>)

  /** `defaultPad`: the border used when the collection asks for the default (-1) and does not filter by point. */
  const DefaultPad: int := 2

  /** The collection-wide part of `GetPadAmount`: -1 picks 0 under point filtering and `DefaultPad` otherwise. */
  function BasePad(gen: PadSettings): int
  {
    if gen.padAmount == -1 then (if gen.pointFiltering then 0 else DefaultPad) else gen.padAmount
  }

  /**
   * `GetPadAmount`: the collection's pad plus, for a sprite (`spriteId >= 0`),
   * its extra padding, where -1 means none; never below 0.
   */
  function GetPadAmount(gen: PadSettings, spriteId: int): (r: int)
    requires spriteId < |gen.extraPadding|
    ensures r >= 0
    ensures spriteId < 0 && gen.padAmount >= 0 ==> r == gen.padAmount
    ensures spriteId < 0 && gen.padAmount == -1 ==> r == (if gen.pointFiltering then 0 else DefaultPad)
    ensures spriteId >= 0 && gen.extraPadding[spriteId] == -1 ==> r == GetPadAmount(gen, -1)
    ensures spriteId >= 0 && gen.extraPadding[spriteId] >= 0 ==> r >= GetPadAmount(gen, -1)
    ensures r > 0 ==> r == BasePad(gen) + (if spriteId >= 0 && gen.extraPadding[spriteId] != -1 then gen.extraPadding[spriteId] else 0)
    ensures r == 0 ==> BasePad(gen) + (if spriteId >= 0 && gen.extraPadding[spriteId] != -1 then gen.extraPadding[spriteId] else 0) <= 0
  {
    var basePadAmount := BasePad(gen);
    var total := if spriteId >= 0 then basePadAmount + (if gen.extraPadding[spriteId] == -1 then 0 else gen.extraPadding[spriteId])
                 else basePadAmount;
    if total < 0 then 0 else total
  }

  // ---------------------------------------------------------------------
  // PadTexture
  // ---------------------------------------------------------------------

  /** `Default` pads as `Extend`. */
  function Effective(padMode: Pad): (m: Pad)
    ensures m != Default
    ensures padMode != Default ==> m == padMode
  {
    if padMode == Default then Extend else padMode
  }

  /**
   * The border leaves the texture's interior non-empty: rows `pad` and
   * `height - 1 - pad`, and columns `pad` and `width - 1 - pad`, lie inside
   * it and are never written, so the fill has a closed form.
   */
  predicate Normal(width: int, height: int, pad: int)
  {
    0 <= pad && 2 * pad < width && 2 * pad < height
  }

  /** The colour the row pass writes into a top border row at column `x` (`c0`). */
  ghost function RowFill0(tex: Texture, mode: Pad, pad: int, x: int): Color
    requires tex.Valid() && Normal(tex.width, tex.height, pad) && 0 <= x < tex.width
    reads tex.data
  {
    match mode
    case Extend => tex.data[x, pad]
    case TileX => tex.data[x, tex.height - 1 - pad]
    case TileXY => tex.data[x, tex.height - 1 - pad]
    case _ => Clear
  }

  /** The colour the row pass writes into a bottom border row at column `x` (`c1`). */
  ghost function RowFill1(tex: Texture, mode: Pad, pad: int, x: int): Color
    requires tex.Valid() && Normal(tex.width, tex.height, pad) && 0 <= x < tex.width
    reads tex.data
  {
    match mode
    case Extend => tex.data[x, tex.height - 1 - pad]
    case TileX => tex.data[x, pad]
    case TileXY => tex.data[x, pad]
    case _ => Clear
  }

  /** Pixel (x, y) after the row pass. */
  ghost function RowPadded(tex: Texture, mode: Pad, pad: int, x: int, y: int): Color
    requires tex.Valid() && Normal(tex.width, tex.height, pad) && 0 <= x < tex.width && 0 <= y < tex.height
    reads tex.data
  {
    if y < pad then RowFill0(tex, mode, pad, x)
    else if y > tex.height - 1 - pad then RowFill1(tex, mode, pad, x)
    else tex.data[x, y]
  }

  /** Pixel (x', y') once the row pass has filled row `y` and its mirror up to column `x`. */
  ghost function RowStep(tex: Texture, mode: Pad, pad: int, y: int, x: int, x': int, y': int): Color
    requires tex.Valid() && Normal(tex.width, tex.height, pad) && 0 <= x' < tex.width && 0 <= y' < tex.height
    reads tex.data
  {
    if y' == y && x' < x then RowFill0(tex, mode, pad, x')
    else if y' == tex.height - 1 - y && x' < x then RowFill1(tex, mode, pad, x')
    else tex.data[x', y']
  }

  /**
   * Pixel (x, y) after the column pass, given the texture as the row pass
   * left it and the `c0`, `c1` it left behind: modes without a column case
   * repeat those two colours down the whole border.
   */
  ghost function ColPadded(tex: Texture, mode: Pad, pad: int, c0: Color, c1: Color, x: int, y: int): Color
    requires tex.Valid() && Normal(tex.width, tex.height, pad) && 0 <= x < tex.width && 0 <= y < tex.height
    reads tex.data
  {
    if x < pad then
      (match mode
       case Extend => tex.data[pad, y]
       case TileY => tex.data[tex.width - 1 - pad, y]
       case TileXY => tex.data[tex.width - 1 - pad, y]
       case _ => c0)
    else if x > tex.width - 1 - pad then
      (match mode
       case Extend => tex.data[tex.width - 1 - pad, y]
       case TileY => tex.data[pad, y]
       case TileXY => tex.data[pad, y]
       case _ => c1)
    else tex.data[x, y]
  }

  /** Pixel (x, y) once `PadTexture` has run both passes. */
  ghost function Padded(tex: Texture, mode: Pad, pad: int, x: int, y: int): Color
    requires tex.Valid() && Normal(tex.width, tex.height, pad) && 0 <= x < tex.width && 0 <= y < tex.height
    reads tex.data
  {
    if x < pad then
      (match mode
       case Extend => RowPadded(tex, mode, pad, pad, y)
       case TileY => RowPadded(tex, mode, pad, tex.width - 1 - pad, y)
       case TileXY => RowPadded(tex, mode, pad, tex.width - 1 - pad, y)
       case _ => RowFill0(tex, mode, pad, tex.width - 1))
    else if x > tex.width - 1 - pad then
      (match mode
       case Extend => RowPadded(tex, mode, pad, tex.width - 1 - pad, y)
       case TileY => RowPadded(tex, mode, pad, pad, y)
       case TileXY => RowPadded(tex, mode, pad, pad, y)
       case _ => RowFill1(tex, mode, pad, tex.width - 1))
    else RowPadded(tex, mode, pad, x, y)
  }

  ghost predicate AllClear(tex: Texture)
    requires tex.Valid()
    reads tex.data
  {
    forall x, y :: 0 <= x < tex.width && 0 <= y < tex.height ==> tex.data[x, y] == Clear
  }

  /**
   * `PadTexture`: fills the `pad` wide border of the texture in place,
   * rows first, then columns. When the interior is non-empty the result
   * is `Padded`; a texture that is clear everywhere stays clear whatever
   * the sizes.
   */
  method PadTexture(tex: Texture, pad: int, padMode: Pad)
    requires tex.Valid()
    modifies tex.data
    ensures Normal(tex.width, tex.height, pad) ==>
              forall x, y :: 0 <= x < tex.width && 0 <= y < tex.height ==>
                tex.data[x, y] == old(Padded(tex, Effective(padMode), pad, x, y))
    ensures old(AllClear(tex)) ==> AllClear(tex)
  {
    var mode := Effective(padMode);
    var c0, c1 := PadRows(tex, pad, mode);
    label rowsDone:
    PadColumns(tex, pad, mode, c0, c1);
    if Normal(tex.width, tex.height, pad) {
      forall x, y | 0 <= x < tex.width && 0 <= y < tex.height
        ensures old@rowsDone(ColPadded(tex, mode, pad, c0, c1, x, y)) == old(Padded(tex, mode, pad, x, y))
      {
      }
    }
  }

  /** The modes whose row pass reads the texture; the others leave `c0` and `c1` as they are. */
  predicate ReadsRows(mode: Pad)
  {
    mode == Extend || mode == TileX || mode == TileXY
  }

  /** The modes whose column pass reads the texture. */
  predicate ReadsColumns(mode: Pad)
  {
    mode == Extend || mode == TileY || mode == TileXY
  }

  /** Pixel (x', y') once the row pass has filled the first `y` border rows and their mirrors. */
  ghost function RowsSoFar(tex: Texture, mode: Pad, pad: int, y: int, x': int, y': int): Color
    requires tex.Valid() && Normal(tex.width, tex.height, pad) && 0 <= y <= pad && 0 <= x' < tex.width && 0 <= y' < tex.height
    reads tex.data
  {
    if y' < y then RowFill0(tex, mode, pad, x')
    else if y' > tex.height - 1 - y then RowFill1(tex, mode, pad, x')
    else tex.data[x', y']
  }

  /** The row pass of `PadTexture`, returning the `c0` and `c1` it leaves behind. */
  method PadRows(tex: Texture, pad: int, mode: Pad) returns (c0: Color, c1: Color)
    requires tex.Valid() && mode != Default
    modifies tex.data
    ensures Normal(tex.width, tex.height, pad) ==>
              forall x, y :: 0 <= x < tex.width && 0 <= y < tex.height ==>
                tex.data[x, y] == old(RowPadded(tex, mode, pad, x, y))
    ensures Normal(tex.width, tex.height, pad) && pad > 0 ==>
              c0 == old(RowFill0(tex, mode, pad, tex.width - 1)) && c1 == old(RowFill1(tex, mode, pad, tex.width - 1))
    ensures old(AllClear(tex)) ==> AllClear(tex) && c0 == Clear && c1 == Clear
  {
    c0, c1 := Clear, Clear;
    var y := 0;
    while y < pad
      invariant 0 <= y && (pad >= 0 ==> y <= pad)
      invariant Normal(tex.width, tex.height, pad) ==>
                  forall x', y' :: 0 <= x' < tex.width && 0 <= y' < tex.height ==>
                    tex.data[x', y'] == old(RowsSoFar(tex, mode, pad, y, x', y'))
      invariant !ReadsRows(mode) ==> c0 == Clear && c1 == Clear
      invariant Normal(tex.width, tex.height, pad) && y > 0 && ReadsRows(mode) ==>
                  c0 == old(RowFill0(tex, mode, pad, tex.width - 1)) && c1 == old(RowFill1(tex, mode, pad, tex.width - 1))
      invariant old(AllClear(tex)) ==> AllClear(tex) && c0 == Clear && c1 == Clear
    {
      c0, c1 := PadRowPair(tex, pad, mode, y, c0, c1);
      y := y + 1;
    }
  }

  /** One step of the row pass: row `y` and its mirror `height - 1 - y`, left to right. */
  method PadRowPair(tex: Texture, pad: int, mode: Pad, y: int, c0in: Color, c1in: Color) returns (c0: Color, c1: Color)
    requires tex.Valid() && mode != Default && 0 <= y < pad
    requires !ReadsRows(mode) ==> c0in == Clear && c1in == Clear
    modifies tex.data
    ensures Normal(tex.width, tex.height, pad) ==>
              forall x', y' :: 0 <= x' < tex.width && 0 <= y' < tex.height ==>
                tex.data[x', y'] == old(RowStep(tex, mode, pad, y, tex.width, x', y'))
    ensures !ReadsRows(mode) ==> c0 == c0in && c1 == c1in
    ensures Normal(tex.width, tex.height, pad) && ReadsRows(mode) ==>
              c0 == old(RowFill0(tex, mode, pad, tex.width - 1)) && c1 == old(RowFill1(tex, mode, pad, tex.width - 1))
    ensures old(AllClear(tex)) && c0in == Clear && c1in == Clear ==> AllClear(tex) && c0 == Clear && c1 == Clear
  {
    c0, c1 := c0in, c1in;
    var x := 0;
    while x < tex.width
      invariant 0 <= x <= tex.width
      invariant Normal(tex.width, tex.height, pad) ==>
                  forall x', y' :: 0 <= x' < tex.width && 0 <= y' < tex.height ==>
                    tex.data[x', y'] == old(RowStep(tex, mode, pad, y, x, x', y'))
      invariant !ReadsRows(mode) ==> c0 == c0in && c1 == c1in
      invariant Normal(tex.width, tex.height, pad) && x > 0 && ReadsRows(mode) ==>
                  c0 == old(RowFill0(tex, mode, pad, x - 1)) && c1 == old(RowFill1(tex, mode, pad, x - 1))
      invariant old(AllClear(tex)) && c0in == Clear && c1in == Clear ==> AllClear(tex) && c0 == Clear && c1 == Clear
    {
      if Normal(tex.width, tex.height, pad) {
        assert tex.data[x, pad] == old(tex.data[x, pad]);
        assert tex.data[x, tex.height - 1 - pad] == old(tex.data[x, tex.height - 1 - pad]);
      }
      c0, c1 := PadRowStep(tex, pad, mode, y, x, c0, c1);
      x := x + 1;
    }
  }

  /** The body of the row pass's inner loop: pick `c0` and `c1` for column `x`, then write both rows. */
  method PadRowStep(tex: Texture, pad: int, mode: Pad, y: int, x: int, c0in: Color, c1in: Color) returns (c0: Color, c1: Color)
    requires tex.Valid() && 0 <= y < pad && 0 <= x < tex.width
    modifies tex.data
    ensures Normal(tex.width, tex.height, pad) ==>
              forall x', y' :: 0 <= x' < tex.width && 0 <= y' < tex.height ==>
                tex.data[x', y'] == (if x' == x && y' == y then c0
                                     else if x' == x && y' == tex.height - 1 - y then c1
                                     else old(tex.data[x', y']))
    ensures !ReadsRows(mode) ==> c0 == c0in && c1 == c1in
    ensures Normal(tex.width, tex.height, pad) && ReadsRows(mode) ==>
              c0 == old(RowFill0(tex, mode, pad, x)) && c1 == old(RowFill1(tex, mode, pad, x))
    ensures old(AllClear(tex)) && c0in == Clear && c1in == Clear ==> AllClear(tex) && c0 == Clear && c1 == Clear
  {
    c0, c1 := c0in, c1in;
    if mode == Extend {
      c0 := tex.GetPixel(x, pad);
      c1 := tex.GetPixel(x, tex.height - 1 - pad);
    } else if mode == TileX || mode == TileXY {
      c1 := tex.GetPixel(x, pad);
      c0 := tex.GetPixel(x, tex.height - 1 - pad);
    }
    tex.SetPixel(x, y, c0);
    tex.SetPixel(x, tex.height - 1 - y, c1);
  }

  /** Pixel (x', y') once the column pass has filled the first `x` border columns and their mirrors. */
  ghost function ColsSoFar(tex: Texture, mode: Pad, pad: int, c0: Color, c1: Color, x: int, x': int, y': int): Color
    requires tex.Valid() && Normal(tex.width, tex.height, pad) && 0 <= x' < tex.width && 0 <= y' < tex.height
    reads tex.data
  {
    if x' < x || x' > tex.width - 1 - x then ColPadded(tex, mode, pad, c0, c1, x', y') else tex.data[x', y']
  }

  /** Pixel (x', y') once the column pass has filled column `x` and its mirror up to row `y`. */
  ghost function ColStep(tex: Texture, mode: Pad, pad: int, c0: Color, c1: Color, x: int, y: int, x': int, y': int): Color
    requires tex.Valid() && Normal(tex.width, tex.height, pad) && 0 <= x' < tex.width && 0 <= y' < tex.height
    reads tex.data
  {
    if (x' == x || x' == tex.width - 1 - x) && y' < y then ColPadded(tex, mode, pad, c0, c1, x', y') else tex.data[x', y']
  }

  /** The column pass of `PadTexture`, starting from the `c0` and `c1` the row pass left. */
  method PadColumns(tex: Texture, pad: int, mode: Pad, c0in: Color, c1in: Color)
    requires tex.Valid() && mode != Default
    modifies tex.data
    ensures Normal(tex.width, tex.height, pad) ==>
              forall x, y :: 0 <= x < tex.width && 0 <= y < tex.height ==>
                tex.data[x, y] == old(ColPadded(tex, mode, pad, c0in, c1in, x, y))
    ensures old(AllClear(tex)) && c0in == Clear && c1in == Clear ==> AllClear(tex)
  {
    var c0, c1 := c0in, c1in;
    var x := 0;
    while x < pad
      invariant 0 <= x && (pad >= 0 ==> x <= pad)
      invariant Normal(tex.width, tex.height, pad) ==>
                  forall x', y' :: 0 <= x' < tex.width && 0 <= y' < tex.height ==>
                    tex.data[x', y'] == old(ColsSoFar(tex, mode, pad, c0in, c1in, x, x', y'))
      invariant !ReadsColumns(mode) ==> c0 == c0in && c1 == c1in
      invariant old(AllClear(tex)) && c0in == Clear && c1in == Clear ==> AllClear(tex) && c0 == Clear && c1 == Clear
    {
      c0, c1 := PadColumnPair(tex, pad, mode, x, c0, c1, c0in, c1in);
      x := x + 1;
    }
  }

  /**
   * One step of the column pass: column `x` and its mirror `width - 1 - x`,
   * bottom to top. `c0start` and `c1start` are the colours the pass began
   * with, which modes without a column case still carry.
   */
  method PadColumnPair(tex: Texture, pad: int, mode: Pad, x: int, c0in: Color, c1in: Color, ghost c0start: Color, ghost c1start: Color)
    returns (c0: Color, c1: Color)
    requires tex.Valid() && mode != Default && 0 <= x < pad
    requires !ReadsColumns(mode) ==> c0in == c0start && c1in == c1start
    modifies tex.data
    ensures Normal(tex.width, tex.height, pad) ==>
              forall x', y' :: 0 <= x' < tex.width && 0 <= y' < tex.height ==>
                tex.data[x', y'] == old(ColStep(tex, mode, pad, c0start, c1start, x, tex.height, x', y'))
    ensures !ReadsColumns(mode) ==> c0 == c0in && c1 == c1in
    ensures old(AllClear(tex)) && c0in == Clear && c1in == Clear ==> AllClear(tex) && c0 == Clear && c1 == Clear
  {
    c0, c1 := c0in, c1in;
    var y := 0;
    while y < tex.height
      invariant 0 <= y <= tex.height
      invariant Normal(tex.width, tex.height, pad) ==>
                  forall x', y' :: 0 <= x' < tex.width && 0 <= y' < tex.height ==>
                    tex.data[x', y'] == old(ColStep(tex, mode, pad, c0start, c1start, x, y, x', y'))
      invariant !ReadsColumns(mode) ==> c0 == c0in && c1 == c1in
      invariant old(AllClear(tex)) && c0in == Clear && c1in == Clear ==> AllClear(tex) && c0 == Clear && c1 == Clear
    {
      if Normal(tex.width, tex.height, pad) {
        assert tex.data[pad, y] == old(tex.data[pad, y]);
        assert tex.data[tex.width - 1 - pad, y] == old(tex.data[tex.width - 1 - pad, y]);
      }
      c0, c1 := PadColumnStep(tex, pad, mode, x, y, c0, c1);
      y := y + 1;
    }
  }

  /** The body of the column pass's inner loop: pick `c0` and `c1` for row `y`, then write both columns. */
  method PadColumnStep(tex: Texture, pad: int, mode: Pad, x: int, y: int, c0in: Color, c1in: Color) returns (c0: Color, c1: Color)
    requires tex.Valid() && 0 <= x < pad && 0 <= y < tex.height
    modifies tex.data
    ensures Normal(tex.width, tex.height, pad) ==>
              forall x', y' :: 0 <= x' < tex.width && 0 <= y' < tex.height ==>
                tex.data[x', y'] == (if x' == x && y' == y then c0
                                     else if x' == tex.width - 1 - x && y' == y then c1
                                     else old(tex.data[x', y']))
    ensures !ReadsColumns(mode) ==> c0 == c0in && c1 == c1in
    ensures Normal(tex.width, tex.height, pad) && mode == Extend ==>
              c0 == old(tex.data[pad, y]) && c1 == old(tex.data[tex.width - 1 - pad, y])
    ensures Normal(tex.width, tex.height, pad) && (mode == TileY || mode == TileXY) ==>
              c1 == old(tex.data[pad, y]) && c0 == old(tex.data[tex.width - 1 - pad, y])
    ensures old(AllClear(tex)) && c0in == Clear && c1in == Clear ==> AllClear(tex) && c0 == Clear && c1 == Clear
  {
    c0, c1 := c0in, c1in;
    if mode == Extend {
      c0 := tex.GetPixel(pad, y);
      c1 := tex.GetPixel(tex.width - 1 - pad, y);
    } else if mode == TileY || mode == TileXY {
      c1 := tex.GetPixel(pad, y);
      c0 := tex.GetPixel(tex.width - 1 - pad, y);
    }
    tex.SetPixel(x, y, c0);
    tex.SetPixel(tex.width - 1 - x, y, c1);
  }

  /**
   * In `Extend` mode (and so in `Default`) a padded pixel is the interior
   * pixel nearest to it: both coordinates clamped into the interior.
   */
  lemma ExtendClamps(tex: Texture, pad: int, x: int, y: int)
    requires tex.Valid() && Normal(tex.width, tex.height, pad) && 0 <= x < tex.width && 0 <= y < tex.height
    ensures Padded(tex, Extend, pad, x, y)
              == tex.data[Clamp(x, pad, tex.width - 1 - pad), Clamp(y, pad, tex.height - 1 - pad)]
  {
  }

  /** Padding leaves the interior alone, in every mode. */
  lemma PaddingKeepsInterior(tex: Texture, mode: Pad, pad: int, x: int, y: int)
    requires tex.Valid() && Normal(tex.width, tex.height, pad) && 0 <= x < tex.width && 0 <= y < tex.height
    requires pad <= x <= tex.width - 1 - pad && pad <= y <= tex.height - 1 - pad
    ensures Padded(tex, mode, pad, x, y) == tex.data[x, y]
  {
  }

  /** `BlackZeroAlpha` (and any mode without a case in either pass) clears the whole border. */
  lemma BlackZeroAlphaClearsBorder(tex: Texture, pad: int, x: int, y: int)
    requires tex.Valid() && Normal(tex.width, tex.height, pad) && 0 <= x < tex.width && 0 <= y < tex.height
    requires x < pad || x > tex.width - 1 - pad || y < pad || y > tex.height - 1 - pad
    ensures Padded(tex, BlackZeroAlpha, pad, x, y) == Clear
  {
  }

  // ---------------------------------------------------------------------
  // TextureRectFullySolid
  // ---------------------------------------------------------------------

  /** Pixel (x, y) has full alpha (coordinates wrap). */
  ghost predicate SolidAt(src: Texture, x: int, y: int)
    requires src.Valid()
    reads src.data
  {
    src.GetPixel(x, y).a == 255
  }

  /** Every pixel of the `tw` by `th` region whose corner is (sx, sy) has alpha 255. */
  ghost predicate FullySolid(src: Texture, sx: int, sy: int, tw: int, th: int)
    requires src.Valid()
    reads src.data
  {
    forall x, y :: sx <= x < sx + tw && sy <= y < sy + th ==> SolidAt(src, x, y)
  }

  /** `TextureRectFullySolid`: scans rows bottom-up and stops at the first pixel below full alpha. */
  method TextureRectFullySolid(srcTex: Texture, sx: int, sy: int, tw: int, th: int) returns (solid: bool)
    requires srcTex.Valid()
    ensures solid == FullySolid(srcTex, sx, sy, tw, th)
  {
    var y := 0;
    while y < th
      invariant 0 <= y && (th >= 0 ==> y <= th)
      invariant forall x', y' :: sx <= x' < sx + tw && sy <= y' < sy + y ==> SolidAt(srcTex, x', y')
    {
      var x := 0;
      while x < tw
        invariant 0 <= x && (tw >= 0 ==> x <= tw)
        invariant forall x', y' :: sx <= x' < sx + tw && sy <= y' < sy + y ==> SolidAt(srcTex, x', y')
        invariant forall x', y' :: sx <= x' < sx + x && y' == sy + y ==> SolidAt(srcTex, x', y')
      {
        var col := srcTex.GetPixel(sx + x, sy + y);
        if col.a < 255 {
          assert !SolidAt(srcTex, sx + x, sy + y);
          return false;
        }
        x := x + 1;
      }
      y := y + 1;
    }
    return true;
  }
}
