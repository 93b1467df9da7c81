// The atlas builder: collects source rectangle sizes, packs them into as
// few pages as it is allowed, searching for a good page size, and records
// where each source ended up.

module AtlasBuilder {
  import opened AtlasRect
  import opened MaxRects

  /** Where a source rectangle sits on a page; `flipped` means it was packed turned. */
  datatype Entry = Entry(index: int, x: int, y: int, w: int, h: int, flipped: bool)

  /** A value-initialised `Entry`: every field zero or false. */
  const DefaultEntry: Entry := Entry(0, 0, 0, 0, 0, false)

  /** One atlas page: its size, its occupancy and the entries placed on it. */
  datatype Data = Data(width: int, height: int, occupancy: Ratio, entries: seq<Entry>)

  /**
   * The first entry, in list order, whose index is `index`; the default
   * entry when there is none.
   */
  function FirstWithIndex(entries: seq<Entry>, index: int): (e: Entry)
    ensures (exists k :: 0 <= k < |entries| && entries[k].index == index) ==>
              exists k :: 0 <= k < |entries| && e == entries[k] && e.index == index
                          && forall j :: 0 <= j < k ==> entries[j].index != index
    ensures (forall k :: 0 <= k < |entries| ==> entries[k].index != index) ==> e == DefaultEntry
  {
    if entries == [] then DefaultEntry
    else if entries[0].index == index then entries[0]
    else
      var r := FirstWithIndex(entries[1..], index);
      assert forall k :: 1 <= k < |entries| ==> entries[k] == entries[1..][k - 1];
      r
  }

  /** `Data::findEntryWithIndex`: a read-only search of the page's entries. */
  function FindEntryWithIndex(d: Data, index: int): Entry
  {
    FirstWithIndex(d.entries, index)
  }

  // ---------------------------------------------------------------------
  // Alignment shifts
  // ---------------------------------------------------------------------

  function Pow2(n: nat): (r: int)
    ensures r >= 1
  {
    if n == 0 then 1 else 2 * Pow2(n - 1)
  }

  /** `v >> s` on a two's-complement int: floor division by 2^s, which Dafny's `/` is for a positive divisor. */
  function Shr(v: int, s: nat): int
  {
    v / Pow2(s)
  }

  /** `v << s`, without overflow. */
  function Shl(v: int, s: nat): int
  {
    v * Pow2(s)
  }

  /** A source size rounded up to whole alignment cells: `(v + align) >> alignShift` on both sides. */
  function Aligned(r: RectSize, s: nat): RectSize
  {
    RectSize(Shr(r.width + Pow2(s) - 1, s), Shr(r.height + Pow2(s) - 1, s))
  }

  /**
   * Rounding a size up to whole cells and shifting back covers it with
   * less than one cell to spare: `((v + align) >> s) << s` lies in
   * `v .. v + align`.
   */
  lemma AlignedCovers(v: int, s: nat)
    requires v >= 0
    ensures v <= Shl(Shr(v + Pow2(s) - 1, s), s) < v + Pow2(s)
  {
    var p := Pow2(s);
    var q, m := (v + p - 1) / p, (v + p - 1) % p;
    assert v + p - 1 == q * p + m && 0 <= m < p;
    assert Shl(Shr(v + p - 1, s), s) == q * p;
  }

  /** With a shift of 0 (the builder's only value) every alignment step is the identity. */
  lemma AlignShiftZero(r: RectSize, v: int)
    ensures Aligned(r, 0) == r && Shr(v, 0) == v && Shl(v, 0) == v
  {
  }

  // ---------------------------------------------------------------------
  // What a packed page says about the rectangles it was given
  // ---------------------------------------------------------------------

  predicate NonNegativeSizes(rs: seq<RectSize>)
  {
    forall k :: 0 <= k < |rs| ==> rs[k].width >= 0 && rs[k].height >= 0
  }

  /**
   * `used` holds, in order, rectangles of non-zero height sized as the
   * distinct entries `placed` of `rects` (turned only when allowed).
   */
  ghost predicate Filled(used: seq<Rect>, rects: seq<RectSize>, placed: seq<int>, allowRotation: bool)
  {
    |placed| == |used|
    && (forall j :: 0 <= j < |placed| ==>
          0 <= placed[j] < |rects| && PlacedAs(used[j], rects[placed[j]], allowRotation) && used[j].height != 0)
    && (forall j, l :: 0 <= j < l < |placed| ==> placed[j] != placed[l])
  }

  /** The heuristics `findBestBinPacker` tries, in order. */
  const Heuristics: seq<FreeRectChoiceHeuristic> :=
    [RectBestAreaFit, RectBestLongSideFit, RectBestShortSideFit, RectBottomLeftRule]

  /** A packer's bin area not covered by its placed rectangles. */
  function Wasted(width: int, height: int, used: seq<Rect>): int
  {
    width * height - SumArea(used)
  }

  /** In a bin of sides at most 32768, filled with rectangles of non-negative size, the waste stays below `INT_MAX`. */
  lemma WastedBelowIntMax(width: int, height: int, used: seq<Rect>)
    requires 0 <= width <= 32768 && 0 <= height <= 32768
    requires forall k :: 0 <= k < |used| ==> used[k].width >= 0 && used[k].height >= 0
    ensures Wasted(width, height, used) < INT_MAX
  {
    SumAreaNonNegative(used);
    MulMono(width, height, 32768, 32768);
  }

  lemma FilledNonNegative(used: seq<Rect>, rects: seq<RectSize>, placed: seq<int>, allowRotation: bool)
    requires Filled(used, rects, placed, allowRotation) && NonNegativeSizes(rects)
    ensures forall k :: 0 <= k < |used| ==> used[k].width >= 0 && used[k].height >= 0
  {
  }

  /** A valid packer of the given bin size whose placed rectangles fill `rects` at `placed`. */
  ghost predicate PackedFrom(p: MaxRectsBinPack, width: int, height: int, allowRotation: bool,
                             rects: seq<RectSize>, placed: seq<int>)
    reads p
  {
    p.Valid() && p.binWidth == width && p.binHeight == height && p.allowRotation == allowRotation
    && Filled(p.usedRectangles, rects, placed, allowRotation)
  }

  /** `p` holds heuristic `m`'s packing of `rects`, and `allUsed` says whether it placed them all. */
  ghost predicate Attempt(p: MaxRectsBinPack, width: int, height: int, allowRotation: bool, rects: seq<RectSize>,
                          placed: seq<int>, m: FreeRectChoiceHeuristic, allUsed: bool)
    reads p
  {
    PackedFrom(p, width, height, allowRotation, rects, placed)
    && p.Model() == Packed(m, width, height, allowRotation, rects)
    && allUsed == (|p.usedRectangles| == |rects|)
  }

  /** What one heuristic makes of `rects` on a fresh width-by-height packer. */
  function Packed(m: FreeRectChoiceHeuristic, width: int, height: int, allowRotation: bool, rects: seq<RectSize>): Packer
  {
    InsertRounds(m, Packer(allowRotation, width, height, [], [Rect(0, 0, width, height)]), rects)
  }

  /** The area each heuristic of `Heuristics` leaves unused, in order. */
  function HeuristicWastes(width: int, height: int, allowRotation: bool, rects: seq<RectSize>): (ws: seq<int>)
    ensures |ws| == |Heuristics|
  {
    seq(|Heuristics|, k requires 0 <= k < |Heuristics| =>
      Wasted(width, height, Packed(Heuristics[k], width, height, allowRotation, rects).used))
  }

  /** The position of the smallest value, the first one on ties. */
  function FirstLeast(ws: seq<int>): (i: int)
    requires |ws| > 0
    ensures 0 <= i < |ws|
    ensures forall k :: 0 <= k < |ws| ==> ws[i] <= ws[k]
    ensures forall k :: 0 <= k < i ==> ws[i] < ws[k]
  {
    if |ws| == 1 then 0
    else
      var b := FirstLeast(ws[..|ws| - 1]);
      if ws[|ws| - 1] < ws[b] then |ws| - 1 else b
  }

  /** The packing `findBestBinPacker` keeps: the heuristic that wastes least, the earliest on ties. */
  function BestPacking(width: int, height: int, allowRotation: bool, rects: seq<RectSize>): Packer
  {
    Packed(Heuristics[FirstLeast(HeuristicWastes(width, height, allowRotation, rects))], width, height, allowRotation, rects)
  }

  class Builder {
    var maxAllowedAtlasCount: int
    var atlasWidth: int
    var atlasHeight: int
    var forceSquare: bool
    var allowOptimizeSize: bool
    /** Never assigned after its default, so every shift by it is the identity. */
    const alignShift: nat := 0
    var allowRotation: bool
    var sourceRects: seq<RectSize>
    var atlases: seq<Data>
    var remainingRectIndices: seq<int>
    var oversizeTextures: bool

    constructor (atlasWidth: int, atlasHeight: int, maxAllowedAtlasCount: int,
                 allowOptimizeSize: bool, forceSquare: bool, allowRotation: bool)
      ensures this.atlasWidth == atlasWidth && this.atlasHeight == atlasHeight
      ensures this.maxAllowedAtlasCount == maxAllowedAtlasCount
      ensures this.allowOptimizeSize == allowOptimizeSize && this.forceSquare == forceSquare
      ensures this.allowRotation == allowRotation
      ensures sourceRects == [] && atlases == [] && remainingRectIndices == [] && !oversizeTextures
    {
      this.atlasWidth := atlasWidth;
      this.atlasHeight := atlasHeight;
      this.maxAllowedAtlasCount := maxAllowedAtlasCount;
      this.forceSquare := forceSquare;
      this.allowOptimizeSize := allowOptimizeSize;
      this.allowRotation := allowRotation;
      sourceRects := [];
      atlases := [];
      remainingRectIndices := [];
      oversizeTextures := false;
    }

    /** Appends a source size; its index is its position in `sourceRects`. */
    method AddRect(width: int, height: int)
      modifies this`sourceRects
      ensures sourceRects == old(sourceRects) + [RectSize(width, height)]
      ensures sourceRects[|sourceRects| - 1] == RectSize(width, height)
    {
      sourceRects := sourceRects + [RectSize(width, height)];
    }

    /** The first half of `findBestBinPacker`: one fresh packer per heuristic, each given its own copy of the rectangles. */
    method PackWithEach(width: int, height: int, currRects: seq<RectSize>)
      returns (binPackers: seq<MaxRectsBinPack>, binPackerRects: seq<seq<RectSize>>,
               binPackerAllUsed: seq<bool>, ghost placedBy: seq<seq<int>>)
      ensures |binPackers| == |Heuristics| && |binPackerRects| == |Heuristics|
      ensures |binPackerAllUsed| == |Heuristics| && |placedBy| == |Heuristics|
      ensures forall k :: 0 <= k < |Heuristics| ==>
                fresh(binPackers[k]) && binPackerRects[k] == currRects
                && PackedFrom(binPackers[k], width, height, allowRotation, currRects, placedBy[k])
                && binPackers[k].Model() == Packed(Heuristics[k], width, height, allowRotation, currRects)
                && binPackerAllUsed[k] == (|binPackers[k].usedRectangles| == |currRects|)
    {
      binPackers := [];
      binPackerRects := [];
      binPackerAllUsed := [];
      placedBy := [];
      var h := 0;
      while h < |Heuristics|
        invariant 0 <= h <= |Heuristics|
        invariant |binPackers| == h && |binPackerRects| == h && |binPackerAllUsed| == h && |placedBy| == h
        invariant forall k :: 0 <= k < h ==>
                    fresh(binPackers[k]) && binPackerRects[k] == currRects
                    && Attempt(binPackers[k], width, height, allowRotation, currRects, placedBy[k], Heuristics[k], binPackerAllUsed[k])
      {
        var activeRects := currRects;
        var binPacker, activeAllUsed, pl := PackOne(width, height, activeRects, Heuristics[h]);
        binPackers := binPackers + [binPacker];
        binPackerRects := binPackerRects + [activeRects];
        binPackerAllUsed := binPackerAllUsed + [activeAllUsed];
        placedBy := placedBy + [pl];
        h := h + 1;
      }
    }

    /** One heuristic's attempt: a fresh packer of the page size given every rectangle. */
    method PackOne(width: int, height: int, rects: seq<RectSize>, heuristic: FreeRectChoiceHeuristic)
      returns (binPacker: MaxRectsBinPack, allUsed: bool, ghost placed: seq<int>)
      ensures fresh(binPacker) && PackedFrom(binPacker, width, height, allowRotation, rects, placed)
      ensures binPacker.Model() == Packed(heuristic, width, height, allowRotation, rects)
      ensures allUsed == (|binPacker.usedRectangles| == |rects|)
    {
      binPacker := new MaxRectsBinPack.Init(width, height, allowRotation);
      ghost var start := binPacker.Model();
      assert start == Packer(allowRotation, width, height, [], [Rect(0, 0, width, height)]);
      ghost var unplaced;
      allUsed, placed, unplaced := binPacker.Insert(rects, heuristic);
      assert binPacker.Model() == InsertRounds(heuristic, start, rects);
      PlacedWithin(placed, unplaced, |rects|);
    }

    /**
     * The second half of `findBestBinPacker`: the first packer whose wasted
     * area is smallest, found by a strict-less-than scan from `INT_MAX`;
     * a new minimum also sets `oversizeTextures`.
     */
    method SelectLeastWasted(binPackers: seq<MaxRectsBinPack>, width: int, height: int)
      returns (leastWastedIndex: int, ghost wasted: seq<int>)
      requires |binPackers| > 0
      requires forall k :: 0 <= k < |binPackers| ==>
                 binPackers[k].binWidth == width && binPackers[k].binHeight == height
                 && Wasted(width, height, binPackers[k].usedRectangles) < INT_MAX
      modifies this`oversizeTextures
      ensures |wasted| == |binPackers| && 0 <= leastWastedIndex < |wasted|
      ensures forall k :: 0 <= k < |wasted| ==> wasted[k] == Wasted(width, height, binPackers[k].usedRectangles)
      ensures forall k :: 0 <= k < |wasted| ==> wasted[leastWastedIndex] <= wasted[k]
      ensures forall k :: 0 <= k < leastWastedIndex ==> wasted[leastWastedIndex] < wasted[k]
      ensures oversizeTextures
    {
      var leastWastedPixels := INT_MAX;
      leastWastedIndex := -1;
      wasted := [];
      var i := 0;
      while i < |binPackers|
        invariant 0 <= i <= |binPackers| && |wasted| == i
        invariant forall k :: 0 <= k < i ==> wasted[k] == Wasted(width, height, binPackers[k].usedRectangles)
        invariant leastWastedIndex == -1 ==> leastWastedPixels == INT_MAX && i == 0
        invariant leastWastedIndex != -1 ==>
                    0 <= leastWastedIndex < i && leastWastedPixels == wasted[leastWastedIndex]
                    && (forall k :: 0 <= k < i ==> wasted[leastWastedIndex] <= wasted[k])
                    && (forall k :: 0 <= k < leastWastedIndex ==> wasted[leastWastedIndex] < wasted[k])
        invariant i > 0 ==> oversizeTextures
      {
        var wastedPixels := binPackers[i].WastedBinArea();
        assert wastedPixels == Wasted(width, height, binPackers[i].usedRectangles);
        ghost var before := wasted;
        wasted := wasted + [wastedPixels];
        assert forall k :: 0 <= k < i ==> wasted[k] == before[k];
        if wastedPixels < leastWastedPixels {
          leastWastedPixels := wastedPixels;
          leastWastedIndex := i;
          oversizeTextures := true;
        }
        i := i + 1;
      }
    }

    /** The sanity check at the start of `build`: whether some source is too large for any page. */
    method SanityCheck() returns (tooLarge: bool)
      ensures tooLarge <==>
                exists k :: 0 <= k < |sourceRects| && TooLarge(sourceRects[k], atlasWidth, atlasHeight, alignShift)
    {
      var atlasWidth := Shr(this.atlasWidth, alignShift);
      var atlasHeight := Shr(this.atlasHeight, alignShift);
      var align := Shl(1, alignShift) - 1;
      var minSize := Max(atlasWidth, atlasHeight);
      var maxSize := Max(atlasWidth, atlasHeight);
      var i := 0;
      while i < |sourceRects|
        invariant 0 <= i <= |sourceRects|
        invariant forall k :: 0 <= k < i ==> !TooLarge(sourceRects[k], this.atlasWidth, this.atlasHeight, alignShift)
      {
        var rs := sourceRects[i];
        var maxDim := Shr(Max(rs.width, rs.height) + align, alignShift);
        var minDim := Shr(Max(rs.width, rs.height) + align, alignShift);
        if RejectsAsWritten(maxDim, minDim, maxSize, minSize) {
          assert TooLarge(sourceRects[i], this.atlasWidth, this.atlasHeight, alignShift);
          return true;
        }
        i := i + 1;
      }
      return false;
    }

    /**
     * Matches one packed rectangle back to a source: the first unused source
     * of the same aligned size, else the first unused one of the turned size,
     * which makes the entry flipped with its sides swapped; -1 when neither
     * exists.
     */
    method MatchRect(t: Rect, usedRect: seq<bool>)
      returns (matchedId: int, flipped: bool, matchedWidth: int, matchedHeight: int)
      requires |usedRect| == |sourceRects|
      ensures matchedId == -1 <==>
                forall i :: !UnusedOfSize(sourceRects, usedRect, i, t.width, t.height, alignShift)
                            && !UnusedOfSize(sourceRects, usedRect, i, t.height, t.width, alignShift)
      ensures matchedId != -1 && !flipped ==>
                FirstUnusedOfSize(sourceRects, usedRect, matchedId, t.width, t.height, alignShift)
                && matchedWidth == sourceRects[matchedId].width && matchedHeight == sourceRects[matchedId].height
      ensures flipped ==>
                (forall i :: !UnusedOfSize(sourceRects, usedRect, i, t.width, t.height, alignShift))
                && FirstUnusedOfSize(sourceRects, usedRect, matchedId, t.height, t.width, alignShift)
                && matchedWidth == sourceRects[matchedId].height && matchedHeight == sourceRects[matchedId].width
      ensures matchedId == -1 ==> !flipped && matchedWidth == 0 && matchedHeight == 0
    {
      var align := Shl(1, alignShift) - 1;
      matchedWidth, matchedHeight := 0, 0;
      matchedId := -1;
      flipped := false;
      var i := 0;
      while i < |sourceRects|
        invariant 0 <= i <= |sourceRects|
        invariant forall j :: 0 <= j < i ==> !UnusedOfSize(sourceRects, usedRect, j, t.width, t.height, alignShift)
      {
        var width := Shr(sourceRects[i].width + align, alignShift);
        var height := Shr(sourceRects[i].height + align, alignShift);
        if !usedRect[i] && width == t.width && height == t.height {
          matchedId := i;
          matchedWidth := sourceRects[i].width;
          matchedHeight := sourceRects[i].height;
          assert UnusedOfSize(sourceRects, usedRect, i, t.width, t.height, alignShift);
          return;
        }
        i := i + 1;
      }

      i := 0;
      while i < |sourceRects|
        invariant 0 <= i <= |sourceRects|
        invariant forall j :: 0 <= j < i ==> !UnusedOfSize(sourceRects, usedRect, j, t.height, t.width, alignShift)
      {
        var width := Shr(sourceRects[i].width + align, alignShift);
        var height := Shr(sourceRects[i].height + align, alignShift);
        if !usedRect[i] && width == t.height && height == t.width {
          matchedId := i;
          flipped := true;
          matchedWidth := sourceRects[i].height;
          matchedHeight := sourceRects[i].width;
          assert UnusedOfSize(sourceRects, usedRect, i, t.height, t.width, alignShift);
          return;
        }
        i := i + 1;
      }
    }

    /**
     * The entries of an accepted page: each packed rectangle, in order,
     * matched to a source and marked used. `sigma` witnesses that every
     * match succeeds, so the out-of-range flag write of a failed match
     * never happens.
     */
    method MakePage(mapped: seq<Rect>, usedRect: seq<bool>, ghost sigma: seq<int>)
      returns (atlasEntries: seq<Entry>, usedAfter: seq<bool>)
      requires |usedRect| == |sourceRects|
      requires Assigned(sourceRects, usedRect, mapped, sigma, alignShift)
      ensures |usedAfter| == |usedRect| && |atlasEntries| == |mapped|
      ensures forall k :: 0 <= k < |mapped| ==> EntryRect(atlasEntries[k]) == mapped[k]
      ensures forall k :: 0 <= k < |mapped| ==>
                0 <= atlasEntries[k].index < |usedRect| && !usedRect[atlasEntries[k].index]
                && EntryMatchesSource(atlasEntries[k], sourceRects[atlasEntries[k].index])
      ensures forall k, l :: 0 <= k < l < |mapped| ==> atlasEntries[k].index != atlasEntries[l].index
      ensures forall i :: 0 <= i < |usedRect| ==>
                (usedAfter[i] <==> usedRect[i] || exists k :: 0 <= k < |mapped| && atlasEntries[k].index == i)
    {
      atlasEntries := [];
      usedAfter := usedRect;
      ghost var rest := sigma;
      var j := 0;
      while j < |mapped|
        invariant 0 <= j <= |mapped| && |atlasEntries| == j
        invariant PartialPage(sourceRects, usedRect, usedAfter, mapped, atlasEntries)
        invariant Assigned(sourceRects, usedAfter, mapped[j..], rest, alignShift)
      {
        var t := mapped[j];
        assert t == mapped[j..][0];
        assert UnusedOfSize(sourceRects, usedAfter, rest[0], t.width, t.height, alignShift)
               || UnusedOfSize(sourceRects, usedAfter, rest[0], t.height, t.width, alignShift);
        var matchedId, flipped, matchedWidth, matchedHeight := MatchRect(t, usedAfter);
        AlignShiftZero(sourceRects[matchedId], t.x);
        AlignShiftZero(sourceRects[matchedId], t.y);
        rest := ReassignStep(sourceRects, usedAfter, mapped[j..], rest, alignShift, matchedId);
        assert mapped[j..][1..] == mapped[j + 1..];
        var newEntry := Entry(matchedId, Shl(t.x, alignShift), Shl(t.y, alignShift), matchedWidth, matchedHeight, flipped);
        PartialPageStep(sourceRects, usedRect, usedAfter, mapped, atlasEntries, newEntry);
        usedAfter := usedAfter[matchedId := true];
        atlasEntries := atlasEntries + [newEntry];
        j := j + 1;
      }
    }

    /** The closing loop of `build`: lists the never-matched sources in ascending order. */
    method CollectRemaining(usedRect: seq<bool>)
      modifies this`remainingRectIndices
      ensures remainingRectIndices == UnusedIndices(usedRect)
    {
      remainingRectIndices := [];
      var i := 0;
      while i < |usedRect|
        invariant 0 <= i <= |usedRect|
        invariant remainingRectIndices == UnusedIndices(usedRect[..i])
      {
        PrefixStep(usedRect, i);
        if !usedRect[i] {
          remainingRectIndices := remainingRectIndices + [i];
        }
        i := i + 1;
      }
      assert usedRect[..i] == usedRect;
    }

    /** The early exit of `build`: every source index, in order, is left over. */
    method ListAllRemaining()
      modifies this`remainingRectIndices
      ensures remainingRectIndices == Iota(|sourceRects|)
    {
      remainingRectIndices := [];
      var i := 0;
      while i < |sourceRects|
        invariant 0 <= i <= |sourceRects| && remainingRectIndices == Iota(i)
      {
        assert Iota(i) + [i] == Iota(i + 1);
        remainingRectIndices := remainingRectIndices + [i];
        i := i + 1;
      }
    }

    /** The list `build` packs first: every source's size rounded up to whole alignment cells. */
    method AlignedSources() returns (rects: seq<RectSize>)
      ensures |rects| == |sourceRects|
      ensures forall k :: 0 <= k < |rects| ==> rects[k] == Aligned(sourceRects[k], alignShift)
    {
      var align := Shl(1, alignShift) - 1;
      rects := [];
      var i := 0;
      while i < |sourceRects|
        invariant 0 <= i <= |sourceRects|
        invariant |rects| == i && forall k :: 0 <= k < i ==> rects[k] == Aligned(sourceRects[k], alignShift)
      {
        var t := RectSize(Shr(sourceRects[i].width + align, alignShift), Shr(sourceRects[i].height + align, alignShift));
        rects := rects + [t];
        i := i + 1;
      }
    }

    /**
     * Builds the pages: after the sanity check, repeatedly searches a page
     * size for the rectangles still to place, matches the accepted packing
     * back to sources and appends the page, until everything is placed,
     * the page budget is spent or nothing is left; returns how many sources
     * were never placed. The list carried to the next page is the sources
     * still unmatched, and an empty list ends the loop.
     */
    method Build() returns (remaining: int, ghost matched: seq<bool>)
      requires 0 <= atlasWidth <= 16384 && 0 <= atlasHeight <= 16384
      requires NonNegativeSizes(sourceRects)
      modifies this`atlases, this`remainingRectIndices, this`oversizeTextures
      ensures remaining == |remainingRectIndices|
      ensures (exists k :: 0 <= k < |sourceRects| && TooLarge(sourceRects[k], atlasWidth, atlasHeight, alignShift)) ==>
                atlases == [] && remainingRectIndices == Iota(|sourceRects|)
      ensures |atlases| == 0 || |atlases| <= maxAllowedAtlasCount
      ensures PagesAgree(atlases, sourceRects, matched)
      ensures remainingRectIndices == UnusedIndices(matched)
      ensures (forall k :: 0 <= k < |sourceRects| ==> !TooLarge(sourceRects[k], atlasWidth, atlasHeight, alignShift)) ==>
                (remainingRectIndices == [] || |atlases| >= maxAllowedAtlasCount)
                && (|atlases| == 0 ==> maxAllowedAtlasCount <= 0 || (allowOptimizeSize && sourceRects == []))
    {
      atlases := [];
      remainingRectIndices := [];
      var usedRect := seq(|sourceRects|, _ => false);
      var atlasWidth := Shr(this.atlasWidth, alignShift);
      var atlasHeight := Shr(this.atlasHeight, alignShift);

      assert PagesAgree(atlases, sourceRects, usedRect);
      var tooLarge := SanityCheck();
      if tooLarge {
        ListAllRemaining();
        UnusedIndicesNoneUsed(|sourceRects|);
        return |remainingRectIndices|, usedRect;
      }

      matched := PackAndCollect(atlasWidth, atlasHeight);
      remaining := |remainingRectIndices|;
    }

    /**
     * `build` after a passed sanity check: the page loop over the aligned
     * sources, then the list of the sources never placed.
     */
    method PackAndCollect(atlasWidth: int, atlasHeight: int) returns (ghost matched: seq<bool>)
      requires 0 <= atlasWidth <= 16384 && 0 <= atlasHeight <= 16384
      requires NonNegativeSizes(sourceRects) && atlases == []
      modifies this`atlases, this`remainingRectIndices, this`oversizeTextures
      ensures |atlases| == 0 || |atlases| <= maxAllowedAtlasCount
      ensures PagesAgree(atlases, sourceRects, matched)
      ensures remainingRectIndices == UnusedIndices(matched)
      ensures remainingRectIndices == [] || |atlases| >= maxAllowedAtlasCount
      ensures |atlases| == 0 ==> maxAllowedAtlasCount <= 0 || (allowOptimizeSize && sourceRects == [])
    {
      var usedRect := seq(|sourceRects|, _ => false);
      var rects := AlignedSources();
      StartState(sourceRects, rects, alignShift);
      usedRect := PackPages(atlasWidth, atlasHeight, rects, usedRect);
      CollectRemaining(usedRect);
      matched := usedRect;
    }

    /**
     * The page loop of `build`: pages are added while the last packing
     * did not place every rectangle and the page limit is not reached,
     * each page carrying over the sources not yet matched. With size
     * optimisation on, an empty list also ends the loop. The loop stops
     * only once every source is matched or the page limit is reached, and
     * it adds a page whenever it is allowed one and has a list to pack.
     */
    method PackPages(atlasWidth: int, atlasHeight: int, rects0: seq<RectSize>, usedRect0: seq<bool>)
      returns (usedRect: seq<bool>)
      requires 0 <= atlasWidth <= 16384 && 0 <= atlasHeight <= 16384
      requires NonNegativeSizes(sourceRects) && |atlases| == 0
      requires |usedRect0| == |sourceRects| && rects0 == CarryOver(sourceRects, usedRect0, alignShift)
      requires PagesAgree(atlases, sourceRects, usedRect0)
      modifies this`atlases, this`oversizeTextures
      ensures |usedRect| == |sourceRects| && PagesAgree(atlases, sourceRects, usedRect)
      ensures |atlases| == 0 || |atlases| <= maxAllowedAtlasCount
      ensures UnusedIndices(usedRect) == [] || |atlases| >= maxAllowedAtlasCount
      ensures |atlases| == 0 ==> maxAllowedAtlasCount <= 0 || (allowOptimizeSize && rects0 == [])
    {
      var rects := rects0;
      usedRect := usedRect0;
      var allUsed := false;
      while !allUsed && |atlases| < maxAllowedAtlasCount && (|rects| > 0 || !allowOptimizeSize)
        invariant |usedRect| == |sourceRects| && rects == CarryOver(sourceRects, usedRect, alignShift)
        invariant PagesAgree(atlases, sourceRects, usedRect)
        invariant |atlases| == 0 || |atlases| <= maxAllowedAtlasCount
        invariant allUsed ==> UnusedIndices(usedRect) == []
        invariant |atlases| == 0 ==> !allUsed && rects == rects0
        decreases maxAllowedAtlasCount - |atlases|
      {
        ghost var tried, passes;
        allUsed, usedRect, tried, passes := SearchPage(atlasWidth, atlasHeight, rects, usedRect);
        rects := CarryOver(sourceRects, usedRect, alignShift);
      }
    }

    /**
     * The accepted branch of the page-size search: matches every packed
     * rectangle back to a source and appends the page.
     */
    method AppendPage(binPacker: MaxRectsBinPack, occupancy: Ratio, thisCellW: int, thisCellH: int,
                      usedRect: seq<bool>, ghost sigma: seq<int>)
      returns (usedAfter: seq<bool>)
      requires UsedValid(binPacker.usedRectangles, Bin(thisCellW, thisCellH))
      requires |usedRect| == |sourceRects| && Assigned(sourceRects, usedRect, binPacker.usedRectangles, sigma, alignShift)
      requires PagesAgree(atlases, sourceRects, usedRect)
      modifies this`atlases
      ensures |atlases| > 0 && atlases == old(atlases) + [atlases[|atlases| - 1]]
      ensures atlases[|atlases| - 1].width == thisCellW && atlases[|atlases| - 1].height == thisCellH
      ensures atlases[|atlases| - 1].occupancy == occupancy
      ensures PagesAgree(atlases, sourceRects, usedAfter)
      ensures |binPacker.usedRectangles| == |UnusedIndices(usedRect)| ==> UnusedIndices(usedAfter) == []
    {
      var mapped := binPacker.GetMapped();
      var atlasEntries;
      atlasEntries, usedAfter := MakePage(mapped, usedRect, sigma);
      if |mapped| == |UnusedIndices(usedRect)| {
        AllMatchedWhenFull(usedRect, usedAfter, atlasEntries);
      }
      AlignShiftZero(RectSize(0, 0), thisCellW);
      AlignShiftZero(RectSize(0, 0), thisCellH);
      var currAtlas := Data(Shl(thisCellW, alignShift), Shl(thisCellH, alignShift), occupancy, atlasEntries);
      PageAppend(atlases, sourceRects, usedRect, usedAfter, currAtlas, mapped);
      atlases := atlases + [currAtlas];
    }

    /** The accepted packing of the carried-over rectangles becomes the next page. */
    method AcceptPage(binPacker: MaxRectsBinPack, occupancy: Ratio, thisCellW: int, thisCellH: int,
                      rects: seq<RectSize>, usedRect: seq<bool>, ghost placed: seq<int>)
      returns (usedAfter: seq<bool>)
      requires |usedRect| == |sourceRects| && rects == CarryOver(sourceRects, usedRect, alignShift)
      requires PackedFrom(binPacker, thisCellW, thisCellH, allowRotation, rects, placed)
      requires PagesAgree(atlases, sourceRects, usedRect)
      modifies this`atlases
      ensures |atlases| == |old(atlases)| + 1 && atlases[..|old(atlases)|] == old(atlases)
      ensures atlases[|atlases| - 1].width == thisCellW && atlases[|atlases| - 1].height == thisCellH
      ensures atlases[|atlases| - 1].occupancy == occupancy
      ensures PagesAgree(atlases, sourceRects, usedAfter)
      ensures |binPacker.usedRectangles| == |rects| ==> UnusedIndices(usedAfter) == []
    {
      ghost var sigma := CarryOverAssigned(sourceRects, usedRect, alignShift,
                                           binPacker.usedRectangles, placed, allowRotation);
      usedAfter := AppendPage(binPacker, occupancy, thisCellW, thisCellH, usedRect, sigma);
    }

    /**
     * One page of `build`: the page-size search from the configured size,
     * ending with the accepted packing matched back to sources and
     * appended as a page. `tried` lists the page sizes the passes tried;
     * `allUsed` says whether the accepted packing placed every rectangle
     * in `rects`, in which case no source is left unmatched.
     */
    method SearchPage(atlasWidth: int, atlasHeight: int, rects: seq<RectSize>, usedRect: seq<bool>)
      returns (allUsed: bool, usedAfter: seq<bool>, ghost tried: seq<(int, int)>, ghost passes: seq<PassResult>)
      requires 0 <= atlasWidth <= 16384 && 0 <= atlasHeight <= 16384
      requires NonNegativeSizes(sourceRects) && (|rects| > 0 || !allowOptimizeSize)
      requires |usedRect| == |sourceRects| && rects == CarryOver(sourceRects, usedRect, alignShift)
      requires PagesAgree(atlases, sourceRects, usedRect)
      modifies this`atlases, this`oversizeTextures
      ensures |atlases| == |old(atlases)| + 1 && atlases[..|old(atlases)|] == old(atlases)
      ensures PagesAgree(atlases, sourceRects, usedAfter)
      ensures SearchRun(Search(atlasWidth, atlasHeight, forceSquare, allowOptimizeSize), tried, passes)
      ensures PassesAt(rects, allowRotation, tried, passes)
      ensures atlases[|atlases| - 1].width == tried[|tried| - 1].0 && atlases[|atlases| - 1].height == tried[|tried| - 1].1
      ensures atlases[|atlases| - 1].occupancy == passes[|passes| - 1].occupancy && allUsed == passes[|passes| - 1].allUsed
      ensures allUsed ==> UnusedIndices(usedAfter) == []
    {
      CarryOverNonNegative(sourceRects, usedRect);
      var binPacker, occupancy, thisCellW, thisCellH;
      ghost var placed;
      binPacker, occupancy, allUsed, thisCellW, thisCellH, placed, tried, passes := SearchSize(atlasWidth, atlasHeight, rects);
      usedAfter := AcceptPage(binPacker, occupancy, thisCellW, thisCellH, rects, usedRect, placed);
    }

    /**
     * The passes of the page-size search, up to the accepted one: a size
     * that fits everything and is under-occupied is halved, one that
     * leaves a rectangle out is grown back and accepted on the next pass.
     */
    method SearchSize(atlasWidth: int, atlasHeight: int, rects: seq<RectSize>)
      returns (binPacker: MaxRectsBinPack, occupancy: Ratio, allUsed: bool, thisCellW: int, thisCellH: int,
               ghost placed: seq<int>, ghost tried: seq<(int, int)>, ghost passes: seq<PassResult>)
      requires 0 <= atlasWidth <= 16384 && 0 <= atlasHeight <= 16384
      requires NonNegativeSizes(rects) && (|rects| > 0 || !allowOptimizeSize)
      modifies this`oversizeTextures
      ensures PackedFrom(binPacker, thisCellW, thisCellH, allowRotation, rects, placed)
      ensures allUsed == (|binPacker.usedRectangles| == |rects|)
      ensures SearchRun(Search(atlasWidth, atlasHeight, forceSquare, allowOptimizeSize), tried, passes)
      ensures PassesAt(rects, allowRotation, tried, passes)
      ensures tried[|tried| - 1] == (thisCellW, thisCellH) && passes[|passes| - 1] == PassResult(occupancy, allUsed)
    {
      ghost var c := Search(atlasWidth, atlasHeight, forceSquare, allowOptimizeSize);
      var numPasses := 1;
      thisCellW, thisCellH := atlasWidth, atlasHeight;
      var reverted := false;
      tried, passes := [(thisCellW, thisCellH)], [];

      while numPasses > 0
        invariant numPasses == |tried| == |passes| + 1
        invariant tried[|tried| - 1] == (thisCellW, thisCellH)
        invariant SearchPrefix(c, tried, passes, |passes|)
        invariant PassesAt(rects, allowRotation, tried, passes)
        invariant reverted == RevertedBefore(passes, |passes|)
        invariant 0 <= thisCellW <= (if reverted then 2 * atlasWidth else atlasWidth)
        invariant 0 <= thisCellH <= (if reverted then 2 * atlasHeight else atlasHeight)
        decreases (if reverted then 0 else 1), thisCellW + thisCellH
      {
        binPacker, occupancy, allUsed, placed := RecordedPass(thisCellW, thisCellH, rects, tried, passes);
        ghost var cur := PassResult(occupancy, allUsed);
        SearchStep(c, tried, passes, cur);
        passes := passes + [cur];

        if Accepts(numPasses, occupancy, allUsed, reverted, allowOptimizeSize) {
          assert PassAccepted(c, passes, |passes| - 1);
          return;
        }
        if !allUsed {
          GrowingBounded(thisCellW, thisCellH, forceSquare, atlasWidth, atlasHeight);
          var next := NextCellSize(thisCellW, thisCellH, false, forceSquare, atlasWidth, atlasHeight);
          thisCellW, thisCellH := next.0, next.1;
          reverted := true;
        } else {
          PlacedGivesHeight(binPacker, thisCellW, thisCellH, allowRotation, rects, placed);
          HalvingShrinks(thisCellW, thisCellH, forceSquare, atlasWidth, atlasHeight);
          var next := NextCellSize(thisCellW, thisCellH, true, forceSquare, atlasWidth, atlasHeight);
          thisCellW, thisCellH := next.0, next.1;
        }
        tried := tried + [(thisCellW, thisCellH)];
        numPasses := numPasses + 1;
      }
      assert false;
    }

    /** One pass of the size search: the best packing at this page size and its occupancy. */
    method TryPass(width: int, height: int, rects: seq<RectSize>)
      returns (binPacker: MaxRectsBinPack, occupancy: Ratio, allUsed: bool, ghost placed: seq<int>)
      requires 0 <= width <= 32768 && 0 <= height <= 32768
      requires NonNegativeSizes(rects)
      modifies this`oversizeTextures
      ensures fresh(binPacker) && PackedFrom(binPacker, width, height, allowRotation, rects, placed)
      ensures allUsed == (|binPacker.usedRectangles| == |rects|)
      ensures occupancy == Ratio(SumArea(binPacker.usedRectangles), width * height)
      ensures PassResult(occupancy, allUsed) == PassOf(rects, allowRotation, (width, height))
    {
      var currRects := rects;
      ghost var wasted, chosen;
      binPacker, currRects, allUsed, placed, wasted, chosen := FindBestBinPacker(width, height, currRects);
      occupancy := binPacker.Occupancy();
    }

    /** The next pass of the size search, at the last size tried, recorded after the earlier ones. */
    method RecordedPass(width: int, height: int, rects: seq<RectSize>, ghost tried: seq<(int, int)>, ghost passes: seq<PassResult>)
      returns (binPacker: MaxRectsBinPack, occupancy: Ratio, allUsed: bool, ghost placed: seq<int>)
      requires 0 <= width <= 32768 && 0 <= height <= 32768
      requires NonNegativeSizes(rects)
      requires |tried| == |passes| + 1 && tried[|passes|] == (width, height) && PassesAt(rects, allowRotation, tried, passes)
      modifies this`oversizeTextures
      ensures PackedFrom(binPacker, width, height, allowRotation, rects, placed)
      ensures allUsed == (|binPacker.usedRectangles| == |rects|)
      ensures PassesAt(rects, allowRotation, tried, passes + [PassResult(occupancy, allUsed)])
    {
      binPacker, occupancy, allUsed, placed := TryPass(width, height, rects);
      PassesAtExtend(rects, allowRotation, tried, passes, PassResult(occupancy, allUsed));
    }

    /**
     * Packs the same rectangles with each heuristic of `Heuristics` on a
     * fresh width-by-height packer and keeps the packer that wastes the
     * least area, the earliest on ties. `wasted` lists each heuristic's waste.
     * The rectangle list comes back as it went in, because `insert` takes
     * its own copy.
     */
    method FindBestBinPacker(width: int, height: int, currRects: seq<RectSize>)
      returns (binPacker: MaxRectsBinPack, rectsBack: seq<RectSize>, allUsed: bool,
               ghost placed: seq<int>, ghost wasted: seq<int>, ghost chosen: int)
      requires 0 <= width <= 32768 && 0 <= height <= 32768
      requires NonNegativeSizes(currRects)
      modifies this`oversizeTextures
      ensures fresh(binPacker) && PackedFrom(binPacker, width, height, allowRotation, currRects, placed)
      ensures rectsBack == currRects
      ensures allUsed == (|binPacker.usedRectangles| == |currRects|)
      ensures |wasted| == |Heuristics| && 0 <= chosen < |wasted|
      ensures wasted[chosen] == Wasted(width, height, binPacker.usedRectangles)
      ensures forall i :: 0 <= i < |wasted| ==> wasted[chosen] <= wasted[i]
      ensures forall i :: 0 <= i < chosen ==> wasted[chosen] < wasted[i]
      ensures wasted == HeuristicWastes(width, height, allowRotation, currRects)
      ensures chosen == FirstLeast(wasted) && binPacker.Model() == Packed(Heuristics[chosen], width, height, allowRotation, currRects)
      ensures binPacker.Model() == BestPacking(width, height, allowRotation, currRects)
      ensures oversizeTextures
    {
      var binPackers, binPackerRects, binPackerAllUsed;
      ghost var placedBy;
      binPackers, binPackerRects, binPackerAllUsed, placedBy := PackWithEach(width, height, currRects);
      forall k | 0 <= k < |binPackers|
        ensures binPackers[k].binWidth == width && binPackers[k].binHeight == height
        ensures Wasted(width, height, binPackers[k].usedRectangles) < INT_MAX
      {
        FilledNonNegative(binPackers[k].usedRectangles, currRects, placedBy[k], allowRotation);
        WastedBelowIntMax(width, height, binPackers[k].usedRectangles);
      }
      var leastWastedIndex;
      leastWastedIndex, wasted := SelectLeastWasted(binPackers, width, height);
      rectsBack := binPackerRects[leastWastedIndex];
      allUsed := binPackerAllUsed[leastWastedIndex];
      binPacker := binPackers[leastWastedIndex];
      placed := placedBy[leastWastedIndex];
      chosen := leastWastedIndex;
      assert wasted == HeuristicWastes(width, height, allowRotation, currRects);
    }
  }

  // ---------------------------------------------------------------------
  // The sanity check
  // ---------------------------------------------------------------------

  /**
   * The rejection test of `build` as written: both "min" quantities are
   * computed with `max`, so the second disjunct can never add anything.
   */
  predicate RejectsAsWritten(maxDim: int, minDim: int, maxSize: int, minSize: int)
  {
    maxDim > maxSize || (maxDim <= maxSize && minDim > minSize)
  }

  /** Source `r` cannot go on any page: its aligned longer side exceeds the aligned longer page side. */
  predicate TooLarge(r: RectSize, atlasWidth: int, atlasHeight: int, s: nat)
  {
    var dim := Shr(Max(r.width, r.height) + Pow2(s) - 1, s);
    var size := Max(Shr(atlasWidth, s), Shr(atlasHeight, s));
    RejectsAsWritten(dim, dim, size, size)
  }

  /** With no alignment, a source is rejected exactly when its longer side exceeds `max(atlasWidth, atlasHeight)`. */
  lemma TooLargeIffLongerSide(r: RectSize, atlasWidth: int, atlasHeight: int)
    ensures TooLarge(r, atlasWidth, atlasHeight, 0) <==> Max(r.width, r.height) > Max(atlasWidth, atlasHeight)
  {
    AlignShiftZero(r, Max(r.width, r.height));
    AlignShiftZero(r, atlasWidth);
    AlignShiftZero(r, atlasHeight);
  }

  // ---------------------------------------------------------------------
  // Matching placed rectangles back to sources
  // ---------------------------------------------------------------------

  /** Source `i` has not been matched yet and its aligned size is `w` by `h`. */
  predicate UnusedOfSize(sources: seq<RectSize>, usedRect: seq<bool>, i: int, w: int, h: int, s: nat)
  {
    0 <= i < |sources| && i < |usedRect| && !usedRect[i] && Aligned(sources[i], s) == RectSize(w, h)
  }

  /** `i` is the first source that `UnusedOfSize` accepts. */
  predicate FirstUnusedOfSize(sources: seq<RectSize>, usedRect: seq<bool>, i: int, w: int, h: int, s: nat)
  {
    UnusedOfSize(sources, usedRect, i, w, h, s)
    && forall j :: 0 <= j < i ==> !UnusedOfSize(sources, usedRect, j, w, h, s)
  }

  /** An entry's size is its source's, swapped when the entry is flipped. */
  predicate EntryMatchesSource(e: Entry, r: RectSize)
  {
    if e.flipped then e.w == r.height && e.h == r.width else e.w == r.width && e.h == r.height
  }

  /** The rectangle an entry covers on its page. */
  function EntryRect(e: Entry): Rect
  {
    Rect(e.x, e.y, e.w, e.h)
  }

  /**
   * A witness that matching cannot fail: `sigma` gives each mapped
   * rectangle its own unused source of the same size up to a turn.
   */
  ghost predicate Assigned(sources: seq<RectSize>, usedRect: seq<bool>, mapped: seq<Rect>, sigma: seq<int>, s: nat)
  {
    |sigma| == |mapped|
    && (forall k :: 0 <= k < |sigma| ==>
          0 <= sigma[k] < |sources| && sigma[k] < |usedRect| && !usedRect[sigma[k]]
          && PlacedAs(mapped[k], Aligned(sources[sigma[k]], s), true))
    && (forall k, l :: 0 <= k < l < |sigma| ==> sigma[k] != sigma[l])
  }

  /**
   * When the first mapped rectangle takes source `m` (any unused source of
   * its size up to a turn), the others can still be given distinct unused
   * sources: the one that had `m` takes over the first rectangle's.
   */
  lemma ReassignStep(sources: seq<RectSize>, usedRect: seq<bool>, mapped: seq<Rect>, sigma: seq<int>, s: nat, m: int)
    returns (sigma2: seq<int>)
    requires Assigned(sources, usedRect, mapped, sigma, s) && |mapped| > 0
    requires 0 <= m < |sources| && m < |usedRect| && !usedRect[m]
    requires PlacedAs(mapped[0], Aligned(sources[m], s), true)
    ensures Assigned(sources, usedRect[m := true], mapped[1..], sigma2, s)
  {
    if p :| 1 <= p < |sigma| && sigma[p] == m {
      sigma2 := sigma[1..][p - 1 := sigma[0]];
    } else {
      sigma2 := sigma[1..];
    }
  }

  // ---------------------------------------------------------------------
  // The sources still to place
  // ---------------------------------------------------------------------

  /** The indices of the sources never matched, in ascending order. */
  function UnusedIndices(usedRect: seq<bool>): (r: seq<int>)
    ensures forall k :: 0 <= k < |r| ==> 0 <= r[k] < |usedRect| && !usedRect[r[k]]
    ensures forall k, l :: 0 <= k < l < |r| ==> r[k] < r[l]
    ensures forall i :: 0 <= i < |usedRect| && !usedRect[i] ==> i in r
  {
    if usedRect == [] then []
    else
      var init := UnusedIndices(usedRect[..|usedRect| - 1]);
      if usedRect[|usedRect| - 1] then init else init + [|usedRect| - 1]
  }

  /** A sequence without repeats has as many distinct values as entries. */
  lemma {:induction false} DistinctValues(s: seq<int>)
    requires forall j, l :: 0 <= j < l < |s| ==> s[j] != s[l]
    ensures |set x | x in s| == |s|
  {
    if s != [] {
      var init := s[..|s| - 1];
      DistinctValues(init);
      assert (set x | x in s) == (set x | x in init) + {s[|s| - 1]};
    }
  }

  /** A subset as large as the set holding it is all of it. */
  lemma SubsetAsLarge(a: set<int>, b: set<int>)
    requires a <= b && |a| == |b|
    ensures a == b
  {
    assert a * b == a && a + b == b && a - b == {};
    assert |a - b| + |b - a| + |a * b| == |a + b|;
    assert |b - a| == 0;
  }

  /** The sources flagged in `es` are among those unmatched before. */
  lemma FlaggedWereUnused(usedRect: seq<bool>, es: seq<int>)
    requires forall k :: 0 <= k < |es| ==> 0 <= es[k] < |usedRect| && !usedRect[es[k]]
    ensures (set x | x in es) <= (set x | x in UnusedIndices(usedRect))
  {
    var u := UnusedIndices(usedRect);
    forall x | x in es ensures x in u {
      var k :| 0 <= k < |es| && es[k] == x;
    }
  }

  /** As many distinct previously unmatched sources as there were unmatched ones are all of them. */
  lemma FlaggedAllUnused(usedRect: seq<bool>, es: seq<int>)
    requires |es| == |UnusedIndices(usedRect)|
    requires forall k :: 0 <= k < |es| ==> 0 <= es[k] < |usedRect| && !usedRect[es[k]]
    requires forall k, l :: 0 <= k < l < |es| ==> es[k] != es[l]
    ensures forall i :: 0 <= i < |usedRect| && !usedRect[i] ==> i in es
  {
    var u := UnusedIndices(usedRect);
    DistinctValues(es);
    DistinctValues(u);
    FlaggedWereUnused(usedRect, es);
    var setE, setU := set x | x in es, set x | x in u;
    assert setE <= setU;
    SubsetAsLarge(setE, setU);
    forall i | 0 <= i < |usedRect| && !usedRect[i] ensures i in es {
      assert i in u;
      assert i in setU;
    }
  }

  /**
   * Matching as many distinct sources as were unmatched, each of them
   * unmatched before, leaves no source unmatched.
   */
  lemma AllMatchedWhenFull(usedRect: seq<bool>, usedAfter: seq<bool>, entries: seq<Entry>)
    requires |usedAfter| == |usedRect| && |entries| == |UnusedIndices(usedRect)|
    requires forall k :: 0 <= k < |entries| ==> 0 <= entries[k].index < |usedRect| && !usedRect[entries[k].index]
    requires forall k, l :: 0 <= k < l < |entries| ==> entries[k].index != entries[l].index
    requires forall i :: 0 <= i < |usedRect| ==>
               (usedAfter[i] <==> usedRect[i] || exists k :: 0 <= k < |entries| && entries[k].index == i)
    ensures UnusedIndices(usedAfter) == []
  {
    var es := seq(|entries|, k requires 0 <= k < |entries| => entries[k].index);
    FlaggedAllUnused(usedRect, es);
    forall i | 0 <= i < |usedAfter| ensures usedAfter[i] {
      if !usedRect[i] {
        assert i in es;
        var k :| 0 <= k < |es| && es[k] == i;
        assert entries[k].index == i;
      }
    }
    AllUsedNoneLeft(usedAfter);
  }

  /** With every source matched, none is left over. */
  lemma {:induction false} AllUsedNoneLeft(usedRect: seq<bool>)
    requires forall i :: 0 <= i < |usedRect| ==> usedRect[i]
    ensures UnusedIndices(usedRect) == []
  {
    if usedRect != [] {
      AllUsedNoneLeft(usedRect[..|usedRect| - 1]);
    }
  }

  /** At the start of `build` no page exists and every aligned source is carried over. */
  lemma StartState(sources: seq<RectSize>, rects: seq<RectSize>, s: nat)
    requires |rects| == |sources| && forall k :: 0 <= k < |rects| ==> rects[k] == Aligned(sources[k], s)
    ensures PagesAgree([], sources, seq(|sources|, _ => false))
    ensures rects == CarryOver(sources, seq(|sources|, _ => false), s)
  {
    UnusedIndicesNoneUsed(|sources|);
    assert forall k :: 0 <= k < |rects| ==> rects[k] == CarryOver(sources, seq(|sources|, _ => false), s)[k];
  }

  /** Before any match, every source is still to place. */
  lemma {:induction false} UnusedIndicesNoneUsed(n: nat)
    ensures UnusedIndices(seq(n, _ => false)) == Iota(n)
  {
    if n > 0 {
      UnusedIndicesNoneUsed(n - 1);
      assert seq(n, _ => false)[..n - 1] == seq(n - 1, _ => false);
    }
  }

  /**
   * The rectangles the next page packs: the aligned sizes of the sources
   * never matched, in index order.
   */
  function CarryOver(sources: seq<RectSize>, usedRect: seq<bool>, s: nat): (rs: seq<RectSize>)
    requires |usedRect| == |sources|
    ensures |rs| == |UnusedIndices(usedRect)|
  {
    var idx := UnusedIndices(usedRect);
    seq(|idx|, k requires 0 <= k < |idx| => Aligned(sources[idx[k]], s))
  }

  /**
   * Every rectangle packed from the carried-over list has its own unused
   * source of the same size up to a turn, so matching the page never fails.
   */
  lemma CarryOverAssigned(sources: seq<RectSize>, usedRect: seq<bool>, s: nat,
                          mapped: seq<Rect>, placed: seq<int>, allowRotation: bool)
    returns (sigma: seq<int>)
    requires |usedRect| == |sources|
    requires Filled(mapped, CarryOver(sources, usedRect, s), placed, allowRotation)
    ensures Assigned(sources, usedRect, mapped, sigma, s)
  {
    var idx := UnusedIndices(usedRect);
    sigma := seq(|placed|, k requires 0 <= k < |placed| => idx[placed[k]]);
    forall k, l | 0 <= k < l < |sigma|
      ensures sigma[k] != sigma[l]
    {
      if placed[k] < placed[l] {
        assert idx[placed[k]] < idx[placed[l]];
      } else {
        assert idx[placed[l]] < idx[placed[k]];
      }
    }
  }

  // ---------------------------------------------------------------------
  // What the pages record
  // ---------------------------------------------------------------------

  /** Every entry of every page, page by page. */
  function AllEntries(pages: seq<Data>): seq<Entry>
  {
    if pages == [] then [] else AllEntries(pages[..|pages| - 1]) + pages[|pages| - 1].entries
  }

  /** Some page has an entry for source `i`. */
  ghost predicate Matched(pages: seq<Data>, i: int)
  {
    exists k :: 0 <= k < |AllEntries(pages)| && AllEntries(pages)[k].index == i
  }

  /** A page's entries lie inside the page and do not overlap. */
  ghost predicate PageValid(d: Data)
  {
    (forall k :: 0 <= k < |d.entries| ==> IsContainedIn(EntryRect(d.entries[k]), Bin(d.width, d.height)))
    && (forall k, l :: 0 <= k < l < |d.entries| ==> !Intersects(EntryRect(d.entries[k]), EntryRect(d.entries[l])))
  }

  /**
   * The pages describe a sound placement: every entry names its own
   * source, no source twice, with that source's size (turned when
   * flipped), and every page is valid.
   */
  ghost predicate PagesConsistent(pages: seq<Data>, sources: seq<RectSize>)
  {
    var es := AllEntries(pages);
    (forall k :: 0 <= k < |es| ==> 0 <= es[k].index < |sources| && EntryMatchesSource(es[k], sources[es[k].index]))
    && (forall k, l :: 0 <= k < l < |es| ==> es[k].index != es[l].index)
    && (forall p :: 0 <= p < |pages| ==> PageValid(pages[p]))
  }

  /** The match flags are exactly the sources some page holds. */
  ghost predicate PagesAgree(pages: seq<Data>, sources: seq<RectSize>, usedRect: seq<bool>)
  {
    |usedRect| == |sources|
    && PagesConsistent(pages, sources)
    && (forall i :: 0 <= i < |usedRect| ==> (usedRect[i] <==> Matched(pages, i)))
  }

  /**
   * The entries made so far for the first `|entries|` packed rectangles:
   * each covers its rectangle and names a distinct source that was unused
   * when the page began and is now flagged, with that source's size.
   */
  ghost predicate PartialPage(sources: seq<RectSize>, usedRect: seq<bool>, usedAfter: seq<bool>,
                              mapped: seq<Rect>, entries: seq<Entry>)
  {
    |entries| <= |mapped| && |usedAfter| == |usedRect|
    && (forall k :: 0 <= k < |entries| ==> EntryRect(entries[k]) == mapped[k])
    && (forall k :: 0 <= k < |entries| ==>
          0 <= entries[k].index < |usedRect| && entries[k].index < |sources| && !usedRect[entries[k].index]
          && usedAfter[entries[k].index] && EntryMatchesSource(entries[k], sources[entries[k].index]))
    && (forall k, l :: 0 <= k < l < |entries| ==> entries[k].index != entries[l].index)
    && (forall i :: 0 <= i < |usedRect| ==>
          (usedAfter[i] <==> usedRect[i] || exists k :: 0 <= k < |entries| && entries[k].index == i))
  }

  /** Matching the next packed rectangle to an unused source extends the partial page. */
  lemma PartialPageStep(sources: seq<RectSize>, usedRect: seq<bool>, usedAfter: seq<bool>,
                        mapped: seq<Rect>, entries: seq<Entry>, e: Entry)
    requires PartialPage(sources, usedRect, usedAfter, mapped, entries) && |entries| < |mapped|
    requires 0 <= e.index < |usedAfter| && e.index < |sources| && !usedAfter[e.index]
    requires EntryRect(e) == mapped[|entries|] && EntryMatchesSource(e, sources[e.index])
    ensures PartialPage(sources, usedRect, usedAfter[e.index := true], mapped, entries + [e])
  {
    var entries2 := entries + [e];
    var usedAfter2 := usedAfter[e.index := true];
    forall i | 0 <= i < |usedRect|
      ensures usedAfter2[i] <==> usedRect[i] || exists k :: 0 <= k < |entries2| && entries2[k].index == i
    {
      if i == e.index {
        assert entries2[|entries|].index == i;
      } else {
        if k :| 0 <= k < |entries2| && entries2[k].index == i {
          assert entries[k].index == i;
        }
        if k :| 0 <= k < |entries| && entries[k].index == i {
          assert entries2[k].index == i;
        }
      }
    }
  }

  /**
   * Appending a page whose entries are the packer's rectangles, each
   * matched to a distinct source that was unused, keeps the pages in
   * agreement with the updated flags.
   */
  lemma PageAppend(pages: seq<Data>, sources: seq<RectSize>, usedRect: seq<bool>, usedAfter: seq<bool>,
                   page: Data, mapped: seq<Rect>)
    requires PagesAgree(pages, sources, usedRect) && |usedAfter| == |usedRect|
    requires UsedValid(mapped, Bin(page.width, page.height))
    requires |page.entries| == |mapped|
    requires forall k :: 0 <= k < |mapped| ==> EntryRect(page.entries[k]) == mapped[k]
    requires forall k :: 0 <= k < |mapped| ==>
               0 <= page.entries[k].index < |usedRect| && !usedRect[page.entries[k].index]
               && EntryMatchesSource(page.entries[k], sources[page.entries[k].index])
    requires forall k, l :: 0 <= k < l < |mapped| ==> page.entries[k].index != page.entries[l].index
    requires forall i :: 0 <= i < |usedRect| ==>
               (usedAfter[i] <==> usedRect[i] || exists k :: 0 <= k < |mapped| && page.entries[k].index == i)
    ensures PagesAgree(pages + [page], sources, usedAfter)
  {
    var pages2 := pages + [page];
    AllEntriesAppend(pages, page);
    var oldEs, newEs := AllEntries(pages), page.entries;
    forall k | 0 <= k < |newEs|
      ensures !Matched(pages, newEs[k].index)
    {
    }
    EntriesAppendSound(oldEs, newEs, sources);
    forall i | 0 <= i < |usedAfter|
      ensures usedAfter[i] <==> Matched(pages2, i)
    {
      MatchedAppend(oldEs, newEs, i);
    }
    PageValidFrom(page, mapped);
    PagesValidAppend(pages, page);
  }

  lemma AllEntriesAppend(pages: seq<Data>, page: Data)
    ensures AllEntries(pages + [page]) == AllEntries(pages) + page.entries
  {
    assert (pages + [page])[..|pages|] == pages;
  }

  /** Concatenated entry lists stay sound when the new ones name sources the old ones do not. */
  lemma EntriesAppendSound(oldEs: seq<Entry>, newEs: seq<Entry>, sources: seq<RectSize>)
    requires forall k :: 0 <= k < |oldEs| ==>
               0 <= oldEs[k].index < |sources| && EntryMatchesSource(oldEs[k], sources[oldEs[k].index])
    requires forall k :: 0 <= k < |newEs| ==>
               0 <= newEs[k].index < |sources| && EntryMatchesSource(newEs[k], sources[newEs[k].index])
    requires forall k, l :: 0 <= k < l < |oldEs| ==> oldEs[k].index != oldEs[l].index
    requires forall k, l :: 0 <= k < l < |newEs| ==> newEs[k].index != newEs[l].index
    requires forall k, l :: 0 <= k < |oldEs| && 0 <= l < |newEs| ==> oldEs[k].index != newEs[l].index
    ensures var es := oldEs + newEs;
            (forall k :: 0 <= k < |es| ==> 0 <= es[k].index < |sources| && EntryMatchesSource(es[k], sources[es[k].index]))
            && (forall k, l :: 0 <= k < l < |es| ==> es[k].index != es[l].index)
  {
    var es := oldEs + newEs;
    forall k, l | 0 <= k < l < |es|
      ensures es[k].index != es[l].index
    {
      if k >= |oldEs| {
        assert es[k] == newEs[k - |oldEs|] && es[l] == newEs[l - |oldEs|];
      } else if l >= |oldEs| {
        assert es[l] == newEs[l - |oldEs|];
      }
    }
  }

  lemma MatchedAppend(oldEs: seq<Entry>, newEs: seq<Entry>, i: int)
    ensures (exists k :: 0 <= k < |oldEs + newEs| && (oldEs + newEs)[k].index == i)
            <==> (exists k :: 0 <= k < |oldEs| && oldEs[k].index == i)
                 || (exists k :: 0 <= k < |newEs| && newEs[k].index == i)
  {
    var es := oldEs + newEs;
    if k :| 0 <= k < |oldEs| && oldEs[k].index == i {
      assert es[k].index == i;
    }
    if k :| 0 <= k < |newEs| && newEs[k].index == i {
      assert es[|oldEs| + k].index == i;
    }
    if k :| 0 <= k < |es| && es[k].index == i {
      if k < |oldEs| {
        assert oldEs[k].index == i;
      } else {
        assert newEs[k - |oldEs|].index == i;
      }
    }
  }

  lemma PageValidFrom(page: Data, mapped: seq<Rect>)
    requires UsedValid(mapped, Bin(page.width, page.height))
    requires |page.entries| == |mapped|
    requires forall k :: 0 <= k < |mapped| ==> EntryRect(page.entries[k]) == mapped[k]
    ensures PageValid(page)
  {
  }

  lemma PagesValidAppend(pages: seq<Data>, page: Data)
    requires forall p :: 0 <= p < |pages| ==> PageValid(pages[p])
    requires PageValid(page)
    ensures forall p :: 0 <= p < |pages + [page]| ==> PageValid((pages + [page])[p])
  {
  }

  // ---------------------------------------------------------------------
  // The page-size search
  // ---------------------------------------------------------------------

  /** Whether a pass's packing becomes the page. */
  predicate Accepts(numPasses: int, occupancy: Ratio, allUsed: bool, reverted: bool, allowOptimizeSize: bool)
  {
    (numPasses == 1 && ExceedsHalf(occupancy))
    || (numPasses > 1 && ExceedsHalf(occupancy) && allUsed)
    || reverted
    || !allowOptimizeSize
  }

  /**
   * The size the search tries after a rejected pass: halve an
   * under-occupied page that holds everything, otherwise grow it back.
   */
  function NextCellSize(w: int, h: int, allUsed: bool, forceSquare: bool, atlasWidth: int, atlasHeight: int): (int, int)
  {
    if !allUsed then
      if forceSquare then (w * 2, h * 2)
      else if w < atlasWidth || h < atlasHeight then (if w < h then (w * 2, h) else (w, h * 2))
      else (w, h)
    else if forceSquare then (w / 2, h / 2)
    else if w < h then (w, h / 2)
    else (w / 2, h)
  }

  /** What a pass of the size search learns at one page size. */
  datatype PassResult = PassResult(occupancy: Ratio, allUsed: bool)

  /** The fixed settings of a page's size search. */
  datatype Search = Search(atlasWidth: int, atlasHeight: int, forceSquare: bool, allowOptimizeSize: bool)

  /**
   * A pass at page size `size`: the occupancy (placed area over bin area)
   * of the packing `findBestBinPacker` keeps, and whether it placed every
   * rectangle.
   */
  function PassOf(rects: seq<RectSize>, allowRotation: bool, size: (int, int)): PassResult
  {
    var p := BestPacking(size.0, size.1, allowRotation, rects);
    PassResult(Ratio(SumArea(p.used), p.binWidth * p.binHeight), |p.used| == |rects|)
  }

  /** `passes` holds the outcome of a pass at each of the first `|passes|` sizes of `tried`. */
  ghost predicate PassesAt(rects: seq<RectSize>, allowRotation: bool, tried: seq<(int, int)>, passes: seq<PassResult>)
  {
    |passes| <= |tried|
    && forall k {:trigger PassOf(rects, allowRotation, tried[k])} :: 0 <= k < |passes| ==> passes[k] == PassOf(rects, allowRotation, tried[k])
  }

  /** The outcome of the current pass joins the recorded ones. */
  lemma PassesAtExtend(rects: seq<RectSize>, allowRotation: bool, tried: seq<(int, int)>,
                       passes: seq<PassResult>, cur: PassResult)
    requires |passes| < |tried| && PassesAt(rects, allowRotation, tried, passes)
    requires cur == PassOf(rects, allowRotation, tried[|passes|])
    ensures PassesAt(rects, allowRotation, tried, passes + [cur])
  {
    var ps := passes + [cur];
    forall k | 0 <= k < |ps| ensures ps[k] == PassOf(rects, allowRotation, tried[k]) {
      if k < |passes| {
        assert ps[k] == passes[k];
      }
    }
  }

  /** Whether a pass before pass `k` left a rectangle out, which sets `reverted`. */
  predicate RevertedBefore(passes: seq<PassResult>, k: int)
  {
    exists j :: 0 <= j < k && j < |passes| && !passes[j].allUsed
  }

  /** Whether pass `k` (counted from 0) becomes the page. */
  predicate PassAccepted(c: Search, passes: seq<PassResult>, k: int)
    requires 0 <= k < |passes|
  {
    Accepts(k + 1, passes[k].occupancy, passes[k].allUsed, RevertedBefore(passes, k), c.allowOptimizeSize)
  }

  /**
   * The first `n` passes of the search: the sizes tried start at the
   * configured size, and each of these passes, with outcome `passes[k]`,
   * was rejected and led to the next size by `NextCellSize`.
   */
  predicate SearchPrefix(c: Search, tried: seq<(int, int)>, passes: seq<PassResult>, n: int)
  {
    0 <= n < |tried| && n <= |passes| && tried[0] == (c.atlasWidth, c.atlasHeight)
    && forall k :: 0 <= k < n ==>
         !PassAccepted(c, passes, k)
         && tried[k + 1] == NextCellSize(tried[k].0, tried[k].1, passes[k].allUsed,
                                         c.forceSquare, c.atlasWidth, c.atlasHeight)
  }

  /** A whole search: every pass but the last is rejected and the last is accepted. */
  predicate SearchRun(c: Search, tried: seq<(int, int)>, passes: seq<PassResult>)
  {
    |passes| == |tried| && SearchPrefix(c, tried, passes, |passes| - 1) && PassAccepted(c, passes, |passes| - 1)
  }

  /** Whether a pass was reverted depends only on the passes before it. */
  lemma RevertedAgree(p1: seq<PassResult>, p2: seq<PassResult>, k: int)
    requires 0 <= k <= |p1| && k <= |p2| && p1[..k] == p2[..k]
    ensures RevertedBefore(p1, k) == RevertedBefore(p2, k)
  {
    forall j | 0 <= j < k ensures p1[j] == p2[j] {
      assert p1[j] == p1[..k][j];
    }
  }

  /**
   * Recording the outcome of the current pass keeps the passes before it
   * as they were; when it is rejected, the search goes on at the next size
   * and is reverted from then on exactly when it or an earlier pass left a
   * rectangle out.
   */
  lemma SearchStep(c: Search, tried: seq<(int, int)>, passes: seq<PassResult>, cur: PassResult)
    requires SearchPrefix(c, tried, passes, |passes|) && |tried| == |passes| + 1
    ensures SearchPrefix(c, tried, passes + [cur], |passes|)
    ensures RevertedBefore(passes + [cur], |passes|) == RevertedBefore(passes, |passes|)
    ensures RevertedBefore(passes + [cur], |passes| + 1) <==> RevertedBefore(passes, |passes|) || !cur.allUsed
    ensures PassAccepted(c, passes + [cur], |passes|)
              == Accepts(|passes| + 1, cur.occupancy, cur.allUsed, RevertedBefore(passes, |passes|), c.allowOptimizeSize)
    ensures PassAccepted(c, passes + [cur], |passes|) ==> SearchRun(c, tried, passes + [cur])
    ensures !PassAccepted(c, passes + [cur], |passes|) ==>
              var last := tried[|tried| - 1];
              SearchPrefix(c, tried + [NextCellSize(last.0, last.1, cur.allUsed, c.forceSquare, c.atlasWidth, c.atlasHeight)],
                           passes + [cur], |passes| + 1)
  {
    var ps := passes + [cur];
    forall k | 0 <= k <= |passes|
      ensures RevertedBefore(ps, k) == RevertedBefore(passes, k)
    {
      assert ps[..k] == passes[..k];
      RevertedAgree(ps, passes, k);
    }
    forall k | 0 <= k < |passes|
      ensures PassAccepted(c, ps, k) == PassAccepted(c, passes, k)
    {
      assert ps[k] == passes[k];
    }
    if RevertedBefore(ps, |passes| + 1) && !RevertedBefore(passes, |passes|) {
      var j :| 0 <= j < |passes| + 1 && !ps[j].allUsed;
    }
    if !cur.allUsed {
      assert !ps[|passes|].allUsed;
    }
  }

  /** Two runs with the same settings and the same outcome at each size agree on their first `n` passes. */
  lemma {:induction false} SearchPrefixesAgree(c: Search, pass: ((int, int)) -> PassResult,
                                               t1: seq<(int, int)>, p1: seq<PassResult>,
                                               t2: seq<(int, int)>, p2: seq<PassResult>, n: int)
    requires SearchRun(c, t1, p1) && SearchRun(c, t2, p2) && 0 < n <= |t1| && n <= |t2|
    requires forall k :: 0 <= k < |t1| ==> p1[k] == pass(t1[k])
    requires forall k :: 0 <= k < |t2| ==> p2[k] == pass(t2[k])
    ensures t1[..n] == t2[..n] && p1[..n] == p2[..n]
  {
    if n > 1 {
      SearchPrefixesAgree(c, pass, t1, p1, t2, p2, n - 1);
      assert t1[n - 2] == t1[..n - 1][n - 2];
      assert p1[n - 2] == p1[..n - 1][n - 2];
      assert t1[..n] == t1[..n - 1] + [t1[n - 1]] && p1[..n] == p1[..n - 1] + [p1[n - 1]];
      assert t2[..n] == t2[..n - 1] + [t2[n - 1]] && p2[..n] == p2[..n - 1] + [p2[n - 1]];
    } else {
      assert t1[..1] == [t1[0]] && t2[..1] == [t2[0]] && p1[..1] == [p1[0]] && p2[..1] == [p2[0]];
    }
  }

  /** The search is fixed by its settings and the outcome at each size: there is only one run. */
  lemma SearchRunUnique(c: Search, pass: ((int, int)) -> PassResult,
                        t1: seq<(int, int)>, p1: seq<PassResult>, t2: seq<(int, int)>, p2: seq<PassResult>)
    requires SearchRun(c, t1, p1) && SearchRun(c, t2, p2)
    requires forall k :: 0 <= k < |t1| ==> p1[k] == pass(t1[k])
    requires forall k :: 0 <= k < |t2| ==> p2[k] == pass(t2[k])
    ensures t1 == t2 && p1 == p2
  {
    var n := if |t1| < |t2| then |t1| else |t2|;
    SearchPrefixesAgree(c, pass, t1, p1, t2, p2, n);
    assert p1[..n - 1] == p2[..n - 1];
    RevertedAgree(p1, p2, n - 1);
    assert p1[n - 1] == p1[..n][n - 1];
    assert PassAccepted(c, p1, n - 1) == PassAccepted(c, p2, n - 1);
    assert t1 == t1[..n] && t2 == t2[..n] && p1 == p1[..n] && p2 == p2[..n];
  }

  /** The carried-over sizes are non-negative when the sources are. */
  lemma CarryOverNonNegative(sources: seq<RectSize>, usedRect: seq<bool>)
    requires |usedRect| == |sources| && NonNegativeSizes(sources)
    ensures NonNegativeSizes(CarryOver(sources, usedRect, 0))
  {
    var rs := CarryOver(sources, usedRect, 0);
    forall k | 0 <= k < |rs|
      ensures rs[k].width >= 0 && rs[k].height >= 0
    {
      var i := UnusedIndices(usedRect)[k];
      AlignShiftZero(sources[i], 0);
    }
  }

  /** A packer that placed anything has a page at least one unit tall. */
  lemma PlacedGivesHeight(p: MaxRectsBinPack, width: int, height: int, allowRotation: bool,
                          rects: seq<RectSize>, placed: seq<int>)
    requires PackedFrom(p, width, height, allowRotation, rects, placed)
    requires NonNegativeSizes(rects) && |p.usedRectangles| > 0
    ensures height >= 1
  {
    var n := p.usedRectangles[0];
    assert IsContainedIn(n, Bin(width, height));
    assert PlacedAs(n, rects[placed[0]], allowRotation) && n.height != 0;
  }

  /** Halving a page with a non-zero height shrinks its perimeter and keeps both sides non-negative. */
  lemma HalvingShrinks(w: int, h: int, forceSquare: bool, atlasWidth: int, atlasHeight: int)
    requires 0 <= w && 1 <= h
    ensures var (w2, h2) := NextCellSize(w, h, true, forceSquare, atlasWidth, atlasHeight);
            0 <= w2 <= w && 0 <= h2 <= h && w2 + h2 < w + h
  {
  }

  /** Growing a page that has not yet grown keeps each side within twice the configured size. */
  lemma GrowingBounded(w: int, h: int, forceSquare: bool, atlasWidth: int, atlasHeight: int)
    requires 0 <= w <= atlasWidth && 0 <= h <= atlasHeight
    ensures var (w2, h2) := NextCellSize(w, h, false, forceSquare, atlasWidth, atlasHeight);
            w <= w2 <= 2 * atlasWidth && h <= h2 <= 2 * atlasHeight
  {
  }

  /** A sequence with no repeated value holds each value at most once. */
  lemma {:induction false} DistinctCount(s: seq<int>, v: int)
    requires forall j, l :: 0 <= j < l < |s| ==> s[j] != s[l]
    ensures multiset(s)[v] <= 1
  {
    if s != [] {
      var init := s[..|s| - 1];
      assert s == init + [s[|s| - 1]];
      DistinctCount(init, v);
      if v == s[|s| - 1] {
        assert v !in init;
      }
    }
  }

  /** The indices an insert placed are distinct: together with the unplaced ones they are a permutation of 0..n-1. */
  lemma PlacedWithin(placed: seq<int>, unplaced: seq<int>, n: nat)
    requires multiset(placed) + multiset(unplaced) == multiset(Iota(n))
    ensures forall j, l :: 0 <= j < l < |placed| ==> placed[j] != placed[l]
  {
    forall j, l | 0 <= j < l < |placed|
      ensures placed[j] != placed[l]
    {
      if placed[j] == placed[l] {
        var v := placed[j];
        assert placed == placed[..l] + [v] + placed[l + 1..];
        assert v in multiset(placed[..l]);
        assert multiset(placed)[v] >= 2;
        DistinctCount(Iota(n), v);
        assert false;
      }
    }
  }

  // ---------------------------------------------------------------------
  // The page loop as written
  // ---------------------------------------------------------------------

  /**
   * The list the loop of `build` as written hands to the next page: the
   * one `findBestBinPacker` gave back, which is the one it was given,
   * because `insert` packs its own copy. Matches made so far do not
   * shorten it.
   */
  function CarryOverAsWritten(sources: seq<RectSize>, usedRect: seq<bool>, s: nat): (rs: seq<RectSize>)
    requires |usedRect| == |sources|
    ensures |rs| == |sources| && forall k :: 0 <= k < |rs| ==> rs[k] == Aligned(sources[k], s)
  {
    seq(|sources|, k requires 0 <= k < |sources| => Aligned(sources[k], s))
  }

  /**
   * Sources 2x2 and 1x1 on a 2x2 page: the first page takes the 2x2 one.
   * The list as written still offers the 2x2 size, and a 2x2 page packing
   * it holds that rectangle alone; no still-unused source has that size
   * either way round, so no assignment of sources exists, matching yields
   * -1 and the flag write is out of range. The corrected carry-over holds
   * only the 1x1 source.
   */
  lemma AsWrittenRepackFindsNoSource()
    ensures var sources := [RectSize(2, 2), RectSize(1, 1)];
            var usedRect := [true, false];
            var page := [Rect(0, 0, 2, 2)];
            UsedValid(page, Bin(2, 2)) && Filled(page, CarryOverAsWritten(sources, usedRect, 0), [0], false)
            && (forall i :: !UnusedOfSize(sources, usedRect, i, 2, 2, 0))
            && (forall sigma :: !Assigned(sources, usedRect, page, sigma, 0))
            && CarryOver(sources, usedRect, 0) == [RectSize(1, 1)]
  {
    var sources := [RectSize(2, 2), RectSize(1, 1)];
    var usedRect := [true, false];
    var page := [Rect(0, 0, 2, 2)];
    AlignShiftZero(sources[0], 0);
    AlignShiftZero(sources[1], 0);
    forall sigma
      ensures !Assigned(sources, usedRect, page, sigma, 0)
    {
      if |sigma| == 1 && 0 <= sigma[0] < 2 {
        assert sigma[0] == 1 ==> !PlacedAs(page[0], Aligned(sources[1], 0), true);
      }
    }
    assert UnusedIndices(usedRect) == [1] by {
      assert usedRect[..1] == [true];
      assert [true][..0] == [];
    }
  }

  /** A packer holding nothing from an empty list: every rectangle is used and the occupancy is zero over the page. */
  lemma EmptyPacking(p: MaxRectsBinPack, width: int, height: int, allowRotation: bool, placed: seq<int>)
    requires PackedFrom(p, width, height, allowRotation, [], placed)
    ensures p.usedRectangles == [] && SumArea(p.usedRectangles) == 0
  {
    PlacedFromSome(p.usedRectangles, [], placed, allowRotation);
  }

  /** Something placed means something to place from. */
  lemma PlacedFromSome(used: seq<Rect>, rects: seq<RectSize>, placed: seq<int>, allowRotation: bool)
    requires Filled(used, rects, placed, allowRotation)
    ensures |placed| > 0 ==> |rects| > 0
  {
    if |placed| > 0 {
      assert 0 <= placed[0] < |rects|;
    }
  }

  /** The sides the size search tries for an empty list: each pass halves, as every rectangle is used. */
  function EmptySearchSize(n: nat, w: int, h: int, forceSquare: bool): (int, int)
  {
    if n == 0 then (w, h)
    else
      var (w1, h1) := EmptySearchSize(n - 1, w, h, forceSquare);
      NextCellSize(w1, h1, true, forceSquare, w, h)
  }

  /**
   * With an empty list and size optimisation on, no pass of the search as
   * written accepts: the occupancy is zero (NaN once the page is empty),
   * never above one half, nothing is unused so the search never reverts,
   * and halving ends at a 0x0 page it keeps trying. The inner loop of
   * `build` does not end.
   */
  lemma {:induction false} AsWrittenEmptySearchNeverEnds(n: nat, w: int, h: int, forceSquare: bool)
    requires 0 <= w && 0 <= h
    ensures var (wn, hn) := EmptySearchSize(n, w, h, forceSquare);
            0 <= wn && 0 <= hn && !Accepts(n + 1, Ratio(0, wn * hn), true, false, true)
    ensures n > 0 && EmptySearchSize(n - 1, w, h, forceSquare) == (0, 0) ==> EmptySearchSize(n, w, h, forceSquare) == (0, 0)
  {
    if n > 0 {
      AsWrittenEmptySearchNeverEnds(n - 1, w, h, forceSquare);
    }
    var (wn, hn) := EmptySearchSize(n, w, h, forceSquare);
    assert wn * hn >= 0;
  }

  /** A pass over an empty list places nothing: occupancy 0 over the page area, and nothing left out. */
  lemma EmptyPass(allowRotation: bool, size: (int, int))
    ensures PassOf([], allowRotation, size) == PassResult(Ratio(0, size.0 * size.1), true)
  {
    var m := Heuristics[FirstLeast(HeuristicWastes(size.0, size.1, allowRotation, []))];
    var p := Packer(allowRotation, size.0, size.1, [], [Rect(0, 0, size.0, size.1)]);
    assert BestRect(m, p, []).index == -1;
    assert BestPacking(size.0, size.1, allowRotation, []) == p;
  }

  /**
   * The size search of the reference definition over an empty list, with
   * size optimisation on, rejects every pass, so it has no run at all:
   * the search as written does not end.
   */
  lemma EmptySearchHasNoRun(c: Search, allowRotation: bool, tried: seq<(int, int)>, passes: seq<PassResult>)
    requires c.allowOptimizeSize && PassesAt([], allowRotation, tried, passes)
    ensures forall k :: 0 <= k < |passes| ==> !PassAccepted(c, passes, k)
    ensures !SearchRun(c, tried, passes)
  {
    forall j | 0 <= j < |passes| ensures passes[j] == PassResult(Ratio(0, tried[j].0 * tried[j].1), true) {
      EmptyPass(allowRotation, tried[j]);
    }
  }
}

