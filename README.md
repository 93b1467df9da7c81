# XPressions texture atlas, modelled in Dafny

XPressions builds texture atlases for emote sprite collections in two places:

- EmoteBuilder, a Qt desktop tool. It trims each frame to its opaque pixels, packs the frames into pages with the MaxRects bin packer, and blits every frame into its page, turning flipped frames.
- The in-game tk2d sprite-collection builder. It processes each sprite texture (trim, pad, optional dicing into tiles), removes duplicates by source and by content hash, packs the remaining textures with the same packer, composites the pages, cuts sprites back out (`SubTexture` / `UndoFlip`), and fills each sprite's vertex index lists.

This project models those steps. It covers the integer, index and pixel-copy parts; floating-point geometry is not modelled. Every module is proved against a specification. Each module follows one source file, or one part of the large tk2d builder:

| module | models |
|---|---|
| `AtlasRect` | `Rect`, containment, copy, and the separating-axis overlap test |
| `MaxRects` | class `MaxRectsBinPack`: the five placement heuristics, split, prune, single and batch insert, occupancy |
| `AtlasBuilder` | class `Builder`: `findBestBinPacker`, `build` with its page-size search, source matching and carry-over |
| `AtlasBlit` | the frame blit of the EmoteBuilder `rebuild` |
| `Pixels` | classes `Texture` (Unity, coordinates wrap) and `Image` (Qt, out-of-range writes ignored) |
| `Trim` | `trimImage` |
| `TextureUtility` | `SubTexture` and `UndoFlip` |
| `SpritePad` | `GetPadAmount`, `PadTexture`, `TextureRectFullySolid` |
| `SpriteProcess` | `ProcessTexture` |
| `DiceGrid` | the dice grid |
| `SpriteLuts` | the sprite lookup-table (lut) invariant |
| `SpriteCatalogue` | the catalogue loop |
| `SpriteHash` | `SetSpriteLutHash` |
| `SpriteDedup` | hash deduplication and the texture list |
| `AtlasCompositor` | the page compositor |
| `RebuildGuard` | the `currentBuild` re-entrancy guard |
| `VertexCache` | the index parts of `UpdateVertexCache` |

The main results:

- **Packing.**
  - Every placed rectangle lies in the bin and overlaps no other placed rectangle.
  - Free rectangles stay in the bin and clear of placed ones; splitting loses no free cell; pruning leaves no free rectangle inside another.
  - A heuristic finds a node exactly when some free rectangle has room.
  - The batch insert partitions the input indices into placed and unplaced ones, and each of its rounds places the rectangle a reference definition picks.
  - Pruning drops exactly the entries the source's pair loop drops, keeping the survivors in order.
- **Page building.** The page loop is modelled with the corrected carry-over of Findings row 1: as written, `builder.cpp:204` hands every page after the first the full list again.
  - Every entry of every page is a distinct source of the same size, turned when flipped. The never-placed sources are listed in order.
  - Each page's size is the one a reference definition of the size search accepts, and that run is unique.
  - With the corrected carry-over, the loop stops only when every source is matched or the page limit is reached.
- **Blitting.** A frame blitted into a page and cut back out with the corrected `SubTexture` comes back unchanged; as written, a flipped frame comes back shifted one column.
- **Textures.**
  - Trimming keeps every opaque pixel inside a unique tight box.
  - Padding keeps the interior, clamps the border in extend mode, and fills it as the pad mode says in every other mode.
  - The dice tiles partition the texture.
- **Deduplication.**
  - The lut list keeps dense texture slots, with every duplicate linked to an earlier original.
  - With the corrected merge of Findings row 3, hash deduplication marks a lut as a duplicate exactly when an earlier lut has its hash, and keeps the slot invariant. As written, `tk2dSpriteCollectionBuilder.cs:684-690` can leave a lut naming a freed slot.
  - Two hash buffers are equal exactly when the textures have the same size and pixels.
- **Vertex cache.**
  - Regrouping by material is a permutation that moves all lists in lockstep.
  - Double-sided and island triangles are wound the other way.

## Model

| member | source | states |
|---|---|---|
| AtlasRect.Copy | EmoteBuilder/atlas_rect.cpp:10-18 | the copy has the same position and size as the original |
| AtlasRect.ContainedReflexive | EmoteBuilder/atlas_rect.cpp:3-8 | every rectangle is contained in itself |
| AtlasRect.ContainedTransitive | EmoteBuilder/atlas_rect.cpp:3-8 | containment is transitive |
| AtlasRect.ContainedAntisymmetric | EmoteBuilder/atlas_rect.cpp:3-8 | mutual containment of rectangles with non-negative sizes means equality |
| AtlasRect.ContainedIffCells | EmoteBuilder/atlas_rect.cpp:3-8 | for a non-empty rectangle, containment holds exactly when each of its unit cells is a cell of the container |
| AtlasRect.IntersectsIffSharedCell | EmoteBuilder/max_rects_bin_pack.cpp:419-421 | for non-empty rectangles, failing the separating-axis test means sharing a unit cell |
| AtlasRect.SharedCellIntersects | EmoteBuilder/max_rects_bin_pack.cpp:419-421 | a shared cell always fails the separating-axis test |
| AtlasRect.ContainedDisjoint | EmoteBuilder/max_rects_bin_pack.cpp:158-174 | a node placed inside a region disjoint from a used rectangle is disjoint from it too |
| MaxRects.CommonIntervalLength | EmoteBuilder/max_rects_bin_pack.cpp:509-514 | the result is never negative and is 0 for disjoint intervals |
| MaxRects.CommonIntervalLengthIsOverlap | EmoteBuilder/max_rects_bin_pack.cpp:509-514 | for well-formed intervals the result counts exactly the integers shared by the two intervals |
| MaxRects.ContactPointScoreNonNegative | EmoteBuilder/max_rects_bin_pack.cpp:177-194 | with non-negative sizes the contact score is never negative, so any fit beats the initial -1 |
| MaxRects.FindBestSound | EmoteBuilder/max_rects_bin_pack.cpp:196-413 | each heuristic returns its starting node or a legal placement inside a free rectangle, rotated only when allowed |
| MaxRects.FindBestNoWorseThanInit | EmoteBuilder/max_rects_bin_pack.cpp:196-413 | the search's result is never beaten by its starting point |
| MaxRects.FindBestOptimal | EmoteBuilder/max_rects_bin_pack.cpp:196-413 | no legal placement at any free rectangle scores strictly better than the result under the heuristic's ordering |
| MaxRects.FoundNodeFits | EmoteBuilder/max_rects_bin_pack.cpp:196-413 | a result of non-zero height lies inside a free rectangle and has the rectangle's size, turned only when allowed |
| MaxRects.ContactPointUsesUprightSize | EmoteBuilder/max_rects_bin_pack.cpp:401 | contact-point scores a turned placement with the upright width and height |
| MaxRects.SplitPieces | EmoteBuilder/max_rects_bin_pack.cpp:416-464 | at most four pieces, and none when the node misses the free rectangle; SplitPiecesSound and SplitPiecesCover state what the pieces are |
| MaxRects.SplitPiecesSound | EmoteBuilder/max_rects_bin_pack.cpp:416-464 | every piece lies inside the split free rectangle and does not overlap the placed node |
| MaxRects.SplitPiecesCover | EmoteBuilder/max_rects_bin_pack.cpp:416-464 | every cell of the free rectangle outside the node is covered by a piece, so splitting loses no free space |
| MaxRects.AfterSplitSound | EmoteBuilder/max_rects_bin_pack.cpp:158-174 | after the split pass every free rectangle lies inside an old one and clear of the node |
| MaxRects.AfterSplitCovers | EmoteBuilder/max_rects_bin_pack.cpp:158-174 | every old free cell outside the node is still covered after the split pass |
| MaxRects.PassStepSplit | EmoteBuilder/max_rects_bin_pack.cpp:163-169 | an overlapped free rectangle is removed in place and its pieces are appended; the index does not advance |
| MaxRects.PassStepKeep | EmoteBuilder/max_rects_bin_pack.cpp:163-169 | a free rectangle the node misses stays where it is |
| MaxRects.PruneStep | EmoteBuilder/max_rects_bin_pack.cpp:489-505 | removing an entry that lies inside another keeps the list drawn from the original, keeps every original entry inside some entry, and keeps earlier positions settled |
| MaxRects.PruneDone | EmoteBuilder/max_rects_bin_pack.cpp:467-506 | once every position is settled the list is pruned: drawn from the input, no entry inside another, every input entry inside a kept one |
| MaxRects.MovePlaced | EmoteBuilder/max_rects_bin_pack.cpp:60-61 | moving a placed index out of the remaining list keeps placed plus remaining a partition of the input indices |
| MaxRects.PlacedUsedValid | EmoteBuilder/max_rects_bin_pack.cpp:173 | a node inside a free rectangle can join the used rectangles: it is in the bin and overlaps none of them |
| MaxRects.PlacedFreeValid | EmoteBuilder/max_rects_bin_pack.cpp:158-174 | after split and prune every free rectangle lies in the bin and misses every used rectangle, the new node included |
| MaxRects.PlacementOutcome | EmoteBuilder/max_rects_bin_pack.cpp:158-174 | no free rectangle left after the split overlaps the node, and a node inside an old free rectangle keeps the used and free lists valid |
| MaxRects.LegalFitBeatsStart | EmoteBuilder/max_rects_bin_pack.cpp:196-413 | in a bounded packer any legal placement of a positive-size rectangle beats the search's initial score |
| MaxRects.FoundIffRoom | EmoteBuilder/max_rects_bin_pack.cpp:196-413 | a search finds a node (non-zero height) exactly when some free rectangle has room for the rectangle, turned when allowed |
| MaxRects.ScoredNodeFits | EmoteBuilder/max_rects_bin_pack.cpp:131-155 | a score better than no fit comes with a node inside a free rectangle of the rectangle's size |
| MaxRects.ScoreIffRoom | EmoteBuilder/max_rects_bin_pack.cpp:131-155 | the score beats no fit exactly when there is room |
| MaxRects.BestRectSpec | EmoteBuilder/max_rects_bin_pack.cpp:42-55 | a round's winner is -1 exactly when nothing fits, otherwise the first rectangle with the best score |
| MaxRects.MaxRectsBinPack.constructor | EmoteBuilder/max_rects_bin_pack.cpp:5-8 | a 0x0 bin without rotation, with empty lists, satisfying the invariant |
| MaxRects.MaxRectsBinPack.Init | EmoteBuilder/max_rects_bin_pack.cpp:10-26 | the bin size and rotation flag are set, nothing is used, and one free rectangle covers the whole bin |
| MaxRects.MaxRectsBinPack.UsedSurfaceArea | EmoteBuilder/max_rects_bin_pack.cpp:109-116 | the sum of the areas of the used rectangles |
| MaxRects.MaxRectsBinPack.Occupancy | EmoteBuilder/max_rects_bin_pack.cpp:109-116 | used area over bin area, as an exact ratio |
| MaxRects.MaxRectsBinPack.WastedBinArea | EmoteBuilder/max_rects_bin_pack.cpp:118-125 | bin area minus used area |
| MaxRects.MaxRectsBinPack.ContactPointScoreNode | EmoteBuilder/max_rects_bin_pack.cpp:177-194 | the edge length the node shares with the bin borders and the used rectangles |
| MaxRects.MaxRectsBinPack.FindPositionForNewNodeBottomLeft | EmoteBuilder/max_rects_bin_pack.cpp:196-233 | the placement with the lowest top edge, then leftmost, over all free rectangles and orientations, or the zero node |
| MaxRects.MaxRectsBinPack.FindPositionForNewNodeBestShortSideFit | EmoteBuilder/max_rects_bin_pack.cpp:235-282 | the placement minimising the short leftover side, then the long one |
| MaxRects.MaxRectsBinPack.FindPositionForNewNodeBestLongSideFit | EmoteBuilder/max_rects_bin_pack.cpp:284-329 | the placement minimising the long leftover side, then the short one |
| MaxRects.MaxRectsBinPack.FindPositionForNewNodeBestAreaFit | EmoteBuilder/max_rects_bin_pack.cpp:331-377 | the placement minimising the leftover area, then the short side |
| MaxRects.MaxRectsBinPack.FindPositionForNewNodeContactPoint | EmoteBuilder/max_rects_bin_pack.cpp:379-413 | the placement with the largest contact score |
| MaxRects.MaxRectsBinPack.FindPosition | EmoteBuilder/max_rects_bin_pack.cpp:138-154 | dispatches to the chosen heuristic's search and reports its scores in smaller-is-better form |
| MaxRects.MaxRectsBinPack.ScoreRect | EmoteBuilder/max_rects_bin_pack.cpp:131-155 | the node and both scores are those the heuristic's specification gives for the current free list (INT_MAX scores when nothing fits) |
| MaxRects.MaxRectsBinPack.SplitFreeNode | EmoteBuilder/max_rects_bin_pack.cpp:416-464 | returns whether the rectangles overlap and appends exactly the split pieces when they do, nothing otherwise |
| MaxRects.MaxRectsBinPack.PruneFreeList | EmoteBuilder/max_rects_bin_pack.cpp:467-506 | the new list is `Pruned` of the old one, the pair loop's exact result; it is drawn from the old one, no entry lies inside another, and every old entry lies inside a kept one |
| MaxRects.PrunedKeepsOrder | EmoteBuilder/max_rects_bin_pack.cpp:489-505 | the pruned list is a subsequence of the input, survivors in their old order, and of identical entries only the last copy can survive |
| MaxRects.PruneFromOrdered | EmoteBuilder/max_rects_bin_pack.cpp:489-505 | from position i on, the pair loop keeps a subsequence of the list in order, never an earlier copy of an entry repeated later |
| MaxRects.PruneEntryOrdered | EmoteBuilder/max_rects_bin_pack.cpp:491-504 | the inner loop over j keeps a subsequence in order, never an earlier copy of an entry repeated later |
| MaxRects.PruneDropsEntry | EmoteBuilder/max_rects_bin_pack.cpp:494-499 | when entry i lies in entry j and is erased, the rest of the pass still keeps an ordered subsequence with no earlier copy of an identical rectangle |
| MaxRects.PruneDropsOther | EmoteBuilder/max_rects_bin_pack.cpp:500-504 | the same when entry j lies in entry i and is erased |
| MaxRects.MaxRectsBinPack.PruneAgainst | EmoteBuilder/max_rects_bin_pack.cpp:489-505 | compares entry i with every later entry; the rest of the pair loop gives the same result as before (from i when entry i was dropped, from i + 1 otherwise); the list stays drawn from the original and covering it, and position i is settled unless entry i itself was dropped |
| MaxRects.MaxRectsBinPack.PlaceRect | EmoteBuilder/max_rects_bin_pack.cpp:158-174 | the node is appended to the used rectangles and the free list is exactly `Pruned` of the split pass (`AfterSplit`), every overlapped free rectangle replaced by its pieces |
| MaxRects.MaxRectsBinPack.Insert | EmoteBuilder/max_rects_bin_pack.cpp:32-65 | the new packer state is `InsertRounds` of the old one: each round places the rectangle `BestRect` picks and removes it, until none fits; the invariant holds; the result says whether every rectangle was placed; the used list grows by the placed rectangles in placement order, each of its input size (turned only when allowed); placed and unplaced indices partition the input; no unplaced rectangle fits |
| MaxRects.MaxRectsBinPack.PlaceRound | EmoteBuilder/max_rects_bin_pack.cpp:60-61 | a round places the chosen rectangle and removes it from the list; the remaining rounds of `InsertRounds` from the new state equal those from the old, and the placed/remaining bookkeeping holds |
| MaxRects.MaxRectsBinPack.ChooseRect | EmoteBuilder/max_rects_bin_pack.cpp:42-55 | the first remaining rectangle with the best score, or -1 when none fits |
| MaxRects.MaxRectsBinPack.RoundPlaces | EmoteBuilder/max_rects_bin_pack.cpp:60-61 | placing the round's winner keeps the invariant, appends it to the used list and sets the free list to `Pruned` of the split pass |
| MaxRects.BestRect | EmoteBuilder/max_rects_bin_pack.cpp:36-58 | a round's pick is -1 or the index of a remaining rectangle; BestRectSpec states which |
| MaxRects.InsertRoundsAppends | EmoteBuilder/max_rects_bin_pack.cpp:32-65 | the batch insert keeps the bin and rotation flag, keeps the used list as a prefix and adds at most one rectangle per input rectangle |
| MaxRects.MaxRectsBinPack.InsertSingle | EmoteBuilder/max_rects_bin_pack.cpp:74-106 | a node of height 0 means no room and no change; otherwise the node is legal, of the given size, appended to the used list, and the free list is `Pruned` of the split pass |
| AtlasBuilder.FirstWithIndex | EmoteBuilder/builder.hpp:22-33 | the entry found has the index searched for and no earlier entry has it, or there is none and the result is the default entry |
| AtlasBuilder.AlignedCovers | EmoteBuilder/builder.cpp:89-113 | a size rounded up to whole alignment cells and shifted back covers the size with less than one cell to spare |
| AtlasBuilder.AlignShiftZero | EmoteBuilder/builder.hpp:53 | with the shift of 0 every alignment step is the identity |
| AtlasBuilder.WastedBelowIntMax | EmoteBuilder/builder.cpp:61-72 | in a bin with sides up to 32768 the wasted area stays below INT_MAX, so the strict least-waste scan always picks a packer |
| AtlasBuilder.Builder.constructor | EmoteBuilder/builder.cpp:13-21 | the configured page size, page limit and options; no sources and no pages |
| AtlasBuilder.Builder.AddRect | EmoteBuilder/builder.cpp:24-30 | appends one source size; the new source's index is its position |
| AtlasBuilder.Builder.PackWithEach | EmoteBuilder/builder.cpp:50-59 | one fresh packer per heuristic; packer k's state is `Packed` (the batch insert from an empty bin) under `Heuristics[k]`, with its all-placed flag |
| AtlasBuilder.Builder.PackOne | EmoteBuilder/builder.cpp:50-59 | a fresh packer whose state is `Packed`: the batch insert of every rectangle into an empty bin of the page size |
| AtlasBuilder.Builder.SelectLeastWasted | EmoteBuilder/builder.cpp:61-72 | the index of the smallest wasted area, no earlier packer being as small; the oversize flag is set as the source sets it |
| AtlasBuilder.Builder.FindBestBinPacker | EmoteBuilder/builder.cpp:32-77 | the wastes are `HeuristicWastes`; the packer returned is `BestPacking`, the batch insert under the heuristic with the least waste, the first on ties (`FirstLeast`); the list comes back unchanged |
| AtlasBuilder.HeuristicWastes | EmoteBuilder/builder.cpp:50-72 | one waste per heuristic, in the order of `Heuristics` |
| AtlasBuilder.FirstLeast | EmoteBuilder/builder.cpp:61-72 | the position of a least value, before which every value is strictly larger |
| AtlasBuilder.Builder.SanityCheck | EmoteBuilder/builder.cpp:88-105 | true exactly when some source's aligned longer side exceeds the larger aligned page side (the source's side rounded up, the page's rounded down, to alignment cells) |
| AtlasBuilder.TooLargeIffLongerSide | EmoteBuilder/builder.cpp:88-105 | with no alignment a source is rejected exactly when its longer side exceeds the larger page side |
| AtlasBuilder.Builder.AlignedSources | EmoteBuilder/builder.cpp:107-115 | every source's size rounded up to whole alignment cells, in order |
| AtlasBuilder.Builder.MatchRect | EmoteBuilder/builder.cpp:146-193 | -1 exactly when no unused source has the size in either orientation; otherwise the first unused source of the same size, else the first of the turned size marked flipped; the size returned is the source's, turned when flipped |
| AtlasBuilder.Builder.MakePage | EmoteBuilder/builder.cpp:146-202 | each packed rectangle in order becomes an entry matched to a distinct, previously unused source, which is then marked used |
| AtlasBuilder.Builder.AppendPage | EmoteBuilder/builder.cpp:134-202 | the accepted packing becomes one more page of its size and occupancy, keeping pages and used flags in agreement; a packing with one rectangle per unmatched source leaves none unmatched |
| AtlasBuilder.AllMatchedWhenFull | EmoteBuilder/builder.cpp:146-193 | matching as many distinct, previously unmatched sources as there were unmatched ones leaves none unmatched |
| AtlasBuilder.Builder.AcceptPage | EmoteBuilder/builder.cpp:134-202 | with the corrected carry-over: the accepted packing of the carried-over rectangles is appended as the next page, of the pass's size and occupancy; when it placed every rectangle no source is left unmatched |
| AtlasBuilder.Builder.SearchPage | EmoteBuilder/builder.cpp:119-247 | with the corrected carry-over: exactly one page is appended; the sizes tried and their outcomes form a `SearchRun` whose outcomes are `PassOf` each size, the page has the accepted size and occupancy, and when that pass placed everything no source is left unmatched |
| AtlasBuilder.Builder.SearchSize | EmoteBuilder/builder.cpp:119-243 | the passes up to the accepted one form a `SearchRun` with outcomes `PassOf` each size; the packer returned is the accepted pass's |
| AtlasBuilder.Builder.TryPass | EmoteBuilder/builder.cpp:126-131 | one pass: `BestPacking` at this size, whose occupancy and all-placed flag are `PassOf` the size |
| AtlasBuilder.Builder.RecordedPass | EmoteBuilder/builder.cpp:126-131 | a pass at the next size tried, its outcome recorded after the earlier ones as `PassOf` that size |
| AtlasBuilder.SearchStep | EmoteBuilder/builder.cpp:133-243 | a rejected pass extends the search prefix with `NextCellSize`, an accepted one completes a `SearchRun`; `reverted` is set once a pass leaves a rectangle out |
| AtlasBuilder.EmptyPass | EmoteBuilder/builder.cpp:126-131 | a pass over an empty list has occupancy 0 over the page area and leaves nothing out |
| AtlasBuilder.EmptySearchHasNoRun | EmoteBuilder/builder.cpp:119-247 | over an empty list with size optimisation on every pass is rejected, so the search has no run |
| AtlasBuilder.SearchRunUnique | EmoteBuilder/builder.cpp:119-247 | the settings and the outcome at each size fix the search: two runs agree on every size and outcome |
| AtlasBuilder.Builder.PackPages | EmoteBuilder/builder.cpp:117-248 | with the corrected carry-over: pages are added while the last page left something and the limit allows; the loop ends with every source matched or the page limit reached; no page is added only when the limit is at most 0 or there is nothing to pack with size optimisation on; every entry stays matched to a distinct source of its size |
| AtlasBuilder.Builder.CollectRemaining | EmoteBuilder/builder.cpp:250-259 | the never-matched source indices in ascending order |
| AtlasBuilder.Builder.ListAllRemaining | EmoteBuilder/builder.cpp:88-105 | the early exit lists every source index in order |
| AtlasBuilder.Builder.Build | EmoteBuilder/builder.cpp:79-260 | with the corrected carry-over: the count of unplaced sources; an oversized source means no pages and every index remaining; pages agree with the sources (distinct, same size up to a turn); the remaining list is exactly the unmatched sources; without an oversized source it is empty or the page limit is reached |
| AtlasBuilder.Builder.PackAndCollect | EmoteBuilder/builder.cpp:107-260 | with the corrected carry-over: after a passed sanity check the pages agree with the sources, the remaining list is exactly the unmatched sources, and it is empty unless the page limit is reached; no page is made only when the limit is at most 0 or there are no sources with size optimisation on |
| AtlasBuilder.ReassignStep | EmoteBuilder/builder.cpp:146-193 | after the first match the other packed rectangles can still be given distinct unused sources |
| AtlasBuilder.UnusedIndices | EmoteBuilder/builder.cpp:250-259 | ascending, and holds exactly the unused positions |
| AtlasBuilder.StartState | EmoteBuilder/builder.cpp:107-117 | at the start there are no pages and every aligned source is carried over |
| AtlasBuilder.UnusedIndicesNoneUsed | EmoteBuilder/builder.cpp:250-259 | before any match every index is left over |
| AtlasBuilder.CarryOver | EmoteBuilder/builder.cpp:204 | the aligned sizes of exactly the unmatched sources, in index order |
| AtlasBuilder.CarryOverAssigned | EmoteBuilder/builder.cpp:146-193 | any packing of the carried-over list has an injective assignment to unused sources of the same size up to a turn, so matching never fails |
| AtlasBuilder.PartialPageStep | EmoteBuilder/builder.cpp:146-197 | matching one more packed rectangle extends the partial page |
| AtlasBuilder.PageAppend | EmoteBuilder/builder.cpp:196-202 | appending a page of fresh distinct matches keeps the pages in agreement with the sources |
| AtlasBuilder.EntriesAppendSound | EmoteBuilder/builder.cpp:196-202 | concatenated entry lists stay sound when the new ones name new sources |
| AtlasBuilder.CarryOverNonNegative | EmoteBuilder/builder.cpp:204 | carried-over sizes are non-negative |
| AtlasBuilder.PlacedGivesHeight | EmoteBuilder/builder.cpp:134-142 | a packer that placed anything has a page at least one unit tall |
| AtlasBuilder.HalvingShrinks | EmoteBuilder/builder.cpp:207-225 | halving a page shrinks its perimeter, so the search terminates |
| AtlasBuilder.GrowingBounded | EmoteBuilder/builder.cpp:226-245 | growing stays within twice the configured size |
| AtlasBuilder.PlacedWithin | EmoteBuilder/max_rects_bin_pack.cpp:32-65 | the placed indices are distinct positions of the input |
| AtlasBuilder.EmptyPacking | EmoteBuilder/builder.cpp:117-142 | packing an empty list places nothing and has zero occupancy |
| AtlasBuilder.PlacedFromSome | EmoteBuilder/builder.cpp:117-142 | something placed means the list was not empty |
| AtlasBuilder.CarryOverAsWritten | EmoteBuilder/builder.cpp:204 | as written, the carried list is the list given to the packer, because the packer takes it by value |
| AtlasBuilder.AsWrittenRepackFindsNoSource | EmoteBuilder/builder.cpp:146-204 | sources 2x2 and 1x1 on a 2x2 page: the second page packs the 2x2 size again and no unused source matches it |
| AtlasBuilder.AsWrittenEmptySearchNeverEnds | EmoteBuilder/builder.cpp:117-247 | with an empty list no pass of the search as written accepts, and the page size only keeps halving |
| AtlasBlit.BlitEntry | EmoteBuilder/builder.cpp:307-326 | each page pixel a loop position writes holds the source pixel written there last (flipped frames turned, rows counted from the bottom edge); every other pixel is unchanged |
| Pixels.Repeat | XPressions/Utility.cs:33 | the wrapped coordinate lies in the side and is the coordinate itself when already inside |
| Pixels.Texture.constructor | XPressions/Utility.cs:33 | a width-by-height texture |
| Pixels.Texture.SetPixel | XPressions/Utility.cs:38 | exactly the wrapped pixel changes |
| Pixels.Image.constructor | EmoteBuilder/emote_builder.cpp:70 | a width-by-height image |
| Pixels.Image.SetPixelColor | EmoteBuilder/builder.cpp:314 | a write inside the image changes that pixel only; one outside changes nothing |
| Trim.TrimBounds | EmoteBuilder/emote_builder.cpp:55-68 | the four bounds form the tight box: it holds the centre and every opaque pixel, and each side is the centre or touches an opaque pixel |
| Trim.ScanColumn | EmoteBuilder/emote_builder.cpp:61-67 | scanning column x widens the box to hold its opaque pixels |
| Trim.ScanPixel | EmoteBuilder/emote_builder.cpp:62-66 | an opaque pixel widens the box to hold it; a transparent one leaves it |
| Trim.ScanOpaque | EmoteBuilder/emote_builder.cpp:62-66 | scanning an opaque pixel puts it inside the box |
| Trim.ScanTransparent | EmoteBuilder/emote_builder.cpp:62-66 | scanning a transparent pixel keeps the box |
| Trim.ScanNextColumn | EmoteBuilder/emote_builder.cpp:59-60 | a finished column moves the scan to the next |
| Trim.TightBoxUnique | EmoteBuilder/emote_builder.cpp:55-68 | the tight box is determined by the image |
| Trim.SideDetermined | EmoteBuilder/emote_builder.cpp:55-68 | each side of one tight box lies at least as far out as the other's |
| Trim.Copy | EmoteBuilder/emote_builder.cpp:70 | a null image copies to a null image; otherwise a w by h image of the pixels at (x + i, y + j), transparent outside |
| Trim.TrimImage | EmoteBuilder/emote_builder.cpp:51-71 | the tight box of the image copied out: every pixel is the image's pixel at the box corner plus its position; an image with no opaque pixel gives 1x1 at the centre |
| Trim.TrimKeepsOpaque | EmoteBuilder/emote_builder.cpp:59-70 | the trimmed image is between 1x1 and the image's size, and every opaque pixel survives, shifted by the box corner |
| TextureUtility.UndoFlip | XPressions/Utility.cs:31-43 | as written: a height-by-width texture whose pixel (height - y, x) is the old (x, y), wrapping at the edge |
| TextureUtility.UndoFlipCorrected | XPressions/Utility.cs:31-43 | a height-by-width texture whose pixel (height - 1 - y, x) is the old (x, y): the inverse of the blit's turn |
| TextureUtility.CropEntry | XPressions/Utility.cs:11-19 | the entry's w by h rectangle of the page |
| TextureUtility.SubTexture | XPressions/Utility.cs:9-29 | as written: the entry's rectangle of the page; a flipped one turned back with `UndoFlip`, so column c holds the page row h - c of the rectangle, wrapping to row 0 |
| TextureUtility.SubTextureCorrected | XPressions/Utility.cs:9-29 | the entry's rectangle of the page; a flipped one turned back with `UndoFlipCorrected`, column c holding the page row h - 1 - c |
| TextureUtility.BlitEntryHolds | EmoteBuilder/builder.cpp:307-326 | the blit's result holds each source pixel at its page position |
| TextureUtility.SubTextureRecoversFrame | XPressions/Utility.cs:9-29 | a frame blitted into a page and cut back out with `SubTextureCorrected` comes back as the frame, rows reversed as a texture holds them |
| TextureUtility.AsWrittenUndoFlipShifts | XPressions/Utility.cs:38 | with `SubTexture` as written, column 0 of a recovered flipped frame is the frame's last column |
| SpritePad.GetPadAmount | XPressions/tk2dSpriteCollectionBuilder.cs:35-48 | the collection's pad plus the sprite's extra padding (-1 meaning none), never below 0 |
| SpritePad.Effective | XPressions/tk2dSpriteCollectionBuilder.cs:60-102 | never Default; every other mode is kept as it is |
| SpritePad.PadTexture | XPressions/tk2dSpriteCollectionBuilder.cs:50-103 | when the pad fits inside the texture, every pixel afterwards is the padded image of the old texture under the mode (Default as Extend); a texture clear everywhere stays clear |
| SpritePad.PadRows | XPressions/tk2dSpriteCollectionBuilder.cs:60-80 | the row pass fills the top and bottom borders and reports the last colours picked |
| SpritePad.PadRowPair | XPressions/tk2dSpriteCollectionBuilder.cs:62-79 | row y and its mirror are written left to right |
| SpritePad.PadRowStep | XPressions/tk2dSpriteCollectionBuilder.cs:64-78 | one column of both rows, with the colour choice of the mode |
| SpritePad.PadColumns | XPressions/tk2dSpriteCollectionBuilder.cs:82-102 | the column pass fills the left and right borders |
| SpritePad.PadColumnPair | XPressions/tk2dSpriteCollectionBuilder.cs:84-101 | column x and its mirror are written bottom to top |
| SpritePad.PadColumnStep | XPressions/tk2dSpriteCollectionBuilder.cs:86-100 | one row of both columns, with the colour choice of the mode |
| SpritePad.ExtendClamps | XPressions/tk2dSpriteCollectionBuilder.cs:60-102 | in extend mode a border pixel is the interior pixel nearest to it |
| SpritePad.PaddingKeepsInterior | XPressions/tk2dSpriteCollectionBuilder.cs:60-102 | padding leaves the interior alone in every mode |
| SpritePad.BlackZeroAlphaClearsBorder | XPressions/tk2dSpriteCollectionBuilder.cs:60-102 | black-zero-alpha clears the whole border |
| SpritePad.TextureRectFullySolid | XPressions/tk2dSpriteCollectionBuilder.cs:140-155 | true exactly when every pixel of the rectangle has full alpha |
| SpriteProcess.ScanOccupancy | XPressions/tk2dSpriteCollectionBuilder.cs:166-183 | a column (row) flag is 1 exactly when it holds a visible pixel, and the count is positive exactly when something is visible |
| SpriteProcess.MarkColumn | XPressions/tk2dSpriteCollectionBuilder.cs:168-182 | column x's flag and the row flags it sets |
| SpriteProcess.FirstMarked | XPressions/tk2dSpriteCollectionBuilder.cs:225-252 | the first flagged index, or 0 when there is none |
| SpriteProcess.LastMarked | XPressions/tk2dSpriteCollectionBuilder.cs:225-252 | the last flagged index, or 0 when there is none |
| SpriteProcess.TrimBounds | XPressions/tk2dSpriteCollectionBuilder.cs:225-266 | when something is visible, the searches give the smallest box holding every visible pixel |
| SpriteProcess.SpansMakeTrimmedRect | XPressions/tk2dSpriteCollectionBuilder.cs:225-266 | the first and last flags of each axis make the trimming box |
| SpriteProcess.CopyRegion | XPressions/tk2dSpriteCollectionBuilder.cs:268-277 | a texture of the region's size plus twice the pad whose interior is the region |
| SpriteProcess.FillDiceBorder | XPressions/tk2dSpriteCollectionBuilder.cs:281-301 | every border pixel of a dice tile comes from the source, clamped to its edges |
| SpriteProcess.FillDiceRow | XPressions/tk2dSpriteCollectionBuilder.cs:283-300 | row y of the dice border, skipping the interior |
| SpriteProcess.PaddedIsPaddedOver | XPressions/tk2dSpriteCollectionBuilder.cs:50-103 | `PadTexture` over a buffer whose interior is the copied region gives `PaddedOver` at every pixel, in every mode |
| SpriteProcess.PaddedCopy | XPressions/tk2dSpriteCollectionBuilder.cs:268-322 | the padded copy: interior from the region; a dice tile's border from the source, clamped to its edges; any other border is `PaddedOver` in the effective pad mode (nearest edge pixel for Extend and Default, opposite edge for the tile modes, clear for BlackZeroAlpha, and for TileX side borders of one colour each that the source takes from unwritten pixels) |
| SpriteProcess.ProcessTexture | XPressions/tk2dSpriteCollectionBuilder.cs:157-338 | null exactly when trimming is allowed and nothing visible; otherwise the lut rectangle is the trimming box (or the whole region) and the texture is its padded copy, border included, in every pad mode, except that the colour of each TileX side border is left open (see "## Left out") |
| SpriteProcess.SomeVisible | XPressions/tk2dSpriteCollectionBuilder.cs:185 | a positive count means a visible pixel exists |
| SpriteProcess.SolidRegionUntrimmed | XPressions/tk2dSpriteCollectionBuilder.cs:157-338 | a fully solid region is never trimmed |
| SpriteProcess.TrimmedRectHoldsVisible | XPressions/tk2dSpriteCollectionBuilder.cs:225-266 | every visible pixel of the region lies inside its trimming box |
| DiceGrid.Corner | XPressions/tk2dSpriteCollectionBuilder.cs:569-574 | the corner c satisfies c <= x < c + u; CornerOnLine shows it is a whole number of units |
| DiceGrid.CornerAdd | XPressions/tk2dSpriteCollectionBuilder.cs:569-574 | moving up from a grid line by d moves the corner by the same line |
| DiceGrid.CornerOnLine | XPressions/tk2dSpriteCollectionBuilder.cs:569-574 | a corner is a multiple of the unit |
| DiceGrid.NextLine | XPressions/tk2dSpriteCollectionBuilder.cs:569-574 | the next grid line is one unit on, with none between |
| DiceGrid.ColumnTilesMembers | XPressions/tk2dSpriteCollectionBuilder.cs:569-574 | a column visits exactly the grid tiles of its column from its row up |
| DiceGrid.TilesFromMembers | XPressions/tk2dSpriteCollectionBuilder.cs:569-574 | the columns from s on visit exactly the grid tiles from column s |
| DiceGrid.TilesMembers | XPressions/tk2dSpriteCollectionBuilder.cs:564-574 | a tile is visited exactly when it lies on the unit grid inside the texture, cut at the edge |
| DiceGrid.GridCorner | XPressions/tk2dSpriteCollectionBuilder.cs:569-574 | the only grid line within one unit below x is its corner |
| DiceGrid.TilesPartition | XPressions/tk2dSpriteCollectionBuilder.cs:564-574 | the visited tiles partition the texture: each pixel is in exactly one |
| SpriteLuts.NonDupsBefore | XPressions/tk2dSpriteCollectionBuilder.cs:613-707 | between 0 and p |
| SpriteLuts.NonDupsGrow | XPressions/tk2dSpriteCollectionBuilder.cs:613-707 | later positions see more non-duplicates before them than a non-duplicate does |
| SpriteLuts.NonDupsAppend | XPressions/tk2dSpriteCollectionBuilder.cs:613-707 | appending leaves the old counts as they were |
| SpriteLuts.ResolvedInRange | XPressions/tk2dSpriteCollectionBuilder.cs:698-707 | under the invariant every lut's slot is one of the textures to atlas |
| SpriteLuts.AppendDense | XPressions/tk2dSpriteCollectionBuilder.cs:593-607 | a non-duplicate appended with the next slot keeps the numbering |
| SpriteLuts.AppendLinked | XPressions/tk2dSpriteCollectionBuilder.cs:613-658 | a lut that is an original or carries the slot of an earlier original with its source keeps the links |
| SpriteLuts.AppendFresh | XPressions/tk2dSpriteCollectionBuilder.cs:593-607 | a run of originals with the next slots keeps the invariant |
| SpriteCatalogue.KeptTilesAppend | XPressions/tk2dSpriteCollectionBuilder.cs:569-591 | keeping tiles distributes over concatenation |
| SpriteCatalogue.KeptTilesSound | XPressions/tk2dSpriteCollectionBuilder.cs:569-591 | the kept tiles are tiles of the list that pass |
| SpriteCatalogue.DiceTile | XPressions/tk2dSpriteCollectionBuilder.cs:576-607 | the tile is kept exactly when it passes the filter (solid-only keeps solid tiles, transparent-only skips them) and is not empty; a kept lut has the tile's trimming box and its padded texture |
| SpriteCatalogue.FirstSameSource | XPressions/tk2dSpriteCollectionBuilder.cs:613-625 | the first lut before n with the source texture, or n; no earlier lut has it |
| SpriteCatalogue.FirstSameSourcePrefix | XPressions/tk2dSpriteCollectionBuilder.cs:613-625 | only the luts before n decide the search |
| SpriteCatalogue.FindSameSource | XPressions/tk2dSpriteCollectionBuilder.cs:613-625 | the first lut with the same source texture, if any |
| SpriteCatalogue.FirstUnique | XPressions/tk2dSpriteCollectionBuilder.cs:613-625 | a match with none before it is the first |
| SpriteCatalogue.FirstIsOriginal | XPressions/tk2dSpriteCollectionBuilder.cs:613-658 | the first lut with a given source is never a duplicate |
| SpriteCatalogue.CopiesFirstExtend | XPressions/tk2dSpriteCollectionBuilder.cs:593-607 | appending originals keeps duplicates copying the first lut of their source |
| SpriteCatalogue.DiceLutsAppend | XPressions/tk2dSpriteCollectionBuilder.cs:569-607 | the luts of two runs of tiles join into the luts of the joined run |
| SpriteCatalogue.DiceColumn | XPressions/tk2dSpriteCollectionBuilder.cs:571-607 | the column's kept tiles bottom to top, each a lut with the next slot |
| SpriteCatalogue.DiceStep | XPressions/tk2dSpriteCollectionBuilder.cs:576-607 | a kept tile's lut is appended with the next slot |
| SpriteCatalogue.ColumnUnfold | XPressions/tk2dSpriteCollectionBuilder.cs:571-574 | one tile up the column, kept or not |
| SpriteCatalogue.TilesUnfold | XPressions/tk2dSpriteCollectionBuilder.cs:569-574 | one column to the right |
| SpriteCatalogue.DiceSource | XPressions/tk2dSpriteCollectionBuilder.cs:560-610 | the new luts are exactly the kept grid tiles in loop order, each with the next slot |
| SpriteCatalogue.AppendColumn | XPressions/tk2dSpriteCollectionBuilder.cs:569-607 | a column's luts follow those of earlier columns |
| SpriteCatalogue.WholeSource | XPressions/tk2dSpriteCollectionBuilder.cs:613-658 | a duplicate of the first lut with the same source, else a new lut from the whole texture, with the clear fallback when it is empty |
| SpriteCatalogue.CopiesFirstAppend | XPressions/tk2dSpriteCollectionBuilder.cs:613-658 | an undiced sprite's lut keeps duplicates copying the first lut of their source |
| SpriteCatalogue.CatalogueSprite | XPressions/tk2dSpriteCollectionBuilder.cs:533-660 | the lut list only grows; the new luts are sprite i's `SpriteEntries`: for a diced sprite the luts of its kept tiles in order (`DiceLuts`), otherwise one lut that copies the first earlier lut with its source or holds the next slot, the trimming box (or whole texture, or the clear fallback) and its padded texture (`WholeLutOf`, `PaddedFrom`); the slot invariant and first-copy links hold |
| SpriteCatalogue.Catalogue | XPressions/tk2dSpriteCollectionBuilder.cs:533-660 | dense slots with duplicates linked to an earlier original of their source; luts in sprite order; only diced sprites have several luts; every undiced sprite has a lut; sprite i's luts are the run from `starts[i]` to `starts[i + 1]` and are its `SpriteEntries` |
| SpriteCatalogue.CatalogueNext | XPressions/tk2dSpriteCollectionBuilder.cs:533-660 | one turn of the catalogue loop carries every loop invariant from sprite i to i + 1 |
| SpriteCatalogue.CatalogueRun | XPressions/tk2dSpriteCollectionBuilder.cs:533-660 | sprite i's luts join the list as the next run, with its `SpriteEntries` |
| SpriteCatalogue.RunsExtend | XPressions/tk2dSpriteCollectionBuilder.cs:533-660 | the runs of earlier sprites are unchanged when the next sprite's luts are appended |
| SpriteCatalogue.CatalogueStep | XPressions/tk2dSpriteCollectionBuilder.cs:533-660 | the order, uniqueness and coverage facts survive one sprite |
| SpriteHash.Row | XPressions/tk2dSpriteCollectionBuilder.cs:368-377 | one colour per column of row y |
| SpriteHash.RowsFrom | XPressions/tk2dSpriteCollectionBuilder.cs:368-377 | one colour per pixel of the rows from y up |
| SpriteHash.Pixels32 | XPressions/tk2dSpriteCollectionBuilder.cs:368 | one colour per pixel |
| SpriteHash.ChannelBytes | XPressions/tk2dSpriteCollectionBuilder.cs:371-377 | four bytes per pixel; ChannelBytesInjective shows they give the pixels back |
| SpriteHash.LowBytes | XPressions/tk2dSpriteCollectionBuilder.cs:379-384 | three bytes; LowBytesInjective shows they tell apart every value below 2^24 |
| SpriteHash.FillHashBuffer | XPressions/tk2dSpriteCollectionBuilder.cs:366-389 | the buffer is the channel bytes followed by the low bytes of the width and the height |
| SpriteHash.WriteChannels | XPressions/tk2dSpriteCollectionBuilder.cs:371-377 | the channels go to the front of the buffer |
| SpriteHash.WriteSides | XPressions/tk2dSpriteCollectionBuilder.cs:379-384 | the six bytes after the pixels |
| SpriteHash.SetSpriteLutHash | XPressions/tk2dSpriteCollectionBuilder.cs:363-397 | the lut's hash becomes the digest of its buffer, and nothing else changes |
| SpriteHash.LowBytesInjective | XPressions/tk2dSpriteCollectionBuilder.cs:379-384 | three low bytes tell apart every value below 2^24 |
| SpriteHash.ChannelBytesInjective | XPressions/tk2dSpriteCollectionBuilder.cs:371-377 | the channel bytes give back the pixels |
| SpriteHash.HashBufferExact | XPressions/tk2dSpriteCollectionBuilder.cs:363-397 | for sides below 2^24, two buffers are equal exactly when both luts lack a texture or both textures have the same size and pixels |
| SpriteDedup.HashAll | XPressions/tk2dSpriteCollectionBuilder.cs:665-668 | each lut gets the digest of its buffer, and nothing else changes |
| SpriteDedup.NonDupsSameFlags | XPressions/tk2dSpriteCollectionBuilder.cs:665-668 | luts with the same duplicate flags count the same originals |
| SpriteDedup.HashKeepsLinks | XPressions/tk2dSpriteCollectionBuilder.cs:665-668 | hashing keeps the slot invariant, links by texture becoming links by hash |
| SpriteDedup.Merged | XPressions/tk2dSpriteCollectionBuilder.cs:679-690 | one lut per lut; MergedShape, MergeDense and MergeLinked state what the merge keeps |
| SpriteDedup.MergedAsWritten | XPressions/tk2dSpriteCollectionBuilder.cs:682-690 | as written: only j takes i's slot; luts that shared j's slot keep it |
| SpriteDedup.MergeDuplicate | XPressions/tk2dSpriteCollectionBuilder.cs:682-690 | the slot loop computes the corrected merge |
| SpriteDedup.EarlierSlotBelow | XPressions/tk2dSpriteCollectionBuilder.cs:671-694 | an earlier lut's slot is below that of a later original |
| SpriteDedup.NonDupsMerged | XPressions/tk2dSpriteCollectionBuilder.cs:682-690 | after a merge the positions past j count one original fewer |
| SpriteDedup.SlotsDistinct | XPressions/tk2dSpriteCollectionBuilder.cs:671-694 | originals have pairwise different slots |
| SpriteDedup.MergeDense | XPressions/tk2dSpriteCollectionBuilder.cs:679-690 | merging keeps the originals numbered densely, one fewer |
| SpriteDedup.MergeLinked | XPressions/tk2dSpriteCollectionBuilder.cs:679-690 | merging keeps every duplicate linked to an earlier original with its hash and slot |
| SpriteDedup.AsWrittenMergeDangles | XPressions/tk2dSpriteCollectionBuilder.cs:682-690 | with the merge as written a lut keeps slot 1 when only one texture is left |
| SpriteDedup.MergedShape | XPressions/tk2dSpriteCollectionBuilder.cs:679-690 | the merge changes slots and j's flag, nothing else |
| SpriteDedup.PassAfterMerge | XPressions/tk2dSpriteCollectionBuilder.cs:673-693 | a merged pair moves the pass on |
| SpriteDedup.DedupPair | XPressions/tk2dSpriteCollectionBuilder.cs:675-692 | with the corrected merge: a later original with i's hash is merged into i; otherwise nothing changes |
| SpriteDedup.PassSkip | XPressions/tk2dSpriteCollectionBuilder.cs:673-693 | an unmerged pair moves the pass on unchanged |
| SpriteDedup.PassDone | XPressions/tk2dSpriteCollectionBuilder.cs:671-694 | after lut i's turn the first i + 1 luts are separated |
| SpriteDedup.RemoveDuplicates | XPressions/tk2dSpriteCollectionBuilder.cs:671-694 | with the corrected merge: a lut is a duplicate exactly when it was one or an earlier lut has its hash; originals have pairwise different hashes; the slot invariant holds |
| SpriteDedup.NonDupTextures | XPressions/tk2dSpriteCollectionBuilder.cs:698-707 | as many textures as there are originals; NonDupTexturesSlot places each |
| SpriteDedup.NonDupTexturesSlot | XPressions/tk2dSpriteCollectionBuilder.cs:698-707 | slot k holds the texture of the k-th original |
| SpriteDedup.BuildTextureList | XPressions/tk2dSpriteCollectionBuilder.cs:698-707 | the textures of the originals in list order, and the slots after them empty |
| SpriteDedup.StoreNonDup | XPressions/tk2dSpriteCollectionBuilder.cs:700-706 | lut i's texture goes to the next slot when it is an original |
| SpriteDedup.NonDupTexturesStep | XPressions/tk2dSpriteCollectionBuilder.cs:700-706 | the list of i + 1 luts is that of i plus lut i's texture unless it is a duplicate |
| SpriteDedup.PrepareAtlasTextures | XPressions/tk2dSpriteCollectionBuilder.cs:662-707 | with the corrected merge: when deduplication is off nothing changes; otherwise every lut is hashed and the result differs from the hashed luts only in slots and added duplicates, a lut being a duplicate exactly when it was one or an earlier lut has its hash, the originals having pairwise different hashes; every slot is below the texture count and every original's slot holds its texture |
| SpriteDedup.TextureListSlots | XPressions/tk2dSpriteCollectionBuilder.cs:698-707 | every slot names a texture of the list, and an original's slot its own texture |
| AtlasCompositor.ClearPage | XPressions/tk2dSpriteCollectionBuilder.cs:766-772 | every page pixel becomes clear |
| AtlasCompositor.BlitSource | XPressions/tk2dSpriteCollectionBuilder.cs:774-796 | each page pixel a source position writes holds that source pixel (turned when flipped); every other pixel is unchanged |
| AtlasCompositor.CompositePage | XPressions/tk2dSpriteCollectionBuilder.cs:764-797 | each pixel holds what the last entry covering it wrote, or clear |
| AtlasCompositor.CoversEntryRect | XPressions/tk2dSpriteCollectionBuilder.cs:774-796 | a source of its entry's size (turned when flipped) covers exactly the entry's rectangle |
| AtlasCompositor.DisjointComposite | XPressions/tk2dSpriteCollectionBuilder.cs:764-797 | with non-overlapping entries, each pixel holds the source pixel of the entry covering it, and clear elsewhere |
| RebuildGuard.GuardStep | XPressions/tk2dSpriteCollectionBuilder.cs:399-405 | a busy guard refuses and stays; otherwise the build runs and the guard clears unless packing failed |
| RebuildGuard.RunBuilds | XPressions/tk2dSpriteCollectionBuilder.cs:399-405 | one result per call |
| RebuildGuard.BusyRefusesAll | XPressions/tk2dSpriteCollectionBuilder.cs:399-405 | a busy guard refuses every later call |
| RebuildGuard.StuckAfterPackingFailure | XPressions/tk2dSpriteCollectionBuilder.cs:716-728 | after a failed packing no later build runs, because the guard is never cleared on that return |
| RebuildGuard.SequentialBuildsSucceed | XPressions/tk2dSpriteCollectionBuilder.cs:946 | without a failed packing every call runs and succeeds |
| RebuildGuard.CollectionBuilder.constructor | XPressions/tk2dSpriteCollectionBuilder.cs:340 | no build in progress |
| RebuildGuard.CollectionBuilder.Rebuild | XPressions/tk2dSpriteCollectionBuilder.cs:399-405 | the guard's new state and result are those of GuardStep |
| VertexCache.FirstLutOf | XPressions/tk2dSpriteCollectionBuilder.cs:996-1006 | the first lut whose source is sprite i, or none when no lut has it |
| VertexCache.Select | XPressions/tk2dSpriteCollectionBuilder.cs:1293-1301 | as many entries as vertices among the first n using material m; SelectMaterial and SelectByPosition state which |
| VertexCache.CountMaterial | XPressions/tk2dSpriteCollectionBuilder.cs:1280-1287 | the number of vertices using material m |
| VertexCache.AppendMaterial | XPressions/tk2dSpriteCollectionBuilder.cs:1293-1301 | the vertices of material m are appended to the new lists in order |
| VertexCache.StartTriples | XPressions/tk2dSpriteCollectionBuilder.cs:1289-1291 | three entries per material; StartTripleAt states them |
| VertexCache.Regroup | XPressions/tk2dSpriteCollectionBuilder.cs:1270-1302 | the lists are gathered material by material in enumeration order, with the start triples |
| VertexCache.RegroupMaterial | XPressions/tk2dSpriteCollectionBuilder.cs:1278-1301 | one material's triple, then its vertices |
| VertexCache.StartTripleAt | XPressions/tk2dSpriteCollectionBuilder.cs:1289-1291 | triple h names material h, starts after six indices per four earlier vertices, and counts six per four of its own |
| VertexCache.SelectByPosition | XPressions/tk2dSpriteCollectionBuilder.cs:1293-1301 | selecting from a list picks it at the selected positions |
| VertexCache.GatherByPosition | XPressions/tk2dSpriteCollectionBuilder.cs:1278-1301 | for any number of groups, the gathered lists are the originals picked at the same positions |
| VertexCache.RegroupedInLockstep | XPressions/tk2dSpriteCollectionBuilder.cs:1270-1302 | the regrouped positions, uvs and materials are the originals picked at the same positions |
| VertexCache.OccOnce | XPressions/tk2dSpriteCollectionBuilder.cs:1278 | in a list without repeats a material occurs once if listed, else never |
| VertexCache.GatherStep | XPressions/tk2dSpriteCollectionBuilder.cs:1278-1301 | taking in vertex n adds it once per group of its material |
| VertexCache.GatherPermutes | XPressions/tk2dSpriteCollectionBuilder.cs:1278-1301 | when every material is listed once, the regrouping of any prefix is a permutation of it |
| VertexCache.RegroupedPermutes | XPressions/tk2dSpriteCollectionBuilder.cs:1270-1302 | when every material is listed once, the regrouped lists are permutations of the originals |
| VertexCache.SelectMaterial | XPressions/tk2dSpriteCollectionBuilder.cs:1293-1301 | every selected material entry is the selected material |
| VertexCache.QuadIndices | XPressions/tk2dSpriteCollectionBuilder.cs:1429-1440 | six indices per four vertices, quad j being 4j, 4j+3, 4j+1, 4j+2, 4j+3, 4j |
| VertexCache.WriteQuad | XPressions/tk2dSpriteCollectionBuilder.cs:1432-1439 | the six indices of quad j, nothing else changed |
| VertexCache.QuadOf | XPressions/tk2dSpriteCollectionBuilder.cs:1432-1439 | quad j's two triangles |
| VertexCache.QuadIndexInRange | XPressions/tk2dSpriteCollectionBuilder.cs:1429-1440 | every index names a vertex of the sprite |
| VertexCache.QuadCornerUsed | XPressions/tk2dSpriteCollectionBuilder.cs:1432-1439 | each of a quad's four vertices is used |
| VertexCache.DoubleSide | XPressions/tk2dSpriteCollectionBuilder.cs:1411-1425 | vertices 3, 1, 2, 0 appended with their uvs and the sprite's material |
| VertexCache.BackFacesReversed | XPressions/tk2dSpriteCollectionBuilder.cs:1411-1440 | the back quad's triangles are the front's, wound the other way |
| VertexCache.ReversedTriangles | XPressions/tk2dSpriteCollectionBuilder.cs:1355-1360 | one index per index; BackFacesReversed and ReverseTwice state the winding |
| VertexCache.AppendIsland | XPressions/tk2dSpriteCollectionBuilder.cs:1355-1360 | an island's reversed triangles are appended |
| VertexCache.ReverseTwice | XPressions/tk2dSpriteCollectionBuilder.cs:1355-1360 | reversing twice gives back the triangles, offset twice |

## Left out

- Floating point is not modelled:
  - texture coordinates, vertex positions, scale, anchors and the premultiplied-alpha pass;
  - the 0.5 occupancy test of the page-size search, which is an exact ratio comparison here.
- Custom sprite geometry is not modelled: its bounds and region extraction, the island points, and the `Triangulator`. The island indices are a parameter of `VertexCache.AppendIsland`.
- The vertex generation of diced sprites is not modelled; only their regrouping is.
- `materialStartIndices` is built but never read downstream; it is modelled only as the start triples.
- MD5 and the hex string of `SetSpriteLutHash` are not modelled: the digest is a function parameter, and only the byte buffer fed to it is modelled.
- `HashSet<int>` enumeration order is not modelled: it is a parameter `order`.
- `VertexCache.RegroupedPermutes` and `VertexCache.GatherPermutes` require that `order` has no repeats and lists every material used. A set's enumeration always satisfies both.
- `DestroyImmediate` and Unity object lifetime are not modelled; nor are `tex.Apply()` and texture formats.
- I/O is not modelled:
  - Qt file dialogs, PNG and JSON reading and writing, and the logger;
  - threading, sprite animation and the UI of EmoteBuilder and XPressions;
  - `Emoter` data loading.
- `EmoteBuilder::frames` and Unity textures are explicit parameters.
- `bestNode` in the five placement searches starts at zero; the C++ leaves it uninitialised until the first fit.
- AtlasBuilder.Builder.SearchPage: requires a non-empty list when size optimisation is on, since the search as written never ends there (see Findings); the page loop does not call it in that case.
- AtlasBuilder.Builder.SearchSize: requires a non-empty list when size optimisation is on, for the same reason as `SearchPage`.
- `AtlasBuilder.Builder.Build`, `AtlasBuilder.Builder.PackPages` and `AtlasBuilder.Builder.SearchPage` require page sides of at most 16384. Doubling during the search then stays within 32768, so 32-bit overflow of the C++ `int` sizes is not modelled.
- `AtlasBuilder.Builder.FindBestBinPacker` requires sides of at most 32768, where the area fits in 32 bits.
- MaxRects.MaxRectsBinPack.FindPositionForNewNodeBottomLeft: scores (`y + height`, `x`) are unbounded integers; the C++ `int` sums do not wrap only for bins with sides of at most 32768, the bound every caller in this model keeps, and wrap-around beyond it is not modelled.
- MaxRects.MaxRectsBinPack.FindPositionForNewNodeBestShortSideFit: leftover sides are unbounded integers; 32-bit wrap-around is not modelled, and none occurs for bins with sides of at most 32768.
- MaxRects.MaxRectsBinPack.FindPositionForNewNodeBestLongSideFit: leftover sides are unbounded integers; 32-bit wrap-around is not modelled, and none occurs for bins with sides of at most 32768.
- MaxRects.MaxRectsBinPack.FindPositionForNewNodeBestAreaFit: the leftover area `width * height` products are unbounded integers; they fit a 32-bit `int` for bins with sides of at most 32768, and wrap-around beyond that is not modelled.
- MaxRects.MaxRectsBinPack.FindPositionForNewNodeContactPoint: the contact score is an unbounded integer; it fits a 32-bit `int` for bins with sides of at most 32768 and few used rectangles, and wrap-around is not modelled.
- MaxRects.MaxRectsBinPack.ContactPointScoreNode: the sum of shared edge lengths is an unbounded integer; 32-bit wrap-around is not modelled, and none occurs for bins with sides of at most 32768 and few used rectangles.
- MaxRects.MaxRectsBinPack.UsedSurfaceArea: the area sum is an unbounded integer; for non-overlapping rectangles in a bin with sides of at most 32768 it stays below 2^30, and wrap-around beyond that is not modelled.
- MaxRects.MaxRectsBinPack.WastedBinArea: the bin area `binWidth * binHeight` is an unbounded integer; it fits a 32-bit `int` for sides of at most 32768, and wrap-around beyond that is not modelled.
- `AtlasBuilder.WastedBelowIntMax` holds only for sides of at most 32768, where the area fits in 32 bits.
- `SpriteCatalogue.DiceSource` states of each trimmed dice lut only that its rectangle lies within its tile. `SpriteCatalogue.DiceTile` states that it is the tile's exact trimming box.
- SpriteCatalogue.CatalogueSprite: for a diced sprite it states what `DiceSource` states. So each trimmed dice lut is only said to lie within its tile, and its padded texture is not described.
- SpriteCatalogue.Catalogue: each diced sprite's run inherits the same limit from `CatalogueSprite`.
- SpriteProcess.PaddedCopy: in TileX mode each side border is one colour, and that colour is left open. The source reads it from pixels of the fresh `Texture2D` that nothing has written, and Unity's initial texture content is not modelled.
- SpriteProcess.ProcessTexture: the same gap, since its padded texture is stated through `PaddedFrom`, which leaves the TileX side-border colours open in the same way.
- `RebuildGuard.CollectionBuilder.Rebuild` is reduced to its guard. Its `packingFailed` argument stands for the outcome of the rest of the build: a non-empty texture list whose `Build()` reports unplaced textures.
- Dice filter: the model follows the code. `TransparentOnly` skips tiles that are fully solid (XPressions/tk2dSpriteCollectionBuilder.cs:585-590). The filter's name suggests skipping tiles that are not fully transparent instead.
- Unity's `GetPixel`/`SetPixel` out of range follow the repeat wrap mode of a new `Texture2D`. Qt's `setPixelColor` out of range is ignored.

## Findings

| source | as written | input that shows it | evidently intended | confidence | as-written member | corrected member |
|---|---|---|---|---|---|---|
| EmoteBuilder/builder.cpp:204 | `rects = currRects` hands the next page the full list, since `insert` takes its list by value and leaves the caller's copy unchanged | sources 2x2 and 1x1, page 2x2, page limit 2: the second page packs 2x2 again, no unused source matches, and `usedRect[-1]` is written | carry over only the sources not yet matched | not executed | AtlasBuilder.CarryOverAsWritten, AtlasBuilder.AsWrittenRepackFindsNoSource | AtlasBuilder.CarryOver, AtlasBuilder.CarryOverAssigned, AtlasBuilder.Builder.AcceptPage, AtlasBuilder.Builder.SearchPage, AtlasBuilder.Builder.PackPages, AtlasBuilder.Builder.Build |
| XPressions/Utility.cs:38 | a flipped frame is turned back with column `height - y` | any flipped frame at least 2 wide whose first and last columns differ: column 0 of the result is the frame's last column | column `height - 1 - y`, the inverse of the blit's turn | not executed | TextureUtility.UndoFlip, TextureUtility.SubTexture, TextureUtility.AsWrittenUndoFlipShifts | TextureUtility.UndoFlipCorrected, TextureUtility.SubTextureCorrected, TextureUtility.SubTextureRecoversFrame |
| XPressions/tk2dSpriteCollectionBuilder.cs:684-690 | a hash duplicate takes the original's slot, but luts that shared its slot through the same source keep the old slot | A (slot 0) and B (slot 1) with the same pixels, C a same-source duplicate of B: after the merge one texture remains and C still names slot 1 | every lut sharing the merged slot follows it | not executed | SpriteDedup.MergedAsWritten, SpriteDedup.AsWrittenMergeDangles | SpriteDedup.Merged, SpriteDedup.MergeDense, SpriteDedup.MergeLinked, SpriteDedup.MergeDuplicate, SpriteDedup.DedupPair, SpriteDedup.RemoveDuplicates, SpriteDedup.PrepareAtlasTextures |
| EmoteBuilder/builder.cpp:117-247 | the page loop has no guard for an empty list, and with size optimisation on the search accepts a first pass only at occupancy above 0.5 | no sources, with size optimisation on: occupancy is 0 (NaN once the page is 0x0), so the search only keeps halving the page | with size optimisation on, stop when nothing is left to place; with it off the loop already ends after one empty page, which the model keeps | not executed | AtlasBuilder.AsWrittenEmptySearchNeverEnds, AtlasBuilder.EmptySearchHasNoRun | AtlasBuilder.Builder.PackPages |
