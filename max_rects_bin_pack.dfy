// The MaxRects bin packer: a bin of fixed size, the rectangles placed in it
// and the maximal free rectangles that remain.

module MaxRects {
  import opened AtlasRect

  /** `std::numeric_limits<int>::max()`, the packer's "no score yet". */
  const INT_MAX: int := 0x7fff_ffff

  /** The five placement rules. */
  datatype FreeRectChoiceHeuristic =
    | RectBestShortSideFit   // least leftover on the shorter side, then on the longer side
    | RectBestLongSideFit    // least leftover on the longer side, then on the shorter side
    | RectBestAreaFit        // smallest free rectangle that fits, then the shorter leftover side
    | RectBottomLeftRule     // lowest top edge, then leftmost ("Tetris")
    | RectContactPointRule   // longest contact with the bin edges and placed rectangles

  /**
   * A placement and its two scores as the search keeps them: the primary
   * score and the tie-breaker, smaller is better. The contact-point rule
   * maximises, so its primary score is the negated contact length.
   */
  datatype Choice = Choice(node: Rect, score1: int, score2: int)

  /** What the packer state looks like to the placement rules. */
  datatype Packer = Packer(allowRotation: bool, binWidth: int, binHeight: int,
                           used: seq<Rect>, free: seq<Rect>)

  /** The packer's zero-initialised "nothing found yet" node. */
  const ZeroRect: Rect := Rect(0, 0, 0, 0)

  /** The pair of scores `scoreRect` reports for a rectangle that does not fit. */
  const NoFit: Choice := Choice(ZeroRect, INT_MAX, INT_MAX)

  function Abs(x: int): int { if x < 0 then -x else x }
  function Min(a: int, b: int): int { if a < b then a else b }
  function Max(a: int, b: int): int { if a < b then b else a }

  /** `c` is strictly better than `b`: smaller primary score, or equal primary and smaller tie-breaker. */
  predicate Improves(c: Choice, b: Choice)
  {
    c.score1 < b.score1 || (c.score1 == b.score1 && c.score2 < b.score2)
  }

  /** One comparison of the search: keep `b` unless `c` is strictly better. */
  function Offer(b: Choice, c: Choice): Choice
  {
    if Improves(c, b) then c else b
  }

  predicate Fits(f: Rect, w: int, h: int)
  {
    f.width >= w && f.height >= h
  }

  // ---------------------------------------------------------------------
  // Intervals and the contact-point score
  // ---------------------------------------------------------------------

  /** `k` lies in the half-open interval [start, end). */
  predicate InInterval(k: int, start: int, end: int)
  {
    start <= k < end
  }

  /**
   * Length of the overlap of [i1start, i1end) and [i2start, i2end), or 0
   * when they are disjoint. For well-formed intervals the shared integers
   * are exactly those from the larger start up to that start plus the result.
   */
  function CommonIntervalLength(i1start: int, i1end: int, i2start: int, i2end: int): (r: int)
    ensures i1end < i2start || i2end < i1start ==> r == 0
    ensures i1start <= i1end && i2start <= i2end ==> r >= 0
  {
    if i1end < i2start || i2end < i1start then 0
    else Min(i1end, i2end) - Max(i1start, i2start)
  }

  /** For well-formed intervals the shared integers are exactly the `CommonIntervalLength` integers from the larger start on. */
  lemma CommonIntervalLengthIsOverlap(i1start: int, i1end: int, i2start: int, i2end: int, k: int)
    requires i1start <= i1end && i2start <= i2end
    ensures var r := CommonIntervalLength(i1start, i1end, i2start, i2end);
            (InInterval(k, i1start, i1end) && InInterval(k, i2start, i2end))
            <==> InInterval(k, Max(i1start, i2start), Max(i1start, i2start) + r)
  {
  }

  /** Contact of a w-by-h node at (x, y) with the bin's edges. */
  function BorderContact(binWidth: int, binHeight: int, x: int, y: int, w: int, h: int): int
  {
    (if x == 0 || x + w == binWidth then h else 0)
    + (if y == 0 || y + h == binHeight then w else 0)
  }

  /** Contact of the node with one placed rectangle `u` along a shared edge line. */
  function EdgeContact(u: Rect, x: int, y: int, w: int, h: int): int
  {
    (if u.x == x + w || u.x + u.width == x
     then CommonIntervalLength(u.y, u.y + u.height, y, y + h) else 0)
    + (if u.y == y + h || u.y + u.height == y
       then CommonIntervalLength(u.x, u.x + u.width, x, x + w) else 0)
  }

  /** Sum of the contacts with the placed rectangles `us`. */
  function UsedContact(us: seq<Rect>, x: int, y: int, w: int, h: int): int
  {
    if us == [] then 0
    else UsedContact(us[..|us| - 1], x, y, w, h) + EdgeContact(us[|us| - 1], x, y, w, h)
  }

  lemma UsedContactStep(us: seq<Rect>, i: int, x: int, y: int, w: int, h: int)
    requires 0 <= i < |us|
    ensures UsedContact(us[..i + 1], x, y, w, h) == UsedContact(us[..i], x, y, w, h) + EdgeContact(us[i], x, y, w, h)
  {
    PrefixStep(us, i);
  }

  /** The contact-point score of a w-by-h node at (x, y). */
  function ContactPointScore(p: Packer, x: int, y: int, w: int, h: int): int
  {
    BorderContact(p.binWidth, p.binHeight, x, y, w, h) + UsedContact(p.used, x, y, w, h)
  }

  lemma {:induction false} UsedContactNonNegative(us: seq<Rect>, x: int, y: int, w: int, h: int)
    requires w >= 0 && h >= 0
    requires forall k :: 0 <= k < |us| ==> us[k].width >= 0 && us[k].height >= 0
    ensures UsedContact(us, x, y, w, h) >= 0
  {
    if us != [] {
      UsedContactNonNegative(us[..|us| - 1], x, y, w, h);
    }
  }

  /** With non-negative sizes the contact score is never negative, so any fit beats the initial best of -1. */
  lemma ContactPointScoreNonNegative(p: Packer, x: int, y: int, w: int, h: int)
    requires w >= 0 && h >= 0
    requires forall k :: 0 <= k < |p.used| ==> p.used[k].width >= 0 && p.used[k].height >= 0
    ensures ContactPointScore(p, x, y, w, h) >= 0
  {
    UsedContactNonNegative(p.used, x, y, w, h);
  }

  // ---------------------------------------------------------------------
  // The placement rules as a search over the free rectangles
  // ---------------------------------------------------------------------

  /**
   * The candidate that placing a w-by-h rectangle at free rectangle `f`
   * gives, upright or turned. The area term of best-area-fit and the
   * contact score of contact-point both use the upright w and h.
   */
  function Candidate(m: FreeRectChoiceHeuristic, p: Packer, f: Rect, w: int, h: int, rotated: bool): Choice
  {
    var pw := if rotated then h else w;
    var ph := if rotated then w else h;
    var node := Rect(f.x, f.y, pw, ph);
    var shortSide := Min(Abs(f.width - pw), Abs(f.height - ph));
    var longSide := Max(Abs(f.width - pw), Abs(f.height - ph));
    match m
    case RectBestShortSideFit => Choice(node, shortSide, longSide)
    case RectBestLongSideFit => Choice(node, longSide, shortSide)
    case RectBestAreaFit => Choice(node, f.width * f.height - w * h, shortSide)
    case RectBottomLeftRule => Choice(node, f.y + ph, f.x)
    case RectContactPointRule => Choice(node, -ContactPointScore(p, f.x, f.y, w, h), 0)
  }

  /** `c` is a legal placement at `f`: the upright size that fits, or the turned size when turning is allowed. */
  predicate IsCandidate(m: FreeRectChoiceHeuristic, p: Packer, f: Rect, w: int, h: int, c: Choice)
  {
    (Fits(f, w, h) && c == Candidate(m, p, f, w, h, false))
    || (p.allowRotation && Fits(f, h, w) && c == Candidate(m, p, f, w, h, true))
  }

  /** One free rectangle's turn in the search: the upright try, then the turned one. */
  function StepFree(m: FreeRectChoiceHeuristic, p: Packer, b: Choice, f: Rect, w: int, h: int): Choice
  {
    var b1 := if Fits(f, w, h) then Offer(b, Candidate(m, p, f, w, h, false)) else b;
    if p.allowRotation && Fits(f, h, w) then Offer(b1, Candidate(m, p, f, w, h, true)) else b1
  }

  /** The best placement over the free rectangles `fs`, in list order, starting from `init`. */
  function FindBest(m: FreeRectChoiceHeuristic, p: Packer, fs: seq<Rect>, w: int, h: int, init: Choice): Choice
  {
    if fs == [] then init
    else StepFree(m, p, FindBest(m, p, fs[..|fs| - 1], w, h, init), fs[|fs| - 1], w, h)
  }

  lemma FindBestStep(m: FreeRectChoiceHeuristic, p: Packer, fs: seq<Rect>, i: int, w: int, h: int, init: Choice)
    requires 0 <= i < |fs|
    ensures FindBest(m, p, fs[..i + 1], w, h, init) == StepFree(m, p, FindBest(m, p, fs[..i], w, h, init), fs[i], w, h)
  {
    PrefixStep(fs, i);
  }

  /**
   * The starting point of a search. `tie` is what the caller's second
   * score variable holds on entry; contact-point starts from a best
   * contact of -1.
   */
  function InitFor(m: FreeRectChoiceHeuristic, tie: int): Choice
  {
    if m == RectContactPointRule then Choice(ZeroRect, 1, 0) else Choice(ZeroRect, INT_MAX, tie)
  }

  /** What `scoreRect` reports: the search from "no score", with both scores maximal when the node has no height. */
  function ScoreSpec(m: FreeRectChoiceHeuristic, p: Packer, w: int, h: int): Choice
  {
    var c := FindBest(m, p, p.free, w, h, InitFor(m, INT_MAX));
    if c.node.height == 0 then Choice(c.node, INT_MAX, INT_MAX)
    else if m == RectContactPointRule then Choice(c.node, c.score1, INT_MAX)
    else c
  }

  /** The search returns its starting point or a legal placement at one of the free rectangles. */
  lemma {:induction false} FindBestSound(m: FreeRectChoiceHeuristic, p: Packer, fs: seq<Rect>, w: int, h: int, init: Choice)
    ensures var c := FindBest(m, p, fs, w, h, init);
            c == init || exists i :: 0 <= i < |fs| && IsCandidate(m, p, fs[i], w, h, c)
  {
    if fs != [] {
      var pre := fs[..|fs| - 1];
      FindBestSound(m, p, pre, w, h, init);
      var b := FindBest(m, p, pre, w, h, init);
      if b != init {
        var i :| 0 <= i < |pre| && IsCandidate(m, p, pre[i], w, h, b);
        assert fs[i] == pre[i];
      }
    }
  }

  /** `c` is no better than `b` ... */
  lemma OfferKeepsBound(b: Choice, c: Choice, d: Choice)
    requires !Improves(d, b)
    ensures !Improves(d, Offer(b, c))
  {
  }

  /** The search's result is never beaten by its starting point. */
  lemma {:induction false} FindBestNoWorseThanInit(m: FreeRectChoiceHeuristic, p: Packer, fs: seq<Rect>, w: int, h: int, init: Choice)
    ensures !Improves(init, FindBest(m, p, fs, w, h, init))
  {
    if fs != [] {
      var pre := fs[..|fs| - 1];
      FindBestNoWorseThanInit(m, p, pre, w, h, init);
      var b := FindBest(m, p, pre, w, h, init);
      var f := fs[|fs| - 1];
      var b1 := if Fits(f, w, h) then Offer(b, Candidate(m, p, f, w, h, false)) else b;
      OfferKeepsBound(b, Candidate(m, p, f, w, h, false), init);
      OfferKeepsBound(b1, Candidate(m, p, f, w, h, true), init);
    }
  }

  /** No legal placement at any free rectangle is strictly better than the search's result. */
  lemma {:induction false} FindBestOptimal(m: FreeRectChoiceHeuristic, p: Packer, fs: seq<Rect>, w: int, h: int,
                                           init: Choice, i: int, rotated: bool)
    requires 0 <= i < |fs|
    requires if rotated then p.allowRotation && Fits(fs[i], h, w) else Fits(fs[i], w, h)
    ensures !Improves(Candidate(m, p, fs[i], w, h, rotated), FindBest(m, p, fs, w, h, init))
  {
    var pre := fs[..|fs| - 1];
    var b := FindBest(m, p, pre, w, h, init);
    var f := fs[|fs| - 1];
    assert FindBest(m, p, fs, w, h, init) == StepFree(m, p, b, f, w, h);
    if i < |fs| - 1 {
      assert fs[i] == pre[i];
      FindBestOptimal(m, p, pre, w, h, init, i, rotated);
      StepFreeKeepsBound(m, p, b, f, w, h, Candidate(m, p, fs[i], w, h, rotated));
    } else {
      StepFreeBeatsOwn(m, p, b, f, w, h, rotated);
    }
  }

  /** A step of the search never lets a choice that did not beat the running best beat it afterwards. */
  lemma StepFreeKeepsBound(m: FreeRectChoiceHeuristic, p: Packer, b: Choice, f: Rect, w: int, h: int, d: Choice)
    requires !Improves(d, b)
    ensures !Improves(d, StepFree(m, p, b, f, w, h))
  {
    var b1 := if Fits(f, w, h) then Offer(b, Candidate(m, p, f, w, h, false)) else b;
    OfferKeepsBound(b, Candidate(m, p, f, w, h, false), d);
    OfferKeepsBound(b1, Candidate(m, p, f, w, h, true), d);
  }

  /** After its step, a free rectangle's own legal candidates do not beat the running best. */
  lemma StepFreeBeatsOwn(m: FreeRectChoiceHeuristic, p: Packer, b: Choice, f: Rect, w: int, h: int, rotated: bool)
    requires if rotated then p.allowRotation && Fits(f, h, w) else Fits(f, w, h)
    ensures !Improves(Candidate(m, p, f, w, h, rotated), StepFree(m, p, b, f, w, h))
  {
    var up := Candidate(m, p, f, w, h, false);
    var b1 := if Fits(f, w, h) then Offer(b, up) else b;
    if !rotated {
      OfferKeepsBound(b1, Candidate(m, p, f, w, h, true), up);
    }
  }

  /** A search result with non-zero height, started from the zero node, is a legal placement inside a free rectangle. */
  lemma FoundNodeFits(m: FreeRectChoiceHeuristic, p: Packer, fs: seq<Rect>, w: int, h: int, tie: int)
    requires FindBest(m, p, fs, w, h, InitFor(m, tie)).node.height != 0
    ensures var n := FindBest(m, p, fs, w, h, InitFor(m, tie)).node;
            exists i :: 0 <= i < |fs| && n.x == fs[i].x && n.y == fs[i].y && IsContainedIn(n, fs[i])
              && ((n.width == w && n.height == h) || (p.allowRotation && n.width == h && n.height == w))
  {
    FindBestSound(m, p, fs, w, h, InitFor(m, tie));
  }

  /** Contact-point scores a turned placement with the upright size, so its reported score is that of the upright node at the same corner. */
  lemma ContactPointUsesUprightSize(p: Packer, fs: seq<Rect>, w: int, h: int)
    requires FindBest(RectContactPointRule, p, fs, w, h, InitFor(RectContactPointRule, 0)).node.height != 0
    ensures var c := FindBest(RectContactPointRule, p, fs, w, h, InitFor(RectContactPointRule, 0));
            c.score1 == -ContactPointScore(p, c.node.x, c.node.y, w, h)
  {
    FindBestSound(RectContactPointRule, p, fs, w, h, InitFor(RectContactPointRule, 0));
  }

  // ---------------------------------------------------------------------
  // Splitting and pruning free rectangles
  // ---------------------------------------------------------------------

  /**
   * The free rectangles that replace `f` when `u` is placed over it, in the
   * order the packer appends them (above, below, left, right of `u`).
   * Each lies inside `f` and clear of `u`; a free rectangle that `u` does
   * not overlap is not split.
   */
  function SplitPieces(f: Rect, u: Rect): (ps: seq<Rect>)
    ensures |ps| <= 4
    ensures !Intersects(u, f) ==> ps == []
  {
    if u.x >= f.x + f.width || u.x + u.width <= f.x || u.y >= f.y + f.height || u.y + u.height <= f.y then []
    else
      var spanX := u.x < f.x + f.width && u.x + u.width > f.x;
      var spanY := u.y < f.y + f.height && u.y + u.height > f.y;
      var above := if spanX && u.y > f.y && u.y < f.y + f.height
                   then [Rect(f.x, f.y, f.width, u.y - f.y)] else [];
      var below := if spanX && u.y + u.height < f.y + f.height
                   then [Rect(f.x, u.y + u.height, f.width, f.y + f.height - (u.y + u.height))] else [];
      var left := if spanY && u.x > f.x && u.x < f.x + f.width
                  then [Rect(f.x, f.y, u.x - f.x, f.height)] else [];
      var right := if spanY && u.x + u.width < f.x + f.width
                   then [Rect(u.x + u.width, f.y, f.x + f.width - (u.x + u.width), f.height)] else [];
      above + below + left + right
  }

  /** Each piece lies inside the split free rectangle and clear of the placed node. */
  lemma SplitPiecesSound(f: Rect, u: Rect)
    ensures forall k :: 0 <= k < |SplitPieces(f, u)| ==>
              IsContainedIn(SplitPieces(f, u)[k], f) && !Intersects(SplitPieces(f, u)[k], u)
  {
  }

  /** Every cell of `f` that `u` does not cover is covered by one of the pieces: splitting loses no free space. */
  lemma SplitPiecesCover(f: Rect, u: Rect, px: int, py: int)
    requires Intersects(u, f)
    requires HasCell(f, px, py) && !HasCell(u, px, py)
    ensures exists k :: 0 <= k < |SplitPieces(f, u)| && HasCell(SplitPieces(f, u)[k], px, py)
  {
    var ps := SplitPieces(f, u);
    var above := if u.y > f.y && u.y < f.y + f.height then [Rect(f.x, f.y, f.width, u.y - f.y)] else [];
    var below := if u.y + u.height < f.y + f.height
                 then [Rect(f.x, u.y + u.height, f.width, f.y + f.height - (u.y + u.height))] else [];
    var left := if u.x > f.x && u.x < f.x + f.width then [Rect(f.x, f.y, u.x - f.x, f.height)] else [];
    var right := if u.x + u.width < f.x + f.width
                 then [Rect(u.x + u.width, f.y, f.x + f.width - (u.x + u.width), f.height)] else [];
    assert ps == above + below + left + right;
    if py < u.y {
      assert HasCell(ps[0], px, py);
    } else if py >= u.y + u.height {
      assert HasCell(ps[|above|], px, py);
    } else if px < u.x {
      assert HasCell(ps[|above| + |below|], px, py);
    } else {
      assert px >= u.x + u.width;
      assert HasCell(ps[|above| + |below| + |left|], px, py);
    }
  }

  /** The free rectangles a placement of `u` leaves untouched, in order. */
  function Survivors(fs: seq<Rect>, u: Rect): seq<Rect>
  {
    if fs == [] then []
    else Survivors(fs[..|fs| - 1], u) + (if Intersects(u, fs[|fs| - 1]) then [] else [fs[|fs| - 1]])
  }

  /** The pieces of all split free rectangles, in the order they are appended. */
  function AllPieces(fs: seq<Rect>, u: Rect): seq<Rect>
  {
    if fs == [] then []
    else AllPieces(fs[..|fs| - 1], u) + SplitPieces(fs[|fs| - 1], u)
  }

  /** The free list right after splitting, before pruning. */
  function AfterSplit(fs: seq<Rect>, u: Rect): seq<Rect>
  {
    Survivors(fs, u) + AllPieces(fs, u)
  }

  /** Everything left after splitting lies inside an old free rectangle and clear of the placed node. */
  lemma {:induction false} AfterSplitSound(fs: seq<Rect>, u: Rect)
    ensures forall q :: q in AfterSplit(fs, u) ==>
              !Intersects(q, u) && exists f :: f in fs && IsContainedIn(q, f)
  {
    if fs != [] {
      var pre := fs[..|fs| - 1];
      var last := fs[|fs| - 1];
      AfterSplitSound(pre, u);
      var ps := SplitPieces(last, u);
      forall q | q in AfterSplit(fs, u)
        ensures !Intersects(q, u) && exists f :: f in fs && IsContainedIn(q, f)
      {
        if q in AfterSplit(pre, u) {
          var f :| f in pre && IsContainedIn(q, f);
          assert f in fs;
        } else if q in ps {
          var k :| 0 <= k < |ps| && ps[k] == q;
          SplitPiecesSound(last, u);
          assert last in fs;
        } else {
          assert q == last && !Intersects(u, last);
          ContainedReflexive(last);
          assert last in fs;
        }
      }
    }
  }

  /** Every cell of an old free rectangle that the placed node does not cover is still free after splitting. */
  lemma {:induction false} AfterSplitCovers(fs: seq<Rect>, u: Rect, i: int, px: int, py: int)
    requires 0 <= i < |fs| && HasCell(fs[i], px, py) && !HasCell(u, px, py)
    ensures exists q :: q in AfterSplit(fs, u) && HasCell(q, px, py)
  {
    var pre := fs[..|fs| - 1];
    var last := fs[|fs| - 1];
    if i < |fs| - 1 {
      assert fs[i] == pre[i];
      AfterSplitCovers(pre, u, i, px, py);
      var q :| q in AfterSplit(pre, u) && HasCell(q, px, py);
      assert q in AfterSplit(fs, u);
    } else if Intersects(u, last) {
      SplitPiecesCover(last, u, px, py);
      var k :| 0 <= k < |SplitPieces(last, u)| && HasCell(SplitPieces(last, u)[k], px, py);
      assert SplitPieces(last, u)[k] in AfterSplit(fs, u);
    } else {
      assert last in AfterSplit(fs, u);
    }
  }

  lemma SurvivorsStep(orig: seq<Rect>, k: int, u: Rect)
    requires 0 <= k < |orig|
    ensures Survivors(orig[..k + 1], u)
            == Survivors(orig[..k], u) + (if Intersects(u, orig[k]) then [] else [orig[k]])
    ensures AllPieces(orig[..k + 1], u) == AllPieces(orig[..k], u) + SplitPieces(orig[k], u)
  {
    assert orig[..k + 1][..k] == orig[..k];
  }

  lemma PrefixStep<T>(s: seq<T>, i: int)
    requires 0 <= i < |s|
    ensures s[..i + 1][..i] == s[..i] && s[..i + 1] == s[..i] + [s[i]]
  {
  }

  lemma DropFirst(s: seq<Rect>, k: int)
    requires 0 <= k < |s|
    ensures s[k..] == [s[k]] + s[k + 1..]
  {
  }

  lemma RemoveShift(s: seq<Rect>, x: Rect, rest: seq<Rect>, ps: seq<Rect>, pk: seq<Rect>)
    ensures RemoveAt(s + ([x] + rest) + ps + pk, |s|) == s + rest + (ps + pk)
  {
    var whole := s + ([x] + rest) + ps + pk;
    assert whole[..|s|] == s;
    assert whole[|s| + 1..] == rest + ps + pk;
  }

  /** The splitting pass's list: survivors so far, originals still to visit, pieces so far. */
  function PassState(orig: seq<Rect>, k: int, u: Rect): seq<Rect>
    requires 0 <= k <= |orig|
  {
    Survivors(orig[..k], u) + orig[k..] + AllPieces(orig[..k], u)
  }

  lemma PassStateAt(orig: seq<Rect>, k: int, u: Rect)
    requires 0 <= k < |orig|
    ensures PassState(orig, k, u)[|Survivors(orig[..k], u)|] == orig[k]
  {
  }

  /** At the end of the pass every original has been visited. */
  lemma PassStateDone(orig: seq<Rect>, u: Rect)
    ensures PassState(orig, |orig|, u) == AfterSplit(orig, u)
  {
    assert orig[..|orig|] == orig;
    assert orig[|orig|..] == [];
  }

  /** Step of the pass at an original the node overlaps: it is removed and its pieces are appended. */
  lemma PassStepSplit(orig: seq<Rect>, k: int, u: Rect)
    requires 0 <= k < |orig| && Intersects(u, orig[k])
    ensures |Survivors(orig[..k + 1], u)| == |Survivors(orig[..k], u)|
    ensures RemoveAt(PassState(orig, k, u) + SplitPieces(orig[k], u), |Survivors(orig[..k], u)|)
            == PassState(orig, k + 1, u)
  {
    SurvivorsStep(orig, k, u);
    DropFirst(orig, k);
    var sv, ps, pk := Survivors(orig[..k], u), AllPieces(orig[..k], u), SplitPieces(orig[k], u);
    AppendNothing(sv);
    RemoveShift(sv, orig[k], orig[k + 1..], ps, pk);
  }

  /** Step of the pass at an original the node misses: it stays where it is. */
  lemma PassStepKeep(orig: seq<Rect>, k: int, u: Rect)
    requires 0 <= k < |orig| && !Intersects(u, orig[k])
    ensures |Survivors(orig[..k + 1], u)| == |Survivors(orig[..k], u)| + 1
    ensures PassState(orig, k, u) + SplitPieces(orig[k], u) == PassState(orig, k + 1, u)
  {
    SurvivorsStep(orig, k, u);
    DropFirst(orig, k);
    var sv, ps := Survivors(orig[..k], u), AllPieces(orig[..k], u);
    AppendNothing(ps);
    KeepShift(sv, orig[k], orig[k + 1..], ps);
  }

  lemma AppendNothing<T>(s: seq<T>)
    ensures s + [] == s
  {
  }

  lemma KeepShift<T>(s: seq<T>, x: T, rest: seq<T>, ps: seq<T>)
    ensures s + ([x] + rest) + ps + [] == s + [x] + rest + ps
  {
  }

  /** The list with the entry at position `i` taken out, as `QList::removeAt` leaves it. */
  function RemoveAt<T>(s: seq<T>, i: int): seq<T>
    requires 0 <= i < |s|
  {
    s[..i] + s[i + 1..]
  }

  lemma RemoveAtPrefix<T>(s: seq<T>, i: int)
    requires 0 <= i < |s|
    ensures forall k :: 0 <= k < i ==> RemoveAt(s, i)[k] == s[k]
  {
  }

  lemma RemoveAtIndex<T>(s: seq<T>, i: int)
    requires 0 <= i < |s|
    ensures |RemoveAt(s, i)| == |s| - 1
    ensures forall k :: 0 <= k < |s| - 1 ==> RemoveAt(s, i)[k] == if k < i then s[k] else s[k + 1]
  {
  }

  /**
   * Book-keeping of the batch insert: `origin` maps the remaining list `rs`
   * back to indices into `rects`; `placed` and `origin` together hold each
   * index once; the placed rectangles were appended after `used0` in the
   * order of `placed`, each with its rectangle's size.
   */
  ghost predicate Tracked(rects: seq<RectSize>, rs: seq<RectSize>, origin: seq<int>, placed: seq<int>,
                          used0: seq<Rect>, used: seq<Rect>, allowRotation: bool)
  {
    |rs| == |origin|
    && (forall k :: 0 <= k < |origin| ==> 0 <= origin[k] < |rects| && rs[k] == rects[origin[k]])
    && (forall j :: 0 <= j < |placed| ==> 0 <= placed[j] < |rects|)
    && multiset(placed) + multiset(origin) == multiset(Iota(|rects|))
    && |used| == |used0| + |placed|
    && used[..|used0|] == used0
    && (forall j :: 0 <= j < |placed| ==>
          PlacedAs(used[|used0| + j], rects[placed[j]], allowRotation) && used[|used0| + j].height != 0)
  }

  lemma TrackedStep(rects: seq<RectSize>, rs: seq<RectSize>, origin: seq<int>, placed: seq<int>,
                    used0: seq<Rect>, used: seq<Rect>, allowRotation: bool, i: int, node: Rect)
    requires Tracked(rects, rs, origin, placed, used0, used, allowRotation)
    requires 0 <= i < |rs| && PlacedAs(node, rs[i], allowRotation) && node.height != 0
    ensures Tracked(rects, RemoveAt(rs, i), RemoveAt(origin, i), placed + [origin[i]], used0, used + [node], allowRotation)
  {
    MovePlaced(placed, origin, i);
    RemoveAtIndex(rs, i);
    RemoveAtIndex(origin, i);
    var used' := used + [node];
    assert used'[..|used0|] == used0;
    var placed' := placed + [origin[i]];
    forall j | 0 <= j < |placed'|
      ensures PlacedAs(used'[|used0| + j], rects[placed'[j]], allowRotation) && used'[|used0| + j].height != 0
    {
      if j < |placed| {
        assert used'[|used0| + j] == used[|used0| + j];
      }
    }
  }

  /** Moving an index from the remaining list to the placed list keeps the two together a partition. */
  lemma MovePlaced(placed: seq<int>, origin: seq<int>, i: int)
    requires 0 <= i < |origin|
    ensures multiset(placed + [origin[i]]) + multiset(RemoveAt(origin, i)) == multiset(placed) + multiset(origin)
  {
    RemoveAtMultiset(origin, i);
  }

  lemma RemoveAtMultiset<T>(s: seq<T>, i: int)
    requires 0 <= i < |s|
    ensures multiset(RemoveAt(s, i)) + multiset{s[i]} == multiset(s)
    ensures multiset(RemoveAt(s, i)) <= multiset(s)
    ensures |RemoveAt(s, i)| == |s| - 1
  {
    assert s == s[..i] + [s[i]] + s[i + 1..];
  }

  /** No free rectangle lies inside another one. */
  predicate NoneContained(s: seq<Rect>)
  {
    forall a, b :: 0 <= a < |s| && 0 <= b < |s| && a != b ==> !IsContainedIn(s[a], s[b])
  }

  /** Every rectangle of `before` lies inside some rectangle of `after`. */
  predicate Covers(before: seq<Rect>, after: seq<Rect>)
  {
    forall r :: r in before ==> exists q :: q in after && IsContainedIn(r, q)
  }

  /** What pruning achieves: a sub-multiset in which nothing is redundant and which still covers the input. */
  predicate PrunedFrom(before: seq<Rect>, after: seq<Rect>)
  {
    multiset(after) <= multiset(before) && NoneContained(after) && Covers(before, after)
  }

  /** Positions below `i` are settled: they neither contain nor are contained in any other entry. */
  predicate Settled(s: seq<Rect>, i: int)
  {
    forall a, b :: 0 <= a < i && 0 <= a < |s| && 0 <= b < |s| && a != b ==>
      !IsContainedIn(s[a], s[b]) && !IsContainedIn(s[b], s[a])
  }

  lemma SettledAfterRemove(s: seq<Rect>, i: int, j: int)
    requires 0 <= i <= j < |s| && Settled(s, i)
    ensures Settled(RemoveAt(s, j), i)
  {
    var t := RemoveAt(s, j);
    forall a, b | 0 <= a < i && 0 <= a < |t| && 0 <= b < |t| && a != b
      ensures !IsContainedIn(t[a], t[b]) && !IsContainedIn(t[b], t[a])
    {
      assert t[a] == s[a];
      var b' := if b < j then b else b + 1;
      assert t[b] == s[b'];
    }
  }

  /** `wit` names, for each rectangle of `before`, a rectangle of `after` containing it. */
  ghost predicate CoveredBy(before: seq<Rect>, after: seq<Rect>, wit: seq<int>)
  {
    |wit| == |before|
    && forall r :: 0 <= r < |before| ==> 0 <= wit[r] < |after| && IsContainedIn(before[r], after[wit[r]])
  }

  lemma CoveredByCovers(before: seq<Rect>, after: seq<Rect>, wit: seq<int>)
    requires CoveredBy(before, after, wit)
    ensures Covers(before, after)
  {
    forall r | r in before ensures exists q :: q in after && IsContainedIn(r, q) {
      var k :| 0 <= k < |before| && before[k] == r;
      assert after[wit[k]] in after;
    }
  }

  /** Where position `k` of a list ends up once entry `gone` is removed and its witnesses move to `keep`. */
  function Redirect(k: int, gone: int, keep: int): int
  {
    var k' := if k == gone then keep else k;
    if k' > gone then k' - 1 else k'
  }

  ghost function RedirectAll(wit: seq<int>, gone: int, keep: int): (w: seq<int>)
    ensures |w| == |wit| && forall r :: 0 <= r < |wit| ==> w[r] == Redirect(wit[r], gone, keep)
  {
    seq(|wit|, r requires 0 <= r < |wit| => Redirect(wit[r], gone, keep))
  }

  lemma CoveredAfterRemove(orig: seq<Rect>, s: seq<Rect>, wit: seq<int>, gone: int, keep: int)
    requires 0 <= gone < |s| && 0 <= keep < |s| && gone != keep
    requires CoveredBy(orig, s, wit) && IsContainedIn(s[gone], s[keep])
    ensures CoveredBy(orig, RemoveAt(s, gone), RedirectAll(wit, gone, keep))
  {
    var t := RemoveAt(s, gone);
    var w := RedirectAll(wit, gone, keep);
    forall r | 0 <= r < |orig| ensures 0 <= w[r] < |t| && IsContainedIn(orig[r], t[w[r]]) {
      if wit[r] == gone {
        ContainedTransitive(orig[r], s[gone], s[keep]);
      }
    }
  }

  /** One removal of the pruning pass keeps its three invariants. */
  lemma PruneStep(orig: seq<Rect>, s: seq<Rect>, wit: seq<int>, i: int, gone: int, keep: int)
    requires 0 <= i <= gone < |s| && 0 <= keep < |s| && gone != keep
    requires multiset(s) <= multiset(orig) && CoveredBy(orig, s, wit) && Settled(s, i)
    requires IsContainedIn(s[gone], s[keep])
    ensures multiset(RemoveAt(s, gone)) <= multiset(orig)
    ensures CoveredBy(orig, RemoveAt(s, gone), RedirectAll(wit, gone, keep))
    ensures Settled(RemoveAt(s, gone), i)
  {
    RemoveAtMultiset(s, gone);
    CoveredAfterRemove(orig, s, wit, gone, keep);
    SettledAfterRemove(s, i, gone);
  }

  /** At the start of the pruning pass every entry covers itself and nothing is settled yet. */
  lemma PruneStart(orig: seq<Rect>) returns (wit: seq<int>)
    ensures CoveredBy(orig, orig, wit) && Settled(orig, 0)
  {
    wit := seq(|orig|, r => r);
    forall r | 0 <= r < |orig|
      ensures IsContainedIn(orig[r], orig[wit[r]])
    {
      ContainedReflexive(orig[r]);
    }
  }

  /** Once every position is settled, the pass has produced a pruned list. */
  lemma PruneDone(orig: seq<Rect>, free: seq<Rect>, wit: seq<int>)
    requires multiset(free) <= multiset(orig) && CoveredBy(orig, free, wit) && Settled(free, |free|)
    ensures PrunedFrom(orig, free)
  {
    CoveredByCovers(orig, free, wit);
  }

  /** Position `i` is settled once it has been compared with every later entry. */
  lemma SettledExtend(s: seq<Rect>, i: int)
    requires 0 <= i < |s| && Settled(s, i)
    requires forall k :: i < k < |s| ==> !IsContainedIn(s[i], s[k]) && !IsContainedIn(s[k], s[i])
    ensures Settled(s, i + 1)
  {
  }

  /**
   * The pruning pass as a function of the list and the position it has
   * reached: entry `i` is compared with each later entry in turn. When a
   * later entry contains it, entry `i` goes and the pass resumes at `i`;
   * when it contains the later entry, that one goes and the comparison
   * goes on at the same position; past the last entry, the pass moves on
   * to `i + 1`.
   */
  function PruneFrom(s: seq<Rect>, i: int): seq<Rect>
    requires 0 <= i <= |s|
    decreases |s|, |s| - i, |s| + 1
  {
    if i == |s| then s else PruneEntryFrom(s, i, i + 1)
  }

  /** The pass comparing entry `i` with the entries from `j` on. */
  function PruneEntryFrom(s: seq<Rect>, i: int, j: int): seq<Rect>
    requires 0 <= i < j <= |s|
    decreases |s|, |s| - i, |s| - j
  {
    if j == |s| then PruneFrom(s, i + 1)
    else if IsContainedIn(s[i], s[j]) then PruneFrom(RemoveAt(s, i), i)
    else if IsContainedIn(s[j], s[i]) then PruneEntryFrom(RemoveAt(s, j), i, j)
    else PruneEntryFrom(s, i, j + 1)
  }

  /** The free list `pruneFreeList` leaves. */
  function Pruned(s: seq<Rect>): seq<Rect>
  {
    PruneFrom(s, 0)
  }

  /** `t` is the subsequence of `s` at the strictly increasing positions `f`. */
  ghost predicate IndexMap(f: seq<int>, t: seq<Rect>, s: seq<Rect>)
  {
    |f| == |t|
    && (forall k :: 0 <= k < |f| ==> 0 <= f[k] < |s| && t[k] == s[f[k]])
    && (forall a, b :: 0 <= a < b < |f| ==> f[a] < f[b])
  }

  /** No position in `f` is the earlier of two identical entries of `s`. */
  ghost predicate KeepsLaterCopy(f: seq<int>, s: seq<Rect>)
  {
    forall a, b, k :: 0 <= a < b < |s| && s[a] == s[b] && 0 <= k < |f| ==> f[k] != a
  }

  /** The positions of `s` that survive removing entry `x`. */
  ghost function SkipAt(n: int, x: int): (r: seq<int>)
    requires 0 <= x < n
    ensures |r| == n - 1 && forall k :: 0 <= k < n - 1 ==> r[k] == if k < x then k else k + 1
  {
    seq(n - 1, k => if k < x then k else k + 1)
  }

  /** Following `g` into `t`, then `f` from `t` into `s`. */
  ghost function Compose(f: seq<int>, g: seq<int>): (h: seq<int>)
    requires forall k :: 0 <= k < |g| ==> 0 <= g[k] < |f|
    ensures |h| == |g| && forall k :: 0 <= k < |g| ==> h[k] == f[g[k]]
  {
    seq(|g|, k requires 0 <= k < |g| => f[g[k]])
  }

  lemma ComposeMap(f: seq<int>, t: seq<Rect>, s: seq<Rect>, g: seq<int>, u: seq<Rect>)
    requires IndexMap(f, t, s) && IndexMap(g, u, t)
    ensures IndexMap(Compose(f, g), u, s)
  {
  }

  /**
   * Removing entry `x`, which has no identical entry before it, keeps the
   * earlier copy of every pair of identical entries out of the survivors.
   */
  lemma LiftKeepsLaterCopy(s: seq<Rect>, x: int, g: seq<int>)
    requires 0 <= x < |s|
    requires forall k :: 0 <= k < |g| ==> 0 <= g[k] < |s| - 1
    requires forall a :: 0 <= a < x ==> s[a] != s[x]
    requires KeepsLaterCopy(g, RemoveAt(s, x))
    ensures KeepsLaterCopy(Compose(SkipAt(|s|, x), g), s)
  {
    var t, r := RemoveAt(s, x), SkipAt(|s|, x);
    var h := Compose(r, g);
    forall a, b, k | 0 <= a < b < |s| && s[a] == s[b] && 0 <= k < |h|
      ensures h[k] != a
    {
      if a != x {
        assert b != x;
        var a', b' := if a < x then a else a - 1, if b < x then b else b - 1;
        assert t[a'] == s[a] && t[b'] == s[b];
        assert g[k] != a';
      }
    }
  }

  /** With nothing unsettled, the pass is done and no two entries are identical. */
  lemma SettledNoCopies(s: seq<Rect>)
    requires Settled(s, |s|)
    ensures IndexMap(seq(|s|, k => k), s, s) && KeepsLaterCopy(seq(|s|, k => k), s)
  {
    forall a, b | 0 <= a < b < |s|
      ensures s[a] != s[b]
    {
      ContainedReflexive(s[a]);
    }
  }

  /** The pass from position `i` keeps its survivors in order and keeps the later of two identical entries. */
  lemma {:induction false} PruneFromOrdered(s: seq<Rect>, i: int) returns (f: seq<int>)
    requires 0 <= i <= |s| && Settled(s, i)
    ensures IndexMap(f, PruneFrom(s, i), s) && KeepsLaterCopy(f, s)
    decreases |s|, |s| - i, |s| + 1, 0
  {
    if i == |s| {
      SettledNoCopies(s);
      f := seq(|s|, k => k);
    } else {
      f := PruneEntryOrdered(s, i, i + 1);
    }
  }

  /** The same for the pass comparing entry `i` with the entries from `j` on. */
  lemma {:induction false} PruneEntryOrdered(s: seq<Rect>, i: int, j: int) returns (f: seq<int>)
    requires 0 <= i < j <= |s| && Settled(s, i)
    requires forall k :: i < k < j ==> !IsContainedIn(s[i], s[k]) && !IsContainedIn(s[k], s[i])
    ensures IndexMap(f, PruneEntryFrom(s, i, j), s) && KeepsLaterCopy(f, s)
    decreases |s|, |s| - i, |s| - j, 1
  {
    if j == |s| {
      SettledExtend(s, i);
      f := PruneFromOrdered(s, i + 1);
    } else if IsContainedIn(s[i], s[j]) {
      f := PruneDropsEntry(s, i, j);
    } else if IsContainedIn(s[j], s[i]) {
      f := PruneDropsOther(s, i, j);
    } else {
      f := PruneEntryOrdered(s, i, j + 1);
    }
  }

  /** The branch where entry `i` lies in entry `j` and is erased. */
  lemma {:induction false} PruneDropsEntry(s: seq<Rect>, i: int, j: int) returns (f: seq<int>)
    requires 0 <= i < j < |s| && Settled(s, i) && IsContainedIn(s[i], s[j])
    requires forall k :: i < k < j ==> !IsContainedIn(s[i], s[k]) && !IsContainedIn(s[k], s[i])
    ensures IndexMap(f, PruneEntryFrom(s, i, j), s) && KeepsLaterCopy(f, s)
    decreases |s|, |s| - i, |s| - j, 0
  {
    SettledAfterRemove(s, i, i);
    var g := PruneFromOrdered(RemoveAt(s, i), i);
    forall a | 0 <= a < i ensures s[a] != s[i] {
      ContainedReflexive(s[a]);
    }
    ComposeMap(SkipAt(|s|, i), RemoveAt(s, i), s, g, PruneFrom(RemoveAt(s, i), i));
    LiftKeepsLaterCopy(s, i, g);
    f := Compose(SkipAt(|s|, i), g);
  }

  /** The branch where entry `j` lies in entry `i` and is erased. */
  lemma {:induction false} PruneDropsOther(s: seq<Rect>, i: int, j: int) returns (f: seq<int>)
    requires 0 <= i < j < |s| && Settled(s, i) && !IsContainedIn(s[i], s[j]) && IsContainedIn(s[j], s[i])
    requires forall k :: i < k < j ==> !IsContainedIn(s[i], s[k]) && !IsContainedIn(s[k], s[i])
    ensures IndexMap(f, PruneEntryFrom(s, i, j), s) && KeepsLaterCopy(f, s)
    decreases |s|, |s| - i, |s| - j, 0
  {
    var t := RemoveAt(s, j);
    SettledAfterRemove(s, i, j);
    RemoveAtPrefix(s, j);
    var g := PruneEntryOrdered(t, i, j);
    forall a | 0 <= a < j ensures s[a] != s[j] {
      ContainedReflexive(s[a]);
    }
    ComposeMap(SkipAt(|s|, j), t, s, g, PruneEntryFrom(t, i, j));
    LiftKeepsLaterCopy(s, j, g);
    f := Compose(SkipAt(|s|, j), g);
  }

  /**
   * Pruning keeps the surviving rectangles in their original relative
   * order, and of two identical rectangles it is the earlier one that goes.
   */
  lemma PrunedKeepsOrder(s: seq<Rect>)
    ensures exists f :: IndexMap(f, Pruned(s), s) && KeepsLaterCopy(f, s)
  {
    var f := PruneFromOrdered(s, 0);
  }

  /** Placed rectangles lie inside the bin and are pairwise disjoint. */
  ghost predicate UsedValid(used: seq<Rect>, bin: Rect)
  {
    (forall i :: 0 <= i < |used| ==> IsContainedIn(used[i], bin))
    && (forall i, j :: 0 <= i < j < |used| ==> !Intersects(used[i], used[j]))
  }

  /** Free rectangles lie inside the bin and miss every placed rectangle. */
  ghost predicate FreeValid(free: seq<Rect>, used: seq<Rect>, bin: Rect)
  {
    (forall i :: 0 <= i < |free| ==> IsContainedIn(free[i], bin))
    && (forall i, j :: 0 <= i < |free| && 0 <= j < |used| ==> !Intersects(free[i], used[j]))
  }

  /** A node inside a free rectangle can join the placed rectangles. */
  lemma PlacedUsedValid(used: seq<Rect>, bin: Rect, free: seq<Rect>, f: Rect, node: Rect)
    requires UsedValid(used, bin) && FreeValid(free, used, bin)
    requires f in free && IsContainedIn(node, f)
    ensures UsedValid(used + [node], bin)
  {
    ContainedTransitive(node, f, bin);
    forall j | 0 <= j < |used| ensures !Intersects(used[j], node) {
      ContainedDisjoint(node, f, used[j]);
    }
    var us := used + [node];
    forall i, j | 0 <= i < j < |us| ensures !Intersects(us[i], us[j]) {
      if j == |used| {
        assert us[j] == node && us[i] == used[i];
      } else {
        assert us[i] == used[i] && us[j] == used[j];
      }
    }
  }

  /** What splitting and pruning leave is a valid free list once the node is placed. */
  lemma PlacedFreeValid(used: seq<Rect>, bin: Rect, orig: seq<Rect>, node: Rect, free: seq<Rect>)
    requires FreeValid(orig, used, bin)
    requires multiset(free) <= multiset(AfterSplit(orig, node))
    ensures FreeValid(free, used + [node], bin)
  {
    AfterSplitSound(orig, node);
    var us := used + [node];
    forall i | 0 <= i < |free|
      ensures IsContainedIn(free[i], bin)
      ensures forall j :: 0 <= j < |us| ==> !Intersects(free[i], us[j])
    {
      var q := free[i];
      assert q in multiset(AfterSplit(orig, node));
      assert q in AfterSplit(orig, node);
      var g :| g in orig && IsContainedIn(q, g);
      ContainedTransitive(q, g, bin);
      forall j | 0 <= j < |us| ensures !Intersects(q, us[j]) {
        if j < |used| {
          assert us[j] == used[j];
          ContainedDisjoint(q, g, used[j]);
        }
      }
    }
  }

  /** What the pruned split list means for the placed node and for the packer's invariant. */
  lemma PlacementOutcome(used: seq<Rect>, bin: Rect, orig: seq<Rect>, node: Rect, free: seq<Rect>)
    requires multiset(free) <= multiset(AfterSplit(orig, node))
    ensures forall k :: 0 <= k < |free| ==> !Intersects(free[k], node)
    ensures UsedValid(used, bin) && FreeValid(orig, used, bin) && (exists f :: f in orig && IsContainedIn(node, f))
            ==> UsedValid(used + [node], bin) && FreeValid(free, used + [node], bin)
  {
    AfterSplitSound(orig, node);
    forall k | 0 <= k < |free| ensures !Intersects(free[k], node) {
      assert free[k] in multiset(AfterSplit(orig, node));
      assert free[k] in AfterSplit(orig, node);
    }
    if UsedValid(used, bin) && FreeValid(orig, used, bin) && (exists f :: f in orig && IsContainedIn(node, f)) {
      var f :| f in orig && IsContainedIn(node, f);
      PlacedUsedValid(used, bin, orig, f, node);
      PlacedFreeValid(used, bin, orig, node, free);
    }
  }

  // ---------------------------------------------------------------------
  // Whether a rectangle can be placed at all
  // ---------------------------------------------------------------------

  /** Placing a w-by-h rectangle at free rectangle `f`, upright or (when allowed) turned, fits. */
  predicate LegalFit(p: Packer, f: Rect, w: int, h: int, rotated: bool)
  {
    if rotated then p.allowRotation && Fits(f, h, w) else Fits(f, w, h)
  }

  /** `n` has the size `r` asks for, or that size turned when turning is allowed. */
  predicate PlacedAs(n: Rect, r: RectSize, allowRotation: bool)
  {
    (n.width == r.width && n.height == r.height)
    || (allowRotation && n.width == r.height && n.height == r.width)
  }

  /**
   * A packer whose scores cannot reach `INT_MAX`: sides of at most 46340
   * (so the bin area stays below `INT_MAX`), free rectangles inside the
   * bin and placed rectangles of non-negative size.
   */
  ghost predicate Bounded(p: Packer)
  {
    0 <= p.binWidth <= 46340 && 0 <= p.binHeight <= 46340
    && (forall i :: 0 <= i < |p.free| ==> IsContainedIn(p.free[i], Bin(p.binWidth, p.binHeight)))
    && (forall i :: 0 <= i < |p.used| ==> p.used[i].width >= 0 && p.used[i].height >= 0)
  }

  lemma MulMono(a: int, b: int, c: int, d: int)
    requires 0 <= a <= c && 0 <= b <= d
    ensures a * b <= c * d
  {
    assert a * b <= c * b;
  }

  /** In a bounded packer every legal placement of a rectangle of positive size beats the search's starting point. */
  lemma LegalFitBeatsStart(m: FreeRectChoiceHeuristic, p: Packer, f: Rect, w: int, h: int, rotated: bool, tie: int)
    requires Bounded(p) && IsContainedIn(f, Bin(p.binWidth, p.binHeight))
    requires w >= 1 && h >= 1 && LegalFit(p, f, w, h, rotated)
    ensures Improves(Candidate(m, p, f, w, h, rotated), InitFor(m, tie))
  {
    if m == RectContactPointRule {
      ContactPointScoreNonNegative(p, f.x, f.y, w, h);
    } else if m == RectBestAreaFit {
      MulMono(f.width, f.height, p.binWidth, p.binHeight);
      MulMono(p.binWidth, p.binHeight, 46340, 46340);
      MulMono(1, 1, w, h);
    }
  }

  /** A strictly better candidate than the start leaves the search strictly better than the start too. */
  lemma ImprovesThrough(c: Choice, r: Choice, init: Choice)
    requires Improves(c, init) && !Improves(c, r)
    ensures Improves(r, init)
  {
  }

  /**
   * For rectangles of positive size in a bounded packer, a search finds a
   * node (one of non-zero height) exactly when some free rectangle can take
   * the rectangle upright, or turned when turning is allowed.
   */
  lemma FoundIffRoom(m: FreeRectChoiceHeuristic, p: Packer, w: int, h: int, tie: int)
    requires Bounded(p) && w >= 1 && h >= 1
    ensures FindBest(m, p, p.free, w, h, InitFor(m, tie)).node.height != 0
            <==> exists i, rotated :: 0 <= i < |p.free| && LegalFit(p, p.free[i], w, h, rotated)
  {
    var init := InitFor(m, tie);
    var r := FindBest(m, p, p.free, w, h, init);
    if exists i, rotated :: 0 <= i < |p.free| && LegalFit(p, p.free[i], w, h, rotated) {
      var i, rotated :| 0 <= i < |p.free| && LegalFit(p, p.free[i], w, h, rotated);
      LegalFitBeatsStart(m, p, p.free[i], w, h, rotated, tie);
      FindBestOptimal(m, p, p.free, w, h, init, i, rotated);
      ImprovesThrough(Candidate(m, p, p.free[i], w, h, rotated), r, init);
      FindBestSound(m, p, p.free, w, h, init);
    }
    if r.node.height != 0 {
      FoundNodeFits(m, p, p.free, w, h, tie);
      var i :| 0 <= i < |p.free| && r.node.x == p.free[i].x && r.node.y == p.free[i].y && IsContainedIn(r.node, p.free[i])
                && ((r.node.width == w && r.node.height == h) || (p.allowRotation && r.node.width == h && r.node.height == w));
      if r.node.width == w && r.node.height == h {
        assert LegalFit(p, p.free[i], w, h, false);
      } else {
        assert LegalFit(p, p.free[i], w, h, true);
      }
    }
  }

  /** The score `scoreRect` gives a rectangle of the given size. */
  function ScoreOf(m: FreeRectChoiceHeuristic, p: Packer, r: RectSize): Choice
  {
    ScoreSpec(m, p, r.width, r.height)
  }

  /** A rectangle whose score beats "no fit" has a node that lies inside a free rectangle and has its size, turned only when allowed. */
  lemma ScoredNodeFits(m: FreeRectChoiceHeuristic, p: Packer, r: RectSize)
    requires Improves(ScoreOf(m, p, r), NoFit)
    ensures exists f :: f in p.free && IsContainedIn(ScoreOf(m, p, r).node, f)
              && PlacedAs(ScoreOf(m, p, r).node, r, p.allowRotation)
  {
    FoundNodeFits(m, p, p.free, r.width, r.height, INT_MAX);
    var n := ScoreOf(m, p, r).node;
    var i :| 0 <= i < |p.free| && IsContainedIn(n, p.free[i])
             && ((n.width == r.width && n.height == r.height) || (p.allowRotation && n.width == r.height && n.height == r.width));
    assert p.free[i] in p.free;
  }

  /** For a rectangle of positive size in a bounded packer, the score beats "no fit" exactly when there is room for it. */
  lemma ScoreIffRoom(m: FreeRectChoiceHeuristic, p: Packer, r: RectSize)
    requires Bounded(p) && r.width >= 1 && r.height >= 1
    ensures Improves(ScoreOf(m, p, r), NoFit)
            <==> exists i, rotated :: 0 <= i < |p.free| && LegalFit(p, p.free[i], r.width, r.height, rotated)
  {
    var init := InitFor(m, INT_MAX);
    var c := FindBest(m, p, p.free, r.width, r.height, init);
    FoundIffRoom(m, p, r.width, r.height, INT_MAX);
    if c.node.height != 0 {
      FindBestSound(m, p, p.free, r.width, r.height, init);
      var i, rotated :| 0 <= i < |p.free| && LegalFit(p, p.free[i], r.width, r.height, rotated);
      LegalFitBeatsStart(m, p, p.free[i], r.width, r.height, rotated, INT_MAX);
      FindBestOptimal(m, p, p.free, r.width, r.height, init, i, rotated);
      ImprovesThrough(Candidate(m, p, p.free[i], r.width, r.height, rotated), c, init);
    }
  }

  // ---------------------------------------------------------------------
  // One round of the batch insert
  // ---------------------------------------------------------------------

  /** A round's winner: its position in the remaining list (or -1) and its placement with scores. */
  datatype Pick = Pick(index: int, choice: Choice)

  /** The winner of a round over `rs` in list order, starting from "no score" and index -1. */
  function BestRect(m: FreeRectChoiceHeuristic, p: Packer, rs: seq<RectSize>): (b: Pick)
    ensures b.index == -1 || 0 <= b.index < |rs|
  {
    if rs == [] then Pick(-1, NoFit)
    else
      var b := BestRect(m, p, rs[..|rs| - 1]);
      var c := ScoreOf(m, p, rs[|rs| - 1]);
      if Improves(c, b.choice) then Pick(|rs| - 1, c) else b
  }

  lemma BestRectStep(m: FreeRectChoiceHeuristic, p: Packer, rs: seq<RectSize>, i: int)
    requires 0 <= i < |rs|
    ensures BestRect(m, p, rs[..i + 1])
            == (var b := BestRect(m, p, rs[..i]);
                if Improves(ScoreOf(m, p, rs[i]), b.choice) then Pick(i, ScoreOf(m, p, rs[i])) else b)
  {
    PrefixStep(rs, i);
  }

  /**
   * The round's winner: index -1 with "no fit" exactly when no rectangle's
   * score beats "no fit"; otherwise the first rectangle with the best
   * score, which beats "no fit".
   */
  lemma {:induction false} BestRectSpec(m: FreeRectChoiceHeuristic, p: Packer, rs: seq<RectSize>)
    ensures var b := BestRect(m, p, rs);
            (b.index == -1 && b.choice == NoFit && forall k :: 0 <= k < |rs| ==> !Improves(ScoreOf(m, p, rs[k]), NoFit))
            || (0 <= b.index < |rs| && b.choice == ScoreOf(m, p, rs[b.index]) && Improves(b.choice, NoFit)
                && (forall k :: 0 <= k < |rs| ==> !Improves(ScoreOf(m, p, rs[k]), b.choice))
                && (forall k :: 0 <= k < b.index ==> Improves(b.choice, ScoreOf(m, p, rs[k]))))
  {
    if rs != [] {
      var pre := rs[..|rs| - 1];
      BestRectSpec(m, p, pre);
      assert forall k :: 0 <= k < |pre| ==> pre[k] == rs[k];
    }
  }

  /** The packer once `placeRect` has put `node` in: the split free list pruned, the node appended. */
  function Place(p: Packer, node: Rect): Packer
  {
    p.(used := p.used + [node], free := Pruned(AfterSplit(p.free, node)))
  }

  /**
   * The rounds of the batch insert: while some rectangle remains, the
   * round's winner is placed and dropped from the list; a round with no
   * winner ends the insert.
   */
  function InsertRounds(m: FreeRectChoiceHeuristic, p: Packer, rs: seq<RectSize>): Packer
    decreases |rs|
  {
    var b := BestRect(m, p, rs);
    if b.index == -1 then p
    else InsertRounds(m, Place(p, b.choice.node), RemoveAt(rs, b.index))
  }

  /**
   * The rounds only append to the placed rectangles, at most one per
   * rectangle given, and leave the bin and the rotation setting alone.
   */
  lemma {:induction false} InsertRoundsAppends(m: FreeRectChoiceHeuristic, p: Packer, rs: seq<RectSize>)
    ensures var q := InsertRounds(m, p, rs);
            q.allowRotation == p.allowRotation && q.binWidth == p.binWidth && q.binHeight == p.binHeight
            && |p.used| <= |q.used| <= |p.used| + |rs| && q.used[..|p.used|] == p.used
    decreases |rs|
  {
    var b := BestRect(m, p, rs);
    if b.index != -1 {
      var p' := Place(p, b.choice.node);
      InsertRoundsAppends(m, p', RemoveAt(rs, b.index));
      var q := InsertRounds(m, p', RemoveAt(rs, b.index));
      assert q.used[..|p.used|] == q.used[..|p'.used|][..|p.used|];
    }
  }

  // ---------------------------------------------------------------------
  // The packer object
  // ---------------------------------------------------------------------

  class MaxRectsBinPack {
    var allowRotation: bool
    var binWidth: int
    var binHeight: int
    var usedRectangles: seq<Rect>
    var freeRectangles: seq<Rect>

    /** The state as the placement rules see it. */
    function Model(): Packer
      reads this
    {
      Packer(allowRotation, binWidth, binHeight, usedRectangles, freeRectangles)
    }

    /**
     * The packer's invariant: placed rectangles lie in the bin and are
     * pairwise disjoint; free rectangles lie in the bin and miss every
     * placed rectangle.
     */
    ghost predicate Valid()
      reads this
    {
      UsedValid(usedRectangles, Bin(binWidth, binHeight))
      && FreeValid(freeRectangles, usedRectangles, Bin(binWidth, binHeight))
    }

    /** A default packer: no rotation, a 0x0 bin and empty lists. */
    constructor ()
      ensures allowRotation == false && binWidth == 0 && binHeight == 0
      ensures usedRectangles == [] && freeRectangles == []
      ensures Valid()
    {
      allowRotation := false;
      binWidth := 0;
      binHeight := 0;
      usedRectangles := [];
      freeRectangles := [];
    }

    /** A packer for a width-by-height bin: one free rectangle covering the whole bin. */
    constructor Init(width: int, height: int, allowRotation: bool)
      ensures this.allowRotation == allowRotation && binWidth == width && binHeight == height
      ensures usedRectangles == [] && freeRectangles == [Rect(0, 0, width, height)]
      ensures Valid()
    {
      binWidth := width;
      binHeight := height;
      this.allowRotation := allowRotation;
      usedRectangles := [];
      freeRectangles := [Rect(0, 0, width, height)];
    }

    function GetMapped(): seq<Rect>
      reads this
    {
      usedRectangles
    }

    /** Sum of the areas of the placed rectangles. */
    method UsedSurfaceArea() returns (area: int)
      ensures area == SumArea(usedRectangles)
    {
      area := 0;
      var i := 0;
      while i < |usedRectangles|
        invariant 0 <= i <= |usedRectangles|
        invariant area == SumArea(usedRectangles[..i])
      {
        PrefixStep(usedRectangles, i);
        area := area + usedRectangles[i].width * usedRectangles[i].height;
        i := i + 1;
      }
      assert usedRectangles[..i] == usedRectangles;
    }

    /** The occupancy ratio, as numerator (used area) over denominator (bin area). */
    method Occupancy() returns (r: Ratio)
      ensures r == Ratio(SumArea(usedRectangles), binWidth * binHeight)
    {
      var used := UsedSurfaceArea();
      r := Ratio(used, binWidth * binHeight);
    }

    /** Bin area not covered by placed rectangles. */
    method WastedBinArea() returns (wasted: int)
      ensures wasted + SumArea(usedRectangles) == binWidth * binHeight
    {
      var used := UsedSurfaceArea();
      wasted := binWidth * binHeight - used;
    }

    /** The contact-point score of a width-by-height node at (x, y). */
    method ContactPointScoreNode(x: int, y: int, width: int, height: int) returns (score: int)
      ensures score == ContactPointScore(Model(), x, y, width, height)
    {
      score := 0;
      if x == 0 || x + width == binWidth {
        score := score + height;
      }
      if y == 0 || y + height == binHeight {
        score := score + width;
      }
      ghost var border := score;
      var i := 0;
      while i < |usedRectangles|
        invariant 0 <= i <= |usedRectangles|
        invariant score == border + UsedContact(usedRectangles[..i], x, y, width, height)
      {
        var u := usedRectangles[i];
        ghost var before := score;
        if u.x == x + width || u.x + u.width == x {
          score := score + CommonIntervalLength(u.y, u.y + u.height, y, y + height);
        }
        if u.y == y + height || u.y + u.height == y {
          score := score + CommonIntervalLength(u.x, u.x + u.width, x, x + width);
        }
        assert score == before + EdgeContact(u, x, y, width, height);
        UsedContactStep(usedRectangles, i, x, y, width, height);
        i := i + 1;
      }
      assert usedRectangles[..i] == usedRectangles;
    }

    /** Bottom-left: `bestY` is the top edge of the placement, `bestX` its left edge; `bestX` enters with the caller's value. */
    method FindPositionForNewNodeBottomLeft(width: int, height: int, bestXIn: int)
      returns (bestNode: Rect, bestY: int, bestX: int)
      ensures Choice(bestNode, bestY, bestX)
              == FindBest(RectBottomLeftRule, Model(), freeRectangles, width, height, InitFor(RectBottomLeftRule, bestXIn))
    {
      bestNode := ZeroRect;
      bestY := INT_MAX;
      bestX := bestXIn;
      var i := 0;
      while i < |freeRectangles|
        invariant 0 <= i <= |freeRectangles|
        invariant Choice(bestNode, bestY, bestX)
                  == FindBest(RectBottomLeftRule, Model(), freeRectangles[..i], width, height, InitFor(RectBottomLeftRule, bestXIn))
      {
        var f := freeRectangles[i];
        ghost var b := Choice(bestNode, bestY, bestX);
        if f.width >= width && f.height >= height {
          var topSideY := f.y + height;
          assert Candidate(RectBottomLeftRule, Model(), f, width, height, false)
                 == Choice(Rect(f.x, f.y, width, height), topSideY, f.x);
          if topSideY < bestY || (topSideY == bestY && f.x < bestX) {
            bestNode := Rect(f.x, f.y, width, height);
            bestY := topSideY;
            bestX := f.x;
          }
        }
        ghost var b1 := Choice(bestNode, bestY, bestX);
        assert b1 == if Fits(f, width, height) then Offer(b, Candidate(RectBottomLeftRule, Model(), f, width, height, false)) else b;
        if allowRotation && f.width >= height && f.height >= width {
          var topSideY := f.y + width;
          assert Candidate(RectBottomLeftRule, Model(), f, width, height, true)
                 == Choice(Rect(f.x, f.y, height, width), topSideY, f.x);
          if topSideY < bestY || (topSideY == bestY && f.x < bestX) {
            bestNode := Rect(f.x, f.y, height, width);
            bestY := topSideY;
            bestX := f.x;
          }
        }
        FindBestStep(RectBottomLeftRule, Model(), freeRectangles, i, width, height, InitFor(RectBottomLeftRule, bestXIn));
        i := i + 1;
      }
      assert freeRectangles[..i] == freeRectangles;
    }

    /** Best short side fit; `bestLongSideFit` enters with the caller's value. */
    method FindPositionForNewNodeBestShortSideFit(width: int, height: int, bestLongIn: int)
      returns (bestNode: Rect, bestShortSideFit: int, bestLongSideFit: int)
      ensures Choice(bestNode, bestShortSideFit, bestLongSideFit)
              == FindBest(RectBestShortSideFit, Model(), freeRectangles, width, height, InitFor(RectBestShortSideFit, bestLongIn))
    {
      bestNode := ZeroRect;
      bestShortSideFit := INT_MAX;
      bestLongSideFit := bestLongIn;
      var i := 0;
      while i < |freeRectangles|
        invariant 0 <= i <= |freeRectangles|
        invariant Choice(bestNode, bestShortSideFit, bestLongSideFit)
                  == FindBest(RectBestShortSideFit, Model(), freeRectangles[..i], width, height, InitFor(RectBestShortSideFit, bestLongIn))
      {
        var f := freeRectangles[i];
        ghost var b := Choice(bestNode, bestShortSideFit, bestLongSideFit);
        if f.width >= width && f.height >= height {
          var leftoverHoriz := Abs(f.width - width);
          var leftoverVert := Abs(f.height - height);
          var shortSideFit := Min(leftoverHoriz, leftoverVert);
          var longSideFit := Max(leftoverHoriz, leftoverVert);
          assert Candidate(RectBestShortSideFit, Model(), f, width, height, false)
                 == Choice(Rect(f.x, f.y, width, height), shortSideFit, longSideFit);
          if shortSideFit < bestShortSideFit || (shortSideFit == bestShortSideFit && longSideFit < bestLongSideFit) {
            bestNode := Rect(f.x, f.y, width, height);
            bestShortSideFit := shortSideFit;
            bestLongSideFit := longSideFit;
          }
        }
        ghost var b1 := Choice(bestNode, bestShortSideFit, bestLongSideFit);
        assert b1 == if Fits(f, width, height) then Offer(b, Candidate(RectBestShortSideFit, Model(), f, width, height, false)) else b;
        if allowRotation && f.width >= height && f.height >= width {
          var flippedLeftoverHoriz := Abs(f.width - height);
          var flippedLeftoverVert := Abs(f.height - width);
          var flippedShortSideFit := Min(flippedLeftoverHoriz, flippedLeftoverVert);
          var flippedLongSideFit := Max(flippedLeftoverHoriz, flippedLeftoverVert);
          assert Candidate(RectBestShortSideFit, Model(), f, width, height, true)
                 == Choice(Rect(f.x, f.y, height, width), flippedShortSideFit, flippedLongSideFit);
          if flippedShortSideFit < bestShortSideFit
             || (flippedShortSideFit == bestShortSideFit && flippedLongSideFit < bestLongSideFit) {
            bestNode := Rect(f.x, f.y, height, width);
            bestShortSideFit := flippedShortSideFit;
            bestLongSideFit := flippedLongSideFit;
          }
        }
        FindBestStep(RectBestShortSideFit, Model(), freeRectangles, i, width, height, InitFor(RectBestShortSideFit, bestLongIn));
        i := i + 1;
      }
      assert freeRectangles[..i] == freeRectangles;
    }

    /** Best long side fit; the long side is the primary score, `bestShortSideFit` enters with the caller's value. */
    method FindPositionForNewNodeBestLongSideFit(width: int, height: int, bestShortIn: int)
      returns (bestNode: Rect, bestShortSideFit: int, bestLongSideFit: int)
      ensures Choice(bestNode, bestLongSideFit, bestShortSideFit)
              == FindBest(RectBestLongSideFit, Model(), freeRectangles, width, height, InitFor(RectBestLongSideFit, bestShortIn))
    {
      bestNode := ZeroRect;
      bestShortSideFit := bestShortIn;
      bestLongSideFit := INT_MAX;
      var i := 0;
      while i < |freeRectangles|
        invariant 0 <= i <= |freeRectangles|
        invariant Choice(bestNode, bestLongSideFit, bestShortSideFit)
                  == FindBest(RectBestLongSideFit, Model(), freeRectangles[..i], width, height, InitFor(RectBestLongSideFit, bestShortIn))
      {
        var f := freeRectangles[i];
        ghost var b := Choice(bestNode, bestLongSideFit, bestShortSideFit);
        if f.width >= width && f.height >= height {
          var leftoverHoriz := Abs(f.width - width);
          var leftoverVert := Abs(f.height - height);
          var shortSideFit := Min(leftoverHoriz, leftoverVert);
          var longSideFit := Max(leftoverHoriz, leftoverVert);
          assert Candidate(RectBestLongSideFit, Model(), f, width, height, false)
                 == Choice(Rect(f.x, f.y, width, height), longSideFit, shortSideFit);
          if longSideFit < bestLongSideFit || (longSideFit == bestLongSideFit && shortSideFit < bestShortSideFit) {
            bestNode := Rect(f.x, f.y, width, height);
            bestShortSideFit := shortSideFit;
            bestLongSideFit := longSideFit;
          }
        }
        ghost var b1 := Choice(bestNode, bestLongSideFit, bestShortSideFit);
        assert b1 == if Fits(f, width, height) then Offer(b, Candidate(RectBestLongSideFit, Model(), f, width, height, false)) else b;
        if allowRotation && f.width >= height && f.height >= width {
          var leftoverHoriz := Abs(f.width - height);
          var leftoverVert := Abs(f.height - width);
          var shortSideFit := Min(leftoverHoriz, leftoverVert);
          var longSideFit := Max(leftoverHoriz, leftoverVert);
          assert Candidate(RectBestLongSideFit, Model(), f, width, height, true)
                 == Choice(Rect(f.x, f.y, height, width), longSideFit, shortSideFit);
          if longSideFit < bestLongSideFit || (longSideFit == bestLongSideFit && shortSideFit < bestShortSideFit) {
            bestNode := Rect(f.x, f.y, height, width);
            bestShortSideFit := shortSideFit;
            bestLongSideFit := longSideFit;
          }
        }
        FindBestStep(RectBestLongSideFit, Model(), freeRectangles, i, width, height, InitFor(RectBestLongSideFit, bestShortIn));
        i := i + 1;
      }
      assert freeRectangles[..i] == freeRectangles;
    }

    /** Best area fit; `bestShortSideFit` enters with the caller's value. */
    method FindPositionForNewNodeBestAreaFit(width: int, height: int, bestShortIn: int)
      returns (bestNode: Rect, bestAreaFit: int, bestShortSideFit: int)
      ensures Choice(bestNode, bestAreaFit, bestShortSideFit)
              == FindBest(RectBestAreaFit, Model(), freeRectangles, width, height, InitFor(RectBestAreaFit, bestShortIn))
    {
      bestNode := ZeroRect;
      bestAreaFit := INT_MAX;
      bestShortSideFit := bestShortIn;
      var i := 0;
      while i < |freeRectangles|
        invariant 0 <= i <= |freeRectangles|
        invariant Choice(bestNode, bestAreaFit, bestShortSideFit)
                  == FindBest(RectBestAreaFit, Model(), freeRectangles[..i], width, height, InitFor(RectBestAreaFit, bestShortIn))
      {
        var f := freeRectangles[i];
        ghost var b := Choice(bestNode, bestAreaFit, bestShortSideFit);
        var areaFit := f.width * f.height - width * height;
        if f.width >= width && f.height >= height {
          var leftoverHoriz := Abs(f.width - width);
          var leftoverVert := Abs(f.height - height);
          var shortSideFit := Min(leftoverHoriz, leftoverVert);
          assert Candidate(RectBestAreaFit, Model(), f, width, height, false)
                 == Choice(Rect(f.x, f.y, width, height), areaFit, shortSideFit);
          if areaFit < bestAreaFit || (areaFit == bestAreaFit && shortSideFit < bestShortSideFit) {
            bestNode := Rect(f.x, f.y, width, height);
            bestShortSideFit := shortSideFit;
            bestAreaFit := areaFit;
          }
        }
        ghost var b1 := Choice(bestNode, bestAreaFit, bestShortSideFit);
        assert b1 == if Fits(f, width, height) then Offer(b, Candidate(RectBestAreaFit, Model(), f, width, height, false)) else b;
        if allowRotation && f.width >= height && f.height >= width {
          var leftoverHoriz := Abs(f.width - height);
          var leftoverVert := Abs(f.height - width);
          var shortSideFit := Min(leftoverHoriz, leftoverVert);
          assert Candidate(RectBestAreaFit, Model(), f, width, height, true)
                 == Choice(Rect(f.x, f.y, height, width), areaFit, shortSideFit);
          if areaFit < bestAreaFit || (areaFit == bestAreaFit && shortSideFit < bestShortSideFit) {
            bestNode := Rect(f.x, f.y, height, width);
            bestShortSideFit := shortSideFit;
            bestAreaFit := areaFit;
          }
        }
        FindBestStep(RectBestAreaFit, Model(), freeRectangles, i, width, height, InitFor(RectBestAreaFit, bestShortIn));
        i := i + 1;
      }
      assert freeRectangles[..i] == freeRectangles;
    }

    /** Contact point: the largest contact score wins, starting from -1. */
    method FindPositionForNewNodeContactPoint(width: int, height: int)
      returns (bestNode: Rect, bestContactScore: int)
      ensures Choice(bestNode, -bestContactScore, 0)
              == FindBest(RectContactPointRule, Model(), freeRectangles, width, height, InitFor(RectContactPointRule, 0))
    {
      bestNode := ZeroRect;
      bestContactScore := -1;
      var i := 0;
      while i < |freeRectangles|
        invariant 0 <= i <= |freeRectangles|
        invariant Choice(bestNode, -bestContactScore, 0)
                  == FindBest(RectContactPointRule, Model(), freeRectangles[..i], width, height, InitFor(RectContactPointRule, 0))
      {
        var f := freeRectangles[i];
        ghost var b := Choice(bestNode, -bestContactScore, 0);
        if f.width >= width && f.height >= height {
          var score := ContactPointScoreNode(f.x, f.y, width, height);
          if score > bestContactScore {
            bestNode := Rect(f.x, f.y, width, height);
            bestContactScore := score;
          }
        }
        ghost var b1 := Choice(bestNode, -bestContactScore, 0);
        assert b1 == if Fits(f, width, height) then Offer(b, Candidate(RectContactPointRule, Model(), f, width, height, false)) else b;
        if allowRotation && f.width >= height && f.height >= width {
          var score := ContactPointScoreNode(f.x, f.y, width, height);
          if score > bestContactScore {
            bestNode := Rect(f.x, f.y, height, width);
            bestContactScore := score;
          }
        }
        FindBestStep(RectContactPointRule, Model(), freeRectangles, i, width, height, InitFor(RectContactPointRule, 0));
        i := i + 1;
      }
      assert freeRectangles[..i] == freeRectangles;
    }

    /**
     * Runs the search of rule `m` with the second score preset to `tie`
     * and returns the node and the scores in "smaller is better" form.
     */
    method FindPosition(width: int, height: int, m: FreeRectChoiceHeuristic, tie: int) returns (c: Choice)
      ensures c == FindBest(m, Model(), freeRectangles, width, height, InitFor(m, tie))
    {
      match m {
        case RectBestShortSideFit =>
          var n, s1, s2 := FindPositionForNewNodeBestShortSideFit(width, height, tie);
          c := Choice(n, s1, s2);
        case RectBottomLeftRule =>
          var n, s1, s2 := FindPositionForNewNodeBottomLeft(width, height, tie);
          c := Choice(n, s1, s2);
        case RectContactPointRule =>
          var n, s := FindPositionForNewNodeContactPoint(width, height);
          c := Choice(n, -s, 0);
        case RectBestLongSideFit =>
          var n, shortFit, longFit := FindPositionForNewNodeBestLongSideFit(width, height, tie);
          c := Choice(n, longFit, shortFit);
        case RectBestAreaFit =>
          var n, s1, s2 := FindPositionForNewNodeBestAreaFit(width, height, tie);
          c := Choice(n, s1, s2);
      }
    }

    /** The placement of a width-by-height rectangle under rule `m` with its two scores; both are `INT_MAX` when it does not fit. */
    method ScoreRect(width: int, height: int, m: FreeRectChoiceHeuristic) returns (newNode: Rect, score1: int, score2: int)
      ensures Choice(newNode, score1, score2) == ScoreSpec(m, Model(), width, height)
    {
      score2 := INT_MAX;
      var c := FindPosition(width, height, m, INT_MAX);
      newNode := c.node;
      score1 := c.score1;
      if m != RectContactPointRule {
        score2 := c.score2;
      }
      if newNode.height == 0 {
        score1 := INT_MAX;
        score2 := INT_MAX;
      }
    }

    /** Appends the pieces of `freeNode` left around `usedNode`; reports whether they overlapped. */
    method SplitFreeNode(freeNode: Rect, usedNode: Rect) returns (split: bool)
      modifies this`freeRectangles
      ensures split == Intersects(usedNode, freeNode)
      ensures freeRectangles == old(freeRectangles) + SplitPieces(freeNode, usedNode)
    {
      if usedNode.x >= freeNode.x + freeNode.width || usedNode.x + usedNode.width <= freeNode.x
         || usedNode.y >= freeNode.y + freeNode.height || usedNode.y + usedNode.height <= freeNode.y {
        return false;
      }
      ghost var start := freeRectangles;
      if usedNode.x < freeNode.x + freeNode.width && usedNode.x + usedNode.width > freeNode.x {
        if usedNode.y > freeNode.y && usedNode.y < freeNode.y + freeNode.height {
          var newNode := Copy(freeNode);
          newNode := newNode.(height := usedNode.y - newNode.y);
          freeRectangles := freeRectangles + [newNode];
        }
        if usedNode.y + usedNode.height < freeNode.y + freeNode.height {
          var newNode := Copy(freeNode);
          newNode := newNode.(y := usedNode.y + usedNode.height);
          newNode := newNode.(height := freeNode.y + freeNode.height - (usedNode.y + usedNode.height));
          freeRectangles := freeRectangles + [newNode];
        }
      }
      if usedNode.y < freeNode.y + freeNode.height && usedNode.y + usedNode.height > freeNode.y {
        if usedNode.x > freeNode.x && usedNode.x < freeNode.x + freeNode.width {
          var newNode := Copy(freeNode);
          newNode := newNode.(width := usedNode.x - newNode.x);
          freeRectangles := freeRectangles + [newNode];
        }
        if usedNode.x + usedNode.width < freeNode.x + freeNode.width {
          var newNode := Copy(freeNode);
          newNode := newNode.(x := usedNode.x + usedNode.width);
          newNode := newNode.(width := freeNode.x + freeNode.width - (usedNode.x + usedNode.width));
          freeRectangles := freeRectangles + [newNode];
        }
      }
      return true;
    }

    /** Removes every free rectangle that lies inside another one. */
    method PruneFreeList()
      modifies this`freeRectangles
      ensures freeRectangles == Pruned(old(freeRectangles))
      ensures PrunedFrom(old(freeRectangles), freeRectangles)
    {
      var free := freeRectangles;
      ghost var orig := free;
      ghost var wit := PruneStart(orig);
      var i := 0;
      while i < |free|
        invariant 0 <= i <= |free|
        invariant multiset(free) <= multiset(orig)
        invariant CoveredBy(orig, free, wit)
        invariant Settled(free, i)
        invariant PruneFrom(free, i) == Pruned(orig)
        decreases |free| - i
      {
        var removedI;
        free, removedI, wit := PruneAgainst(free, i, orig, wit);
        if !removedI {
          i := i + 1;
        }
      }
      PruneDone(orig, free, wit);
      freeRectangles := free;
    }

    /**
     * The inner loop of `pruneFreeList`: compares entry `i` with every later
     * entry, dropping a later entry it contains, or dropping entry `i`
     * itself, and stopping, when a later entry contains it.
     */
    method PruneAgainst(free: seq<Rect>, i: int, ghost orig: seq<Rect>, ghost wit: seq<int>)
      returns (free2: seq<Rect>, removedI: bool, ghost wit2: seq<int>)
      requires 0 <= i < |free|
      requires multiset(free) <= multiset(orig) && CoveredBy(orig, free, wit) && Settled(free, i)
      ensures multiset(free2) <= multiset(orig) && CoveredBy(orig, free2, wit2)
      ensures removedI ==> i <= |free2| < |free| && Settled(free2, i)
      ensures !removedI ==> |free2| <= |free| && i < |free2| && Settled(free2, i + 1)
      ensures removedI ==> PruneFrom(free2, i) == PruneFrom(free, i)
      ensures !removedI ==> PruneFrom(free2, i + 1) == PruneFrom(free, i)
    {
      free2, wit2 := free, wit;
      removedI := false;
      var j := i + 1;
      while j < |free2|
        invariant i + 1 <= j <= |free2| <= |free|
        invariant multiset(free2) <= multiset(orig)
        invariant CoveredBy(orig, free2, wit2)
        invariant Settled(free2, i)
        invariant forall k :: i < k < j ==> !IsContainedIn(free2[i], free2[k]) && !IsContainedIn(free2[k], free2[i])
        invariant PruneEntryFrom(free2, i, j) == PruneFrom(free, i)
        decreases |free2| - j
      {
        if IsContainedIn(free2[i], free2[j]) {
          PruneStep(orig, free2, wit2, i, i, j);
          free2, wit2 := RemoveAt(free2, i), RedirectAll(wit2, i, j);
          removedI := true;
          return;
        }
        if IsContainedIn(free2[j], free2[i]) {
          PruneStep(orig, free2, wit2, i, j, i);
          RemoveAtPrefix(free2, j);
          free2, wit2 := RemoveAt(free2, j), RedirectAll(wit2, j, i);
        } else {
          j := j + 1;
        }
      }
      SettledExtend(free2, i);
    }

    /**
     * Places `node`: every free rectangle it overlaps is replaced by its
     * pieces (pieces appended during the pass are not split again), the free
     * list is pruned and `node` is appended to the placed rectangles.
     */
    method PlaceRect(node: Rect)
      modifies this`freeRectangles, this`usedRectangles
      ensures usedRectangles == old(usedRectangles) + [node]
      ensures freeRectangles == Pruned(AfterSplit(old(freeRectangles), node))
      ensures PrunedFrom(AfterSplit(old(freeRectangles), node), freeRectangles)
    {
      ghost var orig := freeRectangles;
      ghost var k := 0;
      var numRectanglesToProcess := |freeRectangles|;
      var i := 0;
      while i < numRectanglesToProcess
        invariant 0 <= k <= |orig| && i == |Survivors(orig[..k], node)|
        invariant numRectanglesToProcess - i == |orig| - k
        invariant freeRectangles == PassState(orig, k, node)
        invariant usedRectangles == old(usedRectangles)
        decreases |orig| - k
      {
        PassStateAt(orig, k, node);
        var split := SplitFreeNode(freeRectangles[i], node);
        if split {
          PassStepSplit(orig, k, node);
          freeRectangles := RemoveAt(freeRectangles, i);
          numRectanglesToProcess := numRectanglesToProcess - 1;
        } else {
          PassStepKeep(orig, k, node);
          i := i + 1;
        }
        k := k + 1;
      }
      PassStateDone(orig, node);
      PruneFreeList();
      usedRectangles := usedRectangles + [node];
    }

    /**
     * Batch insert. Each round scores every remaining rectangle, places the
     * first one with the best score and drops it from the (local) list; the
     * first round in which no rectangle can be placed ends the insert. The
     * result compares the number of placed rectangles with the number given.
     * `placed` lists the indices into `rects` in the order they were placed,
     * `unplaced` the indices left over; each index is in exactly one of them.
     */
    method Insert(rects: seq<RectSize>, m: FreeRectChoiceHeuristic)
      returns (allPlaced: bool, ghost placed: seq<int>, ghost unplaced: seq<int>)
      requires Valid()
      modifies this`freeRectangles, this`usedRectangles
      ensures Valid()
      ensures allPlaced == (|usedRectangles| == |rects|)
      ensures |usedRectangles| == |old(usedRectangles)| + |placed|
      ensures usedRectangles[..|old(usedRectangles)|] == old(usedRectangles)
      ensures multiset(placed) + multiset(unplaced) == multiset(Iota(|rects|))
      ensures forall j :: 0 <= j < |placed| ==> 0 <= placed[j] < |rects|
      ensures forall k :: 0 <= k < |unplaced| ==> 0 <= unplaced[k] < |rects|
      ensures forall j :: 0 <= j < |placed| ==>
                PlacedAs(usedRectangles[|old(usedRectangles)| + j], rects[placed[j]], allowRotation)
                && usedRectangles[|old(usedRectangles)| + j].height != 0
      ensures forall k :: 0 <= k < |unplaced| ==> !Improves(ScoreOf(m, Model(), rects[unplaced[k]]), NoFit)
      ensures Model() == InsertRounds(m, old(Model()), rects)
    {
      var numRects := |rects|;
      var rs := rects;
      ghost var origin := Iota(|rects|);
      placed := [];
      while |rs| > 0
        invariant Valid()
        invariant Tracked(rects, rs, origin, placed, old(usedRectangles), usedRectangles, allowRotation)
        invariant InsertRounds(m, Model(), rs) == InsertRounds(m, old(Model()), rects)
        decreases |rs|
      {
        var bestRectIndex, bestNode := ChooseRect(rs, m);
        BestRectSpec(m, Model(), rs);
        if bestRectIndex == -1 {
          unplaced := origin;
          forall k | 0 <= k < |unplaced| ensures !Improves(ScoreOf(m, Model(), rects[unplaced[k]]), NoFit) {
            assert rs[k] == rects[unplaced[k]];
          }
          allPlaced := |usedRectangles| == numRects;
          return;
        }
        rs, origin, placed := PlaceRound(rects, rs, origin, placed, old(usedRectangles), m, bestRectIndex, bestNode);
      }
      unplaced := origin;
      allPlaced := |usedRectangles| == numRects;
    }

    /** One placing round of `Insert`: the chosen rectangle is placed and leaves the remaining list. */
    method PlaceRound(ghost rects: seq<RectSize>, rs: seq<RectSize>, ghost origin: seq<int>, ghost placed: seq<int>,
                      ghost used0: seq<Rect>, m: FreeRectChoiceHeuristic, bestRectIndex: int, bestNode: Rect)
      returns (rs': seq<RectSize>, ghost origin': seq<int>, ghost placed': seq<int>)
      requires Valid() && Tracked(rects, rs, origin, placed, used0, usedRectangles, allowRotation)
      requires bestRectIndex == BestRect(m, Model(), rs).index && bestRectIndex != -1
      requires bestNode == BestRect(m, Model(), rs).choice.node
      modifies this`freeRectangles, this`usedRectangles
      ensures Valid() && Tracked(rects, rs', origin', placed', used0, usedRectangles, allowRotation)
      ensures |rs'| < |rs|
      ensures InsertRounds(m, Model(), rs') == InsertRounds(m, old(Model()), rs)
    {
      BestRectSpec(m, Model(), rs);
      ghost var used, before := usedRectangles, Model();
      RoundPlaces(rs[bestRectIndex], m, bestNode);
      assert Model() == Place(before, bestNode);
      TrackedStep(rects, rs, origin, placed, used0, used, allowRotation, bestRectIndex, bestNode);
      placed' := placed + [origin[bestRectIndex]];
      rs' := RemoveAt(rs, bestRectIndex);
      origin' := RemoveAt(origin, bestRectIndex);
    }

    /** One round's selection: the first remaining rectangle with the best score, or -1 when none can be placed. */
    method ChooseRect(rs: seq<RectSize>, m: FreeRectChoiceHeuristic) returns (bestRectIndex: int, bestNode: Rect)
      ensures bestRectIndex == BestRect(m, Model(), rs).index
      ensures bestNode == BestRect(m, Model(), rs).choice.node
    {
      var bestScore1 := INT_MAX;
      var bestScore2 := INT_MAX;
      bestRectIndex := -1;
      bestNode := ZeroRect;
      var i := 0;
      while i < |rs|
        invariant 0 <= i <= |rs|
        invariant Pick(bestRectIndex, Choice(bestNode, bestScore1, bestScore2)) == BestRect(m, Model(), rs[..i])
      {
        var newNode, score1, score2 := ScoreRect(rs[i].width, rs[i].height, m);
        BestRectStep(m, Model(), rs, i);
        if score1 < bestScore1 || (score1 == bestScore1 && score2 < bestScore2) {
          bestScore1 := score1;
          bestScore2 := score2;
          bestNode := newNode;
          bestRectIndex := i;
        }
        i := i + 1;
      }
      assert rs[..i] == rs;
    }

    /** Places the winner of a batch round and keeps the packer valid. */
    method RoundPlaces(r: RectSize, m: FreeRectChoiceHeuristic, node: Rect)
      requires Valid()
      requires Improves(ScoreOf(m, Model(), r), NoFit) && node == ScoreOf(m, Model(), r).node
      modifies this`freeRectangles, this`usedRectangles
      ensures Valid()
      ensures usedRectangles == old(usedRectangles) + [node]
      ensures freeRectangles == Pruned(AfterSplit(old(freeRectangles), node))
      ensures PlacedAs(node, r, allowRotation) && node.height != 0
    {
      ScoredNodeFits(m, Model(), r);
      ghost var used0 := usedRectangles;
      ghost var free0 := freeRectangles;
      PlaceRect(node);
      PlacementOutcome(used0, Bin(binWidth, binHeight), free0, node, freeRectangles);
    }

    /**
     * Single insert: the search of rule `m` with both scores preset to 0;
     * a node of height 0 means no room and nothing changes, otherwise the
     * node is placed exactly as `PlaceRect` places it.
     */
    method InsertSingle(width: int, height: int, m: FreeRectChoiceHeuristic) returns (newNode: Rect)
      requires Valid()
      modifies this`freeRectangles, this`usedRectangles
      ensures Valid()
      ensures newNode == FindBest(m, old(Model()), old(freeRectangles), width, height, InitFor(m, 0)).node
      ensures newNode.height == 0 ==> usedRectangles == old(usedRectangles) && freeRectangles == old(freeRectangles)
      ensures newNode.height != 0 ==>
                usedRectangles == old(usedRectangles) + [newNode]
                && freeRectangles == Pruned(AfterSplit(old(freeRectangles), newNode))
                && PrunedFrom(AfterSplit(old(freeRectangles), newNode), freeRectangles)
    {
      var c := FindPosition(width, height, m, 0);
      newNode := c.node;
      if newNode.height == 0 {
        return;
      }
      FoundNodeFits(m, Model(), freeRectangles, width, height, 0);
      ghost var used0 := usedRectangles;
      ghost var free0 := freeRectangles;
      assert exists f :: f in free0 && IsContainedIn(newNode, f);
      PlaceRect(newNode);
      PlacementOutcome(used0, Bin(binWidth, binHeight), free0, newNode, freeRectangles);
    }

  }

  /** The indices 0, 1, ..., n - 1. */
  function Iota(n: nat): (s: seq<int>)
    ensures |s| == n && forall k :: 0 <= k < n ==> s[k] == k
  {
    seq(n, k => k)
  }

  /** Rectangles of non-negative size have a non-negative total area. */
  lemma {:induction false} SumAreaNonNegative(rs: seq<Rect>)
    requires forall k :: 0 <= k < |rs| ==> rs[k].width >= 0 && rs[k].height >= 0
    ensures SumArea(rs) >= 0
  {
    if rs != [] {
      SumAreaNonNegative(rs[..|rs| - 1]);
      MulMono(0, 0, rs[|rs| - 1].width, rs[|rs| - 1].height);
    }
  }

  /** Appending a rectangle adds its area to the total. */
  lemma SumAreaAppend(rs: seq<Rect>, r: Rect)
    ensures SumArea(rs + [r]) == SumArea(rs) + r.width * r.height
  {
    assert (rs + [r])[..|rs|] == rs;
  }

  /** The occupancy value: used area over bin area, kept as an exact fraction. */
  datatype Ratio = Ratio(num: int, den: int)

  /**
   * `num / den > 0.5` in IEEE single precision, without rounding: a zero
   * denominator gives an infinity (above one half when `num > 0`) or NaN
   * (never above).
   */
  predicate ExceedsHalf(r: Ratio)
  {
    if r.den > 0 then 2 * r.num > r.den
    else if r.den < 0 then 2 * r.num < r.den
    else r.num > 0
  }

  function SumArea(rs: seq<Rect>): int
  {
    if rs == [] then 0 else SumArea(rs[..|rs| - 1]) + rs[|rs| - 1].width * rs[|rs| - 1].height
  }
}
