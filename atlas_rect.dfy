// Integer rectangles shared by the bin packer and the atlas builder.

module AtlasRect {

  /** Width and height of a rectangle that still has to be placed. */
  datatype RectSize = RectSize(width: int, height: int)

  /** An axis-aligned rectangle: top-left corner (x, y) and its extent. */
  datatype Rect = Rect(x: int, y: int, width: int, height: int)

  /** `a` lies inside `b`: all four edges of `a` are within those of `b`. */
  predicate IsContainedIn(a: Rect, b: Rect)
  {
    a.x >= b.x && a.y >= b.y
    && a.x + a.width <= b.x + b.width
    && a.y + a.height <= b.y + b.height
  }

  /** Field-by-field copy of a rectangle. */
  function Copy(r: Rect): (c: Rect)
    ensures c.x == r.x && c.y == r.y && c.width == r.width && c.height == r.height
  {
    Rect(r.x, r.y, r.width, r.height)
  }

  /**
   * The separating-axis test of the packer, negated: the two rectangles
   * overlap on both axes (touching edges do not count).
   */
  predicate Intersects(a: Rect, b: Rect)
  {
    a.x < b.x + b.width && a.x + a.width > b.x
    && a.y < b.y + b.height && a.y + a.height > b.y
  }

  /** The unit cell (px, py) is covered by `r`. */
  predicate HasCell(r: Rect, px: int, py: int)
  {
    r.x <= px < r.x + r.width && r.y <= py < r.y + r.height
  }

  predicate NonEmpty(r: Rect)
  {
    r.width > 0 && r.height > 0
  }

  /** The rectangle a bin of the given size occupies. */
  function Bin(width: int, height: int): Rect
  {
    Rect(0, 0, width, height)
  }

  lemma ContainedReflexive(a: Rect)
    ensures IsContainedIn(a, a)
  {
  }

  lemma ContainedTransitive(a: Rect, b: Rect, c: Rect)
    requires IsContainedIn(a, b) && IsContainedIn(b, c)
    ensures IsContainedIn(a, c)
  {
  }

  /** Mutual containment pins down the rectangle when the sizes are not negative. */
  lemma ContainedAntisymmetric(a: Rect, b: Rect)
    requires a.width >= 0 && a.height >= 0 && b.width >= 0 && b.height >= 0
    requires IsContainedIn(a, b) && IsContainedIn(b, a)
    ensures a.x == b.x && a.y == b.y && a.width == b.width && a.height == b.height
  {
  }

  /**
   * Containment agrees with the cell reading of rectangles: a contained
   * rectangle's cells are cells of the container, and for a non-empty
   * rectangle the converse holds too.
   */
  lemma ContainedIffCells(a: Rect, b: Rect)
    requires NonEmpty(a)
    ensures IsContainedIn(a, b) <==>
              (forall px, py :: HasCell(a, px, py) ==> HasCell(b, px, py))
  {
    if forall px, py :: HasCell(a, px, py) ==> HasCell(b, px, py) {
      assert HasCell(a, a.x, a.y);
      assert HasCell(a, a.x + a.width - 1, a.y + a.height - 1);
    }
  }

  /** Overlap in the separating-axis sense means a shared cell, for non-empty rectangles. */
  lemma IntersectsIffSharedCell(a: Rect, b: Rect)
    requires NonEmpty(a) && NonEmpty(b)
    ensures Intersects(a, b) <==> (exists px, py :: HasCell(a, px, py) && HasCell(b, px, py))
  {
    if Intersects(a, b) {
      var px := if a.x < b.x then b.x else a.x;
      var py := if a.y < b.y then b.y else a.y;
      assert HasCell(a, px, py) && HasCell(b, px, py);
    }
  }

  /** A shared cell always means an overlap, whatever the sizes. */
  lemma SharedCellIntersects(a: Rect, b: Rect, px: int, py: int)
    requires HasCell(a, px, py) && HasCell(b, px, py)
    ensures Intersects(a, b)
  {
  }

  /**
   * A rectangle inside a region that is disjoint from `u` is itself disjoint
   * from `u`: this is why a node placed in a free rectangle misses every
   * used one.
   */
  lemma ContainedDisjoint(a: Rect, f: Rect, u: Rect)
    requires IsContainedIn(a, f) && !Intersects(f, u)
    ensures !Intersects(a, u) && !Intersects(u, a)
  {
  }
}
