// The index and list parts of the vertex cache of a sprite collection:
// which lut a sprite's mesh starts from, the stable regrouping of a diced
// sprite's vertices by material, the two triangles of every quad, the back
// faces of a double-sided sprite and the reversed winding of a custom
// mesh. Positions and texture coordinates are floating point in the build
// and are generic payloads `P` and `U` here: only their order matters.

module VertexCache {
  import opened SpriteLuts

  datatype Option<T> = None | Some(value: T)

  // ---------------------------------------------------------------------
  // The lut of a sprite
  // ---------------------------------------------------------------------

  /** The search at the head of the vertex cache: the first lut of sprite `i`, if any. */
  method FirstLutOf(luts: seq<SpriteLut>, i: int) returns (found: Option<int>)
    ensures found.None? <==> forall j :: 0 <= j < |luts| ==> luts[j].source != i
    ensures found.Some? ==> 0 <= found.value < |luts| && luts[found.value].source == i
                            && forall k :: 0 <= k < found.value ==> luts[k].source != i
  {
    found := None;
    var j := 0;
    while j < |luts|
      invariant 0 <= j <= |luts|
      invariant forall k :: 0 <= k < j ==> luts[k].source != i
    {
      if luts[j].source == i {
        found := Some(j);
        return;
      }
      j := j + 1;
    }
  }

  // ---------------------------------------------------------------------
  // Regrouping by material
  // ---------------------------------------------------------------------

  /** The number of the first `n` vertices with material `m`. */
  function Count(mi: seq<int>, m: int, n: int): nat
    requires 0 <= n <= |mi|
    decreases n
  {
    if n == 0 then 0 else Count(mi, m, n - 1) + (if mi[n - 1] == m then 1 else 0)
  }

  /** The entries of `xs` among the first `n` whose vertex has material `m`, in their order. */
  function Select<T>(xs: seq<T>, mi: seq<int>, m: int, n: int): (r: seq<T>)
    requires |xs| == |mi| && 0 <= n <= |xs|
    ensures |r| == Count(mi, m, n)
    decreases n
  {
    if n == 0 then []
    else Select(xs, mi, m, n - 1) + (if mi[n - 1] == m then [xs[n - 1]] else [])
  }

  /**
   * The entries of `xs` among the first `n` grouped by material, one group
   * for each of the first `g` materials of `order`, in that order.
   */
  function Gather<T>(xs: seq<T>, mi: seq<int>, order: seq<int>, g: int, n: int): (r: seq<T>)
    requires |xs| == |mi| && 0 <= n <= |xs| && 0 <= g <= |order|
    decreases g
  {
    if g == 0 then [] else Gather(xs, mi, order, g - 1, n) + Select(xs, mi, order[g - 1], n)
  }

  /** All of `xs` grouped by the materials of `order`. */
  function Regrouped<T>(xs: seq<T>, mi: seq<int>, order: seq<int>): seq<T>
    requires |xs| == |mi|
  {
    Gather(xs, mi, order, |order|, |xs|)
  }

  /** The counting loop: how many vertices use material `m`. */
  method CountMaterial(mi: seq<int>, m: int) returns (n: int)
    ensures n == Count(mi, m, |mi|)
  {
    n := 0;
    for vi := 0 to |mi|
      invariant n == Count(mi, m, vi)
    {
      if mi[vi] == m {
        n := n + 1;
      }
    }
  }

  /** The copying loop: the vertices of material `m` are appended to the new lists, in order. */
  method AppendMaterial<P, U>(positions: seq<P>, uvs: seq<U>, mi: seq<int>, m: int,
                              newPositions: seq<P>, newUvs: seq<U>, newMi: seq<int>)
    returns (newPositions': seq<P>, newUvs': seq<U>, newMi': seq<int>)
    requires |positions| == |uvs| == |mi|
    ensures newPositions' == newPositions + Select(positions, mi, m, |mi|)
    ensures newUvs' == newUvs + Select(uvs, mi, m, |mi|)
    ensures newMi' == newMi + Select(mi, mi, m, |mi|)
  {
    newPositions', newUvs', newMi' := newPositions, newUvs, newMi;
    for vi := 0 to |mi|
      invariant newPositions' == newPositions + Select(positions, mi, m, vi)
      invariant newUvs' == newUvs + Select(uvs, mi, m, vi)
      invariant newMi' == newMi + Select(mi, mi, m, vi)
    {
      if mi[vi] == m {
        newPositions' := newPositions' + [positions[vi]];
        newUvs' := newUvs' + [uvs[vi]];
        newMi' := newMi' + [mi[vi]];
      }
    }
  }

  /**
   * The triples of the first `g` materials of `order`: each material, the
   * index at which its triangles start (six per four vertices gathered
   * before it) and its number of indices.
   */
  function StartTriples(mi: seq<int>, order: seq<int>, g: int): (r: seq<int>)
    requires 0 <= g <= |order|
    ensures |r| == 3 * g
    decreases g
  {
    if g == 0 then []
    else
      var m := order[g - 1];
      StartTriples(mi, order, g - 1) + [m, (|Gather(mi, mi, order, g - 1, |mi|)| / 4) * 6, (Count(mi, m, |mi|) / 4) * 6]
  }

  /**
   * The regrouping of a diced sprite that uses several materials, `order`
   * being the enumeration order of its set of materials: the three lists
   * are gathered material by material, and each material gets its triple.
   */
  method Regroup<P, U>(positions: seq<P>, uvs: seq<U>, mi: seq<int>, order: seq<int>)
    returns (newPositions: seq<P>, newUvs: seq<U>, newMi: seq<int>, starts: seq<int>)
    requires |positions| == |uvs| == |mi|
    ensures newPositions == Regrouped(positions, mi, order)
    ensures newUvs == Regrouped(uvs, mi, order)
    ensures newMi == Regrouped(mi, mi, order)
    ensures starts == StartTriples(mi, order, |order|)
  {
    newPositions, newUvs, newMi, starts := [], [], [], [];
    for g := 0 to |order|
      invariant newPositions == Gather(positions, mi, order, g, |mi|)
      invariant newUvs == Gather(uvs, mi, order, g, |mi|)
      invariant newMi == Gather(mi, mi, order, g, |mi|)
      invariant starts == StartTriples(mi, order, g)
    {
      newPositions, newUvs, newMi, starts := RegroupMaterial(positions, uvs, mi, order, g, newPositions, newUvs, newMi, starts);
    }
  }

  /** One material of the regrouping: its triple, then its vertices. */
  method RegroupMaterial<P, U>(positions: seq<P>, uvs: seq<U>, mi: seq<int>, order: seq<int>, g: int,
                               newPositions: seq<P>, newUvs: seq<U>, newMi: seq<int>, starts: seq<int>)
    returns (newPositions': seq<P>, newUvs': seq<U>, newMi': seq<int>, starts': seq<int>)
    requires |positions| == |uvs| == |mi| && 0 <= g < |order|
    requires newPositions == Gather(positions, mi, order, g, |mi|)
    requires newUvs == Gather(uvs, mi, order, g, |mi|)
    requires newMi == Gather(mi, mi, order, g, |mi|)
    requires starts == StartTriples(mi, order, g)
    ensures newPositions' == Gather(positions, mi, order, g + 1, |mi|)
    ensures newUvs' == Gather(uvs, mi, order, g + 1, |mi|)
    ensures newMi' == Gather(mi, mi, order, g + 1, |mi|)
    ensures starts' == StartTriples(mi, order, g + 1)
  {
    var m := order[g];
    var n := CountMaterial(mi, m);
    GatherLength(positions, mi, mi, order, g);
    starts' := starts + [m, (|newPositions| / 4) * 6, (n / 4) * 6];
    newPositions', newUvs', newMi' := AppendMaterial(positions, uvs, mi, m, newPositions, newUvs, newMi);
  }

  /**
   * Triple `h` names material `h` of `order`, starts its triangles after
   * six indices for every four vertices of the materials before it, and
   * gives it six indices for every four of its own vertices.
   */
  lemma {:induction false} StartTripleAt(mi: seq<int>, order: seq<int>, g: int, h: int)
    requires 0 <= h < g <= |order|
    ensures var r := StartTriples(mi, order, g);
            r[3 * h] == order[h]
            && r[3 * h + 1] == (|Gather(mi, mi, order, h, |mi|)| / 4) * 6
            && r[3 * h + 2] == (Count(mi, order[h], |mi|) / 4) * 6
    decreases g
  {
    if h < g - 1 {
      StartTripleAt(mi, order, g - 1, h);
    }
  }

  /** Gathering two lists of the same length gives lists of the same length. */
  lemma {:induction false} GatherLength<S, T>(xs: seq<S>, ys: seq<T>, mi: seq<int>, order: seq<int>, g: int)
    requires |xs| == |ys| == |mi| && 0 <= g <= |order|
    ensures |Gather(xs, mi, order, g, |mi|)| == |Gather(ys, mi, order, g, |mi|)|
    decreases g
  {
    if g > 0 {
      GatherLength(xs, ys, mi, order, g - 1);
    }
  }

  /** `[0, 1, ..., n - 1]`: the positions of a list of `n` vertices. */
  function Indices(n: nat): (r: seq<int>)
    ensures |r| == n && forall k :: 0 <= k < n ==> r[k] == k
  {
    seq(n, k => k)
  }

  /** Every entry of `ps` is a position of `xs`. */
  predicate Positions<T>(xs: seq<T>, ps: seq<int>)
  {
    forall k :: 0 <= k < |ps| ==> 0 <= ps[k] < |xs|
  }

  /** The entries of `xs` at positions `ps`. */
  function Pick<T>(xs: seq<T>, ps: seq<int>): (r: seq<T>)
    requires Positions(xs, ps)
    ensures |r| == |ps|
  {
    seq(|ps|, k requires 0 <= k < |ps| => xs[ps[k]])
  }

  /** Selecting from a list is picking it at the selected positions. */
  lemma {:induction false} SelectByPosition<T>(xs: seq<T>, mi: seq<int>, m: int, n: int)
    requires |xs| == |mi| && 0 <= n <= |xs|
    ensures var ps := Select(Indices(|xs|), mi, m, n);
            Positions(xs, ps) && Select(xs, mi, m, n) == Pick(xs, ps)
    decreases n
  {
    if n > 0 {
      SelectByPosition(xs, mi, m, n - 1);
      var ps := Select(Indices(|xs|), mi, m, n - 1);
      if mi[n - 1] == m {
        assert Pick(xs, ps + [n - 1]) == Pick(xs, ps) + [xs[n - 1]];
      }
    }
  }

  /**
   * Gathering the first `g` groups moves the three lists in lockstep: each
   * gathered list is its original picked at the same positions, those
   * gathered from the positions themselves.
   */
  predicate InLockstep<T(==)>(xs: seq<T>, mi: seq<int>, order: seq<int>, g: int)
    requires |xs| == |mi| && 0 <= g <= |order|
  {
    var ps := Gather(Indices(|xs|), mi, order, g, |xs|);
    Positions(xs, ps) && Gather(xs, mi, order, g, |xs|) == Pick(xs, ps)
  }

  /** Gathering one more group keeps the lists in lockstep. */
  lemma GatherByPositionStep<T>(xs: seq<T>, mi: seq<int>, order: seq<int>, g: int)
    requires |xs| == |mi| && 0 < g <= |order|
    requires InLockstep(xs, mi, order, g - 1)
    ensures InLockstep(xs, mi, order, g)
  {
    SelectByPosition(xs, mi, order[g - 1], |xs|);
    var a := Gather(Indices(|xs|), mi, order, g - 1, |xs|);
    var b := Select(Indices(|xs|), mi, order[g - 1], |xs|);
    assert Pick(xs, a + b) == Pick(xs, a) + Pick(xs, b);
  }

  /** Each step from `h` groups to `h + 1` keeps the lists in lockstep. */
  lemma GatherByPositionSteps<T>(xs: seq<T>, mi: seq<int>, order: seq<int>)
    requires |xs| == |mi|
    ensures forall h :: 0 <= h < |order| && InLockstep(xs, mi, order, h) ==> InLockstep(xs, mi, order, h + 1)
  {
    forall h | 0 <= h < |order| && InLockstep(xs, mi, order, h)
      ensures InLockstep(xs, mi, order, h + 1)
    {
      GatherByPositionStep(xs, mi, order, h + 1);
    }
  }

  /** Every group kept in lockstep, by induction on the number of groups. */
  lemma GatherByPosition<T>(xs: seq<T>, mi: seq<int>, order: seq<int>, g: int)
    requires |xs| == |mi| && 0 <= g <= |order|
    ensures InLockstep(xs, mi, order, g)
  {
    GatherByPositionSteps(xs, mi, order);
    assert InLockstep(xs, mi, order, 0);
    NatInduction(h => 0 <= h <= |order| && InLockstep(xs, mi, order, h), g);
  }

  /** `P` holds at every `g` from 0 on when it holds at 0 and passes from each number to the next. */
  lemma {:induction false} NatInduction(P: int -> bool, g: int)
    requires 0 <= g && P(0)
    requires forall h :: 0 <= h < g && P(h) ==> P(h + 1)
    ensures P(g)
    decreases g
  {
    if g > 0 {
      NatInduction(P, g - 1);
    }
  }

  /** The regrouped lists are the original lists picked at the regrouped positions. */
  lemma RegroupedInLockstep<T>(xs: seq<T>, mi: seq<int>, order: seq<int>)
    requires |xs| == |mi|
    ensures var ps := Regrouped(Indices(|xs|), mi, order);
            Positions(xs, ps) && Regrouped(xs, mi, order) == Pick(xs, ps)
  {
    GatherByPosition(xs, mi, order, |order|);
  }

  /** A material is listed at most once. */
  predicate Distinct(order: seq<int>)
  {
    forall a, b :: 0 <= a < b < |order| ==> order[a] != order[b]
  }

  /** How many of the first `g` materials of `order` are `m`. */
  function Occ(order: seq<int>, g: int, m: int): nat
    requires 0 <= g <= |order|
    decreases g
  {
    if g == 0 then 0 else Occ(order, g - 1, m) + (if order[g - 1] == m then 1 else 0)
  }

  /** In a list without repeats, a material occurs once if listed and not at all otherwise. */
  lemma {:induction false} OccOnce(order: seq<int>, g: int, m: int)
    requires 0 <= g <= |order| && Distinct(order)
    ensures Occ(order, g, m) == if m in order[..g] then 1 else 0
    decreases g
  {
    if g > 0 {
      OccOnce(order, g - 1, m);
      assert order[..g] == order[..g - 1] + [order[g - 1]];
      if m in order[..g - 1] {
        var i :| 0 <= i < g - 1 && order[..g - 1][i] == m;
        assert order[i] != order[g - 1];
      }
    }
  }

  /** In a list without repeats, a listed material occurs exactly once. */
  lemma OccListed(order: seq<int>, m: int)
    requires Distinct(order) && m in order
    ensures Occ(order, |order|, m) == 1
  {
    OccOnce(order, |order|, m);
    assert order[..|order|] == order;
  }

  /** One more copy of `x` is `x` added. */
  lemma AddOne<T>(a: multiset<T>, x: T)
    ensures AddN(a, x, 1) == a + multiset{x}
  {
  }

  /** `a` with `c` more copies of `x`. */
  function AddN<T>(a: multiset<T>, x: T, c: nat): multiset<T>
  {
    a[x := a[x] + c]
  }

  /** Taking in vertex `n` adds it to the selection of `m` when it has material `m`. */
  lemma SelectStep<T>(xs: seq<T>, mi: seq<int>, m: int, n: int)
    requires |xs| == |mi| && 0 <= n < |xs|
    ensures multiset(Select(xs, mi, m, n + 1)) == AddN(multiset(Select(xs, mi, m, n)), xs[n], if mi[n] == m then 1 else 0)
  {
    assert Select(xs, mi, m, n + 1) == Select(xs, mi, m, n) + (if mi[n] == m then [xs[n]] else []);
  }

  /** The gathered vertices are those of the first `g - 1` groups and those of group `g`. */
  lemma GatherSplit<T>(xs: seq<T>, mi: seq<int>, order: seq<int>, g: int, n: int)
    requires |xs| == |mi| && 0 <= n <= |xs| && 0 < g <= |order|
    ensures multiset(Gather(xs, mi, order, g, n))
            == multiset(Gather(xs, mi, order, g - 1, n)) + multiset(Select(xs, mi, order[g - 1], n))
  {
    assert Gather(xs, mi, order, g, n) == Gather(xs, mi, order, g - 1, n) + Select(xs, mi, order[g - 1], n);
  }

  /** Adding `c` copies of `x` to one part and `d` to the other adds `c + d` to the whole. */
  lemma AddCopies<T>(a: multiset<T>, s: multiset<T>, x: T, c: nat, d: nat)
    ensures AddN(a, x, c) + AddN(s, x, d) == AddN(a + s, x, c + d)
  {
  }

  /** Taking in vertex `n` adds to the first `g` groups one copy of it for every time its material is listed. */
  predicate TakesIn<T(==)>(xs: seq<T>, mi: seq<int>, order: seq<int>, g: int, n: int)
    requires |xs| == |mi| && 0 <= n < |xs| && 0 <= g <= |order|
  {
    multiset(Gather(xs, mi, order, g, n + 1)) == AddN(multiset(Gather(xs, mi, order, g, n)), xs[n], Occ(order, g, mi[n]))
  }

  /** The step from `g - 1` groups to `g`. */
  lemma GatherStepUp<T>(xs: seq<T>, mi: seq<int>, order: seq<int>, g: int, n: int)
    requires |xs| == |mi| && 0 <= n < |xs| && 0 < g <= |order|
    requires TakesIn(xs, mi, order, g - 1, n)
    ensures TakesIn(xs, mi, order, g, n)
  {
    SelectStep(xs, mi, order[g - 1], n);
    GatherSplit(xs, mi, order, g, n + 1);
    GatherSplit(xs, mi, order, g, n);
    AddCopies(multiset(Gather(xs, mi, order, g - 1, n)), multiset(Select(xs, mi, order[g - 1], n)),
              xs[n], Occ(order, g - 1, mi[n]), if mi[n] == order[g - 1] then 1 else 0);
  }

  /** With no group yet, taking in a vertex adds nothing. */
  lemma GatherStepBase<T>(xs: seq<T>, mi: seq<int>, order: seq<int>, n: int)
    requires |xs| == |mi| && 0 <= n < |xs|
    ensures TakesIn(xs, mi, order, 0, n)
  {
    assert Gather(xs, mi, order, 0, n + 1) == [] && Gather(xs, mi, order, 0, n) == [];
    AddNone(multiset{}, xs[n]);
  }

  /** Each step from `h` groups to `h + 1` keeps taking in vertex `n`. */
  lemma GatherStepsUp<T>(xs: seq<T>, mi: seq<int>, order: seq<int>, n: int)
    requires |xs| == |mi| && 0 <= n < |xs|
    ensures forall h :: 0 <= h < |order| && TakesIn(xs, mi, order, h, n) ==> TakesIn(xs, mi, order, h + 1, n)
  {
    forall h | 0 <= h < |order| && TakesIn(xs, mi, order, h, n)
      ensures TakesIn(xs, mi, order, h + 1, n)
    {
      GatherStepUp(xs, mi, order, h + 1, n);
    }
  }

  /** Taking in vertex `n`, for any number of groups, by induction on the groups. */
  lemma GatherStep<T>(xs: seq<T>, mi: seq<int>, order: seq<int>, g: int, n: int)
    requires |xs| == |mi| && 0 <= n < |xs| && 0 <= g <= |order|
    ensures TakesIn(xs, mi, order, g, n)
  {
    GatherStepBase(xs, mi, order, n);
    GatherStepsUp(xs, mi, order, n);
    NatInduction(h => 0 <= h <= |order| && TakesIn(xs, mi, order, h, n), g);
  }

  /** No copies added is nothing added. */
  lemma AddNone<T>(a: multiset<T>, x: T)
    ensures AddN(a, x, 0) == a
  {
  }

  /** Regrouping the first `n` vertices neither loses nor repeats one. */
  predicate PermutesPrefix<T(==)>(xs: seq<T>, mi: seq<int>, order: seq<int>, n: int)
    requires |xs| == |mi| && 0 <= n <= |xs|
  {
    multiset(Gather(xs, mi, order, |order|, n)) == multiset(xs[..n])
  }

  /** When every material is listed once, taking in one more vertex keeps the regrouping a permutation. */
  lemma GatherPermutesStep<T>(xs: seq<T>, mi: seq<int>, order: seq<int>, n: int)
    requires |xs| == |mi| && 0 <= n < |xs| && Distinct(order)
    requires forall k :: 0 <= k < |mi| ==> mi[k] in order
    requires PermutesPrefix(xs, mi, order, n)
    ensures PermutesPrefix(xs, mi, order, n + 1)
  {
    GatherStep(xs, mi, order, |order|, n);
    assert mi[n] in order;
    OccListed(order, mi[n]);
    AddOne(multiset(Gather(xs, mi, order, |order|, n)), xs[n]);
    assert xs[..n + 1] == xs[..n] + [xs[n]];
  }

  /** Each step from `h` vertices to `h + 1` keeps the regrouping a permutation. */
  lemma GatherPermutesSteps<T>(xs: seq<T>, mi: seq<int>, order: seq<int>)
    requires |xs| == |mi| && Distinct(order)
    requires forall k :: 0 <= k < |mi| ==> mi[k] in order
    ensures forall h :: 0 <= h < |xs| && PermutesPrefix(xs, mi, order, h) ==> PermutesPrefix(xs, mi, order, h + 1)
  {
    forall h | 0 <= h < |xs| && PermutesPrefix(xs, mi, order, h)
      ensures PermutesPrefix(xs, mi, order, h + 1)
    {
      GatherPermutesStep(xs, mi, order, h);
    }
  }

  /** When every material is listed once, regrouping any prefix is a permutation, by induction on its length. */
  lemma GatherPermutes<T>(xs: seq<T>, mi: seq<int>, order: seq<int>, n: int)
    requires |xs| == |mi| && 0 <= n <= |xs| && Distinct(order)
    requires forall k :: 0 <= k < |mi| ==> mi[k] in order
    ensures PermutesPrefix(xs, mi, order, n)
  {
    GatherEmpty(xs, mi, order, |order|);
    GatherPermutesSteps(xs, mi, order);
    NatInduction(h => 0 <= h <= |xs| && PermutesPrefix(xs, mi, order, h), n);
  }

  /** When every material is listed once, the regrouped lists are permutations of the originals. */
  lemma RegroupedPermutes<T>(xs: seq<T>, mi: seq<int>, order: seq<int>)
    requires |xs| == |mi| && Distinct(order)
    requires forall k :: 0 <= k < |mi| ==> mi[k] in order
    ensures multiset(Regrouped(xs, mi, order)) == multiset(xs)
  {
    GatherPermutes(xs, mi, order, |xs|);
    assert xs[..|xs|] == xs;
  }

  /** Nothing to gather from no vertices. */
  lemma {:induction false} GatherEmpty<T>(xs: seq<T>, mi: seq<int>, order: seq<int>, g: int)
    requires |xs| == |mi| && 0 <= g <= |order|
    ensures Gather(xs, mi, order, g, 0) == []
    decreases g
  {
    if g > 0 {
      GatherEmpty(xs, mi, order, g - 1);
    }
  }

  /** Every selected material entry is the selected material. */
  lemma {:induction false} SelectMaterial(mi: seq<int>, m: int, n: int)
    requires 0 <= n <= |mi|
    ensures forall k :: 0 <= k < |Select(mi, mi, m, n)| ==> Select(mi, mi, m, n)[k] == m
    decreases n
  {
    if n > 0 {
      SelectMaterial(mi, m, n - 1);
    }
  }

  // ---------------------------------------------------------------------
  // Quads
  // ---------------------------------------------------------------------

  /** The corners of a quad's two triangles: (0, 3, 1) and (2, 3, 0). */
  const QuadCorners: seq<int> := [0, 3, 1, 2, 3, 0]

  /** Entry `k` of a sprite's index list: corner `k % 6` of quad `k / 6`. */
  function QuadIndex(k: int): int
    requires k >= 0
  {
    (k / 6) * 4 + QuadCorners[k % 6]
  }

  /** The index loop of a sprite without custom geometry: six indices per four vertices. */
  method QuadIndices(numPositions: int) returns (indices: array<int>)
    requires numPositions >= 0
    ensures fresh(indices) && indices.Length == 6 * (numPositions / 4)
    ensures forall k :: 0 <= k < indices.Length ==> indices[k] == QuadIndex(k)
  {
    var quads := numPositions / 4;
    indices := new int[6 * quads];
    for j := 0 to quads
      invariant forall k :: 0 <= k < 6 * j ==> indices[k] == QuadIndex(k)
    {
      WriteQuad(indices, j);
    }
  }

  /** The six indices of quad `j`. */
  method WriteQuad(indices: array<int>, j: nat)
    requires 6 * j + 6 <= indices.Length
    modifies indices
    ensures forall k :: 0 <= k < 6 * j ==> indices[k] == old(indices[k])
    ensures forall k :: 6 * j <= k < 6 * j + 6 ==> indices[k] == QuadIndex(k)
  {
    indices[j * 6 + 0] := j * 4 + 0;
    indices[j * 6 + 1] := j * 4 + 3;
    indices[j * 6 + 2] := j * 4 + 1;
    indices[j * 6 + 3] := j * 4 + 2;
    indices[j * 6 + 4] := j * 4 + 3;
    indices[j * 6 + 5] := j * 4 + 0;
    forall k | 6 * j <= k < 6 * j + 6
      ensures indices[k] == QuadIndex(k)
    {
      QuadOf(j, k - 6 * j);
    }
  }

  /** Quad `j` is the six indices `4j, 4j+3, 4j+1, 4j+2, 4j+3, 4j`. */
  lemma QuadOf(j: nat, c: int)
    requires 0 <= c < 6
    ensures QuadIndex(6 * j + c) == 4 * j + QuadCorners[c]
  {
    assert (6 * j + c) / 6 == j && (6 * j + c) % 6 == c;
  }

  /** Every index of a sprite with `numPositions` vertices names one of its vertices. */
  lemma QuadIndexInRange(numPositions: nat, k: int)
    requires 0 <= k < 6 * (numPositions / 4)
    ensures 0 <= QuadIndex(k) < 4 * (numPositions / 4) <= numPositions
  {
    var q := numPositions / 4;
    assert k / 6 < q;
  }

  /** Where corner `c` of a quad first appears among its six indices. */
  function CornerSlot(c: int): int
  {
    if c == 0 then 0 else if c == 3 then 1 else if c == 1 then 2 else 3
  }

  /** Each of a quad's four vertices is used by its triangles. */
  lemma QuadCornerUsed(v: nat)
    ensures 0 <= CornerSlot(v % 4) < 6 && QuadIndex(6 * (v / 4) + CornerSlot(v % 4)) == v
  {
    QuadOf(v / 4, CornerSlot(v % 4));
  }

  /**
   * The back of a double-sided sprite: vertices 3, 1, 2 and 0 appended,
   * with their texture coordinates and the sprite's material.
   */
  method DoubleSide<P, U>(positions: seq<P>, uvs: seq<U>, mi: seq<int>, atlasIndex: int)
    returns (positions': seq<P>, uvs': seq<U>, mi': seq<int>)
    requires |positions| >= 4 && |uvs| >= 4
    ensures positions' == positions + [positions[3], positions[1], positions[2], positions[0]]
    ensures uvs' == uvs + [uvs[3], uvs[1], uvs[2], uvs[0]]
    ensures mi' == mi + [atlasIndex, atlasIndex, atlasIndex, atlasIndex]
  {
    positions', uvs' := positions + [positions[3]], uvs + [uvs[3]];
    positions', uvs' := positions' + [positions[1]], uvs' + [uvs[1]];
    positions', uvs' := positions' + [positions[2]], uvs' + [uvs[2]];
    positions', uvs' := positions' + [positions[0]], uvs' + [uvs[0]];
    mi' := mi + [atlasIndex, atlasIndex, atlasIndex, atlasIndex];
  }

  /** Triangle `t` of a vertex list under the quad pattern, as its three vertices. */
  function Triangle<P>(vs: seq<P>, t: nat): (P, P, P)
    requires 3 * t + 2 < 6 * (|vs| / 4)
  {
    QuadIndexInRange(|vs|, 3 * t);
    QuadIndexInRange(|vs|, 3 * t + 1);
    QuadIndexInRange(|vs|, 3 * t + 2);
    (vs[QuadIndex(3 * t)], vs[QuadIndex(3 * t + 1)], vs[QuadIndex(3 * t + 2)])
  }

  /** The same triangle walked the other way round. */
  function Flip<P>(t: (P, P, P)): (P, P, P)
  {
    (t.2, t.1, t.0)
  }

  /** Two triangles that differ only by where the walk starts. */
  predicate SameCycle<P(==)>(a: (P, P, P), b: (P, P, P))
  {
    a == b || a == (b.1, b.2, b.0) || a == (b.2, b.0, b.1)
  }

  /** The back quad's two triangles are the front quad's, wound the other way. */
  lemma BackFacesReversed<P>(front: seq<P>)
    requires |front| == 4
    ensures var vs := front + [front[3], front[1], front[2], front[0]];
            SameCycle(Triangle(vs, 2), Flip(Triangle(vs, 0))) && SameCycle(Triangle(vs, 3), Flip(Triangle(vs, 1)))
  {
    var vs := front + [front[3], front[1], front[2], front[0]];
    assert Triangle(vs, 0) == (front[0], front[3], front[1]);
    assert Triangle(vs, 1) == (front[2], front[3], front[0]);
    assert Triangle(vs, 2) == (front[3], front[0], front[1]);
    assert Triangle(vs, 3) == (front[2], front[0], front[3]);
  }

  // ---------------------------------------------------------------------
  // Custom geometry
  // ---------------------------------------------------------------------

  /** Every triangle of `local` walked the other way round, offset by `baseIndex`. */
  function ReversedTriangles(local: seq<int>, baseIndex: int): (r: seq<int>)
    requires |local| % 3 == 0
    ensures |r| == |local|
  {
    seq(|local|, k requires 0 <= k < |local| => baseIndex + local[3 * (k / 3) + 2 - k % 3])
  }

  /** The triangle loop of one island: its reversed triangles are appended to the sprite's index list. */
  method AppendIsland(indices: seq<int>, localIndices: seq<int>, baseIndex: int) returns (indices': seq<int>)
    requires |localIndices| % 3 == 0
    ensures indices' == indices + ReversedTriangles(localIndices, baseIndex)
  {
    indices' := indices;
    var x := 0;
    while x < |localIndices|
      invariant 0 <= x <= |localIndices| && x % 3 == 0
      invariant indices' == indices + ReversedTriangles(localIndices, baseIndex)[..x]
      decreases |localIndices| - x
    {
      indices' := indices' + [baseIndex + localIndices[x + 2], baseIndex + localIndices[x + 1], baseIndex + localIndices[x + 0]];
      assert ReversedTriangles(localIndices, baseIndex)[..x + 3]
             == ReversedTriangles(localIndices, baseIndex)[..x]
                + [baseIndex + localIndices[x + 2], baseIndex + localIndices[x + 1], baseIndex + localIndices[x + 0]];
      x := x + 3;
    }
    assert ReversedTriangles(localIndices, baseIndex)[..x] == ReversedTriangles(localIndices, baseIndex);
  }

  /** Reversing the winding twice gives back the triangles, each index offset twice. */
  lemma ReverseTwice(local: seq<int>, b1: int, b2: int)
    requires |local| % 3 == 0
    ensures forall k :: 0 <= k < |local| ==>
              ReversedTriangles(ReversedTriangles(local, b1), b2)[k] == local[k] + b1 + b2
  {
    forall k | 0 <= k < |local|
      ensures ReversedTriangles(ReversedTriangles(local, b1), b2)[k] == local[k] + b1 + b2
    {
      var k' := 3 * (k / 3) + 2 - k % 3;
      assert k' / 3 == k / 3 && k' % 3 == 2 - k % 3;
    }
  }
}
