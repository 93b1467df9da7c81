// The sprite-lut list of the sprite-collection build and the invariant
// its atlas indices keep: the non-duplicates are numbered 0, 1, ... in
// list order, and every duplicate carries the number of an earlier
// non-duplicate it stands for.

module SpriteLuts {
  import opened Pixels
  import opened SpriteProcess

  /**
   * `SpriteLut`: the source it comes from, the source texture, the texture
   * to atlas, whether it is a dice tile, the rectangle of the source it
   * covers, whether it is a duplicate, its slot among the textures to
   * atlas and the hash of its texture (empty until hashed).
   */
  datatype SpriteLut = SpriteLut(source: int, sourceTex: Texture?, tex: Texture?, isSplit: bool, rect: LutRect,
                                 isDuplicate: bool, atlasIndex: int, hash: seq<byte>)

  /** The number of non-duplicates among the first `p` luts. */
  function NonDupsBefore(luts: seq<SpriteLut>, p: int): (n: int)
    requires 0 <= p <= |luts|
    ensures 0 <= n <= p
    decreases p
  {
    if p == 0 then 0 else NonDupsBefore(luts, p - 1) + (if luts[p - 1].isDuplicate then 0 else 1)
  }

  /** The non-duplicates carry 0, 1, ... in list order, and there are `num` of them. */
  ghost predicate Dense(luts: seq<SpriteLut>, num: int)
  {
    NonDupsBefore(luts, |luts|) == num
    && forall p :: 0 <= p < |luts| && !luts[p].isDuplicate ==> luts[p].atlasIndex == NonDupsBefore(luts, p)
  }

  /** Two luts stand for the same image: the same texture, or once hashed the same hash. */
  predicate Matches(a: SpriteLut, b: SpriteLut, byHash: bool)
  {
    if byHash then a.hash == b.hash else a.tex == b.tex
  }

  /** Every duplicate carries the slot of an earlier non-duplicate that stands for the same image. */
  ghost predicate Linked(luts: seq<SpriteLut>, byHash: bool)
  {
    forall p :: 0 <= p < |luts| && luts[p].isDuplicate ==>
      exists q :: 0 <= q < p && !luts[q].isDuplicate && luts[q].atlasIndex == luts[p].atlasIndex && Matches(luts[q], luts[p], byHash)
  }

  /** The invariant of the lut list. */
  ghost predicate Resolved(luts: seq<SpriteLut>, num: int, byHash: bool)
  {
    Dense(luts, num) && Linked(luts, byHash)
  }

  /** A non-duplicate counts: later positions see more non-duplicates before them. */
  lemma {:induction false} NonDupsGrow(luts: seq<SpriteLut>, p: int, q: int)
    requires 0 <= p <= q <= |luts|
    ensures NonDupsBefore(luts, p) <= NonDupsBefore(luts, q)
    ensures p < q && !luts[p].isDuplicate ==> NonDupsBefore(luts, p) < NonDupsBefore(luts, q)
    decreases q - p
  {
    if p < q {
      NonDupsGrow(luts, p, q - 1);
      if p < q - 1 && !luts[p].isDuplicate {
        NonDupsGrow(luts, p + 1, q - 1);
      }
    }
  }

  /** Appending leaves the counts of the old positions as they were. */
  lemma {:induction false} NonDupsAppend(luts: seq<SpriteLut>, l: SpriteLut, p: int)
    requires 0 <= p <= |luts|
    ensures NonDupsBefore(luts + [l], p) == NonDupsBefore(luts, p)
    decreases p
  {
    if p > 0 {
      NonDupsAppend(luts, l, p - 1);
      assert (luts + [l])[p - 1] == luts[p - 1];
    }
  }

  /** Under the invariant every lut's slot is one of the `num` textures to atlas. */
  lemma ResolvedInRange(luts: seq<SpriteLut>, num: int, byHash: bool, p: int)
    requires Resolved(luts, num, byHash) && 0 <= p < |luts|
    ensures 0 <= luts[p].atlasIndex < num
  {
    var r := p;
    if luts[p].isDuplicate {
      r :| 0 <= r < p && !luts[r].isDuplicate && luts[r].atlasIndex == luts[p].atlasIndex;
    }
    NonDupsGrow(luts, r, |luts|);
  }

  /** Appending keeps the numbering: a non-duplicate appended with the next slot makes one more. */
  lemma AppendDense(luts: seq<SpriteLut>, num: int, l: SpriteLut)
    requires Dense(luts, num) && (!l.isDuplicate ==> l.atlasIndex == num)
    ensures Dense(luts + [l], if l.isDuplicate then num else num + 1)
  {
    var luts' := luts + [l];
    forall p | 0 <= p < |luts'| && !luts'[p].isDuplicate
      ensures luts'[p].atlasIndex == NonDupsBefore(luts', p)
    {
      NonDupsAppend(luts, l, p);
    }
    NonDupsAppend(luts, l, |luts|);
  }

  /** Appending a lut that is either no duplicate or carries the slot of a matching earlier non-duplicate keeps the links. */
  lemma AppendLinked(luts: seq<SpriteLut>, byHash: bool, l: SpriteLut, q: int)
    requires Linked(luts, byHash)
    requires l.isDuplicate ==> 0 <= q < |luts| && !luts[q].isDuplicate && luts[q].atlasIndex == l.atlasIndex && Matches(luts[q], l, byHash)
    ensures Linked(luts + [l], byHash)
  {
    var luts' := luts + [l];
    forall p | 0 <= p < |luts'| && luts'[p].isDuplicate
      ensures exists q' :: 0 <= q' < p && !luts'[q'].isDuplicate && luts'[q'].atlasIndex == luts'[p].atlasIndex && Matches(luts'[q'], luts'[p], byHash)
    {
      if p == |luts| {
        assert luts'[q] == luts[q];
      } else {
        assert luts'[p] == luts[p];
        var q' :| 0 <= q' < p && !luts[q'].isDuplicate && luts[q'].atlasIndex == luts[p].atlasIndex && Matches(luts[q'], luts[p], byHash);
        assert luts'[q'] == luts[q'];
      }
    }
  }

  /** Appending a run of non-duplicates with the next slots keeps the invariant, one more texture each. */
  lemma {:induction false} AppendFresh(luts: seq<SpriteLut>, num: int, byHash: bool, added: seq<SpriteLut>)
    requires Resolved(luts, num, byHash)
    requires forall k :: 0 <= k < |added| ==> !added[k].isDuplicate && added[k].atlasIndex == num + k
    ensures Resolved(luts + added, num + |added|, byHash)
    decreases |added|
  {
    if |added| > 0 {
      var n := |added| - 1;
      AppendFresh(luts, num, byHash, added[..n]);
      AppendDense(luts + added[..n], num + n, added[n]);
      AppendLinked(luts + added[..n], byHash, added[n], 0);
      assert luts + added == (luts + added[..n]) + [added[n]];
    } else {
      assert luts + added == luts;
    }
  }
}
