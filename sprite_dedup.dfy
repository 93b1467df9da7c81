// The duplicate removal of the sprite-collection build: every lut is
// hashed, a later non-duplicate whose hash equals an earlier lut's becomes
// a duplicate of it, the slots above the freed one close the gap, and the
// list of textures to atlas is read off the non-duplicates.

module SpriteDedup {
  import opened Pixels
  import opened SpriteLuts
  import opened SpriteHash
  import opened SpriteProcess

  // ---------------------------------------------------------------------
  // Hashing
  // ---------------------------------------------------------------------

  /** Every lut's texture, where it has one, is a well-formed texture. */
  ghost predicate TexturesValid(luts: seq<SpriteLut>)
  {
    forall p :: 0 <= p < |luts| && luts[p].tex != null ==> luts[p].tex.Valid()
  }

  /** The hashing loop: each lut gets the digest of its buffer, and nothing else changes. */
  method HashAll(luts: seq<SpriteLut>, md5: seq<byte> -> seq<byte>) returns (luts': seq<SpriteLut>)
    requires TexturesValid(luts)
    ensures |luts'| == |luts|
    ensures forall p :: 0 <= p < |luts| ==> luts'[p] == luts[p].(hash := md5(HashBuffer(luts[p].tex)))
  {
    luts' := luts;
    for p := 0 to |luts|
      invariant |luts'| == |luts|
      invariant forall q :: 0 <= q < p ==> luts'[q] == luts[q].(hash := md5(HashBuffer(luts[q].tex)))
      invariant forall q :: p <= q < |luts| ==> luts'[q] == luts[q]
    {
      var lut := SetSpriteLutHash(luts'[p], md5);
      luts' := luts'[p := lut];
    }
  }

  /** Luts with the same duplicate flags count the same non-duplicates. */
  lemma {:induction false} NonDupsSameFlags(luts: seq<SpriteLut>, luts': seq<SpriteLut>, p: int)
    requires |luts| == |luts'| && 0 <= p <= |luts|
    requires forall q :: 0 <= q < |luts| ==> luts'[q].isDuplicate == luts[q].isDuplicate
    ensures NonDupsBefore(luts', p) == NonDupsBefore(luts, p)
    decreases p
  {
    if p > 0 {
      NonDupsSameFlags(luts, luts', p - 1);
    }
  }

  /**
   * Hashing keeps the slot invariant, with links by texture turned into
   * links by hash: luts with the same texture get the same hash.
   */
  lemma HashKeepsLinks(luts: seq<SpriteLut>, hashed: seq<SpriteLut>, num: int)
    requires Resolved(luts, num, false)
    requires |hashed| == |luts|
    requires forall p :: 0 <= p < |luts| ==> hashed[p] == luts[p].(hash := hashed[p].hash)
    requires forall p, q :: 0 <= p < |luts| && 0 <= q < |luts| && luts[p].tex == luts[q].tex ==> hashed[p].hash == hashed[q].hash
    ensures Resolved(hashed, num, true)
  {
    NonDupsSameFlags(luts, hashed, |luts|);
    forall p | 0 <= p < |hashed| && !hashed[p].isDuplicate
      ensures hashed[p].atlasIndex == NonDupsBefore(hashed, p)
    {
      NonDupsSameFlags(luts, hashed, p);
    }
    forall p | 0 <= p < |hashed| && hashed[p].isDuplicate
      ensures exists q :: 0 <= q < p && !hashed[q].isDuplicate && hashed[q].atlasIndex == hashed[p].atlasIndex
                          && Matches(hashed[q], hashed[p], true)
    {
      var q :| 0 <= q < p && !luts[q].isDuplicate && luts[q].atlasIndex == luts[p].atlasIndex && Matches(luts[q], luts[p], false);
      assert hashed[q].hash == hashed[p].hash;
    }
  }

  // ---------------------------------------------------------------------
  // Merging one duplicate
  // ---------------------------------------------------------------------

  /** A lut's slot once slot `kj` is freed and its luts move to slot `ki`: the slots above `kj` move down one. */
  function Retarget(l: SpriteLut, ki: int, kj: int): SpriteLut
  {
    if l.atlasIndex == kj then l.(atlasIndex := ki)
    else if l.atlasIndex > kj then l.(atlasIndex := l.atlasIndex - 1)
    else l
  }

  /** Lut `j` becomes a duplicate of lut `i`, and every lut that shared `j`'s slot follows it. */
  function Merged(luts: seq<SpriteLut>, i: int, j: int): (r: seq<SpriteLut>)
    requires 0 <= i < j < |luts|
    ensures |r| == |luts|
  {
    var ki, kj := luts[i].atlasIndex, luts[j].atlasIndex;
    seq(|luts|, p requires 0 <= p < |luts| =>
      if p == j then Retarget(luts[p], ki, kj).(isDuplicate := true) else Retarget(luts[p], ki, kj))
  }

  /**
   * The merge as the build writes it: the slots above `j`'s move down one,
   * then `j` alone takes `i`'s slot; luts that shared `j`'s slot keep it.
   */
  function MergedAsWritten(luts: seq<SpriteLut>, i: int, j: int): (r: seq<SpriteLut>)
    requires 0 <= i < j < |luts|
    ensures |r| == |luts|
  {
    var kj := luts[j].atlasIndex;
    var d := seq(|luts|, p requires 0 <= p < |luts| =>
      if luts[p].atlasIndex > kj then luts[p].(atlasIndex := luts[p].atlasIndex - 1) else luts[p]);
    d[j := d[j].(isDuplicate := true, atlasIndex := d[i].atlasIndex)]
  }

  /** The merge, one lut at a time as the build's slot loop goes. */
  method MergeDuplicate(luts: seq<SpriteLut>, i: int, j: int) returns (luts': seq<SpriteLut>)
    requires 0 <= i < j < |luts|
    ensures luts' == Merged(luts, i, j)
  {
    var ki, kj := luts[i].atlasIndex, luts[j].atlasIndex;
    luts' := luts[j := luts[j].(isDuplicate := true)];
    for p := 0 to |luts'|
      invariant |luts'| == |luts|
      invariant forall q :: 0 <= q < p ==> luts'[q] == Merged(luts, i, j)[q]
      invariant forall q :: p <= q < |luts| ==> luts'[q] == if q == j then luts[j].(isDuplicate := true) else luts[q]
    {
      luts' := luts'[p := Retarget(luts'[p], ki, kj)];
    }
  }

  /** An earlier lut's slot is below the slot of a later non-duplicate. */
  lemma EarlierSlotBelow(luts: seq<SpriteLut>, num: int, byHash: bool, i: int, j: int)
    requires Resolved(luts, num, byHash) && 0 <= i < j < |luts| && !luts[j].isDuplicate
    ensures luts[i].atlasIndex < luts[j].atlasIndex
  {
    var q := i;
    if luts[i].isDuplicate {
      q :| 0 <= q < i && !luts[q].isDuplicate && luts[q].atlasIndex == luts[i].atlasIndex && Matches(luts[q], luts[i], byHash);
    }
    NonDupsGrow(luts, q, j);
  }

  /** After the merge the positions past `j` see one non-duplicate fewer. */
  lemma {:induction false} NonDupsMerged(luts: seq<SpriteLut>, i: int, j: int, p: int)
    requires 0 <= i < j < |luts| && !luts[j].isDuplicate && 0 <= p <= |luts|
    ensures NonDupsBefore(Merged(luts, i, j), p) == NonDupsBefore(luts, p) - (if p > j then 1 else 0)
    decreases p
  {
    if p > 0 {
      NonDupsMerged(luts, i, j, p - 1);
    }
  }

  /** Non-duplicates have pairwise different slots. */
  lemma SlotsDistinct(luts: seq<SpriteLut>, num: int, byHash: bool, p: int, q: int)
    requires Resolved(luts, num, byHash) && 0 <= p < q < |luts| && !luts[p].isDuplicate && !luts[q].isDuplicate
    ensures luts[p].atlasIndex < luts[q].atlasIndex
  {
    NonDupsGrow(luts, p, q);
  }

  /** Merging keeps the numbering of the non-duplicates, one fewer. */
  lemma MergeDense(luts: seq<SpriteLut>, num: int, i: int, j: int)
    requires Resolved(luts, num, true) && 0 <= i < j < |luts| && !luts[j].isDuplicate
    ensures Dense(Merged(luts, i, j), num - 1)
  {
    var m := Merged(luts, i, j);
    NonDupsMerged(luts, i, j, |luts|);
    forall p | 0 <= p < |m| && !m[p].isDuplicate
      ensures m[p].atlasIndex == NonDupsBefore(m, p)
    {
      NonDupsMerged(luts, i, j, p);
      if p < j {
        SlotsDistinct(luts, num, true, p, j);
      } else {
        SlotsDistinct(luts, num, true, j, p);
      }
    }
  }

  /** Merging keeps every duplicate linked to an earlier non-duplicate with its hash and slot. */
  lemma MergeLinked(luts: seq<SpriteLut>, num: int, i: int, j: int)
    requires Resolved(luts, num, true) && 0 <= i < j < |luts|
    requires !luts[j].isDuplicate && luts[i].hash == luts[j].hash
    ensures Linked(Merged(luts, i, j), true)
  {
    var m := Merged(luts, i, j);
    var ki := luts[i].atlasIndex;
    EarlierSlotBelow(luts, num, true, i, j);
    // The non-duplicate holding `i`'s slot, which `j` now shares.
    var r := i;
    if luts[i].isDuplicate {
      r :| 0 <= r < i && !luts[r].isDuplicate && luts[r].atlasIndex == ki && Matches(luts[r], luts[i], true);
    }
    assert m[r] == luts[r];
    forall p | 0 <= p < |m| && m[p].isDuplicate
      ensures exists q :: 0 <= q < p && !m[q].isDuplicate && m[q].atlasIndex == m[p].atlasIndex && Matches(m[q], m[p], true)
    {
      if p == j {
        assert r < p;
      } else {
        var q :| 0 <= q < p && !luts[q].isDuplicate && luts[q].atlasIndex == luts[p].atlasIndex && Matches(luts[q], luts[p], true);
        if q == j {
          assert r < p && m[p].atlasIndex == ki;
        } else {
          if q < j {
            SlotsDistinct(luts, num, true, q, j);
          } else {
            SlotsDistinct(luts, num, true, j, q);
          }
          assert m[q].atlasIndex == m[p].atlasIndex;
        }
      }
    }
  }

  /**
   * The merge as written leaves a lut pointing past the last texture: `C`
   * shares `B`'s slot 1 through its source, `B` merges into `A`, and `C`
   * keeps slot 1 while only slot 0 remains. The corrected merge sends `C`
   * to slot 0.
   */
  lemma AsWrittenMergeDangles()
    ensures var a := SpriteLut(0, null, null, false, LutRect(0, 0, 1, 1), false, 0, [7]);
            var b := SpriteLut(1, null, null, false, LutRect(0, 0, 1, 1), false, 1, [7]);
            var c := b.(isDuplicate := true);
            var luts := [a, b, c];
            Resolved(luts, 2, true)
            && MergedAsWritten(luts, 0, 1)[2].atlasIndex == 1
            && !Resolved(MergedAsWritten(luts, 0, 1), 1, true)
            && Merged(luts, 0, 1)[2].atlasIndex == 0
  {
    var a := SpriteLut(0, null, null, false, LutRect(0, 0, 1, 1), false, 0, [7]);
    var b := SpriteLut(1, null, null, false, LutRect(0, 0, 1, 1), false, 1, [7]);
    var c := b.(isDuplicate := true);
    var luts := [a, b, c];
    assert NonDupsBefore(luts, 3) == 2 by {
      assert NonDupsBefore(luts, 1) == 1;
      assert NonDupsBefore(luts, 2) == 2;
    }
    assert Linked(luts, true) by {
      assert !luts[1].isDuplicate && luts[1].atlasIndex == luts[2].atlasIndex;
    }
    var m := MergedAsWritten(luts, 0, 1);
    if Resolved(m, 1, true) {
      ResolvedInRange(m, 1, true, 2);
    }
  }

  // ---------------------------------------------------------------------
  // The hash pass
  // ---------------------------------------------------------------------

  /** What the pass keeps of a lut: everything but its slot, and a duplicate stays one. */
  predicate Skeleton(l: SpriteLut, l': SpriteLut)
  {
    l'.source == l.source && l'.sourceTex == l.sourceTex && l'.tex == l.tex && l'.isSplit == l.isSplit
    && l'.rect == l.rect && l'.hash == l.hash && (l.isDuplicate ==> l'.isDuplicate)
  }

  /** `cur` is `luts` with only slots changed and duplicates added. */
  ghost predicate KeptFrom(luts: seq<SpriteLut>, cur: seq<SpriteLut>)
  {
    |cur| == |luts| && forall p :: 0 <= p < |luts| ==> Skeleton(luts[p], cur[p])
  }

  /** Every duplicate of `cur` was one in `luts` or has an earlier lut with its hash. */
  ghost predicate Justified(luts: seq<SpriteLut>, cur: seq<SpriteLut>)
    requires |cur| == |luts|
  {
    forall q :: 0 <= q < |cur| && cur[q].isDuplicate ==>
      luts[q].isDuplicate || exists p :: 0 <= p < q && luts[p].hash == luts[q].hash
  }

  /** Every lut after one of the first `i` with the same hash is a duplicate. */
  ghost predicate SeparatedBelow(cur: seq<SpriteLut>, i: int)
  {
    forall p, q :: 0 <= p < i && p < q < |cur| && cur[p].hash == cur[q].hash ==> cur[q].isDuplicate
  }

  /** Every lut strictly between `i` and `j` with `i`'s hash is a duplicate. */
  ghost predicate SeparatedFrom(cur: seq<SpriteLut>, i: int, j: int)
    requires 0 <= i < |cur|
  {
    forall q :: i < q < j && q < |cur| && cur[i].hash == cur[q].hash ==> cur[q].isDuplicate
  }

  /**
   * `cur` is `luts` after the hash pass: a lut is a duplicate exactly when
   * it was one or an earlier lut has its hash, and the originals left
   * have pairwise different hashes.
   */
  ghost predicate DedupedByHash(luts: seq<SpriteLut>, cur: seq<SpriteLut>)
    requires |cur| == |luts|
  {
    (forall q :: 0 <= q < |cur| ==>
       (cur[q].isDuplicate <==> luts[q].isDuplicate || exists p :: 0 <= p < q && luts[p].hash == luts[q].hash))
    && forall p, q :: 0 <= p < q < |cur| && !cur[p].isDuplicate && !cur[q].isDuplicate ==> cur[p].hash != cur[q].hash
  }

  /** The state of the pass before lut `i`'s turn. */
  ghost predicate OuterState(luts: seq<SpriteLut>, cur: seq<SpriteLut>, num: int, i: int)
  {
    KeptFrom(luts, cur) && Justified(luts, cur) && Resolved(cur, num, true) && SeparatedBelow(cur, i)
  }

  /** The state of the pass before the pair (`i`, `j`). */
  ghost predicate PassState(luts: seq<SpriteLut>, cur: seq<SpriteLut>, num: int, i: int, j: int)
  {
    OuterState(luts, cur, num, i) && 0 <= i < |cur| && SeparatedFrom(cur, i, j)
  }

  /** The merge changes slots and makes `j` a duplicate, and nothing else. */
  lemma MergedShape(cur: seq<SpriteLut>, i: int, j: int)
    requires 0 <= i < j < |cur|
    ensures forall p :: 0 <= p < |cur| ==>
              Skeleton(cur[p], Merged(cur, i, j)[p]) && (Merged(cur, i, j)[p].isDuplicate <==> p == j || cur[p].isDuplicate)
  {
  }

  /** A merged pair moves the pass on to the next pair. */
  lemma PassAfterMerge(luts: seq<SpriteLut>, cur: seq<SpriteLut>, num: int, i: int, j: int)
    requires i < j < |cur| && PassState(luts, cur, num, i, j)
    requires !cur[j].isDuplicate && cur[i].hash == cur[j].hash
    ensures PassState(luts, Merged(cur, i, j), num - 1, i, j + 1)
  {
    var m := Merged(cur, i, j);
    MergeDense(cur, num, i, j);
    MergeLinked(cur, num, i, j);
    MergedShape(cur, i, j);
    assert luts[i].hash == luts[j].hash;
    assert Justified(luts, m);
  }

  /** One pair of the pass: a later non-duplicate with `i`'s hash is merged into `i`. */
  method DedupPair(ghost luts: seq<SpriteLut>, cur: seq<SpriteLut>, num: int, i: int, j: int)
    returns (cur': seq<SpriteLut>, num': int)
    requires i < j < |cur| && PassState(luts, cur, num, i, j)
    ensures PassState(luts, cur', num', i, j + 1)
  {
    if !cur[j].isDuplicate && cur[i].hash == cur[j].hash {
      PassAfterMerge(luts, cur, num, i, j);
      cur' := MergeDuplicate(cur, i, j);
      num' := num - 1;
    } else {
      PassSkip(luts, cur, num, i, j);
      cur', num' := cur, num;
    }
  }

  /** A pair that is not merged moves the pass on unchanged. */
  lemma PassSkip(luts: seq<SpriteLut>, cur: seq<SpriteLut>, num: int, i: int, j: int)
    requires i < j < |cur| && PassState(luts, cur, num, i, j)
    requires cur[j].isDuplicate || cur[i].hash != cur[j].hash
    ensures PassState(luts, cur, num, i, j + 1)
  {
  }

  /** Lut `i`'s turn over all later luts: the first `i + 1` luts are separated. */
  lemma PassDone(luts: seq<SpriteLut>, cur: seq<SpriteLut>, num: int, i: int)
    requires PassState(luts, cur, num, i, |cur|)
    ensures OuterState(luts, cur, num, i + 1)
  {
  }

  /**
   * The hash pass: afterwards a lut is a duplicate exactly when it was one
   * or an earlier lut has its hash, the slot invariant holds with one
   * texture per distinct hash, and nothing but slots and duplicate flags
   * changes.
   */
  method RemoveDuplicates(luts: seq<SpriteLut>, num: int) returns (luts': seq<SpriteLut>, num': int)
    requires Resolved(luts, num, true)
    ensures Resolved(luts', num', true)
    ensures KeptFrom(luts, luts')
    ensures forall p, q :: 0 <= p < q < |luts'| && luts'[p].hash == luts'[q].hash ==> luts'[q].isDuplicate
    ensures forall q :: 0 <= q < |luts'| && luts'[q].isDuplicate ==>
              luts[q].isDuplicate || exists p :: 0 <= p < q && luts[p].hash == luts[q].hash
    ensures DedupedByHash(luts, luts')
  {
    luts', num' := luts, num;
    for i := 0 to |luts|
      invariant OuterState(luts, luts', num', i)
    {
      for j := i + 1 to |luts|
        invariant PassState(luts, luts', num', i, j)
      {
        luts', num' := DedupPair(luts, luts', num', i, j);
      }
      PassDone(luts, luts', num', i);
    }
    forall q | 0 <= q < |luts'| && (luts[q].isDuplicate || exists p :: 0 <= p < q && luts[p].hash == luts[q].hash)
      ensures luts'[q].isDuplicate
    {
      if !luts[q].isDuplicate {
        var p :| 0 <= p < q && luts[p].hash == luts[q].hash;
        assert Skeleton(luts[p], luts'[p]) && Skeleton(luts[q], luts'[q]);
      }
    }
  }

  // ---------------------------------------------------------------------
  // The textures to atlas
  // ---------------------------------------------------------------------

  /** The textures of the non-duplicates, in list order. */
  function NonDupTextures(luts: seq<SpriteLut>): (r: seq<Texture?>)
    ensures |r| == NonDupsBefore(luts, |luts|)
  {
    if |luts| == 0 then []
    else
      var n := |luts| - 1;
      NonDupsAppend(luts[..n], luts[n], n);
      assert luts[..n] + [luts[n]] == luts;
      NonDupTextures(luts[..n]) + (if luts[n].isDuplicate then [] else [luts[n].tex])
  }

  /** Slot `k` of the list holds the texture of the non-duplicate counted `k`-th. */
  lemma {:induction false} NonDupTexturesSlot(luts: seq<SpriteLut>, p: int)
    requires 0 <= p < |luts| && !luts[p].isDuplicate
    ensures NonDupsBefore(luts, p) < |NonDupTextures(luts)|
    ensures NonDupTextures(luts)[NonDupsBefore(luts, p)] == luts[p].tex
    decreases |luts|
  {
    var n := |luts| - 1;
    NonDupsAppend(luts[..n], luts[n], n);
    assert luts[..n] + [luts[n]] == luts;
    if p < n {
      NonDupsAppend(luts[..n], luts[n], p);
      assert luts[..n][p] == luts[p];
      NonDupTexturesSlot(luts[..n], p);
    }
  }

  /**
   * `textureList`: the textures of the non-duplicates in list order, and
   * the slots after them empty.
   */
  method BuildTextureList(luts: seq<SpriteLut>, num: int) returns (list: array<Texture?>)
    requires NonDupsBefore(luts, |luts|) <= num
    ensures fresh(list) && list.Length == num
    ensures list[..NonDupsBefore(luts, |luts|)] == NonDupTextures(luts)
    ensures forall k :: NonDupsBefore(luts, |luts|) <= k < num ==> list[k] == null
  {
    NonDupsGrow(luts, 0, |luts|);
    list := new Texture?[num](_ => null);
    var titer := 0;
    for i := 0 to |luts|
      invariant titer == NonDupsBefore(luts, i) <= num
      invariant list[..titer] == NonDupTextures(luts[..i])
      invariant forall k :: titer <= k < num ==> list[k] == null
    {
      titer := StoreNonDup(list, luts, i, titer);
    }
    assert luts[..|luts|] == luts;
  }

  /** One turn of the `textureList` loop: lut `i`'s texture goes to the next slot when it is not a duplicate. */
  method StoreNonDup(list: array<Texture?>, luts: seq<SpriteLut>, i: int, titer: int) returns (titer': int)
    requires 0 <= i < |luts| && NonDupsBefore(luts, |luts|) <= list.Length
    requires titer == NonDupsBefore(luts, i) <= list.Length
    requires list[..titer] == NonDupTextures(luts[..i])
    requires forall k :: titer <= k < list.Length ==> list[k] == null
    modifies list
    ensures titer' == NonDupsBefore(luts, i + 1) <= list.Length
    ensures list[..titer'] == NonDupTextures(luts[..i + 1])
    ensures forall k :: titer' <= k < list.Length ==> list[k] == null
  {
    NonDupsGrow(luts, i + 1, |luts|);
    NonDupTexturesStep(luts, i);
    titer' := titer;
    if !luts[i].isDuplicate {
      list[titer] := luts[i].tex;
      titer' := titer + 1;
    }
  }

  /** The texture list of the first `i + 1` luts is that of the first `i` and lut `i`'s texture unless it is a duplicate. */
  lemma NonDupTexturesStep(luts: seq<SpriteLut>, i: int)
    requires 0 <= i < |luts|
    ensures NonDupTextures(luts[..i + 1]) == NonDupTextures(luts[..i]) + (if luts[i].isDuplicate then [] else [luts[i].tex])
  {
    assert luts[..i + 1][..i] == luts[..i];
  }

  /**
   * The part of the build between the catalogue and the packer: when
   * duplicates are removed every lut is hashed and the hash pass runs;
   * then the textures to atlas are listed. Every lut's slot names a
   * texture of the list, and for a non-duplicate it is its own texture.
   */
  method PrepareAtlasTextures(luts: seq<SpriteLut>, num: int, removeDuplicates: bool, md5: seq<byte> -> seq<byte>)
    returns (luts': seq<SpriteLut>, num': int, textureList: array<Texture?>, ghost hashed: seq<SpriteLut>)
    requires Resolved(luts, num, false) && TexturesValid(luts)
    ensures fresh(textureList) && textureList.Length == num'
    ensures |luts'| == |luts| && Resolved(luts', num', removeDuplicates)
    ensures removeDuplicates ==>
              |hashed| == |luts| && (forall p :: 0 <= p < |luts| ==> hashed[p] == luts[p].(hash := md5(HashBuffer(luts[p].tex))))
              && KeptFrom(hashed, luts') && DedupedByHash(hashed, luts')
    ensures forall p :: 0 <= p < |luts'| ==> 0 <= luts'[p].atlasIndex < num'
    ensures forall p :: 0 <= p < |luts'| && !luts'[p].isDuplicate ==> textureList[luts'[p].atlasIndex] == luts'[p].tex
    ensures !removeDuplicates ==> luts' == luts && num' == num
  {
    luts', num', hashed := luts, num, luts;
    if removeDuplicates {
      var hashedLuts := HashAll(luts, md5);
      HashKeepsLinks(luts, hashedLuts, num);
      luts', num' := RemoveDuplicates(hashedLuts, num);
      hashed := hashedLuts;
    }
    textureList := BuildTextureList(luts', num');
    assert textureList[..] == textureList[..NonDupsBefore(luts', |luts'|)];
    TextureListSlots(luts', num', removeDuplicates, textureList[..]);
  }

  /** Under the invariant every slot names a texture of the list, and a non-duplicate's slot its own texture. */
  lemma TextureListSlots(luts: seq<SpriteLut>, num: int, byHash: bool, list: seq<Texture?>)
    requires Resolved(luts, num, byHash) && |list| == num && list == NonDupTextures(luts)
    ensures forall p :: 0 <= p < |luts| ==> 0 <= luts[p].atlasIndex < |list|
    ensures forall p :: 0 <= p < |luts| && !luts[p].isDuplicate ==> list[luts[p].atlasIndex] == luts[p].tex
  {
    forall p | 0 <= p < |luts|
      ensures 0 <= luts[p].atlasIndex < |list|
      ensures !luts[p].isDuplicate ==> list[luts[p].atlasIndex] == luts[p].tex
    {
      ResolvedInRange(luts, num, byHash, p);
      if !luts[p].isDuplicate {
        NonDupTexturesSlot(luts, p);
      }
    }
  }
}
