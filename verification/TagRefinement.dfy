/** The tagged heap does what the list allocator of BlockList does. */
module TagRefinement {
  import opened BlockList
  import opened BoundaryTags
  import opened Tiling

  // ---------------------------------------------------------------- what a live header looks like

  /** A live block's header is marked allocated and the block behind it does not have PREV_FREE. */
  lemma {:induction false} LiveHeader(w: Words, lo: int, bs: seq<Block>, pf: bool, h: int)
    requires Repr(w, lo, bs, pf) && h in LiveMap(bs, lo)
    ensures IsAlloc(At(w, h)) && GetSize(At(w, h)) == LiveMap(bs, lo)[h]
    ensures var e := h + LiveMap(bs, lo)[h]; e < lo + Total(bs) ==> PrevFreeBit(At(w, e)) == 0
    decreases bs
  {
    hide GetSize, IsAlloc, PrevFreeBit, MarkPrevFree, ClearPrevFree;
    var b, rest, lo' := bs[0], bs[1..], lo + bs[0].size;
    ReprWellFormed(w, lo, bs, pf);
    if h == lo && b.alloc {
      TagParts(b.size, b.alloc, pf);
      if rest != [] {
        ReprWellFormed(w, lo', rest, !b.alloc);
        assert SizeOk(rest[0]);
        TagParts(rest[0].size, rest[0].alloc, !b.alloc);
      }
    } else {
      LiveHeader(w, lo', rest, !b.alloc, h);
    }
  }

  // ---------------------------------------------------------------- search

  /** Where a walk over the list laid out from `lo` ends. */
  function Walked(bs: seq<Block>, lo: int, need: int): Walk {
    var i := FirstFit(bs, need);
    FirstFitIsFirst(bs, need);
    if i < |bs| then Fits(lo + Total(bs[..i])) else RanOff
  }

  /** First fit: the walk stops at the lowest free block that is large enough, and runs off the end
      exactly when there is none; it never breaks off at a zero size. */
  lemma {:induction false} FindRefines(w: Words, lo: int, hi: int, bs: seq<Block>, pf: bool, need: int)
    requires Repr(w, lo, bs, pf) && lo + Total(bs) == hi
    ensures Find(w, lo, hi, need) == Walked(bs, lo, need)
    decreases bs
  {
    hide GetSize, IsAlloc, PrevFreeBit, MarkPrevFree, ClearPrevFree;
    FirstFitIsFirst(bs, need);
    if bs != [] {
      var b := bs[0];
      ReprWellFormed(w, lo, bs, pf);
      ReprWellFormed(w, lo + b.size, bs[1..], !b.alloc);
      TotalBound(bs[1..]);
      TagParts(b.size, b.alloc, pf);
      FindRefines(w, lo + b.size, hi, bs[1..], !b.alloc, need);
      FirstFitIsFirst(bs[1..], need);
      var i := FirstFit(bs[1..], need);
      assert bs[..i + 1][1..] == bs[1..][..i];
      assert 1 + i <= |bs|;
    }
  }

  /** The walk reads the headers of the blocks from the first on, each once, up to the one that fits;
      every one of them lies inside the heap. */
  lemma {:induction false} WalkVisits(w: Words, lo: int, hi: int, bs: seq<Block>, pf: bool, need: int)
    requires Repr(w, lo, bs, pf) && lo + Total(bs) == hi
    ensures var vs, i := Visited(w, lo, hi, need), FirstFit(bs, need);
      && |vs| == (if i < |bs| then i + 1 else |bs|)
      && (forall k :: 0 <= k < |vs| ==> vs[k] == lo + Total(bs[..k]) && lo <= vs[k] && vs[k] + MIN_BLOCK <= hi)
    decreases bs
  {
    hide GetSize, IsAlloc, PrevFreeBit, MarkPrevFree, ClearPrevFree;
    FirstFitIsFirst(bs, need);
    if bs != [] {
      var b, rest := bs[0], bs[1..];
      ReprWellFormed(w, lo, bs, pf);
      ReprWellFormed(w, lo + b.size, rest, !b.alloc);
      TotalBound(rest);
      TagParts(b.size, b.alloc, pf);
      WalkVisits(w, lo + b.size, hi, rest, !b.alloc, need);
      var vs, us := Visited(w, lo, hi, need), Visited(w, lo + b.size, hi, need);
      forall k | 0 <= k < |vs|
        ensures vs[k] == lo + Total(bs[..k]) && lo <= vs[k] && vs[k] + MIN_BLOCK <= hi
      {
        if k > 0 {
          assert vs == [lo] + us && bs[..k][1..] == rest[..k - 1];
          assert vs[k] == us[k - 1] == lo + b.size + Total(rest[..k - 1]);
        }
      }
    }
  }

  // ---------------------------------------------------------------- taking a free block

  predicate Splits(b: Block, need: int) { b.size - need >= MIN_BLOCK }

  /** The tags after `need` bytes were taken from the free block of `size` bytes at `o`, in numbers: with 32
      bytes or more to spare the rest gets tags of its own, else there is one block with all of it. */
  ghost predicate TakenTags(w: Words, o: int, need: nat, size: nat, pf: bool, repaired: bool) {
    if size - need >= 32 then
      && At(w, o) == need + (if pf then 3 else 1) && At(w, o + need - 8) == need + 1
      && At(w, o + need) == size - need + (if repaired then 0 else 2) && At(w, o + size - 8) == size - need
    else
      At(w, o) == size + (if pf then 3 else 1) && At(w, o + size - 8) == size + 1
  }

  lemma TakeNumbers(w: Words, hi: int, o: int, need: nat, b: Block, pf: bool, repaired: bool)
    requires SizeOk(b) && !b.alloc && At(w, o) == Tag(b.size, false, pf)
    requires MIN_BLOCK <= need <= b.size && Rounded(need)
    ensures TakenTags(Take(w, hi, o, need, repaired), o, need, b.size, pf, repaired)
  {
    TagParts(b.size, false, pf);
    hide GetSize, IsAlloc, PrevFreeBit, MarkPrevFree, ClearPrevFree, Tag, Rounded, At, TakenTags;
    if b.size - need >= 32 {
      SplitNumbers(w, hi, o, need, b.size, pf, repaired);
    } else {
      WholeNumbers(w, hi, o, need, b.size, pf, repaired);
    }
  }

  lemma SplitNumbers(w: Words, hi: int, o: int, need: nat, size: nat, pf: bool, repaired: bool)
    requires GetSize(At(w, o)) == size && PrevFreeBit(At(w, o)) == if pf then FLAG_PREV_FREE else 0
    requires size - need >= 32 && need >= 32
    ensures TakenTags(TakeSplit(w, hi, o, need, repaired), o, need, size, pf, repaired)
  {
    hide GetSize, PrevFreeBit, MarkPrevFree;
    var w' := TakeSplit(w, hi, o, need, repaired);
    assert At(w', o) == need + 1 + PrevFreeBit(At(w, o));
    assert At(w', o + need - 8) == need + 1;
    assert At(w', o + need) == size - need + if repaired then 0 else 2;
    assert At(w', o + size - 8) == size - need;
  }

  lemma WholeNumbers(w: Words, hi: int, o: int, need: nat, size: nat, pf: bool, repaired: bool)
    requires GetSize(At(w, o)) == size && PrevFreeBit(At(w, o)) == if pf then FLAG_PREV_FREE else 0
    requires size - need < 32 && size >= 32
    ensures TakenTags(TakeWhole(w, hi, o), o, need, size, pf, repaired)
  {
    hide GetSize, PrevFreeBit, ClearPrevFree;
  }

  lemma TakeEffect(w: Words, hi: int, o: int, need: nat, b: Block, pf: bool, repaired: bool)
    requires SizeOk(b) && !b.alloc && At(w, o) == Tag(b.size, false, pf)
    requires MIN_BLOCK <= need <= b.size && Rounded(need)
    ensures var w' := Take(w, hi, o, need, repaired);
      && (forall a :: a < o || a > o + b.size || (a == o + b.size && a >= hi) ==> At(w', a) == At(w, a))
      && (repaired || !Splits(b, need) ==> Repr(w', o, Place(b, need), pf))
      && At(w', o) == Tag(if Splits(b, need) then need else b.size, true, pf)
      && (o + b.size < hi ==>
            var after := At(w, o + b.size);
            At(w', o + b.size) == if Splits(b, need) then MarkPrevFree(repaired, after) else ClearPrevFree(after))
      && (Splits(b, need) && !repaired ==> At(w', o + need) == Tag(b.size - need, false, true))
      && (Splits(b, need) ==> At(w', o + b.size - HDR_SZ) == Tag(b.size - need, false, false))
  {
    hide GetSize, IsAlloc, PrevFreeBit, MarkPrevFree, ClearPrevFree, TakeWhole, TakeSplit, Repr;
    TagParts(b.size, false, pf);
    if Splits(b, need) {
      TakeSplitEffect(w, hi, o, need, b, pf, repaired);
    } else {
      TakeWholeEffect(w, hi, o, b, pf);
    }
  }

  lemma TakeWholeEffect(w: Words, hi: int, o: int, b: Block, pf: bool)
    requires SizeOk(b) && At(w, o) == Tag(b.size, b.alloc, pf)
    ensures var w' := TakeWhole(w, hi, o);
      && (forall a :: a < o || a > o + b.size || (a == o + b.size && a >= hi) ==> At(w', a) == At(w, a))
      && Repr(w', o, [Block(b.size, true)], pf)
      && At(w', o) == Tag(b.size, true, pf)
      && (o + b.size < hi ==> At(w', o + b.size) == ClearPrevFree(At(w, o + b.size)))
  {
    hide GetSize, IsAlloc, PrevFreeBit, ClearPrevFree;
    TagParts(b.size, b.alloc, pf);
    assert [Block(b.size, true)][1..] == [];
  }

  lemma TakeSplitEffect(w: Words, hi: int, o: int, need: nat, b: Block, pf: bool, repaired: bool)
    requires SizeOk(b) && !b.alloc && At(w, o) == Tag(b.size, false, pf)
    requires MIN_BLOCK <= need && Rounded(need) && Splits(b, need)
    ensures GetSize(At(w, o)) == b.size
    ensures var w' := TakeSplit(w, hi, o, need, repaired);
      && (forall a :: a < o || a > o + b.size || (a == o + b.size && a >= hi) ==> At(w', a) == At(w, a))
      && At(w', o) == Tag(need, true, pf)
      && (o + b.size < hi ==> At(w', o + b.size) == MarkPrevFree(repaired, At(w, o + b.size)))
      && At(w', o + need) == Tag(b.size - need, false, !repaired)
      && At(w', o + b.size - HDR_SZ) == Tag(b.size - need, false, false)
      && (repaired ==> Repr(w', o, Place(b, need), pf))
  {
    hide GetSize, MarkPrevFree, TakeSplit, Repr, Place, Tag, Rounded;
    TagParts(b.size, false, pf);
    SplitWords(w, hi, o, need, b, pf, repaired);
    if repaired {
      PlacedRepr(TakeSplit(w, hi, o, need, repaired), o, need, b, pf);
    }
  }

  /** The six words that a split writes. */
  lemma SplitWords(w: Words, hi: int, o: int, need: nat, b: Block, pf: bool, repaired: bool)
    requires SizeOk(b) && !b.alloc && At(w, o) == Tag(b.size, false, pf)
    requires MIN_BLOCK <= need && Splits(b, need)
    ensures GetSize(At(w, o)) == b.size
    ensures var w' := TakeSplit(w, hi, o, need, repaired);
      && (forall a :: a < o || a > o + b.size || (a == o + b.size && a >= hi) ==> At(w', a) == At(w, a))
      && At(w', o) == Tag(need, true, pf) && At(w', o + need - HDR_SZ) == Tag(need, true, false)
      && At(w', o + need) == Tag(b.size - need, false, !repaired)
      && At(w', o + b.size - HDR_SZ) == Tag(b.size - need, false, false)
      && (o + b.size < hi ==> At(w', o + b.size) == MarkPrevFree(repaired, At(w, o + b.size)))
  {
    hide GetSize, PrevFreeBit, MarkPrevFree, Rounded;
    TagParts(b.size, false, pf);
  }

  /** Those words are the two blocks. */
  lemma PlacedRepr(w: Words, o: int, need: nat, b: Block, pf: bool)
    requires SizeOk(b) && MIN_BLOCK <= need && Rounded(need) && Splits(b, need)
    requires At(w, o) == Tag(need, true, pf) && At(w, o + need - HDR_SZ) == Tag(need, true, false)
    requires At(w, o + need) == Tag(b.size - need, false, false)
    requires At(w, o + b.size - HDR_SZ) == Tag(b.size - need, false, false)
    ensures Repr(w, o, Place(b, need), pf)
  {
    hide Tag;
    var p, q := Block(need, true), Block(b.size - need, false);
    FreeBlockRepr(w, o + need, q.size);
    assert Place(b, need) == [p, q] && [p, q][1..] == [q];
  }

  /** Taking the fitting block `i` refines TakeFit. Without the repairs this is proved for the
      whole-block case only. */
  lemma TakeRefines(w: Words, lo: int, hi: int, bs: seq<Block>, i: nat, need: nat, repaired: bool)
    requires Represents(w, lo, hi, bs)
    requires i < |bs| && !bs[i].alloc && MIN_BLOCK <= need <= bs[i].size && Rounded(need)
    requires repaired || !Splits(bs[i], need)
    ensures Represents(Take(w, hi, lo + Total(bs[..i]), need, repaired), lo, hi, TakeFit(bs, i, need))
  {
    hide GetSize, IsAlloc, PrevFreeBit, MarkPrevFree, ClearPrevFree, Take, Place;
    var b, p := bs[i], Place(bs[i], need);
    TakeHere(w, lo, hi, bs, i, need, repaired);
    assert WellFormed(bs) by { ReprWellFormed(w, lo, bs, false); }
    PlaceTotal(b, need);
    assert bs == bs[..i] + [b] + bs[i + 1..];
    assert Total([b]) == b.size;
    SplitAt(bs, i, i + 1);
    assert bs[i..i + 1] == [b];
    assert LastFree(p, LastFree(bs[..i], false)) == Splits(b, need) by { PlaceLast(b, need); }
    Splice(w, Take(w, hi, lo + Total(bs[..i]), need, repaired), lo, bs[..i], [b], p, bs[i + 1..], false);
    TakeFitList(bs, i, need, lo);
  }

  lemma PlaceLast(b: Block, need: int)
    ensures Place(b, need) != [] && !Place(b, need)[|Place(b, need)| - 1].alloc == Splits(b, need)
  {
  }

  lemma TakeHere(w: Words, lo: int, hi: int, bs: seq<Block>, i: nat, need: nat, repaired: bool)
    requires Represents(w, lo, hi, bs)
    requires i < |bs| && !bs[i].alloc && MIN_BLOCK <= need <= bs[i].size && Rounded(need)
    requires repaired || !Splits(bs[i], need)
    ensures var o, e := lo + Total(bs[..i]), lo + Total(bs[..i]) + bs[i].size;
      var w' := Take(w, hi, o, need, repaired);
      && Repr(w', o, Place(bs[i], need), LastFree(bs[..i], false))
      && (forall a :: a < o || a > e ==> At(w', a) == At(w, a))
      && (i + 1 < |bs| ==>
            bs[i + 1].alloc && At(w', e) == Tag(bs[i + 1].size, true, Splits(bs[i], need)))
  {
    hide GetSize, IsAlloc, PrevFreeBit, MarkPrevFree, ClearPrevFree, Take, Place;
    BlockAt(w, lo, bs, i);
    if i + 1 < |bs| {
      BlockAt(w, lo, bs, i + 1);
      TagParts(bs[i + 1].size, bs[i + 1].alloc, true);
    }
    TakeEffect(w, hi, lo + Total(bs[..i]), need, bs[i], i > 0 && !bs[i - 1].alloc, repaired);
  }

  // ---------------------------------------------------------------- merging

  /** The words around `blk` when `merge` is called on it: a free block of `s` bytes with free
      neighbours of `back` and `front` bytes (0 where there is none). */
  ghost predicate MergeReady(w: Words, hi: int, blk: int, s: int, back: int, front: int, pf: bool) {
    && Rounded(s) && s >= MIN_BLOCK
    && Rounded(back) && (back == 0 || back >= MIN_BLOCK)
    && Rounded(front) && (front == 0 || front >= MIN_BLOCK)
    && At(w, blk) == Tag(s, false, if back == 0 then pf else true)
    && (back == 0 ==> !pf)
    && (back > 0 ==> At(w, blk - HDR_SZ) == Tag(back, false, false) && At(w, blk - back) == Tag(back, false, pf))
    && At(w, blk + s - HDR_SZ) == Tag(s, false, false)
    && (if blk + s < hi && !IsAlloc(At(w, blk + s)) then GetSize(At(w, blk + s)) == front && front > 0 else front == 0)
  }

  /** Everything one call of `merge` does. */
  lemma MergeEffect(w: Words, hi: int, blk: int, s: int, back: int, front: int, pf: bool, repaired: bool)
    requires MergeReady(w, hi, blk, s, back, front, pf)
    ensures var m, total := Merge(w, hi, blk, repaired), back + s + front;
      && m.start == blk - back
      && At(m.words, m.start) == Tag(total, false, pf)
      && At(m.words, m.start + total - HDR_SZ) == Tag(total, false, false)
      && (m.start + total < hi ==>
            var after := At(w, m.start + total);
            At(m.words, m.start + total) == if total == s then after else MarkPrevFree(repaired, after))
      && (forall a :: a != m.start && a != m.start + total - HDR_SZ && (a != m.start + total || a >= hi) ==>
        At(m.words, a) == At(w, a))
  {
    hide GetSize, IsAlloc, PrevFreeBit, MarkPrevFree, ClearPrevFree, Merge;
    MergeShape(w, hi, blk, s, back, front, pf, repaired);
  }

  lemma MergeShape(w: Words, hi: int, blk: int, s: int, back: int, front: int, pf: bool, repaired: bool)
    requires MergeReady(w, hi, blk, s, back, front, pf)
    ensures Merge(w, hi, blk, repaired) ==
      Merged(if back + front == 0 then w else Boundaries(w, hi, blk - back, back + s + front, pf, repaired), blk - back)
  {
    hide GetSize, IsAlloc, PrevFreeBit, MarkPrevFree, ClearPrevFree;
    TagParts(s, false, back != 0);
    TagParts(back, false, false);
    TagParts(back, false, pf);
  }

  /** The three words `merge` writes when it joins anything. */
  function Boundaries(w: Words, hi: int, start: int, total: int, pf: bool, repaired: bool): (w': Words)
    requires total >= MIN_BLOCK
    ensures At(w', start) == Tag(total, false, pf)
    ensures At(w', start + total - HDR_SZ) == Tag(total, false, false)
    ensures start + total < hi ==> At(w', start + total) == MarkPrevFree(repaired, At(w, start + total))
    ensures forall a :: a != start && a != start + total - HDR_SZ && (a != start + total || a >= hi) ==>
      At(w', a) == At(w, a)
  {
    var w2 := w[start := Tag(total, false, pf)][start + total - HDR_SZ := total];
    var after := start + total;
    if after < hi then w2[after := MarkPrevFree(repaired, At(w2, after))] else w2
  }

  // ---------------------------------------------------------------- releasing

  /** The sizes joined on either side of block `i` when it is released by the code. */
  function BackSize(bs: seq<Block>, i: nat): int
    requires i < |bs|
  { if i > 0 && !bs[i - 1].alloc then bs[i - 1].size else 0 }

  function FrontSize(bs: seq<Block>, i: nat, repaired: bool): int
    requires i < |bs|
  { if i + 1 < |bs| && !(repaired && bs[i + 1].alloc) then bs[i + 1].size else 0 }

  /** The words when `brk_release` has marked its block free and calls `merge`. */
  function Unmarked(w: Words, hi: int, o: int, s: nat, pf: bool, repaired: bool): Words {
    var w2 := w[o := Tag(s, false, pf)][o + s - HDR_SZ := s];
    if o + s < hi then w2[o + s := MarkPrevFree(repaired, At(w2, o + s))] else w2
  }

  /** The tags around a block of `size` bytes that is released: its own ALLOC flag, the size (0 for none)
      and the PREV_FREE flag of a free block in front of it, and the block behind it. */
  datatype Around = Around(size: int, alloc: bool, back: int, backFlag: bool, next: Block, nextFlag: bool)

  ghost predicate ReleaseReady(w: Words, hi: int, o: int, r: Around) {
    && Rounded(r.size) && r.size >= MIN_BLOCK
    && Rounded(r.back) && (r.back == 0 || r.back >= MIN_BLOCK)
    && At(w, o) == Tag(r.size, r.alloc, r.back != 0)
    && (r.back == 0 ==> !r.backFlag)
    && (r.back > 0 ==>
          At(w, o - HDR_SZ) == Tag(r.back, false, false) && At(w, o - r.back) == Tag(r.back, false, r.backFlag))
    && SizeOk(r.next)
    && (o + r.size < hi ==> At(w, o + r.size) == Tag(r.next.size, r.next.alloc, r.nextFlag))
  }

  /** As written (without the repair) the next block is taken for free whatever it is. */
  function FrontOf(hi: int, e: int, next: Block, repaired: bool): int {
    if e < hi && !(repaired && next.alloc) then next.size else 0
  }

  lemma ReleaseMerges(w: Words, hi: int, o: int, r: Around, repaired: bool)
    requires ReleaseReady(w, hi, o, r)
    ensures var w3 := Unmarked(w, hi, o, r.size, r.back != 0, repaired);
      && Release(w, hi, o, repaired) == Merge(w3, hi, o, repaired).words
      && MergeReady(w3, hi, o, r.size, r.back, FrontOf(hi, o + r.size, r.next, repaired), r.backFlag)
      && (o + r.size < hi ==> At(w3, o + r.size) == Tag(r.next.size, repaired && r.next.alloc, true))
  {
    hide GetSize, IsAlloc, PrevFreeBit, MarkPrevFree, ClearPrevFree, Merge;
    TagParts(r.size, r.alloc, r.back != 0);
    TagParts(r.next.size, r.next.alloc, r.nextFlag);
    TagParts(r.next.size, repaired && r.next.alloc, true);
  }

  /** What `brk_release` writes, from the tags around the block. */
  lemma ReleaseTags(w: Words, hi: int, o: int, r: Around, repaired: bool)
    requires ReleaseReady(w, hi, o, r)
    ensures var w' := Release(w, hi, o, repaired);
      var front := FrontOf(hi, o + r.size, r.next, repaired);
      var start, end := o - r.back, o + r.size + front;
      && At(w', start) == Tag(end - start, false, r.backFlag)
      && At(w', end - HDR_SZ) == Tag(end - start, false, false)
      && (end < hi ==>
            At(w', end) == if front == 0 then Tag(r.next.size, r.next.alloc, true)
                           else MarkPrevFree(repaired, At(w, end)))
      && (!repaired && o + r.size < hi ==> At(w', o + r.size) == Tag(r.next.size, false, true))
      && (forall a ::
            (a != start && a != end - HDR_SZ && (a != end || a >= hi) &&
             a != o && a != o + r.size - HDR_SZ && (a != o + r.size || a >= hi)) ==> At(w', a) == At(w, a))
  {
    hide GetSize, IsAlloc, PrevFreeBit, MarkPrevFree, ClearPrevFree, Merge, Release;
    ReleaseMerges(w, hi, o, r, repaired);
    TagParts(r.next.size, repaired && r.next.alloc, true);
    MergeEffect(Unmarked(w, hi, o, r.size, r.back != 0, repaired), hi, o, r.size, r.back,
                FrontOf(hi, o + r.size, r.next, repaired), r.backFlag, repaired);
  }

  /** The tags around block `i`; where there is no next block, any legal one will do. */
  function AroundOf(bs: seq<Block>, fs: seq<Flags>, i: nat): Around
    requires i < |bs| == |fs|
  {
    var last, back := i + 1 == |bs|, BackSize(bs, i);
    Around(bs[i].size, fs[i].alloc, back, i > 0 && !bs[i - 1].alloc && fs[i - 1].prevFree,
           if last then bs[i] else Block(bs[i + 1].size, fs[i + 1].alloc), !last && fs[i + 1].prevFree)
  }

  lemma ReleaseAround(w: Words, lo: int, hi: int, bs: seq<Block>, fs: seq<Flags>, i: nat)
    requires Tiles(w, lo, bs, fs) && lo + Total(bs) == hi && i < |bs| && bs[i].alloc
    ensures var o := lo + Total(bs[..i]);
      && ReleaseReady(w, hi, o, AroundOf(bs, fs, i))
      && lo <= o - BackSize(bs, i) && (o + bs[i].size < hi <==> i + 1 < |bs|)
      && (i + 1 < |bs| ==> o + bs[i].size + bs[i + 1].size <= hi)
      && o + bs[i].size <= hi && Rounded(o - lo)
  {
    hide Tag, Total;
    Position(bs, lo, i);
    assert TileOf(w, lo, bs, fs, i);
    if i > 0 {
      Position(bs, lo, i - 1);
      assert TileOf(w, lo, bs, fs, i - 1);
    }
    if i + 1 < |bs| {
      Position(bs, lo, i + 1);
      assert TileOf(w, lo, bs, fs, i + 1);
    }
  }

  /** The block behind block `i`, or any legal block when there is none. */
  function NextBlock(bs: seq<Block>, i: nat): Block
    requires i < |bs|
  { if i + 1 < |bs| then bs[i + 1] else bs[i] }

  /** The same in a documented heap. */
  lemma ReleaseSetting(w: Words, lo: int, hi: int, bs: seq<Block>, i: nat)
    requires Represents(w, lo, hi, bs) && i < |bs| && bs[i].alloc
    ensures var o := lo + Total(bs[..i]);
      && ReleaseReady(w, hi, o, Around(bs[i].size, true, BackSize(bs, i), false, NextBlock(bs, i), false))
      && lo <= o - BackSize(bs, i) && (o + bs[i].size < hi <==> i + 1 < |bs|)
      && (i + 1 < |bs| ==> o + bs[i].size + bs[i + 1].size <= hi && SizeOk(bs[i + 1]))
      && o + bs[i].size <= hi && BackSize(bs, i) >= 0 && SizeOk(bs[i])
  {
    ReprWellFormed(w, lo, bs, false);
    assert AroundOf(bs, Documented(bs), i) ==
      Around(bs[i].size, true, BackSize(bs, i), false, NextBlock(bs, i), false);
    hide Tag, Repr, Tiles, Total, Documented, AroundOf, ReleaseReady;
    ReprTiles(w, lo, bs);
    ReleaseAround(w, lo, hi, bs, Documented(bs), i);
  }

  lemma ReleaseEffect(w: Words, lo: int, hi: int, bs: seq<Block>, i: nat, repaired: bool)
    requires Represents(w, lo, hi, bs) && i < |bs| && bs[i].alloc
    ensures var o := lo + Total(bs[..i]);
      var w' := Release(w, hi, o, repaired);
      var front := FrontSize(bs, i, repaired);
      var start, end := o - BackSize(bs, i), o + bs[i].size + front;
      && At(w', start) == Tag(end - start, false, false)
      && At(w', end - HDR_SZ) == Tag(end - start, false, false)
      && (i + 1 < |bs| && end < hi ==>
            At(w', end) == if front == 0 then Tag(bs[i + 1].size, bs[i + 1].alloc, true)
                           else MarkPrevFree(repaired, At(w, end)))
      && (forall a :: a < start || a > end || (a == end && a >= hi) ==> At(w', a) == At(w, a))
      && (!repaired && i + 1 < |bs| ==> At(w', o + bs[i].size) == Tag(bs[i + 1].size, false, true))
  {
    hide Tag, MarkPrevFree, Release, Repr, Total, Rounded, ReleaseReady, BackSize;
    ReleaseSetting(w, lo, hi, bs, i);
    ReleaseTags(w, hi, lo + Total(bs[..i]),
                Around(bs[i].size, true, BackSize(bs, i), false, NextBlock(bs, i), false), repaired);
    if i + 2 == |bs| {
      BlockAt(w, lo, bs, i + 1);
    }
  }

  /** Nothing above block `i` is in use. */
  predicate NoLiveAbove(bs: seq<Block>, i: nat) {
    forall j :: i < j < |bs| ==> !bs[j].alloc
  }

  /** Releasing refines Freed, and touches no payload that stays live. Without the repairs this is
      proved for a block with nothing live above it. */
  lemma ReleaseRefines(w: Words, lo: int, hi: int, bs: seq<Block>, i: nat, repaired: bool)
    requires Represents(w, lo, hi, bs) && i < |bs| && bs[i].alloc
    requires repaired || NoLiveAbove(bs, i)
    ensures Represents(Release(w, hi, lo + Total(bs[..i]), repaired), lo, hi, Freed(bs, i))
  {
    hide Release, Repr, Total, Tag, LiveMap, SizesOk, SizeOk, Rounded, MergeFrom, MergeTo;
    var f, t := MergeFrom(bs, i), MergeTo(bs, i);
    ReleaseWindow(w, lo, hi, bs, i, repaired);
    SplitAt(bs, f, t);
    WindowTotal(bs[f..t]);
    Splice(w, Release(w, hi, lo + Total(bs[..i]), repaired), lo, bs[..f], bs[f..t],
           [Block(Total(bs[f..t]), false)], bs[t..], false);
    FreedList(bs, i, lo);
  }

  lemma WindowTotal(mid: seq<Block>)
    ensures Total([Block(Total(mid), false)]) == Total(mid)
  {
    Short([Block(Total(mid), false)], 0);
  }

  /** Where the window of block `i` and its free neighbours lies in the list. */
  lemma WindowFrame(bs: seq<Block>, i: nat, lo: int, repaired: bool)
    requires WellFormed(bs) && i < |bs| && bs[i].alloc && (repaired || NoLiveAbove(bs, i))
    ensures var f, t, front := MergeFrom(bs, i), MergeTo(bs, i), FrontSize(bs, i, repaired);
      && Total(bs[..f]) == Total(bs[..i]) - BackSize(bs, i)
      && Total(bs[f..t]) == BackSize(bs, i) + bs[i].size + front
      && Total(bs[..t]) == Total(bs[..f]) + Total(bs[f..t])
      && SizeOk(Block(Total(bs[f..t]), false)) && !LastFree(bs[..f], false)
      && (t < |bs| ==> bs[t].alloc && (if front == 0 then t == i + 1 else t == i + 2 && repaired))
  {
    var f, t := MergeFrom(bs, i), MergeTo(bs, i);
    assert WellFormed(bs) && (i + 1 < |bs| ==> SizeOk(bs[i + 1]));
    hide Total, LiveMap;
    Window(bs, i, lo);
    Prefixes(bs, f, t);
    CutSizes(bs, i);
    SplitAt(bs, f, t);
    TotalBound(bs[f..t]);
  }

  lemma Prefixes(bs: seq<Block>, f: nat, t: nat)
    requires f <= t <= |bs|
    ensures Total(bs[..t]) == Total(bs[..f]) + Total(bs[f..t])
  {
    assert bs[..t] == bs[..f] + bs[f..t];
    TotalAppend(bs[..f], bs[f..t]);
  }

  lemma ReleaseWindow(w: Words, lo: int, hi: int, bs: seq<Block>, i: nat, repaired: bool)
    requires Represents(w, lo, hi, bs) && i < |bs| && bs[i].alloc
    requires repaired || NoLiveAbove(bs, i)
    ensures WellFormed(bs)
    ensures var f, t := MergeFrom(bs, i), MergeTo(bs, i);
      var w' := Release(w, hi, lo + Total(bs[..i]), repaired);
      var s, e := lo + Total(bs[..f]), lo + Total(bs[..f]) + Total(bs[f..t]);
      && Repr(w', s, [Block(Total(bs[f..t]), false)], LastFree(bs[..f], false))
      && (forall a :: a < s || a > e ==> At(w', a) == At(w, a))
      && (t < |bs| ==> bs[t].alloc && At(w', e) == Tag(bs[t].size, bs[t].alloc, true))
  {
    hide GetSize, IsAlloc, PrevFreeBit, MarkPrevFree, ClearPrevFree, Release, Repr, LiveMap, Total, Tag, MergeFrom,
      MergeTo, BackSize, FrontSize, LastFree;
    var f, t, w' := MergeFrom(bs, i), MergeTo(bs, i), Release(w, hi, lo + Total(bs[..i]), repaired);
    ReprWellFormed(w, lo, bs, false);
    WindowFrame(bs, i, lo, repaired);
    ReleaseEffect(w, lo, hi, bs, i, repaired);
    if t < |bs| {
      BlockAt(w, lo, bs, t);
      TagParts(bs[t].size, bs[t].alloc, t > 0 && !bs[t - 1].alloc);
    }
    FreeBlockRepr(w', lo + Total(bs[..f]), Total(bs[f..t]));
  }

  lemma FreeBlockRepr(w: Words, o: int, size: int)
    ensures Repr(w, o, [Block(size, false)], false) <==>
      && SizeOk(Block(size, false))
      && At(w, o) == Tag(size, false, false) && At(w, o + size - HDR_SZ) == Tag(size, false, false)
  {
  }

  // ---------------------------------------------------------------- growing

  /** The words when `brk_grow` has appended its free block and calls `merge`. */
  function Appended(w: Words, hi: int, sz: nat, pf: bool): Words {
    w[hi := Tag(sz, false, pf)][hi + sz - HDR_SZ := sz]
  }

  function TailSize(bs: seq<Block>): int {
    if LastFree(bs, false) then bs[|bs| - 1].size else 0
  }

  lemma GrowMerges(w: Words, lo: int, hi: int, bs: seq<Block>, sz: nat, repaired: bool)
    requires Represents(w, lo, hi, bs) && Rounded(sz) && sz >= MIN_BLOCK
    ensures var w2, back := Appended(w, hi, sz, LastFree(bs, false)), TailSize(bs);
      && lo + Total(bs[..KeptOnGrow(bs)]) == hi - back && lo <= hi - back
      && back >= 0 && (back > 0 <==> LastFree(bs, false))
      && (hi > lo ==> IsAlloc(At(w, hi - HDR_SZ)) == !LastFree(bs, false))
      && (hi > lo <==> bs != [])
      && MergeReady(w2, hi + sz, hi, sz, back, 0, false)
      && Grow(w, lo, hi, sz, repaired).words == Merge(w2, hi + sz, hi, repaired).words
      && Grow(w, lo, hi, sz, repaired).start == if repaired then Merge(w2, hi + sz, hi, repaired).start else hi
  {
    hide GetSize, IsAlloc, PrevFreeBit, MarkPrevFree, ClearPrevFree, Merge, Repr, Total;
    var n := |bs|;
    assert bs[..n] == bs;
    if n > 0 {
      BlockAt(w, lo, bs, n - 1);
      TagParts(bs[n - 1].size, bs[n - 1].alloc, false);
    } else {
      Short(bs, 0);
    }
  }

  lemma GrowEffect(w: Words, lo: int, hi: int, bs: seq<Block>, sz: nat, repaired: bool)
    requires Represents(w, lo, hi, bs) && Rounded(sz) && sz >= MIN_BLOCK
    ensures var m, o := Grow(w, lo, hi, sz, repaired), lo + Total(bs[..KeptOnGrow(bs)]);
      && m.start == (if repaired then o else hi)
      && At(m.words, o) == Tag(hi + sz - o, false, false)
      && At(m.words, hi + sz - HDR_SZ) == Tag(hi + sz - o, false, false)
      && (forall a :: a < o || a >= hi + sz ==> At(m.words, a) == At(w, a))
      && (o < hi ==> At(m.words, hi) == Tag(sz, false, true) && At(m.words, hi - HDR_SZ) == Tag(hi - o, false, false))
  {
    hide GetSize, IsAlloc, PrevFreeBit, MarkPrevFree, ClearPrevFree, Merge, Grow, Represents, Total;
    GrowMerges(w, lo, hi, bs, sz, repaired);
    MergeEffect(Appended(w, hi, sz, LastFree(bs, false)), hi + sz, hi, sz, TailSize(bs), 0, false, repaired);
  }

  /** The header found at the block that `brk_grow` answers. */
  lemma GrownHeader(w: Words, lo: int, hi: int, bs: seq<Block>, sz: nat, repaired: bool)
    requires Represents(w, lo, hi, bs) && Rounded(sz) && sz >= MIN_BLOCK
    ensures var m, o := Grow(w, lo, hi, sz, repaired), lo + Total(bs[..KeptOnGrow(bs)]);
      && lo <= o <= m.start && (m.start == hi || m.start == hi - TailSize(bs))
      && SizeOk(Block(hi + sz - m.start, false))
      && At(m.words, m.start) == Tag(hi + sz - m.start, false, !repaired && LastFree(bs, false))
  {
    hide GetSize, IsAlloc, PrevFreeBit, MarkPrevFree, ClearPrevFree, Merge, Grow, Represents, Total, Tag;
    GrowEffect(w, lo, hi, bs, sz, repaired);
    GrowMerges(w, lo, hi, bs, sz, repaired);
  }

  lemma GrowRefines(w: Words, lo: int, hi: int, bs: seq<Block>, sz: nat, repaired: bool)
    requires Represents(w, lo, hi, bs) && Rounded(sz) && sz >= MIN_BLOCK
    requires repaired || !LastFree(bs, false)
    ensures var m, k := Grow(w, lo, hi, sz, repaired), KeptOnGrow(bs);
      && m.start == lo + Total(bs[..k])
      && Represents(m.words, lo, hi + sz, bs[..k] + [Block(Total(bs[k..]) + sz, false)])
  {
    hide GetSize, IsAlloc, PrevFreeBit, MarkPrevFree, ClearPrevFree, Grow, Repr, Total;
    var m, k := Grow(w, lo, hi, sz, repaired), KeptOnGrow(bs);
    var mid := [Block(Total(bs[k..]) + sz, false)];
    GrowEffect(w, lo, hi, bs, sz, repaired);
    ReprWellFormed(w, lo, bs, false);
    assert bs == bs[..k] + bs[k..];
    TotalBound(bs[k..]);
    TotalAppend(bs[..k], bs[k..]);
    assert k == |bs| ==> bs[..k] == bs && bs[k..] == [];
    ReprAppend(w, lo, bs[..k], bs[k..], false);
    ReprFrame(w, m.words, lo, bs[..k], false);
    TotalAppend(bs[..k], mid);
    Short(mid, 0);
    Short(bs[k..], 0);
    assert !LastFree(bs[..k], false);
    FreeBlockRepr(m.words, lo + Total(bs[..k]), mid[0].size);
    ReprAppend(m.words, lo, bs[..k], mid, false);
  }

  lemma ExtendRefines(w: Words, lo: int, hi: int, bs: seq<Block>, sz: nat, repaired: bool)
    requires Represents(w, lo, hi, bs) && Rounded(sz) && sz >= MIN_BLOCK
    requires repaired || !LastFree(bs, false)
    ensures var m := Grow(w, lo, hi, sz, repaired);
      && m.start == lo + Total(bs[..KeptOnGrow(bs)])
      && Represents(TakeWhole(m.words, hi + sz, m.start), lo, hi + sz, Extend(bs, sz))
  {
    hide *;
    var m, k := Grow(w, lo, hi, sz, repaired), KeptOnGrow(bs);
    var b := Block(Total(bs[k..]) + sz, false);
    var gs := bs[..k] + [b];
    GrowRefines(w, lo, hi, bs, sz, repaired);
    WholeTake(m.words, lo, hi + sz, bs[..k], b, repaired);
    Extended(bs, k, b, sz);
  }

  /** Taking a free last block whole. */
  lemma WholeTake(w: Words, lo: int, hi: int, pre: seq<Block>, b: Block, repaired: bool)
    requires Represents(w, lo, hi, pre + [b]) && !b.alloc
    ensures Represents(TakeWhole(w, hi, lo + Total(pre)), lo, hi, pre + [Block(b.size, true)])
  {
    hide GetSize, TakeWhole, TakeSplit, Repr, Total, TakeFit, Tag;
    var gs, k := pre + [b], |pre|;
    BlockAt(w, lo, gs, k);
    assert gs[..k] == pre && gs[k] == b;
    TagParts(b.size, false, k > 0 && !gs[k - 1].alloc);
    TakeRefines(w, lo, hi, gs, k, b.size, repaired);
    TakenWhole(pre, b);
  }

  lemma TakenWhole(pre: seq<Block>, b: Block)
    ensures TakeFit(pre + [b], |pre|, b.size) == pre + [Block(b.size, true)]
  {
    assert (pre + [b])[..|pre|] == pre && (pre + [b])[|pre| + 1..] == [];
  }

  lemma Extended(bs: seq<Block>, k: nat, b: Block, sz: int)
    requires k == KeptOnGrow(bs) && b == Block(Total(bs[k..]) + sz, false)
    ensures Extend(bs, sz) == bs[..k] + [Block(b.size, true)]
  {
  }

  /** The footer in front of the heap's end tells whether its last block is free. */
  lemma LastFooter(w: Words, lo: int, hi: int, bs: seq<Block>)
    requires Represents(w, lo, hi, bs)
    ensures lo == hi <==> bs == []
    ensures bs != [] ==> IsAlloc(At(w, hi - HDR_SZ)) == !LastFree(bs, false)
  {
    hide Represents, Total, IsAlloc, TailSize, KeptOnGrow, Merge, Grow;
    GrowMerges(w, lo, hi, bs, PAGE, true) by { assert Rounded(PAGE); }
  }

  // ---------------------------------------------------------------- the whole allocation step

  /** Where the code's five deviations from its comments stay without effect on an allocation:
      a fitting block is used whole, or the heap grows behind a block in use, or fails to grow. */
  predicate AllocSafe(bs: seq<Block>, need: nat, granted: bool) {
    var i := FirstFit(bs, need);
    if i < |bs| then !Splits(bs[i], need) else !granted || !LastFree(bs, false)
  }

  lemma AllocateRefines(w: Words, lo: int, hi: int, bs: seq<Block>, need: nat, granted: bool, repaired: bool)
    requires Represents(w, lo, hi, bs) && Rounded(need) && need >= MIN_BLOCK
    requires repaired || AllocSafe(bs, need, granted)
    ensures var r := Allocate(w, lo, hi, need, granted, repaired);
      && Represents(r.words, lo, r.hi, AllocList(bs, need, granted))
      && r.hi == (if FirstFit(bs, need) >= |bs| && granted then hi + PageUp(need) else hi)
      && r.result == AllocAddr(bs, lo, need, granted)
  {
    hide GetSize, IsAlloc, PrevFreeBit, MarkPrevFree, ClearPrevFree, Grow, TakeWhole, Take, PageUp,
      TakeFit, Extend, Place, FirstFit, Repr, Total;
    FindRefines(w, lo, hi, bs, false, need);
    FirstFitIsFirst(bs, need);
    if FirstFit(bs, need) < |bs| {
      TakeRefines(w, lo, hi, bs, FirstFit(bs, need), need, repaired);
    } else if granted {
      PageUpBounds(need);
      ExtendRefines(w, lo, hi, bs, PageUp(need), repaired);
    }
  }
}
