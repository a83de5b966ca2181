/** What the heap operations leave alone: payload words of live blocks, and memory outside the heap. */
module Frames {
  import opened BlockList
  import opened BoundaryTags
  import opened Tiling
  import opened TagRefinement

  // ---------------------------------------------------------------- payload words survive

  /** No allocation, repaired or as written, writes a word of a payload that is live before it. */
  lemma AllocateSpares(w: Words, lo: int, hi: int, bs: seq<Block>, need: nat, granted: bool, repaired: bool, a: int)
    requires Represents(w, lo, hi, bs) && Rounded(need) && need >= MIN_BLOCK
    requires Payload(bs, lo, a)
    ensures At(Allocate(w, lo, hi, need, granted, repaired).words, a) == At(w, a)
  {
    hide Take, TakeWhole, Grow, GetSize, IsAlloc, PrevFreeBit, MarkPrevFree, ClearPrevFree, Repr, Total,
      TakeFit, Extend, PageUp, Place, Payload;
    var i := FirstFit(bs, need);
    FindRefines(w, lo, hi, bs, false, need);
    FirstFitIsFirst(bs, need);
    PageUpBounds(need);
    if i < |bs| {
      TakeSpares(w, lo, hi, bs, i, need, repaired, a);
    } else if granted {
      GrowSpares(w, lo, hi, bs, PageUp(need), repaired, a);
    }
  }

  lemma TakeSpares(w: Words, lo: int, hi: int, bs: seq<Block>, i: nat, need: nat, repaired: bool, a: int)
    requires Represents(w, lo, hi, bs) && Payload(bs, lo, a)
    requires i < |bs| && !bs[i].alloc && MIN_BLOCK <= need <= bs[i].size && Rounded(need)
    ensures At(Take(w, hi, lo + Total(bs[..i]), need, repaired), a) == At(w, a)
  {
    hide Take, Repr, Payload, Total, Place, GetSize, IsAlloc, PrevFreeBit, MarkPrevFree, ClearPrevFree;
    BlockAt(w, lo, bs, i);
    TakeEffect(w, hi, lo + Total(bs[..i]), need, bs[i], i > 0 && !bs[i - 1].alloc, repaired);
    PayloadSplit(bs, lo, i, a);
  }

  lemma GrowSpares(w: Words, lo: int, hi: int, bs: seq<Block>, sz: nat, repaired: bool, a: int)
    requires Represents(w, lo, hi, bs) && Payload(bs, lo, a) && Rounded(sz) && sz >= MIN_BLOCK
    ensures var m := Grow(w, lo, hi, sz, repaired);
      At(TakeWhole(m.words, hi + sz, m.start), a) == At(w, a)
  {
    hide *;
    BelowTail(w, lo, hi, bs, a);
    GrowFrame(w, lo, hi, bs, sz, repaired);
  }

  /** A growth and taking the new block write nothing in front of that block and nothing behind the heap. */
  lemma GrowFrame(w: Words, lo: int, hi: int, bs: seq<Block>, sz: nat, repaired: bool)
    requires Represents(w, lo, hi, bs) && Rounded(sz) && sz >= MIN_BLOCK
    ensures var m, o := Grow(w, lo, hi, sz, repaired), lo + Total(bs[..KeptOnGrow(bs)]);
      && lo <= o
      && forall a :: a < o || a >= hi + sz ==> At(TakeWhole(m.words, hi + sz, m.start), a) == At(w, a)
  {
    hide Grow, Represents, Total, TakeWhole, KeptOnGrow, LastFree, Tag, SizeOk, Rounded, ClearPrevFree, At;
    var m := Grow(w, lo, hi, sz, repaired);
    GrowEffect(w, lo, hi, bs, sz, repaired);
    GrownHeader(w, lo, hi, bs, sz, repaired);
    TakeWholeEffect(m.words, hi + sz, m.start, Block(hi + sz - m.start, false), !repaired && LastFree(bs, false));
  }

  /** Live payload lies in front of a free last block. */
  lemma BelowTail(w: Words, lo: int, hi: int, bs: seq<Block>, a: int)
    requires Represents(w, lo, hi, bs) && Payload(bs, lo, a)
    ensures a < lo + Total(bs[..KeptOnGrow(bs)])
  {
    hide Repr, Payload, Total;
    ReprWellFormed(w, lo, bs, false);
    PayloadRange(bs, lo, a);
    if LastFree(bs, false) {
      Position(bs, lo, |bs| - 1);
      PayloadSplit(bs, lo, |bs| - 1, a);
    } else {
      assert bs[..|bs|] == bs;
    }
  }

  /** No release, repaired or as written, writes a word of a payload that is live before it: what it
      writes are headers and footers, even where their flags are wrong. */
  lemma ReleaseSpares(w: Words, lo: int, hi: int, bs: seq<Block>, fs: seq<Flags>, i: nat, repaired: bool, a: int)
    requires Tiles(w, lo, bs, fs) && lo + Total(bs) == hi && i < |bs| && bs[i].alloc
    requires Payload(bs, lo, a)
    ensures At(Release(w, hi, lo + Total(bs[..i]), repaired), a) == At(w, a)
  {
    hide Release, Payload, Total, Tag, MarkPrevFree, Tile, Rounded;
    ReleaseAround(w, lo, hi, bs, fs, i);
    ReleaseTags(w, hi, lo + Total(bs[..i]), AroundOf(bs, fs, i), repaired);
    Position(bs, lo, i);
    PayloadSplit(bs, lo, i, a);
    if i > 0 {
      Position(bs, lo, i - 1);
      PayloadSplit(bs, lo, i - 1, a);
    }
    if i + 1 < |bs| {
      Position(bs, lo, i + 1);
      PayloadSplit(bs, lo, i + 1, a);
    }
  }

  // ---------------------------------------------------------------- words outside the heap

  lemma AllocateOutside(w: Words, lo: int, hi: int, bs: seq<Block>, need: nat, granted: bool, repaired: bool, a: int)
    requires Represents(w, lo, hi, bs) && Rounded(need) && need >= MIN_BLOCK
    ensures var r := Allocate(w, lo, hi, need, granted, repaired);
      a < lo || a >= r.hi ==> At(r.words, a) == At(w, a)
  {
    hide Take, TakeWhole, Grow, GetSize, IsAlloc, PrevFreeBit, MarkPrevFree, ClearPrevFree, Repr, Total,
      TakeFit, Extend, PageUp, Place, Rounded;
    var i := FirstFit(bs, need);
    FindRefines(w, lo, hi, bs, false, need);
    FirstFitIsFirst(bs, need);
    PageUpBounds(need);
    if i < |bs| {
      BlockAt(w, lo, bs, i);
      TakeEffect(w, hi, lo + Total(bs[..i]), need, bs[i], i > 0 && !bs[i - 1].alloc, repaired);
    } else if granted && (a < lo || a >= hi + PageUp(need)) {
      GrowFrame(w, lo, hi, bs, PageUp(need), repaired);
    }
  }

  /** A release writes nothing outside the heap. */
  lemma ReleaseOutside(w: Words, lo: int, hi: int, bs: seq<Block>, fs: seq<Flags>, i: nat, repaired: bool, a: int)
    requires Tiles(w, lo, bs, fs) && lo + Total(bs) == hi && i < |bs| && bs[i].alloc && (a < lo || a >= hi)
    ensures At(Release(w, hi, lo + Total(bs[..i]), repaired), a) == At(w, a)
  {
    hide Release, Total, Tag, MarkPrevFree, TileOf, Rounded;
    ReleaseAround(w, lo, hi, bs, fs, i);
    ReleaseTags(w, hi, lo + Total(bs[..i]), AroundOf(bs, fs, i), repaired);
  }

  // ---------------------------------------------------------------- a client's store

  /** Stores into live payloads leave every tag alone. */
  lemma {:induction false} StoreKeeps(w: Words, w': Words, lo: int, bs: seq<Block>, pf: bool)
    requires Repr(w, lo, bs, pf)
    requires forall a :: lo <= a < lo + Total(bs) && !Payload(bs, lo, a) ==> At(w', a) == At(w, a)
    ensures Repr(w', lo, bs, pf)
    decreases bs
  {
    if bs != [] {
      var b, rest, lo' := bs[0], bs[1..], lo + bs[0].size;
      ReprWellFormed(w, lo, bs, pf);
      ReprWellFormed(w, lo', rest, !b.alloc);
      TotalBound(rest);
      forall a | a == lo || a == lo + b.size - HDR_SZ
        ensures At(w', a) == At(w, a)
      {
        if Payload(rest, lo', a) { PayloadRange(rest, lo', a); }
      }
      StoreKeeps(w, w', lo', rest, !b.alloc);
    }
  }

  /** The block of a live header address. */
  lemma {:induction false} LiveIndex(bs: seq<Block>, lo: int, h: int) returns (i: nat)
    requires h in LiveMap(bs, lo)
    ensures i < |bs| && bs[i].alloc && lo + Total(bs[..i]) == h && LiveMap(bs, lo)[h] == bs[i].size
  {
    if bs[0].alloc && h == lo {
      i := 0;
    } else {
      var j := LiveIndex(bs[1..], lo + bs[0].size, h);
      i := j + 1;
      assert bs[..i] == [bs[0]] + bs[1..][..j];
      TotalAppend([bs[0]], bs[1..][..j]);
      assert [bs[0]][1..] == [];
    }
  }

  lemma TotalIncreases(bs: seq<Block>, i: nat, j: nat)
    requires SizesOk(bs) && i < j <= |bs|
    ensures Total(bs[..i]) < Total(bs[..j])
  {
    SplitAt(bs[..j], i, j);
    assert bs[..j][..i] == bs[..i] && bs[..j][i..j] == bs[i..j] && bs[..j][j..] == [];
    SplitAt(bs, i, j);
    TotalBound(bs[i..j]);
  }
}
