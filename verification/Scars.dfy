/** What one unsafe allocation of the unrepaired code leaves behind, and that the release which follows it
    in `realloc` stays inside the heap but cannot mend it. */
module Scars {
  import opened BlockList
  import opened BoundaryTags
  import opened Tiling
  import opened TagRefinement
  import opened Frames
  import opened AsWritten

  // ---------------------------------------------------------------- what an unsafe allocation leaves behind

  /** Block `d` is in use, but its own header does not say so or the header behind it has PREV_FREE. */
  ghost predicate Scar(w: Words, lo: int, bs: seq<Block>, d: nat) {
    && d < |bs| && bs[d].alloc
    && (|| !IsAlloc(At(w, lo + Total(bs[..d])))
        || (d + 1 < |bs| && PrevFreeBit(At(w, lo + Total(bs[..d + 1]))) != 0))
  }

  /** Where the blocks of a list are after block `i` was split. */
  lemma SplitPlaces(bs: seq<Block>, i: nat, need: int, j: nat)
    requires i < |bs| && Splits(bs[i], need) && j <= |bs|
    ensures var bs' := TakeFit(bs, i, need);
      && |bs'| == |bs| + 1
      && (j <= i ==> bs'[..j] == bs[..j] && Total(bs'[..j]) == Total(bs[..j]))
      && (j < i ==> bs'[j] == bs[j])
      && bs'[i] == Block(need, true) && bs'[i + 1] == Block(bs[i].size - need, false)
      && Total(bs'[..i + 1]) == Total(bs[..i]) + need
      && (j > i ==> Total(bs'[..j + 1]) == Total(bs[..j]))
      && (i < j < |bs| ==> bs'[j + 1] == bs[j])
  {
    var bs', p := TakeFit(bs, i, need), Place(bs[i], need);
    assert p == [Block(need, true), Block(bs[i].size - need, false)];
    assert bs' == bs[..i] + p + bs[i + 1..];
    SplitPrefix(bs, i, p, j);
  }

  lemma SplitPrefix(bs: seq<Block>, i: nat, p: seq<Block>, j: nat)
    requires i < |bs| && |p| == 2 && p[0].size + p[1].size == bs[i].size && j <= |bs|
    ensures var bs' := bs[..i] + p + bs[i + 1..];
      && (j <= i ==> bs'[..j] == bs[..j])
      && Total(bs'[..i + 1]) == Total(bs[..i]) + p[0].size
      && (j > i ==> Total(bs'[..j + 1]) == Total(bs[..j]))
  {
    var bs' := bs[..i] + p + bs[i + 1..];
    assert bs'[..i] == bs[..i];
    Cut(bs', i);
    Cut(bs', i + 1);
    Cut(bs, i);
    if j > i {
      assert bs'[..j + 1] == bs'[..i + 2] + bs[i + 1..j];
      assert bs[..j] == bs[..i + 1] + bs[i + 1..j];
      hide Total;
      TotalAppend(bs'[..i + 2], bs[i + 1..j]);
      TotalAppend(bs[..i + 1], bs[i + 1..j]);
    }
  }

  /** The flags after block `i` was split as written: the rest has PREV_FREE, the block behind it has
      lost ALLOC. */
  function SplitFlags(bs: seq<Block>, i: nat): (fs: seq<Flags>)
    ensures |fs| == |bs|
    ensures forall j :: 0 <= j < |bs| ==>
      fs[j] == Flags(bs[j].alloc && j != i + 2, j == i + 1 || AfterFree(bs, j))
  {
    seq(|bs|, j requires 0 <= j < |bs| => Flags(bs[j].alloc && j != i + 2, j == i + 1 || AfterFree(bs, j)))
  }

  lemma SplitSizes(w: Words, lo: int, hi: int, bs: seq<Block>, i: nat, need: nat)
    requires Represents(w, lo, hi, bs) && i < |bs| && !bs[i].alloc
    requires MIN_BLOCK <= need && Rounded(need) && Splits(bs[i], need)
    ensures SizesOk(TakeFit(bs, i, need))
  {
    hide Repr, SizesOk, Place;
    ReprWellFormed(w, lo, bs, false);
    CutSizes(bs, i);
    PlaceTotal(bs[i], need);
    SizesAppend(bs[..i], Place(bs[i], need));
    SizesAppend(bs[..i] + Place(bs[i], need), bs[i + 1..]);
  }

  /** Block `j` ends no later than a block behind it starts. */
  lemma InOrder(w: Words, lo: int, bs: seq<Block>, j: nat, k: nat)
    requires Repr(w, lo, bs, false) && j < k < |bs|
    ensures Total(bs[..j]) + bs[j].size <= Total(bs[..k])
  {
    hide Repr, Total, Tag;
    BlockAt(w, lo, bs, j);
    if j + 1 < k { TotalIncreases(bs, j + 1, k); }
  }

  lemma SplitHere(w: Words, lo: int, hi: int, bs: seq<Block>, i: nat, need: nat)
    requires Represents(w, lo, hi, bs) && i < |bs| && !bs[i].alloc
    requires MIN_BLOCK <= need && Rounded(need) && Splits(bs[i], need)
    ensures var w', bs' := Take(w, hi, lo + Total(bs[..i]), need, false), TakeFit(bs, i, need);
      && |bs'| > i
      && Tile(w', lo + Total(bs'[..i]), bs'[i], Flags(true, AfterFree(bs', i)), AfterFree(bs', i))
  {
    hide GetSize, IsAlloc, PrevFreeBit, MarkPrevFree, ClearPrevFree, Take, Repr, Total, Tag, TakeFit, Rounded;
    BlockAt(w, lo, bs, i);
    TakeEffect(w, hi, lo + Total(bs[..i]), need, bs[i], AfterFree(bs, i), false);
    SplitPlaces(bs, i, need, i);
    if i > 0 { SplitPlaces(bs, i, need, i - 1); }
  }

  lemma SplitRest(w: Words, lo: int, hi: int, bs: seq<Block>, i: nat, need: nat)
    requires Represents(w, lo, hi, bs) && i < |bs| && !bs[i].alloc
    requires MIN_BLOCK <= need && Rounded(need) && Splits(bs[i], need)
    ensures var w', bs' := Take(w, hi, lo + Total(bs[..i]), need, false), TakeFit(bs, i, need);
      && |bs'| > i + 1 && bs'[i].alloc && !bs'[i + 1].alloc
      && Tile(w', lo + Total(bs'[..i + 1]), bs'[i + 1], Flags(false, true), AfterFree(bs', i + 1))
      && PrevFreeBit(At(w', lo + Total(bs'[..i + 1]))) != 0
  {
    hide GetSize, IsAlloc, PrevFreeBit, MarkPrevFree, ClearPrevFree, Take, Repr, Total, Tag, TakeFit;
    BlockAt(w, lo, bs, i);
    TakeEffect(w, hi, lo + Total(bs[..i]), need, bs[i], AfterFree(bs, i), false);
    TagParts(bs[i].size - need, false, true);
    SplitPlaces(bs, i, need, i);
  }

  lemma SplitBefore(w: Words, lo: int, hi: int, bs: seq<Block>, i: nat, need: nat, j: nat)
    requires Represents(w, lo, hi, bs) && i < |bs| && !bs[i].alloc && j < i
    requires MIN_BLOCK <= need && Rounded(need) && Splits(bs[i], need)
    ensures var w', bs' := Take(w, hi, lo + Total(bs[..i]), need, false), TakeFit(bs, i, need);
      && |bs'| > j
      && Tile(w', lo + Total(bs'[..j]), bs'[j], Flags(bs'[j].alloc, AfterFree(bs', j)), AfterFree(bs', j))
  {
    hide GetSize, IsAlloc, PrevFreeBit, MarkPrevFree, ClearPrevFree, Take, Repr, Total, Tag, TakeFit, Rounded;
    BlockAt(w, lo, bs, i);
    TakeEffect(w, hi, lo + Total(bs[..i]), need, bs[i], AfterFree(bs, i), false);
    SplitPlaces(bs, i, need, j);
    if j > 0 { SplitPlaces(bs, i, need, j - 1); }
    BlockAt(w, lo, bs, j);
    InOrder(w, lo, bs, j, i);
    TileAt(w, lo, bs, j);
  }

  lemma SplitBehind(w: Words, lo: int, hi: int, bs: seq<Block>, i: nat, need: nat, j: nat)
    requires Represents(w, lo, hi, bs) && i < |bs| && !bs[i].alloc && i + 2 <= j <= |bs|
    requires MIN_BLOCK <= need && Rounded(need) && Splits(bs[i], need)
    ensures var w', bs' := Take(w, hi, lo + Total(bs[..i]), need, false), TakeFit(bs, i, need);
      && |bs'| > j
      && Tile(w', lo + Total(bs'[..j]), bs'[j], Flags(bs'[j].alloc && j != i + 2, AfterFree(bs', j)), AfterFree(bs', j))
  {
    hide GetSize, IsAlloc, PrevFreeBit, MarkPrevFree, ClearPrevFree, Take, Repr, Total, Tag, TakeFit, Rounded;
    BlockAt(w, lo, bs, i);
    TakeEffect(w, hi, lo + Total(bs[..i]), need, bs[i], AfterFree(bs, i), false);
    SplitPlaces(bs, i, need, j - 1);
    SplitPlaces(bs, i, need, j - 2);
    BlockAt(w, lo, bs, j - 1);
    TileAt(w, lo, bs, j - 1);
    if j == i + 2 {
      TagParts(bs[j - 1].size, bs[j - 1].alloc, true);
    } else {
      InOrder(w, lo, bs, i + 1, j - 1);
      BlockAt(w, lo, bs, i + 1);
    }
  }

  lemma SplitTile(w: Words, lo: int, hi: int, bs: seq<Block>, i: nat, need: nat, j: nat)
    requires Represents(w, lo, hi, bs) && i < |bs| && !bs[i].alloc && j <= |bs|
    requires MIN_BLOCK <= need && Rounded(need) && Splits(bs[i], need)
    ensures var w', bs' := Take(w, hi, lo + Total(bs[..i]), need, false), TakeFit(bs, i, need);
      && |bs'| == |bs| + 1
      && TileOf(w', lo, bs', SplitFlags(bs', i), j)
  {
    hide GetSize, IsAlloc, PrevFreeBit, Take, Represents, Total, Tag, TakeFit, Rounded, Tile, SizesOk, AfterFree;
    SplitPlaces(bs, i, need, i);
    var bs' := TakeFit(bs, i, need);
    assert SplitFlags(bs', i)[j] == Flags(bs'[j].alloc && j != i + 2, j == i + 1 || AfterFree(bs', j));
    if j < i {
      SplitBefore(w, lo, hi, bs, i, need, j);
    } else if j == i {
      SplitHere(w, lo, hi, bs, i, need);
    } else if j == i + 1 {
      SplitRest(w, lo, hi, bs, i, need);
    } else {
      SplitBehind(w, lo, hi, bs, i, need, j);
    }
  }

  lemma SplitTiles(w: Words, lo: int, hi: int, bs: seq<Block>, i: nat, need: nat)
    requires Represents(w, lo, hi, bs) && i < |bs| && !bs[i].alloc
    requires MIN_BLOCK <= need && Rounded(need) && Splits(bs[i], need)
    ensures var w', bs' := Take(w, hi, lo + Total(bs[..i]), need, false), TakeFit(bs, i, need);
      Tiles(w', lo, bs', SplitFlags(bs', i)) && Scar(w', lo, bs', i)
  {
    hide *;
    var w', bs' := Take(w, hi, lo + Total(bs[..i]), need, false), TakeFit(bs, i, need);
    var fs := SplitFlags(bs', i);
    SplitSizes(w, lo, hi, bs, i, need);
    SplitPlaces(bs, i, need, i);
    forall j: nat | j < |bs'|
      ensures TileOf(w', lo, bs', fs, j)
    {
      SplitTile(w, lo, hi, bs, i, need, j);
    }
    AllTiles(w', lo, bs', fs);
    SplitScar(w, lo, hi, bs, i, need);
  }

  lemma SplitScar(w: Words, lo: int, hi: int, bs: seq<Block>, i: nat, need: nat)
    requires Represents(w, lo, hi, bs) && i < |bs| && !bs[i].alloc
    requires MIN_BLOCK <= need && Rounded(need) && Splits(bs[i], need)
    ensures Scar(Take(w, hi, lo + Total(bs[..i]), need, false), lo, TakeFit(bs, i, need), i)
  {
    hide Represents, Take, Total, TakeFit, Tile, PrevFreeBit, IsAlloc;
    SplitRest(w, lo, hi, bs, i, need);
  }

  // ---------------------------------------------------------------- growing behind a free last block

  lemma StaleTiles(w: Words, lo: int, hi: int, bs: seq<Block>, sz: nat)
    requires Represents(w, lo, hi, bs) && LastFree(bs, false) && Rounded(sz) && sz >= MIN_BLOCK
    ensures var k, bs' := |bs| - 1, Extend(bs, sz);
      var w' := TakeWhole(Grow(w, lo, hi, sz, false).words, hi + sz, hi);
      && Tiles(w', lo, bs', StaleFlags(bs')) && Scar(w', lo, bs', k)
  {
    hide *;
    var w', bs' := TakeWhole(Grow(w, lo, hi, sz, false).words, hi + sz, hi), Extend(bs, sz);
    var fs := StaleFlags(bs');
    StaleSizes(w, lo, hi, bs, sz);
    forall j: nat | j < |bs'|
      ensures TileOf(w', lo, bs', fs, j)
    {
      if j + 1 < |bs'| {
        StaleBefore(w, lo, hi, bs, sz, j);
      } else {
        StaleLast(w, lo, hi, bs, sz);
      }
    }
    AllTiles(w', lo, bs', fs);
    StaleLast(w, lo, hi, bs, sz);
  }

  /** The flags after such a growth: the last block, which is the one handed out, is marked free. */
  function StaleFlags(bs: seq<Block>): (fs: seq<Flags>)
    ensures |fs| == |bs|
    ensures forall j :: 0 <= j < |bs| ==> fs[j] == Flags(bs[j].alloc && j + 1 < |bs|, AfterFree(bs, j))
  {
    seq(|bs|, j requires 0 <= j < |bs| => Flags(bs[j].alloc && j + 1 < |bs|, AfterFree(bs, j)))
  }

  lemma StaleSizes(w: Words, lo: int, hi: int, bs: seq<Block>, sz: nat)
    requires Represents(w, lo, hi, bs) && LastFree(bs, false) && Rounded(sz) && sz >= MIN_BLOCK
    ensures var k, bs' := |bs| - 1, Extend(bs, sz);
      && |bs'| == |bs| && bs'[..k] == bs[..k] && bs'[k].alloc && bs'[k].size == hi + sz - lo - Total(bs[..k])
      && SizesOk(bs')
  {
    hide Repr, Total, SizesOk, SizeOk, Rounded;
    var k := |bs| - 1;
    ReprWellFormed(w, lo, bs, false);
    CutSizes(bs, k);
    Cut(bs, k);
    Short(bs[k..], 0);
    Short(bs[k + 1..], 0);
    LastSize(bs[k], sz);
    SizesAppend(bs[..k], [Block(bs[k].size + sz, true)]);
  }

  lemma LastSize(b: Block, sz: nat)
    requires SizeOk(b) && Rounded(sz)
    ensures SizesOk([Block(b.size + sz, true)])
  {
  }

  lemma StaleBefore(w: Words, lo: int, hi: int, bs: seq<Block>, sz: nat, j: nat)
    requires Represents(w, lo, hi, bs) && LastFree(bs, false) && Rounded(sz) && sz >= MIN_BLOCK && j + 1 < |bs|
    ensures var w', bs' := TakeWhole(Grow(w, lo, hi, sz, false).words, hi + sz, hi), Extend(bs, sz);
      |bs'| == |bs| && TileOf(w', lo, bs', StaleFlags(bs'), j)
  {
    hide Grow, TakeWhole, Repr, Total, Tag, Extend, Rounded, StaleFlags;
    var k, bs' := |bs| - 1, Extend(bs, sz);
    StaleSizes(w, lo, hi, bs, sz);
    assert bs'[..j] == bs'[..k][..j] == bs[..j] && bs'[j] == bs'[..k][j] == bs[j];
    assert j > 0 ==> bs'[j - 1] == bs'[..k][j - 1] == bs[j - 1];
    assert StaleFlags(bs')[j] == Flags(bs[j].alloc, AfterFree(bs, j));
    BlockAt(w, lo, bs, j);
    InOrder(w, lo, bs, j, k);
    TileAt(w, lo, bs, j);
    StaleFrame(w, lo, hi, bs, sz);
  }

  lemma StaleLast(w: Words, lo: int, hi: int, bs: seq<Block>, sz: nat)
    requires Represents(w, lo, hi, bs) && LastFree(bs, false) && Rounded(sz) && sz >= MIN_BLOCK
    ensures var w', bs', k := TakeWhole(Grow(w, lo, hi, sz, false).words, hi + sz, hi), Extend(bs, sz), |bs| - 1;
      |bs'| == |bs| && TileOf(w', lo, bs', StaleFlags(bs'), k) && Scar(w', lo, bs', k)
  {
    hide GetSize, IsAlloc, PrevFreeBit, ClearPrevFree, Grow, Repr, Total, Tag, Extend, Rounded, TakeWhole;
    var k, bs' := |bs| - 1, Extend(bs, sz);
    StaleSizes(w, lo, hi, bs, sz);
    ReprWellFormed(w, lo, bs, false);
    assert k > 0 ==> bs'[k - 1] == bs'[..k][k - 1] == bs[k - 1];
    assert StaleFlags(bs')[k] == Flags(false, AfterFree(bs', k));
    StaleWords(w, lo, hi, bs, sz);
    TagParts(bs'[k].size, false, LastFree(bs[..k], false));
  }

  /** Nothing in front of the old last block is written. */
  lemma StaleFrame(w: Words, lo: int, hi: int, bs: seq<Block>, sz: nat)
    requires Represents(w, lo, hi, bs) && LastFree(bs, false) && Rounded(sz) && sz >= MIN_BLOCK
    ensures var w' := TakeWhole(Grow(w, lo, hi, sz, false).words, hi + sz, hi);
      forall a :: a < lo + Total(bs[..|bs| - 1]) ==> At(w', a) == At(w, a)
  {
    hide GetSize, IsAlloc, PrevFreeBit, ClearPrevFree, Grow, Repr, Total, TakeWhole;
    GrowEffect(w, lo, hi, bs, sz, false);
    BlockAt(w, lo, bs, |bs| - 1);
    TakeWholeEffect(Grow(w, lo, hi, sz, false).words, hi + sz, hi, Block(sz, false), true);
  }

  // ---------------------------------------------------------------- the whole allocation

  /** After any allocation from a documented heap the tags still tile it. */
  lemma AllocateTiles(w: Words, lo: int, hi: int, bs: seq<Block>, need: nat, granted: bool, repaired: bool)
    returns (fs: seq<Flags>)
    requires Represents(w, lo, hi, bs) && Rounded(need) && need >= MIN_BLOCK
    ensures var r, bs' := Allocate(w, lo, hi, need, granted, repaired), AllocList(bs, need, granted);
      && WellFormed(bs') && lo + Total(bs') == r.hi && Tiles(r.words, lo, bs', fs)
  {
    var bs' := AllocList(bs, need, granted);
    AllocateRefines(w, lo, hi, bs, need, granted, true);
    var good := Allocate(w, lo, hi, need, granted, true);
    ReprWellFormed(good.words, lo, bs', false);
    SameEnd(w, lo, hi, bs, need, granted, repaired);
    if repaired || AllocSafe(bs, need, granted) {
      hide *;
      AllocateDocumented(w, lo, hi, bs, need, granted, repaired);
      fs := Documented(bs');
    } else {
      hide *;
      fs := ScarredFlags(bs, need, granted);
      AllocateScars(w, lo, hi, bs, need, granted);
    }
  }

  lemma AllocateDocumented(w: Words, lo: int, hi: int, bs: seq<Block>, need: nat, granted: bool, repaired: bool)
    requires Represents(w, lo, hi, bs) && Rounded(need) && need >= MIN_BLOCK
    requires repaired || AllocSafe(bs, need, granted)
    ensures var r, bs' := Allocate(w, lo, hi, need, granted, repaired), AllocList(bs, need, granted);
      Tiles(r.words, lo, bs', Documented(bs'))
  {
    hide Allocate, AllocList, AllocAddr, FirstFit, PageUp, Repr, Tiles, Documented, AllocSafe;
    AllocateRefines(w, lo, hi, bs, need, granted, repaired);
    ReprTiles(Allocate(w, lo, hi, need, granted, repaired).words, lo, AllocList(bs, need, granted));
  }

  lemma SameEnd(w: Words, lo: int, hi: int, bs: seq<Block>, need: nat, granted: bool, repaired: bool)
    ensures Allocate(w, lo, hi, need, granted, repaired).hi == Allocate(w, lo, hi, need, granted, true).hi
  {
    hide Take, Grow, TakeWhole, Find, PageUp;
  }

  function ScarredFlags(bs: seq<Block>, need: nat, granted: bool): seq<Flags> {
    var i, bs' := FirstFit(bs, need), AllocList(bs, need, granted);
    if i < |bs| then SplitFlags(bs', i) else StaleFlags(bs')
  }

  /** The index of the block an allocation hands out, in the list after it. */
  function HandedIndex(bs: seq<Block>, need: nat): nat {
    var i := FirstFit(bs, need);
    if i < |bs| then i else KeptOnGrow(bs)
  }

  /** An unsafe allocation as written: sizes are right everywhere, and the block handed out is scarred. */
  lemma AllocateScars(w: Words, lo: int, hi: int, bs: seq<Block>, need: nat, granted: bool)
    requires Represents(w, lo, hi, bs) && Rounded(need) && need >= MIN_BLOCK
    requires !AllocSafe(bs, need, granted)
    ensures var r, bs' := Allocate(w, lo, hi, need, granted, false), AllocList(bs, need, granted);
      && Tiles(r.words, lo, bs', ScarredFlags(bs, need, granted))
      && Scar(r.words, lo, bs', HandedIndex(bs, need))
      && lo + Total(bs'[..HandedIndex(bs, need)]) !in LiveMap(bs, lo)
  {
    hide GetSize, IsAlloc, PrevFreeBit, Grow, Take, TakeWhole, Repr, Total, TakeFit, Extend, PageUp, Tiles, Scar,
      SplitFlags, StaleFlags, Place, LiveMap;
    var i := FirstFit(bs, need);
    HandedFresh(w, lo, hi, bs, need, granted);
    FindRefines(w, lo, hi, bs, false, need);
    FirstFitIsFirst(bs, need);
    if i < |bs| {
      SplitTiles(w, lo, hi, bs, i, need);
    } else {
      PageUpBounds(need);
      StaleTiles(w, lo, hi, bs, PageUp(need));
      GrowMerges(w, lo, hi, bs, PageUp(need), false);
    }
  }

  lemma HandedFresh(w: Words, lo: int, hi: int, bs: seq<Block>, need: nat, granted: bool)
    requires Represents(w, lo, hi, bs) && Rounded(need) && need >= MIN_BLOCK
    requires !AllocSafe(bs, need, granted)
    ensures var bs', d := AllocList(bs, need, granted), HandedIndex(bs, need);
      d < |bs'| && lo + Total(bs'[..d]) !in LiveMap(bs, lo)
  {
    hide Repr, LiveMap, Total, Place;
    var i := FirstFit(bs, need);
    FirstFitIsFirst(bs, need);
    ReprWellFormed(w, lo, bs, false);
    if i < |bs| {
      TakeFitList(bs, i, need, lo);
      SplitPlaces(bs, i, need, i);
    } else {
      PageUpBounds(need);
      ExtendList(bs, PageUp(need), lo);
      StaleSizes(w, lo, hi, bs, PageUp(need));
    }
  }

  // ---------------------------------------------------------------- client stores

  /** Tags are no payload words. */
  lemma TagIsNoPayload(bs: seq<Block>, lo: int, j: nat)
    requires SizesOk(bs) && j < |bs|
    ensures var o := lo + Total(bs[..j]);
      && lo <= o && o + bs[j].size <= lo + Total(bs) && bs[j].size >= MIN_BLOCK
      && !Payload(bs, lo, o) && !Payload(bs, lo, o + bs[j].size - HDR_SZ)
  {
    hide Payload, Total;
    var o := lo + Total(bs[..j]);
    Position(bs, lo, j);
    if Payload(bs, lo, o) { PayloadSplit(bs, lo, j, o); }
    if Payload(bs, lo, o + bs[j].size - HDR_SZ) { PayloadSplit(bs, lo, j, o + bs[j].size - HDR_SZ); }
  }

  /** Stores into payloads change neither a tiling nor its scars. */
  lemma StoreKeepsTiles(w: Words, w': Words, lo: int, bs: seq<Block>, fs: seq<Flags>)
    requires Tiles(w, lo, bs, fs)
    requires forall a :: lo <= a < lo + Total(bs) && !Payload(bs, lo, a) ==> At(w', a) == At(w, a)
    ensures Tiles(w', lo, bs, fs)
  {
    hide Payload, Total, Tag;
    forall j: nat | j < |bs|
      ensures TileOf(w', lo, bs, fs, j)
    {
      assert TileOf(w, lo, bs, fs, j);
      TagIsNoPayload(bs, lo, j);
    }
  }

  lemma StoreKeepsScars(w: Words, w': Words, lo: int, bs: seq<Block>)
    requires SizesOk(bs)
    requires forall a :: lo <= a < lo + Total(bs) && !Payload(bs, lo, a) ==> At(w', a) == At(w, a)
    ensures forall d: nat :: Scar(w, lo, bs, d) ==> Scar(w', lo, bs, d)
  {
    hide Payload, Total, IsAlloc, PrevFreeBit;
    forall d: nat | Scar(w, lo, bs, d)
      ensures Scar(w', lo, bs, d)
    {
      TagIsNoPayload(bs, lo, d);
      if d + 1 < |bs| { TagIsNoPayload(bs, lo, d + 1); }
    }
  }

  // ---------------------------------------------------------------- a release cannot mend it

  /** As written, a release never sets ALLOC and never clears PREV_FREE in another block's header. */
  lemma ReleaseMendsNothing(w: Words, lo: int, hi: int, bs: seq<Block>, fs: seq<Flags>, i: nat, d: nat)
    requires Tiles(w, lo, bs, fs) && lo + Total(bs) == hi && i < |bs| && bs[i].alloc && d < |bs| && d != i
    ensures var w', q := Release(w, hi, lo + Total(bs[..i]), false), lo + Total(bs[..d]);
      && (!IsAlloc(At(w, q)) ==> !IsAlloc(At(w', q)))
      && (PrevFreeBit(At(w, q)) != 0 ==> PrevFreeBit(At(w', q)) != 0)
  {
    hide Release, Total, Tag, GetSize, IsAlloc, PrevFreeBit, MarkPrevFree, Rounded, TileOf;
    var o, q, r := lo + Total(bs[..i]), lo + Total(bs[..d]), AroundOf(bs, fs, i);
    ReleaseAround(w, lo, hi, bs, fs, i);
    ReleaseTags(w, hi, o, r, false);
    Apart(bs, lo, i, d);
    if i > 0 {
      Position(bs, lo, i - 1);
      Apart(bs, lo, i - 1, d);
    }
    if i + 1 < |bs| { Apart(bs, lo, i + 1, d); }
    Position(bs, lo, i);
    Position(bs, lo, d);
    Marked(At(w, q));
    if d == i + 1 {
      TagParts(r.next.size, false, true);
    } else if d + 1 == i && r.back > 0 {
      TagParts(r.back, false, r.backFlag);
      RoundedThree(r.back, r.size, FrontOf(hi, o + r.size, r.next, false));
      TagParts(r.back + r.size + FrontOf(hi, o + r.size, r.next, false), false, r.backFlag);
    }
  }

  /** Another block's header is no part of block `i`'s own tags. */
  lemma Apart(bs: seq<Block>, lo: int, i: nat, d: nat)
    requires SizesOk(bs) && i < |bs| && d < |bs|
    ensures d < i ==> Total(bs[..d]) + MIN_BLOCK <= Total(bs[..i])
    ensures d > i ==> Total(bs[..i]) + bs[i].size <= Total(bs[..d])
    ensures d > i + 1 ==> Total(bs[..i]) + bs[i].size < Total(bs[..d])
  {
    hide Total, Rounded;
    Position(bs, lo, i);
    Position(bs, lo, d);
    if d + 1 < i { TotalIncreases(bs, d + 1, i); }
    if d > i + 1 { TotalIncreases(bs, i + 1, d); }
  }

  /** After an unsafe allocation no release of another block gives a documented heap. */
  lemma ReleaseStaysScarred(w: Words, lo: int, hi: int, bs: seq<Block>, fs: seq<Flags>, i: nat, d: nat)
    requires WellFormed(bs) && Tiles(w, lo, bs, fs) && lo + Total(bs) == hi
    requires i < |bs| && bs[i].alloc && Scar(w, lo, bs, d) && d != i
    ensures !Represents(Release(w, hi, lo + Total(bs[..i]), false), lo, hi, Freed(bs, i))
  {
    hide Release, Total, Tag, GetSize, IsAlloc, PrevFreeBit, Repr, LiveMap, Freed, Rounded;
    var w', h := Release(w, hi, lo + Total(bs[..i]), false), lo + Total(bs[..d]);
    Apart(bs, lo, i, d);
    Position(bs, lo, d);
    ReleaseMendsNothing(w, lo, hi, bs, fs, i, d);
    if d + 1 < |bs| {
      if d + 1 == i {
        assert TileOf(w, lo, bs, fs, i);
        TagParts(bs[i].size, fs[i].alloc, fs[i].prevFree);
      } else {
        ReleaseMendsNothing(w, lo, hi, bs, fs, i, d + 1);
      }
    }
    FreedList(bs, i, lo);
    FreedList(bs, d, lo);
    if Represents(w', lo, hi, Freed(bs, i)) {
      LiveHeader(w', lo, Freed(bs, i), false, h);
      assert false;
    }
  }

  lemma RoundedThree(a: int, b: int, c: int)
    requires Rounded(a) && Rounded(b) && Rounded(c)
    ensures Rounded(a + b + c)
  {
  }

  lemma Marked(tag: nat)
    ensures !IsAlloc(MarkPrevFree(false, tag)) && PrevFreeBit(MarkPrevFree(false, tag)) != 0
  {
    var k := tag / 8;
    assert GetSize(tag) == 8 * k;
    assert (8 * k + 2) / 2 == 4 * k + 1 && (4 * k + 1) / 2 == 2 * k;
  }
}
