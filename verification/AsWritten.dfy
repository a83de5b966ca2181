/** How far the unrepaired code of src/heap.c is from its documented invariant: for each operation,
    the exact states from which it still keeps every live block. */
module AsWritten {
  import opened BlockList
  import opened BoundaryTags
  import opened TagRefinement

  /** The words form a heap as documented, whose live blocks are those at the headers `live`. */
  ghost predicate Keeps(w: Words, lo: int, hi: int, live: set<int>) {
    exists bs :: Represents(w, lo, hi, bs) && LiveMap(bs, lo).Keys == live
  }

  /** Where a free block starts after `pre`, no list for these words has a live block inside it. */
  lemma {:induction false} NothingInside(w: Words, lo: int, pre: seq<Block>, size: int, bs: seq<Block>,
                                         pf: bool, h: int)
    requires Repr(w, lo, pre, pf) && Repr(w, lo, bs, pf)
    requires Rounded(size) && size >= MIN_BLOCK
    requires At(w, lo + Total(pre)) == Tag(size, false, LastFree(pre, pf))
    requires lo + Total(pre) < h < lo + Total(pre) + size <= lo + Total(bs)
    ensures h !in LiveMap(bs, lo)
    decreases pre
  {
    hide Tag, SizeOk, Rounded;
    ReprWellFormed(w, lo, pre, pf);
    TotalBound(pre);
    var b := bs[0];
    FirstBlock(w, lo, bs, pf);
    if pre == [] {
      TagsDiffer(size, false, b.size, b.alloc, pf);
      ReprWellFormed(w, lo + b.size, bs[1..], !b.alloc);
      LiveMapRange(bs[1..], lo + b.size);
    } else {
      FirstBlock(w, lo, pre, pf);
      TagsDiffer(pre[0].size, pre[0].alloc, b.size, b.alloc, pf);
      ReprWellFormed(w, lo + b.size, pre[1..], !b.alloc);
      TotalBound(pre[1..]);
      NothingInside(w, lo + b.size, pre[1..], size, bs[1..], !b.alloc, h);
    }
  }

  lemma FirstBlock(w: Words, lo: int, bs: seq<Block>, pf: bool)
    requires Repr(w, lo, bs, pf) && bs != []
    ensures SizeOk(bs[0]) && bs[0].size >= MIN_BLOCK && Rounded(bs[0].size)
    ensures At(w, lo) == Tag(bs[0].size, bs[0].alloc, pf) && Repr(w, lo + bs[0].size, bs[1..], !bs[0].alloc)
  {
    hide Tag;
  }

  /** Equal tags have equal sizes and flags. */
  lemma TagsDiffer(m: nat, a: bool, n: nat, b: bool, pf: bool)
    requires Rounded(m) && Rounded(n) && Tag(m, a, pf) == Tag(n, b, pf)
    ensures m == n && a == b
  {
    TagParts(m, a, pf);
    TagParts(n, b, pf);
  }

  lemma BlockIsLive(bs: seq<Block>, i: nat, lo: int)
    requires WellFormed(bs) && i < |bs| && bs[i].alloc
    ensures lo + Total(bs[..i]) in LiveMap(bs, lo)
  {
    FreedList(bs, i, lo);
  }

  // ---------------------------------------------------------------- brk_release as written

  lemma ReleaseLoses(w: Words, lo: int, hi: int, bs: seq<Block>, i: nat)
    requires Represents(w, lo, hi, bs) && i < |bs| && bs[i].alloc
    requires !NoLiveAbove(bs, i)
    ensures !Keeps(Release(w, hi, lo + Total(bs[..i]), false), lo, hi, LiveMap(bs, lo).Keys - {lo + Total(bs[..i])})
  {
    hide GetSize, IsAlloc, PrevFreeBit, MarkPrevFree, ClearPrevFree, Release, Repr, Total, LiveMap;
    var o := lo + Total(bs[..i]);
    var w' := Release(w, hi, o, false);
    BlockAt(w, lo, bs, i);
    var j := if bs[i + 1].alloc then i + 1 else i + 2;
    assert j < |bs| && bs[j].alloc;
    BlockAt(w, lo, bs, i + 1);
    BlockAt(w, lo, bs, j);
    var h := lo + Total(bs[..j]);
    ReleaseEffect(w, lo, hi, bs, i, false);
    TagParts(bs[j].size, bs[j].alloc, j > 0 && !bs[j - 1].alloc);
    TagParts(bs[j].size, false, true);
    assert At(w', h) == Tag(bs[j].size, false, true);
    BlockIsLive(bs, j, lo);
    if Keeps(w', lo, hi, LiveMap(bs, lo).Keys - {o}) {
      var bs' :| Represents(w', lo, hi, bs') && LiveMap(bs', lo).Keys == LiveMap(bs, lo).Keys - {o};
      LiveHeader(w', lo, bs', false, h);
      assert false;
    }
  }

  /** As written, releasing a block keeps the documented heap and every other live block exactly
      when nothing above that block is in use. */
  lemma ReleaseExact(w: Words, lo: int, hi: int, bs: seq<Block>, i: nat)
    requires Represents(w, lo, hi, bs) && i < |bs| && bs[i].alloc
    ensures Keeps(Release(w, hi, lo + Total(bs[..i]), false), lo, hi, LiveMap(bs, lo).Keys - {lo + Total(bs[..i])})
      <==> NoLiveAbove(bs, i)
  {
    hide Release, Repr, LiveMap;
    if NoLiveAbove(bs, i) {
      ReprWellFormed(w, lo, bs, false);
      ReleaseRefines(w, lo, hi, bs, i, false);
      FreedList(bs, i, lo);
      assert LiveMap(Freed(bs, i), lo).Keys == LiveMap(bs, lo).Keys - {lo + Total(bs[..i])};
    } else {
      ReleaseLoses(w, lo, hi, bs, i);
    }
  }

  // ---------------------------------------------------------------- brk_alloc as written

  function LiveAfter(live: set<int>, r: Search): set<int> {
    match r case Found(h) => live + {h} case NotFound => live
  }

  lemma SplitLoses(w: Words, lo: int, hi: int, bs: seq<Block>, i: nat, need: nat, live: set<int>)
    requires Represents(w, lo, hi, bs) && i < |bs| && !bs[i].alloc
    requires MIN_BLOCK <= need <= bs[i].size && Rounded(need) && Splits(bs[i], need)
    requires lo + Total(bs[..i]) in live
    ensures !Keeps(Take(w, hi, lo + Total(bs[..i]), need, false), lo, hi, live)
  {
    hide GetSize, IsAlloc, PrevFreeBit, MarkPrevFree, ClearPrevFree, Take, Repr, LiveMap, Place;
    var o := lo + Total(bs[..i]);
    var w' := Take(w, hi, o, need, false);
    BlockAt(w, lo, bs, i);
    var pf := i > 0 && !bs[i - 1].alloc;
    TakeEffect(w, hi, o, need, bs[i], pf, false);
    TagParts(need, true, pf);
    TagParts(bs[i].size - need, false, true);
    if Keeps(w', lo, hi, live) {
      var bs' :| Represents(w', lo, hi, bs') && LiveMap(bs', lo).Keys == live;
      LiveHeader(w', lo, bs', false, o);
      assert false;
    }
  }

  lemma StaleLoses(w: Words, lo: int, hi: int, bs: seq<Block>, sz: nat, live: set<int>)
    requires Represents(w, lo, hi, bs) && LastFree(bs, false)
    requires Rounded(sz) && sz >= MIN_BLOCK && hi in live
    ensures var m := Grow(w, lo, hi, sz, false);
      m.start == hi && !Keeps(TakeWhole(m.words, hi + sz, m.start), lo, hi + sz, live)
  {
    hide GetSize, IsAlloc, PrevFreeBit, MarkPrevFree, ClearPrevFree, Grow, Repr, LiveMap, Total, Keeps;
    var m := Grow(w, lo, hi, sz, false);
    var w' := TakeWhole(m.words, hi + sz, hi);
    StaleWords(w, lo, hi, bs, sz);
    NothingStale(w', lo, bs[..|bs| - 1], hi, hi + sz, live);
  }

  /** After a growth behind a free last block, the merged block's header is free and covers the
      address handed out. */
  lemma StaleWords(w: Words, lo: int, hi: int, bs: seq<Block>, sz: nat)
    requires Represents(w, lo, hi, bs) && LastFree(bs, false) && Rounded(sz) && sz >= MIN_BLOCK
    ensures var k := |bs| - 1;
      var m, o := Grow(w, lo, hi, sz, false), lo + Total(bs[..k]);
      var w' := TakeWhole(m.words, hi + sz, hi);
      && m.start == hi && Repr(w', lo, bs[..k], false) && Rounded(hi + sz - o) && hi + sz - o >= MIN_BLOCK && o < hi
      && At(w', o) == Tag(hi + sz - o, false, LastFree(bs[..k], false))
  {
    hide ClearPrevFree, Grow, Repr, Total, Tag, TakeWhole;
    var k := |bs| - 1;
    var m, o := Grow(w, lo, hi, sz, false), lo + Total(bs[..k]);
    GrowEffect(w, lo, hi, bs, sz, false);
    BlockAt(w, lo, bs, k);
    TakeWholeEffect(m.words, hi + sz, hi, Block(sz, false), true);
    Behind(bs, k);
    ReprAppend(w, lo, bs[..k], bs[k..], false);
    ReprFrame(w, TakeWhole(m.words, hi + sz, hi), lo, bs[..k], false);
  }

  lemma NothingStale(w: Words, lo: int, pre: seq<Block>, h: int, hi: int, live: set<int>)
    requires Repr(w, lo, pre, false) && h in live && h < hi
    requires var o := lo + Total(pre);
      && o < h && Rounded(hi - o) && hi - o >= MIN_BLOCK && At(w, o) == Tag(hi - o, false, LastFree(pre, false))
    ensures !Keeps(w, lo, hi, live)
  {
    hide Repr, LiveMap, Total;
    if Keeps(w, lo, hi, live) {
      var bs :| Represents(w, lo, hi, bs) && LiveMap(bs, lo).Keys == live;
      NothingInside(w, lo, pre, hi - lo - Total(pre), bs, false, h);
      assert false;
    }
  }

  /** As written, an allocation keeps the documented heap with all live blocks and the new one exactly
      when no block is split and the heap does not grow behind a free last block. */
  lemma AllocateExact(w: Words, lo: int, hi: int, bs: seq<Block>, need: nat, granted: bool)
    requires Represents(w, lo, hi, bs) && Rounded(need) && need >= MIN_BLOCK
    ensures var r := Allocate(w, lo, hi, need, granted, false);
      Keeps(r.words, lo, r.hi, LiveAfter(LiveMap(bs, lo).Keys, r.result)) <==> AllocSafe(bs, need, granted)
  {
    hide GetSize, IsAlloc, PrevFreeBit, MarkPrevFree, ClearPrevFree, Grow, Take, TakeWhole, Repr, LiveMap,
      Total, TakeFit, Extend, PageUp, Place;
    var i := FirstFit(bs, need);
    var r := Allocate(w, lo, hi, need, granted, false);
    ReprWellFormed(w, lo, bs, false);
    FirstFitIsFirst(bs, need);
    FindRefines(w, lo, hi, bs, false, need);
    PageUpBounds(need);
    if AllocSafe(bs, need, granted) {
      AllocateRefines(w, lo, hi, bs, need, granted, false);
      AllocListLive(bs, lo, need, granted);
      assert Represents(r.words, lo, r.hi, AllocList(bs, need, granted));
    } else if i < |bs| {
      SplitLoses(w, lo, hi, bs, i, need, LiveAfter(LiveMap(bs, lo).Keys, r.result));
    } else {
      StaleLoses(w, lo, hi, bs, PageUp(need), LiveMap(bs, lo).Keys + {hi});
    }
  }
}
