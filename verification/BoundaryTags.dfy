/** The brk heap of src/heap.c over memory seen as 64-bit words, and its refinement of BlockList.

    Every function that the repairs touch takes `repaired`: with `false` it is the code as written,
    with `true` the three tag updates and the returned block address are the ones the comments
    of the source call for. */
module BoundaryTags {
  import opened BlockList

  const HDR_SZ := 8
  const FLAG_ALLOC := 1
  const FLAG_PREV_FREE := 2

  /** Memory as words; the keys are the 8-aligned addresses. */
  type Words = map<int, nat>

  function At(w: Words, a: int): nat {
    if a in w then w[a] else 0
  }

  // ---------------------------------------------------------------- tags

  function GetSize(tag: nat): nat { tag - tag % 8 }

  predicate IsAlloc(tag: nat) { tag % 2 == 1 }

  function PrevFreeBit(tag: nat): nat { if tag / 2 % 2 == 1 then FLAG_PREV_FREE else 0 }

  /** The update of a successor's header when the block before it becomes free. */
  function MarkPrevFree(repaired: bool, tag: nat): nat {
    if repaired then tag - PrevFreeBit(tag) + FLAG_PREV_FREE else GetSize(tag) + FLAG_PREV_FREE
  }

  function ClearPrevFree(tag: nat): nat { tag - PrevFreeBit(tag) }

  function Tag(size: int, alloc: bool, prevFree: bool): int {
    size + (if alloc then FLAG_ALLOC else 0) + (if prevFree then FLAG_PREV_FREE else 0)
  }

  // ---------------------------------------------------------------- the code

  datatype Merged = Merged(words: Words, start: int)

  function Merge(w: Words, hi: int, blk: int, repaired: bool): Merged {
    var hdrv := At(w, blk);
    var blksz := GetSize(hdrv);
    var pfree := PrevFreeBit(hdrv);
    var start := if pfree != 0 then blk - GetSize(At(w, blk - HDR_SZ)) else blk;
    var back := if pfree != 0 then GetSize(At(w, blk - HDR_SZ)) else 0;
    var next := blk + blksz;
    var front := if next < hi && !IsAlloc(At(w, next)) then GetSize(At(w, next)) else 0;
    var total := blksz + back + front;
    if total == blksz then Merged(w, start)
    else
      var origPfree := if start != blk then PrevFreeBit(At(w, start)) else pfree;
      var w1 := w[start := total + origPfree];
      var w2 := w1[start + total - HDR_SZ := total];
      var after := start + total;
      Merged(if after < hi then w2[after := MarkPrevFree(repaired, At(w2, after))] else w2, start)
  }

  function Release(w: Words, hi: int, hdr: int, repaired: bool): Words {
    var hdrv := At(w, hdr);
    var blksz := GetSize(hdrv);
    var w1 := w[hdr := blksz + PrevFreeBit(hdrv)];
    var w2 := w1[hdr + blksz - HDR_SZ := blksz];
    var next := hdr + blksz;
    var w3 := if next < hi then w2[next := MarkPrevFree(repaired, At(w2, next))] else w2;
    Merge(w3, hi, hdr, repaired).words
  }

  /** How the walk of `brk_alloc` ends: behind the last block, at a zero size, or at a block that fits. */
  datatype Walk = RanOff | Broken | Fits(addr: int)

  function Find(w: Words, cur: int, hi: int, need: int): Walk
    decreases hi - cur
  {
    if cur >= hi then RanOff
    else
      var blksz := GetSize(At(w, cur));
      if blksz == 0 then Broken
      else if !IsAlloc(At(w, cur)) && blksz >= need then Fits(cur)
      else Find(w, cur + blksz, hi, need)
  }

  /** The addresses that walk reads, in order. */
  function Visited(w: Words, cur: int, hi: int, need: int): seq<int>
    decreases hi - cur
  {
    if cur >= hi then []
    else
      var blksz := GetSize(At(w, cur));
      if blksz == 0 || (!IsAlloc(At(w, cur)) && blksz >= need) then [cur]
      else [cur] + Visited(w, cur + blksz, hi, need)
  }

  function TakeWhole(w: Words, hi: int, cur: int): Words {
    var hdrv := At(w, cur);
    var blksz := GetSize(hdrv);
    var w1 := w[cur := blksz + FLAG_ALLOC + PrevFreeBit(hdrv)];
    var w2 := w1[cur + blksz - HDR_SZ := blksz + FLAG_ALLOC];
    var next := cur + blksz;
    if next < hi then w2[next := ClearPrevFree(At(w2, next))] else w2
  }

  function TakeSplit(w: Words, hi: int, cur: int, need: nat, repaired: bool): Words
    requires need <= GetSize(At(w, cur))
  {
    var hdrv := At(w, cur);
    var rem := GetSize(hdrv) - need;
    var w1 := w[cur := need + FLAG_ALLOC + PrevFreeBit(hdrv)];
    var w2 := w1[cur + need - HDR_SZ := need + FLAG_ALLOC];
    var next := cur + need;
    var w3 := w2[next := if repaired then rem else rem + FLAG_PREV_FREE];
    var w4 := w3[next + rem - HDR_SZ := rem];
    var after := next + rem;
    if after < hi then w4[after := MarkPrevFree(repaired, At(w4, after))] else w4
  }

  function Take(w: Words, hi: int, cur: int, need: nat, repaired: bool): Words {
    if GetSize(At(w, cur)) >= need + MIN_BLOCK then TakeSplit(w, hi, cur, need, repaired)
    else TakeWhole(w, hi, cur)
  }

  /** `brk_grow` once the kernel has granted `sz` more bytes; the new end of the heap is hi + sz. */
  function Grow(w: Words, lo: int, hi: int, sz: nat, repaired: bool): Merged {
    var prevFlag := if hi > lo && !IsAlloc(At(w, hi - HDR_SZ)) then FLAG_PREV_FREE else 0;
    var w1 := w[hi := sz + prevFlag];
    var w2 := w1[hi + sz - HDR_SZ := sz];
    var m := Merge(w2, hi + sz, hi, repaired);
    if repaired then m else Merged(m.words, hi)
  }

  /** Outcome of `brk_alloc`: words, end of heap and the header address handed out, if any. */
  datatype Allocated = Allocated(words: Words, hi: int, result: Search)

  function Allocate(w: Words, lo: int, hi: int, need: nat, granted: bool, repaired: bool): Allocated {
    match Find(w, lo, hi, need)
    case Fits(cur) => Allocated(Take(w, hi, cur, need, repaired), hi, Found(cur))
    case _ =>
      if !granted then Allocated(w, hi, NotFound)
      else
        var m := Grow(w, lo, hi, PageUp(need), repaired);
        var hi' := hi + PageUp(need);
        Allocated(TakeWhole(m.words, hi', m.start), hi', Found(m.start))
  }

  // ---------------------------------------------------------------- the documented invariant

  /** The words from `lo` hold exactly the blocks `bs`: header and footer of each agree with it,
      PREV_FREE is set exactly after a free block (`pf` answers for the first one), and no two
      neighbours are free. */
  ghost predicate Repr(w: Words, lo: int, bs: seq<Block>, pf: bool)
    decreases bs
  {
    bs == [] ||
    var b := bs[0];
    && SizeOk(b)
    && At(w, lo) == Tag(b.size, b.alloc, pf)
    && At(w, lo + b.size - HDR_SZ) == Tag(b.size, b.alloc, false)
    && (b.alloc || !pf)
    && Repr(w, lo + b.size, bs[1..], !b.alloc)
  }

  ghost predicate Represents(w: Words, lo: int, hi: int, bs: seq<Block>) {
    Repr(w, lo, bs, false) && lo + Total(bs) == hi
  }

  lemma TagParts(size: nat, alloc: bool, pf: bool)
    requires Rounded(size)
    ensures GetSize(Tag(size, alloc, pf)) == size
    ensures IsAlloc(Tag(size, alloc, pf)) == alloc
    ensures PrevFreeBit(Tag(size, alloc, pf)) == if pf then FLAG_PREV_FREE else 0
    ensures MarkPrevFree(true, Tag(size, alloc, pf)) == Tag(size, alloc, true)
    ensures MarkPrevFree(false, Tag(size, alloc, pf)) == Tag(size, false, true)
    ensures ClearPrevFree(Tag(size, alloc, pf)) == Tag(size, alloc, false)
  {
    var k, c := size / 16, Tag(size, alloc, pf) - size;
    assert size == 16 * k;
    LowBits(k, c);
    Halves(k, if alloc then 1 else 0);
  }

  lemma LowBits(k: nat, c: nat)
    requires c < 4
    ensures (16 * k + c) % 8 == c
    ensures (16 * k + c) % 2 == c % 2
    ensures (16 * k + c) / 2 % 2 == c / 2
  {
    Halves(k, c);
    assert (16 * k + c) / 2 % 2 == c / 2 by {
      Halves(k, c / 2);
    }
    assert (16 * k + c) / 8 == 2 * k;
  }

  lemma Halves(k: nat, c: nat)
    requires c < 4
    ensures (16 * k + c) / 2 == 8 * k + c / 2
    ensures (16 * k + c) % 2 == c % 2
    ensures c < 2 ==> (8 * k + c) % 2 == c
  {
    var x, y := 16 * k + c, 8 * k + c;
    assert x / 2 == 8 * k + c / 2;
    assert x % 2 == x - 2 * (x / 2);
    assert c % 2 == c - 2 * (c / 2);
    if c < 2 {
      assert y / 2 == 4 * k;
      assert y % 2 == y - 2 * (y / 2);
    }
  }

  lemma {:induction false} ReprAppend(w: Words, lo: int, xs: seq<Block>, ys: seq<Block>, pf: bool)
    ensures Repr(w, lo, xs + ys, pf) <==>
      Repr(w, lo, xs, pf) && Repr(w, lo + Total(xs), ys, LastFree(xs, pf))
    decreases xs
  {
    if xs == [] {
      assert xs + ys == ys;
    } else {
      assert (xs + ys)[1..] == xs[1..] + ys;
      ReprAppend(w, lo + xs[0].size, xs[1..], ys, !xs[0].alloc);
    }
  }

  lemma {:induction false} ReprFrame(w: Words, w': Words, lo: int, bs: seq<Block>, pf: bool)
    requires Repr(w, lo, bs, pf)
    requires forall a :: lo <= a < lo + Total(bs) ==> At(w', a) == At(w, a)
    ensures Repr(w', lo, bs, pf)
    decreases bs
  {
    if bs != [] {
      ReprWellFormed(w, lo, bs, pf);
      ReprWellFormed(w, lo + bs[0].size, bs[1..], !bs[0].alloc);
      TotalBound(bs[1..]);
      ReprFrame(w, w', lo + bs[0].size, bs[1..], !bs[0].alloc);
    }
  }

  lemma {:induction false} ReprWellFormed(w: Words, lo: int, bs: seq<Block>, pf: bool)
    requires Repr(w, lo, bs, pf)
    ensures WellFormed(bs)
    ensures bs != [] && pf ==> bs[0].alloc
    decreases bs
  {
    if bs != [] {
      ReprWellFormed(w, lo + bs[0].size, bs[1..], !bs[0].alloc);
      assert forall i :: 0 < i < |bs| ==> bs[i] == bs[1..][i - 1];
    }
  }

  /** The blocks behind a window stay in place when only the first header's PREV_FREE bit moves. */
  lemma ReprTail(w: Words, w': Words, e: int, post: seq<Block>, f: bool, f': bool)
    requires Repr(w, e, post, f)
    requires forall a :: e < a < e + Total(post) ==> At(w', a) == At(w, a)
    requires post != [] ==>
      At(w', e) == Tag(post[0].size, post[0].alloc, f') && (f' ==> post[0].alloc)
    ensures Repr(w', e, post, f')
  {
    if post != [] {
      var b := post[0];
      ReprWellFormed(w, e, post, f);
      assert forall i :: 0 <= i < |post[1..]| ==> post[1..][i] == post[i + 1];
      TotalBound(post[1..]);
      ReprFrame(w, w', e + b.size, post[1..], !b.alloc);
    }
  }

  lemma ReprJoin(w: Words, lo: int, xs: seq<Block>, ys: seq<Block>, zs: seq<Block>, pf: bool)
    ensures Repr(w, lo, xs + ys + zs, pf) <==>
      && Repr(w, lo, xs, pf)
      && Repr(w, lo + Total(xs), ys, LastFree(xs, pf))
      && Repr(w, lo + Total(xs) + Total(ys), zs, LastFree(ys, LastFree(xs, pf)))
  {
    ReprAppend(w, lo, xs + ys, zs, pf);
    ReprAppend(w, lo, xs, ys, pf);
    TotalAppend(xs, ys);
  }

  /** Rewriting the window `mid` into `mid'` of the same extent keeps the rest of the heap, as long
      as the word right after the window carries the new PREV_FREE bit. */
  lemma Splice(w: Words, w': Words, lo: int, pre: seq<Block>, mid: seq<Block>, mid': seq<Block>,
               post: seq<Block>, pf: bool)
    requires Repr(w, lo, pre + mid + post, pf)
    requires Total(mid') == Total(mid)
    requires Repr(w', lo + Total(pre), mid', LastFree(pre, pf))
    requires forall a :: lo <= a < lo + Total(pre) ==> At(w', a) == At(w, a)
    requires forall a :: lo + Total(pre) + Total(mid) < a < lo + Total(pre) + Total(mid) + Total(post) ==>
      At(w', a) == At(w, a)
    requires post != [] ==>
      var f := LastFree(mid', LastFree(pre, pf));
      && At(w', lo + Total(pre) + Total(mid)) == Tag(post[0].size, post[0].alloc, f)
      && (f ==> post[0].alloc)
    ensures Repr(w', lo, pre + mid' + post, pf)
  {
    hide Repr, Tag, Total;
    ReprJoin(w, lo, pre, mid, post, pf);
    ReprFrame(w, w', lo, pre, pf);
    ReprTail(w, w', lo + Total(pre) + Total(mid), post,
             LastFree(mid, LastFree(pre, pf)), LastFree(mid', LastFree(pre, pf)));
    ReprJoin(w', lo, pre, mid', post, pf);
  }

  /** Where block `i` of a list laid out from `lo` starts and ends. */
  lemma Position(bs: seq<Block>, lo: int, i: nat)
    requires SizesOk(bs) && i < |bs|
    ensures var o := lo + Total(bs[..i]);
      && o >= lo && Rounded(o - lo) && SizeOk(bs[i])
      && o + bs[i].size <= lo + Total(bs)
      && (o + bs[i].size == lo + Total(bs) <==> i == |bs| - 1)
      && lo + Total(bs[..i + 1]) == o + bs[i].size
  {
    hide Total, SizesOk, SizeOk, Rounded;
    Cut(bs, i);
    CutSizes(bs, i);
    TotalBound(bs[..i]);
    TotalBound(bs[i + 1..]);
    if i == |bs| - 1 { Short(bs[i + 1..], 0); }
  }

  /** What the invariant says about block `i`, its neighbours and everything else, in one place. */
  lemma BlockAt(w: Words, lo: int, bs: seq<Block>, i: nat)
    requires Repr(w, lo, bs, false) && i < |bs|
    ensures WellFormed(bs)
    ensures var o := lo + Total(bs[..i]);
      && o >= lo && Rounded(o - lo)
      && o + bs[i].size <= lo + Total(bs)
      && (o + bs[i].size == lo + Total(bs) <==> i == |bs| - 1)
      && lo + Total(bs[..i + 1]) == o + bs[i].size
      && At(w, o) == Tag(bs[i].size, bs[i].alloc, i > 0 && !bs[i - 1].alloc)
      && At(w, o + bs[i].size - HDR_SZ) == Tag(bs[i].size, bs[i].alloc, false)
  {
    hide Repr, Tag, Total, SizesOk, SizeOk, Rounded;
    ReprWellFormed(w, lo, bs, false);
    Position(bs, lo, i);
    Behind(bs, i);
    ReprAppend(w, lo, bs[..i], bs[i..], false);
    ReprFirst(w, lo + Total(bs[..i]), bs[i..], LastFree(bs[..i], false));
  }

  /** Cutting a list in front of and behind block `i`. */
  lemma Cut(bs: seq<Block>, i: nat)
    requires i < |bs|
    ensures Total(bs[..i + 1]) == Total(bs[..i]) + bs[i].size
    ensures Total(bs) == Total(bs[..i]) + bs[i].size + Total(bs[i + 1..])
  {
    Short([bs[i]], 0);
    hide *;
    OneMore(bs, i);
    TotalAppend(bs[..i], [bs[i]]);
    Behind(bs, i + 1);
    TotalAppend(bs[..i + 1], bs[i + 1..]);
  }

  lemma OneMore(bs: seq<Block>, i: nat)
    requires i < |bs|
    ensures bs[..i + 1] == bs[..i] + [bs[i]]
  {
  }

  lemma Behind(bs: seq<Block>, i: nat)
    requires i <= |bs|
    ensures bs == bs[..i] + bs[i..]
    ensures i < |bs| ==> bs[i..] != [] && bs[i..][0] == bs[i]
  {
  }

  lemma CutSizes(bs: seq<Block>, i: nat)
    requires i < |bs|
    ensures SizesOk(bs) ==> SizesOk(bs[..i]) && SizesOk(bs[i + 1..]) && SizeOk(bs[i])
  {
    hide SizeOk;
  }

  lemma ReprFirst(w: Words, lo: int, bs: seq<Block>, pf: bool)
    requires Repr(w, lo, bs, pf) && bs != []
    ensures At(w, lo) == Tag(bs[0].size, bs[0].alloc, pf)
    ensures At(w, lo + bs[0].size - HDR_SZ) == Tag(bs[0].size, bs[0].alloc, false)
  {
  }
}
