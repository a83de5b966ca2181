/** src/heap.c in its own form: globals, headers and footers written into one byte memory shared
    with the payloads, and the walk over them. NULL is 0. */
module Heap {
  import opened BlockList
  import opened BoundaryTags
  import opened Tiling
  import opened TagRefinement
  import opened Frames
  import opened Scars
  import opened Bytes
  import opened Str
  import opened KernelModel
  import opened Machine
  import opened HeapFacts
  import Bits

  const NULL := 0

  class Allocator {
    const mem: array<byte>
    const kernel: Kernel
    /** false: the code as written; true: with the tag updates its comments call for */
    const repaired: bool
    var heapLo: nat
    var heapHi: nat
    var heapOk: bool
    ghost var blocks: seq<Block>

    ghost function Tags(): Words
      reads mem
    {
      View(mem[..])
    }

    constructor (mem: array<byte>, kernel: Kernel, repaired: bool)
      ensures this.mem == mem && this.kernel == kernel && this.repaired == repaired
      ensures heapLo == NULL && heapHi == NULL && !heapOk && blocks == []
    {
      this.mem, this.kernel, this.repaired := mem, kernel, repaired;
      heapLo, heapHi, heapOk := NULL, NULL, false;
      blocks := [];
    }

    // -------------------------------------------------------------- brk heap

    ghost predicate Bounded()
      reads this
    {
      && Aligned(mem.Length) && mem.Length <= ADDRESS_LIMIT
      && Rounded(heapLo) && Rounded(heapHi) && heapLo <= heapHi
    }

    ghost predicate Laid()
      reads this, mem
    {
      Bounded() && (heapLo < heapHi ==> heapHi <= mem.Length) && Represents(Tags(), heapLo, heapHi, blocks)
    }

    /** The tags tile the heap into `blocks`: every size is right, flags need not be. This much holds even
        after an unsafe allocation, and it is all that releasing a block relies on. */
    ghost predicate TiledBy(fs: seq<Flags>)
      reads this, mem
    {
      && Bounded() && (heapLo < heapHi ==> heapHi <= mem.Length)
      && WellFormed(blocks) && heapLo + Total(blocks) == heapHi && Tiles(Tags(), heapLo, blocks, fs)
    }

    lemma TiledFacts(fs: seq<Flags>)
      requires TiledBy(fs)
      ensures WellFormed(blocks) && heapLo + Total(blocks) == heapHi && Tiles(Tags(), heapLo, blocks, fs)
      ensures Aligned(mem.Length) && Rounded(heapLo) && (heapLo < heapHi ==> heapHi <= mem.Length)
    {
    }

    lemma LaidIsTiled()
      requires Laid()
      ensures TiledBy(Documented(blocks))
    {
      hide Repr, View, Total, Rounded, Aligned, Tiles;
      ReprTiles(Tags(), heapLo, blocks);
      ReprWellFormed(Tags(), heapLo, blocks, false);
    }

    /** Some block in use, not at one of the addresses `hs`, has a wrong flag in its header or behind it. */
    ghost predicate Scarred(hs: set<int>)
      reads this, mem
    {
      ScarApart(Tags(), heapLo, blocks, hs)
    }

    /** The header behind a block that became free gets PREV_FREE. */
    method MarkNext(next: nat)
      requires Bounded() && heapHi <= mem.Length && Aligned(next)
      modifies mem
      ensures Tags() == if next < heapHi
        then old(Tags())[next := MarkPrevFree(repaired, At(old(Tags()), next))] else old(Tags())
    {
      hide MarkPrevFree, View, Patched, Aligned, Rounded;
      RoundedAligned(heapHi);
      if next < heapHi {
        WholeWord(next, heapHi);
        var nh := LoadWord(mem, next);
        MarkBound(repaired, nh);
        StoreWord(mem, next, MarkPrevFree(repaired, nh));
      }
    }

    /** Header and footer of a block of `size` bytes at `o` are written. */
    method StoreTags(o: nat, size: nat, header: nat, footer: nat)
      requires Aligned(o) && Rounded(size) && size >= MIN_BLOCK && o + size <= mem.Length
      requires header < WORD && footer < WORD
      modifies mem
      ensures Tags() == old(Tags())[o := header][o + size - HDR_SZ := footer]
    {
      hide View, Patched, Aligned, Rounded;
      Alignment(o, size);
      StoreWord(mem, o, header);
      StoreWord(mem, o + size - HDR_SZ, footer);
    }

    /** The last part of `merge`: boundary tags of the joined block, and the mark behind it. */
    method WriteBoundaries(start: nat, total: nat, pf: bool)
      requires Bounded() && heapHi <= mem.Length
      requires Aligned(start) && Rounded(total) && total >= MIN_BLOCK && start + total <= heapHi
      modifies mem
      ensures Tags() == Boundaries(old(Tags()), heapHi, start, total, pf, repaired)
    {
      hide GetSize, IsAlloc, PrevFreeBit, MarkPrevFree, View, Patched, Aligned, Rounded;
      Alignment(start, total);
      RoundedAligned(heapHi);
      StoreTags(start, total, Tag(total, false, pf), total);
      var after := start + total;
      MarkNext(after);
    }

    method Merge(blk: nat, ghost s: nat, ghost back: nat, ghost front: nat, ghost pf: bool) returns (start: nat)
      requires Bounded() && heapHi <= mem.Length
      requires MergeReady(Tags(), heapHi, blk, s, back, front, pf)
      requires Aligned(blk) && back <= blk && blk + s + front <= heapHi
      modifies mem
      ensures var m := BoundaryTags.Merge(old(Tags()), heapHi, blk, repaired);
        Tags() == m.words && start == m.start == blk - back
    {
      hide GetSize, IsAlloc, PrevFreeBit, MarkPrevFree, View, BoundaryTags.Merge, Boundaries, Aligned, Rounded;
      MergeShape(Tags(), heapHi, blk, s, back, front, pf, repaired);
      TagParts(s, false, back != 0);
      TagParts(back, false, false);
      TagParts(back, false, pf);
      Alignment(blk, s);
      Alignment(blk, back);
      RoundedAligned(heapHi);
      var hdrv := LoadWord(mem, blk);
      var blksz := GetSize(hdrv);
      var pfree := PrevFreeBit(hdrv);
      start := blk;
      var total := blksz;
      if pfree != 0 {
        var prevFtr := LoadWord(mem, blk - HDR_SZ);
        var prevSz := GetSize(prevFtr);
        start := blk - prevSz;
        total := total + prevSz;
      }
      var next := blk + blksz;
      if next < heapHi {
        WholeWord(next, heapHi);
        var nh := LoadWord(mem, next);
        if !IsAlloc(nh) {
          total := total + GetSize(nh);
        }
      }
      assert total == back + s + front;
      if total != blksz {
        var origPfree := pfree;
        if start != blk {
          var sh := LoadWord(mem, start);
          origPfree := PrevFreeBit(sh);
        }
        assert origPfree == if pf then FLAG_PREV_FREE else 0;
        RoundedSum(back, s);
        RoundedSum(back + s, front);
        WriteBoundaries(start, total, origPfree != 0);
      }
    }

    /** The first part of `brk_release`: the block's own tags and the mark behind it. */
    method MarkFree(hdr: nat, ghost s: nat, ghost own: bool, ghost pf: bool)
      requires Bounded() && heapHi <= mem.Length
      requires Aligned(hdr) && Rounded(s) && s >= MIN_BLOCK && hdr + s <= heapHi
      requires At(Tags(), hdr) == Tag(s, own, pf)
      modifies mem
      ensures Tags() == Unmarked(old(Tags()), heapHi, hdr, s, pf, repaired)
    {
      hide GetSize, IsAlloc, PrevFreeBit, MarkPrevFree, View, Patched, Aligned, Rounded;
      TagParts(s, own, pf);
      RoundedAligned(heapHi);
      Alignment(hdr, s);
      var hdrv := LoadWord(mem, hdr);
      var blksz := GetSize(hdrv);
      var pfree := PrevFreeBit(hdrv);
      StoreTags(hdr, blksz, blksz + pfree, blksz);
      var next := hdr + blksz;
      MarkNext(next);
    }

    /** `brk_release`: the block becomes free and joins its free neighbours. As written this keeps a
        documented heap documented exactly when nothing above the block is in use. */
    method BrkRelease(ptr: nat, ghost i: nat, ghost fs: seq<Flags>)
      requires TiledBy(fs) && i < |blocks| && blocks[i].alloc
      requires ptr == heapLo + Total(blocks[..i]) + HDR_SZ
      modifies mem, this`blocks
      ensures Tags() == Release(old(Tags()), heapHi, ptr - HDR_SZ, repaired)
      ensures blocks == Freed(old(blocks), i)
      ensures old(Laid()) ==> (Laid() <==> repaired || NoLiveAbove(old(blocks), i))
      ensures !repaired && old(Scarred({ptr - HDR_SZ})) ==> !Laid()
    {
      hide GetSize, IsAlloc, PrevFreeBit, MarkPrevFree, View, Aligned, Rounded, Repr, Total, Release,
        BoundaryTags.Merge, Unmarked, TileOf, WellFormed, ScarApart;
      ghost var w, bs, r := Tags(), blocks, AroundOf(blocks, fs, i);
      var hdr := ptr - HDR_SZ;
      ReleaseAround(w, heapLo, heapHi, bs, fs, i);
      ReleaseMerges(w, heapHi, hdr, r, repaired);
      RoundedSum(heapLo, hdr - heapLo);
      RoundedAligned(hdr);
      MarkFree(hdr, r.size, r.alloc, r.back != 0);
      var start := Merge(hdr, r.size, r.back, FrontOf(heapHi, hdr + r.size, r.next, repaired), r.backFlag);
      blocks := Freed(bs, i);
      if old(Laid()) {
        ReleaseOutcome(w, heapLo, heapHi, bs, i, repaired);
      }
      StillScarred(w, heapLo, heapHi, bs, fs, i, repaired);
    }

    /** Marks the whole block at `cur` as allocated. */
    method TakeWholeAt(cur: nat, ghost b: Block, ghost pf: bool)
      requires Bounded() && heapHi <= mem.Length && SizeOk(b)
      requires At(Tags(), cur) == Tag(b.size, b.alloc, pf)
      requires Aligned(cur) && cur + b.size <= heapHi
      modifies mem
      ensures Tags() == TakeWhole(old(Tags()), heapHi, cur)
    {
      hide GetSize, IsAlloc, PrevFreeBit, ClearPrevFree, View, Patched, Aligned, Rounded;
      TagParts(b.size, b.alloc, pf);
      Alignment(cur, b.size);
      RoundedAligned(heapHi);
      var hdrv := LoadWord(mem, cur);
      var blksz := GetSize(hdrv);
      StoreTags(cur, blksz, blksz + FLAG_ALLOC + PrevFreeBit(hdrv), blksz + FLAG_ALLOC);
      var after := cur + blksz;
      if after < heapHi {
        WholeWord(after, heapHi);
        var nh := LoadWord(mem, after);
        MarkBound(repaired, nh);
        StoreWord(mem, after, ClearPrevFree(nh));
      }
    }

    /** Takes `need` bytes from the front of the free block at `cur` and leaves the rest free. */
    method TakeSplitAt(cur: nat, need: nat, ghost b: Block, ghost pf: bool)
      requires Bounded() && heapHi <= mem.Length && SizeOk(b)
      requires At(Tags(), cur) == Tag(b.size, false, pf) && !b.alloc
      requires Rounded(need) && MIN_BLOCK <= need && Splits(b, need)
      requires Aligned(cur) && cur + b.size <= heapHi
      requires GetSize(At(Tags(), cur)) == b.size
      modifies mem
      ensures Tags() == TakeSplit(old(Tags()), heapHi, cur, need, repaired)
    {
      hide GetSize, IsAlloc, PrevFreeBit, MarkPrevFree, View, Patched, Aligned, Rounded;
      TagParts(b.size, false, pf);
      Alignment(cur, need);
      Alignment(cur, b.size);
      RoundedDiff(b.size, need);
      RoundedAligned(heapHi);
      var hdrv := LoadWord(mem, cur);
      var rem := GetSize(hdrv) - need;
      StoreTags(cur, need, need + FLAG_ALLOC + PrevFreeBit(hdrv), need + FLAG_ALLOC);
      var next := cur + need;
      StoreTags(next, rem, if repaired then rem else rem + FLAG_PREV_FREE, rem);
      var after := next + rem;
      MarkNext(after);
    }

    /** The fitting block is split when the rest can be a block of its own. */
    method TakeAt(cur: nat, need: nat, ghost b: Block, ghost pf: bool)
      requires Bounded() && heapHi <= mem.Length && SizeOk(b) && !b.alloc
      requires At(Tags(), cur) == Tag(b.size, false, pf) && GetSize(At(Tags(), cur)) == b.size
      requires Rounded(need) && MIN_BLOCK <= need <= b.size
      requires Aligned(cur) && cur + b.size <= heapHi
      modifies mem
      ensures Tags() == Take(old(Tags()), heapHi, cur, need, repaired)
      ensures TakenTags(Tags(), cur, need, b.size, pf, repaired)
    {
      hide GetSize, IsAlloc, PrevFreeBit, View, Aligned, Rounded, TakeWhole, TakeSplit, Tag, SizeOk, TakenTags;
      TakeNumbers(Tags(), heapHi, cur, need, b, pf, repaired);
      WholeWord(cur, heapHi) by { RoundedAligned(heapHi); }
      RoundedAligned(heapHi);
      var hdrv := LoadWord(mem, cur);
      if GetSize(hdrv) - need >= OVERHEAD + ALIGN {
        TakeSplitAt(cur, need, b, pf);
      } else {
        TakeWholeAt(cur, b, pf);
      }
    }

    // -------------------------------------------------------------- growth

    /** How the heap sits in the kernel's address space. */
    ghost predicate Placed()
      reads this, kernel
    {
      && kernel.Valid() && kernel.limit == mem.Length
      && kernel.start <= heapLo && kernel.brk <= heapHi
      && (heapLo < heapHi ==> kernel.brk == heapHi)
    }

    method BrkGrow(minSz: nat) returns (block: nat)
      requires Laid() && Placed() && minSz >= MIN_BLOCK
      modifies mem, this`heapHi, kernel`brk, kernel`calls
      ensures kernel.calls == old(kernel.calls) + [BrkCall(old(heapHi) + PageUp(minSz), kernel.brk)]
      ensures block == NULL <==> kernel.brk != old(heapHi) + PageUp(minSz)
      ensures block != NULL ==>
        (heapHi - old(heapHi)) % 4096 == 0 && minSz <= heapHi - old(heapHi) < minSz + 4096
      ensures Bounded() && Placed()
      ensures block == NULL ==> heapHi == old(heapHi) && mem[..] == old(mem[..])
      ensures block != NULL ==>
        var m := Grow(old(Tags()), heapLo, old(heapHi), PageUp(minSz), repaired);
        && heapHi == old(heapHi) + PageUp(minSz) <= mem.Length
        && Tags() == m.words && block == m.start
    {
      hide GetSize, IsAlloc, PrevFreeBit, MarkPrevFree, View, Patched, Aligned, Rounded, Repr, Total, Grow,
        BoundaryTags.Merge, PageUp;
      ghost var w, bs := Tags(), blocks;
      PageUpBounds(minSz);
      var sz := PageUp(minSz);
      GrowMerges(w, heapLo, heapHi, bs, sz, repaired);
      var newBrk := heapHi + sz;
      var got := kernel.Brk(newBrk);
      if got != newBrk {
        return NULL;
      }
      RoundedAligned(heapHi);
      Alignment(heapHi, sz);
      RoundedSum(heapHi, sz);
      var prevFlag := 0;
      if heapHi > heapLo {
        WholeWord(heapLo, heapHi) by { RoundedAligned(heapLo); }
        var lastFtr := LoadWord(mem, heapHi - HDR_SZ);
        if !IsAlloc(lastFtr) {
          prevFlag := FLAG_PREV_FREE;
        }
      }
      StoreTags(heapHi, sz, sz + prevFlag, sz);
      assert Tags() == Appended(w, heapHi, sz, LastFree(bs, false));
      block := heapHi;
      heapHi := newBrk;
      var start := Merge(block, sz, TailSize(bs), 0, false);
      if repaired {
        block := start;
      }
    }

    /** The walk of `brk_alloc`: the first block that fits, if there is one. The zero-size test never
        ends it. */
    method FindFit(need: nat) returns (found: bool, cur: nat, ghost k: nat)
      requires Laid() && Rounded(need) && need >= MIN_BLOCK
      ensures Find(Tags(), heapLo, heapHi, need) == if found then Fits(cur) else RanOff
      ensures k == FirstFit(blocks, need) <= |blocks| && (found <==> k < |blocks|)
      ensures found ==> cur == heapLo + Total(blocks[..k])
    {
      hide GetSize, IsAlloc, View, Aligned, Rounded, Repr, Total;
      ghost var w, bs := Tags(), blocks;
      FindRefines(w, heapLo, heapHi, bs, false, need);
      FirstFitIsFirst(bs, need);
      k := 0;
      cur := heapLo;
      AtStart(bs);
      while cur < heapHi
        invariant k <= |bs| && cur == heapLo + Total(bs[..k])
        invariant FirstFit(bs, need) == k + FirstFit(bs[k..], need)
      {
        WalkStep(w, heapLo, bs, k);
        RoundedSum(heapLo, cur - heapLo);
        RoundedAligned(cur);
        RoundedAligned(heapHi);
        WholeWord(cur, heapHi);
        var hdrv := LoadWord(mem, cur);
        var blksz := GetSize(hdrv);
        if blksz == 0 {
          break;
        }
        if !IsAlloc(hdrv) && blksz >= need {
          return true, cur, k;
        }
        cur := cur + blksz;
        k := k + 1;
      }
      AtEnd(w, heapLo, bs, k);
      found := false;
    }

    /** What a look at the tags tells about a request before it is made: whether the code as written would
        serve it safely, and then where. */
    method Foresee(need: nat) returns (safe: bool, at: nat)
      requires Laid() && Rounded(need) && need >= MIN_BLOCK
      ensures safe <==> AllocSafe(blocks, need, true)
      ensures safe ==> AllocAddr(blocks, heapLo, need, true) == Found(at)
    {
      hide GetSize, IsAlloc, View, Aligned, Rounded, Repr, Total, Tag, Find, FirstFit;
      var found, cur;
      ghost var k;
      found, cur, k := FindFit(need);
      RoundedAligned(heapHi);
      if found {
        FitsHere(Tags(), heapLo, heapHi, blocks, need);
        WholeWord(cur, heapHi);
        var hdrv := LoadWord(mem, cur);
        safe, at := GetSize(hdrv) - need < MIN_BLOCK, cur;
      } else {
        LastFooter(Tags(), heapLo, heapHi, blocks);
        if !LastFree(blocks, false) { NotFitting(blocks, heapLo, need); }
        safe, at := true, heapHi;
        if heapLo < heapHi {
          WholeWord(heapLo, heapHi) by { RoundedAligned(heapLo); }
          Before(heapHi);
          var ftr := LoadWord(mem, heapHi - HDR_SZ);
          safe := IsAlloc(ftr);
        }
      }
    }

    /** `brk_alloc`: first fit over the implicit list, else growth. As written this keeps the
        documented heap exactly where AllocSafe says so. */
    method BrkAlloc(need: nat) returns (p: nat, ghost granted: bool)
      requires Laid() && Placed() && Rounded(need) && need >= MIN_BLOCK
      modifies mem, this`blocks, this`heapHi, kernel`brk, kernel`calls
      // what the kernel is asked, and what its answer decides
      ensures FirstFit(old(blocks), need) <= |old(blocks)|
      ensures FirstFit(old(blocks), need) < |old(blocks)| ==>
        && kernel.calls == old(kernel.calls) && kernel.brk == old(kernel.brk)
        && TakenFrom(old(blocks), FirstFit(old(blocks), need), need, blocks)
      ensures FirstFit(old(blocks), need) == |old(blocks)| ==>
        kernel.calls == old(kernel.calls) + [BrkCall(old(heapHi) + PageUp(need), kernel.brk)]
      ensures p == NULL <==>
        FirstFit(old(blocks), need) == |old(blocks)| && kernel.brk != old(heapHi) + PageUp(need)
      ensures Bounded() && Placed()
      ensures var r := Allocate(old(Tags()), heapLo, old(heapHi), need, granted, repaired);
        && Tags() == r.words && heapHi == r.hi
        && p == (match r.result case Found(h) => h + HDR_SZ case NotFound => NULL)
      ensures blocks == AllocList(old(blocks), need, granted)
      ensures Laid() <==> repaired || AllocSafe(old(blocks), need, granted)
      ensures p == NULL ==> mem[..] == old(mem[..]) && heapHi == old(heapHi)
      ensures p != NULL ==> Rounded(p - HDR_SZ)
    {
      hide GetSize, IsAlloc, PrevFreeBit, MarkPrevFree, ClearPrevFree, View, Aligned, Rounded, Repr, Total, Grow,
        TakeWhole, Take, PageUp, TakeFit, Extend, Tag, FirstFit, Find;
      ghost var w, bs, hi := Tags(), blocks, heapHi;
      var found, cur;
      ghost var k;
      found, cur, k := FindFit(need);
      if found {
        granted := false;
        FitsHere(w, heapLo, hi, bs, need);
        TakeFitNumbers(bs, k, need);
        TakeAt(cur, need, bs[k], k > 0 && !bs[k - 1].alloc);
        blocks := AllocList(bs, need, granted);
        AllocOutcome(w, heapLo, hi, bs, need, granted, repaired);
        return cur + HDR_SZ, granted;
      }
      var block := BrkGrow(need);
      granted := block != NULL;
      AllocOutcome(w, heapLo, hi, bs, need, granted, repaired);
      if block == NULL {
        return NULL, granted;
      }
      Grown(w, heapLo, hi, bs, need, repaired);
      ghost var b, pf :=
        Block(if repaired then heapHi - block else PageUp(need), false), !repaired && LastFree(bs, false);
      TakeWholeAt(block, b, pf);
      blocks := AllocList(bs, need, granted);
      p := block + HDR_SZ;
    }

    // -------------------------------------------------------------- the whole allocator

    /** Where the heap lies in memory, clear of the mappings. */
    ghost predicate Seated()
      reads this, kernel
    {
      && kernel.Valid() && kernel.limit == mem.Length
      && (if heapOk then Placed() else heapLo == NULL && heapHi == NULL)
    }

    /** The heap lies inside the break, and every mapping starts with its own length, marked allocated. */
    ghost predicate Embedded()
      reads this, mem, kernel
    {
      Seated() && MapsTagged(Tags(), kernel.maps)
    }

    /** The brk heap is laid out as documented, and embedded. */
    ghost predicate Valid()
      reads this, mem, kernel
    {
      Laid() && Embedded()
    }

    /** The brk heap is tiled, and embedded: what even an unsafe call leaves standing. */
    ghost predicate Tiled()
      reads this, mem, kernel
    {
      Embedded() && exists fs :: TiledBy(fs)
    }

    lemma ValidIsTiled()
      requires Valid()
      ensures Tiled()
    {
      hide Laid, Embedded, TiledBy;
      LaidIsTiled();
    }

    /** Where the heap starts, or will start once it is set up. */
    ghost function Origin(): nat
      reads this, kernel
    {
      if heapOk then heapLo else Bits.AlignUp(kernel.brk, ALIGN)
    }

    /** Where the heap ends, or will start once it is set up. */
    ghost function Top(): nat
      reads this, kernel
    {
      if heapOk then heapHi else Origin()
    }

    /** Header address -> end of payload, for everything handed out and not yet freed. */
    ghost function Payloads(): map<int, int>
      reads this, kernel
    {
      PayloadsOf(LiveMap(blocks, heapLo), kernel.maps)
    }

    method HeapInit()
      requires Valid() && !heapOk
      modifies this, kernel`brk, kernel`calls
      ensures kernel.calls == old(kernel.calls) + SetupCalls(old(kernel.brk), kernel.brk)
      ensures Valid() && heapOk && blocks == [] && old(blocks) == []
      ensures heapLo % 16 == 0 && 0 <= heapLo - old(kernel.brk) < 16
      ensures heapLo == heapHi == Bits.AlignUp(old(kernel.brk), ALIGN) == old(Origin())
    {
      hide Repr, View, Rounded, Aligned, Total, Bits.AlignUp;
      NothingLaid(Tags(), heapLo, blocks);
      var cur := kernel.Brk(NULL);
      var al := Bits.AlignUp(cur, ALIGN);
      AlignBreak(cur);
      if al != cur {
        var ignored := kernel.Brk(al);
      }
      heapLo := al;
      heapHi := heapLo;
      heapOk := true;
      blocks := [];
      NothingRepr(Tags(), heapLo);
    }

    /** `toylibc_malloc`. Whatever happens to the tags, no live byte is written and what is handed out
        overlaps nothing. With the repairs the allocator always stays valid; as written, exactly when the
        request is not served from the brk heap or is served safely. */
    method Malloc(sz: nat) returns (p: nat)
      requires Valid() && sz <= Bits.MAX_REQUEST
      modifies mem, this, kernel
      // what the kernel is asked, and what its answer decides
      ensures Asked(old(kernel.calls), kernel.calls, old(heapOk), old(kernel.brk), old(Top()), old(blocks), sz)
      ensures p == NULL <==> sz == 0 || Refused(kernel.calls, old(Top()), old(blocks), sz)
      ensures 0 < sz < 131072 && FirstFit(old(blocks), Need(sz)) < |old(blocks)| ==>
        TakenFrom(old(blocks), FirstFit(old(blocks), Need(sz)), Need(sz), blocks)
      ensures kernel.maps == if p != NULL && sz >= MMAP_LIMIT
        then old(kernel.maps)[p - HDR_SZ := Bits.MmapTotal(sz)] else old(kernel.maps)
      ensures blocks == BlocksServed(old(blocks), sz, p != NULL)
      ensures sz == 0 ==> p == NULL
      ensures p == NULL ==> Valid() && Payloads() == old(Payloads()) && blocks == old(blocks)
      ensures Valid() <==> repaired || sz == 0 || sz >= MMAP_LIMIT || AllocSafe(old(blocks), Need(sz), p != NULL)
      ensures Tiled()
      ensures p != NULL ==> Lent(old(Payloads()), Payloads(), p, sz) && Rounded(p - HDR_SZ)
      ensures p != NULL && sz >= MMAP_LIMIT ==> HeaderOnly(old(mem[..]), mem[..], p)
      ensures Valid() && p != NULL ==> Handed(old(Payloads()), Payloads(), p, sz)
      ensures Kept(old(mem[..]), mem[..], old(Payloads()))
      ensures Origin() == old(Origin()) && (old(heapOk) ==> heapOk && heapLo == old(heapLo))
      ensures !Valid() ==> Scarred(LiveMap(old(blocks), heapLo).Keys)
    {
      hide Repr, View, Rounded, Aligned, Total, LiveMap, AllocList, AllocSafe, PayloadsOf, Handed, Lent, Need,
        Bits.MmapTotal, Bits.AlignUp, Embedded, Placed, Laid, TiledBy, ScarApart, HeaderOnly, Asked, Refused,
        TakenFrom, PageUp, FirstFit, SetupCalls;
      if sz == 0 {
        NothingAsked(kernel.calls, heapOk, kernel.brk, Top(), blocks);
        ValidIsTiled();
        return NULL;
      }
      if sz >= MMAP_LIMIT {
        p := MallocLarge(sz);
        LargeAsked(old(kernel.calls), kernel.calls, heapOk, old(kernel.brk), Top(), blocks, sz,
                   if p == NULL then -1 else p - HDR_SZ);
        ValidIsTiled();
        if p != NULL { HandedLent(old(Payloads()), Payloads(), p, sz); }
        return;
      }
      ghost var top, first, asked := Top(), kernel.brk, kernel.calls;
      if !heapOk {
        HeapInit();
        first, asked := kernel.brk, kernel.calls;
        Short([], old(heapLo));
        Short([], heapLo);
      }
      assert heapHi == top;
      assert Payloads() == old(Payloads()) && blocks == old(blocks) && mem[..] == old(mem[..]);
      var need := OVERHEAD + Bits.AlignUp(sz, ALIGN);
      NeedIsMacro(sz);
      NeedBounds(sz);
      p := MallocSmall(need);
      SmallAsked(old(kernel.calls), asked, kernel.calls, old(heapOk), old(kernel.brk), top, old(blocks), sz, first,
                 kernel.brk);
      if p != NULL { LentMore(old(Payloads()), Payloads(), p, need - OVERHEAD, sz); }
      HandedMore(old(Payloads()), Payloads(), p, need - OVERHEAD, sz);
    }

    method MallocLarge(sz: nat) returns (p: nat)
      requires Valid() && MMAP_LIMIT <= sz <= Bits.MAX_REQUEST
      modifies mem, kernel
      ensures kernel.calls ==
        old(kernel.calls) + [MmapCall(Bits.MmapTotal(sz), if p == NULL then -1 else p - HDR_SZ)]
      ensures p != NULL ==> p > HDR_SZ
      ensures kernel.maps == if p != NULL then old(kernel.maps)[p - HDR_SZ := Bits.MmapTotal(sz)] else old(kernel.maps)
      ensures p == NULL ==> Payloads() == old(Payloads())
      ensures Valid()
      ensures p != NULL ==> Handed(old(Payloads()), Payloads(), p, sz) && Rounded(p - HDR_SZ)
      ensures p != NULL ==> HeaderOnly(old(mem[..]), mem[..], p)
      ensures kernel.brk == old(kernel.brk)
      ensures Kept(old(mem[..]), mem[..], old(Payloads()))
    {
      hide Represents, View, Rounded, Aligned, Total, LiveMap, Patched, PayloadsOf, Handed, PageUp, Bits.MmapTotal,
        MapsTagged, HeaderOnly, Kept, Seated, Kernel.Valid;
      SeatedKernel();
      MapsFound();
      ghost var s, maps := mem[..], kernel.maps;
      var total := Bits.MmapTotal(sz);
      Bits.MmapTotalExact(sz);
      PageUpBounds(sz + HDR_SZ);
      var m := kernel.Mmap(total);
      StillSeated();
      MapsFound();
      if m == -1 {
        KeptSame(s, Payloads());
        return NULL;
      }
      assert m in kernel.maps && kernel.maps[m] == total;
      RoundedPage(m);
      RoundedAligned(m);
      RoundedAligned(total);
      StoreWord(mem, m, total + FLAG_ALLOC);
      p := m + HDR_SZ;
      forall a | a in maps
        ensures a + maps[a] <= m || m + total <= a
      {
        assert a in kernel.maps && kernel.maps[a] == maps[a];
      }
      LargeOutcome(s, mem[..], heapLo, heapHi, blocks, maps, m, total);
      HeaderWritten(s, m, total + FLAG_ALLOC);
      HandedMore(old(Payloads()), Payloads(), p, total - HDR_SZ, sz);
    }

    lemma SeatedKernel()
      requires Seated()
      ensures kernel.Valid() && kernel.limit == mem.Length
    {
      hide Kernel.Valid;
    }

    /** Mappings come and go without moving the heap. */
    twostate lemma StillSeated()
      requires old(Seated()) && kernel.Valid() && unchanged(this) && kernel.brk == old(kernel.brk)
      ensures Seated()
    {
      hide Kernel.Valid, Rounded;
    }

    lemma MapsClear()
      requires Placed()
      ensures Clear(kernel.maps, heapLo, heapHi)
    {
    }

    method MallocSmall(need: nat) returns (p: nat)
      requires Valid() && heapOk && Rounded(need) && need >= MIN_BLOCK
      modifies mem, this`blocks, this`heapHi, kernel`brk, kernel`calls
      ensures FirstFit(old(blocks), need) <= |old(blocks)|
      ensures FirstFit(old(blocks), need) < |old(blocks)| ==>
        && kernel.calls == old(kernel.calls)
        && TakenFrom(old(blocks), FirstFit(old(blocks), need), need, blocks)
      ensures FirstFit(old(blocks), need) == |old(blocks)| ==>
        kernel.calls == old(kernel.calls) + [BrkCall(old(heapHi) + PageUp(need), kernel.brk)]
      ensures p == NULL <==>
        FirstFit(old(blocks), need) == |old(blocks)| && kernel.brk != old(heapHi) + PageUp(need)
      ensures blocks == AllocList(old(blocks), need, p != NULL)
      ensures p == NULL ==> Valid() && Payloads() == old(Payloads()) && blocks == old(blocks)
      ensures Valid() <==> repaired || AllocSafe(old(blocks), need, p != NULL)
      ensures Tiled()
      ensures p != NULL ==> Lent(old(Payloads()), Payloads(), p, need - OVERHEAD) && Rounded(p - HDR_SZ)
      ensures Valid() && p != NULL ==> Handed(old(Payloads()), Payloads(), p, need - OVERHEAD)
      ensures Kept(old(mem[..]), mem[..], old(Payloads()))
      ensures !Valid() ==> Scarred(LiveMap(old(blocks), heapLo).Keys)
    {
      hide Represents, View, Rounded, Aligned, Total, LiveMap, Allocate, AllocList, AllocSafe, PayloadsOf, Clear,
        MapsTagged, Handed, Lent, Kept, Tiles, WellFormed, ScarApart;
      ghost var s, lo, hi, bs, maps := mem[..], heapLo, heapHi, blocks, kernel.maps;
      ghost var granted;
      p, granted := BrkAlloc(need);
      MapsClear();
      SmallOutcome(s, mem[..], lo, hi, bs, need, granted, repaired, maps, heapHi);
      ghost var fs := AllocateTiles(View(s), lo, hi, bs, need, granted, repaired);
      assert TiledBy(fs);
      if !(repaired || AllocSafe(bs, need, granted)) {
        AllocateScars(View(s), lo, hi, bs, need, granted);
        ScarFound(View(mem[..]), lo, bs, need, granted);
      }
    }

    /** The last line of `free`: the block of a live pointer goes back to the brk heap. */
    method FreeBlock(ptr: nat)
      requires Tiled() && ptr - HDR_SZ in LiveMap(blocks, heapLo) && ptr - HDR_SZ !in kernel.maps
      modifies mem, this`blocks
      ensures blocks == BlocksFreed(old(blocks), kernel.maps, heapLo, ptr - HDR_SZ)
      ensures Payloads() == old(Payloads()) - {ptr - HDR_SZ}
      ensures old(Valid()) ==> (Valid() <==> repaired || Topmost(LiveMap(old(blocks), heapLo), ptr - HDR_SZ))
      ensures !repaired && old(Scarred({ptr - HDR_SZ})) ==> !Valid()
      ensures Kept(old(mem[..]), mem[..], old(Payloads()))
    {
      hide Represents, View, Rounded, Aligned, Total, LiveMap, PayloadsOf, Release, Freed, Tiles, WellFormed,
        ScarApart, Kept, Topmost, TiledBy, Bounded, Laid, MapsTagged, Clear, BlocksFreed;
      ghost var s, maps, bs := mem[..], kernel.maps, blocks;
      ghost var fs :| TiledBy(fs);
      TiledFacts(fs);
      MapsFound();
      ghost var i := LiveIndex(blocks, heapLo, ptr - HDR_SZ);
      ReleasePayloads(heapLo, blocks, i, maps);
      FreedHere(blocks, maps, heapLo, i);
      BrkRelease(ptr, i, fs);
      ReleaseKept(s, mem[..], heapLo, heapHi, bs, fs, i, repaired, maps);
    }

    /** `toylibc_free` of NULL or of a live pointer, in any tiled heap. A pointer from the mmap path unmaps
        exactly its mapping; every other one goes to the brk heap, whatever its size. Only tags are
        written. A valid allocator stays valid exactly when repaired, or for a mapping, or for the topmost
        block; one that has a scar elsewhere stays invalid as written. */
    method Free(ptr: nat)
      requires Tiled() && (ptr == NULL || ptr - HDR_SZ in Payloads())
      modifies mem, this`blocks, kernel`maps, kernel`calls
      ensures kernel.calls == old(kernel.calls) + if ptr == NULL then [] else FreeCalls(old(kernel.maps), ptr - HDR_SZ)
      ensures kernel.maps == if ptr == NULL then old(kernel.maps) else old(kernel.maps) - {ptr - HDR_SZ}
      ensures ptr == NULL || ptr - HDR_SZ in old(kernel.maps) ==> mem[..] == old(mem[..]) && blocks == old(blocks)
      ensures ptr != NULL ==> blocks == BlocksFreed(old(blocks), old(kernel.maps), heapLo, ptr - HDR_SZ)
      ensures Payloads() == if ptr == NULL then old(Payloads()) else old(Payloads()) - {ptr - HDR_SZ}
      ensures old(Valid()) ==>
        (Valid() <==>
          repaired || ptr == NULL || ptr - HDR_SZ in old(kernel.maps) ||
          Topmost(LiveMap(old(blocks), heapLo), ptr - HDR_SZ))
      ensures ptr == NULL || ptr - HDR_SZ in old(kernel.maps) ==> (Valid() <==> old(Valid()))
      ensures !repaired && ptr != NULL && ptr - HDR_SZ !in old(kernel.maps) && old(Scarred({ptr - HDR_SZ})) ==> !Valid()
      ensures Kept(old(mem[..]), mem[..], old(Payloads()))
    {
      hide Represents, View, Rounded, Aligned, Total, LiveMap, PayloadsOf, GetSize, Tiles, WellFormed,
        Scarred, Kept, Topmost, TiledBy, Bounded, Laid, MapsTagged, Clear, BlocksFreed;
      if ptr == NULL {
        KeptSame(mem[..], Payloads());
        return;
      }
      ghost var s, maps, live := mem[..], kernel.maps, LiveMap(blocks, heapLo);
      ghost var fs :| TiledBy(fs);
      TiledFacts(fs);
      var hdr := ptr - HDR_SZ;
      MapsFound();
      HeaderOf(s, heapLo, heapHi, blocks, maps, hdr);
      var hdrv := LoadWord(mem, hdr);
      var blksz := GetSize(hdrv);
      if blksz >= MMAP_LIMIT && (ptr < heapLo || ptr >= heapHi) {
        kernel.Munmap(hdr, blksz);
        Unmapped(View(s), live, maps, hdr);
        NothingFreed(blocks, maps, heapLo, hdr);
        KeptSame(s, PayloadsOf(live, maps));
        return;
      }
      Without(maps, hdr);
      FreeBlock(ptr);
    }

    /** Where the mappings lie. */
    lemma MapsFound()
      requires Seated()
      ensures Clear(kernel.maps, heapLo, heapHi)
      ensures forall m :: m in kernel.maps ==> m >= 0 && m + kernel.maps[m] <= mem.Length
      ensures forall a, b :: a in kernel.maps && b in kernel.maps && a < b ==> a + kernel.maps[a] <= b
    {
      hide Rounded, Aligned, View;
    }

    lemma PayloadsAreSane()
      requires Tiled()
      ensures Sane(Payloads(), mem.Length)
    {
      hide View, LiveMap, Rounded, Aligned, Total, Tiles, WellFormed;
      MapsFound();
      SaneLayout(heapLo, heapHi, blocks, kernel.maps, mem.Length);
    }

    /** Writing inside one payload changes nothing about the allocator, valid or not. */
    twostate lemma WriteInside(h: int)
      requires old(Tiled()) && h in old(Payloads())
      requires unchanged(this) && unchanged(kernel)
      requires forall k :: 0 <= k < mem.Length && !(h + HDR_SZ <= k < old(Payloads())[h]) ==> mem[k] == old(mem[k])
      ensures Tiled() && Payloads() == old(Payloads())
      ensures Valid() <==> old(Valid())
      ensures forall hs :: old(Scarred(hs)) ==> Scarred(hs)
    {
      hide Repr, View, LiveMap, Rounded, Aligned, PayloadsOf, Total, Tiles, WellFormed, ScarApart, Payload;
      var s, t := old(mem[..]), mem[..];
      MapsFound();
      PayloadWritten(s, t, heapLo, heapHi, blocks, kernel.maps, h);
      Sizes(blocks);
      StillLaid(View(s), View(t), heapLo, blocks);
      var fs :| old(TiledBy(fs));
      assert TiledBy(fs);
    }

    /** `toylibc_calloc`: a product that does not fit 64 bits is refused, otherwise the bytes are all zero.
        It stays valid exactly when the request inside it does. */
    method Calloc(n: nat, sz: nat) returns (p: nat)
      requires Valid() && n < WORD && sz < WORD
      requires Product(n, sz) <= Bits.MAX_REQUEST || Product(n, sz) >= WORD
      modifies mem, this, kernel
      // what the kernel is asked, and what its answer decides
      ensures Asked(old(kernel.calls), kernel.calls, old(heapOk), old(kernel.brk), old(Top()), old(blocks),
                    if Product(n, sz) < WORD then Product(n, sz) else 0)
      ensures p == NULL <==>
        || Product(n, sz) == 0 || Product(n, sz) >= WORD
        || Refused(kernel.calls, old(Top()), old(blocks), Product(n, sz))
      ensures kernel.maps == if p != NULL && Product(n, sz) >= MMAP_LIMIT
        then old(kernel.maps)[p - HDR_SZ := Bits.MmapTotal(Product(n, sz))] else old(kernel.maps)
      ensures blocks == BlocksServed(old(blocks), Product(n, sz), p != NULL) && Origin() == old(Origin())
      ensures Product(n, sz) >= WORD ==> p == NULL
      ensures p == NULL ==> Valid() && Payloads() == old(Payloads()) && blocks == old(blocks)
      ensures Valid() <==>
        || repaired || Product(n, sz) == 0 || Product(n, sz) >= MMAP_LIMIT
        || AllocSafe(old(blocks), Need(Product(n, sz)), p != NULL)
      ensures Tiled()
      ensures p != NULL ==> Lent(old(Payloads()), Payloads(), p, Product(n, sz)) && Rounded(p - HDR_SZ)
      ensures Valid() && p != NULL ==> Handed(old(Payloads()), Payloads(), p, Product(n, sz))
      ensures p != NULL ==> Zeros(mem[..], p, Product(n, sz))
      ensures Kept(old(mem[..]), mem[..], old(Payloads()))
    {
      hide Repr, View, LiveMap, Rounded, Aligned, PayloadsOf, Need, AllocList, AllocSafe, Product, Valid, Tiled, Kept,
        Lent, Handed, Zeros, Bits.MmapTotal, Asked, Refused, Top;
      OverflowTest(n, sz);
      var total := Product(n, sz) % WORD;
      if n != 0 && total / n != sz {
        NothingAsked(kernel.calls, heapOk, kernel.brk, Top(), blocks);
        ValidIsTiled();
        KeptSame(mem[..], Payloads());
        return NULL;
      }
      assert total == Product(n, sz);
      p := CallocTotal(total);
    }

    /** The part of `calloc` behind the overflow test. */
    method CallocTotal(total: nat) returns (p: nat)
      requires Valid() && total <= Bits.MAX_REQUEST
      modifies mem, this, kernel
      ensures Asked(old(kernel.calls), kernel.calls, old(heapOk), old(kernel.brk), old(Top()), old(blocks), total)
      ensures p == NULL <==> total == 0 || Refused(kernel.calls, old(Top()), old(blocks), total)
      ensures kernel.maps == if p != NULL && total >= MMAP_LIMIT
        then old(kernel.maps)[p - HDR_SZ := Bits.MmapTotal(total)] else old(kernel.maps)
      ensures blocks == BlocksServed(old(blocks), total, p != NULL) && Origin() == old(Origin())
      ensures p == NULL ==> Valid() && Payloads() == old(Payloads()) && blocks == old(blocks)
      ensures Valid() <==>
        repaired || total == 0 || total >= MMAP_LIMIT || AllocSafe(old(blocks), Need(total), p != NULL)
      ensures Tiled()
      ensures p != NULL ==> Lent(old(Payloads()), Payloads(), p, total) && Rounded(p - HDR_SZ)
      ensures Valid() && p != NULL ==> Handed(old(Payloads()), Payloads(), p, total)
      ensures p != NULL ==> Zeros(mem[..], p, total)
      ensures Kept(old(mem[..]), mem[..], old(Payloads()))
    {
      hide Repr, View, LiveMap, Rounded, Aligned, PayloadsOf, Need, AllocList, AllocSafe, Valid, Tiled, Kept, Handed,
        Sane, Scarred, Bits.MmapTotal, Payloads, Lent, LentIn, Filled, Painted, Zeros, Asked, Refused, TakenFrom, Top;
      p := Malloc(total);
      if p == NULL {
        return NULL;
      }
      PayloadsAreSane();
      ghost var s, p1 := mem[..], Payloads();
      ghost var g := LentWhere(old(Payloads()), p1, p, total);
      LentBounds(old(Payloads()), p1, g, p, total, mem.Length);
      label before:
      Memset(mem, p, 0, total);
      FilledInside(s, p, total);
      WriteInside@before(g);
      KeptApart(old(mem[..]), s, mem[..], old(Payloads()), p1, g, mem.Length);
    }

    /** The bytes `realloc` takes a live block to hold: its size less 16, also for a mapping, which
        really holds 8 more. */
    ghost function Usable(ptr: nat): int
      requires ptr - HDR_SZ in Payloads()
      reads this, kernel
    {
      if ptr - HDR_SZ in kernel.maps then Payloads()[ptr - HDR_SZ] - ptr - HDR_SZ else Payloads()[ptr - HDR_SZ] - ptr
    }

    /** `toylibc_realloc` of NULL or of a live pointer. */
    method Realloc(ptr: nat, newSz: nat) returns (r: nat)
      requires Valid() && newSz <= Bits.MAX_REQUEST
      requires ptr == NULL || ptr - HDR_SZ in Payloads()
      modifies mem, this, kernel
      // what the kernel is asked, and what its answer decides
      ensures ptr == NULL ==>
        && Asked(old(kernel.calls), kernel.calls, old(heapOk), old(kernel.brk), old(Top()), old(blocks), newSz)
        && (r == NULL <==> newSz == 0 || Refused(kernel.calls, old(Top()), old(blocks), newSz))
      ensures ptr != NULL && newSz == 0 ==>
        kernel.calls == old(kernel.calls) + FreeCalls(old(kernel.maps), ptr - HDR_SZ)
      ensures ptr != NULL && newSz != 0 ==>
        (r == NULL <==>
          && (old(Usable(ptr)) >= 131072 || newSz > old(Usable(ptr)))
          && Refused(kernel.calls, old(Top()), old(blocks), newSz))
      ensures ptr != NULL && r == ptr ==> kernel.calls == old(kernel.calls)
      ensures ptr != NULL && newSz != 0 && r == NULL ==>
        Asked(old(kernel.calls), kernel.calls, old(heapOk), old(kernel.brk), old(Top()), old(blocks), newSz)
      ensures ptr != NULL && r != ptr && r != NULL ==>
        AskedThenFreed(old(kernel.calls), kernel.calls, old(heapOk), old(kernel.brk), old(Top()), old(blocks), newSz,
                       old(kernel.maps), ptr - HDR_SZ)
      // mappings: a large new block's is added, the old block's is given up
      ensures kernel.maps ==
        if ptr == NULL then
          (if r != NULL && newSz >= MMAP_LIMIT then old(kernel.maps)[r - HDR_SZ := Bits.MmapTotal(newSz)]
           else old(kernel.maps))
        else if newSz == 0 then old(kernel.maps) - {ptr - HDR_SZ}
        else if r == NULL || r == ptr then old(kernel.maps)
        else MapsMoved(old(kernel.maps), ptr - HDR_SZ, r - HDR_SZ, newSz)
      ensures Origin() == old(Origin())
      ensures blocks ==
        if ptr == NULL then BlocksServed(old(blocks), newSz, r != NULL)
        else if newSz == 0 then BlocksFreed(old(blocks), old(kernel.maps), old(Origin()), ptr - HDR_SZ)
        else if r == NULL || r == ptr then old(blocks)
        else BlocksMoved(old(blocks), old(kernel.maps), old(Origin()), ptr - HDR_SZ, newSz)
      // as malloc
      ensures ptr == NULL ==>
        (Valid() <==> repaired || newSz == 0 || newSz >= MMAP_LIMIT || AllocSafe(old(blocks), Need(newSz), r != NULL))
      ensures ptr == NULL && r != NULL ==> Lent(old(Payloads()), Payloads(), r, newSz)
      ensures ptr == NULL && r != NULL && Valid() ==> Handed(old(Payloads()), Payloads(), r, newSz)
      // as free
      ensures ptr != NULL && newSz == 0 ==> r == NULL && Payloads() == old(Payloads()) - {ptr - HDR_SZ}
      ensures ptr != NULL && newSz == 0 ==>
        (Valid() <==>
          repaired || ptr - HDR_SZ in old(kernel.maps) || Topmost(LiveMap(old(blocks), old(Origin())), ptr - HDR_SZ))
      // in place, or refused
      ensures ptr != NULL && newSz != 0 ==> (r == ptr <==> old(Usable(ptr)) < MMAP_LIMIT && newSz <= old(Usable(ptr)))
      ensures (r == NULL && (ptr == NULL || newSz != 0)) || (ptr != NULL && r == ptr) ==>
        Valid() && Payloads() == old(Payloads())
      ensures r != NULL ==> Rounded(r - HDR_SZ)
      // moved
      ensures ptr != NULL && r != ptr && r != NULL ==>
        && Lent(old(Payloads()) - {ptr - HDR_SZ}, Payloads(), r, newSz)
        && (old(Payloads())[ptr - HDR_SZ] + HDR_SZ <= r || r + newSz <= ptr - HDR_SZ)
        && SameBytes(old(mem[..]), ptr, mem[..], r, if old(Usable(ptr)) < newSz then old(Usable(ptr)) else newSz)
        && (newSz >= MMAP_LIMIT ==>
              Refilled(old(mem[..]), mem[..], ptr, r,
                       if old(Usable(ptr)) < newSz then old(Usable(ptr)) else newSz, newSz))
        && (Valid() <==> repaired || MoveSafe(old(blocks), old(kernel.maps), old(Origin()), ptr - HDR_SZ, newSz))
        && (repaired || newSz >= MMAP_LIMIT || AllocSafe(old(blocks), Need(newSz), true) ==>
              Moved(old(Payloads()), Payloads(), ptr, r, newSz))
      ensures Kept(old(mem[..]), mem[..], old(Payloads()))
    {
      hide Repr, View, LiveMap, Rounded, Aligned, PayloadsOf, Need, AllocList, AllocSafe, Valid, Tiled, Handed, Lent,
        Kept, Moved, SameBytes, MoveSafe, Topmost, Bits.MmapTotal, MapsMoved, Refilled, HeaderOnly, Asked, Refused,
        AskedThenFreed, TakenFrom, Top, FreeCalls;
      if ptr == NULL {
        r := Malloc(newSz);
        return;
      }
      ValidIsTiled();
      if newSz == 0 {
        OwnedHere(ptr - HDR_SZ);
        if !heapOk { NothingYet(); }
        Free(ptr);
        return NULL;
      }
      var hdr := ptr - HDR_SZ;
      UsableFound(ptr);
      var hdrv := LoadWord(mem, hdr);
      var oldSz := GetSize(hdrv) - OVERHEAD;
      if oldSz >= MMAP_LIMIT {
        var cp := if oldSz < newSz then oldSz else newSz;
        r := Relocate(ptr, newSz, cp);
        return;
      }
      if newSz <= oldSz {
        KeptSame(mem[..], Payloads());
        return ptr;
      }
      r := Relocate(ptr, newSz, oldSz);
    }

    /** Allocate, copy, free: the moving half of `realloc`. As written it leaves a valid allocator exactly
        when the allocation is safe and the old block is a mapping or, after it, the topmost block. */
    method Relocate(ptr: nat, newSz: nat, cp: nat) returns (np: nat)
      requires Valid() && 0 < newSz <= Bits.MAX_REQUEST
      requires ptr - HDR_SZ in Payloads() && cp <= newSz && cp <= Payloads()[ptr - HDR_SZ] - ptr
      requires ptr != NULL
      modifies mem, this, kernel
      ensures np == NULL <==> Refused(kernel.calls, old(Top()), old(blocks), newSz)
      ensures np == NULL ==>
        Asked(old(kernel.calls), kernel.calls, old(heapOk), old(kernel.brk), old(Top()), old(blocks), newSz)
      ensures np != NULL ==>
        AskedThenFreed(old(kernel.calls), kernel.calls, old(heapOk), old(kernel.brk), old(Top()), old(blocks), newSz,
                       old(kernel.maps), ptr - HDR_SZ)
      ensures np != ptr && (np != NULL ==> Rounded(np - HDR_SZ))
      ensures kernel.maps == if np == NULL then old(kernel.maps)
        else MapsMoved(old(kernel.maps), ptr - HDR_SZ, np - HDR_SZ, newSz)
      ensures Origin() == old(Origin())
      ensures blocks == if np == NULL then old(blocks)
        else BlocksMoved(old(blocks), old(kernel.maps), old(Origin()), ptr - HDR_SZ, newSz)
      ensures np == NULL ==> Valid() && Payloads() == old(Payloads())
      ensures np != NULL ==>
        && Lent(old(Payloads()) - {ptr - HDR_SZ}, Payloads(), np, newSz)
        && (old(Payloads())[ptr - HDR_SZ] + HDR_SZ <= np || np + newSz <= ptr - HDR_SZ)
        && SameBytes(old(mem[..]), ptr, mem[..], np, cp)
        && (newSz >= MMAP_LIMIT ==> Refilled(old(mem[..]), mem[..], ptr, np, cp, newSz))
        && (Valid() <==> repaired || MoveSafe(old(blocks), old(kernel.maps), old(Origin()), ptr - HDR_SZ, newSz))
        && (repaired || newSz >= MMAP_LIMIT || AllocSafe(old(blocks), Need(newSz), true) ==>
              Moved(old(Payloads()), Payloads(), ptr, np, newSz))
      ensures Kept(old(mem[..]), mem[..], old(Payloads()))
    {
      hide Repr, View, LiveMap, Rounded, Aligned, PayloadsOf, Need, AllocList, AllocSafe, Valid, Tiled, Kept, Handed,
        Sane, ScarApart, Total, Topmost, Moved, SameBytes, Copied, Pasted, Bits.MmapTotal, MapsMoved,
        Payloads, Lent, Scarred, LentIn, Refilled, HeaderOnly, Asked, Refused, AskedThenFreed, TakenFrom, Top,
        FreeCalls, BlocksServed, BlocksFreed, BlocksMoved;
      ghost var s0, p0, h := mem[..], Payloads(), ptr - HDR_SZ;
      OwnedHere(h);
      if !heapOk { NothingYet(); }
      np := Malloc(newSz);
      if np == NULL {
        return;
      }
      PayloadsAreSane();
      ghost var s1, p1 := mem[..], Payloads();
      ghost var g := LentWhere(p0, p1, np, newSz);
      LentBounds(p0, p1, g, np, newSz, mem.Length);
      LentApart(p0, p1, g, np, newSz, h, mem.Length);
      label copied:
      Memcpy(mem, np, ptr, cp);
      ghost var s2 := mem[..];
      CopiedInside(s1, np, ptr, cp);
      WriteInside@copied(g);
      KeptApart(s0, s1, s2, p0, p1, g, mem.Length);
      assert h in kernel.maps <==> h in old(kernel.maps);
      ghost var live := LiveMap(old(blocks), heapLo).Keys;
      if h in live { ScarredApart(live, h); }
      MovedMaps(old(kernel.maps), h, np - HDR_SZ, newSz);
      MovedBlocks(old(blocks), old(kernel.maps), kernel.maps, old(Origin()), heapLo, h, newSz);
      ghost var asked, maps := kernel.calls, kernel.maps;
      Free(ptr);
      FreedAfter(old(kernel.calls), asked, kernel.calls, old(heapOk), old(kernel.brk), old(Top()), old(blocks), newSz,
                 old(kernel.maps), maps, h);
      MovedOutcome(s0, s1, s2, mem[..], p0, p1, ptr, g, np, newSz, cp);
      if newSz >= MMAP_LIMIT {
        MovedFresh(s0, s1, s2, mem[..], p0, p1, ptr, g, np, newSz, cp);
      }
    }

    lemma TopFound()
      requires Valid()
      ensures Top() == Origin() + Total(blocks)
    {
      hide Represents, View, Rounded, Aligned, MapsTagged, Total;
      if heapOk {
        ListSound();
      } else {
        NothingLaid(Tags(), heapLo, blocks);
        Short([], heapLo);
      }
    }

    /** Live blocks are no mappings. */
    lemma LiveApart()
      requires Valid()
      ensures forall h :: h in LiveMap(blocks, heapLo) ==> h !in kernel.maps
    {
      hide Represents, View, LiveMap, Rounded, Aligned, GetSize;
      MapsFound();
      ListSound();
      forall h | h in LiveMap(blocks, heapLo)
        ensures h !in kernel.maps
      {
        HeaderOf(mem[..], heapLo, heapHi, blocks, kernel.maps, h);
      }
    }

    /** No block is without a payload. */
    lemma BlocksHavePayload()
      requires Tiled()
      ensures forall i :: 0 <= i < |blocks| ==> blocks[i].size >= 32 && blocks[i].size % 16 == 0
    {
      hide Embedded, Tiles, Total;
    }

    lemma ListSound()
      requires Laid()
      ensures WellFormed(blocks) && heapLo + Total(blocks) == heapHi
    {
      hide Repr, View, Total;
      ReprWellFormed(Tags(), heapLo, blocks, false);
    }

    /** Payloads counted from where the heap starts, or will start. */
    lemma PayloadsFrom()
      requires Valid()
      ensures LiveMap(blocks, Origin()) == LiveMap(blocks, heapLo)
      ensures Payloads() == PayloadsOf(LiveMap(blocks, Origin()), kernel.maps)
    {
      hide Represents, View, Rounded, Aligned, MapsTagged, PayloadsOf;
      if !heapOk {
        NothingLaid(Tags(), heapLo, blocks);
        Short([], heapLo);
        Short([], Origin());
      }
    }

    /** A live pointer into the brk heap means that the heap is set up. */
    lemma StartedFor(h: int)
      requires Valid() && h in Payloads()
      ensures h in kernel.maps || (h in LiveMap(blocks, heapLo) && heapOk && heapLo == Origin())
    {
      hide Laid, Embedded, LiveMap, Payloads;
      OwnedHere(h);
      if !heapOk { NothingYet(); }
    }

    lemma ScarredApart(hs: set<int>, h: int)
      requires h in hs
      ensures Scarred(hs) ==> Scarred({h})
    {
      hide View, ScarApart;
      ScarFewer(Tags(), heapLo, blocks, hs, h);
    }

    lemma OwnedHere(h: int)
      requires h in Payloads()
      ensures h in kernel.maps || h in LiveMap(blocks, heapLo)
    {
      hide LiveMap, PayloadsOf;
      Owned(LiveMap(blocks, heapLo), kernel.maps, h);
    }

    lemma NothingYet()
      requires Valid() && !heapOk
      ensures LiveMap(blocks, heapLo) == map[]
    {
      hide View, Rounded, Aligned, Repr;
      NothingLaid(Tags(), heapLo, blocks);
    }

    /** The header word of a live block holds its usable size plus 16. */
    lemma UsableFound(ptr: nat)
      requires Valid() && ptr - HDR_SZ in Payloads()
      ensures ptr >= HDR_SZ && ptr <= mem.Length && Aligned(ptr - HDR_SZ) && Rounded(ptr - HDR_SZ)
      ensures GetSize(At(Tags(), ptr - HDR_SZ)) - OVERHEAD == Usable(ptr) >= 0
      ensures Usable(ptr) <= Payloads()[ptr - HDR_SZ] - ptr
    {
      hide Repr, View, LiveMap, Rounded, Aligned, GetSize;
      var h := ptr - HDR_SZ;
      ReprWellFormed(Tags(), heapLo, blocks, false);
      MapsFound();
      HeaderOf(mem[..], heapLo, heapHi, blocks, kernel.maps, h);
      if h !in kernel.maps {
        LiveHeader(Tags(), heapLo, blocks, false, h);
        LiveMapRange(blocks, heapLo);
      }
    }
  }
}
