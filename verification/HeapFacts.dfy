/** What the steps of the allocator mean for payloads, mappings and bytes: the facts that the methods
    of Heap.Allocator are proved with. Memory is a byte sequence here. */
module HeapFacts {
  import opened BlockList
  import opened BoundaryTags
  import opened Tiling
  import opened TagRefinement
  import opened AsWritten
  import opened Frames
  import opened Scars
  import opened Bytes
  import opened Str
  import opened KernelModel
  import opened Machine
  import Bits

  const MMAP_LIMIT := 131072

  // ---------------------------------------------------------------- payloads

  function PayloadsOf(live: map<int, int>, maps: map<int, int>): map<int, int> {
    (map h | h in live :: h + live[h] - HDR_SZ) + (map m | m in maps :: m + maps[m])
  }

  /** `a` is a payload byte of something handed out. */
  ghost predicate Covered(payloads: map<int, int>, a: int) {
    exists h :: h in payloads && h + HDR_SZ <= a < payloads[h]
  }

  /** A block was handed out: `p` is 8 modulo 16, has `sz` bytes, and nothing else changed hands. */
  ghost predicate Handed(before: map<int, int>, after: map<int, int>, p: nat, sz: nat) {
    var h := p - HDR_SZ;
    && Rounded(h) && h !in before && h in after
    && after == before[h := after[h]] && after[h] >= p + sz
  }

  /** The `sz` bytes at `p` lie in the one payload that was added; after an unsafe call as written `p` need
      not be its start. */
  ghost predicate Lent(before: map<int, int>, after: map<int, int>, p: nat, sz: nat) {
    exists g :: LentIn(before, after, g, p, sz)
  }

  ghost predicate LentIn(before: map<int, int>, after: map<int, int>, g: int, p: nat, sz: nat) {
    && g !in before && g in after && after == before[g := after[g]]
    && g + HDR_SZ <= p && p + sz <= after[g]
  }

  lemma HandedLent(before: map<int, int>, after: map<int, int>, p: nat, sz: nat)
    requires Handed(before, after, p, sz)
    ensures Lent(before, after, p, sz)
  {
    assert LentIn(before, after, p - HDR_SZ, p, sz);
  }

  /** Every byte covered by `payloads` is unchanged. */
  ghost predicate Kept(s: seq<byte>, t: seq<byte>, payloads: map<int, int>) {
    |s| == |t| && forall a :: 0 <= a < |s| && Covered(payloads, a) ==> t[a] == s[a]
  }

  function Need(sz: nat): nat { OVERHEAD + (sz + ALIGN - 1) / ALIGN * ALIGN }

  lemma NeedBounds(sz: nat)
    ensures Rounded(Need(sz)) && Need(sz) - OVERHEAD >= sz && (sz > 0 ==> Need(sz) >= MIN_BLOCK)
    ensures Need(sz) % 16 == 0 && sz + 16 <= Need(sz) < sz + 32
  {
    var q := (sz + ALIGN - 1) / ALIGN;
    assert (16 * (q + 1)) / 16 == q + 1;
  }

  lemma NeedIsMacro(sz: nat)
    requires sz < MMAP_LIMIT
    ensures Need(sz) == OVERHEAD + Bits.AlignUp(sz, ALIGN)
  {
    Bits.Pow2Values();
    hide Bits.AlignUp, Pow;
    Bits.AlignUpValue(sz, 4);
    Bits.Unwrapped(sz + ALIGN - 1);
    Multiple(sz + ALIGN - 1);
  }

  lemma Multiple(x: nat)
    ensures x - x % ALIGN == x / ALIGN * ALIGN
  {
    assert x == 16 * (x / 16) + x % 16;
  }

  /** A mapping holds 8 bytes more than `realloc` takes it to hold. What it takes it to hold is enough for the
      request it was made for, so that moving the block loses nothing, exactly when the request modulo the
      page size is not one of 4081 to 4088. */
  lemma MappingFits(sz: nat)
    requires sz <= Bits.MAX_REQUEST
    ensures Bits.MmapTotal(sz) - OVERHEAD >= sz <==> !(PAGE - 16 < sz % PAGE <= PAGE - 8)
  {
    Bits.MmapTotalExact(sz);
    hide Bits.MmapTotal;
    var q, r := sz / PAGE, sz % PAGE;
    assert sz == PAGE * q + r;
    if r + 8 <= PAGE {
      assert (sz + 8 + PAGE - 1) / PAGE == q + 1;
    } else {
      assert (sz + 8 + PAGE - 1) / PAGE == q + 2;
    }
  }

  /** What moving a block to a fresh mapping leaves at the new place: the first `kept` bytes of the old one,
      and behind them, up to `n`, what was there before. */
  ghost predicate Refilled(s: seq<byte>, t: seq<byte>, ptr: nat, np: nat, kept: int, n: nat) {
    && |s| == |t| && np + n <= |s| && 0 <= kept <= n && ptr + kept <= |s|
    && forall a :: np <= a < np + n ==> t[a] == if a - np < kept then s[ptr + (a - np)] else s[a]
  }

  /** The bytes `realloc` copies out of a mapping made for `sz` bytes when it moves it to `newSz`. */
  function KeptOfMapping(sz: nat, newSz: nat): int {
    if Bits.MmapTotal(sz) - OVERHEAD < newSz then Bits.MmapTotal(sz) - OVERHEAD else newSz
  }

  /** Whatever memory of `limit` bytes holds, such a move preserves the first `n` bytes. */
  ghost predicate AlwaysCopied(ptr: nat, np: nat, kept: int, newSz: nat, n: nat, limit: nat) {
    forall s: seq<byte>, t: seq<byte> ::
      |s| == limit && Refilled(s, t, ptr, np, kept, newSz) ==> SameBytes(s, ptr, t, np, n)
  }

  /** Moving a mapping preserves the smaller of the two sizes, whatever memory holds, exactly when the new
      size does not exceed what is copied or the old one modulo the page size is not one of 4081 to 4088. */
  lemma MappingMoveExact(sz: nat, newSz: nat, ptr: nat, np: nat, limit: nat)
    requires MMAP_LIMIT <= sz <= Bits.MAX_REQUEST
    requires ptr + Bits.MmapTotal(sz) - HDR_SZ <= limit && np + newSz <= limit
    requires np + newSz <= ptr || ptr + Bits.MmapTotal(sz) - HDR_SZ <= np
    ensures AlwaysCopied(ptr, np, KeptOfMapping(sz, newSz), newSz, if sz < newSz then sz else newSz, limit)
      <==> newSz <= Bits.MmapTotal(sz) - OVERHEAD || !(PAGE - 16 < sz % PAGE <= PAGE - 8)
  {
    MappingFits(sz);
    Bits.MmapTotalExact(sz);
    hide Bits.MmapTotal, Refilled, SameBytes;
    var n, kept := if sz < newSz then sz else newSz, KeptOfMapping(sz, newSz);
    if n <= kept {
      forall s, t | |s| == limit && Refilled(s, t, ptr, np, kept, newSz)
        ensures SameBytes(s, ptr, t, np, n)
      {
        RefilledSame(s, t, ptr, np, kept, newSz, n);
      }
    } else {
      var s, t := OneLost(ptr, np, kept, newSz, n, limit);
    }
  }

  lemma RefilledSame(s: seq<byte>, t: seq<byte>, ptr: nat, np: nat, kept: int, newSz: nat, n: nat)
    requires Refilled(s, t, ptr, np, kept, newSz) && n <= kept
    ensures SameBytes(s, ptr, t, np, n)
  {
    assert forall a :: np <= a < np + n ==> t[a] == s[ptr + (a - np)];
    assert t[np..np + n] == s[ptr..ptr + n];
  }

  /** A memory in which the first byte behind the copied ones is lost. */
  lemma OneLost(ptr: nat, np: nat, kept: nat, newSz: nat, n: nat, limit: nat) returns (s: seq<byte>, t: seq<byte>)
    requires kept < n <= newSz && ptr + n <= limit && np + newSz <= limit && np != ptr
    ensures |s| == limit && Refilled(s, t, ptr, np, kept, newSz) && !SameBytes(s, ptr, t, np, n)
  {
    s := seq(limit, i => if i == ptr + kept then 1 else 0);
    t := seq(limit, i requires 0 <= i < limit =>
      if np <= i < np + kept then 0 else s[i]);
    RefillLoses(s, t, ptr, np, kept, newSz, n);
  }

  lemma SameAt(s: seq<byte>, p: nat, t: seq<byte>, q: nat, n: int, off: nat)
    requires SameBytes(s, p, t, q, n) && off < n
    ensures q + off < |t| && p + off < |s| && t[q + off] == s[p + off]
  {
    assert t[q..q + n][off] == s[p..p + n][off];
  }

  /** Where the byte behind the copied ones differs at the two places, it is lost. */
  lemma RefillLoses(s: seq<byte>, t: seq<byte>, ptr: nat, np: nat, kept: nat, newSz: nat, n: nat)
    requires Refilled(s, t, ptr, np, kept, newSz) && kept < n <= newSz && ptr + n <= |s|
    requires s[np + kept] != s[ptr + kept]
    ensures t[np + kept] != s[ptr + kept] && !SameBytes(s, ptr, t, np, n)
  {
    assert t[np + kept] == s[np + kept];
    hide SameBytes, Refilled;
    if SameBytes(s, ptr, t, np, n) { SameAt(s, ptr, t, np, n, kept); }
  }

  lemma ThirtyThreePages()
    ensures Bits.MmapTotal(135153) == 135168
  {
    Bits.MmapTotalExact(135153);
    hide Bits.MmapTotal;
    assert (135161 + PAGE - 1) / PAGE == 33;
  }

  lemma FortyNinePages()
    ensures Bits.MmapTotal(200000) == 200704
  {
    Bits.MmapTotalExact(200000);
    hide Bits.MmapTotal;
    assert (200008 + PAGE - 1) / PAGE == 49;
  }

  /** For instance a mapping for 135153 bytes: 135168 are mapped and 135152 copied, so the last byte of the
      request is lost in any larger new block that held another byte there. */
  lemma MappingLoses(s: seq<byte>, t: seq<byte>, ptr: nat, np: nat, newSz: nat)
    requires newSz > 135152 && Refilled(s, t, ptr, np, KeptOfMapping(135153, newSz), newSz)
    requires ptr + 135153 <= |s| && s[np + 135152] != s[ptr + 135152]
    ensures Bits.MmapTotal(135153) == 135168 && KeptOfMapping(135153, newSz) == 135152
    ensures t[np + 135152] != s[ptr + 135152] && !SameBytes(s, ptr, t, np, 135153)
  {
    hide Bits.MmapTotal, SameBytes;
    ThirtyThreePages();
    RefillLoses(s, t, ptr, np, 135152, newSz, 135153);
  }

  /** Every mapping starts with its own length, marked allocated. */
  ghost predicate MapsTagged(w: Words, maps: map<int, int>) {
    forall m :: m in maps ==>
      Rounded(m) && Rounded(maps[m]) && maps[m] >= MMAP_LIMIT && At(w, m) == Tag(maps[m], true, false)
  }

  ghost predicate RoundedMap(m: map<int, int>) {
    forall h :: h in m ==> Rounded(h) && Rounded(m[h])
  }

  /** Payloads are made of whole words: if those are unchanged, so is every payload byte. */
  lemma KeptByWords(s: seq<byte>, t: seq<byte>, live: map<int, int>, maps: map<int, int>)
    requires |s| == |t| && Aligned(|s|) && RoundedMap(live) && RoundedMap(maps)
    requires forall a :: Aligned(a) && Covered(PayloadsOf(live, maps), a) ==> At(View(t), a) == At(View(s), a)
    ensures Kept(s, t, PayloadsOf(live, maps))
  {
    var ps := PayloadsOf(live, maps);
    forall a | 0 <= a < |s| && Covered(ps, a)
      ensures t[a] == s[a]
    {
      var h :| h in ps && h + HDR_SZ <= a < ps[h];
      WordInside(h, ps[h], a);
      assert Covered(ps, a - a % WORD_BYTES);
      SameByte(s, t, a);
    }
  }

  /** The mappings lie clear of the heap. */
  ghost predicate Clear(maps: map<int, int>, lo: int, hi: int) {
    lo < hi ==> forall m :: m in maps ==> m + maps[m] <= lo || hi <= m
  }

  /** Everything one allocation from the brk heap means for payloads, here and in the mappings: no live
      byte is written, and the bytes handed out lie in the one payload that was added. */
  lemma SmallOutcome(s: seq<byte>, t: seq<byte>, lo: int, hi: int, bs: seq<Block>, need: nat, granted: bool,
                     repaired: bool, maps: map<int, int>, hi': int)
    requires |s| == |t| && Aligned(|s|) && Rounded(lo) && lo >= 0 && Represents(View(s), lo, hi, bs)
    requires Rounded(need) && need >= MIN_BLOCK
    requires var r := Allocate(View(s), lo, hi, need, granted, repaired); View(t) == r.words && hi' == r.hi
    requires MapsTagged(View(s), maps) && Clear(maps, lo, hi')
    ensures MapsTagged(View(t), maps)
    ensures Kept(s, t, PayloadsOf(LiveMap(bs, lo), maps))
    ensures var r := Allocate(View(s), lo, hi, need, granted, repaired);
      && AllocList(bs, need, granted) == AllocList(bs, need, r.result.Found?)
      && AllocSafe(bs, need, granted) == AllocSafe(bs, need, r.result.Found?)
      && (r.result == NotFound ==> AllocList(bs, need, granted) == bs && AllocSafe(bs, need, granted))
      && (r.result.Found? ==>
            var before := PayloadsOf(LiveMap(bs, lo), maps);
            var after := PayloadsOf(LiveMap(AllocList(bs, need, granted), lo), maps);
            && r.result.addr >= lo
            && Lent(before, after, r.result.addr + HDR_SZ, need - OVERHEAD)
            && (repaired || AllocSafe(bs, need, granted) ==>
                  Handed(before, after, r.result.addr + HDR_SZ, need - OVERHEAD)))
  {
    hide *;
    SearchGranted(View(s), lo, hi, bs, need, granted, repaired);
    AllocateKept(s, t, lo, hi, bs, need, granted, repaired, maps);
    AllocateLends(View(s), lo, hi, bs, need, granted, repaired, maps);
  }

  lemma AllocateKept(s: seq<byte>, t: seq<byte>, lo: int, hi: int, bs: seq<Block>, need: nat, granted: bool,
                     repaired: bool, maps: map<int, int>)
    requires |s| == |t| && Aligned(|s|) && Rounded(lo) && Represents(View(s), lo, hi, bs)
    requires Rounded(need) && need >= MIN_BLOCK
    requires var r := Allocate(View(s), lo, hi, need, granted, repaired);
      View(t) == r.words && Clear(maps, lo, r.hi)
    requires MapsTagged(View(s), maps)
    ensures MapsTagged(View(t), maps)
    ensures Kept(s, t, PayloadsOf(LiveMap(bs, lo), maps))
  {
    hide Repr, View, Rounded, Aligned, Total, LiveMap, Allocate, PayloadsOf, Kept, Payload;
    var w, r := View(s), Allocate(View(s), lo, hi, need, granted, repaired);
    forall m | m in maps
      ensures At(r.words, m) == At(w, m)
    {
      AllocateOutside(w, lo, hi, bs, need, granted, repaired, m);
    }
    ReprWellFormed(w, lo, bs, false);
    forall a | Aligned(a) && Covered(PayloadsOf(LiveMap(bs, lo), maps), a)
      ensures At(r.words, a) == At(w, a)
    {
      CoveredPart(LiveMap(bs, lo), maps, a);
      AllocateOutside(w, lo, hi, bs, need, granted, repaired, a);
      PayloadOwner(bs, lo, a);
      if Payload(bs, lo, a) {
        AllocateSpares(w, lo, hi, bs, need, granted, repaired, a);
      }
    }
    LiveRounded(bs, lo);
    KeptByWords(s, t, LiveMap(bs, lo), maps);
  }

  lemma AllocateLends(w: Words, lo: int, hi: int, bs: seq<Block>, need: nat, granted: bool, repaired: bool,
                      maps: map<int, int>)
    requires Rounded(lo) && lo >= 0 && Represents(w, lo, hi, bs) && Rounded(need) && need >= MIN_BLOCK
    requires Clear(maps, lo, Allocate(w, lo, hi, need, granted, repaired).hi)
    requires MapsTagged(w, maps)
    ensures var r := Allocate(w, lo, hi, need, granted, repaired);
      r.result.Found? ==>
        var before := PayloadsOf(LiveMap(bs, lo), maps);
        var after := PayloadsOf(LiveMap(AllocList(bs, need, granted), lo), maps);
        && r.result.addr >= lo
        && Lent(before, after, r.result.addr + HDR_SZ, need - OVERHEAD)
        && (repaired || AllocSafe(bs, need, granted) ==>
              Handed(before, after, r.result.addr + HDR_SZ, need - OVERHEAD))
  {
    hide Repr, Rounded, Total, LiveMap, Allocate, AllocList, PayloadsOf, Handed, Lent;
    var r, bs' := Allocate(w, lo, hi, need, granted, repaired), AllocList(bs, need, granted);
    SearchGranted(w, lo, hi, bs, need, granted, repaired);
    if r.result.Found? {
      var fs := AllocateTiles(w, lo, hi, bs, need, granted, repaired);
      var h := ResultBlock(w, lo, hi, bs, need, granted, repaired);
      LiveRounded(bs', lo);
      LiveMapRange(bs', lo);
      assert h !in maps;
      LentOut(LiveMap(bs, lo), LiveMap(bs', lo), maps, h, r.result.addr, need);
      if repaired || AllocSafe(bs, need, granted) {
        HandedOut(LiveMap(bs, lo), LiveMap(bs', lo), maps, h, need);
      }
    }
  }

  /** The bytes handed out lie in the block that the list allocator adds; after a safe allocation they
      are its payload, after an unsafe growth a part of it. */
  lemma ResultBlock(w: Words, lo: int, hi: int, bs: seq<Block>, need: nat, granted: bool, repaired: bool)
    returns (h: int)
    requires Represents(w, lo, hi, bs) && Rounded(need) && need >= MIN_BLOCK
    requires Allocate(w, lo, hi, need, granted, repaired).result.Found?
    ensures var r, live' := Allocate(w, lo, hi, need, granted, repaired), LiveMap(AllocList(bs, need, granted), lo);
      && h in live' && h !in LiveMap(bs, lo) && live' == LiveMap(bs, lo)[h := live'[h]]
      && h <= r.result.addr && r.result.addr + need <= h + live'[h] && h >= lo && live'[h] >= need
      && (repaired || AllocSafe(bs, need, granted) ==> h == r.result.addr)
  {
    hide Repr, Total, LiveMap, Allocate, PageUp, AllocList, AllocAddr, AllocSafe, KeptOnGrow;
    ReprWellFormed(w, lo, bs, false);
    AllocListLive(bs, lo, need, granted);
    ResultAt(w, lo, hi, bs, need, granted, repaired);
    h := AllocAddr(bs, lo, need, granted).addr;
    if FirstFit(bs, need) >= |bs| {
      GrownBlock(w, lo, hi, bs, need, granted);
    }
  }

  /** The list allocator's block when the heap grew. */
  lemma GrownBlock(w: Words, lo: int, hi: int, bs: seq<Block>, need: nat, granted: bool)
    requires Represents(w, lo, hi, bs) && Rounded(need) && need >= MIN_BLOCK && FirstFit(bs, need) >= |bs| && granted
    ensures var o, live' := lo + Total(bs[..KeptOnGrow(bs)]), LiveMap(AllocList(bs, need, granted), lo);
      o <= hi && o in live' && o + live'[o] == hi + PageUp(need) && PageUp(need) >= need
  {
    hide Repr, Total, LiveMap, PageUp, Extend, KeptOnGrow;
    ReprWellFormed(w, lo, bs, false);
    PageUpBounds(need);
    ExtendList(bs, PageUp(need), lo);
    GrowMerges(w, lo, hi, bs, PageUp(need), true);
  }

  /** Where the answer of an allocation lies: at the list allocator's block, or, after an unsafe growth,
      at the old end of the heap. */
  lemma ResultAt(w: Words, lo: int, hi: int, bs: seq<Block>, need: nat, granted: bool, repaired: bool)
    requires Represents(w, lo, hi, bs) && need >= MIN_BLOCK && Rounded(need)
    ensures var r, a := Allocate(w, lo, hi, need, granted, repaired).result, AllocAddr(bs, lo, need, granted);
      && (r.Found? <==> a.Found?)
      && (r.Found? && (FirstFit(bs, need) < |bs| || repaired || AllocSafe(bs, need, granted)) ==> r == a)
      && (r.Found? && FirstFit(bs, need) >= |bs| ==>
            granted && a.addr == lo + Total(bs[..KeptOnGrow(bs)]) && (r == a || r.addr == hi))
  {
    hide Repr, Total, Take, Grow, TakeWhole, PageUp;
    FindRefines(w, lo, hi, bs, false, need);
    FirstFitIsFirst(bs, need);
    if FirstFit(bs, need) >= |bs| && granted {
      PageUpBounds(need);
      GrowEffect(w, lo, hi, bs, PageUp(need), repaired);
      GrowMerges(w, lo, hi, bs, PageUp(need), repaired);
    }
  }

  lemma LentOut(live: map<int, int>, live': map<int, int>, maps: map<int, int>, h: int, p: int, need: nat)
    requires h in live' && h !in live && h !in maps && live' == live[h := live'[h]]
    requires p >= h && p + need <= h + live'[h] && need >= OVERHEAD && p >= 0
    ensures Lent(PayloadsOf(live, maps), PayloadsOf(live', maps), p + HDR_SZ, need - OVERHEAD)
  {
    var before, after := PayloadsOf(live, maps), PayloadsOf(live', maps);
    assert after[h] == h + live'[h] - HDR_SZ;
    assert LentIn(before, after, h, p + HDR_SZ, need - OVERHEAD);
  }

  lemma RoundedPage(m: int)
    requires m % PAGE == 0
    ensures Rounded(m)
  {
    var k := m / PAGE;
    assert m == 16 * (256 * k);
    assert (16 * (256 * k)) / 16 == 256 * k;
  }

  /** Everything one new mapping means for the heap, the other mappings and all payloads. */
  lemma LargeOutcome(s: seq<byte>, t: seq<byte>, lo: int, hi: int, bs: seq<Block>, maps: map<int, int>,
                     m: nat, total: nat)
    requires m + total <= |s| && total >= MMAP_LIMIT && total < WORD - 1
    requires Aligned(m) && Rounded(m) && Rounded(total) && t == Patched(s, m, total + FLAG_ALLOC)
    requires Represents(View(s), lo, hi, bs) && m !in maps && Clear(maps, lo, hi) && Clear(map[m := total], lo, hi)
    requires MapsTagged(View(s), maps)
    requires forall a :: a in maps ==> a + maps[a] <= m || m + total <= a
    ensures Represents(View(t), lo, hi, bs)
    ensures MapsTagged(View(t), maps[m := total])
    ensures Kept(s, t, PayloadsOf(LiveMap(bs, lo), maps))
    ensures Handed(PayloadsOf(LiveMap(bs, lo), maps), PayloadsOf(LiveMap(bs, lo), maps[m := total]),
                   m + HDR_SZ, total - HDR_SZ)
  {
    hide Repr, View, Rounded, Aligned, Total, LiveMap, PayloadsOf, Patched, Kept, Handed;
    var live := LiveMap(bs, lo);
    assert m in map[m := total];
    ViewPatched(s, m, total + FLAG_ALLOC);
    ReprWellFormed(View(s), lo, bs, false);
    LiveMapRange(bs, lo);
    ReprFrame(View(s), View(t), lo, bs, false);
    LargeKept(s, t, live, maps, lo, hi, m, total);
    LargeHanded(live, maps, m, total);
  }

  lemma LargeKept(s: seq<byte>, t: seq<byte>, live: map<int, int>, maps: map<int, int>, lo: int, hi: int,
                  m: nat, total: nat)
    requires m + total <= |s| && total >= MMAP_LIMIT && t == Patched(s, m, total + FLAG_ALLOC)
    requires forall h :: h in live ==> lo <= h && h + live[h] <= hi
    requires Clear(map[m := total], lo, hi)
    requires forall a :: a in maps ==> a + maps[a] <= m || m + total <= a
    ensures Kept(s, t, PayloadsOf(live, maps))
  {
    assert m in map[m := total];
    forall a | 0 <= a < |s| && Covered(PayloadsOf(live, maps), a)
      ensures t[a] == s[a]
    {
      CoveredPart(live, maps, a);
      assert a < m || a >= m + HDR_SZ;
    }
  }

  lemma LargeHanded(live: map<int, int>, maps: map<int, int>, m: nat, total: nat)
    requires m !in live && m !in maps && Rounded(m) && total >= HDR_SZ
    ensures Handed(PayloadsOf(live, maps), PayloadsOf(live, maps[m := total]), m + HDR_SZ, total - HDR_SZ)
  {
    var before, after := PayloadsOf(live, maps), PayloadsOf(live, maps[m := total]);
    assert after[m] == m + total;
    assert after == before[m := after[m]];
  }

  /** `h` is the highest live header. */
  ghost predicate Topmost(live: map<int, int>, h: int) {
    forall k :: k in live ==> k <= h
  }

  lemma TopmostIsLast(bs: seq<Block>, lo: int, i: nat)
    requires WellFormed(bs) && i < |bs| && bs[i].alloc
    ensures Topmost(LiveMap(bs, lo), lo + Total(bs[..i])) <==> NoLiveAbove(bs, i)
  {
    hide LiveMap, Total;
    if NoLiveAbove(bs, i) {
      forall k | k in LiveMap(bs, lo)
        ensures k <= lo + Total(bs[..i])
      {
        var j := LiveIndex(bs, lo, k);
        if j < i { TotalIncreases(bs, j, i); }
      }
    } else {
      var j :| i < j < |bs| && bs[j].alloc;
      BlockIsLive(bs, j, lo);
      TotalIncreases(bs, i, j);
    }
  }

  /** What `free` finds in front of a live pointer, and on which side its range test falls. */
  lemma HeaderOf(s: seq<byte>, lo: int, hi: int, bs: seq<Block>, maps: map<int, int>, h: int)
    requires WellFormed(bs) && lo + Total(bs) == hi && Rounded(lo) && lo >= 0 && (lo < hi ==> hi <= |s|)
    requires Clear(maps, lo, hi) && h in PayloadsOf(LiveMap(bs, lo), maps)
    requires MapsTagged(View(s), maps) && forall m :: m in maps ==> m >= 0 && m + maps[m] <= |s|
    ensures 0 <= h && h + HDR_SZ <= |s| && Aligned(h) && Rounded(h)
    ensures h in maps <==> h !in LiveMap(bs, lo)
    ensures h in maps ==>
      GetSize(At(View(s), h)) == maps[h] >= MMAP_LIMIT && (h + HDR_SZ < lo || h + HDR_SZ >= hi)
    ensures h in LiveMap(bs, lo) ==> !(h + HDR_SZ < lo || h + HDR_SZ >= hi)
  {
    hide View, Rounded, Aligned, LiveMap, GetSize, IsAlloc, PrevFreeBit, Total;
    LiveMapRange(bs, lo);
    LiveRounded(bs, lo);
    RoundedAligned(h);
    if h in maps {
      TagParts(maps[h], true, false);
    }
  }

  lemma Without(maps: map<int, int>, h: int)
    requires h !in maps
    ensures maps - {h} == maps
  {
  }

  lemma Unmapped(w: Words, live: map<int, int>, maps: map<int, int>, m: int)
    requires m in maps && m !in live && MapsTagged(w, maps)
    ensures PayloadsOf(live, maps - {m}) == PayloadsOf(live, maps) - {m}
    ensures MapsTagged(w, maps - {m})
  {
    hide PayloadsOf;
    PayloadsWithout(live, maps, m);
  }

  lemma PayloadsWithout(live: map<int, int>, maps: map<int, int>, m: int)
    requires m in maps && m !in live
    ensures PayloadsOf(live, maps - {m}) == PayloadsOf(live, maps) - {m}
  {
  }

  lemma ReleasePayloads(lo: int, bs: seq<Block>, i: nat, maps: map<int, int>)
    requires WellFormed(bs) && i < |bs| && bs[i].alloc && lo + Total(bs[..i]) !in maps
    ensures PayloadsOf(LiveMap(Freed(bs, i), lo), maps) == PayloadsOf(LiveMap(bs, lo), maps) - {lo + Total(bs[..i])}
    ensures Topmost(LiveMap(bs, lo), lo + Total(bs[..i])) <==> NoLiveAbove(bs, i)
  {
    hide LiveMap, Total, Freed, WellFormed;
    FreedList(bs, i, lo);
    TopmostIsLast(bs, lo, i);
  }

  /** A release, repaired or as written, changes no payload byte that is live before it, and no mapping. */
  lemma ReleaseKept(s: seq<byte>, t: seq<byte>, lo: int, hi: int, bs: seq<Block>, fs: seq<Flags>, i: nat,
                    repaired: bool, maps: map<int, int>)
    requires |s| == |t| && Aligned(|s|) && Rounded(lo)
    requires WellFormed(bs) && Tiles(View(s), lo, bs, fs) && lo + Total(bs) == hi
    requires i < |bs| && bs[i].alloc && View(t) == Release(View(s), hi, lo + Total(bs[..i]), repaired)
    requires MapsTagged(View(s), maps) && Clear(maps, lo, hi)
    ensures MapsTagged(View(t), maps)
    ensures Kept(s, t, PayloadsOf(LiveMap(bs, lo), maps))
  {
    hide View, Rounded, Aligned, Total, LiveMap, Release, PayloadsOf, Kept, Payload, Tiles, WellFormed;
    var w, w', o := View(s), View(t), lo + Total(bs[..i]);
    assert SizesOk(bs) by { Sizes(bs); }
    Position(bs, lo, i);
    forall m | m in maps
      ensures At(w', m) == At(w, m)
    {
      ReleaseOutside(w, lo, hi, bs, fs, i, repaired, m);
    }
    forall a | Aligned(a) && Covered(PayloadsOf(LiveMap(bs, lo), maps), a)
      ensures At(w', a) == At(w, a)
    {
      CoveredPart(LiveMap(bs, lo), maps, a);
      PayloadOwner(bs, lo, a);
      if Payload(bs, lo, a) {
        ReleaseSpares(w, lo, hi, bs, fs, i, repaired, a);
      } else {
        ReleaseOutside(w, lo, hi, bs, fs, i, repaired, a);
      }
    }
    LiveRounded(bs, lo);
    KeptByWords(s, t, LiveMap(bs, lo), maps);
  }

  lemma Sizes(bs: seq<Block>)
    requires WellFormed(bs)
    ensures SizesOk(bs)
  {
  }

  /** Payloads lie inside memory and never overlap. */
  ghost predicate Sane(payloads: map<int, int>, limit: int) {
    && (forall h :: h in payloads ==> 0 <= h && h + HDR_SZ <= payloads[h] <= limit)
    && (forall h, k :: h in payloads && k in payloads && h < k ==> payloads[h] <= k)
  }

  lemma SaneLayout(lo: int, hi: int, bs: seq<Block>, maps: map<int, int>, limit: int)
    requires WellFormed(bs) && lo + Total(bs) == hi && lo >= 0 && (lo < hi ==> hi <= limit)
    requires Clear(maps, lo, hi)
    requires forall m :: m in maps ==> 0 <= m && HDR_SZ <= maps[m] && m + maps[m] <= limit
    requires forall a, b :: a in maps && b in maps && a < b ==> a + maps[a] <= b
    ensures Sane(PayloadsOf(LiveMap(bs, lo), maps), limit)
  {
    hide LiveMap, Total;
    LiveMapRange(bs, lo);
    LiveDisjoint(bs, lo);
  }

  /** Writing inside one payload changes no tag of the heap and no mapping's header. */
  lemma PayloadWritten(s: seq<byte>, t: seq<byte>, lo: int, hi: int, bs: seq<Block>, maps: map<int, int>, h: int)
    requires |s| == |t| && Rounded(lo) && WellFormed(bs) && lo + Total(bs) == hi
    requires MapsTagged(View(s), maps) && Clear(maps, lo, hi)
    requires forall a, b :: a in maps && b in maps && a < b ==> a + maps[a] <= b
    requires h in PayloadsOf(LiveMap(bs, lo), maps)
    requires forall k :: 0 <= k < |s| && !(h + HDR_SZ <= k < PayloadsOf(LiveMap(bs, lo), maps)[h]) ==> t[k] == s[k]
    ensures forall a :: lo <= a < hi && !Payload(bs, lo, a) ==> At(View(t), a) == At(View(s), a)
    ensures forall m :: m in maps ==> At(View(t), m) == At(View(s), m)
  {
    hide LiveMap, Total, Payload, View, Rounded, Aligned, WellFormed, MapsTagged, Clear, PayloadsOf, At;
    var live := LiveMap(bs, lo);
    var end := PayloadsOf(live, maps)[h];
    PayloadEnds(View(s), lo, hi, bs, maps, h);
    forall a | lo <= a < hi && !Payload(bs, lo, a)
      ensures At(View(t), a) == At(View(s), a)
    {
      TagOutside(lo, hi, bs, maps, h, a);
      WordOutside(s, t, a, h + HDR_SZ, end);
    }
    forall m | m in maps
      ensures At(View(t), m) == At(View(s), m)
    {
      HeaderOutside(View(s), lo, hi, bs, maps, h, m);
      WordOutside(s, t, m, h + HDR_SZ, end);
    }
  }

  lemma PayloadEnds(w: Words, lo: int, hi: int, bs: seq<Block>, maps: map<int, int>, h: int)
    requires Rounded(lo) && WellFormed(bs) && MapsTagged(w, maps) && h in PayloadsOf(LiveMap(bs, lo), maps)
    ensures Aligned(h + HDR_SZ) && Aligned(PayloadsOf(LiveMap(bs, lo), maps)[h])
  {
    hide LiveMap, Rounded, Aligned;
    LiveRounded(bs, lo);
    if h in maps { Ends(h, maps[h]); } else { Ends(h, LiveMap(bs, lo)[h]); }
  }

  /** A word of the heap that is no payload lies outside every payload handed out. */
  lemma TagOutside(lo: int, hi: int, bs: seq<Block>, maps: map<int, int>, h: int, a: int)
    requires WellFormed(bs) && lo + Total(bs) == hi && Clear(maps, lo, hi)
    requires h in PayloadsOf(LiveMap(bs, lo), maps) && lo <= a < hi && !Payload(bs, lo, a)
    ensures a < h + HDR_SZ || a >= PayloadsOf(LiveMap(bs, lo), maps)[h]
  {
    hide LiveMap, Total, Payload;
    PayloadOwner(bs, lo, a);
    assert h !in maps && h + HDR_SZ <= a < PayloadsOf(LiveMap(bs, lo), maps)[h] ==> Inside(LiveMap(bs, lo), a);
  }

  lemma HeaderOutside(w: Words, lo: int, hi: int, bs: seq<Block>, maps: map<int, int>, h: int, m: int)
    requires WellFormed(bs) && lo + Total(bs) == hi && MapsTagged(w, maps) && Clear(maps, lo, hi) && m in maps
    requires forall a, b :: a in maps && b in maps && a < b ==> a + maps[a] <= b
    requires h in PayloadsOf(LiveMap(bs, lo), maps)
    ensures m < h + HDR_SZ || m >= PayloadsOf(LiveMap(bs, lo), maps)[h]
  {
    hide LiveMap, Total, Rounded;
    LiveMapRange(bs, lo);
  }

  /** A scarred block that is not at one of the addresses `hs`. */
  ghost predicate ScarApart(w: Words, lo: int, bs: seq<Block>, hs: set<int>) {
    exists d: nat :: d < |bs| && Scar(w, lo, bs, d) && lo + Total(bs[..d]) !in hs
  }

  lemma ScarFewer(w: Words, lo: int, bs: seq<Block>, hs: set<int>, h: int)
    requires h in hs
    ensures ScarApart(w, lo, bs, hs) ==> ScarApart(w, lo, bs, {h})
  {
    hide Scar, Total;
  }

  lemma ScarFound(w: Words, lo: int, bs: seq<Block>, need: nat, granted: bool)
    requires var bs', d := AllocList(bs, need, granted), HandedIndex(bs, need);
      Scar(w, lo, bs', d) && lo + Total(bs'[..d]) !in LiveMap(bs, lo)
    ensures ScarApart(w, lo, AllocList(bs, need, granted), LiveMap(bs, lo).Keys)
  {
    hide LiveMap, Total, AllocList, HandedIndex;
  }

  /** So it changes neither whether the heap is as documented nor whether its tags tile it. */
  lemma StillLaid(w: Words, w': Words, lo: int, bs: seq<Block>)
    requires forall a :: lo <= a < lo + Total(bs) && !Payload(bs, lo, a) ==> At(w', a) == At(w, a)
    ensures Repr(w, lo, bs, false) <==> Repr(w', lo, bs, false)
    ensures forall fs :: Tiles(w, lo, bs, fs) ==> Tiles(w', lo, bs, fs)
    ensures SizesOk(bs) ==> forall hs :: ScarApart(w, lo, bs, hs) ==> ScarApart(w', lo, bs, hs)
  {
    hide Repr, Payload, Total, Tiles, Scar;
    if Repr(w, lo, bs, false) { StoreKeeps(w, w', lo, bs, false); }
    if Repr(w', lo, bs, false) { StoreKeeps(w', w, lo, bs, false); }
    forall fs | Tiles(w, lo, bs, fs)
      ensures Tiles(w', lo, bs, fs)
    {
      StoreKeepsTiles(w, w', lo, bs, fs);
    }
    if SizesOk(bs) { StoreKeepsScars(w, w', lo, bs); }
  }

  lemma Ends(h: int, size: int)
    requires Rounded(h) && Rounded(size)
    ensures Aligned(h + HDR_SZ) && Aligned(h + size) && Aligned(h + size - HDR_SZ)
  {
    RoundedAligned(h);
    Alignment(h, size);
    Eights(h / 8 + 1);
  }

  /** A word that starts outside an aligned range is untouched by writes inside it. */
  lemma WordOutside(s: seq<byte>, t: seq<byte>, a: int, from: int, to: int)
    requires |s| == |t| && Aligned(from) && Aligned(to) && (a < from || a >= to)
    requires forall k :: 0 <= k < |s| && !(from <= k < to) ==> t[k] == s[k]
    ensures At(View(t), a) == At(View(s), a)
  {
    hide At;
    if a in View(s) {
      WholeWordBefore(a, from);
      hide View, Aligned;
      SameWord(s, t, a);
    } else {
      hide Aligned;
      Absent(s, t, a);
    }
  }

  lemma WholeWordBefore(a: int, from: int)
    requires Aligned(from) && Aligned(a)
    ensures a < from ==> a + WORD_BYTES <= from
  {
  }

  lemma Absent(s: seq<byte>, t: seq<byte>, a: int)
    requires |s| == |t| && a !in View(s)
    ensures At(View(t), a) == At(View(s), a)
  {
  }

  /** Writes inside a fresh payload are not seen by the older ones. */
  lemma KeptApart(r: seq<byte>, s: seq<byte>, t: seq<byte>, before: map<int, int>,
                  after: map<int, int>, h: int, limit: int)
    requires Kept(r, s, before) && |s| == |t| && Sane(after, limit)
    requires h in after && h !in before && after == before[h := after[h]]
    requires forall k :: 0 <= k < |s| && !(h + HDR_SZ <= k < after[h]) ==> t[k] == s[k]
    ensures Kept(r, t, before)
  {
    forall a | 0 <= a < |r| && Covered(before, a)
      ensures t[a] == r[a]
    {
      var k :| k in before && k + HDR_SZ <= a < before[k];
      assert k in after && after[k] == before[k];
    }
  }

  lemma Owned(live: map<int, int>, maps: map<int, int>, h: int)
    requires h in PayloadsOf(live, maps)
    ensures h in maps || h in live
  {
  }

  lemma LentWhere(before: map<int, int>, after: map<int, int>, p: nat, sz: nat) returns (g: int)
    requires Lent(before, after, p, sz)
    ensures LentIn(before, after, g, p, sz)
  {
    g :| LentIn(before, after, g, p, sz);
  }

  lemma LentBounds(before: map<int, int>, after: map<int, int>, g: int, p: nat, sz: nat, limit: nat)
    requires Sane(after, limit) && LentIn(before, after, g, p, sz)
    ensures g in after && p + sz <= limit && g + HDR_SZ <= p && p + sz <= after[g] && g >= 0
    ensures g in after && g !in before && after == before[g := after[g]]
  {
  }

  /** What was handed out is clear of every older payload. */
  lemma LentApart(before: map<int, int>, after: map<int, int>, g: int, p: nat, sz: nat, h: int, limit: nat)
    requires Sane(after, limit) && LentIn(before, after, g, p, sz) && h in before
    ensures h in after && after[h] == before[h] && h != g && 0 <= h && h + HDR_SZ <= before[h] <= limit
    ensures before[h] + HDR_SZ <= p || p + sz <= h
  {
  }

  lemma CopiedInside(s: seq<byte>, dest: nat, src: nat, n: nat)
    requires dest + n <= |s| && src + n <= |s|
    ensures |Copied(s, dest, src, n)| == |s|
    ensures forall k :: 0 <= k < |s| && !(dest <= k < dest + n) ==> Copied(s, dest, src, n)[k] == s[k]
  {
  }

  lemma FilledInside(s: seq<byte>, dest: nat, n: nat)
    requires dest + n <= |s|
    ensures |Filled(s, dest, 0, n)| == |s| && Zeros(Filled(s, dest, 0, n), dest, n)
    ensures forall k :: 0 <= k < |s| && !(dest <= k < dest + n) ==> Filled(s, dest, 0, n)[k] == s[k]
  {
  }

  /** The mappings after a move: the old block's is given up, a large new one's is added. */
  function MapsMoved(m: map<int, int>, h: int, g: int, sz: nat): map<int, int> {
    if sz >= MMAP_LIMIT then (m - {h})[g := Bits.MmapTotal(sz)] else m - {h}
  }

  lemma MovedMaps(m: map<int, int>, h: int, g: int, sz: nat)
    requires g != h
    ensures (if sz >= MMAP_LIMIT then m[g := Bits.MmapTotal(sz)] else m) - {h} == MapsMoved(m, h, g, sz)
  {
    hide Bits.MmapTotal;
  }

  /** The block list after a request of `sz` bytes. */
  function BlocksServed(bs: seq<Block>, sz: nat, served: bool): seq<Block> {
    if 0 < sz < MMAP_LIMIT then AllocList(bs, Need(sz), served) else bs
  }

  /** The index of the live block at `h`. */
  function IndexAt(bs: seq<Block>, lo: int, h: int): nat {
    if bs == [] || (bs[0].alloc && lo == h) then 0 else 1 + IndexAt(bs[1..], lo + bs[0].size, h)
  }

  /** The block list after the pointer behind `h` is given up; a mapping is no part of it. */
  function BlocksFreed(bs: seq<Block>, maps: map<int, int>, lo: int, h: int): seq<Block> {
    if h in maps || IndexAt(bs, lo, h) >= |bs| then bs else Freed(bs, IndexAt(bs, lo, h))
  }

  /** The block list after a live block was moved to a new one of `sz` bytes. */
  function BlocksMoved(bs: seq<Block>, maps: map<int, int>, lo: int, h: int, sz: nat): seq<Block> {
    BlocksFreed(BlocksServed(bs, sz, true), maps, lo, h)
  }

  lemma MovedBlocks(bs: seq<Block>, maps: map<int, int>, maps': map<int, int>, lo: int, lo': int, h: int, sz: nat)
    requires (h in maps' <==> h in maps) && (h !in maps ==> lo' == lo) && sz > 0
    ensures BlocksFreed(BlocksServed(bs, sz, true), maps', lo', h) == BlocksMoved(bs, maps, lo, h, sz)
    ensures BlocksServed(bs, sz, true) == if sz < MMAP_LIMIT then AllocList(bs, Need(sz), true) else bs
  {
    hide AllocList, Freed;
  }

  lemma {:induction false} IndexFound(bs: seq<Block>, lo: int, i: nat)
    requires SizesOk(bs) && i < |bs| && bs[i].alloc
    ensures IndexAt(bs, lo, lo + Total(bs[..i])) == i
  {
    if i == 0 {
      assert bs[..0] == [];
    } else {
      var rest := bs[1..];
      assert bs[..i][1..] == rest[..i - 1] && bs[..i][0] == bs[0];
      CutSizes(rest, i - 1);
      TotalBound(rest[..i - 1]);
      IndexFound(rest, lo + bs[0].size, i - 1);
    }
  }

  lemma FreedHere(bs: seq<Block>, maps: map<int, int>, lo: int, i: nat)
    requires WellFormed(bs) && i < |bs| && bs[i].alloc && lo + Total(bs[..i]) !in maps
    ensures BlocksFreed(bs, maps, lo, lo + Total(bs[..i])) == Freed(bs, i)
  {
    hide Total, Freed;
    IndexFound(bs, lo, i);
  }

  lemma NothingFreed(bs: seq<Block>, maps: map<int, int>, lo: int, h: int)
    requires h in maps
    ensures BlocksFreed(bs, maps, lo, h) == bs
  {
  }

  /** When moving a block is safe as written: the new one is mapped or allocated safely, and the old one is
      a mapping or, after that, the topmost block in use. */
  ghost predicate MoveSafe(bs: seq<Block>, maps: map<int, int>, lo: int, h: int, newSz: nat) {
    var small := newSz < MMAP_LIMIT;
    && (small ==> AllocSafe(bs, Need(newSz), true))
    && (h in maps || Topmost(LiveMap(if small then AllocList(bs, Need(newSz), true) else bs, lo), h))
  }

  /** The division test on the wrapped product finds exactly the products that do not fit. */
  lemma OverflowTest(n: nat, sz: nat)
    requires n < WORD && sz < WORD
    ensures n != 0 && (Product(n, sz) % WORD) / n != sz <==> Product(n, sz) >= WORD
  {
    var total := Product(n, sz) % WORD;
    if n != 0 {
      if Product(n, sz) < WORD {
        assert total == n * sz + 0;
        Bits.Remainder(n, sz, 0);
      } else {
        assert n * (total / n) <= total < n * sz;
      }
    }
  }

  function Product(n: nat, sz: nat): nat { n * sz }

  ghost predicate Zeros(s: seq<byte>, p: nat, n: nat) {
    p + n <= |s| && forall k :: p <= k < p + n ==> s[k] == 0
  }

  /** `ptr` was given up for `np`. */
  ghost predicate Moved(before: map<int, int>, after: map<int, int>, ptr: nat, np: nat, sz: nat) {
    np - HDR_SZ !in before && Handed(before - {ptr - HDR_SZ}, after, np, sz)
  }

  ghost predicate SameBytes(s: seq<byte>, p: nat, t: seq<byte>, q: nat, n: int) {
    0 <= n && p + n <= |s| && q + n <= |t| && t[q..q + n] == s[p..p + n]
  }

  lemma KeptSame(s: seq<byte>, payloads: map<int, int>)
    ensures Kept(s, s, payloads)
  {
  }

  /** Allocate, copy, free: the copied bytes and every other live byte survive. */
  lemma MovedOutcome(s0: seq<byte>, s1: seq<byte>, s2: seq<byte>, s3: seq<byte>, p0: map<int, int>, p1: map<int, int>,
                     ptr: nat, g: int, np: nat, newSz: nat, cp: nat)
    requires |s0| == |s1| == |s2| == |s3| && Sane(p1, |s0|)
    requires ptr - HDR_SZ in p0 && LentIn(p0, p1, g, np, newSz)
    requires cp <= newSz && ptr + cp <= p0[ptr - HDR_SZ] && ptr + cp <= |s1| && np + cp <= |s1|
    requires Kept(s0, s1, p0) && Kept(s0, s2, p0)
    requires s2 == Copied(s1, np, ptr, cp)
    requires Kept(s2, s3, p1)
    ensures Lent(p0 - {ptr - HDR_SZ}, p1 - {ptr - HDR_SZ}, np, newSz)
    ensures Handed(p0, p1, np, newSz) ==> Moved(p0, p1 - {ptr - HDR_SZ}, ptr, np, newSz)
    ensures Kept(s0, s3, p0)
    ensures SameBytes(s0, ptr, s3, np, cp)
  {
    var h, p3 := ptr - HDR_SZ, p1 - {ptr - HDR_SZ};
    assert p3 == (p0 - {h})[g := p3[g]];
    assert LentIn(p0 - {h}, p3, g, np, newSz);
    KeptMore(s2, s3, p0, p1, g);
    KeptTwice(s0, s2, s3, p0);
    KeptSlice(s0, s1, p0, h, ptr, cp);
    CopiedSlice(s1, np, ptr, cp);
    KeptSlice(s2, s3, p1, g, np, cp);
  }

  /** In a fresh mapping only its header was written before the copy. */
  ghost predicate HeaderOnly(s: seq<byte>, t: seq<byte>, p: nat) {
    |s| == |t| && forall a :: 0 <= a < |s| && !(p - HDR_SZ <= a < p) ==> t[a] == s[a]
  }

  lemma HeaderWritten(s: seq<byte>, m: nat, v: nat)
    requires m + HDR_SZ <= |s|
    ensures HeaderOnly(s, Patched(s, m, v), m + HDR_SZ)
  {
  }

  lemma MovedFresh(s0: seq<byte>, s1: seq<byte>, s2: seq<byte>, s3: seq<byte>, p0: map<int, int>, p1: map<int, int>,
                   ptr: nat, g: int, np: nat, newSz: nat, cp: nat)
    requires |s0| == |s1| == |s2| == |s3| && Sane(p1, |s0|) && LentIn(p0, p1, g, np, newSz) && cp <= newSz
    requires HeaderOnly(s0, s1, np) && Kept(s2, s3, p1) && SameBytes(s0, ptr, s3, np, cp)
    requires forall k :: 0 <= k < |s1| && !(np <= k < np + cp) ==> s2[k] == s1[k]
    ensures Refilled(s0, s3, ptr, np, cp, newSz)
  {
    LentBounds(p0, p1, g, np, newSz, |s0|);
    forall a | np <= a < np + newSz
      ensures s3[a] == if a - np < cp then s0[ptr + (a - np)] else s0[a]
    {
      if a - np < cp {
        assert s3[np..np + cp][a - np] == s0[ptr..ptr + cp][a - np];
      } else {
        assert g in p1 && g + HDR_SZ <= a < p1[g];
        assert Covered(p1, a);
      }
    }
  }

  lemma KeptMore(s: seq<byte>, t: seq<byte>, before: map<int, int>, after: map<int, int>, g: int)
    requires Kept(s, t, after) && g !in before && g in after && after == before[g := after[g]]
    ensures Kept(s, t, before)
  {
    forall a | Covered(before, a)
      ensures Covered(after, a)
    {
      var k :| k in before && k + HDR_SZ <= a < before[k];
      assert k in after && after[k] == before[k];
    }
  }

  lemma KeptTwice(r: seq<byte>, s: seq<byte>, t: seq<byte>, payloads: map<int, int>)
    requires Kept(r, s, payloads) && Kept(s, t, payloads)
    ensures Kept(r, t, payloads)
  {
    hide Covered;
  }

  lemma CopiedSlice(s: seq<byte>, dest: nat, src: nat, n: nat)
    requires dest + n <= |s| && src + n <= |s|
    ensures Copied(s, dest, src, n)[dest..dest + n] == s[src..src + n]
    ensures |Copied(s, dest, src, n)| == |s|
  {
  }

  lemma KeptSlice(s: seq<byte>, t: seq<byte>, payloads: map<int, int>, h: int, a: nat, n: nat)
    requires Kept(s, t, payloads) && h in payloads
    requires h + HDR_SZ <= a && a + n <= payloads[h] && a + n <= |s|
    ensures t[a..a + n] == s[a..a + n]
  {
    forall k | a <= k < a + n
      ensures t[k] == s[k]
    {
      assert h in payloads && h + HDR_SZ <= k < payloads[h];
    }
  }

  lemma LiveRounded(bs: seq<Block>, lo: int)
    requires WellFormed(bs) && Rounded(lo)
    ensures RoundedMap(LiveMap(bs, lo))
  {
    forall h | h in LiveMap(bs, lo)
      ensures Rounded(h) && Rounded(LiveMap(bs, lo)[h])
    {
      LiveMapRange(bs, lo);
      var i := LiveIndex(bs, lo, h);
      RoundedSum(lo, h - lo);
    }
  }

  /** Where a payload byte comes from. */
  lemma CoveredPart(live: map<int, int>, maps: map<int, int>, a: int)
    requires Covered(PayloadsOf(live, maps), a)
    ensures Inside(live, a) || exists m :: m in maps && m + HDR_SZ <= a < m + maps[m]
  {
    var ps := PayloadsOf(live, maps);
    var h :| h in ps && h + HDR_SZ <= a < ps[h];
    if h in maps {
      assert h + HDR_SZ <= a < h + maps[h];
    } else {
      assert h in live && h + 8 <= a < h + live[h] - 8;
    }
  }

  lemma HandedOut(live: map<int, int>, live': map<int, int>, maps: map<int, int>, h: int, need: nat)
    requires h in live' && h !in live && h !in maps && live' == live[h := live'[h]]
    requires Rounded(h) && h >= 0 && live'[h] >= need >= OVERHEAD
    ensures Handed(PayloadsOf(live, maps), PayloadsOf(live', maps), h + HDR_SZ, need - OVERHEAD)
  {
    var before, after := PayloadsOf(live, maps), PayloadsOf(live', maps);
    assert after[h] == h + live'[h] - HDR_SZ;
    assert after == before[h := after[h]];
  }

  /** Granting matters only when nothing fits, and then decides whether there is an answer. */
  lemma SearchGranted(w: Words, lo: int, hi: int, bs: seq<Block>, need: nat, granted: bool, repaired: bool)
    requires Represents(w, lo, hi, bs) && need >= MIN_BLOCK
    ensures var r := Allocate(w, lo, hi, need, granted, repaired).result;
      && (r.Found? ==> r.addr >= lo)
      && (r.Found? <==> FirstFit(bs, need) < |bs| || granted)
      && AllocList(bs, need, granted) == AllocList(bs, need, r.Found?)
      && AllocSafe(bs, need, granted) == AllocSafe(bs, need, r.Found?)
      && (r == NotFound ==> AllocList(bs, need, granted) == bs && AllocSafe(bs, need, granted))
  {
    hide Repr, Take, TakeWhole, Grow, TakeFit, Extend, Total, PageUp;
    FindRefines(w, lo, hi, bs, false, need);
    FirstFitIsFirst(bs, need);
    if FirstFit(bs, need) < |bs| {
      BlockAt(w, lo, bs, FirstFit(bs, need));
    } else {
      PageUpBounds(need);
      GrowMerges(w, lo, hi, bs, PageUp(need), repaired);
    }
  }

  lemma WordInside(h: int, end: int, a: int)
    requires Rounded(h) && h + HDR_SZ <= a < end
    ensures Aligned(a - a % WORD_BYTES) && h + HDR_SZ <= a - a % WORD_BYTES <= a
  {
  }

  lemma HandedMore(before: map<int, int>, after: map<int, int>, p: nat, sz: nat, sz': nat)
    requires sz' <= sz
    ensures Handed(before, after, p, sz) ==> Handed(before, after, p, sz')
  {
  }

  lemma LentMore(before: map<int, int>, after: map<int, int>, p: nat, sz: nat, sz': nat)
    requires Lent(before, after, p, sz) && sz' <= sz
    ensures Lent(before, after, p, sz')
  {
    var g :| LentIn(before, after, g, p, sz);
    assert LentIn(before, after, g, p, sz');
  }

  lemma NothingLaid(w: Words, lo: int, bs: seq<Block>)
    requires Represents(w, lo, lo, bs)
    ensures bs == []
  {
    ReprWellFormed(w, lo, bs, false);
    TotalBound(bs);
  }

  lemma NothingRepr(w: Words, lo: int)
    ensures Represents(w, lo, lo, [])
  {
  }

  lemma AlignBreak(cur: nat)
    requires cur <= ADDRESS_LIMIT
    ensures var al := Bits.AlignUp(cur, ALIGN); cur <= al < cur + ALIGN && Rounded(al)
    ensures Bits.AlignUp(cur, ALIGN) % 16 == 0
    ensures Bits.AlignUp(cur, ALIGN) == if cur % 16 == 0 then cur else cur + 16 - cur % 16
  {
    Bits.Pow2Values();
    hide Bits.AlignUp, Pow;
    Bits.AlignUpValue(cur, 4);
    Bits.Unwrapped(cur + ALIGN - 1);
    NextMultiple(cur);
  }

  lemma NextMultiple(n: nat)
    ensures n + 15 - (n + 15) % 16 == if n % 16 == 0 then n else n + 16 - n % 16
    ensures (n + 15 - (n + 15) % 16) % 16 == 0
  {
  }

  // ---------------------------------------------------------------- what the kernel is asked

  /** The calls of `heap_init`: where is the break, and, unless it is a multiple of 16 already, move it up to
      the next one. */
  function SetupCalls(brk: int, answer: int): seq<KernelCall> {
    [BrkCall(0, brk)] + if brk % 16 == 0 then [] else [BrkCall(brk + 16 - brk % 16, answer)]
  }

  /** One growth of the break to `want` was asked for, after the set-up if that was due. */
  ghost predicate GrowthAsked(before: seq<KernelCall>, after: seq<KernelCall>, started: bool, brk: nat, want: int) {
    exists first, answer :: after ==
      (if started then before else before + SetupCalls(brk, first)) + [BrkCall(want, answer)]
  }

  /** Everything the kernel is asked for a request of `sz` bytes from the heap of the blocks `bs` below
      `top`: nothing when a block fits, else one growth; for a large request one mapping. */
  ghost predicate Asked(before: seq<KernelCall>, after: seq<KernelCall>, started: bool, brk: nat, top: int,
                        bs: seq<Block>, sz: nat)
  {
    if sz == 0 then after == before
    else if sz >= 131072 then exists answer :: after == before + [MmapCall(Bits.MmapTotal(sz), answer)]
    else if FirstFit(bs, Need(sz)) < |bs| then after == before
    else GrowthAsked(before, after, started, brk, top + PageUp(Need(sz)))
  }

  /** The last of these calls was needed and the kernel refused it. */
  ghost predicate Refused(calls: seq<KernelCall>, top: int, bs: seq<Block>, sz: nat) {
    && calls != []
    && var last := calls[|calls| - 1];
      if sz >= 131072 then last == MmapCall(Bits.MmapTotal(sz), -1)
      else
        && FirstFit(bs, Need(sz)) == |bs|
        && last.BrkCall? && last.addr == top + PageUp(Need(sz)) && last.answer != last.addr
  }

  lemma NothingAsked(before: seq<KernelCall>, started: bool, brk: nat, top: int, bs: seq<Block>)
    ensures Asked(before, before, started, brk, top, bs, 0)
  {
  }

  lemma LargeAsked(before: seq<KernelCall>, after: seq<KernelCall>, started: bool, brk: nat, top: int, bs: seq<Block>,
                   sz: nat, answer: int)
    requires sz >= MMAP_LIMIT && after == before + [MmapCall(Bits.MmapTotal(sz), answer)]
    ensures Asked(before, after, started, brk, top, bs, sz)
    ensures Refused(after, top, bs, sz) <==> answer == -1
  {
    hide Bits.MmapTotal;
  }

  lemma SmallAsked(before: seq<KernelCall>, mid: seq<KernelCall>, after: seq<KernelCall>, started: bool, brk: nat,
                   top: int, bs: seq<Block>, sz: nat, first: int, answer: int)
    requires 0 < sz < MMAP_LIMIT && FirstFit(bs, Need(sz)) <= |bs| && (started || bs == [])
    requires mid == if started then before else before + SetupCalls(brk, first)
    requires after == mid +
      if FirstFit(bs, Need(sz)) < |bs| then [] else [BrkCall(top + PageUp(Need(sz)), answer)]
    ensures Asked(before, after, started, brk, top, bs, sz)
    ensures Refused(after, top, bs, sz) <==>
      FirstFit(bs, Need(sz)) == |bs| && answer != top + PageUp(Need(sz))
  {
    hide Need, PageUp, FirstFit;
    var k := FirstFit(bs, Need(sz));
  }

  /** What giving up the pointer behind `h` asks of the kernel. */
  function FreeCalls(maps: map<int, int>, h: int): seq<KernelCall> {
    if h in maps then [MunmapCall(h, maps[h])] else []
  }

  /** A request was made and served, and then the pointer behind `h` was given up. */
  ghost predicate AskedThenFreed(before: seq<KernelCall>, after: seq<KernelCall>, started: bool, brk: nat, top: int,
                                 bs: seq<Block>, sz: nat, maps: map<int, int>, h: int)
  {
    exists mid :: Asked(before, mid, started, brk, top, bs, sz) && after == mid + FreeCalls(maps, h)
  }

  /** The record only grows. */
  lemma AskedGrows(before: seq<KernelCall>, after: seq<KernelCall>, started: bool, brk: nat, top: int, bs: seq<Block>,
                   sz: nat)
    requires Asked(before, after, started, brk, top, bs, sz)
    ensures before <= after
  {
    hide Bits.MmapTotal, Need, PageUp, FirstFit;
  }

  lemma AskedThenFreedGrows(before: seq<KernelCall>, after: seq<KernelCall>, started: bool, brk: nat, top: int,
                            bs: seq<Block>, sz: nat, maps: map<int, int>, h: int)
    requires AskedThenFreed(before, after, started, brk, top, bs, sz, maps, h)
    ensures before <= after
  {
    hide Asked;
    var mid :| Asked(before, mid, started, brk, top, bs, sz) && after == mid + FreeCalls(maps, h);
    AskedGrows(before, mid, started, brk, top, bs, sz);
  }

  lemma FreedAfter(before: seq<KernelCall>, mid: seq<KernelCall>, after: seq<KernelCall>, started: bool, brk: nat,
                   top: int, bs: seq<Block>, sz: nat, maps: map<int, int>, maps': map<int, int>, h: int)
    requires Asked(before, mid, started, brk, top, bs, sz) && !Refused(mid, top, bs, sz)
    requires (h in maps' <==> h in maps) && (h in maps ==> maps'[h] == maps[h])
    requires after == mid + FreeCalls(maps', h)
    ensures AskedThenFreed(before, after, started, brk, top, bs, sz, maps, h)
    ensures !Refused(after, top, bs, sz)
  {
    hide Asked, Bits.MmapTotal, Need, PageUp, FirstFit;
    assert after == mid + FreeCalls(maps, h);
    assert h !in maps ==> after == mid;
  }

  // ---------------------------------------------------------------- the walk

  lemma AtStart(bs: seq<Block>)
    ensures bs[..0] == [] && Total(bs[..0]) == 0 && bs[0..] == bs
  {
  }

  /** The walk at block `k`: in front of the end there is a block, its header says so, and the search
      goes on behind it unless it fits. */
  lemma WalkStep(w: Words, lo: int, bs: seq<Block>, k: nat)
    requires Repr(w, lo, bs, false) && k <= |bs| && lo + Total(bs[..k]) < lo + Total(bs)
    ensures k < |bs| && SizeOk(bs[k])
    ensures var o := lo + Total(bs[..k]);
      && o >= lo && Rounded(o - lo) && o + bs[k].size <= lo + Total(bs)
      && At(w, o) == Tag(bs[k].size, bs[k].alloc, k > 0 && !bs[k - 1].alloc)
      && GetSize(At(w, o)) == bs[k].size && IsAlloc(At(w, o)) == bs[k].alloc
      && lo + Total(bs[..k + 1]) == o + bs[k].size
    ensures forall need ::
      FirstFit(bs[k..], need) == (if !bs[k].alloc && bs[k].size >= need then 0 else 1 + FirstFit(bs[k + 1..], need))
  {
    hide GetSize, IsAlloc, Repr;
    assert bs[..|bs|] == bs;
    BlockAt(w, lo, bs, k);
    TagParts(bs[k].size, bs[k].alloc, k > 0 && !bs[k - 1].alloc);
    assert bs[k..][1..] == bs[k + 1..];
  }

  /** What the block that fits looks like. */
  lemma FitsHere(w: Words, lo: int, hi: int, bs: seq<Block>, need: int)
    requires Represents(w, lo, hi, bs) && Rounded(lo) && FirstFit(bs, need) < |bs|
    ensures var k, b := FirstFit(bs, need), bs[FirstFit(bs, need)];
      var cur := lo + Total(bs[..k]);
      && SizeOk(b) && !b.alloc && b.size >= need && cur >= lo && cur + b.size <= hi && Aligned(cur) && Rounded(cur)
      && At(w, cur) == Tag(b.size, false, k > 0 && !bs[k - 1].alloc) && GetSize(At(w, cur)) == b.size
  {
    hide Repr, Total, Tag, GetSize, Rounded, Aligned;
    var k := FirstFit(bs, need);
    FirstFitIsFirst(bs, need);
    BlockAt(w, lo, bs, k);
    TagParts(bs[k].size, false, k > 0 && !bs[k - 1].alloc);
    RoundedSum(lo, Total(bs[..k]));
    RoundedAligned(lo + Total(bs[..k]));
  }

  /** Where a request is served that fits nowhere, when the last block is in use. */
  lemma NotFitting(bs: seq<Block>, lo: int, need: nat)
    requires FirstFit(bs, need) >= |bs| && !LastFree(bs, false)
    ensures AllocAddr(bs, lo, need, true) == Found(lo + Total(bs))
  {
    assert bs[..|bs|] == bs;
  }

  lemma Before(a: int)
    requires Aligned(a)
    ensures Aligned(a - HDR_SZ)
  {
  }

  lemma AtEnd(w: Words, lo: int, bs: seq<Block>, k: nat)
    requires Repr(w, lo, bs, false) && k <= |bs| && lo + Total(bs[..k]) >= lo + Total(bs)
    ensures k == |bs| && bs[k..] == [] && forall need :: FirstFit(bs[k..], need) == 0
  {
    if k < |bs| {
      BlockAt(w, lo, bs, k);
    }
  }

  /** The header found at the block that `brk_grow` answers. */
  lemma Grown(w: Words, lo: int, hi: int, bs: seq<Block>, need: nat, repaired: bool)
    requires Represents(w, lo, hi, bs) && need >= MIN_BLOCK && Rounded(lo) && Rounded(hi)
    ensures var sz := PageUp(need);
      var m := Grow(w, lo, hi, sz, repaired);
      var size := if repaired then hi + sz - m.start else sz;
      && lo <= m.start && Rounded(m.start) && Aligned(m.start) && m.start + size == hi + sz
      && SizeOk(Block(size, false))
      && At(m.words, m.start) == Tag(size, false, !repaired && LastFree(bs, false))
  {
    hide Grow, Repr, Total, PageUp, Rounded, Aligned;
    var sz, back := PageUp(need), TailSize(bs);
    PageUpBounds(need);
    GrowEffect(w, lo, hi, bs, sz, repaired);
    GrowMerges(w, lo, hi, bs, sz, repaired);
    assert Rounded(back);
    RoundedSum(back, sz);
    RoundedDiff(hi, back);
    RoundedAligned(hi);
    RoundedAligned(hi - back);
  }

  /** The list `AllocList` describes the words after an allocation exactly when it is safe. */
  lemma AllocOutcome(w: Words, lo: int, hi: int, bs: seq<Block>, need: nat, granted: bool, repaired: bool)
    requires Represents(w, lo, hi, bs) && Rounded(need) && need >= MIN_BLOCK
    ensures var r := Allocate(w, lo, hi, need, granted, repaired);
      Represents(r.words, lo, r.hi, AllocList(bs, need, granted)) <==> repaired || AllocSafe(bs, need, granted)
  {
    hide GetSize, IsAlloc, PrevFreeBit, MarkPrevFree, ClearPrevFree, Grow, Take, TakeWhole, Repr, LiveMap,
      Total, TakeFit, Extend, PageUp, Place;
    if repaired || AllocSafe(bs, need, granted) {
      AllocateRefines(w, lo, hi, bs, need, granted, repaired);
    } else {
      FindRefines(w, lo, hi, bs, false, need);
      FirstFitIsFirst(bs, need);
      if FirstFit(bs, need) < |bs| {
        AllocateExact(w, lo, hi, bs, need, granted);
        ReprWellFormed(w, lo, bs, false);
        AllocListLive(bs, lo, need, granted);
      } else {
        PageUpBounds(need);
        StaleMismatch(w, lo, hi, bs, PageUp(need));
      }
    }
  }

  lemma StaleMismatch(w: Words, lo: int, hi: int, bs: seq<Block>, sz: nat)
    requires Represents(w, lo, hi, bs) && LastFree(bs, false) && Rounded(sz) && sz >= MIN_BLOCK
    ensures !Represents(TakeWhole(Grow(w, lo, hi, sz, false).words, hi + sz, hi), lo, hi + sz, Extend(bs, sz))
    ensures Grow(w, lo, hi, sz, false).start == hi
  {
    hide GetSize, IsAlloc, PrevFreeBit, Grow, Repr;
    var k := |bs| - 1;
    var m, o := Grow(w, lo, hi, sz, false), lo + Total(bs[..k]);
    GrowEffect(w, lo, hi, bs, sz, false);
    BlockAt(w, lo, bs, k);
    TagParts(sz, false, true);
    TagParts(hi + sz - o, false, false);
    var w' := TakeWhole(m.words, hi + sz, hi);
    assert At(w', o) == At(m.words, o) == Tag(hi + sz - o, false, false);
    if Represents(w', lo, hi + sz, Extend(bs, sz)) {
      ExtendedHeader(w', lo, bs, sz);
      assert false;
    }
  }

  lemma ExtendedHeader(w: Words, lo: int, bs: seq<Block>, sz: int)
    requires Repr(w, lo, Extend(bs, sz), false)
    ensures IsAlloc(At(w, lo + Total(bs[..KeptOnGrow(bs)])))
  {
    hide GetSize, IsAlloc, PrevFreeBit, Repr;
    var k, es := KeptOnGrow(bs), Extend(bs, sz);
    BlockAt(w, lo, es, k);
    assert es[..k] == bs[..k];
    TagParts(es[k].size, true, k > 0 && !es[k - 1].alloc);
  }

  /** The list `Freed` describes the words after a release exactly when it is safe. */
  lemma ReleaseOutcome(w: Words, lo: int, hi: int, bs: seq<Block>, i: nat, repaired: bool)
    requires Represents(w, lo, hi, bs) && i < |bs| && bs[i].alloc
    ensures Represents(Release(w, hi, lo + Total(bs[..i]), repaired), lo, hi, Freed(bs, i))
      <==> repaired || NoLiveAbove(bs, i)
  {
    hide Release, Repr, LiveMap, Total;
    ReprWellFormed(w, lo, bs, false);
    FreedList(bs, i, lo);
    if repaired || NoLiveAbove(bs, i) {
      ReleaseRefines(w, lo, hi, bs, i, repaired);
    } else {
      ReleaseLoses(w, lo, hi, bs, i);
      assert LiveMap(Freed(bs, i), lo).Keys == LiveMap(bs, lo).Keys - {lo + Total(bs[..i])};
    }
  }

  lemma StillScarred(w: Words, lo: int, hi: int, bs: seq<Block>, fs: seq<Flags>, i: nat, repaired: bool)
    requires WellFormed(bs) && Tiles(w, lo, bs, fs) && lo + Total(bs) == hi && i < |bs| && bs[i].alloc
    ensures !repaired && ScarApart(w, lo, bs, {lo + Total(bs[..i])}) ==>
      !Represents(Release(w, hi, lo + Total(bs[..i]), repaired), lo, hi, Freed(bs, i))
  {
    hide Release, Represents, Total, Freed, Tiles, Scar, WellFormed;
    if !repaired && ScarApart(w, lo, bs, {lo + Total(bs[..i])}) {
      var d: nat :| d < |bs| && Scar(w, lo, bs, d) && lo + Total(bs[..d]) != lo + Total(bs[..i]);
      ReleaseStaysScarred(w, lo, hi, bs, fs, i, d);
    }
  }

  // ---------------------------------------------------------------- alignment

  /** An aligned address below an aligned limit leaves room for a whole word. */
  lemma WholeWord(a: nat, limit: nat)
    requires a < limit && Aligned(a) && Aligned(limit)
    ensures a + HDR_SZ <= limit
  {
  }

  lemma RoundedAligned(n: int)
    requires Rounded(n)
    ensures Aligned(n)
  {
  }

  lemma RoundedDiff(m: int, n: int)
    requires Rounded(m) && Rounded(n)
    ensures Rounded(m - n)
  {
  }

  lemma Alignment(a: int, size: int)
    requires Aligned(a) && Rounded(size)
    ensures Aligned(a - HDR_SZ)
    ensures Aligned(a + size) && Aligned(a + size - HDR_SZ)
    ensures Aligned(a - size)
  {
    var m, k := a / 8, 2 * (size / 16);
    assert a == 8 * m && size == 8 * k;
    Eights(m - 1);
    Eights(m + k);
    Eights(m + k - 1);
    Eights(m - k);
  }

  lemma Eights(k: int)
    ensures Aligned(8 * k)
  {
  }

  lemma MarkBound(repaired: bool, tag: nat)
    requires tag < WORD
    ensures MarkPrevFree(repaired, tag) < WORD
    ensures ClearPrevFree(tag) < WORD
  {
  }
}
