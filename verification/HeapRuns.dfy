/** Whole runs of the brk heap: allocations, releases and client stores in any order. */
module HeapRuns {
  import opened BlockList
  import opened BoundaryTags
  import opened Tiling
  import opened TagRefinement
  import opened Frames

  // ---------------------------------------------------------------- runs

  /** Words and bounds of the heap, and what its clients know: the live blocks (header -> size) and
      the words they last stored into them. */
  datatype World = World(w: Words, lo: int, hi: int, live: map<int, int>, stored: map<int, nat>)

  datatype Event = Malloc(need: nat, granted: bool) | Free(hdr: int) | Store(addr: int, value: nat)

  /** What a client may do: ask for a rounded size, free a live block once, store into live payload. */
  ghost predicate Legal(s: World, e: Event) {
    match e
    case Malloc(need, _) => Rounded(need) && need >= MIN_BLOCK
    case Free(hdr) => hdr in s.live
    case Store(a, _) => Inside(s.live, a)
  }

  function Step(s: World, e: Event, repaired: bool): World
    requires e.Free? ==> e.hdr in s.live
  {
    match e
    case Malloc(need, granted) =>
      var r := Allocate(s.w, s.lo, s.hi, need, granted, repaired);
      (match r.result
       case Found(h) => World(r.words, s.lo, r.hi, s.live[h := GetSize(At(r.words, h))], s.stored)
       case NotFound => World(r.words, s.lo, r.hi, s.live, s.stored))
    case Free(hdr) =>
      World(Release(s.w, s.hi, hdr, repaired), s.lo, s.hi, s.live - {hdr},
            map a | a in s.stored && !(hdr + 8 <= a < hdr + s.live[hdr] - 8) :: s.stored[a])
    case Store(a, v) => s.(w := s.w[a := v], stored := s.stored[a := v])
  }

  ghost predicate LegalRun(s: World, es: seq<Event>, repaired: bool)
    decreases es
  {
    es != [] ==> Legal(s, es[0]) && LegalRun(Step(s, es[0], repaired), es[1..], repaired)
  }

  ghost function Run(s: World, es: seq<Event>, repaired: bool): World
    requires LegalRun(s, es, repaired)
    decreases es
  {
    if es == [] then s else Run(Step(s, es[0], repaired), es[1..], repaired)
  }

  /** The heap is as documented, its live blocks are the clients' live blocks, and every word a
      client stored into a live block is still there. */
  ghost predicate Good(s: World) { exists bs :: Holds(s, bs) }

  ghost predicate Holds(s: World, bs: seq<Block>) {
    && Represents(s.w, s.lo, s.hi, bs) && LiveMap(bs, s.lo) == s.live
    && (forall a :: a in s.stored ==> Inside(s.live, a) && At(s.w, a) == s.stored[a])
  }

  /** One allocation, repaired or safe, from a state whose heap is the list `bs`. */
  lemma MallocStep(s: World, bs: seq<Block>, need: nat, granted: bool, repaired: bool)
    requires Holds(s, bs) && Rounded(need) && need >= MIN_BLOCK
    requires repaired || AllocSafe(bs, need, granted)
    ensures var s' := Step(s, Malloc(need, granted), repaired);
      && Holds(s', AllocList(bs, need, granted))
      && s'.lo == s.lo && (s'.hi == s.hi || (granted && s'.hi == s.hi + PageUp(need)))
      && (s'.live == s.live ||
          exists h {:trigger s'.live[h]} ::
            h in s'.live && h !in s.live && s'.live == s.live[h := s'.live[h]] && s'.live[h] >= need)
  {
    hide Allocate, Repr, LiveMap, GetSize, IsAlloc, PrevFreeBit, Total, PageUp, FirstFit, AllocList, AllocAddr,
      AllocSafe;
    var r, bs' := Allocate(s.w, s.lo, s.hi, need, granted, repaired), AllocList(bs, need, granted);
    ReprWellFormed(s.w, s.lo, bs, false);
    AllocateRefines(s.w, s.lo, s.hi, bs, need, granted, repaired);
    AllocListLive(bs, s.lo, need, granted);
    PageUpBounds(need);
    forall a | Inside(s.live, a)
      ensures At(r.words, a) == At(s.w, a)
    {
      PayloadOwner(bs, s.lo, a);
      AllocateSpares(s.w, s.lo, s.hi, bs, need, granted, repaired, a);
    }
    if r.result.Found? {
      assert r.result.addr in LiveMap(bs', s.lo);
      LiveHeader(r.words, s.lo, bs', false, r.result.addr);
    }
    InsideGrows(s.live, Step(s, Malloc(need, granted), repaired).live);
  }

  lemma InsideGrows(live: map<int, int>, live': map<int, int>)
    requires forall h :: h in live ==> h in live' && live'[h] == live[h]
    ensures forall a :: Inside(live, a) ==> Inside(live', a)
  {
    forall a | Inside(live, a)
      ensures Inside(live', a)
    {
      var h :| h in live && h + 8 <= a < h + live[h] - 8;
      assert h in live';
    }
  }

  /** Freeing, repaired or safe, gives up exactly one block; every other live payload is untouched. */
  lemma FreeStep(s: World, bs: seq<Block>, hdr: int, i: nat, repaired: bool)
    requires Holds(s, bs) && i < |bs| && bs[i].alloc && hdr == s.lo + Total(bs[..i]) && hdr in s.live
    requires repaired || NoLiveAbove(bs, i)
    ensures Holds(Step(s, Free(hdr), repaired), Freed(bs, i))
  {
    hide Release, Repr, LiveMap, Total, Freed, Tiles;
    var s' := Step(s, Free(hdr), repaired);
    ReprWellFormed(s.w, s.lo, bs, false);
    ReleaseRefines(s.w, s.lo, s.hi, bs, i, repaired);
    FreedList(bs, i, s.lo);
    LiveDisjoint(bs, s.lo);
    ReprTiles(s.w, s.lo, bs);
    forall a | a in s'.stored
      ensures Inside(s'.live, a) && At(s'.w, a) == At(s.w, a)
    {
      var h :| h in s.live && h + 8 <= a < h + s.live[h] - 8;
      assert h in s'.live && s'.live[h] == s.live[h];
      PayloadOwner(bs, s.lo, a);
      ReleaseSpares(s.w, s.lo, s.hi, bs, Documented(bs), i, repaired, a);
    }
  }

  lemma StoreStep(s: World, bs: seq<Block>, a: int, v: nat, repaired: bool)
    requires Holds(s, bs) && Inside(s.live, a)
    ensures Holds(Step(s, Store(a, v), repaired), bs)
  {
    hide Repr, LiveMap;
    ReprWellFormed(s.w, s.lo, bs, false);
    PayloadOwner(bs, s.lo, a);
    StoreKeeps(s.w, s.w[a := v], s.lo, bs, false);
  }

  /** Over every run of legal calls and stores, the repaired heap stays as documented, its live
      blocks are exactly the ones its clients hold, and it never loses or changes a stored word. */
  lemma {:induction false} RunKeeps(s: World, es: seq<Event>)
    requires Good(s) && LegalRun(s, es, true)
    ensures Good(Run(s, es, true))
    decreases es
  {
    if es != [] {
      StepKeeps(s, es[0]);
      hide Step, Good, Legal;
      RunKeeps(Step(s, es[0], true), es[1..]);
    }
  }

  lemma StepKeeps(s: World, e: Event)
    requires Good(s) && Legal(s, e)
    ensures Good(Step(s, e, true))
  {
    var bs :| Holds(s, bs);
    hide Step, LiveMap, Represents, Total;
    match e
    case Malloc(need, granted) => MallocStep(s, bs, need, granted, true);
    case Free(hdr) =>
      var i := LiveIndex(bs, s.lo, hdr);
      FreeStep(s, bs, hdr, i, true);
    case Store(a, v) => StoreStep(s, bs, a, v, true);
  }

  /** The heap right after `heap_init`. */
  function Fresh(lo: int): World { World(map[], lo, lo, map[], map[]) }

  /** The same from the start: after any legal run, clients' blocks are disjoint, their words intact,
      and with everything freed the whole heap is one free block. */
  lemma SafeFromStart(lo: int, es: seq<Event>)
    requires LegalRun(Fresh(lo), es, true)
    ensures var s := Run(Fresh(lo), es, true);
      && Good(s)
      && (forall h, k :: h in s.live && k in s.live && h < k ==> h + s.live[h] <= k)
      && (s.live == map[] && s.lo < s.hi ==> At(s.w, s.lo) == Tag(s.hi - s.lo, false, false))
  {
    hide Good, LegalRun, Run;
    FreshIsGood(lo);
    RunKeeps(Fresh(lo), es);
    GoodMeans(Run(Fresh(lo), es, true));
  }

  lemma FreshIsGood(lo: int)
    ensures Good(Fresh(lo))
  {
    assert Holds(Fresh(lo), []);
  }

  /** A request served from an existing block and released at once leaves the block list as it was. */
  lemma AllocateThenRelease(w: Words, lo: int, hi: int, bs: seq<Block>, need: nat, granted: bool)
    requires Represents(w, lo, hi, bs) && Rounded(need) && need >= MIN_BLOCK && FirstFit(bs, need) < |bs|
    ensures var r := Allocate(w, lo, hi, need, granted, true);
      r.result.Found? && r.hi == hi && Represents(Release(r.words, hi, r.result.addr, true), lo, hi, bs)
  {
    hide Allocate, Release, Repr, Total, Freed, TakeFit;
    var i, r := FirstFit(bs, need), Allocate(w, lo, hi, need, granted, true);
    FirstFitIsFirst(bs, need);
    ReprWellFormed(w, lo, bs, false);
    AllocateRefines(w, lo, hi, bs, need, granted, true);
    TakeThenFree(bs, i, need);
    TakePrefix(bs, i, need);
    assert AllocList(bs, need, granted) == TakeFit(bs, i, need) && r.hi == hi;
    ReleaseRefines(r.words, lo, hi, TakeFit(bs, i, need), i, true);
  }

  lemma TakePrefix(bs: seq<Block>, i: nat, need: int)
    requires i < |bs|
    ensures |TakeFit(bs, i, need)| > i && TakeFit(bs, i, need)[..i] == bs[..i]
  {
  }

  /** In a good state live blocks are disjoint and inside the heap; with none left, a heap that has
      grown is one single free block, in whatever order the frees came. */
  lemma GoodMeans(s: World)
    requires Good(s)
    ensures forall h :: h in s.live ==> s.lo <= h && h + s.live[h] <= s.hi && Rounded(h - s.lo)
    ensures forall h, k :: h in s.live && k in s.live && h < k ==> h + s.live[h] <= k
    ensures s.live == map[] && s.lo < s.hi ==>
      At(s.w, s.lo) == Tag(s.hi - s.lo, false, false) && At(s.w, s.hi - HDR_SZ) == Tag(s.hi - s.lo, false, false)
  {
    var bs :| Holds(s, bs);
    ReprWellFormed(s.w, s.lo, bs, false);
    LiveMapRange(bs, s.lo);
    LiveDisjoint(bs, s.lo);
    if s.live == map[] {
      NothingLive(bs, s.lo);
    }
  }
}
