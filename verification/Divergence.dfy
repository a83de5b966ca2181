/** Runs of the unrepaired heap: exactly which of them stay good, and one that hands out memory which
    is still in use. */
module Divergence {
  import opened BlockList
  import opened BoundaryTags
  import opened TagRefinement
  import opened HeapRuns
  import opened AsWritten
  import opened Frames

  // ---------------------------------------------------------------- which runs stay good

  /** The states from which a step of the code as written goes well, by tests a caller could make:
      a block is freed only with nothing live above it; a request finds a block that is not worth
      splitting, or the heap grows behind a block in use, or does not grow. */
  predicate SafeStep(s: World, e: Event) {
    match e
    case Malloc(need, granted) =>
      (match Find(s.w, s.lo, s.hi, need)
       case Fits(h) => GetSize(At(s.w, h)) - need < MIN_BLOCK
       case _ => !granted || s.lo == s.hi || IsAlloc(At(s.w, s.hi - HDR_SZ)))
    case Free(hdr) => forall h :: h in s.live ==> h <= hdr
    case Store(_, _) => true
  }

  lemma SafeMalloc(s: World, bs: seq<Block>, need: nat, granted: bool)
    requires Holds(s, bs) && need >= MIN_BLOCK
    ensures SafeStep(s, Malloc(need, granted)) <==> AllocSafe(bs, need, granted)
  {
    hide Repr, LiveMap, GetSize, IsAlloc, PrevFreeBit, Total, Tag, Find;
    FindRefines(s.w, s.lo, s.hi, bs, false, need);
    FirstFitIsFirst(bs, need);
    var i := FirstFit(bs, need);
    if i < |bs| {
      BlockAt(s.w, s.lo, bs, i);
      TagParts(bs[i].size, bs[i].alloc, i > 0 && !bs[i - 1].alloc);
    } else {
      LastFooter(s.w, s.lo, s.hi, bs);
    }
  }

  lemma SafeFree(s: World, bs: seq<Block>, hdr: int, i: nat)
    requires Holds(s, bs) && i < |bs| && bs[i].alloc && hdr == s.lo + Total(bs[..i])
    ensures SafeStep(s, Free(hdr)) <==> NoLiveAbove(bs, i)
  {
    hide Repr, LiveMap, Total;
    ReprWellFormed(s.w, s.lo, bs, false);
    if NoLiveAbove(bs, i) {
      forall k | k in s.live
        ensures k <= hdr
      {
        var j := LiveIndex(bs, s.lo, k);
        if j < i { TotalIncreases(bs, j, i); }
      }
    } else {
      var j :| i < j < |bs| && bs[j].alloc;
      BlockIsLive(bs, j, s.lo);
      TotalIncreases(bs, i, j);
    }
  }

  /** As written, a legal step keeps a good state good exactly when it is safe. */
  lemma StepExact(s: World, e: Event)
    requires Good(s) && Legal(s, e)
    ensures Good(Step(s, e, false)) <==> SafeStep(s, e)
  {
    var bs :| Holds(s, bs);
    match e
    case Malloc(need, granted) => MallocExact(s, bs, need, granted);
    case Free(hdr) =>
      var i := LiveIndex(bs, s.lo, hdr);
      FreeExact(s, bs, hdr, i);
    case Store(a, v) => StoreStep(s, bs, a, v, false);
  }

  lemma GoodKeeps(s: World)
    ensures Good(s) ==> Keeps(s.w, s.lo, s.hi, s.live.Keys)
  {
    if Good(s) {
      var bs :| Holds(s, bs);
    }
  }

  lemma MallocExact(s: World, bs: seq<Block>, need: nat, granted: bool)
    requires Holds(s, bs) && Rounded(need) && need >= MIN_BLOCK
    ensures Good(Step(s, Malloc(need, granted), false)) <==> SafeStep(s, Malloc(need, granted))
  {
    hide Represents, LiveMap, Allocate, AllocSafe, GetSize, AllocList, SafeStep;
    SafeMalloc(s, bs, need, granted);
    AllocateExact(s.w, s.lo, s.hi, bs, need, granted);
    var s' := Step(s, Malloc(need, granted), false);
    if AllocSafe(bs, need, granted) {
      MallocStep(s, bs, need, granted, false);
    } else {
      GoodKeeps(s');
      assert s'.live.Keys == LiveAfter(s.live.Keys, Allocate(s.w, s.lo, s.hi, need, granted, false).result);
    }
  }

  lemma FreeExact(s: World, bs: seq<Block>, hdr: int, i: nat)
    requires Holds(s, bs) && i < |bs| && bs[i].alloc && hdr == s.lo + Total(bs[..i]) && hdr in s.live
    ensures Good(Step(s, Free(hdr), false)) <==> SafeStep(s, Free(hdr))
  {
    hide Represents, LiveMap, Release, Total, Freed, SafeStep, NoLiveAbove;
    SafeFree(s, bs, hdr, i);
    ReleaseExact(s.w, s.lo, s.hi, bs, i);
    var s' := Step(s, Free(hdr), false);
    if NoLiveAbove(bs, i) {
      FreeStep(s, bs, hdr, i, false);
    } else {
      GoodKeeps(s');
      assert s'.live.Keys == s.live.Keys - {hdr};
    }
  }

  /** Every state on the way is good. */
  ghost predicate AllGood(s: World, es: seq<Event>)
    requires LegalRun(s, es, false)
    decreases es
  {
    Good(s) && (es != [] ==> AllGood(Step(s, es[0], false), es[1..]))
  }

  predicate SafeRun(s: World, es: seq<Event>)
    requires LegalRun(s, es, false)
    decreases es
  {
    es != [] ==> SafeStep(s, es[0]) && SafeRun(Step(s, es[0], false), es[1..])
  }

  /** As written, a legal run stays good all the way exactly when each of its steps is safe. */
  lemma {:induction false} RunExact(s: World, es: seq<Event>)
    requires Good(s) && LegalRun(s, es, false)
    ensures AllGood(s, es) <==> SafeRun(s, es)
    decreases es
  {
    if es != [] {
      StepExact(s, es[0]);
      hide Good, Step, SafeStep, Legal;
      if SafeStep(s, es[0]) {
        RunExact(Step(s, es[0], false), es[1..]);
      } else {
        NotGood(Step(s, es[0], false), es[1..]);
      }
    }
  }

  lemma NotGood(s: World, es: seq<Event>)
    requires LegalRun(s, es, false) && !Good(s)
    ensures !AllGood(s, es)
  {
  }

  // ---------------------------------------------------------------- a run that does not

  /** The blocks of three calls malloc(64), malloc(128), malloc(256), each growing the heap by a
      page; then the second is freed and malloc(5000) is called. */
  function Calls(lo: int): seq<Event> {
    [Malloc(80, true), Malloc(144, true), Malloc(272, true), Free(lo + PAGE), Malloc(5024, true)]
  }

  ghost predicate AllLive(bs: seq<Block>) { forall i :: 0 <= i < |bs| ==> bs[i].alloc }

  /** With every block in use, a small request grows the heap by one page, repaired or not. */
  lemma GrowStep(s: World, bs: seq<Block>, need: nat)
    requires Represents(s.w, s.lo, s.hi, bs) && AllLive(bs)
    requires Rounded(need) && MIN_BLOCK <= need <= PAGE
    ensures var s' := Step(s, Malloc(need, true), false);
      && Represents(s'.w, s.lo, s.hi + PAGE, bs + [Block(PAGE, true)])
      && s'.lo == s.lo && s'.hi == s.hi + PAGE && s'.live == s.live[s.hi := PAGE]
  {
    hide Allocate, Repr, GetSize, IsAlloc, PrevFreeBit, LiveMap;
    var bs' := bs + [Block(PAGE, true)];
    FirstFitIsFirst(bs, need);
    AllocateRefines(s.w, s.lo, s.hi, bs, need, true, false);
    assert PageUp(need) == PAGE;
    assert bs[..|bs|] == bs && bs[|bs|..] == [];
    assert AllocList(bs, need, true) == bs';
    var s' := Step(s, Malloc(need, true), false);
    BlockAt(s'.w, s.lo, bs', |bs|);
    assert bs'[..|bs|] == bs;
    TagParts(PAGE, true, false);
  }

  /** As written, freeing a block right below a live one and asking for a little more than a page
      returns a block that covers the live one; its owner's next store lands in the new block. */
  lemma Overlap(lo: int)
    ensures LegalRun(Fresh(lo), Calls(lo), false)
    ensures var s := Run(Fresh(lo), Calls(lo), false);
      && lo + 4096 in s.live && s.live[lo + 4096] == 5024
      && lo + 8192 in s.live && s.live[lo + 8192] == 4096
      && !Good(s)
  {
    hide Represents, LiveMap, Step, Good, Run, LegalRun;
    var s0, p := Fresh(lo), Block(PAGE, true);
    Empty(lo);
    GrowStep(s0, [], 80);
    var s1 := Step(s0, Malloc(80, true), false);
    assert [] + [p] == [p];
    GrowStep(s1, [p], 144);
    var s2 := Step(s1, Malloc(144, true), false);
    assert [p] + [p] == [p, p];
    GrowStep(s2, [p, p], 272);
    var s3 := Step(s2, Malloc(272, true), false);
    assert [p, p] + [p] == [p, p, p];
    assert lo + PAGE in s3.live && lo + 2 * PAGE in s3.live && s3.live[lo + 2 * PAGE] == PAGE;
    FreeCovers(s3, p);
    var s4 := Step(s3, Free(lo + PAGE), false);
    MallocCovers(s4);
    var s5 := Step(s4, Malloc(5024, true), false);
    Unfold(s0, Calls(lo), [s0, s1, s2, s3, s4, s5]);
    assert lo + PAGE in s5.live && lo + 2 * PAGE in s5.live;
    if Good(s5) {
      GoodMeans(s5);
      assert false;
    }
  }

  lemma Empty(lo: int)
    ensures Represents(map[], lo, lo, [])
  {
  }

  lemma FreeCovers(s: World, p: Block)
    requires p == Block(PAGE, true) && Represents(s.w, s.lo, s.hi, [p, p, p]) && s.lo + PAGE in s.live
    ensures var s' := Step(s, Free(s.lo + PAGE), false);
      && At(s'.w, s.lo) == Tag(PAGE, true, false) && At(s'.w, s.lo + PAGE) == Tag(2 * PAGE, false, false)
      && s'.lo == s.lo && s'.hi == s.hi && s'.live == s.live - {s.lo + PAGE}
  {
    hide Repr, GetSize, IsAlloc, PrevFreeBit, Release;
    var bs := [p, p, p];
    assert bs[..0] == [] && bs[..1] == [p];
    Short([p], 0);
    BlockAt(s.w, s.lo, bs, 0);
    ReleaseEffect(s.w, s.lo, s.hi, bs, 1, false);
  }

  lemma MallocCovers(s: World)
    requires At(s.w, s.lo) == Tag(PAGE, true, false) && At(s.w, s.lo + PAGE) == Tag(2 * PAGE, false, false)
    requires s.hi == s.lo + 3 * PAGE
    ensures Step(s, Malloc(5024, true), false).live == s.live[s.lo + PAGE := 5024]
  {
    hide GetSize, IsAlloc, PrevFreeBit, Take;
    TagParts(PAGE, true, false);
    TagParts(2 * PAGE, false, false);
    assert Find(s.w, s.lo + PAGE, s.hi, 5024) == Fits(s.lo + PAGE);
    assert Find(s.w, s.lo, s.hi, 5024) == Fits(s.lo + PAGE);
    TakeEffect(s.w, s.hi, s.lo + PAGE, 5024, Block(2 * PAGE, false), false, false);
    TagParts(5024, true, false);
  }

  /** A run is its chain of states. */
  lemma {:induction false} Unfold(s: World, es: seq<Event>, ss: seq<World>)
    requires |ss| == |es| + 1 && ss[0] == s
    requires forall i :: 0 <= i < |es| ==> Legal(ss[i], es[i]) && ss[i + 1] == Step(ss[i], es[i], false)
    ensures LegalRun(s, es, false) && Run(s, es, false) == ss[|es|]
    decreases es
  {
    hide Legal, Step;
    if es != [] {
      Unfold(ss[1], es[1..], ss[1..]);
    }
  }
}
