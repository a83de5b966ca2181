/** The reference allocator: a heap is a list of (size, allocated) blocks.
    Nothing here knows about memory, headers or footers. */
module BlockList {

  const ALIGN := 16
  const OVERHEAD := 16
  const MIN_BLOCK := OVERHEAD + ALIGN
  const PAGE := 4096

  datatype Block = Block(size: int, alloc: bool)

  predicate Rounded(n: int) { n % ALIGN == 0 }

  predicate SizeOk(b: Block) {
    Rounded(b.size) && b.size >= MIN_BLOCK
  }

  function Total(bs: seq<Block>): int {
    if bs == [] then 0 else bs[0].size + Total(bs[1..])
  }

  /** Whether the block just before the end of `bs` is free; `pf` answers for the empty list. */
  predicate LastFree(bs: seq<Block>, pf: bool) {
    if bs == [] then pf else !bs[|bs| - 1].alloc
  }

  ghost predicate SizesOk(bs: seq<Block>) {
    forall i :: 0 <= i < |bs| ==> SizeOk(bs[i])
  }

  /** Sizes are legal and no two neighbours are both free. */
  ghost predicate WellFormed(bs: seq<Block>) {
    && SizesOk(bs)
    && (forall i :: 0 < i < |bs| ==> bs[i - 1].alloc || bs[i].alloc)
  }

  // ---------------------------------------------------------------- operations

  /** Index of the lowest free block that holds `need`, or |bs|. */
  function FirstFit(bs: seq<Block>, need: int): nat {
    if bs == [] then 0
    else if !bs[0].alloc && bs[0].size >= need then 0
    else 1 + FirstFit(bs[1..], need)
  }

  /** What a free block turns into when `need` bytes are taken from its front. */
  function Place(b: Block, need: int): seq<Block> {
    if b.size - need >= MIN_BLOCK then [Block(need, true), Block(b.size - need, false)]
    else [Block(b.size, true)]
  }

  function TakeFit(bs: seq<Block>, i: nat, need: int): seq<Block>
    requires i < |bs|
  {
    bs[..i] + Place(bs[i], need) + bs[i + 1..]
  }

  /** Number of blocks in front of the break that survive a growth unchanged. */
  function KeptOnGrow(bs: seq<Block>): nat
    ensures KeptOnGrow(bs) <= |bs|
  {
    if LastFree(bs, false) then |bs| - 1 else |bs|
  }

  /** Growth by `sz` bytes: the new bytes join a free last block and are handed out whole. */
  function Extend(bs: seq<Block>, sz: int): seq<Block> {
    var k := KeptOnGrow(bs);
    bs[..k] + [Block(Total(bs[k..]) + sz, true)]
  }

  function MergeFrom(bs: seq<Block>, i: nat): nat
    requires i < |bs|
    ensures MergeFrom(bs, i) <= i
  {
    if i > 0 && !bs[i - 1].alloc then i - 1 else i
  }

  function MergeTo(bs: seq<Block>, i: nat): nat
    requires i < |bs|
    ensures i < MergeTo(bs, i) <= |bs|
  {
    if i + 1 < |bs| && !bs[i + 1].alloc then i + 2 else i + 1
  }

  /** Block `i` becomes free and joins its free neighbours. */
  function Freed(bs: seq<Block>, i: nat): seq<Block>
    requires i < |bs|
  {
    var f, t := MergeFrom(bs, i), MergeTo(bs, i);
    bs[..f] + [Block(Total(bs[f..t]), false)] + bs[t..]
  }

  function PageUp(n: nat): nat { (n + PAGE - 1) / PAGE * PAGE }

  /** The heap after a request for a block of `need` bytes: the first fit, else growth if the
      kernel grants it. */
  function AllocList(bs: seq<Block>, need: nat, granted: bool): seq<Block> {
    var i := FirstFit(bs, need);
    if i < |bs| then TakeFit(bs, i, need)
    else if granted then Extend(bs, PageUp(need))
    else bs
  }

  datatype Search = NotFound | Found(addr: int)

  /** The header address that request is answered with, for a list laid out from `lo`. */
  function AllocAddr(bs: seq<Block>, lo: int, need: int, granted: bool): Search {
    var i := FirstFit(bs, need);
    FirstFitIsFirst(bs, need);
    if i < |bs| then Found(lo + Total(bs[..i]))
    else if granted then Found(lo + Total(bs[..KeptOnGrow(bs)]))
    else NotFound
  }

  // ---------------------------------------------------------------- live blocks

  /** Header address -> size of every allocated block, for a list laid out from `lo`. */
  function LiveMap(bs: seq<Block>, lo: int): map<int, int> {
    if bs == [] then map[]
    else
      var rest := LiveMap(bs[1..], lo + bs[0].size);
      if bs[0].alloc then rest[lo := bs[0].size] else rest
  }

  /** `a` is the address of a payload byte of an allocated block. */
  ghost predicate Payload(bs: seq<Block>, lo: int, a: int) {
    bs != [] &&
    ((bs[0].alloc && lo + 8 <= a < lo + bs[0].size - 8) || Payload(bs[1..], lo + bs[0].size, a))
  }

  // ---------------------------------------------------------------- lists in pieces

  lemma {:induction false} TotalAppend(xs: seq<Block>, ys: seq<Block>)
    ensures Total(xs + ys) == Total(xs) + Total(ys)
  {
    if xs == [] {
      assert xs + ys == ys;
    } else {
      assert (xs + ys)[1..] == xs[1..] + ys;
      TotalAppend(xs[1..], ys);
    }
  }

  lemma {:induction false} TotalBound(bs: seq<Block>)
    requires SizesOk(bs)
    ensures Total(bs) >= MIN_BLOCK * |bs|
    ensures Rounded(Total(bs))
  {
    if bs != [] {
      assert forall i :: 0 <= i < |bs[1..]| ==> bs[1..][i] == bs[i + 1];
      TotalBound(bs[1..]);
    }
  }

  lemma {:induction false} LiveMapAppend(xs: seq<Block>, ys: seq<Block>, lo: int)
    requires SizesOk(xs)
    requires SizesOk(ys)
    ensures LiveMap(xs + ys, lo) == LiveMap(xs, lo) + LiveMap(ys, lo + Total(xs))
  {
    if xs == [] {
      assert xs + ys == ys;
    } else {
      assert (xs + ys)[1..] == xs[1..] + ys;
      LiveMapAppend(xs[1..], ys, lo + xs[0].size);
      LiveMapRange(ys, lo + Total(xs));
      TotalBound(xs);
    }
  }

  lemma RoundedSum(m: int, n: int)
    requires Rounded(m) && Rounded(n)
    ensures Rounded(m + n)
  {
  }

  lemma {:induction false} LiveMapRange(bs: seq<Block>, lo: int)
    requires SizesOk(bs)
    ensures forall h :: h in LiveMap(bs, lo) ==>
      lo <= h && h + LiveMap(bs, lo)[h] <= lo + Total(bs) && LiveMap(bs, lo)[h] >= MIN_BLOCK
      && Rounded(h - lo)
  {
    assert Rounded(0);
    if bs != [] {
      hide Rounded;
      var rest := LiveMap(bs[1..], lo + bs[0].size);
      LiveMapRange(bs[1..], lo + bs[0].size);
      TotalBound(bs[1..]);
      forall h | h in rest
        ensures Rounded(h - lo)
      {
        RoundedSum(bs[0].size, h - (lo + bs[0].size));
      }
    }
  }

  lemma {:induction false} PayloadRange(bs: seq<Block>, lo: int, a: int)
    requires SizesOk(bs)
    requires Payload(bs, lo, a)
    ensures lo + 8 <= a < lo + Total(bs) - 8
  {
    TotalBound(bs[1..]);
    if !(bs[0].alloc && lo + 8 <= a < lo + bs[0].size - 8) {
      PayloadRange(bs[1..], lo + bs[0].size, a);
    }
  }

  /** `a` lies in the payload of one of the blocks `live` (header address -> size). */
  ghost predicate Inside(live: map<int, int>, a: int) {
    exists h :: h in live && h + 8 <= a < h + live[h] - 8
  }

  /** The two descriptions of live memory agree. */
  lemma {:induction false} PayloadOwner(bs: seq<Block>, lo: int, a: int)
    requires SizesOk(bs)
    ensures Payload(bs, lo, a) <==> Inside(LiveMap(bs, lo), a)
  {
    if bs != [] {
      var all, rest := LiveMap(bs, lo), LiveMap(bs[1..], lo + bs[0].size);
      PayloadOwner(bs[1..], lo + bs[0].size, a);
      LiveMapRange(bs[1..], lo + bs[0].size);
      assert forall h :: h in rest ==> h in all && all[h] == rest[h];
      assert Inside(rest, a) ==> Inside(all, a);
      assert bs[0].alloc ==> lo in all && all[lo] == bs[0].size;
      assert forall h :: h in all && !(bs[0].alloc && h == lo) ==> h in rest && rest[h] == all[h];
    }
  }

  /** Live blocks never overlap. */
  lemma {:induction false} LiveDisjoint(bs: seq<Block>, lo: int)
    requires SizesOk(bs)
    ensures forall h, k :: h in LiveMap(bs, lo) && k in LiveMap(bs, lo) && h < k ==>
      h + LiveMap(bs, lo)[h] <= k
  {
    if bs != [] {
      LiveDisjoint(bs[1..], lo + bs[0].size);
      LiveMapRange(bs[1..], lo + bs[0].size);
    }
  }

  // ---------------------------------------------------------------- the operations keep the list

  lemma {:induction false} FirstFitIsFirst(bs: seq<Block>, need: int)
    ensures FirstFit(bs, need) <= |bs|
    ensures forall j :: 0 <= j < FirstFit(bs, need) ==> bs[j].alloc || bs[j].size < need
    ensures FirstFit(bs, need) < |bs| ==>
      !bs[FirstFit(bs, need)].alloc && bs[FirstFit(bs, need)].size >= need
  {
    if bs != [] && !(!bs[0].alloc && bs[0].size >= need) {
      FirstFitIsFirst(bs[1..], need);
    }
  }

  lemma SizesAppend(xs: seq<Block>, ys: seq<Block>)
    ensures SizesOk(xs + ys) <==> SizesOk(xs) && SizesOk(ys)
  {
    hide SizeOk;
    assert forall i :: 0 <= i < |xs| ==> (xs + ys)[i] == xs[i];
    assert forall i :: 0 <= i < |ys| ==> (xs + ys)[|xs| + i] == ys[i];
  }

  lemma SplitAt(bs: seq<Block>, i: nat, j: nat)
    requires i <= j <= |bs|
    ensures bs == bs[..i] + bs[i..j] + bs[j..]
    ensures Total(bs) == Total(bs[..i]) + Total(bs[i..j]) + Total(bs[j..])
    ensures SizesOk(bs) ==> SizesOk(bs[..i]) && SizesOk(bs[i..j]) && SizesOk(bs[j..])
  {
    hide Total, SizeOk, SizesOk;
    assert bs[..j] == bs[..i] + bs[i..j];
    TotalAppend(bs[..i], bs[i..j]);
    SizesAppend(bs[..i], bs[i..j]);
    assert bs == bs[..j] + bs[j..];
    TotalAppend(bs[..j], bs[j..]);
    SizesAppend(bs[..j], bs[j..]);
  }

  ghost predicate KeysIn(m: map<int, int>, lo: int, hi: int) {
    forall h :: h in m ==> lo <= h < hi
  }

  lemma LiveMapJoin(xs: seq<Block>, ys: seq<Block>, zs: seq<Block>, lo: int)
    requires SizesOk(xs) && SizesOk(ys) && SizesOk(zs)
    ensures Total(xs + ys + zs) == Total(xs) + Total(ys) + Total(zs)
    ensures LiveMap(xs + ys + zs, lo) ==
      LiveMap(xs, lo) + LiveMap(ys, lo + Total(xs)) + LiveMap(zs, lo + Total(xs) + Total(ys))
    ensures KeysIn(LiveMap(xs, lo), lo, lo + Total(xs))
    ensures KeysIn(LiveMap(ys, lo + Total(xs)), lo + Total(xs), lo + Total(xs) + Total(ys))
    ensures KeysIn(LiveMap(zs, lo + Total(xs) + Total(ys)),
      lo + Total(xs) + Total(ys), lo + Total(xs) + Total(ys) + Total(zs))
  {
    hide Total, SizeOk, SizesOk, LiveMap;
    SizesAppend(xs, ys);
    LiveMapAppend(xs + ys, zs, lo);
    LiveMapAppend(xs, ys, lo);
    TotalAppend(xs + ys, zs);
    TotalAppend(xs, ys);
    LiveMapRange(xs, lo);
    LiveMapRange(ys, lo + Total(xs));
    LiveMapRange(zs, lo + Total(xs) + Total(ys));
  }

  /** A window without live blocks is rewritten: the new window's live blocks appear. */
  lemma ReplaceFree(xs: seq<Block>, ys: seq<Block>, mid: seq<Block>, zs: seq<Block>, lo: int)
    requires SizesOk(xs) && SizesOk(ys) && SizesOk(mid) && SizesOk(zs)
    requires Total(mid) == Total(ys) && LiveMap(ys, lo + Total(xs)) == map[]
    ensures Total(xs + mid + zs) == Total(xs + ys + zs)
    ensures LiveMap(xs + mid + zs, lo) == LiveMap(xs + ys + zs, lo) + LiveMap(mid, lo + Total(xs))
    ensures Total(ys) > 0 ==> lo + Total(xs) !in LiveMap(xs + ys + zs, lo)
  {
    hide LiveMap, Total, SizesOk;
    LiveMapJoin(xs, ys, zs, lo);
    LiveMapJoin(xs, mid, zs, lo);
    var k := lo + Total(xs) + Total(ys);
    Regroup(LiveMap(xs, lo), LiveMap(mid, lo + Total(xs)), LiveMap(zs, k), lo + Total(xs), k, k + Total(zs));
  }

  lemma Regroup(a: map<int, int>, b: map<int, int>, c: map<int, int>, lo: int, k: int, hi: int)
    requires KeysIn(b, lo, k) && KeysIn(c, k, hi)
    ensures a + b + c == a + map[] + c + b
  {
    assert b.Keys !! c.Keys by {
      forall h | h in b.Keys ensures h !in c.Keys { assert h in b; }
    }
  }

  /** The lowest fitting block is taken from its front: totals stay, one live block appears. */
  lemma TakeFitList(bs: seq<Block>, i: nat, need: int, lo: int)
    requires WellFormed(bs) && i < |bs| && !bs[i].alloc
    requires Rounded(need) && MIN_BLOCK <= need <= bs[i].size
    ensures Total(TakeFit(bs, i, need)) == Total(bs)
    ensures LiveMap(TakeFit(bs, i, need), lo) == LiveMap(bs, lo)[lo + Total(bs[..i]) := Place(bs[i], need)[0].size]
    ensures lo + Total(bs[..i]) !in LiveMap(bs, lo)
    ensures Place(bs[i], need)[0].size == if bs[i].size - need >= 32 then need else bs[i].size
  {
    assert Place(bs[i], need)[0].size == if bs[i].size - need >= 32 then need else bs[i].size;
    hide Place;
    PlaceTotal(bs[i], need);
    PlaceLive(bs[i], need, lo + Total(bs[..i]));
    SplitAt(bs, i, i + 1);
    assert bs[i..i + 1] == [bs[i]] && Total([bs[i]]) == bs[i].size;
    assert LiveMap([bs[i]], lo + Total(bs[..i])) == map[];
    ReplaceFree(bs[..i], [bs[i]], Place(bs[i], need), bs[i + 1..], lo);
  }

  /** `need` bytes were taken from block `i`: if 32 bytes or more are left, they are a free block right
      behind them, else the block was handed out whole. Nothing else changed. */
  ghost predicate TakenFrom(bs: seq<Block>, i: nat, need: int, bs': seq<Block>) {
    && i < |bs| <= |bs'| && bs'[..i] == bs[..i]
    && if bs[i].size - need >= 32 then
        && |bs'| == |bs| + 1 && bs'[i + 2..] == bs[i + 1..]
        && bs'[i] == Block(need, true) && bs'[i + 1] == Block(bs[i].size - need, false)
      else
        |bs'| == |bs| && bs'[i + 1..] == bs[i + 1..] && bs'[i] == Block(bs[i].size, true)
  }

  /** The split test in numbers. */
  lemma TakeFitNumbers(bs: seq<Block>, i: nat, need: int)
    requires i < |bs|
    ensures TakenFrom(bs, i, need, TakeFit(bs, i, need))
    ensures |TakeFit(bs, i, need)| == |bs| + 1 <==> bs[i].size - need >= 32
  {
    var bs' := TakeFit(bs, i, need);
    assert bs'[i + |Place(bs[i], need)|..] == bs[i + 1..];
  }

  lemma PlaceLive(b: Block, need: int, m: int)
    requires SizeOk(b) && Rounded(need) && MIN_BLOCK <= need <= b.size
    ensures LiveMap(Place(b, need), m) == map[m := Place(b, need)[0].size]
  {
    var p := Place(b, need);
    if |p| == 2 {
      assert p == [p[0]] + [p[1]];
      LiveMapAppend([p[0]], [p[1]], m);
    }
  }

  lemma PlaceTotal(b: Block, need: int)
    requires SizeOk(b) && Rounded(need) && MIN_BLOCK <= need <= b.size
    ensures Total(Place(b, need)) == b.size
    ensures SizesOk(Place(b, need))
  {
    var p := Place(b, need);
    if |p| == 2 {
      assert p == [p[0]] + [p[1]];
      TotalAppend([p[0]], [p[1]]);
    }
  }

  /** The window of block `i` and its free neighbours holds one live block, `bs[i]`. */
  lemma Window(bs: seq<Block>, i: nat, lo: int)
    requires WellFormed(bs) && i < |bs|
    ensures var f, t := MergeFrom(bs, i), MergeTo(bs, i);
      && Total(bs[..f]) == Total(bs[..i]) - Total(bs[f..i])
      && Total(bs[f..i]) == (if f < i then bs[i - 1].size else 0)
      && Total(bs[f..t]) == Total(bs[f..i]) + bs[i].size + (if i + 1 < t then bs[i + 1].size else 0)
      && (bs[i].alloc ==>
            LiveMap(bs[f..t], lo + Total(bs[..f])) == map[lo + Total(bs[..i]) := bs[i].size])
  {
    var f, t := MergeFrom(bs, i), MergeTo(bs, i);
    var p, n := bs[f..i], bs[i + 1..t];
    WindowSlices(bs, i);
    TotalAppend(bs[..f], p);
    Short(p, lo);
    Around(p, bs[i], n, lo + Total(bs[..f]));
  }

  lemma WindowSlices(bs: seq<Block>, i: nat)
    requires WellFormed(bs) && i < |bs|
    ensures var f, t := MergeFrom(bs, i), MergeTo(bs, i);
      && bs[..i] == bs[..f] + bs[f..i]
      && bs[f..t] == bs[f..i] + [bs[i]] + bs[i + 1..t]
      && bs[f..i] == (if f < i then [bs[i - 1]] else [])
      && bs[i + 1..t] == (if i + 1 < t then [bs[i + 1]] else [])
      && SizesOk(bs[f..i]) && SizesOk(bs[i + 1..t])
  {
  }

  lemma Around(p: seq<Block>, b: Block, n: seq<Block>, m: int)
    requires |p| <= 1 && |n| <= 1 && SizesOk(p) && SizesOk(n) && SizeOk(b)
    requires (p != [] ==> !p[0].alloc) && (n != [] ==> !n[0].alloc)
    ensures Total(p + [b] + n) == Total(p) + b.size + if n == [] then 0 else n[0].size
    ensures b.alloc ==> LiveMap(p + [b] + n, m) == map[m + Total(p) := b.size]
  {
    Short(p, m);
    Short([b], m + Total(p));
    Short(n, m + Total(p) + b.size);
    hide Total, SizesOk, LiveMap;
    assert SizesOk([b]);
    LiveMapJoin(p, [b], n, m);
  }

  lemma Short(bs: seq<Block>, lo: int)
    requires |bs| <= 1
    ensures Total(bs) == if bs == [] then 0 else bs[0].size
    ensures LiveMap(bs, lo) == if bs != [] && bs[0].alloc then map[lo := bs[0].size] else map[]
  {
  }

  /** Releasing block `i`: totals stay, exactly that block stops being live. */
  lemma FreedList(bs: seq<Block>, i: nat, lo: int)
    requires WellFormed(bs) && i < |bs| && bs[i].alloc
    ensures Total(Freed(bs, i)) == Total(bs)
    ensures LiveMap(Freed(bs, i), lo) == LiveMap(bs, lo) - {lo + Total(bs[..i])}
    ensures lo + Total(bs[..i]) in LiveMap(bs, lo) && LiveMap(bs, lo)[lo + Total(bs[..i])] == bs[i].size
  {
    var f, t := MergeFrom(bs, i), MergeTo(bs, i);
    Window(bs, i, lo);
    SplitAt(bs, f, t);
    Unlive(bs[..f], bs[f..t], bs[t..], lo + Total(bs[..i]), bs[i].size, lo);
  }

  lemma Unlive(xs: seq<Block>, ys: seq<Block>, zs: seq<Block>, o: int, size: int, lo: int)
    requires SizesOk(xs) && SizesOk(ys) && SizesOk(zs) && ys != []
    requires LiveMap(ys, lo + Total(xs)) == map[o := size]
    ensures var mid := [Block(Total(ys), false)];
      && Total(xs + mid + zs) == Total(xs + ys + zs)
      && LiveMap(xs + mid + zs, lo) == LiveMap(xs + ys + zs, lo) - {o}
      && o in LiveMap(xs + ys + zs, lo) && LiveMap(xs + ys + zs, lo)[o] == size
  {
    var mid := [Block(Total(ys), false)];
    TotalBound(ys);
    assert mid[1..] == [] && Total(mid) == Total(ys) && LiveMap(mid, lo + Total(xs)) == map[];
    assert SizesOk(mid);
    assert o in LiveMap(ys, lo + Total(xs));
    hide LiveMap, Total, SizesOk;
    LiveMapJoin(xs, ys, zs, lo);
    LiveMapJoin(xs, mid, zs, lo);
    Drop(LiveMap(xs, lo), LiveMap(zs, lo + Total(xs) + Total(ys)), o, size);
  }

  lemma Drop(a: map<int, int>, c: map<int, int>, k: int, v: int)
    requires k !in a && k !in c
    ensures (a + map[k := v] + c) - {k} == a + map[] + c
    ensures k in a + map[k := v] + c && (a + map[k := v] + c)[k] == v
  {
  }

  /** Growth: exactly the new bytes are added and one live block appears at the end. */
  lemma ExtendList(bs: seq<Block>, sz: int, lo: int)
    requires WellFormed(bs) && Rounded(sz) && sz >= MIN_BLOCK
    ensures Total(Extend(bs, sz)) == Total(bs) + sz
    ensures var o := lo + Total(bs[..KeptOnGrow(bs)]);
      LiveMap(Extend(bs, sz), lo) == LiveMap(bs, lo)[o := lo + Total(bs) + sz - o] && o !in LiveMap(bs, lo)
  {
    var k := KeptOnGrow(bs);
    assert bs == bs[..k] + bs[k..];
    SizesAppend(bs[..k], bs[k..]);
    assert k < |bs| ==> bs[k..] == [bs[k]];
    hide SizesOk, LiveMap, Total;
    ExtendPieces(bs[..k], bs[k..], sz, lo);
  }

  lemma ExtendPieces(xs: seq<Block>, ys: seq<Block>, sz: int, lo: int)
    requires SizesOk(xs) && SizesOk(ys) && |ys| <= 1 && (ys != [] ==> !ys[0].alloc)
    requires Rounded(sz) && sz >= MIN_BLOCK
    ensures var mid, o := [Block(Total(ys) + sz, true)], lo + Total(xs);
      && Total(xs + mid) == Total(xs + ys) + sz
      && LiveMap(xs + mid, lo) == LiveMap(xs + ys, lo)[o := lo + Total(xs + ys) + sz - o]
      && o !in LiveMap(xs + ys, lo)
  {
    var mid, o := [Block(Total(ys) + sz, true)], lo + Total(xs);
    hide SizesOk, LiveMap, Total, SizeOk;
    Short(ys, o);
    Short(mid, o);
    LengthenedOk(ys, sz);
    TotalAppend(xs, ys);
    TotalAppend(xs, mid);
    LiveMapAppend(xs, ys, lo);
    LiveMapAppend(xs, mid, lo);
    LiveMapRange(xs, lo);
  }

  lemma LengthenedOk(ys: seq<Block>, sz: int)
    requires SizesOk(ys) && Rounded(sz) && sz >= MIN_BLOCK
    ensures SizesOk([Block(Total(ys) + sz, true)])
  {
    hide Total;
    TotalBound(ys);
  }

  /** What one allocation hands out is undone exactly by releasing it at once. */
  lemma TakeThenFree(bs: seq<Block>, i: nat, need: int)
    requires WellFormed(bs) && i < |bs| && !bs[i].alloc
    requires Rounded(need) && MIN_BLOCK <= need <= bs[i].size
    ensures TakeFit(bs, i, need)[i].alloc
    ensures Freed(TakeFit(bs, i, need), i) == bs
  {
    var ts := TakeFit(bs, i, need);
    var f, t := MergeFrom(ts, i), MergeTo(ts, i);
    assert i > 0 ==> ts[i - 1] == bs[i - 1];
    assert f == i;
    PlaceTotal(bs[i], need);
    assert ts[f..t] == Place(bs[i], need) && ts[t..] == bs[i + 1..] by {
      assert i + 1 < |bs| ==> bs[i + 1].alloc;
    }
  }

  /** With nothing live, a heap is at most one block. */
  lemma {:induction false} NothingLive(bs: seq<Block>, lo: int)
    requires WellFormed(bs) && LiveMap(bs, lo) == map[]
    ensures |bs| <= 1 && (bs != [] ==> bs == [Block(Total(bs), false)])
  {
    if bs != [] {
      var rest := LiveMap(bs[1..], lo + bs[0].size);
      assert bs[0].alloc ==> lo in LiveMap(bs, lo);
      assert forall i :: 0 < i < |bs| ==> bs[1..][i - 1] == bs[i];
      NothingLive(bs[1..], lo + bs[0].size);
    }
  }

  lemma PageUpBounds(n: nat)
    ensures n <= PageUp(n) < n + 4096 && PageUp(n) % 4096 == 0 && Rounded(PageUp(n))
  {
    var q := (n + PAGE - 1) / PAGE;
    assert PageUp(n) == 4096 * q == 16 * (256 * q);
    assert (4096 * q) / 4096 == q && (16 * (256 * q)) / 16 == 256 * q;
  }

  /** One allocation adds exactly one live block, of at least `need` bytes; the heap grows only when
      nothing fits, and by the page-rounded size. */
  lemma AllocListLive(bs: seq<Block>, lo: int, need: nat, granted: bool)
    requires WellFormed(bs) && Rounded(need) && need >= MIN_BLOCK
    ensures var bs', r := AllocList(bs, need, granted), AllocAddr(bs, lo, need, granted);
      && Total(bs') == Total(bs) + (if FirstFit(bs, need) >= |bs| && granted then PageUp(need) else 0)
      && (r == NotFound ==> bs' == bs)
      && (r.Found? ==> exists size {:trigger LiveMap(bs, lo)[r.addr := size]} ::
            size >= need && r.addr >= lo && r.addr !in LiveMap(bs, lo) &&
            LiveMap(bs', lo) == LiveMap(bs, lo)[r.addr := size])
  {
    hide LiveMap, Total, TakeFit, Extend, PageUp, Rounded, FirstFit;
    var i := FirstFit(bs, need);
    FirstFitIsFirst(bs, need);
    PageUpBounds(need);
    if i < |bs| {
      TakeFitList(bs, i, need, lo);
      assert LiveMap(AllocList(bs, need, granted), lo) ==
        LiveMap(bs, lo)[lo + Total(bs[..i]) := Place(bs[i], need)[0].size];
      TotalBound(bs[..i]);
    } else if granted {
      var k := KeptOnGrow(bs);
      ExtendList(bs, PageUp(need), lo);
      assert bs == bs[..k] + bs[k..];
      TotalAppend(bs[..k], bs[k..]);
      TotalBound(bs[k..]);
      TotalBound(bs[..k]);
    }
  }
}
