/** Whole runs of the public heap calls, both tiers together: a client makes any calls it likes on one
    allocator and writes into its blocks; what it knows about them stays true. */
module Session {
  import opened BlockList
  import opened BoundaryTags
  import Tiling
  import opened TagRefinement
  import opened Bytes
  import opened HeapFacts
  import opened KernelModel
  import opened Str
  import opened Machine
  import Bits
  import Heap

  const NULL := Heap.NULL

  // ---------------------------------------------------------------- the client's side

  /** A block the client holds: address, size asked for, and the bytes it knows by offset. */
  datatype Held = Held(ptr: nat, size: nat, known: map<nat, byte>)

  /** A call names a block by its handle, the number of the call that first returned it. */
  datatype Call =
    | Malloc(sz: nat)
    | Calloc(n: nat, sz: nat)
    | Realloc(k: nat, sz: nat)
    | Free(k: nat)
    | Store(k: nat, off: nat, v: byte)

  /** Sizes for which rounding does not wrap. */
  predicate Fits(c: Call) {
    match c
    case Malloc(sz) => sz <= Bits.MAX_REQUEST
    case Calloc(n, sz) => n < WORD && sz < WORD && (Product(n, sz) <= Bits.MAX_REQUEST || Product(n, sz) >= WORD)
    case Realloc(_, sz) => sz <= Bits.MAX_REQUEST
    case Free(_) => true
    case Store(_, _, _) => true
  }

  /** How many bytes of a block `realloc` keeps: all of a brk block, and of a mapping all but 16 of the
      mapped bytes, which can be up to 8 less than the size asked for. */
  function Preserved(size: nat): (n: int)
    ensures n <= size
  {
    if size < MMAP_LIMIT || Bits.MmapTotal(size) - OVERHEAD >= size then size else Bits.MmapTotal(size) - OVERHEAD
  }

  function Known(known: map<nat, byte>, n: int): map<nat, byte> {
    map off | off in known && off < n :: known[off]
  }

  function KeptBytes(size: nat, sz: nat): int {
    if Preserved(size) < sz then Preserved(size) else sz
  }

  /** The record of a block that `realloc` answered with `ptr`. */
  function Resized(b: Held, ptr: nat, sz: nat): Held {
    Held(ptr, sz, Known(b.known, KeptBytes(b.size, sz)))
  }

  function AllZero(n: nat): (z: map<nat, byte>)
    ensures forall off: nat :: off in z <==> off < n
    ensures forall off :: off in z ==> z[off] == 0
  {
    if n == 0 then map[] else AllZero(n - 1)[n - 1 := 0]
  }

  /** What the client holds after call number `id` was answered with `reply`. A call that names no block of
      its own, or writes outside one, is not made. */
  function Next(held: map<nat, Held>, id: nat, c: Call, reply: nat): map<nat, Held> {
    match c
    case Malloc(sz) => if reply == NULL then held else held[id := Held(reply, sz, map[])]
    case Calloc(n, sz) =>
      if reply == NULL then held else held[id := Held(reply, Product(n, sz), AllZero(Product(n, sz)))]
    case Realloc(k, sz) =>
      if k !in held then held
      else if sz == 0 then held - {k}
      else if reply == NULL then held
      else
        held[k := Resized(held[k], reply, sz)]
    case Free(k) => held - {k}
    case Store(k, off, v) =>
      if k in held && off < held[k].size then held[k := held[k].(known := held[k].known[off := v])] else held
  }

  // ---------------------------------------------------------------- what the calls do

  /** Allocator and client without the bytes: the block list, the mappings, where the heap starts, and the
      client's record. */
  datatype State = State(blocks: seq<Block>, maps: map<int, int>, lo: int, held: map<nat, Held>)

  function MapsServed(maps: map<int, int>, sz: nat, reply: nat): map<int, int> {
    if reply != NULL && sz >= MMAP_LIMIT then maps[reply - HDR_SZ := Bits.MmapTotal(sz)] else maps
  }

  function Served(s: State, sz: nat, reply: nat, held: map<nat, Held>): State {
    State(BlocksServed(s.blocks, sz, reply != NULL), MapsServed(s.maps, sz, reply), s.lo, held)
  }

  function GivenUp(s: State, h: int, held: map<nat, Held>): State {
    State(BlocksFreed(s.blocks, s.maps, s.lo, h), s.maps - {h}, s.lo, held)
  }

  /** The state after call number `id`, answered with `reply`. */
  function After(s: State, id: nat, c: Call, reply: nat): State {
    var held := Next(s.held, id, c, reply);
    match c
    case Malloc(sz) => Served(s, sz, reply, held)
    case Calloc(n, sz) => Served(s, Product(n, sz), reply, held)
    case Realloc(k, sz) =>
      if k !in s.held then s
      else
        var h := s.held[k].ptr - HDR_SZ;
        if sz == 0 then GivenUp(s, h, held)
        else if reply == NULL || reply == s.held[k].ptr then s.(held := held)
        else State(BlocksMoved(s.blocks, s.maps, s.lo, h, sz), MapsMoved(s.maps, h, reply - HDR_SZ, sz), s.lo, held)
    case Free(k) => if k in s.held then GivenUp(s, s.held[k].ptr - HDR_SZ, held) else s
    case Store(_, _, _) => s.(held := held)
  }

  /** The state after the calls, answered by the replies. */
  function Play(start: State, calls: seq<Call>, replies: seq<nat>): State
    requires |calls| == |replies|
    decreases |calls|
  {
    if calls == [] then start
    else
      var n := |calls| - 1;
      After(Play(start, calls[..n], replies[..n]), n, calls[n], replies[n])
  }

  /** Whether giving up the pointer behind `h` is safe as written. */
  ghost predicate SafeFree(s: State, h: int) { h in s.maps || Topmost(LiveMap(s.blocks, s.lo), h) }

  ghost predicate SafeServe(s: State, sz: nat, reply: nat) {
    sz == 0 || sz >= MMAP_LIMIT || AllocSafe(s.blocks, Need(sz), reply != NULL)
  }

  /** When a call leaves the allocator of the code as written valid. */
  ghost predicate SafeCall(s: State, c: Call, reply: nat) {
    match c
    case Malloc(sz) => SafeServe(s, sz, reply)
    case Calloc(n, sz) => SafeServe(s, Product(n, sz), reply)
    case Realloc(k, sz) =>
      k in s.held ==>
        var h := s.held[k].ptr - HDR_SZ;
        if sz == 0 then SafeFree(s, h)
        else reply == NULL || reply == s.held[k].ptr || MoveSafe(s.blocks, s.maps, s.lo, h, sz)
    case Free(k) => k in s.held ==> SafeFree(s, s.held[k].ptr - HDR_SZ)
    case Store(_, _, _) => true
  }

  /** A request is answered with NULL only when nothing is asked for, or more than 64 bits can say, or when
      no block fits and the kernel refused, as the last entry of its record says. */
  ghost predicate Answered(s: State, c: Call, reply: nat, log: seq<KernelCall>) {
    var top := s.lo + Total(s.blocks);
    match c
    case Malloc(sz) => reply == NULL <==> sz == 0 || Refused(log, top, s.blocks, sz)
    case Calloc(n, sz) =>
      reply == NULL <==>
        Product(n, sz) == 0 || Product(n, sz) >= WORD || Refused(log, top, s.blocks, Product(n, sz))
    case Realloc(k, sz) => k in s.held && sz != 0 && reply == NULL ==> Refused(log, top, s.blocks, sz)
    case Free(_) => true
    case Store(_, _, _) => true
  }

  /** Every request of the run is answered in that way; `marks` says how long the kernel's record was after
      each call. */
  ghost predicate AllAnswered(start: State, calls: seq<Call>, replies: seq<nat>, log: seq<KernelCall>, marks: seq<nat>)
    requires |calls| == |replies| == |marks|
    decreases |calls|
  {
    calls != [] ==>
      var n := |calls| - 1;
      && marks[n] <= |log| && AllAnswered(start, calls[..n], replies[..n], log, marks[..n])
      && Answered(Play(start, calls[..n], replies[..n]), calls[n], replies[n], log[..marks[n]])
  }

  lemma MallocAnswered(s: State, sz: nat, reply: nat, log: seq<KernelCall>, top: int)
    requires top == s.lo + Total(s.blocks) && (reply == NULL <==> sz == 0 || Refused(log, top, s.blocks, sz))
    ensures Answered(s, Malloc(sz), reply, log)
  {
    hide Refused, Total;
  }

  lemma CallocAnswered(s: State, n: nat, sz: nat, reply: nat, log: seq<KernelCall>, top: int)
    requires top == s.lo + Total(s.blocks)
    requires reply == NULL <==>
      Product(n, sz) == 0 || Product(n, sz) >= WORD || Refused(log, top, s.blocks, Product(n, sz))
    ensures Answered(s, Calloc(n, sz), reply, log)
  {
    hide Refused, Total, Product;
  }

  lemma ReallocAnswered(s: State, k: nat, sz: nat, reply: nat, log: seq<KernelCall>, top: int)
    requires top == s.lo + Total(s.blocks) && (reply == NULL && sz != 0 ==> Refused(log, top, s.blocks, sz))
    ensures Answered(s, Realloc(k, sz), reply, log)
  {
    hide Refused, Total;
  }

  lemma {:induction false} AnsweredLater(start: State, calls: seq<Call>, replies: seq<nat>, log: seq<KernelCall>,
                                         log': seq<KernelCall>, marks: seq<nat>)
    requires |calls| == |replies| == |marks| && log <= log'
    requires AllAnswered(start, calls, replies, log, marks)
    ensures AllAnswered(start, calls, replies, log', marks)
    decreases |calls|
  {
    hide Play, Answered;
    if calls != [] {
      var n := |calls| - 1;
      AnsweredLater(start, calls[..n], replies[..n], log, log', marks[..n]);
      assert log'[..marks[n]] == log[..marks[n]];
    }
  }

  lemma AnsweredOn(start: State, calls: seq<Call>, replies: seq<nat>, log: seq<KernelCall>, log': seq<KernelCall>,
                   marks: seq<nat>, i: nat, reply: nat)
    requires i < |calls| && |replies| == |marks| == i && log <= log'
    requires AllAnswered(start, calls[..i], replies, log, marks)
    requires Answered(Play(start, calls[..i], replies), calls[i], reply, log')
    ensures AllAnswered(start, calls[..i + 1], replies + [reply], log', marks + [|log'|])
  {
    hide Play, Answered;
    AnsweredLater(start, calls[..i], replies, log, log', marks);
    assert calls[..i + 1][..i] == calls[..i] && (replies + [reply])[..i] == replies;
    assert (marks + [|log'|])[..i] == marks && log'[..|log'|] == log';
  }

  /** Every call of the run is safe. */
  ghost predicate SafeRun(start: State, calls: seq<Call>, replies: seq<nat>)
    requires |calls| == |replies|
    decreases |calls|
  {
    calls != [] ==>
      var n := |calls| - 1;
      SafeRun(start, calls[..n], replies[..n]) && SafeCall(Play(start, calls[..n], replies[..n]), calls[n], replies[n])
  }

  // ---------------------------------------------------------------- what it means to be right

  /** The block is live in the tier its size belongs to, and the client's bytes are in it. */
  ghost predicate Right(s: seq<byte>, payloads: map<int, int>, maps: map<int, int>, b: Held) {
    var h := b.ptr - HDR_SZ;
    && h in payloads && b.ptr + b.size <= payloads[h] <= |s|
    && (h in maps <==> b.size >= MMAP_LIMIT)
    && (h in maps ==> maps[h] == Bits.MmapTotal(b.size) && payloads[h] == h + maps[h])
    && (forall off :: off in b.known ==> off < b.size && s[b.ptr + off] == b.known[off])
  }

  ghost predicate HeldBy(held: map<nat, Held>, h: int) {
    exists k :: k in held && held[k].ptr - HDR_SZ == h
  }

  /** All the client's blocks are right, they are different ones, and nothing else is live. */
  ghost predicate Tracks(s: seq<byte>, payloads: map<int, int>, maps: map<int, int>, held: map<nat, Held>) {
    && (forall k :: k in held ==> Right(s, payloads, maps, held[k]))
    && (forall j, k :: j in held && k in held && j != k ==> held[j].ptr != held[k].ptr)
    && (forall h :: h in payloads ==> HeldBy(held, h))
    && (forall m :: m in maps ==> m in payloads)
  }

  /** The bytes of a block survive where its payload is kept. */
  lemma RightKept(s: seq<byte>, t: seq<byte>, p: map<int, int>, p': map<int, int>, m: map<int, int>, m': map<int, int>,
                  b: Held)
    requires Right(s, p, m, b) && Kept(s, t, p)
    requires var h := b.ptr - HDR_SZ;
      h in p' && p'[h] == p[h] && (h in m' <==> h in m) && (h in m ==> m'[h] == m[h])
    ensures Right(t, p', m', b)
  {
    var h := b.ptr - HDR_SZ;
    forall off | off in b.known
      ensures t[b.ptr + off] == b.known[off]
    {
      assert h in p && h + HDR_SZ <= b.ptr + off < p[h];
      assert Covered(p, b.ptr + off);
    }
  }

  lemma TrackAlloc(s: seq<byte>, t: seq<byte>, p: map<int, int>, p': map<int, int>, m: map<int, int>, m': map<int, int>,
                   held: map<nat, Held>, id: nat, b: Held)
    requires Tracks(s, p, m, held) && Kept(s, t, p) && Handed(p, p', b.ptr, b.size) && id !in held
    requires Right(t, p', m', b)
    requires m' == m || m' == m[b.ptr - HDR_SZ := Bits.MmapTotal(b.size)]
    ensures Tracks(t, p', m', held[id := b])
  {
    hide Right, Kept;
    var held' := held[id := b];
    forall k | k in held'
      ensures Right(t, p', m', held'[k])
    {
      if k != id {
        InPayloads(s, p, m, held[k]);
        RightKept(s, t, p, p', m, m', held[k]);
      }
    }
    forall k | k in held
      ensures held[k].ptr != b.ptr
    {
      InPayloads(s, p, m, held[k]);
    }
    forall h | h in p'
      ensures HeldBy(held', h)
    {
      if h == b.ptr - HDR_SZ {
        assert id in held' && held'[id].ptr - HDR_SZ == h;
      } else {
        assert HeldBy(held, h);
        var k :| k in held && held[k].ptr - HDR_SZ == h;
        assert k in held' && held'[k].ptr - HDR_SZ == h;
      }
    }
  }

  lemma InPayloads(s: seq<byte>, p: map<int, int>, m: map<int, int>, b: Held)
    requires Right(s, p, m, b)
    ensures b.ptr - HDR_SZ in p
  {
  }

  lemma TrackFree(s: seq<byte>, t: seq<byte>, p: map<int, int>, m: map<int, int>, held: map<nat, Held>, k: nat)
    requires Tracks(s, p, m, held) && k in held && Kept(s, t, p)
    ensures var h := held[k].ptr - HDR_SZ;
      Tracks(t, p - {h}, m - {h}, held - {k})
  {
    hide Right, Kept;
    var h, held' := held[k].ptr - HDR_SZ, held - {k};
    forall j | j in held'
      ensures Right(t, p - {h}, m - {h}, held'[j])
    {
      InPayloads(s, p, m, held[j]);
      RightKept(s, t, p, p - {h}, m, m - {h}, held[j]);
    }
    forall g | g in p - {h}
      ensures HeldBy(held', g)
    {
      assert HeldBy(held, g);
      var j :| j in held && held[j].ptr - HDR_SZ == g;
      assert j in held' && held'[j].ptr - HDR_SZ == g;
    }
  }

  /** The record of one block is replaced by another one at the same address. */
  lemma TrackUpdate(s: seq<byte>, t: seq<byte>, p: map<int, int>, m: map<int, int>, held: map<nat, Held>, k: nat,
                    b: Held)
    requires Tracks(s, p, m, held) && k in held && Right(t, p, m, b) && b.ptr == held[k].ptr
    requires forall j :: j in held && j != k ==> Untouched(s, t, held[j])
    ensures Tracks(t, p, m, held[k := b])
  {
    hide Right, Untouched;
    var held' := held[k := b];
    forall j | j in held'
      ensures Right(t, p, m, held'[j])
    {
      if j != k {
        InPayloads(s, p, m, held[j]);
        StillRight(s, t, p, p, m, m, held[j]);
      }
    }
    forall h | h in p
      ensures HeldBy(held', h)
    {
      assert HeldBy(held, h);
      var j :| j in held && held[j].ptr - HDR_SZ == h;
      assert j in held' && held'[j].ptr - HDR_SZ == h;
    }
  }

  /** One block is replaced by the block it was moved to. */
  lemma TrackChange(s: seq<byte>, t: seq<byte>, p: map<int, int>, p': map<int, int>, m: map<int, int>,
                    m': map<int, int>, held: map<nat, Held>, k: nat, b: Held)
    requires Tracks(s, p, m, held) && k in held && Right(t, p', m', b)
    requires var h, g := held[k].ptr - HDR_SZ, b.ptr - HDR_SZ;
      g !in p && Swapped(p, p', h, g) && (m' == m - {h} || Swapped(m, m', h, g))
    requires forall j :: j in held && j != k ==> Untouched(s, t, held[j])
    ensures Tracks(t, p', m', held[k := b])
  {
    hide Right;
    var h, g, held' := held[k].ptr - HDR_SZ, b.ptr - HDR_SZ, held[k := b];
    forall j | j in held'
      ensures Right(t, p', m', held'[j])
      ensures j != k ==> held'[j].ptr != b.ptr
    {
      if j != k {
        InPayloads(s, p, m, held[j]);
        StillRight(s, t, p, p', m, m', held[j]);
      }
    }
    forall f | f in p'
      ensures HeldBy(held', f)
    {
      if f == g {
        assert k in held' && held'[k].ptr - HDR_SZ == f;
      } else {
        assert HeldBy(held, f);
        var j :| j in held && held[j].ptr - HDR_SZ == f;
        assert j in held' && held'[j].ptr - HDR_SZ == f;
      }
    }
    RightMapped(t, p', m', b);
  }

  /** Entry `h` was given up for entry `g`. */
  ghost predicate Swapped(p: map<int, int>, p': map<int, int>, h: int, g: int) {
    g in p' && p' == (p - {h})[g := p'[g]]
  }

  ghost predicate Untouched(s: seq<byte>, t: seq<byte>, b: Held) {
    |s| == |t| && forall a :: b.ptr <= a < b.ptr + b.size && a < |s| ==> t[a] == s[a]
  }

  lemma StillRight(s: seq<byte>, t: seq<byte>, p: map<int, int>, p': map<int, int>, m: map<int, int>, m': map<int, int>,
                   b: Held)
    requires Right(s, p, m, b) && Untouched(s, t, b)
    requires var h := b.ptr - HDR_SZ;
      h in p' && p'[h] == p[h] && (h in m' <==> h in m) && (h in m ==> m'[h] == m[h])
    ensures Right(t, p', m', b)
  {
  }

  lemma RightMapped(s: seq<byte>, p: map<int, int>, m: map<int, int>, b: Held)
    requires Right(s, p, m, b)
    ensures b.ptr - HDR_SZ in m ==> b.ptr - HDR_SZ in p
  {
  }

  lemma KeptUntouched(s: seq<byte>, t: seq<byte>, p: map<int, int>, m: map<int, int>, b: Held)
    requires Kept(s, t, p) && Right(s, p, m, b)
    ensures Untouched(s, t, b)
  {
    var h := b.ptr - HDR_SZ;
    forall a | b.ptr <= a < b.ptr + b.size
      ensures t[a] == s[a]
    {
      assert h in p && h + HDR_SZ <= a < p[h];
      assert Covered(p, a);
    }
  }

  // ---------------------------------------------------------------- the allocator's side

  /** The allocator is valid, and everything the client knows is true of it. */
  ghost predicate Good(a: Heap.Allocator, held: map<nat, Held>)
    reads a, a.mem, a.kernel
  {
    a.Valid() && Tracks(a.mem[..], a.Payloads(), a.kernel.maps, held)
  }

  /** The state that allocator and client are in. */
  ghost function Now(a: Heap.Allocator, held: map<nat, Held>): State
    reads a, a.kernel
  {
    State(a.blocks, a.kernel.maps, a.Origin(), held)
  }

  lemma MapsAreLive(live: map<int, int>, maps: map<int, int>)
    ensures MapsLive(PayloadsOf(live, maps), maps)
  {
  }

  method DoMalloc(a: Heap.Allocator, ghost held: map<nat, Held>, id: nat, sz: nat) returns (p: nat)
    requires Good(a, held) && id !in held && sz <= Bits.MAX_REQUEST
    modifies a, a.mem, a.kernel
    ensures a.Valid() <==> a.repaired || SafeCall(old(Now(a, held)), Malloc(sz), p)
    ensures Now(a, Next(held, id, Malloc(sz), p)) == After(old(Now(a, held)), id, Malloc(sz), p)
    ensures a.Valid() ==> Good(a, Next(held, id, Malloc(sz), p))
    ensures p == NULL ==> a.Valid()
    ensures old(a.kernel.calls) <= a.kernel.calls && Answered(old(Now(a, held)), Malloc(sz), p, a.kernel.calls)
  {
    hide HeapFacts.Asked, Refused, TakenFrom, Answered, Total, Heap.Allocator.Top, Kept, Handed, Lent, Tracks, Right,
      PayloadsOf, Bits.MmapTotal, AllocList, AllocSafe, Need, LiveMap, Sane, Heap.Allocator.Valid, Heap.Allocator.Tiled,
      Heap.Allocator.Scarred;
    a.TopFound();
    ghost var s, ps, ms := a.mem[..], a.Payloads(), a.kernel.maps;
    ghost var log, ok, brk, top, bs := a.kernel.calls, a.heapOk, a.kernel.brk, a.Top(), a.blocks;
    p := a.Malloc(sz);
    AskedGrows(log, a.kernel.calls, ok, brk, top, bs, sz);
    MallocAnswered(old(Now(a, held)), sz, p, a.kernel.calls, top);
    if p == NULL {
      SameTracks(s, a.mem[..], ps, ms, held);
      return;
    }
    a.PayloadsAreSane();
    if a.Valid() {
      NewRight(s, a.mem[..], ps, a.Payloads(), ms, a.kernel.maps, LiveMap(a.blocks, a.heapLo), held, id,
               Held(p, sz, map[]));
    }
  }

  method DoCalloc(a: Heap.Allocator, ghost held: map<nat, Held>, id: nat, n: nat, sz: nat) returns (p: nat)
    requires Good(a, held) && id !in held && Fits(Calloc(n, sz))
    modifies a, a.mem, a.kernel
    ensures a.Valid() <==> a.repaired || SafeCall(old(Now(a, held)), Calloc(n, sz), p)
    ensures Now(a, Next(held, id, Calloc(n, sz), p)) == After(old(Now(a, held)), id, Calloc(n, sz), p)
    ensures a.Valid() ==> Good(a, Next(held, id, Calloc(n, sz), p))
    ensures p == NULL ==> a.Valid()
    ensures old(a.kernel.calls) <= a.kernel.calls && Answered(old(Now(a, held)), Calloc(n, sz), p, a.kernel.calls)
  {
    hide HeapFacts.Asked, Refused, Answered, Total, Heap.Allocator.Top, Kept, Handed, Lent, Tracks, Right, PayloadsOf,
      Bits.MmapTotal, AllocList, AllocSafe, Need, LiveMap, Sane, Heap.Allocator.Valid, Heap.Allocator.Tiled,
      Heap.Allocator.Scarred, Product, AllZero;
    a.TopFound();
    ghost var s, ps, ms := a.mem[..], a.Payloads(), a.kernel.maps;
    ghost var log, ok, brk, top, bs := a.kernel.calls, a.heapOk, a.kernel.brk, a.Top(), a.blocks;
    p := a.Calloc(n, sz);
    AskedGrows(log, a.kernel.calls, ok, brk, top, bs, if Product(n, sz) < WORD then Product(n, sz) else 0);
    CallocAnswered(old(Now(a, held)), n, sz, p, a.kernel.calls, top);
    if p == NULL {
      SameTracks(s, a.mem[..], ps, ms, held);
      return;
    }
    a.PayloadsAreSane();
    if a.Valid() {
      NewRight(s, a.mem[..], ps, a.Payloads(), ms, a.kernel.maps, LiveMap(a.blocks, a.heapLo), held, id,
               Held(p, Product(n, sz), AllZero(Product(n, sz))));
    }
  }

  lemma SameTracks(s: seq<byte>, t: seq<byte>, p: map<int, int>, m: map<int, int>, held: map<nat, Held>)
    requires Tracks(s, p, m, held) && Kept(s, t, p)
    ensures Tracks(t, p, m, held)
  {
    hide Right, Kept;
    forall k | k in held
      ensures Right(t, p, m, held[k])
    {
      InPayloads(s, p, m, held[k]);
      RightKept(s, t, p, p, m, m, held[k]);
    }
  }

  /** A block just handed out is right: its size decides its tier. */
  lemma BornRight(t: seq<byte>, before: map<int, int>, p': map<int, int>, m: map<int, int>, m': map<int, int>, b: Held)
    requires Handed(before, p', b.ptr, b.size) && b.ptr - HDR_SZ !in m
    requires m' == if b.size >= MMAP_LIMIT then m[b.ptr - HDR_SZ := Bits.MmapTotal(b.size)] else m
    requires MapsLive(p', m') && Sane(p', |t|)
    requires forall off :: off in b.known ==> off < b.size && b.ptr + off < |t| && t[b.ptr + off] == b.known[off]
    ensures Right(t, p', m', b)
  {
    hide Rounded, Bits.MmapTotal;
    var h := b.ptr - HDR_SZ;
    assert h in p' && b.ptr + b.size <= p'[h] <= |t|;
  }

  lemma NewRight(s: seq<byte>, t: seq<byte>, p: map<int, int>, p': map<int, int>, m: map<int, int>, m': map<int, int>,
                 live: map<int, int>, held: map<nat, Held>, id: nat, b: Held)
    requires Tracks(s, p, m, held) && Kept(s, t, p) && Handed(p, p', b.ptr, b.size) && id !in held
    requires m' == if b.size >= MMAP_LIMIT then m[b.ptr - HDR_SZ := Bits.MmapTotal(b.size)] else m
    requires p' == PayloadsOf(live, m') && Sane(p', |t|)
    requires forall off :: off in b.known ==> off < b.size && b.ptr + off < |t| && t[b.ptr + off] == b.known[off]
    ensures Tracks(t, p', m', held[id := b])
  {
    hide Kept, Right, PayloadsOf, Sane, Bits.MmapTotal, Rounded;
    MapsAreLive(live, m');
    assert b.ptr - HDR_SZ !in m;
    BornRight(t, p, p', m, m', b);
    TrackAlloc(s, t, p, p', m, m', held, id, b);
  }

  // ---------------------------------------------------------------- realloc

  method DoRealloc(a: Heap.Allocator, ghost held: map<nat, Held>, b: Held, ghost k: nat, ghost id: nat, sz: nat)
    returns (r: nat)
    requires Good(a, held) && k in held && held[k] == b && sz <= Bits.MAX_REQUEST
    modifies a, a.mem, a.kernel
    ensures a.Valid() <==> a.repaired || SafeCall(old(Now(a, held)), Realloc(k, sz), r)
    ensures Now(a, Next(held, id, Realloc(k, sz), r)) == After(old(Now(a, held)), id, Realloc(k, sz), r)
    ensures a.Valid() ==> Good(a, Next(held, id, Realloc(k, sz), r))
    ensures b.size >= MMAP_LIMIT && sz >= MMAP_LIMIT && r != NULL ==>
      Refilled(old(a.mem[..]), a.mem[..], b.ptr, r, KeptOfMapping(b.size, sz), sz)
    ensures old(a.kernel.calls) <= a.kernel.calls && Answered(old(Now(a, held)), Realloc(k, sz), r, a.kernel.calls)
  {
    hide HeapFacts.Asked, Refused, AskedThenFreed, FreeCalls, Heap.Allocator.Top, Answered, Total, Kept, Handed,
      Tracks, Right, PayloadsOf, Bits.MmapTotal, AllocList, Need, LiveMap, Lent, SameBytes, Moved, MapsMoved, Resized,
      Preserved, Sane, Heap.Allocator.Valid, Topmost, Next, Heap.Allocator.Payloads, AllocSafe, Heap.Allocator.Tags,
      MapsTagged, MapsLive, BlocksMoved, BlocksFreed, BlocksServed, Refilled, MoveSafe, Rounded, Heap.Allocator.Origin;
    a.TopFound();
    ghost var s, ps, ms := a.mem[..], a.Payloads(), a.kernel.maps;
    HeldRight(s, ps, ms, held, k);
    Place(s, ps, ms, b);
    a.UsableFound(b.ptr);
    ghost var usable := a.Usable(b.ptr);
    MapsMarked(a);
    if b.ptr - HDR_SZ in ms { MappedUsable(a.Tags(), ms, b.ptr - HDR_SZ, b.size); }
    ghost var bs, lo := a.blocks, a.Origin();
    ghost var log, ok, brk, top := a.kernel.calls, a.heapOk, a.kernel.brk, a.Top();
    r := a.Realloc(b.ptr, sz);
    ReallocAnswered(old(Now(a, held)), k, sz, r, a.kernel.calls, top);
    if r == NULL && sz != 0 {
      AskedGrows(log, a.kernel.calls, ok, brk, top, bs, sz);
    } else if r != NULL && r != b.ptr {
      AskedThenFreedGrows(log, a.kernel.calls, ok, brk, top, bs, sz, ms, b.ptr - HDR_SZ);
    }
    MoveSafeServes(bs, ms, lo, b.ptr - HDR_SZ, sz);
    AfterRealloc(held, id, k, sz, r);
    ghost var t, ps', ms' := a.mem[..], a.Payloads(), a.kernel.maps;
    if sz == 0 {
      TrackFree(s, t, ps, ms, held, k);
    } else if r == NULL {
      SameTracks(s, t, ps, ms, held);
    } else if r == b.ptr {
      StaysRight(s, t, ps, ms, held, k, usable, sz);
    } else if a.Valid() {
      a.ValidIsTiled();
      a.PayloadsAreSane();
      MappingsLive(a);
      MovesRight(s, t, ps, ps', ms, ms', held, k, usable, r, sz);
    }
  }

  lemma MoveSafeServes(bs: seq<Block>, maps: map<int, int>, lo: int, h: int, sz: nat)
    ensures MoveSafe(bs, maps, lo, h, sz) && sz < MMAP_LIMIT ==> AllocSafe(bs, Need(sz), true)
  {
    hide AllocSafe, Need, LiveMap;
  }

  lemma AfterRealloc(held: map<nat, Held>, id: nat, k: nat, sz: nat, r: nat)
    requires k in held
    ensures Next(held, id, Realloc(k, sz), r) ==
      if sz == 0 then held - {k} else if r == NULL then held else held[k := Resized(held[k], r, sz)]
  {
    hide Resized;
  }

  lemma MappingsLive(a: Heap.Allocator)
    ensures MapsLive(a.Payloads(), a.kernel.maps)
  {
    hide PayloadsOf, LiveMap, MapsLive;
    MapsAreLive(LiveMap(a.blocks, a.heapLo), a.kernel.maps);
  }

  /** Where a block the client holds lies, and how much of it is preserved. */
  lemma Place(s: seq<byte>, p: map<int, int>, m: map<int, int>, b: Held)
    requires Right(s, p, m, b)
    ensures var h := b.ptr - HDR_SZ;
      && h in p && b.ptr + b.size <= p[h]
      && (h in m <==> b.size >= MMAP_LIMIT)
      && (h in m ==> m[h] == Bits.MmapTotal(b.size) && p[h] == h + m[h])
      && Preserved(b.size) <= if h in m then m[h] - OVERHEAD else b.size
  {
    hide Bits.MmapTotal;
  }

  /** The bytes `realloc` takes a mapping to hold are never fewer than the threshold. */
  lemma MappedUsable(w: Words, maps: map<int, int>, h: int, size: nat)
    requires MapsTagged(w, maps) && h in maps && HDR_SZ + size <= maps[h] && size >= MMAP_LIMIT
    ensures maps[h] - OVERHEAD >= MMAP_LIMIT
  {
    hide At, Tag;
    var n := maps[h];
    assert n == 16 * (n / 16);
  }

  lemma MapsMarked(a: Heap.Allocator)
    requires a.Valid()
    ensures MapsTagged(a.Tags(), a.kernel.maps)
  {
    hide Heap.Allocator.Laid, Heap.Allocator.Seated, MapsTagged;
  }

  lemma HeldRight(s: seq<byte>, p: map<int, int>, m: map<int, int>, held: map<nat, Held>, k: nat)
    requires Tracks(s, p, m, held) && k in held
    ensures Right(s, p, m, held[k])
  {
  }

  /** Resized in place. */
  lemma StaysRight(s: seq<byte>, t: seq<byte>, p: map<int, int>, m: map<int, int>, held: map<nat, Held>, k: nat,
                   usable: int, sz: nat)
    requires Tracks(s, p, m, held) && Kept(s, t, p) && k in held && 0 < sz <= usable < MMAP_LIMIT
    requires held[k].ptr - HDR_SZ in p && held[k].ptr + usable <= p[held[k].ptr - HDR_SZ]
    requires held[k].ptr - HDR_SZ !in m
    ensures Tracks(t, p, m, held[k := Resized(held[k], held[k].ptr, sz)])
  {
    hide *;
    SameTracks(s, t, p, m, held);
    ResizedRight(t, p, m, held, k, usable, sz);
    KeptSame(t, p);
    OthersUntouched(t, t, p, m, held);
    TrackUpdate(t, t, p, m, held, k, Resized(held[k], held[k].ptr, sz));
  }

  lemma ResizedRight(t: seq<byte>, p: map<int, int>, m: map<int, int>, held: map<nat, Held>, k: nat, usable: int,
                     sz: nat)
    requires Tracks(t, p, m, held) && k in held && 0 < sz <= usable < MMAP_LIMIT
    requires held[k].ptr - HDR_SZ in p && held[k].ptr + usable <= p[held[k].ptr - HDR_SZ]
    requires held[k].ptr - HDR_SZ !in m
    ensures var b := Resized(held[k], held[k].ptr, sz);
      Right(t, p, m, b) && b.ptr == held[k].ptr
  {
    hide Right, Tracks, Known, KeptBytes;
    HeldRight(t, p, m, held, k);
    StillFits(t, p, m, held[k], usable, sz);
  }

  lemma StillFits(t: seq<byte>, p: map<int, int>, m: map<int, int>, b: Held, usable: int, sz: nat)
    requires Right(t, p, m, b) && 0 < sz <= usable < MMAP_LIMIT
    requires b.ptr - HDR_SZ !in m && b.ptr + usable <= p[b.ptr - HDR_SZ]
    ensures Right(t, p, m, Resized(b, b.ptr, sz))
  {
    hide Bits.MmapTotal;
  }

  /** Moved to another place, in either tier. */
  lemma MovesRight(s: seq<byte>, t: seq<byte>, p: map<int, int>, p': map<int, int>, m: map<int, int>, m': map<int, int>,
                   held: map<nat, Held>, k: nat, usable: int, r: nat, sz: nat)
    requires Tracks(s, p, m, held) && Kept(s, t, p) && k in held && Moved(p, p', held[k].ptr, r, sz)
    requires m' == MapsMoved(m, held[k].ptr - HDR_SZ, r - HDR_SZ, sz) && MapsLive(p', m')
    requires Sane(p', |t|) && Preserved(held[k].size) <= usable
    requires SameBytes(s, held[k].ptr, t, r, if usable < sz then usable else sz)
    ensures Tracks(t, p', m', held[k := Resized(held[k], r, sz)])
  {
    hide Right, Tracks, Kept, Moved, MapsMoved, MapsLive, Sane, Preserved, SameBytes, Untouched, Swapped, Known,
      KeptBytes;
    HeldRight(s, p, m, held, k);
    NotMapped(s, p, m, held, r - HDR_SZ) by { MovedMeans(p, p', held[k].ptr, r, sz); }
    PlacedAnew(s, t, p, p', m, m', held[k], usable, r, sz);
    OthersUntouched(s, t, p, m, held);
    TrackChange(s, t, p, p', m, m', held, k, Resized(held[k], r, sz));
  }

  lemma PlacedAnew(s: seq<byte>, t: seq<byte>, p: map<int, int>, p': map<int, int>, m: map<int, int>, m': map<int, int>,
                   b: Held, usable: int, r: nat, sz: nat)
    requires Right(s, p, m, b) && Moved(p, p', b.ptr, r, sz) && r - HDR_SZ !in m
    requires m' == MapsMoved(m, b.ptr - HDR_SZ, r - HDR_SZ, sz) && MapsLive(p', m')
    requires Sane(p', |t|) && Preserved(b.size) <= usable
    requires SameBytes(s, b.ptr, t, r, if usable < sz then usable else sz)
    ensures Right(t, p', m', Resized(b, r, sz))
    ensures var h, g := b.ptr - HDR_SZ, r - HDR_SZ;
      g !in p && Swapped(p, p', h, g) && (m' == m - {h} || Swapped(m, m', h, g))
  {
    var h := b.ptr - HDR_SZ;
    hide Right, Moved, Sane, SameBytes, Known, Preserved, Swapped, Handed, Bits.MmapTotal;
    MovedMeans(p, p', b.ptr, r, sz);
    MapsSwapped(m, m', h, r - HDR_SZ, sz);
    KnownMoved(s, t, p, m, b, r, usable, sz, KeptBytes(b.size, sz));
    BornRight(t, p - {h}, p', m - {h}, m', Resized(b, r, sz));
  }

  lemma OthersUntouched(s: seq<byte>, t: seq<byte>, p: map<int, int>, m: map<int, int>, held: map<nat, Held>)
    requires Tracks(s, p, m, held) && Kept(s, t, p)
    ensures forall j :: j in held ==> Untouched(s, t, held[j])
  {
    hide Right, Kept, Untouched;
    forall j | j in held
      ensures Untouched(s, t, held[j])
    {
      KeptUntouched(s, t, p, m, held[j]);
    }
  }

  ghost predicate MapsLive(p: map<int, int>, m: map<int, int>) {
    forall g :: g in m ==> g in p && p[g] == g + m[g]
  }

  lemma MapsSwapped(m: map<int, int>, m': map<int, int>, h: int, g: int, sz: nat)
    requires m' == MapsMoved(m, h, g, sz)
    ensures m' == m - {h} || Swapped(m, m', h, g)
  {
    hide Bits.MmapTotal;
  }

  lemma MovedMeans(p: map<int, int>, p': map<int, int>, ptr: nat, r: nat, sz: nat)
    requires Moved(p, p', ptr, r, sz)
    ensures var h, g := ptr - HDR_SZ, r - HDR_SZ;
      g !in p && Handed(p - {h}, p', r, sz) && Swapped(p, p', h, g)
  {
  }

  lemma KnownMoved(s: seq<byte>, t: seq<byte>, p: map<int, int>, m: map<int, int>, b: Held, r: nat, usable: int,
                   sz: nat, kept: int)
    requires Right(s, p, m, b) && kept <= usable && kept <= sz
    requires SameBytes(s, b.ptr, t, r, if usable < sz then usable else sz)
    ensures forall off :: off in Known(b.known, kept) ==>
      off < sz && r + off < |t| && t[r + off] == Known(b.known, kept)[off]
  {
    hide Bits.MmapTotal;
    var n := if usable < sz then usable else sz;
    forall off | off in Known(b.known, kept)
      ensures r + off < |t| && t[r + off] == s[b.ptr + off]
    {
      SameAt(s, b.ptr, t, r, n, off);
    }
  }

  lemma NotMapped(s: seq<byte>, p: map<int, int>, m: map<int, int>, held: map<nat, Held>, g: int)
    requires Tracks(s, p, m, held) && g !in p
    ensures g !in m
  {
  }

  // ---------------------------------------------------------------- free and stores

  method DoFree(a: Heap.Allocator, ghost held: map<nat, Held>, b: Held, ghost k: nat, ghost id: nat)
    requires Good(a, held) && k in held && held[k] == b
    modifies a, a.mem, a.kernel
    ensures a.Valid() <==> a.repaired || SafeCall(old(Now(a, held)), Free(k), NULL)
    ensures Now(a, Next(held, id, Free(k), NULL)) == After(old(Now(a, held)), id, Free(k), NULL)
    ensures a.Valid() ==> Good(a, Next(held, id, Free(k), NULL))
    ensures old(a.kernel.calls) <= a.kernel.calls
  {
    hide Kept, Tracks, Right, PayloadsOf, LiveMap, Topmost, BlocksFreed, Heap.Allocator.Valid, Heap.Allocator.Tiled,
      Heap.Allocator.Scarred, Heap.Allocator.Payloads;
    ghost var s, ps, ms := a.mem[..], a.Payloads(), a.kernel.maps;
    HeldRight(s, ps, ms, held, k);
    InPayloads(s, ps, ms, b);
    LivePointer(a, b.ptr);
    a.ValidIsTiled();
    a.StartedFor(b.ptr - HDR_SZ);
    FreedInMaps(a.blocks, ms, a.heapLo, a.Origin(), b.ptr - HDR_SZ);
    a.Free(b.ptr);
    TrackFree(s, a.mem[..], ps, ms, held, k);
  }

  lemma FreedInMaps(bs: seq<Block>, maps: map<int, int>, lo: int, lo': int, h: int)
    ensures h in maps ==> BlocksFreed(bs, maps, lo, h) == BlocksFreed(bs, maps, lo', h)
  {
  }

  lemma LivePointer(a: Heap.Allocator, ptr: nat)
    requires a.Valid() && ptr - HDR_SZ in a.Payloads()
    ensures ptr != NULL
  {
    a.ValidIsTiled();
    hide Heap.Allocator.Valid, Heap.Allocator.Tiled, Heap.Allocator.Payloads;
    a.PayloadsAreSane();
  }

  /** A byte is stored inside a block the client holds. */
  method DoStore(a: Heap.Allocator, ghost held: map<nat, Held>, b: Held, ghost k: nat, ghost id: nat, off: nat, v: byte)
    requires Good(a, held) && k in held && held[k] == b && off < b.size
    modifies a.mem
    ensures Now(a, Next(held, id, Store(k, off, v), NULL)) == After(old(Now(a, held)), id, Store(k, off, v), NULL)
    ensures Good(a, Next(held, id, Store(k, off, v), NULL))
  {
    hide Tracks, Right, PayloadsOf, LiveMap, Heap.Allocator.Valid, Heap.Allocator.Tiled, Heap.Allocator.Scarred;
    ghost var s, ps, ms := a.mem[..], a.Payloads(), a.kernel.maps;
    HeldRight(s, ps, ms, held, k);
    Place(s, ps, ms, b);
    a.ValidIsTiled();
    a.PayloadsAreSane();
    InMemory(ps, b, off, a.mem.Length);
    label stored:
    a.mem[b.ptr + off] := v;
    a.WriteInside@stored(b.ptr - HDR_SZ);
    assert a.mem[..] == s[b.ptr + off := v];
    StoredRight(s, ps, ms, held, k, off, v);
  }

  lemma InMemory(p: map<int, int>, b: Held, off: nat, limit: nat)
    requires Sane(p, limit) && b.ptr - HDR_SZ in p && b.ptr + b.size <= p[b.ptr - HDR_SZ] && off < b.size
    ensures b.ptr + off < limit && b.ptr + off < p[b.ptr - HDR_SZ]
  {
  }

  lemma StoredRight(s: seq<byte>, p: map<int, int>, m: map<int, int>, held: map<nat, Held>, k: nat, off: nat, v: byte)
    requires Tracks(s, p, m, held) && Sane(p, |s|) && k in held && off < held[k].size && held[k].ptr + off < |s|
    ensures Tracks(s[held[k].ptr + off := v], p, m, held[k := held[k].(known := held[k].known[off := v])])
  {
    hide *;
    var t, b := s[held[k].ptr + off := v], held[k].(known := held[k].known[off := v]);
    HeldRight(s, p, m, held, k);
    StoredHere(s, p, m, held[k], off, v);
    StoredApart(s, p, m, held, k, off, v);
    TrackUpdate(s, t, p, m, held, k, b);
  }

  lemma StoredApart(s: seq<byte>, p: map<int, int>, m: map<int, int>, held: map<nat, Held>, k: nat, off: nat, v: byte)
    requires Tracks(s, p, m, held) && Sane(p, |s|) && k in held && off < held[k].size && held[k].ptr + off < |s|
    ensures forall j :: j in held && j != k ==> Untouched(s, s[held[k].ptr + off := v], held[j])
  {
    hide Right, Sane;
    forall j | j in held && j != k
      ensures Untouched(s, s[held[k].ptr + off := v], held[j])
    {
      HeldRight(s, p, m, held, j);
      HeldRight(s, p, m, held, k);
      Disjoint(s, p, m, held[j], held[k], |s|);
    }
  }

  lemma StoredHere(s: seq<byte>, p: map<int, int>, m: map<int, int>, b: Held, off: nat, v: byte)
    requires Right(s, p, m, b) && off < b.size && b.ptr + off < |s|
    ensures Right(s[b.ptr + off := v], p, m, b.(known := b.known[off := v]))
  {
    hide Bits.MmapTotal;
  }

  /** Different blocks of the client share no byte. */
  lemma Disjoint(s: seq<byte>, p: map<int, int>, m: map<int, int>, b: Held, c: Held, limit: nat)
    requires Right(s, p, m, b) && Right(s, p, m, c) && b.ptr != c.ptr && Sane(p, limit)
    ensures b.ptr + b.size <= c.ptr || c.ptr + c.size <= b.ptr
  {
    hide Bits.MmapTotal;
    var g, h := b.ptr - HDR_SZ, c.ptr - HDR_SZ;
    assert g in p && h in p && g != h;
  }

  // ---------------------------------------------------------------- what realloc loses

  /** A client that allocates 135153 bytes, stores into the last one and grows the block does not find that
      byte again: the new block has there what memory had there before. */
  method LastByte(a: Heap.Allocator, v: byte) returns (p: nat, r: nat)
    requires a.Valid()
    modifies a, a.mem, a.kernel
    ensures p != NULL && r != NULL ==>
      r + 135152 < a.mem.Length && a.mem[r + 135152] == old(a.mem[r + 135152])
    ensures p == NULL ==> a.kernel.calls != [] && a.kernel.calls[|a.kernel.calls| - 1] == MmapCall(135168, -1)
    ensures p != NULL && r == NULL ==>
      a.kernel.calls != [] && a.kernel.calls[|a.kernel.calls| - 1] == MmapCall(200704, -1)
  {
    hide Heap.Allocator.Valid, Heap.Allocator.Tiled, Heap.Allocator.Scarred, PayloadsOf, LiveMap, Bits.MmapTotal,
      Lent, Kept, Sane, AllocList, AllocSafe, Need, MoveSafe, Moved, SameBytes, MapsMoved, Rounded;
    r := NULL;
    ThirtyThreePages();
    FortyNinePages();
    p := a.Malloc(135153);
    if p == NULL {
      return;
    }
    MapsAreLive(LiveMap(a.blocks, a.heapLo), a.kernel.maps);
    a.PayloadsAreSane();
    EndOf(a.Payloads(), p - HDR_SZ, a.mem.Length);
    label stored:
    a.mem[p + 135152] := v;
    a.WriteInside@stored(p - HDR_SZ);
    r := a.Realloc(p, 200000);
  }

  lemma EndOf(p: map<int, int>, h: int, limit: nat)
    requires Sane(p, limit) && h in p
    ensures p[h] <= limit
  {
  }

  // ---------------------------------------------------------------- a test of safety

  /** What is known of a request before it is made: whether it would be served safely, and then where. */
  datatype Look = Look(safe: bool, at: nat)

  /** How many bytes a call asks for, 0 if it does not ask. */
  function Asked(c: Call): nat {
    match c
    case Malloc(sz) => sz
    case Calloc(n, sz) => Product(n, sz)
    case Realloc(_, sz) => sz
    case Free(_) => 0
    case Store(_, _, _) => 0
  }

  ghost predicate Foreseen(s: State, sz: nat, look: Look) {
    0 < sz < MMAP_LIMIT ==>
      && (look.safe <==> AllocSafe(s.blocks, Need(sz), true))
      && (look.safe && s.blocks != [] ==> AllocAddr(s.blocks, s.lo, Need(sz), true) == Found(look.at))
  }

  method LookAhead(a: Heap.Allocator, ghost held: map<nat, Held>, sz: nat) returns (look: Look)
    requires a.Valid()
    ensures Foreseen(Now(a, held), sz, look)
  {
    look := Look(true, 0);
    if 0 < sz < MMAP_LIMIT {
      hide View, Aligned, Represents, AllocSafe, AllocAddr, Need, Rounded, MapsTagged, Heap.Allocator.Seated;
      NeedBounds(sz);
      var safe, at := a.Foresee(Need(sz));
      look := Look(safe, at);
      if !a.heapOk { NothingLaid(a.Tags(), a.heapLo, a.blocks); }
    }
  }

  /** No brk block the client holds lies above `ptr`. */
  predicate Highest(held: map<nat, Held>, ptr: nat) {
    forall k | k in held :: held[k].size >= MMAP_LIMIT || held[k].ptr <= ptr
  }

  predicate FreeTest(held: map<nat, Held>, k: nat)
    requires k in held
  { held[k].size >= MMAP_LIMIT || Highest(held, held[k].ptr) }

  predicate MoveTest(held: map<nat, Held>, k: nat, sz: nat, look: Look)
    requires k in held
  {
    if sz >= MMAP_LIMIT then FreeTest(held, k)
    else
      && look.safe
      && (held[k].size >= MMAP_LIMIT || (look.at + HDR_SZ <= held[k].ptr && Highest(held, held[k].ptr)))
  }

  /** The question of SafeCall, answered from the client's record and a look at the tags before the call. */
  predicate Test(held: map<nat, Held>, c: Call, reply: nat, look: Look) {
    match c
    case Realloc(k, sz) =>
      k in held ==>
        if sz == 0 then FreeTest(held, k) else reply == NULL || reply == held[k].ptr || MoveTest(held, k, sz, look)
    case Free(k) => k in held ==> FreeTest(held, k)
    case Store(_, _, _) => true
    case _ => Asked(c) == 0 || Asked(c) >= MMAP_LIMIT || reply == NULL || look.safe
  }

  /** The client's record is true of the state, whose live blocks are no mappings. */
  ghost predicate Recorded(m: seq<byte>, p: map<int, int>, s: State) {
    && Tracks(m, p, s.maps, s.held) && p == PayloadsOf(LiveMap(s.blocks, s.lo), s.maps)
    && WellFormed(s.blocks)
    && forall h :: h in LiveMap(s.blocks, s.lo) ==> h !in s.maps
  }

  lemma GoodRecorded(a: Heap.Allocator, held: map<nat, Held>)
    requires Good(a, held)
    ensures Recorded(a.mem[..], a.Payloads(), Now(a, held))
  {
    hide Heap.Allocator.Valid, Heap.Allocator.Payloads, Heap.Allocator.Origin, PayloadsOf, LiveMap, Tracks, WellFormed;
    SaneAndListed(a);
    a.LiveApart();
    a.PayloadsFrom();
  }

  lemma InTier(m: seq<byte>, p: map<int, int>, live: map<int, int>, maps: map<int, int>, b: Held)
    requires Right(m, p, maps, b) && p == PayloadsOf(live, maps) && forall h :: h in live ==> h !in maps
    ensures b.size < MMAP_LIMIT <==> b.ptr - HDR_SZ in live
    ensures b.size < MMAP_LIMIT <==> b.ptr - HDR_SZ !in maps
  {
    hide Bits.MmapTotal;
  }

  lemma HighestIsTopmost(m: seq<byte>, p: map<int, int>, s: State, k: nat)
    requires Recorded(m, p, s) && k in s.held && s.held[k].size < MMAP_LIMIT
    ensures Highest(s.held, s.held[k].ptr) <==> Topmost(LiveMap(s.blocks, s.lo), s.held[k].ptr - HDR_SZ)
  {
    hide LiveMap, Right, PayloadsOf, WellFormed;
    var live, ptr := LiveMap(s.blocks, s.lo), s.held[k].ptr;
    forall j | j in s.held
      ensures s.held[j].size < MMAP_LIMIT <==> s.held[j].ptr - HDR_SZ in live
    {
      InTier(m, p, live, s.maps, s.held[j]);
    }
    forall h | h in live
      ensures exists j :: j in s.held && s.held[j].ptr - HDR_SZ == h
    {
      LiveIsPayload(live, s.maps, h);
      assert HeldBy(s.held, h);
    }
  }

  lemma LiveIsPayload(live: map<int, int>, maps: map<int, int>, h: int)
    requires h in live
    ensures h in PayloadsOf(live, maps)
  {
  }

  lemma FreeTestIsSafe(m: seq<byte>, p: map<int, int>, s: State, k: nat)
    requires Recorded(m, p, s) && k in s.held
    ensures FreeTest(s.held, k) <==> SafeFree(s, s.held[k].ptr - HDR_SZ)
    ensures s.held[k].size >= MMAP_LIMIT <==> s.held[k].ptr - HDR_SZ in s.maps
  {
    hide LiveMap, Topmost, Highest, PayloadsOf, Right;
    HeldRight(m, p, s.maps, s.held, k);
    InTier(m, p, LiveMap(s.blocks, s.lo), s.maps, s.held[k]);
    if s.held[k].size < MMAP_LIMIT { HighestIsTopmost(m, p, s, k); }
  }

  /** After a safe allocation at `at`, a block is topmost if it was and lies above the new one. */
  lemma TopmostAfter(bs: seq<Block>, lo: int, need: nat, at: int, h: int)
    requires WellFormed(bs) && Rounded(need) && need >= MIN_BLOCK && AllocAddr(bs, lo, need, true) == Found(at)
    ensures Topmost(LiveMap(AllocList(bs, need, true), lo), h) <==> at <= h && Topmost(LiveMap(bs, lo), h)
  {
    hide LiveMap, AllocList, AllocAddr, WellFormed;
    AllocListLive(bs, lo, need, true);
    var live, live' := LiveMap(bs, lo), LiveMap(AllocList(bs, need, true), lo);
    assert at in live' && forall k :: k in live' <==> k in live || k == at;
  }

  lemma MoveTestIsSafe(m: seq<byte>, p: map<int, int>, s: State, k: nat, sz: nat, look: Look)
    requires Recorded(m, p, s) && k in s.held && sz > 0 && Foreseen(s, sz, look)
    ensures MoveTest(s.held, k, sz, look) <==> MoveSafe(s.blocks, s.maps, s.lo, s.held[k].ptr - HDR_SZ, sz)
  {
    hide LiveMap, Topmost, Highest, AllocSafe, AllocAddr, AllocList, Need, Recorded, Rounded;
    var h := s.held[k].ptr - HDR_SZ;
    FreeTestIsSafe(m, p, s, k);
    if sz < MMAP_LIMIT && look.safe && h !in s.maps {
      NeedBounds(sz);
      HeldBlocks(m, p, s, k);
      HighestIsTopmost(m, p, s, k);
      TopmostAfter(s.blocks, s.lo, Need(sz), look.at, h);
    }
  }

  lemma HeldBlocks(m: seq<byte>, p: map<int, int>, s: State, k: nat)
    requires Recorded(m, p, s) && k in s.held && s.held[k].ptr - HDR_SZ !in s.maps
    ensures WellFormed(s.blocks) && s.blocks != []
  {
    hide Right, WellFormed;
    HeldRight(m, p, s.maps, s.held, k);
    InTier(m, p, LiveMap(s.blocks, s.lo), s.maps, s.held[k]);
  }

  lemma TestIsSafe(m: seq<byte>, p: map<int, int>, s: State, c: Call, reply: nat, look: Look)
    requires Recorded(m, p, s) && Foreseen(s, Asked(c), look)
    requires c.Malloc? || c.Calloc? ==> reply != NULL
    ensures Test(s.held, c, reply, look) <==> SafeCall(s, c, reply)
  {
    hide Recorded, FreeTest, MoveTest, SafeFree, MoveSafe, AllocSafe, AllocAddr, Need, Product;
    match c {
      case Realloc(k, sz) =>
        if k in s.held {
          FreeTestIsSafe(m, p, s, k);
          if sz > 0 { MoveTestIsSafe(m, p, s, k, sz, look); }
        }
      case Free(k) => if k in s.held { FreeTestIsSafe(m, p, s, k); }
      case _ =>
    }
  }

  // ---------------------------------------------------------------- whole runs

  /** One call of the client, repaired or as written. The allocator stays valid exactly when repaired or the
      call is safe, the client can tell, and then its record stays true. */
  method Do(a: Heap.Allocator, held: map<nat, Held>, id: nat, c: Call) returns (reply: nat, valid: bool)
    requires Good(a, held) && id !in held && Fits(c)
    modifies a, a.mem, a.kernel
    ensures a.Valid() <==> a.repaired || SafeCall(old(Now(a, held)), c, reply)
    ensures Now(a, Next(held, id, c, reply)) == After(old(Now(a, held)), id, c, reply)
    ensures valid == a.Valid()
    ensures valid ==> Good(a, Next(held, id, c, reply))
    ensures old(a.kernel.calls) <= a.kernel.calls && Answered(old(Now(a, held)), c, reply, a.kernel.calls)
  {
    ghost var m, p, s := a.mem[..], a.Payloads(), Now(a, held);
    GoodRecorded(a, held);
    var look := LookAhead(a, held, Asked(c));
    reply := Make(a, held, id, c);
    valid := a.repaired || Test(held, c, reply, look);
    if (c.Malloc? || c.Calloc?) && reply == NULL {
    } else {
      TestIsSafe(m, p, s, c, reply, look);
    }
  }

  method Make(a: Heap.Allocator, held: map<nat, Held>, id: nat, c: Call) returns (reply: nat)
    requires Good(a, held) && id !in held && Fits(c)
    modifies a, a.mem, a.kernel
    ensures a.Valid() <==> a.repaired || SafeCall(old(Now(a, held)), c, reply)
    ensures Now(a, Next(held, id, c, reply)) == After(old(Now(a, held)), id, c, reply)
    ensures a.Valid() ==> Good(a, Next(held, id, c, reply))
    ensures old(a.kernel.calls) <= a.kernel.calls && Answered(old(Now(a, held)), c, reply, a.kernel.calls)
    ensures (c.Malloc? || c.Calloc?) && reply == NULL ==> a.Valid()
  {
    hide Resized, AllZero, Product, Tracks, Heap.Allocator.Valid, Heap.Allocator.Payloads, Heap.Allocator.Origin,
      BlocksServed, BlocksFreed, BlocksMoved, MapsMoved, MapsServed, SafeFree, SafeServe, MoveSafe, Refused, Total;
    reply := NULL;
    match c {
      case Malloc(sz) => reply := DoMalloc(a, held, id, sz);
      case Calloc(n, sz) => reply := DoCalloc(a, held, id, n, sz);
      case Realloc(k, sz) => if k in held { reply := DoRealloc(a, held, held[k], k, id, sz); }
      case Free(k) =>
        if k in held { DoFree(a, held, held[k], k, id); } else { assert held - {k} == held; }
      case Store(k, off, v) => if k in held && off < held[k].size { DoStore(a, held, held[k], k, id, off, v); }
    }
  }

  /** A client makes the calls one after the other, keeps record, and stops after the first one that left the
      allocator invalid. It comes to the end exactly when repaired or all calls are safe, whatever the kernel
      grants, and then the record is true: every byte the client stored, or got zeroed, or had preserved by
      realloc, is in its block, every block is in the tier its size belongs to with exactly its own mapping,
      and nothing else is live. What is safe is a matter of
      the start, the calls and the replies alone. */
  method Run(a: Heap.Allocator, calls: seq<Call>)
    returns (replies: seq<nat>, held: map<nat, Held>, ghost marks: seq<nat>)
    requires a.Valid() && a.Payloads() == map[]
    requires forall i :: 0 <= i < |calls| ==> Fits(calls[i])
    modifies a, a.mem, a.kernel
    ensures |replies| <= |calls|
    ensures var start, n := old(Now(a, map[])), |replies|;
      && Now(a, held) == Play(start, calls[..n], replies)
      && (a.Valid() <==> a.repaired || SafeRun(start, calls[..n], replies))
      && (n < |calls| ==> !a.Valid())
      && (!a.Valid() ==> n > 0 && SafeRun(start, calls[..n - 1], replies[..n - 1]))
      && |marks| == n && AllAnswered(start, calls[..n], replies, a.kernel.calls, marks)
    ensures a.Valid() ==> Good(a, held)
  {
    hide Now, After, Next, SafeCall, Fits, Play, SafeRun, PayloadsOf, LiveMap, Tracks, Heap.Allocator.Valid, Answered,
      AllAnswered;
    replies, held, marks := [], map[], [];
    ghost var start := Now(a, map[]);
    NothingHeld(a);
    NothingPlayed(start, calls);
    for i := 0 to |calls|
      invariant |replies| == i && Now(a, held) == Play(start, calls[..i], replies) && Good(a, held)
      invariant a.repaired || SafeRun(start, calls[..i], replies)
      invariant a.Valid() && forall k :: k in held ==> k < i
      invariant |marks| == i && AllAnswered(start, calls[..i], replies, a.kernel.calls, marks)
    {
      ghost var before, log := replies, a.kernel.calls;
      var reply, valid := Do(a, held, i, calls[i]);
      NextIds(held, i, calls[i], reply);
      PlayOn(start, calls, replies, i, reply);
      AnsweredOn(start, calls, replies, log, a.kernel.calls, marks, i, reply);
      marks := marks + [|a.kernel.calls|];
      held := Next(held, i, calls[i], reply);
      replies := replies + [reply];
      if !valid {
        assert replies[..i] == before;
        return;
      }
    }
    assert calls[..|calls|] == calls;
  }

  /** An allocator over memory without mappings can start. */
  lemma Starts(a: Heap.Allocator)
    requires !a.heapOk && a.heapLo == a.heapHi == NULL && a.blocks == []
    requires a.kernel.Valid() && a.kernel.limit == a.mem.Length && a.kernel.maps == map[]
    ensures a.Valid() && a.Payloads() == map[]
  {
    hide View;
    var k := a.mem.Length / PAGE;
    assert a.mem.Length == 8 * (512 * k);
    Eights(512 * k);
  }

  /** The same from the start of a process: memory of `limit` bytes with the break at `start`, an allocator
      that is not set up yet, and a client that holds nothing. */
  method Boot(limit: nat, start: nat, repaired: bool, calls: seq<Call>)
    returns (a: Heap.Allocator, replies: seq<nat>, held: map<nat, Held>, ghost marks: seq<nat>)
    requires limit % PAGE == 0 && limit <= ADDRESS_LIMIT && 0 < start <= limit
    requires forall i :: 0 <= i < |calls| ==> Fits(calls[i])
    ensures a.repaired == repaired && |replies| <= |calls|
    ensures var first, n := State([], map[], Bits.AlignUp(start, ALIGN), map[]), |replies|;
      && Now(a, held) == Play(first, calls[..n], replies)
      && (a.Valid() <==> repaired || SafeRun(first, calls[..n], replies))
      && (n < |calls| ==> !a.Valid())
      && (!a.Valid() ==> n > 0 && SafeRun(first, calls[..n - 1], replies[..n - 1]))
      && |marks| == n && AllAnswered(first, calls[..n], replies, a.kernel.calls, marks)
    ensures a.Valid() ==> Good(a, held)
  {
    hide Fits, Play, SafeRun, AllAnswered, Tracks, Heap.Allocator.Valid, Heap.Allocator.Payloads;
    var mem := new byte[limit];
    var kernel := new Kernel(limit, start);
    a := new Heap.Allocator(mem, kernel, repaired);
    Starts(a);
    assert Now(a, map[]) == State([], map[], Bits.AlignUp(start, ALIGN), map[]);
    replies, held, marks := Run(a, calls);
  }

  lemma NothingHeld(a: Heap.Allocator)
    requires a.Valid() && a.Payloads() == map[]
    ensures Good(a, map[])
  {
    hide Heap.Allocator.Valid, PayloadsOf;
    MapsAreLive(LiveMap(a.blocks, a.heapLo), a.kernel.maps);
  }

  lemma NextIds(held: map<nat, Held>, i: nat, c: Call, reply: nat)
    requires forall k :: k in held ==> k < i
    ensures forall k :: k in Next(held, i, c, reply) ==> k < i + 1
  {
    hide Resized, AllZero, Product;
  }

  lemma NothingPlayed(start: State, calls: seq<Call>)
    ensures Play(start, calls[..0], []) == start && SafeRun(start, calls[..0], [])
    ensures forall log :: AllAnswered(start, calls[..0], [], log, [])
  {
  }

  /** One more call. */
  lemma PlayOn(start: State, calls: seq<Call>, replies: seq<nat>, i: nat, reply: nat)
    requires i < |calls| && |replies| == i
    ensures var now := Play(start, calls[..i], replies);
      && Play(start, calls[..i + 1], replies + [reply]) == After(now, i, calls[i], reply)
      && (SafeRun(start, calls[..i + 1], replies + [reply]) <==>
            SafeRun(start, calls[..i], replies) && SafeCall(now, calls[i], reply))
  {
    hide After, SafeCall;
    assert calls[..i + 1][..i] == calls[..i] && (replies + [reply])[..i] == replies;
  }

  /** What a true record means: the client's blocks share no byte; and once it holds none, no mapping is
      left and the heap is empty or one free block. */
  lemma GoodMeans(a: Heap.Allocator, held: map<nat, Held>)
    requires Good(a, held)
    ensures forall j, k :: j in held && k in held && j != k ==>
      held[j].ptr + held[j].size <= held[k].ptr || held[k].ptr + held[k].size <= held[j].ptr
    ensures forall k, off :: k in held && off in held[k].known ==>
      held[k].ptr + off < a.mem.Length && a.mem[held[k].ptr + off] == held[k].known[off]
    ensures held == map[] ==>
      a.kernel.maps == map[] && |a.blocks| <= 1 && (a.blocks != [] ==> !a.blocks[0].alloc)
  {
    hide Heap.Allocator.Valid, PayloadsOf, LiveMap, Tracks, Sane, Right;
    var s, p, m := a.mem[..], a.Payloads(), a.kernel.maps;
    SaneAndListed(a);
    AllDisjoint(s, p, m, held);
    forall k, off | k in held && off in held[k].known
      ensures held[k].ptr + off < a.mem.Length && a.mem[held[k].ptr + off] == held[k].known[off]
    {
      HeldRight(s, p, m, held, k);
      KnownThere(s, p, m, held[k], off);
    }
    if held == map[] {
      NoneLive(s, p, m, LiveMap(a.blocks, a.heapLo));
      NothingLive(a.blocks, a.heapLo);
    }
  }

  lemma AllDisjoint(s: seq<byte>, p: map<int, int>, m: map<int, int>, held: map<nat, Held>)
    requires Tracks(s, p, m, held) && Sane(p, |s|)
    ensures forall j, k :: j in held && k in held && j != k ==>
      held[j].ptr + held[j].size <= held[k].ptr || held[k].ptr + held[k].size <= held[j].ptr
  {
    hide Right, Sane;
    forall j, k | j in held && k in held && j != k
      ensures held[j].ptr + held[j].size <= held[k].ptr || held[k].ptr + held[k].size <= held[j].ptr
    {
      Disjoint(s, p, m, held[j], held[k], |s|);
    }
  }

  lemma SaneAndListed(a: Heap.Allocator)
    requires a.Valid()
    ensures Sane(a.Payloads(), a.mem.Length) && WellFormed(a.blocks)
  {
    a.ValidIsTiled();
    a.PayloadsAreSane();
    hide Sane, View, Tiling.Tiles, PayloadsOf, LiveMap;
  }

  lemma KnownThere(s: seq<byte>, p: map<int, int>, m: map<int, int>, b: Held, off: nat)
    requires Right(s, p, m, b) && off in b.known
    ensures b.ptr + off < |s| && s[b.ptr + off] == b.known[off]
  {
    hide Bits.MmapTotal;
  }

  lemma NoneLive(s: seq<byte>, p: map<int, int>, maps: map<int, int>, live: map<int, int>)
    requires Tracks(s, p, maps, map[]) && p == PayloadsOf(live, maps)
    ensures live == map[] && maps == map[]
  {
    assert forall h :: h in p ==> HeldBy(map[], h);
    assert forall h :: h in live ==> h in PayloadsOf(live, maps);
    assert forall h :: h in maps ==> h in PayloadsOf(live, maps);
  }
}
