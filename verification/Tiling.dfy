/** Heaps whose tags have the right sizes but may have wrong flags: what one call of the unrepaired code
    leaves behind, and what releasing a block relies on. */
module Tiling {
  import opened BlockList
  import opened BoundaryTags

  /** The two flags found in a header. */
  datatype Flags = Flags(alloc: bool, prevFree: bool)

  /** Header and, for a free block, footer have the size of `b`. A free block is marked free, and a
      block in use knows whether the one before it is free; its own ALLOC flag may be wrong, and so may
      the PREV_FREE flag of a free block. */
  ghost predicate Tile(w: Words, o: int, b: Block, f: Flags, afterFree: bool) {
    && At(w, o) == Tag(b.size, f.alloc, f.prevFree)
    && (b.alloc ==> f.prevFree == afterFree)
    && (!b.alloc ==> !f.alloc && At(w, o + b.size - HDR_SZ) == Tag(b.size, false, false))
  }

  predicate AfterFree(bs: seq<Block>, j: nat)
    requires j < |bs|
  { j > 0 && !bs[j - 1].alloc }

  ghost predicate TileOf(w: Words, lo: int, bs: seq<Block>, fs: seq<Flags>, j: nat)
    requires j < |bs| == |fs|
  {
    Tile(w, lo + Total(bs[..j]), bs[j], fs[j], AfterFree(bs, j))
  }

  ghost predicate Tiles(w: Words, lo: int, bs: seq<Block>, fs: seq<Flags>) {
    && SizesOk(bs) && |fs| == |bs|
    && forall j :: 0 <= j < |bs| ==> TileOf(w, lo, bs, fs, j)
  }

  lemma AllTiles(w: Words, lo: int, bs: seq<Block>, fs: seq<Flags>)
    requires SizesOk(bs) && |fs| == |bs| && forall j: nat :: j < |bs| ==> TileOf(w, lo, bs, fs, j)
    ensures Tiles(w, lo, bs, fs)
  {
    hide SizesOk, TileOf;
  }

  /** The flags the invariant asks for. */
  function Documented(bs: seq<Block>): (fs: seq<Flags>)
    ensures |fs| == |bs|
    ensures forall j :: 0 <= j < |bs| ==> fs[j] == Flags(bs[j].alloc, AfterFree(bs, j))
  {
    seq(|bs|, j requires 0 <= j < |bs| => Flags(bs[j].alloc, AfterFree(bs, j)))
  }

  lemma ReprTiles(w: Words, lo: int, bs: seq<Block>)
    requires Repr(w, lo, bs, false)
    ensures Tiles(w, lo, bs, Documented(bs))
  {
    var fs := Documented(bs);
    hide Repr, Tag, Total, Tile, SizeOk;
    ReprWellFormed(w, lo, bs, false);
    forall j | 0 <= j < |bs|
      ensures TileOf(w, lo, bs, fs, j)
    {
      TileAt(w, lo, bs, j);
      assert fs[j] == Flags(bs[j].alloc, AfterFree(bs, j));
    }
  }

  lemma TileAt(w: Words, lo: int, bs: seq<Block>, j: nat)
    requires Repr(w, lo, bs, false) && j < |bs|
    ensures Tile(w, lo + Total(bs[..j]), bs[j], Flags(bs[j].alloc, AfterFree(bs, j)), AfterFree(bs, j))
  {
    hide Repr, Tag, Total;
    BlockAt(w, lo, bs, j);
  }

  // ---------------------------------------------------------------- tags are not payload

  lemma {:induction false} PayloadSplit(bs: seq<Block>, lo: int, j: nat, a: int)
    requires SizesOk(bs) && j < |bs| && Payload(bs, lo, a)
    ensures var o := lo + Total(bs[..j]);
      || a < o - HDR_SZ || a >= o + bs[j].size + HDR_SZ
      || (bs[j].alloc && o + HDR_SZ <= a < o + bs[j].size - HDR_SZ)
  {
    var b, rest, lo' := bs[0], bs[1..], lo + bs[0].size;
    if j == 0 {
      assert bs[..0] == [];
      if Payload(rest, lo', a) { PayloadRange(rest, lo', a); }
    } else {
      assert bs[..j] == [b] + rest[..j - 1];
      TotalAppend([b], rest[..j - 1]);
      Short([b], lo);
      TotalBound(rest[..j - 1]);
      if Payload(rest, lo', a) { PayloadSplit(rest, lo', j - 1, a); }
    }
  }
}
