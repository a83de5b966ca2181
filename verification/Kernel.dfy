/** The kernel as src/heap.c sees it: a program break and anonymous mappings in one address space.
    Every call may fail; when it succeeds the new memory overlaps nothing handed out before. */
module KernelModel {
  import opened BlockList

  const ADDRESS_LIMIT := 0x8000_0000_0000

  /** One call and its answer. */
  datatype KernelCall =
    | BrkCall(addr: int, answer: int)
    | MmapCall(len: int, answer: int)
    | MunmapCall(addr: int, len: int)

  class Kernel {
    const limit: nat
    const start: nat
    var brk: nat
    /** start -> length of every live mapping */
    var maps: map<int, int>
    /** every call so far */
    ghost var calls: seq<KernelCall>

    ghost predicate Valid()
      reads this
    {
      && limit % PAGE == 0 && limit <= ADDRESS_LIMIT
      && 0 < start <= brk <= limit
      && (forall a :: a in maps ==>
            a % PAGE == 0 && 0 < a && 0 < maps[a] && a + maps[a] <= limit && (a + maps[a] <= start || brk <= a))
      && (forall a, b :: a in maps && b in maps && a < b ==> a + maps[a] <= b)
    }

    constructor (limit: nat, start: nat)
      requires limit % PAGE == 0 && limit <= ADDRESS_LIMIT && 0 < start <= limit
      ensures Valid() && this.limit == limit && this.start == start && brk == start && maps == map[] && calls == []
    {
      this.limit, this.start, brk, maps := limit, start, start, map[];
      calls := [];
    }

    /** Moves the break to `addr` or leaves it, and answers the break. */
    method Brk(addr: nat) returns (r: nat)
      requires Valid()
      modifies this`brk, this`calls
      ensures Valid() && r == brk
      ensures brk == old(brk) || (brk == addr && addr >= start)
      ensures calls == old(calls) + [BrkCall(addr, r)]
    {
      var willing: bool := *;
      if willing && start <= addr <= limit && forall a | a in maps :: a + maps[a] <= start || addr <= a {
        brk := addr;
      }
      r := brk;
      calls := calls + [BrkCall(addr, r)];
    }

    /** Maps `len` fresh bytes at a page boundary, or answers -1. */
    method Mmap(len: nat) returns (r: int)
      requires Valid()
      modifies this`maps, this`calls
      ensures Valid()
      ensures r == -1 ==> maps == old(maps)
      ensures r != -1 ==> 0 < r && r % PAGE == 0 && r !in old(maps) && maps == old(maps)[r := len]
      ensures calls == old(calls) + [MmapCall(len, r)]
    {
      var a: int := *;
      if len > 0 && 0 < a && a % PAGE == 0 && a + len <= limit && (a + len <= start || brk <= a) &&
        (forall b | b in maps :: b + maps[b] <= a || a + len <= b) {
        maps := maps[a := len];
        r := a;
      } else {
        r := -1;
      }
      calls := calls + [MmapCall(len, r)];
    }

    /** Unmapping is modelled for exactly one whole mapping. */
    method Munmap(addr: int, len: int)
      requires Valid() && addr in maps && maps[addr] == len
      modifies this`maps, this`calls
      ensures Valid() && maps == old(maps) - {addr}
      ensures calls == old(calls) + [MunmapCall(addr, len)]
    {
      maps := maps - {addr};
      calls := calls + [MunmapCall(addr, len)];
    }
  }
}
