/**
 * The process's virtual address space as the allocator sees it through
 * mmap, munmap, memset and libnuma. Every byte address that is mapped has
 * a `Mapping`; the kernel picks where a fresh mapping goes, and may refuse
 * any request. Addresses are modelled byte by byte (interval granularity);
 * the kernel's rounding of lengths to whole pages is not.
 */
module HostMemory {
  import opened Alignment

  /** The protections the allocator uses: PROT_NONE and PROT_READ|PROT_WRITE. */
  datatype Prot = ProtNone | ProtReadWrite

  /**
   * What backs one mapped byte: its protection, the descriptor that backs
   * it (`-1` for anonymous memory), whether the mapping is shared, and
   * whether it has already been written (populated) since it was mapped.
   */
  datatype Mapping = Mapping(prot: Prot, fd: int, shared: bool, populated: bool)

  /** The result of mmap: MAP_FAILED, or the address of the new mapping. */
  datatype MapResult = MapFailed | Mapped(addr: nat)

  /**
   * One mmap request and the kernel's answer: whether it asked for a fixed
   * address (MAP_FIXED), how many bytes, and whether it was granted.
   */
  datatype MmapCall = MmapCall(fixed: bool, len: nat, granted: bool)

  /** One request made to libnuma to move the pages of a range to a node. */
  datatype Placement = Placement(addr: nat, len: nat, node: int)

  /** No byte of [lo, hi) is mapped in `mem`. */
  predicate RangeFree(mem: map<int, Mapping>, lo: int, hi: int) {
    forall a :: lo <= a < hi ==> a !in mem
  }

  /** `a` lies in [lo, hi). */
  predicate InRange(a: int, lo: int, hi: int) {
    lo <= a < hi
  }

  /** A fresh mapping `m` over [lo, lo + len). */
  function Fill(lo: int, len: nat, m: Mapping): map<int, Mapping> {
    map a {:trigger InRange(a, lo, lo + len)} | lo <= a < lo + len :: m
  }

  /** Right after a mapping `m` over [lo, lo + len), every byte of it is mapped as `m`. */
  lemma FillCovers(mem: map<int, Mapping>, lo: int, len: nat, m: Mapping)
    ensures forall a :: lo <= a < lo + len ==> a in mem + Fill(lo, len, m) && (mem + Fill(lo, len, m))[a] == m
  {
    forall a | lo <= a < lo + len
      ensures a in mem + Fill(lo, len, m) && (mem + Fill(lo, len, m))[a] == m
    {
      assert InRange(a, lo, lo + len);
    }
  }

  /** `mem` with [lo, hi) unmapped. */
  function Unmapped(mem: map<int, Mapping>, lo: int, hi: int): map<int, Mapping> {
    map a | a in mem && !(lo <= a < hi) :: mem[a]
  }

  /** `mem` with every mapped byte of [lo, hi) marked as written. */
  function Populated(mem: map<int, Mapping>, lo: int, hi: int): map<int, Mapping> {
    map a | a in mem :: if lo <= a < hi then mem[a].(populated := true) else mem[a]
  }

  class AddressSpace {
    /** The host page size, getpagesize(). */
    const pageSize: nat
    /** The end of the user part of the address space. */
    const top: nat
    var mem: map<int, Mapping>
    /** Every NUMA placement requested so far, oldest first. */
    var placements: seq<Placement>
    /** Every mmap request made so far and the kernel's answer, oldest first. */
    ghost var calls: seq<MmapCall>

    predicate Valid() {
      IsPowerOfTwo(pageSize)
    }

    constructor (pageSize: nat, top: nat)
      requires IsPowerOfTwo(pageSize)
      ensures Valid() && this.pageSize == pageSize && this.top == top
      ensures mem == map[] && placements == [] && calls == []
    {
      this.pageSize := pageSize;
      this.top := top;
      mem := map[];
      placements := [];
      calls := [];
    }

    /**
     * mmap(NULL, len, prot, flags, fd, 0): the kernel chooses a free,
     * page-aligned range of `len` bytes, or fails. A zero length is
     * always refused (EINVAL); any other request may be refused too
     * (ENOMEM, a bad descriptor, ...), and then nothing changes.
     */
    method Mmap(len: nat, prot: Prot, fd: int, shared: bool) returns (r: MapResult)
      requires Valid()
      modifies this`mem, this`calls
      ensures calls == old(calls) + [MmapCall(false, len, r.Mapped?)]
      ensures r.MapFailed? ==> mem == old(mem)
      ensures r.Mapped? ==>
        && len > 0 && r.addr > 0 && r.addr % pageSize == 0 && r.addr + len <= top
        && RangeFree(old(mem), r.addr, r.addr + len)
        && mem == old(mem) + Fill(r.addr, len, Mapping(prot, fd, shared, false))
    {
      calls := calls + [MmapCall(false, len, false)];
      if len == 0 {
        return MapFailed;
      }
      if * {
        return MapFailed;
      }
      if a :| 0 < a && a + len <= top && a % pageSize == 0 && RangeFree(mem, a, a + len) {
        mem := mem + Fill(a, len, Mapping(prot, fd, shared, false));
        calls := old(calls) + [MmapCall(false, len, true)];
        r := Mapped(a);
      } else {
        r := MapFailed;
      }
    }

    /**
     * mmap(addr, len, prot, MAP_FIXED | ..., fd, 0): replaces whatever is
     * mapped at [addr, addr + len). A zero length is refused; any other
     * request may fail too, and a failed MAP_FIXED request may already
     * have unmapped the old range.
     */
    method MmapFixed(addr: nat, len: nat, prot: Prot, fd: int, shared: bool) returns (ok: bool)
      modifies this`mem, this`calls
      ensures calls == old(calls) + [MmapCall(true, len, ok)]
      ensures ok ==> len > 0 && mem == old(mem) + Fill(addr, len, Mapping(prot, fd, shared, false))
      ensures !ok ==> mem == old(mem) || mem == Unmapped(old(mem), addr, addr + len)
    {
      calls := calls + [MmapCall(true, len, false)];
      if len == 0 {
        return false;
      }
      if * {
        ok := false;
        if * {
          mem := Unmapped(mem, addr, addr + len);
        }
      } else {
        ok := true;
        mem := mem + Fill(addr, len, Mapping(prot, fd, shared, false));
        calls := old(calls) + [MmapCall(true, len, true)];
      }
    }

    /** munmap(addr, len): nothing of [addr, addr + len) stays mapped. */
    method Munmap(addr: int, len: nat)
      modifies this`mem
      ensures mem == Unmapped(old(mem), addr, addr + len)
    {
      mem := Unmapped(mem, addr, addr + len);
    }

    /** memset(addr, 0, len) over memory that must be mapped read/write. */
    method ZeroFill(addr: nat, len: nat)
      requires forall a :: addr <= a < addr + len ==> a in mem && mem[a].prot == ProtReadWrite
      modifies this`mem
      ensures mem == Populated(old(mem), addr, addr + len)
    {
      mem := Populated(mem, addr, addr + len);
    }

    /** numa_tonode_memory(addr, len, node): an advisory request to libnuma. */
    method NumaToNodeMemory(addr: nat, len: nat, node: int)
      modifies this`placements
      ensures placements == old(placements) + [Placement(addr, len, node)]
    {
      placements := placements + [Placement(addr, len, node)];
    }
  }
}
