/**
 * RAM backed by mmaped host memory: an aligned block of `size` bytes,
 * carved out of a PROT_NONE reservation of `size + align` bytes and
 * followed by one PROT_NONE guard page, and its release.
 */
module MmapAlloc {
  import opened Alignment
  import opened HostMemory
  import opened PageSize

  /** What the allocator does about NUMA placement. */
  datatype NumaStep =
    | NumaWarn   // the node is beyond numa_max_node(): a diagnostic only
    | NumaPlace  // ask libnuma to move the pages to the node
    | NumaSkip   // no node requested (-1)

  /** The NUMA decision for `physNode` when numa_max_node() is `maxNode`. */
  function NumaPolicy(physNode: int, maxNode: int): (s: NumaStep)
    ensures s == NumaPlace <==> 0 <= physNode <= maxNode
    ensures s == NumaWarn <==> physNode > maxNode
    ensures s == NumaSkip <==> physNode < 0 && physNode <= maxNode
  {
    if physNode > maxNode then NumaWarn
    else if physNode >= 0 then NumaPlace
    else NumaSkip
  }

  /**
   * The descriptor that backs the reservation. On ppc64 Linux
   * (`sliceRule`), mappings in one segment must share a page size, so a
   * descriptor whose page size differs from the host's backs the
   * reservation itself (with MAP_NORESERVE); otherwise the reservation is
   * anonymous (-1).
   */
  function ReservationFd(fd: int, sliceRule: bool, replies: seq<StatfsReply>, hostPageSize: nat): (r: int)
    requires sliceRule && fd != -1 ==> HasAnswer(replies)
    ensures r == -1 || r == fd
    ensures r == fd && fd != -1 <==> sliceRule && fd != -1 && DetectedPageSize(fd, replies, hostPageSize) != hostPageSize
  {
    if !sliceRule || fd == -1 || DetectedPageSize(fd, replies, hostPageSize) == hostPageSize then -1 else fd
  }

  /**
   * Under the segment rule the reservation has the page size of `fd`:
   * qemu_fd_getpagesize gives the same answer for the reservation's
   * descriptor as for `fd`, so the block overlaid later shares the
   * segment's page size.
   */
  lemma ReservationSharesPageSize(fd: int, replies: seq<StatfsReply>, hostPageSize: nat)
    requires fd != -1 && HasAnswer(replies)
    ensures DetectedPageSize(ReservationFd(fd, true, replies, hostPageSize), replies, hostPageSize)
         == DetectedPageSize(fd, replies, hostPageSize)
  {
  }

  /**
   * What one successful allocation at `base` leaves mapped: `size` bytes
   * read/write, backed by `fd` (shared or private, populated or not),
   * then one page with no access, backed as the reservation was.
   */
  function Extent(base: int, size: nat, pageSize: nat, fd: int, shared: bool, populate: bool, guardFd: int): map<int, Mapping> {
    Fill(base, size, Mapping(ProtReadWrite, fd, shared, populate))
      + Fill(base + size, pageSize, Mapping(ProtNone, guardFd, false, false))
  }

  /**
   * The extent covers exactly [base, base + size + pageSize); only its
   * first `size` bytes are readable and writable, and the page after them
   * is the guard, with no access.
   */
  lemma ExtentLayout(base: int, size: nat, pageSize: nat, fd: int, shared: bool, populate: bool, guardFd: int, a: int)
    ensures a in Extent(base, size, pageSize, fd, shared, populate, guardFd) <==> base <= a < base + size + pageSize
    ensures base <= a < base + size ==>
      Extent(base, size, pageSize, fd, shared, populate, guardFd)[a] == Mapping(ProtReadWrite, fd, shared, populate)
    ensures base + size <= a < base + size + pageSize ==>
      Extent(base, size, pageSize, fd, shared, populate, guardFd)[a] == Mapping(ProtNone, guardFd, false, false)
  {
    assert a in Fill(base, size, Mapping(ProtReadWrite, fd, shared, populate)) <==> InRange(a, base, base + size);
    assert a in Fill(base + size, pageSize, Mapping(ProtNone, guardFd, false, false))
       <==> InRange(a, base + size, base + size + pageSize);
  }

  /**
   * The mmap requests one allocation makes, in order: the reservation of
   * `total` bytes and, only when that is granted, the MAP_FIXED overlay of
   * `size` bytes. The allocation succeeds (`ok`) exactly when the overlay
   * is granted.
   */
  predicate AllocationCalls(made: seq<MmapCall>, total: nat, size: nat, ok: bool) {
    || (made == [MmapCall(false, total, false)] && !ok)
    || (|made| == 2 && made[0] == MmapCall(false, total, true)
        && made[1].fixed && made[1].len == size && ok == made[1].granted)
  }

  /**
   * An allocation fails exactly when the kernel refused one of its mmap
   * requests: nothing else (a NUMA node out of range, populating) turns it
   * into a failure.
   */
  lemma FailsOnlyOnRefusal(made: seq<MmapCall>, total: nat, size: nat, ok: bool)
    requires AllocationCalls(made, total, size, ok)
    ensures ok <==> forall i :: 0 <= i < |made| ==> made[i].granted
    ensures !ok <==> exists i :: 0 <= i < |made| && !made[i].granted
  {
    if |made| == 2 && ok {
      assert made[0].granted && made[1].granted;
    } else if |made| == 2 {
      assert !made[1].granted;
    } else {
      assert !made[0].granted;
    }
  }

  /** `p` is a reservation base from which the allocator returns `base`. */
  predicate ReservedFor(p: nat, base: nat, align: nat, pageSize: nat)
    requires align > 0 && pageSize > 0
  {
    p > 0 && p % pageSize == 0 && base == AlignUp(p, align)
  }

  /** The address space after each carving step, from `mem` in which [p, p + total) was free. */
  function Reserved(mem: map<int, Mapping>, p: nat, total: nat, guardFd: int): map<int, Mapping> {
    mem + Fill(p, total, Mapping(ProtNone, guardFd, false, false))
  }

  function Overlaid(mem: map<int, Mapping>, base: nat, size: nat, fd: int, shared: bool, populate: bool): map<int, Mapping> {
    var mapped := mem + Fill(base, size, Mapping(ProtReadWrite, fd, shared, false));
    if populate then Populated(mapped, base, base + size) else mapped
  }

  function DropHead(mem: map<int, Mapping>, p: nat, base: nat): map<int, Mapping> {
    if base > p then Unmapped(mem, p, base) else mem
  }

  function DropTail(mem: map<int, Mapping>, base: nat, end: nat, size: nat, pageSize: nat): map<int, Mapping> {
    if end > base + size + pageSize then Unmapped(mem, base + size + pageSize, end) else mem
  }

  /** One address of the carving: it ends as `mem` plus the block's extent says. */
  lemma CarveAt(mem: map<int, Mapping>, p: nat, total: nat, base: nat, size: nat, pageSize: nat,
                guardFd: int, fd: int, shared: bool, populate: bool, a: int)
    requires RangeFree(mem, p, p + total)
    requires p <= base && base + size + pageSize <= p + total
    ensures
      var carved := DropTail(DropHead(Overlaid(Reserved(mem, p, total, guardFd), base, size, fd, shared, populate),
                                      p, base), base, p + total, size, pageSize);
      var want := mem + Extent(base, size, pageSize, fd, shared, populate, guardFd);
      (a in carved <==> a in want) && (a in carved ==> carved[a] == want[a])
  {
    var resv := Mapping(ProtNone, guardFd, false, false);
    var rw := Mapping(ProtReadWrite, fd, shared, false);
    var reserved := Reserved(mem, p, total, guardFd);
    var mapped := reserved + Fill(base, size, rw);
    var overlaid := Overlaid(reserved, base, size, fd, shared, populate);
    assert a in Fill(p, total, resv) <==> InRange(a, p, p + total);
    assert a in Fill(base, size, rw) <==> InRange(a, base, base + size);
    assert a in overlaid <==> a in mapped;
    if a < p || p + total <= a {
      assert a in reserved <==> a in mem;
      assert a in reserved ==> reserved[a] == mem[a];
      assert a in overlaid ==> overlaid[a] == mem[a];
    } else if a < base + size && base <= a {
      assert mapped[a] == rw;
      assert overlaid[a] == rw.(populated := populate);
    } else {
      assert a in overlaid && overlaid[a] == resv;
    }
    ExtentLayout(base, size, pageSize, fd, shared, populate, guardFd, a);
  }

  /**
   * The carving steps, applied to an address space `mem` in which the
   * reservation [p, p + total) was free: reserve, overlay the read/write
   * block at `base`, populate it if asked, drop the head padding before
   * `base`, drop everything past one guard page. What remains is `mem`
   * plus exactly the extent of the block and its guard page.
   */
  lemma Carve(mem: map<int, Mapping>, p: nat, total: nat, base: nat, size: nat, pageSize: nat,
              guardFd: int, fd: int, shared: bool, populate: bool)
    requires RangeFree(mem, p, p + total)
    requires p <= base && base + size + pageSize <= p + total
    ensures DropTail(DropHead(Overlaid(Reserved(mem, p, total, guardFd), base, size, fd, shared, populate),
                              p, base), base, p + total, size, pageSize)
         == mem + Extent(base, size, pageSize, fd, shared, populate, guardFd)
  {
    var carved := DropTail(DropHead(Overlaid(Reserved(mem, p, total, guardFd), base, size, fd, shared, populate),
                                    p, base), base, p + total, size, pageSize);
    var want := mem + Extent(base, size, pageSize, fd, shared, populate, guardFd);
    forall a
      ensures a in carved <==> a in want
      ensures a in carved ==> carved[a] == want[a]
    {
      CarveAt(mem, p, total, base, size, pageSize, guardFd, fd, shared, populate, a);
    }
    assert carved == want;
  }

  /**
   * Unmapping the whole reservation gives back the address space as it
   * was before it, whether or not a failed overlay inside it had already
   * unmapped [lo, hi).
   */
  lemma ReservationReleased(mem: map<int, Mapping>, p: nat, total: nat, resv: Mapping, lo: int, hi: int)
    requires RangeFree(mem, p, p + total)
    requires p <= lo && hi <= p + total
    ensures Unmapped(mem + Fill(p, total, resv), p, p + total) == mem
    ensures Unmapped(Unmapped(mem + Fill(p, total, resv), lo, hi), p, p + total) == mem
  {
    var reserved := mem + Fill(p, total, resv);
    forall a
      ensures a in Unmapped(reserved, p, p + total) <==> a in mem
      ensures a in Unmapped(Unmapped(reserved, lo, hi), p, p + total) <==> a in mem
    {
      assert a in Fill(p, total, resv) <==> InRange(a, p, p + total);
    }
    assert Unmapped(reserved, p, p + total) == mem;
    assert Unmapped(Unmapped(reserved, lo, hi), p, p + total) == mem;
  }

  /**
   * Releasing `size + pageSize` bytes at the base of an allocation gives
   * back the address space as it was before the allocation.
   */
  lemma ReleaseRestores(mem: map<int, Mapping>, base: nat, size: nat, pageSize: nat,
                        fd: int, shared: bool, populate: bool, guardFd: int)
    requires RangeFree(mem, base, base + size + pageSize)
    ensures Unmapped(mem + Extent(base, size, pageSize, fd, shared, populate, guardFd), base, base + size + pageSize) == mem
  {
    var e := Extent(base, size, pageSize, fd, shared, populate, guardFd);
    forall a
      ensures a in Unmapped(mem + e, base, base + size + pageSize) <==> a in mem
    {
      ExtentLayout(base, size, pageSize, fd, shared, populate, guardFd, a);
    }
    assert Unmapped(mem + e, base, base + size + pageSize) == mem;
  }

  /**
   * The reservation's descriptor as __qemu_ram_mmap chooses it, asking
   * qemu_fd_getpagesize only when the ppc64 Linux segment rule applies.
   */
  method ReservationBacking(fd: int, sliceRule: bool, replies: seq<StatfsReply>, hostPageSize: nat)
    returns (anonfd: int)
    requires sliceRule && fd != -1 ==> HasAnswer(replies)
    ensures anonfd == ReservationFd(fd, sliceRule, replies, hostPageSize)
  {
    anonfd := -1;
    if sliceRule && fd != -1 {
      var fdPageSize := FdGetPageSize(fd, replies, hostPageSize);
      if fdPageSize != hostPageSize {
        anonfd := fd;
      }
    }
  }

  /**
   * The end of __qemu_ram_mmap, once `ptr` has moved up to the aligned
   * `base` inside the reservation [ptr, ptr + total): unmap the padding
   * before `base`, and unmap whatever of the rest of the reservation lies
   * past one guard page.
   */
  method TrimToGuard(vm: AddressSpace, ptr: nat, base: nat, total: nat, size: nat)
    requires ptr <= base <= ptr + total
    modifies vm
    ensures vm.mem == DropTail(DropHead(old(vm.mem), ptr, base), base, ptr + total, size, vm.pageSize)
    ensures vm.placements == old(vm.placements) && vm.calls == old(vm.calls)
  {
    var offset, rest := base - ptr, total - (base - ptr);
    if offset > 0 {
      vm.Munmap(base - offset, offset);
    }
    if rest > size + vm.pageSize {
      vm.Munmap(base + size + vm.pageSize, rest - size - vm.pageSize);
    }
  }

  /**
   * The read/write block at `base` now overlays the reservation
   * [ptr, ptr + total), which was free in `before`: populate the block if
   * asked, then trim down to the block and its guard page.
   */
  method PopulateAndTrim(vm: AddressSpace, ghost before: map<int, Mapping>, ptr: nat, total: nat, base: nat,
                         size: nat, fd: int, shared: bool, populate: bool, anonfd: int)
    requires RangeFree(before, ptr, ptr + total)
    requires ptr <= base && base + size + vm.pageSize <= ptr + total
    requires vm.mem == Reserved(before, ptr, total, anonfd) + Fill(base, size, Mapping(ProtReadWrite, fd, shared, false))
    modifies vm
    ensures vm.mem == before + Extent(base, size, vm.pageSize, fd, shared, populate, anonfd)
    ensures vm.placements == old(vm.placements) && vm.calls == old(vm.calls)
  {
    ghost var reserved := Reserved(before, ptr, total, anonfd);
    if populate {
      FillCovers(reserved, base, size, Mapping(ProtReadWrite, fd, shared, false));
      vm.ZeroFill(base, size);
    }
    assert vm.mem == Overlaid(reserved, base, size, fd, shared, populate);
    TrimToGuard(vm, ptr, base, total, size);
    Carve(before, ptr, total, base, size, vm.pageSize, anonfd, fd, shared, populate);
  }

  /**
   * __qemu_ram_mmap once the reservation [ptr, ptr + total) exists (it was
   * free in `before`): overlay the read/write block at the aligned
   * address, undoing the whole reservation if that fails; place the
   * reservation on a NUMA node if asked; populate the block if asked;
   * trim down to the block and its guard page.
   */
  method CarveReservation(vm: AddressSpace, ghost before: map<int, Mapping>, ptr: nat, total: nat,
                          fd: int, size: nat, align: nat, shared: bool, physNode: int,
                          populate: bool, maxNode: int, anonfd: int)
    returns (r: MapResult)
    requires vm.Valid()
    requires IsPowerOfTwo(align) && align >= vm.pageSize
    requires total == size + align && ptr % vm.pageSize == 0
    requires RangeFree(before, ptr, ptr + total)
    requires vm.mem == Reserved(before, ptr, total, anonfd)
    modifies vm
    ensures vm.calls == old(vm.calls) + [MmapCall(true, size, r.Mapped?)]
    ensures size == 0 ==> r.MapFailed?
    ensures r.MapFailed? ==> vm.mem == before && vm.placements == old(vm.placements)
    ensures r.Mapped? ==>
      r.addr == AlignUp(ptr, align) && vm.mem == before + Extent(r.addr, size, vm.pageSize, fd, shared, populate, anonfd)
    ensures r.Mapped? && NumaPolicy(physNode, maxNode) == NumaPlace ==>
      vm.placements == old(vm.placements) + [Placement(ptr, total, physNode)]
    ensures !(r.Mapped? && NumaPolicy(physNode, maxNode) == NumaPlace) ==> vm.placements == old(vm.placements)
  {
    var base := AlignUp(ptr, align);
    AlignedOffset(ptr, align, vm.pageSize);

    var ok := vm.MmapFixed(base, size, ProtReadWrite, fd, shared);
    if !ok {
      vm.Munmap(ptr, total);
      ReservationReleased(before, ptr, total, Mapping(ProtNone, anonfd, false, false), base, base + size);
      return MapFailed;
    }

    match NumaPolicy(physNode, maxNode) {
      case NumaWarn =>
      case NumaPlace =>
        vm.NumaToNodeMemory(ptr, total, physNode);
      case NumaSkip =>
    }

    PopulateAndTrim(vm, before, ptr, total, base, size, fd, shared, populate, anonfd);
    r := Mapped(base);
  }

  /**
   * __qemu_ram_mmap: reserve `size + align` bytes with no access, overlay
   * `size` read/write bytes at the first `align` boundary inside it, place
   * the reservation on a NUMA node if asked, populate the block if asked,
   * then unmap the head padding and everything past one guard page.
   * `populate` is the process-wide qemu_ram_mmap_populate flag, `maxNode`
   * what numa_max_node() reports, `sliceRule` whether the ppc64 Linux
   * segment rule applies and `replies` what fstatfs answers for `fd`.
   */
  method RamMmap(vm: AddressSpace, fd: int, size: nat, align: nat, shared: bool, physNode: int,
                 populate: bool, maxNode: int, sliceRule: bool, replies: seq<StatfsReply>)
    returns (r: MapResult)
    requires vm.Valid()
    requires IsPowerOfTwo(align) && align >= vm.pageSize
    requires sliceRule && fd != -1 ==> HasAnswer(replies)
    modifies vm
    ensures |old(vm.calls)| < |vm.calls| && vm.calls[..|old(vm.calls)|] == old(vm.calls)
    ensures AllocationCalls(vm.calls[|old(vm.calls)|..], size + align, size, r.Mapped?)
    ensures size == 0 ==> r.MapFailed?
    ensures r.MapFailed? ==> vm.mem == old(vm.mem) && vm.placements == old(vm.placements)
    ensures r.Mapped? ==>
      && r.addr > 0 && r.addr % align == 0
      && RangeFree(old(vm.mem), r.addr, r.addr + size + vm.pageSize)
      && vm.mem == old(vm.mem) + Extent(r.addr, size, vm.pageSize, fd, shared, populate,
                                        ReservationFd(fd, sliceRule, replies, vm.pageSize))
    ensures r.Mapped? && NumaPolicy(physNode, maxNode) == NumaPlace ==>
      exists p :: ReservedFor(p, r.addr, align, vm.pageSize)
        && vm.placements == old(vm.placements) + [Placement(p, size + align, physNode)]
    ensures NumaPolicy(physNode, maxNode) != NumaPlace ==> vm.placements == old(vm.placements)
  {
    var total: nat := size + align;
    var anonfd := ReservationBacking(fd, sliceRule, replies, vm.pageSize);
    ghost var before := vm.mem;
    ghost var log := vm.calls;
    var reservation := vm.Mmap(total, ProtNone, anonfd, false);
    if reservation.MapFailed? {
      assert vm.calls[|log|..] == [MmapCall(false, total, false)];
      return MapFailed;
    }
    var ptr := reservation.addr;
    r := CarveReservation(vm, before, ptr, total, fd, size, align, shared, physNode, populate, maxNode, anonfd);
    assert vm.calls[|log|..] == [MmapCall(false, total, true), MmapCall(true, size, r.Mapped?)];
    if r.Mapped? {
      PowerOfTwoPositive(vm.pageSize);
      AlignedOffset(ptr, align, vm.pageSize);
      assert ReservedFor(ptr, r.addr, align, vm.pageSize);
    }
  }

  /** qemu_ram_mmap_numa: anonymous memory, placed on `physNode`. */
  method QemuRamMmapNuma(vm: AddressSpace, size: nat, align: nat, shared: bool, physNode: int,
                         populate: bool, maxNode: int)
    returns (r: MapResult)
    requires vm.Valid()
    requires IsPowerOfTwo(align) && align >= vm.pageSize
    modifies vm
    ensures |old(vm.calls)| < |vm.calls| && vm.calls[..|old(vm.calls)|] == old(vm.calls)
    ensures AllocationCalls(vm.calls[|old(vm.calls)|..], size + align, size, r.Mapped?)
    ensures size == 0 ==> r.MapFailed?
    ensures r.MapFailed? ==> vm.mem == old(vm.mem) && vm.placements == old(vm.placements)
    ensures r.Mapped? ==>
      && r.addr > 0 && r.addr % align == 0
      && RangeFree(old(vm.mem), r.addr, r.addr + size + vm.pageSize)
      && vm.mem == old(vm.mem) + Extent(r.addr, size, vm.pageSize, -1, shared, populate, -1)
    ensures r.Mapped? && 0 <= physNode <= maxNode ==>
      exists p :: ReservedFor(p, r.addr, align, vm.pageSize)
        && vm.placements == old(vm.placements) + [Placement(p, size + align, physNode)]
    ensures !(0 <= physNode <= maxNode) ==> vm.placements == old(vm.placements)
  {
    r := RamMmap(vm, -1, size, align, shared, physNode, populate, maxNode, false, []);
  }

  /** qemu_ram_mmap: memory backed by `fd` (or anonymous for -1), never placed on a node. */
  method QemuRamMmap(vm: AddressSpace, fd: int, size: nat, align: nat, shared: bool,
                     populate: bool, maxNode: int, sliceRule: bool, replies: seq<StatfsReply>)
    returns (r: MapResult)
    requires vm.Valid()
    requires IsPowerOfTwo(align) && align >= vm.pageSize
    requires sliceRule && fd != -1 ==> HasAnswer(replies)
    modifies vm
    ensures |old(vm.calls)| < |vm.calls| && vm.calls[..|old(vm.calls)|] == old(vm.calls)
    ensures AllocationCalls(vm.calls[|old(vm.calls)|..], size + align, size, r.Mapped?)
    ensures size == 0 ==> r.MapFailed?
    ensures r.MapFailed? ==> vm.mem == old(vm.mem)
    ensures r.Mapped? ==>
      && r.addr > 0 && r.addr % align == 0
      && RangeFree(old(vm.mem), r.addr, r.addr + size + vm.pageSize)
      && vm.mem == old(vm.mem) + Extent(r.addr, size, vm.pageSize, fd, shared, populate,
                                        ReservationFd(fd, sliceRule, replies, vm.pageSize))
    ensures vm.placements == old(vm.placements)
  {
    r := RamMmap(vm, fd, size, align, shared, -1, populate, maxNode, sliceRule, replies);
  }

  /**
   * qemu_ram_munmap: nothing for a null pointer (0); otherwise unmap the
   * block and its guard page, `size + pageSize` bytes.
   */
  method QemuRamMunmap(vm: AddressSpace, ptr: nat, size: nat)
    modifies vm
    ensures vm.mem == if ptr == 0 then old(vm.mem) else Unmapped(old(vm.mem), ptr, ptr + size + vm.pageSize)
    ensures vm.placements == old(vm.placements)
  {
    if ptr != 0 {
      vm.Munmap(ptr, size + vm.pageSize);
    }
  }

  /**
   * A caller that allocates and then releases with the same `size` finds
   * its address space as it was: the release frees exactly what the
   * allocation left mapped, the guard page included.
   */
  method AllocateThenRelease(vm: AddressSpace, fd: int, size: nat, align: nat, shared: bool,
                             populate: bool, maxNode: int, sliceRule: bool, replies: seq<StatfsReply>)
    requires vm.Valid()
    requires IsPowerOfTwo(align) && align >= vm.pageSize
    requires sliceRule && fd != -1 ==> HasAnswer(replies)
    modifies vm
    ensures vm.mem == old(vm.mem)
  {
    var r := QemuRamMmap(vm, fd, size, align, shared, populate, maxNode, sliceRule, replies);
    if r.Mapped? {
      QemuRamMunmap(vm, r.addr, size);
      ReleaseRestores(old(vm.mem), r.addr, size, vm.pageSize, fd, shared, populate,
                      ReservationFd(fd, sliceRule, replies, vm.pageSize));
    }
  }
}
