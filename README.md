# QEMU mmap-based RAM allocation, modelled in Dafny

This project models QEMU's allocator for guest RAM backed by mmaped host
memory (`util/mmap-alloc.c`). To get `size` bytes aligned to `align`,
`__qemu_ram_mmap` does the following:

1. It reserves `size + align` bytes of address space with no access (`PROT_NONE`).
2. It maps the read/write block with `MAP_FIXED` at the first `align` boundary inside the reservation.
3. If a NUMA node was requested, it asks libnuma to place the reservation on that node.
4. If asked, it populates the block by zero-filling it.
5. It unmaps the padding before the block and everything past one `PROT_NONE` guard page after it.

`qemu_ram_munmap` releases the block and its guard page. `qemu_fd_getpagesize` finds the page size of a descriptor: the block size of a hugetlbfs mount, otherwise the host page size. It retries `fstatfs` while the call is interrupted.

The project has four modules:

- `Alignment` (`alignment.dfy`): powers of two, `QEMU_ALIGN_UP`, and the facts about the alignment offset that make room for the guard page.
- `HostMemory` (`host_memory.dfy`): the process address space as a class `AddressSpace`. A map gives, for each mapped byte address, its protection, its backing descriptor, whether it is shared and whether it is populated. The class also keeps a log of NUMA placement requests and a ghost log of every mmap request with the kernel's answer. Its methods `Mmap`, `MmapFixed`, `Munmap`, `ZeroFill` and `NumaToNodeMemory` stand for the system and library calls. The kernel's choices are nondeterministic: where a fresh mapping goes, and whether an mmap request fails. munmap always succeeds (see "Left out").
- `PageSize` (`page_size.dfy`): `qemu_fd_getpagesize`. Its retry loop is a method proved against the specification function `DetectedPageSize`. The replies that `fstatfs` gives are a parameter.
- `MmapAlloc` (`mmap_alloc.dfy`): `__qemu_ram_mmap` and its steps, its two wrappers, `qemu_ram_munmap`, and the lemmas about the carving.

Some inputs of the source are global state or host queries. Here they are parameters:

- `populate` is the process-wide `qemu_ram_mmap_populate` flag.
- `maxNode` is what `numa_max_node()` reports.
- `sliceRule` says whether the ppc64 Linux rule applies: one page size per segment.
- `replies` is what `fstatfs` answers.
- The host page size (`getpagesize()`) is the `pageSize` of the `AddressSpace`.

## Model

| member | source | states |
|---|---|---|
| `Alignment.AlignUp` | QEMU-gvm-vcpupin/util/mmap-alloc.c:67 | The aligned address is a multiple of `align`. It is no lower than the reservation base and less than `align` above it. |
| `Alignment.PowerOfTwoDivides` | QEMU-gvm-vcpupin/util/mmap-alloc.c:74-77 | Of two powers of two, such as the page size and `align`, the smaller divides the larger. |
| `Alignment.AlignedOffset` | QEMU-gvm-vcpupin/util/mmap-alloc.c:67-77 | For a page-aligned reservation base and a power-of-two `align` no smaller than the page size, the offset to the aligned address meets four conditions. It is at least 0. It is a whole number of pages. It lands on an `align` boundary. It is at least one page below `align`, so `size + pageSize` bytes remain after the aligned base. |
| `PageSize.FirstAnswer` | QEMU-gvm-vcpupin/util/mmap-alloc.c:32-34 | Picks the reply that ends the retry loop. It is the first reply that is not an EINTR failure; every earlier reply is one. |
| `PageSize.FdGetPageSize` | QEMU-gvm-vcpupin/util/mmap-alloc.c:25-43 | The retry loop returns `DetectedPageSize`. That is the host page size when there is no descriptor (-1). Otherwise the first reply that is not interrupted decides. A successful `fstatfs` reporting `HUGETLBFS_MAGIC` gives its block size; any other reply gives the host page size. |
| `PageSize.RetryAfterInterrupt` | QEMU-gvm-vcpupin/util/mmap-alloc.c:32-34 | An interrupted `fstatfs` is retried and leaves the detected page size unchanged. |
| `PageSize.LaterRepliesUnused` | QEMU-gvm-vcpupin/util/mmap-alloc.c:32-38 | Once a reply that is not interrupted arrives, the loop stops. Replies after it change neither the deciding reply nor the page size. |
| `MmapAlloc.NumaPolicy` | QEMU-gvm-vcpupin/util/mmap-alloc.c:89-96 | Picks the NUMA decision, with each case stated in both directions. It warns exactly when `phys_node > numa_max_node()`. It places exactly when `0 <= phys_node <= numa_max_node()`. Otherwise it does nothing. |
| `MmapAlloc.ReservationFd` | QEMU-gvm-vcpupin/util/mmap-alloc.c:52-66 | The reservation is backed either by nothing (-1, anonymous) or by `fd`. It is backed by `fd` exactly when three things hold: the ppc64 segment rule applies, `fd` is a descriptor, and its page size differs from the host's. |
| `MmapAlloc.ReservationBacking` | QEMU-gvm-vcpupin/util/mmap-alloc.c:61-62 | Chooses the reservation's descriptor by asking `qemu_fd_getpagesize` only under the segment rule. The choice agrees with `ReservationFd`. |
| `MmapAlloc.ReservationSharesPageSize` | QEMU-gvm-vcpupin/util/mmap-alloc.c:52-61 | Under the ppc64 segment rule, `qemu_fd_getpagesize` gives the same page size for the reservation's descriptor as for `fd`, so the reservation and the block later overlaid on it share one page size. |
| `MmapAlloc.ExtentLayout` | QEMU-gvm-vcpupin/util/mmap-alloc.c:107-113 | A successful allocation maps exactly [base, base + size + pageSize). The first `size` bytes are read/write, backed by `fd` with the requested sharing and populated state. The page after them is the `PROT_NONE` guard, backed as the reservation was. |
| `MmapAlloc.CarveAt` | QEMU-gvm-vcpupin/util/mmap-alloc.c:79-113 | For one address: after reserving, overlaying, populating and trimming, that address is mapped exactly when the prior state plus the block's extent maps it, and it is mapped the same way. |
| `MmapAlloc.Carve` | QEMU-gvm-vcpupin/util/mmap-alloc.c:79-113 | The carving steps, applied to an address space in which the reservation was free, leave that address space plus exactly the block's extent. Every address outside the reservation keeps its old mapping. |
| `MmapAlloc.ReservationReleased` | QEMU-gvm-vcpupin/util/mmap-alloc.c:84-87 | Unmapping the whole reservation after a failed `MAP_FIXED` overlay restores the address space exactly. This holds whether or not the failed overlay had already unmapped its range. |
| `MmapAlloc.FailsOnlyOnRefusal` | QEMU-gvm-vcpupin/util/mmap-alloc.c:63-87 | For the requests an allocation makes, it succeeds exactly when every request was granted. It fails exactly when some request was refused, which covers the two `MAP_FAILED` returns at lines 70-72 and 84-87. |
| `MmapAlloc.ReleaseRestores` | QEMU-gvm-vcpupin/util/mmap-alloc.c:126-132 | Unmapping `size + pageSize` bytes at the base of an allocation removes exactly its block and guard page. |
| `MmapAlloc.TrimToGuard` | QEMU-gvm-vcpupin/util/mmap-alloc.c:100-113 | Unmaps the padding before the aligned base, if there is any. Unmaps the rest of the reservation past one guard page, if there is any. Leaves the NUMA log unchanged. |
| `MmapAlloc.PopulateAndTrim` | QEMU-gvm-vcpupin/util/mmap-alloc.c:97-113 | Starts from a free reservation overlaid by the read/write block. After the optional zero-fill and the trim, the address space is the prior state plus the block's extent. |
| `MmapAlloc.CarveReservation` | QEMU-gvm-vcpupin/util/mmap-alloc.c:67-115 | Starts once the reservation exists. It makes exactly one more mmap request, the `MAP_FIXED` overlay of `size` bytes, and fails exactly when the kernel refuses it. The kernel always refuses a zero size. On failure the address space is as before the reservation and no placement is logged. On success the result is `QEMU_ALIGN_UP(ptr, align)`, memory is the prior state plus the extent, and the whole reservation is placed on the node exactly when the NUMA decision says so. |
| `MmapAlloc.RamMmap` | QEMU-gvm-vcpupin/util/mmap-alloc.c:45-116 | Makes the mmap requests `AllocationCalls` describes: the reservation of `size + align` bytes, then, only if that is granted, the `MAP_FIXED` overlay of `size` bytes. It returns `MAP_FAILED` exactly when one of them is refused, whatever `phys_node`, `numa_max_node()` and the populate flag are. A failure leaves memory and the NUMA log as they were, and a zero size always fails. On success, the address is nonzero and `align`-aligned, and [addr, addr + size + pageSize) was free before. Memory is then the old state plus the extent, that is the read/write block plus the guard. When the NUMA decision is to place, one placement of the `size + align` bytes is logged. It starts at a page-aligned reservation base from which `addr` is the aligned address. |
| `MmapAlloc.QemuRamMmapNuma` | QEMU-gvm-vcpupin/util/mmap-alloc.c:118-120 | Gives anonymous memory and behaves as `__qemu_ram_mmap` with `fd = -1`. It makes the same mmap requests and fails exactly when one is refused, so a node beyond `numa_max_node()` does not make it fail. A successful call places the reservation exactly when `0 <= phys_node <= numa_max_node()`. |
| `MmapAlloc.QemuRamMmap` | QEMU-gvm-vcpupin/util/mmap-alloc.c:122-124 | Behaves as `__qemu_ram_mmap` with `phys_node = -1`. It makes the same mmap requests and fails exactly when one is refused. It never logs a NUMA placement. |
| `MmapAlloc.QemuRamMunmap` | QEMU-gvm-vcpupin/util/mmap-alloc.c:126-132 | Does nothing for a null pointer. Otherwise it unmaps `size + pageSize` bytes, the block and its guard, and logs no placement. |
| `MmapAlloc.AllocateThenRelease` | QEMU-gvm-vcpupin/util/mmap-alloc.c:122-132 | A successful `qemu_ram_mmap` released by `qemu_ram_munmap` with the same size, or a failed `qemu_ram_mmap` alone, leaves the address space exactly as it was. |
| `HostMemory.AddressSpace.Mmap` | QEMU-gvm-vcpupin/util/mmap-alloc.c:63-72 | The reservation call. It records the request and whether it was granted. A zero length is always refused. A refused request leaves memory unchanged. A granted one maps a previously free, page-aligned, nonzero range of exactly the requested length with the requested protection. |
| `HostMemory.AddressSpace.MmapFixed` | QEMU-gvm-vcpupin/util/mmap-alloc.c:79-87 | The `MAP_FIXED` overlay. It records the request and whether it was granted. When granted, the range is replaced by the new mapping. When refused, which always happens for a zero length, memory is unchanged or the range is already unmapped. |
| `HostMemory.AddressSpace.Munmap` | QEMU-gvm-vcpupin/util/mmap-alloc.c:103-113 | Unmaps exactly the given range. |
| `HostMemory.AddressSpace.ZeroFill` | QEMU-gvm-vcpupin/util/mmap-alloc.c:97-98 | Only over read/write memory. Marks the range as populated and changes nothing else. |
| `HostMemory.AddressSpace.NumaToNodeMemory` | QEMU-gvm-vcpupin/util/mmap-alloc.c:93-95 | Appends one placement request to the log. |

## Left out

- The system calls themselves are not modelled. The kernel's placement of a fresh mapping, and the failures of mmap (ENOMEM, a bad descriptor, ...), are nondeterministic choices of `AddressSpace`.
- `HostMemory.AddressSpace.Munmap` always succeeds. The source ignores the result of every `munmap` (lines 85, 104, 112 and 130), so a failed one would leak that range. The model assumes it never fails. For an anonymous reservation, or one backed by a descriptor with the host page size, each call unmaps whole host pages of a mapping, and then only a kernel out-of-memory condition could make it fail. `RamMmap`, `CarveReservation`, `ReservationReleased` and `AllocateThenRelease` promise that nothing leaks only under this assumption. The huge-page case below breaks it.
- `MmapAlloc.RamMmap`, `MmapAlloc.QemuRamMmap`, `MmapAlloc.QemuRamMunmap` and `MmapAlloc.AllocateThenRelease` assume every munmap succeeds, and that does not hold under the ppc64 segment rule for a hugetlbfs descriptor, where `ReservationFd(...) == fd`. There the reservation and the block are huge-page mappings of `fd` (lines 61-63 and 79-83). The kernel refuses, with EINVAL, an munmap that does not start and end on a huge-page boundary. The trim at line 112 starts at `ptr + size + getpagesize()`, and the release at line 130 unmaps `size + getpagesize()` bytes; both are host-page multiples, not huge-page multiples. So on such a host the rest of the reservation stays mapped past the guard, and the release frees nothing. The exact `old + Extent` state and the allocate-then-release round trip hold only when the reservation is anonymous or backed by a descriptor with the host page size. The model records mappings byte by byte without their page size, so it cannot express this refusal.
- `HostMemory.AddressSpace.Mmap` never returns address 0 for a request without `MAP_FIXED`. The test `if (ptr)` in `qemu_ram_munmap` relies on this: a block at address 0 would never be released.
- Addresses are modelled at byte granularity. The kernel's rounding of lengths up to whole pages is not modelled. Neither is the EINVAL that `munmap` and `MAP_FIXED` give for an address that is not page-aligned. Every address the allocator passes is page-aligned as long as `size` is a multiple of the page size.
- `size + align` is computed in `size_t`. Its wrap-around for sizes near 2^64 is not modelled: integers here are unbounded.
- The two `assert`s on `align` abort the process. They become preconditions of `RamMmap` and the methods that call it. The source checks them only after the reservation has succeeded. A nonzero `align` that fails the asserts returns `MAP_FAILED` when the reservation fails, and the model does not capture that case. `align == 0` is worse: it divides by zero in `QEMU_ALIGN_UP` at line 67, before any check. The bit test `!(align & (align - 1))` is modelled as `IsPowerOfTwo`. The two agree for every `align >= getpagesize()`.
- `QEMU_ALIGN_UP` is defined in `include/qemu/osdep.h`, which is not part of this model. `AlignUp` follows its definition, `((n + m - 1) / m) * m`.
- The warning that is printed for a NUMA node beyond `numa_max_node()` is not modelled, only the decision to print it.
- The bytes that `memset` writes are not modelled. A mapping only records whether it has been populated.
- What libnuma does with a placement request is left out. The model only logs the request.
- `PageSize.FdGetPageSize` requires that `fstatfs` eventually gives a reply other than EINTR. An endless stream of interruptions would make the source loop forever.
- The non-Linux build is not modelled. In that build, `qemu_fd_getpagesize` always returns `getpagesize()`. The NUMA step (lines 89-96) is compiled out too, so `qemu_ram_mmap_numa` ignores `phys_node`. `QemuRamMmapNuma`, `RamMmap` and `NumaPolicy` model the Linux build, which places the reservation whenever `0 <= phys_node <= numa_max_node()`.
- The compile-time choice of ppc64 Linux is the `sliceRule` parameter, which records the mapping flags through `Mapping.fd`. `MAP_ANONYMOUS` versus `MAP_NORESERVE` is not recorded separately.
- Concurrent mmap calls by other threads between the steps of `__qemu_ram_mmap` are not modelled.
