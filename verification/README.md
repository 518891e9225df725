# Verified models of the guest test runtime

The test guests of this repository run on a small freestanding runtime: page-table builders, drivers,
allocators, clocks and text routines that mutate memory in place. This project models the parts of that
runtime with real algorithms in them and proves, in Dafny 4.11, that they do what their callers rely on.
`dafny verify dfyconfig.toml` checks everything.

| module | what it models |
|---|---|
| `EptEntry`, `EptWalk`, `Ept` | the four-level EPT tree built in raw pages: entry words, translation by table walk, installing, splitting and reading entries, identity ranges |
| `VirtqueueState`, `VirtqueueRuns`, `Virtqueue` | the virtqueue driver with its free chain and rings, and a device that completes buffers in any order |
| `ClockMonotonic` | the cross-CPU compare-and-exchange loop of the paravirtual clock, any number of CPUs |
| `SeqLock` | the version protocol of the clock and of the wall clock, reader against writer |
| `TimeArithmetic` | shift-subtract division and time normalisation |
| `PageAlloc`, `PageAllocator` | the page allocator with its free list threaded through the free pages |
| `Fls`, `Heap`, `PageHeap` | find-last-set and page orders, the metadata that `memalign` hides, malloc on top of pages |
| `Memory`, `Lists` | the words of memory that the page allocator, malloc and its clients share; lists without duplicates |
| `GicV3` | grouping of interrupt destinations into register writes |
| `PciBar`, `PciHost`, `PciProbe` | BAR registers and sizing, window allocation, the probe |
| `TokenRing` | the round-robin counters of `ple_round_robin` |
| `Calendar` | `mktime` against the Gregorian calendar |
| `Numbers` | printing of numbers against `atol` |
| `ReportPrefix` | the prefix stack kept in one string, with `strstr` |
| `Bits` | bitwise operators on naturals and the arithmetic they amount to |

Conventions. Machine words are natural numbers; wrap-around, truncation and bitwise operators are written
out with `Bits`. `long` and pointers have 64 bits. Physical and virtual addresses of tables and pages are the
same. Classes stand for the objects and global variables the C code updates; an `Abs`, `Now` or `Valid`
member says what their fields mean. Where the code stops the run (a failing assert, a NULL from the page
allocator that is not checked), a method returns `ok == false`, and its contract says exactly when, or what
that implies. Three protocols between CPUs, or CPU and host, are state machines whose steps are single loads,
stores or compare-and-exchanges; their theorems quantify over all interleavings.

Results where the code falls short of what one might expect, with exact conditions:

- `alloc_pages` can overlook a free block: a page that breaks a run is never retried as a start.
  `PageAlloc.ScanFindsIff` says exactly when a block is found, `PageAlloc.OverlooksBlock` gives the lists on
  which it is not, `PageAlloc.FreshListComplete` and `PageAlloc.SinglePageComplete` where it always is.
- `set_normalized_timespec` is right exactly for non-negative nanoseconds, because its first loop compares
  as unsigned; its comment promises more (`TimeArithmetic.SetNormalizedTimespec`).
- The version of the clock is 32 bits wide, so a reader can accept a torn copy after 2^31 updates. Accepted
  reads are snapshots exactly up to 2^32 - 2 version changes, for the wall clock up to 2^32 - 1
  (`SeqLock.ExactBound`).
- One `memalign`/`free` cycle on the page backend returns only the pages requested, which is the whole block
  if and only if their number is a power of two (`PageHeap.AllocFreeCycle`, `PageHeap.LosesPage`).
- Zero padding puts zeros before the sign, so `atol` reads every zero-padded negative number as 0
  (`Numbers.ZeroPadded`).
- One write for each cluster is not guaranteed: a cluster whose destinations are not neighbours in the mask takes
  several (`GicV3.OneWriteIff`, `GicV3.ThreeWrites`).
- `free_pages` with size 0 drops the whole free list (`PageAllocator.Allocator.FreePages`).

## Model

| member | source | states |
|---|---|---|
| EptEntry.SplitChildFields | guest/x86/vmx.c:733-741 | the mask arithmetic of a split gives each piece its own address, the permissions of the leaf, and the size bit only one level up from pages; every other bit of the word is the one of the leaf |
| EptEntry.SplitParentFields | guest/x86/vmx.c:744-746 | the word that replaces a split leaf points at the new table, keeps the permissions and all other bits, and is no leaf |
| EptEntry.LeafEntryFields | guest/x86/vmx.c:790-816 | for any physical address below 2^52, a mapping word has exactly the frame it lies in, the given permissions and the size bit |
| EptEntry.EntryDigits | guest/x86/vmx.h:555-589 | permissions, size bit and frame of an entry are its bits 2..0, 7 and 51..12 |
| EptWalk.WalkAgree | guest/x86/vmx.c:851-875 | in an unshared tree a write to one entry can change the walk of an address only if the address lies in the span of that entry, and only as the walk from the written table on changes |
| EptWalk.WalkThrough | guest/x86/vmx.c:851-875 | a walk to any level is a walk to a higher level continued from the table reached there, with the permissions intersected |
| EptWalk.UnmappedIsOpen | guest/x86/vmx.c:768-784 | where an address is unmapped without loss of permission, no table on its way restricts permissions |
| EptWalk.WalkIsManual | guest/x86/vmx.c:851-875 | the recursive walk is the four-step translation of the processor manual, written out with the bits of the address and of the entries |
| Ept.SplitKeepsMeaning | guest/x86/vmx.c:715-749 | replacing a 2M or 1G leaf by a table of its pieces changes no translation and no inherited permission of any address |
| Ept.NewTableKeepsMeaning | guest/x86/vmx.c:771-779 | hanging an empty table under an absent entry changes no translation of any address |
| Ept.LinkAddsTable | guest/x86/vmx.c:771-783 | either way of making an entry lead to a table adds that one table to the tree, for all addresses that share it, and no other |
| Ept.EntryDecides | guest/x86/vmx.c:851-875 | the entry of a level decides the translation of every address in its span |
| Ept.PteWritten | guest/x86/vmx.c:785-786 | the final write is a point update of the translation: the span of the entry means what the entry says, all other addresses are as before |
| Ept.TablesWritten | guest/x86/vmx.c:785-786 | the final write changes which tables exist only below its entry |
| Ept.EntryWritten | guest/x86/vmx.c:1016-1017 | overwriting an entry with any word that suits its place changes the translation in its span only, to what the word leads to, be it a leaf, a table or nothing |
| Ept.EptMemory.SplitLargeEptEntry | guest/x86/vmx.c:715-749 | one fresh page becomes the table of pieces, the tree stays well formed, all translations stay; stops exactly if there is no page |
| Ept.EptMemory.StepDown | guest/x86/vmx.c:768-784 | after one turn of the descent the walk of the address reaches a table one level further down, and nothing means anything else; nothing is written if it did so before; a page is allocated exactly if a leaf is split or an absent entry is found without a page of the caller's own |
| Ept.EptMemory.InstallEptEntry | guest/x86/vmx.c:756-787 | the entry of the given level holds exactly pte, and the translation has changed in the span of that entry only, where the permissions that applied before still apply; exactly the tables on the way are added and those below the entry dropped; it succeeds if and only if the pool has a page for each table missing on the way, where a page of the caller's own saves one exactly if the walk ends in an absent entry; pages that are no tables keep their contents |
| Ept.EptMemory.InstallLeaf | guest/x86/vmx.c:790-816 | the three mapping calls are point updates with a leaf of level 1, 2 or 3 for the frame phys lies in, and succeed exactly if there is a page for each missing table |
| Ept.LeafDecides | guest/x86/vmx.c:790-816 | what an address behind such a leaf translates to |
| Ept.EptMemory.IdentityPhase | guest/x86/vmx.c:831-846 | each phase extends the identity map by whole pages of its size as far as they fit, and succeeds exactly if the pool has a page for each table this needs |
| Ept.EptMemory.SetupEptRange | guest/x86/vmx.c:825-847 | for every mix of page sizes, whatever was mapped in the range before, every whole 4K page of it is mapped to itself with perm, as far as the tables that were on its way allow, and every other address is as before; the page it lies in has just the size that division gives: as many 1G pages from the start on as fit, if enabled, then as many 2M pages, if enabled, then 4K pages; it succeeds if and only if the pool holds RangeTables pages, a number that depends on the tree before the call only, and uses exactly that many |
| Ept.PhasesAre | guest/x86/vmx.c:831-846 | where the 1G and the 2M phase of a range end, by division, and that both ends are multiples of the page size |
| Ept.SizedGrows | guest/x86/vmx.c:831-846 | mapping the next page of a range leaves the pages mapped before it at their sizes |
| Ept.OneLargePage | guest/x86/vmx.c:837-842 | a 2M range where nothing was mapped takes two tables, not the three of 4K pages |
| Ept.FreshIdentity | guest/x86/vmx.c:825-847 | where nothing was mapped and no table restricted permissions, the permissions are exactly perm |
| Ept.RwxWritten | guest/x86/vmx.c:785-786 | the final write changes the permissions that walks arrive with only below its entry |
| Ept.CountIsMissing | guest/x86/vmx.c:825-847 | when the next page of a range is mapped, the tables missing on its way are those that were not there at first and that no earlier page of the range shares |
| Ept.RangeBound | guest/x86/vmx.c:825-847 | three pages of the pool for each 4K page always suffice for a range |
| Ept.EptMemory.GetEptPte | guest/x86/vmx.c:851-875 | returns the entry of the level if and only if the walk of the address, without its bits from 48 on, reaches a table of that level |
| Ept.EptMemory.SetEptPte | guest/x86/vmx.c:1000-1018 | a point update of the translation through existing tables with a leaf, an absent entry or a pointer to the table that belongs there; stops exactly if a table is missing |
| VirtqueueState.SlotOf | guest/lib/virtio.c:74-115 | for a power-of-two ring, masking a 16-bit counter gives the unbounded count modulo the ring size, across wrap-around |
| VirtqueueState.AddKeeps | guest/lib/virtio.c:50-81 | queueing a buffer keeps the invariant of free chain, flights, rings and history; in particular it overwrites no available entry the device has not taken |
| VirtqueueState.GetKeeps | guest/lib/virtio.c:106-125 | retrieving keeps it too, and hands back the buffer of an addition that was not handed back before |
| VirtqueueState.TakeKeeps | guest/lib/virtio.c:74-77 | an in-order device finds as its k-th entry the descriptor of the k-th addition |
| VirtqueueState.PublishKeeps | guest/lib/virtio.c:115-117 | a device that completes taken descriptors in any order overwrites no used entry the driver has not read |
| VirtqueueState.FreeChain | guest/lib/virtio.c:68-102 | the first num_free links from free_head are different descriptors, exactly those not in flight, and free plus in flight is num |
| VirtqueueState.ExactlyOnce | guest/lib/virtio.c:119-124 | every addition is in flight or has been handed back once, never both, never twice |
| VirtqueueRuns.InitInv | guest/lib/virtio.c:23-48 | an initialised queue satisfies the invariant |
| VirtqueueRuns.EveryRun | guest/lib/virtio.c:23-125 | in every run of additions, device steps and retrievals: num_free links of the free chain are the distinct descriptors without token, num_free and the buffers not yet retrieved make num, and each buffer is described by its descriptor while in flight and handed back once |
| VirtqueueRuns.InOrder | guest/lib/virtio.c:74-122 | in every run, across wrap-around of the 16-bit counters, the available entry the device takes next is that of the oldest addition it has not taken, in slot k mod num, and no ring holds more than num unread entries |
| VirtqueueRuns.HistoryIs | guest/lib/virtio.c:50-125 | in every run, the buffers and lengths added are those of the additions that came while fewer than num were out, in order, and the i-th retrieval hands back the addition that got the descriptor of the i-th completion |
| Virtqueue.Virtqueue.constructor | guest/lib/virtio.c:23-48 | initialisation leaves all descriptors free in order, and nothing added or returned |
| Virtqueue.Virtqueue.AddOutbuf | guest/lib/virtio.c:50-81 | -1 and no change if nothing is free; otherwise the buffer and its length are the next addition, and memory holds what the run's next state says |
| Virtqueue.Virtqueue.DetachBuf | guest/lib/virtio.c:90-104 | for a descriptor chain of any length: count, head, token and the last link are updated, nothing else |
| Virtqueue.DetachSplices | guest/lib/virtio.c:90-104 | the chain given back and the old free list form one well-linked free list |
| Virtqueue.Virtqueue.GetBuf | guest/lib/virtio.c:106-125 | hands back the buffer and length of the next published completion, of an addition not returned before |
| ClockMonotonic.StepKeepsInv | guest/x86/kvmclock.c:213-220 | every atomic step of any CPU keeps the invariant of the accumulator |
| ClockMonotonic.RunMonotone | guest/x86/kvmclock.c:200-212 | in every interleaving the accumulator never goes back |
| ClockMonotonic.NeverBackwards | guest/x86/kvmclock.c:200-220 | every call returns a value between the accumulator at its first read and at its return, and no less than any call that returned before it began |
| ClockMonotonic.AtLeastReading | guest/x86/kvmclock.c:189-220 | in every interleaving, a call returns at least the reading that its CPU brought to it |
| ClockMonotonic.ComesFrom | guest/x86/kvmclock.c:213-220 | in every interleaving, the accumulator and each value returned are the first value of the accumulator or a reading that some CPU brought |
| ClockMonotonic.Undisturbed | guest/x86/kvmclock.c:213-220 | from every reachable state, a call with no other CPU in between ends within six steps and leaves the greater of its reading and the accumulator, as its result and in the accumulator |
| ClockMonotonic.RetriesAreCaused | guest/x86/kvmclock.c:213-218 | a third iteration, and every further one, implies that another CPU raised the accumulator |
| SeqLock.CompareSound | guest/x86/kvmclock.c:145-161 | a successful comparison of versions means an unchanged even version, or a full turn of the 32-bit counter |
| SeqLock.ReadsAreSnapshots | guest/x86/kvmclock.c:189-193 | a read that leaves the loop copied one completed update, the one in force, unless the version changed 2^32 - 1 times or more meanwhile (2^32 for the wall clock, lines 258-264) |
| SeqLock.UndisturbedRead | guest/x86/kvmclock.c:145-193 | from every reachable state with an even version, whatever its value, a read with no writer in between leaves the loop at its first attempt with the fields as they are; the same for the wall clock (lines 258-264) |
| SeqLock.WholeUpdate | guest/x86/kvmclock.c:145-161 | a whole update, whatever the reader does, leaves its values in the fields and as the newest completed update, two version changes on |
| SeqLock.TornAtBound | guest/x86/kvmclock.c:189-193 | at that bound the exception is real for both readers: a run whose accepted copy no update ever left |
| SeqLock.ExactBound | guest/x86/kvmclock.c:145-193 | for each reader and each n: every accepted read with at most n version changes is a snapshot if and only if n is below the bound |
| TimeArithmetic.Div64 | guest/x86/kvmclock.c:64-95 | leaves the quotient and returns the remainder for every 64-bit dividend and nonzero 32-bit divisor, with all intermediate values in range |
| TimeArithmetic.DoDiv | guest/x86/kvmclock.c:97-107 | the same through the 32-bit shortcut |
| TimeArithmetic.SetNormalizedTimespec | guest/x86/kvmclock.c:124-143 | nanoseconds end in [0, 10^9); the total is kept if and only if nsec was not negative, otherwise 2^64 is added |
| TimeArithmetic.WallClock | guest/x86/kvmclock.c:266-272 | seconds and nanoseconds represent boot time plus time since boot modulo 2^64 |
| PageAlloc.MaskMeansAligned | guest/lib/alloc_page.c:85-107 | the mask test accepts exactly multiples of the block size, also for orders whose shift overflows |
| PageAlloc.ScanFindsIff | guest/lib/alloc_page.c:94-127 | the scan completes a block if and only if an aligned block starts where no other run is in progress |
| PageAlloc.ScanIsParse | guest/lib/alloc_page.c:94-127 | on every list the scan takes the block that a parse of the list gives: pages that cannot begin a block are passed over one by one, a stretch that is too short together with the page that ends it |
| PageAlloc.OverlooksBlock | guest/lib/alloc_page.c:113-118 | a family of duplicate-free lists that hold an aligned pair which the scan does not find |
| PageAlloc.FreshListComplete | guest/lib/alloc_page.c:24-130 | on a list made by one free_pages call the scan finds a block if and only if there is one |
| PageAlloc.FreshRangeIff | guest/lib/alloc_page.c:24-130 | on such a list alloc_pages finds a block if and only if the range holds a naturally aligned block of 2^order pages |
| PageAlloc.SinglePageComplete | guest/lib/alloc_page.c:75-130 | order 0 succeeds on every nonempty list |
| PageAllocator.Allocator.FreePages | guest/lib/alloc_page.c:24-54 | the pages of the range go in front of the list in address order; free and held pages partition the donated ones; no word outside the range is written; size 0 drops the list |
| PageAllocator.Allocator.Thread | guest/lib/alloc_page.c:46-52 | the loop links the pages of the range to one another and the last one to the old list, also when the range ends at the top of the address space |
| PageAllocator.Allocator.AllocPage | guest/lib/alloc_page.c:56-69 | takes the first page of the list, NULL exactly on an empty list; writes to no page |
| PageAllocator.Allocator.AllocPages | guest/lib/alloc_page.c:75-130 | takes exactly the first run the scan completes, which is the block that the parse gives, out of the list, order kept; NULL exactly if there is none, with nothing changed; writes to pages that stay free only |
| PageAllocator.TookBlock | guest/lib/alloc_page.c:71-74 | what AllocPages returns is a naturally aligned block of 2^order consecutive pages |
| PageAllocator.Allocator.FreePage | guest/lib/alloc_page.c:133-139 | puts the page in front of the list and keeps it acyclic and free of duplicates; writes to that page only |
| Fls.Fls | guest/lib/bitops.h:36-72 | the index of the highest one-bit, 0 for 0 |
| Fls.IsPowerOf2Iff | guest/lib/libcflat.h:149-152 | the bit trick recognises exactly the powers of two |
| Fls.PageOrder | guest/lib/alloc_page.c:149 | the chosen order is the least whose block holds n pages |
| Heap.PayloadFits | guest/lib/alloc.c:50-66 | for every alignment and size the payload is aligned, preceded by both metadata words, and inside the block |
| Heap.Memalign | guest/lib/alloc.c:43-67 | the same of the pointer returned, and the two words before it record where the block began and its size; no other word is written |
| Heap.JustEnough | guest/lib/alloc.c:47-62 | the block asked for is the least multiple of the unit of the backend that holds payload, two words and what aligning may skip; the payload is at the first aligned address after the two words |
| Heap.AllocUseFree | guest/lib/alloc.c:32-67 | after any use of the payload, free hands the backend exactly the block it gave |
| PageHeap.BackendAligns | guest/lib/alloc_page.c:141-152 | the page backend satisfies every alignment asked of it although it does not look at the argument |
| PageHeap.PageMemalign | guest/lib/alloc_page.c:141-152 | a block of the least sufficient order, NULL exactly for size 0 or if alloc_pages finds no block of that order |
| PageHeap.AllocFreeCycle | guest/lib/alloc.c:32-67 | one cycle with any use of the payload between moves n of the 2^order pages to the front of the list and leaves the others out of it; all come back if and only if n is a power of two; links of free pages and words outside the block survive; nothing changes if no block is found |
| PageHeap.LinksKept | guest/lib/alloc.c:62-65 | whatever is written inside a block that clients hold, the metadata words included, the free list threaded through the same memory stays intact |
| PageHeap.LosesPage | guest/lib/alloc.c:43-67 | a request that needs three pages: it takes four, and a cycle gives three back |
| GicV3.WordFields | guest/lib/arm/gic-v3.c:128-133 | the register word carries the interrupt number, the target list and bits 15..8, 23..16 and 39..32 of the MPIDR in separate fields |
| GicV3.InterruptsIff | guest/lib/arm/gic-v3.c:128-135 | that meaning of a write, in bits of the MPIDR, is the one in the affinity levels of the code |
| GicV3.CollectOne | guest/lib/arm/gic-v3.c:101-126 | each turn adds exactly one destination of the cluster to the target list |
| GicV3.WriteServes | guest/lib/arm/gic-v3.c:128-135 | one write interrupts exactly the destinations collected for it, where a write interrupts a PE by the bits of its MPIDR |
| GicV3.CpumaskNext | guest/lib/arm/asm/cpumask.h:106-111 | the least member above cpu, else nr_cpus |
| GicV3.IpiSendMask | guest/lib/arm/gic-v3.c:72-140 | for every mask and all distinct affinities, each destination with affinity 0 below 16 is interrupted exactly once with this interrupt number, and no other CPU is, all in bits of the MPIDRs; there is one write, naming its affinities 1, 2 and 3, for each destination that does not join the one before it; the loops end in spite of the rollback |
| GicV3.JoinsIff | guest/lib/arm/gic-v3.c:101-126 | a destination joins the one before it in the mask if and only if they are of one cluster and that one has affinity 0 below 16 |
| GicV3.OneWriteIff | guest/lib/arm/gic-v3.c:101-126 | a cluster with destinations gets exactly one write if and only if they are neighbours in the order of the mask, all but the last with affinity 0 below 16 |
| GicV3.ThreeWrites | guest/lib/arm/gic-v3.c:114-126 | three CPUs of two clusters that take three writes, because the rollback closes the list of a cluster at the first destination of another |
| PciBar.WriteBack | guest/lib/pci.c:182-185 | restoring what was read restores the register |
| PciBar.KindIsFixed | guest/lib/pci.c:223-232 | nothing written to a BAR changes its kind |
| PciHost.WantedKindIs | guest/lib/pci-host-generic.c:182-184 | the type that the code computes from the word it reads is given by the hardwired information bits |
| PciHost.KindSuits | guest/lib/pci-host-generic.c:38-45 | which it is: 1 for I/O, 4 for 64 bits, prefetchable or not, 0 or 8 for 32 bits without or with prefetch, 2 below 1M |
| PciProbe.StoreDecodes | guest/lib/pci.c:144-164 | storing a multiple of the size makes a 32- or 64-bit BAR decode just that address and touches no other register |
| PciProbe.Host.BarSize | guest/lib/pci.c:176-209 | the size found is the true one for I/O, 32-bit and 64-bit BARs, 0 for absent ones, and all registers are restored |
| PciProbe.BarAddr | guest/lib/pci.c:121-129 | the register bits left by the mask, and the upper half of a 64-bit BAR, are the address it decodes |
| PciProbe.Host.DevInit | guest/lib/pci.c:346-365 | passes if and only if the address that every implemented BAR holds reaches a window; all registers are restored |
| PciProbe.Host.AllocResource | guest/lib/pci-host-generic.c:168-209 | the first aligned address in the free part of the first window of the kind that the hardwired bits of the BAR call for, the window advanced past it; stops exactly if no aligned range of the size is left there |
| PciProbe.Host.SetAddr | guest/lib/pci.c:144-164 | the BAR decodes the address; stops exactly if a 32-bit BAR is given more than 32 bits |
| PciHost.BumpKeepsPacked | guest/lib/pci-host-generic.c:202-206 | each placement is aligned, inside its window and clear of all earlier ones |
| PciHost.DisjointForCpu | guest/lib/pci-host-generic.c:264-278 | bytes of different placements translate to different CPU addresses if the host's windows do not overlap |
| PciHost.PackedApart | guest/lib/pci-host-generic.c:224-278 | with windows that do not overlap, all placements are disjoint on the bus and for the CPU |
| PciProbe.Host.HostPaddr | guest/lib/pci-host-generic.c:264-278 | the address moved by the offset of the first window that covers it, all ones if none does |
| PciProbe.PlaceKeeps | guest/lib/pci-host-generic.c:240-241 | placing and programming one BAR keeps all earlier placements in place and programmed, in device and BAR order, each in the first window of the kind that its hardwired bits call for |
| PciProbe.PlaceUses | guest/lib/pci-host-generic.c:202-206 | window space is used by placements only, each at the first multiple of its size that the earlier ones left free |
| PciProbe.Host.ProbeDevice | guest/lib/pci-host-generic.c:237-251 | every BAR of the device whose kind, by its hardwired bits, has a window is placed in the first such window and programmed, 64-bit ones once; registers of other BARs and devices are untouched, and so are the windows apart from what is taken of them; it stops only at a BAR for which what the placements before it left of its window has no room that suits it |
| PciProbe.Host.Probe | guest/lib/pci-host-generic.c:224-254 | over all devices: all placements aligned, decoded by their BARs, and inside the first window of their kind, which is I/O, 64-bit, 32-bit or 32-bit prefetchable as the hardwired bits of the BAR are; if the windows do not overlap, any two placements are disjoint on the bus and their bytes have different CPU addresses; it stops at the first device that has a BAR whose address before the probe reaches no window, or one for which there is no room |
| TokenRing.OtherStep | guest/x86/vmexit.c:233-234 | a CPU without the token keeps spinning and writes nothing, even if the token comes between the two loads of its comparison |
| TokenRing.HolderStep | guest/x86/vmexit.c:233-240 | each load or store of the CPU with the token brings it closer to the end of its pass |
| TokenRing.PassKeepsInv | guest/x86/vmexit.c:237-240 | the store that ends a pass hands the token to the neighbour |
| TokenRing.NoLostUpdate | guest/x86/vmexit.c:240 | a CPU about to store the neighbour's counter has loaded its current value, and no other CPU is about to store one |
| TokenRing.MutualExclusion | guest/x86/vmexit.c:233-240 | in every interleaving at most one CPU is past its wait |
| TokenRing.RingOrder | guest/x86/vmexit.c:228-240 | in every interleaving the k-th pass is that of CPU k mod n, starting with CPU 0 |
| TokenRing.CountsFall | guest/x86/vmexit.c:228-240 | pass counts fall along the ring by at most one in all |
| TokenRing.NeverStalls | guest/x86/vmexit.c:233-240 | from every reachable state, whatever the other CPUs do, the CPU whose turn it is has completed its pass by its seventh step |
| Calendar.FormulaCounts | guest/powerpc/rtas.c:9-28 | the closed formula counts the days stepped from 1 January 1970, for every later valid date |
| Calendar.StepsAreInverse | guest/powerpc/rtas.c:9-28 | stepping that many days from the epoch leads to the date |
| Calendar.Mktime | guest/powerpc/rtas.c:13-35 | the seconds since the epoch of every valid date and time |
| Calendar.SecondsGrow | guest/powerpc/rtas.c:13-35 | strictly monotone in calendar order |
| Calendar.TickCounts | guest/powerpc/rtas.c:13-35 | one more for each tick of the clock, over the ends of minutes, hours, days, months and years |
| Numbers.Atol | guest/lib/string.c:138-167 | in 64-bit arithmetic, the number that the text denotes after blanks and a sign, up to the first character that is no digit; no value overflows on the way if and only if that number is less than 2^63 in magnitude |
| Numbers.FormatInt | guest/lib/printf.c:61-90 | the digits are produced, signed and reversed in place into the text of the number |
| Numbers.TextDenotes | guest/lib/printf.c:61-132 | the text of a number, read in positional notation with digits 0 to 9 and a to f, is that number, in base 10 and 16, without leading zeros and with a minus sign exactly if it is negative |
| Numbers.PStream.PrintStr | guest/lib/printf.c:33-57 | sends the padded string, keeping what fits and counting everything |
| Numbers.PaddedShape | guest/lib/printf.c:33-57 | padded text has exactly the width asked for or its own, with the padding character on the left or blanks on the right |
| Numbers.SentIs | guest/lib/printf.c:24-31 | an empty buffer keeps the front of the text, as much as fits, and counts all of it |
| Numbers.PStream.PrintInt | guest/lib/printf.c:61-93 | sends the padded text of every 64-bit number but the least one |
| Numbers.PStream.PrintUnsigned | guest/lib/printf.c:95-132 | the same for unsigned numbers, with the 0x prefix before zeros but after blanks |
| Numbers.PrefixedShape | guest/lib/printf.c:95-132 | in base 16 with the prefix, the width is the one asked for, and 0x stands before zeros but after blanks |
| Numbers.RoundTrip | guest/lib/string.c:138-167 | atol reads back what was printed in base 10 at every blank-padded width, left or right |
| Numbers.PrintThenRead | guest/lib/printf.c:61-93 | print_int into a buffer and atol of that buffer give back every 64-bit number but the least one, at every blank-padded width, without overflow |
| Numbers.PrintUnsignedThenRead | guest/lib/printf.c:95-132 | the same for print_unsigned below 2^63 |
| Numbers.ZeroPadded | guest/lib/printf.c:38-43 | with zero padding exactly the padded negative numbers are misread |
| ReportPrefix.Strstr | guest/lib/string.c:58-73 | the first occurrence, or none if there is none |
| ReportPrefix.Memcmp | guest/lib/string.c:98-110 | zero if and only if the bytes are equal |
| ReportPrefix.FirstDelimiter | guest/lib/report.c:74-77 | from the start of a prefix the first delimiter is the one that ends it, even after a colon or before a blank |
| ReportPrefix.EncodeAppend | guest/lib/report.c:29-56 | the text of a stack on top of another is their texts one after the other, and that of one prefix is the prefix, a colon and a blank |
| ReportPrefix.Prefixes.Push | guest/lib/report.c:29-56 | the buffer becomes the longer concatenation; stops exactly if the prefix contains the delimiter or does not fit |
| ReportPrefix.Prefixes.Pop | guest/lib/report.c:63-81 | drops exactly the latest prefix, and does nothing when there is none |
| ReportPrefix.PushPop | guest/lib/report.c:29-81 | a pop undoes the matching push, for every prefix without delimiter that fits |

## Left out

- Inline assembly, MSR and VMCS accesses, VM entry and exit, interrupt handlers and the bodies of the feature tests: they probe hardware that the model cannot see.
- Locks: the allocators, the report functions and the drivers are modelled as sequential code; memory barriers are not modelled, steps between CPUs are sequentially consistent.
- EPT memory types, accessed and dirty bits, and `clear_ept_ad`: translation is address and permissions only.
- Ept.EptMemory.InstallEptEntry: the entry installed is absent or a size-aligned leaf of its level, as in every call in the repository (vmx.c:795-815); a pointer to a ready-made table is covered for SetEptPte only.
- Ept.EptMemory.InstallLeaf: a 2M or 1G leaf must be aligned to its size, because the hardware reserves the bits in between; phys is below 2^52.
- Ept.EptMemory.SetEptPte: no leaf above the entry, because the code would write into the page that it maps, and a pointer written is to the table recorded for that place.
- Ept.EptMemory.SetupEptRange: the range starts aligned to the largest page size enabled, because a 1G or 2M leaf must be, and ends within 48 bits.
- `vring_init`: the layout of the three ring parts in memory; the rings start out zeroed. `virtqueue_kick` and `num_added`, which only the transport uses.
- Virtqueue.Virtqueue.GetBuf: needs the device to have published the next used entry, because the code never looks at the device's index.
- ClockMonotonic.NeverBackwards: the path on which the raw or stable flag makes a call return its own reading is not covered; readings are given from outside, so `scale_delta` is not modelled.
- TimeArithmetic.SetNormalizedTimespec: the seconds are assumed far enough from the end of their range that counting up does not overflow.
- Page address 0 cannot be donated, because it could not be told from NULL.
- PageHeap.Acquire: `memalign` does not check for NULL from its backend; such a request ends in the model where the code would write to low memory.
- `alloc_ops` without a `free`, `malloc` and `calloc`: plain wrappers.
- `gicv3_set_redist_base` and `gicv3_enable_defaults`: register sequences only.
- PciProbe.Host.Probe: windows end below 2^63, so that rounding up does not wrap; the `resource` array, the command register and the device-tree parsing are not modelled, and `regs` holds the normal devices that exist, so the stop in `pci_dev_init` for a device with another header is not covered.
- TokenRing.RingOrder: the counters are unbounded.
- `vsnprintf` format parsing and its variable arguments.
- `alloc_phys.c`, `vmalloc.c`, the NPT table of `svm.c` and the flag tables of `access.c`: they would add only easier members.
