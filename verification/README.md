# Verified core of the kernel's memory management and the boot-sector installer

A Dafny model of the parts of this repository whose correctness depends on state kept over
many calls, with proofs. Every statement ranges over all inputs, all reachable states or all
runs of the operations named.

* **Page frames** (`FrameAllocator.dfy`): the bitmap, the word-skipping first fit and the
  prefetch pool of 20 frames. No live frame is ever handed out twice.
* **Page tables** (`PageTables.dfy`, `Pager.dfy`, `PagingInit.dfy`): the specification is the
  processor's own walk (4-level paging, section 4.5 of the Intel 64 and IA-32 Architectures
  Software Developer's Manual, Volume 3A), written independently of the kernel code. Storing
  one entry changes the translation of exactly one page, because the table frames form a tree
  of pairwise distinct frames; new tables come from the verified frame allocator.
* **Cached and journaled device** (`Journal.dfy`, `BlockDevice.dfy`, `UninstallFile.dfy`): a
  one-block write-back cache refines a flat byte sequence; rolling the log back restores the
  original disk although the dirty block in the cache is thrown away first; the same holds
  through the uninstall file in a later run.
* **Partition tables and boot code** (`PartitionTables.dfy`, `GptToMbr.dfy`, `MbrChecks.dfy`,
  `BootSector.dfy`): the conversion from GPT to MBR (sections 5.2.1 and 5.3 of the UEFI
  Specification) on that device, the checks on an MBR, and the boot code that is laid over a
  partition table without changing it.
* **Slab allocator** (`SlabHashTable.dfy`, `SlabPage.dfy`, `SlabCache.dfy`): the hash table
  with tombstones refines a finite map; the free lists inside the pages hold exactly the free
  buffers; the doubly linked slab list stays sorted into full and non-full slabs; the pages come
  from and go back to the verified frame allocator.
* **Checksum enrolment** (`EnrollConfig.dfy`): the search with an index that moves back
  refines the naive search.
* **Integer formatting** (`IntStr.dfy`): the text in the buffer, and when it reads back.

`Bits.dfy`, `ByteCodec.dfy`, `Cardinality.dfy` and `Options.dfy` hold what several of these share:
words as natural numbers with their bits, little-endian numbers, sizes of finite sets, and values
that may be missing.

An invariant that is written `forall n: nat | UnfoldX(n) :: P` means `P`; proofs that do not
mention `UnfoldX` treat it as a unit. `dafny verify dfyconfig.toml` checks the whole project.

## What the proofs found

The model follows the code. Where the code does less than its surroundings suggest, a contract
or lemma says exactly when it works, and a lemma or a short run shows an input for which it
does not.

* `mem_high` keeps its maximum in 32 bits: it is right exactly when usable memory ends below
  4 GiB (`MemHighExactness`, `MemHighLosesFourGiB`). With more memory the bitmap can be too small
  for the pages that are freed: every cleared bit lies in it exactly if no usable entry of more
  than a page ends more than a page above its last bit (`ClearsInBoundsExactly`); with 4 GiB from
  1 MiB on, bit 512 of a bitmap of 256 bits is cleared (`ClearsOutside`).
* The last page of every usable entry is never freed, and a refill of the frame pool that runs
  out part-way loses the frames it had taken: they are neither free nor live afterwards
  (`KallocFrame`, and `LoseFrames` for a run).
* `map_page` does not test the page-size bit: on a page inside a 2 MiB mapping it stores into
  the data frame instead of mapping, and the translation stays what it was unless that frame is
  itself a table (`Pager.MapPage`, and `OverwriteData` for a run). Every address of the direct map
  that `paging_init` builds is such a page, and kernel/arch/x86_64/ioapic.c:117-119 maps the IO
  APIC's registers there: whenever they lie below the top of the memory map, the call maps nothing
  (`MapInsideWindow`). `map_page_2m` with a flag among bits 13 to 20 stores an entry that the
  processor refuses (`LargeWordFields`, `ReservedFlag`).
* The comment on `ht_grow` (kernel/arch/x86_64/slab.c:33) says that it doubles the capacity.
  It computes 170 again and keeps the old bucket array (`HashTable.Grow`). Erasing leaves
  tombstones that are never turned back into empty buckets, so a run of insertions and
  erasures reaches an empty table without an empty bucket (`FillWithTombstones`), in which
  the search for any key never ends (`SearchNeverEnds`). After 170 insertions the next one never
  ends (`FillTable`, `InsertionNeverEnds`). A second insertion of a key leaves two buckets for it
  (`InsertAgain`, and `InsertTwice` for a run).
* Freeing the last buffer of the very slab `fl_ptr` points at leaves `fl_ptr` on a slab that is
  no longer in the list; all other frees keep the cache intact (`Cache.Free`). Allocating one
  buffer of a new cache and freeing it does so, and the next allocation returns the same buffer on
  a frame that the frame allocator counts as free (`LeaveDanglingPointer`).
* The NULL that `kmem_cache_grow` writes last goes behind the link of a control record, into the
  third word of the last record, or of the one before it if the records fill the page up to the
  header (`CarvePage`, `NullRecordExamples`). The link of the last buffer is not NULL but the
  address behind it, or the page's old word if the records fill the page (`ListEndsWithNull`).
* `kmem_cache_free` notices a buffer that is not live and goes on: a buffer freed twice is put on
  the free list twice, and following the list comes back to it (`DoubleFree`).
* The bound of the `enroll_config` search leaves out the last 25 places at which a checksum
  would still fit (`FoundExactly`, `SmallestFileIsNotEnrolled`).
* Zero padding in `__int_str` goes behind the digits when the text is left-justified and in
  front of the sign otherwise, so the text does not read back (`TextReadsBack`,
  `ZeroPaddingSpoils`). `vprintf` prints as many characters of it as the number has digits,
  which cuts off the end when there is a sign or padding in front (`PrintedPart`,
  `OnlyTheFront`).

## Model

| member | source | states |
|---|---|---|
| `FrameAllocation.SetBitTakes` | kernel/arch/x86_64/pfa.c:19 | or-ing one bit into its word takes exactly that frame out of the set of clear bits |
| `FrameAllocation.ClearBitFrees` | kernel/arch/x86_64/pfa.c:20 | masking one bit out of its word adds exactly that frame |
| `FrameAllocation.FullWordHasNoClearBit` | kernel/arch/x86_64/pfa.c:188-189 | skipping an all-ones word skips no free frame |
| `FrameAllocation.MemHigh` | kernel/arch/x86_64/pfa.c:25-36 | the running maximum as a 32-bit variable holds it: the low 32 bits of the end of the last usable entry that raises it, below 4 GiB and above |
| `FrameAllocation.MemHighExactness` | kernel/arch/x86_64/pfa.c:27-32 | that is the highest usable address if and only if it is below 4 GiB |
| `FrameAllocation.MemHighLosesFourGiB` | kernel/arch/x86_64/pfa.c:27-32 | a usable entry that ends at 4 GiB gives 0 |
| `FrameAllocation.HighIsLastRaise` | kernel/arch/x86_64/pfa.c:27-34 | for every map the result is the low 32 bits of some usable end that no later one exceeds, or 0 if no usable entry has an end |
| `FrameAllocation.HighAboveHole` | kernel/arch/x86_64/pfa.c:27-34 | ends of 0xbffe0000 and 0x240000000 give 0x40000000 |
| `FrameAllocation.BitmapIsLeast` | kernel/arch/x86_64/pfa.c:65-66 | the bitmap is the least number of whole 32-bit words with a bit for every page |
| `FrameAllocation.BitmapAddr` | kernel/arch/x86_64/pfa.c:51-62 | the first usable entry longer than the bitmap |
| `FrameAllocation.BitmapFits` | kernel/arch/x86_64/pfa.c:65-82 | the bitmap's frames lie inside the chosen entry, so every bit set for them exists |
| `FrameAllocation.ClearsInBoundsExactly` | kernel/arch/x86_64/pfa.c:42-47 | the clearing loops stay inside a bitmap if and only if no usable entry of more than a page ends more than a page above its last bit |
| `FrameAllocation.BelowFourGiBInBounds` | kernel/arch/x86_64/pfa.c:38-66 | below 4 GiB every freed page has a bit |
| `FrameAllocation.ClearsOutside` | kernel/arch/x86_64/pfa.c:38-66 | a map of 4 GiB for which bit 512 of a bitmap of 256 bits is cleared |
| `FrameAllocation.FrameAllocator.constructor` | kernel/arch/x86_64/pfa.c:64-91 | the free set is the usable pages without each entry's last one, without the bitmap's frames and frame 0, and the allocator's invariant holds |
| `FrameAllocation.FrameAllocator.BmSet` | kernel/arch/x86_64/pfa.c:19 | the free set loses n |
| `FrameAllocation.FrameAllocator.BmClear` | kernel/arch/x86_64/pfa.c:20 | the free set gains n |
| `FrameAllocation.FrameAllocator.MarkAllUsed` | kernel/arch/x86_64/pfa.c:72-74 | no bit is clear, including those past the last page |
| `FrameAllocation.FrameAllocator.FreeAvailableMemory` | kernel/arch/x86_64/pfa.c:38-49 | exactly the pages but the last of all usable entries become free, for all maps for which every bitmap access is in bounds |
| `FrameAllocation.FrameAllocator.FreeEntry` | kernel/arch/x86_64/pfa.c:43-46 | the inner loop frees every page of the entry but its last |
| `FrameAllocation.FrameAllocator.ReserveBitmap` | kernel/arch/x86_64/pfa.c:78-84 | takes the bitmap's frames and frame 0 |
| `FrameAllocation.FrameAllocator.KallocFrameInt` | kernel/arch/x86_64/pfa.c:186-202 | returns and takes the least free frame of the whole bitmap; NULL exactly if none is free |
| `FrameAllocation.FrameAllocator.TakeFromWord` | kernel/arch/x86_64/pfa.c:191-197 | the least clear bit of the word, or none in it |
| `FrameAllocation.WordIndex` | kernel/arch/x86_64/pfa.c:192 | the or of the shifted word index and the bit index is the bit's number |
| `FrameAllocation.FrameAllocator.Refill` | kernel/arch/x86_64/pfa.c:214-221 | twenty distinct frames move from the free set into the pool, exactly if there are twenty; otherwise all free frames are gone |
| `FrameAllocation.FrameAllocator.Prefetch` | kernel/arch/x86_64/pfa.c:215-220 | one frame moves from the free set into the pool, exactly if one is free |
| `FrameAllocation.LoseFrames` | kernel/arch/x86_64/pfa.c:213-221 | a run on three free frames that gets none and leaves none |
| `FrameAllocation.FrameAllocator.EnsurePool` | kernel/arch/x86_64/pfa.c:209-224 | succeeds exactly while the supply is positive, and keeps the live frames |
| `FrameAllocation.FrameAllocator.TakePooled` | kernel/arch/x86_64/pfa.c:225-227 | hands out a pooled frame that is not live, not frame 0 and a whole page below the limit |
| `FrameAllocation.FirstIsLeast` | kernel/arch/x86_64/pfa.c:225-227 | the pool is consumed in ascending order |
| `FrameAllocation.FrameAllocator.KallocFrame` | kernel/arch/x86_64/pfa.c:204-228 | a frame that is not live, exactly if the supply is positive, and the least one of the pool, or of the free frames when the pool is empty; free, pooled and live frames stay disjoint over every run; after a failed refill only live frames are managed |
| `FrameAllocation.FrameAllocator.KfreeFrame` | kernel/arch/x86_64/pfa.c:232 | a live frame becomes free and nothing else changes |
| `PageTables.WalkIsTreeWalk` | kernel/arch/x86_64/pager.c:50-80 | in every well-formed tree the processor's walk is the walk along the tree's positions |
| `PageTables.TreeIsUnique` | kernel/arch/x86_64/pager.c:50-80 | memory determines the tree, so the bookkeeping adds no freedom |
| `PageTables.LinkEmptyTable` | kernel/arch/x86_64/pager.c:57-76 | linking a zeroed fresh frame where no entry was present keeps the tree and every translation |
| `PageTables.SetSmallEntry` | kernel/arch/x86_64/pager.c:78-79 | storing a last-level entry keeps the tree, gives its page the entry's translation and keeps all other pages' |
| `PageTables.SetLargeEntry` | kernel/arch/x86_64/pager.c:44-47 | storing a large entry gives the whole region that translation, keeps all others, and detaches the table that was there |
| `PageTables.SetForeignWord` | kernel/arch/x86_64/pager.c:78-79 | a store outside the tables changes no translation |
| `Paging.SmallWordFields` | kernel/arch/x86_64/pager.c:79 | the stored word is a present writable entry for the physical page |
| `Paging.SmallWordBits` | kernel/arch/x86_64/pager.c:79 | bit by bit: those of the physical address, bits 0 to 11 of the flags, and bits 0 and 1 |
| `Paging.LargeWordFields` | kernel/arch/x86_64/pager.c:46-47 | the stored word is a present writable 2 MiB entry for the aligned address combined with the flags, which the processor accepts exactly if no flag is among the reserved bits 13 to 20 |
| `Paging.LargeWordBits` | kernel/arch/x86_64/pager.c:46-47 | bit by bit: bits 21 and up of the address, all bits of the flags, and bits 0, 1 and 7 |
| `Paging.LargeTargetAligned` | kernel/arch/x86_64/pager.c:46-47 | without flags above bit 20 the target is the address rounded down to 2 MiB |
| `Paging.LinkWord` | kernel/arch/x86_64/pager.c:34-36 | the stored link is present, writable, without any other attribute, and is followed back to the same frame |
| `Paging.LargeWalk` | kernel/arch/x86_64/pager.c:71-72 | the untested case is exactly that of an address whose walk ends at a 2 MiB entry |
| `Paging.LinkKeepsData` | kernel/arch/x86_64/pager.c:57-62 | a new table in a fresh frame overwrites nothing but frames the allocator had to give |
| `Paging.ReservedFlag` | kernel/arch/x86_64/pager.c:46-47 | flag bit 13 is one that is refused, for every address |
| `Paging.Indices` | kernel/arch/x86_64/pager.c:51-54 | the shifts and masks give the address's table indices |
| `Paging.Pager.constructor` | kernel/arch/x86_64/pager.c:128-130 | an empty root in the given frame: nothing is mapped, and no other frame changes |
| `Paging.StartPaging` | kernel/arch/x86_64/pager.c:124-130 | the root in a fresh frame: no frame changes but one the allocator had to give |
| `Paging.Pager.ZeroTable` | kernel/arch/x86_64/pager.c:19-24 | the frame becomes the empty table, no other frame changes |
| `Paging.Pager.NewFrame` | kernel/arch/x86_64/pager.c:59 | the allocated frame is none of the tables |
| `Paging.Pager.EnsureTable` | kernel/arch/x86_64/pager.c:57-64 | afterwards the next table is in the tree, whether or not it had to be allocated, and no translation has changed |
| `Paging.Pager.EnsureDirectory` | kernel/arch/x86_64/pager.c:31-44 | the same for the two upper levels |
| `Paging.Pager.EnsureLastLevel` | kernel/arch/x86_64/pager.c:57-78 | the same for all three levels; under a 2 MiB entry it yields the data frame |
| `Paging.Pager.StoreSmall` | kernel/arch/x86_64/pager.c:79 | only the page's own translation changes, and none if the store misses the tables |
| `Paging.Pager.MapPage` | kernel/arch/x86_64/pager.c:50-80 | not under a 2 MiB entry: the page translates to the physical page, through an entry whose every bit is given by address and flags, every other page keeps its translation and attributes, the tables stay distinct and in tree shape, and no frame changes but tables and frames the allocator had to give; under one: exactly one word of the data frame is overwritten, with the same bits, and nothing is mapped or changed in translation unless that frame is a table |
| `Paging.Pager.MapPage2M` | kernel/arch/x86_64/pager.c:26-48 | every page of the 2 MiB region translates to its offset in the aligned target, through an entry whose every bit is given by address and flags, and every page outside keeps its translation, also over former 4 KiB mappings; no frame changes but tables and frames the allocator had to give; with a reserved flag the region is refused instead |
| `Paging.OverwriteData` | kernel/arch/x86_64/pager.c:71-79 | a run that maps a region and then one of its pages: the page stays where it was and a word of data is lost |
| `Paging.Pager.StoreLarge` | kernel/arch/x86_64/pager.c:46-47 | the store replaces the region and drops its last-level table from the tree |
| `PagingBoot.PathIsPageNumber` | kernel/arch/x86_64/pager.c:51-54 | the four indices are the digits of the page number |
| `PagingBoot.SamePage` | kernel/arch/x86_64/pager.c:51-54 | two canonical addresses have the same indices exactly if they are in the same page |
| `PagingBoot.SameLargePage` | kernel/arch/x86_64/pager.c:27-29 | the same for 2 MiB regions |
| `PagingBoot.KernelStep` | kernel/arch/x86_64/pager.c:131-136 | one more page mapped extends the layout by exactly that page |
| `PagingBoot.WindowStep` | kernel/arch/x86_64/pager.c:148-149 | one more 2 MiB page extends the direct map by exactly that region |
| `PagingBoot.MapKernelPage` | kernel/arch/x86_64/pager.c:133-135 | the 64-bit address arithmetic does not wrap and the layout grows by a page |
| `PagingBoot.MapKernel` | kernel/arch/x86_64/pager.c:131-136 | afterwards the kernel's pages are mapped and nothing else |
| `PagingBoot.MapWindowPage` | kernel/arch/x86_64/pager.c:148-149 | one round of the direct-map loop |
| `PagingBoot.MapWindow` | kernel/arch/x86_64/pager.c:148-149 | afterwards kernel and direct map are mapped and nothing else |
| `PagingBoot.HighestEnd` | kernel/arch/x86_64/pager.c:138-145 | an end of a memory-map entry that no entry exceeds, 0 for none |
| `PagingBoot.TopIsAnEnd` | kernel/arch/x86_64/pager.c:138-145 | the top is 0 without entries and else the end of one |
| `PagingBoot.RoundUpIsLeast` | kernel/arch/x86_64/pager.c:133-149 | the loops stop at the least multiple of the page size that covers the end |
| `PagingBoot.PagingInit` | kernel/arch/x86_64/pager.c:121-149 | every canonical address translates as the layout says: kernel pages to their load address with attributes 0x3, the window to its offset with attributes 0x83, everything else faults; the direct map consists of plain 2 MiB pages; memory changes only in frames the allocator had to give, and no more of them are used than there are tables |
| `PagingBoot.WindowGrows` | kernel/arch/x86_64/pager.c:148-149 | the direct map stays one of plain 2 MiB pages |
| `PagingBoot.MapInsideWindow` | kernel/arch/x86_64/ioapic.c:117-119 | `map_page` on any address of the direct map overwrites exactly one word of the region's first frame, with the bits of address and flags, and changes no translation unless that frame is a table |
| `PagingBoot.KernelReachable` | kernel/arch/x86_64/pager.c:131-136 | every kernel byte v translates to v - virtual_base + physical_base, writable, with attributes 0x3 |
| `PagingBoot.DirectMapReachesEntry` | kernel/arch/x86_64/pager.c:138-149 | every byte a of every memory-map entry is reachable at a + offset, writable, with attributes 0x83 |
| `PagingBoot.NothingElseMapped` | kernel/arch/x86_64/pager.c:131-149 | every canonical address outside the kernel that is below the window or 0x1fffff bytes above all memory-map entries faults |
| `Journal.UndoIgnoresLoggedBytes` | limine-binary/limine.c:531-537 | undoing does not depend on what the logged ranges hold, so the dirty block may be discarded |
| `Journal.ReplayOfReverse` | limine-binary/limine.c:328-334 | writing the reversed log out in order is undoing it |
| `Journal.LoggedWrite` | limine-binary/limine.c:487-521 | a logged write keeps the journal, however much of it has been flushed |
| `Journal.FlushKeepsJournal` | limine-binary/limine.c:266-285 | flushing keeps the journal |
| `Journal.RollbackIsExact` | limine-binary/limine.c:524-574 | the reversed log written over the device alone gives the original contents, for every log of overlapping writes |
| `Journal.OverwriteAgain` | limine-binary/limine.c:537-552 | writing a range again on retry changes nothing |
| `BlockDevice.DeviceInit` | limine-binary/limine.c:233-264 | the smallest of the three block sizes that can be read, with block 0 cached; none only if none can |
| `BlockDevice.Device.constructor` | limine-binary/limine.c:257-259 | the cache agrees with the device |
| `BlockDevice.Device.FlushCache` | limine-binary/limine.c:266-285 | the device equals the logical contents |
| `BlockDevice.Device.ReadBlock` | limine-binary/limine.c:301 | the cache holds the block's bytes |
| `BlockDevice.Device.CacheBlock` | limine-binary/limine.c:287-312 | eviction changes no logical byte; fails exactly past the end |
| `BlockDevice.Device.CacheByte` | limine-binary/limine.c:449-453 | caches the block of the next byte of a transfer |
| `BlockDevice.Device.CopyOut` | limine-binary/limine.c:455-460 | a chunk of the cached block is a chunk of the logical contents |
| `BlockDevice.Device.CopyIn` | limine-binary/limine.c:508-514 | a chunk written to the cached block overwrites the logical contents there |
| `BlockDevice.Device.Read` | limine-binary/limine.c:445-465 | the logical bytes of the range, for every offset and length; fails exactly if the range leaves the device; changes no logical byte |
| `BlockDevice.Device.WriteChunk` | limine-binary/limine.c:499-515 | one block's part of a write |
| `BlockDevice.Device.WriteBlocks` | limine-binary/limine.c:496-516 | changes exactly the range, or its part on the device |
| `BlockDevice.Device.Write` | limine-binary/limine.c:467-522 | atomic while installing: either the whole range changes and exactly its old bytes are appended to the log, or neither contents nor log change |
| `BlockDevice.Device.ReverseUninstallData` | limine-binary/limine.c:328-334 | the log is reversed |
| `BlockDevice.Device.DropCache` | limine-binary/limine.c:531-532 | the logical contents become the device's |
| `BlockDevice.Device.RestoreEntry` | limine-binary/limine.c:537-552 | one entry restored, with the retry; fails exactly if it leaves the device |
| `BlockDevice.Device.RestoreAll` | limine-binary/limine.c:534-553 | all entries in list order |
| `BlockDevice.Device.Uninstall` | limine-binary/limine.c:524-574 | the device is the list replayed over the device as it was, not over the cached contents |
| `BlockDevice.Device.CleanUp` | limine-binary/limine.c:1219-1227 | after a failure the disk is exactly the original one; after a success the stored list restores it |
| `BlockDevice.Device.WriteAll` | limine-binary/limine.c:582-587 | a sequence of logged writes is their replay, and stops exactly at a range off the device or a full log |
| `BlockDevice.Device.Install` | limine-binary/limine.c:582-587 | any such sequence, finished or failed, can be undone exactly |
| `BlockDevice.Device.StoreUninstallData` | limine-binary/limine.c:342-380 | the file is the encoded log; fails exactly on an empty entry |
| `BlockDevice.Device.LoadUninstallData` | limine-binary/limine.c:382-443 | succeeds exactly on files that decode, and loads what they decode to |
| `BlockDevice.UninstallMode` | limine-binary/limine.c:739-759 | a later run writes the file's list over the device |
| `BlockDevice.InstallThenUninstall` | limine-binary/limine.c:1219-1227 | installing, storing, loading and uninstalling restores every disk; so does a failed installation |
| `UninstallFile.FileRoundTrip` | limine-binary/limine.c:342-443 | the file decodes to the list stored if and only if it has at most 256 entries and none is empty |
| `UninstallFile.FileLayout` | limine-binary/limine.c:342-384 | the file is the number of entries, then location, length and bytes of each, numbers in eight little-endian bytes |
| `UninstallFile.EncodeDecodedList` | limine-binary/limine.c:405-426 | whatever decodes is the encoding of what it decodes to |
| `UninstallFile.DecodedIsAddressable` | limine-binary/limine.c:406 | locations read from any file are 64-bit |
| `PartitionTables.MulOverflow` | limine-binary/limine.c:49-52 | reports overflow exactly when the product needs more than 64 bits, and else the product |
| `PartitionTables.AddOverflow` | limine-binary/limine.c:54-57 | the same for sums |
| `PartitionTables.ChsRoundTrip` | limine-binary/limine.c:151-172 | the CHS bytes decode to the block address, or from 1024 * 255 * 63 on to the last one below it |
| `PartitionTables.ChsLayout` | limine-binary/limine.c:151-172 | the bytes themselves: head; sector in bits 0 to 5 below bits 8 and 9 of the cylinder; low byte of the cylinder; fe ff ff for an address out of reach |
| `PartitionTables.EncodeChs` | limine-binary/limine.c:151-172 | the stored bytes, computed with the source's tests and or, are those that ChsRoundTrip decodes |
| `PartitionTables.ChsByteFits` | limine-binary/limine.c:168-171 | sector and high cylinder bits share a byte without overlap, so the or is their sum |
| `PartitionTables.CountExact` | limine-binary/limine.c:876-881 | the wrapping difference passes the 32-bit test exactly if it is the true count, and then start + count = end + 1 |
| `PartitionTables.GptEntryLayout` | limine-binary/limine.c:112-123 | an entry is six little-endian 64-bit fields, type GUID, own GUID, first block and last block, in that order, and 80 more bytes |
| `PartitionTables.InUseInBytes` | limine-binary/limine.c:846-849 | an entry is used exactly if one of its bytes 16 to 31 is not zero |
| `PartitionTables.KindOfGuid` | limine-binary/limine.c:134-149 | the MBR type against the 16 GUID bytes on the disk: 0xef for an EFI system partition, 0x07 for Microsoft basic data, 0xaf for HFS, none for all others |
| `PartitionTables.ConvertibleInBytes` | limine-binary/limine.c:858-891 | when an entry has an MBR form, in terms of its bytes |
| `PartitionTables.ExpectedDescribes` | limine-binary/limine.c:864-941 | an MBR record that reads as its GPT entry has the start that bytes 32 to 39 give, start + count one more than bytes 40 to 47 give, the type of the GUID bytes, and the CHS bytes of both |
| `PartitionTables.ConvertedEntryReads` | limine-binary/limine.c:933-942 | a record built from a GPT entry reads as the same start, size, type and CHS addresses |
| `PartitionTables.UsedGrows` | limine-binary/limine.c:846-849 | skipping empty entries keeps the order of the others |
| `GptToMbr.TakeEntry` | limine-binary/limine.c:846-894 | an entry is taken exactly if it is in use, has an MBR form and is not the fifth |
| `GptToMbr.GatheredStep` | limine-binary/limine.c:838-895 | one more entry extends the gathered list or makes the table unsuitable |
| `GptToMbr.ReadEntry` | limine-binary/limine.c:839-844 | entry i of the table, whose fields GptEntryLayout places; a read error exactly if it is not on the device but its offset is a 64-bit number |
| `GptToMbr.Gather` | limine-binary/limine.c:838-895 | gathers exactly the non-empty entries in order if and only if there are at most four, all readable and all with an MBR form; a read error exactly if an unreadable entry comes before any other obstacle; writes nothing |
| `GptToMbr.UsedSlotsExactly` | limine-binary/limine.c:838-849 | the slots gathered are exactly the table's entries with a non-zero GUID of their own, in ascending order |
| `GptToMbr.SuitableInBytes` | limine-binary/limine.c:838-891 | a table is suitable if and only if all its entries lie on the disk, at most four are used and the bytes of each have an MBR form |
| `GptToMbr.RecordsCarry` | limine-binary/limine.c:838-941 | records that read as the partitions describe, byte by byte, the used slots in order |
| `GptToMbr.WipeBlocks` | limine-binary/limine.c:905-919 | exactly these blocks become zero |
| `GptToMbr.WipeGpts` | limine-binary/limine.c:904-921 | both GPTs are zero, nothing else changes |
| `GptToMbr.WriteDiskId` | limine-binary/limine.c:926-930 | the four bytes of the identifier |
| `GptToMbr.WriteEntry` | limine-binary/limine.c:934-941 | five writes make one record and leave its status byte |
| `GptToMbr.WriteTable` | limine-binary/limine.c:933-942 | the records in order, nothing behind them |
| `GptToMbr.ConvertToMbr` | limine-binary/limine.c:810-949 | converts exactly if the image has CD001 at 32769, the table is suitable, the GPTs lie on the device and the log has room; then the record at 446 + 16k describes, in the bytes of the old disk, the k-th used slot: start, start + count, type by GUID, CHS bytes; skips, without any change, exactly if the image is no ISO or the table is unsuitable before it is unreadable; else stays in the session |
| `MbrChecks.ClearingKeepsAbsence` | limine-binary/limine.c:615-662 | clearing bytes of one signature cannot make another one appear |
| `MbrChecks.ClearingIsIndependent` | limine-binary/limine.c:615-662 | clearing one signature takes no later one away |
| `MbrChecks.HintTexts` | limine-binary/limine.c:615-654 | the signatures are NTFS at 3, FAT at 54 and at 82, FAT32 at 3 and the bytes 53 ef at 1080 |
| `MbrChecks.CheckHint` | limine-binary/limine.c:615-623 | found exactly if its bytes are there; under force they are cleared |
| `MbrChecks.ValidateOrForce` | limine-binary/limine.c:611-669 | at every offset, accepts exactly if the signatures' places lie on the device and none of the five is there or, under force, the log has room to clear those that are; then none is left and the bytes cleared are exactly 4 of NTFS, 5 of each FAT signature and 2 of ext that was there |
| `MbrChecks.CheckStart` | limine-binary/limine.c:971-978 | too low exactly if in use and starting below sector 63 |
| `MbrChecks.CheckRecord` | limine-binary/limine.c:961-978 | without force valid exactly if the status byte is 0 or 0x80; under force the byte keeps only bit 7; fails exactly on a low start or a full log |
| `MbrChecks.CheckRecords` | limine-binary/limine.c:961-1038 | all four; fails exactly on a low start or a full log |
| `MbrChecks.AcceptedExactly` | limine-binary/limine.c:961-1046 | a table is accepted if and only if each of the records at 446, 462, 478 and 494 has type 0 or a start of at least 63 and, without force, status 0 or 0x80 and no signature is on the disk |
| `MbrChecks.NewStatusExactly` | limine-binary/limine.c:961-1055 | afterwards a status is 0x80 where bit 7 was set, and in the first record where it was set in none; else 0 |
| `MbrChecks.PrepareMbr` | limine-binary/limine.c:951-1064 | accepts exactly the disks that AcceptedExactly describes while the log has room; then records keep all but their status, at least one is active, and every other byte is as before or belongs to a signature that was cleared |
| `BootSector.WrittenIsInstalled` | limine-binary/limine.c:1184-1204 | every byte of the device after the five writes, for every place of stage 2 |
| `BootSector.WriteBootCode` | limine-binary/limine.c:1184-1207 | boot sector, stage 2 and its location are written, partition table and timestamp are the old ones, and the device is flushed |
| `BootSector.TableSurvives` | limine-binary/limine.c:1187-1204 | records and disk identifier read as before |
| `BootSector.InstallToMbr` | limine-binary/limine.c:951-1207 | exactly when it succeeds, in the bytes of the disk; then the records have changed in status only, timestamp and disk identifier are the old ones, the image and stage 2's location are in place and everything behind it is as before but for cleared signatures |
| `BootSector.FirstBecomesActive` | limine-binary/limine.c:1048-1055 | after a conversion it is always the first partition that is made active |
| `BootSector.ConvertAndInstall` | limine-binary/limine.c:810-1227 | converts exactly if the image is an ISO, its table suits, the GPTs and the boot image fit the disk and all partitions start at sector 63 or later; then each used slot of the old disk is described by a record, the first one active, the boot code is in place, everything behind it is as before but for the zeroed GPTs, and the log restores the disk and can be stored; else the disk is exactly as it was, or untouched with the session open |
| `BootSector.ConvertedInstallable` | limine-binary/limine.c:951-1207 | after a conversion the checks and the log never stand in the way but for partitions that start too low |
| `BootSector.PartitionKept` | limine-binary/limine.c:810-1207 | every partition that starts at block 34 or later, behind the boot code, and does not meet the secondary GPT's blocks keeps its bytes |
| `BootSector.ConvertThenUninstall` | limine-binary/limine.c:810-1227 | converting, installing, storing the log and uninstalling in a later run restores every disk; so does every other outcome |
| `SlabHashTable.AtProbe` | kernel/arch/x86_64/slab.c:53-61 | no empty bucket lies on the probe path of a live key |
| `SlabHashTable.Insert` | kernel/arch/x86_64/slab.c:69-76 | filling the first bucket that is not full keeps the table a map with the key added |
| `SlabHashTable.Remove` | kernel/arch/x86_64/slab.c:86-87 | a tombstone keeps every other key reachable |
| `SlabHashTable.HashTable.constructor` | kernel/arch/x86_64/slab.c:23-31 | the empty map |
| `SlabHashTable.HashTable.Find` | kernel/arch/x86_64/slab.c:54-59 | the probe loop ends at the key's bucket or at an empty one |
| `SlabHashTable.HashTable.Get` | kernel/arch/x86_64/slab.c:53-61 | the map's value, or none |
| `SlabHashTable.HashTable.Erase` | kernel/arch/x86_64/slab.c:79-89 | the map without the key; true exactly if it was there |
| `SlabHashTable.HashTable.FindUnused` | kernel/arch/x86_64/slab.c:64-71 | the probe loop ends at the first bucket that is not full |
| `SlabHashTable.HashTable.Set` | kernel/arch/x86_64/slab.c:63-77 | the map with the key added, whether or not the table was grown |
| `SlabHashTable.HashTable.Grow` | kernel/arch/x86_64/slab.c:34-51 | the capacity stays 170, the buckets and the map stay the same, the rehash loop ends |
| `SlabHashTable.HashTable.SearchNeverEnds` | kernel/arch/x86_64/slab.c:55-59 | without an empty bucket the loop condition holds at every step of a search for an absent key |
| `SlabHashTable.HashTable.InsertionNeverEnds` | kernel/arch/x86_64/slab.c:69-71 | with size equal to capacity so does that of an insertion |
| `SlabHashTable.FillWithTombstones` | kernel/arch/x86_64/slab.c:63-89 | a run of insertions and erasures reaches an empty map without an empty bucket |
| `SlabHashTable.FillTable` | kernel/arch/x86_64/slab.c:63-77 | 170 insertions reach a table in which every bucket is full |
| `SlabHashTable.InsertAgain` | kernel/arch/x86_64/slab.c:63-77 | inserting a key that is there leaves a table that stands for no map; a search finds the new value exactly if it took a tombstone in front of the old one |
| `SlabHashTable.HashTable.SetPresent` | kernel/arch/x86_64/slab.c:63-77 | the same as a call: the key gets a second bucket and no map describes the table |
| `SlabHashTable.InsertTwice` | kernel/arch/x86_64/slab.c:63-77 | a run that inserts a key twice |
| `SlabPage.Disjoint` | kernel/arch/x86_64/slab.c:200-208 | buffers with their control words do not overlap and end below the slab header |
| `SlabPage.BufCntIsMost` | kernel/arch/x86_64/slab.c:200-202 | n buffers fit if and only if n * (size + 24) <= 4096 - 48 |
| `SlabPage.TakeFirst` | kernel/arch/x86_64/slab.c:340-342 | taking the head and poisoning its link leaves the chain of the others |
| `SlabPage.PutFirst` | kernel/arch/x86_64/slab.c:291-296 | putting a buffer back makes it the head of the chain |
| `SlabPage.WriteKeepsChain` | kernel/arch/x86_64/slab.c:287-296 | writes inside a buffer that is not free keep the chain |
| `SlabPage.FollowVisitsFree` | kernel/arch/x86_64/slab.c:340-341 | following the links visits the free buffers in order |
| `SlabPage.TrailingNull` | kernel/arch/x86_64/slab.c:210-211 | the last NULL overwrites no link |
| `SlabPage.LoopCount` | kernel/arch/x86_64/slab.c:205-210 | the NULL goes behind the link of the last record, or of the one before it if and only if the records fill the page |
| `SlabPage.ListEndsWithNull` | kernel/arch/x86_64/slab.c:205-211 | the last link is NULL only if the records fill the page and its old contents had a NULL there |
| `SlabPage.NullRecordExamples` | kernel/arch/x86_64/slab.c:200-211 | both cases, for objects of 64 and 512 bytes |
| `SlabPage.DoubleFree` | kernel/arch/x86_64/slab.c:291-296 | after a second free the list leads from the buffer back to itself |
| `SlabPage.DoubleFreeBreaksChain` | kernel/arch/x86_64/slab.c:291-296 | and no list of free buffers describes the page |
| `SlabPage.LinkRecords` | kernel/arch/x86_64/slab.c:204-208 | the layout loop links the records in order |
| `SlabPage.HeaderAligned` | kernel/arch/x86_64/slab.c:191-192 | the alignment mask changes nothing, so freeing finds the header again |
| `SlabPage.CarvePage` | kernel/arch/x86_64/slab.c:186-211 | for every small size the page is a chain of all its buffers in order; where the NULL goes and what the last link holds |
| `SlabCaches.InsertLinks` | kernel/arch/x86_64/slab.c:160-165 | insertion keeps prev and next inverse and gives the list with the slab in its place |
| `SlabCaches.RemoveLinks` | kernel/arch/x86_64/slab.c:177-182 | removal likewise |
| `SlabCaches.Cache.constructor` | kernel/arch/x86_64/slab.c:97-118 | a cache of the given size whose list is just the two given sentinels, `fl_ptr` at the tail |
| `SlabCaches.Cache.InsertSlab` | kernel/arch/x86_64/slab.c:160-165 | the four stores are the insertion |
| `SlabCaches.Cache.RmSlab` | kernel/arch/x86_64/slab.c:177-182 | the four stores are the removal |
| `SlabCaches.Cache.AppendSlab` | kernel/arch/x86_64/slab.c:168-174 | insertion before the tail; `fl_ptr` moves only from the tail |
| `SlabCaches.Cache.Grow` | kernel/arch/x86_64/slab.c:186-248 | one more slab, on a frame that the allocator had not handed out, all of its buffers free; the invariant and every client's bytes stay |
| `SlabCaches.FreshPage` | kernel/arch/x86_64/slab.c:189 | a frame that is not live is no page of the cache |
| `SlabCaches.Cache.NewFrame` | kernel/arch/x86_64/slab.c:189 | the allocated page is none of the cache's |
| `SlabCaches.Cache.PopFree` | kernel/arch/x86_64/slab.c:340-344 | the head of the free list becomes live, the buffer its link named becomes the head, the link becomes 0xDEADBEEF, and no client's bytes change |
| `SlabCaches.Cache.AddSlab` | kernel/arch/x86_64/slab.c:191-247 | the page is carved and its header appended |
| `SlabCaches.Cache.Alloc` | kernel/arch/x86_64/slab.c:328-347 | a buffer that was not live, and exactly it becomes live; it is the head of the free list at `fl_ptr`; the word behind it is 0xDEADBEEF; the cache grows only if no slab has a free buffer; no client's bytes change |
| `SlabCaches.Cache.Take` | kernel/arch/x86_64/slab.c:336-347 | the same with a slab at `fl_ptr`; a slab that fills up passes to the full part |
| `SlabCaches.Cache.Free` | kernel/arch/x86_64/slab.c:283-326 | the buffer is no longer live, no other client's bytes change, and the slab goes and its frame becomes free exactly if this was its last buffer; list order, free lists and links stay intact if and only if the slab at `fl_ptr` is not emptied, and otherwise `fl_ptr` dangles |
| `SlabCaches.LeaveDanglingPointer` | kernel/arch/x86_64/slab.c:283-347 | a run of one allocation and one free after which `fl_ptr` is not in the list and the next buffer to be returned lies on a free frame |
| `SlabCaches.Cache.PutBack` | kernel/arch/x86_64/slab.c:288-297 | the buffer becomes the head of the free list of the slab found from its page; no other client's bytes change |
| `SlabCaches.LinkStoreKeepsContents` | kernel/arch/x86_64/slab.c:291-342 | storing a control word changes no byte of any live buffer |
| `SlabCaches.Cache.DropSlab` | kernel/arch/x86_64/slab.c:299-303 | an emptied slab leaves the list |
| `SlabCaches.Cache.MoveSlab` | kernel/arch/x86_64/slab.c:321-325 | a slab that was full becomes the first non-full one |
| `SlabCaches.Cache.ClientWrite` | kernel/arch/x86_64/slab.c:328-347 | whatever is written into a live buffer, the cache stays intact and only that client's bytes change |
| `SlabCaches.Cache.FreeListWalk` | kernel/arch/x86_64/slab.c:287-297 | following `freelist` for buf_cnt - refs links visits each free buffer once and no live one |
| `SlabCaches.Cache.LiveBuffersApart` | kernel/arch/x86_64/slab.c:186-211 | two live buffers never share a byte, nor one with a header |
| `EnrollConfig.FirstMatch` | limine-binary/limine.c:1335-1350 | the first signature whose last character is at most at size - 154, or none |
| `EnrollConfig.Search` | limine-binary/limine.c:1332-1350 | the search that moves its index back terminates and agrees with that |
| `EnrollConfig.FoundExactly` | limine-binary/limine.c:1335 | of an image whose first signature has room for a checksum, it is found if and only if 25 more characters follow |
| `EnrollConfig.EnrollOutcomes` | limine-binary/limine.c:1283-1361 | each outcome if and only if its condition holds, and the characters that change when enrolled |
| `EnrollConfig.SmallestFileIsNotEnrolled` | limine-binary/limine.c:1315-1335 | a file of the text ++CONFIG_B2SUM_SIGNATURE++ and 128 characters has the minimum size and is never enrolled |
| `EnrollConfig.PatchKeepsFirst` | limine-binary/limine.c:1357-1361 | after patching the search finds the same place |
| `EnrollConfig.EnrollTwice` | limine-binary/limine.c:1315-1361 | enrolling twice equals enrolling the second checksum only, for every image and outcome |
| `EnrollConfig.CheckArgument` | limine-binary/limine.c:1283-1295 | accepts exactly 128 characters out of 0123456789abcdefABCDEF |
| `EnrollConfig.CopyChecksum` | limine-binary/limine.c:1357-1361 | exactly the 128 characters behind the signature change, within the image |
| `EnrollConfig.EnrollConfig` | limine-binary/limine.c:1283-1361 | outcome and image, in the error cases unchanged |
| `IntStr.DigitsParse` | libc/stdio/printf.c:61-64 | the digits parse back to the number, in every base |
| `IntStr.DigitsProper` | libc/stdio/printf.c:61-64 | no leading zero, no terminator |
| `IntStr.DigitsCase` | libc/stdio/printf.c:34-42 | letters are lower case for base 17 and upper case for base 16 |
| `IntStr.NumeralUnique` | libc/stdio/printf.c:61-64 | a text that parses to the number, without leading zero and in that case, is the only one |
| `IntStr.CountDigits` | libc/stdio/printf.c:53-58 | the counting pass counts exactly the digits |
| `IntStr.WriteDigits` | libc/stdio/printf.c:61-64 | the writing pass fills exactly the counted places |
| `IntStr.WriteBody` | libc/stdio/printf.c:44-64 | sign and digits, terminated |
| `IntStr.AppendPadding` | libc/stdio/printf.c:70-76 | the padding loop appends that many characters |
| `IntStr.PrependPadding` | libc/stdio/printf.c:79-88 | the padding in front, through the second buffer |
| `IntStr.IntStr` | libc/stdio/printf.c:31-91 | for every 64-bit number, base, sign, width below 256 and justification, the buffer holds exactly the sign character, a numeral in the right case that parses to the number, and the padding, each at its place |
| `IntStr.TextReadsBack` | libc/stdio/printf.c:66-89 | a reader of the text gets the number back if and only if no zero padding stands behind the digits or in front of a sign, or the number is 0 |
| `IntStr.ZeroPaddingSpoils` | libc/stdio/printf.c:66-89 | two inputs for which it does not |
| `IntStr.OnlyTheFront` | libc/stdio/printf.c:18-23 | two inputs of which only the sign or a blank is printed |
| `IntStr.MagnitudeIsAbsolute` | libc/stdio/printf.c:281-282 | the negation modulo 2^64 is the absolute value, also of the most negative number |
| `IntStr.FormatSigned` | libc/stdio/printf.c:275-326 | every signed 64-bit value is shown by sign and numeral, and reads back exactly under the condition above |
| `IntStr.PrintedPart` | libc/stdio/printf.c:18-23 | the characters printed are the digits if and only if nothing stands in front of them, or zeros in front of a 0 |

## Left out

- `kalloc_frames`, `kfree_frames` and the range operations on the bitmap (kernel/arch/x86_64/pfa.c:94-182): their masks run to the end of the last word, so no clean invariant holds. The scratch array of `ht_grow` is given.
- Large-object slabs, `kmem_cache_reap`, `kmalloc`, `kfree` and the boot-time caches of slab.c:120-131 are unfinished in the source.
- `free_page` and `kalloc_pages` are unfinished in the source.
- `vprintf`'s format parsing and floating point; only the two call shapes of `__int_str` and the number of characters printed are modelled.
- Device errors other than transfers outside the device, memory exhaustion, messages and argument parsing. Input values such as the random disk identifier and the boot image are parameters.
- The choice of the BIOS boot partition on a device that keeps its GPT, and the probing of GPT headers (limine-binary/limine.c:761-805 and 1069-1173); the header's fields are parameters.
- Pointers through the direct map are modelled as accesses to the physical frame; the load of CR3, the TLB and the accessed and dirty bits that the processor sets are not modelled.
- BlockDevice.DeviceInit: covers devices whose length is a multiple of the block size found; a partial last block cannot be transferred, and what a short read leaves in the cache is not modelled.
- BlockDevice.UninstallMode: the same devices as DeviceInit.
- BlockDevice.InstallThenUninstall: the same devices as DeviceInit.
- Paging.Pager.MapPage: asks for enough free frames for the missing tables, because the source does not check for NULL and would use frame 0.
- Paging.Pager.MapPage2M: asks for enough free frames for the missing tables, for the same reason.
- PagingBoot.PagingInit: asks for a page-aligned kernel in the higher half and a 2 MiB-aligned window that share no page, as the boot protocol provides them, and for enough frames.
- FrameAllocation.FrameAllocator.constructor: asks for page-aligned usable entries below 4 GiB, one of them longer than the bitmap; the source has no error path for the others, and ClearsInBoundsExactly and ClearsOutside say what becomes of more memory.
- FrameAllocation.FrameAllocator.FreeAvailableMemory: asks for maps that stay inside the bitmap, exactly as ClearsInBoundsExactly describes them.
- SlabCaches.Cache.Grow: asks for a free frame, because the source does not check for NULL.
- SlabCaches.Cache.Alloc: asks for a free frame when the cache has to grow, because the source does not check for NULL.
- SlabHashTable.HashTable.Set: covers keys that are absent and tables that are not full; SetPresent covers keys that are there, and for a full table InsertionNeverEnds shows that the source does not return.
- MbrChecks.ValidateOrForce: covers offsets whose signatures' places are 64-bit addresses; closer to 2^64 the source's sums wrap around.
- SlabHashTable.HashTable.Get: covers searches that end; for the others SearchNeverEnds shows that the source does not return.
- SlabHashTable.HashTable.Erase: the same as for Get.
- SlabCaches.Cache.Free: covers buffers that are live; for a buffer that is not, the source's test has an empty body and it goes on, with the effect that DoubleFree describes.
- IntStr.FormatSigned: covers widths below the size of the buffer, like IntStr.
- IntStr.IntStr: covers bases 2 to 10, 16 and 17 (lower-case hexadecimal) and widths below the size of the buffer, which the source does not check.
