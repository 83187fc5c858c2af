# lsvmtools: a verified model of the boot loader's storage, image and boot logic

This project models, in Dafny, the parts of lsvmload and lsvmutils where most of the loader's state and
control flow live, and proves what they promise over every input and every run:

- **The block-device stack.** `CacheBlkdev` is the hash-chained cache device (nodes linked on the heap, an
  array of chains, a flag). `CacheSpec` states what one operation may do to the abstract state *cached
  blocks over child blocks* and what follows for whole runs. `RawDevice` is any child device: it may fail at
  any call, and a failed write may leave any mix of old and new blocks. `ByteAccess` is byte-sized access on
  top of either device, `BootBio` the protocol of the boot region on top of that, and its installation.
- **The boot sequence.** `Boot` is `efi_main` with its steps. Every device call, flag change and PCR 11
  operation is recorded in one trace; `BootTrace` says what a trace means, position by position. File-system
  and LUKS code is an arbitrary finite sequence of block operations; firmware and TPM answers are free.
- **The PE loader.** `ImageLoader` lays out sections and walks the relocation region in place; `Relocation` is
  the theory of base relocation (targets, order, relocating twice) over `LittleEndian` words.
- **The redirected root disk.** `DiskBio` holds the regions and the read and write hooks, `Partitions` the
  partition table, byte for byte, and the installation of the boot region, `DevPath` the device paths and the choice of the
  pseudo partition's place.
- **Two loops with buffers of their own.** `Buf` is the growable buffer with its typed views, `ParentDirs` the
  loop that cuts a path buffer in place to make parent directories.

Run `dafny verify dfyconfig.toml` to check everything.

## Where the code differs from what one might expect

The model follows the code in each of these places.

- With caching off, a write goes to the child while reads still see an older cached copy. Reading back every
  write is proved to hold exactly when none of the written blocks is cached (`CacheSpec.ReadYourWritesIff`).
- After `SetVariable` succeeded, `ApplyDBXUpdate` returns success whatever fails later, with `reboot` set
  (lsvmload/dbxupdate.c:127-231). That is why a run that reaches `StartShim` without a returned reset has
  written nothing to the boot partition since caching was enabled.
- `_FixupImage` can return success without having set the entry point: when memory runs out, when a second
  relocation section follows, and when there is no base relocation directory (lsvmload/image.c:383-471); `Exec`
  then calls a null entry point. `ImageLoader.FixupImage` says exactly when, `ImageLoader.SucceedsUnsetExamples`
  gives two images.
- `AddPartition` copies the entry before the free slot. In a table without any partition the new entry stays
  unused; in a full table nothing is added; both return 0 (`Partitions.AddKeepsDense`).
- Installing the boot partition edits the partition table, and that table is the memory of the first region
  (lsvmload/diskbio.c:52-60). A read that starts below the new region is unchanged if and only if it covers no
  table block that changed (`Partitions.Gpt.InstallBoot`, `Partitions.InstallShowsExample`). The checksums in the
  table's header are not updated.
- `InstallRootBIO` reads 34 blocks into a region of 64, so LBA 34 to 63 of the hooked disk read as zeros whatever
  the disk holds there (`Partitions.RootReads`).
- A hooked read looks for a region only at its first LBA. Running from one region, or from the bare disk, into
  another region it skips that region and reads the disk (`DiskBio.ReadsCompositeIff`,
  `DiskBio.SkipsRegionExample`).
- The HIGH relocation adds only the upper half of the delta and drops the carry from the lower half, so two
  moves add up exactly when there is no carry (`Relocation.RelocateTwice`).

## Model

| member | source | states |
|---|---|---|
| `CacheBlkdev.PushLinked` | lsvmutils/cacheblkdev.c:89-114 | linking a new node in front of its slot's chain keeps every chain null-terminated (acyclic), slot-consistent and free of duplicate block numbers, and the chains together hold exactly the cached blocks |
| `CacheBlkdev.CacheBlkdev.constructor` | lsvmutils/cacheblkdev.c:285-304 | a new device caches nothing, has caching off, and shows its child |
| `CacheBlkdev.CacheBlkdev.Find` | lsvmutils/cacheblkdev.c:73-87 | the chain walk finds the node of a block if and only if the block is cached |
| `CacheBlkdev.CacheBlkdev.Insert` | lsvmutils/cacheblkdev.c:89-114 | inserting an uncached block adds exactly that block and keeps the device invariant; out of memory changes nothing |
| `CacheBlkdev.CacheBlkdev.GetN` | lsvmutils/cacheblkdev.c:145-212 | every outcome of a read is a `GetStep`: the overlay never changes, a success returns the overlay and asks the child exactly the miss runs, a failure a non-empty prefix of them; with caching on the whole range ends up cached, with caching off the cache is untouched; the read succeeds if and only if every child call and every allocation it made did, and with caching off it allocates nothing |
| `CacheBlkdev.CacheBlkdev.PutN` | lsvmutils/cacheblkdev.c:214-260 | every outcome of a write is a `PutStep`: caching on writes only the cache (a failure stops at a block that was not cached, with all blocks before it written), caching off only the child; it succeeds if and only if every allocation, or the one child call, did |
| `CacheBlkdev.CacheBlkdev.SetFlags` | lsvmutils/cacheblkdev.c:262-283 | unknown flags are refused without effect; otherwise only the flag changes |
| `CacheBlkdev.CacheBlkdev.ReleaseCache` | lsvmutils/cacheblkdev.c:55-71 | the nodes freed are those of all chains in order |
| `CacheBlkdev.NodesOnce` | lsvmutils/cacheblkdev.c:55-71 | that list holds the node of every cached block and no node twice, so nothing is freed twice or leaked |
| `CacheSpec.MissRunsMaximal` | lsvmutils/cacheblkdev.c:160-206 | a read asks the child only for uncached blocks of the request, in runs that cannot be extended, in ascending order with a cached gap between runs |
| `CacheSpec.MissRunsComplete` | lsvmutils/cacheblkdev.c:160-206 | every uncached block of the request is asked for |
| `CacheSpec.CachedStep` | lsvmutils/cacheblkdev.c:145-260 | with caching on, one operation of the cache device is one operation of a flat disk holding the overlay, and writes no child block |
| `CacheSpec.CachedRunIsFlatDisk` | lsvmutils/cacheblkdev.c:145-283 | over every run that keeps caching on, the device is indistinguishable from a flat disk that starts as the overlay; the child never changes and is never written |
| `CacheSpec.UncachedRunIsChild` | lsvmutils/cacheblkdev.c:193-283 | before caching is first enabled nothing is ever cached: overlay and child agree, a read, failed or not, is one child read of the whole request, a write one child write |
| `CacheSpec.UncachedPut` | lsvmutils/cacheblkdev.c:247-254 | with caching off, a write changes the overlay precisely on the uncached blocks it covers |
| `CacheSpec.StaleReadBack` | lsvmutils/cacheblkdev.c:167-254 | for every cached block in the range there is a write with caching off that is not read back |
| `CacheSpec.ReadYourWritesIff` | lsvmutils/cacheblkdev.c:167-254 | with caching off, all writes to a range are read back if and only if no block of it is cached |
| `CacheSpec.RepeatReadIsLocal` | lsvmutils/cacheblkdev.c:160-206 | after a successful read with caching on, the same read succeeds, makes no child call and returns the same bytes whatever the child holds, while the cached copies of its range stay |
| `CacheSpec.NeverAskedAgain` | lsvmutils/cacheblkdev.c:160-206 | in every run, whatever happens to the flag, a read inside a range once read with caching on succeeds without a child call |
| `CacheSpec.SameBytesAgain` | lsvmutils/cacheblkdev.c:160-260 | in every run, such a read returns the bytes it returned then, unless a write with caching on covered one of its blocks in between |
| `ByteAccess.BlkdevRead` | lsvmutils/blkdev.c:35-88 | a successful read of any size returns exactly that slice of the device's bytes; the view never changes; it succeeds if and only if every call below it did |
| `ByteAccess.BlkdevWrite` | lsvmutils/blkdev.c:90-146 | a successful write replaces exactly the written bytes of the view (where writes show at all); a failed one changes no block outside the range and comes from a failed call; with caching on the child is untouched |
| `ByteAccess.SplicedBytes` | lsvmutils/blkdev.c:105-142 | byte by byte: inside the written range the written byte, everywhere else, tail of the last block included, the old one |
| `ByteAccess.SplicedReadsBack` | lsvmutils/blkdev.c:35-146 | reading what was just written yields it, for every size |
| `BootBio.ReadBlocks` | lsvmload/bootbio.c:60-100 | a request of any size through the boot region's protocol returns that slice of the device's bytes; one block is the block of the device's view |
| `BootBio.WriteBlocks` | lsvmload/bootbio.c:102-122 | a request of any size replaces exactly its bytes of the view, and with caching on leaves the partition underneath alone |
| `BootBio.WrapBootBIO` | lsvmload/bootbio.c:227-294 | the pseudo partition is chosen, entered in the table and added as a region if and only if a partition was visited, memory and protocols were available and a region was free; its blocks then read as the boot device's, counted from its first LBA; if the visited partitions are coherent and no sum overflows the region lies behind all of them with an unused number; no read that starts behind the table and below it changes |
| `BootTrace.ChildWriteInWindow` | lsvmload/dbxupdate.c:201-220 | in a disciplined trace every child write after caching was enabled lies behind a lowering of the flag inside one run of ApplyDBXUpdate and, in a trace that does not end with the flag down, before the raising that precedes its return |
| `BootTrace.WindowCloses` | lsvmload/dbxupdate.c:201-220 | a flag that is down at some point and not down at the end is raised in between, before ApplyDBXUpdate returns |
| `BootTrace.DbxLeavesCachingOn` | lsvmload/dbxupdate.c:201-231 | every return from ApplyDBXUpdate happens with caching enabled |
| `BootTrace.DirtyMeans` | lsvmload/main.c:329-333 | the history calls a trace dirty exactly when the child was written after caching was enabled |
| `BootTrace.FlagMeans` | lsvmutils/cacheblkdev.c:262-283 | the flag's value in the history is that of the last flag change in the trace |
| `BootTrace.StepsMean` | lsvmload/main.c:191-429 | the steps of a history are the trace's events other than device traffic, in the trace's order |
| `Boot.MeasureLinuxScenario` | lsvmload/measure.c:532-580 | PCR 11 receives a prefix of the three scenario values, given byte by byte, in order; success means all three and comes if and only if every TPM call succeeded |
| `Boot.CapPCR` | lsvmload/keys.c:285-336 | success means exactly one cap that changed the register, and comes if and only if all calls succeeded and it did |
| `Boot.FsOps` | lsvmload/bootfs.c:113-247 | any finite sequence of block operations keeps the device valid and writes the child only with caching off |
| `Boot.Loader.OpenBootFS` | lsvmload/bootfs.c:48-144 | opening stacks a cache device at most once, with caching off, and leaves no trace but its own event |
| `Boot.Loader.ApplyDBXUpdate` | lsvmload/dbxupdate.c:80-231 | every return leaves caching on; its steps are the entry, the window if the update file was removed, and the return; unless it was removed, the boot partition was not written |
| `Boot.Loader.MeasureAndUnseal` | lsvmload/main.c:191-213 | UnsealKeys runs once, after the third value and before the cap, and attempts at most one unseal; success means PCR 11 is the start value extended by the three values and then the cap, which changed it |
| `Boot.Loader.UnlockBootPartition` | lsvmload/main.c:217-321 | the unsealed key is tried if there is one, else or after it fails a passphrase is asked for one to three times; without a mount all three were used or memory ran out |
| `Boot.Loader.UpdateAndPatch` | lsvmload/main.c:335-377 | with a TPM the DBX update runs first; the initrd is patched if and only if no step before it failed; a run that goes on without a returned reset has not written the boot partition |
| `Boot.Loader.BootFrom` | lsvmload/main.c:329-429 | from the mounted partition on: caching is enabled, with a valid unsealed key the update and the patch come before the start of the shim, and without a returned reset the partition is as it was when caching was enabled |
| `Boot.Loader.EfiMain` | lsvmload/main.c:87-435 | every run, wherever it stops, has a disciplined trace and ends outside ApplyDBXUpdate with the flag not down, and PCR 11 saw a legal sequence; the shim is started if and only if no step that can stop the boot failed, and then the run went through exactly the listed steps in order: measure, unseal, cap, open, enable caching, DBX update, patch, start; with a TPM PCR 11 holds its start value extended by the three values and the cap; the status is 0 exactly when a reset was asked for and not granted; unless the reset call returned, a started run has left the boot partition as it was when caching was enabled |
| `LittleEndian.ValEnc` | lsvmload/image.c:319-346 | storing a word keeps its value modulo the word size |
| `LittleEndian.EncVal` | lsvmload/image.c:319-346 | storing a loaded word restores its bytes |
| `LittleEndian.ValConcat` | lsvmload/image.c:319-346 | the lowest byte comes first: a word behind another counts by the size of the first |
| `Relocation.Target` | lsvmload/image.c:299-352 | each target of disjoint fixups receives its old word plus its slice of the delta modulo 2^16, 2^32 or 2^64 |
| `Relocation.Untouched` | lsvmload/image.c:299-352 | no other byte changes |
| `Relocation.OrderIndependent` | lsvmload/image.c:279-355 | two lists of the same disjoint fixups give the same image, so entry and block order do not matter |
| `Relocation.RelocateTwice` | lsvmload/image.c:306-351 | relocating by d1 and then by d2 is relocating by their sum modulo 2^64 if and only if there is no HIGH entry or the low 16 bits add without carry |
| `Relocation.MoveBack` | lsvmload/image.c:306-351 | moving away and back restores every byte if and only if there is no HIGH entry or the distance is 64 KiB aligned |
| `ImageLoader.FixupWord` | lsvmload/image.c:302-351 | one entry, kind by kind in numbers: which tags are supported, which bounds apply, what is added to a 16-, 32- or 64-bit word modulo its size; no other byte changes |
| `ImageLoader.BlockEntry` | lsvmload/image.c:299-305 | entry k of a block is the 16-bit word at offset 2k, its low 12 bits the address, its high 4 bits the tag |
| `ImageLoader.WalkedBlock` | lsvmload/image.c:279-355 | a block that is not refused: page address and size from its first eight bytes, its entries from offset 8 on, then the next block |
| `ImageLoader.RefusedBlock` | lsvmload/image.c:288-295 | a block that is refused, and with which status |
| `ImageLoader.FirstBlockOf` | lsvmload/image.c:262-285 | the region of a section starts at its raw data in the file |
| `ImageLoader.PatchBlock` | lsvmload/image.c:299-352 | the entries of a block are applied in order up to the first that cannot be |
| `ImageLoader.ApplyRelocations` | lsvmload/image.c:244-361 | the walk terminates; the new image is the old one with a prefix of the planned fixups applied, and the status says where it stopped |
| `ImageLoader.RelocationSucceeds` | lsvmload/image.c:279-357 | success if and only if the plan ends well and every fixup applies, and then all were applied |
| `ImageLoader.RelocationsAgree` | lsvmload/image.c:279-357 | two successful walks over regions that hold the same disjoint fixups, in any blocks and any order, give the same image |
| `ImageLoader.LayOutSections` | lsvmload/image.c:411-467 | the loop finishes if and only if all bounds hold and no second relocation section follows the matching one; then the buffer holds all sections in order and the matching section was found; otherwise the status is success exactly when the second relocation section comes before any failed check |
| `ImageLoader.GetHeaders` | lsvmload/image.c:90-242 | the header checks on the fields the loader uses pass exactly when all of them agree with the size of the file |
| `ImageLoader.LayoutOfHeaders` | lsvmload/image.c:397-399 | with sections disjoint and above the headers, the headers stand at 0 |
| `ImageLoader.LayoutOfSection` | lsvmload/image.c:414-455 | each loaded section's first min(VirtualSize, SizeOfRawData) file bytes stand at its address, inside SizeOfImage |
| `ImageLoader.LayoutElsewhere` | lsvmload/image.c:392-466 | every other byte is zero |
| `ImageLoader.FixupImage` | lsvmload/image.c:367-512 | the entry point is set if and only if there is memory, every check passes, there is a relocation directory and every relocation applies; then the image is the layout, relocated by the new minus the linked base for a .reloc section at the directory's address and of its size, and not relocated if there is none; success is reported without it exactly in the cases of `SucceedsUnset` |
| `ImageLoader.Exec` | lsvmload/image.c:514-566 | control goes to the entry point inside the image exactly when the loader sets it, to a null entry point exactly in the cases of `SucceedsUnset`, else nowhere |
| `ImageLoader.SucceedsUnsetExamples` | lsvmload/image.c:421-471 | such headers, for any image of their size: without a relocation directory, and with two .reloc sections |
| `ImageLoader.LayoutBytes` | lsvmload/image.c:388-467 | an image loaded without relocation, byte by byte: file headers, file bytes of the sections, zeros elsewhere |
| `ImageLoader.LoadedBytes` | lsvmload/image.c:299-467 | a loaded image with well-placed sections and disjoint fixups, byte by byte: file headers, file bytes of the sections and zeros wherever no fixup reaches, and in each word a fixup reaches that word plus its slice of the delta, kind by kind in numbers |
| `DiskBio.RootDisk.FindRegion` | lsvmload/diskbio.c:195-209 | the first region that holds the LBA |
| `DiskBio.RootDisk.Nested` | lsvmload/diskbio.c:233-240 | any hooked read or write that a region's device makes while a hook runs goes to the saved function: no region changes, the hook flag stays down, and the recursion ends at this level |
| `DiskBio.RootDisk.ReadHook` | lsvmload/diskbio.c:224-323 | a successful read returns the region's blocks up to its last LBA and then the disk; one that starts in no region, or with hooks off, the disk; it succeeds if and only if every device call it made did, so always inside a memory region; regions and hook flag are as before on every exit, and so is the disk unless a region's device wrote to it |
| `DiskBio.RegionDelivers` | lsvmload/diskbio.c:256-291 | which block: the store's block counted from the first LBA of the first region that holds the request's start, zeros beyond what memory backs |
| `DiskBio.DiskDelivers` | lsvmload/diskbio.c:302-316 | behind that region, or when no region holds the start, the disk |
| `DiskBio.ReadsComposite` | lsvmload/diskbio.c:195-316 | a read each of whose blocks comes from the first region that holds it, or from the disk where none does, equals the composite disk with first-match priority |
| `DiskBio.ReadsCompositeIff` | lsvmload/diskbio.c:195-316 | with regions that do not overlap, a read equals the composite for every disk if and only if it runs into no region other than the one it starts in |
| `DiskBio.SkipsRegion` | lsvmload/diskbio.c:302-316 | for every request that runs into a region behind the one it starts in, or from the bare disk, a disk on which it does not read the composite |
| `DiskBio.SkipsRegionExample` | lsvmload/diskbio.c:302-316 | one region and a request of two blocks that skips it |
| `DiskBio.RootDisk.WriteInRegion` | lsvmload/diskbio.c:360-408 | the blocks of the request, the last one zero-padded, replace the region's blocks; unbacked ones are dropped |
| `DiskBio.RootDisk.WriteHook` | lsvmload/diskbio.c:325-434 | a write changes only the region found and the disk behind it (beyond what a region's own device wrote); a read-only region refuses with no effect; otherwise it fails if and only if a device call it made did; with hooks off only the disk is written; the hook flag is restored |
| `DiskBio.DeviceWritten` | lsvmload/diskbio.c:360-398 | the device of the region then holds the written blocks, padded, from its own block lba - firstLBA on, and all others as before |
| `DiskBio.WrittenBlocks` | lsvmload/diskbio.c:399-407 | a written region delivers the written blocks where backed, zeros where not, and all others as before |
| `DiskBio.HookedRoundTrip` | lsvmload/diskbio.c:256-427 | a successful write that starts in a writable region, of any length, reads back block by block: the written block, its missing rest as zeros, inside the region where it is backed and behind the region's end from the disk, and zeros where the region is not backed; other regions, and every disk block except those of the request behind the region, are unchanged |
| `DiskBio.AppendRegion` | lsvmload/diskbio.c:158-209 | an added region changes no read that starts below it |
| `Partitions.TableOfBlocks` | lsvmload/diskbio.c:52-60 | read into the union, the first 34 blocks of the disk appear as its MBR, header and entries, and as the region's blocks |
| `Partitions.InstallRootBIO` | lsvmload/diskbio.c:536-568 | on success the only region is the table, holding the disk's first 34 blocks, zeros up to block 63, and a last usable LBA of at least 63 |
| `Partitions.RootReads` | lsvmload/diskbio.c:536-566 | a read of the hooked disk equals one of the bare disk if and only if the table blocks it covers are zero on the disk from LBA 34 to 63, and the header, if covered, reaches LBA 63 |
| `Partitions.RootReadsExample` | lsvmload/diskbio.c:536-566 | on every disk whose block 34 holds a given non-zero block, hooking changes what that block reads as |
| `Partitions.Gpt.GetGPTEntry` | lsvmload/diskbio.c:62-96 | an entry is found if and only if its number is within the used prefix |
| `Partitions.Gpt.AddPartition` | lsvmload/diskbio.c:100-140 | the first free slot behind the first receives the new entry and the last usable LBA becomes the maximum, in the table and so in the region; a full table stays as it is |
| `Partitions.NewEntryFields` | lsvmload/diskbio.c:115-126 | the new entry byte by byte: type and attributes of its predecessor, the given GUID, range and terminated name; it is in use exactly when its predecessor is |
| `Partitions.GrownBytes` | lsvmload/diskbio.c:128-132 | the last usable LBA is the 64-bit word at offset 48 of the header, and nothing else of the header changes |
| `Partitions.UsedBytes` | lsvmload/diskbio.c:113 | an entry is in use exactly when one of its first eight bytes is not zero |
| `Partitions.AddKeepsDense` | lsvmload/diskbio.c:108-137 | the used entries stay a dense prefix, one longer and with earlier entries unchanged, if and only if there was a partition and a free slot; the new entry takes its type from the last used one |
| `Partitions.AddFailsExamples` | lsvmload/diskbio.c:108-137 | an empty table and a full one that adding a partition does not extend |
| `Partitions.Gpt.AddRegion` | lsvmload/diskbio.c:158-193 | accepted if and only if fewer than eight regions and exactly one backing; appended at the end; the last usable LBA becomes the maximum, in the table and so in region 0 |
| `Partitions.Gpt.InstallBoot` | lsvmload/bootbio.c:275-294 | the edited table, shown by region 0, and the new region at the end; every read that starts below it is as before if and only if it covers no table block that changed |
| `Partitions.TablesReadAlike` | lsvmload/diskbio.c:256-316 | with two different tables in region 0 a read returns the same exactly when they agree on the table blocks it covers |
| `Partitions.ChangesIs` | lsvmload/diskbio.c:122-131 | installing changes exactly the header block, if the disk grows, and the block of the entry filled in, if that entry differs |
| `Partitions.InstallReads` | lsvmload/bootbio.c:275-294 | the condition of `InstallBoot`, over all tables, regions, disks and requests |
| `Partitions.NewEntryShows` | lsvmload/diskbio.c:108-126 | in a table with a partition and a free slot the block of the new entry always reads differently |
| `Partitions.InstallShowsExample` | lsvmload/bootbio.c:275-294 | a table, a partition and a read far below it that changes |
| `DevPath.NodesTile` | lsvmload/devpath.c:38-65 | the nodes of a path tile it: its length is the sum of all node lengths, End node included |
| `DevPath.DevPathLength` | lsvmload/devpath.c:38-46 | the walk terminates with that length |
| `DevPath.DevPathClone` | lsvmload/devpath.c:67-77 | the clone has the same node sequence and nothing behind its End node |
| `DevPath.RewrittenNodes` | lsvmload/devpath.c:245-254 | overwriting hard-drive nodes in place keeps every node boundary and every other node |
| `DevPath.OverwriteHardDrives` | lsvmload/devpath.c:245-254 | the loop does exactly that |
| `DevPath.SearchPath` | lsvmload/devpath.c:186-229 | one path contributes its hard-drive nodes up to a SCSI node of another disk, and the maxima are kept |
| `DevPath.FirstVisitedIs` | lsvmload/devpath.c:206-214 | the node the pseudo partition is made from is the first hard-drive node visited |
| `DevPath.NodeKinds` | lsvmload/devpath.c:48-102 | which header bytes make an End, a hard-drive and a SCSI node |
| `DevPath.OtherDiskBytes` | lsvmload/devpath.c:191-201 | a SCSI node belongs to another disk unless its target and unit number, two bytes each, are zero |
| `DevPath.PartitionBytes` | lsvmload/devpath.h:55-67 | number, first sector and size are the words at offsets 4, 8 and 16 of a hard-drive node |
| `DevPath.PseudoNodeBytes` | lsvmload/devpath.c:234-243 | the pseudo partition's node differs from the one it is made from in exactly number, sectors and signature |
| `DevPath.VisitedIs` | lsvmload/devpath.c:186-204 | the search visits exactly the hard-drive nodes before the first SCSI node of another disk |
| `DevPath.CreatePseudoPartition` | lsvmload/devpath.c:162-268 | it is placed if and only if a hard-drive node was visited and memory sufficed; it starts behind the visited partition that starts last, has the number after the highest, both in the fields' widths, and its path is the first visited one with its hard-drive nodes replaced |
| `DevPath.PseudoIsNew` | lsvmload/devpath.c:218-260 | if the visited partitions are non-empty and disjoint or equal and no sum overflows, its number is unused and its sectors, first to last, lie behind all of them |
| `Buf.AppendsAreAmortised` | lsvmutils/buf.c:80-146 | over any sequence of appends the size is the total, the capacity a multiple of 1024 below twice the size plus 1024, and Realloc moved no more in all than the final capacity |
| `Buf.RunHoldsConcatenation` | lsvmutils/buf.c:80-146 | over any run of appends, failed ones included, the buffer holds the concatenation of the data taken, with those bounds throughout |
| `Buf.Buf.Reserve` | lsvmutils/buf.c:80-112 | contents are kept, the capacity suffices, and a failure, which comes from a failed allocation, changes nothing |
| `Buf.Buf.Append` | lsvmutils/buf.c:114-146 | the buffer holds the old contents followed by the new data, with the sizes of the abstract append; a failure changes nothing and happens only when the capacity does not suffice |
| `Buf.ElementBuf.Append` | lsvmutils/buf.c:167-236 | the typed views append the same bytes and convert size and capacity without loss; they fail only when the capacity does not suffice |
| `ParentDirs.Contains` | lsvmload/efivfat.c:50-67 | true if and only if the value is in the list |
| `ParentDirs.MakeParents` | lsvmload/efivfat.c:117-151 | the loop succeeds if and only if every Mkdir call does; then the directories made are the cut paths not in the skip list, in order, and the buffer is as it was; otherwise a prefix of them was tried and the last call failed |
| `ParentDirs.CutsAreAncestors` | lsvmload/efivfat.c:117-151 | for an absolute path without empty components the cut paths are its ancestors and itself, shortest first and each once |
| `ParentDirs.MadeAre` | lsvmload/efivfat.c:117-151 | for such a path the directories made are exactly its ancestors and itself that are not in the skip list, shortest first and each once |

## Left out

- Caller-owned transfer buffers of the block devices and hooks are passed as values: what a failed read leaves in the caller's memory is not modelled. The image buffer, the partition table, cloned device paths, the growable buffer and the path buffer are updated in place.
- Null-pointer checks, and 64-bit wrap-around of block numbers, LBAs, buffer sizes and path lengths: these are unbounded numbers. The relocation arithmetic and the pseudo partition's fields have their exact widths.
- EXT2, LUKS, VFAT, CPIO, cryptography and TPM command encoding: arbitrary block operations or free answers; PCR 11 is the SHA-256 bank under an arbitrary extend function.
- The one-request read cache of lsvmutils/efiblkdev.c: the child of the cache device is any device that meets the block contract.
- Parsing the raw DOS and NT headers in `_GetHeaders`: the fields are inputs, and its checks on the fields used are `ImageLoader.Accepted`; the new image base that `_ApplyRelocations` stores into the source image's header is not modelled.
- ImageLoader.ApplyRelocations: requires that the block headers and the blocks that are not refused lie in the file and have even sizes, because reading past the file has no defined result.
- DevPath.CreatePseudoPartition: requires well-formed paths, because a node shorter than its header has no defined successor.
- DiskBio.RootDisk.ReadHook: region back ends are separate objects (a region's device may still read and write the hooked disk while a hook runs), and a region never claims more memory than it has.
- Partitions.InstallRootBIO: it is modelled for the first call, before any region exists; when the table's last usable LBA is below 63 the source also stores to the media record through a pointer it sets only later, which has no defined result.
- Partitions.Gpt.AddPartition: requires a name that fits the entry's 36 characters, as the only caller's does; a longer one would be copied past the entry.
- Protocol lookup and installation, console, logging, progress output, configuration files and the ESP file wrapper: input, output and user interface.
- CacheBlkdevStats, BufRelease, BufClear and the backslash conversion in `_AddCwdGrubcfg`: they would only add easy members.
