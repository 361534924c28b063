# Verified model of a small 64-bit kernel

A Dafny model of the kernel's memory manager, of what is built on its frames, and of two
libraries beside them, with proofs of what they promise.

- **Memory manager.** A bitmap of frames with a "lowest available" hint, four-level page
  tables kept in those same frames, `mmu_clone` and `mmu_free` over whole directories, and the
  per-frame counts a write fault consumes. `Mmus.Mmu` works on arrays as the C code does. Each of
  its operations is tied to a step of a machine on values, and the machine refines one in which a
  fork copies every page at once. The invariant that links `writable`, `cow`, the counts and the
  bitmap is `Machines.Core`. Page tables follow section 4.5 of the Intel 64 Software Developer's
  Manual, Volume 3A, and access rights section 4.6: `Reach.Processor` is the walk for user mode.
- **Clients of the bitmap.** The page-run heap and the in-memory filesystem, whose block tables
  refine byte arrays and whose directories form a tree of distinct names. The filesystem takes
  frames for blocks itself and has its structures, names and tables in the heap. `Clients` puts all
  three over one bitmap and one memory, and `SystemRuns` lets their operations come in any order.
- **Boot files.** The host tool that writes the image with records patched in afterwards, the
  kernel's reader, `copy_directory`, and path lookup in the result.
- **Smaller structures.** The ring buffer, libc's `FILE`, `itoa` and `atoi` with the pty directory.

Where the code and its likely intent part, the code is modelled, the exact condition is proved,
and a lemma shows what goes wrong otherwise:

- mapping over a page that a fork shares (`Mappings.AllocatedExactly`; a store through either slot
  then shows in the other address space, `Refinement.RemapLeaks`). Shrinking the break, forking
  and growing it again takes `sbrk` there;
- mapping over a kernel page, which a break shrunk far enough reaches (`Mappings.AllocatedExactly`,
  `Mmus.Mmu.MapPage`, `Mappings.KernelPageShown`);
- mapping a user page read-only (`Faults.MapKeepsCountsExactly`, `Mappings.ReadOnlyLost`);
- validating a range that wraps around (`Faults.ValidatedCovers`, `Faults.WrappedRangePasses`);
- dots at the end of a host listing (`ImageReadback.RootReadsBack`, `ImageReadback.DotAfterFile`);
- doubled slashes (`Paths.CreatedFound`, `Paths.DoubledSlashLost`);
- a pushed-back NUL (`Stdio.File.Ungetc`, `Stdio.NulLost`);
- `fread` and `fwrite` of items of 2 GiB and more (`Stdio.JudgedRightly`,
  `Stdio.ShortCountsAsWhole`, `Stdio.SentRightly`, `Stdio.NotSent`);
- a `malloc` without a free run (`Heaps.Heap.Malloc`, `Heaps.MallocLost`);
- the table of an unlinked file, which is not freed (`Tmpfs.Filesystem.Unlink`,
  `TmpfsEntries.RemovedAll`).

Layout: `FramePool`, `FreeSpace` and `BitWords` hold the bitmap; `PageTables`, `CopyOnWrite`, `Machines`,
`Boots`, `Steps`, `Slots`, `Forks`, `Clones`, `Frees`, `Faults`, `Mappings` and `Others` the machine
and its steps, with the bits of the words between tables in `Access`; `Mmus` the class; `Eager`,
`Refinement`, `Translations` and `Reach` the theorems about it.
`Ramdisk*`, `ImageReadback`, `CopiedTrees`, `CopyCosts`, `CopyDirectory` and `BootPaths` are the
boot pipeline, `Tmpfs*` the filesystem, `Paths` and `VirtualFiles` path lookup, `Heap*` the heap, `Clients` and
`SystemRuns` the three clients together, `RingBuffers`, `Stdio`, `Numerals` and `Ptys` the rest.
`*Ops` hold a client's operations as a relation on its states. A method of the filesystem amounts
to steps of the heap and then one step of its own (`TmpfsOps.FilesDone`). Methods that allocate
answer with `ok`: without it a request has failed, whose answer the code uses unchecked. None fails
while the longest free run is as long as all the pages requested.

`dafny verify dfyconfig.toml` checks everything.

## Model

| member | source | states |
|---|---|---|
| Refinement.RunRefinesEager | kernel/cpu/mmu.c:326-577 | Over every run of clone, map, store with fault, fault and free, with steps of the bitmap's other clients anywhere between, each address space reads exactly what it would if every clone had copied each user page at once. |
| Refinement.RunIsolates | kernel/cpu/mmu.c:326-577 | A page of an address space nobody acts in keeps its presence and contents over every such run, however much of it is shared. |
| Refinement.StepRefines | kernel/cpu/mmu.c:326-577 | Each lazy step is one eager step on what processes can read; a fault is no step at all. |
| Refinement.OthersCannotChangeIt | kernel/cpu/mmu.c:545-577 | In the eager machine no sequence of other spaces' operations changes a space's pages. |
| Refinement.FreeReleases | kernel/cpu/mmu.c:360-408 | mmu_free unlocks a frame exactly when it held a table of the directory or a user page no other directory maps; it locks nothing. |
| Refinement.ForkThenExit | kernel/cpu/mmu.c:377-467 | Freeing a fresh clone restores exactly the earlier locked frames and page tables, and every space reads as before. |
| Refinement.ForkShares | kernel/cpu/mmu.c:326-358 | After a fork both ends of a user leaf hold one word: the same frame, copy-on-write. |
| Refinement.RemapLeaks | kernel/cpu/mmu.c:211-226 | If mmu_allocate_frame_ex then maps over either end's slot, a store through it shows in the other address space. |
| Reach.ProcessorExactly | kernel/cpu/mmu.c:511-543 | User-mode loads and stores reach exactly the page recorded for the slot, if its leaf word and the words that link the three tables above it all allow it. |
| Reach.ProcessorReaches | kernel/cpu/mmu.c:257-289 | In a directory whose tables are all linked by open words, the leaf word alone decides. |
| Reach.ForkOpens | kernel/cpu/mmu.c:410-467 | All tables of a fork's child are linked by open words, which leave access to the leaf words. |
| Reach.NextKeepsAccess | kernel/cpu/mmu.c:211-577 | No operation changes the words that link tables, and new tables get open ones. |
| Reach.RunKeepsOpened | kernel/cpu/mmu.c:211-577 | From its fork on, over any run, a directory has tables linked by open words only. |
| Reach.ForkedProcessReaches | kernel/cpu/mmu.c:326-577 | After a fork and any run, other clients' steps included, what the child's loads and stores reach is what its leaf words say. |
| Reach.ForkKeepsKind | kernel/cpu/mmu.c:326-358 | A fork changes nothing in a leaf word but writable and cow, the same way at both ends, and only for a writable user page. |
| Reach.FaultKeepsKind | kernel/cpu/mmu.c:545-577 | A write fault changes writable, cow and perhaps the frame of the faulting word, and no other word. |
| Reach.MappingSetsBits | kernel/cpu/mmu.c:211-226 | A mapping sets every bit its flags are about, as they say, and leaves the others alone. |
| Eager.ForkIsCopy | kernel/cpu/mmu.c:326-358 | A tree of shared leaves shows every process the same bytes as a copy of every page. |
| Eager.FaultUnseen | kernel/cpu/mmu.c:545-577 | Breaking the sharing of a page, by copy or by taking it over, changes nobody's view. |
| Eager.StoreSeen | kernel/cpu/mmu.c:545-577 | A store to a writable user page shows at its own slot and at no other. |
| Eager.MapSeen | kernel/cpu/mmu.c:211-226 | Mapping adds one page to one space, and to no other. |
| Eager.FreeIsExit | kernel/cpu/mmu.c:377-408 | Freeing a directory removes its pages and leaves all other spaces' contents. |
| Others.OthersKeepGood | kernel/cpu/mmu.c:141-209 | Whatever other clients lock, release and write outside the manager's frames, its whole invariant holds again. |
| Others.OthersUnseen | kernel/cpu/mmu.c:141-209 | No such step changes what a process reads. |
| SystemRuns.SystemRefines | kernel/cpu/mmu.c:326-577 | Over every run in which memory-manager, filesystem and heap operations come in any order, each locked frame has exactly one owner, each address space reads what eager copying would give it, and a file or heap block nobody touches keeps its bytes. |
| SystemRuns.RunConsistent | kernel/cpu/mmu.c:141-209 | Every state of such a run meets the invariants of all three clients at once. |
| SystemRuns.RunProjects | kernel/cpu/mmu.c:141-209 | The run of the system is a run of each client, in which the others' steps are steps elsewhere. |
| SystemRuns.MallocBeside | kernel/lib/alloc.c:161-183 | Two of the classes on one bitmap: after any malloc, a failed one included, the memory manager is valid again and no view has changed. |
| SystemRuns.CreateBeside | kernel/sys/fs/tmpfs.c:378-402 | All three on one bitmap: after a create, with the heap's pages it takes, each of them is valid, their frames are apart and no view has changed. |
| SystemRuns.CloneBeside | kernel/cpu/mmu.c:410-467 | All three on one bitmap: after a fork each of them is valid, their frames are apart, and files are as before. |
| Clients.StepKeepsConsistent | kernel/cpu/mmu.c:141-209 | One client's step leaves all three consistent; the two that do not act see the same pages, files or blocks as before. |
| Clients.BystandersSame | kernel/cpu/mmu.c:141-209 | Locked frames of those who do not act hold what they held. |
| Clients.MmuAlone | kernel/cpu/mmu.c:326-577 | Every memory-manager operation locks and releases frames of its own tables and user pages only. |
| Clients.NextKeepsMemory | kernel/cpu/mmu.c:326-577 | Of the frames that were locked, every memory-manager operation writes its own only. |
| Clients.FilesAlone | kernel/sys/fs/tmpfs.c:97-247 | Every step of the filesystem itself locks and releases block frames only; the pages of its structures, names and tables are malloc's, and so steps of the heap. |
| Clients.HeapAlone | kernel/lib/alloc.c:161-230 | Every heap operation locks and releases frames of heap blocks only. |
| CopyOnWrite.CountMeaning | kernel/cpu/mmu.c:301-366 | Count 0: at most one live leaf maps the frame, writable and not cow. Count k above 0: exactly k leaves map it, all cow and read-only. |
| CopyOnWrite.CopyLeafKeepsCounts | kernel/cpu/mmu.c:326-358 | Sharing a leaf keeps the counts true; a writable leaf always has count 0, so the early return that would drop the page is never taken. |
| CopyOnWrite.DropLeafKeepsCounts | kernel/cpu/mmu.c:314-366 | Dropping a leaf keeps the counts true, and releases the frame exactly when it was the last. |
| CopyOnWrite.MapKeepsCounts | kernel/cpu/mmu.c:211-226 | A fresh writable page keeps the counts true. |
| CopyOnWrite.FaultKeepsCounts | kernel/cpu/mmu.c:545-577 | A write fault keeps the counts true, for the last sharer and for earlier ones. |
| Faults.RemapKeepsCounts | kernel/cpu/mmu.c:211-226 | Mapping over a page that is in use keeps the counts true if and only if that page is not copy-on-write. |
| Faults.MapKeepsCountsExactly | kernel/cpu/mmu.c:211-226 | Mapping a fresh user page keeps the counts true if and only if it is mapped writable. |
| Mappings.AllocatedExactly | kernel/cpu/mmu.c:211-226 | For all flags and slots, what mmu_allocate_frame_ex leaves behind meets the invariant if and only if a fresh page is writable or the kernel's, a private page stays writable, a shared one stays read-only and the user's, and a kernel page stays the kernel's. |
| Mappings.KernelPageShown | kernel/cpu/mmu.c:211-226 | User flags on a kernel page: the process reads that reserved frame and a store changes it; giving the page up unlocks the frame. |
| Mappings.ReadOnlyLost | kernel/cpu/mmu.c:314-366 | A user page mapped read-only, shared by a fork and given up by the child: its frame is unlocked while the parent still maps it. |
| PageTables.WalkIsLookup | kernel/cpu/mmu.c:511-543 | In the lower half of a live directory, following table words in memory finds exactly the table recorded for that path, or nothing where none is. |
| PageTables.RecombineSplits | kernel/cpu/mmu.c:392-450 | The address put together from four indices splits into those indices again. |
| PageTables.SplitRecombines | kernel/cpu/mmu.c:244-249 | The indices of an address put together give its page. |
| PageTables.SlotsAreDistinct | kernel/cpu/mmu.c:511-543 | Two addresses reach the same leaf slot exactly when they lie on the same page. |
| Translations.TranslationIsFlat | kernel/cpu/mmu.c:511-543 | The four-level walk is a flat map from page numbers to leaf words. |
| Translations.MakingTranslatesAlike | kernel/cpu/mmu.c:243-299 | Making the tables on a path changes no translation of any directory. |
| Translations.CloneTranslates | kernel/cpu/mmu.c:410-467 | After a clone, every lower-half page number translates in child and source to the source's old word, writable user pages now copy-on-write, other leaves word for word; any further directory's translations stay. |
| Translations.CloneIsFresh | kernel/cpu/mmu.c:414-446 | The child has a table for each of the source's, each in a frame of its own that was free, no two in one frame; the upper half of its root is the source's. |
| Clones.SubtreeCloned | kernel/cpu/mmu.c:427-440 | A new table with a finished copy of everything below it is a finished copy of the subtree. |
| Forks.ClonedTwice | kernel/cpu/mmu.c:421-463 | Copies of disjoint parts of a directory, one after the other, are a copy of both. |
| Mmus.Mmu.constructor | kernel/cpu/mmu.c:49-139 | Any consistent state that boot leaves behind is a valid start. |
| Mmus.Mmu.Resume | kernel/cpu/mmu.c:141-209 | After other clients have acted, the manager is valid with what they left, and views are as before. |
| Mmus.Mmu.SetDirectory | kernel/cpu/mmu.c:368-375 | Every live directory can be made the current one, null being the kernel's; the machine is unchanged. |
| Boots.BootedIsGood | kernel/cpu/mmu.c:49-139 | Directories that map kernel pages only, with all counts zero, meet the whole invariant. |
| Boots.LowHalfIsForest | kernel/cpu/mmu.c:66-81 | The lower half that mmu_init fills is a tree of tables whose leaves are kernel pages. |
| Boots.InitIsGood | kernel/cpu/mmu.c:49-139 | mmu_init's directory is a valid start of runs. |
| Boots.InitIsIdentity | kernel/cpu/mmu.c:66-81 | The lower half mmu_init fills maps 2 MiB for each leaf table, page 0 excepted, to the same physical addresses, for the kernel to read and write, and nothing else. |
| Boots.SomeMachineIsGood | kernel/cpu/mmu.c:49-139 | There is a machine that meets the invariant. |
| Mmus.Mmu.MakeTable | kernel/cpu/mmu.c:263-271 | A missing table gets a cleared free frame and a word that points at it, present, writable, the user's and executable; everything else stays. |
| Access.NewTableAccess | kernel/cpu/mmu.c:257-289 | A new table is linked by an open word, and the words that link other tables stay. |
| Mmus.Mmu.RefcountIncrease | kernel/cpu/mmu.c:301-312 | Counts one up below 255; a full count or a frame outside memory is refused without a change. |
| Mmus.Mmu.RefcountDecrease | kernel/cpu/mmu.c:314-324 | Counts one down and gives the new count; -1 for a zero count or a frame outside memory. |
| Mmus.Mmu.LookupFrameFrom | kernel/cpu/mmu.c:511-543 | The slot the walk finds holds exactly the leaf recorded for the address; no slot means no leaf. |
| Mmus.Mmu.LookupFrame | kernel/cpu/mmu.c:243-299 | Without MAKE, agrees with the walk from the current directory. |
| Mmus.Mmu.MakeSlot | kernel/cpu/mmu.c:243-299 | With MAKE in the lower half, returns the slot the walk then finds for the address, after adding only the missing tables, each in a fresh frame and open to user mode; leaves, counts and other memory stay. |
| Mmus.Mmu.CopyPage | kernel/cpu/mmu.c:326-358 | Every branch of the sharing step; keeps the invariant exactly when the count is not saturated, as otherwise the child's word grants everything in a copy that nobody locks. |
| Mmus.Mmu.MakeRoot | kernel/cpu/mmu.c:415-420 | A new root in a free frame: empty lower half, the source's upper half. |
| Mmus.Mmu.CloneLeafTable | kernel/cpu/mmu.c:449-458 | The innermost loop shares every user leaf and copies every other one, changing no bitmap. |
| Mmus.Mmu.CloneTable | kernel/cpu/mmu.c:421-463 | The loop over one level: everything below the table is copied, entry by entry. |
| Mmus.Mmu.Clone | kernel/cpu/mmu.c:410-467 | Forks a directory: one Clone step of the machine the run theorems are about, with all invariants kept and every table of the child open to user mode. |
| Mmus.Mmu.FreePage | kernel/cpu/mmu.c:360-366 | Releases the frame of the last mapping only. |
| Mmus.Mmu.FreeLeafTable | kernel/cpu/mmu.c:391-396 | The innermost loop gives up every user leaf of the table, and no memory changes. |
| Mmus.Mmu.FreeTable | kernel/cpu/mmu.c:382-404 | The loop over one level gives back every table and last page below. |
| Mmus.Mmu.Free | kernel/cpu/mmu.c:377-408 | Removes exactly the directory's tables and leaves, null meaning none, changes no memory, and keeps all invariants; if it was the current one, another must be set first. |
| Mmus.Mmu.CopyOnWrite | kernel/cpu/mmu.c:545-577 | Afterwards the faulting page is private to its slot, and nobody's view has changed; 1 is returned, and nothing done, exactly when the page is not cow. |
| Mmus.Mmu.AllocateFrameEx | kernel/cpu/mmu.c:211-226 | An empty slot gets a free frame, a full one keeps its frame; flags as asked; the manager is valid afterwards if and only if the mapping was an allowed one. |
| Mmus.Mmu.MapPage | kernel/sys/syscall.c:222-235 | One round of sbrk's loop: valid afterwards if and only if the slot held neither a copy-on-write page nor a kernel page, and then one Map step in which other pages keep their contents. |
| Mmus.Mmu.UserWrite | kernel/cpu/idt.c:166-174 | A user store, with the page fault it may cause, is one Store step: it is seen in its own space only. |
| Mmus.Mmu.ValidatePage | kernel/cpu/mmu.c:623-647 | One page: true exactly for a user page, private afterwards where writing is asked for; pages made private before stay so, and no view changes. |
| Mmus.Mmu.ValidateUser | kernel/cpu/mmu.c:610-651 | True exactly when the pointer and size are allowed and every page of the range, as computed with wrap-around, is a present user page; with the write flag all of them are then private. What happens is a run of write faults at pages of the range, and nothing without the flag; no view changes either way. |
| Faults.ValidatedCovers | kernel/cpu/mmu.c:610-651 | Success means that every byte of the range is on a user page, in all address spaces, if and only if the range does not wrap around. |
| Faults.WrappedRangePasses | kernel/cpu/mmu.c:610-651 | The last half terabyte and one byte more: validated in every address space, the empty one included. |
| Faults.UserPagesAreCanonical | kernel/cpu/mmu.c:610-651 | A byte is on a page the loop accepts if and only if its address is canonical and a user page is mapped there. |
| Faults.OtherBytesRefused | kernel/cpu/mmu.c:610-651 | A range with a byte at a non-canonical address is refused. |
| FramePool.Pool.constructor | kernel/cpu/mmu.c:49-139 | Takes over a bitmap with frames locked by boot. |
| FramePool.Pool.Lock | kernel/cpu/mmu.c:141-149 | Locks the frame of an address in memory, and nothing else. |
| FramePool.Pool.Release | kernel/cpu/mmu.c:151-162 | Unlocks that frame only; all frames below the hint stay locked. |
| FramePool.Pool.Probe | kernel/cpu/mmu.c:164-174 | Taken exactly when locked or outside memory. |
| FramePool.Pool.RequestFrames | kernel/cpu/mmu.c:176-192 | The globally lowest free run of n frames although the search starts at the hint; -1 if and only if there is none. |
| FramePool.Pool.RequestFrame | kernel/cpu/mmu.c:194-209 | The globally lowest free frame of whole bitmap words; -1 if and only if there is none. |
| FreeSpace.LowestTaken | kernel/cpu/mmu.c:176-192 | Taking the lowest run there is shortens the longest free run by no more than the pages taken. |
| FreeSpace.RequestMet | kernel/cpu/mmu.c:176-192 | A request no longer than the longest free run is met. |
| FramePool.Pool.AllocateFrame | kernel/cpu/mmu.c:473-477 | As the request, and locks exactly that frame; a failed request locks nothing. |
| FramePool.Pool.AllocateFrames | kernel/cpu/mmu.c:479-486 | Locks exactly the run found; after a failed request the addresses wrap and frames 0 to n-2 get locked. |
| FramePool.WrappedAddress | kernel/cpu/mmu.c:479-486 | Which frame the shifted 64-bit address names, also when it counts on from -1. |
| BitWords.SetTest | kernel/cpu/mmu.c:141-149 | Setting one bit of a word leaves the other bits. |
| BitWords.ClearTest | kernel/cpu/mmu.c:151-162 | Clearing one bit of a word leaves the other bits. |
| BitWords.FullWord | kernel/cpu/mmu.c:194-209 | A word equals UINT32_MAX exactly when all of its bits are set. |
| Ramdisk.EntryRoundTrip | kernel/sys/fs/ramdiskfs.c:21-30 | A packed 275-byte record read back gives every field. |
| Ramdisk.HeaderRoundTrip | kernel/sys/fs/ramdiskfs.c:13-19 | The packed header read back gives every field. |
| Ramdisk.RecordLayout | kernel/sys/fs/ramdiskfs.c:21-30 | At which byte of a record each field begins, numbers little-endian. |
| Ramdisk.HeaderLayout | kernel/sys/fs/ramdiskfs.c:13-19 | The same for the header. |
| Ramdisk.RecordsKept | ramdiskfs_tool/main.c:10-96 | A record and all below it depend on their own stretch of the image only. |
| RamdiskTool.ImageFile.CopyContents | ramdiskfs_tool/main.c:35-45 | The 1024-byte loop writes the whole file at the current position. |
| RamdiskTool.ImageFile.CreateDirectory | ramdiskfs_tool/main.c:10-96 | Returns the bytes written; they list the directory's real entries in order, at any depth, with nothing before them changed. |
| RamdiskTool.ImageFile.WriteEntry | ramdiskfs_tool/main.c:22-77 | One entry: its data, then the record patched in front, pointing behind it when more entries follow. |
| RamdiskTool.ImageFile.WriteImage | ramdiskfs_tool/main.c:125-143 | A complete image: header.size is its length and the root lists the source directory. |
| RamdiskTool.ImageBegins | ramdiskfs_tool/main.c:98-143 | The bytes an image begins with, and the kind byte of every entry of its root. |
| RamdiskReader.RootDirectory | kernel/sys/fs/ramdiskfs.c:161-177 | A tool-made image of a listing without trailing dots is a readable root. |
| ImageReadback.RootReadsBack | ramdiskfs_tool/main.c:10-141 | Following next_entry gives back exactly the real entries, in the root and in every directory below, if and only if the root has a real entry and no listing goes on with "." or ".." after its last real entry. |
| ImageReadback.ListingReadsBack | ramdiskfs_tool/main.c:10-96 | The same for a directory at any depth, empty ones included. |
| ImageReadback.RealNext | ramdiskfs_tool/main.c:62-64 | The record of the last real entry has no successor if and only if the host listing does not end in dots. |
| ImageReadback.DotAfterFile | ramdiskfs_tool/main.c:62-64 | A file followed by ".": the one record points to just behind the image. |
| RamdiskReader.StandsForDirectory | kernel/sys/fs/ramdiskfs.c:89-159 | The node found for a directory lists exactly that directory's real entries, empty ones included. |
| RamdiskReader.ChainStep | kernel/sys/fs/ramdiskfs.c:54-87 | next_entry leads to the next record, strictly further on and inside the image, and ends at 0 after the last. |
| RamdiskReader.ChainWalked | kernel/sys/fs/ramdiskfs.c:54-87 | Any number of steps along the chain ends at that entry of the listing, or at the chain's end. |
| RamdiskReader.DirectoryListed | kernel/sys/fs/ramdiskfs.c:54-87 | In a readable directory the chain never leaves the image, and gives the names in order. |
| RamdiskReader.Readdir | kernel/sys/fs/ramdiskfs.c:54-87 | The name so many steps along the chain, for every chain that stays inside the image. |
| RamdiskReader.Finddir | kernel/sys/fs/ramdiskfs.c:89-159 | The first entry of that name as a node that stands for it; null exactly when there is none. |
| RamdiskReader.Read | kernel/sys/fs/ramdiskfs.c:32-52 | The asked-for slice of the original file, cut at its end; nothing past it. |
| RamdiskReader.RealsAre | ramdiskfs_tool/main.c:21-23 | Entries are skipped if and only if they are called "." or "..". |
| BootPaths.BootResolves | kernel/sys/fs/vfs.c:374-453 | In the filesystem boot leaves behind, opening a path finds the inode that holds the copy of the node the host tree has there, and nothing exactly where the tree has none. |
| BootPaths.ResolvedInCopy | kernel/sys/fs/vfs.c:374-448 | The same for the fold over components, by induction on the path. |
| BootPaths.LookUp | kernel/sys/fs/tmpfs.c:327-347 | tmpfs's finddir gives the answers that lookups by path start from, and a node to free. |
| CopyDirectory.CopyContents | kernel/kmain.c:128-150 | The chunk loop copies the whole file, with exactly the blocks its size needs and a table grown by doubling. |
| CopyDirectory.CopyFile | kernel/kmain.c:116-152 | One file appears at the end of the directory with its name and bytes; all else is untouched; three heap blocks stay, the looked-up node does not. |
| CopyDirectory.CopySubdirectory | kernel/kmain.c:153-163 | One directory appears at the end with a copy of everything below; all else is untouched. |
| CopyDirectory.CopyTree | kernel/kmain.c:88-173 | Into an empty directory, the whole tree: same names in order, kinds, bytes and subdirectories. Everything else in the filesystem and every other heap block is untouched, blocks and heap blocks grow by just the tree's, and no request fails if a free run is as long as all that is requested. |
| CopyDirectory.Boot | kernel/kmain.c:278-285 | From the host's listing through the image to the root filesystem: the tree arrives unchanged, in as many blocks as its files need and three heap blocks for each node; all other frames stay whose they were. |
| CopiedTrees.TreeCostIs | kernel/kmain.c:88-173 | Added up over the tree, the copies cost the blocks of all files and three heap blocks for each node. |
| CopyCosts.LedgerTwice | kernel/kmain.c:88-173 | What two operations cost adds up, and blocks neither gave back are kept through both. |
| CopiedTrees.OneMoreHeld | kernel/kmain.c:103-172 | A copied entry keeps the copies made before it. |
| Tmpfs.TmpfsCreate | kernel/sys/fs/tmpfs.c:460-466 | An empty root, with its structure, name, table and node in the heap. |
| Tmpfs.Filesystem.GetBlock | kernel/sys/fs/tmpfs.c:126-132 | The frame of a block, nothing past block_count. |
| Tmpfs.Filesystem.Embiggen | kernel/sys/fs/tmpfs.c:108-111 | The table doubles and is another heap block; all other heap blocks keep their bytes, everything else stays. |
| Tmpfs.Filesystem.MakeBlock | kernel/sys/fs/tmpfs.c:113-133 | Both loops: the table doubled as often as it takes, then frames that were free; earlier blocks stay. It fails only if the longest free run cannot hold the missing blocks and tables. |
| Tmpfs.Filesystem.Write | kernel/sys/fs/tmpfs.c:178-214 | Sets exactly the bytes from offset to offset+size, for every alignment; length becomes the maximum, all other bytes, files and heap blocks stay; the frames held grow by just the new blocks, the total counts them, and one heap block is replaced by a larger one where the table was full. |
| Tmpfs.Filesystem.Read | kernel/sys/fs/tmpfs.c:135-176 | The slice of the file from offset on, cut at its length, for every alignment; the rest of the buffer stays. |
| Tmpfs.Filesystem.Truncate | kernel/sys/fs/tmpfs.c:236-247 | An empty file; exactly its blocks are released, its table stays. |
| Tmpfs.Filesystem.FreeFile | kernel/sys/fs/tmpfs.c:97-106 | Exactly the file's blocks are released, and the total counts them. |
| Tmpfs.Filesystem.NewObject | kernel/sys/fs/tmpfs.c:17-37 | The structure, the name, the table, and the target of a link: each in a heap block of its own, in that order. |
| Tmpfs.Filesystem.Create | kernel/sys/fs/tmpfs.c:378-402 | A new empty file at the end of the directory, with three new heap blocks and a larger table for a full directory; or EEXIST and no change. |
| Tmpfs.Filesystem.MakeSymlink | kernel/sys/fs/tmpfs.c:39-62 | A new link at the end of the directory, with four new heap blocks; or EEXIST and no change. |
| Tmpfs.Filesystem.Mkdir | kernel/sys/fs/tmpfs.c:404-432 | A new empty directory at the end of the directory, with three new heap blocks; or EINVAL for an empty name, or EEXIST, and no change. |
| Tmpfs.Filesystem.Unlink | kernel/sys/fs/tmpfs.c:349-376 | The entry goes, the others keep their order. Exactly its frames, its structure, its name and the target of a link are given back; its table stays a live block that is no inode's. ENOENT exactly when there is none of that name; a directory always stays, with ENOTEMPTY. |
| Tmpfs.Filesystem.Readdir | kernel/sys/fs/tmpfs.c:290-325 | "." and ".." first except in the root, then the entries in order, each in a heap block for the caller; `TmpfsTree.DirectoryListing` says which. |
| TmpfsTree.DirectoryListing | kernel/sys/fs/tmpfs.c:290-325 | From index 0: "." and ".." outside the root, the names of the entries in their order, then nothing. No name comes twice, and finddir of it gives the entry it was listed for. |
| TmpfsTree.EntriesMove | kernel/sys/fs/tmpfs.c:349-432 | A new entry is the last; those behind a removed one move up by one, the others stay. |
| Tmpfs.Filesystem.Finddir | kernel/sys/fs/tmpfs.c:327-347 | The one entry of that name, with a node for the caller; null and no node if and only if there is none. |
| TmpfsHeap.HeapActed | kernel/sys/fs/tmpfs.c:17-37 | Whatever the heap does to frames of its own, the files' frames stay theirs, and everyone else's too. |
| TmpfsHeap.FilesActed | kernel/sys/fs/tmpfs.c:97-133 | Whatever the filesystem does to frames of its own, the heap's stay the heap's, and everyone else's too. |
| TmpfsObjects.TableMoved | kernel/sys/fs/tmpfs.c:108-111 | After a realloc of one table every inode is still backed by live blocks of its own, of the right sizes. |
| TmpfsGrowth.Embiggened | kernel/sys/fs/tmpfs.c:108-111 | A doubling keeps all of it: files, frames, heap blocks and who owns them. |
| TmpfsGrowth.FillingEnd | kernel/sys/fs/tmpfs.c:113-125 | The two loops end with as many blocks as asked for, and the table at the doubling that holds them. |
| TmpfsEntries.EnteringIsSound | kernel/sys/fs/tmpfs.c:378-432 | A new inode, its blocks and perhaps another table for its directory keep all of it. |
| TmpfsEntries.RemovedAll | kernel/sys/fs/tmpfs.c:349-376 | The steps of unlink keep all of it, and leave the removed file's table behind. |
| TmpfsStore.TotalCountsFrames | kernel/sys/fs/tmpfs.c:97-133 | The sum of block_count over all files is the number of frames the filesystem holds. |
| TmpfsStore.FlatPut | kernel/sys/fs/tmpfs.c:178-214 | A memcpy into one block writes those bytes of the file and no others. |
| TmpfsStore.WroteTwice | kernel/sys/fs/tmpfs.c:195-211 | Writes of adjacent pieces add up to one write. |
| TmpfsStore.WriteSeen | kernel/sys/fs/tmpfs.c:178-214 | Blocks patched and length set amount to one byte-array write, other files untouched. |
| TmpfsStore.GrownKeeps | kernel/sys/fs/tmpfs.c:113-125 | A new block keeps all frames disjoint, the accounting and the tree. |
| TmpfsStore.ReleasedHeld | kernel/sys/fs/tmpfs.c:97-106 | Releasing one file's blocks keeps the frames of all others disjoint and counted. |
| TmpfsTree.NamesUnique | kernel/sys/fs/tmpfs.c:349-432 | In every reachable state the names in a directory are pairwise different. |
| TmpfsTree.HungKeeps | kernel/sys/fs/tmpfs.c:378-432 | A new entry keeps the tree: one place for every inode, different names in every directory. |
| TmpfsTree.PrunedKeeps | kernel/sys/fs/tmpfs.c:349-376 | Taking an entry out keeps the tree and the accounting. |
| TmpfsOps.RunKeepsFile | kernel/sys/fs/tmpfs.c:97-432 | Over every run of filesystem operations and steps of other clients, a file none of them touches keeps its bytes. |
| TmpfsOps.LeftAloneKeepsValid | kernel/sys/fs/tmpfs.c:97-133 | After a step of another client, the store is valid and every file and directory as before. |
| Paths.OpenedFromParent | kernel/sys/fs/vfs.c:374-448 | For every path, full lookup is parent lookup followed by the last component, a mountpoint winning. |
| Paths.OpenedIsFold | kernel/sys/fs/vfs.c:374-448 | For a path with one leading slash and none repeated, the loop over the text is a fold over the components. |
| Paths.BaseIsLast | kernel/sys/fs/vfs.c:221-231 | The name create_file takes is the component a lookup ends with if and only if that component does not begin with a slash, as it does after a doubled one. |
| Paths.CreatedFound | kernel/sys/fs/vfs.c:203-249 | After creating a path, looking it up gives the new node if and only if no slash is doubled before its last component; a mountpoint of that path wins. |
| Paths.DoubledSlashLost | kernel/sys/fs/vfs.c:203-249 | Created as "/a//b", a file is not found as "/a//b". |
| Paths.OpenedStill | kernel/sys/fs/vfs.c:374-448 | Every path that resolved before a creation resolves to the same node after it. |
| Paths.OnlyThrough | kernel/sys/fs/vfs.c:374-448 | A path that resolves only after a creation runs through the new entry. |
| Paths.MountFound | kernel/sys/fs/vfs.c:164-201 | A mounted path leads to the mounted node, unless the table had that path before. |
| VirtualFiles.Vfs.Open | kernel/sys/fs/vfs.c:374-453 | The in-place cutting and mending of the copied buffer resolves the path, in all cases. |
| VirtualFiles.Vfs.GetMountpoint | kernel/sys/fs/vfs.c:164-178 | The first mount of exactly that path. |
| VirtualFiles.Vfs.Basename | kernel/sys/fs/vfs.c:221-231 | The file name a path creates, without trailing slashes. |
| VirtualFiles.Vfs.CreateFile | kernel/sys/fs/vfs.c:203-249 | Every failing case gives its error (`VirtualFiles.Vfs.AnswerExactly`) and no change; on success one entry in the parent, after which all other lookups are as before and the path finds the node. |
| VirtualFiles.Vfs.Mkdir | kernel/sys/fs/vfs.c:251-294 | As create_file, for directories; an empty name is EINVAL. |
| VirtualFiles.Vfs.MountOn | kernel/sys/fs/vfs.c:180-201 | Creates the mountpoint, one entry as create_file makes it, and then resolves it to the target; the errors are those of create_file. |
| VirtualFiles.Vfs.AnswerExactly | kernel/sys/fs/vfs.c:21-42 | EACCES if and only if the user is not root and no class of the parent's mode that applies has the write bit; then EEXIST, EROFS and EINVAL, each exactly when nothing before it applies. |
| Heaps.Heap.Malloc | kernel/lib/alloc.c:161-183 | The lowest free run of enough pages becomes a block, exactly its frames are locked, and no other block's bytes change; if and only if there is no such run, frames 0 to n-2 get locked for nobody before the header is stored outside memory. A run as long as the longest free one is always found. |
| Heaps.MallocLost | kernel/lib/alloc.c:161-183 | After a malloc that failed, one that would have succeeded before fails too: the frame it needs is locked and no block's. |
| Heaps.Heap.Free | kernel/lib/alloc.c:209-230 | Releases exactly the run malloc locked; null and pointers without the magic number change nothing. |
| Heaps.Heap.Realloc | kernel/lib/alloc.c:185-207 | Keeps the first min(old, new) bytes and every other block; null gives null, size 0 frees; fails exactly where its malloc does, with no block changed. |
| Heaps.Heap.Store | kernel/lib/alloc.c:161-183 | A holder's store changes one byte of its own block, and no header. |
| HeapOps.RunKeepsBlock | kernel/lib/alloc.c:161-230 | Over every run of heap operations and steps of other clients, a block none of them touches keeps its size and bytes. |
| HeapOps.LeftAloneKeepsOk | kernel/lib/alloc.c:161-230 | After a step of another client, the heap is consistent and every block's bytes are as before. |
| HeapBlocks.InfoRoundTrip | kernel/lib/alloc.c:148-152 | The header read back gives magic, address and size. |
| HeapBlocks.NewBlock | kernel/lib/alloc.c:161-183 | A block in a free run is apart from all live blocks and keeps their headers and bytes. |
| HeapBlocks.TakenLess | kernel/lib/alloc.c:222-230 | Without a block, exactly its run is no longer taken. |
| RingBuffers.RingBuffer.Avail | kernel/lib/ringbuffer.c:15-25 | What is free: size - 1 less what is stored. |
| RingBuffers.RingBuffer.Readable | kernel/lib/ringbuffer.c:27-37 | What is stored. |
| RingBuffers.RingBuffer.Write | kernel/lib/ringbuffer.c:39-59 | As much as fits is appended to the stored bytes; accepted = delivered + stored holds on. |
| RingBuffers.RingBuffer.Read | kernel/lib/ringbuffer.c:61-81 | As much as there is comes off the front, in order, across the wrap. |
| RingBuffers.Appended | kernel/lib/ringbuffer.c:39-59 | Bytes put from the write index on, around the end or not, extend the contents by just those bytes. |
| RingBuffers.Consumed | kernel/lib/ringbuffer.c:61-81 | Moving the read index drops just the first bytes. |
| Stdio.File.ReadBytes | libc/stdio.c:103-143 | The bytes ahead before are those delivered and those ahead after, for any short reads. Fewer than asked for come only after the device, asked for some, gave none; a device that gives some while there are any gives min(len, all). |
| Stdio.File.Fread | libc/stdio.c:357-370 | All bytes moved are taken from the stream in order; the item count is what the two conversions to int make of them, and for items below 2 GiB exactly the whole items. Short answers and eof come only from a device that gave nothing. |
| Stdio.JudgedRightly | libc/stdio.c:357-370 | The test for a short item is right for every byte count if and only if the item size is below 2 GiB. |
| Stdio.ShortCountsAsWhole | libc/stdio.c:357-370 | Five bytes of a 2 GiB item count as the item, and a full one as an error. |
| Stdio.CountedItems | libc/stdio.c:357-370 | Below 2 GiB, the answer counts the whole items, and what is left over is less than one. |
| Stdio.AnswerMeans | libc/stdio.c:357-370 | Every answer of fread and fwrite, read off the low 32 bits of the size and of the bytes moved last. |
| Stdio.File.Fgetc | libc/stdio.c:240-249 | The next byte, or EOF with nothing lost; from a device that gives bytes while there are any, EOF exactly when there are none. |
| Stdio.File.Ungetc | libc/stdio.c:570-577 | Refused with nothing changed while a character above 0 is pushed back; else the next read sees it first, and nothing is lost if and only if no NUL was pushed back before. Pushing EOF over a NUL loses it too. |
| Stdio.NulLost | libc/stdio.c:570-577 | A NUL pushed back and then a letter: both calls succeed, and the NUL is gone. |
| Stdio.File.WriteBytes | libc/stdio.c:145-162 | Bytes handed to the device followed by pending ones are all bytes accepted, and no newline stays pending. |
| Stdio.File.Fflush | libc/stdio.c:227-238 | Everything pending goes to the device, in order. |
| Stdio.File.Fwrite | libc/stdio.c:474-487 | What reaches the stream and the count returned, with the count and the pointer's step converted to int; without a write buffer nothing. |
| Stdio.CountedRightly | libc/stdio.c:474-487 | The count returned is that of the items accepted if and only if there are no items, or the converted size is not negative (with a write buffer), or it is positive or the size zero (without). |
| Stdio.SentRightly | libc/stdio.c:474-487 | All bytes reach the stream in order, whatever they are, if and only if the size is below 2 GiB or there is at most one item. |
| Stdio.NotSent | libc/stdio.c:474-487 | For every other size, bytes that do not arrive. |
| Stdio.SentMeans | libc/stdio.c:474-487 | Byte for byte what arrives for every size: items that begin as far apart as the low 32 bits of the size say, or the first alone. |
| Numerals.Memrev | kernel/lib/stdlib.c:8-17 | The first n bytes reversed in place, the rest as before. |
| Numerals.Itoa | kernel/lib/stdlib.c:23-46 | The terminated text of the number in that radix; null and no change for other radixes. |
| Numerals.Atoi | kernel/lib/stdlib.c:48-83 | The number the text scans to, -4 for other radixes. |
| Numerals.RoundTrip | kernel/lib/stdlib.c:23-83 | atoi(itoa(x, r), r) = x for every radix 2 to 36 and every int64 but the lowest. |
| Numerals.NumeralMeans | kernel/lib/stdlib.c:23-46 | The digits of a numeral, each below the radix and as its character in 0-9A-Z, are worth the number, and it has no leading zero. |
| Numerals.TextMeans | kernel/lib/stdlib.c:23-46 | A minus sign exactly for negative numbers, then the digits of the absolute value. |
| Numerals.DigitValues | kernel/lib/stdlib.c:55-77 | The value of a digit or letter of either case; other characters have none. |
| Numerals.ScanSkips | kernel/lib/stdlib.c:48-83 | White space, plus signs and underscores change no scan, wherever they stand. |
| Numerals.NumeralStops | kernel/lib/stdlib.c:48-83 | The first other character that is no digit of the radix ends the number, whatever follows. |
| Ptys.PtyTable.Add | kernel/sys/fs/dev/tty.c:19-28 | One entry more, at the end, under its own number. |
| Ptys.PtyTable.Remove | kernel/sys/fs/dev/tty.c:30-47 | The first entry of that number goes, the rest keep their order. |
| Ptys.PtyTable.Get | kernel/sys/fs/dev/tty.c:49-57 | The first pty of that number. |
| Ptys.PtyTable.Readdir | kernel/sys/fs/dev/tty.c:281-314 | Dots, then the numbers as decimal text, and nothing from the end of the table on. |
| Ptys.PtyTable.Finddir | kernel/sys/fs/dev/tty.c:316-334 | The slave of the pty whose number the name scans to. |
| Ptys.RemovedGot | kernel/sys/fs/dev/tty.c:30-57 | A removal makes its number unknown and changes no other lookup. |
| Ptys.RunFoundAsListed | kernel/sys/fs/dev/tty.c:281-334 | After any sequence of additions under free numbers and of removals, looking up any listed name gives the pty it was listed for. |
| Ptys.ListedInDecimal | kernel/sys/fs/dev/tty.c:281-314 | The listed text is a sign for negative numbers and decimal digits worth the number, with no leading zero. |
| Ptys.AddedFound | kernel/sys/fs/dev/tty.c:19-57 | A pty added under a free number is found by number, by name and at the end of the listing; all else is found and listed as before. |
| Ptys.RunIsStanding | kernel/sys/fs/dev/tty.c:19-47 | After any run of additions under free numbers and of removals, the table holds exactly the ptys added and not removed since, in order of addition. |
| Ptys.RemovedIs | kernel/sys/fs/dev/tty.c:30-47 | Removing takes out the first entry of the number and joins what is around it. |

## Left out

Guards, each one a condition the code does not check:

- Mmus.Mmu.Clone: needs enough free frames and no count at 255, because a request that answers -1 is used unchecked, and the branch for full counts takes a frame without locking it. `Mmus.Mmu.CopyPage` covers that branch.
- Mmus.Mmu.MakeSlot: needs free frames for the missing tables and an address in the lower half, which has no large pages.
- Mmus.Mmu.CopyOnWrite: needs a slot for the address, as the code follows the pointer unchecked, and a free frame where the page is shared.
- Mmus.Mmu.AllocateFrameEx: needs a free frame for an empty slot, and no kernel page mapped at frame 0, which mmu_init leaves unmapped.
- Mmus.Mmu.MapPage: as `Mmus.Mmu.MakeSlot` and `Mmus.Mmu.AllocateFrameEx`, with the flags sbrk passes.
- Mmus.Mmu.ValidateUser: the process's directory is the current one.
- Mmus.Mmu.UserWrite: decides by the leaf word. `Reach.ProcessorExactly` says when the processor does, as it does in every forked directory; the tables mmu_init links for the kernel alone stay so.
- Heaps.Heap.Malloc: the size does not wrap around, and its pages fit an int. One that finds no run ends in a kernel fault, so it is no step of the heap's runs.
- Heaps.Heap.Realloc: the pointer is null or a live block; a freed block's header still bears the magic number.
- Tmpfs.Filesystem.Write: offset and size do not wrap around. After a failed request (`ok` false) nothing is promised, as the code then writes outside memory; the same goes for every method with an `ok`.
- Tmpfs.Filesystem.Create: names whose pages fit an int; likewise for the other new entries.
- Tmpfs.Filesystem.Finddir: names fit the 256 bytes of a node, as do those of the image.
- Tmpfs.Filesystem.Readdir: likewise, for the directory entry.
- Tmpfs.Filesystem.Read: not past the end, where the size computation goes below zero.
- RamdiskReader.Read: offset and size do not wrap around.
- RamdiskReader.RootDirectory: host listings without links, at which the tool does not go on to the next entry.
- CopyDirectory.CopyTree: different, non-empty names within a directory, as host directories have.
- Stdio.File.Fread: not where in the caller's array the items land; from 2 GiB on the pointer steps by the converted count.
- Stdio.File.Fwrite: a write buffer limit between 1 and the buffer's size; the device takes all bytes handed to it.
- Numerals.Itoa: not the lowest int64, whose negation overflows.

Not modelled:

- Memory as words of tables, as blocks of files and as bytes of the heap are three arrays; `Clients.OneMemory` says that a frame unchanged in one is unchanged in all, and no theorem needs how their contents correspond.
- The four nested loops of `mmu_clone` and `mmu_free` are one method called per level.
- Steps are atomic; no interrupt comes in between.
- Boot beyond the tables of the lower half (the multiboot map, MMIO), TLB and CR3, `mmu_count_user`, the scheduler and whole processes. A user-mode load, `Mmus.Mmu.UserRead`, is the processor's, as is the check of a store.
- The bytes of the filesystem's structures in their heap blocks: their fields are `inodes` and `objects`. In path lookup nodes are any numbers.
- Null pointers as arguments of the filesystem functions, all of which refuse them at once.
- Owners and modes of tmpfs nodes, `readlink`, `chmod`, `chown`, opening and closing.
- The `ptr` field of a node, which nothing sets; unlink and symlink by path; relative paths.
- The header volume label longer than 16 bytes, host read errors, images of 4 GB and more.
- `fseek`, `ftell`, `fdopen`, `freopen`, `setvbuf`, and all formatted output.
- Signed overflow in `atoi` wraps around.
- `fs_node_t` copies are values; freeing them is not modelled.
- tty line discipline, terminals, the ELF loader, system-call wrappers and userspace programs.
