# A verified model of the VibuxOS kernel's memory and storage core

VibuxOS is a small x86-64 kernel. This project models its two large stateful systems and the self-contained algorithms
beside them, as classes and methods with loops over mutable arrays, and proves what they keep over whole runs.
`dafny verify dfyconfig.toml` checks everything.

**Address spaces.** `FrameAllocator.dfy` is the bump allocator. `PageTables.dfy` has page-table words, the four-level walk
and the tree shape: a map from table frames to places under which every table frame is owned by one parent slot.
`Paging.dfy` is the page table manager over physical memory (an array of frames of 512 words), `PagingRuns.dfy` shows
that over every run the radix tree acts as one flat map of pages. `CloneSpace.dfy` is the deep copy made by fork,
`ForkIsolation.dfy` what a child can do to memory afterwards, `Process.dfy` fork, vfork, child exit and wait, `Vfork.dfy` the
stack and TLS snapshot. `Words.dfy` reads a frame as 4096 bytes; on it stand `UserPages.dfy` (one fresh page, mapped
and filled), `Elf.dfy` and `Loader.dfy` (ELF loading) and `Mmap.dfy`.

**VIBUXFS on NVMe.** `InodeForest.dfy` has the inode table with its child lists, `BlockMap.dfy` the block bitmap,
`Resolution.dfy` path resolution, `PathNames.dfy` the shell's path normaliser, `Vfs.dfy` the operations and `FsRuns.dfy`
runs of them. `Nvme.dfy` is the driver against a device that behaves as sections 4.1 and 4.6 of the NVM Express Base
Specification 1.4 say.

**Beside them.** `ScancodeRing.dfy`, `Pipes.dfy`, `Sockets.dfy`, `Signals.dfy` (with `UserMemory.dfy`), `InitialStack.dfy`
and `Crc32c.dfy`.

Things the proofs brought to light, each stated by the lemma or contract named:

- The kernel asks the boot loader for a recursive entry (kernel/src/main.rs:96): a level-4 entry without USER that leads
  back to the level-4 table. Fork and exec copy it, so through its kernel slots a process reaches the page tables of the
  space it was set up in. `munmap` and `mprotect` take any aligned address: `munmap` of the page at indices r, r, r, j
  clears entry j of that level-4 table (`PagingRuns.RecursiveUnmap`), and asked for by a forked child it leaves the parent
  nothing mapped below that entry (`ForkIsolation.ChildUnhooksParent`). A request to a kernel slot leaves a frame as it is, and so
  the tables of the process itself or of its parent, exactly when it does not write another word there
  (`PagingRuns.FrameKeptIff`, `PagingRuns.TablesKeptIff`). Runs and lives are held to that condition and to nothing else
  about the kernel's entries: `PagingRuns.RunRefinesFlatMap`, `ForkIsolation.LifeStaysInside`,
  `ForkIsolation.ForkIsInvisible`; what `munmap` has hit stays changed (`ForkIsolation.LifeKeepsFrameIff`).
- `copy_user_out` and `copy_user_zero` ask only that an address lies in the lower half and is mapped, not that it is a USER
  page. Outside the kernel slots that keeps a store within the process's own pages (`ForkIsolation.CopyIsMine`); in a
  lower-half kernel slot it writes whatever frame the kernel has mapped there (`ForkIsolation.CopyReaches`). A move leaves
  a frame of somebody else's alone if and only if it does not hit it through a kernel slot
  (`ForkIsolation.MoveKeepsFrameIff`).
- `mmap` with MAP_FIXED over a kernel slot unmaps the page and then fails, unless the walk led back to the process's own
  level-4 table and what it unmapped was the slot itself: then the page takes its place (`Mmap.KernelPageReplacedIff`).
- A range write to NVMe that fails may leave other bytes of the pages at its ends changed, not only those of the range: it
  writes whole pages back (`Nvme.NvmeController.WriteRange`).
- A name of more than 56 bytes is compared whole and stored cut, so it can shadow an entry: paths that resolved keep their
  inode if and only if the stored name is new to its directory, or one no lookup is made for: `..`, `.` or empty
  (`Resolution.PathsKeptIff`); a name of 57 bytes over one of 56 shadows it (`Vfs.LongNameShadows`).
- `unmap_4k` answers HugePage for an absent entry whose bit 7 is set (`Paging.PageTableManager.Unmap4K`), and `protect_4k`
  reports an absent page as AlreadyMapped or HugePageConflict, by the level it is absent at
  (`Paging.PageTableManager.Protect4K`).
- `translate` drops address bits 30 to 37 of a 1 GiB page; it agrees with the processor exactly when those bits are zero
  (`Paging.TranslateAgreesWithHardware`).
- `write_file` gives the old extent back before it can fail with NoSpace; allocation is exact after that failure if and
  only if the file had no blocks (`BlockMap.NoSpaceKeepsExactIff`, `FsRuns.Apply`).
- A path whose entry was just created resolves to it if and only if the name is storable (no zero byte, at most 56 bytes,
  not `.` or `..`, not empty) and the path is not a bare `/name` given away from the root (`Vfs.CreatedIsFoundIff`).
- `format` clears the first block of inodes only: the disk holds a file system if and only if no inode of an earlier one
  lies further on, and one that does is in no directory (`Vfs.FileSystem.Format`).
- The file offset of an `mmap` wraps after the last 64-bit offset (arithmetic overflow wraps in the release profiles) and
  then shows the start of the file again: the offsets are exact if and only if offset plus length stays within 64 bits,
  the pages if and only if the file begins with as many zeros as the mapping runs past them (`Mmap.OffsetsAreExactIff`,
  `Mmap.PagesAreExactIff`).
- Two loadable segments that share a page can never both be loaded: `Loader.LoadAt` succeeds exactly when no two do, their
  pages are vacant, the frames suffice and the entry point does not overflow.
- A handler's return succeeds if and only if the interrupted rip and rsp are non-zero user addresses and flag bits 13, 14
  and 17 are clear; the kernel builds the frame without asking (`Signals.FrameRoundTrip`).

Conventions: machine words are bounded integers (`U64`) and every wrap-around, saturation and mask is written out. Faults
and what the other side does are parameters; an NVMe device follows a plan that says for each command when it answers and
whether it fails. A method's loop body that needed its own contract is a method of its own; the four nested loops of the
clone are one method that calls itself a level further down. Ghost fields mirror arrays.

## Model

| member | source | states |
|---|---|---|
| FrameAllocation.FrameAllocator.Allocate | kernel/src/memory/frame.rs:35-68 | hands out exactly the head of the list of frames still pending, and None only when that list is empty |
| FrameAllocation.FrameAllocator.AllocatePage | kernel/src/memory/frame.rs:35-68 | as the callers use it: the page number returned leaves the set of free frames, which loses nothing else |
| FrameAllocation.PendingMembers | kernel/src/memory/frame.rs:35-68 | a frame is still to come exactly when it is aligned, at or above 1 MiB and wholly inside a usable region not yet used up |
| FrameAllocation.NoFrameTwice | kernel/src/memory/frame.rs:35-68 | over disjoint regions no frame is ever handed out twice |
| FrameAllocation.PendingLength | kernel/src/memory/frame.rs:35-68 | the number of frames handed out is the closed-form sum over the usable regions, region by region within the report |
| FrameAllocation.TotalWithinReport | kernel/src/memory/map.rs:36-50 | the closed-form total never exceeds the reported usable frames, saturation included |
| FrameAllocation.UsableFrames | kernel/src/memory/map.rs:36-50 | the saturating accumulation is the saturated sum of the frame counts |
| PageTables.OneParentSlot | kernel/src/arch/x86_64/paging.rs:304-387 | under the tree shape a table frame is linked from one slot only |
| PageTables.OtherFramesUntouched | kernel/src/arch/x86_64/paging.rs:241-301 | writes outside the table frames keep the tree and every translation |
| PageTables.LinkFreshTable | kernel/src/arch/x86_64/paging.rs:335-368 | hanging a zeroed fresh table under an empty slot keeps the tree shape and every translation |
| PageTables.PromoteLink | kernel/src/arch/x86_64/paging.rs:354-372 | setting USER on an upper link keeps the tree shape and every translation |
| PageTables.StoreLeaf | kernel/src/arch/x86_64/paging.rs:374-387 | writing a level-1 entry changes the translation of its own page and of no other |
| PageTables.LastEntryDecides | kernel/src/arch/x86_64/paging.rs:333-374 | while every link of the tree has write set and no-execute clear, the permissions the processor forms over the four levels are those of the last entry |
| Paging.TranslateAgreesWithHardware | kernel/src/arch/x86_64/paging.rs:241-301 | the reported physical address is the processor's, except exactly for 1 GiB pages with an address bit 30 to 37 set |
| Paging.PageTableManager.Translate | kernel/src/arch/x86_64/paging.rs:241-301 | returns the mapping the four-level walk ends at, None for non-canonical or absent addresses |
| Paging.PageTableManager.OpenTable | kernel/src/arch/x86_64/paging.rs:344-372 | installs, promotes or refuses the table under a level-3 or level-2 entry; tree kept, no translation changed, frames accounted for |
| Paging.PageTableManager.OpenRoot | kernel/src/arch/x86_64/paging.rs:333-342 | the same for level 4, refusing kernel entries to USER mappings |
| Paging.PageTableManager.OpenPath | kernel/src/arch/x86_64/paging.rs:329-374 | reaches the level-1 table exactly when no huge page and no kernel entry is in the way and the free frames cover the missing tables |
| Paging.PageTableManager.Map4K | kernel/src/arch/x86_64/paging.rs:304-387 | the exact answer from the state before; success maps that one page and takes exactly the missing tables, failure changes no translation even after installing tables; after a USER mapping all links above the page are USER, promoted ones included; in a tree whose links allow everything, which it keeps, the page is then writable, executable and USER for the processor exactly as the flags ask; tree, level-4 entries elsewhere and frames outside the tree kept |
| Paging.MappedPermissions | kernel/src/arch/x86_64/paging.rs:329-387 | a mapped page is writable over all four levels exactly with its write flag, executable exactly without no-execute, USER exactly with USER |
| Paging.PageTableManager.Unmap4K | kernel/src/arch/x86_64/paging.rs:390-434 | the exact answer at any address, HugePage for absent entries with bit 7 set included; success writes one word, the level-1 entry, failure none; outside kernel slots that unmaps this page only; wherever the word lies a tree remains, and the same one if it is none of its own |
| Paging.PageTableManager.Protect4K | kernel/src/arch/x86_64/paging.rs:562-606 | the exact answer at any address; success writes the level-1 entry, new flags and the same frame, failure nothing; outside kernel slots that changes this page only; in one the tree stays if the word is none of its own |
| Paging.TargetIsHardwareAddress | kernel/src/arch/x86_64/syscall.rs:1578-1595 | the frame a store at a virtual address falls into is the one the processor finds |
| PagingRuns.PathsAreVpns | kernel/src/arch/x86_64/paging.rs:225-231 | index paths and 36-bit page numbers are the same names, both ways |
| PagingRuns.IndexesOfPage | kernel/src/arch/x86_64/paging.rs:225-238 | the shifts and masks of a canonical address give the path of its page number |
| PagingRuns.Serve | kernel/src/arch/x86_64/paging.rs:304-606 | each request of a run, any address included, is one call of the manager and makes one step of the run relation; the tree remains unless `mprotect` hits it |
| PagingRuns.FrameKeptIff | kernel/src/arch/x86_64/syscall.rs:2518-2569 | a request leaves a frame outside the tree, and through a kernel slot any frame, if and only if it does not write another word there |
| PagingRuns.TablesKeptIff | kernel/src/arch/x86_64/syscall.rs:2518-2569 | through a kernel slot the tables of a tree, the process's or another's, stay if and only if the level-1 table reached is none of them or the word written is the one there |
| PagingRuns.RecursiveUnmap | kernel/src/main.rs:96 | with the recursive entry `munmap` clears a level-4 entry of the table it leads to, and nothing below it is mapped any more |
| PagingRuns.AnswersFit | kernel/src/arch/x86_64/paging.rs:304-606 | an answer follows from the flat map: a map request fails on a free user page only for want of frames, and outside kernel slots the others succeed exactly on a mapped 4 KiB page |
| PagingRuns.StepIsFlatStep | kernel/src/arch/x86_64/paging.rs:304-606 | one request that does not hit the tree moves the flat map at its page and nowhere else |
| PagingRuns.RunRefinesFlatMap | kernel/src/arch/x86_64/paging.rs:241-606 | over every run that does not hit its own tables through a kernel slot the tables keep the tree shape and translation outside kernel slots is one finite map replayed request by request; a frame outside the tree that is never hit stays, and the links go on allowing everything |
| PagingRuns.RunPermits | kernel/src/arch/x86_64/paging.rs:304-606 | after any such run from a tree built for a process, the processor allows on every page of the flat map exactly what its flags say |
| PagingRuns.FailureChangesNothing | kernel/src/arch/x86_64/paging.rs:304-387 | a failing request leaves the flat map as it was |
| CloneSpace.CopySlots | kernel/src/arch/x86_64/paging.rs:116-203 | the slots of a table at any level: huge and kernel entries as they are, the rest copied below; succeeds exactly when the frames cover what the slots cost, and takes just these |
| CloneSpace.CopyBelow | kernel/src/arch/x86_64/paging.rs:147-192 | a fresh frame with a user page byte for byte, or with a table whose slots are copied; succeeds exactly when the frames cover the cost |
| CloneSpace.CloneUserAddressSpace | kernel/src/arch/x86_64/paging.rs:105-207 | succeeds exactly when the free frames cover one for each table and USER page of the parent; then the child is a deep copy: same addresses, flags and page sizes, every USER 4 KiB page in a fresh frame with the same contents, every other leaf shared; success or not, only frames off the free list are written and the parent translates as before |
| CloneSpace.DeepCopyTranslates | kernel/src/arch/x86_64/paging.rs:105-207 | a finished copy translates each address as the parent does |
| CloneSpace.TablesCorrespond | kernel/src/arch/x86_64/paging.rs:105-207 | each table of the child's tree is the copy of the parent's table at the same place |
| CloneSpace.ChildHasShape | kernel/src/arch/x86_64/paging.rs:105-207 | the copy of a plain tree is a plain tree of its own, in the frames of the copy, and its links allow everything if the parent's do |
| CloneSpace.CreateEmptyUserAddressSpace | kernel/src/arch/x86_64/paging.rs:623-653 | one fresh frame holding exactly the kernel entries: nothing of the user half is mapped, nothing else is written; its links allow everything |
| ForkIsolation.MoveKeepsConfined | kernel/src/process.rs:260-316 | stores, system calls at any address and exec keep a process inside its own frames, as long as none hits its own tables through a kernel slot |
| ForkIsolation.CopyIsMine | kernel/src/arch/x86_64/syscall.rs:1569-1615 | outside kernel slots a store the kernel makes at an address the process names stays within the process's pages |
| ForkIsolation.CopyReaches | kernel/src/arch/x86_64/syscall.rs:1569-1615 | in a lower-half kernel slot it writes the frame mapped there, whoever it belongs to |
| ForkIsolation.MoveKeepsFrameIff | kernel/src/process.rs:260-316 | a move leaves a frame that is not the process's alone if and only if it does not hit it through a kernel slot |
| ForkIsolation.LifeStaysInside | kernel/src/process.rs:260-316 | over a whole life the same: confined, and every frame not its own that is never hit is as before |
| ForkIsolation.BootSpaceIsForkable | kernel/src/main.rs:96 | a space with the recursive entry meets what fork is proved for |
| ForkIsolation.ChildIsConfined | kernel/src/arch/x86_64/paging.rs:105-207 | right after the clone all the child can reach for writing is frames of the copy |
| ForkIsolation.ForkIsInvisible | kernel/src/process.rs:260-316 | whatever the child does until it exits, as long as it does not hit its own tables, every frame that was not free and is not hit is word for word what it was before the fork; if none of the parent's is hit, its tables, translations and user pages are |
| ForkIsolation.ChildUnhooksParent | kernel/src/process.rs:293-308 | with the recursive entry there is a `munmap` right after the fork that leaves the parent nothing below a level-4 entry of the child's choice |
| ForkIsolation.LifeKeepsFrameIff | kernel/src/arch/x86_64/syscall.rs:2549-2569 | a frame of another's that only `munmap` ever hits stays as it was if and only if it is never hit |
| Process.ForkKeepsPids | kernel/src/process.rs:262-285 | a fresh pid is none of the pids in the table or handed out by wait4 |
| Process.PushKeepsPids | kernel/src/process.rs:76-90 | recording an exit keeps pids unique |
| Process.TakeKeepsPids | kernel/src/process.rs:92-108 | a pid leaves the table when it is waited for, so it is returned at most once |
| Process.ProcessManager.PushExitedChild | kernel/src/process.rs:76-90 | the entry goes to the first unused slot, or nowhere when all sixteen are taken |
| Process.ProcessManager.TakeExitedChild | kernel/src/process.rs:92-108 | the first entry that answers the request is removed and returned |
| Process.ProcessManager.DoFork | kernel/src/process.rs:260-316 | EAGAIN inside a child; else success exactly when the free frames cover the copy, saving the parent and entering a deep copy under a fresh pid, whose links allow everything if the parent's do; ENOMEM leaves the parent as it was but for the pid used up |
| Process.ProcessManager.DoVfork | kernel/src/process.rs:318-341 | EAGAIN inside a child; else the parent is saved and the child goes on in the same space under a fresh pid |
| Process.ProcessManager.LeaveChild | kernel/src/process.rs:359-378 | the exit of a forked or vforked child: the parent gets its state back with the exit flags cleared, its CR3 and FS base, and the child is recorded |
| Process.ProcessManager.ChildExit | kernel/src/process.rs:359-378 | at the exit of a forked child the parent is restored, and finds every frame the child has not hit, and its tables and pages if it has hit none of them, as before the fork |
| Process.ProcessManager.Wait4 | kernel/src/process.rs:512-535 | the exact answer; a request for one pid is answered with no other, and 0 or ECHILD is the answer when no entry has it; an entry is consumed even when its copy to the user faults; no pid is returned twice |
| Vfork.SharedMemory.Snapshot | kernel/src/process.rs:148-201 | the stack is saved exactly when the parent runs on it and all its pages are mapped, the TLS page when it is mapped too |
| Vfork.SharedMemory.Restore | kernel/src/process.rs:204-232 | every saved byte comes back and no other byte changes |
| Vfork.SharedMemory.Around | kernel/src/process.rs:318-356 | around a child on the parent's stack, stack and TLS page are as before whatever the child wrote |
| Words.EntriesAreBits | kernel/src/arch/x86_64/paging.rs:4-20 | a table entry and its 64 bits determine each other, entry to bits |
| Words.BitsAreEntries | kernel/src/arch/x86_64/paging.rs:4-20 | and bits to entry |
| Words.FramesAreBytes | kernel/src/arch/x86_64/paging.rs:210-217 | a frame of words and its 4096 bytes are the same memory, both ways |
| UserPages.PathsOfPages | kernel/src/arch/x86_64/paging.rs:225-231 | different user pages have different paths |
| UserPages.MapFreshFrame | kernel/src/velf/loader.rs:172-191 | a frame is taken and mapped exactly when one is left beside those for the tables and no kernel entry is in the way; just these frames are used and nothing else moves |
| UserPages.GrewTwice | kernel/src/velf/loader.rs:160-196 | growth composes: fresh frames stay distinct and pages mapped before stay as they were |
| UserPages.GrowsOn | kernel/src/velf/loader.rs:160-196 | after pages were mapped, others can be mapped exactly when both could have been from the start: disjoint, vacant, with one frame a page and one a missing table |
| UserPages.GrowthKeepsPage | kernel/src/velf/loader.rs:160-196 | a page keeps translation and contents while others are added |
| UserPages.HeldIsPermitted | kernel/src/velf/loader.rs:172-191 | a page mapped with some flags can be reached, written and executed by user code exactly as they say, over all four levels |
| Elf.ParseGivesBack | kernel/src/velf/format.rs:67-124 | of a file that begins with the identification and the little-endian fields of an ELF-64 header at their places, written from the fields, `parse` gives these fields back, or the first check they fail |
| Elf.ParsedIsElf | kernel/src/velf/format.rs:67-124 | only a file of at least 64 bytes with the magic number, 64-bit class, little-endian data and version 1 is accepted |
| Elf.PhdrGivesBack | kernel/src/velf/format.rs:126-150 | of 56 bytes written from the fields of a program header in the order of the ELF-64 format `phdr` gives the fields back, executable from bit 0 of p_flags and writable from bit 1 |
| Elf.ParsedHeadersReadable | kernel/src/velf/format.rs:67-150 | after a successful parse a program header can be read exactly when its index is below e_phnum |
| Elf.AddressToFileMeans | kernel/src/velf/format.rs:186-198 | an answer comes from a loadable segment whose file part covers the address |
| Elf.CoveredIff | kernel/src/velf/format.rs:186-199 | with headers in order there is an answer exactly when the file part of some loadable segment covers the address |
| Loader.SurveyMeans | kernel/src/velf/loader.rs:112-146 | a first pass that succeeds has seen at most 32 loadable segments, all inside the image and the user half, and its bounds enclose their pages |
| Loader.SurveyIff | kernel/src/velf/loader.rs:112-146 | it succeeds exactly when every header can be read, every loadable segment lies in the image and the user half with a proper alignment, and there are at most 32; they are counted |
| Loader.SurveySegments | kernel/src/velf/loader.rs:112-146 | the loop computes that survey, stopping at the first failure |
| Loader.Populate | kernel/src/velf/loader.rs:53-99 | the frame ends up with the segment's file bytes at their place and zeros around them, for every position of the segment in the page |
| Loader.LoadPage | kernel/src/velf/loader.rs:166-195 | the exact answer: PageAlreadyMapped when something is mapped there, OutOfMemory without a frame, MappingFailed without one for a table or in a kernel slot; else one vacant page is filled in a fresh frame, with flags from PF_W and PF_X |
| Loader.LoadSegment | kernel/src/velf/loader.rs:160-196 | all pages of the segment, and no others, counted, exactly when all of them are vacant and the frames suffice |
| Loader.NewPagesAreDisjoint | kernel/src/velf/loader.rs:166-170 | pages of later segments are none of those loaded before |
| Loader.OwnPagesIff | kernel/src/velf/loader.rs:166-170 | a segment has its pages to itself exactly when its span overlaps no earlier one |
| Loader.LoadAt | kernel/src/velf/loader.rs:102-207 | earlier mappings and their bytes stay whatever happens; it succeeds exactly when the survey does, no two segments share a page, all their pages are vacant, the frames cover pages and missing tables and the entry does not overflow; then each page of each segment is new, in a frame of its own, holding what the segment puts there, and bounds, entry and counts are right; PageAlreadyMapped only when a page was taken or wanted twice |
| Loader.LoadedByte | kernel/src/velf/loader.rs:53-99 | at every address of its pages a segment shows its file bytes, and zero from filesz on and in the padding |
| Loader.LoadedAsRecorded | kernel/src/velf/loader.rs:102-207 | for a PT_LOAD header the file records at some index: every page the segment reaches into shows the file from p_offset on at p_vaddr plus bias, for p_filesz bytes, and zeros around; for the processor it is a USER page, writable exactly with PF_W and executable exactly with PF_X |
| Loader.SpanIsLeast | kernel/src/velf/loader.rs:113-146 | the pages of a segment are those it reaches into |
| Loader.LoadedMatchesFile | kernel/src/velf/loader.rs:102-207 | wherever `address_to_file` gives an offset, the byte at address plus bias is that byte of the image |
| Mmap.SearchFinds | kernel/src/arch/x86_64/syscall.rs:2441-2470 | the place found is page aligned and wholly unmapped; failure means next_mmap has used up user space |
| Mmap.MmapState.RangeIsFree | kernel/src/arch/x86_64/syscall.rs:2446-2456 | the scan of a candidate range answers exactly whether no page of it is mapped |
| Mmap.MmapState.FindPlace | kernel/src/arch/x86_64/syscall.rs:2441-2470 | the search loop computes that place and ends, for it decreases the user space above next_mmap |
| Mmap.OffsetsAreExactIff | kernel/src/arch/x86_64/syscall.rs:2472-2507 | the page offsets of a mapping are exact if and only if offset plus length stays within 64 bits |
| Mmap.PagesAreExactIff | kernel/src/arch/x86_64/syscall.rs:2472-2507 | its pages show the file from their own offsets if and only if moreover, past 64 bits, the file begins with as many zeros as the mapping runs over |
| Mmap.LaidShowsFile | kernel/src/arch/x86_64/syscall.rs:2472-2507 | every page of a mapping that stays within 64 bits shows the file from its own place on |
| Mmap.FillFrame | kernel/src/arch/x86_64/syscall.rs:2491-2505 | the frame holds the file from the page's offset, zero past its end |
| Mmap.MapOne | kernel/src/arch/x86_64/syscall.rs:2474-2505 | succeeds exactly when, after MAP_FIXED has unmapped what is there, the page is vacant and the frames suffice; then it is mapped anew in a fresh frame and no other page moves; a failure leaves it unmapped |
| Mmap.KernelPageReplacedIff | kernel/src/arch/x86_64/syscall.rs:2474-2494 | over a page in a kernel slot MAP_FIXED succeeds exactly when the word it clears is that slot of the process's own level-4 table and four frames are left |
| Mmap.MapRange | kernel/src/arch/x86_64/syscall.rs:2472-2507 | page after page is put as by the single step, up to the end or to exactly the first that cannot be |
| Mmap.RanQuietly | kernel/src/arch/x86_64/syscall.rs:2472-2507 | unless MAP_FIXED names a page in a kernel slot the loop succeeds exactly when all pages can be laid; then they hold their parts of the file in distinct fresh frames with the flags of prot; on failure only pages of the range were touched |
| Mmap.MmapState.MapMemory | kernel/src/arch/x86_64/syscall.rs:2372-2516 | every refusal, with next_mmap after it; for the rest the exact place, at the address with MAP_FIXED, else by the search on a range that was free, and the run of the loop there; unless MAP_FIXED names a page in a kernel slot, success exactly when all pages of the range can be laid with the frames left |
| Mmap.AcceptedIff | kernel/src/arch/x86_64/syscall.rs:2372-2440 | a call is not refused exactly when its length is positive and can be rounded up, its offset and target are page aligned, the range ends in the user half, a mapping type is given, and it is anonymous or its descriptor leads to a file |
| Mmap.MappedAsAsked | kernel/src/arch/x86_64/syscall.rs:2472-2507 | of a successful call that stays within 64 bits: at every address user code finds the byte of the file from the offset asked for on, zero past its end or with no file; the pages are USER, writable exactly with PROT_WRITE and executable exactly with PROT_EXEC, over all four levels |
| Mmap.PlaceAskedFor | kernel/src/arch/x86_64/syscall.rs:2372-2470 | the mapping goes to the address named with MAP_FIXED, and to the page of the hint when its range is free; the length is rounded up by less than a page |
| InodeForest.ReachesRoot | kernel/src/storage/vfs.rs:478-568 | following parent pointers from a live inode ends at the root |
| InodeForest.ListIsExact | kernel/src/storage/vfs.rs:478-568 | a directory's sibling list holds exactly the live inodes that name it as parent |
| InodeForest.InsertKeepsForest | kernel/src/storage/vfs.rs:515-537 | putting a new inode at the head of its directory's list keeps the forest |
| InodeForest.RemoveKeepsForest | kernel/src/storage/vfs.rs:406-428 | unlinking a childless inode and zeroing its slot keeps the forest |
| BlockMap.SetBitSets | kernel/src/storage/vfs.rs:161-164 | setting a bit sets that bit and no other |
| BlockMap.ClearBitClears | kernel/src/storage/vfs.rs:165-168 | clearing a bit clears that bit and no other |
| BlockMap.FindRun | kernel/src/storage/vfs.rs:596-619 | first fit: the lowest run of enough free blocks in the data area, None only when there is none |
| BlockMap.RoomIff | kernel/src/storage/vfs.rs:591-619 | seen from the bitmap before an extent is given back: a run is found afterwards exactly when some run has only free blocks and blocks of the extent |
| BlockMap.RemoveKeepsExact | kernel/src/storage/vfs.rs:418-427 | giving an extent back with its inode keeps bitmap and extents exact |
| BlockMap.RewriteKeepsExact | kernel/src/storage/vfs.rs:586-643 | replacing an extent by a free run keeps them exact |
| BlockMap.NoSpaceKeepsExactIff | kernel/src/storage/vfs.rs:591-619 | after a NoSpace failure they are exact if and only if the file had no blocks |
| Resolution.ResolveConcat | kernel/src/storage/vfs.rs:254-290 | resolving a path in two stretches is resolving it at once |
| Resolution.LookupFinds | kernel/src/storage/vfs.rs:275-284 | the sibling walk finds the first entry with the name, or none exists |
| Resolution.InsertKeepsResolved | kernel/src/storage/vfs.rs:499-537 | components that resolved before a creation still resolve to the same inode, unless the stored name is a name the directory has |
| Resolution.PathsKeptIff | kernel/src/storage/vfs.rs:499-537 | all paths that resolved keep their inode if and only if the stored name is new to its directory, or is `..`, `.` or empty |
| PathNames.WalksAgree | kernel/src/shell.rs:1015-1071 | editing the string by components is pushing and popping a stack of names, trailing slashes left by `..` included |
| PathNames.ResolveFollowsStack | kernel/src/storage/vfs.rs:254-290 | resolving components from a directory ends where the stack of names leads from the root, `..` at the root included |
| PathNames.NormalisedPathAgrees | kernel/src/shell.rs:1015-1071 | if the cwd path in normal form leads to the cwd and a non-empty input resolves from it to an inode, the normalised path resolved from the root gives that inode |
| PathNames.NormalizedAgrees | kernel/src/shell.rs:1015-1071 | what the normaliser writes resolves from the root to the inode the input leads to from the cwd, as long as no intermediate path exceeds PATH_MAX |
| PathNames.NormalizePath | kernel/src/shell.rs:1015-1071 | the in-place editor computes exactly the walk over the components, each result cut at PATH_MAX |
| Vfs.CreatedIsFoundIff | kernel/src/storage/vfs.rs:478-545 | a created entry is found by its own path exactly when its name is storable and the path is not a bare `/name` away from the root |
| Vfs.LongNameShadows | kernel/src/storage/vfs.rs:499-537 | beside an entry with a 56-byte name the same name with one more byte passes the Exists check, and creating it turns the old path to the new inode |
| Vfs.FileSystem.ResolveWith | kernel/src/storage/vfs.rs:254-290 | the walk computes `Resolve`, with the forest as its termination measure |
| Vfs.FileSystem.FirstFreeInode | kernel/src/storage/vfs.rs:506-514 | the lowest free inode, or 0 when all are taken |
| Vfs.FileSystem.CreateEntry | kernel/src/storage/vfs.rs:478-538 | the exact answer and new table; forest and allocation kept; a failure changes nothing; paths that resolved keep their inode unless the stored name shadows one |
| Vfs.FileSystem.MakeDir | kernel/src/storage/vfs.rs:393-395 | the exact answer: refused exactly when the parent is missing or no directory, has the name, or no inode is free; else a directory entry with mode 0755 |
| Vfs.FileSystem.Touch | kernel/src/storage/vfs.rs:396-402 | the exact answer: an existing entry is left alone, NotFound creates an empty file with mode 0644 unless creation is refused, other errors pass through |
| Vfs.FileSystem.UnlinkChild | kernel/src/storage/vfs.rs:546-568 | the child is always found in its directory's list and taken out, the rest of the list in order |
| Vfs.FileSystem.Remove | kernel/src/storage/vfs.rs:406-428 | the exact answer; success removes that one entry, gives its blocks back and keeps forest and allocation exact |
| Vfs.FileSystem.WriteContents | kernel/src/storage/vfs.rs:583-643 | the exact answer from the bitmap before: NoSpace exactly when blocks are needed and no run of them is free once the file's own are given back; the file then holds the data in the lowest such run, none fitting below; other files are untouched; after NoSpace validity holds exactly for files without blocks |
| Vfs.FileSystem.FindOrCreate | kernel/src/storage/vfs.rs:578-582 | the inode the path names, or a new one found by the path exactly under the creation condition |
| Vfs.FileSystem.WriteFile | kernel/src/storage/vfs.rs:569-644 | the exact answer from the state before: NoSpace exactly when the path could be created but no inode is free, or the data needs blocks and there is no run of so many once the file's own are given back, success in every other case of a file or a creatable path with at most 1024 blocks; a successful write followed by a read of the path returns the written bytes, for every length up to 1024 blocks; every other file keeps its whole inode and its bytes, every other path its inode; directories and oversized data are refused; validity fails only after NoSpace on a file that had blocks |
| Vfs.BlocksForIsLeast | kernel/src/storage/vfs.rs:583-590 | the blocks taken for a length are the fewest that hold it |
| Vfs.FileSystem.ReadFileBytes | kernel/src/storage/vfs.rs:367-392 | the buffer starts with the file's bytes, or the exact error |
| Vfs.FileSystem.Format | kernel/src/storage/vfs.rs:646-697 | the lone root with exactly the reserved blocks taken, if and only if no inode slot past the first inode block is in use |
| Vfs.StrayIsInNoTree | kernel/src/storage/vfs.rs:679-697 | under a root without children no other live inode fits in any tree |
| FsRuns.Run | kernel/src/storage/vfs.rs:393-697 | every run from a formatted disk, errors and NoSpace included, keeps one tree at every step whose lists are exact and duplicate-free, and exact allocation as long as no write has lost the space of a file; each answer is the exact one for the state it is given in |
| FsRuns.Apply | kernel/src/storage/vfs.rs:393-644 | each operation gives the answer the table, lists and bitmap before it decide; one loses exact allocation if and only if it is a write that finds no space for a file that had blocks |
| Nvme.PostKeepsTagged | kernel/src/storage/nvme.rs:469-514 | a completion keeps the ring tagged, on the next lap with tags exchanged |
| Nvme.Device.Execute | kernel/src/storage/nvme.rs:399-431 | the device as the specification has it: the command carried out, or, when it is to fail, the status given and the medium unchanged outside its blocks, and one tagged completion posted |
| Nvme.NvmeController.WaitCq | kernel/src/storage/nvme.rs:469-514 | Timeout if and only if the device answers at no look below 20,000,000; otherwise the reply is Ok or the status it was to fail with; an entry accepted is the answer to the outstanding command, never a stale one, and leaves host and device in step |
| Nvme.NvmeController.Submit | kernel/src/storage/nvme.rs:409-431 | at most one command is outstanding, each consumes its own completion, the answer is the one the device has for it; the command identifier is never 0 |
| Nvme.NvmeController.IoTransfer | kernel/src/storage/nvme.rs:399-431 | count 0 is refused; a read starts from a cleared page; the medium changes by that command only |
| Nvme.NvmeController.FlushCache | kernel/src/storage/nvme.rs:564-579 | the answer the device has for it; the medium is unchanged |
| Nvme.ExecutedOnPage | kernel/src/storage/nvme.rs:543-563 | with block sizes dividing 4096 a page command reads or writes exactly that page |
| Nvme.NvmeController.Read4K | kernel/src/storage/nvme.rs:543-553 | on success the buffer has that page of the medium, which stays as it is in any case |
| Nvme.NvmeController.Write4K | kernel/src/storage/nvme.rs:554-563 | on success that page of the medium has the buffer; on a failure nothing outside it changes |
| Nvme.NvmeController.WriteZeroesAt | kernel/src/storage/nvme.rs:580-601 | on success the blocks named are zero; no others change |
| Nvme.ReadModifyWrite | kernel/src/storage/nvme.rs:651-660 | reading a page, changing part of it and writing it back changes just that part of the medium |
| Nvme.ProgressStep | kernel/src/storage/nvme.rs:649-666 | one more page of a range write extends what has reached the medium, or on a failure leaves all bytes outside the pages of the range alone |
| Nvme.NvmeController.ReadRange | kernel/src/storage/nvme.rs:602-631 | any unaligned range reads as the flat byte array; it fails exactly by refusal or by the first command the device fails or leaves unanswered, with that reply, and always succeeds with a device that answers in time and without fault |
| Nvme.NvmeController.WriteRange | kernel/src/storage/nvme.rs:632-667 | exactly the requested bytes change; it fails exactly by refusal or by the first command the device fails or leaves unanswered, never with a good device; then nothing outside the pages of the range changes |
| Nvme.NvmeController.ZeroRange | kernel/src/storage/nvme.rs:668-705 | exactly the requested bytes become zero; the failures are as for a write, and nothing outside their pages changes |
| Nvme.WriteThenRead | kernel/src/storage/nvme.rs:602-667 | what a range write has written a range read through the driver returns; with a good device both succeed on every range of the namespace |
| Bytes.ReadBack | kernel/src/storage/nvme.rs:602-667 | a read after a write returns the written bytes, and a range beside them reads as before |
| ScancodeRing.ScancodeQueue.ProducerStep | kernel/src/arch/x86_64/idt.rs:104-116 | each load and store of a push keeps the ring and brings the push on by one, to the next store with the same byte; it gives up exactly when 255 bytes are waiting at the load of tail |
| ScancodeRing.ScancodeQueue.ConsumerStep | kernel/src/arch/x86_64/idt.rs:118-128 | each load and store of a pop keeps the ring and brings the pop on by one; it yields the oldest waiting byte and gives up exactly when none is waiting at the load of head |
| ScancodeRing.WriteKeepsWaiting | kernel/src/arch/x86_64/idt.rs:111-114 | the slot written is none of the unread ones, across index wrap-around |
| ScancodeRing.Interleave | kernel/src/arch/x86_64/idt.rs:83-133 | under every interleaving the bytes handed out are a prefix of the accepted ones, at most 255 are held, and every turn is one of those moves |
| ScancodeRing.PushGoesThrough | kernel/src/arch/x86_64/idt.rs:104-116 | in every such interleaving a push takes four turns of the producer and its byte is then accepted, or two and 255 bytes were waiting at the second |
| ScancodeRing.PopGoesThrough | kernel/src/arch/x86_64/idt.rs:118-128 | a pop begun with a byte waiting yields in four turns the oldest one; one that finds none gives up after two |
| Pipes.RingSplits | kernel/src/arch/x86_64/syscall.rs:762-781 | taking bytes off the front of a ring leaves the rest, around its end |
| Pipes.StoredAppends | kernel/src/arch/x86_64/syscall.rs:806-822 | storing behind the contents appends to them, around the end of the ring |
| Pipes.PipeBuffer.Peek | kernel/src/arch/x86_64/syscall.rs:762-771 | the two copies yield the first bytes in order |
| Pipes.PipeBuffer.Read | kernel/src/arch/x86_64/syscall.rs:741-782 | the exact answer; bytes read so far followed by the contents are always the bytes written; a fault consumes nothing |
| Pipes.PipeBuffer.Write | kernel/src/arch/x86_64/syscall.rs:784-823 | the exact answer; what is accepted is a prefix of the input and is appended, a fault appends nothing |
| Pipes.Converse | kernel/src/arch/x86_64/syscall.rs:741-823 | over any sequence of reads and writes what came out and what is still held is what was held and then accepted, in order |
| Sockets.DirectionsNeverMix | kernel/src/arch/x86_64/syscall.rs:1801-1807 | two ends use the same buffer exactly when they are the two ends of one direction of one pair |
| Sockets.SocketTable.Allocate | kernel/src/arch/x86_64/syscall.rs:1778-1798 | the first free pair gets the first two unused buffers, emptied; it fails exactly when no pair or no two buffers are free; pairs and buffers in use are kept |
| Sockets.SocketTable.Receive | kernel/src/arch/x86_64/syscall.rs:1809-1826 | bytes come from that direction's buffer, in the order written; no other buffer changes |
| Sockets.SocketTable.Send | kernel/src/arch/x86_64/syscall.rs:1828-1844 | bytes go to that direction's buffer; no other buffer changes |
| Sockets.Converse | kernel/src/arch/x86_64/syscall.rs:1801-1844 | over any sequence of sends and receives, what a direction delivers is the beginning of what it was sent, whatever the other sockets do |
| UserAccess.UserMemory.CopyOut | kernel/src/arch/x86_64/syscall.rs:1569-1599 | succeeds exactly when the range is below the limit and mapped, and then stores exactly the input; a failure stores a prefix at most |
| UserAccess.UserMemory.CopyIn | kernel/src/arch/x86_64/syscall.rs:1539-1567 | succeeds exactly when the range is below the limit and mapped, and yields its bytes |
| Signals.FramePlacement | kernel/src/arch/x86_64/syscall.rs:3642-3648 | the frame lies wholly below rsp - 128, by less than 24 bytes, and starts 8 bytes off a 16-byte boundary |
| Signals.FrameHasPlaceIff | kernel/src/arch/x86_64/syscall.rs:3642-3648 | for a stack pointer in the user half there is a place exactly when frame, FPU area and red zone fit above address 0x1010 |
| Signals.FrameRoundTrip | kernel/src/arch/x86_64/syscall.rs:3649-3737 | a frame restores exactly the state saved in it, with 0x202 set in the flags, if and only if that state is one a return accepts |
| Signals.BuildWords | kernel/src/arch/x86_64/syscall.rs:3649-3683 | register by register the words of the frame, zero elsewhere |
| Signals.HandlerBlocks | kernel/src/arch/x86_64/syscall.rs:3772-3820 | while a handler runs the signals of both masks and, unless SA_NODEFER, its own are blocked, less SIGKILL and SIGSTOP |
| Signals.FlagsAreBits | kernel/src/arch/x86_64/syscall.rs:3695-3770 | a return sets bits 1 and 9 of the flags and keeps the others, and refuses exactly flags with bit 13, 14 or 17 |
| Signals.SignalState.Take | kernel/src/arch/x86_64/syscall.rs:3564-3588 | the lowest deliverable signal; ignored ones before it are discarded, blocked and later ones kept |
| Signals.SignalState.BuildFrame | kernel/src/arch/x86_64/syscall.rs:3632-3693 | succeeds exactly with a restorer and a reachable place for frame and FPU area, and then writes them and nothing else |
| Signals.SignalState.Deliver | kernel/src/arch/x86_64/syscall.rs:3772-3820 | the handler's registers, stack and mask, SIGKILL and SIGSTOP never blocked; without a frame, or with the default action, the process ends with the exit code of SIGSEGV or of the signal; exit code, pending set and memory in every case |
| Signals.SignalState.SigReturn | kernel/src/arch/x86_64/syscall.rs:3695-3770 | the state in the frame is taken over as a whole, or nothing changes |
| Signals.SignalState.DeliverAndReturn | kernel/src/arch/x86_64/syscall.rs:3695-3820 | after a handler that stores anything anywhere but in its frame every register, rip, rsp, FS base and the mask are back, exactly when the interrupted state is one a return accepts |
| InitialStack.WriteBelow | kernel/src/velf/runner.rs:94-109 | a write below the stack pointer disturbs nothing placed before |
| InitialStack.StackBuilder.Reserve | kernel/src/velf/runner.rs:81-92 | the pointer moves down by the size and to the alignment, not below the stack |
| InitialStack.StackBuilder.PutBytes | kernel/src/velf/runner.rs:94-101 | the string with its zero lies at the address returned, and everything placed before is intact |
| InitialStack.StackBuilder.PushBlock | kernel/src/velf/runner.rs:111-130 | the entries lie in order at consecutive words from a 16-byte aligned pointer; fails exactly when they do not fit |
| InitialStack.BuildStack | kernel/src/velf/runner.rs:241-314 | argc, argv, 0, envp, 0, auxv at the pointer returned, which is the exact one, every pointer leading to an intact copy above the block; it fails exactly when the stack does not reach that far down |
| InitialStack.AuxTells | kernel/src/velf/runner.rs:241-314 | whatever key a program looks up in the auxiliary vector, it finds the value the ABI gives that key, or that there is none |
| InitialStack.ExecveFits | kernel/src/process.rs:242-258 | whatever `execve` can have collected suffices for that in 64 pages |
| Crc32c.FedBits | kernel/src/storage/checksum.rs:1-28 | feeding message bits one by one is turning the register with the byte mixed in, less the bits still to come |
| Crc32c.TableStep | kernel/src/storage/checksum.rs:21-28 | one table lookup and shift is eight bits of the definition |
| Crc32c.MakeTable | kernel/src/storage/checksum.rs:1-17 | each table entry is its index turned eight times |
| Crc32c.Checksum | kernel/src/storage/checksum.rs:21-28 | the table-driven loop computes the bit-at-a-time code of every message |

## Left out

- Port and MMIO access, TLB invalidation, MSR and CR writes: CR3 and FS base are fields; control transfer is a method call.
- Memory ordering: the scancode ring is an interleaving of single loads and stores; acquire and release are not told apart.
- Kernel subtrees (level-4 entries present and not USER): what is written through them is stated, but their translations are not part of the flat map, and what losing one of its own pages does to the kernel is not modelled.
- ForkIsolation.ForkIsInvisible, PagingRuns.RunRefinesFlatMap: what follows after a process has hit its own tables through a kernel slot.
- Paging.PageTableManager.Map4K: a mapping without USER is only asked for below a level-4 entry that is already USER.
- CloneSpace.ChildHasShape, Process.ProcessManager.DoFork: a tree without huge or kernel pages below its USER entries is required, as `map_4k` builds for processes; other leaves would be shared with the child.
- Process.ProcessManager.BeginChild: the pid counter does not reach its 64-bit end.
- Vfork.SharedMemory.Restore: the child leaves the pages mapped; the kernel would fault otherwise. The page tables a vforked child leaves behind: Process.ProcessManager.LeaveChild is about the parent's state.
- Signal return inside a vfork child, where the parent's saved stack pointer is read: Signals.SignalState.DeliverAndReturn is about other processes.
- Mmap.MmapState.MapMemory: descriptor lookup is a parameter; a mapping that fails half way keeps the pages it made, and which of them is not stated.
- The page loops of `munmap` and `mprotect`: a call is a run of requests.
- UserAccess.UserMemory.CopyOut: pages are taken to be writable USER pages; the kernel sets CR0.WP and stores through the user address without looking at the flags. Stores into kernel slots are among the moves of ForkIsolation.
- Loader.LoadAt: pages mapped before a failure stay mapped; only growth is stated then, and which of several causes is met first only page by page.
- Nvme.NvmeController.WaitCq: the status type of a completion, which the driver does not look at either.
- The admin queue of the driver (`submit_admin`, `identify`) repeats the completion loop on a second set of fields; runs that go on after a timeout.
- Nvme.NvmeController.ReadRange, Nvme.NvmeController.WriteRange: the namespace is a whole number of pages.
- Vfs: the disk is an inode table, a bitmap and data bytes kept apart, not reached through the driver; device errors, the superblock, the 128-byte inode blobs and mounting are not part of it. Inode widths of 32 bits are not reached with 4096 inodes and 131072 blocks.
- Vfs.FileSystem.Format: what lies in the inode slots past the first block is an inode or blank, not arbitrary bytes.
- PathNames.NormalizedAgrees: what a path means that was cut at PATH_MAX.
- Pipes and socket pairs drawing on the same buffers in one run: `pipe_alloc_slot` ignores the used mark that `socket_pair_alloc` relies on. Descriptor tables are parameters.
- InitialStack.BuildStack: the frames of the stack are contiguous, as `ptr_at` translates only the first byte of a string; the random bytes and the auxiliary values are parameters.
- `image_range`, the TLS page of exec and the interpreter choice, futex, timers, epoll, rlimits, USB, Wi-Fi, the terminal and the shell's commands: no hard property.
