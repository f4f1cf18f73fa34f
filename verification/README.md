# SnowKernel in Dafny

A model of the parts of SnowKernel that keep state and can silently corrupt it, with proofs of what they keep:
physical pages, page tables and process images; the in-memory file system with its shell; the persisted
environment; the keyboard ring.

Code that updates memory in place is modelled as classes and loops over arrays (`Machine`, `Process`, `FileSystem`,
`EnvStore`, `Tty`, `elf_inspect`, the walkers and printers). Each method is proved to compute a function on the
abstract state; the properties are lemmas about these functions, for single calls, for pairs of calls, and over
runs of any length.

**Memory.** Memory is 32768 frames of 512 words of 64 bits, bytes little-endian within a word. `Pmm` is the bump
allocator with the free list threaded through the free pages. `PageTables` gives every table page one role (level
and index path) and lets several roots reach the same table along the same path only; from this follows that
writing one leaf changes exactly the walks that pass through it. `AddressSpaces` has map, unmap, clone and release;
`Sharing`, `Tlb`, `Placing`, `Loader`, `Heap`, `HeapCache`, `Lifecycle`, `Survival` and `Residue` build on it;
`Machines` and `Syscalls` are the code itself.

There are two walks. The source's walk (`CodeWalk`, and with it map, unmap and the physical-address lookup) follows
every present entry, as the code does. The model's walk stops at a present large-page entry and at the boot page
directory, and calls what it stopped at opaque; where nothing stops it the two agree. `LowPages` says what the
source does below 128 MiB, where the boot code has large pages: the first page of the 2 MiB block serves as the
level-1 table. The kernel's own variables (the allocator's, the process record with its ledger) are model state beside
memory; the pages they lie in, fixed by the linker, are the set `VARIABLES`, any set of pages. A page the model can
follow a map or unmap of is called mappable: nothing stops its walk, or it is low and its block starts in the kernel
image at a page that is no table and holds none of these variables. `Translate` is what the processor does with an
address. The boot page directory's page goes on with instructions behind its 64 entries; its address (`BOOT_PD`, any
page of the kernel image) is fixed by the linker, and the model assumes nothing about those instructions.

`Startup` runs the initialising calls of the code on the boot layout and ends in the model's starting state. `Boot`
proves the invariant of every run from there, and that no run overwrites a page with the kernel's variables;
`FirstRun` says, under conditions on the image, the layout and the free memory alone, what a process started in any
state so reached sees of its image, and what its exit leaves; `CacheRuns` keeps the translation cache right over whole
runs.

**Files.** `Tree` keeps each node's children as a list, `Files` the contents in the arena and what whole runs store
there, `Paths` the parser, the printer and the shell commands, `Directories` what edits do to directory entries and what
the components of a path mean, `Commands` what the shell commands do to both; `FileSystems` and `ShellCode` are the code
on records with child, sibling and parent links.

**Images.** `Elf` is `elf_inspect`; `ElfImages` lays out file and program headers as their format has them and tells from
these what `elf_inspect` makes of any image.

**Environment.** `Env` is the packed table as a list and the finite map it refines, `EnvSectors` the one-sector
encoding, `EnvStores` the table of 64 rows of 96 characters with its loops.

**Keyboard.** `Ttys` has the ring in memory and the same code as interleaved steps of an interrupt handler and a reader.

Findings about the code, each proved below with the exact condition:
- Mapping the kernel stack's page in `sys_execve` maps nothing. Every kernel stack lies below a large page, so the call
  writes one word, the leaf entry, at index (page mod 512) of the first page of the stack's 2 MiB block: into the kernel
  image, or into page 0 (`Boot.StackMapExactly`).
- Whatever ran before, a process sees its image if and only if the image lies above 1 GiB; below, the processor shows
  it the kernel image (`FirstRun.ImageSeenExactly`, `FirstRun.ReachableSeenExactly`). The repository's user programs are
  linked at 4 MiB (`FirstRun.UserProgramUnseen`).
- `sys_exit` releases the root page while CR3 still points to it, exactly when the ledger had room to record it; until
  CR3 is reloaded nothing in its slot 0 is translated (`Residue.ExitingRootExactly`, `FirstRun.ImageExitRoot`). If the
  program never moved its break that page is the first one handed out afterwards (`Residue.RootReusedFirst`).
- After a program exits, the kernel's own root still translates the image's pages whose top-level slot was present when
  the program was started, to pages that are no longer live (`Residue.ExitForgetsExactly`).
- `sys_brk` keeps the translation cache right if and only if the pages it adds were not translated before; lowering the
  break and raising it again violates that (`HeapCache.BrkCoherentExactly`, `HeapCache.LowerThenRaise`). Likewise
  `sys_execve`, if and only if the running root had mapped no page of the new image and not the stack's: a process that
  starts an image at its own addresses goes on with a wrong cache until CR3 is loaded (`CacheRuns.ExecCoherentExactly`).
- `cp` makes an empty file: linking the new node drops the bytes just copied, which stay taken from the arena
  (`Commands.CpMakesEmpty`, `Directories.CopyEntry`).
- A name of more than 31 characters can be created twice in one directory (`Tree.LongNamesCollide`).
- A directory deeper than 31 levels prints a path that does not lead back to it (`Paths.PathRoundTrip`,
  `Directories.DepthThirtyTwoLost`).
- 64 stored variables without PATH do not survive a reload (`EnvSectors.FullTableLosesOne`).
- The program-header range check and the segment range checks accept sums that wrap (`Elf.WrappingTableAccepted`,
  `Elf.WrappingSegmentAccepted`).

## Model

| member | source | states |
|---|---|---|
| Pmm.AllocCorrect | src/kernel/pmm.c:22-40 | allocation fails exactly when the list is empty and 128 MiB is reached, and then changes nothing; otherwise the page was not live, is live, is all zero, and every other page keeps contents and status |
| Pmm.FreeCorrect | src/kernel/pmm.c:42-47 | a freed live page goes to the head of the in-page list, which stays acyclic, in range and apart from live pages; nothing else changes |
| Pmm.LastOutFirst | src/kernel/pmm.c:22-47 | the page released last is handed out next; with an empty list pages come in address order up to 128 MiB; releasing the null page does nothing |
| Pmm.RunConserves | src/kernel/pmm.c:13-47 | over every run that frees only live pages: the pages handed out are the live ones and pages bumped = live + free |
| Machines.Machine.PmmInit | src/kernel/pmm.c:13-20 | the first call rounds the image end up to a page and sets the limit; later calls change nothing |
| Machines.Machine.PmmAlloc | src/kernel/pmm.c:22-40 | the code with its byte-zeroing loops computes the allocation step |
| Machines.Machine.PmmFree | src/kernel/pmm.c:42-47 | the code computes the release step, writing the link into the page |
| Machines.Machine.AllocTable | src/kernel/vm.c:67-79 | a zeroed table page, 0 when out of memory |
| Machines.Machine.VmMapPagePml4 | src/kernel/vm.c:122-158 | the three-level descent with allocation computes the map step on the given root, whatever entries it meets, as long as the tables it reads are pages of the kernel image or live pages |
| Machines.Machine.VmMapPage | src/kernel/vm.c:81-120 | the same from CR3, large-page entries included; the page's cached translation is dropped when the leaf was written |
| Machines.Machine.VmUnmapPage | src/kernel/vm.c:172-196 | clears the leaf if the source's walk gets there and drops the cached translation |
| Machines.Machine.VmGetPhysPml4 | src/kernel/vm.c:225-249 | returns what following every present entry from the given root gives, 0 when any level is absent |
| Machines.Machine.VmGetPhys | src/kernel/vm.c:198-223 | the same from CR3 |
| Machines.Machine.VmCloneCurrentPml4 | src/kernel/vm.c:35-46 | a new root holding the 512 entries of the running one, or 0 |
| Machines.Machine.VmSetCr3 | src/kernel/vm.c:30-33 | changes the running root and empties the translation cache, tables untouched |
| PageTables.DescendCorrect | src/kernel/vm.c:86-115 | the descent keeps all table invariants, reaches the level-1 table of the page or fails with no page left |
| PageTables.DescendTop | src/kernel/vm.c:126-133 | at each level the descent changes at most the entry on its path, and only from absent to a fresh table |
| PageTables.DescendWalk | src/kernel/vm.c:126-155 | linking new tables changes no translation through any root, also when it runs out of memory half way |
| PageTables.SetLeafWalk | src/kernel/vm.c:155-157 | writing a leaf is seen by exactly the walks for that page that pass through that table |
| PageTables.WalksApart | src/kernel/vm.c:126-157 | walks from different tables of one role never meet |
| PageTables.CodeWalkAgrees | src/kernel/vm.c:225-248 | where no large page and not the boot directory stops the model's walk, the source's walk reaches the same leaf entry |
| LowPages.BootEntry | src/boot/multiboot64.asm:78-82 | the words the boot code assembles are present large-page entries for consecutive 2 MiB blocks |
| LowPages.LowMap | src/kernel/vm.c:122-158 | under an identity map, mapping a page below 128 MiB writes one word: the leaf entry, into the first page of the page's 2 MiB block |
| LowPages.LowMapCorrect | src/kernel/vm.c:122-158 | if that page is in the kernel image, no table and without kernel variables, every table, every walk and every page of variables is kept |
| LowPages.LowUnmap | src/kernel/vm.c:172-196 | unmapping a page below 128 MiB writes the same word as mapping it, as a zero |
| LowPages.LowTranslate | src/boot/multiboot64.asm:69-82 | under an identity map the processor translates a low address to itself, whatever was mapped there |
| Startup.StartKernel | src/kernel/kernel64.c:354-358 | on the boot layout, initialising allocator, process and kernel root gives a machine and a process in order whose abstract value is the starting state of every run |
| AddressSpaces.MapCorrect | src/kernel/vm.c:122-158 | map keeps the invariants and, unless the page lies below a large one, every page of the kernel image that is no table; it takes at most three pages and fails only with none left |
| AddressSpaces.MapWalk | src/kernel/vm.c:122-158 | a completed map changes exactly that page's walk, in exactly the roots that share the subtree of its slot; an incomplete one, or one below a large page, changes no walk of any root |
| AddressSpaces.MapRefinesFlat | src/kernel/vm.c:122-158 | the radix tree refines a flat map from page number to translation, for every root at once |
| AddressSpaces.MapGetPhys | src/kernel/vm.c:225-249 | after a completed present map the source's walk returns the mapped frame plus the offset in the page, below large pages too |
| AddressSpaces.UnmapWalk | src/kernel/vm.c:172-196 | unmap makes that page absent in exactly the roots that share its slot's subtree and changes no other walk; below a large page it changes none |
| AddressSpaces.UnmapRefinesFlat | src/kernel/vm.c:172-196 | unmap is one update of the flat map |
| AddressSpaces.CloneCorrect | src/kernel/vm.c:35-46 | cloning fails exactly when no page is left; else the new root equals the old one entry by entry and nothing else changes |
| AddressSpaces.CloneTranslates | src/kernel/vm.c:35-46 | right after cloning both roots translate every page alike, other roots as before |
| AddressSpaces.ReleaseCorrect | src/kernel/pmm.c:42-47 | releasing a data page or a root keeps the table invariants |
| AddressSpaces.RunInv | src/kernel/vm.c:35-196 | over every run of alloc, release, map, unmap and clone each table page has one level and index path, is live, and present interior entries lead to tables with the child role |
| Sharing.CloneSlots | src/kernel/vm.c:35-46 | over any later run each of the 512 slots of clone and original is either still the one shared at clone time or private to each |
| Sharing.SharedSlotsAgree | src/kernel/vm.c:122-158 | a page whose slot was present at clone time translates alike through both roots after any later run |
| Sharing.AbsentSlotsStayPrivate | src/kernel/vm.c:122-158 | a map or unmap through one root of a page whose slot was absent at clone time never shows in the other |
| Tlb.StepCoherent | src/kernel/vm.c:81-120 | if the hardware may cache any walk at any moment, map, unmap, clone, CR3 loads, page allocation and release leave every cached entry equal to the walk; so does the map without invalidation under the condition of Tlb.NoFlushExact |
| Tlb.RunCoherent | src/kernel/vm.c:30-33 | the same over whole runs with arbitrary caching and dropping in between |
| Tlb.NoFlushExact | src/kernel/vm.c:122-158 | the condition under which the map without invalidation is safe is exact: it holds if and only if no coherent cache can go stale |
| Placing.PlaceCorrect | src/kernel/syscall.c:246-258 | allocate, fill, map, record: if no step ran out of memory the page is held at its address with its bytes, unless it lies below a large page; the ledger stays distinct and live |
| Placing.PlaceAllCorrect | src/kernel/syscall.c:246-258 | a loop of such steps over distinct pages holds all of them if no step ran out of memory, and a page left at the end means that none did |
| Placing.PlaceAllMissing | src/kernel/syscall.c:246-258 | if some step did, some page has the walk it had before |
| Placing.PlaceAllWalk | src/kernel/syscall.c:246-258 | no other page's translation changes, nor that of any page below a large page |
| Placing.PlaceAllKept | src/kernel/syscall.c:247-275 | also for overlapping pages and on exhaustion, the kernel invariant and the old ledger entries are kept |
| Loader.LoadSegmentsResult | src/kernel/syscall.c:235-262 | after the segment loop, if memory lasted, every segment not below large pages is held and image_hi is at or above every segment end |
| Loader.LoadedByte | src/kernel/syscall.c:252-256 | walking to vaddr + b of a held segment finds image[offset + b] below filesz, 0 up to memsz |
| Loader.SegmentPagesExactly | src/kernel/syscall.c:236-240 | the pages loaded for a segment are exactly those that some byte from the start of its first page to its end lies in |
| Loader.LoadedProtection | src/kernel/syscall.c:241-242 | each of them is present and open to user mode, and writable if and only if the segment carries PF_W |
| Loader.LoaderCorrect | src/kernel/syscall.c:235-262 | for page-disjoint segments inside the image, if no step ran out of memory, at loop end every byte of every segment not below large pages reads back through the new root |
| Loader.EnoughLoads | src/kernel/syscall.c:246-256 | four free pages for every image page are always enough |
| Loader.LoadSegmentsKept | src/kernel/syscall.c:235-262 | whatever the segments, overlapping or not, the loop keeps the kernel invariant |
| Loader.ImageHiExactly | src/kernel/syscall.c:259-261 | a completed segment loop leaves image_hi at the highest of its old value and the segments' ends |
| Syscalls.Process.AddAllocatedPage | src/cpu/proc.c:52-60 | appends to the ledger, or returns -1 with it unchanged when 256 pages are recorded |
| Syscalls.Process.FreeAllocatedPages | src/cpu/proc.c:62-67 | empties the ledger |
| Syscalls.PlacePage | src/kernel/syscall.c:247-257 | the page code of both loops computes the placement step |
| Syscalls.LoadImage | src/kernel/syscall.c:235-262 | the nested loops compute loading all segments |
| Syscalls.SysExecve | src/kernel/syscall.c:221-275 | the code from break reset to recording the root computes the exec step, every failure return included |
| Syscalls.MapKernelStack | src/kernel/syscall.c:277-280 | the code computes the step of mapping the stack's page |
| Syscalls.SysBrk | src/kernel/syscall.c:428-463 | the code computes the break step and its return value, requests over low pages included |
| Syscalls.SysExit | src/kernel/syscall.c:401-418 | the code computes the exit step |
| Heap.BrkCorrect | src/kernel/syscall.c:428-463 | the break is the request clamped below by the start, the start never moves, and if memory lasted every page up to the rounded break is mapped |
| Heap.HeapStarts | src/kernel/syscall.c:432-449 | the first break call puts the heap at the first page boundary at least 1 MiB above image_hi, at 17 MiB when that is 0, and returns the request or that start |
| Heap.HeapStays | src/kernel/syscall.c:444-462 | later calls never move the start; the break becomes the request but not less than the start, is only returned for 0, and lowering it gives no page back |
| Heap.BrkCoversExactly | src/kernel/syscall.c:450-460 | if none of the pages to be added was mapped before, the heap is covered after the call if and only if no step ran out of memory |
| Heap.BrkContents | src/kernel/syscall.c:450-460 | across one call pages below the rounded old break keep translation and contents, exhausted or not; if memory lasted the added ones read zero |
| HeapCache.BrkMapsExactly | src/kernel/syscall.c:450-460 | a completed call leads each page between old and new break to a live zero page, user-writable, and changes no other walk |
| Heap.BrkRunCovers | src/kernel/syscall.c:428-463 | over any run of break calls in which no step ran out of memory: start page aligned, start <= break, every page in between mapped to a live data page |
| Heap.BrkRunLasts | src/kernel/syscall.c:455-456 | a page left at the end of a run means that no step of it ran out of memory |
| Heap.SbrkOne | src/libc/syscalls.c:23-33 | a positive request returns the old break and moves it by exactly the request |
| Heap.SbrkLowers | src/libc/syscalls.c:23-33 | a negative request returns the old break and lowers it, down to the heap's start, giving no page back |
| Heap.SbrkBlocks | src/libc/syscalls.c:23-33 | two successive positive requests return adjacent disjoint blocks, every page of both mapped |
| HeapCache.BrkCoherentExactly | src/kernel/syscall.c:450-460 | a completed call on the running root keeps every coherent cache coherent if and only if no page it adds is translated before |
| HeapCache.LowerThenRaise | src/kernel/syscall.c:447-461 | lowering the break by a page and raising it again changes the page's translation under a cache that still holds the old one |
| CacheRuns.ExecCoherentExactly | src/kernel/syscall.c:221-275 | an exec in which no step ran out of memory keeps every coherent cache coherent if and only if the running root had mapped no page of the image and not the stack's |
| CacheRuns.CacheStepOk | src/kernel/syscall.c:221-463 | a call keeps every coherent cache coherent if it loads CR3 or the running root has mapped none of the pages it maps: an image's, the stack's, a heap's |
| CacheRuns.CacheRunOk | src/kernel/syscall.c:221-463 | over every run of such calls, with arbitrary caching and dropping between them, cache and tables agree and the kernel invariant holds |
| Lifecycle.ExecOk | src/kernel/syscall.c:221-275 | every outcome of exec, failures included, keeps the kernel invariant |
| Lifecycle.MapStackOk | src/kernel/syscall.c:277-280 | mapping the kernel stack's page keeps the invariant, whether or not it lies below a large page |
| Lifecycle.MapStackWrites | src/kernel/syscall.c:277-280 | below a large page it writes exactly one word, at the start of the stack's block |
| Lifecycle.ReleaseAllCorrect | src/kernel/syscall.c:409-412 | freeing distinct releasable pages frees each exactly once and leaves every other page and role alone |
| Lifecycle.ExitReleases | src/kernel/syscall.c:401-418 | the free list grows by exactly the ledger, exactly the ledger's pages stop being live, CR3 is the kernel root, none of whose translations changes |
| Lifecycle.ExitOrder | src/kernel/syscall.c:409-412 | exit puts the ledger's pages in front of the free list, the page recorded last first |
| Lifecycle.ReleasedRootExactly | src/kernel/syscall.c:409-415 | after the free loop and before the CR3 load, a page of slot 0 is translated through the running root as before if and only if that root was not in the ledger or did not translate the page |
| Lifecycle.RunKeepsKernel | src/cpu/proc.c:52-67 | over every run of exec, stack map, enter, brk and exit on mappable pages the ledger is distinct and live, so no exit frees a page twice |
| Survival.ExecHolds | src/kernel/syscall.c:221-275 | an exec in which no step ran out of memory succeeds and holds the image's segments not below large pages and a zeroed stack page in the new root |
| Survival.ExecReturns | src/kernel/syscall.c:221-275 | whatever comes of exec, CR3 stays and the old heap is forgotten; a failed exec leaves the process its root, a successful one gives it a new one, a page that was not live |
| Survival.ExecStack | src/kernel/syscall.c:264-271 | after a successful exec in which memory lasted the page below 0x7FFFFFF0000 reads as zero and is user-writable |
| Survival.HeapAfterExec | src/kernel/syscall.c:428-446 | the heap of a program just started begins at the first page boundary at least 1 MiB above its highest segment end, or above an earlier image's if that is higher |
| Survival.ExecLeftover | src/kernel/syscall.c:264-270 | a page left after a successful exec means that no step of it ran out of memory |
| Survival.BrkRunKeepsHeld | src/kernel/syscall.c:428-463 | any run of break calls keeps every page held below the heap's start |
| Survival.ImageSurvivesHeap | src/kernel/syscall.c:434-460 | exec then any run of break calls, memory lasting: every byte of every segment not below large pages still reads as the file says |
| Residue.MapRoots | src/kernel/vm.c:126-133 | a map through one root changes no entry of any other root and no present entry of its own |
| Residue.LoadSegmentsTraced | src/kernel/syscall.c:246-258 | while the ledger has room every image page leads to a recorded page, and no other root's entries change |
| Residue.ExecTraced | src/kernel/syscall.c:221-275 | after exec the running root has its old entries, the new root shares every one that was present |
| Residue.RootRecordedExactly | src/kernel/syscall.c:274-275 | after a successful exec the root is in the ledger if and only if the ledger had room for the image pages, the stack page and it |
| Residue.RootRecordedLast | src/kernel/syscall.c:246-275 | while there is room, exec records one page per image page, one for the stack and, last, the root |
| Residue.RootReusedFirst | src/kernel/syscall.c:401-418 | the page handed out first after that program's exit, if it made no break call, is the root it ran on |
| Residue.ExitingRootExactly | src/kernel/syscall.c:409-415 | while that program exits, after any run of break calls, a page of slot 0 is translated as before if and only if the ledger had no room for its root or the page was not translated |
| Residue.ExitForgetsExactly | src/kernel/syscall.c:401-418 | after exec, entry and exit the kernel's root has nothing at an image page if and only if the page's slot was absent before exec; otherwise it translates the page to one that is no longer live |
| Boot.BootOk | src/boot/multiboot64.asm:69-82 | the identity-mapped starting state satisfies the kernel invariant, whatever follows the 64 entries of its page directory |
| Boot.BootWalk | src/boot/multiboot64.asm:69-82 | its walks meet the boot page directory exactly below 1 GiB and are absent above |
| Boot.BootRun | src/kernel/syscall.c:221-463 | over every run of exec, stack map, enter, brk and exit from the starting state on mappable pages: the ledger is distinct and live, the identity map intact, every root stopped exactly below 1 GiB, and every page with kernel variables holds what it held at the start |
| Boot.StackMapExactly | src/kernel/syscall.c:277-280 | in every such state the stack map's walk meets the large page, the call writes exactly one word at the start of the stack's block, and the processor translates the stack's page to itself before and after |
| FirstRun.ExecSucceeds | src/kernel/syscall.c:221-275 | no step of exec runs out of memory when more than four pages per image page and five more are free; it then succeeds and uses no more than that |
| FirstRun.ImageReads | src/kernel/syscall.c:221-275 | in every state a run from the starting state can reach: for every image the layout allows and memory suffices for, exec succeeds and every byte of every segment above 1 GiB reads back through the process's root |
| FirstRun.FirstImageReads | src/kernel/syscall.c:221-275 | the same for the first process, memory sufficing counted from the size of the kernel image |
| FirstRun.ByteSeenExactly | src/kernel/syscall.c:235-262 | there too: the processor shows the process a byte of its image, in a page that was handed out, if and only if the byte lies above 1 GiB; below, the address is its own translation |
| FirstRun.ImageSeenExactly | src/kernel/syscall.c:235-262 | the process sees its whole image if and only if every non-empty segment lies above 1 GiB |
| FirstRun.ReachableSeenExactly | src/kernel/syscall.c:221-463 | so it is after every legal run of exec, stack map, enter, brk and exit from the boot layout |
| FirstRun.UserProgramUnseen | linker_user.ld:4-4 | an image of any number of segments from 4 MiB up inside the kernel image, off its tables and variables: exec succeeds in every such state and not one byte of the image is seen |
| FirstRun.ImageExitForgetsExactly | src/kernel/syscall.c:401-418 | started from the kernel's root in such a state and exited, the image leaves translated in the kernel's root exactly its high pages whose slot was present before, to pages no longer live |
| FirstRun.FirstExitForgetsExactly | src/kernel/syscall.c:401-418 | for the first image these are exactly the high pages in slot 0 |
| FirstRun.ImageExitRoot | src/kernel/syscall.c:409-415 | while such a process exits, its root is in the ledger if that had room, and loses every low page it translated |
| Elf.Inspect | src/kernel/elf.c:7-31 | the loop returns -1 exactly for rejected images, else the number of PT_LOAD headers, with as many as fit stored in order and the rest of the array untouched |
| Elf.LoadsComplete | src/kernel/elf.c:16-28 | a segment is collected exactly when some header of the table is PT_LOAD and describes it |
| ElfImages.HeaderRead | include/elf.h:29-39 | round trip of a program header for all values: laid out in the format's order and sizes it is read as exactly its segment, and as loadable if and only if its type is 1 |
| ElfImages.FileHeaderRead | include/elf.h:11-27 | round trip of the file header: entry point, table offset, entry size and count read back, the magic is 7F 45 4C 46 |
| ElfImages.InspectsExactly | src/kernel/elf.c:7-31 | for every image, told from its headers: accepted if and only if it has 64 bytes and the magic and neither the table's end nor the file range of a loadable header, modulo 2^64, exceeds its size; collected are the loadable headers in table order, and the entry point |
| Elf.HeadersInsideExactly | src/kernel/elf.c:13-17 | for full-size header entries an accepted table is read inside the image if and only if its end does not wrap at 64 bits |
| Elf.AcceptedImageExactly | src/kernel/elf.c:13-19 | for full-size header entries an accepted image has its header table and all collected segments inside it if and only if neither the end of the table nor the end of any such segment wraps |
| Elf.WrappingTableAccepted | src/kernel/elf.c:13-13 | an accepted image whose header table ends at 2^64 and is read outside the image |
| Elf.WrappingSegmentAccepted | src/kernel/elf.c:19-19 | an accepted image whose one segment lies outside it |
| CStrings.KStrCmp | src/kernel/string.c:13-21 | the difference of the first characters that differ; 0 exactly when the two texts up to their NULs are equal |
| CStrings.KStrNCpy | src/kernel/string.c:38-46 | at most n characters, padded with NULs to n, the buffer beyond n untouched |
| Tree.CreateOk | src/fs/fs.c:81-167 | creations with names of at most 31 characters keep the tree invariant: acyclic lists, agreeing parents, distinct sibling names |
| Tree.UnlinkOk | src/fs/fs.c:261-280 | so does unlinking |
| Tree.RenameOk | src/fs/fs.c:282-291 | so does renaming |
| Tree.CreateDistinctExactly | src/fs/fs.c:111-116 | a creation keeps sibling names distinct if and only if no sibling bears the name as cut to 31 characters |
| Tree.LongNamesCollide | src/fs/fs.c:125-144 | creating a 32-character name twice makes two siblings of one name |
| Directories.CreateEntry | src/fs/fs.c:81-167 | a creation adds one directory entry, to an empty node, in front of the list, and changes no other entry of any directory; an existing file is returned, everything else refused |
| Directories.CreateLongEntry | src/fs/fs.c:111-116 | a name of more than 31 characters is stored as its first 31: those find the new node, the name does not |
| Directories.UnlinkEntry | src/fs/fs.c:261-280 | unlinking removes exactly that entry and returns its node, detached |
| Directories.UnlinkKeepsOrder | src/fs/fs.c:261-280 | the other entries of the directory keep their order |
| Directories.RenameEntry | src/fs/fs.c:282-291 | renaming moves exactly one entry; -1 exactly for a missing old name, -2 exactly for a taken new one |
| Directories.RenameLongEntry | src/fs/fs.c:282-291 | renaming to such a name does the same |
| Directories.CopyEntry | src/fs/fs.c:293-316 | copying adds exactly one entry, to a new empty file, or none; success takes the old file's size from the arena, and a copy refused for lack of room there loses its slot |
| Directories.CreateKeepsPaths | src/fs/fs.c:169-210 | a path that led somewhere still leads there after any creation |
| Directories.CreatedIsFound | src/fs/fs.c:169-210 | a node created under a plain name is found by looking that name up |
| Files.RootVisitsOnce | src/fs/fs.c:24-41 | walking the links from the root reaches each attached node exactly once and no other |
| Files.WriteCorrect | src/fs/fs_disk.c:141-169 | overwrite sets the content, append extends it, other files keep theirs, the arena loses exactly the new content's length, -1 and -2 change nothing and occur exactly for non-files and lack of room |
| Files.CloneFileCorrect | src/fs/fs_disk.c:214-237 | copying a file keeps tree, arena and every existing content |
| Files.FsStepOk | src/fs/fs_disk.c:30-237 | every call keeps tree and arena invariants, never reuses a slot, and changes the content of at most the file written |
| Files.FsRunOk | src/fs/fs_disk.c:141-237 | over every run a file's content, be the file old or new, is what replaying the successful writes to it gives, and the bump offset has moved by the sum of the bytes stored by writes and copies, both told from the operations alone |
| Files.WriteSucceedsExactly | src/fs/fs_disk.c:141-169 | after every run a write succeeds if and only if it is to a file and the bytes stored by the run's operations leave room for its text in 131072 |
| Files.ReadAfterRun | src/fs/fs_disk.c:170-177 | after every run a read of any file returns the first bytes of what replaying the successful writes gives, as many as fit |
| FileSystems.FileSystem.constructor | src/fs/fs.c:43-71 | an empty root directory, the working directory |
| FileSystems.FileSystem.FindKidIn | src/fs/fs.c:35-41 | the sibling walk finds the first child of that name, 0 for none |
| FileSystems.FileSystem.AddChild | src/fs/fs.c:24-33 | taking a slot and linking it first is the abstract insertion |
| FileSystems.FileSystem.FsMkdir | src/fs/fs.c:81-123 | the code computes the creation of a directory and its result |
| FileSystems.FileSystem.FsCreate | src/fs/fs.c:125-167 | the code computes the creation of a file or device node and its result |
| FileSystems.FileSystem.FsUnlink | src/fs/fs.c:261-280 | the code with its trailing pointer computes the unlinking |
| FileSystems.FileSystem.FsRename | src/fs/fs.c:282-291 | the code computes the renaming and its return code |
| FileSystems.FileSystem.FsWrite | src/fs/fs_disk.c:141-169 | the code computes the write and its return code |
| FileSystems.FileSystem.FsRead | src/fs/fs_disk.c:170-177 | the first max bytes of the content |
| FileSystems.FileSystem.FsCloneFile | src/fs/fs_disk.c:214-237 | the code computes the copy, the slot lost on a full arena included |
| ShellCode.FsLookup | src/fs/fs.c:169-210 | the in-place tokenizer equals a fold of one hop per component over the split path, cut to the 127 characters the buffer takes |
| Paths.LookupComposes | src/fs/fs.c:169-210 | looking up p/q is looking up p and then q from there, for non-empty p and relative q |
| Paths.FollowAttached | src/fs/fs.c:186-207 | lookups from an attached node reach attached nodes only |
| Directories.LookupName | src/fs/fs.c:196-202 | a plain name leads to the directory entry of that name |
| Directories.LookupDots | src/fs/fs.c:188-195 | ".." leads to the parent, from a node without one nowhere else; "." leads nowhere else |
| Directories.LookupDownUp | src/fs/fs.c:186-207 | down to a plain name's entry and up again leads back |
| Directories.LookupAbsolute | src/fs/fs.c:173-174 | an absolute path is looked up from the root, wherever one is |
| Directories.LookupAncestors | src/fs/fs.c:186-207 | behind any path, k times ".." leads k levels up and no higher than the root |
| ShellCode.ClimbStack | src/kernel/shell.c:28-37 | the stack lists the working directory and its ancestors, up to the root or 32 nodes |
| ShellCode.GetCwdPath | src/kernel/shell.c:26-57 | the printer writes the names of at most the last 31 levels, cut to the buffer, with a NUL |
| Paths.PathRoundTrip | src/kernel/shell.c:26-57 | looking up the printed path of an attached node with plain names and at most 126 characters returns the node if and only if its depth is at most 31 |
| Paths.CwdPathIs | src/kernel/shell.c:38-57 | the printed path is the last 31 names, all of them at no greater depth, each behind a slash, as far as the buffer holds them with a NUL |
| Directories.DepthThirtyTwoLost | src/kernel/shell.c:28-37 | a tree with a directory at depth 32 whose printed path does not lead back to it |
| Paths.RmDetachesExactly | src/kernel/shell.c:213-234 | rm detaches the removed entry and no other node |
| ShellCode.FsSetCwd | src/fs/fs.c:75-79 | only a directory becomes the working directory |
| ShellCode.BuiltinRm | src/kernel/shell.c:213-234 | the command computes the removal, refusing directories with children |
| ShellCode.BuiltinCp | src/kernel/shell.c:291-298 | the command computes the copy of an existing file |
| ShellCode.BuiltinCd | src/kernel/shell.c:183-190 | the command moves to what the lookup finds if that is a directory |
| ShellCode.RunCommand | src/kernel/shell.c:173-299 | each command computes the abstract command, and leaves the tree in order and the working directory attached if its names fit 31 characters |
| Paths.ShellStepOk | src/kernel/shell.c:173-299 | each command keeps tree, arena and an attached working directory |
| Paths.ShellRunOk | src/kernel/shell.c:173-299 | so does every run of commands |
| Paths.PwdThenCd | src/kernel/shell.c:183-190 | at any moment of a run, cd to the printed path stays in place, within the printer's limits |
| Commands.MkdirMakes | src/kernel/shell.c:173-182 | mkdir adds one empty directory of that name if the name is not empty, it is free and a slot is; every other entry, kind and content is as before |
| Commands.TouchMakes | src/kernel/shell.c:202-211 | touch does the same with an empty file |
| Commands.RmRemovesExactly | src/kernel/shell.c:213-234 | rm takes an entry away if and only if there is one and it is no directory with children; no other entry changes |
| Commands.MvMoves | src/kernel/shell.c:236-265 | mv moves exactly that entry to the new name if there is one and the new name is free |
| Commands.CpMakesEmpty | src/kernel/shell.c:267-299 | cp adds one file, and that is empty, if the old name is a file's, the new one is free, a slot is free and the arena has room; no other entry or content changes |
| Commands.CdMoves | src/kernel/shell.c:183-190 | cd moves to what the path leads to if that is a directory, and changes nothing else |
| Commands.CdUp | src/kernel/shell.c:183-190 | cd .. moves to the parent and stays at the root |
| Commands.MkdirCdBack | src/kernel/shell.c:173-190 | a directory just made is entered by its name, is empty, and cd .. leads back |
| EnvStores.NameMatch | src/kernel/env.c:12-30 | true exactly when the entry's name before its '=' equals the given text |
| Env.SetRefines | src/kernel/env.c:100-141 | on the finite map env_set binds the name to the value cut so that NAME=VALUE has at most 95 characters, or returns -2 to -5 with the map unchanged; stored names stay distinct |
| Env.SetBinds | src/kernel/env.c:100-141 | setting NAME=VALUE binds a name of 1 to 63 characters, bound already or one of at most 64, to as much of the value as 95 characters leave room for, and no other; each refusal has its code |
| Env.SetRefuses | src/kernel/env.c:100-118 | a text without = is refused with -3, from 95 characters on with -2 |
| Env.SetPlaces | src/kernel/env.c:126-141 | a name already bound keeps its row, a new one gets the row behind the last |
| Env.UnsetRefines | src/kernel/env.c:85-98 | swap-with-last removal removes exactly that name, -1 exactly when it is not bound |
| Env.UnsetMovesLast | src/kernel/env.c:85-98 | the last row moves to the place of the one removed, the others stay |
| Env.EnvRunRefines | src/kernel/env.c:85-141 | over every run of set and unset the packed table behaves as the finite map, return codes included |
| EnvStores.EnvStore.EnvGet | src/kernel/env.c:70-83 | the value bound to the name, none exactly when it is not bound |
| EnvStores.EnvStore.EnvSet | src/kernel/env.c:100-141 | the row code computes the list step and its return code |
| EnvStores.EnvStore.EnvUnset | src/kernel/env.c:85-98 | the row code computes the list step and its return code |
| EnvStores.EnvStore.EnvSave | src/kernel/env.c:149-175 | the encoder loop writes the sector image |
| EnvStores.EnvStore.EnvInit | src/kernel/env.c:32-68 | the first call leaves the default overridden by decoding the sector, the default alone when the read fails; later calls change nothing |
| EnvSectors.StoredLongest | src/kernel/env.c:161-174 | the stored prefix is the longest whose encoding leaves a byte of the sector free |
| EnvSectors.LoadAny | src/kernel/env.c:32-68 | whatever 512 bytes the sector holds, loading gives a table in order with PATH bound; without the mark or with a count of 0 PATH=/bin is all there is |
| EnvSectors.LoadPacked | src/kernel/env.c:43-67 | any sector with the mark is read as the texts that follow each other from byte 5, each behind its length, as far as the count and the sector go, and these are set in turn |
| EnvSectors.LoadSaved | src/kernel/env.c:43-67 | decoding an encoded store replays the stored entries one by one |
| EnvSectors.SaveLoadExactly | src/kernel/env.c:32-68 | the reloaded map is {PATH -> /bin} overridden by the stored prefix if and only if that prefix has under 64 entries or contains PATH |
| EnvSectors.FullTableLosesOne | src/kernel/env.c:134-135 | a full table without PATH, every entry of which reaches the sector, is not restored |
| Ttys.DeliveredInOrder | src/kernel/tty.c:24-43 | however handler and reader interleave: bytes delivered are a prefix of the bytes accepted, these are the kept keys in order, at most 1023 are unread, and an empty ring has delivered them all |
| Ttys.DroppedExactly | src/kernel/tty.c:27-31 | a key is dropped if and only if the check runs with 1023 bytes not yet released |
| Ttys.UnreadKept | src/kernel/tty.c:32-33 | no step overwrites the slot of an unread byte |
| Ttys.UnreadIs | src/kernel/tty.h:10-13 | in every reachable state the ring from tail to head holds exactly the bytes accepted and not released |
| Ttys.PutcSteps | src/kernel/tty.c:24-34 | the handler's steps run without a break append the key or drop it, as the handler does |
| Ttys.Tty.KbdPutc | src/kernel/tty.c:24-34 | appends the byte, or changes nothing when 1023 are unread |
| Ttys.Tty.Read | src/kernel/tty.c:35-43 | takes the oldest bytes, as many as asked for or there are, in order, and leaves the rest |

## Left out

- Boot assembly, interrupt stubs, context switch, PIC, IDT, serial, ATA ports, mouse, PCI and video: hardware I/O. The disk is one ideal sector handed to or taken from the code; CR3 and the translation cache are model state.
- Pages from 128 MiB to 1 GiB: the source's walk of them reads the instructions behind the boot page directory as entries. Entries 1 to 511 of the two tables above it are absent, being the assembler's padding, whose bytes are even.
- AddressSpaces.MapCorrect, AddressSpaces.MapWalk, AddressSpaces.MapRefinesFlat, AddressSpaces.UnmapWalk, AddressSpaces.UnmapRefinesFlat, Syscalls.LoadImage, Syscalls.SysExecve: ask for mappable pages, which shuts out the pages above and the low pages whose 2 MiB block starts behind the kernel image, at a table or at a page with kernel variables. There the source overwrites one word of allocator memory, of that table or of those variables (LowPages.LowMap says which); what follows from that is not modelled.
- Machines.Machine.VmMapPagePml4, Machines.Machine.VmMapPage, Machines.Machine.VmUnmapPage, Machines.Machine.VmGetPhysPml4, Machines.Machine.VmGetPhys: require that the tables a walk reads are pages of the kernel image or live pages; a walk through released memory is not followed.
- The accessed and dirty bits the processor sets in the entries it uses; the boot entries are only asked to be present, large and of the right block.
- CacheRuns.CacheRunOk: the hardware caches and drops between calls, not inside one; that single paging steps keep the cache right is Tlb.StepCoherent.
- User-mode access rights: interior entries lack the user bit, so nothing is claimed there.
- Virtual addresses are below 2^48.
- Heap.BrkCorrect: break requests stay below the limit where rounding up stays in range; above it the source's rounding wraps. The same limit holds in Syscalls.SysBrk.
- `vm_clear_kernel_mappings` and `elf_load`: nobody calls them.
- The rest of `sys_execve`: its second header scan with the rejection of PT_INTERP, PT_DYNAMIC and SYSCALL bytes, the argument string and pointers on the stack page, and the jump to user mode; saved kernel registers are not modelled.
- `image_hi` is never lowered by the source, so a second image's heap starts above the first one's; the model does the same.
- Pages beyond the 256 the ledger can record, the tables below a root and the root of a failed exec are never returned by the source; exit is claimed to release the ledger only.
- HeapCache.BrkCoherentExactly, CacheRuns.ExecCoherentExactly: ask that a page to be mapped that is translated leads to a live page; a dangling translation could happen to lead to the very page the call allocates.
- Elf.Inspect: requires that header reads stay inside the image, which Elf.HeadersInsideExactly characterises; reads outside are undefined in the source.
- The descriptor table, `sys_read` and `sys_write` offsets, `dup2`, `lseek`, stat: one branch settles each claim, and reads ignore the offset.
- Contents of device nodes: linking a node resets them.
- Overwrites past the arena in `src/fs/fs.c`, which borrow the caller's buffer; the arena contract is that of `src/fs/fs_disk.c`.
- File names and data are texts compared by value; their bytes inside the 32-byte name field are not modelled. The code on records computes its step for every name; that the tree invariant is kept is claimed for names of at most 31 characters, and Tree.CreateDistinctExactly says what happens beyond.
- ShellCode.FsLookup: a path of more than 126 characters needs the uninitialised last byte of the source's buffer to be NUL; otherwise the source reads past the buffer.
- Splitting a command line into arguments, the program search along PATH, and the remaining commands.
- Ttys: one ring; switching the active terminal and the device node are left out. Loads and stores of one index or byte are single steps in program order.
