# xbks: memory, processes, programs, fonts and files, verified

xbks is a small x86_64 kernel.  This project models the parts of it that keep state or parse
untrusted bytes, and proves what they are for: that no page frame is lost, shared or freed twice on
any run; that a process suspended by `vfork` comes back exactly as it was; that the page tables are a
map from pages to frames, open to user code where they should be; that what a loader, decoder or
formatter delivers is what its input, written as its format prescribes, says.

Every file is one module.

| modules | what they hold |
|---|---|
| `Paging` | `mm/mm.c` as functions over one memory that holds the free list, the tables and user data |
| `Ownership`, `PageTables`, `AddressSpaces` | the ownership invariant and what every operation of `Paging` does to it |
| `VirtualMemory` | bytes, loads and stores through an address space, what user mode may read and write, chunked writes |
| `Programs`, `Loading`, `Images`, `Stacks`, `Overflow`, `Admission` | the program loader and the initial user stack |
| `ElfFormat`, `Ustar`, `Execution` | ELF files and ustar archives as written from lists, read back by the loaders, and execve of a program in an archive |
| `Files` | files as found in the ramdisk archive |
| `Kernel`, `Processes` | the process table as a state machine and the invariant each step keeps |
| `Census`, `Boot`, `Runs`, `Reaping`, `MemoryTheorems`, `Supply`, `SystemCalls`, `Descriptors`, `Streams` | the main theorems: whole runs from boot, the memory manager, system calls, files and directories as programs see them |
| `MemoryManager`, `ProgramLoader`, `ProcessTable` | the same code as it is written, with fields and memory words updated in place, proved equal to the functions above |
| `Sfnt`, `Cmap`, `Glyphs`, `OutlineLoader` | the TrueType reader: tables, character map, outlines |
| `FontFormat`, `GlyphEncoding`, `ComponentEncoding` | fonts, character maps and glyphs as written, read back by it |
| `Raster`, `RasterBounds`, `Strokes`, `Filling`, `Rasterizer` | contour flattening and even-odd filling |
| `Ramdisk`, `Directories`, `Dirents` | the ustar archive, lookup, listing, `getdents64` |
| `Arena` | the two-pass ELF loader of `fs/elf.c` |
| `Format` | `lib/format.c` |

## How the memory model works

Physical memory is a map from frame number to a page of 512 words; an absent frame reads as zero.
The links of the free list and the page-table entries are words of that same memory.  A ghost
`Ledger` gives every usable frame one owner: free, loose (held by running kernel code), or one place
in one page-table tree.  `Ownership.Inv` ties the ledger to the words: the in-frame links spell the
free list, every present entry leads to the frame of its place, every PML4 shares the kernel half.
All other memory (the boot PML4 and the tables under it, the kernel's image, the modules) is outside
the ledger and shown to stay untouched.  The direct map may lie anywhere as long as the address of no
usable frame in it wraps around; `Boot.UpperHalfBoots` shows that the map of 4-level paging does.
The theorems of `MemoryTheorems`, `Runs` and `SystemCalls` speak about walks, links and bytes; the
`Census` lemmas translate between the two, in both directions.

User code reads a byte only if every entry of its walk is present and user, and writes it only if every
entry is writable too (section 4.6 of Intel SDM Vol. 3A): `VirtualMemory.UserLoad` and `Usable`.  The
invariant keeps bits 0 to 2 of every table entry set, so in a user space the last entry decides
(`PageTables.ReachesByLeaf`).  What programs read after brk, execve, vfork, read and wait4 is stated through these.

The process machine takes one step per system call, or per byte that user code stores through the
current address space where it may.  `Processes.KernelOk` adds to the memory invariant that the used slots are
exactly the roots of the trees, that pids are distinct, and that the suspended processes form a chain
from init to the running one.  The machine's state includes the ramdisk archive; open, execve and
getdents64 look their files and records up in it.  `KernelOk` also records the one thing asked of the
archive, `Files.SafeArchive`: no program in it has a segment whose copy would leave the user half of
the address space (see Findings).  `Boot.StartedOk` establishes `KernelOk` and `Runs.RunKeeps` carries
it along every run, so a lemma that asks for it holds of every reachable state.

## Findings

- The program loader adds `p_offset + p_filesz` and `p_vaddr + p_memsz` without a check for overflow
  (kernel/process.c:323 and 325; fs/elf.c has that check).  `Images.AcceptedFits`: a segment that passes
  the loader's tests lies in the file and below `XBKS_USER_TOP` if and only if neither sum wraps around.
  `Overflow.LoadOverwritesKernel`: for a segment at 0xffffffff80100000 with 16 file bytes and
  `p_memsz` 0x7ff00000 the end wraps to 0, nothing is mapped, and the bytes are copied over the page the
  kernel's half leads to, so memory outside the usable frames changes.  The theorems about runs therefore
  assume an archive without programs whose copies leave the user half (`Files.SafeArchive`), and those about
  what is loaded a file without wrapping sums (`Programs.NoWrap`, which implies the former for its file).
- The Format 12 glyph number is a 32-bit sum.  `Cmap.Format12Refines` gives the exact condition under which
  it is the glyph the OpenType 'cmap' chapter prescribes, `Cmap.AliasExample` a subtable where it is not.
- A crossing with an edge that leans to the right is rounded down.  `Filling.TriangleFilled`: a triangle is
  filled exactly by its three half-planes, left and lower sides included, if and only if the number of sides
  rounded past the sample is even; `Filling.RoundingExample` is a sample outside the triangle that is filled.
- A horizontal advance of 0x8000 or more, an unsigned word in the OpenType 'hmtx' chapter, is read as negative;
  smaller ones are read as written (`FontFormat.AdvanceWritten`).
- The parent link is a slot, not a pid.  A zombie whose parent has been reaped may be waited for by a
  later process in the parent's slot; `Reaping.WaitAnyFails` is therefore stated of slots.
- `Cmap.ScanIsSearch`: the early exit of the Format 4 scan stops where the chapter's search does if and only
  if no earlier segment written backwards straddles the character.

## Model

| member | source | states |
|---|---|---|
| `Runs.FramesConserved` | kernel/process.c:657-779 | From boot over a safe archive, after any sequence of user stores and system calls, successful or failing: free frames and the frames of each used slot's page-table tree are pairwise disjoint and together are the usable frames; the free chain is acyclic and as long as its counter. |
| `Runs.RunKeeps` | kernel/process.c:803-853 | Every run keeps the machine invariant, the set of usable frames, the archive, and all memory that is not usable. |
| `Runs.OnlyUsableMemoryChanges` | mm/mm.c:250-306 | On every run from boot over a safe archive every frame outside the usable memory keeps its contents: the kernel's tables and image, the modules. |
| `Runs.KernelMappedAsAtBoot` | mm/mm.c:84-99 | In every reachable state every process's walk of an upper-half page ends at the entry the boot PML4 had, given that the boot tables on that walk are not usable memory; unusable pages show the same bytes. |
| `Runs.PidsFitInt` | kernel/process.c:202-217 | On a run from boot with fewer than 2^31 - 2 vfork calls every pid fits the kernel's int, so the unbounded counter of the model is exact there. |
| `Runs.ParentIsolated` | kernel/process.c:724-756 | From a successful vfork until the parent runs again, whatever the child and its descendants do, the parent's record differs only in being blocked, and its pages, flags and bytes are unchanged. |
| `Runs.ParentResumes` | kernel/process.c:781-795 | The step that makes the parent current again is an exit, and hands it the vfork frame with only rax replaced by the child's pid, its old record, and its old memory. |
| `Runs.OnlyExitReturns` | kernel/process.c:781-801 | A suspended process becomes current only through the exit of the very process it waits for (last in, first out). |
| `Runs.TableShape` | kernel/process.c:724-801 | In every reachable state before init exits exactly one slot runs, it is the current one and its tables are in CR3; following vfork parents from it visits each blocked slot once with falling pids and ends at init. |
| `Runs.GoneForGood` | kernel/process.c:202-217 | A pid that no slot holds any more never comes back. |
| `Runs.ReapedOnce` | kernel/process.c:758-779 | No pid is reaped twice on any run. |
| `Runs.ZombieHasExited` | kernel/process.c:781-785 | A zombie on a run from a state without zombies got there by its own exit call, and holds the low byte of that call's status. |
| `Runs.StatusDelivered` | kernel/process.c:764-769 | wait4 leaves the exit status shifted left by eight, as a 32-bit little-endian int, where the caller reads it, also after the child's space is destroyed, and returns the child's pid. |
| `Runs.WaitReportsExit` | kernel/process.c:758-801 | On every run from boot, the process wait4 reaps has called exit with some status s; the caller gets its pid and reads (s mod 256) shifted left by eight; the pid is then gone. |
| `Reaping.ChildIsReaped` | kernel/process.c:724-801 | From any successful vfork, whatever follows, to the exit with code s that makes the caller run again: wait4 for the child's pid returns that pid, the caller reads (s mod 256) shifted left by eight, and the child's slot is cleared. |
| `Reaping.WaitAnyFails` | kernel/process.c:758-779 | On every run from boot wait4 for any child answers ECHILD with nothing changed if and only if no process made by a vfork of the calling slot is a zombie. |
| `Reaping.ParentMadeIt` | kernel/process.c:724-732 | On every run the parent link of a process names the slot whose vfork made it. |
| `Processes.StepKeeps` | kernel/process.c:803-853 | Every step keeps the machine invariant, leaves all other address spaces and all records but those concerned alone, and pushes or pops at most one suspended parent. |
| `Processes.VforkKeeps` | kernel/process.c:724-756 | vfork: invariant kept; on success a fresh record on top of the chain with a deep copy of the parent's space; on failure no record and no space changes. |
| `Processes.SpaceCopy` | kernel/process.c:734-741 | Creating and cloning a space yields a copy confined to new frames, or after the clean-up a memory in which everything is as before. |
| `Processes.ExecveKeeps` | kernel/process.c:679-722 | execve keeps the invariant and every other space; the old space's frames are given back only when the new program is in place. |
| `Processes.BrkKeeps` | kernel/process.c:657-677 | brk, complete or broken off half-way, keeps the invariant and changes only the caller. |
| `Processes.ExitKeeps` | kernel/process.c:781-801 | exit pops exactly one suspended parent and makes it current, or halts the machine when init exits. |
| `Processes.Wait4Keeps` | kernel/process.c:758-779 | Reaping frees exactly the child's space and slot. |
| `Processes.ReadKeeps` | kernel/process.c:457-492 | read changes only the caller's descriptor and memory. |
| `Processes.OpenKeeps` | kernel/process.c:507-528 | open changes only the caller's descriptors. |
| `Processes.CloseKeeps` | kernel/process.c:530-537 | close changes only the caller's descriptors. |
| `Processes.LseekKeeps` | kernel/process.c:539-559 | lseek changes only the caller's descriptors. |
| `Processes.GetdentsKeeps` | kernel/process.c:561-605 | getdents64, packing the next records of the listing over the buffer, keeps the invariant and changes only the caller's descriptor and buffer. |
| `Descriptors.DirectoryReadFromBoot` | kernel/process.c:561-605 | On every run from boot, however a program splits its reading of an open directory into calls, what it decodes from its own memory is the listing from its offset on, in order, without gap or repetition; all of it when the buffers are adequate. |
| `Descriptors.DirectoryRead` | kernel/process.c:561-605 | The same from any good state. |
| `Descriptors.GetdentsDelivers` | kernel/process.c:561-605 | After one call the caller's memory decodes to exactly the next records that fit and the offset has moved past them. |
| `Descriptors.RunKeepsFds` | kernel/process.c:507-605 | Along every run a directory's offset stays within its listing and free descriptors are cleared. |
| `Descriptors.OpenTakesLowest` | kernel/process.c:507-528 | open takes the lowest free descriptor above 2, at offset 0; EMFILE exactly when there is none; failures change nothing. |
| `Descriptors.OpenCloseRestores` | kernel/process.c:507-537 | close undoes open. |
| `Descriptors.LseekThenRead` | kernel/process.c:457-559 | After lseek, read puts the file's bytes from there on into the caller's memory, as many as are left and wanted. |
| `Descriptors.KeysArrive` | kernel/process.c:466-473 | A read from the keyboard leaves the keys in the caller's buffer, returns their number, and changes no descriptor and no other byte. |
| `Streams.StandardStreams` | kernel/process.c:507-605 | On every run from boot descriptors 0, 1 and 2 of every process are standard input, output and error. |
| `Streams.DescriptorRefusals` | kernel/process.c:457-605 | When open, close, lseek, read and getdents64 refuse, with which error number of the Linux ABI, and that nothing changes then. |
| `Streams.ProcessRefusals` | kernel/process.c:679-779 | The same for vfork without a free slot, execve with a bad pointer and wait4. |
| `Streams.UserRangeMeans` | kernel/process.c:119-129 | A user range is accepted exactly when every byte of it lies between 64 KiB and 2^47. |
| `SystemCalls.ChildIsCopy` | kernel/process.c:724-756 | The child of a successful vfork gets result 0, a pid above all in use, the parent's descriptors, break, entry and stack, and memory that it reads, and may write, exactly as the parent at every address. |
| `SystemCalls.BrkGrows` | kernel/process.c:657-677 | brk returns the break in force; a request of 0, below the break or at 0x10000000 and above changes nothing; if granted, the pages between the rounded breaks were unmapped and user code now reads them as zero and may write them, their entries having the flags 7; granted or not, nothing readable changes and no other page appears. |
| `SystemCalls.ExecveLoads` | kernel/process.c:679-722 | A successful execve of a file without wrapping sums runs under the old pid and descriptors in a space where user code reads, and may write, every segment of the file found at the path, enters at e_entry, and its stack, writable throughout, decodes to argv and envp. |
| `Execution.MemberRuns` | kernel/process.c:679-722 | For an archive written from a list of members, one of them holding a program written from a list of headers: with four frames for each page, execve of its path answers 0 if and only if the member is a file someone may execute and the headers are sound (in the file, in the user half, no page wanted twice), and then runs it from its entry with each segment's bytes and zeroes, its arguments and its break; otherwise it answers ENOEXEC and the process table is unchanged. |
| `Execution.InitRuns` | kernel/process.c:855-882 | Booting from such an archive: init begins as process 1 at the entry of its member, which is an executable file with sound headers, with its image, arguments, stack and break in place. |
| `Execution.ExecveDecides` | kernel/process.c:679-722 | The same for any archive and the file found in it. |
| `Execution.HeadersLoad` | kernel/process.c:306-345 | A load of a written program that succeeds shows every PT_LOAD header's file bytes and then zeroes at its addresses. |
| `Admission.AdmitsExactly` | kernel/process.c:425-455 | With one frame, 64 for the stack and four for each page of a segment, a file without wrapping sums loads if and only if it is executable, no directory, has a valid header, and its segments fit and keep off each other's pages and the stack's. |
| `Admission.SegmentsLoaded` | kernel/process.c:306-345 | Whatever loads, with any number of frames, has segments that fit, on pages of their own, none of them mapped before. |
| `Admission.SegmentsSucceed` | kernel/process.c:306-345 | Four frames for each page suffice to load segments that fit on unmapped pages of their own. |
| `ElfFormat.WrittenIsRead` | kernel/process.c:65-91 | A file written with the ELF-64 header and program headers of the gABI, these anywhere in the file, is valid, and its header count, entry and every segment (type, offset, address, file and memory size) are read as written. |
| `ElfFormat.ReadIsWritten` | kernel/process.c:282-304 | Every file the loader takes for valid is so written, from some header and list. |
| `ElfFormat.WriteElfDescribes` | kernel/process.c:65-91 | Header, program headers and contents one after the other are such a file. |
| `SystemCalls.ReadsCompose` | kernel/process.c:480-491 | Two consecutive reads of a file, the second at the place in the buffer where the first ended, equal one read of the total: same memory, same offset, lengths adding up. |
| `Supply.VforkSucceeds` | kernel/process.c:724-756 | vfork succeeds when a slot is free and the free list holds as many frames as the caller's space. |
| `Supply.BrkSucceeds` | kernel/process.c:657-677 | brk grants a break in its range when the new pages are unmapped and the free list holds four frames for each. |
| `Supply.PagesSucceed` | kernel/process.c:244-255 | A range of unmapped pages is mapped in full when the free list holds four frames for each, and no other page is. |
| `Supply.CloneSucceeds` | mm/mm.c:189-248 | A clone into a fresh space fails only if the free list holds fewer frames than the source has places below its root. |
| `Supply.Counted` | mm/mm.c:50-73 | Free, mapped and held frames always add up to the usable ones. |
| `MemoryTheorems.MapRefinesFlatMap` | mm/mm.c:120-183 | A successful map_page changes what the walk reports for exactly one page of one space, a failed one for none; a mapped page is never overwritten; failure means mapped already or out of frames. |
| `MemoryTheorems.FramesDistinct` | mm/mm.c:105-152 | No two mapped pages, of one space or of two, share a frame. |
| `MemoryTheorems.CloneIsDeepCopy` | mm/mm.c:185-248 | After a successful clone into an empty user half both spaces show the same pages, flags and bytes, in frames disjoint from the source's and from each other, and the source is untouched. |
| `MemoryTheorems.CloneThenDestroyRestores` | mm/mm.c:189-306 | Create, clone (complete or failed), destroy: the free list holds the frames it held before. |
| `MemoryTheorems.DestroyFreesSpace` | mm/mm.c:250-306 | After destroy the free list holds exactly what it held and the frames the walk of that space met, each once, none of them listed before. |
| `MemoryTheorems.DestroyKeepsOthers` | mm/mm.c:250-306 | Other spaces show the same pages, flags and bytes. |
| `MemoryTheorems.DestroyKeepsKernelHalf` | mm/mm.c:250-306 | Destroying a space leaves alone every frame outside the usable memory (the boot PML4 and all tables of the kernel half), and every other PML4. |
| `MemoryTheorems.FailedLoadRestores` | kernel/process.c:425-455 | After a failed load of a program that keeps to the user half the free list holds the frames it held and every space shows what it showed. |
| `Boot.InitialFreeList` | mm/mm.c:351-367 | From disjoint usable ranges, initialisation puts each whole non-zero frame on the list exactly once, the counter is their number, and no other frame is touched. |
| `Boot.UpperHalfBoots` | boot/limine_requests.c:80-86 | With the direct map at 0xffff800000000000 any disjoint memory map below 2^47 meets the hypotheses of the run theorems. |
| `Boot.AddFramesKeeps` | mm/mm.c:75-82 | Adding one range adds exactly its whole non-zero frames to the free ones. |
| `Boot.StartedOk` | kernel/process.c:855-882 | init, loaded from the archive, begins in a state that meets the machine invariant, with every usable frame accounted for and no other memory touched. |
| `Boot.StartInitOk` | kernel/process.c:855-882 | Starting init establishes the machine invariant without gaining or losing a frame. |
| `Census.OnListIsLedger` | mm/mm.c:50-73 | Following the in-frame links from the head reaches exactly the free frames, each once, in as many steps as the counter says, and ends at null. |
| `Census.InSpaceIsLedger` | mm/mm.c:101-118 | The frames met by walking a tree from its PML4 are exactly those the ledger gives to that space. |
| `Ownership.AllocKeeps` | mm/mm.c:50-62 | Allocation returns 0 exactly when the list is empty; otherwise a zeroed frame taken off the list, every other frame untouched, invariant kept. |
| `Ownership.FreeKeeps` | mm/mm.c:64-73 | Freeing a held frame puts it on the list and touches no other frame. |
| `Ownership.WriteKeeps` | mm/mm.c:50-73 | Any write to a held frame or to a user page leaves list and tables intact. |
| `Ownership.AttachKeeps` | mm/mm.c:105-118 | Writing an entry for a held frame into an empty slot adds exactly one place to the tree. |
| `Ownership.DetachKeeps` | mm/mm.c:287-300 | Freeing a childless place and clearing its slot removes exactly that place. |
| `PageTables.LookupAgrees` | mm/mm.c:154-183 | The four-level walk finds an entry exactly when the page is in the ledger's tree, and then that place's frame. |
| `PageTables.ReachesByLeaf` | mm/mm.c:105-118 | In a user space user code may read or write a page exactly when the walk finds an entry that lets it; the tables above never stand in the way. |
| `PageTables.IndicesAreBits` | mm/mm.c:120-143 | The four indices of the walk are bits 39 to 47, 30 to 38, 21 to 29 and 12 to 20 of the address. |
| `PageTables.EnsureKeeps` | mm/mm.c:105-118 | ensure_next_table changes no page any space shows; it fails only with an empty list and then changes nothing. |
| `PageTables.DescendKeeps` | mm/mm.c:120-143 | The descent to a page's table changes no view and fails only when frames run out. |
| `PageTables.MapPageKeeps` | mm/mm.c:120-152 | Mapping keeps the invariant, adds places of this space only, shows the new page with the given frame, flags and bytes, and keeps every other view. |
| `AddressSpaces.CreateKeeps` | mm/mm.c:84-99 | A new PML4 is a root no space had, shares the kernel half, and has no user page. |
| `AddressSpaces.CloneFromKeeps` | mm/mm.c:189-248 | Cloning from any slot of any table on copies exactly the pages from there on; failing or not, only the destination grows. |
| `AddressSpaces.ClonePageKeeps` | mm/mm.c:185-187 | Copying one page gives the destination a page with the same flags and bytes. |
| `AddressSpaces.FreshKeeps` | kernel/process.c:229-242 | Allocating, filling and mapping a page shows exactly that page, and a failed mapping gives the frame back. |
| `AddressSpaces.DestroyFromKeeps` | mm/mm.c:250-306 | Destroying from any slot of any table on removes exactly the places below it, each frame freed once. |
| `AddressSpaces.DestroyKeeps` | mm/mm.c:250-306 | Destroy removes exactly the places of this space and changes no frame of any other. |
| `AddressSpaces.LeafInjective` | mm/mm.c:120-143 | Distinct pages below 2^47 never share a table slot. |
| `VirtualMemory.LoadAfterStore` | mm/mm.c:154-183 | A store changes what loads return at its own mapped address in its own space and nowhere else, in any space. |
| `VirtualMemory.TranslateAfterStore` | mm/mm.c:154-183 | Stores to user pages never change a translation. |
| `VirtualMemory.WriteProcessIsStores` | kernel/process.c:257-280 | The page-chunked write equals bytewise stores of a prefix, all of it on success, and succeeds exactly when the whole range is mapped. |
| `VirtualMemory.UserLoadAfterStoreAll` | kernel/process.c:764-769 | After the kernel has stored a range, user code reads the new bytes where it could read and the old ones elsewhere, in every space, and may write exactly where it could. |
| `Loading.MapPagesKeeps` | kernel/process.c:244-255 | Mapping a range makes each of its pages appear as zeroes with the present, user and given flags, or some of them on failure, and changes nothing shown before. |
| `Loading.UserFlagsBits` | kernel/process.c:229-242 | map_user_page adds the user bit and no other flag; a writable page gets the low flags 7. |
| `Loading.LoadProgramKeeps` | kernel/process.c:425-455 | For a program that keeps to the user half: a failed load leaves free set and all spaces as they were; a successful one adds one new space and changes no other. |
| `Loading.Discard` | kernel/process.c:443-454 | Destroying a half-built space restores everything that was there before it was begun. |
| `Images.AcceptedFits` | kernel/process.c:322-327 | A segment that passes the wrapping checks lies in the file and in the user half if and only if neither sum wraps. |
| `Overflow.LoadOverwritesKernel` | kernel/process.c:306-345 | Loading a program with a certain wrapping segment changes a kernel page outside the usable memory. |
| `Overflow.WrappingSegmentWrites` | kernel/process.c:244-280 | For that segment nothing is mapped and its bytes go to the frame the kernel half leads to. |
| `Overflow.OffsetWraps` | kernel/process.c:323-323 | A wrapping file offset passes the check and points in front of the file. |
| `Overflow.HeaderSumExact` | kernel/process.c:297-298 | The two header checks mean that the program headers lie in the file; their sum cannot wrap for files that leave 4 MB of the address space. |
| `Images.SegmentsLoad` | kernel/process.c:306-345 | If loading a file without wrapping sums succeeds, user code reads each PT_LOAD byte as its file byte below p_filesz and 0 up to p_memsz and may write it, no two segments share a page, and what was open before reads the same. |
| `Stacks.PushBytesEffect` | kernel/process.c:347-359 | A push changes memory exactly on the bytes pushed. |
| `Stacks.PushStringsEffect` | kernel/process.c:365-394 | The pushed strings all stand in memory at the recorded addresses, and nothing at or above the old stack pointer changed. |
| `Stacks.PushWordsEffect` | kernel/process.c:395-417 | Likewise for the vector of words. |
| `Stacks.FillStackRoundTrip` | kernel/process.c:365-423 | For at most 31 arguments and 31 environment strings under 256 bytes all pushes fit, and decoding in user mode from the stack pointer yields argc, exactly argv, NULL, exactly envp, NULL; the pointer is 8-byte aligned. |
| `Stacks.BuildStackRoundTrip` | kernel/process.c:365-423 | The same including mapping the 16 stack pages, which is the only thing that can fail; user code may then read and write all of the stack. |
| `Stacks.ProgramLoaded` | kernel/process.c:425-455 | A loaded program has the file's segments, its entry point and the round-trip stack all at once. |
| `MemoryManager.Manager.AllocFrame` | mm/mm.c:50-62 | In place: the memory and result of the function that AllocKeeps is about. |
| `MemoryManager.Manager.FreeFrame` | mm/mm.c:64-73 | In place: as FreeKeeps describes. |
| `MemoryManager.Manager.AddUsableRange` | mm/mm.c:75-82 | In place: the loop over the aligned frames of a range of bytes, as AddFramesKeeps describes. |
| `MemoryManager.Manager.CreateKernelMappedPml4` | mm/mm.c:84-99 | In place: the loop over the upper half leaves it equal to the kernel's. |
| `MemoryManager.Manager.EnsureNextTable` | mm/mm.c:105-118 | In place: as EnsureKeeps describes. |
| `MemoryManager.Manager.MapPage` | mm/mm.c:120-152 | In place: the specification that refines the flat map, misaligned addresses included. |
| `MemoryManager.Manager.Translate` | mm/mm.c:154-183 | The four-level walk, with the offset added. |
| `MemoryManager.Manager.CloneUserSpace` | mm/mm.c:189-248 | In place: the deep copy. |
| `MemoryManager.Manager.CloneLevel` | mm/mm.c:189-248 | One of the nested clone loops, for any table. |
| `MemoryManager.Manager.ReadTable` | mm/mm.c:250-306 | How the destroy loops read tables: only frames a tree still owns, so never one already freed. |
| `MemoryManager.Manager.DestroyUserSpace` | mm/mm.c:250-306 | In place: every table is read before it is freed, and exactly this space's frames go. |
| `MemoryManager.Manager.DestroyLevel` | mm/mm.c:250-306 | One of the nested destroy loops, for any table. |
| `ProgramLoader.MapUserPage` | kernel/process.c:229-242 | In place: as FreshKeeps and UserFlagsBits describe, the frame freed again when mapping fails. |
| `ProgramLoader.MapUserRange` | kernel/process.c:244-255 | In place: stops at the first page that fails. |
| `ProgramLoader.WriteProcessMemory` | kernel/process.c:257-280 | In place: one translation and one copy per page, as WriteProcessIsStores describes. |
| `ProgramLoader.LoadElf` | kernel/process.c:306-345 | In place: the loop over program headers, with sums that wrap around as the source's do; what it reads of a written file is in WrittenIsRead. |
| `ProgramLoader.PushBytes` | kernel/process.c:347-359 | In place: as PushBytesEffect describes. |
| `ProgramLoader.BuildUserStack` | kernel/process.c:365-423 | In place: the stack of BuildStackRoundTrip. |
| `ProgramLoader.LoadProgram` | kernel/process.c:425-455 | In place: with the destroy on both failing paths, for programs that keep to the user half. |
| `ProcessTable.Table.FindUnused` | kernel/process.c:202-217 | The scan for the first unused slot. |
| `ProcessTable.Table.CopySpace` | kernel/process.c:734-741 | The copy of a space, or 0 with the half-built one destroyed. |
| `ProcessTable.Table.Vfork` | kernel/process.c:724-756 | In place: the machine's vfork step, invariant kept. |
| `ProcessTable.Table.Execve` | kernel/process.c:679-722 | In place: lookup in the archive, load, switch and destroy; the machine's execve step, invariant kept. |
| `ProcessTable.Table.Brk` | kernel/process.c:657-677 | In place: the machine's brk step, invariant kept. |
| `ProcessTable.Table.Exit` | kernel/process.c:781-801 | In place: the machine's exit step, invariant kept. |
| `ProcessTable.Table.Wait4` | kernel/process.c:758-779 | In place: the machine's wait4 step, invariant kept. |
| `ProcessTable.Table.FindReapable` | kernel/process.c:758-763 | The scan for the first zombie child that matches. |
| `ProcessTable.Table.Open` | kernel/process.c:507-528 | In place: the descriptor scan, then the lookup in the archive; the machine's open step, invariant kept. |
| `ProcessTable.Table.Close` | kernel/process.c:530-537 | In place: the machine's close step, invariant kept. |
| `ProcessTable.Table.Lseek` | kernel/process.c:539-559 | In place: the machine's lseek step, with 64-bit wrap-around, invariant kept. |
| `ProcessTable.Table.Read` | kernel/process.c:457-492 | In place: the machine's read step, invariant kept. |
| `ProcessTable.Table.Getdents` | kernel/process.c:561-605 | In place, with the record loop over the archive: the machine's getdents64 step with the next records of the listing that fit, invariants kept. |
| `Sfnt.GetTable` | drivers/font_ttf.c:163-191 | The slice of the file named by the first directory record with the tag; nothing when there is none, or it or the directory leaves the file. |
| `Sfnt.TableUnique` | drivers/font_ttf.c:163-191 | The directory determines that answer. |
| `Sfnt.SelectCmapSubtable` | drivers/font_ttf.c:193-253 | The first usable Unicode subtable, else the first usable one, else nothing. |
| `Sfnt.SubtableUnique` | drivers/font_ttf.c:193-253 | The cmap table determines that answer. |
| `Sfnt.ParseTtf` | drivers/font_ttf.c:255-314 | Parsing succeeds exactly on files that describe a font, with that font, and the table sizes later readers rely on. |
| `FontFormat.FontWritten` | drivers/font_ttf.c:255-314 | A file written with a table directory whose head, hhea and maxp hold the given numbers at the places of the OpenType chapters describes exactly that font. |
| `FontFormat.TableFound` | drivers/font_ttf.c:163-191 | The first table written under a four-letter tag is found under it. |
| `FontFormat.CmapWritten` | drivers/font_ttf.c:193-253 | Of written encoding records the first for Unicode (platform 0, or 3 with encoding 1 or 10) is chosen, else the first. |
| `FontFormat.Format4Written` | drivers/font_ttf.c:316-368 | A written Format 4 subtable gives every character in a segment the glyph of its delta or of its glyph array entry, and every other character none. |
| `FontFormat.Format12Written` | drivers/font_ttf.c:370-400 | A written Format 12 subtable gives every character in a group its glyph, if it fits sixteen bits, and every other character none. |
| `FontFormat.GlyphWritten` | drivers/font_ttf.c:417-442 | With either loca format the bytes of glyph g are those written for it. |
| `FontFormat.AdvanceWritten` | drivers/font_ttf.c:444-451 | The advance is the one written for the glyph, or the last one, exactly when it is below 0x8000; otherwise 65536 less. |
| `Cmap.CmapFormat4Glyph` | drivers/font_ttf.c:316-368 | The early-exit loop on any subtable: no glyph for one whose arrays leave it, else the glyph of the segment where the scan stops. |
| `Cmap.Format4Refines` | drivers/font_ttf.c:316-368 | On sorted disjoint segments the result is the glyph of the one segment containing the character (delta modulo 65536, range-offset indirection) and 0 when there is none, as Format 4 of the OpenType 'cmap' chapter defines. |
| `Cmap.CmapFormat12Glyph` | drivers/font_ttf.c:370-400 | The same loop over groups, with the 32-bit sum written out. |
| `Cmap.Format12Refines` | drivers/font_ttf.c:370-400 | On sorted groups the result is Format 12's mapping if and only if no containing group's sum lies in (2^32, 2^32 + 65535]. |
| `Cmap.AliasExample` | drivers/font_ttf.c:394-395 | A subtable where it does not: the standard gives no glyph, the kernel's wrapped sum gives glyph 1. |
| `Cmap.ScanFinds` | drivers/font_ttf.c:334-344 | On sorted ranges the scan stops at the unique range containing the character. |
| `Cmap.ScanIsSearch` | drivers/font_ttf.c:334-344 | On any ranges the scan stops where the chapter's search for the first end code does, if and only if no earlier range written backwards straddles the character. |
| `Cmap.GlyphForCodepoint` | drivers/font_ttf.c:402-415 | Dispatch on the format; no glyph for others. |
| `Glyphs.LoadDecoded` | drivers/font_ttf.c:760-794 | Whatever the bytes, a loaded outline has strictly increasing contour ends, the last being its last point, and fits the arrays. |
| `Glyphs.LoadedFlattens` | drivers/font_ttf.c:1045-1062 | So flattening it can fail only because the edge buffer is full. |
| `Glyphs.CompositeGlyph` | drivers/font_ttf.c:663-758 | A composite loads exactly when its component list parses, every component loads one level deeper and the total fits; its contours are then its components' contours, each moved by its offset, in order. |
| `ComponentEncoding.PartsRoundTrip` | drivers/font_ttf.c:663-758 | A component list written as the 'glyf' chapter has it (flag bits, word or byte arguments, offsets or point numbers, any transformation, instructions) is read as these components with these offsets. |
| `ComponentEncoding.PartRoundTrip` | drivers/font_ttf.c:691-734 | Likewise one component, leaving what follows. |
| `ComponentEncoding.WrittenComposite` | drivers/font_ttf.c:663-758 | So a glyph with a written description is the union of the glyphs it names, each moved by its offsets. |
| `Glyphs.MovedPoints` | drivers/font_ttf.c:465-482 | Moving adds dx to every x and dy to every y and keeps the on-curve flag. |
| `Glyphs.JoinContours` | drivers/font_ttf.c:465-482 | Appending an outline appends its contours, moved. |
| `Glyphs.DepthIrrelevant` | drivers/font_ttf.c:760-768 | Depth decides only whether a glyph loads, never what it loads as. |
| `Glyphs.CyclicFails` | drivers/font_ttf.c:736-768 | A glyph that reaches itself through its components never loads, at any depth. |
| `GlyphEncoding.AcceptsExactlyLegal` | drivers/font_ttf.c:521-661 | The simple-glyph decoder yields an outline with contours exactly from the legal descriptions of it in the 'glyf' format: any flag runs, coordinate forms, instructions and trailing bytes. |
| `GlyphEncoding.DecodeEncode` | drivers/font_ttf.c:521-661 | Every legal description decodes to its outline. |
| `GlyphEncoding.EncodeDecode` | drivers/font_ttf.c:521-661 | Whatever decodes is a legal description of the result. |
| `GlyphEncoding.SimpleGlyphLoads` | drivers/font_ttf.c:760-794 | At any depth up to 8 a glyph with a legal simple description loads as its outline, one without bytes or contours as the empty one. |
| `GlyphEncoding.RunsRoundTrip` | drivers/font_ttf.c:580-609 | Flag runs with repeat counts expand to the flags they encode. |
| `GlyphEncoding.StepsRoundTrip` | drivers/font_ttf.c:611-652 | Coordinates written in any admissible form are read back. |
| `OutlineLoader.GlyphOutline.AppendOutline` | drivers/font_ttf.c:465-482 | In place: the joined outline, or false and nothing changed when it does not fit. |
| `OutlineLoader.GlyphOutline.AppendPoint` | drivers/font_ttf.c:453-463 | In place: one more point, or false when the array is full. |
| `OutlineLoader.ReadFlags` | drivers/font_ttf.c:580-609 | In place: the flag loop, all reads inside the glyph. |
| `OutlineLoader.ReadCoordinates` | drivers/font_ttf.c:611-652 | In place: both coordinate loops. |
| `OutlineLoader.LoadSimpleOutline` | drivers/font_ttf.c:521-661 | In place: succeeds and fills the outline as the decoder of AcceptsExactlyLegal says. |
| `OutlineLoader.LoadCompositeOutline` | drivers/font_ttf.c:663-758 | In place: the do-while over components, with a fresh outline for each. |
| `OutlineLoader.LoadGlyphOutline` | drivers/font_ttf.c:760-794 | In place: total on every byte string; terminates by depth and then cursor. |
| `OutlineLoader.GlyphBounds` | drivers/font_ttf.c:417-442 | The glyph's bytes from either loca format, all reads inside the tables. |
| `OutlineLoader.GlyphAdvance` | drivers/font_ttf.c:444-451 | Glyphs past the last metric record share its advance. |
| `Raster.EvenCrossings` | drivers/font_ttf.c:886-980 | Each flattened contour is closed, so every horizontal line crosses an even number of edges. |
| `Raster.OutsideIsOutside` | drivers/font_ttf.c:982-1013 | A sample left of all edges, or at or right of all of them, is never inside. |
| `Raster.CurveEnds` | drivers/font_ttf.c:903-929 | The last step of a curve is exactly its end point, rounding included. |
| `Raster.IntersectionBetween` | drivers/font_ttf.c:1005-1006 | The crossing lies between the edge's ends; TogglesExactly says where. |
| `Filling.TogglesExactly` | drivers/font_ttf.c:982-1013 | For an edge between (x0, y0) and (x1, y1), y0 below y1, stored either way, a sample toggles if and only if y0 <= y < y1 and, by multiplication alone, x is at or right of the exact crossing rounded toward x0. |
| `Filling.PolygonFilled` | drivers/font_ttf.c:931-1013 | A polygon of fewer than 768 corners is filled exactly at the samples that are at or right of an odd number of its sides. |
| `Filling.RectangleFilled` | drivers/font_ttf.c:931-1013 | A rectangle, drawn either way, is filled exactly where left <= x < right and bottom <= y < top. |
| `Filling.TriangleFilled` | drivers/font_ttf.c:931-1013 | A counterclockwise triangle is filled exactly at the samples in its three half-planes, left and lower sides included, if and only if an even number of its sides are rounded past the sample. |
| `Filling.RoundingExample` | drivers/font_ttf.c:1005-1006 | A sample outside a triangle that is filled because one side is rounded past it. |
| `Filling.CurveIsQuadratic` | drivers/font_ttf.c:875-929 | Flattened points are those of the quadratic curve at t/8 by repeated interpolation, and implied points the midpoints, both rounded toward zero. |
| `Strokes.ContourDrawn` | drivers/font_ttf.c:931-980 | A contour is drawn as the lines and curves of its closed path with an on-curve point put between any two consecutive off-curve points, as the 'glyf' chapter has it. |
| `Raster.FailsOnlyWhenFull` | drivers/font_ttf.c:1045-1062 | Flattening a well-formed outline fails only with a full edge buffer. |
| `RasterBounds.FilledWithinBox` | drivers/font_ttf.c:886-1013 | Only samples inside the bounding box of the outline's points are filled, curves, midpoints and rounding included. |
| `RasterBounds.CurveWithin` | drivers/font_ttf.c:903-929 | Points on a flattened curve stay in the box of its three control points. |
| `Rasterizer.EdgeBuffer.AddEdge` | drivers/font_ttf.c:886-901 | In place: appends, drops horizontal edges, or false when full. |
| `Rasterizer.EdgeBuffer.AddQuadratic` | drivers/font_ttf.c:903-929 | In place: the loop over eight steps. |
| `Rasterizer.EdgeBuffer.ContourToEdges` | drivers/font_ttf.c:931-980 | In place: the loop over a contour, as EvenCrossings needs it. |
| `Rasterizer.EdgeBuffer.OutlineEdges` | drivers/font_ttf.c:1045-1062 | In place: all contours. |
| `Rasterizer.EdgeBuffer.PointInside` | drivers/font_ttf.c:982-1013 | The toggling loop decides the even-odd rule, which PolygonFilled states without division. |
| `Ramdisk.ListingIsExact` | fs/ramdisk.c:262-329 | The listing holds exactly the distinct immediate child names of a directory, each once, in order of first appearance. |
| `Ramdisk.NormalizeIsNormal` | fs/ramdisk.c:112-141 | Normalising yields a normal path. |
| `Ramdisk.NormalIsFixed` | fs/ramdisk.c:112-141 | A normal path is fixed by normalising, with or without its public leading slash. |
| `Ramdisk.WalkedEntry` | fs/ramdisk.c:210-260 | Every entry the walk meets has a normal path and data inside the archive. |
| `Ustar.ArchiveRoundTrip` | fs/ramdisk.c:157-260 | For any list of members written as ustar headers of IEEE Std 1003.1 (name, prefix, octal mode and size, typeflag), padded data and two zero blocks, the walk finds exactly these members, in order: their paths, sizes, a directory exactly for typeflag '5', executable exactly when some execute bit is set. |
| `Ustar.MemberFound` | fs/ramdisk.c:380-412 | Looking up the path of a member, the first with that path, yields the member's own bytes, kind and executability. |
| `Ustar.OthersFound` | fs/ramdisk.c:380-412 | A path no member has is found as a directory exactly when it is the root or a member lies below it; otherwise nothing is found. |
| `Ustar.WalkMembers` | fs/ramdisk.c:210-260 | The same for members anywhere in an archive, each found at its own offset. |
| `Ustar.PlainPath` | fs/ramdisk.c:157-182 | A member called n, n/ or ./n is found under n. |
| `Directories.NormalizeStrips` | fs/ramdisk.c:112-141 | Normalising takes any leading slashes and `./` and any trailing slashes off a path, and nothing else. |
| `Directories.ChildExactly` | fs/ramdisk.c:262-297 | An entry shows a child of a directory exactly when its path is directory/name, or goes on below that. |
| `Directories.ListedIsFound` | fs/ramdisk.c:380-479 | Looking up a listed path succeeds under the same name: same data, size and kind for an entry of its own; as a directory for a name shown by deeper entries when no file is above them. |
| `Directories.OctalRoundTrip` | fs/ramdisk.c:60-77 | An octal field reads back as its value. |
| `Directories.PaddingSkipped` | fs/ramdisk.c:60-77 | Spaces and NULs in front of the digits are skipped. |
| `Directories.ParseOctal` | fs/ramdisk.c:60-77 | The loop computes the field's value. |
| `Directories.NormalizePath` | fs/ramdisk.c:112-141 | The trimming loops compute the normal path. |
| `Directories.FindPath` | fs/ramdisk.c:380-412 | One walk: the first entry of that name, else a directory if the name is a prefix of one, else nothing; terminates on every archive. ArchiveRoundTrip says what the entries are. |
| `Directories.SeenBefore` | fs/ramdisk.c:299-329 | The re-scan answers whether an earlier entry shows the name. |
| `Directories.ReadDirectory` | fs/ramdisk.c:414-479 | The index-th entry of the listing, and nothing exactly when the index is past its end. |
| `Dirents.BatchingIsInvisible` | kernel/process.c:561-605 | The records of any sequence of calls are the first ones of the listing, in order, none repeated or skipped; if each buffer holds the next record, as many calls as there are entries deliver all of it. |
| `Dirents.Getdents` | kernel/process.c:561-605 | One call, for any archive, path, offset and buffer: the next records that fit are packed over the buffer, padding and everything behind them keep their bytes, the offset moves past them. |
| `Dirents.PackDecodes` | kernel/process.c:561-605 | Following d_reclen through the packed bytes reads exactly the records that fit, in order. |
| `Dirents.RecordRoundTrip` | kernel/process.c:587-598 | A record's bytes read back as the record, its length the multiple of eight that the header of 24 and the name with its NUL need. |
| `Dirents.RecordNames` | kernel/process.c:580-596 | Each record carries the name of its child and the type 4 for a directory, 8 for a file. |
| `Dirents.NamesAreProper` | fs/ramdisk.c:157-182 | Names contain no NUL and fit 255 bytes, so the reader finds their end. |
| `Arena.LoadImage` | fs/elf.c:79-155 | All or nothing: false leaves the arena untouched; true exactly when header, segments, arena size and entry are good, and then every arena byte is that of the last PT_LOAD file range covering it or zero, and the entry lies in the image. |
| `Arena.WrittenImage` | fs/elf.c:79-155 | Said of the headers a file was written from: it is taken exactly when its type is executable or shared, every PT_LOAD header is sane, their span fits the arena and holds the entry; the arena then shows at each address the bytes of the last header that brings some, else zero. |
| `Arena.FirstPass` | fs/elf.c:97-121 | The loop finds the tight bounds of all PT_LOAD segments or reports a malformed one. |
| `Arena.BoundsUnique` | fs/elf.c:97-121 | Those bounds are determined by the file. |
| `Arena.MalformedNeverFits` | fs/elf.c:79-121 | A file the first pass refuses fits no arena. |
| `Format.Vsnprintf` | lib/format.c:66-162 | The buffer holds the longest prefix of the full output that leaves room for its NUL, what is behind the NUL keeps its value, and the result is the full length, clamped. |
| `Format.SignedRoundTrip` | lib/format.c:53-64 | Every printed integer, the most negative included, parses back to its value. |
| `Format.UnsignedRoundTrip` | lib/format.c:26-51 | Likewise in every base from 2 to 16. |
| `Format.NumbersParseBack` | lib/format.c:110-141 | What d, i, u, x and X print parses back, in base ten or sixteen, to the argument modulo 2^32, or 2^64 with a modifier, signed for d and i. |
| `Format.OthersPrint` | lib/format.c:98-147 | p prints 0x and the 64-bit value in base sixteen, c the low byte, s the text or (null), % itself. |
| `Format.DirectiveExpands` | lib/format.c:73-97 | Text is copied, a directive is a percent sign, no modifier or l, ll or z, and one conversion, which takes the next argument; the rest follows. |
| `Format.DigitsAreProper` | lib/format.c:26-51 | No leading zero, small letters or capitals as asked. |
| `Format.CollectDigits` | lib/format.c:32-46 | The division loop needs at most 20 of its 32 places. |
| `Format.Sink.Putc` | lib/format.c:11-17 | One more character counted, written only where room for NUL remains. |
| `Format.Sink.WriteUnsigned` | lib/format.c:26-51 | The digits leave the array in reverse. |
| `Format.Sink.WriteSigned` | lib/format.c:53-64 | The magnitude of the most negative value is taken without overflow. |

## Left out

- LoadElf: bytes in front of the file, which a wrapping p_offset makes the source read, are zero here.
- DestroyUserSpace: `user_top` is fixed at 2^47, as every caller passes; with a lower one the source would free a table but skip its data frames.
- CloneUserSpace: `user_top` is fixed at 2^47 here too.
- CloneLevel: the four nested loops are one method recursing on the level; likewise DestroyLevel.
- MapRefinesFlatMap: flags are the low twelve bits; bit 63 and the hardware's accessed and dirty bits are not modelled.
- LoadAfterStore: a store to an unmapped page does nothing, instead of faulting; the TLB is not modelled. Present, user and writable bits are; the kernel's own accesses ignore the last two.
- StatusDelivered: assumes that the caller can read the four status bytes; likewise the buffers of GetdentsDelivers, LseekThenRead and KeysArrive.
- MemberRuns: assumes that no PT_LOAD sum of the program wraps around; likewise ExecveDecides, HeadersLoad and AdmitsExactly.
- FontWritten: says nothing of checksums and search fields, which the source does not look at.
- ExecveLoads: path and strings come as inputs, already copied from user memory; so does the path of open.
- BrkGrows: nothing is claimed about a second brk after one that broke off half-way; the pages it mapped stay.
- ReadKeeps: the keyboard is an input; a read from it that would block is not a step.
- ReapedOnce: pids are unbounded; by PidsFitInt this differs from the 32-bit counter only after 2^31 - 2 vfork calls. Likewise GoneForGood.
- FillStackRoundTrip: claims 8-byte alignment only, which is what the source gives in general.
- ParseTtf: does not keep ascent, descent, line gap and the OS/2 fields.
- LoadGlyphOutline: coordinates are mathematical integers and the int16 bounding box is not modelled.
- FilledWithinBox: edge arithmetic is in mathematical integers, without 32-bit overflow.
- ListedIsFound: asks for full paths under 255 bytes, since longer ones are cut by the path buffer.
- NormalizePath: returns the path instead of filling the caller's buffer; so do the other ramdisk operations. The trailing-slash test at fs/ramdisk.c:184-192 is never true of a normalised path and is omitted.
- Vsnprintf: asks for a format string that does not end inside a directive; an argument of the wrong kind reads as 0 or NULL.
- Boot protocol, port I/O, console, keyboard, shell, logging, panics, assembly.
- kernel/userland.c, an earlier runner that is not called.
- write, access, uname, getcwd, the uid and gid queries and the system call numbers.
- Font module discovery, font metrics, cell layout, coverage sampling and the missing-glyph box.
- Module selection in the ramdisk's initialisation; the model starts from an archive.
- lib/string.c, in place of which sequence operations are used.
