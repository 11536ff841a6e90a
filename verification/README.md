# Verification of the weird-os kernel's heap, ram disk, paging and small devices

This project models the parts of the kernel whose correctness rests on an
argument rather than on a reading, and proves that argument.

**Heap.** `HeapBlocks` describes the allocator's block list and each operation
on it; `HeapTheorems` proves what the operations keep and undo, over whole
runs. `HeapMemory` says how a list lies in byte memory (16-byte little-endian
headers, doubly linked), `HeapHeaders` rewrites headers in memory, and the class in
`Heap.dfy` runs the kernel's own loops on that memory and ties each of them to
the list. `HeapRuns` follows a client's buffer through any run. `HeapAligned`
proves exactly when the page-aligned path leaves a heap behind, with
`HeapOverlap` for headers moved by less than their own length. A failed
`assert` never returns (kernel/assertk.cpp:19), so it is modelled as the result
`Halted`.

**Ram disk.** `SourceTree` is the directory tree, `Makefs` the image writer,
`Initrd` the reader that rebuilds the tree, `HashMap` its inode cache,
`Paths` and `Vfs` path resolution and mounting. `EndToEnd` joins them into the
boot: below "/dev" a path resolves exactly when its rest resolves in udev, any
other path exactly when it is in the source tree, and reading gives back the file.

**Paging.** `Frames` is the bitset of physical frames, on 32-bit words;
`Paging` the page tables, the range allocator with its 32-bit sums, and runs
over several directories.

**Devices and text.** `Console` (the screen shows the end of the text written),
`Fifo` (an overlapping shift in place implements a queue) and `Itoa`.

## Where the code does less than it seems to promise

Each of these is proved, with the exact condition under which the code does what
it should: page-aligned allocation (`AlignedHeap.AllocAligned`), reading
at an offset (`EndToEnd.ReadAtOffset`), running out of frames
(`Paging.RunSeparate`; frame 0 comes back and the assertion compares with -1),
freeing a frame (`Paging.FreeFrameMisses`), allocating from an unaligned start
(`Paging.CoversExactly`), booting from a tree without an entry "dev"
(`EndToEnd.Boot`), mounting below the top directory or twice at one place
(`VirtualFileSystem.Vfs.MountDevice`), writing more than the FIFO holds
(`Fifo.Fifo.WriteBytes`; the input is `Fifo.IndexOverwritten`), mapping pages inside the
kernel's 4 MB slots (`Paging.LargeEntryKept`), the scratch buffer of `itoa`
(`IntegerText.ScratchSuffices`) and its digits from ten on
(`IntegerText.TextUsual`, with `IntegerText.TenIsK` as the input). The root
directory's inode is written with mode 0777 and without the directory bit
(scripts/makefs.c:165), so the end-to-end statements are about the entries below
the root.

## Model

| member | source | states |
|---|---|---|
| `Memory.MemCopy` | kernel/clib/string.cpp:48-52 | The forward byte copy on one memory array: every byte written, also when source and destination overlap (then a destination inside the source repeats its first bytes); a left shift or disjoint ranges copy exactly; nothing else changes |
| `KernelHeap.Heap.constructor` | kernel/kmalloc.cpp:48-58 | `create_heap` leaves a well-formed heap of one free block over the region and writes nothing outside it |
| `HeapHeaders.MergeBlocks` | kernel/kmalloc.cpp:26-35 | The exact headers after `merge_blocks`, including the back link of the block behind, and that no other byte changes |
| `HeapHeaders.CreateNewBlockHeader` | kernel/kmalloc.cpp:141-157 | The exact headers after a split, including the wrapped size of the rest and the back link of the block behind, and that no other byte changes; also where that block's header overlaps the one being split, which is then read as overwritten |
| `KernelHeap.Heap.FirstFree` | kernel/kmalloc.cpp:102-105 | The walk stops at the first free block, or at the failed assertion exactly when it saw only used ones |
| `KernelHeap.Heap.FindBlock` | kernel/kmalloc.cpp:99-125 | The one-pass search settles on the first free block of minimal sufficient size, or on the first free block when none suffices |
| `HeapTheorems.BestFitExists` | kernel/kmalloc.cpp:114-136 | A best fit exists exactly when some free block is large enough |
| `HeapTheorems.FoundUnique` | kernel/kmalloc.cpp:99-125 | The block the search settles on is unique, also when nothing suffices |
| `HeapTheorems.AllocDeterministic` | kernel/kmalloc.cpp:114-125 | The best fit is unique, so an allocation is a function of the block list |
| `HeapTheorems.AllocMeans` | kernel/kmalloc.cpp:114-165 | An allocation takes the first free block of minimal sufficient size and splits its rest off as a free block exactly when that is more than 20 bytes; every other block stays |
| `HeapTheorems.AllocPossible` | kernel/kmalloc.cpp:114-136 | There is an allocation exactly when some free block is large enough |
| `KernelHeap.Heap.AllocInternal` | kernel/kmalloc.cpp:97-168 | On memory: the heap stays well formed, the result is the best fit's payload with the rest split off when it is worth it, every live payload and all memory outside is untouched, and the assertion fails exactly when no free block is large enough |
| `HeapTheorems.AllocKeeps` | kernel/kmalloc.cpp:159-168 | An allocation keeps tiling and coalescing and adds exactly one live block of at least the asked and at most 20 bytes more size, disjoint from every live block |
| `KernelHeap.Heap.MergeForwards` | kernel/kmalloc.cpp:183-197 | The forward merge loop absorbs all free successors and moves no live payload |
| `KernelHeap.Heap.MergeBackwards` | kernel/kmalloc.cpp:199-216 | The backward merge loop is absorbed by all free predecessors and moves no live payload |
| `KernelHeap.Heap.Free` | kernel/kmalloc.cpp:174-217 | `free` returns exactly behind a valid header; a used block is released, a header marked free changes nothing; the heap stays well formed and coalesced and every other live payload and all memory outside is untouched; afterwards the header before the pointer is marked free even where a merge swallowed it, so a second `free` does nothing |
| `HeapTheorems.FreeKeeps` | kernel/kmalloc.cpp:174-217 | A free keeps tiling and coalescing and removes exactly the freed block from the live set |
| `HeapTheorems.FreeDeterministic` | kernel/kmalloc.cpp:174-217 | Which list `free` leaves depends only on the list and the pointer |
| `KernelHeap.Heap.Krealloc` | kernel/kmalloc.cpp:219-245 | `krealloc` takes the reallocation step on memory; the old payload is found at the result, every other live payload is untouched, and it halts exactly for a bad pointer or when it has to move and nothing fits |
| `HeapTheorems.ReallocMeans` | kernel/kmalloc.cpp:223-244 | The block stays where it is if and only if it is large enough or its free successor makes it so; a request within its size changes nothing, any other gives at most 20 bytes too many, and a move goes to the first free block of minimal sufficient size |
| `HeapTheorems.ReallocHaltsMeans` | kernel/kmalloc.cpp:226-234 | It halts if and only if the block is too small, its successor does not make it large enough and no free block is |
| `HeapTheorems.ReallocKeeps` | kernel/kmalloc.cpp:219-245 | Reallocation keeps the heap well formed and replaces exactly one live block by one of at least the asked and at least the old size, disjoint from all others |
| `HeapTheorems.GrowKeeps` | kernel/kmalloc.cpp:236-244 | Growing in place keeps tiling and coalescing although the rest is split off as a free block, and keeps the address |
| `HeapTheorems.MoveKeeps` | kernel/kmalloc.cpp:230-234 | Allocating, copying and freeing exchanges exactly the old live block for the new one |
| `HeapTheorems.ShapeMeans` | kernel/kmalloc.cpp:48-58 | A heap is a chain of blocks of a 16-byte header and a payload that fills the region, of two neighbours at least one used |
| `HeapBlocks.PayloadsDisjoint` | kernel/kmalloc.cpp:65-67 | Different blocks of a well-formed heap never overlap |
| `HeapBlocks.TotalConserved` | kernel/kmalloc.cpp:48-58 | Header and payload sizes of a tiling list always add up to the heap size |
| `HeapMemory.LayoutUnique` | kernel/kmalloc.cpp:114-125 | The bytes of memory determine the block list |
| `HeapMemory.LayoutMeans` | includes/kernel/kmalloc.h:6-31 | Every header byte by byte: the magic number with the used bit, size, next and previous address, each little-endian |
| `HeapMemory.KeepsLiveMeans` | kernel/kmalloc.cpp:65-67 | What the operations keep, byte by byte: all memory outside the region and every byte of a live payload |
| `HeapTheorems.RunKeeps` | kernel/kmalloc.cpp:141-245 | Every state of every run of allocations, frees and reallocations tiles the region, is coalesced and conserves its bytes |
| `HeapTheorems.Canonical` | kernel/kmalloc.cpp:174-217 | The region and the set of live blocks determine the whole list of a coalesced heap |
| `HeapTheorems.RunsAgree` | kernel/kmalloc.cpp:141-245 | Two runs end with the same list if and only if they end with the same live blocks; a run is back at the initial heap if and only if nothing is live |
| `HeapTheorems.AllocThenFree` | kernel/kmalloc.cpp:141-217 | Freeing what an allocation just returned restores the exact list, split or not |
| `HeapTheorems.FreesCommute` | kernel/kmalloc.cpp:174-217 | Two frees commute |
| `HeapTheorems.FreeAllRestores` | kernel/kmalloc.cpp:48-217 | Freeing all live blocks in any order gives back the block that `create_heap` made |
| `HeapTheorems.EmptyHeapIsInitial` | kernel/kmalloc.cpp:48-58 | A well-formed heap has no live block if and only if it is the initial one |
| `HeapRuns.StepHolds` | kernel/kmalloc.cpp:159-245 | One heap operation that does not free a buffer leaves it live, at its address or where its own `krealloc` moved it, with its content |
| `HeapRuns.AlignedHolds` | kernel/kmalloc.cpp:77-168 | A page-aligned allocation that meets its condition keeps every buffer, also that of the predecessor, whose block grows |
| `HeapRuns.StoreKeepsHeap` | kernel/kmalloc.cpp:65-67 | A client's store anywhere in a live payload leaves every header, and so the heap, as it is |
| `HeapRuns.BufferSurvives` | kernel/kmalloc.cpp:159-245 | Through any run of heap operations, of page-aligned allocations that meet their condition and of stores into other live payloads, a buffer that is never freed stays live at the address its last `krealloc` returned and still starts with its content |
| `HeapRuns.MemoryRunKeeps` | kernel/kmalloc.cpp:77-245 | Every state of such a run tiles the region, is coalesced and conserves its bytes |
| `HeapRuns.Allocate` | kernel/kmalloc.cpp:159-168 | `alloc_internal` on memory is such a step |
| `HeapRuns.Release` | kernel/kmalloc.cpp:174-217 | `free` of a block is such a step |
| `HeapRuns.Reallocate` | kernel/kmalloc.cpp:219-245 | `krealloc` is such a step |
| `HeapRuns.AllocateAligned` | kernel/kmalloc.cpp:97-168 | A page-aligned allocation that meets its condition is such a step |
| `HeapRuns.StoreInto` | kernel/kmalloc.cpp:65-67 | A client's store into a live block is such a step and keeps the heap |
| `AlignedHeap.MakeAlignedBlock` | kernel/kmalloc.cpp:77-95 | Memory after the shift to the next page, byte by byte: the three field writes, then the forward copy, overlapping or not; no other byte changes |
| `AlignedHeap.AlignedShifted` | kernel/kmalloc.cpp:92 | A header moved by at least its own length arrives intact |
| `AlignedHeap.OverlappingMove` | kernel/kmalloc.cpp:92 | A header moved by less than its own length survives the forward copy exactly when it repeats itself with the period of the shift |
| `AlignedHeap.FindAligned` | kernel/kmalloc.cpp:106-131 | The aligned search settles on a block as `AlignedHeap.ChoiceMeans` says, and its assertion fails as `AlignedHeap.RefusedMeans` says or when nothing is free |
| `AlignedHeap.ChoiceMeans` | kernel/kmalloc.cpp:107-125 | The request is enlarged by the first payload's page offset; the block chosen is the first free one of minimal size for that if any free block is large enough, else the first free one |
| `AlignedHeap.RefusedMeans` | kernel/kmalloc.cpp:127-131 | The assertion fails exactly when the chosen block's size plus its page offset, in 32 bits, is below the request |
| `AlignedHeap.OkMeans` | kernel/kmalloc.cpp:77-162 | The condition on addresses and sizes: a predecessor, a move by 16 bytes or more, room for the request behind it, and the last block or a rest of more than 20 bytes |
| `AlignedHeap.ResultMeans` | kernel/kmalloc.cpp:77-165 | The list after a call that keeps the heap: the predecessor grows by the skipped bytes, the block starts on the page, the rest is split off |
| `AlignedHeap.AlignedKeeps` | kernel/kmalloc.cpp:77-168 | Under its condition the aligned allocation keeps tiling and coalescing, conserves the bytes, gives the skipped bytes to the predecessor and adds one live block of at least the asked size on a page boundary |
| `AlignedHeap.AllocAligned` | kernel/kmalloc.cpp:97-168 | The result is the first page boundary behind the start of the chosen block's payload; memory holds a well-formed heap afterwards if and only if the chosen block has a predecessor, moves its header by at least its own length, still holds the request after the shift, and is last or gets split; then live payloads are untouched too |
| `AlignedHeap.NoPredecessor` | kernel/kmalloc.cpp:87-89 | Without a predecessor, a move by at least one header breaks the heap, whatever the block's size |
| `AlignedHeap.TooSmall` | kernel/kmalloc.cpp:127-162 | A block too small after the shift, even smaller than the shift itself, is split behind its own end through the wrapped remainder and the heap is broken, when the moved header does not overlap the following one |
| `AlignedHeap.CornerBreaks` | kernel/kmalloc.cpp:87-157 | In the kernel's region the heap is broken too when the moved header does overlap the following one |
| `OverlappedHeap.LinkOverHeader` | kernel/kmalloc.cpp:145-151 | The back link then written over the moved header leaves its size out of range or its next link out of step, at every one of the 31 possible offsets |
| `OverlappedHeap.NextOverwritten` | kernel/kmalloc.cpp:141-165 | So no heap can be read from that memory |
| `AlignedHeap.OverlapBreaks` | kernel/kmalloc.cpp:77-165 | In the kernel's region a header moved by one to fifteen bytes breaks the heap, first block or not, whatever the tail of the call writes through the garbled links; a block smaller than a move by twelve or more is the case of `CornerBreaks` |
| `AlignedHeap.BigRequest` | kernel/kmalloc.cpp:127-131 | A request of a page or more never settles on a block smaller than its shift |
| `OverlappedHeap.PreviousAlien` | kernel/kmalloc.cpp:92 | After such a move, for all shifts but eight to ten, the back link holds magic bytes and points outside the kernel heap |
| `OverlappedHeap.NextAlien` | kernel/kmalloc.cpp:92 | For all shifts below twelve but six, the next link does |
| `OverlappedHeap.FirstOverwritten` | kernel/kmalloc.cpp:165 | The used magic written one to fifteen bytes into the first header rules out every reading of the memory as a heap |
| `OverlappedHeap.FinishWindow` | kernel/kmalloc.cpp:141-165 | In front of the block the tail of the call overwrites at most one word, whatever the next link holds |
| `OverlappedHeap.LinkStays` | kernel/kmalloc.cpp:145-155 | One overwritten word cannot move a header's link and keep it in step with its size |
| `OverlappedHeap.AlienLink` | kernel/kmalloc.cpp:141-165 | So every heap read from that memory would reach the moved header, whose links rule it out |
| `AlignedHeap.BrokenLink` | kernel/kmalloc.cpp:87-94 | A back link left pointing at the old header position rules out every well-formed reading of memory |
| `AlignedHeap.FreshHeapBreaks` | kernel/page.cpp:85-139 | On the kernel heap as created, the first page-aligned request of any size up to 3 MB meets the block without a predecessor |
| `AlignedHeap.KeptCase` | kernel/kmalloc.cpp:97-168 | A concrete heap that the aligned call keeps |
| `AlignedHeap.TooSmallCase` | kernel/kmalloc.cpp:127-162 | A concrete heap whose chosen block is too small after the shift |
| `AlignedHeap.BelowShiftCase` | kernel/kmalloc.cpp:114-131 | A concrete heap whose best fit is smaller than the shift itself |
| `AlignedHeap.StaleCase` | kernel/kmalloc.cpp:87-94 | A concrete heap left with a stale back link |
| `AlignedHeap.OverlapCase` | kernel/kmalloc.cpp:92 | A concrete heap whose chosen header moves by twelve bytes only |
| `AlignedHeap.CornerCase` | kernel/kmalloc.cpp:87-157 | A concrete heap whose moved header overlaps the following one |
| `AlignedHeap.EnlargedCase` | kernel/kmalloc.cpp:107-121 | A concrete heap on which the enlarged request passes over a free block of the asked size that would break the heap |
| `Makefs.Writer.ConvertDirent` | scripts/makefs.c:42-61 | A new id is taken, its name and inode are filled in, and no other entry changes |
| `Makefs.Writer.LoadData` | scripts/makefs.c:63-75 | The content is appended to the blob and its offset returned |
| `Makefs.Writer.TraverseDir` | scripts/makefs.c:77-123 | The tables hold the listing: names, attributes, parent, last-written first child, previous sibling, data offsets; earlier entries are untouched and the ids and data bytes used are exactly those of the listing |
| `Makefs.HoldsKept` | scripts/makefs.c:77-123 | Writing later entries and data never disturbs a listing already written |
| `Makefs.MakeImage` | scripts/makefs.c:143-171 | The whole image, with the root entry's mode 0777 |
| `Makefs.HoldsMeans` | scripts/makefs.c:77-123 | The tables entry by entry: ids in the order of the walk, the previous entry as sibling, the last one of its own listing as first child, mode, ids, sizes and content in place |
| `Makefs.LinksOrdered` | scripts/makefs.c:82-122 | In a written image a first child is larger than its entry, a sibling smaller, a parent smaller, and 0 names none of them |
| `CStrings.CStringReads` | scripts/makefs.c:45 | A name written with its terminator reads back whatever follows it |
| `CStrings.StrCmp` | kernel/clib/string.cpp:62-73 | True exactly for equal strings |
| `HashMap.PolynomialMeans` | includes/util/hashmap.h:24-30 | The polynomial starts at 5381 and takes each byte with a factor 33 |
| `HashMap.DjbIsPolynomial` | includes/util/hashmap.h:24-30 | The wrapping 32-bit hash is that polynomial modulo 2^32 |
| `HashMap.HashIsPolynomial` | includes/util/hashmap.h:24-30 | The bucket is the polynomial modulo 256; wrapping does not matter |
| `HashMap.Hash` | includes/util/hashmap.h:24-30 | The loop computes that bucket |
| `HashMap.EarliestMeans` | includes/util/hashmap.h:57-66 | Looking through the entries finds the value of one with the key before which there is none with it, or none exactly when no entry has the key |
| `HashMap.EarliestInChain` | includes/util/hashmap.h:57-66 | Looking through one bucket finds what looking through all entries finds |
| `HashMap.EarliestAppend` | includes/util/hashmap.h:68-79 | A later entry with an equal key is never found |
| `HashMap.HashMap.Get` | includes/util/hashmap.h:57-66 | `get` returns the value of the earliest `set` with the key |
| `HashMap.HashMap.Set` | includes/util/hashmap.h:68-79 | `set` appends to the entries and keeps every bucket the filtered entry list |
| `FileSystem.Dirent.GetChild` | includes/kernel/fs/fs.h:136-156 | The first child with the name, or none when there is none |
| `FileSystem.Read` | kernel/fs/initrd.cpp:21-25 | A read delivers the first `min(size, nbyte)` bytes behind data pointer plus offset and touches no further byte of the buffer |
| `InitrdDevice.Cache` | kernel/fs/initrd.cpp:39-75 | On linked tables the recursion ends, makes a fresh tree of entries that spells the tables, in reverse order of writing, with parents set, and hands the inode cache exactly the entries it visits |
| `InitrdDevice.HoldsLinked` | kernel/fs/initrd.cpp:66-72 | Whatever the writer wrote is linked as the reader needs it |
| `InitrdDevice.VisitsAll` | kernel/fs/initrd.cpp:39-75 | `cache` visits every id exactly once |
| `InitrdDevice.Initrd.constructor` | kernel/fs/initrd.cpp:77-82 | From every image the writer makes, the device's tree is the tree of the tables and its cache holds exactly their inodes |
| `InitrdDevice.Initrd.GetInode` | kernel/fs/initrd.cpp:86-88 | The inode table's entry for every written id, and nothing for any other |
| `Paths.SplitString` | includes/util/string.h:112-139 | `split` computes the pieces |
| `Paths.SplitSnoc` | includes/util/string.h:112-139 | A separator at the end starts an empty piece, any other byte makes the last piece longer |
| `Paths.SplitJoins` | includes/util/string.h:112-139 | The pieces are free of separators and join back to the string |
| `Paths.JoinSplits` | includes/util/string.h:112-139 | Splitting a join of separator-free pieces gives them back |
| `VirtualFileSystem.Vfs.ResolvePath` | kernel/fs/vfs.cpp:30-54 | The byte-by-byte scan ends at the entry that folding `get_child` over the split path leads to; the assertion fails exactly for a path without a leading slash |
| `VirtualFileSystem.ComponentsMean` | kernel/fs/vfs.cpp:33-46 | A path's components are the only slash-free pieces that, joined with slashes, give what follows its first byte |
| `VirtualFileSystem.WalkPrefix` | kernel/fs/vfs.cpp:39-46 | Stopping at the first missing component is right: the whole path leads nowhere |
| `VirtualFileSystem.Vfs.MountDevice` | kernel/fs/vfs.cpp:9-28 | Mounting at "/" replaces the root; mounting at any deeper path splices the device's tree in at the end of that path; it halts exactly when the path is not absolute, names nothing or names an entry without a parent; and when it returns, the path leads to the device if and only if it has one component |
| `VirtualFileSystem.Vfs.MountBelow` | kernel/fs/vfs.cpp:16-23 | The same for the entry objects below the root, whose tree stays in order |
| `VirtualFileSystem.Hang` | kernel/fs/vfs.cpp:22-23 | Replacing one child of an entry anywhere in the tree leaves the whole tree valid, with exactly that subtree exchanged |
| `VirtualFileSystem.ParentFound` | kernel/fs/vfs.cpp:20-23 | The resolved entry's parent is the entry one component up, and looking its name up there finds it again |
| `VirtualFileSystem.MountOne` | kernel/fs/vfs.cpp:16-24 | After a mount every path through the component resolves in the device and every other path as before |
| `VirtualFileSystem.MountReachable` | kernel/fs/vfs.cpp:16-24 | On the tree: the mounted path leads to the device if and only if it has one component, because the new identifier is the whole path behind the slash |
| `VirtualFileSystem.DeepMountLost` | kernel/fs/vfs.cpp:16-24 | After mounting at "/a/b" that path leads nowhere |
| `EndToEnd.TreesShow` | scripts/makefs.c:77-123 | The tables of a written image spell the source tree: names, attributes, directory bit, contents |
| `EndToEnd.WalkFinds` | kernel/fs/vfs.cpp:30-54 | A path that resolves leads to a source entry with the same attributes and content |
| `EndToEnd.WalkReaches` | kernel/fs/vfs.cpp:30-54 | Every path of the source tree resolves |
| `EndToEnd.Boot` | kernel/fs/fs.cpp:13-23 | Packing a good tree, reading the image, mounting it at "/" and udev at "/dev" halts if and only if the tree has no top-level entry "dev"; otherwise the file system is the source tree with udev in the place of that entry |
| `EndToEnd.DevMounts` | kernel/fs/vfs.cpp:16-21 | While nothing was mounted, a mount at "/dev" fails only for want of that entry |
| `EndToEnd.BootedWalk` | kernel/fs/fs.cpp:19-20 | In that tree a path below "dev" leads where its rest leads in udev, any other path exactly where it leads in the source tree |
| `EndToEnd.Resolve` | kernel/fs/vfs.cpp:30-54 | In the booted file system a path with first component "dev" resolves if and only if its rest resolves in udev, to that entry; any other path resolves if and only if it is in the source tree, and to that entry |
| `EndToEnd.LeadsOnce` | scripts/makefs.c:84-118 | A path of a tree with unique sibling names leads to one entry only |
| `EndToEnd.ReadFile` | kernel/fs/initrd.cpp:21-25 | Reading a resolved file at offset 0 delivers the first `min(n, size)` bytes of the original |
| `EndToEnd.ReadAtOffset` | kernel/fs/initrd.cpp:21-25 | A read at any offset delivers the number of bytes it should if and only if the offset is 0, nothing is asked, the file is empty or the range ends inside the file; then they are the right bytes, inside the image |
| `EndToEnd.OffsetReadsOn` | kernel/fs/initrd.cpp:21-25 | A two-byte read from offset 1 of a two-byte file also delivers the byte behind the file |
| `Frames.OneBit` | kernel/page.cpp:21-34 | Setting or clearing a bit changes exactly that bit of the word |
| `Frames.AllBits` | kernel/page.cpp:47 | Only the word 0xffffffff has no clear bit |
| `Frames.FrameSet.constructor` | kernel/page.cpp:122-135 | At boot exactly the low 2048 frames are marked |
| `Frames.FrameSet.SetFrame` | kernel/page.cpp:21-26 | Exactly the frame of the address becomes marked |
| `Frames.FrameSet.ClearFrame` | kernel/page.cpp:29-34 | Exactly the frame of the address becomes unmarked |
| `Frames.FrameSet.FirstFrame` | kernel/page.cpp:45-58 | The least unmarked frame, and 0 exactly when none is left |
| `Frames.FirstFreeMeans` | kernel/page.cpp:45-58 | The frame handed out is the least of the 16384 that is not marked, and 0 exactly when all are |
| `Paging.AllocFrame` | kernel/page.cpp:61-72 | An entry with a frame is left alone; any other becomes present, writable and for users as asked, and gets the least free frame, which becomes marked; the assertion never fails |
| `Paging.FreeFrame` | kernel/page.cpp:75-83 | The entry loses its frame, but the frame's number is treated as an address |
| `Paging.FreeFrameMisses` | kernel/page.cpp:80 | So the frame stays marked and one of the locked frames is unmarked instead |
| `Paging.PageDirectory.constructor` | kernel/page.cpp:94-109 | A forked directory has no tables and exactly the two 4 MB entries |
| `Paging.PageDirectory.GetPage` | kernel/page.cpp:169-188 | The place of the page's entry; creating a missing table changes no page entry, and of the physical directory only its own slot |
| `Paging.PageDirectory.GetPhys` | kernel/page.cpp:154-164 | The physical address through a 4 MB entry, and the failed assertion through any other |
| `Paging.Allocate` | kernel/page.cpp:193-204 | The loop with its 32-bit sums maps exactly the pages from the truncated address over the rounded-up size, and makes a table exactly for the visited slots that had none |
| `Paging.AccessBits` | kernel/page.cpp:61-72 | In a range, exactly the entries without a frame become present, writable if and only if asked, for users if and only if not for the kernel, with accessed, dirty and unused bits as before |
| `Paging.LargeEntryKept` | kernel/page.cpp:169-188 | A call keeps the 4 MB entry of a slot if and only if it visits no page there or the slot had a table; otherwise `get_phys` fails there from then on |
| `Paging.RangeEffect` | kernel/page.cpp:199-201 | Entries outside the range and entries with a frame stay; every other gets a frame that was free; no frame is handed out twice |
| `Paging.RangeCount` | kernel/page.cpp:199-201 | The range gets mapped completely if and only if there are enough free frames; the marks grow by the number of unmapped pages, or to exhaustion |
| `Paging.RunSeparate` | kernel/page.cpp:45-204 | Over any run over any number of directories, present entries never share a frame, used frames are marked and lie above 2048 if and only if every call finds enough free frames |
| `Paging.SeparateMeans` | kernel/page.cpp:45-72 | In a separate system a present entry's frame is marked, from 2048 to 16383, and no other entry's in any directory |
| `Paging.Exhausted` | kernel/page.cpp:45-67 | A boot-time run of one call for 14337 pages, one more than there are frames, ends with a present entry in frame 0 |
| `Paging.EndPageIs` | kernel/page.cpp:195-199 | The visited range is the rounded-up size, or nothing when its end does not fit 32 bits |
| `Paging.CoversExactly` | kernel/page.cpp:195-199 | Every requested byte is mapped if and only if the rounded end fits 32 bits and the start's page offset plus the size fits the rounded size |
| `Paging.TailMissed` | kernel/page.cpp:195-199 | 4096 bytes from address 1 on map page 0 only |
| `Paging.KernelMemoryApart` | kernel/page.cpp:103-164 | Through the 4 MB entries of a directory, kernel and kernel-heap addresses have their own offsets in the first and second 4 MB of memory, and no frame allocated to any directory lies there |
| `Console.Screen.Clear` | kernel/drivers/vga/vga.cpp:91-99 | A blank screen shows the empty text |
| `Console.Screen.ScrollLine` | kernel/drivers/vga/vga.cpp:63-73 | Every row moves up by one and the last one becomes blank |
| `Console.Screen.NextLine` | kernel/drivers/vga/vga.cpp:78-86 | The screen shows the layout with one more line, scrolling exactly when 24 lines are shown |
| `Console.Screen.KPutChar` | kernel/drivers/vga/vga.cpp:104-128 | After any text since `cleark`, one more character keeps the screen the last 24 lines of the text's layout, padded with blanks, and the cursor at its end; every write is inside the 80 by 24 cells |
| `Console.Screen.Write` | kernel/drivers/vga/vga.cpp:156-163 | The same for a whole buffer |
| `Console.WrapsAtWidth` | kernel/drivers/vga/vga.cpp:121-125 | Text without control characters is cut into lines of 80 characters, and a full last line stays last until more is written |
| `Console.ScreenMeans` | kernel/drivers/vga/vga.cpp:63-128 | Each of the 24 rows of 80 cells is the layout's line that far above its end, or blank, and the cursor is at the end of what was typed last |
| `Console.TextOnScreen` | kernel/drivers/vga/vga.cpp:104-128 | Character k of a text without control characters is at column k modulo 80 of line k / 80, white on black, while that is one of the last 24 lines |
| `Console.NewlineSeparates` | kernel/drivers/vga/vga.cpp:116-117 | The text after a byte 10 is laid out on its own below the text before it |
| `Console.ReturnOverwrites` | kernel/drivers/vga/vga.cpp:118-120 | Any text after a byte 13 is laid out as on an empty screen, its first line laid over the line the return was on: the longer rest of that line and all lines above stay |
| `Console.ReturnMeans` | kernel/drivers/vga/vga.cpp:118-120 | Cell by cell, the line the return was on shows what was typed after it and behind that its own longer rest; all lines above stay |
| `Fifo.Fifo.constructor` | kernel/fs/fifo.cpp:4-7 | The index is what memory held: there is a FIFO if and only if that is at most 255, and it is empty if and only if it is 0 |
| `Fifo.Fifo.ReadBytes` | kernel/fs/fifo.cpp:11-19 | All or nothing: the first nbyte queued bytes are delivered and removed, or nothing changes; memory afterwards is given byte by byte, the index word included, and nothing outside the record and the caller's buffer changes |
| `Fifo.Fifo.WriteBytes` | kernel/fs/fifo.cpp:21-25 | The bytes are copied behind the queued ones and the index becomes the word found after the copy plus their number; the FIFO is in order with the bytes queued if and only if they fit the 255 bytes |
| `Fifo.IndexIsSum` | kernel/fs/fifo.cpp:22-23 | The index is the old one plus the number of bytes if and only if the copy leaves the index word alone, and always when they end in front of it |
| `Fifo.IndexOverwritten` | kernel/fs/fifo.cpp:21-25 | A write of 260 bytes to an empty FIFO whose last four bytes make the index 10 |
| `Fifo.FirstInFirstOut` | kernel/fs/fifo.cpp:11-25 | Over any run of the queue, the bytes delivered followed by the bytes still queued are the bytes queued at first followed by the bytes written |
| `Fifo.Perform` | kernel/fs/fifo.cpp:11-25 | Any run of reads and writes on the device that stays within the capacity delivers and leaves what the queue does |
| `Fifo.CapacityExactly` | kernel/fs/fifo.cpp:21-25 | Every write of a run finds room if and only if the queue is at most 255 bytes long after each of its calls |
| `Fifo.WritesFit` | kernel/fs/fifo.cpp:21-25 | Writes alone fit if and only if all their bytes together do |
| `Fifo.DrainDeliversAll` | kernel/fs/fifo.cpp:11-25 | A run of the queue that ends by reading what is left delivers exactly what was written |
| `IntegerText.Itoa` | kernel/clib/string.cpp:7-46 | The text and a NUL are written, the length returned, and no further byte of the buffer touched |
| `IntegerText.SignMeans` | kernel/clib/string.cpp:35-38 | The text's first byte is 45, a minus sign, if and only if the base is 10 and the number negative |
| `IntegerText.ParseUndoes` | kernel/clib/string.cpp:7-46 | Parsing a base-10 text gives the number back for every 32-bit value, the least one included; in other bases its unsigned reading |
| `IntegerText.NumeralValue` | kernel/clib/string.cpp:28-33 | The digits written are those of the number, for every base whose digits are distinct characters |
| `IntegerText.DigitAt` | kernel/clib/string.cpp:28-33 | Character i from the right is the digit of base^i, counted from '0' below ten and from 'a' from ten on, for every base |
| `IntegerText.NoLeadingZero` | kernel/clib/string.cpp:15-46 | A text starts with '0' if and only if the number is 0 |
| `IntegerText.DigitCount` | kernel/clib/string.cpp:28-33 | The number has at most k digits if and only if it is below base^k |
| `IntegerText.ScratchSuffices` | kernel/clib/string.cpp:8-38 | The 16-byte scratch buffer suffices if and only if the number is below base^16, which is always so from base 4 on |
| `IntegerText.BinaryOverruns` | kernel/clib/string.cpp:8-33 | In base 2 the number 65536 does not fit the scratch buffer |
| `IntegerText.TextUsual` | kernel/clib/string.cpp:28-33 | For every base up to 36 the text is the usual one if and only if no digit of the number is ten or more, which is always so up to base 10 |
| `IntegerText.UsualExactly` | kernel/clib/string.cpp:31 | The same for the digits alone: the digit character is the usual one exactly below ten |
| `IntegerText.TenIsK` | kernel/clib/string.cpp:31 | In base 16, 10 is written "k" and -1 "pppppppp" |

## Left out

- AlignedHeap.AllocAligned: three pages of address space lie behind the heap (as behind 0xd0000000 with 4 MB, kernel/page.cpp:85-87). Where the moved header overlaps its old place, or for a request below one page the following header, the heap is the kernel's region in a full 32-bit address space; there the magic bytes and wrapped sizes left in the overlapping headers cannot be those of a heap. For other regions that case is not decided.
- KernelHeap.Heap.Free: the pointer is a block's payload, or no valid header marked used precedes it. Payload bytes that imitate such a header are excluded.
- KernelHeap.Heap.Krealloc: the pointer is a live block's payload, or no valid header precedes it; `krealloc` of a freed block or behind a stale header is not modelled.
- VirtualFileSystem.Vfs.MountDevice: away from "/" the device is a tree of its own whose root has no parent, as udev's has (kernel/fs/udev.cpp:9).
- EndToEnd.Boot: udev is any tree whose root has no parent; what udev puts into it (kernel/fs/udev.cpp:7-55) is not modelled.
- VirtualFileSystem.Vfs.ResolvePath: components are at most 254 bytes long; the scan buffer has no bound of its own.
- Fifo.Fifo.WriteBytes: the caller's bytes lie outside the record and are not run over by the copy; the index word is 256 bytes behind the start of the array, where alignment puts it.
- Makefs.MakeImage: at most 255 entries, names of at most 135 bytes and less than 4 GB of data, so that ids, name fields and 32-bit offsets do not overflow.
- Paging.Allocate: a fresh table is a new array of zero entries at some page's physical address; the heap it comes from is not modelled here.
- Paging.RunSeparate: runs are about page entries and frames; a forked directory is a new empty one.
- Frames.FrameSet.constructor: the bitset starts with all its words zero; the code sizes and clears it in bytes instead of words (kernel/page.cpp:125-126).
- Inodes of the ram disk are values: their fields are set while they are created and never again.
- The bytes of the image file: writer and reader use the same packed structures, so the two tables stand for them.
- The host side of makefs (readdir, fstat, open, read): the tree with its listing order is an input; "." and ".." are not in it.
- Linked nodes of `util::list` and of the hash chains are sequences; reference counts of `util::rc` and `util::weak` are object references.
- Pointer equality shortcuts of `strcmp` and string comparison, which only save time.
- The bump allocator before the heap exists, `kmalloc` with physical addresses, operator new and delete: thin wrappers.
- Scrolling by more than one line, which never happens; the hardware cursor.
- `heap_info`, `printf`, `FILE` buffering.
- udev, processes, system calls, ELF loading, interrupts, port I/O, `util::vec`.
