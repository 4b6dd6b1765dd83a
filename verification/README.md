# Verified model of the xv6 kernel for RISC-V

This project models, in Dafny 4.11, the parts of the kernel whose safety rests on
invariants that no single function states, and proves those invariants over every
run. `dafny verify dfyconfig.toml` checks the whole project.

| files | component | main results |
|---|---|---|
| `BuddyBlocks`, `BuddyAllocator` | buddy page allocator | pages are always tiled by aligned free and granted blocks, the heap is always fully coalesced, and the free blocks are a function of the granted ones alone; which block is granted and what becomes of the lists is exact |
| `Slab` | object caches over the buddy allocator | free chains, full/partial lists, eight objects per slab, objects never overlap within and across caches, headers are found again |
| `Kmalloc` | kernel heap | an address-ordered ring without adjacent blocks that, with the granted blocks, covers each obtained page exactly; one new page at most per call |
| `PageTable`, `PteCodec`, `Vm`, `UserMemory` | Sv39 page tables, fork, copies | the three-level table refines a map from pages to entries; the count the buddy allocator keeps for a frame is the number of entries naming it, and the frame goes back with the last one; no page is lost, and what mapping, growing and forking take is exact; fork copies or shares exactly as the regions say; copies see flat memory |
| `MmapRegions`, `Mmap` | mapped regions | the lowest free address is chosen; the list stays sorted and disjoint; exactly when `munmap` does what was asked |
| `FsTree`, `FileSystem`, `Mkfs` | block trees, `readi`/`writei`, `mkfs` | each file is a byte sequence; a write takes exactly the missing blocks and is short exactly when too few are free; `mkfs` builds trees of an exact shape and the kernel reads back what it appended |
| `Paths`, `Directory`, `DirectoryFile`, `Namex` | path names, directories, inode references | `dirlookup`, `dirlink` and `unlink` over 64-byte records in the block trees refine a map of names; `namex` is directory lookup folded over the components; its net effect on reference counts is one reference to the result, and it frees exactly the loose inodes it drops |
| `BufferCache` | buffer cache and SD queue | `bread` returns what was last written, over all interleavings; which buffer is recycled |
| `Pipe`, `ProcTable` | pipes; fork, exit, wait | a bounded FIFO across 32-bit wrap; no sleeper whose condition holds; no zombie missed or reaped twice |
| `Grep` | the regular-expression matcher and line loop | the matcher accepts exactly its declared language; output does not depend on how reads are cut |

State that the source updates in place is a class; each method is one call, or one
step taken while a lock is held, so a run is any sequence of method calls and an
invariant kept by all methods holds in every reachable state. Pointers are indices
or addresses; `NULL` is `None`. A `panic` is either shown unreachable, or is an
outcome of the method, or is excluded by a precondition that the caller has to meet
in the source too.

Where the code does not do what its own text says, the model follows the code:

- The buffer list is described as kept by use with the least recently used buffer
  recycled. `brelse` moves a buffer to the same end from which `bget` takes one, so
  the most recently released idle buffer is recycled
  (`BufferCache.RecyclesOldestIff` says exactly when the two agree,
  `BufferCache.RecyclesNewestExample` gives a case).
- `munmap` of a part that neither starts nor ends a region takes another part of
  the list entry away (`Mmap.LeftExactIff`, `Mmap.MiddleExample`).
- `mmap` with a hint near the top of the 64-bit range wraps past its check against
  `USERTOP`: it panics in `walk`, or enters an invalid region if no page is loaded
  (`Mmap.AddressSpace.Mmap`, `Mmap.WrapExample`).
- A slab cache for a size that wraps when rounded is accepted with objects of size
  zero (`Slab.SizeCovers`, `Slab.SizeWraps`, `Slab.Create`).
- A path walk frees an unlinked inode that nobody else refers to when it moves on
  from it, even if a directory still lists it, and panics if it comes back there
  (`Namex.Inodes.Namex`, `Namex.UnlinkedFreed`, `Namex.FreedAgain`; a removed current directory is safe, `Namex.RemovedCwd`).
- `mkfs` raises the size of the root directory past the next block boundary. If the
  size is on a boundary already, the image has a hole; otherwise zeros follow the
  entries (`Mkfs.Image.FixRoot`).
- `grep` stops silently at the first line that does not fit its buffer or holds a
  NUL (`Grep.PrintedLines`).

## Model

| member | source | states |
|---|---|---|
| BuddyBlocks.SplitPair | kernel/buddy.c:50-58 | the halves of an aligned block are aligned and each is the other's buddy |
| BuddyBlocks.JoinPair | kernel/buddy.c:50-58 | a block and its buddy are the two halves of an aligned block one order up |
| BuddyBlocks.Nested | kernel/buddy.c:50-58 | aligned blocks that share a page are nested |
| BuddyBlocks.Absorb | kernel/buddy.c:321-378 | in a coalesced heap an aligned region of free pages lies inside one free block |
| BuddyBlocks.Canonical | kernel/buddy.c:321-378 | two coalesced sets of blocks that cover the same pages are equal |
| BuddyAllocator.SplitStep | kernel/buddy.c:218-258 | splitting keeps the tiling, the coalescing and the granted blocks |
| BuddyAllocator.MergeStep | kernel/buddy.c:321-378 | merging with the free buddy keeps the tiling, the coalescing and the granted blocks |
| BuddyAllocator.FreeDeterminedByUsed | kernel/buddy.c:321-378 | whatever the history, equal granted blocks mean equal free blocks |
| BuddyAllocator.AllFreedIsInitial | kernel/buddy.c:146-204 | with nothing granted the free blocks are the initial maximum-order blocks |
| BuddyAllocator.GrantedPages | kernel/buddy.c:268-312 | exactly the pages of a granted block, all free before, leave the free pages |
| BuddyAllocator.Buddy.constructor | kernel/buddy.c:146-204 | the initial state meets the invariant, with all pages in free maximum-order blocks |
| BuddyAllocator.Buddy.ListPop | kernel/buddy.c:68-79 | the first page of a free list leaves it and all lists stay well linked |
| BuddyAllocator.Buddy.ListPush | kernel/buddy.c:88-97 | a page enters at the front and all lists stay well linked |
| BuddyAllocator.Buddy.ListRemove | kernel/buddy.c:107-127 | exactly the page asked for leaves its list, if it is there; the others keep their order |
| BuddyAllocator.Buddy.SplitFront | kernel/buddy.c:218-258 | overwriting the head of the lower list loses no block, since that list is empty |
| BuddyAllocator.Buddy.PullBlock | kernel/buddy.c:218-258 | a block of the order is produced exactly when some larger order has a free block, from the first page of the least such order, its front halves listed; granted blocks keep order and count |
| BuddyAllocator.Buddy.Alloc | kernel/buddy.c:268-312 | a block of the least order that fits, exactly when one can be made; its address, all free lists and the free pages afterwards are named; nothing else granted changes |
| BuddyAllocator.Buddy.MergeWithBuddy | kernel/buddy.c:321-378 | the buddy is found on its list, so the "broken page" panic is unreachable, and the pair becomes one block |
| BuddyAllocator.Buddy.Free | kernel/buddy.c:321-378 | a shared block only loses a count; the last reference returns exactly the block's pages, coalesced, with all free lists named; nothing else granted changes |
| BuddyAllocator.Buddy.RefInc | kernel/page.c:100-103 | one more reference, nothing else |
| BuddyAllocator.Buddy.FindHead | kernel/page.c:73-85 | from any page of a granted block its head is found |
| BuddyAllocator.Buddy.AllocThenFree | kernel/buddy.c:268-378 | allocating and freeing restores both the granted and the free blocks |
| Slab.EightObjects | kernel/slab.c:106-108 | every accepted cache has at least eight objects per slab and they fit with header, index array and alignment |
| Slab.CapacityLargest | kernel/slab.c:106-108 | one object more does not fit the slab |
| Slab.LimitTable | kernel/slab.c:214-225 | the eleven size limits in numbers: the largest object with nine of which, eight bytes added to each, a slab is not exceeded |
| Slab.SizeCovers | kernel/slab.c:259-263 | the rounded object size covers the request exactly when rounding does not wrap; otherwise it is zero |
| Slab.SizeLeast | kernel/slab.c:259-263 | without a wrap the rounded size is the least multiple of the alignment that covers the request |
| Slab.SizeRounded | kernel/slab.c:259-263 | with no alignment asked for sizes are rounded to four bytes |
| Slab.SizeWraps | kernel/slab.c:259-263 | size 0xFFFFFFFF rounds to zero and is below every limit |
| Slab.Create | kernel/slab.c:240-278 | the least order whose limit admits the object; refusal exactly for size zero, a long name or no such order |
| Slab.ObjectInSlab | kernel/slab.c:126-131 | an object lies inside its block, behind header and index array, and is aligned |
| Slab.IndexRecovered | kernel/slab.c:398-400 | the object number is recovered from the address |
| Slab.ObjectsApart | kernel/slab.c:126-131 | different objects do not overlap |
| Slab.HeadAtEnd | kernel/slab.c:350-351 | the end mark at the head entry means exactly that no object is free |
| Slab.TakeKeeps | kernel/slab.c:335-346 | allocation removes the first object from the chain of exactly the free objects |
| Slab.GiveKeeps | kernel/slab.c:397-410 | freeing puts the object in front of the chain; the test for a full slab is right |
| Slab.LiveApart | kernel/slab.c:320-378 | any two live objects of a cache are disjoint in memory |
| Slab.CachesApart | kernel/slab.c:320-378 | objects of two caches over one buddy allocator are disjoint in memory |
| Slab.Cache.NewSlab | kernel/slab.c:117-146 | a new slab has all objects free, its block is new, no other granted block changes and no live object appears; none only when the buddy allocator has no block of the order |
| Slab.Cache.TakeFirst | kernel/slab.c:335-362 | the first free object of the first partial slab becomes live and the slab moves to the front of the full list exactly with its last one; nothing else moves |
| Slab.Cache.Alloc | kernel/slab.c:320-378 | exactly one object becomes live: the first free one of the first partial slab, or of a new slab, which is made exactly when no slab is partial; none only when the buddy allocator then has no block |
| Slab.AllocBeside | kernel/slab.c:320-378 | allocating from one cache leaves every other cache valid with slabs of its own |
| Slab.Cache.Locate | kernel/slab.c:391-400 | header and number of any live object are recovered through `page_find_head` |
| Slab.Cache.Free | kernel/slab.c:387-435 | exactly that object stops being live and is the next to be handed out; a full slab moves to the front of the partial list; "broken slab" is unreachable |
| Slab.FreeBeside | kernel/slab.c:387-435 | freeing from one cache leaves every other cache valid with slabs of its own, so both calls can follow each other |
| Kmalloc.SplitBlock | kernel/kmalloc.c:86-90 | cutting a block in two keeps the exact cover of the pages |
| Kmalloc.JoinBlocks | kernel/kmalloc.c:32-41 | joining adjacent blocks keeps the exact cover of the pages |
| Kmalloc.FreedHeap | kernel/kmalloc.c:24-43 | in all four neighbour cases the freed block leaves the list ordered, without adjacent blocks and exact |
| Kmalloc.Heap.FindPlace | kernel/kmalloc.c:29-31 | the search ends at the unique place of the block in the ring |
| Kmalloc.Heap.Kmfree | kernel/kmalloc.c:24-43 | exactly that block stops being granted; freep is the entry before it, and it or its successor holds the freed units |
| Kmalloc.Heap.Morecore | kernel/kmalloc.c:50-63 | a page joins the heap even when it merges with its predecessor, and freep or its successor has a page's worth of units |
| Kmalloc.Heap.Search | kernel/kmalloc.c:83-96 | one trip finds the first block after freep that is large enough, or none in the ring is |
| Kmalloc.Heap.Grant | kernel/kmalloc.c:84-94 | the tail end of the block, which may be all of it, is granted, freep is its predecessor and the heap stays exact |
| Kmalloc.Heap.Kmalloc | kernel/kmalloc.c:66-100 | a new block of the rounded size, the tail end of the first large enough one after freep; at most one new page, and only when no free block is large enough |
| PteCodec.PteSplits | include/common/riscv.h:444-449 | every entry is the disjoint union of its address and its flags |
| PteCodec.PteRoundTripIff | include/common/riscv.h:444-449 | address and flags are read back exactly for page addresses below 2^61 |
| PteCodec.DigitsCompose | include/common/riscv.h:463-471 | below MAXVA the three digits and the offset make up the address |
| PteCodec.NumCounts | include/common/riscv.h:463-471 | the numbers that words stand for count up from zero |
| PteCodec.DigitsAgree | include/common/riscv.h:463-471 | the shifted and masked digits of an address below MAXVA are the table indices of its page number |
| PteCodec.StoredEntry | kernel/vm.c:174-174 | the 64-bit word mappages stores stands for an entry with that frame, those permissions and the valid, accessed and dirty bits |
| PteCodec.TableEntry | kernel/vm.c:109-112 | the word of an upper-level entry stands for a table entry with that frame, and the zero word for the empty entry |
| PteCodec.FlagBits | include/common/riscv.h:425-434 | each flag of an entry is its bit of the word |
| PteCodec.AttributeBits | include/common/riscv.h:436-440 | the attributes of an entry are the five top bits |
| PageTable.SetLeafLeaves | kernel/vm.c:156-182 | writing a level-0 entry changes the translation of one page of one space |
| PageTable.NewTableLeaves | kernel/vm.c:99-116 | hanging a zeroed table in changes no translation of any space |
| PageTable.NewRootLeaves | kernel/vm.c:225-233 | a new root adds an empty space and changes no other |
| PageTable.BuiltNew | kernel/vm.c:109-112 | a table under an empty entry takes a position that the space did not have, and one page |
| PageTable.BuiltShort | kernel/vm.c:99-116 | running out of pages on a part of the way is having had too few for all of it |
| Vm.GrantedWhileNamed | kernel/vm.c:188-220 | a user frame is in use exactly while some entry names it |
| Vm.UsedWhileNamed | kernel/kalloc.c:51-70 | a user frame is granted by the buddy allocator exactly while some entry of some space names it |
| Vm.UnmapFreed | kernel/page.c:100-113 | freeing and clearing keeps count equal to the number of entries; the frame goes with the last one |
| Vm.Memory.constructor | kernel/vm.c:225-233 | with no address space the invariant holds over any state of the buddy allocator |
| Vm.Memory.Kalloc | kernel/kalloc.c:75-95 | a frame not in use with one reference, backed by a one-page block; one free page less; panic exactly with no free page |
| Vm.Memory.Hold | kernel/page.c:100-103 | one more reference, kept by the buddy allocator |
| Vm.Memory.Kfree | kernel/kalloc.c:51-70 | one reference less in the buddy allocator's count; with the last one the block is granted no more and there is one free page more |
| Vm.ForkSharing | kernel/vm.c:335-395 | after fork two pages have one frame exactly when they are the same page of a shared region |
| Vm.ChildFrames | kernel/vm.c:364-372 | a page of the child is on the parent's frame if the first region over it is shared, and on a new frame with equal bytes if that region is private or there is none |
| Vm.SpentStep | kernel/vm.c:356-375 | a page of fork takes a frame, unless shared, and the tables missing on the way to it |
| Vm.Memory.Walk | kernel/vm.c:99-116 | the level-0 table of the page; allocation on the way changes no translation, adds exactly the missing tables and fails exactly when fewer pages are free |
| Vm.Memory.SetPte | kernel/vm.c:156-182 | the map from pages to entries changes at one page |
| Vm.Memory.MapPage | kernel/vm.c:166-178 | one page gets its entry and the tables on the way to it |
| Vm.Memory.MapPages | kernel/vm.c:156-182 | the map gains exactly the requested pages on consecutive frames and the space exactly the tables on the way to them; fails exactly when fewer pages are free than tables missing |
| Vm.Memory.UnmapPage | kernel/vm.c:188-220 | one entry goes and its frame loses one reference |
| Vm.Memory.UvmUnmap | kernel/vm.c:188-220 | exactly the range leaves the map; counts still equal entries; a frame leaves the granted blocks exactly with its last entry, and each one is a free page more; surviving frames keep their bytes |
| Vm.Memory.CopyLeaf | kernel/vm.c:356-375 | one page of the parent is shared or copied, and the copy so far and what it cost stay right |
| Vm.Memory.UvmCopy | kernel/vm.c:335-395 | the child maps the parent's user pages with the same flags, on the same frame if shared and on a new frame with equal bytes otherwise; it takes exactly those frames and the tables the child has not, and fails exactly when fewer pages are free; nothing else changes |
| Vm.Memory.FreeWalk | kernel/vm.c:302-318 | for a tree without leaves every table page of the subtree is returned once and no other page |
| Vm.Memory.UvmCreate | kernel/vm.c:225-233 | a new space that maps nothing, for one page; the others stay |
| Vm.Memory.UvmAlloc | kernel/vm.c:255-279 | the added pages map to new zeroed frames, each named once; takes exactly these and the missing tables, and fails exactly when fewer pages are free |
| Vm.Memory.UvmDealloc | kernel/vm.c:286-297 | exactly the pages between the rounded sizes leave the map, and frames go back exactly with their last entry |
| Vm.Memory.UvmAllocDealloc | kernel/vm.c:255-297 | growing and shrinking again restores every translation, frame and byte |
| Vm.Memory.FreeSpace | kernel/vm.c:302-318 | exactly the tables of the empty space go back to the buddy allocator; all other roots and their tables stay |
| Vm.Memory.UvmFree | kernel/vm.c:323-328 | the space's pages and exactly its tables go; frames go back exactly with their last entry; all other spaces keep their roots and tables |
| Vm.Memory.Fork | kernel/vm.c:335-395 | a new space that is a copy of the parent's, exactly when a page is free for its root, each private page and each table on the way to a page |
| Vm.Memory.ForkAndFree | kernel/vm.c:323-395 | forking a space and freeing the child restores every translation, every user frame with its bytes, every count, the tables and the number of free pages |
| UserMemory.WroteStep | kernel/vm.c:413-447 | a piece within a page extends what is stored and touches no other byte |
| UserMemory.WalkAddr | kernel/vm.c:122-139 | the frame exactly for user-accessible pages |
| UserMemory.CowCheck | kernel/vm.c:532-590 | without copy-on-write pages it refuses exactly read-only user pages and addresses beyond MAXVA |
| UserMemory.CopyOut | kernel/vm.c:414-447 | succeeds exactly when all bytes are on pages with the user and write bits; stores exactly the source there, or the bytes before the first page that is not, and nothing elsewhere |
| UserMemory.CopyIn | kernel/vm.c:453-477 | succeeds exactly when all bytes are accessible and returns the bytes viewed there, up to the first inaccessible page when it fails |
| UserMemory.CopyUntilNul | kernel/vm.c:511-525 | the bytes of one page up to a NUL |
| UserMemory.CopyInStr | kernel/vm.c:484-530 | the string at the address, exactly when a NUL-terminated one of less than max bytes is readable there |
| UserMemory.CopyOutIn | kernel/vm.c:413-477 | copyout then copyin is the identity |
| UserMemory.LoadSeg | kernel/exec.c:571-604 | for any address, aligned or not, file byte offset+k is at va+k and no other byte changes; fails exactly when the file is too short, with the bytes up to its end stored |
| UserMemory.ForkReads | kernel/vm.c:335-395 | after fork child and parent read the same byte at every mapped user address |
| UserMemory.ForkIsolated | kernel/vm.c:335-395 | a later write by either is not seen by the other outside shared regions |
| MmapRegions.FindRegion | kernel/mmap.c:313-323 | a region that contains the address, or none does |
| MmapRegions.FoundFirst | kernel/mmap.c:313-323 | the region found is the first of the list over the address |
| Mmap.AddressSpace.constructor | kernel/mmap.c:416-422 | the empty list is laid out |
| Mmap.FindUnambiguous | kernel/mmap.c:313-323 | in a laid-out list one region at most contains an address, and it is found |
| Mmap.AddressSpace.SelectAddr | kernel/mmap.c:423-438 | the lowest page address at or above the start where the request overlaps no region |
| Mmap.AddressSpace.Insert | kernel/mmap.c:469-496 | the region enters at its place in address order and no region is lost |
| Mmap.AddressSpace.Enter | kernel/mmap.c:446-506 | a fitting region keeps the list laid out and adds exactly its addresses |
| Mmap.AddressSpace.Mmap | kernel/mmap.c:365-506 | refusal exactly for an end above USERTOP or no room; otherwise the lowest address, and the list stays laid out exactly when the request does not wrap 64 bits; a wrapping request with room panics exactly when it loads a page |
| Mmap.WrapExample | kernel/mmap.c:378-385 | a call with a hint whose end wraps passes the check, and then panics or enters an invalid region |
| Mmap.AddressSpace.FindIndex | kernel/mmap.c:313-323 | the loop finds the region of the address |
| Mmap.AddressSpace.DeleteNode | kernel/mmap.c:20-55 | exactly the node with that address leaves the list |
| Mmap.AddressSpace.Munmap | kernel/mmap.c:515-578 | the region found is replaced by the part `Left` names, or removed, and every other region stays as it is; the list stays laid out |
| Mmap.LeftExactIff | kernel/mmap.c:557-574 | what goes is what was asked exactly when the request is empty, starts the region or ends it |
| Mmap.LeftKeepsOffset | kernel/mmap.c:568-572 | an address that stays mapped keeps its file offset |
| Mmap.MiddleExample | kernel/mmap.c:565-574 | after mapping three pages and unmapping the middle one, it is still covered and the last one is not |
| FsTree.LinksPtr | kernel/fs.c:410-486 | linking a block in changes one pointer of one file |
| FsTree.PutBytes | kernel/fs.c:436-440 | a pointer is stored in an index block as four bytes, low byte first |
| FsTree.LinksBytes | kernel/fs.c:410-486 | linking a block in changes no byte of any file |
| FsTree.StoreBytes | kernel/fs.c:618-652 | overwriting a data block changes those bytes of that file and no other byte |
| FileSystem.StoredStep | kernel/fs.c:629-641 | a piece within a block extends what is stored |
| FileSystem.Fs.constructor | kernel/fs.c:52-60 | any consistent image can be mounted as it is |
| FileSystem.Fs.Balloc | kernel/fs.c:79-102 | the first free block, marked and zeroed, or 0 exactly when the disk is full |
| FileSystem.Fs.AllocAt | kernel/fs.c:410-486 | a new block at an empty position, if one is free, keeps all trees injective, disjoint and marked; it is the only block taken |
| FileSystem.Fs.Bmap | kernel/fs.c:410-486 | the block of the position through all three levels; exactly the missing blocks on the way are taken, and 0 is returned exactly when fewer are free; no file's bytes change |
| FileSystem.Fs.ReadPiece | kernel/fs.c:593-605 | the bytes of one block at the offset; nothing changes |
| FileSystem.Fs.ReadI | kernel/fs.c:583-608 | the slice of the file's byte sequence, cut at its end; reading changes nothing |
| FileSystem.Fs.WritePiece | kernel/fs.c:629-641 | the next piece up to a block boundary and exactly the blocks missing for it, or nothing, exactly when fewer are free |
| FileSystem.WriteCount | kernel/fs.c:618-652 | a write stops short exactly when fewer blocks were free at the call than missing for all its bytes |
| FileSystem.Fs.WriteI | kernel/fs.c:618-652 | exactly the written bytes are spliced into the file, all of them exactly when enough blocks were free for what was missing; the file takes exactly the missing blocks, up to the one that failed; no other file changes |
| FileSystem.Fs.FreeAt | kernel/fs.c:105-119 | a block without children is unlinked and unmarked; it was in use |
| FileSystem.Fs.Itrunc | kernel/fs.c:491-543 | the file becomes empty, exactly its blocks become free and no other file changes |
| Mkfs.FinishedImage | mkfs/mkfs.c:389-407 | the finished image is a consistent kernel disk |
| Mkfs.GainsNext | mkfs/mkfs.c:424-464 | a file of d blocks that gains what block d needs has exactly the tree of d+1 blocks |
| Mkfs.ShapeSize | mkfs/mkfs.c:226-231 | in a tree of d data blocks a size has no hole exactly if it needs at most d blocks |
| Mkfs.Image.constructor | mkfs/mkfs.c:136-139 | the blank image meets the invariant |
| Mkfs.Image.Ialloc | mkfs/mkfs.c:366-386 | the next inode number names one new empty file |
| Mkfs.Image.Take | mkfs/mkfs.c:427-460 | an empty pointer gets the next block and no byte changes; the run ends exactly with the first block beyond the image |
| Mkfs.Image.BlockFor | mkfs/mkfs.c:424-464 | the block of the position; the file gains exactly the index blocks this block is the first to need, and no byte changes |
| Mkfs.Image.PutPiece | mkfs/mkfs.c:423-470 | one piece within a block extends what is stored, the block count grows by exactly what the new size needs and the rest stays zero |
| Mkfs.Image.Iappend | mkfs/mkfs.c:410-473 | succeeds exactly when the image has the blocks the larger file needs; then the file grows by exactly the chunk and no other file changes |
| Mkfs.Image.AppendAll | mkfs/mkfs.c:410-473 | succeeds exactly when the blocks suffice; then the file ends with the concatenation of the chunks and no other file changes |
| Mkfs.Image.FixRoot | mkfs/mkfs.c:226-231 | the image stays consistent exactly if the root size was not on a block boundary (or wraps to zero); then zeros follow the directory |
| Mkfs.Image.FinishAndReadRoot | mkfs/mkfs.c:226-233 | the kernel reads the appended root directory followed by zeros |
| Mkfs.Image.Bitmap | mkfs/mkfs.c:389-407 | exactly the used blocks are marked |
| Mkfs.Image.MountAndRead | kernel/fs.c:583-608 | the kernel's readi returns what mkfs appended, and no block mkfs used is free |
| Paths.PiecesOfString | kernel/fs.c:751-763 | the pieces between slashes are slash-free and join to the path |
| Paths.SkipElem | kernel/fs.c:764-786 | the first non-empty component, cut to DIRSIZ, and a rest with the remaining components, empty exactly after the last |
| Directory.LinkAt | kernel/fs.c:715-747 | filling an unused entry adds one name to the name map |
| Directory.UnlinkAt | kernel/fs.c:842-850 | clearing an entry removes one name from the name map |
| DirectoryFile.DecodeEncode | kernel/fs.c:736-738 | a stored record gives back the inode number and the name cut to DIRSIZ |
| DirectoryFile.EncodeHolds | include/common/fs.h:81-85 | the 64 bytes stored are inode number and type, low byte first, and the name followed by zeros; every other byte stays |
| DirectoryFile.RecordWritten | include/common/fs.h:81-85 | writing 64 bytes at a record's place changes that entry, or adds one, and no other |
| DirectoryFile.NameCmp | kernel/fs.c:678-682 | strncmp of a string with a padded field decides equality of the name cut to DIRSIZ |
| DirectoryFile.ReadRecord | kernel/fs.c:695-699 | readi returns the record; the panic on a short read is unreachable in a file of whole records |
| DirectoryFile.DirLookup | kernel/fs.c:687-710 | inode number and byte offset of the first record in use with the name, or none has it; nothing changes |
| DirectoryFile.WriteRecord | kernel/fs.c:736-744 | writei of a record is all or nothing, and nothing exactly behind the end of a directory for which the missing blocks are not free |
| DirectoryFile.DirLink | kernel/fs.c:715-747 | fails exactly when the name is there, or no record is unused and the blocks for a new one are not free; otherwise the 64 bytes of the first unused record, or of a new one, are the number, type and name, the name map gains the name, names stay unique, the missing blocks are taken and no other file changes |
| DirectoryFile.Unlink | kernel/fs.c:842-850 | the 64 bytes of the record are zero, no block is taken and the write cannot fail; the name map loses its name and nothing else, and no other file changes |
| DirectoryFile.LinkThenUnlink | kernel/fs.c:687-850 | linking a name, finding it and unlinking what was found restores the name map |
| Namex.Inodes.Iget | kernel/fs.c:267-298 | one more reference to the inode in its only slot; panic exactly with no slot free |
| Namex.Inodes.Idup | kernel/fs.c:303-309 | one more reference, no other count changes |
| Namex.Inodes.Ilock | kernel/fs.c:314-344 | panics exactly for a free inode; otherwise the inode is valid and no count changes |
| Namex.Inodes.Iput | kernel/fs.c:364-389 | one reference less; the inode is freed on disk exactly with the last reference to an unlinked valid inode; the table stays valid |
| Namex.Inodes.Leave | kernel/fs.c:393-397 | only the reference to the next inode remains; the inode left is freed exactly if nobody else refers to it, it has no link and the walk does not stay |
| Namex.Inodes.Advance | kernel/fs.c:803-821 | one name: a directory step, an end with all references given back, or the panic for a free inode; says when the inode left is freed |
| Namex.Inodes.Turn | kernel/fs.c:803-821 | one turn of the walk keeps what is to be returned and what is to be freed in all; it panics exactly where the walk is stuck |
| Namex.TargetStep | kernel/fs.c:803-821 | the fold over all names, or all but the last at a directory, agrees with one step and the rest |
| Namex.FreesStep | kernel/fs.c:803-821 | what a walk frees is what it frees at its first name and what the rest of it frees |
| Namex.FreesNothing | kernel/fs.c:364-389 | a walk over inodes that all have a link or another reference frees nothing |
| Namex.RemovedCwd | kernel/fs.c:364-389 | the walk `..` from a removed current directory reaches its parent and frees nothing |
| Namex.UnlinkedFreed | kernel/fs.c:364-389 | the walk `/a/..` through an unlinked directory nobody refers to frees it and nothing else |
| Namex.FreedAgain | kernel/fs.c:314-344 | the walk `/a/../a/x` through an unlinked directory nobody refers to comes back to the freed inode and panics there, and nowhere before |
| Namex.Inodes.Namex | kernel/fs.c:793-827 | the result is lookup folded over the components, one early for the parent form with the last name; counts change by one reference to the result, or not at all on failure; exactly the loose inodes the walk drops are freed; the "no type" panic comes only if the trail meets an inode that is free or was freed by the walk, and then no result does |
| BufferCache.BlocksApart | kernel/bio.c:59-62 | different blocks share no sector |
| BufferCache.TwoPartitions | kernel/sd.c:59-68 | a card with two partitions and two unused table entries is a legal layout |
| BufferCache.WriteKeepsDisk | kernel/sd.c:86-109 | a write changes what was last written to its sectors and to no other |
| BufferCache.Cache.constructor | kernel/bio.c:41-53 | the empty cache meets the invariant |
| BufferCache.Cache.Lookup | kernel/bio.c:67-82 | the buffer with the key, or none has it |
| BufferCache.Cache.Victim | kernel/bio.c:84-105 | the idle buffer released last, or none is idle |
| BufferCache.Cache.Bget | kernel/bio.c:59-106 | a held buffer with the key of sector lba + 8 * block, kept if cached and recycled otherwise, so that no key has two buffers; sleeps only on a busy buffer; panics only with all busy and the block not cached |
| BufferCache.Cache.SdStart | kernel/sd.c:86-109 | the queue is served in order and left empty |
| BufferCache.Cache.SdRw | kernel/sd.c:111-128 | the request is done on return without sleeping |
| BufferCache.Cache.Fill | kernel/bio.c:110-117 | all eight sectors of bread's buffer, one on the boot partition, are those last written |
| BufferCache.Cache.Update | kernel/fs.c:632-640 | the holder changes its data and no other buffer |
| BufferCache.Cache.Bwrite | kernel/bio.c:123-132 | the eight sectors of the block, one on the boot partition, become the buffer's data; no other sector and no other buffer changes |
| BufferCache.Cache.Brelse | kernel/bio.c:136-150 | the buffer is idle, exactly its sleepers are awake and it is the last released |
| BufferCache.RecyclesOldestIff | kernel/bio.c:84-99 | the recycled buffer is the least recently used one exactly when only one is idle |
| BufferCache.RecyclesNewestExample | kernel/bio.c:84-99 | from an empty cache two blocks are taken and released, and a third one takes the buffer released last |
| Pipe.FullWrap | kernel/pipe.c:82-83 | the counter tests decide full and empty across 32-bit wrap |
| Pipe.PipeSystem.constructor | kernel/pipe.c:13-50 | an empty pipe with both ends open |
| Pipe.PipeSystem.Interrupt | kernel/proc.c:728-736 | a kill ends a sleep and changes nothing else of the process or of others |
| Pipe.PipeSystem.Put | kernel/pipe.c:90-90 | one byte joins the bytes written |
| Pipe.PipeSystem.Take | kernel/pipe.c:115-117 | the next byte written is read |
| Pipe.PipeSystem.WriteBurst | kernel/pipe.c:71-97 | the bytes go in in order; it fails exactly when killed or with no reader, sleeps only when full, ends the sleep of exactly the readers, whose requests stay, and afterwards no sleeper's condition holds |
| Pipe.PipeSystem.ReadBurst | kernel/pipe.c:100-125 | as many of the oldest bytes as wanted and there; sleeps only when empty with a writer, ends the sleep of exactly the writers, whose bytes and places stay, and afterwards no sleeper's condition holds |
| Pipe.PipeSystem.Close | kernel/pipe.c:53-68 | exactly the sleepers of the other end are woken, their requests stay; freed exactly with both ends closed and nobody asleep |
| ProcTable.ExitKeepsFamily | kernel/proc.c:460-518 | after exit every live process but init has a live parent that is no zombie |
| ProcTable.ExitMissesNothing | kernel/proc.c:460-518 | after exit no process asleep in wait4 has a zombie child |
| ProcTable.ExitKeepsPids | kernel/proc.c:460-518 | pids stay distinct and unreaped |
| ProcTable.Processes.Wakeup | kernel/proc.c:711-724 | exactly the other sleepers on the channel become runnable |
| ProcTable.Processes.Reparent | kernel/proc.c:443-454 | exactly the children pass to init, which is woken if there are any |
| ProcTable.Processes.Exit | kernel/proc.c:460-518 | the process is a zombie, its children are init's and the invariant holds |
| ProcTable.Processes.Scan | kernel/proc.c:531-571 | the first zombie child if there is one; whether there is any child |
| ProcTable.Processes.WaitBurst | kernel/proc.c:523-587 | the first zombie child is reaped if there is one, its pid for the first time; it sleeps only when not killed, with children and no zombie among them; no other process changes |
| ProcTable.Processes.ForkAlloc | kernel/proc.c:147-191 | the first unused slot with a new pid, if any; no other process changes |
| ProcTable.Processes.ForkSetParent | kernel/proc.c:426-428 | the child gets its parent |
| ProcTable.Processes.ForkStart | kernel/proc.c:430-432 | the child becomes runnable with that parent; no other process changes |
| ProcTable.Processes.Move | kernel/proc.c:680-706 | running, yielding, waking and sleeping outside wait4 keep the invariant |
| Grep.AcceptsCons | usr/src/grep/main.c:84-96 | the declared language of a pattern, by its first token and the rest |
| Grep.MatchHere | usr/src/grep/main.c:85-96 | terminates and accepts exactly texts with a prefix in the pattern's language |
| Grep.MatchStar | usr/src/grep/main.c:99-107 | terminates and accepts exactly texts with a prefix in the starred pattern's language |
| Grep.Match | usr/src/grep/main.c:72-82 | accepts exactly when the pattern occurs, at the start after ^ |
| Grep.FindNewline | usr/src/grep/main.c:23-23 | the first newline not behind a NUL |
| Grep.NextLine | usr/src/grep/main.c:23-29 | one line is printed if it matches, and what is left to print lies behind it |
| Grep.PrintLines | usr/src/grep/main.c:22-30 | the matching lines of the buffer are printed and no complete line is left |
| Grep.Round | usr/src/grep/main.c:19-35 | one read and its lines print what that part of the input calls for |
| Grep.Grep | usr/src/grep/main.c:13-36 | for every input and every way of cutting it into reads the output is `Printed` |
| Grep.PrintedLines | usr/src/grep/main.c:13-36 | for lines that fit, followed by a rest with no further line, exactly the matching lines are printed |
| Grep.LinesOf | usr/src/grep/main.c:13-36 | every input is such a sequence of lines and such a rest |

## Left out

- UserMemory.LoadSeg: segments of less than 2^32 - 4096 bytes; the 32-bit loop counter of the source wraps for larger ones.
- FileSystem.Fs.Itrunc: only files without a double-indirect block, because the source reads a released buffer in that case; the size is cleared before the blocks are freed, not after.
- FileSystem.Fs.FreeAt: called with the size already cleared, see Itrunc.
- FileSystem.Fs.constructor: the superblock and the test of its magic number.
- Vm.Memory.UvmUnmap: do_free is set exactly for pages below USERTOP, as all callers do.
- Vm.Memory.UvmAlloc: sizes up to USERTOP; beyond it the source runs into the "remap" panic at the trap frame.
- Vm.Memory.UvmDealloc: sizes up to USERTOP, as for UvmAlloc.
- Vm.Memory.UvmCopy: the error branch after a failed kalloc is dead, since kalloc panics instead; when that happens is exact, and nothing is promised of the state then.
- Slab.Cache.Alloc: the index array, header and lists of a slab are values in a map; the locks and slab_cache_destroy are not modelled.
- Namex.Inodes.Namex: one walk at a time; directory contents are the entry sequences that DirectoryFile reads from the bytes; what iput truncates is the inode's entry sequence.
- DirectoryFile.DirLink: the byte offset is unbounded, while the source keeps it in an int; directories of 2^31 bytes and more are not told apart. The source returns the inode number with a reference from iget, which Namex models.
- BufferCache.Cache.Bget: clients ask for blocks inside their partition; the SD transfers themselves succeed.
- BufferCache.Cache.Brelse: clients have written back what they changed. itrunc does not: it clears the words of an index block that it is about to free and releases the buffer without bwrite (kernel/fs.c:508-513).
- Mmap.AddressSpace.Mmap: files and their counts are not modelled.
- Mmap.AddressSpace.Munmap: the unmapping of pages and the write-back of shared files are not modelled.
- Pipe.PipeSystem.WriteBurst: copies to and from user memory succeed; the killed flag is constant within a burst.
- Vm: page tables and user frames are two typed maps over frame numbers, not one byte array.
- The on-disk byte encoding of inodes, bitmap blocks and the superblock; inodes and the bitmap are values beside the data blocks.
- bmap's early returns on a full disk, which leave a buffer locked.
- MAP_FIXED, mprotect, mremap and msync.
- wait4 with WNOHANG or WUNTRACED or for one child; signals, sessions and credentials.
- Copy-on-write allocation: nothing sets the flag.
- The journal, which is compiled out; crashes.
- uvmfirst, stat, getdents64 and system-call argument handling, which have no invariant of their own.
- Device drivers, trap entry, context switch and the scheduler's choice.
