# OS/161 kernel and solutions: verified models

This project models the parts of an OS/161 kernel, and of the solutions built on it, whose correctness is hardest
to see, and proves what they keep in every reachable state.

- **The SFS file system** (`Sfs*.dfy`, `Uio.dfy`, `Bitmap.dfy`, `Mksfs.dfy`). The disk is a sequence of blocks; a
  volume, its freemap and the vnodes are objects that the methods change in place. `SfsTree`, `SfsMap` and `SfsVolume`
  hold the block map, `SfsSpace` counts the blocks that a file lacks, `SfsIo`, `SfsFile` and `SfsRuns` refine I/O to
  byte sequences, `SfsTruncate` and `SfsBlocks` say what truncation and the block counter do, `SfsDirent`, `SfsState`,
  `SfsChanges` and `SfsFs` refine the directory and the vnode table to a map from names to files, `SfsMount` and `Mksfs`
  cover persistence and the first state, and `SfsLargest` drives a volume to the largest link count. A ghost map from
  blocks to roles makes separation a fact about a function: a block has one role only.
- **The kernel heap** (`PageRefs.dfy`, `Kheap*.dfy`). Free lists are words in memory, page references hang on two lists.
- **Threads and synchronisation** (`Queue.dfy`, `PtrArray.dfy`, `Threads.dfy`, `ThreadRuns.dfy`, `ThreadKernel.dfy`,
  `Synch.dfy`, `SynchRuns.dfy`). A region with interrupts off is one step; a run is any sequence of enabled steps.
- **The bar** (`Bar.dfy`, `BarProtocol.dfy`). Customers and bartenders as a step system over semaphores and locks.
- **The C library** (`Random.dfy`, `RandomTables.dfy`, `Printf.dfy`, `PrintfCode.dfy`).

`Arithmetic.dfy` and `Errno.dfy` are shared helpers. Outcomes of memory allocation are parameters (`memory`, `grant`),
so every claim covers success and failure.

## Where the code differs from what it says

The models follow the code. Each of these is stated by the member named.

- The triple-indirect index has the wrong sign and lacks a remainder; from FAULTBLOCK on the index leaves its buffer
  (`SfsMap.PlaceExists`, `SfsVolume.Volume.Bmap`: result `OutOfBounds`; the directory operations report `Undefined`).
- A lookup that is not meant to allocate loses a block for each missing interior block (`SfsVolume.Volume.LoadBuffer`).
- Truncation forgets the double and triple roots when the indirect block goes, and takes them off the counter
  (`SfsBlocks.TruncateCount`, `SfsBlocks.ForgottenRoot`); in the indirect range it keeps one block more than it should
  (`SfsFile.ShallowCleanCut`), and old bytes behind the new end come back (`SfsBlocks.StaleByteReturns`).
- A write that transfers nothing beyond the end, even a failed one, sets the size to its offset (`SfsIo.Io`).
- sfi_blocks can change without the inode being marked as changed, so an unmarked inode may differ from the disk in
  that field; the invariant of `SfsState` allows exactly this.
- Out of memory, sfs_makeobj loses the block of the new inode (`SfsFileSystem.SfsFs.MakeObj`). The link count has 16 bits:
  one link too many sets it to 0 (`SfsFileSystem.SfsFs.Link`, `SfsLargest.LinkWraps`), and renaming a file with the
  largest count panics (`SfsFileSystem.SfsFs.Rename`, `SfsLargest.RenamePanics`).
- mksfs computes an empty freemap for the largest volumes (`Mksfs.BitmapSizeWraps`); a kmalloc of almost the whole
  address space is granted 0 pages (`KheapAlloc.NpagesSuffice`).
- The comments in thread.c promise that the run queue and the zombies array never allocate after a fork; they do
  (`ThreadRuns.RunQueueIsOneShort`, `ThreadRuns.ZombieRoomIsLost`).
- The comment before setstate promises that passing the table in use is harmless (`RandomTables.SameTable`).
- %-0 pads with zeros on the right (`Printf.ZerosOnTheRight`), against section 7.19.6.1 of ISO/IEC 9899:1999.

## Model

| member | source | states |
|---|---|---|
| SfsTree.TreesAreDisjoint | assignment3/ownSolution/sfs_vnode.c:115-470 | two pointers that lead to the same block are the same pointer of the same file |
| SfsTree.GraftTree | assignment3/ownSolution/sfs_vnode.c:200-265 | recording a new block in an indirect block changes one pointer and keeps all trees separated |
| SfsTree.FramePtr | assignment3/ownSolution/sfs_vnode.c:115-470 | the pointers of a file depend on nothing but its inode and its own indirect blocks |
| SfsMap.PlaceExists | assignment3/ownSolution/sfs_vnode.c:303-320 | the indices of a file block lie inside the index buffer exactly below FAULTBLOCK; the triple-indirect formulas fail from there on |
| SfsMap.PlaceRoundTrip | assignment3/ownSolution/sfs_vnode.c:280-460 | the file block can be read off its pointer, so different file blocks have different pointers |
| SfsMap.BlocksAreDisjoint | assignment3/ownSolution/sfs_vnode.c:115-470 | different blocks of one file, or blocks of two files, never share a disk block |
| SfsMap.WriteOneBlock | assignment3/ownSolution/sfs_vnode.c:488-623 | overwriting a data block changes the bytes of that block of that file and no other byte of it |
| SfsMap.WriteFramesOthers | assignment3/ownSolution/sfs_vnode.c:488-623 | overwriting a data block of one file leaves every pointer and byte of every other file |
| SfsVolume.Volume.Balloc | assignment3/ownSolution/sfs_vnode.c:60-78 | returns the least free block, cleared, inside the volume, or reports a full volume; the panic cannot be reached |
| SfsVolume.Volume.Bfree | assignment3/ownSolution/sfs_vnode.c:83-89 | unmarks exactly one block |
| SfsVolume.Volume.GetBlock | assignment3/ownSolution/sfs_vnode.c:200-265 | entry of the loaded indirect block, filled in with a cleared block when allocation is asked for |
| SfsVolume.Volume.LoadBuffer | assignment3/ownSolution/sfs_vnode.c:151-192 | loads an indirect block, allocating a missing one; at level 1 the new block is recorded nowhere |
| SfsVolume.Volume.Bmap | assignment3/ownSolution/sfs_vnode.c:115-470 | maps a file block: no existing pointer changes on any outcome, only pointers on the way are filled in, ENOSPC only on a full volume, EINVAL exactly from the largest file on, and a lookup of a mapped block changes nothing |
| SfsVolume.WayToOneBlock | assignment3/ownSolution/sfs_vnode.c:115-470 | mapping one file block can create the data block of no other |
| SfsVolume.ShallowLookup | assignment3/ownSolution/sfs_vnode.c:152-182 | a non-allocating lookup loses no block in a file without double and triple roots |
| SfsVolume.FullWay | assignment3/ownSolution/sfs_vnode.c:152-182 | nothing is lost on the way to a pointer that is not empty |
| SfsSpace.Conserved | assignment3/ownSolution/sfs_vnode.c:200-265 | blocks in use and pointers still to fill in add up to the same number before and after any write: each pointer costs one block and nothing else does |
| SfsSpace.SpaceNeeded | assignment3/ownSolution/sfs_vnode.c:60-78 | an allocation runs short exactly when fewer blocks are free than pointers are missing |
| SfsSpace.MapFills | assignment3/ownSolution/sfs_vnode.c:115-470 | an allocating call fills in all pointers on the way to the block, or not all of them exactly when there is no space |
| SfsSpace.WaysLength | assignment3/ownSolution/sfs_vnode.c:115-470 | at most four blocks for each block of a file |
| UioModel.Uio.Move | completeCode/os_161/src/kern/userprog/uio.c:11-78 | moves as many bytes in memory as in the offset and takes them off the residue; the empty-iovec panic cannot be reached |
| UioModel.Uio.MoveZeros | completeCode/os_161/src/kern/userprog/uio.c:84-108 | the chunks of sixteen zeros amount to one run of n zeros |
| SfsIo.PartialIo | assignment3/ownSolution/sfs_vnode.c:488-558 | I/O on part of a block writes or reads exactly those bytes of the file, zeros for a hole |
| SfsIo.BlockIo | assignment3/ownSolution/sfs_vnode.c:563-623 | I/O on a whole block, including the residue that is put aside meanwhile |
| SfsIo.TransferAll | assignment3/ownSolution/sfs_vnode.c:659-709 | leading part, whole blocks and trailing part together move one contiguous range |
| SfsIo.Io | assignment3/ownSolution/sfs_vnode.c:628-724 | offset plus residue is conserved, the range moved is the range asked for clipped at the end for reads, the size grows as needed, on success and on failure alike |
| SfsIo.OnlyFileFrames | assignment3/ownSolution/sfs_vnode.c:628-724 | I/O on one file leaves the tree and every byte of every other file |
| SfsIo.WriteContents | assignment3/ownSolution/sfs_vnode.c:628-724 | seen through its size, a write replaces its range and fills gaps with zeros |
| SfsIo.ReadContents | assignment3/ownSolution/sfs_vnode.c:628-724 | a read delivers the slice of the contents clipped at the end of the file |
| SfsFile.SfsRead | assignment3/ownSolution/sfs_vnode.c:1136-1143 | a read changes memory in its range only, and delivers the bytes of the file |
| SfsFile.SfsWrite | assignment3/ownSolution/sfs_vnode.c:1148-1155 | a write, complete or not, writes a prefix of its data at its offset; within the reach of the index arithmetic it fails exactly when fewer blocks are free than pointers are missing on the ways to its range |
| SfsRuns.StepFrames | assignment3/ownSolution/sfs_vnode.c:628-724 | a call on one file leaves every other file alone |
| SfsRuns.StepRefines | assignment3/ownSolution/sfs_vnode.c:628-724 | one call on a volume is one call on a map from inodes to byte sequences |
| SfsRuns.RunRefines | assignment3/ownSolution/sfs_vnode.c:628-724 | any run of reads, writes and clean truncations on any files is a run over plain byte sequences |
| SfsRuns.RunReads | assignment3/ownSolution/sfs_vnode.c:628-724 | every read of such a run delivers what the byte sequences hold at that moment |
| SfsRuns.LastWriteStands | assignment3/ownSolution/sfs_vnode.c:628-724 | in any run, unclean truncations and failed calls included, a written byte is in the file until it is written again or cut off |
| SfsTruncate.PruneDirect | assignment3/ownSolution/sfs_vnode.c:1300-1308 | the direct blocks from the new length on are freed and cleared |
| SfsTruncate.PruneEntries | assignment3/ownSolution/sfs_vnode.c:1330-1342 | the entries of the indirect block past the new length, and one block more, are freed and cleared |
| SfsTruncate.Truncate | assignment3/ownSolution/sfs_vnode.c:1270-1375 | which pointers stay, which blocks are freed, which are forgotten but stay marked, and what the counter becomes |
| SfsFile.TruncateContents | assignment3/ownSolution/sfs_vnode.c:1270-1375 | the contents become the prefix of the new length, or are filled up with zeros |
| SfsFile.TruncateTail | assignment3/ownSolution/sfs_vnode.c:1300-1342 | only zeros stay behind the new end if and only if no other byte there lies in a block that is kept |
| SfsFile.ShallowCleanCut | assignment3/ownSolution/sfs_vnode.c:1300-1342 | for a file without deeper roots: which bytes those are, in terms of the length and the size |
| SfsFile.ReadableCleanCut | assignment3/ownSolution/sfs_vnode.c:1300-1358 | the same for every file: in the direct and single-indirect range by the length, beyond it by whether the indirect block keeps an entry |
| SfsFile.TruncateToNothing | assignment3/ownSolution/sfs_vnode.c:1344-1358 | a file cut to 0 has no pointers left if and only if it had an indirect block or no deeper root |
| SfsBlocks.TransferKeepsCount | assignment3/ownSolution/sfs_vnode.c:200-265 | sfi_blocks stays the number of blocks taken under reads and writes, also failed ones |
| SfsBlocks.TruncateCount | assignment3/ownSolution/sfs_vnode.c:1344-1358 | truncation keeps sfi_blocks right if and only if it forgets no double or triple root |
| SfsBlocks.ForgottenRoot | assignment3/ownSolution/sfs_vnode.c:1349-1356 | a forgotten root stays marked though nothing leads to it |
| SfsBlocks.SmallCount | assignment3/ownSolution/sfs_vnode.c:200-265 | for files of direct and single-indirect blocks the count is that of the tree |
| SfsBlocks.SmallTransfer | assignment3/ownSolution/sfs_vnode.c:628-724 | such files stay such files under I/O below the double range |
| SfsBlocks.SmallTruncateToNothing | assignment3/ownSolution/sfs_vnode.c:1270-1375 | cutting such a file to 0 frees exactly its blocks, once each, leaves the count 0 and no other owner changed |
| SfsBlocks.StaleByteReturns | assignment3/ownSolution/sfs_vnode.c:1270-1375 | a byte cut off by truncation is back after the file is lengthened again: a concrete file |
| SfsLayout.WordsRoundTrip | assignment3/ownSolution/sfs_vnode.c:115-470 | a buffer of words written to a block is read back unchanged |
| SfsLayout.InodeRoundTrip | assignment3/ownSolution/sfs_vnode.c:38-51 | an inode written to its block is read back unchanged |
| SfsDirent.EntryRoundTrip | assignment3/ownSolution/sfs_vnode.c:734-795 | a directory entry is read back as written, with its name cut at the first NUL |
| SfsDirent.WriteEntry | assignment3/ownSolution/sfs_vnode.c:767-795 | writing one slot changes that entry and no other |
| SfsDirent.PutBinds | assignment3/ownSolution/sfs_vnode.c:875-914 | filling a free slot with a new name adds exactly that binding and keeps names unique |
| SfsDirent.ClearBinds | assignment3/ownSolution/sfs_vnode.c:919-931 | clearing a slot removes exactly its binding |
| SfsDirent.LinksAreNames | assignment3/ownSolution/sfs_vnode.c:1461-1482 | the number of slots that name an inode is the number of its names |
| SfsFileSystem.SfsFs.FindVnode | assignment3/ownSolution/sfs_vnode.c:1776-1800 | the vnode of an inode number, if there is one; there is never more than one |
| SfsFileSystem.SfsFs.LoadVnode | assignment3/ownSolution/sfs_vnode.c:1762-1868 | a vnode equal to the inode on disk, with one reference more |
| SfsFileSystem.SfsFs.IncRef | completeCode/os_161/tmp/ass3/vnode.c:59-66 | one reference more |
| SfsFileSystem.SfsFs.DecRef | completeCode/os_161/tmp/ass3/vnode.c:73-98 | one reference less; the last one brings about the reclaim |
| SfsFileSystem.SfsFs.SyncInode | assignment3/ownSolution/sfs_vnode.c:38-51 | afterwards the inode on disk is the one in memory, and nobody sees a difference |
| SfsFileSystem.SfsFs.Reclaim | assignment3/ownSolution/sfs_vnode.c:1067-1131 | the vnode goes; the file and its blocks go with it exactly when it has no name |
| SfsFileSystem.SfsFs.ReadDir | assignment3/ownSolution/sfs_vnode.c:734-761 | entry of a slot; it cannot fail |
| SfsFileSystem.SfsFs.FindName | assignment3/ownSolution/sfs_vnode.c:825-869 | the slot and inode of a name if and only if it is bound, and the last free slot; no name is found twice |
| SfsFileSystem.SfsFs.DirLink | assignment3/ownSolution/sfs_vnode.c:875-914 | adds one binding, or fails and changes nothing; it reads past the index buffer only when every entry of the longest directory is in use, and has no space exactly when fewer blocks are free than the way to the new entry lacks |
| SfsFileSystem.SfsFs.DirUnlink | assignment3/ownSolution/sfs_vnode.c:919-931 | removes one binding; it cannot fail |
| SfsFileSystem.SfsFs.LookOnce | assignment3/ownSolution/sfs_vnode.c:937-963 | a reference to the file of a name; the panic on a link count of 0 cannot be reached |
| SfsFileSystem.SfsFs.MakeObj | assignment3/ownSolution/sfs_vnode.c:972-994 | a new empty file without a name; out of memory exactly the block taken for its inode is lost, without space nothing changes |
| SfsFileSystem.SfsFs.Creat | assignment3/ownSolution/sfs_vnode.c:1401-1454 | exactly one new name for a new empty file, or the existing file; any failure leaves names, files and references as they were; each outcome with its condition: ENOSPC exactly for lack of the blocks needed, the fault only in a full directory, out of memory the lost block |
| SfsFileSystem.SfsFs.Link | assignment3/ownSolution/sfs_vnode.c:1461-1482 | exactly one binding more, each failure with its condition; the volume stays consistent if and only if the 16-bit link count does not wrap |
| SfsFileSystem.SfsFs.WrapCount | assignment3/ownSolution/sfs_vnode.c:1474-1478 | the largest link count becomes 0, which no longer counts the names |
| SfsFileSystem.SfsFs.Remove | assignment3/ownSolution/sfs_vnode.c:1487-1515 | exactly one binding less; the file goes if and only if that was its last name and nobody holds it |
| SfsFileSystem.SfsFs.Rename | assignment3/ownSolution/sfs_vnode.c:1523-1596 | moves exactly one binding, refuses a name that is taken, and fails without a trace; with memory and a new name that fits, the outcome is decided: ENOSPC for lack of blocks, the panic exactly for the root and for the largest link count, else success |
| SfsFileSystem.CountIsNames | assignment3/ownSolution/sfs_vnode.c:1461-1482 | the link count of a file is the number of its names |
| SfsLargest.Largest | assignment3/ownSolution/sfs_vnode.c:1461-1482 | a volume from mksfs on which a file has the largest link count, 65535, and everything still holds |
| SfsLargest.RenamePanics | assignment3/ownSolution/sfs_vnode.c:1565-1579 | renaming that file panics |
| SfsLargest.LinkWraps | assignment3/ownSolution/sfs_vnode.c:1474-1478 | one link more succeeds and leaves the count 0 and the volume inconsistent |
| SfsFileSystem.SfsFs.ReadFile | assignment3/ownSolution/sfs_vnode.c:1136-1143 | reading through a vnode changes nothing that anyone sees |
| SfsFileSystem.SfsFs.WriteFile | assignment3/ownSolution/sfs_vnode.c:1148-1155 | writing through a vnode touches no name, no other file and no reference, replaces exactly the range written, and fails exactly for lack of space |
| SfsState.CallKeeps | assignment3/ownSolution/sfs_vnode.c:628-724 | a read, write or truncation of one file keeps the roles of all blocks: data, inode, directory, freemap, superblock |
| SfsChanges.OrphanFs | assignment3/ownSolution/sfs_vnode.c:972-994 | a block lost by sfs_makeobj is noticed by nobody else |
| SfsChanges.ErasedFs | assignment3/ownSolution/sfs_vnode.c:1067-1131 | a file without names and references goes, and nothing else with it |
| SfsMount.WriteMap | completeCode/os_161/tmp/ass3/sfs_fs.c:39-73 | the freemap blocks on disk hold the bits of the freemap |
| SfsMount.ReadMap | completeCode/os_161/tmp/ass3/sfs_fs.c:39-73 | the bits of the freemap become those of the blocks on disk |
| SfsMount.Sync | completeCode/os_161/tmp/ass3/sfs_fs.c:81-145 | every inode and the freemap are on disk, all marks of change are gone, and nobody can tell the difference |
| SfsMount.Unmount | completeCode/os_161/tmp/ass3/sfs_fs.c:166-192 | refused exactly while somebody holds a reference; otherwise the device alone determines the freemap and a sound file system with the same names and bytes |
| SfsMount.Remount | completeCode/os_161/tmp/ass3/sfs_fs.c:208-311 | sync, unmount and mount give back all names, the bytes of all files, and the freemap |
| Bitmap.BitMap.Alloc | completeCode/os_161/src/kern/lib/bitmap.c:72-94 | marks the least free bit, or reports that none is free |
| Bitmap.BitMap.Mark | completeCode/os_161/src/kern/lib/bitmap.c:107-118 | adds exactly one bit |
| Bitmap.BitMap.Unmark | completeCode/os_161/src/kern/lib/bitmap.c:120-131 | removes exactly one bit |
| Bitmap.BitMap.constructor | completeCode/os_161/src/kern/lib/bitmap.c:30-64 | no bit below the size is marked, and all padding bits are |
| Bitmap.FirstClearBit | completeCode/os_161/src/kern/lib/bitmap.c:78-92 | the least clear bit of a byte that is not full |
| Bitmap.AllocMarksLeast | completeCode/os_161/src/kern/lib/bitmap.c:72-94 | setting the first clear bit of the first byte that is not full marks the least free bit and nothing else |
| Mksfs.BitmapSizeWraps | completeCode/os_161/src/sbin/mksfs/mksfs.c:86-114 | the size of the freemap wraps to 0 for the largest volumes |
| Mksfs.MarkBits | completeCode/os_161/src/sbin/mksfs/mksfs.c:86-114 | exactly the superblock, the root, the freemap blocks and the bits past the end are marked |
| Mksfs.MakeFs | completeCode/os_161/src/sbin/mksfs/mksfs.c:116-165 | which volumes can be made, and that they come out fresh |
| Mksfs.FreshFs | completeCode/os_161/src/sbin/mksfs/mksfs.c:39-114 | a fresh volume satisfies the whole file system invariant, with no names and no files |
| Mksfs.MountNew | completeCode/os_161/tmp/ass3/sfs_fs.c:208-311 | what mksfs wrote can be mounted as an empty file system |
| Mksfs.AllocationStaysInside | assignment3/ownSolution/sfs_vnode.c:60-78 | after any run of taking and giving back, the next block lies inside the volume and is not reserved, and only a full volume has none |
| Mksfs.RunSpace | completeCode/os_161/src/kern/lib/bitmap.c:72-131 | whatever is asked of the freemap of a new volume, its states form such a run and every block handed out was free and inside the volume |
| PageRefs.UseOne | completeCode/os_161/src/kern/lib/kheap.c:122-127 | setting a bit claims one page reference and no other |
| PageRefs.FirstClear | completeCode/os_161/src/kern/lib/kheap.c:121-128 | the inner loop finds the least clear bit; its assertion cannot fail |
| PageRefs.ClaimThenRelease | completeCode/os_161/src/kern/lib/kheap.c:420-427 | giving back a claimed reference restores the bitmap |
| KheapAlloc.KernelHeap.AllocPageRef | completeCode/os_161/src/kern/lib/kheap.c:110-133 | the least free page reference, or none exactly when all are used |
| KheapAlloc.KernelHeap.FreePageRef | completeCode/os_161/src/kern/lib/kheap.c:135-148 | releases one page reference |
| KheapAlloc.KernelHeap.RemoveSame | completeCode/os_161/src/kern/lib/kheap.c:313-319 | unlinks a page from the list of its size |
| KheapAlloc.KernelHeap.RemoveAll | completeCode/os_161/src/kern/lib/kheap.c:321-327 | unlinks a page from the list of all pages |
| KheapAlloc.KernelHeap.TypeFor | completeCode/os_161/src/kern/lib/kheap.c:330-346 | the smallest block size that fits |
| KheapAlloc.KernelHeap.TakeBlock | completeCode/os_161/src/kern/lib/kheap.c:378-404 | pops the head of the free list stored in the page |
| KheapAlloc.KernelHeap.LayOut | completeCode/os_161/src/kern/lib/kheap.c:438-448 | links all blocks of a new page, last to first, and touches nothing else |
| KheapAlloc.KernelHeap.SubpageKmalloc | completeCode/os_161/src/kern/lib/kheap.c:348-458 | a block that was not in use, of the smallest class, or none exactly when no page has room and no reference or page is to be had |
| KheapAlloc.KernelHeap.PushBlock | completeCode/os_161/src/kern/lib/kheap.c:509-524 | fills the block with 0xdeadbeef, links it in front and touches no other byte |
| KheapAlloc.KernelHeap.SubpageKfree | completeCode/os_161/src/kern/lib/kheap.c:460-538 | frees exactly one block, gives the page back exactly with its last block, panics exactly on misplaced addresses |
| KheapAlloc.KernelHeap.Kmalloc | completeCode/os_161/src/kern/lib/kheap.c:543-561 | keeps every other block in use and every whole-page allocation |
| KheapAlloc.KernelHeap.Kfree | completeCode/os_161/src/kern/lib/kheap.c:563-575 | routes sub-page and whole-page addresses to the right allocator; when it panics |
| KheapAlloc.NpagesSuffice | completeCode/os_161/src/kern/lib/kheap.c:546-552 | the rounded page count covers the request if and only if the 32-bit sum does not wrap |
| KheapAlloc.AddressKinds | completeCode/os_161/src/kern/lib/kheap.c:479-503 | an address on a heap page is a block in use or is misplaced, unless it is on a free list |
| KheapAlloc.Routes | completeCode/os_161/src/kern/lib/kheap.c:569-574 | blocks in use lie on heap pages, whole-page allocations and the null pointer do not |
| KheapAlloc.BlockAligned | completeCode/os_161/src/kern/lib/kheap.c:30-34 | a block is aligned to its class |
| KheapAlloc.LaidIsChain | completeCode/os_161/src/kern/lib/kheap.c:438-448 | the words written into a new page are its free list |
| KheapSteps.LivePlusFree | completeCode/os_161/src/kern/lib/kheap.c:164-199 | on every page the blocks in use and the free ones are all blocks of the page |
| KheapSteps.LiveApart | completeCode/os_161/src/kern/lib/kheap.c:348-458 | two blocks in use never overlap |
| KheapSteps.LiveNotFree | completeCode/os_161/src/kern/lib/kheap.c:348-458 | a block in use overlaps no block on a free list |
| KheapSteps.LiveNotBig | completeCode/os_161/src/kern/lib/kheap.c:543-561 | a block in use overlaps no whole-page allocation |
| KheapSteps.PopGood | completeCode/os_161/src/kern/lib/kheap.c:378-404 | taking a block makes exactly that block live and keeps the heap invariant |
| KheapSteps.PushGood | completeCode/os_161/src/kern/lib/kheap.c:509-524 | giving a block back makes exactly that block free and keeps the invariant |
| KheapSteps.AddGood | completeCode/os_161/src/kern/lib/kheap.c:429-454 | a new page changes no block in use and keeps the invariant |
| KheapSteps.DropGood | completeCode/os_161/src/kern/lib/kheap.c:526-532 | dropping a page that is all free changes no block in use and keeps the invariant |
| KheapSteps.NothingLiveNothingHeld | completeCode/os_161/src/kern/lib/kheap.c:526-532 | when no block is in use, no page and no page reference is held and all lists are empty |
| Kheap.BlocksApart | completeCode/os_161/src/kern/lib/kheap.c:348-458 | blocks at different offsets or on different pages do not overlap |
| Kheap.ClientWrite | completeCode/os_161/src/kern/lib/kheap.c:18-43 | whoever has a block may write into it without disturbing the heap |
| Queue.RingAppend | completeCode/os_161/src/kern/lib/queue.c:97-106 | writing the slot at the end of a ring that is not full appends, across the wrap |
| Queue.FullMeans | completeCode/os_161/src/kern/lib/queue.c:97-98 | the test for a full ring is true exactly at size - 1 elements |
| Queue.NewSize | completeCode/os_161/src/kern/lib/queue.c:31-36 | the doubling loop; its assertion fails exactly where the 32-bit size would wrap |
| Queue.Queue.Grow | completeCode/os_161/src/kern/lib/queue.c:17-51 | a ring of at least the target size with the same contents, or no change at all |
| Queue.Queue.AddTail | completeCode/os_161/src/kern/lib/queue.c:90-108 | appends, or fails without a change exactly when the ring is full and cannot grow; the recursion with q_grow ends |
| Queue.Queue.RemHead | completeCode/os_161/src/kern/lib/queue.c:110-121 | takes the first element |
| Queue.Queue.Preallocate | completeCode/os_161/src/kern/lib/queue.c:70-81 | grows to the requested number of slots, which hold one element fewer |
| PtrArray.PtrArray.Preallocate | completeCode/os_161/src/kern/lib/array.c:42-65 | same elements, enough slots; always asks for memory |
| PtrArray.PtrArray.SetSize | completeCode/os_161/src/kern/lib/array.c:67-89 | resizing to 0 gives away more than 16 slots |
| PtrArray.PtrArray.Add | completeCode/os_161/src/kern/lib/array.c:100-114 | appends; needs memory exactly when all slots are taken |
| PtrArray.PtrArray.Remove | completeCode/os_161/src/kern/lib/array.c:116-127 | removes one element and keeps the order of the others |
| Threads.WakeFromMoves | completeCode/os_161/tmp/ass1/thread.c:510-538 | the scan that removes as it goes moves exactly the sleepers on the address, in order |
| Threads.WakeOneMoves | completeCode/os_161/tmp/ass1/thread.c:544-572 | wakes at most one thread: the one that has slept longest on the address |
| Threads.ForkKeeps | completeCode/os_161/tmp/ass1/thread.c:231-330 | a fork, failed or not, keeps the partition of the threads and the preallocation bounds |
| Threads.DispatchKeeps | completeCode/os_161/tmp/ass1/thread.c:395-414 | a dispatch keeps the invariant, and its assertion in exorcise cannot fail |
| Threads.SleepKeeps | completeCode/os_161/tmp/ass1/thread.c:375-389 | going to sleep keeps the invariant |
| ThreadRuns.RunKeepsInv | completeCode/os_161/tmp/ass1/thread.c:231-572 | every state of every run satisfies the invariant |
| ThreadRuns.OneOfFour | completeCode/os_161/tmp/ass1/thread.c:25-35 | each thread is in exactly one place: current, run queue, sleepers or zombies; numthreads counts the first three |
| ThreadRuns.DispatchOrder | completeCode/os_161/src/kern/thread/scheduler.c:87-118 | each scheduler call brings a waiting thread one place forward, whatever else happens |
| ThreadRuns.RunsInTurn | completeCode/os_161/src/kern/thread/scheduler.c:87-118 | the thread at place k of the run queue is the one the (k+1)-th scheduler call returns |
| ThreadRuns.SleepersNeverAllocate | completeCode/os_161/tmp/ass1/thread.c:272-279 | after a successful fork, going to sleep never needs memory again |
| ThreadRuns.YieldPanics | completeCode/os_161/tmp/ass1/thread.c:281-289 | a yield fails exactly when all threads are ready, as many as the ring has slots, and the ring cannot grow |
| ThreadRuns.ExitPanics | completeCode/os_161/tmp/ass1/thread.c:384-389 | an exit fails exactly when the zombies array is full and there is no memory |
| ThreadRuns.IdleWakePanics | completeCode/os_161/tmp/ass1/thread.c:510-538 | waking from an interrupt in the idle loop fails exactly when the ring cannot take all threads |
| ThreadRuns.NoOtherPanics | completeCode/os_161/tmp/ass1/thread.c:231-572 | waking from a running thread, forking below the size limit and dispatching never fail an assertion |
| ThreadRuns.RunQueueIsOneShort | completeCode/os_161/tmp/ass1/thread.c:284-289 | 31 preallocated forks and a yield without memory: the preallocation of the run queue is one slot short |
| ThreadRuns.ZombieRoomIsLost | completeCode/os_161/tmp/ass1/thread.c:113-115 | 14 preallocated forks, one turn of every thread and an exit without memory: the preallocation of the zombies array is given away by the first thread that returns from a switch |
| ThreadKernel.ThreadKernel.ThreadFork | completeCode/os_161/tmp/ass1/thread.c:231-330 | thread_fork over the real ring and arrays does what the fork step says |
| ThreadKernel.ThreadKernel.ThreadSleep | completeCode/os_161/tmp/ass1/thread.c:495-504 | thread_sleep and the stashing half of mi_switch |
| ThreadKernel.ThreadKernel.ThreadYield | completeCode/os_161/tmp/ass1/thread.c:472-482 | thread_yield and the stashing half of mi_switch |
| ThreadKernel.ThreadKernel.ThreadExit | completeCode/os_161/tmp/ass1/thread.c:428-467 | thread_exit from the counter on |
| ThreadKernel.ThreadKernel.SwitchIn | completeCode/os_161/tmp/ass1/thread.c:391-419 | the second half of mi_switch |
| ThreadKernel.ThreadKernel.Exorcise | completeCode/os_161/tmp/ass1/thread.c:100-116 | buries all zombies; its assertion fails exactly if the current thread is one |
| ThreadKernel.ThreadKernel.ThreadWakeup | completeCode/os_161/tmp/ass1/thread.c:510-538 | thread_wakeup over the real arrays |
| ThreadKernel.ThreadKernel.ThreadWakeone | completeCode/os_161/tmp/ass1/thread.c:544-572 | thread_wakeone over the real arrays |
| ThreadKernel.ThreadKernel.HasSleepers | completeCode/os_161/tmp/ass1/thread.c:578-593 | true exactly when some thread sleeps on the address |
| Synch.StepKeepsSInv | assignment1/ownSolution/synch.c:60-391 | every atomic region of every primitive keeps the invariant below |
| SynchRuns.RunKeepsSInv | assignment1/ownSolution/synch.c:60-391 | so does every run of any number of threads |
| SynchRuns.MutualExclusion | assignment1/ownSolution/synch.c:148-245 | at most one thread has been given a lock and has not released it |
| SynchRuns.SemaphoreCounts | assignment1/ownSolution/synch.c:60-93 | the count is the initial count plus V's minus finished P's, and never negative |
| SynchRuns.NoLostWakeup | assignment1/ownSolution/synch.c:60-245 | a thread asleep on a semaphore finds it at 0, one asleep on a lock finds it owned by another |
| SynchRuns.WaitersQueue | assignment1/ownSolution/synch.c:311-391 | the waiters of a condition variable form a queue that only cv_wait, cv_signal and cv_broadcast touch, and how |
| SynchRuns.WaitIsAtomic | assignment1/ownSolution/synch.c:311-340 | cv_wait releases the lock and joins the queue with no step of another thread in between |
| SynchRuns.SignalWakesOne | assignment1/ownSolution/synch.c:342-365 | a signal makes exactly one waiter runnable, the one that has waited longest, and otherwise changes nothing |
| SynchRuns.WaiterAdvances | assignment1/ownSolution/synch.c:342-365 | each signal brings a waiter one place forward |
| SynchRuns.SignalReaches | assignment1/ownSolution/synch.c:311-365 | the (k+1)-th signal wakes the waiter with k before it: no signal is missed |
| SynchRuns.ReturnsHolding | assignment1/ownSolution/synch.c:311-340 | cv_wait and lock_acquire return only with the lock |
| SynchRuns.ResumeNeverFails | assignment1/ownSolution/synch.c:333-334 | the deadlock panic in lock_acquire cannot be reached from cv_wait |
| SynchRuns.MisusePanics | assignment1/ownSolution/synch.c:148-391 | the exact misuses on which each primitive panics |
| Bar.PlaceScan | assignment1/ownSolution/bar.c:57-68 | fills the first free order slot and no other |
| Bar.TakeScan | assignment1/ownSolution/bar.c:143-152 | takes the first order in state 1 |
| Bar.GlassScan | assignment1/ownSolution/bar.c:182-190 | takes the first empty glass |
| Bar.Pour | assignment1/ownSolution/bar_driver.c:238-267 | pours the real ingredients in order and counts a dose of each |
| Bar.DosesCount | assignment1/ownSolution/bar_driver.c:238-267 | each bottle counts how often it occurs among the real ingredients |
| BarProtocol.RunKeepsInv | assignment1/ownSolution/bar.c:45-262 | the protocol invariant holds at every point of every run, for any numbers of customers, glasses and bartenders |
| BarProtocol.NothingGoesWrong | assignment1/ownSolution/bar.c:57-68 | submit_order finds a slot, fill_order a glass, and the panic in take_order is never reached |
| BarProtocol.TakeFinds | assignment1/ownSolution/bar.c:139-152 | past the P there is always an order to take |
| BarProtocol.PickFinds | assignment1/ownSolution/bar.c:177-190 | past the P there is always an empty glass |
| BarProtocol.LocksExclude | assignment1/ownSolution/bar.c:27-32 | at every point of every run at most one thread is inside each of the critical sections |
| BarProtocol.CustomersApart | assignment1/ownSolution/bar.c:45-110 | two customers never have the same order slot |
| BarProtocol.BartendersApart | assignment1/ownSolution/bar.c:128-202 | two bartenders never work on the same order |
| BarProtocol.OneOrderPerGlass | assignment1/ownSolution/bar.c:171-202 | no glass serves two orders at once |
| BarProtocol.RightDrink | assignment1/ownSolution/bar_driver.c:74-101 | the glass in a customer's hand holds what that customer ordered, in order, and nothing else |
| BarProtocol.DosesAreCounted | assignment1/ownSolution/bar_driver.c:238-267 | at every point of every run a bottle's doses are the number of times it was poured |
| BarProtocol.ClosingAlone | assignment1/ownSolution/bar.c:243-262 | while closing orders are placed all other customers have gone |
| Random.NextPointers | completeCode/os_161/src/lib/libc/random.c:427-439 | both pointers move on by one and keep their distance, though only one of them is tested for the end |
| Random.NextWindow | completeCode/os_161/src/lib/libc/random.c:427-439 | one call drops the oldest word of the table and adds the sum of two others |
| Random.Recurrence | completeCode/os_161/src/lib/libc/random.c:411-442 | all words of the table and all later sums form one recurrence o(i) = o(i-deg) + o(i-sep) modulo 2^32, for every type |
| Random.Pointers | completeCode/os_161/src/lib/libc/random.c:185-200 | after n calls the rear pointer has moved n places around, and the front one is sep ahead |
| Random.SeedingReturns | completeCode/os_161/src/lib/libc/random.c:238-246 | cycling ten times around brings both pointers back to where seeding put them |
| Random.SaveLoad | completeCode/os_161/src/lib/libc/random.c:363-391 | the header word gives back type and place of the rear pointer |
| RandomTables.SwitchBack | completeCode/os_161/src/lib/libc/random.c:334-394 | switching to another table and back, with any calls in between, resumes the generator as it was left |
| RandomTables.Run | completeCode/os_161/src/lib/libc/random.c:281-394 | over any run of calls every known table stays well formed |
| RandomTables.SameSums | completeCode/os_161/src/lib/libc/random.c:411-442 | a generator that was resumed goes on with the same sequence |
| RandomTables.SameTable | completeCode/os_161/src/lib/libc/random.c:344-371 | setstate with the table in use keeps the generator if and only if its header is up to date |
| RandomTables.SameTableAfter | completeCode/os_161/src/lib/libc/random.c:344-371 | which is so only after a multiple of deg calls |
| RandomTables.RandomState.RandomUnlocked | completeCode/os_161/src/lib/libc/random.c:411-442 | random over the table and its two pointers |
| RandomTables.RandomState.SrandomUnlocked | completeCode/os_161/src/lib/libc/random.c:230-247 | seeding over the table |
| RandomTables.RandomState.InitState | completeCode/os_161/src/lib/libc/random.c:281-332 | saves the old table's header, seeds the new table by its size, refuses fewer than 8 bytes |
| RandomTables.RandomState.SetState | completeCode/os_161/src/lib/libc/random.c:353-394 | saves the old table's header and loads the new one |
| Printf.WidthIsRead | completeCode/os_161/src/lib/libc/__printf.c:177-205 | a width written in digits is read as that width |
| Printf.OneNumber | completeCode/os_161/src/lib/libc/__printf.c:461-528 | a format of one conversion prints that number in the field its modifiers describe |
| Printf.ReadBack | completeCode/os_161/src/lib/libc/__printf.c:324-456 | what atoi reads of a printed number, for every field |
| Printf.RoundTrip | completeCode/os_161/src/lib/libc/__printf.c:324-456 | atoi gives back what %d printed if and only if no zeros were put behind it or it is 0 |
| Printf.WidthRoundTrip | completeCode/os_161/src/lib/libc/__printf.c:324-456 | so it does for every word and every width without the combination of - and 0 |
| Printf.ZerosOnTheRight | completeCode/os_161/src/lib/libc/__printf.c:365-368 | %-05d of 7 reads back as 70000 |
| Printf.StuffLength | completeCode/os_161/src/lib/libc/__printf.c:330-369 | a field is as long as its width or its text, whichever is longer |
| PrintfCode.PutDigits | completeCode/os_161/src/lib/libc/__printf.c:385-432 | the digit loop stays inside its buffer in bases 8, 10 and 16 and leaves the digits of the number |
| PrintfCode.PrintOne | completeCode/os_161/src/lib/libc/__printf.c:404-424 | one round: there is room for the digit, and the digits so far are the tail of the number's |
| PrintfCode.PF.PrintStuff | completeCode/os_161/src/lib/libc/__printf.c:330-369 | the text of a padded field |
| PrintfCode.PF.SendChar | completeCode/os_161/src/lib/libc/__printf.c:461-528 | one character of the format |
| PrintfCode.PF.Vprintf | completeCode/os_161/src/lib/libc/__printf.c:535-553 | sends the whole text and returns its length |
| PrintfCode.Snp.Send | completeCode/os_161/src/lib/libc/snprintf.c:44-64 | stores as much of what was sent as there is room for |
| PrintfCode.Vsnprintf | completeCode/os_161/src/lib/libc/snprintf.c:69-112 | a terminated prefix of the text is stored, nothing else is written, and the length of the whole text is returned |
| PrintfCode.AtoiLoop | completeCode/os_161/src/lib/libc/atoi.c:20-69 | the value of the digits after blanks and a sign, in 32 bits |

## Left out

- SfsVolume.Volume.Bmap: from FAULTBLOCK on only says that allocation never succeeds, because the C code reads past its buffer there.
- SfsRuns.RunRefines: speaks of truncations that leave only zeros behind the new end, because the code keeps other bytes; SfsFile.TruncateTail and SfsFile.ReadableCleanCut say when that is so, and SfsRuns.LastWriteStands covers all runs.
- SfsFileSystem.SfsFs.Rename: does not say what is left after the panic on a link count that wraps.
- KheapAlloc.KernelHeap.Kfree: does not say what freeing a block twice does, because the code cannot tell such a block from one in use.
- SynchRuns.SemaphoreCounts: starts from counts that are not negative; sem_create does not check its argument.
- BarProtocol.ClosingAlone: does not claim that everybody goes home, because a bartender that reads 0 drinkers leaves without taking its closing order, and the last customer may then wait for ever.
- Queue.Queue.Grow: does not model that the byte size of a ring may exceed 32 bits before its slot count does.
- Volumes of 2^22 blocks and more: the byte offset of a block is a 32-bit off_t in sfs_blockio (assignment3/ownSolution/sfs_vnode.c:604), and the model does not wrap it; mksfs makes none so large, unless the size of its freemap wraps.
- Disk errors and retries, and writing back a changed superblock: block transfers always succeed.
- The counts of open files (vnode_incopen, vnode_decopen) and vnode operations such as stat, seek, and ioctl: plain accessors.
- The root directory is the only directory, as in the code; pathname lookup and the VFS layer above it are not modelled.
- The arrays of the heap (page references, bitmap words, list heads) and of the vnode table are sequence-valued fields; that no other name reaches them is not modelled.
- Concurrency inside the file system: the file system code runs under one lock in this kernel, and each call is one method.
- Timer interrupts inside the idle loop, context switching, stacks and address spaces of threads, and the fields t_cwd and t_vmspace.
- lock_destroy, sem_destroy and cv_destroy.
- Sinks of printf other than that of snprintf; variable argument lists are sequences of words and strings of the right kinds.
- The random generator's lock and the initial table randtbl as numbers; tables are taken to come from initstate.
- The assignment 2 file table, system calls, traps, the console and the menu.
