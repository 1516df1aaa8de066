# OS/161 kernel: verified models of its core

This project models the hard core of an OS/161 teaching kernel and proves what it promises. It
follows the code: same branches, same constants, same error cases, 16- and 32-bit wrap-around
written out. Mutable structures are classes and arrays updated in place; protocols between threads,
interrupt handlers and devices are step systems over unbounded numbers of threads and unbounded runs.

| files | part of the kernel |
|---|---|
| Words, Common | machine words and data shapes used throughout |
| Digits, ProgramD, Qdivrem, Divdi3, Muldi3 | 64-bit division (Knuth, volume 2, section 4.3.1) and multiplication (section 4.3.3) on 16- and 32-bit pieces |
| Bitmap | the byte-packed bitmap as a set of indices |
| PageRefs, HeapModel, Kmalloc | the subpage allocator: free lists threaded through pages, two lists over page records, a bitmap of records |
| SfsModel, Sfs | ownership of disk blocks: free map, inodes, indirect blocks, mapping, truncation, reclaim and loading |
| Uio, SfsIo | moving bytes through a uio, and file reads and writes cut into blocks |
| ThreadList, Reshuffle, Migration | sentinel doubly linked thread lists; the scheduler's move without a lock; run queues, scheduling and migration between processors |
| Semaphore | semaphores and locks over wait channels |
| Spl | interrupt levels, spinlocks and context switches |
| Serial, Disk | the serial and disk drivers' handshakes |
| Printf, Atoi | printing and parsing numbers |

Where the code does less than it promises, the model keeps the code, shows a failing input, and
proves exactly when the promise holds:

- `__divdi3` of the least number by -1 wraps (`Divdi3.Divide`).
- `kmalloc` of more than 2^32 - 4096 bytes wraps to too few pages (`Kmalloc.GrantCovers`).
- `kfree` of a block that is free already gives up its page under a live block if all but one were free, and otherwise
  ties its free list into a circle (`Kmalloc.FreedAgain`).
- `bitmap_create` of more than 2^32 - 8 bits makes a map with no room (`Bitmap.WordsSuffice`).
- `sfs_truncate` keeps one block too many in the indirect region, and cuts its block count to 32 bits, so that a length
  of 2^41 empties the file and a negative one may drop nothing (`Sfs.TruncateExact`, `Sfs.TruncateKeeps`).
- `uiomove` and `uiomovezeros` may move more than the residue (`Uio.AmountExact`, `Uio.ZerosExact`).
- `sfs_io` keeps block numbers, the file size and device offsets in 32 bits (`SfsIo.TrueBlocks`, `SfsIo.Io`,
  `SfsIo.PlaceExact`).
- `schedule` edits the run queue without its lock: harmless exactly if the thread moved is not last
  (`Reshuffle.HarmlessExactly`).
- `lhd_io` adds sector numbers in 32 bits when it looks for the end of the disk (`Disk.EndOfDisk`).
- `%-0d` fields do not read back (`Atoi.RoundTrip`).

## Model

| member | source | states |
|---|---|---|
| `Qdivrem.QDivRem` | common/gcc-millicode/qdivrem.c:67-263 | Division by zero is reported exactly for v = 0; otherwise u = q * v + r with 0 <= r < v, for all 64-bit u and v |
| `Qdivrem.LongDivide` | common/gcc-millicode/qdivrem.c:152-262 | Program D as a whole: quotient and remainder for divisors of two to four base-2^16 digits, computed in the digit arrays |
| `Qdivrem.ShortDivide` | common/gcc-millicode/qdivrem.c:123-150 | The unrolled one-digit path gives the quotient digits and remainder |
| `Qdivrem.ShortStep` | common/gcc-millicode/qdivrem.c:128-135 | Bringing down one digit keeps "what was read = quotient so far times divisor + remainder" |
| `Qdivrem.ShiftLeft` | common/gcc-millicode/qdivrem.c:265-279 | shl multiplies the number in the digits by 2^sh, in place, and touches no other digit |
| `Qdivrem.ShiftRight` | common/gcc-millicode/qdivrem.c:242-254 | Denormalising divides the remainder by 2^d exactly, in place |
| `Qdivrem.ShiftAmount` | common/gcc-millicode/qdivrem.c:167-171 | D1 finds a shift below 16 that brings the first divisor digit to at least B/2 without overflow |
| `Qdivrem.Normalise` | common/gcc-millicode/qdivrem.c:172-175 | Both numbers are multiplied by 2^d in their arrays |
| `Qdivrem.SkipLeadingZeros` | common/gcc-millicode/qdivrem.c:157-158 | The dividend starts at its first nonzero digit and is at least as long as the divisor |
| `Qdivrem.LoopEntry` | common/gcc-millicode/qdivrem.c:169-181 | After normalising, the invariant of the digit loop holds before its first turn |
| `Qdivrem.DivideDigits` | common/gcc-millicode/qdivrem.c:176-240 | D2 to D7: one quotient digit per turn; at the end the scaled remainder is in the low digits |
| `Qdivrem.Unscale` | common/gcc-millicode/qdivrem.c:242-258 | Quotient and remainder of the scaled numbers give those of the original ones |
| `Qdivrem.SplitWord` | common/gcc-millicode/qdivrem.c:112-122 | The four digits of a word have the value of the word |
| `ProgramD.EstimateDigit` | common/gcc-millicode/qdivrem.c:185-210 | D3 yields exactly min(three leading digits / two divisor digits, B - 1); both sides of its comparison, the word of two digits and the remainder fit 32 bits at every turn |
| `ProgramD.EstimateWithinOne` | common/gcc-millicode/qdivrem.c:185-229 | Whatever digits follow, that estimate is the true digit or one more |
| `ProgramD.EstimateInWindow` | common/gcc-millicode/qdivrem.c:185-210 | D3 in the arrays: the estimate for the current window is the true digit or one more |
| `ProgramD.MultiplySubtract` | common/gcc-millicode/qdivrem.c:211-223 | D4 leaves window - qhat * divisor modulo B^(n+1), and the high half of t is nonzero exactly on a borrow |
| `ProgramD.SubtractDigit` | common/gcc-millicode/qdivrem.c:218-220 | The 32-bit wrapped difference splits into the new digit and the exact borrow |
| `ProgramD.SubtractTop` | common/gcc-millicode/qdivrem.c:222-223 | The same for the top digit of the window |
| `ProgramD.AddBack` | common/gcc-millicode/qdivrem.c:230-238 | D6 adds the divisor back modulo B^(n+1) |
| `ProgramD.AddDigit` | common/gcc-millicode/qdivrem.c:233-235 | Digit and carry of one addition |
| `ProgramD.Settle` | common/gcc-millicode/qdivrem.c:224-239 | After D4 the window is reduced already, or one add-back reduces it: never two |
| `ProgramD.DivideStep` | common/gcc-millicode/qdivrem.c:182-240 | D3 to D6 replace the window by its residue modulo the divisor and return the exact digit |
| `Divdi3.Divide` | common/gcc-millicode/divdi3.c:44-62 | The quotient truncated toward zero (section 6.5.5 of ISO/IEC 9899:1999) exactly unless the operands are the least number and -1, where it wraps to the dividend; a zero divisor is reported |
| `Divdi3.Remainder` | common/gcc-millicode/moddi3.c:45-62 | The remainder has absolute value below the divisor and is zero or has the sign of the dividend, for every nonzero divisor |
| `Divdi3.SignedQuotient` | common/gcc-millicode/divdi3.c:50-61 | Truncated quotient and remainder from those of the absolute values, for all four sign combinations |
| `Divdi3.TruncatedUnique` | common/gcc-millicode/divdi3.c:40-62 | There is only one truncated quotient and remainder, so the pair returned is the one the standard demands |
| `Divdi3.Magnitude` | common/gcc-millicode/divdi3.c:50-56 | The word after negation is the absolute value, the least number included |
| `Divdi3.Signed` | common/gcc-millicode/divdi3.c:59-61 | Negating and rereading the word is arithmetic negation modulo 2^64 |
| `Muldi3.Lmulq` | common/gcc-millicode/muldi3.c:183-241 | The exact 64-bit product of two 32-bit words |
| `Muldi3.Assemble` | common/gcc-millicode/muldi3.c:214-241 | The chain of four additions with carries detected by wrap-around adds up the three products exactly |
| `Muldi3.AddHalfUp` | common/gcc-millicode/muldi3.c:223-232 | prod += x << 16 modulo 2^64, carry found by comparing with the old low word |
| `Muldi3.SubHalfUp` | common/gcc-millicode/muldi3.c:219-222 | prod -= x << 16 modulo 2^64, borrow found by comparing with the old low word |
| `Muldi3.AddLow` | common/gcc-millicode/muldi3.c:233-235 | prod += low modulo 2^64 |
| `Muldi3.AbsDiff` | common/gcc-millicode/muldi3.c:202-209 | Absolute difference and its sign |
| `Muldi3.ThreeProducts` | common/gcc-millicode/muldi3.c:57-69 | The identity that replaces four half-size products by three |
| `Muldi3.Multiply` | common/gcc-millicode/muldi3.c:99-164 | a * b modulo 2^64 reread as signed, for all a and b, the least number included |
| `Muldi3.MultiplyWide` | common/gcc-millicode/muldi3.c:131-157 | The same for operands with high words: upper parts of high and mid may be dropped |
| `Bitmap.Bitmap.constructor` | kern/lib/bitmap.c:56-90 | A set of indices below nbits that starts empty, padding bits of the last byte marked, if nbits is at most 2^32 - 8 |
| `Bitmap.WordsSuffice` | kern/lib/bitmap.c:62 | The bytes computed are enough for nbits, and none too many, exactly up to nbits = 2^32 - 8; beyond that there are none |
| `Bitmap.Bitmap.Alloc` | kern/lib/bitmap.c:98-121 | Adds the least absent index, never padding, or fails exactly when the set is full; both internal assertions hold; a map whose size wrapped around always fails |
| `Bitmap.Bitmap.Mark` | kern/lib/bitmap.c:134-145 | Adds exactly the index |
| `Bitmap.Bitmap.Unmark` | kern/lib/bitmap.c:147-158 | Removes exactly the index |
| `Bitmap.Bitmap.IsSet` | kern/lib/bitmap.c:161-169 | Tells membership |
| `Bitmap.Blank` | kern/lib/bitmap.c:73-87 | The fresh byte array has exactly the padding bits set |
| `Bitmap.FirstClear` | kern/lib/bitmap.c:107-117 | The inner loop finds the first clear bit of a byte that is not full |
| `Bitmap.LeastClear` | kern/lib/bitmap.c:105-119 | The bit found is the least clear one of the whole map and is below nbits |
| `PageRefs.AllocPageRef` | kern/vm/kmalloc.c:144-167 | A record that was not in use is marked, and no other; NULL exactly when all records are in use |
| `PageRefs.FreePageRef` | kern/vm/kmalloc.c:169-182 | Exactly that record is unmarked |
| `PageRefs.FirstClear` | kern/vm/kmalloc.c:156-162 | The inner loop finds the first clear bit of a word that is not full; the assertion after it is unreachable |
| `PageRefs.RemoveFrom` | kern/vm/kmalloc.c:354-375 | Walking with a pointer to a link removes exactly that record from a linked list, and ends |
| `PageRefs.Unpack` | kern/vm/kmalloc.c:114-116 | Page address and block type come back out of the packed word |
| `HeapModel.LiveDisjoint` | kern/vm/kmalloc.c:395-633 | No two live blocks overlap, subpage blocks and whole-page runs alike |
| `HeapModel.LiveWriteKeeps` | kern/vm/kmalloc.c:209-278 | Whatever a holder writes inside a live block, every free list stays intact |
| `HeapModel.TakeKeeps` | kern/vm/kmalloc.c:424-449 | Unlinking the first free block keeps the invariant and makes exactly that block live |
| `HeapModel.GiveKeeps` | kern/vm/kmalloc.c:566-574 | Linking a live block back keeps the invariant and ends the life of exactly that block |
| `HeapModel.AddPageKeeps` | kern/vm/kmalloc.c:480-505 | A page with a freshly threaded free list joins the heap without touching live blocks |
| `HeapModel.DropPageKeeps` | kern/vm/kmalloc.c:577-583 | A page all of whose blocks are free leaves the heap without touching live blocks |
| `HeapModel.GetRunKeeps` | kern/vm/kmalloc.c:463-469 | Pages arriving from the page allocator keep the invariant |
| `HeapModel.DropRunKeeps` | kern/vm/kmalloc.c:627-632 | Pages returned to the page allocator keep the invariant |
| `HeapModel.FreeCount` | kern/vm/kmalloc.c:576-577 | A free list is never longer than its page has blocks, and holds them all when it is as long |
| `HeapModel.FreeOutsideLive` | kern/vm/kmalloc.c:209-245 | No free block starts inside a live block |
| `Kmalloc.ChooseType` | kern/vm/kmalloc.c:377-393 | The smallest block size that holds the request |
| `Kmalloc.KernelHeap.constructor` | kern/vm/kmalloc.c:118-142 | At boot no record is in use and every list is empty |
| `Kmalloc.KernelHeap.TakeBlock` | kern/vm/kmalloc.c:424-449 | The first free block of a page is handed out: it was not live, and now it alone is added |
| `Kmalloc.KernelHeap.TakeFromList` | kern/vm/kmalloc.c:412-451 | A block from a page of the right size; fails, changing nothing, only if no such page has a free block |
| `Kmalloc.KernelHeap.AddFreshPage` | kern/vm/kmalloc.c:471-505 | The page gets a record, a free list of all its blocks, and a place on both lists |
| `Kmalloc.KernelHeap.TakeFromFreshPage` | kern/vm/kmalloc.c:471-508 | A block from the fresh page; fails, changing nothing, only if every record is in use |
| `Kmalloc.ThreadFreeList` | kern/vm/kmalloc.c:489-499 | The loop links each block to the one before it, and writes only within the page |
| `Kmalloc.KernelHeap.FindPage` | kern/vm/kmalloc.c:529-546 | The walk over all pages ends and finds the one page that holds the pointer, if any |
| `Kmalloc.FillDeadbeef` | kern/vm/kmalloc.c:40-50 | Only words of the block are overwritten |
| `Kmalloc.KernelHeap.RemovePage` | kern/vm/kmalloc.c:577-580 | remove_lists and freepageref take exactly that record off both lists and out of the bitmap |
| `Kmalloc.KernelHeap.FreeBlock` | kern/vm/kmalloc.c:511-596 | For any pointer that is not a free block: nothing changes for a pointer on no subpage page or inside one off a block (the panic); otherwise exactly that block stops being live and an empty page is given up |
| `Kmalloc.KernelHeap.SubpageMalloc` | kern/vm/kmalloc.c:395-509 | NULL, changing nothing, only without a page or a record; otherwise a block of the granted size, apart from all live blocks |
| `Kmalloc.KernelHeap.Malloc` | kern/vm/kmalloc.c:601-619 | The same for every size: exactly one live block is added |
| `Kmalloc.KernelHeap.Free` | kern/vm/kmalloc.c:621-633 | NULL is ignored, a live pointer stops being live, exactly it, and everything else panics, changing nothing; no page is kept for nothing |
| `HeapModel.FreedTwice` | kern/vm/kmalloc.c:561-574 | After freeing a free block no list at all is a free list of its page: its links run in a circle |
| `Kmalloc.FreedAgain` | kern/vm/kmalloc.c:561-583 | What freeing a free block does: if all but one block of the page were free, the page is given up though a block on it is live; otherwise it stays, with no free list |
| `Kmalloc.KernelHeap.Write` | kern/vm/kmalloc.c:601-633 | Stores by the holder of a live block keep the whole heap valid |
| `Kmalloc.ListsAdd` | kern/vm/kmalloc.c:501-505 | With the new record at both heads, the list of all pages is still the disjoint union of the per-size lists and the bitmap marks exactly its members |
| `Kmalloc.AllListRemoved` | kern/vm/kmalloc.c:360-374 | The same after removal |
| `Kmalloc.HeldForSomeBlock` | kern/vm/kmalloc.c:577-584 | Every page of the allocator contains a live block |
| `Kmalloc.GrantCovers` | kern/vm/kmalloc.c:604-610 | A request gets at least what it asked for exactly when it is at most 2^32 - 4096 bytes |
| `Kmalloc.WrappedRequest` | kern/vm/kmalloc.c:608-610 | The largest request wraps around to a run of no pages |
| `Kmalloc.GrantedApart` | kern/vm/kmalloc.c:601-619 | A block just handed out overlaps no block that was live before |
| `SfsModel.Attach` | kern/fs/sfs/sfs_vnode.c:184-186 | A block just taken from the free map goes into an empty slot: ownership stays unshared, marked, in range and without leaks |
| `SfsModel.Detach` | kern/fs/sfs/sfs_vnode.c:1190-1192 | A block leaves its slot and the free map together: the same |
| `SfsModel.MarkedExactly` | kern/fs/sfs/sfs_vnode.c:90-132 | The marked blocks are exactly the reserved ones and those in slots |
| `Sfs.SfsFs.constructor` | kern/fs/sfs/sfs_fs.c:335-343 | A consistent volume just mounted, all its files on disk and none in memory, satisfies the invariant: ownership over all files, and clean files on disk as they are |
| `Sfs.SfsFs.Balloc` | kern/fs/sfs/sfs_vnode.c:88-107 | A cleared block on the volume that nobody owns, or failure exactly on a full map; the range panic is unreachable |
| `Sfs.SfsFs.Bfree` | kern/fs/sfs/sfs_vnode.c:109-118 | Unmarks exactly the block given up; it was marked |
| `Sfs.SfsFs.BmapDirect` | kern/fs/sfs/sfs_vnode.c:169-198 | The direct part of sfs_bmap as a finite-map lookup or extension; "marked free" is unreachable |
| `Sfs.SfsFs.LoadIndirect` | kern/fs/sfs/sfs_vnode.c:220-261 | The indirect block exists afterwards and no data block moved; a failure changes nothing |
| `Sfs.SfsFs.AllocEntry` | kern/fs/sfs/sfs_vnode.c:266-281 | One entry of the indirect block is filled by a fresh block, and no other slot changes |
| `Sfs.SfsFs.BmapIndirect` | kern/fs/sfs/sfs_vnode.c:220-290 | The indirect part of sfs_bmap; a failed second allocation leaves the block map as it was |
| `Sfs.SfsFs.Bmap` | kern/fs/sfs/sfs_vnode.c:144-290 | At most the requested key changes, only if it was unmapped and allocation was asked for; a mapped key gives its block in either mode; EFBIG exactly from block 143 on; the result is nonzero when allocating |
| `Sfs.MapInjective` | kern/fs/sfs/sfs_vnode.c:144-290 | Distinct file blocks of the same or different files never share a disk block |
| `Sfs.SfsFs.TruncateDirect` | kern/fs/sfs/sfs_vnode.c:1183-1194 | Direct blocks from the limit on are given up, the others stay |
| `Sfs.SfsFs.DiscardEntries` | kern/fs/sfs/sfs_vnode.c:1215-1228 | Entries past the limit are given up, and hasnonzero tells whether any entry is left |
| `Sfs.SfsFs.TruncateIndirect` | kern/fs/sfs/sfs_vnode.c:1205-1244 | Entries past the limit are given up, and the indirect block itself when it becomes empty |
| `Sfs.SfsFs.Truncate` | kern/fs/sfs/sfs_vnode.c:1155-1254 | For any signed 64-bit length: the ownership invariant, exactly the dropped slots emptied, the low 32 bits of the length stored, which are the length exactly when 0 <= len < 2^32 |
| `Sfs.TruncateKeeps` | kern/fs/sfs/sfs_vnode.c:1171-1244 | Every block that begins before len keeps its disk block exactly when len <= 0, or ceil(len / 512) is below 2^32 or at least 142 modulo 2^32, or the file has none of the blocks the wrapped count drops; the last case falls away for a file with its last block; other files keep all |
| `Sfs.TruncateUnmarks` | kern/fs/sfs/sfs_vnode.c:1187-1235 | Exactly the blocks that left a slot are unmarked |
| `Sfs.TruncateExact` | kern/fs/sfs/sfs_vnode.c:1171-1244 | No block that begins at len or after is left exactly when, for len > 0, the first such block is direct, out of reach or not there, and for len <= 0, the block count comes out as 0 or the file has nothing the count keeps |
| `Sfs.CutToNothing` | kern/fs/sfs/sfs_vnode.c:1171-1172 | Cutting any file to 2^41 bytes empties it |
| `Sfs.CutToNegative` | kern/fs/sfs/sfs_vnode.c:1171-1172 | Cutting a file to -1024 bytes drops nothing |
| `Sfs.TruncatedMap` | kern/fs/sfs/sfs_vnode.c:1187-1223 | The block map afterwards in terms of the 32-bit block count: the strict test keeps one indirect block more |
| `Sfs.LastBlockLost` | kern/fs/sfs/sfs_vnode.c:1171-1205 | A length whose block count does not fit loses the last block a file can have, though it lies below the end |
| `Sfs.BlockCount` | kern/fs/sfs/sfs_vnode.c:1171-1172 | The block count of the code is that of the length modulo 2^32, and 0 or 1 where the rounding overflows 64 bits |
| `Sfs.OneBlockTooMany` | kern/fs/sfs/sfs_vnode.c:1219 | A file of 17 blocks cut to 15 keeps a 16th: the test is strict |
| `Sfs.TruncateToNothing` | kern/fs/sfs/sfs_vnode.c:1155-1254 | Length 0 leaves the file owning nothing but its inode |
| `Sfs.SfsFs.MakeObj` | kern/fs/sfs/sfs_vnode.c:850-871 | A new file owns one fresh block, its inode |
| `Sfs.SfsFs.Reclaim` | kern/fs/sfs/sfs_vnode.c:945-1010 | With other references only the count drops; with no link left every block of the file is unmarked; otherwise the file leaves memory with its inode written, and owns its blocks as before |
| `Sfs.SfsFs.EraseFile` | kern/fs/sfs/sfs_vnode.c:970-989 | A file without links gives back every block it owned, its inode included; every other file keeps its own |
| `Sfs.SfsFs.SyncInode` | kern/fs/sfs/sfs_vnode.c:66-80 | Afterwards the inode on disk is that of the file, and the file is clean; nothing else changes |
| `Sfs.SfsFs.LoadVnode` | kern/fs/sfs/sfs_vnode.c:2007-2115 | One more reference to a file in memory; a file not in memory comes back from its inode exactly as it left, with the same block map; the panics about unallocated blocks are unreachable |
| `Sfs.InodesUsed` | kern/fs/sfs/sfs_vnode.c:2026-2055 | Every inode, in memory or not, is in an allocated block of the volume |
| `Uio.Uio.MoveChunk` | kern/lib/uio.c:83-116 | One stretch is copied in the right direction and the iovec, residue and offset move past it; a faulting copy changes nothing |
| `Uio.Uio.Uiomove` | kern/lib/uio.c:41-120 | Moves the amount given by AmountExact's function unless an address in it faults; bytes land in order in the buffers or the kernel buffer; offset goes up by what residue goes down (in 32 bits); "ran out of buffers" exactly when bytes are left to move and no buffer is |
| `Uio.MovedTwice` | kern/lib/uio.c:58-117 | Two transfers in a row are one transfer of both lengths |
| `Uio.AmountExact` | kern/lib/uio.c:58-117 | uiomove moves min(n, resid) bytes exactly when n <= resid or the residue ends where a buffer ends |
| `Uio.Overrun` | kern/lib/uio.c:61-65 | Asked for 4 bytes with a residue of 2 and a buffer of 8, it moves 4: the stretch is not cut to the residue |
| `Uio.RanOut` | kern/lib/uio.c:67-81 | With a residue that the buffers can hold, the panic needs such an overrun |
| `Uio.AmountStep` | kern/lib/uio.c:60-116 | One turn of the loop accounts for exactly the stretch it moved |
| `Uio.Uio.Uiomovezeros` | kern/lib/uio.c:122-146 | Moves the zero bytes that the function of ZerosExact gives, in calls of 16, unless one of the addresses faults; the residue goes down in 32 bits by what the offset goes up; "ran out of buffers" exactly when bytes are left to move and no buffer is |
| `Uio.ZerosExact` | kern/lib/uio.c:133-143 | uiomovezeros moves min(n, resid) bytes exactly when n <= resid, or the residue is a multiple of 16 or ends where a buffer ends |
| `Uio.ZerosOverrun` | kern/lib/uio.c:133-143 | Asked for 32 zero bytes with a residue of 8 and a buffer of 64, it moves 32 |
| `Uio.ZerosDone` | kern/lib/uio.c:133-143 | One call accounts for exactly what it moved of the whole |
| `Uio.MoreZeros` | kern/lib/uio.c:133-143 | Zero bytes after zero bytes are zero bytes |
| `SfsIo.PartialIo` | kern/fs/sfs/sfs_vnode.c:306-434 | Moves len bytes at the offset through the block the file has there, allocating only on writing; holes read as zeros |
| `SfsIo.BlockIo` | kern/fs/sfs/sfs_vnode.c:437-500 | The same for a whole block, at the sector that the 32-bit device offset gives |
| `SfsIo.RawIo` | kern/fs/sfs/sfs_vnode.c:474-499 | With offset and residue replaced and restored, offset + residue is conserved and the same bytes are moved; the sector asked for is the disk block exactly below block 2^23 |
| `SfsIo.HoleIo` | kern/fs/sfs/sfs_vnode.c:463-472 | A block that is not there reads as 512 zero bytes |
| `SfsIo.SetAside` | kern/fs/sfs/sfs_vnode.c:478-497 | A transfer seen with the saved offset and residue is the same transfer |
| `SfsIo.Transfer` | kern/fs/sfs/sfs_vnode.c:535-585 | Leading partial, whole blocks and trailing partial are consecutive pieces from the old offset to the new one, none crossing a block; on success the residue is used up |
| `SfsIo.Io` | kern/fs/sfs/sfs_vnode.c:502-601 | A read moves min(resid, size - offset) bytes and nothing at or past the end; a write moves all; each piece is moved at the disk block the file maps there exactly if it is partial, a hole or a block below 2^23; on a volume of at most 2^23 blocks all are, and each write goes to a block that belongs to this place of this file alone; offset + residue is conserved; after a write, also a failed one, size = max(old size, end) exactly when end < 2^32 |
| `SfsIo.PlaceExact` | kern/fs/sfs/sfs_vnode.c:474-499 | A piece is moved at its disk block exactly if it is partial, a hole or a block below 2^23 |
| `SfsIo.SmallVolume` | kern/fs/sfs/sfs_vnode.c:502-601 | On a volume of at most 2^23 blocks every piece is in its place, and none is written to a block of another file, of metadata or of another place of the file |
| `SfsIo.WritesOwn` | kern/fs/sfs/sfs_vnode.c:415-434 | A piece written in its place lies in no other slot and in no reserved block |
| `SfsIo.WrongSector` | kern/fs/sfs/sfs_vnode.c:479-480 | A whole block from 2^23 on is moved at its number modulo 2^23: block 2^23 at the superblock |
| `SfsIo.TilesCover` | kern/fs/sfs/sfs_vnode.c:535-585 | Every byte of the range lies in exactly one piece, and no other byte in any |
| `SfsIo.BlocksInOrder` | kern/fs/sfs/sfs_vnode.c:535-585 | Piece i lies in block i of the range |
| `SfsIo.TrueBlocks` | kern/fs/sfs/sfs_vnode.c:454-461 | A request that starts below block 2^32 puts every piece at its true block, below 143 |
| `SfsIo.WrongBlock` | kern/fs/sfs/sfs_vnode.c:454-455 | From block 2^32 on, the 32-bit block number is that of another part of the file |
| `SfsIo.EndFits` | kern/fs/sfs/sfs_vnode.c:587-594 | A request that starts below block 2^32 ends within 143 blocks, so the size fits |
| `SfsIo.SizeExact` | kern/fs/sfs/sfs_vnode.c:589-594 | Storing the end in 32 bits gives max(size, end) exactly when end < 2^32 |
| `ThreadList.InsertKeeps` | kern/thread/threadlist.c:102-140 | Linking in a thread that is on no list keeps every list of the machine linked up |
| `ThreadList.RemoveKeeps` | kern/thread/threadlist.c:142-157 | Linking a thread out keeps every list linked up and leaves its node unlinked |
| `ThreadList.OffUnlinked` | kern/thread/threadlist.c:39-58 | A thread is on no list exactly when its node is unlinked |
| `ThreadList.Lists.InsertAfterNode` | kern/thread/threadlist.c:102-120 | The four pointer writes put the thread right after the node |
| `ThreadList.Lists.InsertBeforeNode` | kern/thread/threadlist.c:122-140 | The four pointer writes put the thread right before the node |
| `ThreadList.Lists.RemoveNode` | kern/thread/threadlist.c:142-157 | The four pointer writes take the node out |
| `ThreadList.Lists.Init` | kern/thread/threadlist.c:60-72 | A new list is empty |
| `ThreadList.Lists.Cleanup` | kern/thread/threadlist.c:74-89 | The assertions about an empty list hold |
| `ThreadList.Lists.IsEmpty` | kern/thread/threadlist.c:91-97 | tl_count is 0 exactly when the list is empty |
| `ThreadList.Lists.AddHead` | kern/thread/threadlist.c:162-170 | The thread comes first |
| `ThreadList.Lists.AddTail` | kern/thread/threadlist.c:172-180 | The thread comes last |
| `ThreadList.Lists.RemHead` | kern/thread/threadlist.c:182-198 | The first thread is taken off and returned; NULL exactly for an empty list |
| `ThreadList.Lists.RemTail` | kern/thread/threadlist.c:200-216 | The last thread is taken off and returned; NULL exactly for an empty list |
| `ThreadList.Lists.InsertAfter` | kern/thread/threadlist.c:218-224 | The thread comes right after another |
| `ThreadList.Lists.InsertBefore` | kern/thread/threadlist.c:226-232 | The thread comes right before another |
| `ThreadList.Lists.Remove` | kern/thread/threadlist.c:234-240 | Exactly that thread is taken off |
| `ThreadList.Lists.FindLowest` | kern/thread/thread.c:997-1007 | The scan stops at tl_count before it can step onto the bookend, and returns the first thread with the lowest priority value |
| `ThreadList.Lists.WalkTo` | kern/thread/thread.c:904-908 | The walk reaches the thread at the position and never the bookend |
| `Migration.Machine.Schedule` | kern/thread/thread.c:891-940 | With no other processor at this queue: a random thread and one with the lowest priority value come to the front in turn; no thread is lost; an empty queue changes nothing |
| `Reshuffle.UnlockedAdd` | kern/thread/thread.c:909-910 | For every queue, every thread moved and every point between the eight pointer writes of the move at which another processor adds a thread: the queue holds exactly the old threads and the new one, linked both ways, if and only if the point is not between the two relinking writes for the last thread, nor between the reading of the first node and the last write for a thread alone |
| `Reshuffle.HarmlessExactly` | kern/thread/thread.c:932-933 | An addition is harmless at every point if and only if the thread moved is not the last of the queue |
| `Reshuffle.Moved` | kern/thread/threadlist.c:142-171 | The eight writes with nothing between them bring the thread to the front |
| `Reshuffle.Added` | kern/thread/threadlist.c:122-140 | The addition puts the thread at the end |
| `Reshuffle.TakenOut` | kern/thread/threadlist.c:142-157 | After four of the writes the thread is out, with the pointers that the removal of thread lists has |
| `Reshuffle.PutFirst` | kern/thread/threadlist.c:102-120 | The other four put it at the head of whatever the queue is by then |
| `Reshuffle.AtMiddle` | kern/thread/threadlist.c:142-171 | An addition while the thread is on no list is harmless |
| `Reshuffle.PastRelink` | kern/thread/threadlist.c:153 | For a thread that is not last, an addition commutes with the first write |
| `Reshuffle.Pass` | kern/thread/threadlist.c:116-156 | With the thread out of the queue an addition commutes with the writes to it, and, if the queue is not empty, with those at the head |
| `Reshuffle.OneWay` | kern/thread/thread.c:904-908 | Only one sequence of threads is met from the head of a list on |
| `Reshuffle.LostAtRelink` | kern/thread/threadlist.c:153-154 | Between the relinking writes for the last thread: the new thread is not met |
| `Reshuffle.LostBeforeHead` | kern/thread/threadlist.c:117-118 | Before the head points at a thread alone: the new thread is not met |
| `Reshuffle.LostAfterHead` | kern/thread/threadlist.c:118-119 | After that and before the tail does: the thread moved is not met |
| `Reshuffle.ThreadLost` | kern/thread/thread.c:891-940 | An instance: the thread added is linked, but reachable from neither end |
| `Migration.Machine.PutOn` | kern/thread/thread.c:465-496 | Another processor adds a thread, at the end of a queue |
| `Migration.Machine.TakeOff` | kern/thread/thread.c:687-694 | Another processor takes a thread off its own queue |
| `Migration.Machine.Acquire` | kern/thread/thread.c:970-978 | While this processor waits for a run queue lock, others may add to any queue and take from their own: ours only grows at its end |
| `Migration.Machine.CountQueues` | kern/thread/thread.c:968-978 | The count for our own queue is still covered by it afterwards; undisturbed, both counts are exact |
| `Migration.Machine.PickVictim` | kern/thread/thread.c:997-1009 | One thread with the lowest priority value moves from our queue to the victims |
| `Migration.Machine.SelectVictims` | kern/thread/thread.c:995-1011 | As many victims as asked for, none with a higher priority value than a thread that stays; the queue never runs empty under it |
| `Migration.Machine.Gather` | kern/thread/thread.c:986-1014 | The same with the list set up, even if others add threads meanwhile |
| `Migration.Machine.SendOne` | kern/thread/thread.c:1023-1057 | The first victim goes to the processor with t_cpu set to it; the running thread goes to the end of the victims instead |
| `Migration.Machine.FillCpu` | kern/thread/thread.c:1022-1065 | A victim is there at every turn; the queue grows up to one share; the running thread is passed over at most once |
| `Migration.VictimsStill` | kern/thread/thread.c:1046-1050 | Once passed over, the running thread is last and is not met again |
| `Migration.Machine.Distribute` | kern/thread/thread.c:1016-1067 | A victim is there at every turn whatever others do; undisturbed, all victims are taken if there is room |
| `Migration.EnoughRoom` | kern/thread/thread.c:980-985 | The other processors below a share have room for all that is above ours |
| `Migration.RoomFor` | kern/thread/thread.c:980-985 | Room from a processor on, against the total of the queues |
| `Migration.Machine.PutBack` | kern/thread/thread.c:1069-1080 | Leftover victims go to the end of our own queue |
| `Migration.Machine.SendAway` | kern/thread/thread.c:985-1083 | Everything after the early return |
| `Migration.Machine.ConsiderMigration` | kern/thread/thread.c:959-1084 | Whatever other processors do at each lock: afterwards every ready thread is on exactly one run queue, once, t_cpu is the processor of that queue, and the running thread still belongs here; undisturbed, our queue ends at exactly ceil(total / numcpus) when the running thread is not queued, no queue is pushed above that, and those sent have the lowest priority values |
| `Migration.Shifted` | kern/thread/thread.c:1052-1053 | A thread that changes lists together with t_cpu keeps the invariant of the queues |
| `Semaphore.StepInv` | kern/thread/synch.c:89-144 | Every step of P, V, lock_acquire and lock_release by any thread keeps the invariant |
| `Semaphore.RunInv` | kern/thread/synch.c:89-144 | Every state of every run satisfies it |
| `Semaphore.NoLostWakeup` | kern/thread/synch.c:89-144 | In every reachable state count = initial + Vs - Ps, never negative, and while anyone sleeps or is committed to, the count is at most the woken that have not rechecked plus the Vs under way |
| `Semaphore.NobodyWaits` | kern/thread/thread.c:1157-1180 | When V finds the channel empty nobody is asleep or committed to sleeping: what the two overlapping spinlocks are for |
| `Semaphore.StepPromised` | kern/thread/synch.c:89-144 | Each step keeps the bound on unclaimed wakeups |
| `Semaphore.Progress` | kern/thread/synch.c:89-144 | If any thread is active, some active thread can take a step: no deadlock on the two spinlocks |
| `Semaphore.WakerActive` | kern/thread/thread.c:1157-1180 | A thread taken off the channel has an active waker |
| `Semaphore.OwnerStays` | kern/thread/synch.c:193-227 | While a thread owns a lock, only its own release changes the owner |
| `Spl.LocalKeeps` | kern/thread/spl.c:60-155 | A step that leaves its own processor balanced leaves all of them balanced |
| `Spl.Kernel.constructor` | kern/thread/thread.c:186-245 | Before any processor is known the accounting holds |
| `Spl.Kernel.CpuCreate` | kern/thread/thread.c:186-245 | A new processor runs a thread with count 1 for its spl, interrupts off; other processors and threads off theirs are left alone |
| `Spl.Kernel.SplX` | kern/thread/spl.c:127-155 | The spl changes, the count is the new spl plus the spinlocks charged, the old spl is returned; other processors and threads off theirs are left alone |
| `Spl.Kernel.BeginAcquire` | kern/thread/spinlock.c:72-88 | The acquisition is charged before the lock is had; other processors and threads off theirs are left alone |
| `Spl.Kernel.FinishAcquire` | kern/thread/spinlock.c:90-111 | The lock is held by this processor; other processors and threads off theirs are left alone |
| `Spl.Kernel.Release` | kern/thread/spinlock.c:113-127 | The lock is free and its charge gone; other processors and threads off theirs are left alone |
| `Spl.Kernel.Switch` | kern/thread/thread.c:697-708 | The run queue lock passes to the next thread, which may be the same one; both threads have the same count of 2; other processors and threads off theirs are left alone |
| `Spl.Kernel.Fork` | kern/thread/thread.c:562-567 | A fresh thread has the count 2 of a thread that was switched out; other processors and threads off theirs are left alone |
| `Spl.Kernel.BeginSwitch` | kern/thread/thread.c:609-627 | The thread waits for the run queue lock, held by another or not, at high level, charged for the lock, its old level saved |
| `Spl.WaitingStays` | kern/thread/spinlock.c:90-108 | In every run, while it waits, the steps of other processors, switches, forks and new processors included, leave its count, its level and its locks alone |
| `Spl.Kernel.EnterSwitch` | kern/thread/thread.c:627-660 | It reaches the switch with count 2, holding the run queue lock only, whether it yields, exits or sleeps on a channel |
| `Spl.AwayStays` | kern/thread/thread.c:562-567 | In every run a thread that is off its processor keeps count 2 and its saved level until it is switched to |
| `Spl.SwitchLeaves` | kern/thread/thread.c:697-708 | A switch leaves every other processor, its thread and every other thread off its processor alone |
| `Spl.CreatedLeaves` | kern/thread/thread.c:186-245 | So does a new processor |
| `Spl.ForkedKeeps` | kern/thread/thread.c:562-567 | So does a fork, which keeps the accounting |
| `Spl.Kernel.Idle` | kern/thread/thread.c:685-695 | The idle loop leaves the accounting as it was |
| `Spl.Kernel.LeaveSwitch` | kern/thread/thread.c:757-773 | The thread switched to releases the lock another took and ends with the level it had saved, count = spl, interrupts on exactly at spl 0 |
| `Spl.Kernel.SwitchTo` | kern/thread/thread.c:627-774 | A whole switch, also back to the same thread, is balanced for both threads, though one takes the lock and the other releases it; each comes back with the level it entered with |
| `Spl.SwitchKeeps` | kern/thread/thread.c:697-708 | The accounting holds through the exchange of threads |
| `Serial.ClearToWrite` | kern/dev/lamebus/lser.c:86-107 | A writer past P finds the device not busy |
| `Serial.NextInv` | kern/dev/lamebus/lser.c:46-162 | Every step of writers, polled writers, handler and device keeps the invariant |
| `Serial.Handshake` | kern/dev/lamebus/lser.c:46-162 | In every run, semaphore count + writers past P + busy flag + handlers about to call V is 1, "Not clear to write" has not happened, and with the device lock free a ready condition implies busy |
| `Serial.NeverOverwrites` | kern/dev/lamebus/lser.c:107-111 | No character is sent while another is in transit or its completion unseen |
| `Serial.PollEnds` | kern/dev/lamebus/lser.c:114-127 | A polling loop never waits for a completion that cannot come |
| `Serial.RightNotLost` | kern/dev/generic/console.c:148-154 | With the semaphore empty, someone holds the right to write or is about to return it |
| `Serial.MovedToken` | kern/dev/generic/console.c:199-208 | What a step does to the number of writers past P |
| `Disk.Exclusive` | kern/dev/lamebus/lhd.c:228-276 | Two threads are never both at the device |
| `Disk.NextInv` | kern/dev/lamebus/lhd.c:99-133 | Every step of threads, disk and handler keeps the invariant |
| `Disk.RunInv` | kern/dev/lamebus/lhd.c:99-276 | Every state of every run satisfies it |
| `Disk.Handshake` | kern/dev/lamebus/lhd.c:199-276 | At most one operation is outstanding; a thread reads the result and buffer of the sector it programmed; idle, the semaphores are 1 and 0 |
| `Disk.CompletionComes` | kern/dev/lamebus/lhd.c:246-256 | A thread waiting for completion will get it: the disk, the handler or the semaphore has it |
| `Disk.EndOfDisk` | kern/dev/lamebus/lhd.c:205-221 | A request that passes the check is on the sectors asked for and on the disk exactly if the number past its last sector fits 32 bits |
| `Disk.JobsOk` | kern/dev/lamebus/lhd.c:219-246 | In every run of such requests every sector still to do is on the disk |
| `Disk.OnDisk` | kern/dev/lamebus/lhd.c:246-249 | In every state of every such run the disk works on a sector that it has |
| `Printf.FitsBuffer` | common/libc/printf/__printf.c:78-84 | Every 64-bit number with its terminator fits the buffer in bases 8, 10 and 16 |
| `Printf.BufferIsTight` | common/libc/printf/__printf.c:84 | The largest number in octal uses all of it |
| `Printf.NumeralLength` | common/libc/printf/__printf.c:426-446 | How long a numeral can get |
| `Printf.PF.Convert` | common/libc/printf/__printf.c:413-454 | The digits in the buffer are the numeral, and no write is outside it |
| `Printf.StoreDigit` | common/libc/printf/__printf.c:426-446 | One turn puts the last digit in front of the digits there |
| `Printf.PF.PrintNum` | common/libc/printf/__printf.c:400-478 | Sign, base prefix and numeral, padded to the width |
| `Printf.PF.PrintStuff` | common/libc/printf/__printf.c:352-391 | Spaces before the prefixes, zeros after them, or padding on the right, up to the width |
| `Printf.PF.Fill` | common/libc/printf/__printf.c:335-344 | spc fill characters |
| `Printf.PF.GetSigned` | common/libc/printf/__printf.c:248-277 | Sign flag and magnitude give the number back; for the least number the negation wraps and its word is the magnitude |
| `Printf.PF.PrintDecimal` | common/libc/printf/__printf.c:235-478 | A %d field is the decimal text of the number, padded |
| `Atoi.Atoi` | common/libc/stdlib/atoi.c:49-101 | Blanks, one sign, digits up to the first other character, modulo 2^32 and reread as int |
| `Atoi.PassBlanks` | common/libc/stdlib/atoi.c:56-59 | The text after the leading blanks and tabs |
| `Atoi.ReadDigits` | common/libc/stdlib/atoi.c:70-92 | The number in the leading digits, modulo 2^32, though the accumulator wraps at every turn |
| `Atoi.FindDigit` | common/libc/stdlib/atoi.c:75-83 | The digit lookup |
| `Atoi.ValueNumeral` | common/libc/stdlib/atoi.c:70-92 | The digits of a numeral read back as the number |
| `Atoi.ReadBack` | common/libc/stdlib/atoi.c:49-101 | atoi of a %d field is the number times ten for each zero padded on its right |
| `Atoi.RoundTrip` | common/libc/stdlib/atoi.c:49-101 | atoi of a %d field gives the int back for every int, width and fill exactly unless zeros were padded on the right of a nonzero number |
| `Atoi.ZerosOnTheRight` | common/libc/stdlib/atoi.c:87-88 | Modulo 2^32 no nonzero number survives zeros on its right |
| `Atoi.ZeroFillOnTheRight` | common/libc/printf/__printf.c:387-390 | 12 printed left-aligned and zero-filled to width 4 reads back as 1200 |

## Left out

- Bitmap.Bitmap.constructor: does not model running out of kernel memory while creating the map.
- Kmalloc.KernelHeap.Malloc: takes what the page allocator answers as a parameter, any run that overlaps nothing; the page allocator itself (coremap, swap) is not modelled.
- Kmalloc.KernelHeap.SubpageMalloc: is stated for a caller alone; its two locked regions, TakeFromList and TakeFromFreshPage, keep the invariant whatever happens between them.
- Kmalloc.KernelHeap.Write: memory is a map from addresses to words, so a word store that starts in the last three bytes of a block is not seen to reach past it.
- Kmalloc.KernelHeap.FreeBlock: requires that the block is not free already, which the code does not look for; FreedAgain shows what follows.
- Kmalloc.KernelHeap.Free: requires the same, and that a page-aligned address off all subpage pages is one the page allocator gave out; what that does with others is not modelled.
- PageRefs.Unpack: bitwise "or" of disjoint fields is written as addition.
- Sfs.SfsFs.Balloc: assumes that block reads and writes succeed; the error paths of the code leak blocks.
- Sfs.SfsFs.constructor: takes a volume whose free map and files agree; mounting does not check that.
- Sfs.SfsFs.SyncInode: the inodes on disk are kept apart from the words of the other blocks, and writing them succeeds.
- Sfs.SfsFs.Reclaim: does not model a failing write of the inode or the vnode table's order.
- Sfs.SfsFs.LoadVnode: is for a file of the volume, with memory for the vnode; does not model object types.
- SfsIo.PartialIo: does not model the contents of the buffer cache, which the code does not keep coherent; bytes read from a mapped block are arbitrary.
- SfsIo.RawIo: the device transfers arbitrary sector contents.
- Uio.Uio.MoveChunk: as Uiomove, which it serves.
- Uio.Uio.Uiomove: a faulting copyin or copyout moves nothing of its stretch, though part of it may have been copied.
- ThreadList.Lists.InsertAfterNode: list nodes are keys of two pointer maps rather than objects of their own; every pointer write of the code is one map update.
- Migration.Machine.Schedule: is one step; the code takes no run queue lock, and UnlockedAdd says when that does harm.
- Reshuffle.UnlockedAdd: one addition by one other processor; pointers are read and written one at a time and seen in order; tl_count is not part of it.
- Migration.Machine.ConsiderMigration: counts are unbounded integers; the interrupt sent to idle processors is not modelled.
- Semaphore.NoLostWakeup: the count is unbounded, so the assertion after the increment in V is not about 32-bit wrap-around.
- Semaphore.OwnerStays: a lock is released only by its owner; the code does not check that.
- Spl.Kernel.Idle: interrupts taken while the processor idles are not modelled.
- Spl.Kernel.SplX: the time before the first processor is known, when the code does nothing, is not modelled; spl levels are the two that exist.
- Disk.EndOfDisk: offsets are not negative.
- Disk.Handshake: the interrupt handler is not re-entered on the same device.
- Condition variables and reader/writer locks: releasing the lock before locking the channel and rechecking with "if" do not give the usual guarantees.
- wchan_wakeall, thread creation beyond its interrupt accounting, exit and zombies.
- TLB shootdown, the address space, coremap and swap code, system calls and process tables.
- SFS directories, names, rename and mounting; emufs, device probing, the menu, ELF loading.
- Machine-dependent code: switchframe, traps, setjmp, copyin and copyout; atomic test-and-set and the context switch are single steps.
- The other millicode (shifts, comparisons, bitwise operations), string functions and resizable arrays: the parts above use only their plain meaning. The 64-bit byte swap, whose middle shifts go the wrong way, is used by none of them.
