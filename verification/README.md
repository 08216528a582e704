# Verified model of the allocator, libc routines and scheduler of a bare-metal image

The image runs a media library without an operating system. This project models, in Dafny 4.11,
three parts of its support code and proves what they promise.

**The heap** (`stubs/tlsf.c`) is a two-level segregated-fit allocator. Its state is three views of
the same memory: boundary-tagged blocks that tile the pool, 25 x 32 doubly linked lists of free
blocks, and two levels of bitmaps. `Tlsf.dfy` is the allocator over an array of 64-bit words, with the
link to the previous block overlaid on the last word of its payload and the flags in the low bits of
the size. `HeapSpec.dfy` is what each operation means for an abstract heap of blocks and lists
(`Blocks.dfy`); `Memory.dfy`, `Bitmap.dfy` and `Steps.dfy` show that the stores carry that meaning
out, `Refused.dfy` what is left when `realloc` is asked for a refused size. `HeapExact.dfy` says when a
request is served, from which block and with how many bytes, `HeapTheorems.dfy` proves the theorems about
all runs, and `Checking.dfy` what the consistency checks are worth. `Mapping.dfy` holds the size classes
and the alignment arithmetic.

**Algorithmic libc routines** (`stubs/syscall_shim.c`): the iterative quicksort with its 64-entry
stack (`Qsort.dfy`), the closed-form calendar (`Calendar.dfy`), the integer printer and `strtoll`
(`Numbers.dfy`) with the characters printed (`PrintedText.dfy`) and the standard's `strtoll`
(`ParseStandard.dfy`), and the word-at-a-time searches (`Scan.dfy`).

**The thread layer** (`smp/`): futex buckets and the runqueue as linked objects (`Sched.dfy`) with
what their operations mean for the lists (`Parking.dfy`), and the mutex and condition protocol as a
system of atomic steps over any number of threads (`Mutex.dfy`), also as seen from its calls
(`MutexCalls.dfy`).

## How the code is represented

- The word at address base + 8 w is `mem[w]`; pointers kept in memory are word indices. The pool
  follows the 6536-byte control structure, whose null block is at word 0.
- C's unsigned widths, wrap-around and truncating division are written out where they matter. Size
  flags and bitmaps are natural numbers; `Bits.dfy` defines the bitwise operators digit by digit, and
  the methods use them as the code does.
- Addresses lie below 2^62. The heap lock, like the bucket and runqueue spinlocks, is taken to make
  its operation atomic.
- Where the code falls short of its purpose, the model keeps the code and states exactly when it does
  so, with an input at which it fails: a pool of exactly 2^32 bytes passes the test at
  `stubs/tlsf.c:997` but has no list (`Mapping.ClassInTable`, `Mapping.LargestPoolOutside`); sizes above
  2^64 - 8 wrap to a 24-byte block (`HeapTheorems.MallocServesIff`, `HeapTheorems.MallocTooSmall`); an
  alignment of 2^63 wraps (`HeapTheorems.MemalignAlignedIff`, `HeapTheorems.MemalignUnaligned`); `realloc`
  of a live block to more than 2^32 - 8 bytes never moves it (`HeapTheorems.ReallocServesIff`), and to a
  size that malloc refuses, above 2^32 - 8 and at most 2^64 - 8, it does nothing to a block of 24 bytes
  but trims a larger one to size 0, after which memory represents no heap (`Tlsf.Heap.Realloc`,
  `Tlsf.SpoilingCalls`); `gmtime_r` wraps years beyond 32 bits (`Calendar.MkTimeUndoesGmTime`,
  `Calendar.GmTimeOverflows`), and its `tm_wday` and `tm_yday` are never right, against the comment at
  `stubs/syscall_shim.c:489` (`Calendar.WeekDayWrong`, `Calendar.YearDayWrong`); `mktime` takes months
  beyond 13 and days before an era for other days (`Calendar.MkTimeNormalises`,
  `Calendar.MonthFourteenLate`, `Calendar.DayZeroLate`); the consistency checks overlook some faults
  (`Checking.ChecksExact`, `Checking.StrayBit`); zero-padded negatives come out one character too wide
  (`Numbers.NumWidth`, `Numbers.NumTooWide`); `strtoll` wraps numbers beyond 64 bits and finds nothing
  in a 0x without digits (`ParseStandard.StrtollStandard`, `ParseStandard.TooLargeWraps`,
  `ParseStandard.HexPrefixAlone`); a joiner woken by an exiting thread stays in its bucket, and a thread
  that ran on after it was woken stays in the runqueue, so that its next wake-up queues it twice
  (`Sched.Scheduler.MakeRunnable`, `Sched.Scheduler.JoinerWoken`, `Sched.Scheduler.TwiceWoken`).
- `strtoll` negates INT64_MIN as two's complement hardware does.

`dafny verify dfyconfig.toml` checks everything.

## Model

| member | source | states |
|---|---|---|
| Mapping.FlsSizet | stubs/tlsf.c:181-195 | The two-half search for the highest bit gives floor(log2(size)) of every 64-bit size, -1 for 0. |
| Mapping.ClassOfIsScan | stubs/tlsf.c:515-532 | The shift-and-xor class of a size is the one a linear scan of the class bounds finds. |
| Mapping.ClassIsInterval | stubs/tlsf.c:515-532 | Class k holds exactly the sizes from Lo(k) to Lo(k) + Width(k) - 1: the classes are consecutive intervals. |
| Mapping.ClassMonotone | stubs/tlsf.c:515-532 | A larger size is never filed in a lower class. |
| Mapping.ClassInTable | stubs/tlsf.c:515-532 | A size has a place in the 25 x 32 table if and only if it is below 2^32. |
| Mapping.LargestPoolOutside | stubs/tlsf.c:997 | A pool of exactly 2^32 bytes, which the test admits, has a block of row 25, one beyond the table. |
| Mapping.SearchClassExact | stubs/tlsf.c:535-543 | For 8-aligned sizes the search starts at exactly the least class all of whose sizes suffice, also when the rounding carries into the next power of two. |
| Mapping.SearchClassIsScan | stubs/tlsf.c:535-543 | The search class is the one a linear scan for a sufficient class finds. |
| Mapping.SearchSound | stubs/tlsf.c:535-543 | Every block filed at or above the search class is at least as large as the request. |
| Mapping.SearchNearlyComplete | stubs/tlsf.c:535-543 | A block filed below the search class is smaller than s (s < 256) or than s + 2^(fls(s)-5) - 1. |
| Mapping.AlignUpBitwise | stubs/tlsf.c:470-474 | Adding and masking on 64 bits is the arithmetic rounding used in the proofs, wrap-around included. |
| Mapping.AlignUpIsNext | stubs/tlsf.c:470-474 | Without wrap-around the result is the next multiple of the alignment. |
| Mapping.AdjustRequest | stubs/tlsf.c:494-508 | What rounding a request to 8 gives: 0 exactly for size 0 and for sizes above 2^32 - 8 that do not wrap; otherwise a multiple of 8 from 24 to below 2^32 that covers the request exactly when rounding does not wrap. |
| Mapping.AlignGapBounds | stubs/tlsf.c:1154-1170 | The gap in front of an aligned payload is 0 or at least 32, and at most align + 24. |
| Mapping.AlignGapTight | stubs/tlsf.c:1154-1170 | The bound align + 24 is attained by every payload 24 bytes short of a boundary. |
| Mapping.AlignGapLeast | stubs/tlsf.c:1154-1170 | The gap is the least that reaches a multiple of the alignment and is 0 or has room for a block; an aligned payload has none. |
| Mapping.MemalignSizeExact | stubs/tlsf.c:1128-1145 | The size memalign searches for leaves room for the gap and the request, or is a refusal, for every power of two but 2^63, where it wraps to 24. |
| Mapping.MemalignSizeIs | stubs/tlsf.c:1128-1147 | For alignments from 16 below 2^63 the size searched for is the least multiple of the alignment that is at least adjusted size + alignment + 32, or 0 exactly when that is 2^32 or more; up to 8 it is the adjusted size, at 2^63 it is 24. |
| FreeList.UnlinkRemoves | stubs/tlsf.c:580-591 | The two link stores of a removal take the block out of a doubly linked list through the null block and keep the others in order. |
| FreeList.LinkFrontAdds | stubs/tlsf.c:609-622 | The three link stores of an insertion put the block in front of the list. |
| Bitmap.FillBits | stubs/tlsf.c:623-624 | Setting the two bits keeps the bitmaps set exactly for the non-empty lists. |
| Bitmap.DrainBits | stubs/tlsf.c:593-602 | Clearing the second-level bit, and the first-level bit when its row becomes empty, keeps the bitmaps exact. |
| Bitmap.SearchIsScan | stubs/tlsf.c:545-575 | The two-level bitmap search finds the least non-empty list at or above the start, as a scan of all 800 lists does, and fails exactly when there is none. |
| Memory.SizeBitwise | stubs/tlsf.c:367-370 | Masking off the two flag bits gives the size the model computes with. |
| Memory.SetSizeBitwise | stubs/tlsf.c:372-376 | The masked store replaces the size and keeps both flags. |
| Memory.SetFreeBitwise | stubs/tlsf.c:388-396 | Setting and clearing bit 0 change the free flag only. |
| Memory.SetPrevFreeBitwise | stubs/tlsf.c:403-411 | Setting and clearing bit 1 change the prev-free flag only. |
| Memory.TagFromStale | stubs/tlsf.c:649-668 | Setting size, free and prev-free fixes a header whatever stale payload it held. |
| Memory.MarkMirrors | stubs/tlsf.c:455-468 | The link and flag stores of marking leave memory representing the heap with that block marked. |
| Memory.SplitMirrors | stubs/tlsf.c:649-668 | A split, with the flag and link its callers repair, leaves memory representing the heap with the block split. |
| Memory.AbsorbMirrors | stubs/tlsf.c:671-678 | Adding the sizes and relinking leaves memory representing the heap with the two blocks joined. |
| Memory.UnlistMirrors | stubs/tlsf.c:580-591 | The stores of a removal leave memory representing the heap with the block off its list. |
| Memory.EnlistMirrors | stubs/tlsf.c:609-622 | The stores of an insertion leave memory representing the heap with the block in front of its list. |
| Memory.ClientStoreMirrors | stubs/tlsf.c:297-302 | A client may store anything into its own payload, the last word included, and the heap is still represented. |
| Steps.MergePrevStep | stubs/tlsf.c:681-693 | The prev-free flag is set if and only if the physical predecessor is free, and then the word before the header leads to it. |
| Steps.RemoveStep | stubs/tlsf.c:578-604 | All stores of a removal together: links, list head and bitmaps, and no word of any live payload. |
| Steps.InsertStep | stubs/tlsf.c:607-625 | All stores of an insertion together: links, list head and bitmaps, and no word of any live payload. |
| Steps.SplitStep | stubs/tlsf.c:649-668 | A split touches no word of another live payload. |
| Steps.AbsorbStep | stubs/tlsf.c:671-678 | An absorption touches no word of another live payload. |
| HeapSpec.LocateFound | stubs/tlsf.c:755-783 | The block found is free, on the head of its list and at least as large as the request. |
| HeapSpec.LocateFails | stubs/tlsf.c:755-783 | The search fails if and only if every free block is filed below the first sufficient class, and then every free block is smaller than s (s < 256) or than s + 2^(fls(s)-5) - 1. |
| HeapSpec.MallocKeepsInv | stubs/tlsf.c:1117-1123 | malloc keeps tiling, flags, coalescing and lists, and returns a used block with room for the adjusted size, or leaves the heap as it was. |
| HeapSpec.FreeKeepsInv | stubs/tlsf.c:1182-1195 | free keeps tiling, flags, coalescing and lists, whatever its neighbours are. |
| HeapSpec.MemalignKeepsInv | stubs/tlsf.c:1125-1180 | memalign keeps the heap invariant and returns a used block or none. |
| HeapSpec.MemalignHeadOk | stubs/tlsf.c:1152-1177 | The leading split is always possible when a gap is needed, and what remains is aligned and holds the adjusted size. |
| HeapSpec.MemalignServes | stubs/tlsf.c:1125-1180 | For every power of two below 2^63 a non-null result is a multiple of the alignment and has room for the request. |
| HeapSpec.MallocKeepsOthers | stubs/tlsf.c:1117-1123 | malloc leaves every other used block where and as it was. |
| HeapSpec.FreeKeepsOthers | stubs/tlsf.c:1182-1195 | free leaves every other used block where and as it was. |
| HeapSpec.MemalignKeepsOthers | stubs/tlsf.c:1125-1180 | memalign leaves every other used block where and as it was. |
| HeapTheorems.FreeUndoesMalloc | stubs/tlsf.c:1117-1195 | Freeing what malloc just returned gives back the same heap: the same blocks and the same lists in the same order. |
| HeapTheorems.FreeUndoesMemalign | stubs/tlsf.c:1125-1195 | Freeing what memalign just returned gives back the same blocks and the same set of blocks in every list, with splits in front, behind or both. |
| HeapTheorems.FreshInv | stubs/tlsf.c:982-1029 | A new pool satisfies the heap invariant. |
| HeapTheorems.ReallocAnyKeepsInv | stubs/tlsf.c:1210-1266 | For every null or live pointer and every size: the heap is lost if and only if a block above 24 bytes is resized to a size above 2^32 - 8 and at most 2^64 - 8; otherwise the whole heap invariant is kept, and what is returned holds at least the adjusted size, or the heap is as before. |
| HeapTheorems.ReallocAnyKeepsOthers | stubs/tlsf.c:1210-1266 | Unless the heap is lost, every other used block stays where and as it was; none of them is returned. |
| HeapTheorems.ApplyKeepsInv | stubs/tlsf.c:1117-1266 | Each of the four calls, with any sizes and any null or live pointers, keeps the heap invariant or, exactly when it is such a realloc, loses the heap. |
| HeapTheorems.ApplyKeepsOthers | stubs/tlsf.c:1117-1266 | Each of the four calls that does not lose the heap leaves every used block it is not given where and as it was. |
| HeapTheorems.RunKeepsInv | stubs/tlsf.c:1099-1266 | Over every run of calls on a new pool the heap is lost if and only if some realloc before resized a block above 24 bytes to a refused size; in every other state it is well formed and the pool keeps its size. |
| HeapTheorems.PayloadsDisjoint | stubs/tlsf.c:297-302 | Payloads of different live blocks share no word, last words included, and lie inside the pool. |
| HeapTheorems.Conservation | stubs/tlsf.c:671-678 | In the same states the sum of (size + 8) over the blocks of the pool, all of which a walk meets, is pool_bytes + 8. |
| HeapTheorems.FullReclaim | stubs/tlsf.c:1031-1044 | With nothing allocated the heap is again exactly the new pool: one free block of all the bytes, then the sentinel. |
| HeapExact.LocateIs | stubs/tlsf.c:755-777 | The search finds nothing if and only if no free block is in a class of large enough blocks; otherwise the block filed last of the least such class. |
| HeapExact.PrepareExact | stubs/tlsf.c:785-796 | A free block taken into use keeps exactly the request when the rest has room for a block, else all of it; no other block becomes live. |
| HeapExact.MallocExact | stubs/tlsf.c:1117-1123 | malloc returns null, and changes nothing, if and only if there is no adjusted request or no free block suits it; otherwise it takes the block filed last of the least sufficient class, keeps less than 32 bytes more than the adjusted size, and makes exactly this block live. |
| HeapExact.MemalignExact | stubs/tlsf.c:1125-1192 | memalign returns null, and changes nothing, if and only if there is no adjusted request or no free block suits the size it has to search for; otherwise the payload lies the least gap behind that of the block filed last of the least sufficient class, and the block keeps less than 32 bytes more than the adjusted size and is the only one to become live. |
| HeapExact.ReallocExact | stubs/tlsf.c:1210-1266 | For every call that does not lose the heap: the pointer stays if and only if the adjusted size fits the block, or the block, a header and its free successor; null comes back, and nothing changes, if and only if it does not fit and no free block suits it; otherwise the block moves where malloc would place it. What is returned has less than 32 bytes more than the adjusted size, and is live in place of the old block. |
| HeapExact.FreeExact | stubs/tlsf.c:1194-1208 | The freed block, and no other, stops being live. |
| HeapTheorems.MallocServesIff | stubs/tlsf.c:494-508 | A non-null malloc result holds the request if and only if the size is at most 2^64 - 8. |
| HeapTheorems.MallocTooSmall | stubs/tlsf.c:494-508 | A request of 2^64 - 1 bytes is served, with 24 bytes, by a pool of 24. |
| HeapTheorems.MemalignAlignedIff | stubs/tlsf.c:1125-1180 | A non-null memalign result is aligned if and only if the alignment is not 2^63; otherwise it holds the request if and only if the size is at most 2^64 - 8. |
| HeapTheorems.MemalignUnaligned | stubs/tlsf.c:1125-1180 | A pool of 24 bytes serves a request at alignment 2^63, with an unaligned block. |
| HeapTheorems.ReallocServesIff | stubs/tlsf.c:1210-1266 | What realloc returns for a live block holds the request if and only if the size is at most 2^32 - 8; above that the block stays where it is. The call spoils the heap if and only if the size is above 2^32 - 8 and at most 2^64 - 8 and the block is larger than 24 bytes. |
| HeapTheorems.ReallocSpoils | stubs/tlsf.c:1232 | A reachable heap and a size that spoil it: 32 bytes allocated from a pool of 32, resized to 2^32 - 7. |
| Refused.TrimFrame | stubs/tlsf.c:725-737 | The stores of a trim to size 0 change no header below the block and no other payload. |
| Refused.NothingRepresented | stubs/tlsf.c:725-737 | When a header reads 0 and a list leads a word beyond it, memory represents no heap at all, whatever blocks and lists one assumes. |
| Tlsf.Heap.constructor | stubs/tlsf.c:799-817 | control_construct over arbitrary memory gives an empty heap. |
| Tlsf.Heap.BlockSize | stubs/tlsf.c:367-370 | The size of a header, flags masked off. |
| Tlsf.Heap.BlockNext | stubs/tlsf.c:439-445 | The header that follows in memory. |
| Tlsf.Heap.BlockLinkNext | stubs/tlsf.c:448-453 | The following header's link is stored in the last word of the block. |
| Tlsf.Heap.BlockSplit | stubs/tlsf.c:649-668 | The exact stores of a split, stale flag bits included. |
| Tlsf.Heap.BlockAbsorb | stubs/tlsf.c:671-678 | The exact stores of an absorption. |
| Tlsf.Heap.RemoveFreeBlock | stubs/tlsf.c:578-604 | Carries out the removal of a free block from its list, links, head and bitmaps. |
| Tlsf.Heap.FileBlock | stubs/tlsf.c:607-625 | The exact stores of an insertion. |
| Tlsf.Heap.UnfileBlock | stubs/tlsf.c:578-604 | The exact stores of a removal. |
| Tlsf.Heap.InsertFreeBlock | stubs/tlsf.c:607-625 | Carries out the insertion of a free block, links, head and bitmaps. |
| Tlsf.Heap.BlockRemove | stubs/tlsf.c:628-633 | Removes a block from the list of its own size class. |
| Tlsf.Heap.BlockInsert | stubs/tlsf.c:636-641 | Inserts a block into the list of its own size class. |
| Tlsf.Heap.SearchSuitableBlock | stubs/tlsf.c:545-575 | Returns the head of the least non-empty list at or above the start, or null when there is none. |
| Tlsf.Heap.BlockLocateFree | stubs/tlsf.c:755-783 | Takes the located block off its list; null leaves heap and memory unchanged. |
| Tlsf.Heap.BlockMergePrev | stubs/tlsf.c:681-693 | Joins a block with a free predecessor found through the overlaid link. |
| Tlsf.Heap.BlockMergeNext | stubs/tlsf.c:696-709 | Joins a block with a free successor. |
| Tlsf.Heap.BlockTrimFree | stubs/tlsf.c:712-722 | Gives the tail of a free block back, its stale prev-free bit repaired; how much is kept is HeapExact.PrepareExact. |
| Tlsf.Heap.BlockTrimUsed | stubs/tlsf.c:725-737 | Gives the tail of a used block back, joined with a free successor; to size 0 a block of 24 bytes stays as it is, and a larger one spoils the heap. |
| Tlsf.Heap.TrimToZero | stubs/tlsf.c:725-737 | The whole trim to size 0 of a larger block, with a used or a free successor: its header then reads 0, a list leads to a header one word into it, no heap is represented, and other payloads are unchanged. |
| Tlsf.Heap.BlockTrimFreeLeading | stubs/tlsf.c:739-753 | Gives the head of a free block back and keeps the rest. |
| Tlsf.Heap.BlockPrepareUsed | stubs/tlsf.c:785-796 | Trims and marks the block and returns its payload address. |
| Tlsf.Heap.Malloc | stubs/tlsf.c:1117-1123 | Carries out the abstract malloc in memory; no word of any live payload changes; null changes nothing at all. |
| Tlsf.Heap.FindGap | stubs/tlsf.c:1154-1170 | The distance to the aligned payload that the bounds on the gap are proved for. |
| Tlsf.Heap.Memalign | stubs/tlsf.c:1125-1180 | Carries out the abstract memalign in memory; no word of any live payload changes. |
| Tlsf.Heap.Free | stubs/tlsf.c:1182-1195 | Carries out the abstract free in memory; no word of any other live payload changes. |
| Tlsf.Heap.CopyBytes | stubs/tlsf.c:1246 | Copies exactly n bytes and nothing else. |
| Tlsf.Heap.Realloc | stubs/tlsf.c:1210-1266 | Null, zero and resize cases: either 0 with heap and memory untouched, or a live block of at least the adjusted size that begins with the first min(old size, new size) bytes of the old one; no other live payload changes. The heap stays valid if and only if the call does not spoil it; a refused size changes nothing for a 24-byte block, and otherwise returns the old pointer to a block that reads 0, with no heap left. |
| Tlsf.SpoilingCalls | stubs/tlsf.c:1099-1266 | Create, add a pool, malloc 32 and realloc to 2^32 - 7, on any memory: the old pointer comes back and memory represents no heap. |
| Tlsf.Heap.ReallocMove | stubs/tlsf.c:1242-1248 | The moving path: allocate, copy, free. |
| Tlsf.Heap.ReallocInPlace | stubs/tlsf.c:1252-1261 | The shrinking path, the path that absorbs the next free block, and the path of refused sizes. |
| Setup.PoolFits | stubs/tlsf.c:988 | A pool takes every whole word of its memory but two; fewer than 16 bytes wrap and are refused. |
| Tlsf.Heap.AddPool | stubs/tlsf.c:982-1029 | Turns arbitrary memory of 40 bytes or more into a well-formed pool of one free block, of all its words but two, and the sentinel, or refuses it for its size. |
| Tlsf.Heap.RemovePool | stubs/tlsf.c:1031-1044 | With nothing allocated, leaves an empty heap. |
| Tlsf.Heap.StoreWord | stubs/tlsf.c:297-302 | A client store into its own payload keeps the heap invariant. |
| Tlsf.Heap.SizeOfPayload | stubs/tlsf.c:923-932 | The size of a live payload, 0 for null. |
| Tlsf.Heap.Check | stubs/tlsf.c:846-896 | For any headers that tile the pool, any linked lists and any bitmaps: the status is 0 if and only if every list agrees with its two bits and holds only free blocks of its class whose neighbours are used and whose successor knows; otherwise it is negative. |
| Tlsf.Heap.CheckPool | stubs/tlsf.c:829-844 | For any headers that tile the pool the status is minus the number of wrong prev-free flags in front of the sentinel. |
| Tlsf.Heap.ValidPasses | stubs/tlsf.c:829-896 | Both checks pass in every valid state. |
| Checking.ChecksExact | stubs/tlsf.c:829-896 | A pool is well formed with exact bitmaps if and only if both checks pass and what neither looks at is right: first-level bits of empty rows, free blocks on no list, the flag of the sentinel. |
| Checking.StrayBit | stubs/tlsf.c:863-870 | On any heap that passes, a first-level bit set for an empty row passes too. |
| Qsort.InsertionSort | stubs/syscall_shim.c:538-555 | Sorts a range in place and leaves the rest of the array alone. |
| Qsort.Partition | stubs/syscall_shim.c:579-591 | The Hoare partition: both scans stay inside the range without bounds checks, each part is smaller than the range, elements up to j are at most the pivot, from i on at least, and the parts may share one slot. |
| Qsort.MedianOfThree | stubs/syscall_shim.c:574-578 | The three exchanges only rearrange the range. |
| Qsort.SortRightThenLeft | stubs/syscall_shim.c:592-603 | Sorting the right part and then the left sorts the range, also when they share a pivot-equal slot. |
| Qsort.SortLeftThenRight | stubs/syscall_shim.c:592-603 | The same for the other order. |
| Qsort.PartsSortable | stubs/syscall_shim.c:592-603 | Replacing a range on the stack by its two parts keeps the promise that sorting everything on the stack sorts the array. |
| Qsort.PushedOk | stubs/syscall_shim.c:594-608 | Pushing the larger part first keeps the entry at height h within (n-1)/2^h + 1 elements, so the stack stays below 64 entries, and the work left shrinks. |
| Qsort.HeightBound | stubs/syscall_shim.c:561-571 | An entry of two or more elements sits below height 63. |
| Qsort.Sort | stubs/syscall_shim.c:556-611 | The array ends as a sorted permutation of its input for every consistent comparator and every length; no range is dropped and the overflow fallback is never taken. |
| Calendar.EraIsFloor | stubs/syscall_shim.c:468 | The truncating division with its correction rounds down for negative years too. |
| Calendar.DaysByMarchYear | stubs/syscall_shim.c:466-473 | The closed form counts the days of years that start in March. |
| Calendar.NextDayIsNext | stubs/syscall_shim.c:466-473 | The successor of every valid date, by month lengths and the 4/100/400 rule, has the next day number, for all years. |
| Calendar.Epoch | stubs/syscall_shim.c:466-473 | 1970-01-01 is day 0. |
| Calendar.YearOfEraRight | stubs/syscall_shim.c:478 | The year-of-era formula is right on every day of a 400-year era. |
| Calendar.CivilOfDays | stubs/syscall_shim.c:474-493 | civil_to_tm recovers year, month and day from the day number of every valid date. |
| Calendar.DaysOfCivil | stubs/syscall_shim.c:474-493 | Every day number is that of the valid date civil_to_tm gives for it. |
| Calendar.GmTimeParts | stubs/syscall_shim.c:494-498 | Every time, negative ones included, splits into the date of its day and a valid time of day. |
| Calendar.YearReached | stubs/syscall_shim.c:474-493 | A day is in year y or later if and only if it is not before 1 January of y. |
| Calendar.MkTimeUndoesGmTime | stubs/syscall_shim.c:494-504 | mktime undoes gmtime_r if and only if -67768040609740800 <= t < 67768036191676800, the times whose year, counted from 1900, fits a 32-bit int. |
| Calendar.GmTimeOverflows | stubs/syscall_shim.c:485 | The first time past that range: its year wraps to the least int, and mktime gives another time. |
| Calendar.WeekDayWrong | stubs/syscall_shim.c:489 | tm_wday is that of the following day, less 7 for days more than 719472 before the epoch unless it is 0; it is the right one for no time at all. |
| Calendar.YearDayWrong | stubs/syscall_shim.c:490 | tm_yday counts from the last 1 March, and is the day of the year for no time at all. |
| Calendar.MkTimeNormalises | stubs/syscall_shim.c:500-504 | For all 32-bit months and days and any time of day, mktime gives the time its fields name if and only if the month is from -1 to 13 and the day is not before the 1 March that begins the 400-year era of that month. |
| Calendar.MonthFourteenLate | stubs/syscall_shim.c:500-504 | A March given as month 14 of the year before comes out one day late in leap years and two in others. |
| Calendar.DayZeroLate | stubs/syscall_shim.c:466-473 | Day 0 of a March that begins an era comes out 2^32 days late: the unsigned day of the era wraps. |
| Numbers.Sink.Put | stubs/syscall_shim.c:291-294 | Appends one character; the buffer keeps what fits and the length counts everything. |
| Numbers.Sink.DigitsBackwards | stubs/syscall_shim.c:297-298 | The digits, last first; at most 20 of the 24 slots are used. |
| Numbers.Sink.Pad | stubs/syscall_shim.c:300-301 | Appends n fill characters, none when n is not positive. |
| Numbers.Sink.Num | stubs/syscall_shim.c:295-304 | Appends the padded, signed text of the number. |
| Numbers.NumWidth | stubs/syscall_shim.c:299-302 | The text is as wide as asked, or as the number if that is wider, if and only if it is not a zero-padded negative narrower than the field; that one is one character wider than asked. |
| Numbers.NumTooWide | stubs/syscall_shim.c:299-302 | -5 in a field of three, padded with zeros, takes four characters. |
| PrintedText.NumTextIs | stubs/syscall_shim.c:299-303 | Every character of the text: the digits last; before them zeros behind the sign when zeros are asked for, and otherwise spaces before the sign. |
| PrintedText.DigitAt | stubs/syscall_shim.c:298 | Each digit is that of its power of the base, its letter upper case exactly when asked for. |
| PrintedText.DigitsNeeded | stubs/syscall_shim.c:298 | There are no more digits than the number needs. |
| PrintedText.FiveOfTwo | stubs/syscall_shim.c:299-303 | 5 in a field of two, padded with zeros, is 05. |
| Numbers.SkipWsSign | stubs/syscall_shim.c:627-632 | Stops at the first character after white space and one sign. |
| Numbers.StrToLongLong | stubs/syscall_shim.c:633-650 | Value, modulo 2^64, and end position by the digit-by-digit specification. |
| Numbers.StrtollValue | stubs/syscall_shim.c:633-650 | In every base the value is that of the longest run of digits, positionally and modulo 2^64, negated after a minus sign; with no digit the end pointer goes back to the start. |
| ParseStandard.DigitValueIs | stubs/syscall_shim.c:642-644 | The digit values are 0 to 9 and then the letters in either case, and no other byte has one. |
| ParseStandard.SubjectIs | stubs/syscall_shim.c:627-632 | The six white-space characters and at most one sign are passed over, and nothing else. |
| ParseStandard.StandardIs | stubs/syscall_shim.c:633-650 | Section 7.22.1.4 of C11 fixes the outcome for every string and base: the number the code reads, saturated and reported when out of range, except that a 0x with no hexadecimal digit behind it reads as 0 and ends behind the 0. |
| ParseStandard.StrtollStandard | stubs/syscall_shim.c:633-650 | strtoll returns the value and end pointer of the standard, and rightly reports no error, if and only if the number fits long long and a 0x that the base allows has a hexadecimal digit behind it. |
| ParseStandard.HexPrefixAlone | stubs/syscall_shim.c:636-637 | "0xg" in base 16 ends at the start, where the standard ends behind the 0. |
| ParseStandard.TooLargeWraps | stubs/syscall_shim.c:646-649 | 2^63 in decimal comes back as -2^63, where the standard returns no negative number. |
| Numbers.FoldCase | stubs/syscall_shim.c:643 | Setting bit 5 folds upper-case letters to lower case and turns no other byte into a letter. |
| Numbers.PrintThenParse | stubs/syscall_shim.c:295-304 | Parsing what num printed gives the value back modulo 2^64 and stops at the end of the text, for every magnitude, sign, width and padding, in base 10 and 16. |
| Numbers.SignedRoundTrip | stubs/syscall_shim.c:320-324 | Every 64-bit signed value survives printing in decimal and parsing. |
| Numbers.HexRoundTrip | stubs/syscall_shim.c:325-331 | Every 64-bit unsigned value survives printing in hexadecimal and parsing, modulo 2^64. |
| Scan.ZeroMaskExact | stubs/syscall_shim.c:228 | The subtract and and-not mask is nonzero if and only if some byte of the word is 0. |
| Scan.MatchMask | stubs/syscall_shim.c:212-214 | The mask of memchr is nonzero if and only if the byte scan finds a match among the eight. |
| Scan.MemChr | stubs/syscall_shim.c:206-220 | The position a byte scan finds, for every alignment and length; every word read is aligned and inside the range. |
| Scan.StrLen | stubs/syscall_shim.c:221-234 | The position of the terminator; word reads are aligned and stay inside the last word of the string. |
| Scan.MemCmp | stubs/syscall_shim.c:193-205 | The difference of the first bytes that differ, or 0. |
| Scan.AgreeingAll | stubs/syscall_shim.c:193-205 | memcmp finds all bytes agreeing if and only if the two ranges are equal. |
| Scan.StrStr | stubs/syscall_shim.c:269-282 | The leftmost occurrence, or null exactly when the needle occurs nowhere. |
| Sched.FtxHash | smp/futex.c:37-38 | Truncating, shifting and masking the key gives bits 4 to 9 of it. |
| Sched.Scheduler.RqPush | smp/core.c:35-41 | Appends a thread; the runqueue stays a list if and only if the thread was not on it. |
| Sched.Scheduler.RqPop | smp/core.c:42-50 | Takes the first thread off the runqueue, or null when it is empty; the buckets stay right. |
| Sched.Scheduler.MakeRunnable | smp/core.c:52-60 | A waiting or new thread goes to the back of the runqueue and becomes runnable; any other is left alone. The lists stay right if and only if no waiting or new thread is queued that is still linked in a bucket or already on the runqueue. |
| Sched.Scheduler.ResumeSelf | smp/core.c:182-185 | A thread woken before it slept runs on and is not taken off the runqueue; the lists stay right. |
| Sched.Scheduler.JoinerWoken | smp/core.c:165-170 | A parked joiner woken by an exiting thread is at the back of the runqueue and still on top of its bucket. |
| Sched.Scheduler.TwiceWoken | smp/futex.c:40-73 | A thread woken before it sleeps, running on, parking again and woken again is on the runqueue twice, which is then no list. |
| Sched.Scheduler.FutexPark | smp/futex.c:40-48 | The running thread becomes the top of its bucket, whether or not it is on the runqueue; the lists stay right if and only if it was not parked already. |
| Sched.Scheduler.Detach | smp/futex.c:58-64 | The first loop takes up to n threads off the top and chains them oldest first. |
| Sched.Scheduler.FutexWake | smp/futex.c:52-73 | Exactly min(n, length) of the most recently parked threads of the bucket move behind the runqueue, oldest of them first, and become runnable; the rest of the bucket, the other buckets, the queue order and all other states stay. The lists stay right if and only if none of these threads was on the runqueue; they do when no parked thread was. |
| Sched.Scheduler.LinkedOnce | smp/futex.c:40-73 | While the lists are right every thread is linked at most once in the buckets and at most once in the runqueue; and not in both while no parked thread is queued. |
| Parking.WakeSeparates | smp/futex.c:52-73 | A wake keeps parked and queued threads apart. |
| Parking.ParkSeparates | smp/futex.c:40-48 | A park keeps parked and queued threads apart if and only if the thread is not queued. |
| Parking.WakeConserves | smp/futex.c:52-73 | A wake loses and duplicates no thread. |
| Parking.RunConserves | smp/futex.c:40-73 | Over every run of parks, wakes and pops each thread stays accounted for exactly as often as at the start. |
| Parking.BroadcastInArrivalOrder | smp/futex.c:52-73 | Threads that park one after another and are woken together run in the order in which they parked. |
| Parking.WakesInTurn | smp/futex.c:52-73 | Two wakes leave the same threads parked as one wake of both counts but queue the more recent ones first. |
| Parking.WakeOfNone | smp/futex.c:52-73 | A wake of no threads, or of a negative number, changes nothing. |
| Mutex.StepKeepsInv | smp/pthread_impl.c:68-123 | Every atomic step of lock, trylock, unlock, wait, signal and broadcast keeps the protocol invariant. |
| Mutex.RunKeepsInv | smp/pthread_impl.c:68-123 | The invariant holds in every state of every interleaving of any number of threads. |
| Mutex.MutualExclusion | smp/pthread_impl.c:68-93 | At most one thread holds the mutex, and the word is nonzero if and only if one does. |
| Mutex.WaitReturnsHolding | smp/pthread_impl.c:99-110 | pthread_cond_wait returns only to the sole holder, by winning a word that was 0. |
| Mutex.LockReturnsHolding | smp/pthread_impl.c:68-78 | pthread_mutex_lock, however often it parks, returns only to the sole holder, by winning a word that was 0. |
| Mutex.TrylockExact | smp/pthread_impl.c:79-86 | trylock returns 0 and takes the mutex if no thread holds it, and returns -1 and changes nothing if one does. |
| MutexCalls.SignalsCounted | smp/pthread_impl.c:112-123 | The counter of a condition is the number of increments made by signals and broadcasts, modulo 2^64. |
| MutexCalls.ParksExactly | smp/pthread_impl.c:101-107 | A waiter parks if and only if the increments of its condition between its load and its check are a multiple of 2^64 in number: it does when there is none, and yields when there is one. |
| MutexCalls.LoadedBefore | smp/pthread_impl.c:99-104 | Every waiter about to decide has loaded the counter since, while it held the mutex. |
| MutexCalls.LockCall | smp/pthread_impl.c:68-78 | From call to return: pthread_mutex_lock returns 0, to the sole holder of a mutex that was free just before. |
| MutexCalls.TrylockCall | smp/pthread_impl.c:79-86 | From call to return: -1 if some thread holds the mutex as it tries, and nothing else changes for the caller; otherwise 0, to the sole holder. |
| MutexCalls.UnlockCall | smp/pthread_impl.c:87-92 | From call to return: a holder gets 0 and no longer holds the mutex. |
| MutexCalls.WaitCall | smp/pthread_impl.c:99-110 | From call to return: a holder gives the mutex up, and gets 0 as the sole holder again. |
| MutexCalls.SignalCall | smp/pthread_impl.c:112-123 | From call to return: a signal or broadcast makes two moves, the first of which adds one to the counter of its condition and to no other. |
| Mutex.RefinesAtomicLock | smp/pthread_impl.c:68-110 | Every run is a run of an atomic lock: winning calls acquire a free lock, trylock fails only against an owner, the stores of 0 release the caller's own lock, nothing else changes it. |

## Left out

- Tlsf.Heap.AddPool: one pool, directly after the control structure, where the code admits several anywhere; a pool of exactly 2^32 bytes is excluded because its class has no list.
- HeapTheorems.ApplyKeepsOthers: says nothing after a call that loses the heap; that other payloads survive it is part of Tlsf.Heap.Realloc.
- HeapTheorems.RunKeepsInv: after a call that loses the heap nothing is said of the calls that follow.
- Tlsf.Heap.CopyBytes: memcpy is modelled as whole words and then odd bytes; the real one may use string instructions.
- Tlsf.Heap.constructor: the buffer is 8-aligned, so the misalignment messages are not modelled.
- Qsort.Sort: works on whole elements of any type, so the byte loops are single assignments and elements above 256 bytes, which the 256-byte temporary of the insertion sort cannot hold, are not covered; arrays are shorter than 2^63.
- Calendar.GmTime: tm_isdst, which is always 0.
- vsnprintf's format parser and final terminator.
- Numbers.StrToLongLong: bases 0 to 36, as the standard has it; the end pointer is always asked for.
- Scan.StrLen: the memory of a string extends to the end of its last aligned word, which the word-wise read needs.
- Sched.Scheduler.FutexWake: one call at a time; the context switch, the idle loops and the wake-up interrupts are not part of this model, nor is the rest of pthread_join and thread exit.
- Mutex.Step: one mutex and any number of conditions; parking is an arbitrary delay, so the claims are safety only. No claim is made that a wake-up is never lost: lock parks without rechecking the word, and wakes are per bucket rather than per key.
- The heap invariant over all runs does not cover out-of-contract frees and resizes of pointers that are not live.
- tlsf_walk_pool with other walkers, tlsf_destroy and the size constants: they would add only easy members.
- memmove, memset, strcpy and the string routines that are plain byte loops; strtod and libm; scanf; ramdisk files.
- Boot code, interrupt controllers, timers, frame buffer and all assembly: no model of the devices.
- pthread_once and thread-specific data: easy members.
