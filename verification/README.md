# AlephOS: verified models of the kernel's stateful parts

AlephOS is a small x86-64 kernel. This project models the parts of it that hold real state and arithmetic apart from
the hardware, and proves what they promise:

- **Memory stack**: the bit-packed frame allocator (`Pmm`, over `Bits`), the four-level page tables held in its frames
  (`Vmm`), and the clients that rest on both: `sys_brk` (`Brk`), the ELF loader (`Elf`) and `expand_heap`
  (`HeapGrowth`), which share the page-mapping loop of `UserPages`. The joint invariant is that the page tables form a
  tree of distinct frames that are all in use, and that the tree computes an abstract map from virtual page to frame.
- **Heap**: the first-fit allocator on a doubly linked list of headers in memory (`HeapBlocks`, `Heap`), and where its
  pages come from (`HeapGrowth`).
- **Scheduler**: the intrusive ready queue and the round robin driven by timer ticks (`Scheduler`).
- **ext2 engine**: the device and its encodings (`Ext2Disk`), block resolution through direct and indirect pointers
  (`Ext2Blocks`), inodes and file reading and writing (`Ext2File`), bitmaps and counters (`Ext2Alloc`), freeing a
  pointer tree (`Ext2Delete`), directory blocks (`Ext2Dir`), and `ext2_delete_file` as a whole (`Ext2Unlink`).
- **Concurrent protocols**: the WiFi DMA rings (`Wifi`, with their setup over the frame allocator in `WifiSetup`) and
  the pipe (`Pipe`), as state machines whose runs are arbitrary interleavings of the steps of all parties.
- **Arithmetic**: the closed and the looped calendar (`Calendar`) and the ones'-complement checksum (`Checksum`).

`Arith` holds the division facts that the other modules use with symbolic divisors, `Options` the option type, and
`Machine` the byte, the page size and the spans of the word sizes.

## How the kernel's terms appear

- Objects that functions of the kernel update in place are classes (`FrameAllocator`, `AddressSpace`, `ProgramBreak`,
  `Loader`, `Heap`, `Scheduler`, `Volume`, `Buffer`, `Receiver`). Each carries a ghost field with its abstract value (a
  set of free pages, a translation, a sequence of blocks or processes), tied to the real fields by `Valid()`.
- Masks and shifts are written as integer arithmetic: `(vaddr >> 21) & 0x1FF` is a quotient and a remainder, a page table
  entry is frame * 4096 + flags, `& (PIPE_BUFFER_SIZE - 1)` is `% 4096`. Widths that matter (32-bit ticks, ring
  counters and block sizes, 16-bit group counts and record lengths, 64-bit addresses) are written out as `%`.
- Steps that the C code repeats are one method: the three get-or-create steps of `vmm_map_page` are `NextTable`, the last
  two steps of each indirect walk are `ReadThrough` and `WriteThrough`, and the direct, single, double and triple nests
  of `ext2_delete_file` are `FreeTree` at levels 0 to 3.
- A device block that exists can be read and written; one that does not exist gives the error path.
- In `Heap`, getting and mapping pages may fail at any time, and fails when the heap would reach 4 GiB, so that block
  sizes fit in their 32 bits. `HeapGrowth` has the same `expand_heap` over the frames and tables: there it is proved
  when it fails, and that the heap never reaches 4 GiB.
- The tables that `vmm_map_page` makes are named by their places in the tree: a level and the indices above it.
- The memory of the WiFi rings is one map from address to byte: a descriptor is 32 of its bytes, a packet buffer 2048, and
  a store into one is seen in every other that covers the same bytes.
- A header of the heap makes the bytes it covers unknown; what is known of a payload is a map from address to byte.

## Where the code differs from what one might expect

- `pmm_init` uses the length of a memory-map entry as the end of its pages, and stops at 4 GiB. Exactly which entries
  are free completely afterwards is `WholeEntryFreed`; `HighEntryNotFreed` and `PageAboveLimitNotFreed` are entries of
  which nothing, and not the last page, is free.
- A failed `sys_brk` unmaps the pages it had mapped but keeps their frames. The free frames are as before exactly if there
  was none to hand out; otherwise every one of them is lost (`Brk`, `FailureLeaks`, `LastFrameLeaks`).
- `expand_heap` takes one page more than it maps and never uses it; on failure it keeps all frames (`HeapGrowth.LostPage`,
  `HeapGrowth.ExpandHeap`).
- A ring of 256 descriptors of 32 bytes needs two pages, and `setup_dma_rings` gets one for each ring. If the frame after
  that of the transmit ring is free, it becomes the receive ring: transmit descriptor 128 is receive descriptor 0, which
  the device owns from the start (`OverlapFromTheStart`, `OverlapIsWritten`). If the frame after that of the
  receive ring is free, it becomes the first transmit buffer, and the first packet that is sent writes receive
  descriptors from 128 on (`FirstPacketHits`, `FrameHits`). The ring invariant holds in all states of all runs if and
  only if neither is so (`Wifi.RunSafe`, `ApartMeans`), that is, if both frames were in use before (`Setup`,
  `SetupRuns`); and then they belong to somebody else.
- The tests of the pipe read `count`, `readers`, `writers` and `state` one after the other, and each may have changed
  before the next is read. A read that saw an empty pipe can return 0 with bytes in it, if and only if one was counted
  in between (`ZeroLeavesBytes`, `EarlyEnd`). As `to_read` is computed from two looks at `count`, a read can store
  more bytes than it was asked for: for every size from 1 to 4095 some run does, and for no other (`OverrunExactly`,
  `SecondLook`). A write that saw a full pipe can return short with room in it, if and only if a byte was taken in
  between (`ShortOnFullPipe`, `ShortWithRoom`).
- `heap_realloc` in place does not adjust the byte counters, and shrinking does not merge. `Realloc` states over the state
  before the call exactly when statistics and coalescing survive; `ShrinkIsNotCounted` is a run in which neither does.
- The size computations of the heap wrap for requests just below 2^64. Exactly for requests up to 2^64 - 4128 the block
  that `heap_alloc` returns holds the request (`Alloc`); `WrappedRequest` is served with a block of no payload.
- The double-indirect range of ext2 ends at P*P and is indexed from P on, so its last row is never used, and the triple
  range is indexed from P*P. The slots proved injective are those, not the textbook ones. P*P is computed in 32 bits,
  which bounds the block size (`SquareFits`).
- `ext2_allocate_block` numbers blocks without `s_first_data_block`, `ext2_free_block` with it. `AllocateThenFreeBlock`
  gives the exact condition for the two to be inverse. Block 0 reads as failure: `AllocateBlock` returns 0 if and only
  if no block is free or bit 0 of the first bitmap is clear, and in the second case the block is taken all the same.
  `BlockZeroIsLost` and `FirstDataBlockOne` are volumes where these fail.
- `ext2_delete_file` removes the first entry with the inode, which need not be the one with the name. `DeleteThenFind`
  gives the exact condition for the name to be gone, `HardLinkStays` a directory where it is not.
- `ext2_read_file` computes the end of a read in 32 bits. When it wraps, the size is not clipped and the read ends early
  with success (`ReadCompletes`, `ReadStopsShort`).
- `ext2_write_file` does so as well and then reports success for a part of the buffer or nothing (`WriteCompletes`). An
  empty write at offset 0 takes 2^32 - 1 as the end and copies the first block of the file over the others
  (`EmptyWriteCopies`).
- The ELF loader takes the page offset of an address that it has aligned before, so a segment that does not begin on a
  page boundary is placed too low, at the start of its first page. `ReadsExactly` says when that makes no difference,
  `UnalignedShifts` is a segment where it does.
- `PAGE_ALIGN_UP` wraps for a segment that reaches the last page of the address space (`EndCovers`, `LastPageWraps`).
- `time_used` wraps at 2^32. `EqualSlices` gives the exact condition for the usual waiting bound, `CounterLimitWaits` a
  wait of 11 ticks instead of 1.

## Model

| member | source | states |
|---|---|---|
| Bits.SetBitMeaning | kernel/src/mm/pmm.c:17-30 | `w |= 1 << i` sets bit i and no other bit, for the words of the frame bitmap and the bytes of the ext2 bitmaps |
| Bits.ClearBitMeaning | kernel/src/mm/pmm.c:22-25 | `w &= ~(1 << i)` clears bit i and no other bit |
| Bits.AllOnesMeaning | kernel/src/mm/pmm.c:85 | the test against all ones skips exactly the entries without a free page |
| Pmm.FrameAllocator.constructor | kernel/src/mm/pmm.c:36-77 | for disjoint entries of which one holds the bitmap, the free set is exactly the pages the surviving entries clear, the counter is its size, and the bitmap is cut out of the first entry large enough |
| Pmm.FreedPagesAreUsable | kernel/src/mm/pmm.c:57-75 | every page freed at start-up lies wholly inside a usable entry and outside the storage of the bitmap |
| Pmm.EntriesClearOnce | kernel/src/mm/pmm.c:56-76 | no page is counted twice, so the counter is exact |
| Pmm.WholeEntryFreed | kernel/src/mm/pmm.c:60-76 | after start-up all whole pages of a usable entry are free if and only if it has none, or its end exceeds neither the bound taken from its length nor the 2^20 pages of the bitmap |
| Pmm.HighEntryNotFreed | kernel/src/mm/pmm.c:63-69 | counterexample: of a usable entry from 1 MiB to 2 MiB no page is free after start-up |
| Pmm.PageAboveLimitNotFreed | kernel/src/mm/pmm.c:69-70 | counterexample: of a usable entry from 0 to one page above 4 GiB the last page is not free |
| Pmm.FrameAllocator.AllocPage | kernel/src/mm/pmm.c:79-101 | the result is the lowest free page from 64 on, and NULL exactly when there is none; no other bit changes |
| Pmm.FrameAllocator.FreePage | kernel/src/mm/pmm.c:103-111 | exactly one page joins the free set if it is in range, and the counter stays the size of the set |
| Pmm.FrameAllocator.FreePages | kernel/src/mm/pmm.c:113-122 | exactly the pages of the run that are in range join the free set |
| Vmm.AddressSpace.GetPhysAddr | kernel/src/mm/vmm.c:246-272 | the four-level walk computes the abstract translation, with 0 for an unmapped page |
| Vmm.AddressSpace.MapPage | kernel/src/mm/vmm.c:137-186 | success updates exactly one key of the translation; failure changes none, even if tables were added, and means that no frame was left; exactly the missing tables of the page are made, or fewer on failure; the tables stay a tree of distinct frames that are in use |
| Vmm.AddressSpace.UnmapPage | kernel/src/mm/vmm.c:208-244 | removes exactly one key and returns true exactly when it was present |
| Vmm.AddressSpace.NextTable | kernel/src/mm/vmm.c:144-178 | each get-or-create step leaves a tree of tables in which the walk of the page reaches the returned table |
| Vmm.LinkChild | kernel/src/mm/vmm.c:50-58 | a fresh zeroed table linked into an empty slot keeps the tree shape and every translation |
| Vmm.ChildIsMade | kernel/src/mm/vmm.c:50-58 | linking it gives a table to the one place meant, and to no other, in the walks of all pages |
| UserPages.MapPages | kernel/src/core/syscalls.c:472-487 | the mapping loop of sys_brk, expand_heap and the ELF loader gives every page a fresh frame of its own, distinct from all page tables, or stops where the frames run out; it succeeds if and only if there were at least as many frames to hand out as pages and missing page tables together |
| UserPages.GrowPages | kernel/src/core/syscalls.c:472-487 | with its cleanup: on failure every translation is as before if the range was unmapped, and every frame that could be handed out is gone; success under the same condition |
| UserPages.FramesDiffer | kernel/src/core/syscalls.c:472-487 | no two pages of a grown range share a frame |
| Brk.ProgramBreak.Brk | kernel/src/core/syscalls.c:460-508 | a successful call moves the break to the aligned address and maps or unmaps exactly the pages between; a call fails if and only if it grows and there are fewer frames to hand out than pages and missing page tables; then the break is unchanged, and every translation if the range was unmapped, and the free frames are kept if and only if there was none to hand out |
| Brk.FailureLeaks | kernel/src/core/syscalls.c:477-485 | after a failed growth no frame can be handed out, and the free frames are those from before if and only if none could be handed out then |
| Brk.LastFrameLeaks | kernel/src/core/syscalls.c:477-485 | witness: with one frame left, growing by two pages fails and the frame is lost |
| Brk.ProgramBreak.Run | kernel/src/core/syscalls.c:460-508 | over every run of calls at or above the first break, the pages up to the break have frames of their own that are neither free nor page tables, so no shrinking call frees a table |
| Brk.ProgramBreak.Shrink | kernel/src/core/syscalls.c:490-505 | shrinking removes the translations of the range and returns all its frames |
| Brk.RoundTrip | kernel/src/core/syscalls.c:460-508 | growing over unmapped pages and shrinking back is the identity on translations, and the free count drops by exactly the number of page tables created |
| Brk.ProgramBreak.GrowThenShrink | kernel/src/core/syscalls.c:460-508 | the same as one run of two calls of sys_brk |
| Elf.CollectSegments | kernel/src/core/elf.c:120-163 | it succeeds only if all loadable headers fit in the file and no two segments share a page, collects exactly these segments, with ends computed on 64 bits, and each error has its cause |
| Elf.EndCovers | kernel/src/core/elf.c:18 | the pages of a segment reach the end of its memory if and only if the aligned end does not wrap |
| Elf.LastPageWraps | kernel/src/core/elf.c:18 | witness: the aligned end of a segment in the last page of the address space is 0 |
| Elf.Loader.MapSegments | kernel/src/core/elf.c:166-206 | after i segments every one of them still holds its image: mapping, zeroing and copying a segment disturbs no other |
| Elf.Loader.Load | kernel/src/core/elf.c:209-242 | success implies that every byte of every loadable header, counted from the start of its first page, reads as the file byte below p_filesz and as 0 from there to the end of its last page; that is what the header specifies if and only if p_vaddr is aligned or the file part holds no byte but 0; only these pages are translated differently and no frame in use before is written |
| Elf.ReadsExactly | kernel/src/core/elf.c:196-202 | the same for one header: memory from p_vaddr on reads as specified if and only if p_vaddr is aligned or there is nothing to tell |
| Elf.UnalignedShifts | kernel/src/core/elf.c:197-198 | witness: a segment of two different bytes at the second byte of a page reads its second byte first |
| Elf.PhysDiffers | kernel/src/core/elf.c:181-200 | different virtual bytes of freshly mapped pages lie at different physical addresses |
| HeapBlocks.Ordered | kernel/src/mm/heap.c:23-66 | blocks that tile the heap do not overlap |
| HeapBlocks.CutRepresents | kernel/src/mm/heap.c:68-96 | splitting keeps the headers a doubly linked list: next and prev stay inverse and only the final block carries BLOCK_LAST |
| HeapBlocks.GluedRepresents | kernel/src/mm/heap.c:98-114 | merging two neighbours keeps the headers a doubly linked list |
| HeapBlocks.ReleasedCoalesced | kernel/src/mm/heap.c:170-191 | after heap_free no two neighbours are both free, if none were before |
| HeapBlocks.TakenCoalesced | kernel/src/mm/heap.c:144-168 | nor after heap_alloc, also when the heap was grown without merging |
| Heap.Heap.constructor | kernel/src/mm/heap.c:116-142 | heap_init gives one free page-sized block with matching statistics |
| Heap.Heap.FindFreeBlock | kernel/src/mm/heap.c:9-21 | exact first fit: the first block that is free and passes the size test of the code, whose sum is 64 bits wide, or NULL exactly when there is none |
| Heap.Heap.SplitBlock | kernel/src/mm/heap.c:68-96 | a block with room is cut exactly when the rest holds a header; the payloads of all other blocks and the first bytes of its own are kept |
| Heap.Heap.MergeFreeBlocks | kernel/src/mm/heap.c:98-114 | the block swallows exactly the run of free blocks behind it |
| Heap.Heap.ExpandHeap | kernel/src/mm/heap.c:23-66 | a new free last block behind the heap of the computed size, or no change; when it fails is in HeapGrowth.ExpandHeap |
| Heap.Heap.Alloc | kernel/src/mm/heap.c:144-168 | first fit over the old blocks, growth only when none fits, all other payloads unchanged, statistics and coalescing kept, as long as the two sums for the aligned size do not wrap; for every size, the returned block holds the request if and only if it is at most 2^64 - 4128 |
| Heap.WrappedRequest | kernel/src/mm/heap.c:144-168 | witness: on a new heap a request of 2^64 - 1 bytes is served with a block that has no payload |
| Heap.Heap.AllocFresh | kernel/src/mm/heap.c:144-168 | the new block is none of the live ones, and all live blocks survive with their payloads |
| Heap.Heap.Free | kernel/src/mm/heap.c:170-191 | the block is released and merged with the free blocks around it; no memory is written besides headers; statistics and coalescing kept |
| Heap.ReleasedPlace | kernel/src/mm/heap.c:170-191 | every other live block is still there after heap_free |
| Heap.Heap.Realloc | kernel/src/mm/heap.c:193-229 | on all three paths the first min(old, new) bytes and all other live payloads are kept; right statistics stay right if and only if the block is not resized in place, and coalescing stays if and only if no part is cut off in front of a free block, both in terms of the state before the call |
| Heap.ShrinkIsNotCounted | kernel/src/mm/heap.c:193-273 | witness: on a new heap, shrinking a block of 968 bytes to 100 leaves two free neighbours and makes heap_check false |
| Heap.Heap.Check | kernel/src/mm/heap.c:237-273 | heap_check returns true exactly when the statistics equal the sums over the blocks |
| Heap.Serve | kernel/src/mm/heap.c:116-229 | after any run of heap_alloc, heap_free and heap_realloc of live pointers and of stores into live payloads from heap_init, the live pointers belong to different blocks with room for their requests and hold every byte that was stored; without heap_realloc, heap_check is true and no neighbours are both free |
| HeapGrowth.InitHeap | kernel/src/mm/heap.c:116-142 | heap_init over frames and tables: it succeeds if and only if there is a frame for the lowest free page and one for each table missing for it; that page is mapped to itself and backs the heap; on failure it is given back, the new tables are not |
| HeapGrowth.ExpandHeap | kernel/src/mm/heap.c:23-66 | expand_heap over frames and tables: it succeeds if and only if there are frames for its pages, for their missing page tables and for one page more; the pages of the heap keep frames of their own that are neither free nor page tables; on failure the heap is unchanged and every frame that could be handed out is gone; the free frames stay the same if and only if there was none to hand out |
| HeapGrowth.LostPage | kernel/src/mm/heap.c:25-27 | the page taken first is lost: after a growth it is not free, holds no table and backs no page of the heap; the free count drops by the pages, the new tables and one |
| HeapGrowth.OwnedFits | kernel/src/mm/heap.c:51-52 | pages with frames of their own are fewer than 2^20, so the heap stays below 4 GiB |
| Scheduler.Scheduler.Add | kernel/src/core/process.c:129-141 | scheduler_add appends to the abstract queue and keeps head, tail and acyclicity |
| Scheduler.Scheduler.Remove | kernel/src/core/process.c:144-166 | scheduler_remove takes out exactly the given process |
| Scheduler.Scheduler.Next | kernel/src/core/process.c:185-196 | scheduler_next takes the first process, or returns NULL on the empty queue |
| Scheduler.Scheduler.Tick | kernel/src/core/process.c:169-182 | a tick rotates the queue exactly when the slice is used up and somebody waits, and refines the abstract tick |
| Scheduler.NobodyLost | kernel/src/core/process.c:129-196 | over any run of ticks and arrivals no process is lost or duplicated |
| Scheduler.ExactWait | kernel/src/core/process.c:169-196 | over any run, whatever arrives meanwhile, the process at position i is queued until exactly the rest of the running slice plus the slices ahead of it have passed, and then runs |
| Scheduler.EqualSlices | kernel/src/core/process.c:169-196 | with equal slices the wait is max(1, S - used) + i * S if and only if time_used is not at its 32-bit maximum |
| Scheduler.CounterLimitWaits | kernel/src/core/process.c:169-182 | witness: with slices of 10 and time_used at its maximum the next process waits 11 ticks |
| Wifi.StepSafe | kernel/src/net/wifi.c:304-385 | every step of driver, device and interrupt handler on either ring keeps the invariant, if no ring or buffer shares a byte with another |
| Wifi.RunSafe | kernel/src/net/wifi.c:605-632 | for pages in ascending order and from any memory, the invariant holds in all states of all runs from what setup_dma_rings leaves, under every interleaving, if and only if rings and buffers do not overlap; a packet is stored byte by byte in the memory that holds the descriptors |
| Wifi.InitSafe | kernel/src/net/wifi.c:20-90 | what setup_dma_rings leaves satisfies the invariant if and only if the rings do not overlap |
| Wifi.ApartMeans | kernel/src/net/wifi.c:22-90 | rings and buffers overlap nowhere if and only if the receive ring is not the page after the transmit ring and the first transmit buffer not the page after the receive ring |
| Wifi.RingsApartMeans | kernel/src/net/wifi.c:22-32 | no descriptor belongs to both rings if and only if their frames are at least two apart |
| Wifi.RingFitsPage | kernel/src/net/wifi.h:79-88 | a ring of n descriptors lies in the page it begins in if and only if n * 32 is at most 4096; descriptor 128 lies in the next page |
| Wifi.OverlapFromTheStart | kernel/src/net/wifi.c:20-90 | witness: if the receive ring is the page after the transmit ring, transmit descriptor 128 is hardware-owned although nothing was sent |
| Wifi.OverlapIsWritten | kernel/src/net/wifi.c:614-622 | witness: then sending through descriptor 128 + i overwrites receive descriptor i |
| Wifi.FirstPacketHits | kernel/src/net/wifi.c:605-622 | witness: if the first transmit buffer is the page after the receive ring, sending sixteen zero bytes takes receive descriptor 128 from the device before any frame arrived |
| Wifi.FrameHits | kernel/src/net/wifi.c:331-385 | witness: then a frame received through descriptor 128 writes its length into transmit buffer 0 |
| WifiSetup.Setup | kernel/src/net/wifi.c:20-90 | over the frame allocator, failure gives every frame back; success leaves rings that satisfy the invariant if and only if the frame after that of the transmit ring was in use before, and that keep it in all runs if and only if the frame after that of the receive ring was in use as well; otherwise these frames are the receive ring and the first transmit buffer |
| WifiSetup.SetupApart | kernel/src/net/wifi.c:20-90 | rings and buffers overlap nowhere if and only if the frames after those of both rings were in use before |
| WifiSetup.SetupRuns | kernel/src/net/wifi.c:20-90 | the same condition on the free frames decides whether all states of all runs satisfy the invariant |
| Wifi.OwnedInWindow | kernel/src/net/wifi.c:605-632 | under the invariant, a hardware-owned transmit descriptor lies in [tx_head, tx_tail) or is the one being published, and its buffer holds the complete packet |
| Wifi.OwnedUntouched | kernel/src/net/wifi.c:605-632 | if no ring or buffer shares a byte with another, no step overwrites the buffer or length of a hardware-owned transmit descriptor, and only the device gives one up |
| Wifi.OwnedReceiveUntouched | kernel/src/net/wifi.c:330-385 | nor, in that case, is a hardware-owned receive descriptor or its buffer written by any step but the arrival of a frame, which goes behind those that are waiting |
| Wifi.Conserved | kernel/src/net/wifi.c:308-328 | packets retire in submission order, and accepted = tx_packets + tx_errors + in flight modulo 2^32 |
| Wifi.ReceivedInOrder | kernel/src/net/wifi.c:331-385 | frames are taken off the receive ring in the order they arrived, and the device has no descriptor for another one exactly when 256 are waiting |
| Wifi.RefusedMeansFull | kernel/src/net/wifi.c:608-611 | a packet of legal size is refused exactly when 255 packets are in flight |
| Wifi.Receiver.Drain | kernel/src/net/wifi.c:331-385 | ownership flags only: on a quiet device the receive loop ends after at most the number of descriptors the device does not own, having given back exactly those up to the first owned one |
| Pipe.Buffer.TakeByte | kernel/src/core/drivers/tty/pipe.c:53-57 | takes the oldest byte; write_pos stays read_pos + count modulo 4096; the fields change as in the three steps of the protocol |
| Pipe.Buffer.PutByte | kernel/src/core/drivers/tty/pipe.c:85-88 | appends one byte and overwrites none that is stored; the fields change as in the three steps of the protocol |
| Pipe.Buffer.Read | kernel/src/core/drivers/tty/pipe.c:34-60 | an undisturbed read delivers the first min(size, count) bytes in order; -1 and 0 have their exact causes |
| Pipe.Buffer.Write | kernel/src/core/drivers/tty/pipe.c:62-92 | an undisturbed write appends the bytes that fit, in order, up to the point where it would wait |
| Pipe.RunSafe | kernel/src/core/drivers/tty/pipe.c:34-121 | in every run of one reader and one writer, with arbitrary changes of readers, writers and state in between and every read or write of a field that another party may change being a step of its own, the positions and the count follow the numbers of bytes stored and loaded, and every byte still to be read stands at its place |
| Pipe.Conserved | kernel/src/core/drivers/tty/pipe.c:34-92 | bytes delivered followed by those in the buffer are the bytes written, at most 4096 are stored, and between loop bodies write_pos = read_pos + count modulo 4096 |
| Pipe.StoresInRoom | kernel/src/core/drivers/tty/pipe.c:78-86 | a byte that is stored overwrites none that is still to be read, whatever the reader does meanwhile |
| Pipe.ReaderBody | kernel/src/core/drivers/tty/pipe.c:53-57 | undisturbed, the three steps of the reader make one TakeByte |
| Pipe.WriterBody | kernel/src/core/drivers/tty/pipe.c:85-88 | undisturbed, the three steps of the writer make one PutByte |
| Pipe.WriteReturns | kernel/src/core/drivers/tty/pipe.c:73-92 | in every run a write returns the number of its bytes that went into the stream, in order and without a gap, or -1 for none; it is short exactly when it returns from the test for readers, and then it found none |
| Pipe.ShortOnFullPipe | kernel/src/core/drivers/tty/pipe.c:75-78 | a write that saw the pipe full and returns short leaves a full pipe if and only if no byte was taken from the count between the two tests |
| Pipe.ShortWithRoom | kernel/src/core/drivers/tty/pipe.c:75-78 | witness: a run in which it returns short with 4095 bytes in the pipe |
| Pipe.NeverUnderruns | kernel/src/core/drivers/tty/pipe.c:50-57 | every byte a read in progress loads from the buffer is the next byte of the stream |
| Pipe.ReadReturns | kernel/src/core/drivers/tty/pipe.c:47-59 | in every run a read that gets to its copy loop returns the number of bytes it delivered, 0 exactly for size 0; it is at most the size, or the size is between 1 and 4095 |
| Pipe.OverrunExactly | kernel/src/core/drivers/tty/pipe.c:51-57 | some run lets a read of the given size store more bytes than that at its destination if and only if the size is between 1 and 4095 |
| Pipe.SecondLook | kernel/src/core/drivers/tty/pipe.c:51-57 | witness, for every such size: the writer counts a byte between the two looks at count, and the read returns size + 1 |
| Pipe.ZeroLeavesBytes | kernel/src/core/drivers/tty/pipe.c:40-42 | a read that saw count 0 and returns 0 found no writer or EOF, and leaves counted bytes behind if and only if one was counted between the two tests |
| Pipe.EarlyEnd | kernel/src/core/drivers/tty/pipe.c:40-42 | witness: a run in which a read returns 0 with one byte in the pipe |
| Calendar.LoopedTimestamp | kernel/src/fs/ext2.c:53-87 | the year and month loops compute, in 32 bits, the closed formula of rtc_get_timestamp for every date from 1970 on |
| Calendar.NextYear | kernel/src/core/drivers/rtc/rtc.c:134-141 | the leap-year formula grows by the length of each year |
| Calendar.CalendarOrder | kernel/src/core/drivers/rtc/rtc.c:124-150 | the integer value orders times exactly as the calendar does |
| Checksum.Calculate | kernel/src/core/drivers/net/ip.c:128-146 | for every 16-bit length the 32-bit sum does not overflow, the fold ends, and the result is the complement of the sum modulo 65535 |
| Checksum.StoredFoldsToOnes | kernel/src/core/drivers/net/ip.c:250-252 | storing the checksum in a zeroed word makes the whole sum fold to 0xFFFF (section 1 of RFC 1071) |
| Checksum.Send | kernel/src/core/drivers/net/ip.c:228-260 | the header that is sent has the given fields, passes the test of the receiver and folds to 0xFFFF |
| Checksum.Receive | kernel/src/core/drivers/net/ip.c:263-282 | accepts exactly version byte 0x45 with the matching checksum, and zeroes the field of the caller |
| Checksum.AcceptsMeans | kernel/src/core/drivers/net/ip.c:273-282 | the test equals that of RFC 1071 except when the rest folds to all ones and the field holds the other zero |
| Checksum.ChangeIsNoticed | kernel/src/core/drivers/net/ip.c:273-282 | changing one word of an accepted header is noticed, except exactly a change between 0 and 0xFFFF outside the field |
| Ext2Disk.SetISizeMeaning | kernel/src/fs/ext2.c:482-486 | storing i_size changes no pointer and no other byte of the inode |
| Ext2Blocks.SlotInverse | kernel/src/fs/ext2.c:634-693 | the logical block can be computed back from the slot the code resolves it to |
| Ext2Blocks.SlotInjective | kernel/src/fs/ext2.c:634-693 | different logical blocks resolve to different slots |
| Ext2Blocks.SlotInRange | kernel/src/fs/ext2.c:634-693 | the slot lies inside the pointer arrays if and only if n - 12 < P*P + P*P*P |
| Ext2Blocks.SquareFits | kernel/src/fs/ext2.c:661 | the 32-bit square of the number of pointers does not wrap if and only if the block size is below 256 KiB |
| Ext2Blocks.OffsetAddressable | kernel/src/fs/ext2.c:858-860 | every 32-bit file offset has such a slot, as long as the square does not wrap |
| Ext2Blocks.ReadInodeBlock | kernel/src/fs/ext2.c:634-693 | reads exactly the block the slot leads to, and fails exactly when a block on the way is missing |
| Ext2Blocks.WriteInodeBlock | kernel/src/fs/ext2.c:739-798 | writes exactly the block the same slot leads to |
| Ext2Blocks.WriteAllocated | kernel/src/fs/ext2.c:739-798 | writing one logical block of an unshared tree changes that disk block only and keeps the tree |
| Ext2File.GetInode | kernel/src/fs/ext2.c:305-342 | returns the inode stored under the number |
| Ext2File.WriteInode | kernel/src/fs/ext2.c:408-437 | replaces exactly the 128 bytes of the inode |
| Ext2File.StoreInode | kernel/src/fs/ext2.c:408-437 | storing an inode leaves every other inode alone |
| Ext2File.WriteFile | kernel/src/fs/ext2.c:440-493 | for all 32-bit offsets and sizes whose sum is not 0 or 2^32: the contents become the old ones overlaid with the part of the buffer that is written, i_size the larger of itself and the end of the write in 32 bits, and every other inode and block is unchanged |
| Ext2File.WriteCompletes | kernel/src/fs/ext2.c:445-446 | that part is the whole buffer if and only if offset + size fits in 32 bits |
| Ext2File.EmptyWriteCopies | kernel/src/fs/ext2.c:445-476 | witness: in the turns of an empty write at offset 0 every allocated block of the file becomes a copy of the first |
| Ext2File.ReadFile | kernel/src/fs/ext2.c:839-892 | for all 32-bit offsets and sizes: it fails for an empty read and for one that starts behind the end; otherwise it returns the bytes of the file up to its end if offset + size is below 2^32, and if it is above, what lies in the first block from the offset on if the wrapped end does so as well, and nothing if not |
| Ext2File.ReadCompletes | kernel/src/fs/ext2.c:852-860 | a read that starts inside the file returns all there is up to its size if and only if offset + size fits in 32 bits, or it wraps into the block where it starts and the file ends with that block |
| Ext2File.ReadStopsShort | kernel/src/fs/ext2.c:852-860 | witness: 2^32 - 1 bytes from byte 100 of a file of 5000 bytes in blocks of 1024 give 924 bytes |
| Ext2File.ReadAfterWrite | kernel/src/fs/ext2.c:440-493 | what a read returns after a write is, byte by byte, the buffer inside its range and the old contents outside |
| Ext2File.OtherFileKept | kernel/src/fs/ext2.c:440-493 | a file that shares no block reads as before |
| Ext2Alloc.AllocateInode | kernel/src/fs/ext2.c:361-405 | takes the lowest free inode of the first group that has one, 0 exactly when there is none; bitmaps and both counters stay in agreement |
| Ext2Alloc.AllocateBlock | kernel/src/fs/ext2.c:588-632 | takes the lowest free block of the first group that has one, numbered without s_first_data_block; the number is 0 if and only if no block is free or bit 0 of the first bitmap is clear |
| Ext2Alloc.BlockZeroIsLost | kernel/src/fs/ext2.c:588-632 | witness: a volume whose block 0 is free; the call returns 0 and one block less is free |
| Ext2Alloc.FreeInode | kernel/src/fs/ext2.c:496-527 | clears exactly the bit of the inode and raises both counters |
| Ext2Alloc.FreeBlock | kernel/src/fs/ext2.c:695-737 | clears exactly the bit the code computes, raises both counters and zeroes the block, or does nothing outside the guarded range |
| Ext2Alloc.FreedInodeAgrees | kernel/src/fs/ext2.c:496-527 | freeing a set bit keeps bitmaps and counters in agreement, without 16-bit wrap-around |
| Ext2Alloc.FreedBlockAgrees | kernel/src/fs/ext2.c:695-737 | the same for blocks, although the freed block is zeroed |
| Ext2Alloc.AllocateThenFreeInode | kernel/src/fs/ext2.c:361-527 | allocating an inode and freeing it restores bitmap and counters, always |
| Ext2Alloc.AllocateThenFreeBlock | kernel/src/fs/ext2.c:588-737 | allocating a block and freeing it restores block bitmaps and counters, for number 0 if and only if no block was free, and for the others if and only if s_first_data_block is 0, the number is below s_blocks_count and the block holds no bitmap with a bit set |
| Ext2Alloc.FirstDataBlockOne | kernel/src/fs/ext2.c:588-737 | witness: a volume with s_first_data_block = 1 where they are not restored |
| Ext2Delete.FreeTree | kernel/src/fs/ext2.c:1070-1122 | freeing a pointer tree frees exactly its blocks, children before parents, though freed blocks are zeroed on the way |
| Ext2Delete.FreeFile | kernel/src/fs/ext2.c:1053-1122 | exactly the blocks of the tree are freed: bits, group counts, superblock count and all other blocks |
| Ext2Delete.TreeIsWhole | kernel/src/fs/ext2.c:1063-1122 | when the non-zero pointers come first, the loops reach exactly the blocks of the tree |
| Ext2Delete.FileTreeIsWhole | kernel/src/fs/ext2.c:1053-1122 | the same for the whole inode: direct, single, double and triple indirect |
| Ext2Delete.DeletionClearsTheFile | kernel/src/fs/ext2.c:1053-1122 | after deletion the bit of a block is set if and only if it was set and the block is not of the file |
| Ext2Delete.ResolvedIsInFile | kernel/src/fs/ext2.c:634-693 | every block that reading and writing resolve is among those deletion frees |
| Ext2Dir.FindFile | kernel/src/fs/ext2.c:894-935 | returns the inode of the first live entry with the name, 0 if there is none |
| Ext2Dir.RemoveInBlock | kernel/src/fs/ext2.c:1150-1182 | the block stays tiled by records, and its live entries are the old ones minus the first with the inode |
| Ext2Dir.MergeRecord | kernel/src/fs/ext2.c:1156-1160 | adding the length of a record to the one before drops exactly that record |
| Ext2Dir.RemoveEntry | kernel/src/fs/ext2.c:1150-1182 | the same for the whole directory; no block outside it changes |
| Ext2Dir.NameGone | kernel/src/fs/ext2.c:894-935 | if name and inode occur once, looking the name up afterwards gives 0 |
| Ext2Dir.GoneExactly | kernel/src/fs/ext2.c:1150-1182 | after the removal of the inode a name led to, the name leads nowhere if and only if it was the only entry with that name and the first one with that inode |
| Ext2Dir.HardLinkStays | kernel/src/fs/ext2.c:1150-1182 | witness: of two names of one inode, removing the second removes the first, and the second still leads to the inode |
| Ext2Dir.OtherNamesKept | kernel/src/fs/ext2.c:894-935 | every name of another inode still leads where it led |
| Ext2Unlink.Erase | kernel/src/fs/ext2.c:1053-1125 | the bits of exactly the file and its inode are cleared, with both levels of counters exact |
| Ext2Unlink.DeleteFile | kernel/src/fs/ext2.c:1036-1188 | ext2_delete_file succeeds exactly when the name leads to an inode that is no non-empty directory; then exactly its blocks and its inode are free and the first entry with its inode is gone, and bitmaps and counters agree; otherwise nothing changes |
| Ext2Unlink.DeleteThenFind | kernel/src/fs/ext2.c:894-1188 | after a successful deletion, looking the name up again fails if and only if its entry was the only one with that name and the first one with that inode |

## Left out

- Heap.Heap.Alloc: for requests whose sums wrap, only the size of the returned block is claimed: headers written over other headers or outside the heap are not followed.
- Heap.Heap.Realloc: requests above 2^64 - 4128 are excluded, because after `heap_alloc` returned too small a block for them the copy runs over the blocks behind it; freeing or resizing a pointer that is not live is not modelled.
- Heap.Heap.ExpandHeap: whether the frames and mappings it needs can be had is a free choice, so that runs of the heap cover all of them; `HeapGrowth.ExpandHeap` decides it for one call, over the frame allocator and the page tables.
- HeapGrowth.ExpandHeap: the pages behind the heap may have been mapped to something else before; they are mapped anew, as the code does.
- Heap.Serve: requests are at most 2^64 - 4128 bytes (see `Alloc` and `Realloc`).
- Vmm.AddressSpace.MapPage: flags from 0x1000 on (PTE_NX), effective permissions of intermediate entries, TLB invalidation, `vmm_init` and switching to another page map are not modelled; physical addresses are page-aligned, as the callers pass them.
- Brk.ProgramBreak.Brk: one call that shrinks presumes that the frames of the range hold no page table; `Run` proves it of every run above the first break.
- Elf.Loader.Load: the file part of a segment fits in its pages, nothing wraps, addresses are canonical and at most 16 segments are loadable; the headers are taken as values and the file lies outside the load range. The bytes of memory are kept apart from the view of page tables as sequences of entries; that data frames are never table frames is proved.
- Scheduler.Scheduler.Add: presumes that the process is neither queued nor running, as its callers do. The list of all processes shares the link field with the ready queue; only the ready queue is modelled. Stacks and processor state are not.
- Wifi.RunSafe: presumes that whoever uses the frame after a ring leaves it alone, when rings and buffers do not overlap. The pages of the buffers ascend, as the frame allocator hands them out (`WifiSetup.TakenAscends`). Of a descriptor, ownership, length and status are modelled; the buffer address, which no step changes, and the unused words are not. The device fills receive descriptors in ring order. The error branch that resets the device and sets up its rings again is not modelled.
- Wifi.Receiver.Drain: the flags alone are modelled; what is done with a received packet (copying, the network stack, its counters) is not.
- Pipe.RunSafe: each access that the source writes is one step, in its order: `count++` and `count--` are presumed atomic, and no access is repeated, merged or moved by the compiler. There is one reader and one writer at a time.
- Pipe.Buffer.Write: where the writer would wait for room, the method returns; the returns after waiting are in `WriteReturns`.
- Calendar.LoopedTimestamp: the registers and their BCD encoding are not modelled; both formulas take the decoded time.
- Checksum.Send: the total length fits in 16 bits (a data_length above 65515 wraps it, and the packet would not fit in the buffer allocated for it); routing and the device are not modelled.
- Checksum.Receive: what follows the checks (interfaces, connections, payload) is not modelled.
- Ext2File.WriteFile: offset + size is not 2^32, and of the empty write at offset 0 only the turns over allocated blocks are in `EmptyWriteCopies`; the blocks a write reaches are allocated, as the code never allocates any.
- Ext2File.ReadFile: the file is allocated up to its end or that of the read; what the code returns for a block that is not allocated is in `Ext2Blocks.ReadInodeBlock`. If offset + size is exactly 2^32, only the number of bytes on success is claimed.
- Ext2Alloc.AllocateInode: 32-bit wrap-around of inode numbers and of the superblock counts is not modelled; a group has fewer than 65536 inodes.
- Ext2Alloc.AllocateBlock: 32-bit wrap-around is not modelled; a group has fewer than 65536 blocks.
- Ext2Dir.FindFile: presumes that the size of the directory is a multiple of the block size and that its blocks are tiled by records.
- Ext2Dir.RemoveEntry: the same, and presumes block sizes below 64 KiB, where a merged record length fits in 16 bits.
- Ext2Unlink.DeleteFile: presumes that the file shares no block with its directory, and that its bits are set.
- `ext2_init`, creating files and directory entries (the new record lengths do not add up to the old one), timestamps in inodes, and the translation of blocks to sectors.
- Hardware registers, ports, interrupts, assembly, logging, USB, NVMe, PCI, ACPI, SMP, TTY cursor: no state of the kind modelled here.
- File descriptors, `sys_fork`, sockets, TCP, DNS, HTTP and TLS: plumbing around the parts modelled here.
- Failure of `malloc` inside ext2 and the network code.
