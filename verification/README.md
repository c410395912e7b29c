# A verified model of the AOS kernel

This project models the parts of a small x86-64 teaching kernel in which memory safety and data
integrity are decided, and proves what each of them keeps:

- **Virtual memory and frame allocation** (`kernel/paging.c`): a 4-level page table and a free list
  whose links lie inside the free frames, both in one physical memory. A word of that memory is one
  value seen three ways: as a page-table entry, as a number and as eight bytes (`Words`). `PageTable`
  defines the processor's walk (section 4.5 of the Intel SDM, volume 3A, huge pages included) and the
  tree of table frames; `Space` is the invariant tying memory, tree, free list and book-keeping
  together; `Kernel` is the code.
- **The ELF loader** (`kernel/proc.c`): `Loader` and `Image`, whose result is read back through the
  page walk, byte by byte. `Image.Exec` composes it with the teardown of the previous program.
- **The parts together** (`kernel/boot.c`, `kernel/idt.c`): `System.Boot` goes from the bootloader's
  machine to the first program, `Programs.RunProgram` from whatever runs to a new program with its heap.
- **The user heap** (`stdlib/mem.c` over the mmap call of `kernel/idt.c`): `UserHeap`, whose variables
  are bytes of the program's memory, and `Syscalls`. `UserMemory` has reading and storing through the
  page walk.
- **The keyboard buffer** (`kernel/pic.c`): `RingBuffer`, as a queue and as a protocol in which the
  interrupt handler runs between any two steps of `kgetc`.
- **The terminal** (`kernel/term.c`): `Terminal`, 4000 bytes of video memory as a window on an
  unbounded page of 80-cell rows.
- **Printers and parsers** (`kernel/kprint.c`, `kernel/debug.c`, `stdlib/mystring.c`, the read call
  of `kernel/idt.c`): `Numerals`, `Printer`, `Printf`, `Debug`, `Strings`, `ReadLine`.

## How the memory part is put together

`Kernel.AddressSpace` has the memory, the head of the free list and the heap pointer as fields; its
ghost field `books` (module `Ledger`) records who holds each frame, and its ghost field `tlb` is the
processor's translation cache. `Valid()` says:

- the page tables are a tree: every table has a frame of its own and is referred to by exactly the
  entry its position names (`PageTable.Tree`);
- following links from `freeList` visits exactly the frames the books list as free (`FreeList.Chain`);
- no frame has two holders among free list, tables, mapped pages, direct callers and stranded frames
  (`Ledger.Balanced`);
- every page in the books translates to its frame; and
- every cached translation of a mapped page is what a walk gives now (`Caches.Current`).

Every operation keeps `Valid()` and moves the books by one step of `Ledger.Next`; the theorems about
whole runs are proved about sequences of such steps. Page-table entries are stored one bit-field at a
time, and after each store the model lets the processor drop cached translations and cache any walk that
succeeds (`Speculate`), so that `Valid()` after an operation needs the `invlpg` or the CR3 reload at its
end. `Caches.Coherent` says more: that pages which are not mapped are not cached either. Teardown
establishes it, unmapping and protecting keep it, and mapping keeps it exactly under the condition of
`HalfWritten.MapCoherentExactly` (see Findings). `UserHalf.Kept`
describes the lower half once the kernel has torn down what the bootloader left there, and is what
turns permissions asked for into permissions in effect.

Frames outside `Ledger.Pool` were never adopted: the kernel's own memory, for one. `MapSteps.ForeignSame`
says that they keep their contents; it holds from before `init_list` adopts its frames (which changes
only those) to the last request of a program.

Assumptions, stated as preconditions or built into the model:

- Physical addresses have at most 51 bits and physical memory is mapped at a page-aligned `hhdm` > 0
  (`FreeList.Machine`). The bootloader's tables form a tree outside the adopted pool. Only the
  address space in CR3 is changed.
- `vm_map`, `vm_protect` and `vm_unmap` look at no `page_size` bit, so no huge page may lie on the
  path (`MapSteps.NoHuge`; in the lower half this follows from `Kept`). `vm_unmap` and `translate`
  look at no `present` bit above the last level, so the three tables must exist. `vm_map` does not
  check for exhaustion, so there must be as many free frames as it will take.
- The file that is loaded is readable in the upper half, in frames outside the adopted pool
  (`UserMemory.SourceAt`).
- The allocator's two variables are aligned words of a writable segment, zero in the file
  (`Programs.ZeroWord`): the loader does not clear what lies beyond `p_filesz`.
- `init_list` multiplies 4096 by an `int`, so regions are below 2 GiB; they are page-aligned, disjoint
  and not in use. `hhdm` is a constant here.
- The loader copies `p_memsz` bytes from the file and never looks at `p_filesz`; the theorem is about
  those bytes. No chunk straddles a page (`Loader.Fits`; a multiple of 2048 as start is enough:
  `Image.AlignedFits`).
- The kernel's own stores go to read-only user pages too (CR0.WP clear), as the loader needs when two
  chunks share a page.

## Model

| member | source | states |
|---|---|---|
| Words.EncodeDecode | kernel/paging.c:143-145 | A link stored over a page-table entry and read back as a number is the link: 64 bits go through the bit-fields unchanged. |
| Words.DecodeEncode | kernel/paging.c:32-44 | The struct's fields cover the 64 bits of a word exactly, so that a word is determined by its number. |
| Words.EncodeFields | kernel/paging.c:32-44 | The number of an entry, field by field: `present` is bit 0, `no_execute` bit 63, `address` starts at bit 12. |
| Words.EncodeBytes | stdlib/mem.c:17-22 | The number of a word, byte by byte, the lowest first. |
| Words.GetPut | stdlib/mem.c:17-22 | A one-byte store changes that byte of the word and leaves the other seven. |
| Words.BytesDetermine | stdlib/mem.c:17-22 | A word is determined by its eight bytes. |
| ByteMemory.StoredThenRead | stdlib/mem.c:26-35 | Bytes stored one after another, across frames too, are read back, and every other byte of memory is as before. |
| ByteMemory.StoredInFrame | stdlib/mem.c:26-35 | Bytes stored within a frame change no other frame. |
| ByteMemory.ZeroedFrame | kernel/paging.c:258-259 | Zeroing the 4096 bytes of a frame makes its 512 entries zero and changes no other frame. |
| PageTable.SlotsDetermine | kernel/paging.c:233-238 | The four 9-bit indices determine the page: two pages with equal indices are equal. |
| PageTable.AddressSlots | kernel/paging.c:291-297 | Shifting and masking an address of any size gives the indices of its 36-bit page number. |
| PageTable.AlignedSlots | kernel/paging.c:229-238 | Clearing the offset first makes no difference to the indices. |
| PageTable.LowerHalf | kernel/paging.c:68 | The 256 lower root entries are the addresses below 2^47. |
| PageTable.OneReference | kernel/paging.c:32-44 | Each table but the root is referred to by exactly one entry of all tables, and the root by none. |
| PageTable.EmptyTree | kernel/paging.c:32-44 | A root of 512 zero entries is an address space without tables. |
| PageTable.ReachTree | kernel/paging.c:121-137 | The hardware walk stands at a table after k levels exactly when the tree has a table at that position, and then at that table. |
| TableUpdates.EntryFrame | kernel/paging.c:248-276 | A store to one entry of one table changes only walks that read that entry. |
| TableUpdates.Grow | kernel/paging.c:256-276 | Hanging a zeroed frame from a vacant entry keeps the tables a tree and changes no translation at all. |
| TableUpdates.SetLeaf | kernel/paging.c:304-306 | A store to the last-level entry of a page decides that page's translation and no other page's. |
| FreeList.ChainPush | kernel/paging.c:220-225 | Writing the old head into a frame and pointing at the frame pushes it on the list. |
| FreeList.FollowChain | kernel/paging.c:147 | Following links through memory, however far, meets each free frame once and ends at null: the list is acyclic. |
| Kernel.AddressSpace.constructor | kernel/paging.c:22-24 | The bootloader's tree with an empty free list is a valid start, whatever the processor has cached of it. |
| Kernel.AddressSpace.InitList | kernel/paging.c:170-203 | A frame is on the free list afterwards exactly if it lies within a region of type 1 of the memory map, or was on it; last adopted first. No translation changes, and no frame but the adopted ones. |
| Regions.ReverseMembers | kernel/paging.c:185-202 | The list has exactly the adopted frames as members. |
| Regions.FramesExactly | kernel/paging.c:185-198 | The adopted frames are those, every one, that lie wholly within a region of type 1. |
| Kernel.AddressSpace.PmemAlloc | kernel/paging.c:206-217 | Takes the head of the list, or returns 0 and changes nothing when there is none; memory is untouched. |
| Kernel.AddressSpace.PmemFree | kernel/paging.c:220-225 | Puts an owned frame at the head of the list, changes no other frame, of this one the first word only, and no translation. |
| Kernel.AddressSpace.Memset | stdlib/mem.c:14-23 | Memory is as after storing that many zero bytes from that address, across frames too. |
| Kernel.AddressSpace.TakeZeroed | kernel/paging.c:258-259 | The frame at the head of the list, cleared, with every walk as before. |
| Kernel.AddressSpace.VmMap | kernel/paging.c:228-288 | True exactly if the page was unmapped; then it translates to a fresh zeroed frame with the permissions asked for met with those above, every other page is as before, the frames taken are the absent tables and one page from the head of the list, and memory is as its stores, one bit-field at a time, leave it. Mapped pages are translated correctly whatever the processor cached between the stores; what it may have cached is exactly what walks of the memories between them give. False changes nothing. |
| Kernel.AddressSpace.StoreTable | kernel/paging.c:262-275 | The four stores to an absent upper-level entry, the address last, with walks by the processor after each. |
| Kernel.AddressSpace.StorePage | kernel/paging.c:262-275 | The seven stores to an absent last-level entry. |
| Kernel.AddressSpace.AddTable | kernel/paging.c:256-276 | The absent-entry branch above the last level: one more table on the path, no translation changed once all stores are made; the record of what may be cached grows by the memories between them. |
| Kernel.AddressSpace.AddPage | kernel/paging.c:256-276 | The absent-entry branch at the last level: the page is mapped, with the same record. |
| Caches.HoldStep | kernel/paging.c:262-275 | What a cache may hold after several memories is exactly what fills in each of them, one after another, can make of it. |
| HalfWritten.StoreWalk | kernel/paging.c:262-275 | After each store, every page but the one being mapped translates as before, unless it is below the half-written entry and something translates behind that entry's old address; then it was not mapped. |
| HalfWritten.MapCurrent | kernel/paging.c:284 | After the `invlpg`, cached translations of mapped pages agree with the tables, whatever was cached between the stores. |
| HalfWritten.MapCoherentExactly | kernel/paging.c:262-284 | Every cache that can result agrees with the tables altogether if and only if no other page translates behind the old address of an entry to be filled. |
| HalfWritten.FreshAddress | kernel/paging.c:258-275 | Below a table that the call itself adds, that old address is 0: it is physical frame 0 that counts. |
| HalfWritten.MapKeepsFields | kernel/paging.c:262-275 | `vm_map` stores to no field of an existing entry but present, user, writable, no_execute and address. |
| StaleWalks.StaleExactly | kernel/paging.c:65-107 | After a teardown, mapping any page below a root entry uncovers the old translation of another page that was mapped there, exactly if its three lower indices are not 0, when some higher root entry of the lower half had a table. |
| MapSteps.MappedPath | kernel/paging.c:250-253 | Without huge pages, a page that translates has all its tables. |
| MapSteps.ClimbMapped | kernel/paging.c:250-253 | If the last entry is found present, the page was mapped from the start and nothing has been taken or written. |
| Kernel.AddressSpace.VmUnmap | kernel/paging.c:290-316 | The page does not translate any more; of memory only `present` of its entry changes, every other page is as before, its frame is stranded, the page is not cached, and a cache that agreed with the tables still does. |
| Kernel.AddressSpace.VmProtect | kernel/paging.c:318-352 | True exactly if the page translates; then it keeps its frame, has the new permissions, stored one by one, nothing else in memory changes, every other page is as before, and a cache that agreed with the tables still does. False changes nothing. |
| Caches.GoodStep | kernel/paging.c:27-29 | If only one page's translation changes, over any number of stores, and the processor caches whatever it likes meanwhile, invalidating that page leaves the cache as good as before. |
| Kernel.AddressSpace.Translate | kernel/paging.c:116-141 | For a mapped page the address computed without looking at `present` is the one the hardware walk gives. |
| UserPages.MapUser | kernel/paging.c:262-272 | In the kernel's own lower half a mapped page has exactly the permissions asked for. |
| UserPages.ProtectUser | kernel/paging.c:337-342 | The same for a protected page. |
| UserPages.Isolation | kernel/paging.c:228-288 | No lower-half page reaches a page table, a free frame or another page's frame. |
| Teardown.DetachKeepsSound | kernel/paging.c:70-72 | Marking a root entry not present cuts off exactly the pages below it and leaves a tree; the tables below are in nobody's use. |
| Teardown.Unfreed | kernel/paging.c:75-98 | A table that the traversal has not freed still has the contents it had at entry, so that the links written into freed frames never change what is traversed. |
| Teardown.ChildThere | kernel/paging.c:79-85 | The entries that the traversal follows are exactly those with a table below. |
| Teardown.FreedNext | kernel/paging.c:82-90 | The innermost loop frees each last-level table once. |
| Teardown.FreedRow | kernel/paging.c:76-95 | A level-2 table is freed once, after its last-level tables. |
| Teardown.FreedEnd | kernel/paging.c:97-98 | What is then left of the subtree is its level-3 table. |
| Kernel.AddressSpace.FreeLastLevel | kernel/paging.c:81-90 | Frees the last-level tables below one level-2 table and no other frame. |
| Kernel.AddressSpace.FreeMiddleLevel | kernel/paging.c:75-95 | Frees all tables below one level-3 table, each once. |
| Torn.NothingUnder | kernel/paging.c:70 | Nothing lies below a root entry that is not present. |
| Kernel.AddressSpace.UnmapLowerHalf | kernel/paging.c:65-107 | No lower-half page translates, every upper-half page translates as before, the free list gains each lower-half table exactly once, the highest level-3 table at its head, and no data frame; lower-half root entries lose `present` and keep their addresses, freed tables keep all entries but the first, other frames keep their contents, and the cache is empty. |
| Ledger.MapKeeps | kernel/paging.c:241-281 | Filling absent tables and mapping a page keeps the pool, the count, and one holder for each frame. |
| Ledger.TornKeeps | kernel/paging.c:65-107 | So does the teardown. |
| Ledger.StepKeeps | kernel/paging.c:65-352 | So does every operation. |
| Ledger.RunKeeps | kernel/paging.c:65-352 | Frame conservation over any run: free, table, mapped, owned and stranded frames are disjoint and add up to the adopted pool. |
| Cycles.Drain | kernel/paging.c:206-217 | Allocating until the list is empty hands out every frame once, in list order. |
| Draining.Drain | kernel/paging.c:206-217 | The addresses that repeated `pmem_alloc` returns are those of the listed frames, in list order, and then 0. |
| Draining.DrainAdopted | kernel/paging.c:170-217 | After `init_list`, the address of each frame that lies within a region of type 1 is returned exactly once, last adopted first, then 0, and nothing else. |
| Cycles.Lifetime | kernel/paging.c:65-107 | From an empty lower half, through any mapping, protecting and unmapping, to the teardown: every page table comes back, and the free list is shorter by exactly the frames that were mapped, which are stranded. |
| Syscalls.Mmap | kernel/idt.c:422-427 | Always hands out the next 2048 bytes, maps the page if it was not mapped, and stores the address at the caller's 8 bytes; no other byte changes. |
| UserHeap.Disjoint | stdlib/mem.c:46-71 | Blocks of requests up to 2048 bytes are 16-aligned and do not overlap. |
| UserHeap.Overrun | stdlib/mem.c:46-71 | The block of a request over 2048 bytes runs past what mmap handed out. |
| UserHeap.GrantedExactly | stdlib/mem.c:46-71 | For any sequence of requests: every block lies in memory handed out by mmap if and only if no request exceeds 2048 bytes. |
| UserHeap.FirstBlock | kernel/idt.c:404 | The first block is at 0x10000. |
| UserHeap.NextBlock | stdlib/mem.c:46-71 | Each block of 1 to 2048 bytes starts where the one before ends, rounded up to 16, if it fits before the next multiple of 2048, and at that multiple otherwise: space that was handed out is used. |
| UserHeap.UserMmap | stdlib/mem.c:37-41 | The program's mmap returns what the system call left in its variable. |
| UserHeap.Malloc | stdlib/mem.c:46-71 | On the two 64-bit variables in the program's memory, computes the allocation function, and keeps every page below the end of the heap mapped and open to the program. A page is mapped exactly if mmap is called with the end of the heap at a page boundary. No byte of a mapped page changes but those of the two variables and, if mmap is called, of the variable on the stack that it answers in. |
| UserHeap.EverySecondMmap | kernel/idt.c:422-427 | After n calls of mmap the heap has (n + 1) / 2 pages. |
| UserHeap.BlocksMapped | kernel/idt.c:422-427 | Every byte of every block is in a page that translates, readable, writable and executable by the program. |
| UserMemory.Memcpy | kernel/proc.c:73 | Copying byte by byte, each read and stored through the page walk, from upper-half memory that was never adopted: the bytes end up in the page's frame, and no translation changes. |
| UserMemory.SourceStays | kernel/proc.c:73 | Such memory reads the same whatever happens to lower-half pages, so that the module stays readable while it is loaded. |
| UserMemory.StoreVirtual | kernel/idt.c:424 | A store of a few bytes within a page: they read back, and no other byte changes. |
| UserMemory.WordLoaded | stdlib/mem.c:37-41 | The eight bytes of a 64-bit number, read back, are the number. |
| UserMemory.BytesSum | kernel/idt.c:424 | A 64-bit number is stored lowest byte first. |
| UserMemory.StoreReads | kernel/proc.c:81 | Reading back through the walk gives the stored bytes, and every other mapped byte as before. |
| UserMemory.MapOthers | kernel/proc.c:80 | Mapping a page changes no byte of a page that was mapped. |
| UserMemory.ProtectOthers | kernel/proc.c:82 | Protecting a page changes no byte. |
| Loader.LoadChunk | kernel/proc.c:68-88 | After map, copy and protect the chunk reads as in the file, with its segment's permissions, and everything else mapped is as before. |
| Loader.MapNeed | kernel/proc.c:80 | Frames for the absent tables and pages of the whole image are enough for each of its pages in turn. |
| Loader.LoadSegment | kernel/proc.c:50-89 | The chunk loop loads a segment's chunks, in order, and ends. |
| Loader.LoadSegments | kernel/proc.c:47-90 | All chunks of all LOAD segments are in place together. |
| Image.SegmentsLoadable | kernel/proc.c:47-90 | Segments in different pages never undo each other's chunks. |
| Image.AlignedFits | kernel/proc.c:68-88 | A segment starting at a multiple of 2048 has no chunk that straddles a page. |
| Image.ImageLoaded | kernel/proc.c:47-90 | Every byte of every LOAD segment, read through the page walk, is the file's byte, under the segment's permissions. |
| Image.ExecuteMod | kernel/proc.c:45-112 | From the file in the module's memory: the image is complete; every page of a segment of type 1 with flags 4r + 2w + x is executable exactly if x is set, writable exactly if w is set, and the program's exactly if any is set; the stack pages from 0x70000000000 and the page at 0x400000000 are the program's, writable and not executable, the page at 0x400001000 is the kernel's. Every other page translates as before, mapped ones read as before, and memory never adopted is untouched. |
| Image.LoadedAll | kernel/proc.c:57-61 | These permissions are what the flags of the ELF header ask for, bit by bit. |
| Image.Exec | kernel/idt.c:430-445 | The same after tearing down whatever ran before, which gives back its tables first: no other page is left in the lower half, the upper half translates as before, and the heap starts at 0x10000 again. |
| Image.UpperReads | kernel/idt.c:430-445 | After exec, upper-half memory that was never adopted reads as before. |
| Image.KeptExecutable | kernel/idt.c:430-445 | After one exec the next one finds what it needs of the lower half. |
| Programs.Mallocs | stdlib/mem.c:46-71 | Any sequence of requests from variables that are zero gives the blocks of the allocation function; only the heap's pages have been added, and every other page translates as before and reads as before, but for the variables. |
| Programs.StillLoaded | kernel/proc.c:47-112 | What is mapped, or written to other bytes, does not disturb a loaded program. |
| Programs.LoadedWord | kernel/proc.c:50-89 | A 64-bit variable in a writable segment whose bytes are zero in the file is zero when the program starts, and the program can write it. |
| Programs.RunProgram | kernel/idt.c:430-445 | Exec, then any sequence of requests: stack, heap blocks and image are in place together under the permissions asked for, every byte of the image but those of the allocator's two variables; the lower half has no other page, the upper half is as before. |
| System.MapDemo | kernel/boot.c:206-211 | The demonstration page is mapped, and the number stored there can be read. |
| System.Boot | kernel/boot.c:133-219 | From the bootloader's tables, memory map and module: the first program is in place, the demonstration number still reads as 123, the lower half has no other page, the upper half translates as the bootloader left it, the frames accounted for are the usable ones and the bootloader's tables, and all other memory is untouched. |
| System.FirstExec | kernel/idt.c:430-445 | At the first exec after boot, mapping the program's first page may leave in the cache a translation of the demonstration page, which is not mapped any more. |
| System.ThreeEach | kernel/paging.c:241-281 | No set of pages needs more than three new tables for each page. |
| System.FourEach | kernel/paging.c:241-281 | Whatever the bootloader's tables, four usable frames for each page are enough. |
| System.BareMachine | kernel/boot.c:133-219 | What `Boot` asks for can be met: by an empty address space and 28 usable frames, for a program without bytes. |
| RingBuffer.WriteAppends | kernel/pic.c:66-80 | Uninterrupted, a write appends to the queue, or is dropped when 500 characters wait; the heads stay `avail` apart and unused slots zero. |
| RingBuffer.ReadTakes | kernel/pic.c:83-96 | Uninterrupted, a read takes the oldest character. |
| RingBuffer.Keyboard.WriteChar | kernel/pic.c:66-80 | The array and the counters follow the write above. |
| RingBuffer.Keyboard.Kgetc | kernel/pic.c:83-96 | The array and the counters follow the read above. |
| RingBuffer.InterruptKeeps | kernel/pic.c:66-80 | The protocol invariant survives the interrupt at any point of `kgetc`. |
| RingBuffer.StepKeeps | kernel/pic.c:83-96 | It survives each step of `kgetc`. |
| RingBuffer.DeliveredInOrder | kernel/pic.c:66-96 | In every reachable state the delivered characters are a prefix of the accepted ones, and `avail` is at most 501. |
| RingBuffer.NoOverwrite | kernel/pic.c:66-80 | In no reachable state does an interrupt overwrite an unread character. |
| RingBuffer.Drops | kernel/pic.c:68-70 | A character is dropped exactly if 500 are pending, or the consumer is between its last two updates with none pending. |
| RingBuffer.InterruptDoes | kernel/pic.c:66-80 | In every reachable state an interrupt stores its character after those accepted before, and counts it, unless 500 are pending or the consumer is between its last two updates with none pending; then nothing changes. |
| RingBuffer.Delivers | kernel/pic.c:83-96 | With a character available, five steps of `kgetc` deliver the oldest one that has not been delivered. |
| RingBuffer.DroppedWhileEmpty | kernel/pic.c:68-70 | The second case happens: a run after which a character is lost although none is pending. |
| Terminal.CopyUpMoves | stdlib/mem.c:26-35 | An ascending copy moves a block correctly even onto itself, if it goes down. |
| Terminal.CopyUpRepeats | stdlib/mem.c:26-35 | Going up it does not: a three-byte example. |
| Terminal.Memcpy | stdlib/mem.c:26-35 | The loop is that ascending copy. |
| Terminal.ScrollShows | kernel/term.c:86-98 | When the page is taller than the screen, moving every row up and clearing the last shows the page with a new row. |
| Terminal.Vga.Clear | kernel/term.c:44-56 | The screen shows an empty page. |
| Terminal.Vga.PutChar | kernel/term.c:59-112 | For every character the screen goes on showing the last 25 rows of the page, with the cursor in its row and column; row < 25, column <= 80. |
| Terminal.PlainText | kernel/term.c:80-109 | Printable text lies 80 to a row: character k in row k / 80, column k % 80; a full row is left only by the next character. |
| Terminal.LinesShown | kernel/term.c:75-109 | Lines of at most 80 characters, joined by newlines, are shown one to a row with blanks after them, the cursor at the end of the last; a full line opens no extra row. |
| Terminal.NewLine | kernel/term.c:75-79 | A newline opens a blank row and keeps the others. |
| Terminal.CarriageReturn | kernel/term.c:61-64 | A carriage return keeps all rows and goes to column 0. |
| Terminal.TakenBack | kernel/term.c:66-73 | A backspace blanks the cell before the cursor and nothing else, so that it takes back a character printed on a blank cell; at column 0 it does nothing; after a character that opened a row, the row stays. |
| Terminal.ShownBytes | kernel/term.c:86-109 | The 4000 bytes of video memory, byte by byte, are the last 25 rows of the page. |
| Numerals.NumeralEvaluates | kernel/kprint.c:54-59 | The printed numeral has no leading zero and stands for the number. |
| Numerals.NumeralUnique | kernel/kprint.c:54-59 | It is the only such numeral. |
| Numerals.NumeralLength | kernel/kprint.c:42-43 | A number has at most k digits exactly if it is below base^k. |
| Printer.FitsBuffer | kernel/kprint.c:42-43 | Every 64-bit number fits the 20 usable bytes of the buffer. |
| Printer.FillNext | kernel/kprint.c:54-59 | Each division puts the next digit in front, within the buffer. |
| Printer.Filled | kernel/kprint.c:61-65 | The numeral starts at the first byte that is not NUL. |
| Printer.KprintS | kernel/kprint.c:31-37 | Prints the string up to its terminator. |
| Strings.CStringPrefix | stdlib/mystring.c:5-12 | A C string ends at a NUL and has none inside. |
| Printf.SpelledSpells | kernel/kprint.c:54-65 | The printed text is the numeral of the number, in digits 0 to 9 and A to F. |
| Printer.KprintD | kernel/kprint.c:40-69 | Prints the decimal numeral of any 64-bit value, staying inside the buffer. |
| Printer.KprintX | kernel/kprint.c:72-121 | Prints the hexadecimal numeral of any 64-bit value. |
| Printer.KprintP | kernel/kprint.c:129-132 | Prints `0x` and that numeral. |
| Printf.Kprintf | kernel/kprint.c:135-176 | The flag-driven loop prints the text that the format stands for with its arguments. |
| Printf.EscapeRenders | kernel/kprint.c:152-155 | Text with its percent signs doubled prints as itself. |
| Printf.ConvertedPrints | kernel/kprint.c:157-163 | %s prints a string up to its terminator, %d an int in decimal, a negative one as the 64-bit number it is congruent to, %x its low 16 bits in hexadecimal, %p 0x and a pointer in hexadecimal, %c a character. |
| Printf.PieceByPiece | kernel/kprint.c:135-176 | A format prints its pieces in order: text as it is, with %% for a percent sign, and each conversion its argument. |
| Printf.StrayPercent | kernel/kprint.c:164 | A percent sign before any other character, or at the end, is dropped. |
| Debug.SumStep | kernel/debug.c:43-46 | The digit sum of up to 15 digits never exceeds 64 bits, and each step extends it by one digit. |
| Debug.DigitValue | kernel/debug.c:15-26 | Digits 0 to 9, A to F and a to f have their values. |
| Debug.ValueOf | kernel/debug.c:28-49 | Text that spells digits, of either case, stands for the number that the digits evaluate to. |
| Debug.ConvAddr | kernel/debug.c:28-49 | For an address of up to 15 hexadecimal digits of either case the result is its value, whatever is seen as the digit value of the terminator. |
| Debug.PointerRoundTrip | kernel/debug.c:28-49 | A printed pointer stands for the pointer, and is short enough to be read back exactly if it is below 16^15. |
| Debug.ReadPrinted | kernel/debug.c:28-49 | What `kprint_p` prints for v, as a C string, is read back by `conv_addr` as v, for every v below 16^15. |
| Strings.Strlen | stdlib/mystring.c:5-12 | The length including the terminator. |
| Strings.StrCmp | stdlib/mystring.c:26-35 | 0 exactly if the strings are equal, else 1. |
| Strings.SplitWords | stdlib/mystring.c:14-24 | The strings that start where `out` points, in the overwritten text, are the fields of the text. |
| Strings.RejoinFields | stdlib/mystring.c:14-24 | The fields contain no separator, and rejoined with the original separators give back the text. |
| Strings.SeparatorsAre | stdlib/mystring.c:18-23 | Blanks and newlines separate, and nothing else does. |
| Strings.FirstField | stdlib/mystring.c:14-24 | A word up to the first separator is the first field, and the rest is split by itself. |
| ReadLine.SyscallRead | kernel/idt.c:363-386 | Unless an empty line is backspaced, the buffer holds the edited input; the result is n. For another descriptor it is -1, whatever the buffer and the input. |
| ReadLine.FullLineExactly | kernel/idt.c:363-386 | The call reads a full line if and only if no backspace arrives at an empty line; otherwise it ends at that backspace with nothing. |
| ReadLine.Unedited | kernel/idt.c:371-376 | Without backspaces a line is what was typed. |
| ReadLine.Undone | kernel/idt.c:378-382 | A backspace takes back the character before it. |
| ReadLine.UndoneMany | kernel/idt.c:378-382 | Any number of them takes back that many characters. |

## Findings

- kernel/paging.c:262-275: `vm_map` marks an entry present before it stores the entry's address. A walk in
  between goes on behind the old address, and what it finds may stay in the cache, for the `invlpg` at
  kernel/paging.c:284 covers the mapped page only. `unmap_lower_half` leaves such addresses behind
  (kernel/paging.c:72), and `pmem_free` overwrites only the first entry of a freed table. The exact condition
  is `HalfWritten.MapCoherentExactly`; `System.FirstExec` has an input, the first exec after boot, with
  0x500000000 as the address to be mapped and 0x501040000 as the one that stays cached. Pages that are mapped
  are not affected (`HalfWritten.MapCurrent`).
- kernel/idt.c:422-426: mmap hands out 2048 bytes whatever was asked for, so that blocks of larger requests
  are not covered (`UserHeap.GrantedExactly`).
- kernel/pic.c:68-70: a character can be dropped though none is pending (`RingBuffer.DroppedWhileEmpty`).
- kernel/idt.c:380-382: a backspace at an empty line ends the read call, which then claims n characters
  (`ReadLine.FullLineExactly`).

## Left out

- Caches.Current: the model's cache holds whole translations; the caches of upper-level entries, which `invlpg` empties altogether, are not modelled.
- Kernel.AddressSpace.PmemFree: the link is written in one store.
- Kernel.AddressSpace.VmUnmap: the upper levels must be present, because the code follows their addresses unchecked.
- Kernel.AddressSpace.InitList: `hhdm` is a constant of the model instead of being read from the bootloader's tag, and the stores through the identity mapping go to the same physical memory directly.
- Kernel.AddressSpace.UnmapLowerHalf: global translations, which a CR3 reload keeps, are flushed too; they would be upper-half ones, which do not change.
- UserMemory.StoreVirtual: stores by the kernel to read-only pages are taken to succeed.
- Words.Word: the processor's own writes of the `accessed` and `dirty` bits; no code here reads them.
- PageTable.Look: the field `address` is taken as the frame number in all its 51 bits, where the processor uses bits 51 to 12 of the entry and ignores or reserves the rest; `Machine` keeps memory below 2^51 bytes, so that the frames that the kernel maps have the same number either way.
- Image.ExecuteMod: finding the module by name, reading the ELF header and jumping to user mode.
- RingBuffer.Step: the update of `readhead` with its wrap-around, and the decrement of `avail`, are one step each.
- RingBuffer.Keyboard.Kgetc: waiting for a character when none is there.
- Terminal.Vga.PutChar: the hardware cursor.
- Printf.Kprintf: arguments that do not match the format, for which C promises nothing.
- Strings.Strlen: the index is unbounded, where the code counts in an `int`: strings shorter than 2^31.
- Strings.StrCmp: the same.
- Strings.SplitWords: the same.
- System.Boot: setting up terminal, descriptor tables, interrupts and system calls, which happens in between, and what boot prints.
- Debug.ConvAddr: longer addresses, which the code writes past its array, and characters that are not hexadecimal digits, for which its conversion has no value.
- ReadLine.SyscallRead: the characters come from a sequence that is long enough for the call to return; `RingBuffer` is where they come from.
- UserHeap.Malloc: requests above 2^62 bytes, for which the 64-bit arithmetic of the code may wrap around.
- Programs.RunProgram: what the program itself writes between its requests.
- Address spaces other than the one in CR3, and more than one processor.
- Exception handlers, descriptor tables, interrupt-controller masking, port I/O and assembly: hardware effects or field stores.
- The keyboard layout and shift state.
- `get_addr`, `strcpy`, the symbol lookup and memory dumps of the debugger, and the printers of the user library, which repeat those here.
