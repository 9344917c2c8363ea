# MosaOS: memory, loading and drawing, verified

MosaOS is a small x86-64 kernel with a UEFI boot loader. This project models the parts of it where
several components have to agree, and proves what they guarantee together:

- **Physical memory.** The bitmap frame allocator (`MemoryManager`) refines a set-based allocator
  that simply tries every start in turn (`Frames`). The scan of the firmware's memory map
  (`BootScan`), the allocator's range and the heap (`KernelMemory`), the program break
  (`ProgramBreak`) and the identity page tables (`Paging`) are composed (`AddressSpace`): every byte
  the kernel hands out, over any run, is available memory and translates to itself.
- **Loading.** The retry loop around AllocatePages (`BootAllocate`) and the ELF segment loop
  (`Loader`), for any firmware, down to kernel files given by the fields of their headers
  (`ElfFile`); and for firmware that keeps a pool of pages, what the retries obtain
  (`PagePool`) and when a load stays in the pages granted for it (`PooledLoad`).
- **Drawing.** A text font is packed into a file, loaded and drawn (`Font`, `Screens`), a bitmap
  file is read and drawn (`Bmp`, `Screens`), from the fields of its header on (`BmpFile`). `Drawing`
  states once what an operation does to every byte of the framebuffer, past the edge of the screen
  included. `ScreenManager` is the list of screens.

`Machine`, `Bits` and `Bytes` hold integer types, bitwise operators with their meaning bit by bit,
and little-endian reads, proved to undo a layout of records written field after field.

Objects and loops of the source are classes and loops here; each method is tied to a function of
the old state, and the theorems about runs are lemmas about those functions. What the outside
fixes (header layouts, memory types, page table bits, pixel and page sizes) is written out in the
theorems as numbers or as a layout of its own, not through the constants that the code reads by.
Unsigned integers are subset types, so every stored value is proved to fit; where the source wraps,
the model has a `%`.

## Where the code differs from its purpose

The model keeps the code as it is. Each point below has a lemma with a concrete input on which the
code falls short, and one that says exactly when it does not.

- `Free` sets bits instead of clearing them (`kernel/memory_manager.cpp:66`), so frames are never
  recycled: `Frames.FreedFrameIsLost`, `Frames.FreeUndoesAllocateIffEmpty`. `FreeClearing` is the
  variant that clears them; `Ledger` shows what it would give.
- The memory-map scan advances its iterator twice per pass (`kernel/kernel.cpp:80` and `:99`) and so
  visits every second descriptor. The model takes the step as a parameter, 2 as written. The step
  costs memory, never safety: `BootScan.SecondRegionIsLost`,
  `BootScan.NothingLostIffNothingOverlooked`.
- `sbrk` compares with `>=` (`kernel/newlib_support.c:9`) and refuses a request for exactly the rest
  of the heap: `ProgramBreak.LastPageIsRefused`, `KernelMemory.WholeHeapIsRefused`,
  `ProgramBreak.FittingRequestIsServedIff`.
- The loader's `Allocate` counts pages from the size alone (`boot/MosaLoader.c:43`):
  `BootAllocate.StraddlingRequestFallsShort`, `BootAllocate.RequestIsServedIff`. It returns an
  address even when nothing was granted (`boot/MosaLoader.c:71-72`):
  `BootAllocate.RefusedCallReturnsAnAddress`, `BootAllocate.GivenUpMeansNothing`. `LoadKernel`
  discards that result and copies regardless (`boot/MosaLoader.c:85-87`):
  `Loader.StraddlingSegmentLeavesItsPages`, `Loader.SegmentStaysInItsPagesIff` for one segment,
  `PooledLoad.LoadStaysInGrantsIff` for the whole load.
- `LoadKernel` keeps the number of program headers in 8 bits (`boot/MosaLoader.c:78`):
  `ElfFile.HeaderPastTheCountIsLost`, `Loader.WholeFileIsLoadedIff`. It does not clear the part of a
  segment that the file does not hold: `ElfFile.StaleTailStays`, `Loader.TailIsZeroIffItWas`.
- `getColor` ignores the padding of rows, and its branch for images stored from the top is off by one
  pixel (`kernel/bmp.cpp:19-30`): `BmpFile.PaddedFileIsMisread`, `BmpFile.TopDownFileIsMisread`,
  `Bmp.BitMapImage.ReadsTheFormatIff`; that branch also reads past the last pixel:
  `BmpFile.TopDownFileIsReadOutside`, `Bmp.BitMapImage.ExactFileIsReadInsideIff`.

## Model

| member | source | states |
|---|---|---|
| Frames.FirstFitIsLeast | kernel/memory_manager.cpp:40-62 | the naive search returns s exactly when s is the least start in range whose whole run is free, and nothing exactly when there is no such start |
| Frames.MarksOnlyGrow | kernel/memory_manager.cpp:11-69 | over every run of Allocate, Free as written and MarkAllocated, between any two points, no mark is ever removed and the range stays |
| Frames.MarkedIffTaken | kernel/memory_manager.cpp:11-69 | at every point of every run the marked frames are exactly those marked at the start and those that some operation was given, freed or reserved |
| Frames.ReservedFramesAreNotGranted | kernel/memory_manager.cpp:11-62 | over every run, no allocation is given a frame that MarkAllocated reserved or Free freed before it |
| Frames.ReservedFrameIsPassedOver | kernel/memory_manager.cpp:11-62 | a concrete run: of the frames 1 and 2, 1 is reserved and the allocation gets 2 |
| Frames.GrantsAreDisjoint | kernel/memory_manager.cpp:40-69 | over every such run, two successful allocations at different times never share a frame, even across calls of Free |
| Frames.AllocationTakesExactly | kernel/memory_manager.cpp:40-62 | conservation: a served request of n moves exactly n frames of the range from free to marked, a refused one changes nothing |
| Frames.NothingIsRecycled | kernel/memory_manager.cpp:40-69 | over a whole run the frames granted and those still free together never exceed the frames free at the start, whatever is freed; equality when the run only allocates |
| Frames.FreeUndoesAllocateIffEmpty | kernel/memory_manager.cpp:64-69 | Free as written restores the allocator after an Allocate exactly when zero frames were asked for |
| Frames.FreedFrameIsLost | kernel/memory_manager.cpp:64-69 | a concrete run: with one frame in range, allocating and freeing it leaves nothing to allocate |
| MemoryManager.BitmapMemoryManager.GetBit | kernel/memory_manager.cpp:22-27 | division, remainder, shift and mask compute membership in the set of marked frames; the frame asked about is added to the trace |
| MemoryManager.BitmapMemoryManager.SetBit | kernel/memory_manager.cpp:29-38 | OR-ing or masking one word adds or removes exactly one frame of the set |
| MemoryManager.BitmapMemoryManager.MarkAllocated | kernel/memory_manager.cpp:11-15 | adds exactly the interval of frames, which is the marking step of the runs above |
| MemoryManager.BitmapMemoryManager.Allocate | kernel/memory_manager.cpp:40-62 | for every request size and range, the skipping search returns what the naive search returns, with its value or error, and marks exactly the run; the calls of GetBit it makes are exactly one for each frame from the range start, in order, to the end of the run found, or of the range when none is found |
| MemoryManager.SearchIsLinear | kernel/memory_manager.cpp:42-61 | hence one call makes at most range_end - range_begin calls of GetBit |
| MemoryManager.ExaminedOnce | kernel/memory_manager.cpp:42-61 | the frames that a call examines are exactly those of the interval above, each one once |
| MemoryManager.BitmapMemoryManager.Free | kernel/memory_manager.cpp:64-69 | as written: the interval ends up marked, success is returned |
| MemoryManager.BitmapMemoryManager.FreeClearing | kernel/memory_manager.cpp:64-69 | the variant that passes false to SetBit: exactly the interval is unmarked |
| MemoryManager.AllocateAndRelease | kernel/memory_manager.cpp:40-69 | with that variant, a client that allocates and frees leaves the very words of the bitmap as they were |
| Ledger.LiveRunsStayDisjoint | kernel/memory_manager.cpp:40-69 | with the clearing variant and clients that free only what they hold, at every point of every run live runs are disjoint, in range, and together with the initial marks are exactly the marked frames |
| Ledger.FramesAreConserved | kernel/memory_manager.cpp:40-69 | held plus free frames stay constant over every such run, and when everything is released the allocator is as it was |
| Ledger.ReleaseUndoesAcquire | kernel/memory_manager.cpp:40-69 | in every reachable state, releasing what was just acquired restores that state |
| BootScan.VisitDescriptor | kernel/kernel.cpp:81-98 | one pass adds exactly the gap before the descriptor and, if it is unavailable, the descriptor |
| BootScan.ScanMemoryMap | kernel/kernel.cpp:76-102 | for every step, the loop leaves exactly the marks, `available_end` and range of the scan defined descriptor by descriptor |
| BootScan.ScanIsSafe | kernel/kernel.cpp:76-100 | for every page-aligned map in any order, overlaps included, and every step: an unmarked frame below `available_end` lies in a visited available descriptor, and no unmarked frame lies in a visited unavailable one |
| BootScan.ScanIsExact | kernel/kernel.cpp:76-100 | on a sorted map, after any number of passes, the marked frames are exactly those below the last visited end that lie in no visited available descriptor |
| BootScan.NothingLostIffNothingOverlooked | kernel/kernel.cpp:78-100 | on a sorted map the scan keeps every frame of every available descriptor if and only if it skips no non-empty available descriptor |
| BootScan.SingleStepKeepsEverything | kernel/kernel.cpp:78-100 | with step 1 the frames kept are exactly those inside descriptors of type 3, 4 or 7, pages being 4096 bytes |
| BootScan.SecondRegionIsLost | kernel/kernel.cpp:80-99 | a concrete map of three adjacent regions of type 7, on which the scan as written keeps the first and the third and loses the second |
| BootScan.TypeDecides | kernel/memory_map.hpp:48-53 | a concrete map of one region of 0x10000 pages: `available_end` is its end for types 3, 4 and 7 and 0 for every other |
| KernelMemory.InitializeHeap | kernel/memory_manager.cpp:73-83 | the break variables bound the first-fit run of frames, 0x8000000 bytes from its first, which is marked; on failure neither they nor the bitmap change |
| KernelMemory.SetUpMemory | kernel/kernel.cpp:74-112 | scan, range and heap composed, from any initial bitmap: the exact final allocator and break variables |
| KernelMemory.EveryGrantIsSafe | kernel/kernel.cpp:76-112 | whatever is allocated, freed and marked after the scan, every run Allocate returns excludes frame 0, lies in visited available descriptors, is clear of unavailable ones and of earlier marks, and holds no frame that an earlier operation of the run was given, freed or marked; for every page-aligned map and step |
| KernelMemory.HeapIsSafeForEver | kernel/kernel.cpp:112-117 | the same for the heap; its base is not null, it ends below `available_end`, and no later allocation of any run touches it |
| KernelMemory.HeapFoundIff | kernel/kernel.cpp:76-112 | on a sorted map and a zeroed bitmap the heap is at s exactly when s is the least start above 0 of 32768 consecutive visited available frames, and set-up fails exactly when there are none |
| KernelMemory.WholeHeapIsRefused | kernel/newlib_support.c:9 | of the heap that set-up finds, a first request for its 0x8000000 bytes is refused and one for a byte less is not |
| ProgramBreak.NewlibBreak.Sbrk | kernel/newlib_support.c:8-17 | with 64-bit wrap: when a request is refused nothing changes, else the old break is returned and the break moves by the request |
| ProgramBreak.UnsetBreakRefusesAll | kernel/newlib_support.c:9-12 | before the heap is set up every request of every run is refused and changes nothing |
| ProgramBreak.BreakIsStartPlusGranted | kernel/newlib_support.c:8-17 | over every run, requests of either sign, the break is the heap start plus the sum granted and stays strictly below the end |
| ProgramBreak.BlocksAscendInsideTheHeap | kernel/newlib_support.c:8-17 | over every run of non-negative requests the granted blocks ascend, do not overlap, are adjacent when nothing was granted between them, and stay inside the heap |
| ProgramBreak.FittingRequestIsServedIff | kernel/newlib_support.c:9 | a non-negative request that fits the rest of the heap is served if and only if it is not for exactly the rest |
| ProgramBreak.LastPageIsRefused | kernel/newlib_support.c:9 | a concrete run in a heap of 128 MiB from 0x1000: after all but the last page is granted, a request for that page is refused, one for 4095 bytes is not |
| Paging.PageTables.SetupIdentityPageTable | kernel/paging.cpp:15-25 | from zeroed upper tables, every entry of the three tables, all below 2^52, and the value loaded into CR3 |
| Paging.PageTables.EntryIsDecoded | kernel/paging.cpp:16-20 | for every frame number, every setting of bits 8:0 and of bit 63, the walk takes the address, present, writable, user, write-through, cache-disable, page-size, global, page attribute and execute-disable fields, and the reserved bits, from the places where the processor has them |
| Paging.PageTables.WalkIsIdentity | kernel/paging.cpp:10-25 | the 4-level walk over these tables, for every canonical address and either setting of EFER.NXE: below 64 GiB the address itself, writable, supervisor-only, executable and cached as by default at every level, not global; from there on a non-present entry |
| AddressSpace.RunIsMappedIff | kernel/paging.cpp:15-25 | a run of frames is mapped to itself throughout exactly when it ends by 64 GiB |
| AddressSpace.GrantedRunIsAddressable | kernel/kernel.cpp:59-112 | when `available_end` is at most 64 GiB, every byte of every run granted after the scan, in any run of operations, translates to itself, lies in a visited descriptor of type 3, 4 or 7 and in no visited descriptor of another type, and was not marked before the scan |
| AddressSpace.NothingReservedIsGranted | kernel/kernel.cpp:76-112 | on a map without overlaps, in any order of operations, a descriptor that holds a granted byte is of type 3, 4 or 7 and was visited: nothing of another type is handed out, whether the scan visited it or not |
| AddressSpace.HeapByteIsAddressable | kernel/kernel.cpp:59-112 | from memory map to malloc: every byte handed out by any run of non-negative sbrk calls lies in the heap's 0x8000000 bytes, in a visited descriptor of type 3, 4 or 7, and translates to itself |
| Font.PackRow | font/makefontfile.c:25-29 | the signed-char sum, wrapped to 8 bits, has bit 7-x set exactly where the row has '@' at x |
| Font.MakeFontFile | font/makefontfile.c:19-40 | byte 16c+y of the file shows row y of glyph c, for all 256 glyphs |
| Font.MonoAsciiFont.IsDrawReadsBit | kernel/font.cpp:9-18 | shift and mask read bit 7-x of row y |
| Font.AsciiFont.constructor | kernel/font.cpp:22-27 | glyph c is the 16 bytes at 16c, for the 128 glyphs loaded |
| Font.FontRoundTrip | kernel/font.cpp:5-31 | for every text font, pack, write, load and isDraw give true exactly where the text has '@' |
| Font.LoadTextFont | font/makefontfile.c:19-40 | the packer and the kernel's constructors composed satisfy that round trip |
| Bmp.BitMapImage.constructor | kernel/bmp.cpp:5-17 | width, height, direction and pixel offset from the header bytes, negative heights included |
| Bmp.BitMapImage.PixelIndexIsRowMajor | kernel/bmp.cpp:19-27 | whatever the bit count, if the last pixel number fits an int, the wrapped index arithmetic is a row number times the width plus a column, never past that last number |
| Bmp.BitMapImage.AllReadsInFileIff | kernel/bmp.cpp:19-30 | every read of getColor lies in the file if and only if the file holds the colour of the last pixel number it computes |
| Bmp.BitMapImage.ExactFileIsReadInsideIff | kernel/bmp.cpp:19-30 | for a file that ends with its last pixel, every read lies in the file if and only if rows are stored from the bottom |
| Bmp.BitMapImage.ReadsTheFormatIff | kernel/bmp.cpp:19-30 | getColor reads every pixel where the file format stores it if and only if the image is stored from the bottom and its rows need no padding or it has one row |
| BmpFile.HeaderIsRead | kernel/bmp.cpp:5-17 | round trip: from the 54 bytes of a header laid out field after field the constructor's reads give the pixel offset, bit count, width and signed height that were written |
| BmpFile.ShowBmpFile | kernel/bmp.cpp:5-30 | a bottom-up true-colour file whose rows need no padding or that has one row, given by those fields, shown at (x, y) on a screen it fits: bytes 0 to 2 of each pixel are the file's bytes at offBits + ((height-1-j)*width+i)*bitCount/8, and no other byte of the screen changes |
| BmpFile.PaddedFileIsMisread | kernel/bmp.cpp:22-23 | for a file whose header says 24 bits, one column and two rows, bottom-up: the upper row is read at byte 3 instead of 4 |
| BmpFile.TopDownFileIsMisread | kernel/bmp.cpp:25-26 | the same with height -2: the first pixel is read at byte 3 instead of 0 |
| BmpFile.TopDownFileIsReadOutside | kernel/bmp.cpp:25-28 | the same file: of its two pixels the second is read as number 2, past the end of the file |
| Screens.Screen.WritePixel | kernel/screen.cpp:104-111 | bytes 4*(y*x_axis+x), +1 and +2 take blue, green and red, every other byte of the buffer stays |
| Screens.Screen.WriteSquare | kernel/screen.cpp:113-120 | exactly the pixels that the positions of the inclusive rectangle lead to are coloured, byte for byte, on the screen or past its edge |
| Screens.Screen.WriteAscii | kernel/screen.cpp:122-132 | exactly the set pixels of the glyph are coloured |
| Screens.Screen.PrintLine | kernel/screen.cpp:134-140 | exactly the positions of cell k=(px-x)/8 whose glyph bit is set are drawn, for every ASCII line in the buffer |
| Screens.Screen.PrintBmp | kernel/screen.cpp:142-150 | every position of the image's rectangle gets getColor's colour, a pixel reached twice the later one, and nothing else changes |
| Screens.ImageIsStoredPicture | kernel/bmp.cpp:5-30 | for a bottom-up true-colour file without row padding, every colour the constructed image gives is the one the file stores at row height-1-j, column i |
| Screens.Screen.ShowFile | kernel/kernel.cpp:67-69 | header, constructor and printBmp composed: such a file, from its bytes, is shown as the picture it stores, and no other byte of the buffer changes |
| Screens.Screen.SquareOnScreen | kernel/screen.cpp:104-120 | with a buffer for the whole screen, a square with its corners on the screen can be written, and byte k of pixel (px, py) then takes the colour when k < 3 and the pixel lies between the corners, and is unchanged otherwise |
| Screens.Screen.FileOnScreen | kernel/kernel.cpp:67-69 | likewise an upright file that fits the screen: byte k < 3 of a pixel of the image is byte k of that pixel's place in the file, every other byte of the screen is unchanged |
| Screens.Screen.LineOnScreen | kernel/screen.cpp:122-140 | likewise a line of text: a pixel takes the colour exactly where the text font has '@' |
| Screens.PrintedLineShowsTextFont | kernel/screen.cpp:122-140 | from text font to framebuffer: a byte of the buffer changes exactly where the text of the character's glyph has '@', never the fourth byte of a pixel |
| ScreenManager.ScreenManager.WithScreen | kernel/screen.cpp:16-19 | the list of one screen |
| ScreenManager.ScreenManager.GetLast | kernel/screen.cpp:44-56 | terminates on every valid list with its last screen, null when empty |
| ScreenManager.ScreenManager.SetScreen | kernel/screen.cpp:33-42 | appends at the end; the chain stays acyclic exactly when the screen was not listed, else the last screen links back to it |
| ScreenManager.ScreenManager.GetScreen | kernel/screen.cpp:21-31 | the index-th screen appended, null past the end, the first for a negative index |
| BootAllocate.Allocate | boot/MosaLoader.c:40-73 | for every address, size, firmware and earlier history: the exact requests made to the firmware, at most size/0x1000 + 1 and at most 10000, what was granted, and the address returned or the halt |
| BootAllocate.RetriesAskForTails | boot/MosaLoader.c:45-71 | every attempt is page-aligned, asks for one page less than the one before and ends at the same address |
| BootAllocate.RequestIsServedIff | boot/MosaLoader.c:40-73 | a call obtains pages for len bytes from its address on if and only if the firmware accepts the first request and the address's offset in its page leaves room in the pages counted |
| BootAllocate.GivenUpMeansNothing | boot/MosaLoader.c:71-72 | a call returns although it was granted nothing if and only if it is refused until the size runs out, before 10000 requests; the address it returns is then the page after all those it asked for |
| BootAllocate.RefusedCallReturnsAnAddress | boot/MosaLoader.c:71-72 | a concrete call for one byte at 0x1000 under firmware that refuses everything: 0x2000 is returned |
| BootAllocate.RefusedThroughout | boot/MosaLoader.c:45-71 | under firmware that refuses everything, the exact number of requests for every address and size, and the halt, after 10000 of them, exactly for sizes from 9999 pages up to where the first subtraction passes 0xffffffffffff0000 |
| BootAllocate.PagesOfIsLeast | boot/MosaLoader.c:43 | the pages asked for are the fewest that hold the size |
| BootAllocate.StraddlingRequestFallsShort | boot/MosaLoader.c:43 | a concrete call for two bytes at 0xfff: one page is asked for, and no firmware provides both bytes |
| Loader.LoadSegment | boot/MosaLoader.c:85-87 | one loadable segment: halted exactly when its allocation stalls, otherwise its bytes are in place; the firmware's account either way |
| Loader.LoadKernel | boot/MosaLoader.c:75-92 | for every firmware, with headers read from live memory: every byte of memory is the image byte of the last processed segment that covers it, or unchanged; the entry point is returned, or the loader halted at the first segment that stalls; exactly the requests of the processed segments were made |
| Loader.EverySegmentIsLoaded | boot/MosaLoader.c:80-90 | with disjoint destinations byte p_vaddr+k is image byte p_offset+k for every PT_LOAD header and k below p_filesz |
| Loader.TheRestIsUnchanged | boot/MosaLoader.c:80-90 | a byte that no PT_LOAD header covers is unchanged |
| Loader.WholeFileIsLoadedIff | boot/MosaLoader.c:78-90 | after LoadKernel, all PT_LOAD bytes of all e_phnum headers are in memory if and only if those past the 8-bit count already were; with fewer than 256 headers, always |
| Loader.LoadFile | boot/MosaLoader.c:75-92 | the same as a contract of the run itself: when it returns the entry point, every PT_LOAD byte of the file is in memory if and only if those past the 8-bit count already were, and always with fewer than 256 headers |
| ElfFile.ElfHeaderIsRead | boot/MosaLoader.c:76-79 | round trip: from the 64 bytes of an ELF header laid out field after field the loader reads the e_entry, e_phoff, e_phentsize and e_phnum that were written, whatever the other fields are |
| ElfFile.ProgramHeaderIsRead | boot/MosaLoader.c:81-87 | round trip: from the 56 bytes of a program header laid out so, anywhere in the image, it reads the p_type, p_offset, p_vaddr, p_filesz and p_memsz that were written |
| ElfFile.LoadElfFile | boot/MosaLoader.c:75-92 | the loader run on a file given by those fields, with any e_phoff and e_phentsize and fewer than 256 headers: e_entry is returned, address a holds byte p_offset + (a - p_vaddr) of the last header of type 1 that covers it, and all other memory is unchanged |
| ElfFile.HeaderPastTheCountIsLost | boot/MosaLoader.c:78-80 | files built with 256 headers, the first of which loads the byte 0x7f to address 0: it is not loaded |
| Loader.SegmentStaysInItsPagesIff | boot/MosaLoader.c:85-87 | every byte written for a segment lies in pages granted for it if and only if the firmware accepts the first request and p_vaddr's offset plus p_filesz fits the pages counted from p_memsz |
| PagePool.RetryIsGrantedIff | boot/MosaLoader.c:45-71 | when the firmware serves exactly the requests whose pages are all in its pool and not handed out before: the request after p refusals is the one granted if and only if the pages counted from the p-th on are available, the one before is not, and p < 10000 |
| PagePool.GrantIsLongestTail | boot/MosaLoader.c:40-73 | for every state of the pool, a call that does not halt is granted exactly the longest available tail of the pages it counts |
| PooledLoad.LoadGrantsIff | boot/MosaLoader.c:75-92 | for segments in the gABI's ascending order and every state of the pool: after a load that does not halt, the firmware's account has a new grant with byte a if and only if before the load all pages from a's on of some segment's counted pages were available |
| PooledLoad.LoadStaysInGrantsIff | boot/MosaLoader.c:75-92 | for such a load whose counted pages are all available before it, segments sharing pages or not, and p_filesz at most p_memsz: every byte it writes lies in a newly granted page if and only if each segment's last byte lies in a page that some segment counts |
| PooledLoad.NothingStalls | boot/MosaLoader.c:61-68 | when moreover no segments overlap, such a load never reaches the halt after 10000 refusals |
| PooledLoad.LoadFromPool | boot/MosaLoader.c:75-92 | the run itself: what memory holds, which bytes were granted, that every changed byte lies in new grants when every written one does, when that is so, and that the entry point is returned when no segments overlap and the pages counted are available |
| PooledLoad.SharedPageIsRetried | boot/MosaLoader.c:46-71 | a concrete load of two segments that share a page: the second one's first request is refused, its retry is granted the other page, and nothing is written outside the grants |
| Loader.StraddlingSegmentLeavesItsPages | boot/MosaLoader.c:85-87 | a concrete two-byte segment at 0xfff writes a byte that no firmware granted for it |
| Loader.TailIsZeroIffItWas | boot/MosaLoader.c:85-87 | the part of a segment past p_filesz is zero, as the gABI asks, exactly when that memory was zero before |
| ElfFile.StaleTailStays | boot/MosaLoader.c:85-87 | files built with one header, for one byte of memory and none of contents, over memory that holds 7: the 7 stays |

## Left out

- BootScan.ScanMemoryMap: what is visited must be page-aligned and below 128 GiB (`Scannable`), as the source assumes when it indexes its bitmap; positions stand for iterator addresses, and a descriptor's virtual start and attribute are not modelled.
- BootScan.ScanIsExact: for maps in ascending order; without the order only safety holds, which ScanIsSafe proves for every order.
- ProgramBreak.BlocksAscendInsideTheHeap: non-negative requests only, since a negative one gives memory back; errno is not modelled.
- Screens.Screen.WritePixel: positions whose pixel lies in the buffer and whose index does not wrap at 32 bits; the other drawing methods likewise. Outside, the source writes to unrelated memory.
- Screens.Screen.WriteSquare: x2 and y2 below the largest 32-bit number, at which the source's loops never end.
- Screens.Screen.PrintLine: 7-bit characters only; others index outside the font table.
- Screens.Screen.PrintBmp: images whose colours all lie in the file, exactly as AllReadsInFileIff says; outside, the source shows unrelated memory.
- Bmp.BitMapImage.AllReadsInFileIff: 24 and 32 bits per pixel with offsets that fit an int; compression and palettes are not read by the source either.
- ScreenManager.ScreenManager.SetScreen: an unlisted screen must link nowhere.
- Loader.LoadKernel: headers and file contents inside the image, destinations inside memory and clear of the image; overlapping destinations are allowed.
- ElfFile.LoadElfFile: fewer than 256 program headers; from 256 on, Loader.WholeFileIsLoadedIff says what is loaded.
- Loader.WholeFileIsLoadedIff: for destinations that do not overlap; LoadKernel itself covers overlaps.
- Loader.SegmentStaysInItsPagesIff: segments whose memory range does not wrap at 64 bits.
- PooledLoad.LoadGrantsIff: firmware that serves a request exactly when its pages are free, and segments by ascending p_vaddr as the gABI has them; for any other firmware, Loader.SegmentStaysInItsPagesIff says it segment by segment.
- PooledLoad.LoadStaysInGrantsIff: segments whose pages are partly taken before the load; for those LoadGrantsIff says which bytes are granted.
- Scan lines longer than the visible width: the source uses the visible width as its stride, so the model's pixel (x, y) is the one at index y * x_axis + x.
- AllocatePages answers by its whole history of requests and leaves the address as it was; all other UEFI calls, `UefiMain` and logging are not modelled.
- The text parsing of the font packer: it starts from 256 glyphs of 16 rows of 8 characters.
- Font and image files are immutable byte sequences, so a file that overlaps the framebuffer is not covered.
- `hlt` loops are preconditions, or an outcome in the loader; `print` and its cursor, `copyScreen`, names and getters are left out.
- Segment descriptors, interrupts, assembly and the loading of CR3: hardware effects or straight-line bit packing.
