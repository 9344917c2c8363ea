/**
 The memory set-up and the page tables together: what the kernel hands out, through Allocate or
 through sbrk, is memory it may use at the very address it was given.
 */
module AddressSpace {
  import opened Machine
  import opened Frames
  import opened MemoryManager
  import opened BootScan
  import opened KernelMemory
  import opened Paging
  import opened ProgramBreak

  /** The page tables are as SetupIdentityPageTable leaves them. */
  ghost predicate IdentityMapped(tables: PageTables)
    reads tables.pml4Table, tables.pdpTable, tables.pageDirectory
  {
    tables.Shaped() && tables.Placed() && tables.Identity()
  }

  /** Whether the execute-disable bit is enabled or not, the walk leads back to the address. */
  ghost predicate TranslatesToItself(tables: PageTables, address: uint64)
    requires tables.Shaped()
    reads tables.pml4Table, tables.pdpTable, tables.pageDirectory
  {
    forall nxe: bool :: tables.Walk(tables.pml4Base, nxe, address) == Mapped(address, KernelPage())
  }

  /** Byte `address` lies in the run of n frames from s. */
  predicate InFrames(address: nat, s: nat, n: nat) {
    s * 4096 <= address < (s + n) * 4096
  }

  /** Byte `address` lies in a visited descriptor of boot services code (3), boot services data (4) or
      conventional memory (7). */
  ghost predicate InFreeRegion(memoryMap: seq<Descriptor>, step: nat, address: nat)
    requires step > 0
  {
    exists i :: 0 <= i < |memoryMap| && i % step == 0 &&
                memoryMap[i].kind in {3, 4, 7} && HoldsByte(memoryMap[i], address)
  }

  /** Byte `address` lies in the descriptor. */
  predicate HoldsByte(d: Descriptor, address: nat) {
    d.physicalStart <= address < d.physicalStart + d.numberOfPages * 4096
  }

  /** Byte `address` lies in a visited descriptor of any other type. */
  ghost predicate InReservedRegion(memoryMap: seq<Descriptor>, step: nat, address: nat)
    requires step > 0
  {
    exists i :: 0 <= i < |memoryMap| && i % step == 0 &&
                memoryMap[i].kind !in {3, 4, 7} && HoldsByte(memoryMap[i], address)
  }

  lemma ReservedByteIsOccupied(memoryMap: seq<Descriptor>, step: nat, address: nat)
    requires step > 0 && Scannable(memoryMap, step) && InReservedRegion(memoryMap, step, address)
    ensures Occupied(memoryMap, step, |memoryMap|, address / BYTES_PER_FRAME)
  {
    var i :| 0 <= i < |memoryMap| && i % step == 0 &&
             memoryMap[i].kind !in {3, 4, 7} && HoldsByte(memoryMap[i], address);
    assert Visited(i, step);
    WholePages(memoryMap[i], address);
  }

  /** A page-aligned descriptor that holds a byte covers its frame. */
  lemma WholePages(d: Descriptor, address: nat)
    requires d.physicalStart % 4096 == 0 && HoldsByte(d, address)
    ensures Covers(d, address / BYTES_PER_FRAME)
  {}

  lemma UsableByteIsFree(memoryMap: seq<Descriptor>, step: nat, address: nat)
    requires step > 0 && Usable(memoryMap, step, |memoryMap|, address / BYTES_PER_FRAME)
    ensures InFreeRegion(memoryMap, step, address)
  {
    var f := address / BYTES_PER_FRAME;
    var i :| 0 <= i < |memoryMap| && Visited(i, step) && IsAvailable(memoryMap[i].kind) && Covers(memoryMap[i], f);
    assert HoldsByte(memoryMap[i], address);
  }

  /** A run inside the bitmap is mapped to itself throughout exactly when it ends by 64 GiB. */
  lemma RunIsMappedIff(tables: PageTables, s: nat, n: nat)
    requires IdentityMapped(tables) && n > 0 && s + n <= FRAME_COUNT
    ensures (forall address: uint64 :: InFrames(address, s, n) ==> TranslatesToItself(tables, address))
            <==> (s + n) * 4096 <= 0x10_0000_0000
  {
    if (s + n) * BYTES_PER_FRAME <= MAPPED_BYTES {
      forall address: uint64 | InFrames(address, s, n)
        ensures TranslatesToItself(tables, address)
      {
        IdentityBelow64GiB(tables, address);
      }
    } else {
      var last: uint64 := (s + n) * BYTES_PER_FRAME - 1;
      tables.WalkIsIdentity(true, last);
      assert InFrames(last, s, n) && !TranslatesToItself(tables, last);
    }
  }

  lemma IdentityBelow64GiB(tables: PageTables, address: uint64)
    requires IdentityMapped(tables) && address < 0x10_0000_0000
    ensures TranslatesToItself(tables, address)
  {
    forall nxe: bool
      ensures tables.Walk(tables.pml4Base, nxe, address) == Mapped(address, KernelPage())
    {
      tables.WalkIsIdentity(nxe, address);
    }
  }

  /** Over every run of operations after the scan, a granted run of frames is usable memory, and
      with no memory found above 64 GiB every byte of it translates to itself. */
  lemma GrantedRunIsAddressable(tables: PageTables, initial: set<nat>, memoryMap: seq<Descriptor>, step: nat,
                                ops: seq<Op>, i: nat, s: nat, n: nat, address: uint64)
    requires IdentityMapped(tables)
    requires step > 0 && Scannable(memoryMap, step)
    requires AvailableEnd(memoryMap, step, |memoryMap|) <= MAPPED_BYTES
    requires n > 0 && Frames.Granted(Scanned(initial, memoryMap, step), ops, i, s, n)
    requires InFrames(address, s, n)
    ensures TranslatesToItself(tables, address)
    ensures InFreeRegion(memoryMap, step, address) && !InReservedRegion(memoryMap, step, address)
    ensures address / 4096 !in initial
  {
    EveryGrantIsSafe(initial, memoryMap, step, ops, i, s, n);
    IdentityBelow64GiB(tables, address);
    FrameOfByte(address, s, n);
    UsableByteIsFree(memoryMap, step, address);
    if InReservedRegion(memoryMap, step, address) {
      ReservedByteIsOccupied(memoryMap, step, address);
    }
  }

  /**
   On a map without overlaps no run of operations is ever given a byte of a descriptor that is not
   available, visited or not: not the loader's data, nor the kernel it loaded.
   */
  lemma NothingReservedIsGranted(initial: set<nat>, memoryMap: seq<Descriptor>, step: nat,
                                 ops: seq<Op>, i: nat, s: nat, n: nat, address: nat, d: nat)
    requires step > 0 && Scannable(memoryMap, step) && Sorted(memoryMap)
    requires n > 0 && Frames.Granted(Scanned(initial, memoryMap, step), ops, i, s, n)
    requires InFrames(address, s, n)
    requires d < |memoryMap| && HoldsByte(memoryMap[d], address)
    ensures memoryMap[d].kind in {3, 4, 7} && d % step == 0
  {
    FrameOfByte(address, s, n);
    EveryGrantIsSafe(initial, memoryMap, step, ops, i, s, n);
    var f := address / BYTES_PER_FRAME;
    var j: nat :|
      j < |memoryMap| && Visited(j, step) && IsAvailable(memoryMap[j].kind) && Covers(memoryMap[j], f);
    OneHolder(memoryMap, j, d, address);
  }

  lemma FrameOfByte(address: nat, s: nat, n: nat)
    requires InFrames(address, s, n)
    ensures address / BYTES_PER_FRAME in Interval(s, n)
  {}

  lemma OneHolder(memoryMap: seq<Descriptor>, j: nat, d: nat, address: nat)
    requires Sorted(memoryMap) && j < |memoryMap| && d < |memoryMap|
    requires Covers(memoryMap[j], address / BYTES_PER_FRAME) && HoldsByte(memoryMap[d], address)
    ensures j == d
  {}

  /** A byte of the block granted by request i of a run of sbrk calls. */
  ghost predicate InBlock(address: nat, b: Break, incrs: seq<int32>, i: nat) {
    ProgramBreak.Granted(b, incrs, i)
    && ProgramBreak.After(b, incrs, i).at <= address < ProgramBreak.After(b, incrs, i).at + incrs[i]
  }

  /**
   From the firmware's memory map to malloc: over every run of non-negative sbrk requests after the
   heap is set up, every byte handed out lies in a usable frame of the heap, and with no memory
   found above 64 GiB it translates to itself.
   */
  lemma HeapByteIsAddressable(tables: PageTables, initial: set<nat>, memoryMap: seq<Descriptor>, step: nat,
                              b: Break, h: nat, incrs: seq<int32>, i: nat, address: uint64)
    requires IdentityMapped(tables)
    requires step > 0 && Scannable(memoryMap, step)
    requires AvailableEnd(memoryMap, step, |memoryMap|) <= MAPPED_BYTES
    requires HeapAt(b, initial, memoryMap, step, h)
    requires forall k :: 0 <= k < |incrs| ==> incrs[k] >= 0
    requires InBlock(address, b, incrs, i)
    ensures TranslatesToItself(tables, address)
    ensures h * 4096 <= address < h * 4096 + 0x800_0000
    ensures InFreeRegion(memoryMap, step, address)
  {
    HeapIsSafeForEver(b, initial, memoryMap, step, h, [], 0, 0, 0);
    BreakRises(b, incrs, i, i);
    GrantedIff(ProgramBreak.After(b, incrs, i), incrs[i]);
    FrameOfByte(address, h, HEAP_FRAMES);
    UsableByteIsFree(memoryMap, step, address);
    IdentityBelow64GiB(tables, address);
  }
}
