/**
 The identity page table (kernel/paging.cpp) and the processor's walk over it: 4-level paging as
 in section 4.5 of the Intel 64 and IA-32 Architectures Software Developer's Manual, Volume 3A.
 */
module Paging {
  import opened Machine
  import opened Bits

  const PAGE_SIZE_4K := 4096
  const PAGE_SIZE_2M := 0x20_0000
  const PAGE_SIZE_1G := 0x4000_0000
  const ENTRIES := 512
  const PAGE_DIRECTORY_COUNT := 64
  const MAPPED_BYTES := 0x10_0000_0000     // 64 GiB
  const PHYSICAL_LIMIT := 0x10_0000_0000_0000  // 52-bit physical addresses

  datatype Translation =
    | Mapped(physical: nat, attributes: Attributes)
    | NotPresent
    | Malformed  // a reserved bit is set, or the walk leaves the tables

  // `cached`: no write-through, cache-disable or page attribute bit selects another type of caching.
  datatype Attributes = Attributes(writable: bool, user: bool, executable: bool, cached: bool, kept: bool)

  predicate Present(entry: uint64) { Bit(entry, 0) }
  predicate Writable(entry: uint64) { Bit(entry, 1) }
  predicate User(entry: uint64) { Bit(entry, 2) }
  predicate WriteThrough(entry: uint64) { Bit(entry, 3) }
  predicate CacheDisable(entry: uint64) { Bit(entry, 4) }
  predicate LargePage(entry: uint64) { Bit(entry, 7) }
  predicate Global(entry: uint64) { Bit(entry, 8) }

  /** Bit 12 of a directory entry that maps a 2 MiB page. */
  predicate PageAttribute(entry: uint64) {
    entry / 0x1000 % 2 == 1
  }

  /** Bit 63. */
  predicate ExecuteDisable(entry: uint64) {
    entry >= 0x8000_0000_0000_0000
  }

  /** A right is granted when all three levels grant it; a global page is kept when CR3 is loaded. */
  ghost function Combined(pml4e: uint64, pdpte: uint64, pde: uint64): Attributes {
    var entries := {pml4e, pdpte, pde};
    Attributes(writable := forall e :: e in entries ==> Writable(e),
               user := forall e :: e in entries ==> User(e),
               executable := forall e :: e in entries ==> !ExecuteDisable(e),
               cached := (forall e :: e in entries ==> !WriteThrough(e) && !CacheDisable(e)) && !PageAttribute(pde),
               kept := Global(pde))
  }

  /** What the kernel may do with a page of its own. */
  function KernelPage(): Attributes {
    Attributes(writable := true, user := false, executable := true, cached := true, kept := false)
  }

  /** Bits 51:12 of an entry that refers to a table. */
  function TableAddress(entry: uint64): nat {
    entry / PAGE_SIZE_4K % 0x100_0000_0000 * PAGE_SIZE_4K
  }

  /** Bits 51:21 of a directory entry that maps a 2 MiB page. */
  function LargePageAddress(entry: uint64): nat {
    entry / PAGE_SIZE_2M % 0x8000_0000 * PAGE_SIZE_2M
  }

  /** Bits 20:13 are reserved when a directory entry maps a 2 MiB page. */
  predicate LargePageReservedClear(entry: uint64) {
    entry / 0x2000 % 0x100 == 0
  }

  function Pml4Index(address: uint64): nat { address / 0x80_0000_0000 % ENTRIES }
  function PdpIndex(address: uint64): nat { address / PAGE_SIZE_1G % ENTRIES }
  function DirectoryIndex(address: uint64): nat { address / PAGE_SIZE_2M % ENTRIES }

  /** Bits 63:48 repeat bit 47; other addresses are never walked. */
  predicate Canonical(address: uint64) {
    address < 0x8000_0000_0000 || address >= TWO_TO_64 - 0x8000_0000_0000
  }

  class PageTables {
    const pml4Table: array<uint64>
    const pdpTable: array<uint64>
    const pageDirectory: array<uint64>  // row-major: entry j of directory i is element i * 512 + j

    // The physical addresses of the three tables.
    const pml4Base: uint64
    const pdpBase: uint64
    const directoryBase: uint64

    constructor (pml4Base: uint64, pdpBase: uint64, directoryBase: uint64)
      ensures this.pml4Base == pml4Base && this.pdpBase == pdpBase && this.directoryBase == directoryBase
      ensures Shaped() && Zeroed()
      ensures fresh(pml4Table) && fresh(pdpTable) && fresh(pageDirectory)
    {
      this.pml4Base, this.pdpBase, this.directoryBase := pml4Base, pdpBase, directoryBase;
      pml4Table := new uint64[ENTRIES](_ => 0);
      pdpTable := new uint64[ENTRIES](_ => 0);
      pageDirectory := new uint64[PAGE_DIRECTORY_COUNT * ENTRIES](_ => 0);
    }

    predicate Shaped() {
      && pml4Table.Length == ENTRIES && pdpTable.Length == ENTRIES
      && pageDirectory.Length == PAGE_DIRECTORY_COUNT * ENTRIES
      && pml4Table != pdpTable && pml4Table != pageDirectory && pdpTable != pageDirectory
    }

    /** Page-aligned tables in distinct physical memory. */
    predicate Placed() {
      && pml4Base % PAGE_SIZE_4K == 0 && pdpBase % PAGE_SIZE_4K == 0 && directoryBase % PAGE_SIZE_4K == 0
      && pml4Base < PHYSICAL_LIMIT && pdpBase < PHYSICAL_LIMIT
      && directoryBase + PAGE_DIRECTORY_COUNT * PAGE_SIZE_4K <= PHYSICAL_LIMIT
      && pml4Base != pdpBase
      && !InDirectories(pml4Base) && !InDirectories(pdpBase)
    }

    predicate InDirectories(address: nat) {
      directoryBase <= address < directoryBase + PAGE_DIRECTORY_COUNT * PAGE_SIZE_4K
    }

    /** Static storage: the two upper tables start out zero. */
    ghost predicate Zeroed()
      requires Shaped()
      reads pml4Table, pdpTable
    {
      forall i :: 0 <= i < ENTRIES ==> pml4Table[i] == 0 && pdpTable[i] == 0
    }

    /** Builds the tables and returns the value loaded into CR3. */
    method SetupIdentityPageTable() returns (cr3: uint64)
      requires Shaped() && Placed() && Zeroed()
      modifies pml4Table, pdpTable, pageDirectory
      ensures cr3 == pml4Base && Identity()
      ensures EntriesBelow(0x10_0000_0000_0000)
    {
      OrIntoTableAddress(pdpBase);
      pml4Table[0] := Or(pdpBase, 0x003);
      var iPdpt := 0;
      while iPdpt < PAGE_DIRECTORY_COUNT
        invariant 0 <= iPdpt <= PAGE_DIRECTORY_COUNT
        invariant UpperTablesDone(iPdpt)
        invariant DirectoriesDone(iPdpt * ENTRIES)
      {
        var directory: uint64 := directoryBase + iPdpt * PAGE_SIZE_4K;
        DirectoryIsAligned(iPdpt);
        OrIntoTableAddress(directory);
        pdpTable[iPdpt] := Or(directory, 0x003);
        assert UpperTablesDone(iPdpt + 1);
        FillDirectory(iPdpt);
        iPdpt := iPdpt + 1;
      }
      EntriesArePhysical();
      return pml4Base;
    }

    /** All entries of the three tables are below the limit. */
    ghost predicate EntriesBelow(limit: nat)
      requires Shaped()
      reads pml4Table, pdpTable, pageDirectory
    {
      && (forall i :: 0 <= i < 512 ==> pml4Table[i] < limit && pdpTable[i] < limit)
      && (forall i :: 0 <= i < pageDirectory.Length ==> pageDirectory[i] < limit)
    }

    lemma EntriesArePhysical()
      requires Shaped() && Placed() && Identity()
      ensures EntriesBelow(0x10_0000_0000_0000)
    {
      forall i | 0 <= i < pageDirectory.Length
        ensures pageDirectory[i] < 0x10_0000_0000_0000
      {
        assert pageDirectory[i] == LargeEntry(i);
      }
    }

    /** The inner loop: directory iPdpt maps the 2 MiB pages of its gigabyte. */
    method FillDirectory(iPdpt: nat)
      requires Shaped() && iPdpt < PAGE_DIRECTORY_COUNT && DirectoriesDone(iPdpt * ENTRIES)
      modifies pageDirectory
      ensures DirectoriesDone((iPdpt + 1) * ENTRIES)
    {
      var iPd := 0;
      while iPd < ENTRIES
        invariant 0 <= iPd <= ENTRIES
        invariant DirectoriesDone(iPdpt * ENTRIES + iPd)
      {
        OrIntoLargePage(iPdpt, iPd);
        pageDirectory[iPdpt * ENTRIES + iPd] := Or(iPdpt * PAGE_SIZE_1G + iPd * PAGE_SIZE_2M, 0x83);
        iPd := iPd + 1;
      }
    }

    /** The top table and the first n entries of the second are in place; the rest is zero. */
    ghost predicate UpperTablesDone(n: nat)
      requires Shaped() && n <= PAGE_DIRECTORY_COUNT
      reads pml4Table, pdpTable
    {
      && pml4Table[0] == pdpBase + 0x003
      && (forall i :: 0 < i < ENTRIES ==> pml4Table[i] == 0)
      && (forall i :: 0 <= i < n ==> pdpTable[i] == directoryBase + i * PAGE_SIZE_4K + 0x003)
      && (forall i :: n <= i < ENTRIES ==> pdpTable[i] == 0)
    }

    /** The first n entries of the directories are in place. */
    ghost predicate DirectoriesDone(n: nat)
      requires Shaped() && n <= PAGE_DIRECTORY_COUNT * ENTRIES
      reads pageDirectory
    {
      forall k :: 0 <= k < n ==> pageDirectory[k] == LargeEntry(k)
    }

    lemma DirectoryIsAligned(i: nat)
      requires directoryBase % PAGE_SIZE_4K == 0
      ensures (directoryBase + i * PAGE_SIZE_4K) % PAGE_SIZE_4K == 0
    {}

    static lemma OrIntoTableAddress(base: nat)
      requires base % PAGE_SIZE_4K == 0
      ensures Or(base, 0x003) == base + 0x003
    {
      assert Pow2(12) == 4096;
      OrDisjointIsSum(base, 0x003, 12);
    }

    static lemma OrIntoLargePage(i: nat, j: nat)
      ensures Or(i * PAGE_SIZE_1G + j * PAGE_SIZE_2M, 0x83) == LargeEntry(i * ENTRIES + j)
    {
      assert Pow2(8) == 0x100;
      OrDisjointIsSum(i * PAGE_SIZE_1G + j * PAGE_SIZE_2M, 0x83, 8);
    }

    static function LargeEntry(k: nat): nat { k * PAGE_SIZE_2M + 0x83 }

    /** Every entry of the finished tables. */
    ghost predicate Identity()
      requires Shaped()
      reads pml4Table, pdpTable, pageDirectory
    {
      && UpperTablesDone(PAGE_DIRECTORY_COUNT)
      && DirectoriesDone(PAGE_DIRECTORY_COUNT * ENTRIES)
    }

    /** What the processor reads as entry `index` of a table at a physical address. */
    ghost function Read(base: nat, index: nat): Option<uint64>
      requires Shaped() && index < ENTRIES
      reads pml4Table, pdpTable, pageDirectory
    {
      if base == pml4Base then Some(pml4Table[index])
      else if base == pdpBase then Some(pdpTable[index])
      else if InDirectories(base) && (base - directoryBase) % PAGE_SIZE_4K == 0
      then Some(pageDirectory[(base - directoryBase) / PAGE_SIZE_4K * ENTRIES + index])
      else None
    }

    /** The walk from CR3. The flag `nxe` is EFER.NXE: without it the execute-disable bit is reserved. */
    ghost function Walk(cr3: uint64, nxe: bool, address: uint64): Translation
      requires Shaped()
      reads pml4Table, pdpTable, pageDirectory
    {
      match Read(TableAddress(cr3), Pml4Index(address))
      case None => Malformed
      case Some(pml4e) =>
        if !Present(pml4e) then NotPresent
        else if LargePage(pml4e) || (ExecuteDisable(pml4e) && !nxe) then Malformed
        else
          match Read(TableAddress(pml4e), PdpIndex(address))
          case None => Malformed
          case Some(pdpte) =>
            if !Present(pdpte) then NotPresent
            else if LargePage(pdpte) || (ExecuteDisable(pdpte) && !nxe) then Malformed
            else
              match Read(TableAddress(pdpte), DirectoryIndex(address))
              case None => Malformed
              case Some(pde) =>
                if !Present(pde) then NotPresent
                else if !LargePage(pde) || !LargePageReservedClear(pde) || (ExecuteDisable(pde) && !nxe)
                then Malformed
                else Mapped(LargePageAddress(pde) + address % PAGE_SIZE_2M, Combined(pml4e, pdpte, pde))
    }

    /** An entry lets the kernel write, execute and cache what it leads to, and the user nothing. */
    static predicate KernelOnly(entry: uint64) {
      && Present(entry) && Writable(entry) && !User(entry)
      && !WriteThrough(entry) && !CacheDisable(entry) && !ExecuteDisable(entry)
    }

    lemma TableEntryFields(base: uint64)
      requires base % PAGE_SIZE_4K == 0 && base < PHYSICAL_LIMIT
      ensures var entry := base + 0x003;
              TableAddress(entry) == base && KernelOnly(entry) && !LargePage(entry)
    {
      EntryIsDecoded(base / 4096, 0x003, false);
    }

    static lemma LargeEntryFields(k: nat)
      requires k < PAGE_DIRECTORY_COUNT * ENTRIES
      ensures var entry := LargeEntry(k);
              && LargePageAddress(entry) == k * PAGE_SIZE_2M && LargePageReservedClear(entry)
              && KernelOnly(entry) && LargePage(entry) && !Global(entry) && !PageAttribute(entry)
    {
      EntryIsDecoded(k * 512, 0x83, false);
      PageOfFrame(k);
    }

    static lemma PageOfFrame(k: nat)
      ensures k * 512 / 512 == k && k * 512 % 2 == 0 && k * 512 / 2 % 256 == 0
    {
      assert k * 512 / 2 == k * 256;
      MultipleHasNoRemainder(k, 256);
    }

    static lemma BaseIsAddress(base: nat)
      requires base % PAGE_SIZE_4K == 0 && base < PHYSICAL_LIMIT
      ensures TableAddress(base) == base
    {}

    /**
     How the fields of every 64-bit entry are read: `low` are bits 8:0, `frame` bits 51:12, and bit 63 is
     set when `disabled` (section 4.5 of the manual).
     */
    static lemma EntryIsDecoded(frame: nat, low: nat, disabled: bool)
      requires frame < 0x100_0000_0000 && low < 0x200
      ensures var entry := frame * 4096 + low + if disabled then 0x8000_0000_0000_0000 else 0;
              && TableAddress(entry) == frame * 4096 && LargePageAddress(entry) == frame / 512 * 0x20_0000
              && (Present(entry) <==> low % 2 == 1) && (Writable(entry) <==> low / 2 % 2 == 1)
              && (User(entry) <==> low / 4 % 2 == 1) && (WriteThrough(entry) <==> low / 8 % 2 == 1)
              && (CacheDisable(entry) <==> low / 16 % 2 == 1) && (LargePage(entry) <==> low / 128 % 2 == 1)
              && (Global(entry) <==> low / 256 == 1) && (PageAttribute(entry) <==> frame % 2 == 1)
              && (LargePageReservedClear(entry) <==> frame / 2 % 256 == 0) && (ExecuteDisable(entry) <==> disabled)
    {
      var q := frame + if disabled then 0x8_0000_0000_0000 else 0;
      assert Pow2(12) == 4096;
      forall k: nat | k < 12
        ensures Bit(q * Pow2(12) + low, k) <==> Bit(low, k)
      {
        BitsBelowMultiple(q, low, k, 12);
      }
      LowBits(low);
      AddressFields(frame, low, disabled);
    }

    static lemma LowBits(low: nat)
      ensures (Bit(low, 0) <==> low % 2 == 1) && (Bit(low, 1) <==> low / 2 % 2 == 1)
      ensures (Bit(low, 2) <==> low / 4 % 2 == 1) && (Bit(low, 3) <==> low / 8 % 2 == 1)
      ensures (Bit(low, 4) <==> low / 16 % 2 == 1) && (Bit(low, 7) <==> low / 128 % 2 == 1)
      ensures low < 0x200 ==> (Bit(low, 8) <==> low / 256 == 1)
    {
      ShiftsDivide(low);
      ShiftReadsBit(low, 0);
      ShiftReadsBit(low, 1);
      ShiftReadsBit(low, 2);
      ShiftReadsBit(low, 3);
      ShiftReadsBit(low, 4);
      ShiftReadsBit(low, 7);
      ShiftReadsBit(low, 8);
    }

    static lemma ShiftsDivide(x: nat)
      ensures ShiftRight(x, 0) == x && ShiftRight(x, 1) == x / 2 && ShiftRight(x, 2) == x / 4
      ensures ShiftRight(x, 3) == x / 8 && ShiftRight(x, 4) == x / 16
      ensures ShiftRight(x, 7) == x / 128 && ShiftRight(x, 8) == x / 256
    {
      ShiftOnce(x, 1);
      ShiftOnce(x, 2);
      ShiftOnce(x, 3);
      ShiftOnce(x, 4);
      ShiftOnce(x, 5);
      ShiftOnce(x, 6);
      ShiftOnce(x, 7);
      assert ShiftRight(x, 5) == x / 32 && ShiftRight(x, 6) == x / 64;
    }

    static lemma AddressFields(frame: nat, low: nat, disabled: bool)
      requires frame < 0x100_0000_0000 && low < 0x200
      ensures var entry := frame * 4096 + low + if disabled then 0x8000_0000_0000_0000 else 0;
              && TableAddress(entry) == frame * 4096 && LargePageAddress(entry) == frame / 512 * 0x20_0000
              && (PageAttribute(entry) <==> frame % 2 == 1)
              && (LargePageReservedClear(entry) <==> frame / 2 % 256 == 0) && (ExecuteDisable(entry) <==> disabled)
    {
      var entry := frame * 4096 + low + if disabled then 0x8000_0000_0000_0000 else 0;
      var q := frame + if disabled then 0x8_0000_0000_0000 else 0;
      FrameNumber(q, low);
      HighFrames(frame, disabled);
      assert entry == q * 4096 + low;
    }

    static lemma FrameNumber(q: nat, low: nat)
      requires low < 0x200
      ensures (q * 4096 + low) / 4096 == q
      ensures (q * 4096 + low) / 0x2000 == q / 2
      ensures (q * 4096 + low) / 0x20_0000 == q / 512
    {}

    static lemma HighFrames(frame: nat, disabled: bool)
      requires frame < 0x100_0000_0000
      ensures var q := frame + if disabled then 0x8_0000_0000_0000 else 0;
              && q % 0x100_0000_0000 == frame && q / 512 % 0x8000_0000 == frame / 512
              && q % 2 == frame % 2 && q / 2 % 256 == frame / 2 % 256
    {
      if disabled {
        var q := frame + 0x8_0000_0000_0000;
        QuotientAndRemainder(0x800, frame, 0x100_0000_0000);
        assert q / 512 == frame / 512 + 0x400_0000_0000;
        QuotientAndRemainder(0x800, frame / 512, 0x8000_0000);
        HalfFrame(frame);
      }
    }

    static lemma HalfFrame(frame: nat)
      ensures var q := frame + 0x8_0000_0000_0000;
              q % 2 == frame % 2 && q / 2 == frame / 2 + 0x4_0000_0000_0000 && q / 2 % 256 == frame / 2 % 256
    {}

    /**
     The walk over the finished tables, for every canonical address: below 64 GiB the address
     itself, writable, executable, cached and not for user mode; from there on, no page.
     */
    lemma WalkIsIdentity(nxe: bool, address: uint64)
      requires Shaped() && Placed() && Identity() && Canonical(address)
      ensures Walk(pml4Base, nxe, address) ==
              if address < 0x10_0000_0000 then Mapped(address, KernelPage()) else NotPresent
    {
      if address < MAPPED_BYTES {
        MappedBelow64GiB(nxe, address);
      } else {
        NothingFrom64GiB(nxe, address);
      }
    }

    static lemma IndicesBelow64GiB(address: uint64)
      requires address < MAPPED_BYTES
      ensures Pml4Index(address) == 0 && PdpIndex(address) < PAGE_DIRECTORY_COUNT
      ensures PdpIndex(address) * ENTRIES + DirectoryIndex(address) == address / PAGE_SIZE_2M
    {}

    static lemma IndicesFrom64GiB(address: uint64)
      requires Canonical(address) && MAPPED_BYTES <= address
      ensures Pml4Index(address) == 0 ==> PdpIndex(address) >= PAGE_DIRECTORY_COUNT
    {}

    lemma NothingFrom64GiB(nxe: bool, address: uint64)
      requires Shaped() && Placed() && Identity() && Canonical(address) && MAPPED_BYTES <= address
      ensures Walk(pml4Base, nxe, address) == NotPresent
    {
      assert !Present(0);
      BaseIsAddress(pml4Base);
      IndicesFrom64GiB(address);
      if Pml4Index(address) == 0 {
        TableEntryFields(pdpBase);
      }
    }

    lemma MappedBelow64GiB(nxe: bool, address: uint64)
      requires Shaped() && Placed() && Identity() && address < MAPPED_BYTES
      ensures Walk(pml4Base, nxe, address) == Mapped(address, KernelPage())
    {
      var i, j := PdpIndex(address), DirectoryIndex(address);
      IndicesBelow64GiB(address);
      BaseIsAddress(pml4Base);
      TableEntryFields(pdpBase);
      DirectoryIsRead(i, j);
      LargeEntryFields(i * ENTRIES + j);
    }

    lemma DirectoryIsRead(i: nat, j: nat)
      requires Shaped() && Placed() && Identity() && i < PAGE_DIRECTORY_COUNT && j < ENTRIES
      ensures var pdpte := pdpTable[i];
              && KernelOnly(pdpte) && !LargePage(pdpte)
              && Read(TableAddress(pdpte), j) == Some(LargeEntry(i * ENTRIES + j))
    {
      DirectoryIsAligned(i);
      TableEntryFields(directoryBase + i * PAGE_SIZE_4K);
      MultipleHasNoRemainder(i, PAGE_SIZE_4K);
      assert InDirectories(directoryBase + i * PAGE_SIZE_4K);
    }
  }
}
