/**
 The scan of the firmware's memory map in KernelMain (kernel/kernel.cpp) that marks everything the
 allocator must not hand out. `step` is the number of descriptors the scan advances by: 2 as the
 source writes it (its iterator is advanced in the loop body and again in the loop header), 1 if
 every descriptor were visited. The theorems hold for every step unless they name one.
 */
module BootScan {
  import opened Machine
  import Bits
  import opened Frames
  import opened MemoryManager

  const UEFI_PAGE_SIZE := 4096

  const STEP_AS_WRITTEN: nat := 2

  const BOOT_SERVICES_CODE: uint32 := 3
  const BOOT_SERVICES_DATA: uint32 := 4
  const CONVENTIONAL_MEMORY: uint32 := 7

  datatype Descriptor = Descriptor(kind: uint32, physicalStart: uint64, numberOfPages: uint64)

  predicate IsAvailable(kind: uint32) {
    kind == BOOT_SERVICES_CODE || kind == BOOT_SERVICES_DATA || kind == CONVENTIONAL_MEMORY
  }

  function PhysicalEnd(d: Descriptor): nat {
    d.physicalStart + d.numberOfPages * UEFI_PAGE_SIZE
  }

  /** The 4 KiB frame f lies wholly inside the descriptor. */
  predicate Covers(d: Descriptor, f: nat) {
    d.physicalStart <= f * BYTES_PER_FRAME && (f + 1) * BYTES_PER_FRAME <= PhysicalEnd(d)
  }

  predicate Visited(i: nat, step: nat)
    requires step > 0
  {
    i % step == 0
  }

  /** What the scan needs of the map: page-aligned, and what it visits fits the bitmap. */
  ghost predicate Scannable(memoryMap: seq<Descriptor>, step: nat)
    requires step > 0
  {
    forall i :: 0 <= i < |memoryMap| && Visited(i, step) ==>
      && memoryMap[i].physicalStart % UEFI_PAGE_SIZE == 0
      && PhysicalEnd(memoryMap[i]) <= 0x20_0000_0000  // 128 GiB
  }

  /** Ascending descriptors that do not overlap. */
  ghost predicate Sorted(memoryMap: seq<Descriptor>) {
    forall i, j :: 0 <= i < j < |memoryMap| ==> PhysicalEnd(memoryMap[i]) <= memoryMap[j].physicalStart
  }

  /** Frame f lies in a visited available descriptor among the first k. */
  ghost predicate Usable(memoryMap: seq<Descriptor>, step: nat, k: nat, f: nat)
    requires step > 0 && k <= |memoryMap|
  {
    exists i :: 0 <= i < k && Visited(i, step) && IsAvailable(memoryMap[i].kind) && Covers(memoryMap[i], f)
  }

  /** Frame f lies in a visited descriptor, among the first k, that is not available. */
  ghost predicate Occupied(memoryMap: seq<Descriptor>, step: nat, k: nat, f: nat)
    requires step > 0 && k <= |memoryMap|
  {
    exists i :: 0 <= i < k && Visited(i, step) && !IsAvailable(memoryMap[i].kind) && Covers(memoryMap[i], f)
  }

  // ----- the scan as a function of the first k descriptors

  /** The variable `available_end`: the end of the last visited available descriptor. */
  function AvailableEnd(memoryMap: seq<Descriptor>, step: nat, k: nat): nat
    requires step > 0 && k <= |memoryMap|
  {
    if k == 0 then 0
    else if Visited(k - 1, step) && IsAvailable(memoryMap[k - 1].kind) then PhysicalEnd(memoryMap[k - 1])
    else AvailableEnd(memoryMap, step, k - 1)
  }

  /** The frames marked: the gap before each visited descriptor, and the unavailable ones. */
  ghost function ScanMarks(memoryMap: seq<Descriptor>, step: nat, k: nat): set<nat>
    requires step > 0 && k <= |memoryMap|
  {
    if k == 0 then {}
    else if !Visited(k - 1, step) then ScanMarks(memoryMap, step, k - 1)
    else ScanMarks(memoryMap, step, k - 1)
         + (GapBefore(AvailableEnd(memoryMap, step, k - 1), memoryMap[k - 1])
            + Refused(memoryMap[k - 1]))
  }

  ghost function GapBefore(availableEnd: nat, d: Descriptor): set<nat> {
    if availableEnd < d.physicalStart
    then Interval(availableEnd / BYTES_PER_FRAME, (d.physicalStart - availableEnd) / BYTES_PER_FRAME)
    else {}
  }

  ghost function Refused(d: Descriptor): set<nat> {
    if IsAvailable(d.kind) then {}
    else Interval(d.physicalStart / BYTES_PER_FRAME, d.numberOfPages * UEFI_PAGE_SIZE / BYTES_PER_FRAME)
  }

  method ScanMemoryMap(mm: BitmapMemoryManager, memoryMap: seq<Descriptor>, step: nat)
    returns (availableEnd: uint64)
    requires mm.Valid() && step > 0 && Scannable(memoryMap, step)
    modifies mm.allocMap, mm`rangeBegin, mm`rangeEnd
    ensures mm.Valid()
    ensures availableEnd == AvailableEnd(memoryMap, step, |memoryMap|)
    ensures mm.Marked() == old(mm.Marked()) + ScanMarks(memoryMap, step, |memoryMap|)
    ensures mm.rangeBegin == 1 && mm.rangeEnd == availableEnd / BYTES_PER_FRAME
  {
    availableEnd := 0;
    var pos := 0;
    while pos < |memoryMap|
      invariant Visited(pos, step) && mm.Valid()
      invariant availableEnd == AvailableEnd(memoryMap, step, Seen(memoryMap, pos))
      invariant availableEnd <= FRAME_COUNT * BYTES_PER_FRAME
      invariant mm.Marked() == old(mm.Marked()) + ScanMarks(memoryMap, step, Seen(memoryMap, pos))
    {
      OnePass(memoryMap, step, pos);
      availableEnd := VisitDescriptor(mm, memoryMap[pos], availableEnd);
      pos := pos + step;
    }
    mm.SetMemoryRange(1, availableEnd / BYTES_PER_FRAME);
  }

  /** The loop body: marks the gap before the descriptor, and the descriptor if it is unavailable. */
  method VisitDescriptor(mm: BitmapMemoryManager, desc: Descriptor, availableEnd: uint64)
    returns (newEnd: uint64)
    requires mm.Valid()
    requires PhysicalEnd(desc) <= FRAME_COUNT * BYTES_PER_FRAME
    modifies mm.allocMap
    ensures newEnd == if IsAvailable(desc.kind) then PhysicalEnd(desc) else availableEnd
    ensures mm.Marked() == old(mm.Marked()) + (GapBefore(availableEnd, desc) + Refused(desc))
  {
    if availableEnd < desc.physicalStart {
      mm.MarkAllocated(availableEnd / BYTES_PER_FRAME,
                       (desc.physicalStart - availableEnd) / BYTES_PER_FRAME);
    }
    var physicalEnd: uint64 := desc.physicalStart + desc.numberOfPages * UEFI_PAGE_SIZE;
    if IsAvailable(desc.kind) {
      return physicalEnd;
    } else {
      mm.MarkAllocated(desc.physicalStart / BYTES_PER_FRAME,
                       desc.numberOfPages * UEFI_PAGE_SIZE / BYTES_PER_FRAME);
      return availableEnd;
    }
  }

  /** How many descriptors lie before position pos. */
  ghost function Seen(memoryMap: seq<Descriptor>, pos: nat): nat {
    if pos <= |memoryMap| then pos else |memoryMap|
  }

  /** One pass of the loop, on the functions. */
  lemma OnePass(memoryMap: seq<Descriptor>, step: nat, pos: nat)
    requires step > 0 && pos < |memoryMap| && Visited(pos, step)
    ensures Visited(pos + step, step)
    ensures var d, before := memoryMap[pos], AvailableEnd(memoryMap, step, pos);
            var k := Seen(memoryMap, pos + step);
            && AvailableEnd(memoryMap, step, k) == (if IsAvailable(d.kind) then PhysicalEnd(d) else before)
            && ScanMarks(memoryMap, step, k)
               == ScanMarks(memoryMap, step, pos) + (GapBefore(before, d) + Refused(d))
  {
    NextVisited(pos, step);
    NothingVisitedBetween(memoryMap, step, pos + 1, Seen(memoryMap, pos + step));
  }

  lemma NextVisited(pos: nat, step: nat)
    requires step > 0 && Visited(pos, step)
    ensures Visited(pos + step, step)
    ensures forall i :: pos < i < pos + step ==> !Visited(i, step)
  {
    var q := pos / step;
    assert pos == q * step;
    assert pos + step == (q + 1) * step;
    Bits.QuotientAndRemainder(q + 1, 0, step);
    forall i | pos < i < pos + step
      ensures !Visited(i, step)
    {
      Bits.QuotientAndRemainder(q, i - pos, step);
    }
  }

  lemma {:induction false} NothingVisitedBetween(memoryMap: seq<Descriptor>, step: nat, lo: nat, hi: nat)
    requires step > 0 && lo <= hi <= |memoryMap|
    requires forall i :: lo <= i < hi ==> !Visited(i, step)
    ensures AvailableEnd(memoryMap, step, hi) == AvailableEnd(memoryMap, step, lo)
    ensures ScanMarks(memoryMap, step, hi) == ScanMarks(memoryMap, step, lo)
  {
    if lo < hi {
      NothingVisitedBetween(memoryMap, step, lo, hi - 1);
    }
  }

  // ----- what the scan guarantees

  /**
   Safety, for every page-aligned map in any order and with any overlaps: a frame below the final
   `available_end` that the scan leaves unmarked lies in a visited available descriptor, and no
   unmarked frame at all lies in a visited descriptor of another kind.
   */
  lemma {:induction false} ScanIsSafe(memoryMap: seq<Descriptor>, step: nat, k: nat, f: nat)
    requires step > 0 && k <= |memoryMap| && Scannable(memoryMap, step)
    requires f !in ScanMarks(memoryMap, step, k)
    ensures (f + 1) * BYTES_PER_FRAME <= AvailableEnd(memoryMap, step, k) ==> Usable(memoryMap, step, k, f)
    ensures !Occupied(memoryMap, step, k, f)
  {
    if k > 0 {
      var d := memoryMap[k - 1];
      AvailableEndIsAligned(memoryMap, step, k - 1);
      ScanIsSafe(memoryMap, step, k - 1, f);
      if Visited(k - 1, step) {
        MarksOfOneDescriptor(AvailableEnd(memoryMap, step, k - 1), d, f);
      }
    }
  }

  /** The marks made for one descriptor, in bytes. */
  lemma MarksOfOneDescriptor(availableEnd: nat, d: Descriptor, f: nat)
    requires availableEnd % BYTES_PER_FRAME == 0 && d.physicalStart % UEFI_PAGE_SIZE == 0
    ensures f in GapBefore(availableEnd, d) <==>
              availableEnd <= f * BYTES_PER_FRAME && (f + 1) * BYTES_PER_FRAME <= d.physicalStart
    ensures f in Refused(d) <==> !IsAvailable(d.kind) && Covers(d, f)
  {}

  lemma {:induction false} AvailableEndIsAligned(memoryMap: seq<Descriptor>, step: nat, k: nat)
    requires step > 0 && k <= |memoryMap| && Scannable(memoryMap, step)
    ensures AvailableEnd(memoryMap, step, k) % BYTES_PER_FRAME == 0
    ensures AvailableEnd(memoryMap, step, k) <= FRAME_COUNT * BYTES_PER_FRAME
  {
    if k > 0 { AvailableEndIsAligned(memoryMap, step, k - 1); }
  }

  /** The end of the last visited descriptor of any kind. */
  function Top(memoryMap: seq<Descriptor>, step: nat, k: nat): nat
    requires step > 0 && k <= |memoryMap|
  {
    if k == 0 then 0
    else if Visited(k - 1, step) then PhysicalEnd(memoryMap[k - 1])
    else Top(memoryMap, step, k - 1)
  }

  /** On a sorted map the scan moves upwards. */
  lemma {:induction false} ScanAscends(memoryMap: seq<Descriptor>, step: nat, k: nat)
    requires step > 0 && k <= |memoryMap| && Sorted(memoryMap)
    ensures AvailableEnd(memoryMap, step, k) <= Top(memoryMap, step, k)
    ensures forall j :: k <= j < |memoryMap| ==> Top(memoryMap, step, k) <= memoryMap[j].physicalStart
  {
    if k > 0 { ScanAscends(memoryMap, step, k - 1); }
  }

  /** Adding one descriptor to those seen. */
  lemma UsableStep(memoryMap: seq<Descriptor>, step: nat, k: nat, f: nat)
    requires step > 0 && 0 < k <= |memoryMap|
    ensures Usable(memoryMap, step, k, f) <==>
              || Usable(memoryMap, step, k - 1, f)
              || (Visited(k - 1, step) && IsAvailable(memoryMap[k - 1].kind) && Covers(memoryMap[k - 1], f))
  {}

  /** On a sorted map every usable frame lies below `available_end`. */
  lemma {:induction false} UsableIsBelowEnd(memoryMap: seq<Descriptor>, step: nat, k: nat, f: nat)
    requires step > 0 && k <= |memoryMap| && Sorted(memoryMap)
    requires Usable(memoryMap, step, k, f)
    ensures (f + 1) * BYTES_PER_FRAME <= AvailableEnd(memoryMap, step, k)
  {
    UsableStep(memoryMap, step, k, f);
    ScanAscends(memoryMap, step, k - 1);
    if Usable(memoryMap, step, k - 1, f) {
      UsableIsBelowEnd(memoryMap, step, k - 1, f);
    }
  }

  /**
   On a sorted map the marks are exactly the frames below the last visited end that no visited
   available descriptor contains.
   */
  lemma {:induction false} ScanIsExact(memoryMap: seq<Descriptor>, step: nat, k: nat, f: nat)
    requires step > 0 && k <= |memoryMap| && Scannable(memoryMap, step) && Sorted(memoryMap)
    ensures f in ScanMarks(memoryMap, step, k) <==>
              (f + 1) * BYTES_PER_FRAME <= Top(memoryMap, step, k) && !Usable(memoryMap, step, k, f)
  {
    if k > 0 {
      ScanIsExact(memoryMap, step, k - 1, f);
      UsableStep(memoryMap, step, k, f);
      if Visited(k - 1, step) {
        AvailableEndIsAligned(memoryMap, step, k - 1);
        ScanAscends(memoryMap, step, k - 1);
        if Usable(memoryMap, step, k - 1, f) {
          UsableIsBelowEnd(memoryMap, step, k - 1, f);
        }
        ExactForOneDescriptor(AvailableEnd(memoryMap, step, k - 1), Top(memoryMap, step, k - 1),
                              memoryMap[k - 1], f, f in ScanMarks(memoryMap, step, k - 1),
                              Usable(memoryMap, step, k - 1, f));
      }
    }
  }

  lemma ExactForOneDescriptor(availableEnd: nat, top: nat, d: Descriptor, f: nat, marked: bool, usable: bool)
    requires availableEnd % BYTES_PER_FRAME == 0 && d.physicalStart % UEFI_PAGE_SIZE == 0
    requires availableEnd <= top <= d.physicalStart
    requires usable ==> (f + 1) * BYTES_PER_FRAME <= availableEnd
    requires marked <==> (f + 1) * BYTES_PER_FRAME <= top && !usable
    ensures marked || f in GapBefore(availableEnd, d) || f in Refused(d) <==>
              && (f + 1) * BYTES_PER_FRAME <= PhysicalEnd(d)
              && !usable && !(IsAvailable(d.kind) && Covers(d, f))
  {}

  // ----- what the scan loses

  /** The frame is left for the allocator: unmarked and below `available_end`. */
  ghost predicate Kept(memoryMap: seq<Descriptor>, step: nat, f: nat)
    requires step > 0
  {
    && f !in ScanMarks(memoryMap, step, |memoryMap|)
    && (f + 1) * BYTES_PER_FRAME <= AvailableEnd(memoryMap, step, |memoryMap|)
  }

  /**
   The frame lies in a descriptor of boot services code (3), boot services data (4) or conventional
   memory (7), visited or not: the numbers are those of section 7.2 of the UEFI Specification.
   */
  ghost predicate InAvailable(memoryMap: seq<Descriptor>, f: nat) {
    exists i :: 0 <= i < |memoryMap| && memoryMap[i].kind in {3, 4, 7} && HoldsPage(memoryMap[i], f * 4096)
  }

  /** The 4096 bytes from `address` on lie in the descriptor. */
  predicate HoldsPage(d: Descriptor, address: nat) {
    d.physicalStart <= address && address + 4096 <= d.physicalStart + d.numberOfPages * 4096
  }

  lemma KeptIffUsable(memoryMap: seq<Descriptor>, step: nat, f: nat)
    requires step > 0 && Scannable(memoryMap, step) && Sorted(memoryMap)
    ensures Kept(memoryMap, step, f) <==> Usable(memoryMap, step, |memoryMap|, f)
  {
    var k := |memoryMap|;
    ScanIsExact(memoryMap, step, k, f);
    ScanAscends(memoryMap, step, k);
    if Usable(memoryMap, step, k, f) {
      UsableIsBelowEnd(memoryMap, step, k, f);
    }
  }

  /** The available descriptor i holds at least one frame and is never visited. */
  ghost predicate Overlooked(memoryMap: seq<Descriptor>, step: nat, i: nat)
    requires step > 0
  {
    && i < |memoryMap|
    && IsAvailable(memoryMap[i].kind)
    && memoryMap[i].numberOfPages > 0
    && !Visited(i, step)
  }

  /**
   The scan keeps every frame of every available descriptor exactly when it overlooks no available
   descriptor. A page-aligned start is asked of all descriptors here, visited or not.
   */
  lemma NothingLostIffNothingOverlooked(memoryMap: seq<Descriptor>, step: nat)
    requires step > 0 && Scannable(memoryMap, step) && Sorted(memoryMap)
    requires forall i :: 0 <= i < |memoryMap| ==> memoryMap[i].physicalStart % UEFI_PAGE_SIZE == 0
    ensures (forall f: nat :: InAvailable(memoryMap, f) ==> Kept(memoryMap, step, f))
            <==> (forall i: nat :: !Overlooked(memoryMap, step, i))
  {
    if i: nat :| Overlooked(memoryMap, step, i) {
      var f := memoryMap[i].physicalStart / BYTES_PER_FRAME;
      assert Covers(memoryMap[i], f) && HoldsPage(memoryMap[i], f * 4096) && InAvailable(memoryMap, f);
      KeptIffUsable(memoryMap, step, f);
      OnlyOneCovers(memoryMap, i, f);
    } else {
      forall f: nat | InAvailable(memoryMap, f)
        ensures Kept(memoryMap, step, f)
      {
        var i: nat :| i < |memoryMap| && memoryMap[i].kind in {3, 4, 7} && HoldsPage(memoryMap[i], f * 4096);
        assert IsAvailable(memoryMap[i].kind) && Covers(memoryMap[i], f);
        assert !Overlooked(memoryMap, step, i);
        KeptIffUsable(memoryMap, step, f);
      }
    }
  }

  lemma OnlyOneCovers(memoryMap: seq<Descriptor>, i: nat, f: nat)
    requires Sorted(memoryMap) && i < |memoryMap| && Covers(memoryMap[i], f)
    ensures forall j :: 0 <= j < |memoryMap| && Covers(memoryMap[j], f) ==> j == i
  {}

  /** With every descriptor visited, exactly the frames of available descriptors are kept. */
  lemma SingleStepKeepsEverything(memoryMap: seq<Descriptor>, f: nat)
    requires Scannable(memoryMap, 1) && Sorted(memoryMap)
    ensures Kept(memoryMap, 1, f) <==> InAvailable(memoryMap, f)
  {
    KeptIffUsable(memoryMap, 1, f);
    forall i | 0 <= i < |memoryMap|
      ensures Visited(i, 1) && IsAvailable(memoryMap[i].kind) && Covers(memoryMap[i], f)
              <==> memoryMap[i].kind in {3, 4, 7} && HoldsPage(memoryMap[i], f * 4096)
    {}
  }

  /** A concrete loss of the scan as written: of three adjacent available regions the second is lost. */
  lemma SecondRegionIsLost()
    ensures var memoryMap := [Descriptor(7, 0, 2), Descriptor(7, 8192, 2), Descriptor(7, 16384, 2)];
            && InAvailable(memoryMap, 1) && Kept(memoryMap, STEP_AS_WRITTEN, 1)
            && InAvailable(memoryMap, 2) && !Kept(memoryMap, STEP_AS_WRITTEN, 2)
            && InAvailable(memoryMap, 4) && Kept(memoryMap, STEP_AS_WRITTEN, 4)
  {
    var memoryMap := [Descriptor(7, 0, 2), Descriptor(7, 8192, 2), Descriptor(7, 16384, 2)];
    assert HoldsPage(memoryMap[0], 4096) && HoldsPage(memoryMap[1], 8192) && HoldsPage(memoryMap[2], 16384);
    assert Covers(memoryMap[0], 1) && Covers(memoryMap[1], 2) && Covers(memoryMap[2], 4);
    assert Visited(0, 2) && !Visited(1, 2) && Visited(2, 2);
    KeptIffUsable(memoryMap, 2, 1);
    KeptIffUsable(memoryMap, 2, 2);
    KeptIffUsable(memoryMap, 2, 4);
  }

  /** A map of one region of 256 MiB: the scan offers all of it or nothing, by its type alone. */
  lemma TypeDecides(kind: uint32)
    ensures AvailableEnd([Descriptor(kind, 0, 0x1_0000)], STEP_AS_WRITTEN, 1) ==
              if kind in {3, 4, 7} then 0x1000_0000 else 0
  {
    assert AvailableEnd([Descriptor(kind, 0, 0x1_0000)], STEP_AS_WRITTEN, 0) == 0;
  }
}
