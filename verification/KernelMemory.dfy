/**
 Memory set-up in KernelMain (kernel/kernel.cpp): the scan, the allocator's range and the heap,
 and what they guarantee together to everything allocated afterwards.
 */
module KernelMemory {
  import opened Machine
  import opened Frames
  import opened MemoryManager
  import opened BootScan
  import opened ProgramBreak

  const HEAP_FRAMES: uint64 := 64 * 512

  method InitializeHeap(mm: BitmapMemoryManager, brk: NewlibBreak) returns (error: Error)
    requires mm.Valid()
    modifies mm.allocMap, mm`probed, brk
    ensures mm.Abstract() == Apply(old(mm.Abstract()), AllocateOp(HEAP_FRAMES))
    ensures match Place(old(mm.Abstract()), HEAP_FRAMES)
            case None => error == NoEnoughMemory && brk.State() == old(brk.State())
            case Some(s) =>
              error == Success && brk.programBreak == s * 4096 && brk.programBreakEnd == s * 4096 + 0x800_0000
  {
    ghost var a := mm.Abstract();
    var heapStart := mm.Allocate(HEAP_FRAMES);
    if heapStart.error != Success {
      return heapStart.error;
    }
    PlacedRunWasFree(a, HEAP_FRAMES, heapStart.value);
    brk.programBreak := heapStart.value * BYTES_PER_FRAME;
    brk.programBreakEnd := brk.programBreak + HEAP_FRAMES * BYTES_PER_FRAME;
    return Success;
  }

  /** The allocator that the scan leaves behind, when the bitmap's memory already marked `initial`. */
  ghost function Scanned(initial: set<nat>, memoryMap: seq<Descriptor>, step: nat): Allocator
    requires step > 0
  {
    Allocator(initial + ScanMarks(memoryMap, step, |memoryMap|),
              1,
              AvailableEnd(memoryMap, step, |memoryMap|) / BYTES_PER_FRAME)
  }

  method SetUpMemory(memory: array<uint64>, memoryMap: seq<Descriptor>, step: nat, brk: NewlibBreak)
    returns (mm: BitmapMemoryManager, error: Error)
    requires memory.Length == 524288 && step > 0 && Scannable(memoryMap, step)
    modifies memory, brk
    ensures mm.allocMap == memory && mm.Valid()
    ensures mm.Abstract() ==
              Apply(Scanned(MarkedFrames(old(memory[..])), memoryMap, step), AllocateOp(HEAP_FRAMES))
    ensures match Place(Scanned(MarkedFrames(old(memory[..])), memoryMap, step), HEAP_FRAMES)
            case None => error == NoEnoughMemory && brk.State() == old(brk.State())
            case Some(s) =>
              error == Success && HeapAt(brk.State(), MarkedFrames(old(memory[..])), memoryMap, step, s)
  {
    mm := new BitmapMemoryManager(memory);
    var availableEnd := ScanMemoryMap(mm, memoryMap, step);
    error := InitializeHeap(mm, brk);
  }

  /** The run [s, s + n) lies above frame 0, in visited available descriptors, clear of visited
      unavailable ones and of what was marked before the scan. */
  ghost predicate SafeRun(initial: set<nat>, memoryMap: seq<Descriptor>, step: nat, s: nat, n: nat)
    requires step > 0
  {
    forall f :: f in Interval(s, n) ==>
      && f > 0
      && f !in initial
      && Usable(memoryMap, step, |memoryMap|, f)
      && !Occupied(memoryMap, step, |memoryMap|, f)
  }

  /**
   Safety of every run: whatever is allocated, freed and marked after the scan, every run that
   Allocate returns is safe and clear of all that earlier operations were given, freed or marked, for
   every page-aligned memory map in any order and every step.
   */
  lemma EveryGrantIsSafe(initial: set<nat>, memoryMap: seq<Descriptor>, step: nat,
                         ops: seq<Op>, i: nat, s: nat, n: nat)
    requires step > 0 && Scannable(memoryMap, step)
    requires n > 0 && Frames.Granted(Scanned(initial, memoryMap, step), ops, i, s, n)
    ensures SafeRun(initial, memoryMap, step, s, n)
    ensures s + n <= AvailableEnd(memoryMap, step, |memoryMap|) / BYTES_PER_FRAME
    ensures forall k: nat, f :: k < i && f in Interval(s, n) ==> !Took(Scanned(initial, memoryMap, step), ops, k, f)
  {
    var a := Scanned(initial, memoryMap, step);
    MarksOnlyGrow(a, ops, 0, i);
    PlacedRunWasFree(Frames.After(a, ops, i), n, s);
    forall f | f in Interval(s, n)
      ensures f > 0 && f !in initial
      ensures Usable(memoryMap, step, |memoryMap|, f) && !Occupied(memoryMap, step, |memoryMap|, f)
      ensures forall k: nat :: k < i ==> !Took(a, ops, k, f)
    {
      assert f !in a.marked;
      MarkedIffTaken(a, ops, i, f);
      ScanIsSafe(memoryMap, step, |memoryMap|, f);
    }
  }

  /** The heap's byte range as SetUpMemory sets it, when it succeeds: 128 MiB. */
  ghost predicate HeapAt(b: Break, initial: set<nat>, memoryMap: seq<Descriptor>, step: nat, s: nat)
    requires step > 0
  {
    && Place(Scanned(initial, memoryMap, step), HEAP_FRAMES) == Some(s)
    && b.at == s * 4096
    && b.limit == s * 4096 + 0x800_0000
  }

  /** The heap is safe, its base is not null, and no later allocation of any run touches it. */
  lemma HeapIsSafeForEver(b: Break, initial: set<nat>, memoryMap: seq<Descriptor>, step: nat, h: nat,
                          ops: seq<Op>, i: nat, s: nat, n: nat)
    requires step > 0 && Scannable(memoryMap, step) && HeapAt(b, initial, memoryMap, step, h)
    ensures SafeRun(initial, memoryMap, step, h, HEAP_FRAMES) && HeapInPlace(b)
    ensures (h + HEAP_FRAMES) * BYTES_PER_FRAME <= AvailableEnd(memoryMap, step, |memoryMap|)
    ensures var booted := Apply(Scanned(initial, memoryMap, step), AllocateOp(HEAP_FRAMES));
            Frames.Granted(booted, ops, i, s, n) ==> Interval(h, HEAP_FRAMES) !! Interval(s, n)
  {
    var a := Scanned(initial, memoryMap, step);
    var booted := Apply(a, AllocateOp(HEAP_FRAMES));
    AvailableEndIsAligned(memoryMap, step, |memoryMap|);
    EveryGrantIsSafe(initial, memoryMap, step, [AllocateOp(HEAP_FRAMES)], 0, h, HEAP_FRAMES);
    assert h in Interval(h, HEAP_FRAMES);
    if Frames.Granted(booted, ops, i, s, n) && n > 0 {
      MarksOnlyGrow(booted, ops, 0, i);
      PlacedRunWasFree(Frames.After(booted, ops, i), n, s);
    } else if n == 0 {
      assert Interval(s, n) == {};
    }
  }

  /**
   On a sorted map and a zeroed bitmap the heap is found exactly when the visited available
   descriptors hold 32768 consecutive frames above frame 0, and it is the lowest such run.
   */
  lemma HeapFoundIff(memoryMap: seq<Descriptor>, step: nat, s: nat)
    requires step > 0 && Scannable(memoryMap, step) && Sorted(memoryMap)
    ensures Place(Scanned({}, memoryMap, step), HEAP_FRAMES) == Some(s) <==>
              && UsableRun(memoryMap, step, s)
              && forall t :: 0 <= t < s ==> !UsableRun(memoryMap, step, t)
    ensures Place(Scanned({}, memoryMap, step), HEAP_FRAMES) == None <==>
              forall t :: !UsableRun(memoryMap, step, t)
  {
    var a := Scanned({}, memoryMap, step);
    forall t: nat
      ensures t > 0 && Fits(a, HEAP_FRAMES, t) <==> UsableRun(memoryMap, step, t)
    {
      FitsIffUsable(memoryMap, step, t);
    }
    FirstFitIsLeast(a, 1, HEAP_FRAMES);
  }

  /** 32768 consecutive frames from s, above frame 0, all in visited available descriptors. */
  ghost predicate UsableRun(memoryMap: seq<Descriptor>, step: nat, s: nat)
    requires step > 0
  {
    s > 0 && forall f :: s <= f < s + 32768 ==> Usable(memoryMap, step, |memoryMap|, f)
  }

  lemma FitsIffUsable(memoryMap: seq<Descriptor>, step: nat, t: nat)
    requires step > 0 && Scannable(memoryMap, step) && Sorted(memoryMap)
    ensures t > 0 && Fits(Scanned({}, memoryMap, step), HEAP_FRAMES, t) <==> UsableRun(memoryMap, step, t)
  {
    var a := Scanned({}, memoryMap, step);
    AvailableEndIsAligned(memoryMap, step, |memoryMap|);
    forall f: nat
      ensures f !in a.marked && f < a.end <==> Usable(memoryMap, step, |memoryMap|, f)
    {
      KeptIffUsable(memoryMap, step, f);
    }
    if UsableRun(memoryMap, step, t) {
      assert Usable(memoryMap, step, |memoryMap|, t + HEAP_FRAMES - 1);
    }
    if Fits(a, HEAP_FRAMES, t) {
      assert forall f :: t <= f < t + HEAP_FRAMES ==> f in Interval(t, HEAP_FRAMES);
    }
  }

  /** The whole heap is refused by one byte: of its 128 MiB a first request gets all but the last. */
  lemma WholeHeapIsRefused(b: Break, initial: set<nat>, memoryMap: seq<Descriptor>, step: nat, h: nat)
    requires step > 0 && Scannable(memoryMap, step) && HeapAt(b, initial, memoryMap, step, h)
    ensures Refuses(b, 0x800_0000) && !Refuses(b, 0x7ff_ffff)
  {
    HeapIsSafeForEver(b, initial, memoryMap, step, h, [], 0, 0, 0);
    FittingRequestIsServedIff(b, 0x800_0000);
    FittingRequestIsServedIff(b, 0x7ff_ffff);
  }
}
