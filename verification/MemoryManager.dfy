/**
 The bitmap frame allocator (kernel/memory_manager.cpp). One bit of `allocMap` per 4 KiB frame;
 a set bit marks the frame. `Abstract` is the set-based allocator that the class refines.
 */
module MemoryManager {
  import opened Machine
  import opened Bits
  import opened Frames

  const BYTES_PER_FRAME := 4096
  const FRAME_COUNT := 33554432  // 128 GiB of 4 KiB frames
  const BITS_PER_MAP_LINE := 64
  const MAP_LINES := 524288      // FRAME_COUNT / BITS_PER_MAP_LINE
  const NULL_FRAME: uint64 := TWO_TO_64 - 1

  datatype WithError = WithError(value: uint64, error: Error)

  /** The frames whose bit is set. */
  ghost function MarkedFrames(words: seq<uint64>): set<nat> {
    set f: nat | f < BITS_PER_MAP_LINE * |words| && BitOfFrame(words, f)
  }

  ghost predicate BitOfFrame(words: seq<uint64>, f: nat)
    requires f < BITS_PER_MAP_LINE * |words|
  {
    Bit(words[f / BITS_PER_MAP_LINE], f % BITS_PER_MAP_LINE)
  }

  lemma WordWidth()
    ensures Pow2(BITS_PER_MAP_LINE) == TWO_TO_64
  {
    assert Pow2(8) == 0x100;
    Squares(8, 0x100);
    Squares(16, 0x1_0000);
    Squares(32, 0x1_0000_0000);
  }

  lemma Squares(k: nat, p: nat)
    requires Pow2(k) == p
    ensures Pow2(k + k) == p * p
  {
    Pow2Adds(k, k);
  }

  /** The mask `1 << b` of a bit inside a word, and its complement, fit the word. */
  lemma MaskFits(b: nat)
    requires b < BITS_PER_MAP_LINE
    ensures Pow2(b) < TWO_TO_64
  {
    Pow2Grows(b, BITS_PER_MAP_LINE);
    WordWidth();
  }

  lemma {:induction false} Pow2Grows(b: nat, k: nat)
    requires b < k
    ensures Pow2(b) < Pow2(k)
  {
    if b < k - 1 { Pow2Grows(b, k - 1); }
  }

  /** A bitmap is determined by the set it stands for. */
  lemma SameMarksSameWords(v: seq<uint64>, w: seq<uint64>)
    requires |v| == |w| && MarkedFrames(v) == MarkedFrames(w)
    ensures v == w
  {
    forall i | 0 <= i < |v|
      ensures v[i] == w[i]
    {
      forall k: nat | k < BITS_PER_MAP_LINE
        ensures Bit(v[i], k) <==> Bit(w[i], k)
      {
        var f := i * BITS_PER_MAP_LINE + k;
        assert f in MarkedFrames(v) <==> BitOfFrame(v, f);
        assert f in MarkedFrames(w) <==> BitOfFrame(w, f);
      }
      WordWidth();
      SameBitsSameWord(v[i], w[i], BITS_PER_MAP_LINE);
    }
  }

  /** Changing one bit of one word adds or removes one frame. */
  lemma OneBitIsOneFrame(words: seq<uint64>, f: nat, w: uint64, mark: bool)
    requires f < BITS_PER_MAP_LINE * |words|
    requires forall k: nat | k < BITS_PER_MAP_LINE ::
               Bit(w, k) <==> if k == f % BITS_PER_MAP_LINE then mark
                              else Bit(words[f / BITS_PER_MAP_LINE], k)
    ensures var after := words[f / BITS_PER_MAP_LINE := w];
            MarkedFrames(after) ==
              if mark then MarkedFrames(words) + {f} else MarkedFrames(words) - {f}
  {}

  // ----- what a search examines

  /** Between the two traces the frames begin, begin + 1, ... were examined, n of them, once each. */
  ghost predicate Examined(before: seq<nat>, after: seq<nat>, begin: nat, n: nat) {
    && |after| == |before| + n && after[..|before|] == before
    && forall j :: |before| <= j < |after| ==> after[j] == begin + (j - |before|)
  }

  /** Then each of these frames was examined exactly once, and no other. */
  lemma ExaminedOnce(before: seq<nat>, after: seq<nat>, begin: nat, n: nat)
    requires Examined(before, after, begin, n)
    ensures forall f: nat :: f in after[|before|..] <==> begin <= f < begin + n
    ensures forall i, j :: |before| <= i < j < |after| ==> after[i] != after[j]
  {
    forall f: nat | begin <= f < begin + n
      ensures f in after[|before|..]
    {
      assert after[|before|..][f - begin] == f;
    }
  }

  /** How many frames an allocation examines: from the range's start to the end of the run it
      returns, or of the range. */
  ghost function Examinations(a: Allocator, n: nat): nat {
    if n == 0 then 0
    else match Place(a, n)
         case Some(s) => if a.begin <= s + n then s + n - a.begin else 0
         case None => if a.begin <= a.end then a.end - a.begin else 0
  }

  /** One allocation never examines more frames than the range holds. */
  lemma SearchIsLinear(a: Allocator, n: nat)
    ensures Examinations(a, n) <= if a.begin <= a.end then a.end - a.begin else 0
  {
    if n > 0 && Place(a, n).Some? {
      PlacedRunWasFree(a, n, Place(a, n).value);
    }
  }

  // The search of Allocate: starts before `start` have been ruled out, ...
  ghost predicate Searching(a: Allocator, n: nat, start: nat) {
    && a.begin <= start
    && (a.begin < start ==> n > 0 && start <= a.end)
    && forall t :: a.begin <= t < start ==> !Fits(a, n, t)
  }

  // ... and the first i frames of the run being tried are free.
  ghost predicate FreeSoFar(a: Allocator, start: nat, i: nat) {
    && (i > 0 ==> start + i <= a.end)
    && (forall f :: start <= f < start + i ==> f !in a.marked)
  }

  lemma SearchFails(a: Allocator, n: nat, start: nat, i: nat)
    requires Searching(a, n, start) && FreeSoFar(a, start, i) && i < n && start + i >= a.end
    ensures Place(a, n) == None
    ensures Examinations(a, n) == start + i - a.begin
  {
    FirstFitIsLeast(a, a.begin, n);
  }

  lemma SearchSucceeds(a: Allocator, n: nat, start: nat)
    requires Searching(a, n, start) && FreeSoFar(a, start, n)
    ensures Place(a, n) == Some(start)
    ensures Examinations(a, n) == start + n - a.begin
  {
    FirstFitIsLeast(a, a.begin, n);
    if n > 0 {
      assert Fits(a, n, start);
    }
  }

  /**
   Meeting a marked frame inside the run being tried rules out every start up to that frame, so
   the search may go on just past it.
   */
  lemma SearchSkips(a: Allocator, n: nat, start: nat, i: nat)
    requires Searching(a, n, start) && i < n
    requires start + i < a.end && start + i in a.marked
    ensures Searching(a, n, start + i + 1)
  {}

  class BitmapMemoryManager {
    const allocMap: array<uint64>
    var rangeBegin: uint64
    var rangeEnd: uint64
    ghost var probed: seq<nat>  // the frames that GetBit was asked about, in order

    /** A range that is not empty lies inside the bitmap. */
    ghost predicate Valid()
      reads this
    {
      && allocMap.Length == MAP_LINES
      && (rangeBegin < rangeEnd ==> rangeEnd <= FRAME_COUNT)
    }

    ghost function Marked(): set<nat>
      reads allocMap
    {
      MarkedFrames(allocMap[..])
    }

    ghost function Abstract(): Allocator
      reads this, allocMap
    {
      Allocator(Marked(), rangeBegin, rangeEnd)
    }

    /** Construction in place: the bitmap keeps whatever the memory held. */
    constructor (memory: array<uint64>)
      requires memory.Length == MAP_LINES
      ensures allocMap == memory && Valid()
      ensures rangeBegin == rangeEnd == 0xffff_ffff_ffff_ffff
    {
      allocMap := memory;
      rangeBegin := NULL_FRAME;
      rangeEnd := NULL_FRAME;
      probed := [];
    }

    method SetMemoryRange(begin: uint64, end: uint64)
      requires Valid()
      requires begin < end ==> end <= FRAME_COUNT
      modifies `rangeBegin, `rangeEnd
      ensures Valid() && rangeBegin == begin && rangeEnd == end
    {
      rangeBegin := begin;
      rangeEnd := end;
    }

    method GetBit(frame: uint64) returns (marked: bool)
      requires Valid() && frame < FRAME_COUNT
      modifies `probed
      ensures marked <==> frame in Marked()
      ensures probed == old(probed) + [frame]
    {
      var lineIndex := frame / BITS_PER_MAP_LINE;
      var bitIndex := frame % BITS_PER_MAP_LINE;
      marked := And(allocMap[lineIndex], Pow2(bitIndex)) != 0;
      AndPow2TestsBit(allocMap[lineIndex], bitIndex);
      assert marked <==> BitOfFrame(allocMap[..], frame);
      probed := probed + [frame];
    }

    method SetBit(frame: uint64, mark: bool)
      requires Valid() && frame < FRAME_COUNT
      modifies allocMap
      ensures Marked() == if mark then old(Marked()) + {frame} else old(Marked()) - {frame}
    {
      var lineIndex := frame / BITS_PER_MAP_LINE;
      var bitIndex := frame % BITS_PER_MAP_LINE;
      var line := allocMap[lineIndex];
      var mask := Pow2(bitIndex);
      MaskFits(bitIndex);
      WordWidth();
      ghost var before := allocMap[..];
      if mark {
        OrFits(line, mask, BITS_PER_MAP_LINE);
        allocMap[lineIndex] := Or(line, mask);
      } else {
        AndFits(line, Not(mask, BITS_PER_MAP_LINE));
        allocMap[lineIndex] := And(line, Not(mask, BITS_PER_MAP_LINE));
      }
      forall k: nat | k < BITS_PER_MAP_LINE
        ensures Bit(allocMap[lineIndex], k) <==> if k == bitIndex then mark else Bit(line, k)
      {
        BitOfPow2(bitIndex, k);
        BitOfNot(mask, BITS_PER_MAP_LINE, k);
        BitOfOr(line, mask, k);
        BitOfAnd(line, Not(mask, BITS_PER_MAP_LINE), k);
      }
      OneBitIsOneFrame(before, frame, allocMap[lineIndex], mark);
      assert allocMap[..] == before[lineIndex := allocMap[lineIndex]];
    }

    method MarkAllocated(startFrame: uint64, numFrames: uint64)
      requires Valid()
      requires numFrames > 0 ==> startFrame + numFrames <= FRAME_COUNT
      modifies allocMap
      ensures Marked() == old(Marked()) + Interval(startFrame, numFrames)
      ensures Abstract() == Apply(old(Abstract()), MarkOp(startFrame, numFrames))
    {
      var i: uint64 := 0;
      while i < numFrames
        invariant i <= numFrames
        invariant Marked() == old(Marked()) + Interval(startFrame, i)
      {
        SetBit(startFrame + i, true);
        i := i + 1;
      }
    }

    method Allocate(numFrames: uint64) returns (r: WithError)
      requires Valid()
      modifies allocMap, `probed
      // the result and the new state are those of the naive search
      ensures match Place(old(Abstract()), numFrames)
              case Some(s) => r.error == Success && r.value == s
              case None => r.error == NoEnoughMemory && r.value == 0xffff_ffff_ffff_ffff
      ensures Abstract() == Apply(old(Abstract()), AllocateOp(numFrames))
      // each frame up to the end of the search is examined exactly once
      ensures Examined(old(probed), probed, rangeBegin, Examinations(old(Abstract()), numFrames))
    {
      ghost var a := Abstract();
      var startFrameId: uint64 := rangeBegin;
      while true
        invariant Abstract() == a && Searching(a, numFrames, startFrameId)
        invariant Examined(old(probed), probed, rangeBegin, startFrameId - rangeBegin)
        decreases if startFrameId <= rangeEnd then rangeEnd - startFrameId else 0
      {
        var i: uint64 := 0;
        while i < numFrames
          invariant i <= numFrames
          invariant Abstract() == a && FreeSoFar(a, startFrameId, i)
          invariant Examined(old(probed), probed, rangeBegin, startFrameId + i - rangeBegin)
          decreases numFrames - i
        {
          if startFrameId + i >= rangeEnd {
            SearchFails(a, numFrames, startFrameId, i);
            return WithError(NULL_FRAME, NoEnoughMemory);
          }
          var frame: uint64 := startFrameId + i;
          var marked := GetBit(frame);
          if marked {
            break;
          }
          i := i + 1;
        }
        if i == numFrames {
          SearchSucceeds(a, numFrames, startFrameId);
          MarkAllocated(startFrameId, numFrames);
          return WithError(startFrameId, Success);
        }
        SearchSkips(a, numFrames, startFrameId, i);
        startFrameId := startFrameId + i + 1;
      }
    }

    /** As the source writes it: the bits are set, not cleared. */
    method Free(startFrame: uint64, numFrames: uint64) returns (error: Error)
      requires Valid()
      requires numFrames > 0 ==> startFrame + numFrames <= FRAME_COUNT
      modifies allocMap
      ensures error == Success
      ensures Abstract() == Apply(old(Abstract()), FreeOp(startFrame, numFrames))
    {
      var i: uint64 := 0;
      while i < numFrames
        invariant i <= numFrames
        invariant Marked() == old(Marked()) + Interval(startFrame, i)
      {
        SetBit(startFrame + i, true);
        i := i + 1;
      }
      error := Success;
    }

    /** The variant of Free that passes `false` to SetBit, so that the frames are released. */
    method FreeClearing(startFrame: uint64, numFrames: uint64) returns (error: Error)
      requires Valid()
      requires numFrames > 0 ==> startFrame + numFrames <= FRAME_COUNT
      modifies allocMap
      ensures error == Success
      ensures Marked() == old(Marked()) - Interval(startFrame, numFrames)
    {
      var i: uint64 := 0;
      while i < numFrames
        invariant i <= numFrames
        invariant Marked() == old(Marked()) - Interval(startFrame, i)
      {
        SetBit(startFrame + i, false);
        i := i + 1;
      }
      error := Success;
    }
  }
  /** A client that allocates and, with the clearing variant, frees again: the very words of the
      bitmap are restored. */
  method AllocateAndRelease(mm: BitmapMemoryManager, numFrames: uint64)
    requires mm.Valid()
    modifies mm.allocMap, mm`probed
    ensures mm.allocMap[..] == old(mm.allocMap[..])
  {
    ghost var a := mm.Abstract();
    var r := mm.Allocate(numFrames);
    if r.error == Success {
      if numFrames > 0 { PlacedRunWasFree(a, numFrames, r.value); }
      var error := mm.FreeClearing(r.value, numFrames);
    }
    assert mm.Marked() == a.marked;
    SameMarksSameWords(mm.allocMap[..], old(mm.allocMap[..]));
  }
}
