/**
 The frame allocator seen as a set of marked frames and a range, with the simplest possible
 allocation rule: try every start in turn. The bitmap class is proved to refine these functions;
 the theorems about whole runs are proved here.
 */
module Frames {
  import opened Machine

  datatype Allocator = Allocator(marked: set<nat>, begin: nat, end: nat)

  /** The frames s, s + 1, ..., s + n - 1. */
  ghost function Interval(s: nat, n: nat): set<nat> {
    set f: nat | f < s + n && InRun(f, s, n)
  }

  predicate InRun(f: nat, s: nat, n: nat) {
    s <= f < s + n
  }

  /** A request of n frames could be served at s: inside the range, and no frame marked. */
  ghost predicate Fits(a: Allocator, n: nat, s: nat) {
    s + n <= a.end && Interval(s, n) !! a.marked
  }

  /** The naive search: test every start from `from` up. */
  ghost function FirstFit(a: Allocator, from: nat, n: nat): Option<nat>
    decreases a.end - from
  {
    if a.end < from + n then None
    else if Fits(a, n, from) then Some(from)
    else FirstFit(a, from + 1, n)
  }

  /** Where a request is placed; an empty request succeeds at the range's start, wherever that is. */
  ghost function Place(a: Allocator, n: nat): Option<nat> {
    if n == 0 then Some(a.begin) else FirstFit(a, a.begin, n)
  }

  /** FirstFit is the least start that fits, and fails exactly when no start fits. */
  lemma {:induction false} FirstFitIsLeast(a: Allocator, from: nat, n: nat)
    ensures forall s :: FirstFit(a, from, n) == Some(s) <==>
                        from <= s && Fits(a, n, s) && forall t :: from <= t < s ==> !Fits(a, n, t)
    ensures FirstFit(a, from, n) == None <==> forall s :: from <= s ==> !Fits(a, n, s)
    decreases a.end - from
  {
    if a.end < from + n {
      assert forall s :: from <= s ==> !Fits(a, n, s);
    } else if Fits(a, n, from) {
      assert FirstFit(a, from, n) == Some(from);
    } else {
      FirstFitIsLeast(a, from + 1, n);
      assert forall s :: from <= s && Fits(a, n, s) ==> from + 1 <= s;
    }
  }

  // ----- operations and runs

  datatype Op =
    | AllocateOp(n: nat)
    | FreeOp(s: nat, n: nat)
    | MarkOp(s: nat, n: nat)

  /** The state after one operation. `Free` marks, as the source writes it. */
  ghost function Apply(a: Allocator, op: Op): Allocator {
    match op
    case AllocateOp(n) =>
      (match Place(a, n)
       case Some(s) => a.(marked := a.marked + Interval(s, n))
       case None => a)
    case FreeOp(s, n) => a.(marked := a.marked + Interval(s, n))
    case MarkOp(s, n) => a.(marked := a.marked + Interval(s, n))
  }

  /** The state after the first k operations of a run. */
  ghost function After(a: Allocator, ops: seq<Op>, k: nat): Allocator
    requires k <= |ops|
  {
    if k == 0 then a else Apply(After(a, ops, k - 1), ops[k - 1])
  }

  /** The i-th operation asked for n frames and was given the run at s. */
  ghost predicate Granted(a: Allocator, ops: seq<Op>, i: nat, s: nat, n: nat) {
    i < |ops| && ops[i] == AllocateOp(n) && Place(After(a, ops, i), n) == Some(s)
  }

  lemma {:induction false} MarksOnlyGrow(a: Allocator, ops: seq<Op>, i: nat, j: nat)
    requires i <= j <= |ops|
    ensures After(a, ops, i).marked <= After(a, ops, j).marked
    ensures After(a, ops, j).begin == a.begin && After(a, ops, j).end == a.end
  {
    if i < j {
      MarksOnlyGrow(a, ops, i, j - 1);
    } else if j > 0 {
      MarksOnlyGrow(a, ops, i - 1, j - 1);
    }
  }

  /** Operation k of a run took frame f: it was given it, was told to free it, or reserved it. */
  ghost predicate Took(a: Allocator, ops: seq<Op>, k: nat, f: nat)
    requires k < |ops|
  {
    match ops[k]
    case AllocateOp(n) => exists s: nat :: Granted(a, ops, k, s, n) && s <= f < s + n
    case FreeOp(s, n) => s <= f < s + n
    case MarkOp(s, n) => s <= f < s + n
  }

  /** Over every run a frame is marked exactly when it was at the start or some operation took it. */
  lemma {:induction false} MarkedIffTaken(a: Allocator, ops: seq<Op>, j: nat, f: nat)
    requires j <= |ops|
    ensures f in After(a, ops, j).marked <==> f in a.marked || exists k: nat :: k < j && Took(a, ops, k, f)
  {
    if j > 0 {
      MarkedIffTaken(a, ops, j - 1, f);
      OneOperationTakes(a, ops, j - 1, f);
    }
  }

  lemma OneOperationTakes(a: Allocator, ops: seq<Op>, k: nat, f: nat)
    requires k < |ops|
    ensures f in After(a, ops, k + 1).marked <==> f in After(a, ops, k).marked || Took(a, ops, k, f)
  {
    var b := After(a, ops, k);
    assert After(a, ops, k + 1) == Apply(b, ops[k]);
    if ops[k].AllocateOp? && Place(b, ops[k].n).Some? {
      assert Granted(a, ops, k, Place(b, ops[k].n).value, ops[k].n);
    }
  }

  lemma PlacedRunWasFree(a: Allocator, n: nat, s: nat)
    requires Place(a, n) == Some(s) && n > 0
    ensures a.begin <= s && s + n <= a.end && Interval(s, n) !! a.marked
  {
    FirstFitIsLeast(a, a.begin, n);
  }

  /** Over every run, two successful allocations never share a frame. */
  lemma GrantsAreDisjoint(a: Allocator, ops: seq<Op>, i: nat, si: nat, ni: nat, j: nat, sj: nat, nj: nat)
    requires i < j
    requires Granted(a, ops, i, si, ni) && Granted(a, ops, j, sj, nj)
    ensures Interval(si, ni) !! Interval(sj, nj)
  {
    MarksOnlyGrow(a, ops, i + 1, j);
    assert Interval(si, ni) <= After(a, ops, i + 1).marked;
    if nj > 0 {
      PlacedRunWasFree(After(a, ops, j), nj, sj);
    }
  }

  /** Over every run, no later allocation gets a frame that was reserved or freed before. */
  lemma ReservedFramesAreNotGranted(a: Allocator, ops: seq<Op>, i: nat, s: nat, n: nat, j: nat, sj: nat, nj: nat)
    requires i < j < |ops| && (ops[i] == MarkOp(s, n) || ops[i] == FreeOp(s, n))
    requires Granted(a, ops, j, sj, nj)
    ensures Interval(s, n) !! Interval(sj, nj)
  {
    if nj > 0 {
      PlacedRunWasFree(After(a, ops, j), nj, sj);
      forall f | f in Interval(s, n)
        ensures f !in Interval(sj, nj)
      {
        MarkedIffTaken(a, ops, j, f);
        assert Took(a, ops, i, f);
      }
    }
  }

  /** A concrete run: of the frames 1 and 2, the first is reserved and the second is handed out. */
  lemma ReservedFrameIsPassedOver()
    ensures Granted(Allocator({}, 1, 3), [MarkOp(1, 1), AllocateOp(1)], 1, 2, 1)
  {
    var a, ops := Allocator({}, 1, 3), [MarkOp(1, 1), AllocateOp(1)];
    MarkedIffTaken(a, ops, 1, 1);
    MarkedIffTaken(a, ops, 1, 2);
    assert Took(a, ops, 0, 1) && !Took(a, ops, 0, 2);
    MarksOnlyGrow(a, ops, 0, 1);
    assert 1 in Interval(1, 1) && Interval(2, 1) == {2};
    assert !Fits(After(a, ops, 1), 1, 1) && Fits(After(a, ops, 1), 1, 2);
  }

  // ----- counting

  lemma {:induction false} IntervalSize(s: nat, n: nat)
    ensures |Interval(s, n)| == n
  {
    if n == 0 {
      assert Interval(s, n) == {};
    } else {
      IntervalSize(s, n - 1);
      assert Interval(s, n) == Interval(s, n - 1) + {s + n - 1};
    }
  }

  lemma SubsetSize(a: set<nat>, b: set<nat>)
    requires a <= b
    ensures |a| <= |b|
  {
    assert b == a + (b - a);
  }

  /** How many frames of the range are marked. */
  ghost function Used(a: Allocator): nat {
    |set f | f in a.marked && a.begin <= f < a.end|
  }

  /** How many frames of the range are free. */
  ghost function Spare(a: Allocator): nat {
    |set f: nat | a.begin <= f < a.end && f !in a.marked|
  }

  lemma UsedAndSpareFillTheRange(a: Allocator)
    ensures Used(a) + Spare(a) == if a.begin <= a.end then a.end - a.begin else 0
  {
    var n := if a.begin <= a.end then a.end - a.begin else 0;
    var used := set f | f in a.marked && a.begin <= f < a.end;
    var spare := set f: nat | a.begin <= f < a.end && f !in a.marked;
    assert Interval(a.begin, n) == used + spare;
    IntervalSize(a.begin, n);
  }

  /** A served request takes exactly n spare frames; a refused one changes nothing. */
  lemma AllocationTakesExactly(a: Allocator, n: nat)
    ensures Place(a, n).Some? ==> Spare(Apply(a, AllocateOp(n))) == Spare(a) - n
    ensures Place(a, n).Some? ==> Used(Apply(a, AllocateOp(n))) == Used(a) + n
    ensures Place(a, n).None? ==> Apply(a, AllocateOp(n)) == a
  {
    if Place(a, n).Some? {
      var s := Place(a, n).value;
      var b := Apply(a, AllocateOp(n));
      var before := set f: nat | a.begin <= f < a.end && f !in a.marked;
      var after := set f: nat | b.begin <= f < b.end && f !in b.marked;
      if n > 0 { PlacedRunWasFree(a, n, s); }
      assert before == after + Interval(s, n);
      IntervalSize(s, n);
      UsedAndSpareFillTheRange(a);
      UsedAndSpareFillTheRange(b);
    }
  }

  lemma MarkingSparesNoMore(a: Allocator, s: nat, n: nat)
    ensures Spare(a.(marked := a.marked + Interval(s, n))) <= Spare(a)
  {
    var b := a.(marked := a.marked + Interval(s, n));
    SubsetSize(set f: nat | b.begin <= f < b.end && f !in b.marked,
               set f: nat | a.begin <= f < a.end && f !in a.marked);
  }

  /** The number of frames handed out by the first k operations. */
  ghost function TotalGranted(a: Allocator, ops: seq<Op>, k: nat): nat
    requires k <= |ops|
  {
    if k == 0 then 0
    else TotalGranted(a, ops, k - 1) +
         if ops[k - 1].AllocateOp? && Place(After(a, ops, k - 1), ops[k - 1].n).Some?
         then ops[k - 1].n else 0
  }

  /**
   Nothing is ever recycled: over a whole run, whatever is freed, the frames handed out and the
   frames still spare together never exceed the frames spare at the start; when the run only
   allocates the two sides are equal.
   */
  lemma {:induction false} NothingIsRecycled(a: Allocator, ops: seq<Op>, k: nat)
    requires k <= |ops|
    ensures TotalGranted(a, ops, k) + Spare(After(a, ops, k)) <= Spare(a)
    ensures (forall i :: 0 <= i < k ==> ops[i].AllocateOp?) ==>
              TotalGranted(a, ops, k) + Spare(After(a, ops, k)) == Spare(a)
  {
    if k > 0 {
      NothingIsRecycled(a, ops, k - 1);
      var b := After(a, ops, k - 1);
      match ops[k - 1]
      case AllocateOp(n) => AllocationTakesExactly(b, n);
      case FreeOp(s, n) => MarkingSparesNoMore(b, s, n);
      case MarkOp(s, n) => MarkingSparesNoMore(b, s, n);
    }
  }

  // ----- what Free does not do

  /** `Free` as written undoes an allocation exactly when the allocation was empty. */
  lemma FreeUndoesAllocateIffEmpty(a: Allocator, n: nat, s: nat)
    requires Place(a, n) == Some(s)
    ensures Apply(Apply(a, AllocateOp(n)), FreeOp(s, n)) == a <==> n == 0
  {
    if n > 0 {
      PlacedRunWasFree(a, n, s);
      assert s in Interval(s, n);
    } else {
      assert Interval(s, n) == {};
    }
  }

  /** A concrete run: one frame, allocated and freed, cannot be allocated again. */
  lemma FreedFrameIsLost()
    ensures var a := Allocator({}, 1, 2);
            var ops := [AllocateOp(1), FreeOp(1, 1), AllocateOp(1)];
            && Granted(a, ops, 0, 1, 1)
            && Place(After(a, ops, 2), 1) == None
  {
    var a := Allocator({}, 1, 2);
    var ops := [AllocateOp(1), FreeOp(1, 1), AllocateOp(1)];
    assert Fits(a, 1, 1);
    assert 1 in Interval(1, 1);
    assert 1 in After(a, ops, 2).marked by { MarksOnlyGrow(a, ops, 1, 2); }
    MarksOnlyGrow(a, ops, 0, 2);
    assert !Fits(After(a, ops, 2), 1, 1);
    assert !Fits(After(a, ops, 2), 1, 2);
  }
}
