/**
 Whole runs of the allocator with the releasing variant of Free, by clients that release only what
 they hold. The ledger records which runs are live; the invariant ties it to the marked frames.
 */
module Ledger {
  import opened Machine
  import opened Frames

  datatype Run = Run(s: nat, n: nat)

  datatype Ledger = Ledger(frames: Allocator, live: set<Run>)

  datatype Request =
    | Acquire(n: nat)
    | Release(run: Run)

  ghost function FramesOf(run: Run): set<nat> {
    Interval(run.s, run.n)
  }

  ghost function Owned(live: set<Run>): set<nat> {
    set run, f | run in live && f in FramesOf(run) :: f
  }

  /** A client releases only a run that it holds. */
  ghost predicate Legal(l: Ledger, request: Request) {
    request.Release? ==> request.run in l.live
  }

  ghost function Serve(l: Ledger, request: Request): Ledger {
    match request
    case Acquire(n) =>
      (match Place(l.frames, n)
       case None => l
       case Some(s) =>
         var frames := Apply(l.frames, AllocateOp(n));
         Ledger(frames, if n == 0 then l.live else l.live + {Run(s, n)}))
    case Release(run) =>
      Ledger(l.frames.(marked := l.frames.marked - FramesOf(run)), l.live - {run})
  }

  ghost function After(l: Ledger, requests: seq<Request>, k: nat): Ledger
    requires k <= |requests|
  {
    if k == 0 then l else Serve(After(l, requests, k - 1), requests[k - 1])
  }

  ghost predicate LegalRun(l: Ledger, requests: seq<Request>) {
    forall i | 0 <= i < |requests| :: Legal(After(l, requests, i), requests[i])
  }

  /** Live runs are non-empty, inside the range, pairwise disjoint, and together with the frames
      reserved at the start they are exactly the marked frames. */
  ghost predicate Invariant(l: Ledger, start: Allocator) {
    && l.frames.begin == start.begin && l.frames.end == start.end
    && l.frames.marked == start.marked + Owned(l.live)
    && start.marked !! Owned(l.live)
    && (forall run :: run in l.live ==> run.n > 0 && start.begin <= run.s && run.s + run.n <= start.end)
    && (forall p, q :: p in l.live && q in l.live && p != q ==> FramesOf(p) !! FramesOf(q))
  }

  lemma AcquireKeepsInvariant(l: Ledger, start: Allocator, n: nat)
    requires Invariant(l, start)
    ensures Invariant(Serve(l, Acquire(n)), start)
  {
    if n > 0 && Place(l.frames, n).Some? {
      var run := Run(Place(l.frames, n).value, n);
      PlacedRunWasFree(l.frames, n, run.s);
      var live := l.live + {run};
      assert Owned(live) == Owned(l.live) + FramesOf(run);
      forall p | p in l.live
        ensures FramesOf(p) !! FramesOf(run)
      {
        assert FramesOf(p) <= Owned(l.live);
      }
    } else if n == 0 {
      assert Interval(l.frames.begin, 0) == {};
    }
  }

  lemma ReleaseKeepsInvariant(l: Ledger, start: Allocator, run: Run)
    requires Invariant(l, start) && run in l.live
    ensures Invariant(Serve(l, Release(run)), start)
  {}

  lemma ServingKeepsInvariant(l: Ledger, start: Allocator, request: Request)
    requires Invariant(l, start) && Legal(l, request)
    ensures Invariant(Serve(l, request), start)
  {
    match request
    case Acquire(n) => AcquireKeepsInvariant(l, start, n);
    case Release(run) => ReleaseKeepsInvariant(l, start, run);
  }

  /** Over every legal run the invariant holds at every point: live runs stay disjoint. */
  lemma {:induction false} LiveRunsStayDisjoint(start: Allocator, requests: seq<Request>, k: nat)
    requires k <= |requests| && LegalRun(Ledger(start, {}), requests)
    ensures Invariant(After(Ledger(start, {}), requests, k), start)
  {
    if k > 0 {
      LiveRunsStayDisjoint(start, requests, k - 1);
      var l := After(Ledger(start, {}), requests, k - 1);
      assert Legal(l, requests[k - 1]);
      ServingKeepsInvariant(l, start, requests[k - 1]);
    } else {
      assert Owned({}) == {};
    }
  }

  /** Frames are conserved: held and spare frames together always make the spare frames of the
      start, and once everything is released the allocator is as it was. */
  lemma FramesAreConserved(start: Allocator, requests: seq<Request>)
    requires LegalRun(Ledger(start, {}), requests)
    ensures var l := After(Ledger(start, {}), requests, |requests|);
            && |Owned(l.live)| + Spare(l.frames) == Spare(start)
            && (l.live == {} ==> l.frames == start)
  {
    LiveRunsStayDisjoint(start, requests, |requests|);
    var l := After(Ledger(start, {}), requests, |requests|);
    var before := set f: nat | start.begin <= f < start.end && f !in start.marked;
    var now := set f: nat | l.frames.begin <= f < l.frames.end && f !in l.frames.marked;
    assert before == now + Owned(l.live);
    assert now !! Owned(l.live);
    if l.live == {} {
      assert Owned(l.live) == {};
    }
  }

  /** Releasing what was just acquired restores the allocator exactly. */
  lemma ReleaseUndoesAcquire(l: Ledger, start: Allocator, n: nat)
    requires Invariant(l, start) && n > 0 && Place(l.frames, n).Some?
    ensures Serve(Serve(l, Acquire(n)), Release(Run(Place(l.frames, n).value, n))) == l
  {
    var run := Run(Place(l.frames, n).value, n);
    PlacedRunWasFree(l.frames, n, run.s);
    assert run.s in FramesOf(run);
    assert run.s in l.frames.marked ==> false;
    assert forall p :: p in l.live ==> FramesOf(p) <= Owned(l.live);
    assert run !in l.live;
  }
}
