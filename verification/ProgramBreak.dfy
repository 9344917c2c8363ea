/** The program break that newlib's malloc grows (kernel/newlib_support.c). */
module ProgramBreak {
  import opened Machine

  datatype Break = Break(at: uint64, limit: uint64)

  /** Pointer addition: addresses wrap at 64 bits. */
  function Advance(address: uint64, incr: int32): uint64 {
    (address + incr) % TWO_TO_64
  }

  predicate Refuses(b: Break, incr: int32) {
    b.at == 0 || Advance(b.at, incr) >= b.limit
  }

  function Grow(b: Break, incr: int32): Break {
    if Refuses(b, incr) then b else b.(at := Advance(b.at, incr))
  }

  /** The two break variables of the C library, zero until the heap is set up. */
  class NewlibBreak {
    var programBreak: uint64
    var programBreakEnd: uint64

    constructor ()
      ensures programBreak == 0 && programBreakEnd == 0
    {
      programBreak := 0;
      programBreakEnd := 0;
    }

    ghost function State(): Break
      reads this
    {
      Break(programBreak, programBreakEnd)
    }

    /** None stands for the result -1 with errno ENOMEM. */
    method Sbrk(incr: int32) returns (r: Option<uint64>)
      modifies this
      ensures State() == Grow(old(State()), incr)
      ensures r == if Refuses(old(State()), incr) then None else Some(old(programBreak))
    {
      if programBreak == 0 || Advance(programBreak, incr) >= programBreakEnd {
        return None;
      }
      var prevBreak := programBreak;
      programBreak := Advance(programBreak, incr);
      return Some(prevBreak);
    }
  }

  // ----- runs of requests

  ghost function After(b: Break, incrs: seq<int32>, k: nat): Break
    requires k <= |incrs|
  {
    if k == 0 then b else Grow(After(b, incrs, k - 1), incrs[k - 1])
  }

  /** The sum of the first k requests that were granted. */
  ghost function GrantedBytes(b: Break, incrs: seq<int32>, k: nat): int
    requires k <= |incrs|
  {
    if k == 0 then 0
    else GrantedBytes(b, incrs, k - 1) +
         if Refuses(After(b, incrs, k - 1), incrs[k - 1]) then 0 else incrs[k - 1]
  }

  /** A heap is in place: the limit is far enough from the top of memory for -2^31 not to reach it. */
  ghost predicate HeapInPlace(b: Break) {
    0 < b.at < b.limit <= TWO_TO_64 - TWO_TO_31
  }

  /** No wrap is ever granted: a request is served exactly when the new break lies below the limit. */
  lemma GrantedIff(b: Break, incr: int32)
    requires 0 < b.at < b.limit <= TWO_TO_64 - TWO_TO_31
    ensures !Refuses(b, incr) <==> 0 <= b.at + incr < b.limit
    ensures !Refuses(b, incr) ==> Grow(b, incr).at == b.at + incr
  {}

  /** Before the heap is set up every request of every run is refused. */
  lemma {:induction false} UnsetBreakRefusesAll(b: Break, incrs: seq<int32>, k: nat)
    requires b.at == 0 && k <= |incrs|
    ensures After(b, incrs, k) == b
    ensures k < |incrs| ==> Refuses(After(b, incrs, k), incrs[k])
  {
    if k > 0 { UnsetBreakRefusesAll(b, incrs, k - 1); }
  }

  /** Over every run, with requests of either sign, the break is the heap's start plus what was
      granted, and never reaches the limit. */
  lemma {:induction false} BreakIsStartPlusGranted(b: Break, incrs: seq<int32>, k: nat)
    requires HeapInPlace(b) && k <= |incrs|
    ensures After(b, incrs, k).at == b.at + GrantedBytes(b, incrs, k)
    ensures 0 <= After(b, incrs, k).at < b.limit && After(b, incrs, k).limit == b.limit
  {
    if k > 0 {
      BreakIsStartPlusGranted(b, incrs, k - 1);
      var c := After(b, incrs, k - 1);
      if c.at > 0 { GrantedIff(c, incrs[k - 1]); }
    }
  }

  /** Between two points of a run without negative requests the break does not fall. */
  lemma {:induction false} BreakRises(b: Break, incrs: seq<int32>, i: nat, j: nat)
    requires HeapInPlace(b) && i <= j <= |incrs|
    requires forall k :: 0 <= k < |incrs| ==> incrs[k] >= 0
    ensures b.at <= After(b, incrs, i).at <= After(b, incrs, j).at < b.limit
    ensures After(b, incrs, j).limit == b.limit
  {
    if i < j {
      BreakRises(b, incrs, i, j - 1);
      GrantedIff(After(b, incrs, j - 1), incrs[j - 1]);
    } else if j > 0 {
      BreakRises(b, incrs, i - 1, j - 1);
      GrantedIff(After(b, incrs, j - 1), incrs[j - 1]);
    }
  }

  /** Request i of the run was granted. */
  ghost predicate Granted(b: Break, incrs: seq<int32>, i: nat) {
    i < |incrs| && !Refuses(After(b, incrs, i), incrs[i])
  }

  /**
   In a run of non-negative requests the granted blocks ascend without overlap, and the block of
   request i begins where the last block before it ended: the break. Each lies inside the heap and
   none contains its last byte.
   */
  lemma BlocksAscendInsideTheHeap(b: Break, incrs: seq<int32>, i: nat, j: nat)
    requires HeapInPlace(b)
    requires forall k :: 0 <= k < |incrs| ==> incrs[k] >= 0
    requires i < j && Granted(b, incrs, i) && Granted(b, incrs, j)
    ensures var first, second := After(b, incrs, i).at, After(b, incrs, j).at;
            && b.at <= first
            && first + incrs[i] <= second
            && second + incrs[j] < b.limit
            && ((forall k :: i < k < j ==> !Granted(b, incrs, k)) ==> first + incrs[i] == second)
  {
    BreakRises(b, incrs, i, i);
    GrantedIff(After(b, incrs, i), incrs[i]);
    BreakRises(b, incrs, i + 1, j);
    GrantedIff(After(b, incrs, j), incrs[j]);
    if forall k :: i < k < j ==> !Granted(b, incrs, k) {
      RefusalsLeaveTheBreak(b, incrs, i + 1, j);
    }
  }

  lemma {:induction false} RefusalsLeaveTheBreak(b: Break, incrs: seq<int32>, i: nat, j: nat)
    requires i <= j <= |incrs|
    requires forall k :: i <= k < j ==> !Granted(b, incrs, k)
    ensures After(b, incrs, j) == After(b, incrs, i)
  {
    if i < j {
      RefusalsLeaveTheBreak(b, incrs, i, j - 1);
      assert !Granted(b, incrs, j - 1);
    }
  }

  /** A request that fits the rest of the heap is served unless it is for exactly the rest. */
  lemma FittingRequestIsServedIff(b: Break, incr: int32)
    requires HeapInPlace(b) && 0 <= incr <= b.limit - b.at
    ensures !Refuses(b, incr) <==> incr != b.limit - b.at
  {
    GrantedIff(b, incr);
  }

  /** A concrete run in a heap of 128 MiB from 0x1000: when all but its last page is granted, that
      page is refused, and all but its last byte would be granted. */
  lemma LastPageIsRefused()
    ensures var rest := After(Break(0x1000, 0x800_1000), [0x7ff_f000], 1);
            && rest == Break(0x800_0000, 0x800_1000)
            && Refuses(rest, 0x1000) && !Refuses(rest, 0xfff)
  {
    assert After(Break(0x1000, 0x800_1000), [0x7ff_f000], 0) == Break(0x1000, 0x800_1000);
  }
}
