/**
 The loader's page allocation with retries (boot/MosaLoader.c): after each refusal it asks for one
 page less, starting one page higher.
 */
module BootAllocate {
  import opened Machine

  const PAGE := 0x1000
  const SIZE_LIMIT := 0xffff_ffff_ffff_0000
  const MAX_TRIES := 10000

  datatype Request = Request(ret: uint64, pages: uint64)

  /** Whether AllocatePages succeeds, given every request made before. */
  type Policy = (seq<Request>, Request) -> bool

  datatype Account = Account(calls: seq<Request>, granted: seq<Request>)

  /** The firmware: it answers by its policy and keeps account of what was asked and granted. */
  class BootServices {
    const policy: Policy
    var calls: seq<Request>
    var granted: seq<Request>

    function State(): Account
      reads this
    {
      Account(calls, granted)
    }

    constructor (policy: Policy)
      ensures this.policy == policy && calls == [] && granted == []
    {
      this.policy := policy;
      calls, granted := [], [];
    }

    method AllocatePages(request: Request) returns (ok: bool)
      modifies this
      ensures ok == policy(old(calls), request)
      ensures calls == old(calls) + [request]
      ensures granted == old(granted) + if ok then [request] else []
    {
      ok := policy(calls, request);
      calls := calls + [request];
      if ok {
        granted := granted + [request];
      }
    }
  }

  datatype Outcome =
    | Returned(ret: uint64)
    | Halted

  function PagesOf(size: uint64): uint64 {
    (size + 0xfff) % TWO_TO_64 / PAGE
  }

  function PageFloor(addr: uint64): uint64 {
    addr / PAGE * PAGE
  }

  // ----- the requests of one call

  /** What is asked for after k refusals; addresses and sizes wrap at 64 bits. */
  function Nth(addr: uint64, size: uint64, k: nat): Request {
    Request((PageFloor(addr) + k * PAGE) % TWO_TO_64, PagesOf((size - k * PAGE) % TWO_TO_64))
  }

  /** The first n requests. */
  ghost function Requests(addr: uint64, size: uint64, n: nat): (r: seq<Request>)
    ensures |r| == n
  {
    if n == 0 then [] else Requests(addr, size, n - 1) + [Nth(addr, size, n - 1)]
  }

  /** The number of refusals after which the size has wrapped past the limit. */
  function Patience(size: uint64): nat {
    if size >= SIZE_LIMIT + PAGE then 1 else size / PAGE + 1
  }

  /** The most requests that a call can make. */
  function MostTries(size: uint64): (n: nat)
    ensures 1 <= n
  {
    if Patience(size) < MAX_TRIES then Patience(size) else MAX_TRIES
  }

  /** The answer to request k of a call made after the history h. */
  ghost predicate Accepts(policy: Policy, h: seq<Request>, addr: uint64, size: uint64, k: nat) {
    policy(h + Requests(addr, size, k), Nth(addr, size, k))
  }

  ghost predicate RefusedBefore(policy: Policy, h: seq<Request>, addr: uint64, size: uint64, n: nat) {
    forall k: nat :: k < n ==> !Accepts(policy, h, addr, size, k)
  }

  /** The call makes n requests: all but the last are refused, and it stops early only when granted. */
  ghost predicate Makes(policy: Policy, h: seq<Request>, addr: uint64, size: uint64, n: nat) {
    && 1 <= n <= MostTries(size)
    && RefusedBefore(policy, h, addr, size, n - 1)
    && (n < MostTries(size) ==> Accepts(policy, h, addr, size, n - 1))
  }

  lemma {:induction false} SomeNumberIsMade(policy: Policy, h: seq<Request>, addr: uint64, size: uint64, k: nat)
    requires k < MostTries(size) && RefusedBefore(policy, h, addr, size, k)
    ensures exists n :: Makes(policy, h, addr, size, n)
    decreases MostTries(size) - k
  {
    if Accepts(policy, h, addr, size, k) || k + 1 == MostTries(size) {
      assert Makes(policy, h, addr, size, k + 1);
    } else {
      SomeNumberIsMade(policy, h, addr, size, k + 1);
    }
  }

  lemma OnlyOneNumberIsMade(policy: Policy, h: seq<Request>, addr: uint64, size: uint64, n: nat, n': nat)
    requires Makes(policy, h, addr, size, n) && Makes(policy, h, addr, size, n')
    ensures n == n'
  {}

  /** How many requests a call makes. */
  ghost function Tries(policy: Policy, h: seq<Request>, addr: uint64, size: uint64): (n: nat)
    ensures Makes(policy, h, addr, size, n)
  {
    SomeNumberIsMade(policy, h, addr, size, 0);
    var n: nat :| Makes(policy, h, addr, size, n);
    n
  }

  /** The request that a call is granted, if any. */
  ghost function GrantOf(policy: Policy, h: seq<Request>, addr: uint64, size: uint64): Option<Request> {
    var last := Tries(policy, h, addr, size) - 1;
    if Accepts(policy, h, addr, size, last) then Some(Nth(addr, size, last)) else None
  }

  /** All of the first MAX_TRIES requests are refused. */
  ghost predicate Stalls(policy: Policy, h: seq<Request>, addr: uint64, size: uint64) {
    Patience(size) >= MAX_TRIES && RefusedBefore(policy, h, addr, size, MAX_TRIES)
  }

  /** How a call ends: granted, halted, or given up and still returning an address. */
  ghost function OutcomeOf(policy: Policy, h: seq<Request>, addr: uint64, size: uint64): Outcome {
    match GrantOf(policy, h, addr, size)
    case Some(request) => Returned(request.ret)
    case None =>
      if Stalls(policy, h, addr, size) then Halted
      else Returned((Nth(addr, size, Patience(size) - 1).ret + PAGE) % TWO_TO_64)
  }

  lemma HaltsIffStalls(policy: Policy, h: seq<Request>, addr: uint64, size: uint64)
    ensures OutcomeOf(policy, h, addr, size) == Halted <==> Stalls(policy, h, addr, size)
  {
    var last := Tries(policy, h, addr, size) - 1;
    assert Makes(policy, h, addr, size, last + 1);
  }

  /** The firmware's account after a call: exactly the requests made, and the grant if there is one. */
  ghost function Charged(policy: Policy, before: Account, addr: uint64, size: uint64): Account {
    Account(before.calls + Requests(addr, size, Tries(policy, before.calls, addr, size)),
            before.granted + match GrantOf(policy, before.calls, addr, size)
                             case Some(request) => [request]
                             case None => [])
  }

  /** The whole behaviour, for every address, size, firmware and history. */
  method Allocate(addr: uint64, size: uint64, bs: BootServices) returns (o: Outcome)
    modifies bs
    ensures o == OutcomeOf(bs.policy, old(bs.calls), addr, size)
    ensures bs.State() == Charged(bs.policy, old(bs.State()), addr, size)
  {
    ghost var before := bs.State();
    var ret: uint64 := addr;
    var left: uint64 := size;
    var tmp: nat := 0;
    var numPages: uint64 := PagesOf(left);
    while true
      invariant tmp < MostTries(size) && Asking(addr, size, tmp, ret, left, numPages)
      invariant RefusedBefore(bs.policy, before.calls, addr, size, tmp)
      invariant bs.calls == before.calls + Requests(addr, size, tmp) && bs.granted == before.granted
      decreases MAX_TRIES - tmp
    {
      tmp := tmp + 1;
      ret := PageFloor(ret);
      ghost var k, ret0, left0 := tmp - 1, ret, left;
      var succeeded := bs.AllocatePages(Request(ret, numPages));
      OneMoreRequest(bs.policy, before.calls, addr, size, k);
      if !succeeded {
        ret := (ret + PAGE) % TWO_TO_64;
        left := (left - PAGE) % TWO_TO_64;
        numPages := PagesOf(left);
        OneMoreRefusal(addr, size, k, ret0, left0);
        EndsRefused(bs.policy, before, addr, size, k);
        if tmp == MAX_TRIES {
          return Halted;
        }
      } else {
        EndsGranted(bs.policy, before, addr, size, k);
      }
      if succeeded || left >= SIZE_LIMIT {
        return Returned(ret);
      }
    }
  }

  lemma EndsGranted(policy: Policy, before: Account, addr: uint64, size: uint64, k: nat)
    requires k < MostTries(size) && RefusedBefore(policy, before.calls, addr, size, k)
    requires Accepts(policy, before.calls, addr, size, k)
    ensures OutcomeOf(policy, before.calls, addr, size) == Returned(Nth(addr, size, k).ret)
    ensures Charged(policy, before, addr, size)
            == Account(before.calls + Requests(addr, size, k + 1), before.granted + [Nth(addr, size, k)])
  {
    OneMoreRequest(policy, before.calls, addr, size, k);
  }

  lemma EndsRefused(policy: Policy, before: Account, addr: uint64, size: uint64, k: nat)
    requires k < MostTries(size) && RefusedBefore(policy, before.calls, addr, size, k + 1)
    ensures k + 1 == MostTries(size) ==>
              && OutcomeOf(policy, before.calls, addr, size) ==
                 (if k + 1 == MAX_TRIES then Halted else Returned((Nth(addr, size, k).ret + PAGE) % TWO_TO_64))
              && Charged(policy, before, addr, size)
                 == Account(before.calls + Requests(addr, size, k + 1), before.granted)
  {
    assert !Accepts(policy, before.calls, addr, size, k);
    OneMoreRequest(policy, before.calls, addr, size, k);
    assert before.granted + [] == before.granted;
  }

  /** What request k settles: granted it ends the call, refused it may be the last. */
  lemma OneMoreRequest(policy: Policy, h: seq<Request>, addr: uint64, size: uint64, k: nat)
    requires k < MostTries(size) && RefusedBefore(policy, h, addr, size, k)
    ensures h + Requests(addr, size, k) + [Nth(addr, size, k)] == h + Requests(addr, size, k + 1)
    ensures Accepts(policy, h, addr, size, k) ==>
              && Tries(policy, h, addr, size) == k + 1
              && GrantOf(policy, h, addr, size) == Some(Nth(addr, size, k))
    ensures !Accepts(policy, h, addr, size, k) ==> RefusedBefore(policy, h, addr, size, k + 1)
    ensures !Accepts(policy, h, addr, size, k) && k + 1 == MostTries(size) ==>
              && Tries(policy, h, addr, size) == k + 1
              && GrantOf(policy, h, addr, size) == None
              && (Stalls(policy, h, addr, size) <==> k + 1 == MAX_TRIES)
  {
    if Accepts(policy, h, addr, size, k) || k + 1 == MostTries(size) {
      OnlyOneNumberIsMade(policy, h, addr, size, k + 1, Tries(policy, h, addr, size));
    }
  }

  /** The loop's variables before request k. */
  ghost predicate Asking(addr: uint64, size: uint64, k: nat, ret: uint64, left: uint64, numPages: uint64) {
    && left == (size - k * PAGE) % TWO_TO_64 && numPages == PagesOf(left)
    && Request(PageFloor(ret), numPages) == Nth(addr, size, k)
  }

  /** One refusal moves the address up and the size down by a page, unless the size has run out. */
  lemma OneMoreRefusal(addr: uint64, size: uint64, k: nat, ret: uint64, left: uint64)
    requires k < Patience(size) && ret == Nth(addr, size, k).ret && left == (size - k * PAGE) % TWO_TO_64
    ensures var nextRet, nextLeft := (ret + PAGE) % TWO_TO_64, (left - PAGE) % TWO_TO_64;
            && Asking(addr, size, k + 1, nextRet, nextLeft, PagesOf(nextLeft))
            && (nextLeft >= SIZE_LIMIT <==> k + 1 == Patience(size))
  {
    WrapAdds(PageFloor(addr) + k * PAGE, PAGE);
    WrapAdds(size - k * PAGE, -PAGE);
    var n := addr / PAGE + k + 1;
    assert PageFloor(addr) + (k + 1) * PAGE == n * PAGE;
    WrapKeepsPages(n);
    PatienceRunsOut(size, k);
  }

  lemma PatienceRunsOut(size: uint64, k: nat)
    requires k < Patience(size)
    ensures (size - (k + 1) * PAGE) % TWO_TO_64 >= SIZE_LIMIT <==> k + 1 == Patience(size)
  {}

  lemma WrapAdds(x: int, d: int)
    ensures (x % TWO_TO_64 + d) % TWO_TO_64 == (x + d) % TWO_TO_64
  {}

  /** Wrapping at 64 bits keeps page alignment. */
  lemma WrapKeepsPages(n: nat)
    ensures n * PAGE % TWO_TO_64 % PAGE == 0
  {}

  // ----- what the requests ask for

  /** The first request is for the fewest pages of 4096 bytes that hold the size. */
  lemma PagesOfIsLeast(size: uint64)
    requires size < 0xffff_ffff_ffff_0000
    ensures size <= PagesOf(size) * 0x1000
    ensures PagesOf(size) > 0 ==> (PagesOf(size) - 1) * 0x1000 < size
  {}

  /**
   Each retry asks for the tail of the first request: page-aligned, one page fewer each time, and
   ending at the same address.
   */
  lemma RetriesAskForTails(addr: uint64, size: uint64, k: nat)
    requires size < SIZE_LIMIT && k < Patience(size)
    ensures Nth(addr, size, k).ret % PAGE == 0
    ensures Nth(addr, size, k).pages == PagesOf(size) - k
    ensures (Nth(addr, size, k).ret + Nth(addr, size, k).pages * PAGE) % TWO_TO_64
            == (PageFloor(addr) + PagesOf(size) * PAGE) % TWO_TO_64
  {
    WrapKeepsPages(addr / PAGE + k);
    assert PageFloor(addr) + k * PAGE == (addr / PAGE + k) * PAGE;
    PagesShrink(size, k);
    var pages := PagesOf(size) - k;
    WrapAdds(PageFloor(addr) + k * PAGE, pages * PAGE);
    assert PageFloor(addr) + k * PAGE + pages * PAGE == PageFloor(addr) + PagesOf(size) * PAGE;
  }

  lemma PagesShrink(size: uint64, k: nat)
    requires size < SIZE_LIMIT && k <= size / PAGE
    ensures PagesOf((size - k * PAGE) % TWO_TO_64) == PagesOf(size) - k
  {}

  /** Byte a lies in the pages of the request. */
  predicate InPages(request: Request, a: nat) {
    request.ret <= a < request.ret + request.pages * PAGE
  }

  predicate InGrant(grant: Option<Request>, a: nat) {
    grant.Some? && InPages(grant.value, a)
  }

  /** The grant holds all of the bytes [addr, addr + len). */
  ghost predicate Obtained(grant: Option<Request>, addr: nat, len: nat) {
    forall a: nat :: addr <= a < addr + len ==> InGrant(grant, a)
  }

  /**
   A call for `size` bytes obtains pages for `len` bytes from addr on exactly when the firmware
   accepts the first request and the offset of the address in its page leaves room: retries give up
   the start of the range, and the page count ignores that offset. A call that gives up obtains
   nothing, whatever it returns.
   */
  lemma RequestIsServedIff(policy: Policy, h: seq<Request>, addr: uint64, size: uint64, len: nat)
    requires size < SIZE_LIMIT && addr + size < TWO_TO_64 && len > 0
    ensures Obtained(GrantOf(policy, h, addr, size), addr, len) <==>
              Accepts(policy, h, addr, size, 0) && addr % PAGE + len <= PagesOf(size) * PAGE
  {
    if Accepts(policy, h, addr, size, 0) {
      OneMoreRequest(policy, h, addr, size, 0);
      FirstRequest(addr, size);
      PagesHoldIff(addr, PagesOf(size), len);
    } else {
      RetriesMissTheStart(policy, h, addr, size);
      assert addr <= addr < addr + len;
    }
  }

  lemma RetriesMissTheStart(policy: Policy, h: seq<Request>, addr: uint64, size: uint64)
    requires addr + size < TWO_TO_64 && !Accepts(policy, h, addr, size, 0)
    ensures !InGrant(GrantOf(policy, h, addr, size), addr)
  {
    var k := Tries(policy, h, addr, size) - 1;
    if k > 0 {
      LaterRequest(addr, size, k);
    }
  }

  lemma FirstRequest(addr: uint64, size: uint64)
    ensures Nth(addr, size, 0) == Request(PageFloor(addr), PagesOf(size))
  {}

  /** A retry asks for pages that start above the address. */
  lemma LaterRequest(addr: uint64, size: uint64, k: nat)
    requires addr + size < TWO_TO_64 && 0 < k < Patience(size)
    ensures Nth(addr, size, k).ret > addr
  {
    assert PageFloor(addr) + k * PAGE < TWO_TO_64;
  }

  lemma PagesHoldIff(addr: uint64, pages: uint64, len: nat)
    requires len > 0
    ensures Obtained(Some(Request(PageFloor(addr), pages)), addr, len) <==> addr % PAGE + len <= pages * PAGE
  {
    var grant := Some(Request(PageFloor(addr), pages));
    assert InGrant(grant, addr + len - 1) <==> addr % PAGE + len <= pages * PAGE;
  }

  /**
   A call returns although nothing was granted exactly when it is refused until the size runs out.
   The address it then returns is the first page past all those it asked for.
   */
  lemma GivenUpMeansNothing(policy: Policy, h: seq<Request>, addr: uint64, size: uint64)
    ensures GrantOf(policy, h, addr, size) == None <==> RefusedBefore(policy, h, addr, size, MostTries(size))
    ensures OutcomeOf(policy, h, addr, size).Returned? && GrantOf(policy, h, addr, size) == None <==>
              Patience(size) < MAX_TRIES && RefusedBefore(policy, h, addr, size, Patience(size))
    ensures OutcomeOf(policy, h, addr, size).Returned? && GrantOf(policy, h, addr, size) == None ==>
              OutcomeOf(policy, h, addr, size).ret == (PageFloor(addr) + Patience(size) * PAGE) % TWO_TO_64
  {
    var n := Tries(policy, h, addr, size);
    assert Makes(policy, h, addr, size, n);
    HaltsIffStalls(policy, h, addr, size);
    WrapAdds(PageFloor(addr) + (Patience(size) - 1) * PAGE, PAGE);
  }

  /**
   Firmware that refuses everything: a call for 9999 pages or more halts after exactly 10000
   requests; a smaller one, or one for a size that the first subtraction takes past the limit,
   returns after as many requests as its size holds pages, and one more.
   */
  lemma RefusedThroughout(policy: Policy, h: seq<Request>, addr: uint64, size: uint64)
    requires forall h', request :: !policy(h', request)
    ensures Tries(policy, h, addr, size) ==
              if size >= 0xffff_ffff_ffff_1000 then 1
              else if size >= 9999 * 0x1000 then 10000
              else size / 0x1000 + 1
    ensures OutcomeOf(policy, h, addr, size) == Halted <==> 9999 * 0x1000 <= size < 0xffff_ffff_ffff_1000
  {
    OnlyOneNumberIsMade(policy, h, addr, size, MostTries(size), Tries(policy, h, addr, size));
    HaltsIffStalls(policy, h, addr, size);
  }

  /** A concrete failure: one byte at 0x1000, all requests refused, and 0x2000 is returned. */
  lemma RefusedCallReturnsAnAddress(policy: Policy, h: seq<Request>)
    requires forall h', request :: !policy(h', request)
    ensures GrantOf(policy, h, 0x1000, 1) == None && OutcomeOf(policy, h, 0x1000, 1) == Returned(0x2000)
  {
    GivenUpMeansNothing(policy, h, 0x1000, 1);
  }

  /** A concrete failure: two bytes across a page boundary need two pages, one is asked for. */
  lemma StraddlingRequestFallsShort(policy: Policy, h: seq<Request>)
    ensures Nth(0xfff, 2, 0) == Request(0, 1)
    ensures !Obtained(GrantOf(policy, h, 0xfff, 2), 0xfff, 2)
  {
    RequestIsServedIff(policy, h, 0xfff, 2, 2);
  }
}
