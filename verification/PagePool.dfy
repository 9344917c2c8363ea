/**
 Allocate under firmware that keeps a pool of pages: it serves a request exactly when it asks for
 at least one page and all of its pages are in the pool and not yet handed out. Here the retries of
 Allocate have a meaning: a call obtains the longest available tail of the pages it counts.
 */
module PagePool {
  import opened Machine
  import opened BootAllocate

  // ----- the firmware

  predicate HasPage(request: Request, page: nat) {
    request.ret / PAGE <= page < request.ret / PAGE + request.pages
  }

  predicate Serves(pool: set<nat>, h: seq<Request>, request: Request)
    decreases |h|, 2
  {
    && request.pages > 0
    && forall page: nat ::
         request.ret / PAGE <= page < request.ret / PAGE + request.pages ==> Available(pool, h, page)
  }

  predicate Available(pool: set<nat>, h: seq<Request>, page: nat)
    decreases |h|, 1
  {
    page in pool && !Taken(pool, h, page)
  }

  /** The page was handed out for one of the requests h. */
  predicate Taken(pool: set<nat>, h: seq<Request>, page: nat)
    decreases |h|, 0
  {
    h != [] &&
    (|| Taken(pool, h[..|h| - 1], page)
     || (HasPage(h[|h| - 1], page) && Serves(pool, h[..|h| - 1], h[|h| - 1])))
  }

  ghost predicate IsPool(policy: Policy, pool: set<nat>) {
    forall h, request :: policy(h, request) <==> Serves(pool, h, request)
  }

  /** There is such firmware for every pool. */
  function PoolPolicy(pool: set<nat>): (policy: Policy)
    ensures IsPool(policy, pool)
  {
    (h, request) => Serves(pool, h, request)
  }

  // ----- what one call obtains

  /** The page is among those counted for the call, and from there on all of them are available. */
  ghost predicate InFreeTail(pool: set<nat>, h: seq<Request>, addr: uint64, size: uint64, page: nat) {
    && addr / PAGE <= page < addr / PAGE + PagesOf(size)
    && forall p: nat :: page <= p < addr / PAGE + PagesOf(size) ==> Available(pool, h, p)
  }

  ghost predicate TailFrom(pool: set<nat>, h: seq<Request>, addr: uint64, size: uint64, k: nat) {
    InFreeTail(pool, h, addr, size, addr / PAGE + k)
  }

  /** A tail extends to the page before it exactly when that is available, and contains those after. */
  lemma TailsGrow(pool: set<nat>, h: seq<Request>, addr: uint64, size: uint64, k: nat)
    requires TailFrom(pool, h, addr, size, k)
    ensures k > 0 ==> (TailFrom(pool, h, addr, size, k - 1) <==> Available(pool, h, addr / PAGE + k - 1))
    ensures forall n: nat :: k <= n < PagesOf(size) ==> TailFrom(pool, h, addr, size, n)
  {}

  /** The call's memory neither wraps at 64 bits nor reaches the size at which the loop gives up. */
  predicate Unwrapped(addr: uint64, size: uint64) {
    size < SIZE_LIMIT && addr + size < TWO_TO_64
  }

  lemma RequestedPages(addr: uint64, size: uint64, k: nat)
    requires Unwrapped(addr, size) && k < Patience(size)
    ensures k <= PagesOf(size)
    ensures Nth(addr, size, k) == Request((addr / PAGE + k) * PAGE, PagesOf(size) - k)
    ensures Nth(addr, size, k).ret / PAGE == addr / PAGE + k
  {
    CountedPagesAreAskedFor(size);
    RetriesAskForTails(addr, size, k);
    RequestedAddress(addr, size, k);
  }

  lemma RequestedAddress(addr: uint64, size: uint64, k: nat)
    requires Unwrapped(addr, size) && k <= size / PAGE
    ensures (PageFloor(addr) + k * PAGE) % TWO_TO_64 == (addr / PAGE + k) * PAGE
  {
    assert PageFloor(addr) + k * PAGE == (addr / PAGE + k) * PAGE < TWO_TO_64;
  }

  /** Refused requests leave the pool as it was. */
  lemma {:induction false} RefusalsTakeNothing(policy: Policy, pool: set<nat>, h: seq<Request>,
                                               addr: uint64, size: uint64, k: nat, page: nat)
    requires IsPool(policy, pool) && RefusedBefore(policy, h, addr, size, k)
    ensures Taken(pool, h + Requests(addr, size, k), page) <==> Taken(pool, h, page)
  {
    if k == 0 {
      assert h + Requests(addr, size, 0) == h;
    } else {
      RefusalsTakeNothing(policy, pool, h, addr, size, k - 1, page);
      assert !Accepts(policy, h, addr, size, k - 1);
      OneMoreTaken(pool, h + Requests(addr, size, k - 1), Nth(addr, size, k - 1), page);
      assert h + Requests(addr, size, k) == h + Requests(addr, size, k - 1) + [Nth(addr, size, k - 1)];
    }
  }

  lemma OneMoreTaken(pool: set<nat>, h: seq<Request>, request: Request, page: nat)
    ensures Taken(pool, h + [request], page) <==>
              Taken(pool, h, page) || (HasPage(request, page) && Serves(pool, h, request))
  {
    assert (h + [request])[..|h|] == h;
  }

  lemma AcceptsIffAvailable(policy: Policy, pool: set<nat>, h: seq<Request>, addr: uint64, size: uint64, k: nat)
    requires IsPool(policy, pool) && Unwrapped(addr, size) && k < Patience(size)
    requires RefusedBefore(policy, h, addr, size, k)
    ensures Accepts(policy, h, addr, size, k) <==> TailFrom(pool, h, addr, size, k)
  {
    var asked, request := h + Requests(addr, size, k), Nth(addr, size, k);
    RequestedPages(addr, size, k);
    forall page: nat
      ensures Available(pool, asked, page) <==> Available(pool, h, page)
    {
      RefusalsTakeNothing(policy, pool, h, addr, size, k, page);
    }
    assert Serves(pool, asked, request) <==> TailFrom(pool, h, addr, size, k);
  }

  /** The number of refusals in a call: no tail before that page is available, and that one is
      granted if it is available. */
  lemma Refusals(policy: Policy, pool: set<nat>, h: seq<Request>, addr: uint64, size: uint64)
    returns (n: nat)
    requires IsPool(policy, pool) && Unwrapped(addr, size)
    ensures n < MAX_TRIES && n < Patience(size)
    ensures forall k: nat :: k < n ==> !TailFrom(pool, h, addr, size, k)
    ensures if TailFrom(pool, h, addr, size, n) then GrantOf(policy, h, addr, size) == Some(Nth(addr, size, n))
            else GrantOf(policy, h, addr, size) == None && n + 1 == MostTries(size)
                 && (Stalls(policy, h, addr, size) <==> n + 1 == MAX_TRIES)
  {
    n := Tries(policy, h, addr, size) - 1;
    assert Makes(policy, h, addr, size, n + 1);
    AcceptsIffAvailable(policy, pool, h, addr, size, n);
    OneMoreRequest(policy, h, addr, size, n);
    forall k: nat | k < n
      ensures !TailFrom(pool, h, addr, size, k)
    {
      assert !Accepts(policy, h, addr, size, k);
      AcceptsIffAvailable(policy, pool, h, addr, size, k);
    }
  }

  lemma CountedPagesAreAskedFor(size: uint64)
    requires size < SIZE_LIMIT
    ensures size / PAGE <= PagesOf(size) <= Patience(size) == size / PAGE + 1
  {}

  /** A call is granted what it asks for after p refusals exactly when the p-th counted page is the
      first of the longest available tail, and the loop lasts until then. */
  lemma RetryIsGrantedIff(policy: Policy, pool: set<nat>, h: seq<Request>, addr: uint64, size: uint64, p: nat)
    requires IsPool(policy, pool) && Unwrapped(addr, size) && p < PagesOf(size)
    ensures GrantOf(policy, h, addr, size) == Some(Nth(addr, size, p)) <==>
              && p < MAX_TRIES
              && InFreeTail(pool, h, addr, size, addr / PAGE + p)
              && (p == 0 || !Available(pool, h, addr / PAGE + p - 1))
  {
    var n := Refusals(policy, pool, h, addr, size);
    CountedPagesAreAskedFor(size);
    OnlyOneRequestLooksLike(addr, size, p, n);
    assert TailFrom(pool, h, addr, size, p) <==> InFreeTail(pool, h, addr, size, addr / PAGE + p);
    if TailFrom(pool, h, addr, size, p) {
      TailsGrow(pool, h, addr, size, p);
    }
    if n < p && TailFrom(pool, h, addr, size, n) {
      TailsGrow(pool, h, addr, size, n);
    }
  }

  lemma OnlyOneRequestLooksLike(addr: uint64, size: uint64, k: nat, n: nat)
    requires Unwrapped(addr, size) && k < Patience(size) && n < Patience(size)
    ensures Nth(addr, size, k) == Nth(addr, size, n) <==> k == n
  {
    RequestedPages(addr, size, k);
    RequestedPages(addr, size, n);
  }

  /** A call that does not halt is granted exactly the longest available tail of its counted pages. */
  lemma GrantIsLongestTail(policy: Policy, pool: set<nat>, h: seq<Request>, addr: uint64, size: uint64, page: nat)
    requires IsPool(policy, pool) && Unwrapped(addr, size) && !Stalls(policy, h, addr, size)
    ensures (var grant := GrantOf(policy, h, addr, size); grant.Some? && HasPage(grant.value, page))
            <==> InFreeTail(pool, h, addr, size, page)
  {
    var n := Refusals(policy, pool, h, addr, size);
    CountedPagesAreAskedFor(size);
    RequestedPages(addr, size, n);
    var k := page - addr / PAGE;
    if 0 <= k {
      assert TailFrom(pool, h, addr, size, k) <==> InFreeTail(pool, h, addr, size, page);
    }
  }

  /** A call that does not halt takes the longest available tail from the pool, and nothing else. */
  lemma CallTakesItsTail(policy: Policy, pool: set<nat>, before: Account, addr: uint64, size: uint64, page: nat)
    requires IsPool(policy, pool) && Unwrapped(addr, size) && !Stalls(policy, before.calls, addr, size)
    ensures Taken(pool, Charged(policy, before, addr, size).calls, page) <==>
              Taken(pool, before.calls, page) || InFreeTail(pool, before.calls, addr, size, page)
  {
    var h, n := before.calls, Tries(policy, before.calls, addr, size) - 1;
    assert Makes(policy, h, addr, size, n + 1);
    OneMoreRequest(policy, h, addr, size, n);
    RefusalsTakeNothing(policy, pool, h, addr, size, n, page);
    OneMoreTaken(pool, h + Requests(addr, size, n), Nth(addr, size, n), page);
    GrantIsLongestTail(policy, pool, h, addr, size, page);
  }

  /** The same byte by byte. */
  lemma GrantHolds(policy: Policy, pool: set<nat>, h: seq<Request>, addr: uint64, size: uint64, a: nat)
    requires IsPool(policy, pool) && Unwrapped(addr, size) && !Stalls(policy, h, addr, size)
    ensures InGrant(GrantOf(policy, h, addr, size), a) <==> InFreeTail(pool, h, addr, size, a / PAGE)
  {
    GrantIsLongestTail(policy, pool, h, addr, size, a / PAGE);
    RequestedPages(addr, size, Tries(policy, h, addr, size) - 1);
  }

  // ----- calls that do not halt

  lemma LongCallsReachTheSecondPage(policy: Policy, pool: set<nat>, h: seq<Request>, addr: uint64, size: uint64)
    requires IsPool(policy, pool) && Unwrapped(addr, size)
    requires forall page: nat :: addr / PAGE + 1 <= page < addr / PAGE + PagesOf(size) ==> Available(pool, h, page)
    ensures !Stalls(policy, h, addr, size)
  {
    var n := Refusals(policy, pool, h, addr, size);
    CountedPagesAreAskedFor(size);
    assert PagesOf(size) > 1 ==> TailFrom(pool, h, addr, size, 1);
    if TailFrom(pool, h, addr, size, 1) {
      TailsGrow(pool, h, addr, size, 1);
    }
  }

  lemma FewTriesDoNotStall(policy: Policy, h: seq<Request>, addr: uint64, size: uint64)
    requires size / PAGE + 1 < MAX_TRIES
    ensures !Stalls(policy, h, addr, size)
  {}
}
