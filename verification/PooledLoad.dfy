/**
 Loading the kernel under firmware that keeps a pool of pages: what the segments' calls obtain
 together, and when everything the load writes lies in pages granted for it. Segments may share a
 page, in which case the retries obtain the later one's other pages.
 */
module PooledLoad {
  import opened Machine
  import opened Bytes
  import opened BootAllocate
  import opened PagePool
  import opened Loader

  // ----- what a load obtains

  /** No memory range wraps at 64 bits. */
  ghost predicate NoneWraps(segments: seq<Segment>) {
    forall s :: s in segments && s.kind == PT_LOAD ==> Unwrapped(s.vaddr, s.memsz)
  }

  /** Loadable segments are listed by ascending p_vaddr (System V gABI, chapter 5). */
  ghost predicate Ascending(segments: seq<Segment>) {
    forall i, j :: 0 <= i < j < |segments| && segments[i].kind == PT_LOAD && segments[j].kind == PT_LOAD ==>
      segments[i].vaddr <= segments[j].vaddr
  }

  /** The page is in the tail that was available for segment s after the requests h. */
  ghost predicate InFreeTailOf(pool: set<nat>, h: seq<Request>, s: Segment, page: nat) {
    s.kind == PT_LOAD && InFreeTail(pool, h, s.vaddr, s.memsz, page)
  }

  ghost predicate InSomeFreeTail(pool: set<nat>, h: seq<Request>, segments: seq<Segment>, page: nat) {
    exists s :: s in segments && InFreeTailOf(pool, h, s, page)
  }

  /** The segments' tails, as they were after h, are what was taken between h and now. */
  ghost predicate TailsTaken(pool: set<nat>, h: seq<Request>, now: seq<Request>, segments: seq<Segment>) {
    forall page: nat :: Taken(pool, now, page) <==> Taken(pool, h, page) || InSomeFreeTail(pool, h, segments, page)
  }

  /**
   A load takes from the pool the tails that were available before it: what earlier segments took
   of a later one's pages is their beginning, and the retries skip it.
   */
  lemma {:induction false} LoadTakesTails(policy: Policy, pool: set<nat>, before: Account,
                                          segments: seq<Segment>, n: nat)
    requires IsPool(policy, pool) && NoneWraps(segments) && Ascending(segments)
    requires n <= |segments| && NoneStalls(policy, before, segments, n)
    ensures TailsTaken(pool, before.calls, AccountAfter(policy, before, segments[..n]).calls, segments[..n])
  {
    if n > 0 {
      LoadTakesTails(policy, pool, before, segments, n - 1);
      NextAccount(policy, before, segments, n - 1);
      assert segments[..n] == segments[..n - 1] + [segments[n - 1]];
      var s, account := segments[n - 1], AccountAfter(policy, before, segments[..n - 1]);
      if s.kind == PT_LOAD {
        assert !StallsAt(policy, before, segments, n - 1);
        NextTakesItsTail(policy, pool, before.calls, account, segments[..n - 1], s);
      }
    }
  }

  lemma NextTakesItsTail(policy: Policy, pool: set<nat>, h: seq<Request>, account: Account,
                         earlier: seq<Segment>, s: Segment)
    requires IsPool(policy, pool) && s.kind == PT_LOAD && Unwrapped(s.vaddr, s.memsz)
    requires !Stalls(policy, account.calls, s.vaddr, s.memsz)
    requires Ascending(earlier + [s]) && TailsTaken(pool, h, account.calls, earlier)
    ensures TailsTaken(pool, h, Charged(policy, account, s.vaddr, s.memsz).calls, earlier + [s])
  {
    forall page: nat
      ensures Taken(pool, Charged(policy, account, s.vaddr, s.memsz).calls, page)
              <==> Taken(pool, h, page) || InSomeFreeTail(pool, h, earlier + [s], page)
    {
      CallTakesItsTail(policy, pool, account, s.vaddr, s.memsz, page);
      SharedPagesComeFirst(pool, h, account.calls, earlier, s, page);
      OneMoreTail(pool, h, earlier, s, page);
    }
  }

  lemma OneMoreTail(pool: set<nat>, h: seq<Request>, earlier: seq<Segment>, s: Segment, page: nat)
    ensures InSomeFreeTail(pool, h, earlier + [s], page) <==>
              InSomeFreeTail(pool, h, earlier, page) || InFreeTailOf(pool, h, s, page)
  {
    assert s in earlier + [s];
  }

  /** Unless an earlier segment took the page, it is in the tail for s when its turn comes exactly
      when it was before the load. */
  lemma SharedPagesComeFirst(pool: set<nat>, h: seq<Request>, now: seq<Request>,
                             earlier: seq<Segment>, s: Segment, page: nat)
    requires Ascending(earlier + [s]) && s.kind == PT_LOAD && TailsTaken(pool, h, now, earlier)
    ensures Taken(pool, now, page) || InFreeTail(pool, now, s.vaddr, s.memsz, page)
            <==> Taken(pool, now, page) || InFreeTail(pool, h, s.vaddr, s.memsz, page)
  {
    forall p: nat
      ensures Available(pool, now, p) <==> Available(pool, h, p) && !InSomeFreeTail(pool, h, earlier, p)
    {
      assert Taken(pool, now, p) <==> Taken(pool, h, p) || InSomeFreeTail(pool, h, earlier, p);
    }
    if InFreeTail(pool, h, s.vaddr, s.memsz, page) && !Taken(pool, now, page) {
      forall p: nat | page <= p < s.vaddr / PAGE + PagesOf(s.memsz)
        ensures Available(pool, now, p)
      {
        assert Available(pool, h, p);
        if InSomeFreeTail(pool, h, earlier, p) {
          TailReachesBack(pool, h, earlier, s, page, p);
        }
      }
    }
  }

  /** An earlier segment's tail that holds a page of the tail of s also holds those before it. */
  lemma TailReachesBack(pool: set<nat>, h: seq<Request>, earlier: seq<Segment>, s: Segment, page: nat, p: nat)
    requires Ascending(earlier + [s]) && s.kind == PT_LOAD
    requires InFreeTail(pool, h, s.vaddr, s.memsz, page) && page <= p < s.vaddr / PAGE + PagesOf(s.memsz)
    requires InSomeFreeTail(pool, h, earlier, p)
    ensures InSomeFreeTail(pool, h, earlier, page)
  {
    var t :| t in earlier && InFreeTailOf(pool, h, t, p);
    ComesBefore(earlier, t, s);
    assert InFreeTailOf(pool, h, t, page);
  }

  lemma ComesBefore(earlier: seq<Segment>, t: Segment, s: Segment)
    requires Ascending(earlier + [s]) && t in earlier && t.kind == PT_LOAD && s.kind == PT_LOAD
    ensures t.vaddr / PAGE <= s.vaddr / PAGE
  {
    var i :| 0 <= i < |earlier| && earlier[i] == t;
    assert (earlier + [s])[i] == t && (earlier + [s])[|earlier|] == s;
  }

  // ----- whether a load stays in the pages it was granted

  /** Byte a lies in pages granted between the two accounts. */
  ghost predicate NewlyGranted(before: Account, after: Account, a: nat) {
    exists i :: |before.granted| <= i < |after.granted| && InPages(after.granted[i], a)
  }

  /** Every byte that is written lies in pages granted since `before`. */
  ghost predicate StaysInGrants(segments: seq<Segment>, before: Account, after: Account) {
    forall s, a: nat :: s in segments && Writes(s, a) ==> NewlyGranted(before, after, a)
  }

  lemma OneMoreGrant(policy: Policy, before: Account, account: Account, addr: uint64, size: uint64, a: nat)
    requires |before.granted| <= |account.granted|
    ensures NewlyGranted(before, Charged(policy, account, addr, size), a) <==>
              NewlyGranted(before, account, a) || InGrant(GrantOf(policy, account.calls, addr, size), a)
  {
    var after, grant := Charged(policy, account, addr, size), GrantOf(policy, account.calls, addr, size);
    var last := |account.granted|;
    if NewlyGranted(before, account, a) {
      var i :| |before.granted| <= i < last && InPages(account.granted[i], a);
      assert after.granted[i] == account.granted[i];
    }
    if grant.Some? {
      assert after.granted[last] == grant.value;
    }
    if NewlyGranted(before, after, a) {
      var i :| |before.granted| <= i < |after.granted| && InPages(after.granted[i], a);
      assert i < last ==> after.granted[i] == account.granted[i];
    }
  }

  /** Byte a is recorded as granted since `before` exactly when its page left the pool since then. */
  ghost predicate Recorded(pool: set<nat>, before: Account, after: Account, a: nat) {
    && |before.granted| <= |after.granted|
    && (Taken(pool, before.calls, a / PAGE) ==> Taken(pool, after.calls, a / PAGE))
    && (NewlyGranted(before, after, a) <==>
          Taken(pool, after.calls, a / PAGE) && !Taken(pool, before.calls, a / PAGE))
  }

  lemma {:induction false} GrantsLeaveThePool(policy: Policy, pool: set<nat>, before: Account,
                                              segments: seq<Segment>, n: nat, a: nat)
    requires IsPool(policy, pool) && NoneWraps(segments)
    requires n <= |segments| && NoneStalls(policy, before, segments, n)
    ensures Recorded(pool, before, AccountAfter(policy, before, segments[..n]), a)
  {
    if n > 0 {
      GrantsLeaveThePool(policy, pool, before, segments, n - 1, a);
      NextAccount(policy, before, segments, n - 1);
      var s := segments[n - 1];
      if s.kind == PT_LOAD {
        assert !StallsAt(policy, before, segments, n - 1);
        NextGrantLeaves(policy, pool, before, AccountAfter(policy, before, segments[..n - 1]), s.vaddr, s.memsz, a);
      }
    }
  }

  lemma NextGrantLeaves(policy: Policy, pool: set<nat>, before: Account, account: Account,
                        addr: uint64, size: uint64, a: nat)
    requires IsPool(policy, pool) && Unwrapped(addr, size) && !Stalls(policy, account.calls, addr, size)
    requires Recorded(pool, before, account, a)
    ensures Recorded(pool, before, Charged(policy, account, addr, size), a)
  {
    CallTakesItsTail(policy, pool, account, addr, size, a / PAGE);
    GrantHolds(policy, pool, account.calls, addr, size, a);
    OneMoreGrant(policy, before, account, addr, size, a);
    assert InFreeTail(pool, account.calls, addr, size, a / PAGE) ==> Available(pool, account.calls, a / PAGE);
  }

  /** A byte is granted during a load that returns exactly when its page was in the available tail
      of some segment's pages before the load. */
  lemma LoadGrantsIff(policy: Policy, pool: set<nat>, before: Account, segments: seq<Segment>, a: nat)
    requires IsPool(policy, pool) && NoneWraps(segments) && Ascending(segments)
    requires NoneStalls(policy, before, segments, |segments|)
    ensures NewlyGranted(before, AccountAfter(policy, before, segments), a) <==>
              InSomeFreeTail(pool, before.calls, segments, a / PAGE)
  {
    assert segments[..|segments|] == segments;
    LoadTakesTails(policy, pool, before, segments, |segments|);
    GrantsLeaveThePool(policy, pool, before, segments, |segments|, a);
    TailsWereAvailable(pool, before.calls, segments, a / PAGE);
  }

  lemma TailsWereAvailable(pool: set<nat>, h: seq<Request>, segments: seq<Segment>, page: nat)
    ensures InSomeFreeTail(pool, h, segments, page) ==> Available(pool, h, page)
  {}

  // ----- loads from a pool with all pages counted

  /** The page is among those asked for first. */
  predicate Counts(s: Segment, page: nat) {
    s.kind == PT_LOAD && s.vaddr / PAGE <= page < s.vaddr / PAGE + PagesOf(s.memsz)
  }

  ghost predicate AllAvailable(pool: set<nat>, h: seq<Request>, segments: seq<Segment>) {
    forall s, page: nat :: s in segments && Counts(s, page) ==> Available(pool, h, page)
  }

  /** Ascending and without overlap. */
  ghost predicate Separate(segments: seq<Segment>) {
    forall i, j :: 0 <= i < j < |segments| && segments[i].kind == PT_LOAD && segments[j].kind == PT_LOAD ==>
      segments[i].vaddr + segments[i].memsz <= segments[j].vaddr
  }

  /** No contents are longer than the memory they go to. */
  ghost predicate ContentsFit(segments: seq<Segment>) {
    forall s :: s in segments && s.kind == PT_LOAD ==> s.filesz <= s.memsz
  }

  /** The last byte of every segment's contents lies in a page that some segment counts. */
  ghost predicate LastBytesCounted(segments: seq<Segment>) {
    forall s :: s in segments && s.kind == PT_LOAD && s.filesz > 0 ==> LastByteCounted(segments, s)
  }

  ghost predicate LastByteCounted(segments: seq<Segment>, s: Segment)
    requires s.filesz > 0
  {
    exists t :: t in segments && Counts(t, LastPage(s))
  }

  /** The page of the last byte of the contents. */
  function LastPage(s: Segment): nat
    requires s.filesz > 0
  {
    (s.vaddr + s.filesz - 1) / PAGE
  }

  lemma TailsAreWhole(pool: set<nat>, h: seq<Request>, segments: seq<Segment>, page: nat)
    requires AllAvailable(pool, h, segments)
    ensures InSomeFreeTail(pool, h, segments, page) <==> exists t :: t in segments && Counts(t, page)
  {
    forall t | t in segments && Counts(t, page)
      ensures InFreeTailOf(pool, h, t, page)
    {
      forall p: nat | page <= p < t.vaddr / PAGE + PagesOf(t.memsz)
        ensures Available(pool, h, p)
      {
        assert Counts(t, p);
      }
    }
  }

  /** Only the last byte of the contents can miss the pages counted for its segment. */
  lemma EarlierPagesAreCounted(s: Segment, a: nat)
    requires Writes(s, a) && s.filesz <= s.memsz < SIZE_LIMIT
    ensures Counts(s, a / PAGE) || a / PAGE == LastPage(s)
  {}

  /** From a pool that has all the pages counted, a load that does not halt writes only into pages
      granted for it if and only if the last byte of every segment is in some segment's pages. */
  lemma LoadStaysInGrantsIff(policy: Policy, pool: set<nat>, before: Account, segments: seq<Segment>)
    requires IsPool(policy, pool) && NoneWraps(segments) && Ascending(segments) && ContentsFit(segments)
    requires AllAvailable(pool, before.calls, segments)
    requires NoneStalls(policy, before, segments, |segments|)
    ensures StaysInGrants(segments, before, AccountAfter(policy, before, segments)) <==> LastBytesCounted(segments)
  {
    var after := AccountAfter(policy, before, segments);
    forall a: nat
      ensures NewlyGranted(before, after, a) <==> exists t :: t in segments && Counts(t, a / PAGE)
    {
      LoadGrantsIff(policy, pool, before, segments, a);
      TailsAreWhole(pool, before.calls, segments, a / PAGE);
    }
    if StaysInGrants(segments, before, after) {
      forall s | s in segments && s.kind == PT_LOAD && s.filesz > 0
        ensures LastByteCounted(segments, s)
      {
        assert Writes(s, s.vaddr + s.filesz - 1);
      }
    }
    if LastBytesCounted(segments) {
      forall s, a: nat | s in segments && Writes(s, a)
        ensures NewlyGranted(before, after, a)
      {
        assert Unwrapped(s.vaddr, s.memsz) && LastByteCounted(segments, s);
        EarlierPagesAreCounted(s, a);
      }
    }
  }

  /** When no segments overlap, such a load does not halt: of a segment's pages at most the first is
      taken when its turn comes. */
  lemma {:induction false} NothingStalls(policy: Policy, pool: set<nat>, before: Account,
                                         segments: seq<Segment>, n: nat)
    requires IsPool(policy, pool) && NoneWraps(segments) && Separate(segments)
    requires AllAvailable(pool, before.calls, segments) && n <= |segments|
    ensures NoneStalls(policy, before, segments, n)
  {
    if n > 0 {
      NothingStalls(policy, pool, before, segments, n - 1);
      if segments[n - 1].kind == PT_LOAD {
        NextDoesNotHalt(policy, pool, before, segments, n - 1);
      }
      NextDoesNotStall(policy, before, segments, n - 1);
    }
  }

  lemma NextDoesNotHalt(policy: Policy, pool: set<nat>, before: Account, segments: seq<Segment>, n: nat)
    requires IsPool(policy, pool) && NoneWraps(segments) && Separate(segments)
    requires AllAvailable(pool, before.calls, segments)
    requires n < |segments| && NoneStalls(policy, before, segments, n) && segments[n].kind == PT_LOAD
    ensures !StallsAt(policy, before, segments, n)
  {
    var s, h := segments[n], HistoryAt(policy, before, segments, n);
    assert Unwrapped(s.vaddr, s.memsz);
    LoadTakesTails(policy, pool, before, segments, n);
    forall page: nat | s.vaddr / PAGE + 1 <= page && Counts(s, page)
      ensures Available(pool, h, page)
    {
      assert Available(pool, before.calls, page);
      if InSomeFreeTail(pool, before.calls, segments[..n], page) {
        var i: nat :| i < n && InFreeTailOf(pool, before.calls, segments[i], page);
        NoCommonPage(segments[i], s, page);
      }
    }
    LongCallsReachTheSecondPage(policy, pool, h, s.vaddr, s.memsz);
  }

  /** Segments that do not overlap count at most one page in common, the first of the later one. */
  lemma NoCommonPage(earlier: Segment, s: Segment, page: nat)
    requires Counts(earlier, page) && earlier.memsz < SIZE_LIMIT && earlier.vaddr + earlier.memsz <= s.vaddr
    ensures page <= s.vaddr / PAGE
  {}

  /**
   The loader on such firmware: exactly which bytes were granted, whatever the state of the pool;
   from a pool with all pages counted, whether it stayed in granted pages; and when no segments
   overlap either, that it returns.
   */
  method LoadFromPool(memory: array<uint8>, startAddr: nat, bs: BootServices,
                      ghost image: seq<uint8>, ghost segments: seq<Segment>, ghost pool: set<nat>)
    returns (r: LoadResult)
    requires ImageAt(memory[..], startAddr, image)
    requires HeadersOf(image, segments) && |segments| == PhNum(image)
    requires Loadable(segments, startAddr, image, memory.Length)
    requires IsPool(bs.policy, pool) && NoneWraps(segments) && Ascending(segments)
    modifies memory, bs
    ensures r.Entry? ==> Loaded(old(memory[..]), startAddr, image, segments, memory[..])
    ensures r.Entry? ==> forall a: nat ::
              NewlyGranted(old(bs.State()), bs.State(), a) <==> InSomeFreeTail(pool, old(bs.calls), segments, a / PAGE)
    ensures r.Entry? && StaysInGrants(segments, old(bs.State()), bs.State()) ==>
              ChangesStayInGrants(old(memory[..]), memory[..], old(bs.State()), bs.State())
    ensures r.Entry? && AllAvailable(pool, old(bs.calls), segments) && ContentsFit(segments) ==>
              (StaysInGrants(segments, old(bs.State()), bs.State()) <==> LastBytesCounted(segments))
    ensures AllAvailable(pool, old(bs.calls), segments) && Separate(segments) ==> r == Entry(U64(image, E_ENTRY))
  {
    ghost var m, before, policy := memory[..], bs.State(), bs.policy;
    r := LoadKernel(memory, startAddr, bs, image, segments);
    if Separate(segments) && AllAvailable(pool, before.calls, segments) {
      NothingStalls(policy, pool, before, segments, |segments|);
    }
    if r.Entry? {
      if ContentsFit(segments) && AllAvailable(pool, before.calls, segments) {
        LoadStaysInGrantsIff(policy, pool, before, segments);
      }
      assert segments[..|segments|] == segments;
      forall a: nat {
        LoadGrantsIff(policy, pool, before, segments, a);
      }
      ChangesAreWrites(m, startAddr, image, segments, memory[..], before, bs.State());
    }
  }

  /** Every byte that the load changed lies in pages granted during it. */
  ghost predicate ChangesStayInGrants(m: seq<uint8>, now: seq<uint8>, before: Account, after: Account)
    requires |m| == |now|
  {
    forall a :: 0 <= a < |m| && now[a] != m[a] ==> NewlyGranted(before, after, a)
  }

  lemma ChangesAreWrites(m: seq<uint8>, start: nat, image: seq<uint8>, segments: seq<Segment>, now: seq<uint8>,
                         before: Account, after: Account)
    requires Loadable(segments, start, image, |m|) && Loaded(m, start, image, segments, now)
    ensures StaysInGrants(segments, before, after) ==> ChangesStayInGrants(m, now, before, after)
  {
    forall a | 0 <= a < |m| && now[a] != m[a] && StaysInGrants(segments, before, after)
      ensures NewlyGranted(before, after, a)
    {
      if forall s :: s in segments ==> !Writes(s, a) {
        TheRestIsUnchanged(m, start, image, segments, a);
      }
    }
  }

  // ----- a concrete load that needs a retry

  const FIRST := Segment(PT_LOAD, 0, 0x1000, 0x1800, 0x1800)
  const SECOND := Segment(PT_LOAD, 0, 0x2800, 0x1800, 0x1800)

  /** Two segments share page 2. The second one's first request is refused because the first one
      holds that page, its retry is granted page 3, and all that the load writes is granted. */
  lemma SharedPageIsRetried(policy: Policy, pool: set<nat>, before: Account)
    requires IsPool(policy, pool) && forall page: nat :: 1 <= page < 4 ==> Available(pool, before.calls, page)
    ensures Separate([FIRST, SECOND]) && ContentsFit([FIRST, SECOND]) && LastBytesCounted([FIRST, SECOND])
    ensures GrantFor(policy, before, [FIRST, SECOND], 0) == Some(Request(0x1000, 2))
    ensures GrantFor(policy, before, [FIRST, SECOND], 1) == Some(Request(0x3000, 1))
    ensures StaysInGrants([FIRST, SECOND], before, AccountAfter(policy, before, [FIRST, SECOND]))
  {
    var segments := [FIRST, SECOND];
    FirstCall(policy, pool, before);
    SecondCall(policy, pool, before);
    assert segments[..0] == [] && segments[..1] == [FIRST];
    NextAccount(policy, before, segments, 0);
    SharingSegmentsAreSeparate();
    NothingStalls(policy, pool, before, segments, 2);
    LoadStaysInGrantsIff(policy, pool, before, segments);
  }

  lemma SharingSegmentsAreSeparate()
    ensures NoneWraps([FIRST, SECOND]) && Separate([FIRST, SECOND])
    ensures ContentsFit([FIRST, SECOND]) && LastBytesCounted([FIRST, SECOND])
    ensures forall s, page: nat :: s in [FIRST, SECOND] && Counts(s, page) ==> 1 <= page < 4
  {
    assert LastByteCounted([FIRST, SECOND], FIRST) by {
      assert Counts(FIRST, LastPage(FIRST));
    }
    assert LastByteCounted([FIRST, SECOND], SECOND) by {
      assert Counts(SECOND, LastPage(SECOND));
    }
  }

  lemma FirstCall(policy: Policy, pool: set<nat>, before: Account)
    requires IsPool(policy, pool) && forall page: nat :: 1 <= page < 4 ==> Available(pool, before.calls, page)
    ensures GrantOf(policy, before.calls, 0x1000, 0x1800) == Some(Request(0x1000, 2))
  {
    RequestedPages(0x1000, 0x1800, 0);
    RetryIsGrantedIff(policy, pool, before.calls, 0x1000, 0x1800, 0);
  }

  lemma SecondCall(policy: Policy, pool: set<nat>, before: Account)
    requires IsPool(policy, pool) && forall page: nat :: 1 <= page < 4 ==> Available(pool, before.calls, page)
    ensures GrantOf(policy, Charged(policy, before, 0x1000, 0x1800).calls, 0x2800, 0x1800)
            == Some(Request(0x3000, 1))
  {
    var h := Charged(policy, before, 0x1000, 0x1800).calls;
    FewTriesDoNotStall(policy, before.calls, 0x1000, 0x1800);
    CallTakesItsTail(policy, pool, before, 0x1000, 0x1800, 2);
    CallTakesItsTail(policy, pool, before, 0x1000, 0x1800, 3);
    assert Available(pool, before.calls, 2) && Available(pool, before.calls, 3);
    assert !Available(pool, h, 2) && Available(pool, h, 3);
    RequestedPages(0x2800, 0x1800, 1);
    RetryIsGrantedIff(policy, pool, h, 0x2800, 0x1800, 1);
  }
}
