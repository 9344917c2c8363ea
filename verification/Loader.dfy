/**
 Loading the kernel's ELF image (LoadKernel in boot/MosaLoader.c). Memory is an array indexed by
 physical address; the headers are read from it as the copies go on. Field offsets are those of
 the ELF-64 header and program header (System V gABI, chapters 4 and 5).
 */
module Loader {
  import opened Machine
  import opened Bytes
  import opened BootAllocate

  const PT_LOAD: uint32 := 1

  // offsets in the ELF header
  const E_ENTRY := 24
  const E_PHOFF := 32
  const E_PHENTSIZE := 54
  const E_PHNUM := 56
  const EHDR_SIZE := 64

  // offsets in a program header
  const P_TYPE := 0
  const P_OFFSET := 8
  const P_VADDR := 16
  const P_FILESZ := 32
  const P_MEMSZ := 40
  const PHDR_SIZE := 56

  datatype Segment = Segment(kind: uint32, offset: uint64, vaddr: uint64, filesz: uint64, memsz: uint64)

  // ----- the headers of an image

  function SegmentAt(m: seq<uint8>, at: nat): Segment
    requires at + PHDR_SIZE <= |m|
  {
    Segment(U32(m, at + P_TYPE), U64(m, at + P_OFFSET), U64(m, at + P_VADDR),
            U64(m, at + P_FILESZ), U64(m, at + P_MEMSZ))
  }

  /** Where program header i starts in the image. */
  function HeaderOffset(image: seq<uint8>, i: nat): nat
    requires EHDR_SIZE <= |image|
  {
    U64(image, E_PHOFF) + TableOffset(i, U16(image, E_PHENTSIZE))
  }

  function TableOffset(i: nat, size: nat): nat {
    i * size
  }

  /** The number of headers the loop runs over: e_phnum kept in 8 bits. */
  function PhNum(image: seq<uint8>): uint8
    requires EHDR_SIZE <= |image|
  {
    U16(image, E_PHNUM) % 0x100
  }

  /** Segment i is what program header i of the image says. */
  ghost predicate IsHeader(image: seq<uint8>, segments: seq<Segment>, i: nat)
    requires EHDR_SIZE <= |image| && i < |segments|
  {
    && HeaderOffset(image, i) + PHDR_SIZE <= |image|
    && segments[i] == SegmentAt(image, HeaderOffset(image, i))
  }

  /** The segments are the first program headers of the image, all inside it. */
  ghost predicate HeadersOf(image: seq<uint8>, segments: seq<Segment>) {
    EHDR_SIZE <= |image| && forall i: nat :: i < |segments| ==> IsHeader(image, segments, i)
  }

  // ----- what loading does to memory

  /** The contents lie in the image at `start`; the destination lies in memory, outside the image. */
  predicate Placeable(s: Segment, start: nat, image: seq<uint8>, memory: nat) {
    && s.offset + s.filesz <= |image|
    && s.vaddr + s.filesz <= memory
    && (s.vaddr + s.filesz <= start || start + |image| <= s.vaddr)
  }

  ghost predicate Loadable(segments: seq<Segment>, start: nat, image: seq<uint8>, memory: nat) {
    forall i :: 0 <= i < |segments| && segments[i].kind == PT_LOAD ==>
      Placeable(segments[i], start, image, memory)
  }

  /** Segment s writes the byte at address a. */
  predicate Writes(s: Segment, a: nat) {
    s.kind == PT_LOAD && s.vaddr <= a < s.vaddr + s.filesz
  }

  /** The byte at address a after loading the segments: the last segment to write it wins. */
  ghost function LoadedByte(m: seq<uint8>, image: seq<uint8>, segments: seq<Segment>, a: nat): uint8
    requires a < |m| && forall i :: 0 <= i < |segments| && segments[i].kind == PT_LOAD ==>
                               segments[i].offset + segments[i].filesz <= |image|
  {
    if segments == [] then m[a]
    else
      var s := segments[|segments| - 1];
      if Writes(s, a) then image[s.offset + (a - s.vaddr)]
      else LoadedByte(m, image, segments[..|segments| - 1], a)
  }

  /** Memory `now` is memory m with the segments of the image at `start` loaded. */
  ghost predicate Loaded(m: seq<uint8>, start: nat, image: seq<uint8>, segments: seq<Segment>, now: seq<uint8>)
    requires Loadable(segments, start, image, |m|)
  {
    |now| == |m| && forall a :: 0 <= a < |m| ==> now[a] == LoadedByte(m, image, segments, a)
  }

  /** The image is in memory at `start`. */
  ghost predicate ImageAt(m: seq<uint8>, start: nat, image: seq<uint8>) {
    start + |image| <= |m| && forall k :: 0 <= k < |image| ==> m[start + k] == image[k]
  }

  // ----- what loading asks of the firmware

  /** The firmware's account once the segments are allocated for, one call for each loadable one. */
  ghost function AccountAfter(policy: Policy, before: Account, segments: seq<Segment>): Account {
    if segments == [] then before
    else
      var s, account := segments[|segments| - 1], AccountAfter(policy, before, segments[..|segments| - 1]);
      if s.kind == PT_LOAD then Charged(policy, account, s.vaddr, s.memsz) else account
  }

  /** What the firmware was asked before segment i. */
  ghost function HistoryAt(policy: Policy, before: Account, segments: seq<Segment>, i: nat): seq<Request>
    requires i < |segments|
  {
    AccountAfter(policy, before, segments[..i]).calls
  }

  /** The loader halts in the allocation for segment i. */
  ghost predicate StallsAt(policy: Policy, before: Account, segments: seq<Segment>, i: nat)
    requires i < |segments|
  {
    var s := segments[i];
    s.kind == PT_LOAD && Stalls(policy, HistoryAt(policy, before, segments, i), s.vaddr, s.memsz)
  }

  ghost predicate NoneStalls(policy: Policy, before: Account, segments: seq<Segment>, n: nat)
    requires n <= |segments|
  {
    forall i: nat :: i < n ==> !StallsAt(policy, before, segments, i)
  }

  lemma NextDoesNotStall(policy: Policy, before: Account, segments: seq<Segment>, n: nat)
    requires n < |segments| && NoneStalls(policy, before, segments, n)
    requires segments[n].kind == PT_LOAD ==> !StallsAt(policy, before, segments, n)
    ensures NoneStalls(policy, before, segments, n + 1)
  {}

  lemma NextAccount(policy: Policy, before: Account, segments: seq<Segment>, i: nat)
    requires i < |segments|
    ensures var s, account := segments[i], AccountAfter(policy, before, segments[..i]);
            AccountAfter(policy, before, segments[..i + 1]) ==
              if s.kind == PT_LOAD then Charged(policy, account, s.vaddr, s.memsz) else account
  {
    var upTo := segments[..i + 1];
    assert upTo[..|upTo| - 1] == segments[..i];
  }

  datatype LoadResult =
    | Entry(address: uint64)
    | Stuck(header: nat)  // the loader halted inside Allocate, for this header

  /** The bytes [dst, dst + len) of `now` are [src, src + len) of `before`; the others are unchanged. */
  ghost predicate Copied(before: seq<uint8>, now: seq<uint8>, dst: nat, src: nat, len: nat) {
    && |now| == |before| && dst + len <= |before| && src + len <= |before|
    && forall a {:trigger now[a]} :: 0 <= a < |before| ==>
         now[a] == if dst <= a < dst + len then before[src + (a - dst)] else before[a]
  }

  /** Copies like memmove: the source is read before anything is written. */
  method CopyMem(memory: array<uint8>, dst: nat, src: nat, len: nat)
    requires dst + len <= memory.Length && src + len <= memory.Length
    modifies memory
    ensures Copied(old(memory[..]), memory[..], dst, src, len)
  {
    forall k | 0 <= k < len {
      memory[dst + k] := memory[src + k];
    }
  }

  /** What the loader has done once the first n segments are processed. */
  ghost predicate Progress(m: seq<uint8>, start: nat, image: seq<uint8>, segments: seq<Segment>, n: nat,
                           now: seq<uint8>, policy: Policy, before: Account, account: Account)
    requires n <= |segments| && Loadable(segments, start, image, |m|)
  {
    && Loaded(m, start, image, segments[..n], now)
    && NoneStalls(policy, before, segments, n)
    && account == AccountAfter(policy, before, segments[..n])
  }

  /**
   For every firmware: either all counted headers were processed and the entry point is returned, or
   the loader halted at the first loadable segment for which the allocation stalls, with the earlier
   ones in place.
   */
  method LoadKernel(memory: array<uint8>, startAddr: nat, bs: BootServices,
                    ghost image: seq<uint8>, ghost segments: seq<Segment>)
    returns (r: LoadResult)
    requires ImageAt(memory[..], startAddr, image)
    requires HeadersOf(image, segments) && |segments| == PhNum(image)
    requires Loadable(segments, startAddr, image, memory.Length)
    modifies memory, bs
    ensures match r
            case Entry(address) =>
              && address == U64(image, E_ENTRY)
              && Progress(old(memory[..]), startAddr, image, segments, |segments|, memory[..],
                          bs.policy, old(bs.State()), bs.State())
            case Stuck(i) =>
              && i < |segments| && StallsAt(bs.policy, old(bs.State()), segments, i)
              && Progress(old(memory[..]), startAddr, image, segments, i, memory[..],
                          bs.policy, old(bs.State()), AccountAfter(bs.policy, old(bs.State()), segments[..i]))
              && bs.State() == AccountAfter(bs.policy, old(bs.State()), segments[..i + 1])
  {
    ghost var m, before := memory[..], bs.State();
    var pht, phNum, phSize := ReadTable(memory, startAddr, image);
    var i: nat := 0;
    while i < phNum
      invariant i <= phNum && pht == startAddr + HeaderOffset(image, i)
      invariant Progress(m, startAddr, image, segments, i, memory[..], bs.policy, before, bs.State())
      invariant ImageAt(memory[..], startAddr, image)
    {
      var segment := ReadSegment(memory, pht, startAddr, image, segments, i);
      if segment.kind == PT_LOAD {
        var halted := LoadSegment(memory, startAddr, segment, bs, m, image, segments, i, before);
        if halted {
          return Stuck(i);
        }
      } else {
        OtherIsPassedOver(m, startAddr, image, segments, i, memory[..], bs.policy, before, bs.State());
      }
      NextHeader(image, i);
      pht := pht + phSize;
      i := i + 1;
    }
    var entry := ReadEntry(memory, startAddr, image);
    return Entry(entry);
  }

  /** Reads where the program headers start, how many are counted and how far apart they are. */
  method ReadTable(memory: array<uint8>, startAddr: nat, ghost image: seq<uint8>)
    returns (pht: nat, phNum: uint8, phSize: nat)
    requires ImageAt(memory[..], startAddr, image) && EHDR_SIZE <= |image|
    ensures pht == startAddr + HeaderOffset(image, 0)
    ensures phNum == PhNum(image)
    ensures phSize == U16(image, E_PHENTSIZE)
  {
    ReadsImage(memory[..], startAddr, image);
    pht := startAddr + U64(memory[..], startAddr + E_PHOFF);
    phNum := U16(memory[..], startAddr + E_PHNUM) % 0x100;
    phSize := U16(memory[..], startAddr + E_PHENTSIZE);
  }

  /** Reads the entry point once everything is copied. */
  method ReadEntry(memory: array<uint8>, startAddr: nat, ghost image: seq<uint8>) returns (entry: uint64)
    requires ImageAt(memory[..], startAddr, image) && EHDR_SIZE <= |image|
    ensures entry == U64(image, E_ENTRY)
  {
    ReadsImage(memory[..], startAddr, image);
    return U64(memory[..], startAddr + E_ENTRY);
  }

  /** Reads program header i from memory. */
  method ReadSegment(memory: array<uint8>, pht: nat, ghost start: nat, ghost image: seq<uint8>,
                     ghost segments: seq<Segment>, ghost i: nat)
    returns (s: Segment)
    requires ImageAt(memory[..], start, image) && HeadersOf(image, segments) && i < |segments|
    requires pht == start + HeaderOffset(image, i)
    ensures s == segments[i]
  {
    assert IsHeader(image, segments, i);
    ReadsSegment(memory[..], start, image, HeaderOffset(image, i));
    return SegmentAt(memory[..], pht);
  }

  /** Allocates pages for segment i, a loadable one, and copies its contents to its place. */
  method LoadSegment(memory: array<uint8>, startAddr: nat, segment: Segment, bs: BootServices,
                     ghost m: seq<uint8>, ghost image: seq<uint8>, ghost segments: seq<Segment>, ghost i: nat,
                     ghost before: Account)
    returns (halted: bool)
    requires |m| == memory.Length && Loadable(segments, startAddr, image, |m|)
    requires i < |segments| && segments[i] == segment && segment.kind == PT_LOAD
    requires Progress(m, startAddr, image, segments, i, memory[..], bs.policy, before, bs.State())
    requires ImageAt(memory[..], startAddr, image)
    modifies memory, bs
    ensures halted <==> StallsAt(bs.policy, before, segments, i)
    ensures bs.State() == AccountAfter(bs.policy, before, segments[..i + 1])
    ensures if halted then memory[..] == old(memory[..])
            else Progress(m, startAddr, image, segments, i + 1, memory[..], bs.policy, before, bs.State())
                 && ImageAt(memory[..], startAddr, image)
  {
    var o := Allocate(segment.vaddr, segment.memsz, bs);
    NextAccount(bs.policy, before, segments, i);
    HaltsIffStalls(bs.policy, HistoryAt(bs.policy, before, segments, i), segment.vaddr, segment.memsz);
    if o.Halted? {
      return true;
    }
    ghost var was := memory[..];
    CopyMem(memory, segment.vaddr, startAddr + segment.offset, segment.filesz);
    CopyLoads(m, startAddr, image, segments, i, was, memory[..]);
    NextDoesNotStall(bs.policy, before, segments, i);
    return false;
  }

  lemma OtherIsPassedOver(m: seq<uint8>, start: nat, image: seq<uint8>, segments: seq<Segment>, i: nat,
                          now: seq<uint8>, policy: Policy, before: Account, account: Account)
    requires i < |segments| && Loadable(segments, start, image, |m|) && segments[i].kind != PT_LOAD
    requires Progress(m, start, image, segments, i, now, policy, before, account)
    ensures Progress(m, start, image, segments, i + 1, now, policy, before, account)
  {
    OtherLoadsNothing(m, start, image, segments, i, now);
    NextAccount(policy, before, segments, i);
    NextDoesNotStall(policy, before, segments, i);
  }

  lemma NextHeader(image: seq<uint8>, i: nat)
    requires EHDR_SIZE <= |image|
    ensures HeaderOffset(image, i + 1) == HeaderOffset(image, i) + U16(image, E_PHENTSIZE)
  {}

  lemma ReadsImage(now: seq<uint8>, start: nat, image: seq<uint8>)
    requires ImageAt(now, start, image) && EHDR_SIZE <= |image|
    ensures U64(now, start + E_PHOFF) == U64(image, E_PHOFF)
    ensures U64(now, start + E_ENTRY) == U64(image, E_ENTRY)
    ensures U16(now, start + E_PHNUM) == U16(image, E_PHNUM)
    ensures U16(now, start + E_PHENTSIZE) == U16(image, E_PHENTSIZE)
  {}

  lemma ReadsSegment(now: seq<uint8>, start: nat, image: seq<uint8>, at: nat)
    requires ImageAt(now, start, image) && at + PHDR_SIZE <= |image|
    ensures SegmentAt(now, start + at) == SegmentAt(image, at)
  {}

  lemma CopyLoads(m: seq<uint8>, start: nat, image: seq<uint8>, segments: seq<Segment>, i: nat,
                  before: seq<uint8>, now: seq<uint8>)
    requires i < |segments| && Loadable(segments, start, image, |m|) && segments[i].kind == PT_LOAD
    requires Loaded(m, start, image, segments[..i], before) && ImageAt(before, start, image)
    requires Copied(before, now, segments[i].vaddr, start + segments[i].offset, segments[i].filesz)
    ensures Loaded(m, start, image, segments[..i + 1], now) && ImageAt(now, start, image)
  {
    var s := segments[i];
    assert Placeable(s, start, image, |m|);
    forall a | 0 <= a < |m|
      ensures now[a] == LoadedByte(m, image, segments[..i + 1], a)
    {
      LastSegment(m, start, image, segments, i, a);
      if Writes(s, a) {
        assert before[start + (s.offset + (a - s.vaddr))] == image[s.offset + (a - s.vaddr)];
      }
    }
    forall k | 0 <= k < |image|
      ensures now[start + k] == image[k]
    {
      assert before[start + k] == image[k];
    }
  }

  lemma OtherLoadsNothing(m: seq<uint8>, start: nat, image: seq<uint8>, segments: seq<Segment>, i: nat,
                          now: seq<uint8>)
    requires i < |segments| && Loadable(segments, start, image, |m|) && segments[i].kind != PT_LOAD
    requires Loaded(m, start, image, segments[..i], now)
    ensures Loaded(m, start, image, segments[..i + 1], now)
  {
    forall a | 0 <= a < |m|
      ensures now[a] == LoadedByte(m, image, segments[..i + 1], a)
    {
      LastSegment(m, start, image, segments, i, a);
    }
  }

  lemma LastSegment(m: seq<uint8>, start: nat, image: seq<uint8>, segments: seq<Segment>, i: nat, a: nat)
    requires i < |segments| && a < |m| && Loadable(segments, start, image, |m|)
    ensures var s := segments[i];
            LoadedByte(m, image, segments[..i + 1], a) ==
              if Writes(s, a) then image[s.offset + (a - s.vaddr)] else LoadedByte(m, image, segments[..i], a)
  {
    var upTo := segments[..i + 1];
    assert upTo[..|upTo| - 1] == segments[..i];
    assert upTo[|upTo| - 1] == segments[i];
  }

  // ----- what a complete load means

  /** No byte of memory belongs to two loadable segments. */
  ghost predicate Disjoint(segments: seq<Segment>) {
    forall i, j :: 0 <= i < j < |segments| && segments[i].kind == PT_LOAD && segments[j].kind == PT_LOAD ==>
      || segments[i].vaddr + segments[i].filesz <= segments[j].vaddr
      || segments[j].vaddr + segments[j].filesz <= segments[i].vaddr
  }

  /** With disjoint destinations every loadable segment is in memory, byte for byte. */
  lemma {:induction false} EverySegmentIsLoaded(m: seq<uint8>, start: nat, image: seq<uint8>,
                                                segments: seq<Segment>, i: nat, k: nat)
    requires Loadable(segments, start, image, |m|) && Disjoint(segments) && i < |segments|
    requires segments[i].kind == PT_LOAD && k < segments[i].filesz
    ensures LoadedByte(m, image, segments, segments[i].vaddr + k) == image[segments[i].offset + k]
  {
    var last := |segments| - 1;
    if i < last {
      assert !Writes(segments[last], segments[i].vaddr + k);
      EverySegmentIsLoaded(m, start, image, segments[..last], i, k);
    }
  }

  /** A byte that several segments write is that of the last of them. */
  lemma {:induction false} LastWriterWins(m: seq<uint8>, start: nat, image: seq<uint8>, segments: seq<Segment>,
                                          i: nat, a: nat)
    requires Loadable(segments, start, image, |m|) && i < |segments| && Writes(segments[i], a) && a < |m|
    requires forall j :: i < j < |segments| ==> !Writes(segments[j], a)
    ensures segments[i].offset + (a - segments[i].vaddr) < |image|
    ensures LoadedByte(m, image, segments, a) == image[segments[i].offset + (a - segments[i].vaddr)]
  {
    var last := |segments| - 1;
    if i < last {
      LastWriterWins(m, start, image, segments[..last], i, a);
    }
  }

  /** What no loadable segment contains is unchanged. */
  lemma {:induction false} TheRestIsUnchanged(m: seq<uint8>, start: nat, image: seq<uint8>,
                                              segments: seq<Segment>, a: nat)
    requires Loadable(segments, start, image, |m|) && a < |m|
    requires forall s :: s in segments ==> !Writes(s, a)
    ensures LoadedByte(m, image, segments, a) == m[a]
  {
    if segments != [] {
      var last := |segments| - 1;
      assert segments[last] in segments;
      TheRestIsUnchanged(m, start, image, segments[..last], a);
    }
  }

  /** Byte a lies in the part of segment s that the file does not hold, and no segment's contents go there. */
  ghost predicate InTail(s: Segment, segments: seq<Segment>, memory: nat, a: nat) {
    && s.kind == PT_LOAD
    && s.vaddr + s.filesz <= a < s.vaddr + s.memsz
    && a < memory
    && forall t :: t in segments ==> !Writes(t, a)
  }

  /**
   The gABI wants zeros in the part of a segment between p_filesz and p_memsz. The loader does not
   write there, so it is zero exactly when it was zero before.
   */
  lemma TailIsZeroIffItWas(m: seq<uint8>, start: nat, image: seq<uint8>, segments: seq<Segment>, i: nat)
    requires Loadable(segments, start, image, |m|) && i < |segments|
    ensures (forall a: nat :: InTail(segments[i], segments, |m|, a) ==> LoadedByte(m, image, segments, a) == 0)
            <==> (forall a: nat :: InTail(segments[i], segments, |m|, a) ==> m[a] == 0)
  {
    forall a: nat | InTail(segments[i], segments, |m|, a)
      ensures LoadedByte(m, image, segments, a) == m[a]
    {
      TheRestIsUnchanged(m, start, image, segments, a);
    }
  }

  // ----- which headers are reached

  /** The contents of a loadable segment are in memory. */
  ghost predicate InPlace(now: seq<uint8>, image: seq<uint8>, s: Segment)
    requires s.kind == PT_LOAD ==> s.offset + s.filesz <= |image| && s.vaddr + s.filesz <= |now|
  {
    s.kind == PT_LOAD ==> forall k: nat :: k < s.filesz ==> SameByte(now, s.vaddr, image, s.offset, k)
  }

  predicate SameByte(now: seq<uint8>, vaddr: nat, image: seq<uint8>, offset: nat, k: nat)
    requires vaddr + k < |now| && offset + k < |image|
  {
    now[vaddr + k] == image[offset + k]
  }

  /** All segments of a file, of which only the first p were loaded, are in place exactly when the
      others already were. */
  lemma AllInPlaceIff(m: seq<uint8>, start: nat, image: seq<uint8>, segments: seq<Segment>, p: nat, now: seq<uint8>)
    requires Loadable(segments, start, image, |m|) && Disjoint(segments) && p <= |segments|
    requires Loaded(m, start, image, segments[..p], now)
    ensures (forall i :: 0 <= i < |segments| ==> InPlace(now, image, segments[i]))
            <==> (forall i :: p <= i < |segments| ==> InPlace(m, image, segments[i]))
  {
    forall i: nat | i < p
      ensures InPlace(now, image, segments[i])
    {
      ReachedIsInPlace(m, start, image, segments, p, now, i);
    }
    forall i: nat | p <= i < |segments|
      ensures InPlace(now, image, segments[i]) <==> InPlace(m, image, segments[i])
    {
      UnreachedIsUntouched(m, start, image, segments, p, now, i);
    }
  }

  lemma ReachedIsInPlace(m: seq<uint8>, start: nat, image: seq<uint8>, segments: seq<Segment>, p: nat,
                         now: seq<uint8>, i: nat)
    requires Loadable(segments, start, image, |m|) && Disjoint(segments) && i < p <= |segments|
    requires Loaded(m, start, image, segments[..p], now)
    ensures InPlace(now, image, segments[i])
  {
    var s := segments[i];
    if s.kind == PT_LOAD {
      forall k: nat | k < s.filesz
        ensures SameByte(now, s.vaddr, image, s.offset, k)
      {
        EverySegmentIsLoaded(m, start, image, segments[..p], i, k);
      }
    }
  }

  lemma UnreachedIsUntouched(m: seq<uint8>, start: nat, image: seq<uint8>, segments: seq<Segment>, p: nat,
                             now: seq<uint8>, i: nat)
    requires Loadable(segments, start, image, |m|) && Disjoint(segments) && p <= i < |segments|
    requires Loaded(m, start, image, segments[..p], now)
    ensures InPlace(now, image, segments[i]) <==> InPlace(m, image, segments[i])
  {
    var s := segments[i];
    if s.kind == PT_LOAD {
      forall k: nat | k < s.filesz
        ensures SameByte(now, s.vaddr, image, s.offset, k) <==> SameByte(m, s.vaddr, image, s.offset, k)
      {
        forall t | t in segments[..p]
          ensures !Writes(t, s.vaddr + k)
        {
          var j :| 0 <= j < p && segments[j] == t;
        }
        TheRestIsUnchanged(m, start, image, segments[..p], s.vaddr + k);
      }
    }
  }

  /**
   After a load that reached its end, every segment of the file is in memory exactly when those
   past the 8-bit header count already were; with fewer than 256 headers, always.
   */
  lemma WholeFileIsLoadedIff(m: seq<uint8>, start: nat, image: seq<uint8>, segments: seq<Segment>, now: seq<uint8>)
    requires HeadersOf(image, segments) && |segments| == U16(image, E_PHNUM)
    requires Loadable(segments, start, image, |m|) && Disjoint(segments)
    requires Loaded(m, start, image, segments[..PhNum(image)], now)
    ensures (forall i :: 0 <= i < |segments| ==> InPlace(now, image, segments[i]))
            <==> (forall i :: PhNum(image) <= i < |segments| ==> InPlace(m, image, segments[i]))
    ensures |segments| < 0x100 ==> forall i :: 0 <= i < |segments| ==> InPlace(now, image, segments[i])
  {
    AllInPlaceIff(m, start, image, segments, PhNum(image), now);
  }

  /** The loader run on a file whose headers, all of them, are `segments`. */
  method LoadFile(memory: array<uint8>, startAddr: nat, bs: BootServices,
                  ghost image: seq<uint8>, ghost segments: seq<Segment>)
    returns (r: LoadResult)
    requires ImageAt(memory[..], startAddr, image)
    requires HeadersOf(image, segments) && |segments| == U16(image, E_PHNUM)
    requires Loadable(segments, startAddr, image, memory.Length) && Disjoint(segments)
    modifies memory, bs
    ensures r.Entry? ==>
              && r.address == U64(image, E_ENTRY)
              && ((forall i :: 0 <= i < |segments| ==> InPlace(memory[..], image, segments[i]))
                  <==> (forall i :: PhNum(image) <= i < |segments| ==> InPlace(old(memory[..]), image, segments[i])))
              && (|segments| < 0x100 ==> forall i :: 0 <= i < |segments| ==> InPlace(memory[..], image, segments[i]))
  {
    ghost var m, reached := memory[..], segments[..PhNum(image)];
    FirstHeaders(image, segments, PhNum(image));
    r := LoadKernel(memory, startAddr, bs, image, reached);
    if r.Entry? {
      assert reached[..|reached|] == reached;
      WholeFileIsLoadedIff(m, startAddr, image, segments, memory[..]);
    }
  }

  lemma FirstHeaders(image: seq<uint8>, segments: seq<Segment>, p: nat)
    requires HeadersOf(image, segments) && p <= |segments|
    ensures HeadersOf(image, segments[..p])
  {
    forall i: nat | i < p
      ensures IsHeader(image, segments[..p], i)
    {
      assert IsHeader(image, segments, i);
    }
  }

  // ----- whether the contents go where pages were granted

  /** The grant obtained for segment i. */
  ghost function GrantFor(policy: Policy, before: Account, segments: seq<Segment>, i: nat): Option<Request>
    requires i < |segments|
  {
    if segments[i].kind != PT_LOAD then None
    else GrantOf(policy, HistoryAt(policy, before, segments, i), segments[i].vaddr, segments[i].memsz)
  }

  /** Every byte that segment i writes lies in pages granted for it. */
  ghost predicate StaysInItsPages(policy: Policy, before: Account, segments: seq<Segment>, i: nat)
    requires i < |segments|
  {
    forall a: nat :: Writes(segments[i], a) ==> InGrant(GrantFor(policy, before, segments, i), a)
  }

  /** The firmware accepts the first request for segment i, and the pages asked for hold the contents
      although their number ignores the offset of p_vaddr in its page. */
  ghost predicate PagesSuffice(policy: Policy, before: Account, segments: seq<Segment>, i: nat)
    requires i < |segments|
  {
    var s := segments[i];
    s.kind == PT_LOAD && s.filesz > 0 ==>
      && Accepts(policy, HistoryAt(policy, before, segments, i), s.vaddr, s.memsz, 0)
      && s.vaddr % PAGE + s.filesz <= PagesOf(s.memsz) * PAGE
  }

  /** The loader discards the result of Allocate and copies to p_vaddr regardless: what it writes
      for a segment stays in that segment's pages exactly when they suffice. */
  lemma SegmentStaysInItsPagesIff(policy: Policy, before: Account, segments: seq<Segment>, i: nat)
    requires i < |segments|
    requires segments[i].memsz < SIZE_LIMIT && segments[i].vaddr + segments[i].memsz < TWO_TO_64
    ensures StaysInItsPages(policy, before, segments, i) <==> PagesSuffice(policy, before, segments, i)
  {
    var s := segments[i];
    if s.kind == PT_LOAD && s.filesz > 0 {
      RequestIsServedIff(policy, HistoryAt(policy, before, segments, i), s.vaddr, s.memsz, s.filesz);
      WritesItsContents(policy, before, segments, i);
    }
  }

  lemma WritesItsContents(policy: Policy, before: Account, segments: seq<Segment>, i: nat)
    requires i < |segments| && segments[i].kind == PT_LOAD
    ensures StaysInItsPages(policy, before, segments, i)
            <==> Obtained(GrantFor(policy, before, segments, i), segments[i].vaddr, segments[i].filesz)
  {
    var s, grant := segments[i], GrantFor(policy, before, segments, i);
    if StaysInItsPages(policy, before, segments, i) {
      forall a: nat | s.vaddr <= a < s.vaddr + s.filesz
        ensures InGrant(grant, a)
      {
        assert Writes(s, a);
      }
    }
  }

  /** What a segment is granted is in the firmware's account from then on. */
  lemma {:induction false} GrantIsOnRecord(policy: Policy, before: Account, segments: seq<Segment>, i: nat, n: nat)
    requires i < n <= |segments| && GrantFor(policy, before, segments, i).Some?
    ensures GrantFor(policy, before, segments, i).value in AccountAfter(policy, before, segments[..n]).granted
  {
    NextAccount(policy, before, segments, n - 1);
    if i < n - 1 {
      GrantIsOnRecord(policy, before, segments, i, n - 1);
    }
  }

  /** Under any firmware: when the pages of every segment suffice, the load changes no byte outside
      the pages recorded as granted. */
  lemma LoadStaysInGrantedPages(m: seq<uint8>, start: nat, image: seq<uint8>, segments: seq<Segment>,
                                policy: Policy, before: Account, a: nat)
    requires Loadable(segments, start, image, |m|) && a < |m|
    requires forall i: nat :: i < |segments| ==>
               segments[i].memsz < SIZE_LIMIT && segments[i].vaddr + segments[i].memsz < TWO_TO_64
    requires forall i: nat :: i < |segments| ==> PagesSuffice(policy, before, segments, i)
    requires LoadedByte(m, image, segments, a) != m[a]
    ensures exists grant :: grant in AccountAfter(policy, before, segments).granted && InPages(grant, a)
  {
    if forall s :: s in segments ==> !Writes(s, a) {
      TheRestIsUnchanged(m, start, image, segments, a);
    } else {
      var s :| s in segments && Writes(s, a);
      var i: nat :| i < |segments| && segments[i] == s;
      SegmentStaysInItsPagesIff(policy, before, segments, i);
      assert StaysInItsPages(policy, before, segments, i);
      GrantIsOnRecord(policy, before, segments, i, |segments|);
      assert segments[..|segments|] == segments;
    }
  }

  // ----- concrete failures

  /** A page-straddling segment of two bytes writes one byte that no firmware granted. */
  lemma StraddlingSegmentLeavesItsPages(policy: Policy, before: Account)
    ensures var s := Segment(PT_LOAD, 0, 0xfff, 2, 2);
            Writes(s, 0x1000) && !InGrant(GrantFor(policy, before, [s], 0), 0x1000)
  {
    var s := Segment(PT_LOAD, 0, 0xfff, 2, 2);
    assert [s][..0] == [];
    var grant := GrantOf(policy, before.calls, 0xfff, 2);
    assert GrantFor(policy, before, [s], 0) == grant;
    OneRequestOnly(policy, before.calls);
  }

  lemma OneRequestOnly(policy: Policy, h: seq<Request>)
    ensures !InGrant(GrantOf(policy, h, 0xfff, 2), 0x1000)
  {
    assert MostTries(2) == 1 && Nth(0xfff, 2, 0) == Request(0, 1);
  }
}
