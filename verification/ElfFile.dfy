/**
 Kernel files as the System V gABI lays them out (chapters 4 and 5, 64-bit class), field after
 field, and what the loader makes of them. The field order here is that of boot/elf.h; the loader's
 offsets are not used.
 */
module ElfFile {
  import opened Machine
  import opened Bytes
  import opened BootAllocate
  import opened Loader

  datatype ElfHeader = ElfHeader(
    ident: nat, kind: uint16, machine: uint16, version: uint32, entry: uint64, phoff: uint64, shoff: uint64,
    flags: uint32, ehsize: uint16, phentsize: uint16, phnum: uint16, shentsize: uint16, shnum: uint16,
    shstrndx: uint16)

  datatype ProgramHeader = ProgramHeader(
    kind: uint32, flags: uint32, offset: uint64, vaddr: uint64, paddr: uint64, filesz: uint64, memsz: uint64,
    align: uint64)

  function ElfFields(h: ElfHeader): seq<Field> {
    [Field(16, h.ident), Field(2, h.kind), Field(2, h.machine), Field(4, h.version), Field(8, h.entry),
     Field(8, h.phoff), Field(8, h.shoff), Field(4, h.flags), Field(2, h.ehsize), Field(2, h.phentsize),
     Field(2, h.phnum), Field(2, h.shentsize), Field(2, h.shnum), Field(2, h.shstrndx)]
  }

  function ProgramFields(p: ProgramHeader): seq<Field> {
    [Field(4, p.kind), Field(4, p.flags), Field(8, p.offset), Field(8, p.vaddr), Field(8, p.paddr),
     Field(8, p.filesz), Field(8, p.memsz), Field(8, p.align)]
  }

  function ElfBytes(h: ElfHeader): seq<uint8> {
    Layout(ElfFields(h), 14)
  }

  function ProgramBytes(p: ProgramHeader): seq<uint8> {
    Layout(ProgramFields(p), 8)
  }

  lemma ElfOffsets(h: ElfHeader)
    ensures var f := ElfFields(h);
            && Offset(f, 4) == 24 && Offset(f, 5) == 32 && Offset(f, 9) == 54 && Offset(f, 10) == 56
            && Offset(f, 14) == 64
  {
    var f := ElfFields(h);
    assert Offset(f, 1) == 16 && Offset(f, 2) == 18 && Offset(f, 3) == 20 && Offset(f, 4) == 24;
    assert Offset(f, 5) == 32 && Offset(f, 6) == 40 && Offset(f, 7) == 48 && Offset(f, 8) == 52;
    assert Offset(f, 9) == 54 && Offset(f, 10) == 56 && Offset(f, 11) == 58 && Offset(f, 12) == 60;
    assert Offset(f, 13) == 62 && Offset(f, 14) == 64;
  }

  lemma ProgramOffsets(p: ProgramHeader)
    ensures var f := ProgramFields(p);
            && Offset(f, 0) == 0 && Offset(f, 2) == 8 && Offset(f, 3) == 16 && Offset(f, 5) == 32
            && Offset(f, 6) == 40 && Offset(f, 8) == 56
  {
    var f := ProgramFields(p);
    assert Offset(f, 1) == 4 && Offset(f, 2) == 8 && Offset(f, 3) == 16 && Offset(f, 4) == 24;
    assert Offset(f, 5) == 32 && Offset(f, 6) == 40 && Offset(f, 7) == 48 && Offset(f, 8) == 56;
  }

  // ----- round trips

  /** The loader reads from an ELF header what was written there. */
  lemma ElfHeaderIsRead(image: seq<uint8>, h: ElfHeader)
    requires LiesAt(image, 0, ElfBytes(h))
    ensures |image| >= EHDR_SIZE
    ensures U64(image, E_ENTRY) == h.entry && U64(image, E_PHOFF) == h.phoff
    ensures U16(image, E_PHENTSIZE) == h.phentsize && U16(image, E_PHNUM) == h.phnum
  {
    var f := ElfFields(h);
    ElfOffsets(h);
    ReadsField64(image, 0, f, 14, 4);
    ReadsField64(image, 0, f, 14, 5);
    ReadsField16(image, 0, f, 14, 9);
    ReadsField16(image, 0, f, 14, 10);
  }

  function SegmentOf(p: ProgramHeader): Segment {
    Segment(p.kind, p.offset, p.vaddr, p.filesz, p.memsz)
  }

  /** The loader reads from a program header what was written there. */
  lemma ProgramHeaderIsRead(image: seq<uint8>, at: nat, p: ProgramHeader)
    requires LiesAt(image, at, ProgramBytes(p))
    ensures at + PHDR_SIZE <= |image| && SegmentAt(image, at) == SegmentOf(p)
  {
    var f := ProgramFields(p);
    ProgramOffsets(p);
    ReadsField32(image, at, f, 8, 0);
    ReadsField64(image, at, f, 8, 2);
    ReadsField64(image, at, f, 8, 3);
    ReadsField64(image, at, f, 8, 5);
    ReadsField64(image, at, f, 8, 6);
  }

  // ----- whole files

  /** The image starts with the ELF header, and each program header lies where that one says. */
  ghost predicate IsFile(image: seq<uint8>, h: ElfHeader, headers: seq<ProgramHeader>) {
    && LiesAt(image, 0, ElfBytes(h))
    && |headers| == h.phnum
    && forall i: nat :: i < |headers| ==> LiesAt(image, PlaceOf(h, i), ProgramBytes(headers[i]))
  }

  function PlaceOf(h: ElfHeader, i: nat): nat {
    h.phoff + i * h.phentsize
  }

  function Segments(headers: seq<ProgramHeader>): (segments: seq<Segment>)
    ensures |segments| == |headers|
    ensures forall i :: 0 <= i < |headers| ==> segments[i] == SegmentOf(headers[i])
  {
    seq(|headers|, i requires 0 <= i < |headers| => SegmentOf(headers[i]))
  }

  lemma FileHeadersAreRead(image: seq<uint8>, h: ElfHeader, headers: seq<ProgramHeader>)
    requires IsFile(image, h, headers)
    ensures HeadersOf(image, Segments(headers)) && |headers| == U16(image, E_PHNUM)
    ensures U64(image, E_ENTRY) == h.entry && PhNum(image) == h.phnum % 256
  {
    ElfHeaderIsRead(image, h);
    forall i: nat | i < |headers|
      ensures IsHeader(image, Segments(headers), i)
    {
      ProgramHeaderIsRead(image, PlaceOf(h, i), headers[i]);
    }
  }

  /** The header puts contents at address a. */
  predicate Holds(p: ProgramHeader, a: nat) {
    p.kind == 1 && p.vaddr <= a < p.vaddr + p.filesz
  }

  /** Where the last header that puts contents at a has it in the file. */
  ghost predicate LastToHold(headers: seq<ProgramHeader>, i: nat, a: nat) {
    && i < |headers| && Holds(headers[i], a)
    && forall j :: i < j < |headers| ==> !Holds(headers[j], a)
  }

  /** From `before` to `now` the contents of the file went to their addresses, and nothing else changed. */
  ghost predicate FileLoaded(before: seq<uint8>, now: seq<uint8>, image: seq<uint8>, headers: seq<ProgramHeader>) {
    && |now| == |before|
    && (forall i: nat, a: nat :: LastToHold(headers, i, a) ==>
          && a < |now| && headers[i].offset + (a - headers[i].vaddr) < |image|
          && now[a] == image[headers[i].offset + (a - headers[i].vaddr)])
    && (forall a: nat :: a < |now| && (forall p :: p in headers ==> !Holds(p, a)) ==> now[a] == before[a])
  }

  /** Contents lie in the file; where they go lies in memory and outside the file's bytes at `start`. */
  ghost predicate HasRoom(headers: seq<ProgramHeader>, start: nat, image: seq<uint8>, memory: nat) {
    forall p :: p in headers && p.kind == 1 ==>
      && p.offset + p.filesz <= |image| && p.vaddr + p.filesz <= memory
      && (p.vaddr + p.filesz <= start || start + |image| <= p.vaddr)
  }

  lemma RoomIsLoadable(headers: seq<ProgramHeader>, start: nat, image: seq<uint8>, memory: nat)
    requires HasRoom(headers, start, image, memory)
    ensures Loadable(Segments(headers), start, image, memory)
  {
    var segments := Segments(headers);
    forall i | 0 <= i < |segments| && segments[i].kind == PT_LOAD
      ensures Placeable(segments[i], start, image, memory)
    {
      assert headers[i] in headers;
    }
  }

  /**
   The loader run on a file given by its fields: it returns e_entry, every byte at p_vaddr + k of a
   segment of type 1 is byte p_offset + k of the file, and all other memory is as it was.
   */
  method LoadElfFile(memory: array<uint8>, startAddr: nat, bs: BootServices,
                     ghost image: seq<uint8>, ghost h: ElfHeader, ghost headers: seq<ProgramHeader>)
    returns (r: LoadResult)
    requires ImageAt(memory[..], startAddr, image)
    requires IsFile(image, h, headers) && h.phnum < 256
    requires HasRoom(headers, startAddr, image, memory.Length)
    modifies memory, bs
    ensures r.Entry? ==> r.address == h.entry && FileLoaded(old(memory[..]), memory[..], image, headers)
  {
    ghost var m, segments := memory[..], Segments(headers);
    FileHeadersAreRead(image, h, headers);
    RoomIsLoadable(headers, startAddr, image, memory.Length);
    r := LoadKernel(memory, startAddr, bs, image, segments);
    if r.Entry? {
      assert segments[..|segments|] == segments;
      ContentsAreLoaded(m, startAddr, image, headers, memory[..]);
    }
  }

  lemma ContentsAreLoaded(m: seq<uint8>, start: nat, image: seq<uint8>, headers: seq<ProgramHeader>, now: seq<uint8>)
    requires Loadable(Segments(headers), start, image, |m|) && Loaded(m, start, image, Segments(headers), now)
    ensures FileLoaded(m, now, image, headers)
  {
    var segments := Segments(headers);
    forall i: nat, a: nat | LastToHold(headers, i, a)
      ensures a < |now| && headers[i].offset + (a - headers[i].vaddr) < |image|
      ensures now[a] == image[headers[i].offset + (a - headers[i].vaddr)]
    {
      assert Writes(segments[i], a) && Placeable(segments[i], start, image, |m|);
      LastWriterWins(m, start, image, segments, i, a);
    }
    forall a: nat | a < |now| && forall p :: p in headers ==> !Holds(p, a)
      ensures now[a] == m[a]
    {
      forall s | s in segments
        ensures !Writes(s, a)
      {
        var j: nat :| j < |segments| && segments[j] == s;
        assert headers[j] in headers;
      }
      TheRestIsUnchanged(m, start, image, segments, a);
    }
  }

  // ----- concrete files

  /** A file: its ELF header, its program headers one after the other, and what follows. */
  function FileOf(h: ElfHeader, headers: seq<ProgramHeader>, rest: seq<uint8>): seq<uint8> {
    ElfBytes(h) + Table(headers, |headers|) + rest
  }

  function Table(headers: seq<ProgramHeader>, n: nat): seq<uint8>
    requires n <= |headers|
  {
    if n == 0 then [] else Table(headers, n - 1) + ProgramBytes(headers[n - 1])
  }

  lemma {:induction false} TableLies(image: seq<uint8>, at: nat, headers: seq<ProgramHeader>, n: nat, i: nat)
    requires i < n <= |headers| && LiesAt(image, at, Table(headers, n))
    ensures |Table(headers, n)| == 56 * n
    ensures LiesAt(image, at + i * 56, ProgramBytes(headers[i]))
  {
    TableSize(headers, n - 1);
    ProgramOffsets(headers[n - 1]);
    PartsLie(image, at, Table(headers, n - 1), ProgramBytes(headers[n - 1]));
    if i < n - 1 {
      TableLies(image, at, headers, n - 1, i);
    }
  }

  lemma {:induction false} TableSize(headers: seq<ProgramHeader>, n: nat)
    requires n <= |headers|
    ensures |Table(headers, n)| == 56 * n
  {
    if n > 0 {
      TableSize(headers, n - 1);
      ProgramOffsets(headers[n - 1]);
    }
  }

  lemma FileOfIsFile(h: ElfHeader, headers: seq<ProgramHeader>, rest: seq<uint8>)
    requires h.phoff == 64 && h.phentsize == 56 && h.phnum == |headers|
    ensures IsFile(FileOf(h, headers, rest), h, headers)
    ensures |FileOf(h, headers, rest)| == 64 + 56 * |headers| + |rest|
  {
    var image := FileOf(h, headers, rest);
    ElfOffsets(h);
    TableSize(headers, |headers|);
    assert image[..64] == ElfBytes(h);
    assert LiesAt(image, 64, Table(headers, |headers|));
    forall i: nat | i < |headers|
      ensures LiesAt(image, PlaceOf(h, i), ProgramBytes(headers[i]))
    {
      TableLies(image, 64, headers, |headers|, i);
    }
  }

  /** The loader reads from such a file the headers it was made of. */
  lemma FileOfIsRead(image: seq<uint8>, h: ElfHeader, headers: seq<ProgramHeader>, rest: seq<uint8>)
    requires h.phoff == 64 && h.phentsize == 56 && h.phnum == |headers|
    requires image == FileOf(h, headers, rest)
    ensures HeadersOf(image, Segments(headers)) && |headers| == U16(image, E_PHNUM)
    ensures PhNum(image) == |headers| % 256 && image[0] == h.ident % 256
  {
    FileOfIsFile(h, headers, rest);
    FileHeadersAreRead(image, h, headers);
    FirstByteOfFile(image, h);
  }

  lemma FirstByteOfFile(image: seq<uint8>, h: ElfHeader)
    requires LiesAt(image, 0, ElfBytes(h))
    ensures |image| > 0 && image[0] == h.ident % 256
  {
    ElfOffsets(h);
    FieldLies(image, 0, ElfFields(h), 14, 0);
    assert image[0] == image[0..16][0];
  }

  /** A file with one header, for one byte of memory at address 0 and none of contents. */
  predicate HasEmptySegment(h: ElfHeader, p: ProgramHeader) {
    && h.phoff == 64 && h.phentsize == 56 && h.phnum == 1
    && p.kind == 1 && p.offset == 0 && p.vaddr == 0 && p.filesz == 0 && p.memsz == 1
  }

  /** Of the whole memory, the byte at address 0 is the part of the segment that the file does not hold. */
  ghost predicate TailIsFirstByte(s: Segment, segments: seq<Segment>, memory: nat) {
    forall a: nat :: InTail(s, segments, memory, a) <==> a == 0
  }

  /** The memory of its segment holds 7 before the load: the 7 stays. */
  lemma StaleTailStays(h: ElfHeader, p: ProgramHeader, now: seq<uint8>)
    requires HasEmptySegment(h, p)
    ensures var s, image := Segment(1, 0, 0, 0, 1), FileOf(h, [p], []);
            && HeadersOf(image, [s]) && PhNum(image) == 1 && ImageAt([7] + image, 1, image)
            && Loadable([s], 1, image, 1 + |image|)
            && TailIsFirstByte(s, [s], 1 + |image|)
            && (Loaded([7] + image, 1, image, [s], now) ==> now[0] == 7)
  {
    var image := FileOf(h, [p], []);
    FileOfIsRead(image, h, [p], []);
    assert Segments([p]) == [SegmentOf(p)];
    TailOfOneByteStays(image, now);
  }

  lemma NothingWritten(s: Segment, a: nat)
    requires s.filesz == 0
    ensures forall t :: t in [s] ==> !Writes(t, a)
  {}

  lemma TailOfOneByteStays(image: seq<uint8>, now: seq<uint8>)
    ensures var s := Segment(1, 0, 0, 0, 1);
            && Loadable([s], 1, image, 1 + |image|) && TailIsFirstByte(s, [s], 1 + |image|)
            && (Loaded([7] + image, 1, image, [s], now) ==> now[0] == 7)
  {
    var s := Segment(1, 0, 0, 0, 1);
    var segments, memory := [s], 1 + |image|;
    forall a: nat
      ensures InTail(s, segments, memory, a) <==> a == 0
    {
      NothingWritten(s, a);
    }
    if Loaded([7] + image, 1, image, [s], now) {
      TheRestIsUnchanged([7] + image, 1, image, [s], 0);
      assert now[0] == LoadedByte([7] + image, image, [s], 0);
    }
  }

  /** A file with 256 headers, of which the first is for the file's first byte, 0x7f as in every ELF
      file, at address 0. */
  predicate HasManyHeaders(h: ElfHeader, headers: seq<ProgramHeader>) {
    && h.ident % 256 == 0x7f && h.phoff == 64 && h.phentsize == 56 && h.phnum == |headers| == 256
    && headers[0].kind == 1 && headers[0].offset == 0 && headers[0].vaddr == 0
    && headers[0].filesz == 1 && headers[0].memsz == 1
  }

  /** The loop runs over none of the 256 headers: where memory held 0 it still does. */
  lemma HeaderPastTheCountIsLost(h: ElfHeader, headers: seq<ProgramHeader>, now: seq<uint8>)
    requires HasManyHeaders(h, headers)
    ensures var image, segments := FileOf(h, headers, []), Segments(headers);
            && HeadersOf(image, segments) && U16(image, E_PHNUM) == |segments| && PhNum(image) == 0
            && 0 < |image| && segments[0] == Segment(1, 0, 0, 1, 1)
            && (Loaded([0] + image, 1, image, [], now) ==> !InPlace(now, image, segments[0]))
  {
    var image := FileOf(h, headers, []);
    FileOfIsRead(image, h, headers, []);
    if Loaded([0] + image, 1, image, [], now) {
      assert now[0] == ([0] + image)[0];
      assert !SameByte(now, 0, image, 0, 0);
    }
  }
}
