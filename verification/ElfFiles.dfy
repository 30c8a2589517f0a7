/**
 ELF64 files as records laid out in bytes, what the loader reads of them, and the loading theorem for a file that
 holds given records.
*/
module ElfFiles {
  import opened Outcomes
  import opened Memory
  import opened PageTables
  import opened PageRanges
  import opened AddressSpaces
  import opened AwdAlloc
  import opened AwdPaging
  import opened AwdKernel
  import opened AwdBoot

  datatype Segment = Segment(typ: nat, flags: nat, offset: nat, vaddr: nat, paddr: nat, filesz: nat, memsz: nat,
                             align: nat)

  datatype FileHeader = FileHeader(ident: seq<byte>, typ: nat, machine: nat, version: nat, entry: nat, phoff: nat,
                                   shoff: nat, flags: nat, ehsize: nat, phentsize: nat, phnum: nat, shentsize: nat,
                                   shnum: nat, shstrndx: nat)

  datatype ElfFile = ElfFile(header: FileHeader, segments: seq<Segment>)

  predicate SegmentOk(s: Segment) {
    && s.typ < 0x1_0000_0000 && s.flags < 0x1_0000_0000
    && s.offset < TWO64 && s.vaddr < TWO64 && s.paddr < TWO64 && s.filesz < TWO64 && s.memsz < TWO64 && s.align < TWO64
  }

  predicate HeaderOk(h: FileHeader) {
    && |h.ident| == 16 && h.typ < 0x1_0000 && h.machine < 0x1_0000 && h.version < 0x1_0000_0000
    && h.entry < TWO64 && h.phoff < TWO64 && h.shoff < TWO64 && h.flags < 0x1_0000_0000 && h.ehsize < 0x1_0000
    && h.phentsize < 0x1_0000 && h.phnum < 0x1_0000 && h.shentsize < 0x1_0000 && h.shnum < 0x1_0000
    && h.shstrndx < 0x1_0000
  }

  /** The 56 bytes of a program header. */
  function SegmentBytes(s: Segment): (b: seq<byte>)
    ensures |b| == 56
  {
    ToBytes(s.typ, 4) + ToBytes(s.flags, 4) + ToBytes(s.offset, 8) + ToBytes(s.vaddr, 8) + ToBytes(s.paddr, 8)
    + ToBytes(s.filesz, 8) + ToBytes(s.memsz, 8) + ToBytes(s.align, 8)
  }

  /** The 64 bytes of the file header. */
  function HeaderBytes(h: FileHeader): (b: seq<byte>)
    requires |h.ident| == 16
    ensures |b| == 64
  {
    h.ident + ToBytes(h.typ, 2) + ToBytes(h.machine, 2) + ToBytes(h.version, 4) + ToBytes(h.entry, 8)
    + ToBytes(h.phoff, 8) + ToBytes(h.shoff, 8) + ToBytes(h.flags, 4) + ToBytes(h.ehsize, 2) + ToBytes(h.phentsize, 2)
    + ToBytes(h.phnum, 2) + ToBytes(h.shentsize, 2) + ToBytes(h.shnum, 2) + ToBytes(h.shstrndx, 2)
  }

  // ----- decoding -----

  lemma FieldSizes()
    ensures Pow256(2) == 0x1_0000 && Pow256(4) == 0x1_0000_0000 && Pow256(8) == 0x1_0000_0000_0000_0000
  {
    assert Pow256(2) == 256 * Pow256(1) && Pow256(1) == 256 * Pow256(0);
    assert Pow256(4) == 256 * (256 * Pow256(2));
    Pow256Of8();
  }

  /** A field of a record that lies at an address. */
  lemma FieldIn(m: Mem, a: nat, bytes: seq<byte>, off: nat, v: nat, n: nat)
    requires a + |bytes| <= |m| && m[a..a + |bytes|] == bytes && off + n <= |bytes|
    requires bytes[off..off + n] == ToBytes(v, n) && v < Pow256(n)
    ensures Field(m, a + off, n) == v
  {
    hide ToBytes, FromBytes, Pow256;
    PartOfSlice(m, a, |bytes|, off, n);
    FieldReadsBack(bytes, off, v, n);
  }

  lemma PartOfSlice(m: Mem, a: nat, size: nat, off: nat, n: nat)
    requires a + size <= |m| && off + n <= size
    ensures m[a..a + size][off..off + n] == m[a + off..a + off + n]
  {
    var whole, part := m[a..a + size], m[a + off..a + off + n];
    forall k | 0 <= k < n ensures whole[off..off + n][k] == part[k] {
      assert whole[off..off + n][k] == whole[off + k] == m[a + (off + k)];
    }
    assert whole[off..off + n] == part;
  }

  lemma SegmentFields(s: Segment)
    ensures var b := SegmentBytes(s);
            && b[0..4] == ToBytes(s.typ, 4) && b[8..16] == ToBytes(s.offset, 8) && b[16..24] == ToBytes(s.vaddr, 8)
            && b[32..40] == ToBytes(s.filesz, 8) && b[40..48] == ToBytes(s.memsz, 8)
  {
    hide ToBytes;
  }

  /** What the loader reads of a program header. */
  lemma SegmentDecodes(m: Mem, a: nat, s: Segment)
    requires SegmentOk(s) && a + 56 <= |m| && m[a..a + 56] == SegmentBytes(s)
    ensures HeaderAt(m, a) == ProgramHeader(s.typ, s.offset, s.vaddr, s.filesz, s.memsz)
  {
    hide ToBytes, SegmentBytes, Field, Pow256;
    var b := SegmentBytes(s);
    FieldSizes();
    SegmentFields(s);
    FieldIn(m, a, b, 0, s.typ, 4);
    FieldIn(m, a, b, 8, s.offset, 8);
    FieldIn(m, a, b, 16, s.vaddr, 8);
    FieldIn(m, a, b, 32, s.filesz, 8);
    FieldIn(m, a, b, 40, s.memsz, 8);
  }

  lemma HeaderFields(h: FileHeader)
    requires |h.ident| == 16
    ensures var b := HeaderBytes(h);
            && b[..16] == h.ident && b[16..18] == ToBytes(h.typ, 2) && b[18..20] == ToBytes(h.machine, 2)
            && b[24..32] == ToBytes(h.entry, 8) && b[32..40] == ToBytes(h.phoff, 8)
            && b[54..56] == ToBytes(h.phentsize, 2) && b[56..58] == ToBytes(h.phnum, 2)
  {
    hide ToBytes;
  }

  /** An AMD64 executable: magic number, type 2, machine 62. */
  predicate Executable(h: FileHeader)
    requires |h.ident| == 16
  {
    h.ident[0] == 0x7F && h.ident[1] == 0x45 && h.ident[2] == 0x4C && h.ident[3] == 0x46 && h.typ == 2 && h.machine == 62
  }

  lemma ExecutableIs(h: FileHeader)
    requires |h.ident| == 16
    ensures Executable(h) <==> h.ident[..4] == [0x7F, 0x45, 0x4C, 0x46] && h.typ == 2 && h.machine == 62
    ensures h.ident[..4] == [0x7F, 0x45, 0x4C, 0x46] <==>
              h.ident[0] == 0x7F && h.ident[1] == 0x45 && h.ident[2] == 0x4C && h.ident[3] == 0x46
  {
    var magic := h.ident[..4];
    assert magic == [magic[0], magic[1], magic[2], magic[3]];
  }

  /** What the loader reads of the file header. */
  lemma HeaderDecodes(m: Mem, base: nat, h: FileHeader)
    requires HeaderOk(h) && base + 64 <= |m| && m[base..base + 64] == HeaderBytes(h)
    ensures HeaderCount(m, base) == h.phnum && Field(m, base + 24, 8) == h.entry
    ensures forall i: nat :: HeaderOffset(m, base, i) == (h.phoff + h.phentsize * i) % 0x1_0000_0000
    ensures ElfCheck(m, base) <==> h.ident[..4] == [0x7F, 0x45, 0x4C, 0x46] && h.typ == 2 && h.machine == 62
    ensures Executable(h) <==> ElfCheck(m, base)
  {
    hide ToBytes, HeaderBytes, Field, Pow256, Executable;
    ExecutableIs(h);
    var b := HeaderBytes(h);
    FieldSizes();
    HeaderFields(h);
    FieldIn(m, base, b, 16, h.typ, 2);
    FieldIn(m, base, b, 18, h.machine, 2);
    FieldIn(m, base, b, 24, h.entry, 8);
    FieldIn(m, base, b, 32, h.phoff, 8);
    FieldIn(m, base, b, 54, h.phentsize, 2);
    FieldIn(m, base, b, 56, h.phnum, 2);
    forall k | 0 <= k < 4 ensures m[base + k] == h.ident[k] {
      assert m[base..base + 64][k] == b[k] && b[..16][k] == b[k];
    }
  }

  // ----- files in memory -----

  /** Where program header i lies. */
  function SegmentAt(base: nat, h: FileHeader, i: nat): nat {
    base + (h.phoff + h.phentsize * i) % 0x1_0000_0000
  }

  /** The bytes from base to end hold the file's records. */
  ghost predicate HoldsFile(m: Mem, base: nat, end: nat, f: ElfFile) {
    && HeaderOk(f.header) && f.header.phnum == |f.segments|
    && base + 64 <= end <= |m| && end <= 0x1_0000_0000 && m[base..base + 64] == HeaderBytes(f.header)
    && forall i: nat :: i < |f.segments| ==>
         && SegmentOk(f.segments[i]) && SegmentAt(base, f.header, i) + 56 <= end
         && m[SegmentAt(base, f.header, i)..SegmentAt(base, f.header, i) + 56] == SegmentBytes(f.segments[i])
  }

  function Read(s: Segment): ProgramHeader {
    ProgramHeader(s.typ, s.offset, s.vaddr, s.filesz, s.memsz)
  }

  lemma FileReads(m: Mem, base: nat, end: nat, f: ElfFile)
    requires HoldsFile(m, base, end, f)
    ensures Readable(m, base, end) && |AllHeaders(m, base, end)| == |f.segments|
    ensures forall i :: 0 <= i < |f.segments| ==> AllHeaders(m, base, end)[i] == Read(f.segments[i])
    ensures ElfCheck(m, base) <==> Executable(f.header)
    ensures Field(m, base + 24, 8) == f.header.entry
  {
    hide HeaderBytes, SegmentBytes, HeaderAt, HeaderCount, HeaderOffset, ElfCheck, Field;
    HeaderDecodes(m, base, f.header);
    FileReadable(m, base, end, f);
    forall i: nat | i < |f.segments| ensures AllHeaders(m, base, end)[i] == Read(f.segments[i]) {
      HeaderInFile(m, base, end, i);
      SegmentDecodes(m, SegmentAt(base, f.header, i), f.segments[i]);
    }
  }

  lemma FileReadable(m: Mem, base: nat, end: nat, f: ElfFile)
    requires HoldsFile(m, base, end, f) && HeaderCount(m, base) == f.header.phnum
    requires forall i: nat :: HeaderOffset(m, base, i) == (f.header.phoff + f.header.phentsize * i) % 0x1_0000_0000
    ensures Readable(m, base, end)
  {
    hide HeaderBytes, SegmentBytes, HeaderCount, HeaderOffset;
    forall i: nat | i < HeaderCount(m, base) ensures base + HeaderOffset(m, base, i) + PHEADER_SIZE <= end {
      assert SegmentAt(base, f.header, i) + 56 <= end;
    }
  }

  // ----- packed files -----

  /** Segment i is a LOAD segment and j the next one. */
  predicate NextLoad(segments: seq<Segment>, i: nat, j: nat) {
    && i < j < |segments| && segments[i].typ == 1 && segments[j].typ == 1
    && forall k :: i < k < j ==> segments[k].typ != 1
  }

  /**
   LOAD segments are page aligned, each starts on the page boundary after the end of the one before it, file sizes
   are within memory sizes, the file's bytes lie in the file, and all of it spans less than 4 GiB of one half of the
   address space.
  */
  ghost predicate PackedFile(f: ElfFile, base: nat, end: nat) {
    && (exists i :: 0 <= i < |f.segments| && f.segments[i].typ == 1)
    && (forall i :: 0 <= i < |f.segments| && f.segments[i].typ == 1 ==> PackedSegment(f.segments[i], base, end))
    && (forall i: nat, j: nat :: NextLoad(f.segments, i, j) ==>
          f.segments[j].vaddr == PageUp(f.segments[i].vaddr + f.segments[i].memsz))
    && (forall i, j :: 0 <= i < |f.segments| && 0 <= j < |f.segments| && f.segments[i].typ == 1 && f.segments[j].typ == 1 ==>
          && f.segments[j].vaddr + f.segments[j].memsz <= f.segments[i].vaddr + 0xFFFF_F000
          && (f.segments[i].vaddr < 0x8000_0000_0000 <==> f.segments[j].vaddr < 0x8000_0000_0000))
  }

  predicate PackedSegment(s: Segment, base: nat, end: nat) {
    && s.vaddr % 0x1000 == 0 && s.filesz <= s.memsz < 0x1_0000_0000 && base + s.offset + s.filesz <= end
    && (s.vaddr + s.memsz <= 0x8000_0000_0000
        || (0xFFFF_8000_0000_0000 <= s.vaddr && s.vaddr + s.memsz <= 0xFFFF_FFFF_FFFF_FF00))
  }

  ghost predicate ReadFrom(hs: seq<ProgramHeader>, segments: seq<Segment>) {
    |hs| == |segments| && forall i :: 0 <= i < |hs| ==> hs[i] == Read(segments[i])
  }

  /** The last LOAD segment among the first n. */
  lemma {:induction false} LastLoad(segments: seq<Segment>, hs: seq<ProgramHeader>, n: nat) returns (i: nat)
    requires ReadFrom(hs, segments) && n <= |hs| && HasLoad(hs[..n])
    ensures i < n && segments[i].typ == 1 && forall k :: i < k < n ==> segments[k].typ != 1
    ensures LastEnd(hs[..n]) == PageUp(segments[i].vaddr + segments[i].memsz)
  {
    hide HasLoad, PageUp;
    if n == 0 {
      NoLoads(hs[..0]);
      assert false;
    } else {
      HasLoadStep(hs[..n]);
      assert hs[..n][..n - 1] == hs[..n - 1] && hs[..n][n - 1] == hs[n - 1];
      if hs[n - 1].IsLoad() {
        i := n - 1;
      } else {
        i := LastLoad(segments, hs, n - 1);
      }
    }
  }

  lemma {:induction false} PackedHeaders(f: ElfFile, hs: seq<ProgramHeader>, base: nat, end: nat, n: nat)
    requires PackedFile(f, base, end) && ReadFrom(hs, f.segments) && n <= |hs|
    ensures Packed(hs[..n])
  {
    hide PackedFile, HasLoad, PageUp, LastEnd, NextLoad;
    if n > 0 {
      PackedHeaders(f, hs, base, end, n - 1);
      assert hs[..n][..n - 1] == hs[..n - 1] && hs[..n][n - 1] == hs[n - 1];
      if hs[n - 1].IsLoad() {
        SegmentOfFile(f, base, end, n - 1);
        if HasLoad(hs[..n - 1]) {
          var i := LastLoad(f.segments, hs, n - 1);
          NextOfFile(f, base, end, i, n - 1);
        }
      }
    }
  }

  lemma SegmentOfFile(f: ElfFile, base: nat, end: nat, i: nat)
    requires PackedFile(f, base, end) && i < |f.segments| && f.segments[i].typ == 1
    ensures PackedSegment(f.segments[i], base, end)
  {
  }

  lemma NextOfFile(f: ElfFile, base: nat, end: nat, i: nat, j: nat)
    requires PackedFile(f, base, end) && i < j < |f.segments| && f.segments[i].typ == 1 && f.segments[j].typ == 1
    requires forall k :: i < k < j ==> f.segments[k].typ != 1
    ensures f.segments[j].vaddr == PageUp(f.segments[i].vaddr + f.segments[i].memsz)
  {
    hide PackedSegment, PageUp;
    assert NextLoad(f.segments, i, j);
  }

  lemma PackedFileLoads(f: ElfFile, hs: seq<ProgramHeader>, base: nat, end: nat)
    requires PackedFile(f, base, end) && ReadFrom(hs, f.segments) && base <= end <= TWO32
    ensures PackedImage(hs, base, end)
  {
    hide Packed, PageUp, PackedFile, HasLoad, LastEnd;
    assert hs[..|hs|] == hs;
    PackedHeaders(f, hs, base, end, |hs|);
    SomeLoad(f, hs, base, end);
    PackedExtent(hs);
    var last := LastLoad(f.segments, hs, |hs|);
    var first := FirstLoad(f, hs, base, end);
    Spans(f, base, end, first, last);
    SpanFits(f.segments[first].vaddr, f.segments[last].vaddr + f.segments[last].memsz, VirtStart(hs), ImageSize(hs));
    HalfFits(f.segments[last].vaddr + f.segments[last].memsz);
    forall i | 0 <= i < |hs| && hs[i].IsLoad() ensures base + hs[i].p_offset + hs[i].p_filesz <= end {
      SegmentOfFile(f, base, end, i);
    }
  }

  lemma SomeLoad(f: ElfFile, hs: seq<ProgramHeader>, base: nat, end: nat)
    requires PackedFile(f, base, end) && ReadFrom(hs, f.segments)
    ensures HasLoad(hs)
  {
    var l: nat :| l < |f.segments| && f.segments[l].typ == 1;
    assert hs[l].IsLoad();
  }

  lemma FirstLoad(f: ElfFile, hs: seq<ProgramHeader>, base: nat, end: nat) returns (first: nat)
    requires PackedFile(f, base, end) && ReadFrom(hs, f.segments)
    ensures first < |f.segments| && f.segments[first].typ == 1 && f.segments[first].vaddr == VirtStart(hs)
  {
    hide PageUp, NextLoad;
    var l: nat :| l < |f.segments| && f.segments[l].typ == 1;
    assert hs[l].p_type == 1 && hs[l] in hs;
    SegmentOfFile(f, base, end, l);
    var h :| h in hs && h.p_type == 1 && h.p_vaddr == VirtStart(hs);
    first :| 0 <= first < |hs| && hs[first] == h;
  }

  /** All LOAD segments lie within 4 GiB of one half of the address space. */
  lemma Spans(f: ElfFile, base: nat, end: nat, i: nat, j: nat)
    requires PackedFile(f, base, end) && i < |f.segments| && j < |f.segments|
    requires f.segments[i].typ == 1 && f.segments[j].typ == 1
    ensures f.segments[j].vaddr + f.segments[j].memsz <= f.segments[i].vaddr + 0xFFFF_F000
    ensures f.segments[i].vaddr % 0x1000 == 0
    ensures || f.segments[j].vaddr + f.segments[j].memsz <= 0x8000_0000_0000
            || (0xFFFF_8000_0000_0000 <= f.segments[i].vaddr
                && f.segments[j].vaddr + f.segments[j].memsz <= 0xFFFF_FFFF_FFFF_FF00)
  {
    hide PageUp, NextLoad;
    SegmentOfFile(f, base, end, i);
    SegmentOfFile(f, base, end, j);
  }

  lemma SpanFits(first: nat, lastEnd: nat, start: nat, size: nat)
    requires first == start && start % 0x1000 == 0 && lastEnd <= first + 0xFFFF_F000 && PageUp(lastEnd) == start + size
    ensures size < 0x1_0000_0000
  {
  }

  lemma HalfFits(e: nat)
    ensures e <= 0x8000_0000_0000 ==> PageUp(e) <= 0x8000_0000_0000
    ensures e <= 0xFFFF_FFFF_FFFF_FF00 ==> PageUp(e) <= 0x1_0000_0000_0000_0000
  {
  }

  // ----- the loading theorem -----

  /** The processor reaches byte k of a segment, as the file had it, at vaddr + k, and may write there. */
  ghost predicate ReachedAt(m0: Mem, m: Mem, cr3: nat, s: Segment, base: nat, k: nat) {
    var va, t := s.vaddr + k, HardwareWalk(m, cr3, s.vaddr + k);
    && t.Page? && t.flags == 3 && t.frame * 0x1000 + va % 0x1000 < |m| && base + s.offset + k < |m0|
    && m[t.frame * 0x1000 + va % 0x1000] == m0[base + s.offset + k]
  }

  /**
   The boot of a file that holds given records. When it succeeds, byte k of every LOAD segment is what the processor
   reaches at vaddr + k; the first 2 MiB of memory are at the kernel base; low memory, the loader and its heap are at
   their own addresses; and everything outside the image and these faults.
  */
  method BootFile(machine: Machine, alloc: Allocator, paging: Paging, info: MemInfo, kernel: KernelInfo, ghost f: ElfFile)
    returns (r: Outcome<nat>, ghost image: MemRegion)
    requires paging.machine == machine && paging.alloc == alloc && paging.paging_queue == []
    requires HoldsFile(machine.mem, kernel.image_start, kernel.image_end, f)
    requires Executable(f.header) ==> PackedFile(f, kernel.image_start, kernel.image_end)
    requires var heapBase := PageUp(kernel.image_end);
             && heapBase + 0x4_0000 <= 0x1_0000_0000 && heapBase + 0x4_0000 <= |machine.mem| <= PHYS_LIMIT
             && ZeroBetween(machine.mem, heapBase, heapBase + 0x4_0000)
             && paging.paging_pml4 % 0x1000 == 0 && paging.paging_pml4 + 0x1000 <= heapBase
    requires LowRegion(info.low_memory) && LowRegion(info.awd_image) && LowRegion(info.awd_malloc)
    modifies machine, alloc, paging
    ensures r == Halted(NotElf) <==> !Executable(f.header)
    ensures r.Halted? ==> r.why == NotElf || r.why == HeapExhausted
    ensures r.Done? ==> r.value == f.header.entry
    ensures r.Done? ==> forall i: nat, k: nat | i < |f.segments| && f.segments[i].typ == 1 && k < f.segments[i].filesz ::
              ReachedAt(old(machine.mem), machine.mem, paging.cr3, f.segments[i], kernel.image_start, k)
    ensures r.Done? ==> forall va: nat | Canonical(va) && !(image.start <= va < image.end) ::
              HardwareWalk(machine.mem, paging.cr3, va) ==
                if 0xFFFF_FFFF_8000_0000 <= va < 0xFFFF_FFFF_8020_0000 then Page((va - 0xFFFF_FFFF_8000_0000) / 0x1000, 3)
                else if Contains(info.low_memory, va) || Contains(info.awd_image, va) || Contains(info.awd_malloc, va)
                then Page(va / 0x1000, 3)
                else Fault
    ensures r.Done? ==>
              && (exists i: nat :: i < |f.segments| && f.segments[i].typ == 1 && f.segments[i].vaddr == image.start)
              && forall i: nat | i < |f.segments| && f.segments[i].typ == 1 ::
                   image.start <= f.segments[i].vaddr && f.segments[i].vaddr + f.segments[i].filesz <= image.end
  {
    hide HoldsFile, PackedFile, Executable, ElfCheck, Readable, AllHeaders, PackedImage, SegmentReached, Committed,
      LowRegion, HardwareWalk, Contains, Field, RegionOk;
    ghost var m0, base, end := machine.mem, kernel.image_start, kernel.image_end;
    FileReads(m0, base, end, f);
    ghost var hs := AllHeaders(m0, base, end);
    LowRegionOk(info.low_memory);
    LowRegionOk(info.awd_image);
    LowRegionOk(info.awd_malloc);
    FileEnds(m0, base, end, f);
    if Executable(f.header) { PackedFileLoads(f, hs, base, end); }
    ghost var loaded;
    r, loaded := BootPacked(machine, alloc, paging, info, kernel);
    image := MemRegion(0, 0);
    if r.Done? {
      image := MemRegion(loaded.virt.start, loaded.virt.start + loaded.memory_image.size);
      forall i: nat, k: nat | i < |f.segments| && f.segments[i].typ == 1 && k < f.segments[i].filesz
        ensures ReachedAt(m0, machine.mem, paging.cr3, f.segments[i], base, k)
      {
        SegmentReachedAt(m0, machine.mem, paging.cr3, hs, f, base, i, k);
      }
      forall va: nat | Canonical(va) && !(image.start <= va < image.end)
        ensures HardwareWalk(machine.mem, paging.cr3, va) == OutsideImage(info, va)
      {
        CommittedMap(paging, info, loaded, hs, va);
      }
      ImageSpan(paging, info, loaded, hs, f, base, end);
    }
  }

  lemma FileEnds(m: Mem, base: nat, end: nat, f: ElfFile)
    requires HoldsFile(m, base, end, f)
    ensures base <= end <= TWO32 && |f.header.ident| == 16
  {
  }

  lemma SegmentReachedAt(m0: Mem, m: Mem, cr3: nat, hs: seq<ProgramHeader>, f: ElfFile, base: nat, i: nat, k: nat)
    requires ReadFrom(hs, f.segments) && i < |hs| && f.segments[i].typ == 1 && k < f.segments[i].filesz
    requires SegmentReached(m0, m, cr3, hs[i], base)
    ensures ReachedAt(m0, m, cr3, f.segments[i], base, k)
  {
    hide HardwareWalk;
    assert ByteReached(m0, m, cr3, hs[i], base, k);
  }

  function OutsideImage(info: MemInfo, va: nat): Translation {
    if 0xFFFF_FFFF_8000_0000 <= va < 0xFFFF_FFFF_8020_0000 then Page((va - 0xFFFF_FFFF_8000_0000) / 0x1000, 3)
    else if Contains(info.low_memory, va) || Contains(info.awd_image, va) || Contains(info.awd_malloc, va)
    then Page(va / 0x1000, 3)
    else Fault
  }

  lemma CommittedMap(paging: Paging, info: MemInfo, loaded: LoadedInfo, hs: seq<ProgramHeader>, va: nat)
    requires Committed(paging, info, loaded, hs) && Canonical(va)
    requires LowRegion(info.low_memory) && LowRegion(info.awd_image) && LowRegion(info.awd_malloc)
    requires !(loaded.virt.start <= va < loaded.virt.start + loaded.memory_image.size)
    ensures HardwareWalk(paging.machine.mem, paging.cr3, va) == OutsideImage(info, va)
  {
    hide Tree, Leaf, QueueLeaf, BootQueue, HardwareWalk, LowRegion, Contains, VirtStart, ImageSize;
    AddressMap(info, loaded, paging.State(), va);
  }

  lemma ImageSpan(paging: Paging, info: MemInfo, loaded: LoadedInfo, hs: seq<ProgramHeader>, f: ElfFile, base: nat, end: nat)
    requires Committed(paging, info, loaded, hs) && ReadFrom(hs, f.segments) && PackedImage(hs, base, end)
    ensures exists i: nat :: i < |f.segments| && f.segments[i].typ == 1 && f.segments[i].vaddr == loaded.virt.start
    ensures forall i: nat | i < |f.segments| && f.segments[i].typ == 1 ::
              && loaded.virt.start <= f.segments[i].vaddr
              && f.segments[i].vaddr + f.segments[i].filesz <= loaded.virt.start + loaded.memory_image.size
  {
    hide Tree, Leaf, QueueLeaf, BootQueue, Packed;
    PackedExtent(hs);
    forall i: nat | i < |f.segments| && f.segments[i].typ == 1
      ensures loaded.virt.start <= f.segments[i].vaddr
      ensures f.segments[i].vaddr + f.segments[i].filesz <= loaded.virt.start + loaded.memory_image.size
    {
      assert hs[i].IsLoad();
    }
    var l: nat :| l < |hs| && hs[l].IsLoad();
    var h :| h in hs && h.p_type == 1 && h.p_vaddr == VirtStart(hs);
    var first: nat :| first < |hs| && hs[first] == h;
    assert f.segments[first].typ == 1 && f.segments[first].vaddr == loaded.virt.start;
  }
}
