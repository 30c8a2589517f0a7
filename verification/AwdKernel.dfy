/** The boot loader's ELF64 loader: measuring the LOAD segments and copying them into one image. */
module AwdKernel {
  import opened Outcomes
  import opened Memory
  import opened AwdAlloc

  datatype KernelRegion = KernelRegion(start: nat, size: nat)

  datatype KernelInfo = KernelInfo(image_start: nat, image_end: nat, phys: KernelRegion, virt: KernelRegion)

  datatype LoadedInfo = LoadedInfo(memory_image: KernelRegion, virt: KernelRegion, virtual_entry: nat)

  /** The fields of a program header that the loader reads. */
  datatype ProgramHeader = ProgramHeader(p_type: nat, p_offset: nat, p_vaddr: nat, p_filesz: nat, p_memsz: nat) {
    predicate IsLoad() {
      p_type == 1
    }
  }

  const START_LIMIT: nat := 0xFFFF_FFFF_FFFF_FF00
  const HEADER_SIZE: nat := 64
  const PHEADER_SIZE: nat := 56

  /** A little-endian field of n bytes. */
  function Field(m: Mem, a: nat, n: nat): nat
    requires a + n <= |m|
  {
    FromBytes(m[a..a + n])
  }

  predicate ElfCheck(m: Mem, base: nat)
    requires base + HEADER_SIZE <= |m|
  {
    && m[base] == 0x7F && m[base + 1] == 0x45 && m[base + 2] == 0x4C && m[base + 3] == 0x46
    && Field(m, base + 18, 2) == 0x3E
    && Field(m, base + 16, 2) == 2
  }

  function HeaderCount(m: Mem, base: nat): nat
    requires base + HEADER_SIZE <= |m|
  {
    Field(m, base + 56, 2)
  }

  /** The offset of program header i, cut to 32 bits. */
  function HeaderOffset(m: Mem, base: nat, i: nat): nat
    requires base + HEADER_SIZE <= |m|
  {
    (Field(m, base + 32, 8) + Field(m, base + 54, 2) * i) % TWO32
  }

  function HeaderAt(m: Mem, a: nat): ProgramHeader
    requires a + PHEADER_SIZE <= |m|
  {
    ProgramHeader(Field(m, a, 4), Field(m, a + 8, 8), Field(m, a + 16, 8), Field(m, a + 32, 8), Field(m, a + 40, 8))
  }

  /** The file lies in memory below 4 GiB and its headers lie in the file. */
  ghost predicate Readable(m: Mem, base: nat, end: nat)
    ensures Readable(m, base, end) ==> base + HEADER_SIZE <= end <= |m|
  {
    && base + HEADER_SIZE <= end <= |m| && end <= TWO32
    && forall i: nat :: i < HeaderCount(m, base) ==> base + HeaderOffset(m, base, i) + PHEADER_SIZE <= end
  }

  function Header(m: Mem, base: nat, i: nat): ProgramHeader
    requires base + HEADER_SIZE <= |m| && base + HeaderOffset(m, base, i) + PHEADER_SIZE <= |m|
  {
    HeaderAt(m, base + HeaderOffset(m, base, i))
  }

  function Headers(m: Mem, base: nat, end: nat, n: nat): (hs: seq<ProgramHeader>)
    requires Readable(m, base, end) && n <= HeaderCount(m, base)
    ensures |hs| == n
    ensures forall i :: 0 <= i < n ==> hs[i] == Header(m, base, i)
  {
    if n == 0 then [] else Headers(m, base, end, n - 1) + [Header(m, base, n - 1)]
  }

  function AllHeaders(m: Mem, base: nat, end: nat): (hs: seq<ProgramHeader>)
    requires Readable(m, base, end)
    ensures |hs| == HeaderCount(m, base)
  {
    Headers(m, base, end, HeaderCount(m, base))
  }

  ghost predicate SameBytes(m: Mem, m': Mem, a: nat, b: nat) {
    |m| == |m'| && forall k :: a <= k < b && k < |m| ==> m'[k] == m[k]
  }

  /** The headers depend only on the bytes of the file. */
  lemma HeadersAgree(m: Mem, m': Mem, base: nat, end: nat)
    requires Readable(m, base, end) && SameBytes(m, m', base, end)
    ensures Readable(m', base, end) && AllHeaders(m', base, end) == AllHeaders(m, base, end)
    ensures ElfCheck(m', base) == ElfCheck(m, base) && HeaderCount(m', base) == HeaderCount(m, base)
  {
    hide HeaderAt;
    FieldAgrees(m, m', base, end, base + 56, 2);
    FieldAgrees(m, m', base, end, base + 32, 8);
    FieldAgrees(m, m', base, end, base + 54, 2);
    FieldAgrees(m, m', base, end, base + 18, 2);
    FieldAgrees(m, m', base, end, base + 16, 2);
    forall i: nat | i < HeaderCount(m, base)
      ensures HeaderOffset(m', base, i) == HeaderOffset(m, base, i)
      ensures base + HeaderOffset(m, base, i) + PHEADER_SIZE <= end
      ensures Header(m', base, i) == Header(m, base, i)
    {
      HeaderAgrees(m, m', base, end, base + HeaderOffset(m, base, i));
    }
  }

  lemma FieldAgrees(m: Mem, m': Mem, base: nat, end: nat, a: nat, n: nat)
    requires base <= a && a + n <= end <= |m| && SameBytes(m, m', base, end)
    ensures Field(m', a, n) == Field(m, a, n)
  {
    assert m[a..a + n] == m'[a..a + n];
  }

  lemma HeaderAgrees(m: Mem, m': Mem, base: nat, end: nat, a: nat)
    requires base <= a && a + PHEADER_SIZE <= end <= |m| && SameBytes(m, m', base, end)
    ensures HeaderAt(m', a) == HeaderAt(m, a)
  {
    FieldAgrees(m, m', base, end, a, 4);
    FieldAgrees(m, m', base, end, a + 8, 8);
    FieldAgrees(m, m', base, end, a + 16, 8);
    FieldAgrees(m, m', base, end, a + 32, 8);
    FieldAgrees(m, m', base, end, a + 40, 8);
  }

  // ----- measuring -----

  /** The lowest LOAD address, or the starting bound. */
  function VirtStart(hs: seq<ProgramHeader>): (v: nat)
    ensures v <= 0xFFFF_FFFF_FFFF_FF00
    ensures forall h :: h in hs && h.p_type == 1 ==> v <= h.p_vaddr
    ensures v == 0xFFFF_FFFF_FFFF_FF00 || exists h :: h in hs && h.p_type == 1 && h.p_vaddr == v
  {
    if hs == [] then START_LIMIT else
      var last := hs[|hs| - 1];
      assert hs == hs[..|hs| - 1] + [last];
      var rest := VirtStart(hs[..|hs| - 1]);
      if last.IsLoad() && rest > last.p_vaddr then last.p_vaddr else rest
  }

  /** The lowest file address of a LOAD segment, in 32 bits. */
  function PhysStart(hs: seq<ProgramHeader>, base: nat): nat {
    if hs == [] then START_LIMIT else
      var last := hs[|hs| - 1];
      var rest := PhysStart(hs[..|hs| - 1], base);
      var a := (base + last.p_offset) % TWO32;
      if last.IsLoad() && rest > a then a else rest
  }

  lemma {:induction false} PhysStartIsLowest(hs: seq<ProgramHeader>, base: nat)
    ensures var p := PhysStart(hs, base);
            && p <= 0xFFFF_FFFF_FFFF_FF00
            && (forall h :: h in hs && h.p_type == 1 ==> p <= (base + h.p_offset) % 0x1_0000_0000)
            && (p == 0xFFFF_FFFF_FFFF_FF00
                || exists h :: h in hs && h.p_type == 1 && (base + h.p_offset) % 0x1_0000_0000 == p)
  {
    if hs != [] {
      var n := |hs| - 1;
      PhysStartIsLowest(hs[..n], base);
      assert hs == hs[..n] + [hs[n]];
    }
  }

  /** The image size: sizes are added up and rounded to a page after each LOAD segment. */
  function ImageSize(hs: seq<ProgramHeader>): (s: nat)
    ensures s % 0x1000 == 0
  {
    if hs == [] then 0 else
      var last := hs[|hs| - 1];
      var rest := ImageSize(hs[..|hs| - 1]);
      if last.IsLoad() then PageUp(rest + last.p_memsz % TWO32) else rest
  }

  /** The memory sizes of the LOAD segments, each rounded up to a page. */
  function RoundedSizes(hs: seq<ProgramHeader>): nat {
    if hs == [] then 0
    else (if hs[0].p_type == 1 then PageUp(hs[0].p_memsz % 0x1_0000_0000) else 0) + RoundedSizes(hs[1..])
  }

  /** Rounding up after each addition is rounding up each size: the image size is their sum. */
  lemma {:induction false} ImageSizeIsSum(hs: seq<ProgramHeader>)
    ensures ImageSize(hs) == RoundedSizes(hs)
  {
    if hs != [] {
      var n := |hs| - 1;
      ImageSizeIsSum(hs[..n]);
      assert hs[..n] + [hs[n]] == hs;
      RoundedSizesAppend(hs[..n], hs[n]);
      RoundAfterAligned(ImageSize(hs[..n]), hs[n].p_memsz % TWO32);
    }
  }

  lemma {:induction false} RoundedSizesAppend(hs: seq<ProgramHeader>, h: ProgramHeader)
    ensures RoundedSizes(hs + [h]) ==
              RoundedSizes(hs) + if h.p_type == 1 then PageUp(h.p_memsz % 0x1_0000_0000) else 0
  {
    if hs == [] {
      assert [] + [h] == [h] && RoundedSizes([]) == 0 && RoundedSizes([h][1..]) == 0;
    } else {
      assert (hs + [h])[1..] == hs[1..] + [h];
      RoundedSizesAppend(hs[1..], h);
    }
  }

  lemma RoundAfterAligned(a: nat, x: nat)
    requires a % 0x1000 == 0
    ensures PageUp(a + x) == a + PageUp(x)
  {
    var q := a / 0x1000;
    assert a + x + 0xFFF == q * 0x1000 + (x + 0xFFF);
    assert (q * 0x1000 + (x + 0xFFF)) / 0x1000 == q + (x + 0xFFF) / 0x1000;
  }

  lemma {:induction false} ImageSizeBound(hs: seq<ProgramHeader>)
    ensures ImageSize(hs) <= |hs| * (TWO32 + 0x1000)
  {
    if hs != [] {
      ImageSizeBound(hs[..|hs| - 1]);
    }
  }

  lemma HeaderCountBound(m: Mem, base: nat)
    requires base + HEADER_SIZE <= |m|
    ensures HeaderCount(m, base) < 0x1_0000
  {
    FromBytesBound(m[base + 56..base + 58]);
    assert Pow256(2) == 256 * Pow256(1) && Pow256(1) == 256 * Pow256(0);
  }

  /** kernel_analyse: where the image goes and how large it is. Stops the machine on anything but an ELF executable. */
  method Analyse(machine: Machine, info: KernelInfo) returns (r: Outcome<KernelInfo>)
    requires Readable(machine.mem, info.image_start, info.image_end)
    ensures r == if !ElfCheck(machine.mem, info.image_start) then Halted(NotElf) else
        var hs := AllHeaders(machine.mem, info.image_start, info.image_end);
        Done(info.(phys := KernelRegion(PhysStart(hs, info.image_start), ImageSize(hs)),
                   virt := KernelRegion(VirtStart(hs), ImageSize(hs))))
  {
    hide Readable, HeaderAt, HeaderOffset, ElfCheck, VirtStart, PhysStart, ImageSize;
    var base := info.image_start;
    if !ElfCheck(machine.mem, base) { return Halted(NotElf); }
    ghost var hs := AllHeaders(machine.mem, base, info.image_end);
    var virtStart, physStart, physSize := START_LIMIT, START_LIMIT, 0;
    HeaderCountBound(machine.mem, base);
    MeasureStart(hs, base);
    var phnum := HeaderCount(machine.mem, base);
    for i := 0 to phnum
      invariant virtStart == VirtStart(hs[..i]) && physStart == PhysStart(hs[..i], base)
      invariant physSize == ImageSize(hs[..i])
    {
      MeasureStep(hs, base, i);
      HeaderInFile(machine.mem, base, info.image_end, i);
      var h := HeaderAt(machine.mem, base + HeaderOffset(machine.mem, base, i));
      if !h.IsLoad() { continue; }
      if virtStart > h.p_vaddr { virtStart := h.p_vaddr; }
      var fileAddress := (base + h.p_offset) % TWO32;
      if physStart > fileAddress { physStart := fileAddress; }
      physSize := RoundSize((physSize + h.p_memsz % TWO32) % TWO64);
    }
    assert hs[..phnum] == hs;
    return Done(info.(phys := KernelRegion(physStart, physSize), virt := KernelRegion(virtStart, physSize)));
  }

  lemma MeasureStart(hs: seq<ProgramHeader>, base: nat)
    ensures VirtStart(hs[..0]) == START_LIMIT && PhysStart(hs[..0], base) == START_LIMIT && ImageSize(hs[..0]) == 0
  {
  }

  lemma HeaderInFile(m: Mem, base: nat, end: nat, i: nat)
    requires Readable(m, base, end) && i < HeaderCount(m, base)
    ensures base + HeaderOffset(m, base, i) + PHEADER_SIZE <= end
    ensures AllHeaders(m, base, end)[i] == HeaderAt(m, base + HeaderOffset(m, base, i))
  {
  }

  /** One more header measured. */
  lemma MeasureStep(hs: seq<ProgramHeader>, base: nat, i: nat)
    requires i < |hs| < 0x1_0000
    ensures VirtStart(hs[..i + 1]) ==
            if hs[i].IsLoad() && VirtStart(hs[..i]) > hs[i].p_vaddr then hs[i].p_vaddr else VirtStart(hs[..i])
    ensures var a := (base + hs[i].p_offset) % TWO32;
            PhysStart(hs[..i + 1], base) ==
              if hs[i].IsLoad() && PhysStart(hs[..i], base) > a then a else PhysStart(hs[..i], base)
    ensures ImageSize(hs[..i + 1]) ==
            if hs[i].IsLoad() then PageUp((ImageSize(hs[..i]) + hs[i].p_memsz % TWO32) % TWO64)
            else ImageSize(hs[..i])
  {
    VirtStep(hs, i);
    PhysStep(hs, base, i);
    SizeStep(hs, i);
  }

  lemma VirtStep(hs: seq<ProgramHeader>, i: nat)
    requires i < |hs|
    ensures VirtStart(hs[..i + 1]) ==
            if hs[i].IsLoad() && VirtStart(hs[..i]) > hs[i].p_vaddr then hs[i].p_vaddr else VirtStart(hs[..i])
  {
    hide ProgramHeader.IsLoad;
    assert hs[..i + 1][..i] == hs[..i];
  }

  lemma PhysStep(hs: seq<ProgramHeader>, base: nat, i: nat)
    requires i < |hs|
    ensures var a := (base + hs[i].p_offset) % TWO32;
            PhysStart(hs[..i + 1], base) ==
              if hs[i].IsLoad() && PhysStart(hs[..i], base) > a then a else PhysStart(hs[..i], base)
  {
    hide ProgramHeader.IsLoad;
    assert hs[..i + 1][..i] == hs[..i];
  }

  lemma SizeStep(hs: seq<ProgramHeader>, i: nat)
    requires i < |hs| < 0x1_0000
    ensures ImageSize(hs[..i + 1]) ==
            if hs[i].IsLoad() then PageUp((ImageSize(hs[..i]) + hs[i].p_memsz % TWO32) % TWO64)
            else ImageSize(hs[..i])
  {
    hide ProgramHeader.IsLoad, PageUp;
    assert hs[..i + 1][..i] == hs[..i];
    ImageSizeBound(hs[..i]);
    SizeFits(i);
    NoWrap(ImageSize(hs[..i]), hs[i].p_memsz, i);
  }

  lemma NoWrap(size: nat, memsz: nat, i: nat)
    requires size <= i * (TWO32 + 0x1000) && i * (TWO32 + 0x1000) + TWO32 < TWO64
    ensures (size + memsz % TWO32) % TWO64 == size + memsz % TWO32
  {
  }

  lemma SizeFits(i: nat)
    requires i < 0x1_0000
    ensures i * (TWO32 + 0x1000) + TWO32 < TWO64
  {
  }

  /** The rounding step of the size computation; the remainder is taken of the low 32 bits. */
  function RoundSize(s: nat): (r: nat)
    ensures r == PageUp(s)
  {
    assert s % TWO32 % 0x1000 == s % 0x1000 by { LowBits(s); }
    if s % 0x1000 != 0 then s + (0x1000 - s % TWO32 % 0x1000) else s
  }

  lemma LowBits(s: nat)
    ensures s % TWO32 % 0x1000 == s % 0x1000
  {
    var q := s / TWO32;
    assert s == q * TWO32 + s % TWO32;
    assert q * TWO32 == 0x1000 * (q * 0x10_0000);
  }

  // ----- copying -----

  /** Where a segment goes and where it comes from, in 32 bits. */
  function DestAddress(h: ProgramHeader, image: nat, virtStart: nat): nat {
    (image + (h.p_vaddr + TWO64 - virtStart % TWO64)) % TWO32
  }

  function FileAddress(h: ProgramHeader, base: nat): nat {
    (base + h.p_offset) % TWO32
  }

  /**
   What the loader needs of its input: each LOAD segment's file bytes lie in the file and, placed relative to
   the lowest LOAD address, in the image; and the places of different segments do not overlap.
  */
  ghost predicate Loadable(hs: seq<ProgramHeader>, base: nat, end: nat, virtStart: nat, size: nat) {
    && base <= end <= TWO32 && size < TWO32
    && (forall i :: 0 <= i < |hs| && hs[i].IsLoad() ==>
          && virtStart <= hs[i].p_vaddr && hs[i].p_vaddr - virtStart + hs[i].p_filesz <= size
          && base + hs[i].p_offset + hs[i].p_filesz <= end)
    && (forall i, j :: 0 <= i < j < |hs| && hs[i].IsLoad() && hs[j].IsLoad() ==> Apart(hs[i], hs[j]))
  }

  predicate Apart(h: ProgramHeader, h': ProgramHeader) {
    h.p_vaddr + h.p_filesz <= h'.p_vaddr || h'.p_vaddr + h'.p_filesz <= h.p_vaddr
  }

  function Slice(m: Mem, a: nat, n: nat): Mem
    requires a + n <= |m|
  {
    m[a..a + n]
  }

  /** The file bytes of a segment are in place. */
  ghost predicate InPlace(m0: Mem, m: Mem, h: ProgramHeader, base: nat, image: nat, virtStart: nat)
    requires h.p_vaddr >= virtStart
    requires base + h.p_offset + h.p_filesz <= |m0| && image + (h.p_vaddr - virtStart) + h.p_filesz <= |m|
  {
    Slice(m, image + (h.p_vaddr - virtStart), h.p_filesz) == Slice(m0, base + h.p_offset, h.p_filesz)
  }

  /** Memory with n bytes at dest replaced by those at src. */
  function Copied(m: Mem, dest: nat, src: nat, n: nat): (r: Mem)
    requires dest + n <= |m| && src + n <= |m|
    ensures |r| == |m|
  {
    m[..dest] + m[src..src + n] + m[dest + n..]
  }

  /** memcpy, byte by byte from the front. */
  method Memcpy(machine: Machine, dest: nat, src: nat, n: nat)
    requires n > 0 ==>
      dest + n <= |machine.mem| && src + n <= |machine.mem| && (dest + n <= src || src + n <= dest)
    modifies machine`mem
    ensures machine.mem == if n == 0 then old(machine.mem) else Copied(old(machine.mem), dest, src, n)
  {
    hide Copied;
    for i := 0 to n
      invariant machine.mem == if i == 0 then old(machine.mem) else Copied(old(machine.mem), dest, src, i)
    {
      CopiedStep(old(machine.mem), dest, src, i);
      machine.mem := machine.mem[dest + i := machine.mem[src + i]];
    }
  }

  lemma CopiedStep(m: Mem, dest: nat, src: nat, i: nat)
    requires dest + i < |m| && src + i < |m| && (dest + i < src || src + i < dest)
    ensures Copied(m, dest, src, 0) == m
    ensures Copied(m, dest, src, i)[src + i] == m[src + i]
    ensures Copied(m, dest, src, i)[dest + i := m[src + i]] == Copied(m, dest, src, i + 1)
  {
    assert m[src..src + i + 1] == m[src..src + i] + [m[src + i]];
  }

  /**
   kernel_load: allocates the image and copies every LOAD segment to its place. Outside the image, memory keeps
   its contents.
  */
  method Load(machine: Machine, alloc: Allocator, info: KernelInfo) returns (r: Outcome<LoadedInfo>)
    requires Readable(machine.mem, info.image_start, info.image_end)
    requires var hs := AllHeaders(machine.mem, info.image_start, info.image_end);
             Loadable(hs, info.image_start, info.image_end, info.virt.start, info.phys.size) && info.virt.start < TWO64
    requires info.image_end <= alloc.heap_phys_current <= alloc.heap_phys_limit <= TWO32
    requires alloc.alloc_enabled && alloc.heap_phys_limit <= |machine.mem|
    modifies machine`mem, alloc`heap_phys_current
    ensures |machine.mem| == |old(machine.mem)|
    ensures var image := AlignUp(old(alloc.heap_phys_current), 0x1000);
            && (r.Halted? <==> image + info.phys.size >= alloc.heap_phys_limit)
            && (r.Halted? ==> r.why == HeapExhausted)
            && (r.Done? ==>
                  && r.value.memory_image == KernelRegion(image, info.phys.size) && r.value.virt == info.virt
                  && r.value.virtual_entry == Field(old(machine.mem), info.image_start + 24, 8)
                  && alloc.heap_phys_current == image + info.phys.size
                  && (forall k :: 0 <= k < |machine.mem| && !(image <= k < image + info.phys.size) ==>
                        machine.mem[k] == old(machine.mem)[k])
                  && var hs := AllHeaders(old(machine.mem), info.image_start, info.image_end);
                     forall i :: 0 <= i < |hs| && hs[i].IsLoad() ==>
                       InPlace(old(machine.mem), machine.mem, hs[i], info.image_start, image, info.virt.start))
  {
    hide Readable, AllHeaders, InPlace, AlignUp, Loadable, ElfCheck;
    LoadSize(AllHeaders(machine.mem, info.image_start, info.image_end), info);
    var image :- alloc.MallocAligned(info.phys.size % TWO32, 0x1000);
    CopySegments(machine, info, image);
    FieldAgrees(old(machine.mem), machine.mem, info.image_start, info.image_end, info.image_start + 24, 8);
    return Done(LoadedInfo(KernelRegion(image, info.phys.size), info.virt,
                           Field(machine.mem, info.image_start + 24, 8)));
  }

  lemma LoadSize(hs: seq<ProgramHeader>, info: KernelInfo)
    requires Loadable(hs, info.image_start, info.image_end, info.virt.start, info.phys.size)
    ensures info.phys.size < TWO32
  {
  }

  /** The copying loop; the headers are read again from memory in each round. */
  method CopySegments(machine: Machine, info: KernelInfo, image: nat)
    requires Readable(machine.mem, info.image_start, info.image_end)
    requires var hs := AllHeaders(machine.mem, info.image_start, info.image_end);
             Loadable(hs, info.image_start, info.image_end, info.virt.start, info.phys.size) && info.virt.start < TWO64
    requires info.image_end <= image && image + info.phys.size <= |machine.mem| && image + info.phys.size <= TWO32
    modifies machine`mem
    ensures |machine.mem| == |old(machine.mem)|
    ensures forall k :: 0 <= k < |machine.mem| && !(image <= k < image + info.phys.size) ==>
              machine.mem[k] == old(machine.mem)[k]
    ensures var hs := AllHeaders(old(machine.mem), info.image_start, info.image_end);
            forall i :: 0 <= i < |hs| && hs[i].IsLoad() ==>
              InPlace(old(machine.mem), machine.mem, hs[i], info.image_start, image, info.virt.start)
  {
    hide Readable, HeaderAt, HeaderOffset, InPlace, Copied, DestAddress, FileAddress, AllHeaders;
    ghost var m0 := machine.mem;
    var base := info.image_start;
    ghost var end, virtStart, size := info.image_end, info.virt.start, info.phys.size;
    ghost var hs := AllHeaders(m0, base, end);
    var phnum := HeaderCount(machine.mem, base);
    for i := 0 to phnum
      invariant Copying(m0, machine.mem, hs, i, base, end, image, virtStart, size)
    {
      ghost var m := machine.mem;
      CopyingReads(m0, m, hs, i, base, end, image, virtStart, size);
      var h := HeaderAt(machine.mem, base + HeaderOffset(machine.mem, base, i));
      if !h.IsLoad() { continue; }
      Addresses(h, base, end, image, virtStart, size);
      Memcpy(machine, DestAddress(h, image, info.virt.start), FileAddress(h, base), h.p_filesz % TWO32);
      CopyingStep(m0, m, machine.mem, hs, i, base, end, image, virtStart, size);
    }
  }

  lemma Addresses(h: ProgramHeader, base: nat, end: nat, image: nat, virtStart: nat, size: nat)
    requires h.p_vaddr >= virtStart && h.p_vaddr - virtStart + h.p_filesz <= size && image + size <= TWO32
    requires base + h.p_offset + h.p_filesz <= end && end <= TWO32 && size < TWO32 && virtStart < TWO64
    ensures h.p_filesz % TWO32 == h.p_filesz
    ensures h.p_filesz > 0 ==> DestAddress(h, image, virtStart) == image + (h.p_vaddr - virtStart)
    ensures h.p_filesz > 0 ==> FileAddress(h, base) == base + h.p_offset
  {
  }

  /** The setting of a load that never leaves the file or the image. */
  ghost predicate Setting(m0: Mem, hs: seq<ProgramHeader>, base: nat, end: nat, image: nat, virtStart: nat, size: nat) {
    && Readable(m0, base, end) && hs == AllHeaders(m0, base, end)
    && Loadable(hs, base, end, virtStart, size) && virtStart < TWO64
    && end <= image && image + size <= |m0| && image + size <= TWO32
  }

  /** The first i headers have been dealt with. */
  ghost predicate Copying(m0: Mem, m: Mem, hs: seq<ProgramHeader>, i: nat, base: nat, end: nat, image: nat,
                          virtStart: nat, size: nat)
    requires Setting(m0, hs, base, end, image, virtStart, size) && i <= |hs|
  {
    && |m| == |m0|
    && (forall k | 0 <= k < |m0| && !(image <= k < image + size) :: m[k] == m0[k])
    && forall j :: 0 <= j < i && hs[j].IsLoad() ==> InPlace(m0, m, hs[j], base, image, virtStart)
  }

  lemma CopyingReads(m0: Mem, m: Mem, hs: seq<ProgramHeader>, i: nat, base: nat, end: nat, image: nat,
                     virtStart: nat, size: nat)
    requires Setting(m0, hs, base, end, image, virtStart, size) && i < |hs|
    requires Copying(m0, m, hs, i, base, end, image, virtStart, size)
    ensures base + HEADER_SIZE <= |m| && base + HeaderOffset(m, base, i) + PHEADER_SIZE <= |m|
    ensures HeaderAt(m, base + HeaderOffset(m, base, i)) == hs[i]
    ensures hs[i].IsLoad() ==>
              && virtStart <= hs[i].p_vaddr && hs[i].p_vaddr - virtStart + hs[i].p_filesz <= size
              && base + hs[i].p_offset + hs[i].p_filesz <= end
    ensures !hs[i].IsLoad() ==> Copying(m0, m, hs, i + 1, base, end, image, virtStart, size)
  {
    hide InPlace, HeaderAt, HeaderOffset;
    HeadersAgree(m0, m, base, end);
    HeaderInFile(m, base, end, i);
  }

  lemma CopyingStep(m0: Mem, m: Mem, m': Mem, hs: seq<ProgramHeader>, i: nat, base: nat, end: nat, image: nat,
                    virtStart: nat, size: nat)
    requires Setting(m0, hs, base, end, image, virtStart, size) && i < |hs| && hs[i].IsLoad()
    requires Copying(m0, m, hs, i, base, end, image, virtStart, size)
    requires var h := hs[i];
             m' == if h.p_filesz == 0 then m
                   else Copied(m, image + (h.p_vaddr - virtStart), base + h.p_offset, h.p_filesz)
    ensures Copying(m0, m', hs, i + 1, base, end, image, virtStart, size)
  {
    hide Readable, AllHeaders, InPlace, Copied, Loadable, Setting;
    SegmentsInside(m0, hs, base, end, image, virtStart, size);
    CopiedInside(m, m', hs[i], base, image, virtStart, size);
    forall j | 0 <= j <= i && hs[j].IsLoad()
      ensures InPlace(m0, m', hs[j], base, image, virtStart)
    {
      if j < i {
        SegmentsApart(m0, hs, j, i, base, end, image, virtStart, size);
        StaysInPlace(m0, m, m', hs[j], hs[i], base, image, virtStart);
      } else {
        ArrivesInPlace(m0, m, m', hs[i], base, image, virtStart, size);
      }
    }
  }

  lemma SegmentsInside(m0: Mem, hs: seq<ProgramHeader>, base: nat, end: nat, image: nat, virtStart: nat, size: nat)
    requires Setting(m0, hs, base, end, image, virtStart, size)
    ensures end <= image && image + size <= |m0|
    ensures forall j | 0 <= j < |hs| && hs[j].IsLoad() ::
              && hs[j].p_vaddr >= virtStart && hs[j].p_vaddr - virtStart + hs[j].p_filesz <= size
              && base + hs[j].p_offset + hs[j].p_filesz <= end
  {
    hide Readable, AllHeaders;
  }

  lemma SegmentsApart(m0: Mem, hs: seq<ProgramHeader>, j: nat, i: nat, base: nat, end: nat, image: nat, virtStart: nat,
                      size: nat)
    requires Setting(m0, hs, base, end, image, virtStart, size) && j < i < |hs| && hs[j].IsLoad() && hs[i].IsLoad()
    ensures Apart(hs[j], hs[i])
  {
    hide Readable, AllHeaders;
  }

  lemma CopiedInside(m: Mem, m': Mem, h: ProgramHeader, base: nat, image: nat, virtStart: nat, size: nat)
    requires h.p_vaddr >= virtStart && h.p_vaddr - virtStart + h.p_filesz <= size
    requires base + h.p_offset + h.p_filesz <= image && image + size <= |m|
    requires m' == if h.p_filesz == 0 then m
                   else Copied(m, image + (h.p_vaddr - virtStart), base + h.p_offset, h.p_filesz)
    ensures |m'| == |m| && forall k | 0 <= k < |m| && !(image <= k < image + size) :: m'[k] == m[k]
  {
  }

  lemma ArrivesInPlace(m0: Mem, m: Mem, m': Mem, h: ProgramHeader, base: nat, image: nat, virtStart: nat, size: nat)
    requires h.p_vaddr >= virtStart && h.p_vaddr - virtStart + h.p_filesz <= size && |m| == |m0|
    requires base + h.p_offset + h.p_filesz <= image && image + size <= |m0|
    requires forall k | 0 <= k < |m0| && !(image <= k < image + size) :: m[k] == m0[k]
    requires m' == if h.p_filesz == 0 then m
                   else Copied(m, image + (h.p_vaddr - virtStart), base + h.p_offset, h.p_filesz)
    ensures |m'| == |m0| && InPlace(m0, m', h, base, image, virtStart)
  {
    var src, n := base + h.p_offset, h.p_filesz;
    assert Slice(m, src, n) == Slice(m0, src, n);
  }

  lemma StaysInPlace(m0: Mem, m: Mem, m': Mem, h: ProgramHeader, h': ProgramHeader, base: nat, image: nat, virtStart: nat)
    requires h.p_vaddr >= virtStart && h'.p_vaddr >= virtStart && (Apart(h, h') || Apart(h', h))
    requires base + h.p_offset + h.p_filesz <= |m0| && image + (h.p_vaddr - virtStart) + h.p_filesz <= |m|
    requires base + h'.p_offset + h'.p_filesz <= |m| && image + (h'.p_vaddr - virtStart) + h'.p_filesz <= |m|
    requires InPlace(m0, m, h, base, image, virtStart)
    requires m' == if h'.p_filesz == 0 then m
                   else Copied(m, image + (h'.p_vaddr - virtStart), base + h'.p_offset, h'.p_filesz)
    ensures InPlace(m0, m', h, base, image, virtStart)
  {
    var dest, n := image + (h.p_vaddr - virtStart), h.p_filesz;
    assert Slice(m', dest, n) == Slice(m, dest, n);
  }
}
