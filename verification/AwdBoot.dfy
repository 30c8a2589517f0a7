/**
 The boot loader from the kernel module to paged memory: measure, load, queue the mappings, commit them. Ends in
 the loading theorem: the processor's walk of a segment's addresses reaches the bytes of the file.
*/
module AwdBoot {
  import opened Outcomes
  import opened Memory
  import opened PageTables
  import opened PageRanges
  import opened AddressSpaces
  import opened AwdAlloc
  import opened AwdPaging
  import opened AwdKernel

  const PAGING_ATTRIBUTE_READWRITE: nat := 3
  const KERNEL_MEM_BASE: nat := 0xFFFF_FFFF_8000_0000

  datatype MemRegion = MemRegion(start: nat, end: nat)

  /** The regions the loader maps besides the kernel; their ends are the last bytes. */
  datatype MemInfo = MemInfo(low_memory: MemRegion, awd_image: MemRegion, awd_malloc: MemRegion)

  function Identity(r: MemRegion): Region {
    Region(r.start, r.end, r.start, r.end, PAGING_ATTRIBUTE_READWRITE)
  }

  function KernelMapping(kernel: LoadedInfo): Region {
    Region(kernel.memory_image.start, kernel.memory_image.start + kernel.memory_image.size,
           kernel.virt.start, (kernel.virt.start + kernel.memory_image.size) % TWO64, PAGING_ATTRIBUTE_READWRITE)
  }

  function BootQueue(info: MemInfo, kernel: LoadedInfo): seq<Region> {
    [Identity(info.low_memory), Identity(info.awd_image), Identity(info.awd_malloc),
     Window(), KernelMapping(kernel)]
  }

  /** paging_init: the kernel is queued last. */
  method PagingInit(paging: Paging, info: MemInfo, kernel: LoadedInfo)
    requires |paging.paging_queue| + 5 <= PAGING_QUEUE_MAX
    modifies paging`paging_queue
    ensures paging.paging_queue == old(paging.paging_queue) + BootQueue(info, kernel)
  {
    var low, image, heap := info.low_memory, info.awd_image, info.awd_malloc;
    paging.QueueMapping(low.start, low.end, low.start, low.end, PAGING_ATTRIBUTE_READWRITE);
    paging.QueueMapping(image.start, image.end, image.start, image.end, PAGING_ATTRIBUTE_READWRITE);
    paging.QueueMapping(heap.start, heap.end, heap.start, heap.end, PAGING_ATTRIBUTE_READWRITE);
    paging.QueueMapping(0, 0x20_0000, KERNEL_MEM_BASE, KERNEL_MEM_BASE + 0x20_0000, PAGING_ATTRIBUTE_READWRITE);
    paging.QueueMapping(kernel.memory_image.start, kernel.memory_image.start + kernel.memory_image.size,
                        kernel.virt.start, (kernel.virt.start + kernel.memory_image.size) % TWO64,
                        PAGING_ATTRIBUTE_READWRITE);
  }

  // ----- images that load -----

  /** Segments that fit their image, whose lowest address is page aligned in one half of the address space. */
  ghost predicate ImageOk(hs: seq<ProgramHeader>, base: nat, end: nat) {
    && Loadable(hs, base, end, VirtStart(hs), ImageSize(hs))
    && CanonicalRange(VirtStart(hs), ImageSize(hs) / 0x1000)
  }

  ghost predicate HasLoad(hs: seq<ProgramHeader>) {
    exists i :: 0 <= i < |hs| && hs[i].IsLoad()
  }

  /** The end of the last LOAD segment, rounded up to a page. */
  function LastEnd(hs: seq<ProgramHeader>): nat {
    if hs == [] then 0 else
      var last := hs[|hs| - 1];
      if last.IsLoad() then PageUp(last.p_vaddr + last.p_memsz) else LastEnd(hs[..|hs| - 1])
  }

  /** LOAD segments are page aligned and packed page to page, with file sizes within memory sizes. */
  ghost predicate Packed(hs: seq<ProgramHeader>)
  {
    hs == [] ||
    (var n := |hs| - 1;
     && Packed(hs[..n])
     && (hs[n].IsLoad() ==>
           && hs[n].p_vaddr % 0x1000 == 0 && hs[n].p_vaddr + hs[n].p_memsz <= START_LIMIT
           && hs[n].p_filesz <= hs[n].p_memsz < TWO32
           && (HasLoad(hs[..n]) ==> hs[n].p_vaddr == LastEnd(hs[..n]))))
  }

  lemma HasLoadStep(hs: seq<ProgramHeader>)
    requires hs != []
    ensures HasLoad(hs) <==> HasLoad(hs[..|hs| - 1]) || hs[|hs| - 1].IsLoad()
    ensures forall i :: 0 <= i < |hs| && hs[i].IsLoad() ==> i == |hs| - 1 || HasLoad(hs[..|hs| - 1])
  {
    var init := hs[..|hs| - 1];
    if HasLoad(init) {
      var i :| 0 <= i < |init| && init[i].IsLoad();
      assert hs[i].IsLoad();
    }
    forall i | 0 <= i < |hs| - 1 && hs[i].IsLoad() ensures HasLoad(init) {
      assert init[i].IsLoad();
    }
  }

  /** A packed image ends where its last segment does, starts page aligned, and holds every segment. */
  lemma {:induction false} PackedExtent(hs: seq<ProgramHeader>)
    requires Packed(hs)
    ensures !HasLoad(hs) ==> ImageSize(hs) == 0 && VirtStart(hs) == START_LIMIT
    ensures HasLoad(hs) ==> VirtStart(hs) % 0x1000 == 0 && LastEnd(hs) == VirtStart(hs) + ImageSize(hs)
    ensures forall i | 0 <= i < |hs| && hs[i].IsLoad() ::
              VirtStart(hs) <= hs[i].p_vaddr && hs[i].p_vaddr + hs[i].p_filesz <= VirtStart(hs) + ImageSize(hs)
  {
    hide HasLoad, PageUp;
    if hs == [] {
      NoLoads(hs);
    } else {
      var n := |hs| - 1;
      var init := hs[..n];
      PackedExtent(init);
      HasLoadStep(hs);
      if hs[n].IsLoad() {
        PackedEnds(hs);
      }
      forall i | 0 <= i < |hs| && hs[i].IsLoad()
        ensures VirtStart(hs) <= hs[i].p_vaddr && hs[i].p_vaddr + hs[i].p_filesz <= VirtStart(hs) + ImageSize(hs)
      {
        assert i < n ==> init[i] == hs[i];
      }
    }
  }

  /** The induction step of PackedExtent when the last header is a LOAD. */
  lemma PackedEnds(hs: seq<ProgramHeader>)
    requires hs != [] && Packed(hs) && hs[|hs| - 1].IsLoad()
    requires var init := hs[..|hs| - 1];
             && (!HasLoad(init) ==> ImageSize(init) == 0 && VirtStart(init) == START_LIMIT)
             && (HasLoad(init) ==> VirtStart(init) % 0x1000 == 0 && LastEnd(init) == VirtStart(init) + ImageSize(init))
    ensures var init, last := hs[..|hs| - 1], hs[|hs| - 1];
            && VirtStart(hs) == (if HasLoad(init) then VirtStart(init) else last.p_vaddr)
            && VirtStart(hs) % 0x1000 == 0
            && last.p_vaddr == VirtStart(hs) + ImageSize(init)
            && ImageSize(hs) == ImageSize(init) + PageUp(last.p_memsz)
            && LastEnd(hs) == VirtStart(hs) + ImageSize(hs)
  {
    hide HasLoad, PageUp;
    var init, last := hs[..|hs| - 1], hs[|hs| - 1];
    PackedStep(ImageSize(init), last.p_vaddr, last.p_memsz);
    BelowLimit(last.p_vaddr);
  }

  lemma BelowLimit(a: nat)
    requires a % 0x1000 == 0 && a <= START_LIMIT
    ensures a < START_LIMIT
  {
  }

  lemma NoLoads(hs: seq<ProgramHeader>)
    ensures hs == [] ==> !HasLoad(hs)
  {
  }

  lemma PackedStep(size: nat, vaddr: nat, memsz: nat)
    requires size % 0x1000 == 0 && vaddr % 0x1000 == 0 && memsz < TWO32
    ensures PageUp(size + memsz % TWO32) == size + PageUp(memsz)
    ensures PageUp(vaddr + memsz) == vaddr + PageUp(memsz)
  {
    RoundAfterAligned(size, memsz);
    RoundAfterAligned(vaddr, memsz);
  }

  lemma {:induction false} PackedApart(hs: seq<ProgramHeader>, i: nat, j: nat)
    requires Packed(hs) && i < j < |hs| && hs[i].IsLoad() && hs[j].IsLoad()
    ensures hs[i].p_vaddr + hs[i].p_filesz <= hs[j].p_vaddr
  {
    var n := |hs| - 1;
    var init := hs[..n];
    assert init[i] == hs[i];
    if j < n {
      assert init[j] == hs[j];
      PackedApart(init, i, j);
    } else {
      PackedExtent(init);
      assert HasLoad(init);
    }
  }

  /** Packed segments with file ranges inside the file make a loadable image. */
  lemma PackedLoads(hs: seq<ProgramHeader>, base: nat, end: nat)
    requires Packed(hs) && HasLoad(hs) && base <= end <= TWO32 && ImageSize(hs) < TWO32
    requires forall i :: 0 <= i < |hs| && hs[i].IsLoad() ==> base + hs[i].p_offset + hs[i].p_filesz <= end
    requires LastEnd(hs) <= 0x8000_0000_0000 || (VirtStart(hs) >= 0xFFFF_8000_0000_0000 && LastEnd(hs) <= TWO64)
    ensures ImageOk(hs, base, end)
  {
    PackedExtent(hs);
    forall i, j | 0 <= i < j < |hs| && hs[i].IsLoad() && hs[j].IsLoad() ensures Apart(hs[i], hs[j]) {
      PackedApart(hs, i, j);
    }
  }

  // ----- what the kernel's mapping does -----

  /** The kernel mapping is last in the queue, so it decides every page of the image. */
  lemma KernelTranslates(info: MemInfo, kernel: LoadedInfo, va: nat)
    requires var image, v := kernel.memory_image, kernel.virt.start;
             && image.start % 0x1000 == 0 && image.size % 0x1000 == 0 && image.start + image.size <= TWO32
             && CanonicalRange(v, image.size / 0x1000) && v <= va < v + image.size
    ensures Canonical(va)
    ensures LeafTranslation(QueueLeaf(BootQueue(info, kernel), Vpn(va)))
         == Page(kernel.memory_image.start / 0x1000 + (va - kernel.virt.start) / 0x1000, PAGING_ATTRIBUTE_READWRITE)
  {
    var image, v := kernel.memory_image, kernel.virt.start;
    var queue := BootQueue(info, kernel);
    var r := KernelMapping(kernel);
    KernelMappingPages(kernel);
    OffsetInRange(v, image.size / 0x1000, va);
    assert queue[|queue| - 1] == r;
    assert Covers(r, Vpn(va));
    var d := (va - v) / 0x1000;
    assert RegionLeaf(r, Vpn(va)) == (image.start / 0x1000 + d) * 0x1000 + 3;
    FrameAndFlags(image.start / 0x1000 + d, 3);
  }

  lemma KernelMappingPages(kernel: LoadedInfo)
    requires kernel.memory_image.size % 0x1000 == 0 && kernel.memory_image.size <= TWO32
    requires kernel.virt.start + kernel.memory_image.size <= TWO64 && kernel.virt.start < TWO64
    ensures KernelMapping(kernel).Size() == kernel.memory_image.size
    ensures KernelMapping(kernel).Pages() == kernel.memory_image.size / 0x1000
  {
    var q := kernel.memory_image.size / 0x1000;
    assert (q * 0x1000 + 0xFFF) / 0x1000 == q;
  }

  lemma BootQueueOk(info: MemInfo, kernel: LoadedInfo)
    requires RegionOk(Identity(info.low_memory)) && RegionOk(Identity(info.awd_image))
    requires RegionOk(Identity(info.awd_malloc))
    requires var image, v := kernel.memory_image, kernel.virt.start;
             && image.start % 0x1000 == 0 && image.size % 0x1000 == 0 && image.start + image.size <= TWO32
             && CanonicalRange(v, image.size / 0x1000) && v < TWO64
    ensures forall q :: q in BootQueue(info, kernel) ==> RegionOk(q)
  {
    KernelMappingPages(kernel);
    assert RegionOk(KernelMapping(kernel));
    assert RegionOk(Region(0, 0x20_0000, KERNEL_MEM_BASE, KERNEL_MEM_BASE + 0x20_0000, PAGING_ATTRIBUTE_READWRITE));
  }

  /** The physical byte behind an address of the image. */
  lemma ImageByte(image: nat, v: nat, va: nat)
    requires image % 0x1000 == 0 && v % 0x1000 == 0 && v <= va
    ensures (image / 0x1000 + (va - v) / 0x1000) * 0x1000 + va % 0x1000 == image + (va - v)
  {
    var q := v / 0x1000;
    assert va - v == va - q * 0x1000;
    assert (va - q * 0x1000) % 0x1000 == va % 0x1000;
  }

  // ----- the whole boot -----

  /** Address va translates to a physical byte holding b. */
  ghost predicate ReachesByte(m: Mem, cr3: nat, va: nat, b: byte) {
    var t := HardwareWalk(m, cr3, va);
    && t.Page? && t.flags == PAGING_ATTRIBUTE_READWRITE
    && t.frame * 0x1000 + va % 0x1000 < |m|
    && m[t.frame * 0x1000 + va % 0x1000] == b
  }

  /** Byte k of a segment's file contents is what its virtual address reaches. */
  ghost predicate ByteReached(m0: Mem, m: Mem, cr3: nat, h: ProgramHeader, base: nat, k: nat) {
    base + h.p_offset + k < |m0| && ReachesByte(m, cr3, h.p_vaddr + k, m0[base + h.p_offset + k])
  }

  ghost predicate SegmentReached(m0: Mem, m: Mem, cr3: nat, h: ProgramHeader, base: nat) {
    forall k: nat :: k < h.p_filesz ==> ByteReached(m0, m, cr3, h, base, k)
  }

  /** The state between loading and paging: the image is in place below the allocator's cursor. */
  ghost predicate Loaded(m0: Mem, m: Mem, hs: seq<ProgramHeader>, base: nat, end: nat, image: nat) {
    && |m| == |m0| && ImageOk(hs, base, end) && image % 0x1000 == 0
    && end <= |m0| && image + ImageSize(hs) <= |m| && image + ImageSize(hs) <= TWO32
    && forall i :: 0 <= i < |hs| && hs[i].IsLoad() ==> InPlace(m0, m, hs[i], base, image, VirtStart(hs))
  }

  lemma LoadedSegment(m0: Mem, m: Mem, hs: seq<ProgramHeader>, base: nat, end: nat, image: nat, i: nat)
    requires Loaded(m0, m, hs, base, end, image) && i < |hs| && hs[i].IsLoad()
    ensures CanonicalRange(VirtStart(hs), ImageSize(hs) / 0x1000)
    ensures VirtStart(hs) <= hs[i].p_vaddr && hs[i].p_vaddr + hs[i].p_filesz <= VirtStart(hs) + ImageSize(hs)
    ensures base + hs[i].p_offset + hs[i].p_filesz <= |m0|
    ensures image + (hs[i].p_vaddr - VirtStart(hs)) + hs[i].p_filesz <= |m|
    ensures InPlace(m0, m, hs[i], base, image, VirtStart(hs))
  {
    hide VirtStart, ImageSize, InPlace, CanonicalRange;
  }

  /** A loaded byte, and that its place lies in the image. */
  lemma LoadedByte(m0: Mem, m: Mem, hs: seq<ProgramHeader>, base: nat, end: nat, image: nat, i: nat, k: nat)
    requires Loaded(m0, m, hs, base, end, image) && i < |hs| && hs[i].IsLoad() && k < hs[i].p_filesz
    ensures VirtStart(hs) <= hs[i].p_vaddr && hs[i].p_vaddr + k < VirtStart(hs) + ImageSize(hs)
    ensures base + hs[i].p_offset + k < |m0|
    ensures image + (hs[i].p_vaddr - VirtStart(hs)) + k < |m|
    ensures m[image + (hs[i].p_vaddr - VirtStart(hs)) + k] == m0[base + hs[i].p_offset + k]
    ensures CanonicalRange(VirtStart(hs), ImageSize(hs) / 0x1000)
  {
    hide VirtStart, ImageSize, Loaded, Slice, CanonicalRange;
    LoadedSegment(m0, m, hs, base, end, image, i);
    SliceAt(m, image + (hs[i].p_vaddr - VirtStart(hs)), m0, base + hs[i].p_offset, hs[i].p_filesz, k);
  }

  lemma SliceAt(m: Mem, dest: nat, m0: Mem, src: nat, n: nat, k: nat)
    requires dest + n <= |m| && src + n <= |m0| && k < n && Slice(m, dest, n) == Slice(m0, src, n)
    ensures m[dest + k] == m0[src + k]
  {
    assert Slice(m, dest, n)[k] == m[dest + k];
    assert Slice(m0, src, n)[k] == m0[src + k];
  }

  /** Once the image is in place and its bytes survive, the committed queue reaches them. */
  lemma LoadedByteReached(m0: Mem, m: Mem, hs: seq<ProgramHeader>, base: nat, end: nat, info: MemInfo,
                          kernel: LoadedInfo, s: Space, i: nat, k: nat)
    requires Loaded(m0, m, hs, base, end, kernel.memory_image.start)
    requires kernel.memory_image.size == ImageSize(hs) && kernel.virt.start == VirtStart(hs)
    requires s.Valid() && |s.mem| == |m|
    requires forall vpn: nat | vpn < VPN_COUNT :: s.LeafAt(vpn) == QueueLeaf(BootQueue(info, kernel), vpn)
    requires var image := kernel.memory_image;
             forall a :: image.start <= a < image.start + image.size ==> s.mem[a] == m[a]
    requires i < |hs| && hs[i].IsLoad() && k < hs[i].p_filesz
    ensures ByteReached(m0, s.mem, s.root, hs[i], base, k)
  {
    hide Tree, QueueLeaf, BootQueue, WalkFrom, Leaf, VirtStart, ImageSize, HardwareWalk, InPlace, Loadable;
    var va := hs[i].p_vaddr + k;
    LoadedByte(m0, m, hs, base, end, kernel.memory_image.start, i, k);
    ImageStarts(hs, base, end);
    KernelTranslates(info, kernel, va);
    SpaceWalk(s, va);
    ImageByte(kernel.memory_image.start, kernel.virt.start, va);
  }

  lemma SpaceWalk(s: Space, va: nat)
    requires s.Valid() && Canonical(va)
    ensures HardwareWalk(s.mem, s.root, va) == LeafTranslation(s.LeafAt(Vpn(va)))
  {
    WalkRefinesFlatMap(s.mem, s.tables, s.root, va);
  }

  /** The committed tables are those of the boot queue for an image of these headers. */
  ghost predicate Committed(paging: Paging, info: MemInfo, loaded: LoadedInfo, hs: seq<ProgramHeader>)
    reads paging, paging.machine, paging.alloc
  {
    && paging.Valid() && paging.cr3 == paging.paging_pml4
    && loaded.virt.start == VirtStart(hs) && loaded.memory_image.size == ImageSize(hs)
    && loaded.memory_image.start % 0x1000 == 0 && loaded.memory_image.start + ImageSize(hs) <= TWO32
    && CanonicalRange(VirtStart(hs), ImageSize(hs) / 0x1000)
    && forall vpn: nat | vpn < VPN_COUNT :: paging.State().LeafAt(vpn) == QueueLeaf(BootQueue(info, loaded), vpn)
  }

  /** A region of low memory whose end is its last byte. */
  predicate LowRegion(r: MemRegion) {
    r.start % 0x1000 == 0 && r.start <= r.end < 0x1_0000_0000
  }

  predicate Contains(r: MemRegion, va: nat) {
    r.start <= r.end && r.start <= va < r.start + PageUp(r.end - r.start)
  }

  /**
   The address space the kernel is entered in, address by address: the image where it is linked, the first 2 MiB of
   memory at the kernel base, low memory, the loader and its heap at their own addresses, and nothing else.
  */
  lemma AddressMap(info: MemInfo, loaded: LoadedInfo, s: Space, va: nat)
    requires s.Valid() && Canonical(va)
    requires forall vpn: nat | vpn < VPN_COUNT :: s.LeafAt(vpn) == QueueLeaf(BootQueue(info, loaded), vpn)
    requires LowRegion(info.low_memory) && LowRegion(info.awd_image) && LowRegion(info.awd_malloc)
    requires var image, v := loaded.memory_image, loaded.virt.start;
             && image.start % 0x1000 == 0 && image.size % 0x1000 == 0 && image.start + image.size <= TWO32
             && CanonicalRange(v, image.size / 0x1000)
    ensures HardwareWalk(s.mem, s.root, va) ==
              if loaded.virt.start <= va < loaded.virt.start + loaded.memory_image.size
              then Page((loaded.memory_image.start + (va - loaded.virt.start)) / 0x1000, 3)
              else if 0xFFFF_FFFF_8000_0000 <= va < 0xFFFF_FFFF_8020_0000 then Page((va - 0xFFFF_FFFF_8000_0000) / 0x1000, 3)
              else if Contains(info.low_memory, va) || Contains(info.awd_image, va) || Contains(info.awd_malloc, va)
              then Page(va / 0x1000, 3)
              else Fault
  {
    hide Tree, WalkFrom, Leaf, QueueLeaf, Covers, RegionLeaf, LeafTranslation, Contains, HardwareWalk;
    SpaceWalk(s, va);
    FiveRegions(info, loaded, Vpn(va));
    ImageCovers(loaded, va);
    WindowCovers(va);
    IdentityCovers(info.low_memory, va);
    IdentityCovers(info.awd_image, va);
    IdentityCovers(info.awd_malloc, va);
    NoLeaf();
  }

  lemma NoLeaf()
    ensures LeafTranslation(0) == Fault
  {
  }

  /** The last of the five regions that covers a page decides. */
  lemma FiveRegions(info: MemInfo, loaded: LoadedInfo, vpn: nat)
    requires vpn < VPN_COUNT
    ensures QueueLeaf(BootQueue(info, loaded), vpn) ==
              if Covers(KernelMapping(loaded), vpn) then RegionLeaf(KernelMapping(loaded), vpn)
              else if Covers(Window(), vpn) then RegionLeaf(Window(), vpn)
              else if Covers(Identity(info.awd_malloc), vpn) then RegionLeaf(Identity(info.awd_malloc), vpn)
              else if Covers(Identity(info.awd_image), vpn) then RegionLeaf(Identity(info.awd_image), vpn)
              else if Covers(Identity(info.low_memory), vpn) then RegionLeaf(Identity(info.low_memory), vpn)
              else 0
  {
    hide Covers, RegionLeaf;
    var q := BootQueue(info, loaded);
    assert q[..4] == [q[0], q[1], q[2], q[3]];
    assert q[..4][..3] == [q[0], q[1], q[2]];
    assert q[..4][..3][..2] == [q[0], q[1]];
    assert q[..4][..3][..2][..1] == [q[0]];
    assert q[..4][..3][..2][..1][..0] == [];
    assert QueueLeaf(q[..4][..3][..2][..1], vpn) == if Covers(q[0], vpn) then RegionLeaf(q[0], vpn) else 0;
    assert QueueLeaf(q[..4][..3], vpn) ==
           if Covers(q[2], vpn) then RegionLeaf(q[2], vpn) else QueueLeaf(q[..4][..3][..2], vpn);
  }

  /** The first 2 MiB of memory at the kernel base. */
  function Window(): Region {
    Region(0, 0x20_0000, KERNEL_MEM_BASE, KERNEL_MEM_BASE + 0x20_0000, PAGING_ATTRIBUTE_READWRITE)
  }

  lemma WindowCovers(va: nat)
    requires Canonical(va)
    ensures Covers(Window(), Vpn(va)) <==> 0xFFFF_FFFF_8000_0000 <= va < 0xFFFF_FFFF_8020_0000
    ensures Covers(Window(), Vpn(va)) ==>
              LeafTranslation(RegionLeaf(Window(), Vpn(va))) == Page((va - 0xFFFF_FFFF_8000_0000) / 0x1000, 3)
  {
    hide Covers, RegionLeaf, LeafTranslation;
    RegionCovers(Window(), va);
  }

  lemma IdentityCovers(r: MemRegion, va: nat)
    requires LowRegion(r) && Canonical(va)
    ensures Covers(Identity(r), Vpn(va)) <==> Contains(r, va)
    ensures Covers(Identity(r), Vpn(va)) ==> LeafTranslation(RegionLeaf(Identity(r), Vpn(va))) == Page(va / 0x1000, 3)
  {
    hide Covers, RegionLeaf, LeafTranslation;
    LowRegionOk(r);
    RegionCovers(Identity(r), va);
  }

  lemma LowRegionOk(r: MemRegion)
    requires LowRegion(r)
    ensures RegionOk(Identity(r))
    ensures CanonicalRange(r.start, PageUp(r.end - r.start) / 0x1000)
    ensures r.start + PageUp(r.end - r.start) <= 0x10_0000_0000_0000
  {
  }

  lemma ImageCovers(loaded: LoadedInfo, va: nat)
    requires Canonical(va)
    requires var image, v := loaded.memory_image, loaded.virt.start;
             && image.start % 0x1000 == 0 && image.size % 0x1000 == 0 && image.start + image.size <= TWO32
             && CanonicalRange(v, image.size / 0x1000)
    ensures Covers(KernelMapping(loaded), Vpn(va)) <==>
              loaded.virt.start <= va < loaded.virt.start + loaded.memory_image.size
    ensures Covers(KernelMapping(loaded), Vpn(va)) ==>
              LeafTranslation(RegionLeaf(KernelMapping(loaded), Vpn(va)))
                == Page((loaded.memory_image.start + (va - loaded.virt.start)) / 0x1000, 3)
  {
    hide LeafTranslation;
    var image, v := loaded.memory_image, loaded.virt.start;
    OffsetInRange(v, image.size / 0x1000, va);
    assert image.size == image.size / 0x1000 * 0x1000;
    if v < TWO64 {
      KernelMappingPages(loaded);
      if v <= va < v + image.size {
        ImageFrame(image.start, va - v, PageOffset(v, Vpn(va)));
      }
    }
  }

  lemma ImageFrame(p: nat, d: nat, k: nat)
    requires p % 0x1000 == 0 && k == d / 0x1000 && p + d < TWO32
    ensures LeafTranslation(LeafWord(ToFrames(p, 3), k)) == Page((p + d) / 0x1000, 3)
  {
    FrameOfOffset(p, d);
    assert p == 0x1000 * (p / 0x1000);
    assert Cursor(p, k) == (p / 0x1000 + k) * 0x1000;
    FrameAndFlags(p / 0x1000 + k, 3);
  }

  /**
   Analyse, load, queue, commit. When it succeeds, every file byte of every LOAD segment is reached by the
   processor through its virtual address.
  */
  method Boot(machine: Machine, alloc: Allocator, paging: Paging, info: MemInfo, kernel: KernelInfo)
    returns (r: Outcome<nat>, ghost loaded: LoadedInfo)
    requires paging.machine == machine && paging.alloc == alloc && paging.paging_queue == []
    requires Readable(machine.mem, kernel.image_start, kernel.image_end)
    requires var heapBase := PageUp(kernel.image_end);
             && heapBase + AWD_ALLOC_SIZE <= TWO32 && heapBase + AWD_ALLOC_SIZE <= |machine.mem| <= PHYS_LIMIT
             && ZeroBetween(machine.mem, heapBase, heapBase + AWD_ALLOC_SIZE)
             && paging.paging_pml4 % PAGE_SIZE == 0 && paging.paging_pml4 + PAGE_SIZE <= heapBase
    requires RegionOk(Identity(info.low_memory)) && RegionOk(Identity(info.awd_image))
    requires RegionOk(Identity(info.awd_malloc))
    requires ElfCheck(machine.mem, kernel.image_start) ==>
               ImageOk(AllHeaders(machine.mem, kernel.image_start, kernel.image_end), kernel.image_start, kernel.image_end)
    modifies machine, alloc, paging
    ensures r == Halted(NotElf) <==> !ElfCheck(old(machine.mem), kernel.image_start)
    ensures r.Halted? ==> r.why == NotElf || r.why == HeapExhausted
    ensures r.Done? ==>
              && r.value == Field(old(machine.mem), kernel.image_start + 24, 8)
              && var hs := AllHeaders(old(machine.mem), kernel.image_start, kernel.image_end);
                 forall i :: 0 <= i < |hs| && hs[i].IsLoad() ==>
                   SegmentReached(old(machine.mem), machine.mem, paging.cr3, hs[i], kernel.image_start)
    ensures r.Done? ==> Committed(paging, info, loaded, AllHeaders(old(machine.mem), kernel.image_start, kernel.image_end))
  {
    hide Readable, ElfCheck, AllHeaders, RegionOk, Tree, QueueLeaf, Loadable, InPlace, ByteReached, BootQueue, VirtStart,
      ImageSize;
    loaded := LoadedInfo(KernelRegion(0, 0), KernelRegion(0, 0), 0);
    ghost var m0 := machine.mem;
    ghost var base, end := kernel.image_start, kernel.image_end;
    var measured := Analyse(machine, kernel);
    if measured.Halted? { return Halted(measured.why), loaded; }
    var analysed := measured.value;
    ghost var hs := AllHeaders(m0, base, end);
    var heapBase := PageUp(kernel.image_end);
    alloc.AllocInit(heapBase);
    ImageStarts(hs, base, end);
    var load := Load(machine, alloc, analysed);
    if load.Halted? { return Halted(load.why), loaded; }
    loaded := load.value;
    ghost var m := machine.mem;
    PagingInit(paging, info, load.value);
    assert paging.paging_queue == BootQueue(info, loaded);
    BootQueueOk(info, loaded);
    var committed := paging.Commit();
    if committed.Halted? { return Halted(committed.why), loaded; }
    forall i | 0 <= i < |hs| && hs[i].IsLoad()
      ensures SegmentReached(m0, machine.mem, paging.cr3, hs[i], base)
    {
      forall k: nat | k < hs[i].p_filesz ensures ByteReached(m0, machine.mem, paging.cr3, hs[i], base, k) {
        LoadedByteReached(m0, m, hs, base, end, info, loaded, paging.State(), i, k);
      }
    }
    return Done(load.value.virtual_entry), loaded;
  }

  /** Page-aligned LOAD segments packed page to page, in the file and in one half of the address space. */
  ghost predicate PackedImage(hs: seq<ProgramHeader>, base: nat, end: nat) {
    && Packed(hs) && HasLoad(hs) && ImageSize(hs) < TWO32
    && (forall i :: 0 <= i < |hs| && hs[i].IsLoad() ==> base + hs[i].p_offset + hs[i].p_filesz <= end)
    && (LastEnd(hs) <= 0x8000_0000_0000 || (VirtStart(hs) >= 0xFFFF_8000_0000_0000 && LastEnd(hs) <= TWO64))
  }

  /** The boot of a packed image. */
  method BootPacked(machine: Machine, alloc: Allocator, paging: Paging, info: MemInfo, kernel: KernelInfo)
    returns (r: Outcome<nat>, ghost loaded: LoadedInfo)
    requires paging.machine == machine && paging.alloc == alloc && paging.paging_queue == []
    requires Readable(machine.mem, kernel.image_start, kernel.image_end)
    requires var heapBase := PageUp(kernel.image_end);
             && heapBase + AWD_ALLOC_SIZE <= TWO32 && heapBase + AWD_ALLOC_SIZE <= |machine.mem| <= PHYS_LIMIT
             && ZeroBetween(machine.mem, heapBase, heapBase + AWD_ALLOC_SIZE)
             && paging.paging_pml4 % PAGE_SIZE == 0 && paging.paging_pml4 + PAGE_SIZE <= heapBase
    requires RegionOk(Identity(info.low_memory)) && RegionOk(Identity(info.awd_image))
    requires RegionOk(Identity(info.awd_malloc))
    requires ElfCheck(machine.mem, kernel.image_start) ==>
               PackedImage(AllHeaders(machine.mem, kernel.image_start, kernel.image_end), kernel.image_start,
                           kernel.image_end)
    modifies machine, alloc, paging
    ensures r == Halted(NotElf) <==> !ElfCheck(old(machine.mem), kernel.image_start)
    ensures r.Halted? ==> r.why == NotElf || r.why == HeapExhausted
    ensures r.Done? ==>
              && r.value == Field(old(machine.mem), kernel.image_start + 24, 8)
              && var hs := AllHeaders(old(machine.mem), kernel.image_start, kernel.image_end);
                 forall i :: 0 <= i < |hs| && hs[i].IsLoad() ==>
                   SegmentReached(old(machine.mem), machine.mem, paging.cr3, hs[i], kernel.image_start)
    ensures r.Done? ==> Committed(paging, info, loaded, AllHeaders(old(machine.mem), kernel.image_start, kernel.image_end))
  {
    hide Readable, ElfCheck, AllHeaders, RegionOk, ImageOk, Packed, HasLoad, SegmentReached, VirtStart, ImageSize, LastEnd;
    if ElfCheck(machine.mem, kernel.image_start) {
      ReadableEnd(machine.mem, kernel.image_start, kernel.image_end);
      PackedLoads(AllHeaders(machine.mem, kernel.image_start, kernel.image_end), kernel.image_start, kernel.image_end);
    }
    r, loaded := Boot(machine, alloc, paging, info, kernel);
  }

  lemma ReadableEnd(m: Mem, base: nat, end: nat)
    requires Readable(m, base, end)
    ensures base <= end <= TWO32
  {
  }

  lemma ImageStarts(hs: seq<ProgramHeader>, base: nat, end: nat)
    requires ImageOk(hs, base, end)
    ensures VirtStart(hs) < TWO64 && ImageSize(hs) % 0x1000 == 0 && ImageSize(hs) < TWO32
  {
  }
}
