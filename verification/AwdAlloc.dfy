/** The boot loader's physical memory and its bounded bump allocator. */
module AwdAlloc {
  import opened Outcomes
  import opened Memory

  const AWD_ALLOC_SIZE: nat := 0x4_0000
  const AWD_ALLOC_MIN_ALIGNMENT: nat := 8

  class Machine {
    var mem: Mem

    constructor (mem: Mem)
      ensures this.mem == mem
    {
      this.mem := mem;
    }
  }

  class Allocator {
    var heap_phys_base: nat
    var heap_phys_current: nat
    var heap_phys_limit: nat
    var alloc_enabled: bool

    constructor ()
      ensures !alloc_enabled
    {
      heap_phys_base, heap_phys_current, heap_phys_limit, alloc_enabled := 0, 0, 0, false;
    }

    method AllocInit(phys_base: nat)
      modifies this
      ensures heap_phys_base == phys_base && heap_phys_current == phys_base
      ensures heap_phys_limit == phys_base + 0x4_0000 && alloc_enabled
    {
      heap_phys_base := phys_base;
      heap_phys_current := phys_base;
      heap_phys_limit := phys_base + AWD_ALLOC_SIZE;
      alloc_enabled := true;
    }

    static function Alignment(alignment: nat): (a: nat)
      ensures a == if alignment > 8 then alignment else 8
    {
      if alignment >= AWD_ALLOC_MIN_ALIGNMENT then alignment else AWD_ALLOC_MIN_ALIGNMENT
    }

    /** Size and alignment are 32 bits wide; the address returned is cut to 32 bits. */
    method MallocAligned(size: nat, alignment: nat) returns (r: Outcome<nat>)
      requires size < TWO32 && alignment < TWO32 && heap_phys_current + 2 * TWO32 < TWO64
      modifies this`heap_phys_current
      ensures var block := AlignUp(old(heap_phys_current), Alignment(alignment));
              r == (if !alloc_enabled then Halted(HeapDisabled)
                    else if block + size >= heap_phys_limit then Halted(HeapExhausted)
                    else Done(block % TWO32))
              && (r.Done? ==> heap_phys_current == block + size)
    {
      if !alloc_enabled { return Halted(HeapDisabled); }
      var align := if alignment >= AWD_ALLOC_MIN_ALIGNMENT then alignment else AWD_ALLOC_MIN_ALIGNMENT;
      if heap_phys_current % align != 0 {
        heap_phys_current := heap_phys_current + (align - heap_phys_current % align);
      }
      if heap_phys_current + size >= heap_phys_limit { return Halted(HeapExhausted); }
      var allocation := heap_phys_current % TWO32;
      heap_phys_current := heap_phys_current + size;
      return Done(allocation);
    }
  }
}
