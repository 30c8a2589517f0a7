/** A bit set over a packed byte buffer. */
module Bitsets {
  import opened Outcomes

  /** The byte with only bit k set, 1 << k. */
  function Mask(k: nat): bv8
    requires k < 8
  {
    if k == 0 then 0x01 else if k == 1 then 0x02 else if k == 2 then 0x04 else if k == 3 then 0x08
    else if k == 4 then 0x10 else if k == 5 then 0x20 else if k == 6 then 0x40 else 0x80
  }

  lemma MaskIsShift(k: nat)
    requires k < 8
    ensures Mask(k) == (1 as bv8) << k
  {
    if k == 0 {} else if k == 1 {} else if k == 2 {} else if k == 3 {}
    else if k == 4 {} else if k == 5 {} else if k == 6 {} else {}
  }

  predicate HasBit(x: bv8, k: nat)
    requires k < 8
  {
    x & Mask(k) != 0
  }

  /** Bit i of a packed buffer. */
  predicate BitAt(bytes: seq<bv8>, i: nat)
    requires i / 8 < |bytes|
  {
    HasBit(bytes[i / 8], i % 8)
  }

  /** The first n bits of a packed buffer. */
  function BitsOf(bytes: seq<bv8>, n: nat): (s: seq<bool>)
    requires n <= 8 * |bytes|
    ensures |s| == n
  {
    seq(n, i requires 0 <= i < n => BitAt(bytes, i))
  }

  /** Bit i is the one with weight 2 to the i % 8 in byte i / 8. */
  lemma BitLayout(bytes: seq<bv8>, n: nat, i: nat)
    requires n <= 8 * |bytes| && i < n
    ensures BitsOf(bytes, n)[i] <==> (bytes[i / 8] >> (i % 8)) % 2 == 1
  {
    ShiftedBit(bytes[i / 8], i % 8);
  }

  lemma ShiftedBit(x: bv8, k: nat)
    requires k < 8
    ensures HasBit(x, k) <==> (x >> k) % 2 == 1
  {
    if k == 0 {} else if k == 1 {} else if k == 2 {} else if k == 3 {}
    else if k == 4 {} else if k == 5 {} else if k == 6 {} else {}
  }

  lemma MaskBits(x: bv8, j: nat, k: nat)
    requires j < 8 && k < 8
    ensures HasBit(x | Mask(k), j) <==> j == k || HasBit(x, j)
    ensures HasBit(x & !Mask(k), j) <==> j != k && HasBit(x, j)
  {
  }

  /** Or-ing or masking one byte changes one bit of the buffer. */
  lemma ByteUpdate(bytes: seq<bv8>, bit: nat, i: nat)
    requires bit / 8 < |bytes| && i / 8 < |bytes|
    ensures BitAt(bytes[bit / 8 := bytes[bit / 8] | Mask(bit % 8)], i) <==> i == bit || BitAt(bytes, i)
    ensures BitAt(bytes[bit / 8 := bytes[bit / 8] & !Mask(bit % 8)], i) <==> i != bit && BitAt(bytes, i)
  {
    if i / 8 == bit / 8 {
      MaskBits(bytes[bit / 8], i % 8, bit % 8);
    }
  }

  lemma SetBit(bytes: seq<bv8>, n: nat, bit: nat)
    requires n <= 8 * |bytes| && bit < n
    ensures BitsOf(bytes[bit / 8 := bytes[bit / 8] | Mask(bit % 8)], n) == BitsOf(bytes, n)[bit := true]
  {
    var bytes' := bytes[bit / 8 := bytes[bit / 8] | Mask(bit % 8)];
    forall i | 0 <= i < n
      ensures BitAt(bytes', i) == BitsOf(bytes, n)[bit := true][i]
    {
      ByteUpdate(bytes, bit, i);
    }
  }

  lemma ClearBit(bytes: seq<bv8>, n: nat, bit: nat)
    requires n <= 8 * |bytes| && bit < n
    ensures BitsOf(bytes[bit / 8 := bytes[bit / 8] & !Mask(bit % 8)], n) == BitsOf(bytes, n)[bit := false]
  {
    var bytes' := bytes[bit / 8 := bytes[bit / 8] & !Mask(bit % 8)];
    forall i | 0 <= i < n
      ensures BitAt(bytes', i) == BitsOf(bytes, n)[bit := false][i]
    {
      ByteUpdate(bytes, bit, i);
    }
  }

  class Bitset {
    const m_ptr: array<bv8>
    const m_length: nat

    ghost predicate Valid() {
      m_length <= 8 * m_ptr.Length
    }

    ghost function Bits(): (s: seq<bool>)
      requires Valid()
      reads m_ptr
      ensures |s| == m_length
    {
      BitsOf(m_ptr[..], m_length)
    }

    constructor (ptr: array<bv8>, length: nat)
      requires length <= 8 * ptr.Length
      ensures Valid() && m_ptr == ptr && m_length == length
    {
      m_ptr := ptr;
      m_length := length;
    }

    method Test(bit: nat) returns (r: Outcome<bool>)
      requires Valid()
      ensures r == if bit < m_length then Done(Bits()[bit]) else Halted(AssertFailed)
    {
      if bit >= m_length { return Halted(AssertFailed); }
      return Done(HasBit(m_ptr[bit / 8], bit % 8));
    }

    method Set(bit: nat) returns (r: Outcome<()>)
      requires Valid()
      modifies m_ptr
      ensures r == if bit < m_length then Done(()) else Halted(AssertFailed)
      ensures Bits() == if bit < m_length then old(Bits())[bit := true] else old(Bits())
    {
      if bit >= m_length { return Halted(AssertFailed); }
      SetBit(m_ptr[..], m_length, bit);
      m_ptr[bit / 8] := m_ptr[bit / 8] | Mask(bit % 8);
      return Done(());
    }

    method Clear(bit: nat) returns (r: Outcome<()>)
      requires Valid()
      modifies m_ptr
      ensures r == if bit < m_length then Done(()) else Halted(AssertFailed)
      ensures Bits() == if bit < m_length then old(Bits())[bit := false] else old(Bits())
    {
      if bit >= m_length { return Halted(AssertFailed); }
      ClearBit(m_ptr[..], m_length, bit);
      m_ptr[bit / 8] := m_ptr[bit / 8] & !Mask(bit % 8);
      return Done(());
    }

    method Flip(bit: nat) returns (r: Outcome<()>)
      requires Valid()
      modifies m_ptr
      ensures r == if bit < m_length then Done(()) else Halted(AssertFailed)
      ensures Bits() == if bit < m_length then old(Bits())[bit := !old(Bits())[bit]] else old(Bits())
    {
      // The assertion of Test is the one made here.
      var isSet :- Test(bit);
      if isSet {
        r := Clear(bit);
      } else {
        r := Set(bit);
      }
    }
  }
}
