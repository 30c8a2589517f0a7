/**
 Physical memory as a sequence of bytes, with the little-endian 64-bit loads and stores
 that the page tables, the thread stacks and the ELF headers are read and written with.
 Fixed-width unsigned arithmetic is written out over `nat`.
*/
module Memory {
  type byte = x: int | 0 <= x < 256
  type Mem = seq<byte>

  const PAGE_SIZE: nat := 0x1000
  const TWO32: nat := 0x1_0000_0000
  const TWO64: nat := 0x1_0000_0000_0000_0000

  function Pow256(n: nat): (r: nat)
    ensures r >= 1
  {
    if n == 0 then 1 else 256 * Pow256(n - 1)
  }

  /** The value of a little-endian byte string. */
  function FromBytes(s: seq<byte>): nat {
    if s == [] then 0 else s[0] + 256 * FromBytes(s[1..])
  }

  /** The low n bytes of v, least significant first. */
  function ToBytes(v: nat, n: nat): (s: seq<byte>)
    ensures |s| == n
  {
    if n == 0 then [] else [v % 256] + ToBytes(v / 256, n - 1)
  }

  lemma {:induction false} FromBytesToBytes(v: nat, n: nat)
    requires v < Pow256(n)
    ensures FromBytes(ToBytes(v, n)) == v
  {
    if n > 0 {
      FromBytesToBytes(v / 256, n - 1);
      assert ToBytes(v, n)[1..] == ToBytes(v / 256, n - 1);
    }
  }

  /** A field read back from a byte string that holds it. */
  lemma FieldReadsBack(bytes: seq<byte>, off: nat, v: nat, n: nat)
    requires v < Pow256(n) && off + n <= |bytes| && bytes[off..off + n] == ToBytes(v, n)
    ensures FromBytes(bytes[off..off + n]) == v
  {
    FromBytesToBytes(v, n);
  }

  lemma {:induction false} FromBytesBound(s: seq<byte>)
    ensures FromBytes(s) < Pow256(|s|)
  {
    if s != [] {
      FromBytesBound(s[1..]);
    }
  }

  lemma {:induction false} FromBytesZero(s: seq<byte>)
    requires forall k :: 0 <= k < |s| ==> s[k] == 0
    ensures FromBytes(s) == 0
  {
    if s != [] {
      FromBytesZero(s[1..]);
    }
  }

  lemma {:induction false} ToBytesZero(n: nat)
    ensures forall k :: 0 <= k < n ==> ToBytes(0, n)[k] == 0
  {
    if n > 0 {
      ToBytesZero(n - 1);
    }
  }

  function LoadWord(m: Mem, a: nat): nat
    requires a + 8 <= |m|
  {
    FromBytes(m[a..a + 8])
  }

  /** Byte strings are read least significant byte first. */
  lemma LittleEndian(s: seq<byte>)
    ensures |s| == 2 ==> FromBytes(s) == (s[0] as int) + 0x100 * (s[1] as int)
    ensures |s| == 4 ==>
              FromBytes(s) == (s[0] as int) + 0x100 * (s[1] as int) + 0x1_0000 * (s[2] as int)
                              + 0x100_0000 * (s[3] as int)
  {
    if |s| == 2 {
      assert FromBytes(s[1..]) == (s[1] as int);
    } else if |s| == 4 {
      assert s[1..][1..] == s[2..];
      LittleEndian(s[2..]);
      assert FromBytes(s[1..]) == (s[1] as int) + 0x100 * FromBytes(s[2..]);
    }
  }

  /** A word is its eight bytes, the lowest address the least significant. */
  lemma WordBytes(m: Mem, a: nat)
    requires a + 8 <= |m|
    ensures LoadWord(m, a)
         == (m[a] as int) + 0x100 * (m[a + 1] as int) + 0x1_0000 * (m[a + 2] as int)
            + 0x100_0000 * (m[a + 3] as int) + 0x1_0000_0000 * (m[a + 4] as int)
            + 0x100_0000_0000 * (m[a + 5] as int) + 0x1_0000_0000_0000 * (m[a + 6] as int)
            + 0x100_0000_0000_0000 * (m[a + 7] as int)
  {
    var s := m[a..a + 8];
    LittleEndian(s[4..]);
    FromBytesSplit(s, 4);
    LittleEndian(s[..4]);
    assert Pow256(2) == 0x1_0000 && Pow256(4) == 256 * (256 * Pow256(2));
  }

  lemma {:induction false} FromBytesSplit(s: seq<byte>, k: nat)
    requires k <= |s|
    ensures FromBytes(s) == FromBytes(s[..k]) + Pow256(k) * FromBytes(s[k..])
  {
    if k > 0 {
      assert s[1..][..k - 1] == s[..k][1..] && s[1..][k - 1..] == s[k..];
      FromBytesSplit(s[1..], k - 1);
      ScaleSplit(FromBytes(s[..k][1..]), Pow256(k - 1), FromBytes(s[k..]));
    } else {
      assert s[..0] == [] && s[0..] == s;
    }
  }

  lemma ScaleSplit(x: int, p: int, y: int)
    ensures 256 * (x + p * y) == 256 * x + (256 * p) * y
  {
  }

  function StoreWord(m: Mem, a: nat, v: nat): (r: Mem)
    requires a + 8 <= |m|
    ensures |r| == |m|
  {
    m[..a] + ToBytes(v, 8) + m[a + 8..]
  }

  lemma Pow256Of8()
    ensures Pow256(8) == TWO64
  {
    assert Pow256(4) == TWO32;
    assert Pow256(8) == 256 * (256 * (256 * (256 * Pow256(4))));
  }

  /** A 64-bit store is read back whole, disturbs no other byte and no disjoint word. */
  lemma StoreWordEffect(m: Mem, a: nat, v: nat)
    requires a + 8 <= |m| && v < TWO64
    ensures LoadWord(StoreWord(m, a, v), a) == v
    ensures forall k :: 0 <= k < |m| && (k < a || a + 8 <= k) ==> StoreWord(m, a, v)[k] == m[k]
    ensures forall b: nat | b + 8 <= |m| && (b + 8 <= a || a + 8 <= b) ::
              LoadWord(StoreWord(m, a, v), b) == LoadWord(m, b)
  {
    var r := StoreWord(m, a, v);
    assert r[a..a + 8] == ToBytes(v, 8);
    Pow256Of8();
    FromBytesToBytes(v, 8);
    forall b: nat | b + 8 <= |m| && (b + 8 <= a || a + 8 <= b)
      ensures LoadWord(r, b) == LoadWord(m, b)
    {
      assert r[b..b + 8] == m[b..b + 8];
    }
  }

  /** Loads depend only on the bytes they cover. */
  lemma LoadWordAgree(m: Mem, m': Mem, a: nat)
    requires a + 8 <= |m| && |m| == |m'|
    requires forall k :: a <= k < a + 8 ==> m[k] == m'[k]
    ensures LoadWord(m, a) == LoadWord(m', a)
  {
    assert m[a..a + 8] == m'[a..a + 8];
  }

  lemma LoadWordZero(m: Mem, a: nat)
    requires a + 8 <= |m|
    requires forall k :: a <= k < a + 8 ==> m[k] == 0
    ensures LoadWord(m, a) == 0
  {
    FromBytesZero(m[a..a + 8]);
  }

  /** Bitwise or of two natural numbers, bit by bit. */
  function BitOr(x: nat, y: nat): nat {
    if x == 0 && y == 0 then 0
    else 2 * BitOr(x / 2, y / 2) + (if x % 2 == 1 || y % 2 == 1 then 1 else 0)
  }

  function Pow2(k: nat): (r: nat)
    ensures r >= 1
  {
    if k == 0 then 1 else 2 * Pow2(k - 1)
  }

  /** Or-ing flags into the clear low bits of an address is addition. */
  lemma {:induction false} BitOrDisjoint(q: nat, y: nat, k: nat)
    requires y < Pow2(k)
    ensures BitOr(q * Pow2(k), y) == q * Pow2(k) + y
  {
    if k == 0 {
      BitOrZero(q);
    } else {
      var x := q * Pow2(k);
      assert x == 2 * (q * Pow2(k - 1));
      assert x / 2 == q * Pow2(k - 1) && x % 2 == 0;
      BitOrDisjoint(q, y / 2, k - 1);
    }
  }

  lemma {:induction false} BitOrZero(x: nat)
    ensures BitOr(x, 0) == x
  {
    if x > 0 {
      BitOrZero(x / 2);
    }
  }

  lemma Pow2Constants()
    ensures Pow2(8) == 256 && Pow2(12) == PAGE_SIZE
  {
    assert Pow2(6) == 64;
    assert Pow2(8) == 2 * (2 * Pow2(6));
    assert Pow2(12) == 2 * (2 * (2 * (2 * Pow2(8))));
  }

  /** A page-aligned address with flags below 0x1000: `|` is `+`. */
  lemma BitOrPage(x: nat, flags: nat)
    requires x % PAGE_SIZE == 0 && flags < PAGE_SIZE
    ensures BitOr(x, flags) == x + flags
  {
    Pow2Constants();
    BitOrDisjoint(x / PAGE_SIZE, flags, 12);
  }

  function AlignUp(a: nat, alignment: nat): (r: nat)
    requires alignment > 0
    ensures a <= r < a + alignment && r % alignment == 0
  {
    if a % alignment != 0 then AlignUpLemma(a, alignment); a + (alignment - a % alignment) else a
  }

  /** The next page boundary. */
  function PageUp(x: nat): (r: nat)
    ensures x <= r < x + 0x1000 && r % 0x1000 == 0
  {
    (x + 0xFFF) / 0x1000 * 0x1000
  }

  lemma AlignUpLemma(a: nat, alignment: nat)
    requires alignment > 0
    ensures (a + (alignment - a % alignment)) % alignment == 0
  {
    var q := a / alignment;
    assert a + (alignment - a % alignment) == alignment * (q + 1);
    assert (alignment * (q + 1)) % alignment == 0 by { MultipleMod(q + 1, alignment); }
  }

  lemma {:induction false} MultipleMod(q: nat, d: nat)
    requires d > 0
    ensures (d * q) % d == 0
  {
    if q > 0 {
      MultipleMod(q - 1, d);
      AddDivisorMod(d * (q - 1), d);
      assert d * q == d * (q - 1) + d;
    }
  }

  lemma AddDivisorMod(x: nat, d: nat)
    requires d > 0
    ensures (x + d) % d == x % d
  {
    var k, k' := x / d, (x + d) / d;
    assert x == d * k + x % d && x + d == d * k' + (x + d) % d;
    assert d * (k' - k - 1) == x % d - (x + d) % d;
    assert k' - k - 1 == 0 by { SmallMultiple(d, k' - k - 1); }
  }

  lemma SmallMultiple(d: int, j: int)
    requires -d < d * j < d
    ensures j == 0
  {
    if j >= 1 {
      MulMonotone(d, 1, j);
      assert false;
    }
    if j <= -1 {
      MulMonotone(d, j, -1);
      assert false;
    }
  }

  lemma DivModUnique(q: nat, r: nat, d: nat)
    requires r < d
    ensures (q * d + r) / d == q && (q * d + r) % d == r
  {
    var x := q * d + r;
    assert x == d * (x / d) + x % d;
    assert d * (q - x / d) == x % d - r;
    SmallMultiple(d, q - x / d);
  }

  lemma MulMonotone(d: int, a: int, b: int)
    requires d > 0 && a <= b
    ensures d * a <= d * b
  {
  }
}
