/** Number conversion in both directions: itoa, filling a buffer from the back, and atoi. */
module Numbers {
  import opened Memory

  const LUT: string := "0123456789ABCDEF"

  // ----- digits -----

  /** The digits of n, most significant first. */
  function Digits(n: nat, base: nat): (ds: seq<nat>)
    requires base >= 2
    ensures |ds| >= 1
  {
    if n < base then [n] else SmallerQuotient(n, base); Digits(n / base, base) + [n % base]
  }

  function Value(ds: seq<nat>, base: nat): nat {
    if ds == [] then 0 else Value(ds[..|ds| - 1], base) * base + ds[|ds| - 1]
  }

  /** Digits below the base, without a leading zero unless the number is one digit. */
  predicate Canonical(ds: seq<nat>, base: nat) {
    && |ds| >= 1 && (ds[0] == 0 ==> |ds| == 1)
    && forall i :: 0 <= i < |ds| ==> ds[i] < base
  }

  lemma {:induction false} DigitsCanonical(n: nat, base: nat)
    requires base >= 2
    ensures Canonical(Digits(n, base), base) && Value(Digits(n, base), base) == n
    ensures Digits(n, base)[0] == 0 ==> n == 0
  {
    hide Value, Canonical, Digits;
    LastDigit(n, base);
    if n / base > 0 {
      SmallerQuotient(n, base);
      DigitsCanonical(n / base, base);
      AppendDigit(Digits(n / base, base), n % base, base);
    } else {
      OneDigit(n, base);
    }
  }

  lemma AppendDigit(ds: seq<nat>, d: nat, base: nat)
    requires Canonical(ds, base) && ds[0] != 0 && d < base
    ensures Canonical(ds + [d], base) && (ds + [d])[0] == ds[0]
    ensures Value(ds + [d], base) == Value(ds, base) * base + d
  {
    ValueAppend(ds, d, base);
  }

  lemma OneDigit(n: nat, base: nat)
    requires n < base
    ensures Canonical([n], base) && Value([n], base) == n
  {
    assert Value([], base) == 0;
    ValueAppend([], n, base);
    assert [] + [n] == [n];
  }

  lemma ValueAppend(ds: seq<nat>, d: nat, base: nat)
    ensures Value(ds + [d], base) == Value(ds, base) * base + d
  {
    assert (ds + [d])[..|ds|] == ds;
  }

  /** There is only one canonical way to write a number. */
  lemma {:induction false} CanonicalUnique(ds: seq<nat>, base: nat)
    requires base >= 2 && Canonical(ds, base)
    ensures ds == Digits(Value(ds, base), base)
  {
    var k := |ds| - 1;
    var init := ds[..k];
    var v := Value(init, base);
    if k == 0 {
      assert v == 0;
    } else {
      CanonicalUnique(init, base);
      ValuePositive(init, base);
      DivModUnique(v, ds[k], base);
      assert v * base >= base by { MulMonotone(base, 1, v); }
      assert ds == init + [ds[k]];
    }
  }

  lemma {:induction false} ValuePositive(ds: seq<nat>, base: nat)
    requires base >= 2 && |ds| >= 1 && ds[0] > 0
    ensures Value(ds, base) > 0
  {
    if |ds| > 1 {
      ValuePositive(ds[..|ds| - 1], base);
      MulMonotone(base, 1, Value(ds[..|ds| - 1], base));
    }
  }

  function Power(base: nat, k: nat): nat {
    if k == 0 then 1 else base * Power(base, k - 1)
  }

  /** A number has at most k >= 1 digits exactly when it is below base to the k. */
  lemma {:induction false} DigitCount(n: nat, base: nat, k: nat)
    requires base >= 2 && k >= 1
    ensures |Digits(n, base)| <= k <==> n < Power(base, k)
    decreases k
  {
    if k == 1 {
      assert Power(base, 1) == base * Power(base, 0) == base;
    } else {
      var p := Power(base, k - 1);
      PowerPositive(base, k - 1);
      if n < base {
        MulMonotone(base, 1, p);
      } else {
        DigitCount(n / base, base, k - 1);
        DivBelow(n, base, p);
      }
    }
  }

  lemma {:induction false} PowerPositive(base: nat, k: nat)
    requires base >= 1
    ensures Power(base, k) >= 1
  {
    if k > 0 {
      PowerPositive(base, k - 1);
      MulMonotone(base, 1, Power(base, k - 1));
    }
  }

  lemma DivBelow(n: nat, d: nat, p: nat)
    requires d > 0
    ensures n / d < p <==> n < d * p
  {
    var q := n / d;
    assert n == d * q + n % d;
    if q < p {
      MulMonotone(d, q + 1, p);
    } else {
      MulMonotone(d, p, q);
    }
  }

  lemma {:induction false} PowerGrows(b: nat, c: nat, k: nat)
    requires 1 <= b <= c
    ensures Power(b, k) <= Power(c, k)
  {
    if k > 0 {
      PowerGrows(b, c, k - 1);
      MulMonotone(b, Power(b, k - 1), Power(c, k - 1));
      PowerPositive(c, k - 1);
      MulMonotone(Power(c, k - 1), b, c);
    }
  }

  lemma {:induction false} PowerSum(b: nat, j: nat, k: nat)
    ensures Power(b, j + k) == Power(b, j) * Power(b, k)
  {
    if j > 0 {
      PowerSum(b, j - 1, k);
      MulAssociative(b, Power(b, j - 1), Power(b, k));
    }
  }

  lemma MulAssociative(a: nat, b: nat, c: nat)
    ensures a * b * c == a * (b * c)
  {
  }

  lemma PowersOfTwo()
    ensures Power(2, 32) == TWO32 && Power(2, 64) == TWO64 && Power(2, 49) == 0x2_0000_0000_0000
  {
    assert Power(2, 1) == 2 * Power(2, 0) == 2;
    assert Power(2, 4) == 16;
    PowerSum(2, 4, 4);
    assert Power(2, 8) == 0x100;
    PowerSum(2, 8, 8);
    assert Power(2, 16) == 0x1_0000;
    PowerSum(2, 16, 16);
    assert Power(2, 32) == TWO32;
    PowerSum(2, 32, 32);
    PowerSum(2, 32, 16);
    PowerSum(2, 48, 1);
  }

  lemma PowerOfThree()
    ensures Power(3, 49) >= TWO64
  {
    assert Power(3, 1) == 3 * Power(3, 0) == 3;
    assert Power(3, 4) == 81;
    PowerSum(3, 4, 4);
    assert Power(3, 8) == 6561;
    PowerSum(3, 8, 8);
    assert Power(3, 16) == 43046721;
    PowerSum(3, 16, 16);
    assert Power(3, 32) == 1853020188851841;
    PowerSum(3, 32, 16);
    assert Power(3, 48) == 1853020188851841 * 43046721;
    PowerSum(3, 48, 1);
  }

  /**
   The kernel's buffer is filled from index 49: every 64-bit number fits from base 3 on, and in base 2 exactly
   those below 2^49.
  */
  lemma KernelBufferFits(n: nat, base: nat)
    requires n < TWO64 && 2 <= base
    ensures |Digits(n, base)| <= 49 <==> base >= 3 || n < 0x2_0000_0000_0000
  {
    PowersOfTwo();
    PowerOfThree();
    DigitCount(n, base, 49);
    if base >= 3 {
      PowerGrows(3, base, 49);
    }
  }

  /** The smallest number that does not fit in base 2. */
  lemma BinaryOverflow()
    ensures |Digits(0x2_0000_0000_0000, 2)| > 49
  {
    KernelBufferFits(0x2_0000_0000_0000, 2);
  }

  /** The boot loader's buffers fit every number of their width in every base. */
  lemma LoaderBuffersFit(n: nat, base: nat)
    requires 2 <= base
    ensures n < TWO32 ==> |Digits(n, base)| <= 32
    ensures n < TWO64 ==> |Digits(n, base)| <= 64
  {
    PowersOfTwo();
    DigitCount(n, base, 32);
    DigitCount(n, base, 64);
    PowerGrows(2, base, 32);
    PowerGrows(2, base, 64);
  }

  // ----- text -----

  function DigitChar(d: nat): char {
    if d < 16 then LUT[d] else '?'
  }

  /** The text of a number. */
  function Text(n: nat, base: nat): (s: string)
    requires 2 <= base <= 16
  {
    TextOf(Digits(n, base))
  }

  function TextOf(ds: seq<nat>): (s: string)
    ensures |s| == |ds|
  {
    seq(|ds|, i requires 0 <= i < |ds| => DigitChar(ds[i]))
  }

  /** What a character stands for as a digit: 0 to 9 by itself, 10 to 15 by a capital letter. */
  function DigitOf(c: char): int {
    if '0' <= c <= '9' then c as int - 48 else if 'A' <= c <= 'F' then c as int - 55 else -1
  }

  /** A text read as a numeral in a base. */
  function Numeral(s: string, base: nat): int {
    if s == [] then 0 else Numeral(s[..|s| - 1], base) * base + DigitOf(s[|s| - 1])
  }

  /** A numeral as people write it: digits of the base only, no leading zero. */
  predicate WellWritten(s: string, base: nat) {
    && s != [] && (s[0] == '0' ==> |s| == 1)
    && forall i :: 0 <= i < |s| ==> 0 <= DigitOf(s[i]) < base
  }

  lemma DigitOfChar(d: nat)
    requires d < 16
    ensures DigitOf(DigitChar(d)) == d && (DigitChar(d) == '0' <==> d == 0)
  {
  }

  lemma {:induction false} NumeralOfText(ds: seq<nat>, base: nat)
    requires base <= 16 && forall i :: 0 <= i < |ds| ==> ds[i] < base
    ensures Numeral(TextOf(ds), base) == Value(ds, base)
  {
    hide DigitChar, DigitOf;
    if ds != [] {
      var k := |ds| - 1;
      assert TextOf(ds)[..k] == TextOf(ds[..k]);
      NumeralOfText(ds[..k], base);
      DigitOfChar(ds[k]);
    }
  }

  /** The text of a number is a numeral of it. */
  lemma TextReads(n: nat, base: nat)
    requires 2 <= base <= 16
    ensures WellWritten(Text(n, base), base) && Numeral(Text(n, base), base) == n
  {
    hide Digits, DigitChar, DigitOf;
    var ds := Digits(n, base);
    DigitsCanonical(n, base);
    NumeralOfText(ds, base);
    forall i | 0 <= i < |ds| ensures 0 <= DigitOf(TextOf(ds)[i]) < base {
      DigitOfChar(ds[i]);
    }
    DigitOfChar(ds[0]);
  }

  /** And there is no other numeral of it. */
  lemma NumeralUnique(s: string, base: nat)
    requires 2 <= base <= 16 && WellWritten(s, base)
    ensures 0 <= Numeral(s, base) && s == Text(Numeral(s, base), base)
  {
    hide Digits, DigitChar, DigitOf, Value, Numeral;
    var ds: seq<nat> := seq(|s|, i requires 0 <= i < |s| => Positive(DigitOf(s[i])));
    forall i | 0 <= i < |s| ensures TextOf(ds)[i] == s[i] && ds[i] == DigitOf(s[i]) && (s[i] == '0' <==> ds[i] == 0) {
      CharOfDigit(s[i]);
    }
    assert TextOf(ds) == s;
    NumeralOfText(ds, base);
    CanonicalUnique(ds, base);
  }

  function Positive(i: int): nat {
    if i < 0 then 0 else i
  }

  lemma CharOfDigit(c: char)
    requires 0 <= DigitOf(c) < 16
    ensures DigitChar(DigitOf(c)) == c && (c == '0' <==> DigitOf(c) == 0)
  {
  }

  /** On decimal digits atoi reads the numeral. */
  lemma {:induction false} NumberIsNumeral(s: string)
    requires forall i :: 0 <= i < |s| ==> '0' <= s[i] <= '9'
    ensures Number(s) == Numeral(s, 10)
  {
    if s != [] {
      NumberIsNumeral(s[..|s| - 1]);
    }
  }

  /**
   itoa: the number's text ends at index start, where the terminator is. All writes stay in the buffer because
   the digits fit in front of it.
  */
  method Itoa(buffer: array<char>, start: nat, number: nat, base: nat) returns (first: nat)
    requires 2 <= base <= 16 && start < buffer.Length && |Digits(number, base)| <= start
    modifies buffer
    ensures first + |Digits(number, base)| == start
    ensures buffer[first..start] == Text(number, base) && buffer[start] == '\0'
    ensures forall i :: 0 <= i < buffer.Length && !(first <= i <= start) ==> buffer[i] == old(buffer[i])
  {
    hide Digits, TextOf, DigitChar;
    var n: nat := number;
    first := start;
    buffer[first] := '\0';
    ghost var done: seq<nat> := [];
    TextOfNothing();
    while true
      invariant first + |done| == start && Digits(number, base) == Digits(n, base) + done
      invariant buffer[first..start] == TextOf(done) && buffer[start] == '\0'
      invariant forall i :: 0 <= i < buffer.Length && !(first <= i <= start) ==> buffer[i] == old(buffer[i])
      decreases n
    {
      DigitStep(n, base);
      var d, q := n % base, n / base;
      first := first - 1;
      buffer[first] := DigitChar(d);
      TextOfMore(d, done);
      assert buffer[first..start] == [DigitChar(d)] + buffer[first + 1..start];
      assert Digits(n, base) + done == (if q == 0 then [] else Digits(q, base)) + ([d] + done);
      done := [d] + done;
      if q == 0 { break; }
      n := q;
    }
    assert [] + done == done;
  }

  lemma TextOfNothing()
    ensures TextOf([]) == ""
  {
  }

  lemma TextOfMore(d: nat, ds: seq<nat>)
    ensures TextOf([d] + ds) == [DigitChar(d)] + TextOf(ds)
  {
  }

  lemma LastDigit(n: nat, base: nat)
    requires base >= 2
    ensures n % base < base && n == n / base * base + n % base
    ensures n / base == 0 ==> n < base && Digits(n, base) == [n % base] && n % base == n
    ensures n / base > 0 ==> Digits(n, base) == Digits(n / base, base) + [n % base]
  {
    DivBelow(n, base, 1);
    if n < base {
      DivModUnique(0, n, base);
    }
  }

  /** One round of itoa. */
  lemma DigitStep(n: nat, base: nat)
    requires base >= 2
    ensures 0 <= n % base && 0 <= n / base && (n / base > 0 ==> n / base < n)
    ensures Digits(n, base) == (if n / base == 0 then [] else Digits(n / base, base)) + [n % base]
  {
    LastDigit(n, base);
    if n > 0 { SmallerQuotient(n, base); }
  }

  lemma SmallerQuotient(n: nat, base: nat)
    requires base >= 2 && n > 0
    ensures n / base < n
  {
    var q := n / base;
    assert n == base * q + n % base;
    if q > 0 {
      MulMonotone(q, 2, base);
    }
  }

  /** The kernel's itoa: a 65-byte buffer, filled from index 49. */
  method KernelItoa(n: nat, base: nat) returns (s: string)
    requires n < TWO64 && 2 <= base <= 16 && (base >= 3 || n < 0x2_0000_0000_0000)
    ensures s == Text(n, base)
  {
    KernelBufferFits(n, base);
    var buffer := new char[65](_ => '\0');
    var first := Itoa(buffer, 49, n, base);
    s := buffer[first..49];
  }

  /** The boot loader's itoa: a 33-byte buffer for 32-bit numbers. */
  method LoaderItoa(n: nat, base: nat) returns (s: string)
    requires n < TWO32 && 2 <= base <= 16
    ensures s == Text(n, base)
  {
    LoaderBuffersFit(n, base);
    var buffer := new char[33](_ => '\0');
    var first := Itoa(buffer, 32, n, base);
    s := buffer[first..32];
  }

  /** The boot loader's itoa64: a 65-byte buffer for 64-bit numbers. */
  method LoaderItoa64(n: nat, base: nat) returns (s: string)
    requires n < TWO64 && 2 <= base <= 16
    ensures s == Text(n, base)
  {
    LoaderBuffersFit(n, base);
    var buffer := new char[65](_ => '\0');
    var first := Itoa(buffer, 64, n, base);
    s := buffer[first..64];
  }

  // ----- atoi -----

  /** What atoi makes of a text. Nothing checks that the characters are digits. */
  function Number(s: string): int {
    if s == [] then 0 else Number(s[..|s| - 1]) * 10 + (s[|s| - 1] as int - '0' as int)
  }

  /** No intermediate result leaves the range of a 32-bit int. */
  ghost predicate NoOverflow(s: string) {
    forall i :: 0 <= i <= |s| ==> -0x8000_0000 <= Number(s[..i]) < 0x8000_0000
  }

  /** atoi reads up to the terminator. */
  method Atoi(str: array<char>, ghost s: string) returns (result: int)
    requires |s| < str.Length && str[..|s|] == s && str[|s|] == '\0' && '\0' !in s && NoOverflow(s)
    ensures result == Number(s) && -0x8000_0000 <= result < 0x8000_0000
  {
    result := 0;
    var i := 0;
    while str[i] != '\0'
      invariant i <= |s| && result == Number(s[..i])
      decreases |s| - i
    {
      assert s[..i + 1][..i] == s[..i];
      assert str[i] == s[i];
      result := result * 10 + (str[i] as int - '0' as int);
      i := i + 1;
    }
    assert s[..i] == s;
  }

  lemma {:induction false} NumberOfDigits(ds: seq<nat>)
    requires forall i :: 0 <= i < |ds| ==> ds[i] < 10
    ensures Number(TextOf(ds)) == Value(ds, 10)
  {
    if ds != [] {
      var k := |ds| - 1;
      assert TextOf(ds)[..k] == TextOf(ds[..k]);
      NumberOfDigits(ds[..k]);
    }
  }

  lemma {:induction false} PrefixSmaller(ds: seq<nat>, i: nat)
    requires i <= |ds|
    ensures Value(ds[..i], 10) <= Value(ds, 10)
  {
    if i < |ds| {
      var k := |ds| - 1;
      assert ds[..k][..i] == ds[..i];
      PrefixSmaller(ds[..k], i);
    } else {
      assert ds[..i] == ds;
    }
  }

  /** The round trip: every non-negative 32-bit int survives itoa and atoi, and atoi does not overflow on the way. */
  lemma AtoiOfItoa(n: nat)
    requires n < 0x8000_0000
    ensures Number(Text(n, 10)) == n && NoOverflow(Text(n, 10)) && '\0' !in Text(n, 10)
  {
    hide Digits, Number;
    var ds := Digits(n, 10);
    DigitsCanonical(n, 10);
    NumberOfDigits(ds);
    forall i | 0 <= i <= |ds| ensures -0x8000_0000 <= Number(Text(n, 10)[..i]) < 0x8000_0000 {
      assert Text(n, 10)[..i] == TextOf(ds[..i]);
      NumberOfDigits(ds[..i]);
      PrefixSmaller(ds, i);
    }
  }
}
