/** The kernel's format printer: a scanner over the format string, and the renderer it refines. */
module Printf {
  import opened Memory
  import opened Numbers

  /** An argument: a text, or a number passed as an int or a 64-bit value. */
  datatype Arg = Chars(s: string) | Num(n: int)

  // ----- formats -----

  datatype Piece =
    | Literal(c: char)
    | Field(left: bool, zeros: bool, width: nat, specifier: char)

  predicate IsDigit(c: char) {
    '0' <= c <= '9'
  }

  /** How many of the first characters are digits, up to a limit. */
  function DigitRun(f: string, limit: nat): (k: nat)
    ensures k <= |f| && k <= limit && (k < |f| && k < limit ==> !IsDigit(f[k]))
    ensures forall i :: 0 <= i < k ==> IsDigit(f[i])
  {
    if f == [] || limit == 0 || !IsDigit(f[0]) then 0 else 1 + DigitRun(f[1..], limit - 1)
  }

  const MAX_WIDTH_DIGITS: nat := 7

  function WidthOf(digits: string): nat
    requires forall i :: 0 <= i < |digits| ==> IsDigit(digits[i])
  {
    NumberNat(digits);
    Number(digits)
  }

  lemma {:induction false} NumberNat(digits: string)
    requires forall i :: 0 <= i < |digits| ==> IsDigit(digits[i])
    ensures Number(digits) >= 0
  {
    if digits != [] {
      NumberNat(digits[..|digits| - 1]);
    }
  }

  /** The directive after a '%', and what follows it; nothing when the format ends first. */
  datatype Parsed = Dangling | Directive(field: Piece, rest: string)

  function ParseDirective(f: string): (p: Parsed)
    ensures p.Directive? ==> p.field.Field? && |p.rest| < |f|
  {
    if f != [] && f[0] == '-' then ParseRest(true, f[1..]) else ParseRest(false, f)
  }

  /** The width and the specifier. */
  function ParseRest(left: bool, b: string): (p: Parsed)
    ensures p.Directive? ==> p.field.Field? && |p.rest| < |b|
  {
    var k := DigitRun(b, MAX_WIDTH_DIGITS);
    if k == |b| then Dangling
    else Directive(Field(left, k > 0 && b[0] == '0' && !left, WidthOf(b[..k]), b[k]), b[k + 1..])
  }

  /** No '%' runs into the end of the format. */
  predicate WellFormed(f: string)
    decreases |f|
  {
    f == [] ||
    if f[0] != '%' then WellFormed(f[1..])
    else ParseDirective(f[1..]).Directive? && WellFormed(ParseDirective(f[1..]).rest)
  }

  function Pieces(f: string): seq<Piece>
    requires WellFormed(f)
    decreases |f|
  {
    if f == [] then []
    else if f[0] != '%' then [Literal(f[0])] + Pieces(f[1..])
    else [ParseDirective(f[1..]).field] + Pieces(ParseDirective(f[1..]).rest)
  }

  // ----- rendering -----

  predicate TakesArg(c: char) {
    c in "scidxp"
  }

  /** Does an argument suit a specifier? */
  predicate Suits(c: char, a: Arg) {
    if c == 's' then a.Chars? && '\0' !in a.s && |a.s| < 0x8000_0000 else a.Num?
  }

  /** One suitable argument per directive that takes one. */
  predicate ArgsSuit(pieces: seq<Piece>, args: seq<Arg>) {
    pieces == [] ||
    match pieces[0]
    case Literal(_) => ArgsSuit(pieces[1..], args)
    case Field(_, _, _, c) =>
      if TakesArg(c) then args != [] && Suits(c, args[0]) && ArgsSuit(pieces[1..], args[1..])
      else ArgsSuit(pieces[1..], args)
  }

  function Spaces(n: nat, c: char): (s: string)
    ensures |s| == n
  {
    seq(n, _ => c)
  }

  /** A text brought to a width. */
  function Padded(t: string, left: bool, zeros: bool, width: nat): string {
    var pad := Spaces(if width > |t| then width - |t| else 0, if zeros then '0' else ' ');
    if left then t + pad else pad + t
  }

  /** The argument's text: ints are taken as 32 unsigned bits, pointers as 64. */
  function ArgText(c: char, a: Arg): string
    requires Suits(c, a) && c in "sidxp"
  {
    if c == 's' then a.s
    else if c == 'i' || c == 'd' then Text(a.n % TWO32, 10)
    else if c == 'x' then Text(a.n % TWO32, 16)
    else Text(a.n % TWO64, 16)
  }

  function RenderField(f: Piece, a: Arg): string
    requires f.Field? && TakesArg(f.specifier) && Suits(f.specifier, a)
  {
    var c := f.specifier;
    if c == 'c' then [CharOf(a.n)]
    else Padded(ArgText(c, a), f.left, f.zeros && (c == 'x' || c == 'p'), f.width)
  }

  function CharOf(n: int): (c: char)
    ensures c as int < 0x100 && exists k :: n == k * 0x100 + c as int
  {
    assert n == n / 0x100 * 0x100 + n % 0x100;
    (n % 0x100) as char
  }

  function Render(pieces: seq<Piece>, args: seq<Arg>): string
    requires ArgsSuit(pieces, args)
  {
    if pieces == [] then "" else
      match pieces[0]
      case Literal(c) => [c] + Render(pieces[1..], args)
      case Field(_, _, _, c) =>
        if TakesArg(c) then RenderField(pieces[0], args[0]) + Render(pieces[1..], args[1..])
        else [c] + Render(pieces[1..], args)
  }

  /** A field is as long as the longer of its width and its argument, and shows the argument whole. */
  lemma FieldShape(f: Piece, a: Arg)
    requires f.Field? && f.specifier in "sidxp" && Suits(f.specifier, a)
    ensures var t, r := ArgText(f.specifier, a), RenderField(f, a);
            && |r| == (if f.width > |t| then f.width else |t|)
            && (f.left ==> t <= r && forall i :: |t| <= i < |r| ==> r[i] == ' ' || (f.zeros && r[i] == '0'))
            && (!f.left ==> r[|r| - |t|..] == t && forall i :: 0 <= i < |r| - |t| ==>
                              r[i] == if f.zeros && (f.specifier == 'x' || f.specifier == 'p') then '0' else ' ')
  {
  }

  /** The number a field shows: ints as 32 unsigned bits, pointers as 64, in decimal or in capital hexadecimal. */
  lemma ArgReads(c: char, n: int)
    requires c in "idxp"
    ensures var t, base := ArgText(c, Num(n)), if c == 'i' || c == 'd' then 10 else 16;
            && WellWritten(t, base)
            && Numeral(t, base) == n % if c == 'p' then 0x1_0000_0000_0000_0000 else 0x1_0000_0000
  {
    hide Text, Numeral, WellWritten;
    TextReads(n % TWO32, 10);
    TextReads(n % TWO32, 16);
    TextReads(n % TWO64, 16);
  }

  /** What one field prints: an argument, one character, or, for any other specifier, the specifier. */
  lemma OneField(f: Piece, a: Arg, n: int)
    requires f.Field? && (f.specifier in "sidxp" ==> Suits(f.specifier, a))
    ensures f.specifier in "sidxp" ==> ArgsSuit([f], [a]) && Render([f], [a]) == RenderField(f, a)
    ensures f.specifier == 'c' ==> ArgsSuit([f], [Num(n)]) && Render([f], [Num(n)]) == [CharOf(n)]
    ensures f.specifier !in "sidxpc" ==> ArgsSuit([f], []) && Render([f], []) == [f.specifier]
  {
    hide Padded, ArgText;
    assert [f][1..] == [] && [a][1..] == [] && [Num(n)][1..] == [];
    StepEnd([]);
    assert Render([f][1..], []) == "";
  }

  /** A number as a signed decimal. */
  function SignedText(n: int): string {
    if n < 0 then "-" + Text(-n, 10) else Text(n, 10)
  }

  /** `%d` and `%i` print an int as a signed decimal if and only if it is not negative. */
  lemma SignedIff(n: int, c: char)
    requires -0x8000_0000 <= n < 0x8000_0000 && (c == 'd' || c == 'i')
    ensures ArgText(c, Num(n)) == SignedText(n) <==> n >= 0
  {
    if n < 0 {
      var ds := Digits(n % TWO32, 10);
      DigitsCanonical(n % TWO32, 10);
      assert DigitChar(ds[0]) != '-';
    } else {
      assert n % TWO32 == n;
    }
  }

  /** Minus one comes out as the largest 32-bit number. */
  lemma MinusOne()
    ensures ArgText('d', Num(-1)) == Text(4294967295, 10) && SignedText(-1) == "-" + Text(1, 10)
    ensures ArgText('d', Num(-1)) != SignedText(-1) && |ArgText('d', Num(-1))| == 10 && |SignedText(-1)| == 2
  {
    SignedIff(-1, 'd');
    PowersOfTen();
    PowerSum(10, 7, 3);
    assert Power(10, 3) == 1000;
    assert Power(10, 1) == 10 * Power(10, 0) == 10;
    PowerSum(10, 7, 2);
    assert Power(10, 2) == 100;
    DigitCount(4294967295, 10, 10);
    DigitCount(4294967295, 10, 9);
    DigitCount(1, 10, 1);
  }

  /** Zero padding never goes with left justification. */
  lemma ParsedZeros(f: string)
    requires ParseDirective(f).Directive? && ParseDirective(f).field.zeros
    ensures !ParseDirective(f).field.left
  {
  }

  /**
   What a directive is: an optional '-', up to seven digits, and the specifier, which may itself be a digit after
   seven. A leading zero is a flag unless there is a '-'; the digits are the width either way.
  */
  lemma DirectiveIs(left: bool, digits: string, c: char, rest: string)
    requires |digits| <= 7 && forall i :: 0 <= i < |digits| ==> '0' <= digits[i] <= '9'
    requires (left || digits != [] || c != '-') && (|digits| == 7 || !('0' <= c <= '9'))
    ensures var p := ParseDirective((if left then "-" else "") + (digits + [c] + rest));
            && p.Directive? && p.rest == rest && p.field.specifier == c && p.field.left == left
            && p.field.width == Numeral(digits, 10)
            && (p.field.zeros <==> !left && digits != [] && digits[0] == '0')
  {
    hide ParseRest, ParseDirective, Numeral;
    var b := digits + [c] + rest;
    RestIs(left, digits, c, rest);
    assert b[0] == if digits == [] then c else digits[0];
    MinusFirst(left, b);
  }

  lemma MinusFirst(left: bool, b: string)
    requires left || b == [] || b[0] != '-'
    ensures ParseDirective((if left then "-" else "") + b) == ParseRest(left, b)
  {
    hide ParseRest;
    assert left ==> ("-" + b)[1..] == b;
    assert "" + b == b;
  }

  lemma RestIs(left: bool, digits: string, c: char, rest: string)
    requires |digits| <= 7 && forall i :: 0 <= i < |digits| ==> '0' <= digits[i] <= '9'
    requires |digits| == 7 || !('0' <= c <= '9')
    ensures var p := ParseRest(left, digits + [c] + rest);
            && p.Directive? && p.rest == rest && p.field.specifier == c && p.field.left == left
            && p.field.width == Numeral(digits, 10)
            && (p.field.zeros <==> !left && digits != [] && digits[0] == '0')
  {
    hide Numeral, Number, DigitRun;
    var b := digits + [c] + rest;
    DigitRunIs(b, MAX_WIDTH_DIGITS, |digits|);
    NumberIsNumeral(digits);
    assert b[..|digits|] == digits && b[|digits| + 1..] == rest;
  }

  // ----- spelling formats -----

  /** Fields a format can ask for: up to seven width digits, one of them the zero flag. */
  predicate Spellable(p: Piece) {
    match p
    case Literal(c) => c != '%'
    case Field(left, zeros, width, c) =>
      !IsDigit(c) && c != '-' && (zeros ==> !left) && width < if zeros then 1_000_000 else 10_000_000
  }

  function SpellWidth(zeros: bool, width: nat): string {
    (if zeros then "0" else "") + (if width == 0 then "" else Text(width, 10))
  }

  function Spell(p: Piece): string {
    match p
    case Literal(c) => [c]
    case Field(left, zeros, width, c) => "%" + (if left then "-" else "") + SpellWidth(zeros, width) + [c]
  }

  function SpellAll(pieces: seq<Piece>): string {
    if pieces == [] then "" else Spell(pieces[0]) + SpellAll(pieces[1..])
  }

  lemma {:induction false} NumberLeadingZero(s: string)
    ensures Number("0" + s) == Number(s)
  {
    var z := "0" + s;
    if s == [] {
      assert z[..0] == [] && Number([]) == 0;
    } else {
      NumberLeadingZero(s[..|s| - 1]);
      assert z[..|z| - 1] == "0" + s[..|s| - 1];
    }
  }

  lemma DigitChars(ds: seq<nat>)
    requires Canonical(ds, 10)
    ensures forall i :: 0 <= i < |ds| ==> IsDigit(TextOf(ds)[i])
    ensures TextOf(ds)[0] == '0' ==> ds[0] == 0
  {
  }

  /** The spelled width is at most seven digits, reads back as the width, and starts with 0 exactly for the flag. */
  lemma SpelledWidth(zeros: bool, width: nat)
    requires width < if zeros then 1_000_000 else 10_000_000
    ensures var w := SpellWidth(zeros, width);
            && |w| <= MAX_WIDTH_DIGITS && (forall i :: 0 <= i < |w| ==> IsDigit(w[i])) && Number(w) == width
            && (zeros <==> w != "" && w[0] == '0')
  {
    var t := Text(width, 10);
    WidthDigits(width);
    NumberLeadingZero(t);
    NumberLeadingZero("");
    assert "0" + "" == "0" && "" + t == t;
  }

  lemma WidthDigits(n: nat)
    requires n < 10_000_000
    ensures var t := Text(n, 10);
            && 1 <= |t| <= 7 && (n < 1_000_000 ==> |t| <= 6) && Number(t) == n
            && (forall i :: 0 <= i < |t| ==> IsDigit(t[i])) && (t[0] == '0' ==> n == 0)
  {
    hide Digits, TextOf, Number, Power;
    var ds := Digits(n, 10);
    DigitsCanonical(n, 10);
    DigitChars(ds);
    NumberOfDigits(ds);
    PowersOfTen();
    DigitCount(n, 10, 6);
    DigitCount(n, 10, 7);
  }

  lemma PowersOfTen()
    ensures Power(10, 6) == 1_000_000 && Power(10, 7) == 10_000_000
  {
    assert Power(10, 1) == 10 * Power(10, 0) == 10;
    PowerSum(10, 1, 1);
    PowerSum(10, 2, 1);
    PowerSum(10, 3, 3);
    PowerSum(10, 6, 1);
  }

  /** A spelled directive parses back to its field, whatever follows. */
  lemma SpelledDirective(p: Piece, rest: string)
    requires Spellable(p) && p.Field?
    ensures Spell(p)[0] == '%' && ParseDirective((Spell(p) + rest)[1..]) == Directive(p, rest)
  {
    hide SpellWidth, ParseRest;
    var w := SpellWidth(p.zeros, p.width);
    var b := w + [p.specifier] + rest;
    SpelledRest(p, rest);
    if p.left {
      assert (Spell(p) + rest)[1..] == "-" + b && ("-" + b)[1..] == b;
    } else {
      SpelledWidth(p.zeros, p.width);
      assert (Spell(p) + rest)[1..] == b && b[0] != '-';
    }
  }

  lemma SpelledRest(p: Piece, rest: string)
    requires Spellable(p) && p.Field?
    ensures ParseRest(p.left, SpellWidth(p.zeros, p.width) + [p.specifier] + rest) == Directive(p, rest)
  {
    hide SpellWidth;
    var w := SpellWidth(p.zeros, p.width);
    SpelledWidth(p.zeros, p.width);
    var b := w + [p.specifier] + rest;
    DigitRunIs(b, MAX_WIDTH_DIGITS, |w|);
    assert b[..|w|] == w && b[|w| + 1..] == rest;
  }

  /** Any list of spellable pieces, spelled one after the other, is a well-formed format that parses back to them. */
  lemma {:induction false} SpellingParses(pieces: seq<Piece>)
    requires forall p :: p in pieces ==> Spellable(p)
    ensures WellFormed(SpellAll(pieces)) && Pieces(SpellAll(pieces)) == pieces
  {
    hide ParseDirective, WellFormed, Pieces, Spell, Spellable;
    if pieces != [] {
      var rest := SpellAll(pieces[1..]);
      SpellingParses(pieces[1..]);
      SpelledPiece(pieces[0], rest);
      assert [pieces[0]] + pieces[1..] == pieces;
    } else {
      StepEnd([]);
    }
  }

  lemma SpelledPiece(p: Piece, rest: string)
    requires Spellable(p) && WellFormed(rest)
    ensures WellFormed(Spell(p) + rest) && Pieces(Spell(p) + rest) == [p] + Pieces(rest)
  {
    hide ParseDirective;
    if p.Field? {
      SpelledDirective(p, rest);
    } else {
      assert (Spell(p) + rest)[0] == p.c && (Spell(p) + rest)[1..] == rest;
    }
  }

  // ----- formats and outputs put together -----

  lemma ParseLonger(f: string, g: string)
    requires ParseDirective(f).Directive?
    ensures ParseDirective(f + g) == Directive(ParseDirective(f).field, ParseDirective(f).rest + g)
  {
    if f[0] == '-' {
      assert (f + g)[1..] == f[1..] + g;
      RestLonger(true, f[1..], g);
    } else {
      RestLonger(false, f, g);
    }
  }

  lemma RestLonger(left: bool, b: string, g: string)
    requires ParseRest(left, b).Directive?
    ensures ParseRest(left, b + g) == Directive(ParseRest(left, b).field, ParseRest(left, b).rest + g)
  {
    hide WidthOf;
    var k := DigitRun(b, MAX_WIDTH_DIGITS);
    DigitRunIs(b + g, MAX_WIDTH_DIGITS, k);
    assert (b + g)[..k] == b[..k] && (b + g)[k + 1..] == b[k + 1..] + g;
  }

  /** A format is scanned from left to right without looking ahead: formats can be put together. */
  lemma {:induction false} FormatsConcatenate(f: string, g: string)
    requires WellFormed(f) && WellFormed(g)
    ensures WellFormed(f + g) && Pieces(f + g) == Pieces(f) + Pieces(g)
    decreases |f|
  {
    if f == [] {
      assert f + g == g;
    } else {
      assert (f + g)[1..] == f[1..] + g;
      if f[0] != '%' {
        FormatsConcatenate(f[1..], g);
      } else {
        ParseLonger(f[1..], g);
        FormatsConcatenate(ParseDirective(f[1..]).rest, g);
      }
    }
  }

  /** How many arguments the pieces take. */
  function Taken(pieces: seq<Piece>): nat {
    if pieces == [] then 0
    else (if pieces[0].Field? && TakesArg(pieces[0].specifier) then 1 else 0) + Taken(pieces[1..])
  }

  /** Each directive takes exactly its own argument: outputs of formats put together are put together. */
  lemma {:induction false} OutputsConcatenate(p: seq<Piece>, q: seq<Piece>, a: seq<Arg>, b: seq<Arg>)
    requires ArgsSuit(p, a) && |a| == Taken(p) && ArgsSuit(q, b)
    ensures ArgsSuit(p + q, a + b) && Render(p + q, a + b) == Render(p, a) + Render(q, b)
  {
    hide RenderField, Suits, TakesArg, Render, ArgsSuit;
    if p == [] {
      StepEnd(a);
      assert p + q == q && a + b == b && "" + Render(q, b) == Render(q, b);
    } else {
      assert [p[0]] + p[1..] == p && p + q == [p[0]] + (p[1..] + q);
      if p[0].Field? && TakesArg(p[0].specifier) {
        assert a + b == [a[0]] + (a[1..] + b) && [a[0]] + a[1..] == a;
        TakingPiece(p[0], p[1..] + q, a[0], a[1..] + b);
        TakingPiece(p[0], p[1..], a[0], a[1..]);
        OutputsConcatenate(p[1..], q, a[1..], b);
      } else {
        PlainPiece(p[0], p[1..] + q, a + b);
        PlainPiece(p[0], p[1..], a);
        OutputsConcatenate(p[1..], q, a, b);
      }
    }
  }

  lemma TakingPiece(p: Piece, rest: seq<Piece>, x: Arg, args: seq<Arg>)
    requires p.Field? && TakesArg(p.specifier)
    ensures ArgsSuit([p] + rest, [x] + args) <==> Suits(p.specifier, x) && ArgsSuit(rest, args)
    ensures ArgsSuit([p] + rest, [x] + args) ==>
              Render([p] + rest, [x] + args) == RenderField(p, x) + Render(rest, args)
  {
    assert ([p] + rest)[1..] == rest && ([x] + args)[1..] == args;
  }

  lemma PlainPiece(p: Piece, rest: seq<Piece>, args: seq<Arg>)
    requires !(p.Field? && TakesArg(p.specifier))
    ensures ArgsSuit([p] + rest, args) <==> ArgsSuit(rest, args)
    ensures ArgsSuit(rest, args) ==>
              Render([p] + rest, args) == [if p.Field? then p.specifier else p.c] + Render(rest, args)
  {
    assert ([p] + rest)[1..] == rest;
  }

  // ----- the printer -----

  /** The character at a position of the format, or the terminator after it. */
  function At(fmt: string, i: nat): char {
    if i < |fmt| then fmt[i] else '\0'
  }

  /** vprintf_print_padding_helper: the characters it emits. */
  method PrintPadding(length: nat, arg: string, zeropad: bool) returns (out: string)
    ensures out == Spaces(if length > |arg| then length - |arg| else 0, if zeropad then '0' else ' ')
  {
    out := "";
    if length != 0 {
      var charsToPrint := length - |arg|;
      var charToPrint := ' ';
      if zeropad { charToPrint := '0'; }
      while charsToPrint > 0
        invariant |out| + (if charsToPrint > 0 then charsToPrint else 0) == (if length > |arg| then length - |arg| else 0)
        invariant out == Spaces(|out|, charToPrint)
      {
        out := out + [charToPrint];
        charsToPrint := charsToPrint - 1;
      }
    }
  }

  /** A justified field. */
  method PrintField(arg: string, left: bool, zeropad: bool, length: nat) returns (out: string)
    ensures out == Padded(arg, left, zeropad, length)
  {
    var padding := PrintPadding(length, arg, zeropad);
    if left {
      out := arg + padding;
    } else {
      out := padding + arg;
    }
  }

  /** The output of one directive, given its argument. */
  method PrintDirective(c: char, left: bool, zeropad: bool, length: nat, a: Arg) returns (out: string)
    requires TakesArg(c) && Suits(c, a)
    ensures out == RenderField(Field(left, zeropad, length, c), a)
  {
    if c == 's' {
      out := PrintField(a.s, left, false, length);
    } else if c == 'c' {
      out := [CharOf(a.n)];
    } else if c == 'i' || c == 'd' {
      var text := KernelItoa(a.n % TWO32, 10);
      out := PrintField(text, left, false, length);
    } else if c == 'x' {
      var text := KernelItoa(a.n % TWO32, 16);
      out := PrintField(text, left, zeropad, length);
    } else {
      var text := KernelItoa(a.n % TWO64, 16);
      out := PrintField(text, left, zeropad, length);
    }
  }

  /** The scanner's width digits: at most seven go into the buffer. */
  method ScanWidth(fmt: string, start: nat) returns (i: nat, length: nat)
    requires start <= |fmt| && '\0' !in fmt
    ensures i == start + DigitRun(fmt[start..], MAX_WIDTH_DIGITS) && i <= |fmt|
    ensures length == WidthOf(fmt[start..][..i - start])
  {
    ghost var f := fmt[start..];
    var digits := "";
    i := start;
    while IsDigit(At(fmt, i)) && |digits| < MAX_WIDTH_DIGITS
      invariant start <= i <= |fmt| && |digits| == i - start <= MAX_WIDTH_DIGITS
      invariant digits == f[..i - start]
      invariant forall k :: 0 <= k < |digits| ==> IsDigit(digits[k])
      decreases |fmt| - i
    {
      assert f[i - start] == fmt[i];
      digits := digits + [fmt[i]];
      i := i + 1;
    }
    DigitRunIs(f, MAX_WIDTH_DIGITS, i - start);
    length := WidthOf(digits);
  }

  lemma {:induction false} DigitRunIs(f: string, limit: nat, k: nat)
    requires k <= |f| && k <= limit && forall i :: 0 <= i < k ==> IsDigit(f[i])
    requires k == limit || k == |f| || !IsDigit(f[k])
    ensures DigitRun(f, limit) == k
  {
    if k > 0 {
      DigitRunIs(f[1..], limit - 1, k - 1);
    }
  }

  /** The scanner from just after a '%' to its specifier. */
  method ScanDirective(fmt: string, start: nat)
    returns (i: nat, left: bool, zeropad: bool, length: nat, specifier: char)
    requires start <= |fmt| && '\0' !in fmt && ParseDirective(fmt[start..]).Directive?
    ensures start <= i < |fmt|
    ensures ParseDirective(fmt[start..]) == Directive(Field(left, zeropad, length, specifier), fmt[i + 1..])
  {
    hide Pieces, Render, ArgsSuit, WellFormed, RenderField, WidthOf;
    i := start;
    left := false;
    if At(fmt, i) == '-' {
      left := true;
      i := i + 1;
    }
    ghost var b := fmt[i..];
    assert b == if left then fmt[start..][1..] else fmt[start..];
    zeropad := At(fmt, i) == '0';
    var first := i;
    i, length := ScanWidth(fmt, first);
    assert b[i - first..] == fmt[i..];
    if left { zeropad := false; }
    specifier := At(fmt, i);
    assert b[i - first + 1..] == fmt[i + 1..];
  }

  /** vprintf: for a format with no dangling '%', the output is the rendering of its pieces. */
  method Vprintf(fmt: string, args: seq<Arg>) returns (out: string)
    requires '\0' !in fmt && WellFormed(fmt) && ArgsSuit(Pieces(fmt), args)
    ensures out == Render(Pieces(fmt), args)
  {
    hide Pieces, Render, ArgsSuit, WellFormed, ParseDirective, RenderField, Suits;
    out := "";
    var scan, next := 0, 0;
    assert fmt[0..] == fmt && args[0..] == args;
    while At(fmt, scan) != '\0'
      invariant scan <= |fmt| && next <= |args|
      invariant WellFormed(fmt[scan..]) && ArgsSuit(Pieces(fmt[scan..]), args[next..])
      invariant Render(Pieces(fmt), args) == out + Render(Pieces(fmt[scan..]), args[next..])
      decreases |fmt| - scan
    {
      ghost var f := fmt[scan..];
      assert f[1..] == fmt[scan + 1..];
      if At(fmt, scan) != '%' {
        StepLiteral(f, args[next..]);
        out := out + [fmt[scan]];
        scan := scan + 1;
        continue;
      }
      StepField(f, args[next..]);
      var left, zeropad, length, specifier;
      scan, left, zeropad, length, specifier := ScanDirective(fmt, scan + 1);
      if TakesArg(specifier) {
        var piece := PrintDirective(specifier, left, zeropad, length, args[next]);
        assert args[next..][1..] == args[next + 1..];
        out := out + piece;
        next := next + 1;
      } else {
        out := out + [specifier];
      }
      scan := scan + 1;
    }
    assert fmt[scan..] == [];
    StepEnd(args[next..]);
  }

  lemma StepEnd(args: seq<Arg>)
    ensures WellFormed([]) && Pieces([]) == [] && ArgsSuit([], args) && Render([], args) == ""
  {
  }

  lemma StepLiteral(f: string, args: seq<Arg>)
    requires f != [] && f[0] != '%' && WellFormed(f) && ArgsSuit(Pieces(f), args)
    ensures WellFormed(f[1..]) && ArgsSuit(Pieces(f[1..]), args)
    ensures Render(Pieces(f), args) == [f[0]] + Render(Pieces(f[1..]), args)
  {
    assert Pieces(f)[1..] == Pieces(f[1..]);
  }

  lemma StepField(f: string, args: seq<Arg>)
    requires f != [] && f[0] == '%' && WellFormed(f) && ArgsSuit(Pieces(f), args)
    ensures ParseDirective(f[1..]).Directive?
    ensures var d := ParseDirective(f[1..]);
            var c := d.field.specifier;
            && WellFormed(d.rest)
            && (TakesArg(c) ==> args != [] && Suits(c, args[0]) && ArgsSuit(Pieces(d.rest), args[1..])
                                && Render(Pieces(f), args) == RenderField(d.field, args[0]) + Render(Pieces(d.rest), args[1..]))
            && (!TakesArg(c) ==> ArgsSuit(Pieces(d.rest), args)
                                 && Render(Pieces(f), args) == [c] + Render(Pieces(d.rest), args))
  {
    assert Pieces(f)[1..] == Pieces(ParseDirective(f[1..]).rest);
  }
}
