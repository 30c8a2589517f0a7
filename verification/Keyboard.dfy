/**
 The keyboard: a 128-entry scancode queue in an array, and the decoder that turns scancodes into characters as it
 pops them. Over any run, what is typed is a fold over the scancodes received.
*/
module Keyboards {
  import opened Memory
  import opened Outcomes

  const SCANCODE_QUEUE_MAX: nat := 128
  const LEFT_SHIFT: byte := 0x2A
  const LEFT_SHIFT_UP: byte := 0xAA

  // ----- the tables -----

  /** The first keys of either table, sixteen to a row. */
  function KeyRow(shift: bool, row: nat): (s: string)
    requires row < 4
    ensures |s| == if row < 3 then 16 else 10
  {
    match row
    case 0 => if shift then "\0\U{1B}!@#$%^&*()_+\U{8}\t" else "\0\U{1B}1234567890-=\U{8}\t"
    case 1 => if shift then "QWERTYUIOP[]\n\0AS" else "qwertyuiop[]\n\0as"
    case 2 => if shift then "DFGHJKL:\"~\0|ZXCV" else "dfghjkl;'`\0\\zxcv"
    case _ => if shift then "BNM<>?\0*\0 " else "bnm,./\0*\0 "
  }

  /** The character of a key in either table, 0 when the key has none. */
  function KeyChar(shift: bool, key: byte): char {
    if key < 58 then KeyRow(shift, key / 16)[key % 16]
    else if key == 74 then '-'
    else if key == 78 then '+'
    else '\0'
  }

  /** The shift key itself types nothing. */
  lemma ShiftTypesNothing(shift: bool)
    ensures KeyChar(shift, LEFT_SHIFT) == '\0'
  {
  }

  /** The row of the digits. */
  lemma DigitKeys(i: nat)
    requires i < 12
    ensures KeyChar(false, (2 + i) as byte) == "1234567890-="[i]
    ensures KeyChar(true, (2 + i) as byte) == "!@#$%^&*()_+"[i]
  {
  }

  /** The upper letters. */
  lemma UpperKeys(i: nat)
    requires i < 12
    ensures KeyChar(false, (16 + i) as byte) == "qwertyuiop[]"[i]
    ensures KeyChar(true, (16 + i) as byte) == "QWERTYUIOP[]"[i]
  {
  }

  /** The middle letters. */
  lemma MiddleKeys(i: nat)
    requires i < 12
    ensures KeyChar(false, (30 + i) as byte) == "asdfghjkl;'`"[i]
    ensures KeyChar(true, (30 + i) as byte) == "ASDFGHJKL:\"~"[i]
  {
  }

  /** The lower letters. */
  lemma LowerKeys(i: nat)
    requires i < 11
    ensures KeyChar(false, (43 + i) as byte) == "\\zxcvbnm,./"[i]
    ensures KeyChar(true, (43 + i) as byte) == "|ZXCVBNM<>?"[i]
  {
    if i < 5 { assert (43 + i) / 16 == 2; } else { assert (43 + i) / 16 == 3; }
  }

  /** The keys that type the same with and without shift; all that are left type nothing. */
  lemma OtherKeys(shift: bool, key: byte)
    requires !(2 <= key < 14 || 16 <= key < 28 || 30 <= key < 42 || 43 <= key < 54)
    ensures KeyChar(shift, key) ==
            match key
            case 1 => 27 as char
            case 14 => 8 as char
            case 15 => 9 as char
            case 28 => 10 as char
            case 55 => '*'
            case 57 => ' '
            case 74 => '-'
            case 78 => '+'
            case _ => 0 as char
  {
  }

  // ----- what is typed -----

  /** Is the key down: was the last event of the left shift key a press? */
  function ShiftAfter(codes: seq<byte>): bool {
    if codes == [] then false
    else
      var c := codes[|codes| - 1];
      c == LEFT_SHIFT || (c != LEFT_SHIFT_UP && ShiftAfter(codes[..|codes| - 1]))
  }

  predicate IsPress(c: byte) {
    0 < c < 0x80
  }

  /** One character for each key press, from the table the shift key selects at that moment. */
  function Typed(codes: seq<byte>): string {
    if codes == [] then ""
    else
      var c := codes[|codes| - 1];
      Typed(codes[..|codes| - 1]) + if IsPress(c) then [KeyChar(ShiftAfter(codes), c)] else ""
  }

  /** Shift is on exactly when the key has been pressed and not released since. */
  lemma {:induction false} ShiftIs(codes: seq<byte>)
    ensures ShiftAfter(codes) <==>
            exists i :: 0 <= i < |codes| && codes[i] == 0x2A && forall j :: i < j < |codes| ==> codes[j] != 0xAA
  {
    if codes != [] {
      var n := |codes| - 1;
      ShiftIs(codes[..n]);
      if codes[n] != 0x2A && codes[n] != 0xAA && ShiftAfter(codes[..n]) {
        var i :| 0 <= i < n && codes[..n][i] == 0x2A && forall j :: i < j < n ==> codes[..n][j] != 0xAA;
        assert codes[i] == 0x2A;
        forall j | i < j < |codes| ensures codes[j] != 0xAA {
          if j < n { assert codes[j] == codes[..n][j]; }
        }
      } else if codes[n] != 0x2A && codes[n] != 0xAA {
        forall i | 0 <= i < |codes| && codes[i] == 0x2A ensures exists j :: i < j < |codes| && codes[j] == 0xAA {
          assert codes[..n][i] == 0x2A;
          var j :| i < j < n && codes[..n][j] == 0xAA;
          assert codes[j] == 0xAA;
        }
      }
    }
  }

  /** What has been typed grows by one character with each code from 1 to 127, and with no other. */
  lemma TypedGrows(done: seq<byte>, c: byte)
    ensures Typed([]) == "" && Typed(done + [c]) ==
            Typed(done) + if 1 <= c <= 127 then [KeyChar(ShiftAfter(done + [c]), c)] else ""
  {
    FoldOne(done, c);
  }

  // ----- the decoder's steps -----

  /** What getchar_async returns, whether for a key press, and what it leaves. */
  datatype Reading = Reading(c: char, pressed: bool, shift: bool, rest: seq<byte>)

  function Decode(codes: seq<byte>, shift: bool): (r: Reading)
    ensures |r.rest| <= |codes| && (codes != [] ==> |r.rest| < |codes|)
    ensures !r.pressed ==> r.c == '\0'
  {
    if codes == [] then Reading('\0', false, shift, [])
    else
      var c, rest := codes[0], codes[1..];
      if c == 0 then Reading('\0', false, shift, rest)
      else if c >= 0x80 then Decode(rest, shift && c != LEFT_SHIFT_UP)
      else
        var shift' := shift || c == LEFT_SHIFT;
        Reading(KeyChar(shift', c), true, shift', rest)
  }

  /** One call types at most one character, and decodes just what the fold makes of the codes it pops. */
  lemma {:induction false} DecodeFolds(done: seq<byte>, codes: seq<byte>)
    ensures var r := Decode(codes, ShiftAfter(done));
            var n := |codes| - |r.rest|;
            && r.rest == codes[n..] && r.shift == ShiftAfter(done + codes[..n])
            && Typed(done + codes[..n]) == Typed(done) + if r.pressed then [r.c] else ""
    decreases |codes|
  {
    hide ShiftAfter, Typed, KeyChar;
    if codes == [] {
      assert done + codes[..0] == done;
    } else {
      var c, rest := codes[0], codes[1..];
      FoldOne(done, c);
      assert done + codes[..1] == done + [c];
      if c >= 0x80 {
        DecodeFolds(done + [c], rest);
        var n := |rest| - |Decode(rest, ShiftAfter(done + [c])).rest|;
        assert done + [c] + rest[..n] == done + codes[..n + 1];
      }
    }
  }

  /** One call reads up to the first code below 128, or everything; a code 0 there counts as nothing pending. */
  lemma {:induction false} DecodeStops(codes: seq<byte>, shift: bool)
    ensures var r := Decode(codes, shift);
            var n := |codes| - |r.rest|;
            && r.rest == codes[n..]
            && (forall i :: 0 <= i < n - 1 ==> codes[i] >= 128)
            && (n == 0 || codes[n - 1] >= 128 ==> n == |codes| && !r.pressed)
            && (n > 0 && codes[n - 1] < 128 ==> (r.pressed <==> codes[n - 1] != 0))
  {
    hide KeyChar;
    if codes != [] && codes[0] >= 128 {
      DecodeStops(codes[1..], shift && codes[0] != LEFT_SHIFT_UP);
    }
  }

  lemma FoldOne(done: seq<byte>, c: byte)
    ensures ShiftAfter(done + [c]) == (c == LEFT_SHIFT || (c != LEFT_SHIFT_UP && ShiftAfter(done)))
    ensures Typed(done + [c]) == Typed(done) + if IsPress(c) then [KeyChar(ShiftAfter(done + [c]), c)] else ""
  {
    assert (done + [c])[..|done|] == done;
  }

  // ----- the keyboard -----

  /** What the keyboard holds: the codes not yet read, and the shift state. */
  datatype State = State(pending: seq<byte>, shift: bool)

  class Keyboard {
    const scancodeQueue: array<byte>
    var scancodeQueueSize: nat
    var modShiftSet: bool

    ghost predicate Valid()
      reads this
    {
      scancodeQueue.Length == SCANCODE_QUEUE_MAX && scancodeQueueSize <= SCANCODE_QUEUE_MAX
    }

    ghost function Holds(): State
      requires Valid()
      reads this, scancodeQueue
    {
      State(scancodeQueue[..scancodeQueueSize], modShiftSet)
    }

    constructor ()
      ensures Valid() && Holds() == State([], false) && fresh(scancodeQueue)
    {
      scancodeQueue := new byte[SCANCODE_QUEUE_MAX](_ => 0);
      scancodeQueueSize, modShiftSet := 0, false;
    }

    /** recieve_scancode: queues a code, or halts on a full queue. */
    method RecieveScancode(s: byte) returns (r: Outcome<()>)
      requires Valid()
      modifies this`scancodeQueueSize, scancodeQueue
      ensures Valid()
      ensures r.Done? <==> |old(Holds()).pending| < 128
      ensures Holds().shift == old(Holds()).shift
      ensures Holds().pending == old(Holds()).pending + if r.Done? then [s] else []
      ensures r.Halted? ==> r.why == AssertFailed
    {
      if scancodeQueueSize >= SCANCODE_QUEUE_MAX { return Halted(AssertFailed); }
      scancodeQueue[scancodeQueueSize] := s;
      scancodeQueueSize := scancodeQueueSize + 1;
      return Done(());
    }

    method QueueEmpty() returns (empty: bool)
      requires Valid()
      ensures empty <==> Holds().pending == []
    {
      empty := scancodeQueueSize == 0;
    }

    /** scancode_queue_pop: the first code; the others move up by one place. It writes just past the last code. */
    method ScancodeQueuePop() returns (val: byte)
      requires Valid() && scancodeQueueSize < SCANCODE_QUEUE_MAX
      modifies this`scancodeQueueSize, scancodeQueue
      ensures Valid()
      ensures old(Holds()).pending == [] ==> val == 0 && Holds() == old(Holds())
      ensures old(Holds()).pending != [] ==>
                [val] + Holds().pending == old(Holds()).pending && scancodeQueueSize == old(scancodeQueueSize) - 1
    {
      hide Moved;
      var empty := QueueEmpty();
      if empty { return 0; }
      val := scancodeQueue[0];
      ghost var before := scancodeQueue[..];
      Memmove(scancodeQueue, 0, 1, scancodeQueueSize - 1);
      scancodeQueue[scancodeQueueSize] := 0;
      scancodeQueueSize := scancodeQueueSize - 1;
      FirstRemoved(before, scancodeQueueSize);
      assert scancodeQueue[..] == Moved(before, 0, 1, scancodeQueueSize)[scancodeQueueSize + 1 := 0];
    }

    method ReadScancode() returns (val: byte)
      requires Valid() && scancodeQueueSize < SCANCODE_QUEUE_MAX
      modifies this`scancodeQueueSize, scancodeQueue
      ensures Valid()
      ensures old(Holds()).pending == [] ==> val == 0 && Holds() == old(Holds())
      ensures old(Holds()).pending != [] ==>
                [val] + Holds().pending == old(Holds()).pending && scancodeQueueSize == old(scancodeQueueSize) - 1
    {
      var empty := QueueEmpty();
      if empty { return 0; }
      val := ScancodeQueuePop();
    }

    /** getchar_async: pops codes up to the next key press. */
    method GetcharAsync() returns (c: char)
      requires Valid() && scancodeQueueSize < SCANCODE_QUEUE_MAX
      modifies this, scancodeQueue
      ensures Valid()
      ensures c == Asked(old(Holds())).c && Holds() == AfterAsk(old(Holds()))
    {
      ghost var before := Holds();
      while true
        invariant Valid() && scancodeQueueSize < SCANCODE_QUEUE_MAX
        invariant Asked(Holds()) == Asked(before)
        decreases scancodeQueueSize
      {
        ghost var pending := Holds().pending;
        var isUp := false;
        var sc := ReadScancode();
        if sc == 0 { return '\0'; }
        assert pending[1..] == Holds().pending;
        if sc >= 0x80 {
          isUp := true;
          sc := sc - 0x80;
        }
        if sc == LEFT_SHIFT { modShiftSet := !isUp; }
        if !isUp { return KeyChar(modShiftSet, sc); }
      }
    }
  }

  /** Moving all codes but the first up by one place, and clearing the place just past them, removes the first. */
  lemma FirstRemoved(b: seq<byte>, n: nat)
    requires n + 1 < |b|
    ensures [b[0]] + Moved(b, 0, 1, n)[n + 1 := 0][..n] == b[..n + 1]
  {
  }

  /** A buffer after size bytes at src were moved to dst. */
  function Moved(m: seq<byte>, dst: nat, src: nat, size: nat): (r: seq<byte>)
    requires dst + size <= |m| && src + size <= |m|
    ensures |r| == |m|
  {
    seq(|m|, j requires 0 <= j < |m| => if dst <= j < dst + size then m[src + (j - dst)] else m[j])
  }

  /** memmove: an overlapping copy inside one buffer, upwards or downwards. */
  method Memmove(mem: array<byte>, dst: nat, src: nat, size: nat)
    requires dst + size <= mem.Length && src + size <= mem.Length
    modifies mem
    ensures mem[..] == Moved(old(mem[..]), dst, src, size)
  {
    hide Moved;
    ghost var m := mem[..];
    MovedNothing(m, dst, src);
    MovedNothing(m, dst + size, src + size);
    if dst < src {
      var i := 0;
      while i < size
        invariant i <= size && mem[..] == Moved(m, dst, src, i)
      {
        MovedUp(m, dst, src, i);
        mem[dst + i] := mem[src + i];
        i := i + 1;
      }
    } else {
      var i: nat := size;
      while i != 0
        invariant i <= size && mem[..] == Moved(m, dst + i, src + i, size - i)
        decreases i
      {
        MovedDown(m, dst + i, src + i, size - i);
        mem[dst + i - 1] := mem[src + i - 1];
        i := i - 1;
      }
    }
  }

  lemma MovedNothing(m: seq<byte>, dst: nat, src: nat)
    requires dst <= |m| && src <= |m|
    ensures Moved(m, dst, src, 0) == m
  {
  }

  /** When the destination is lower, the next source byte has not been overwritten. */
  lemma MovedUp(m: seq<byte>, dst: nat, src: nat, i: nat)
    requires dst < src && src + i < |m|
    ensures var r := Moved(m, dst, src, i); r[dst + i := r[src + i]] == Moved(m, dst, src, i + 1)
  {
  }

  /** When it is not lower, the byte before those already moved has not been overwritten. */
  lemma MovedDown(m: seq<byte>, dst: nat, src: nat, n: nat)
    requires 0 < src <= dst && dst + n <= |m|
    ensures var r := Moved(m, dst, src, n); r[dst - 1 := r[src - 1]] == Moved(m, dst - 1, src - 1, n + 1)
  {
  }

  // ----- runs -----

  predicate CanReceive(k: State) {
    |k.pending| < SCANCODE_QUEUE_MAX
  }

  function Received(k: State, s: byte): State {
    State(k.pending + [s], k.shift)
  }

  function Asked(k: State): Reading {
    Decode(k.pending, k.shift)
  }

  function AfterAsk(k: State): State {
    State(Asked(k).rest, Asked(k).shift)
  }

  /**
   An interrupt that delivers a code, or a call for a character. The methods carry out both while the queue is not
   full; on a full one a delivery halts.
  */
  datatype Event = Code(s: byte) | Ask

  function After(k: State, events: seq<Event>): State {
    if events == [] then k
    else
      var before := After(k, events[..|events| - 1]);
      match events[|events| - 1]
      case Code(s) => Received(before, s)
      case Ask => AfterAsk(before)
  }

  /** The codes delivered. */
  function Codes(events: seq<Event>): seq<byte> {
    if events == [] then []
    else
      Codes(events[..|events| - 1]) +
      match events[|events| - 1] case Code(s) => [s] case Ask => []
  }

  /** All characters returned, also when there was nothing to return. */
  function Returned(k: State, events: seq<Event>): string {
    if events == [] then ""
    else
      Returned(k, events[..|events| - 1]) +
      match events[|events| - 1] case Code(_) => "" case Ask => [Asked(After(k, events[..|events| - 1])).c]
  }

  /** The characters a reader keeps that skips zeros. */
  function Seen(s: string): string {
    if s == "" then ""
    else Seen(s[..|s| - 1]) + if s[|s| - 1] == '\0' then "" else [s[|s| - 1]]
  }

  lemma SeenOne(s: string, c: char)
    ensures Seen(s + [c]) == Seen(s) + if c == '\0' then "" else [c]
  {
    assert (s + [c])[..|s|] == s;
  }

  /** The codes not yet read are the last ones delivered, in order, and the others have been decoded. */
  ghost predicate Decoded(k: State, codes: seq<byte>, returned: string) {
    && |k.pending| <= |codes|
    && var read := codes[..|codes| - |k.pending|];
       && codes == read + k.pending && k.shift == ShiftAfter(read)
       && Seen(returned) == Seen(Typed(read))
  }

  lemma CodeKeeps(k: State, codes: seq<byte>, returned: string, s: byte)
    requires Decoded(k, codes, returned)
    ensures Decoded(Received(k, s), codes + [s], returned)
  {
    var read := codes[..|codes| - |k.pending|];
    assert (codes + [s])[..|codes| - |k.pending|] == read;
  }

  lemma AskKeeps(k: State, codes: seq<byte>, returned: string)
    requires Decoded(k, codes, returned)
    ensures Decoded(AfterAsk(k), codes, returned + [Asked(k).c])
  {
    hide Decode, ShiftAfter, Typed, Seen;
    var read := codes[..|codes| - |k.pending|];
    var r := Asked(k);
    DecodeFolds(read, k.pending);
    assert codes[..|codes| - |r.rest|] == read + k.pending[..|k.pending| - |r.rest|];
    SeenOne(returned, r.c);
    if r.pressed { SeenOne(Typed(read), r.c); } else { assert Typed(read) + "" == Typed(read); }
  }

  /**
   Any interleaving of deliveries and calls: the queue is first in, first out; the shift state is that of the codes
   read; and a reader that skips zeros has seen what the fold makes of the codes read.
  */
  lemma {:induction false} StreamDecoded(events: seq<Event>)
    ensures Decoded(After(State([], false), events), Codes(events), Returned(State([], false), events))
  {
    hide Decoded;
    var start := State([], false);
    if events == [] {
      NothingDecoded();
    } else {
      var earlier := events[..|events| - 1];
      StreamDecoded(earlier);
      var k, codes, returned := After(start, earlier), Codes(earlier), Returned(start, earlier);
      match events[|events| - 1]
      case Code(s) =>
        CodeKeeps(k, codes, returned, s);
        assert returned + "" == returned;
      case Ask =>
        AskKeeps(k, codes, returned);
        assert codes + [] == codes;
    }
  }

  lemma NothingDecoded()
    ensures Decoded(State([], false), [], "")
  {
  }

  function Asks(n: nat): (events: seq<Event>)
    ensures |events| == n
  {
    seq(n, _ => Ask)
  }

  /** The pending codes a call may stop at. */
  function Stops(codes: seq<byte>): nat {
    if codes == [] then 0 else (if codes[0] < 0x80 then 1 else 0) + Stops(codes[1..])
  }

  lemma {:induction false} AskStops(codes: seq<byte>, shift: bool)
    ensures var r := Decode(codes, shift);
            if Stops(codes) == 0 then r.rest == [] else Stops(r.rest) == Stops(codes) - 1
  {
    if codes != [] && codes[0] >= 0x80 {
      AskStops(codes[1..], shift && codes[0] != LEFT_SHIFT_UP);
    }
  }

  lemma {:induction false} AsksStop(k: State, n: nat)
    ensures var left := After(k, Asks(n)).pending;
            Stops(left) == (if n < Stops(k.pending) then Stops(k.pending) - n else 0)
            && (n > Stops(k.pending) ==> left == [])
  {
    if n > 0 {
      AsksStop(k, n - 1);
      assert Asks(n)[..n - 1] == Asks(n - 1);
      var before := After(k, Asks(n - 1));
      AskStops(before.pending, before.shift);
    }
  }

  lemma {:induction false} AfterAsks(k: State, events: seq<Event>, n: nat)
    ensures After(k, events + Asks(n)) == After(After(k, events), Asks(n))
    ensures Codes(events + Asks(n)) == Codes(events)
  {
    hide Received, AfterAsk;
    if n == 0 {
      assert events + Asks(0) == events;
    } else {
      AfterAsks(k, events, n - 1);
      assert (events + Asks(n))[..|events| + n - 1] == events + Asks(n - 1);
      assert Asks(n)[..n - 1] == Asks(n - 1);
    }
  }

  /** Nothing typed is lost: one call more than there are codes to stop at reads the whole queue. */
  lemma EverythingTyped(events: seq<Event>, n: nat)
    requires n > Stops(After(State([], false), events).pending)
    ensures Seen(Returned(State([], false), events + Asks(n))) == Seen(Typed(Codes(events)))
  {
    var start := State([], false);
    AfterAsks(start, events, n);
    AsksStop(After(start, events), n);
    StreamDecoded(events + Asks(n));
    assert Codes(events)[..|Codes(events)|] == Codes(events);
  }
}
