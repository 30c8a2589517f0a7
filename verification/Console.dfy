/**
 The boot loader's text console: an 80 by 25 buffer written in place, wrapped and scrolled. At any time it shows
 the last 25 rows of everything printed.
*/
module Consoles {
  import opened Memory

  const WIDTH: nat := 80
  const HEIGHT: nat := 25
  const NEWLINE: byte := 10
  const SPACE: byte := 32
  const CONSOLE_DEFAULT_COLOR: byte := 0x0F

  type Row = seq<byte>

  // ----- how text is laid out -----

  /** A line cut into rows of 80; a row that fills up starts another at once. */
  function Chunks(line: Row): (rows: seq<Row>)
    ensures |rows| >= 1
    decreases |line|
  {
    if |line| < WIDTH then [line] else [line[..WIDTH]] + Chunks(line[WIDTH..])
  }

  function FirstNewline(s: seq<byte>): (i: nat)
    ensures i <= |s| && NEWLINE !in s[..i] && (i < |s| ==> s[i] == NEWLINE)
  {
    if s == [] || s[0] == NEWLINE then 0 else 1 + FirstNewline(s[1..])
  }

  /** All rows of a text: its lines, each cut into rows. */
  function Layout(s: seq<byte>): (rows: seq<Row>)
    ensures |rows| >= 1
    decreases |s|
  {
    var i := FirstNewline(s);
    if i == |s| then Chunks(s) else Chunks(s[..i]) + Layout(s[i + 1..])
  }

  /** What one more character does to the rows. */
  function Append(rows: seq<Row>, c: byte): (r: seq<Row>)
    requires |rows| >= 1
    ensures |r| >= 1
  {
    var last := rows[|rows| - 1];
    if c == NEWLINE then rows + [[]]
    else if |last| + 1 >= WIDTH then rows[..|rows| - 1] + [last + [c], []]
    else rows[..|rows| - 1] + [last + [c]]
  }

  /** Rows above the last are at most 80 long, the last is shorter. */
  predicate RowsOk(rows: seq<Row>) {
    && |rows| >= 1 && |rows[|rows| - 1]| < WIDTH
    && forall i :: 0 <= i < |rows| ==> |rows[i]| <= WIDTH
  }

  lemma AppendAfter(above: seq<Row>, rows: seq<Row>, c: byte)
    requires |rows| >= 1
    ensures Append(above + rows, c) == above + Append(rows, c)
  {
    var all := above + rows;
    assert all[|all| - 1] == rows[|rows| - 1];
    assert all[..|all| - 1] == above + rows[..|rows| - 1];
  }

  lemma {:induction false} ChunksAppend(line: Row, c: byte)
    requires c != NEWLINE
    ensures Chunks(line + [c]) == Append(Chunks(line), c)
    decreases |line|
  {
    if |line| < WIDTH {
      if |line| + 1 == WIDTH {
        assert (line + [c])[..WIDTH] == line + [c];
        assert (line + [c])[WIDTH..] == [];
      }
    } else {
      assert (line + [c])[..WIDTH] == line[..WIDTH];
      assert (line + [c])[WIDTH..] == line[WIDTH..] + [c];
      ChunksAppend(line[WIDTH..], c);
      AppendAfter([line[..WIDTH]], Chunks(line[WIDTH..]), c);
    }
  }

  lemma {:induction false} FirstNewlineAppend(s: seq<byte>, c: byte)
    ensures FirstNewline(s) < |s| ==> FirstNewline(s + [c]) == FirstNewline(s)
    ensures FirstNewline(s) == |s| ==> FirstNewline(s + [c]) == if c == NEWLINE then |s| else |s| + 1
  {
    if s != [] {
      assert (s + [c])[1..] == s[1..] + [c];
      FirstNewlineAppend(s[1..], c);
    }
  }

  /** Layout grows as the console writes: one character at a time. */
  lemma {:induction false} LayoutAppend(s: seq<byte>, c: byte)
    ensures Layout(s + [c]) == Append(Layout(s), c) && Layout([]) == [[]]
    decreases |s|
  {
    var i := FirstNewline(s);
    FirstNewlineAppend(s, c);
    if i < |s| {
      assert (s + [c])[..i] == s[..i];
      assert (s + [c])[i + 1..] == s[i + 1..] + [c];
      LayoutAppend(s[i + 1..], c);
      AppendAfter(Chunks(s[..i]), Layout(s[i + 1..]), c);
    } else if c == NEWLINE {
      assert (s + [c])[..i] == s;
      assert (s + [c])[i + 1..] == [];
      assert Layout([]) == [[]];
    } else {
      ChunksAppend(s, c);
    }
  }

  lemma {:induction false} ChunksOk(line: Row)
    ensures RowsOk(Chunks(line))
    decreases |line|
  {
    if |line| >= WIDTH {
      ChunksOk(line[WIDTH..]);
    }
  }

  lemma {:induction false} LayoutOk(s: seq<byte>)
    ensures RowsOk(Layout(s))
    decreases |s|
  {
    var i := FirstNewline(s);
    ChunksOk(s[..i]);
    ChunksOk(s);
    if i < |s| {
      LayoutOk(s[i + 1..]);
    }
  }

  /** The rows of a text, character by character: a newline starts one, and so does the eightieth character. */
  lemma LayoutGrows(s: seq<byte>, c: byte)
    ensures Layout([]) == [[]]
    ensures var rows, k := Layout(s), |Layout(s)| - 1;
            Layout(s + [c]) ==
              if c == 10 then rows + [[]]
              else if |rows[k]| == 79 then rows[..k] + [rows[k] + [c], []]
              else rows[..k] + [rows[k] + [c]]
  {
    LayoutAppend(s, c);
    LayoutOk(s);
  }

  // ----- the window -----

  function Top(rows: seq<Row>): nat {
    if |rows| > HEIGHT then |rows| - HEIGHT else 0
  }

  /** Where the character of a line and column is kept; its attribute follows it. */
  function Position(line: nat, col: nat): nat {
    2 * (line * 80 + col)
  }

  /** The character the window shows at a line and column. */
  function Cell(rows: seq<Row>, line: nat, col: nat): byte {
    var r := Top(rows) + line;
    if r < |rows| && col < |rows[r]| then rows[r][col] else SPACE
  }

  /** A buffer of character and attribute pairs showing the last 25 rows, with the cursor after the last character. */
  ghost predicate Displays(b: seq<byte>, x: nat, y: nat, rows: seq<Row>) {
    && |b| == 2 * WIDTH * HEIGHT && RowsOk(rows)
    && x == |rows[|rows| - 1]| && y == |rows| - 1 - Top(rows)
    && forall line: nat, col: nat | line < HEIGHT && col < WIDTH :: b[Position(line, col)] == Cell(rows, line, col)
  }

  /** Writing a character at the cursor, short of the row's end. */
  lemma DisplaysChar(b: seq<byte>, b': seq<byte>, x: nat, y: nat, rows: seq<Row>, c: byte)
    requires Displays(b, x, y, rows) && |b'| == |b|
    requires forall j :: 0 <= j < |b| ==> b'[j] == if j == Position(y, x) then c
                                                    else if j == Position(y, x) + 1 then b'[j] else b[j]
    ensures y < HEIGHT && x < WIDTH
    ensures var rows' := rows[..|rows| - 1] + [rows[|rows| - 1] + [c]];
            && (x + 1 < WIDTH ==> Displays(b', x + 1, y, rows'))
            && forall line: nat, col: nat | line < HEIGHT && col < WIDTH :: b'[Position(line, col)] == Cell(rows', line, col)
  {
    var rows' := rows[..|rows| - 1] + [rows[|rows| - 1] + [c]];
    forall line: nat, col: nat | line < HEIGHT && col < WIDTH
      ensures b'[Position(line, col)] == Cell(rows', line, col)
    {
      assert b[Position(line, col)] == Cell(rows, line, col);
      assert line * 80 + col == y * 80 + x <==> line == y && col == x;
    }
  }

  /** A new row while the window is not full, and one that scrolls it. */
  lemma DisplaysNewRow(b: seq<byte>, b': seq<byte>, rows: seq<Row>)
    requires |b| == |b'| == 2 * WIDTH * HEIGHT && |rows| >= 1 && forall i :: 0 <= i < |rows| ==> |rows[i]| <= WIDTH
    requires forall line: nat, col: nat | line < HEIGHT && col < WIDTH :: b[Position(line, col)] == Cell(rows, line, col)
    requires if |rows| < HEIGHT then b' == b else Scrolled(b, b')
    ensures Displays(b', 0, if |rows| < HEIGHT then |rows| else HEIGHT - 1, rows + [[]])
  {
    var rows' := rows + [[]];
    forall line: nat, col: nat | line < HEIGHT && col < WIDTH
      ensures b'[Position(line, col)] == Cell(rows', line, col)
    {
      if |rows| < HEIGHT {
        assert b[Position(line, col)] == Cell(rows, line, col);
      } else if line < HEIGHT - 1 {
        assert b[Position(line + 1, col)] == Cell(rows, line + 1, col);
      }
    }
  }

  /** All rows moved up by one, characters and attributes, and the last row was blanked. */
  ghost predicate Scrolled(b: seq<byte>, b': seq<byte>)
    requires |b| == |b'| == 2 * WIDTH * HEIGHT
  {
    && (forall j :: 0 <= j < 3840 ==> b'[j] == b[j + 160])
    && (forall j :: 3840 <= j < 4000 && j % 2 == 0 ==> b'[j] == SPACE)
  }

  class Console {
    var x: nat
    var y: nat
    var color: byte
    const width: nat := 80
    const height: nat := 25
    const buffer: array<byte>
    ghost var text: seq<byte>

    /** The buffer shows the window of all text printed so far. */
    ghost predicate Valid()
      reads this, buffer
    {
      buffer.Length == 4000 && Displays(buffer[..], x, y, Layout(text))
    }

    constructor Init(buffer: array<byte>)
      requires buffer.Length == 4000
      modifies buffer
      ensures Valid() && text == [] && this.buffer == buffer && color == CONSOLE_DEFAULT_COLOR
      ensures forall line: nat, col: nat | line < 25 && col < 80 ::
                buffer[Position(line, col) + 1] == CONSOLE_DEFAULT_COLOR
    {
      x, y, color, text := 0, 0, CONSOLE_DEFAULT_COLOR, [];
      this.buffer := buffer;
      new;
      Clear();
      assert Layout([]) == [[]];
    }

    method WriteChar(x: nat, y: nat, c: byte, attribute: byte)
      requires buffer.Length == 4000 && x < width && y < height
      modifies buffer
      ensures forall j :: 0 <= j < 4000 ==>
                buffer[j] == if j == Position(y, x) then c else if j == Position(y, x) + 1 then attribute
                             else old(buffer[j])
    {
      var pos := (y * width + x) * 2;
      buffer[pos] := c;
      buffer[pos + 1] := attribute;
    }

    /** Blanks the screen, column by column. */
    method Clear()
      requires buffer.Length == 4000
      modifies buffer
      ensures forall line: nat, col: nat | line < 25 && col < 80 ::
                buffer[Position(line, col)] == SPACE && buffer[Position(line, col) + 1] == CONSOLE_DEFAULT_COLOR
    {
      for cx := 0 to width
        invariant forall line: nat, col: nat | line < 25 && col < cx ::
                buffer[Position(line, col)] == SPACE && buffer[Position(line, col) + 1] == CONSOLE_DEFAULT_COLOR
      {
        for cy := 0 to height
          invariant forall line: nat, col: nat | line < 25 && col < cx ::
                buffer[Position(line, col)] == SPACE && buffer[Position(line, col) + 1] == CONSOLE_DEFAULT_COLOR
          invariant forall line: nat | line < cy ::
                buffer[Position(line, cx)] == SPACE && buffer[Position(line, cx) + 1] == CONSOLE_DEFAULT_COLOR
        {
          WriteChar(cx, cy, SPACE, CONSOLE_DEFAULT_COLOR);
        }
      }
    }

    /** Moves every row up by one, in place and in ascending order, and blanks the last. */
    method Scroll()
      requires buffer.Length == 4000
      modifies buffer
      ensures Scrolled(old(buffer[..]), buffer[..])
      ensures forall j :: 3840 <= j < 4000 && j % 2 == 1 ==> buffer[j] == color
    {
      for line := 0 to height - 1
        invariant forall j :: 0 <= j < 160 * line ==> buffer[j] == old(buffer[j + 160])
        invariant forall j :: 160 * line <= j < 4000 ==> buffer[j] == old(buffer[j])
      {
        for cx := 0 to width
          invariant forall j :: 0 <= j < 160 * line + 2 * cx ==> buffer[j] == old(buffer[j + 160])
          invariant forall j :: 160 * line + 2 * cx <= j < 4000 ==> buffer[j] == old(buffer[j])
        {
          var src := 2 * ((line + 1) * width + cx);
          var dest := 2 * (line * width + cx);
          var c := buffer[src];
          var att := buffer[src + 1];
          buffer[dest] := c;
          buffer[dest + 1] := att;
        }
      }
      for cx := 0 to width
        invariant forall j :: 0 <= j < 3840 ==> buffer[j] == old(buffer[j + 160])
        invariant forall j :: 3840 <= j < 3840 + 2 * cx ==> buffer[j] == if j % 2 == 0 then SPACE else color
      {
        WriteChar(cx, height - 1, SPACE, color);
      }
    }

    /** Starts a row below rows, which the buffer shows with the cursor on the last of them. */
    method Newline(ghost rows: seq<Row>)
      requires buffer.Length == 4000 && |rows| >= 1 && forall i :: 0 <= i < |rows| ==> |rows[i]| <= WIDTH
      requires y == |rows| - 1 - Top(rows)
      requires forall line: nat, col: nat | line < HEIGHT && col < WIDTH :: buffer[Position(line, col)] == Cell(rows, line, col)
      modifies this`x, this`y, buffer
      ensures Displays(buffer[..], x, y, rows + [[]])
      ensures forall j :: 0 <= j < 4000 && j % 2 == 1 ==>
                buffer[j] == if old(y) < 24 then old(buffer[j]) else if j < 3840 then old(buffer[j + 160]) else color
    {
      ghost var b := buffer[..];
      y := y + 1;
      x := 0;
      if y >= height {
        y := height - 1;
        Scroll();
      }
      DisplaysNewRow(b, buffer[..], rows);
    }

    method PrintChar(c: byte)
      requires Valid()
      modifies this`x, this`y, this`text, buffer
      ensures Valid() && text == old(text) + [c]
      ensures forall j :: 0 <= j < 4000 && j % 2 == 1 ==>
                var from := if old(y) == 24 && (c == 10 || old(x) == 79) then j + 160 else j;
                buffer[j] == if from >= 4000 || (c != 10 && from == 2 * (old(y) * 80 + old(x)) + 1) then color
                             else old(buffer[..])[from]
    {
      hide Chunks, FirstNewline, Cell, Layout;
      ghost var rows := Layout(text);
      LayoutAppend(text, c);
      if c == NEWLINE {
        Newline(rows);
      } else {
        ghost var b := buffer[..];
        WriteChar(x, y, c, color);
        DisplaysChar(b, buffer[..], x, y, rows, c);
        ghost var longer := rows[..|rows| - 1] + [rows[|rows| - 1] + [c]];
        x := x + 1;
        if x >= width {
          Newline(longer);
          assert longer + [[]] == Append(rows, c);
        }
      }
      text := text + [c];
    }

    method PrintString(s: seq<byte>)
      requires Valid()
      modifies this`x, this`y, this`text, buffer
      ensures Valid() && text == old(text) + s
    {
      for i := 0 to |s|
        invariant Valid() && text == old(text) + s[..i]
      {
        PrintChar(s[i]);
        assert s[..i + 1] == s[..i] + [s[i]];
      }
      assert s[..|s|] == s;
    }

    method SetColor(attr: byte)
      requires Valid()
      modifies this`color
      ensures Valid() && color == attr
    {
      color := attr;
    }
  }

  /**
   The whole screen: the last 25 rows of the text from the top, each with spaces after it, spaces below them, and
   the cursor right after the last character.
  */
  lemma ScreenShows(b: seq<byte>, x: nat, y: nat, text: seq<byte>, line: nat, col: nat)
    requires Displays(b, x, y, Layout(text)) && line < 25 && col < 80
    ensures var rows := Layout(text);
            var top := if |rows| > 25 then |rows| - 25 else 0;
            && |b| == 4000 && x == |rows[|rows| - 1]| < 80 && top + y == |rows| - 1 && y < 25
            && b[2 * (80 * line + col)] == if top + line < |rows| && col < |rows[top + line]| then rows[top + line][col] else 32
  {
    assert b[Position(line, col)] == Cell(Layout(text), line, col);
  }
}
