/** The text screen of vga.c: 24 rows of scrolling text and a status row below them. */
module Vga {
  import opened Bytes
  import opened Strings

  const COLS: nat := 80
  const TEXT_ROWS: nat := 24
  const TEXT: nat := 1920
  const CELLS: nat := 2000

  const NEWLINE: byte := 10
  const RETURN: byte := 13
  const SPACE: byte := 32

  datatype Cell = Cell(glyph: byte, color: byte)

  // The screen with its cursor as one position, counted along the rows
  datatype Display = Display(cells: seq<Cell>, pos: nat, color: byte)

  ghost predicate DisplayOk(d: Display) {
    |d.cells| == CELLS && d.pos < TEXT
  }

  function Blanks(n: nat, color: byte): (r: seq<Cell>)
    ensures |r| == n
  {
    seq(n, _ => Cell(SPACE, color))
  }

  // The text area one row up, a blank row below it, the status row as it was
  function Scrolled(cells: seq<Cell>, color: byte): (r: seq<Cell>)
    requires |cells| == CELLS
    ensures |r| == CELLS
  {
    cells[COLS..TEXT] + Blanks(COLS, color) + cells[TEXT..]
  }

  // Where the cursor goes after c, before any scrolling
  function NextPos(pos: nat, c: byte): nat {
    if c == NEWLINE then (pos / COLS + 1) * COLS else if c == RETURN then pos / COLS * COLS else pos + 1
  }

  // vga_putc
  function Put(d: Display, c: byte): (d': Display)
    requires DisplayOk(d)
    ensures DisplayOk(d')
  {
    var cells := if c == NEWLINE || c == RETURN then d.cells else d.cells[d.pos := Cell(c, d.color)];
    var next := NextPos(d.pos, c);
    if next >= TEXT then Display(Scrolled(cells, d.color), next - COLS, d.color) else Display(cells, next, d.color)
  }

  // The status row for a text
  function StatusCell(text: seq<byte>, color: byte, col: nat): Cell {
    Cell(if col < |text| then text[col] else SPACE, color)
  }

  /** Whatever is printed, the status row stays. */
  lemma PutKeepsStatus(d: Display, c: byte)
    requires DisplayOk(d)
    ensures Put(d, c).cells[TEXT..] == d.cells[TEXT..]
  {
  }

  /** A printed character scrolls exactly in the last text cell; elsewhere it only fills its
      own cell. */
  lemma PutScrollsIff(d: Display, c: byte)
    requires DisplayOk(d) && c != NEWLINE && c != RETURN
    ensures Put(d, c).pos == d.pos + 1 <==> d.pos < TEXT - 1
    ensures d.pos < TEXT - 1 ==> Put(d, c) == Display(d.cells[d.pos := Cell(c, d.color)], d.pos + 1, d.color)
  {
  }

  /** Where a character printed in a row and column leads: a newline to the start of the next row, a
      return to the start of its own, any other one column on, from the last one to the next row;
      and from the last row the text moves up by one, with a blank row below. */
  lemma PutExact(d: Display, c: byte, row: nat, col: nat, printed: seq<Cell>)
    requires DisplayOk(d) && d.pos == row * 80 + col && col < 80
    requires printed == if c == 10 || c == 13 then d.cells else d.cells[d.pos := Cell(c, d.color)]
    ensures var d', on := Put(d, c), c == 10 || (c != 13 && col == 79);
            if on && row == 23 then
              && d'.pos == 23 * 80
              && forall k :: 0 <= k < 2000 ==>
                   d'.cells[k] == if k < 1840 then printed[k + 80]
                                  else if k < 1920 then Cell(32, d.color) else d.cells[k]
            else
              && d'.cells == printed
              && d'.pos == (if on then (row + 1) * 80 else if c == 13 then row * 80 else row * 80 + (col + 1))
  {
    assert d.pos / 80 == row;
  }

  // A text printed, last character last
  function PutAll(d: Display, text: seq<byte>): (d': Display)
    requires DisplayOk(d)
    ensures DisplayOk(d') && d'.color == d.color
    decreases |text|
  {
    if text == [] then d else Put(PutAll(d, text[..|text| - 1]), text[|text| - 1])
  }

  lemma {:induction false} PutAllKeepsStatus(d: Display, text: seq<byte>)
    requires DisplayOk(d)
    ensures PutAll(d, text).cells[TEXT..] == d.cells[TEXT..]
    decreases |text|
  {
    if text == [] {
    } else {
      PutAllKeepsStatus(d, text[..|text| - 1]);
      PutKeepsStatus(PutAll(d, text[..|text| - 1]), text[|text| - 1]);
    }
  }

  // The text put down from a position on, in one colour
  function Written(cells: seq<Cell>, at: nat, text: seq<byte>, color: byte): (r: seq<Cell>)
    requires at + |text| <= |cells|
    ensures |r| == |cells|
  {
    seq(|cells|, k requires 0 <= k < |cells| => if at <= k < at + |text| then Cell(text[k - at], color) else cells[k])
  }

  // No NUL, newline or carriage return
  ghost predicate Plain(t: seq<byte>) {
    forall i :: 0 <= i < |t| ==> t[i] != 0 && t[i] != NEWLINE && t[i] != RETURN
  }

  /** A plain text that ends before the last text cell is put down as it is, without scrolling. */
  lemma {:induction false} PutAllWrites(d: Display, text: seq<byte>)
    requires DisplayOk(d) && Plain(text) && d.pos + |text| < TEXT
    ensures PutAll(d, text) == Display(Written(d.cells, d.pos, text, d.color), d.pos + |text|, d.color)
    decreases |text|
  {
    if text == [] {
      assert Written(d.cells, d.pos, text, d.color) == d.cells;
    } else {
      var n := |text| - 1;
      PutAllWrites(d, text[..n]);
      PutScrollsIff(PutAll(d, text[..n]), text[n]);
      assert Written(d.cells, d.pos, text[..n], d.color)[d.pos + n := Cell(text[n], d.color)]
          == Written(d.cells, d.pos, text, d.color);
    }
  }

  // The first n cells are those of one row below, the others unchanged.
  ghost predicate RowsUp(cells: seq<Cell>, was: seq<Cell>, n: nat)
    requires |was| == CELLS && n <= TEXT
  {
    |cells| == CELLS && forall k :: 0 <= k < CELLS ==> cells[k] == was[if k < n then k + COLS else k]
  }

  lemma RowUp(now: seq<Cell>, mid: seq<Cell>, was: seq<Cell>, n: nat)
    requires |was| == |now| == CELLS && n + COLS <= TEXT && RowsUp(mid, was, n)
    requires forall k :: 0 <= k < CELLS ==> now[k] == mid[if n <= k < n + COLS then k + COLS else k]
    ensures RowsUp(now, was, n + COLS)
  {
  }

  lemma AllRowsUp(now: seq<Cell>, was: seq<Cell>)
    requires |was| == CELLS && RowsUp(now, was, TEXT - COLS)
    ensures now == was[COLS..TEXT] + was[TEXT - COLS..]
  {
  }

  lemma HighLow(pos: nat)
    requires pos < TEXT
    ensures pos / 256 % 256 * 256 + pos % 256 == pos
  {
  }

  class Screen {
    const cells: array<Cell>
    var curRow: nat
    var curCol: nat
    var curColor: byte
    // The cursor registers of the card
    var cursorHigh: byte
    var cursorLow: byte

    ghost predicate Valid()
      reads this
    {
      && cells.Length == CELLS && curRow < TEXT_ROWS && curCol < COLS
      && cursorHigh as int * 256 + cursorLow as int == curRow * COLS + curCol
    }

    ghost function View(): (d: Display)
      requires Valid()
      reads this, cells
      ensures DisplayOk(d)
    {
      Display(cells[..], curRow * COLS + curCol, curColor)
    }

    // vga_init
    constructor ()
      ensures Valid() && fresh(cells) && View().pos == 0
      ensures forall k :: 0 <= k < TEXT ==> cells[k] == Cell(SPACE, 0x0F)
    {
      cells := new Cell[CELLS](_ => Cell(SPACE, 0x0F));
      curRow, curCol, curColor := 0, 0, 0x0F;
      cursorHigh, cursorLow := 0, 0;
    }

    // vga_update_cursor
    method UpdateCursor()
      requires cells.Length == CELLS && curRow < TEXT_ROWS && curCol < COLS
      modifies this`cursorHigh, this`cursorLow
      ensures Valid()
    {
      var pos := curRow * COLS + curCol;
      cursorLow := pos % 256;
      cursorHigh := pos / 256 % 256;
      HighLow(pos);
    }

    // vga_scroll
    method Scroll()
      requires cells.Length == CELLS
      modifies this`curRow, cells
      ensures cells[..] == Scrolled(old(cells[..]), curColor) && curRow == TEXT_ROWS - 1
    {
      ShiftRows();
      BlankLastRow(curColor);
      curRow := TEXT_ROWS - 1;
    }

    method ShiftRows()
      requires cells.Length == CELLS
      modifies cells
      ensures cells[..] == old(cells[COLS..TEXT]) + old(cells[TEXT - COLS..])
    {
      ghost var was, done: nat := cells[..], 0;
      for r := 1 to TEXT_ROWS
        invariant done == (r - 1) * COLS && RowsUp(cells[..], was, done)
      {
        done := NextRowUp(r, was, done);
      }
      AllRowsUp(cells[..], was);
    }

    method NextRowUp(r: nat, ghost was: seq<Cell>, ghost done: nat) returns (ghost next: nat)
      requires cells.Length == |was| == CELLS && 1 <= r < TEXT_ROWS
      requires done == (r - 1) * COLS && RowsUp(cells[..], was, done)
      modifies cells
      ensures next == r * COLS && RowsUp(cells[..], was, next)
    {
      ghost var mid := cells[..];
      next := done + COLS;
      MoveRowUp(r);
      RowUp(cells[..], mid, was, done);
    }

    method BlankLastRow(color: byte)
      requires cells.Length == CELLS
      modifies cells
      ensures cells[..] == old(cells[..TEXT - COLS]) + Blanks(COLS, color) + old(cells[TEXT..])
    {
      for c := 0 to COLS
        invariant cells[..] == old(cells[..TEXT - COLS]) + Blanks(c, color) + old(cells[TEXT - COLS + c..])
      {
        cells[(TEXT_ROWS - 1) * COLS + c] := Cell(SPACE, color);
      }
    }

    method MoveRowUp(r: nat)
      requires cells.Length == CELLS && 1 <= r < TEXT_ROWS
      modifies cells
      ensures forall k :: 0 <= k < CELLS ==>
        cells[k] == old(cells[if (r - 1) * COLS <= k < r * COLS then k + COLS else k])
    {
      var to, from := (r - 1) * COLS, r * COLS;
      for c := 0 to COLS
        invariant forall k :: 0 <= k < CELLS ==>
          cells[k] == if to <= k < to + c then old(cells[k + COLS]) else old(cells[k])
      {
        cells[to + c] := cells[from + c];
      }
    }

    // vga_putc
    method Putc(c: byte)
      requires Valid()
      modifies this, cells
      ensures Valid() && View() == Put(old(View()), c)
    {
      ghost var pos := curRow * COLS + curCol;
      assert pos / COLS == curRow;
      if c == NEWLINE {
        curCol := 0;
        curRow := curRow + 1;
      } else if c == RETURN {
        curCol := 0;
      } else {
        Show(c);
      }
      assert curRow * COLS + curCol == NextPos(pos, c) && curCol < COLS;
      if curRow >= TEXT_ROWS {
        Scroll();
      }
      UpdateCursor();
    }

    // The printing branch of vga_putc
    method Show(c: byte)
      requires cells.Length == CELLS && curRow < TEXT_ROWS && curCol < COLS
      modifies this`curRow, this`curCol, cells
      ensures var pos := old(curRow * COLS + curCol);
              && curRow * COLS + curCol == pos + 1 && curCol < COLS
              && cells[..] == old(cells[..])[pos := Cell(c, curColor)]
    {
      cells[curRow * COLS + curCol] := Cell(c, curColor);
      curCol := curCol + 1;
      if curCol >= COLS {
        curCol := 0;
        curRow := curRow + 1;
      }
    }

    // vga_set_cursor: kept inside the text area
    method SetCursor(row: int, col: int)
      requires Valid()
      modifies this`curRow, this`curCol, this`cursorHigh, this`cursorLow
      ensures Valid()
      ensures curRow == (if row < 0 then 0 else if row >= TEXT_ROWS then TEXT_ROWS - 1 else row)
      ensures curCol == (if col < 0 then 0 else if col >= COLS then COLS - 1 else col)
    {
      var r, c := row, col;
      if c < 0 {
        c := 0;
      }
      if c >= COLS {
        c := COLS - 1;
      }
      if r < 0 {
        r := 0;
      }
      if r >= TEXT_ROWS {
        r := TEXT_ROWS - 1;
      }
      curRow := r;
      curCol := c;
      UpdateCursor();
    }

    // vga_status_line
    method StatusLine(text: seq<byte>, color: byte)
      requires Valid() && 0 in text
      modifies cells
      ensures Valid()
      ensures cells[..] == old(cells[..TEXT]) + seq(COLS, c requires 0 <= c < COLS => StatusCell(CName(text), color, c))
    {
      var len := StrLen(text);
      CNameIsPrefix(text);
      ghost var row := seq(COLS, c requires 0 <= c < COLS => StatusCell(CName(text), color, c));
      for c := 0 to COLS
        invariant cells[..TEXT] == old(cells[..TEXT]) && cells[TEXT..TEXT + c] == row[..c]
      {
        var ch := if c < len then text[c] else SPACE;
        cells[TEXT + c] := Cell(ch, color);
      }
      assert cells[..] == cells[..TEXT] + cells[TEXT..TEXT + COLS];
    }
  }
}
