/** The keyboard driver's interrupt half (keyboard.c): scan codes become characters in a ring
    buffer that process code empties. */
module Keyboard {
  import opened Bytes

  const RING_SIZE: nat := 256
  const KB_EVENT: nat := 2000
  const KB_CTRL_C: byte := 0x03
  const KB_CTRL_V: byte := 0x16
  const KB_LEFT: byte := 0x11
  const KB_RIGHT: byte := 0x12

  // ------------------------------------------------------------------
  // The ring
  // ------------------------------------------------------------------

  datatype Ring = Ring(cells: seq<byte>, head: nat, tail: nat)

  ghost predicate RingOk(r: Ring) {
    1 < |r.cells| && r.head < |r.cells| && r.tail < |r.cells|
  }

  predicate Empty(r: Ring) {
    r.head == r.tail
  }

  // How many characters wait
  function Count(r: Ring): nat
    requires RingOk(r)
  {
    if r.head >= r.tail then r.head - r.tail else r.head + |r.cells| - r.tail
  }

  // Where the k-th waiting character is
  function Cell(r: Ring, k: nat): (i: nat)
    requires RingOk(r) && k < |r.cells|
    ensures i < |r.cells|
  {
    if r.tail + k < |r.cells| then r.tail + k else r.tail + k - |r.cells|
  }

  /** The characters waiting, oldest first. */
  ghost function Waiting(r: Ring): (w: seq<byte>)
    requires RingOk(r)
    ensures |w| == Count(r) < |r.cells|
  {
    seq(Count(r), k requires 0 <= k < Count(r) => r.cells[Cell(r, k)])
  }

  lemma StepAround(n: nat, i: nat)
    requires i < n
    ensures (i + 1) % n == if i + 1 == n then 0 else i + 1
  {
  }

  /** kb_push: dropped when only one cell is left. */
  function Push(r: Ring, c: byte): (r': Ring)
    requires RingOk(r)
    ensures RingOk(r') && |r'.cells| == |r.cells|
  {
    var next := (r.head + 1) % |r.cells|;
    if next == r.tail then r else Ring(r.cells[r.head := c], next, r.tail)
  }

  // The second half of taking a character: the tail moves on.
  function Advance(r: Ring): (r': Ring)
    requires RingOk(r)
    ensures RingOk(r')
  {
    r.(tail := (r.tail + 1) % |r.cells|)
  }

  /** Pushing appends at the end, or, exactly when all cells but one are taken, does nothing;
      what waits, its first character in particular, is not disturbed. */
  lemma PushAppends(r: Ring, c: byte)
    requires RingOk(r)
    ensures Waiting(Push(r, c)) == if Count(r) == |r.cells| - 1 then Waiting(r) else Waiting(r) + [c]
    ensures !Empty(r) ==> Push(r, c).cells[r.tail] == r.cells[r.tail] && !Empty(Push(r, c))
  {
    StepAround(|r.cells|, r.head);
  }

  /** A character is refused exactly when all cells but one are taken. */
  lemma PushRefusesIff(r: Ring, c: byte)
    requires RingOk(r)
    ensures Push(r, c) == r <==> |Waiting(r)| == |r.cells| - 1
  {
    StepAround(|r.cells|, r.head);
  }

  /** Advancing takes the oldest character away. */
  lemma AdvanceTakes(r: Ring)
    requires RingOk(r) && !Empty(r)
    ensures Waiting(r) == [r.cells[r.tail]] + Waiting(Advance(r))
  {
    StepAround(|r.cells|, r.tail);
  }

  // ------------------------------------------------------------------
  // Scan codes
  // ------------------------------------------------------------------

  // scancode_ascii and scancode_ascii_shift by rows of keys; 0 where a code has no character
  const DIGITS: seq<byte> := [0, 0, 49, 50, 51, 52, 53, 54, 55, 56, 57, 48, 45, 61, 8]
  const UPPER_ROW: seq<byte> := [9, 113, 119, 101, 114, 116, 121, 117, 105, 111, 112, 91, 93, 10]
  const HOME_ROW: seq<byte> := [0, 97, 115, 100, 102, 103, 104, 106, 107, 108, 59, 39, 96]
  const LOWER_ROW: seq<byte> := [0, 92, 122, 120, 99, 118, 98, 110, 109, 44, 46, 47]
  const LAST_ROW: seq<byte> := [0, 42, 0, 32, 0]
  const ASCII: seq<byte> := DIGITS + UPPER_ROW + HOME_ROW + LOWER_ROW + LAST_ROW

  const DIGITS_SHIFT: seq<byte> := [0, 0, 33, 64, 35, 36, 37, 94, 38, 42, 40, 41, 95, 43, 8]
  const UPPER_SHIFT: seq<byte> := [9, 81, 87, 69, 82, 84, 89, 85, 73, 79, 80, 123, 125, 10]
  const HOME_SHIFT: seq<byte> := [0, 65, 83, 68, 70, 71, 72, 74, 75, 76, 58, 34, 126]
  const LOWER_SHIFT: seq<byte> := [0, 124, 90, 88, 67, 86, 66, 78, 77, 60, 62, 63]
  const ASCII_SHIFT: seq<byte> := DIGITS_SHIFT + UPPER_SHIFT + HOME_SHIFT + LOWER_SHIFT + LAST_ROW

  datatype Modifiers = Modifiers(shift: bool, ctrl: bool, extended: bool)

  // The modifiers after a scan code, and the character it stands for (0: none)
  datatype Key = Key(mods: Modifiers, c: byte)

  predicate BreakCode(sc: byte) {
    sc >= 0x80
  }

  /** kb_top_half's translation. */
  function Translate(m: Modifiers, sc: byte): Key {
    if sc == 0xE0 then Key(m.(extended := true), 0)
    else if m.extended then
      Key(m.(extended := false),
          if sc == 0x4B then KB_LEFT else if sc == 0x4D then KB_RIGHT else 0)
    else if sc == 0x2A || sc == 0x36 then Key(m.(shift := true), 0)
    else if sc == 0xAA || sc == 0xB6 then Key(m.(shift := false), 0)
    else if sc == 0x1D then Key(m.(ctrl := true), 0)
    else if sc == 0x9D then Key(m.(ctrl := false), 0)
    else if BreakCode(sc) then Key(m, 0)
    else if m.ctrl && sc == 0x2E then Key(m, KB_CTRL_C)
    else if m.ctrl && sc == 0x2F then Key(m, KB_CTRL_V)
    else if sc < |ASCII| then Key(m, if m.shift then ASCII_SHIFT[sc] else ASCII[sc])
    else Key(m, 0)
  }

  // What the keyboard can deliver: printable characters, tab, backspace, newline and the
  // four editing keys; in particular no carriage return.
  predicate Deliverable(c: byte) {
    32 <= c < 127 || c in {8, 9, 10, KB_CTRL_C, KB_CTRL_V, KB_LEFT, KB_RIGHT}
  }

  ghost predicate Row(s: seq<byte>) {
    forall i :: 0 <= i < |s| ==> s[i] == 0 || Deliverable(s[i])
  }

  lemma RowsDeliverable()
    ensures Row(DIGITS) && Row(UPPER_ROW) && Row(HOME_ROW) && Row(LOWER_ROW) && Row(LAST_ROW)
    ensures Row(DIGITS_SHIFT) && Row(UPPER_SHIFT) && Row(HOME_SHIFT) && Row(LOWER_SHIFT)
    ensures |ASCII| == |ASCII_SHIFT| == 59
  {
  }

  /** Every scan code yields nothing or a deliverable character, whatever the modifiers. */
  lemma TranslateDeliverable(m: Modifiers, sc: byte)
    ensures Translate(m, sc).c == 0 || Deliverable(Translate(m, sc).c)
  {
    RowsDeliverable();
  }

  class Driver {
    const cells: array<byte>
    var head: nat
    var tail: nat
    var shiftDown: bool
    var ctrlDown: bool
    var extendedPrefix: bool

    ghost predicate Valid()
      reads this
    {
      1 < cells.Length && head < cells.Length && tail < cells.Length
    }

    ghost function View(): (r: Ring)
      reads this, cells
      ensures Valid() ==> RingOk(r)
    {
      Ring(cells[..], head, tail)
    }

    ghost function Mods(): Modifiers
      reads this
    {
      Modifiers(shiftDown, ctrlDown, extendedPrefix)
    }

    // keyboard_init
    constructor ()
      ensures Valid() && fresh(cells) && cells.Length == RING_SIZE
      ensures Waiting(View()) == [] && Mods() == Modifiers(false, false, false)
    {
      cells := new byte[RING_SIZE](_ => 0);
      head, tail := 0, 0;
      shiftDown, ctrlDown, extendedPrefix := false, false, false;
    }

    // kb_push
    method PushChar(c: byte)
      requires Valid()
      modifies this`head, cells
      ensures Valid() && View() == Push(old(View()), c)
    {
      var next := (head + 1) % cells.Length;
      if next == tail {
        return;
      }
      cells[head] := c;
      head := next;
    }

    // kb_top_half on the byte read from the port
    method TopHalf(sc: byte)
      requires Valid()
      modifies this, cells
      ensures Valid()
      ensures var k := Translate(old(Mods()), sc);
              Mods() == k.mods && View() == if k.c == 0 then old(View()) else Push(old(View()), k.c)
    {
      if sc == 0xE0 {
        extendedPrefix := true;
        return;
      }
      if extendedPrefix {
        extendedPrefix := false;
        if sc >= 0x80 {
          return;
        }
        if sc == 0x4B {
          PushChar(KB_LEFT);
          return;
        }
        if sc == 0x4D {
          PushChar(KB_RIGHT);
          return;
        }
        return;
      }
      if sc == 0x2A || sc == 0x36 {
        shiftDown := true;
        return;
      }
      if sc == 0xAA || sc == 0xB6 {
        shiftDown := false;
        return;
      }
      if sc == 0x1D {
        ctrlDown := true;
        return;
      }
      if sc == 0x9D {
        ctrlDown := false;
        return;
      }
      if sc >= 0x80 {
        return;
      }
      if ctrlDown && sc == 0x2E {
        PushChar(KB_CTRL_C);
        return;
      }
      if ctrlDown && sc == 0x2F {
        PushChar(KB_CTRL_V);
        return;
      }
      if sc < |ASCII| {
        var c := if shiftDown then ASCII_SHIFT[sc] else ASCII[sc];
        if c != 0 {
          PushChar(c);
        }
      }
    }

    // The two halves of kb_getchar past its wait; the interrupt handler may run in between.
    method ReadTail() returns (c: byte)
      requires Valid()
      ensures !Empty(View()) ==> c == Waiting(View())[0]
      ensures c == cells[tail]
    {
      c := cells[tail];
    }

    method AdvanceTail()
      requires Valid()
      modifies this`tail
      ensures Valid() && View() == Advance(old(View()))
      ensures !Empty(old(View())) ==> Waiting(View()) == Waiting(old(View()))[1..]
    {
      if !Empty(View()) {
        AdvanceTakes(View());
      }
      tail := (tail + 1) % cells.Length;
    }
  }
}
