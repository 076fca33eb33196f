/** kb_readline (keyboard.c): a line edited in a C buffer and shown on the screen as it changes. */
module Editor {
  import opened Bytes
  import opened Strings
  import opened Keyboard
  import opened Vga
  import opened IdealLine

  // Where the cursor ends for index idx of a line starting at `start`: kept in the text area
  function PosAt(start: nat, idx: nat): (p: nat)
    ensures p < TEXT
    ensures start + idx < TEXT ==> p == start + idx
  {
    if start + idx < TEXT then start + idx else TEXT - COLS + (start + idx) % COLS
  }

  function Placed(d: Display, start: nat, idx: nat): Display {
    d.(pos := PosAt(start, idx))
  }

  // What redraw_from leaves on the screen
  function Redrawn(d: Display, start: nat, text: seq<byte>, from: nat): Display
    requires DisplayOk(d) && from <= |text|
  {
    PutAll(Placed(d, start, from), text[from..])
  }

  class LineEditor {
    const screen: Screen
    const clipboard: array<byte>
    var clipboardLen: nat
    // kb_readline's parameter and locals
    var buf: array<byte>
    var len: nat
    var cursor: nat
    var row0: nat
    var col0: nat
    // The screen when the line began, and what the ideal line remembers beside text and clipboard
    ghost var base: Display
    ghost var longest: nat
    ghost var copied: bool

    ghost predicate Valid()
      reads this, screen
    {
      && screen.Valid() && clipboard.Length == CLIPBOARD_MAX && clipboardLen < CLIPBOARD_MAX
      && buf != clipboard && cursor <= len < buf.Length && len <= longest < buf.Length
      && DisplayOk(base) && row0 < TEXT_ROWS && col0 < COLS && base.pos == row0 * COLS + col0
    }

    function Limit(): int
      reads this
    {
      buf.Length - 1
    }

    /** The ideal line this editor stands for. */
    ghost function View(): (l: Line)
      requires Valid()
      reads this, screen, buf, clipboard
      ensures LineOk(l, Limit()) && Text(l) == buf[..len]
    {
      Line(buf[..cursor], buf[cursor..len], clipboard[..clipboardLen], longest, copied)
    }

    // The line, with its terminator, fits behind its start.
    ghost predicate Fits()
      reads this
    {
      base.pos + buf.Length <= TEXT
    }

    /** The screen shows the line, and nothing else of it has changed. */
    ghost predicate Agrees()
      requires Valid()
      reads this, screen, screen.cells, buf, clipboard
    {
      screen.View() == Render(base, base.pos, View())
    }

    // keyboard_init's part
    constructor (s: Screen)
      requires s.Valid()
      ensures screen == s && clipboard.Length == CLIPBOARD_MAX && clipboardLen == 0 && fresh(clipboard)
    {
      screen := s;
      clipboard := new byte[CLIPBOARD_MAX](_ => 0);
      clipboardLen := 0;
      buf := new byte[1](_ => 0);
      len, cursor, row0, col0 := 0, 0, 0, 0;
    }

    // ----------------------------------------------------------------
    // Drawing
    // ----------------------------------------------------------------

    // set_cursor_at_index
    method SetCursorAtIndex(idx: nat)
      requires Valid()
      modifies screen
      ensures Valid() && screen.View() == old(screen.View()).(pos := PosAt(base.pos, idx))
    {
      var linear := row0 * COLS + col0 + idx;
      screen.SetCursor(linear / COLS, linear % COLS);
    }

    // redraw_from
    method RedrawFrom(fromIdx: nat)
      requires Valid() && fromIdx <= len
      modifies screen, screen.cells
      ensures Valid() && screen.View() == Redrawn(old(screen.View()), base.pos, buf[..len], fromIdx)
    {
      SetCursorAtIndex(fromIdx);
      ghost var d := screen.View();
      for i := fromIdx to len
        invariant screen.Valid() && screen.View() == PutAll(d, buf[fromIdx..i])
      {
        assert buf[fromIdx..i + 1] == buf[fromIdx..i] + [buf[i]];
        screen.Putc(buf[i]);
      }
      assert buf[..len][fromIdx..] == buf[fromIdx..len];
    }

    // Text, longest length and cursor have changed from `from` on; the screen is brought up to
    // date, with a blank behind the text if it got shorter.
    method Refresh(from: nat, ghost was: Line, erase: bool, ghost shown: bool)
      requires Valid() && from <= len && (erase <==> len < |Text(was)|)
      requires from <= |Text(was)| <= len + 1 && Text(was)[..from] == buf[..from]
      requires was.clip == View().clip && was.copied == copied
      requires |Text(was)| <= was.longest && longest == if len > was.longest then len else was.longest
      requires shown ==> screen.View() == Render(base, base.pos, was) && Plain(buf[..len])
      requires shown ==> base.pos + len < TEXT && base.pos + |Text(was)| < TEXT
      modifies screen, screen.cells
      ensures Valid() && screen.View().cells[TEXT..] == old(screen.View()).cells[TEXT..]
      ensures shown ==> Agrees()
    {
      ghost var d := screen.View();
      RedrawFrom(from);
      PutAllKeepsStatus(Placed(d, base.pos, from), buf[..len][from..]);
      if erase {
        PutKeepsStatus(screen.View(), SPACE);
        screen.Putc(SPACE);
      }
      SetCursorAtIndex(cursor);
      assert Text(was)[..from] == buf[..len][..from];
      if shown && erase {
        EraseShows(base, base.pos, was, View(), from);
      } else if shown {
        RedrawShows(base, base.pos, was, View(), from);
      }
    }

    // ----------------------------------------------------------------
    // The keys
    // ----------------------------------------------------------------

    // The buffer's part of '\b' with something before the cursor
    method Remove()
      requires Valid() && cursor > 0
      modifies this`len, this`cursor, buf
      ensures Valid() && View() == Step(old(View()), BACKSPACE, Limit())
      ensures cursor == old(cursor) - 1 && len == old(len) - 1
    {
      ghost var bytes := buf[..];
      MemMove(buf, cursor - 1, cursor, len - cursor);
      assert buf[..cursor - 1] == bytes[..cursor][..cursor - 1];
      assert buf[cursor - 1..len - 1] == bytes[cursor..len];
      cursor := cursor - 1;
      len := len - 1;
    }

    // '\b'
    method Backspace()
      requires Valid()
      modifies this`len, this`cursor, buf, screen, screen.cells
      ensures Valid() && View() == Step(old(View()), BACKSPACE, Limit())
      ensures screen.View().cells[TEXT..] == old(screen.View()).cells[TEXT..]
      ensures Fits() && PlainLine(old(View())) && old(Agrees()) ==> Agrees()
    {
      if cursor > 0 {
        ghost var was, shown := View(), Fits() && PlainLine(View()) && Agrees();
        Remove();
        PlainStep(was, BACKSPACE, Limit());
        HeadStays(was);
        Refresh(cursor, was, true, shown);
      }
    }

    // KB_LEFT and KB_RIGHT
    method Left()
      requires Valid()
      modifies this`cursor, screen
      ensures Valid() && View() == Step(old(View()), KB_LEFT, Limit())
      ensures Fits() && old(Agrees()) ==> Agrees()
    {
      if cursor > 0 {
        ghost var was := View();
        cursor := cursor - 1;
        assert buf[cursor..len] == buf[cursor..cursor + 1] + buf[cursor + 1..len];
        SetCursorAtIndex(cursor);
        MoveShows(base, base.pos, was, View());
      }
    }

    method Right()
      requires Valid()
      modifies this`cursor, screen
      ensures Valid() && View() == Step(old(View()), KB_RIGHT, Limit())
      ensures Fits() && old(Agrees()) ==> Agrees()
    {
      if cursor < len {
        ghost var was := View();
        cursor := cursor + 1;
        assert buf[..cursor] == buf[..cursor - 1] + buf[cursor - 1..len][..1];
        SetCursorAtIndex(cursor);
        MoveShows(base, base.pos, was, View());
      }
    }

    // Room made at the cursor and t copied there; the cursor goes behind it.
    method Splice(t: seq<byte>)
      requires Valid() && len + |t| < buf.Length
      modifies this`len, this`cursor, this`longest, buf
      ensures Valid() && View() == Inserted(old(View()), t)
      ensures cursor == old(cursor) + |t| && len == old(len) + |t|
    {
      InsertBytes(buf, cursor, len, t);
      len := len + |t|;
      cursor := cursor + |t|;
      longest := if len > longest then len else longest;
    }

    // Splicing a text in and showing it
    method SpliceAndShow(t: seq<byte>)
      requires Valid() && len + |t| < buf.Length
      modifies this`len, this`cursor, this`longest, buf, screen, screen.cells
      ensures Valid() && View() == Inserted(old(View()), t)
      ensures screen.View().cells[TEXT..] == old(screen.View()).cells[TEXT..]
      ensures Fits() && PlainLine(old(View())) && Plain(t) && old(Agrees()) ==> Agrees()
    {
      ghost var was, shown := View(), Fits() && PlainLine(View()) && Plain(t) && Agrees();
      var from := cursor;
      Splice(t);
      assert Text(was)[..from] == was.before == View().before[..from] == buf[..from];
      assert shown ==> Plain(View().before) && Plain(View().after);
      Refresh(from, was, false, shown);
    }

    // KB_CTRL_V
    method Paste()
      requires Valid()
      modifies this`len, this`cursor, this`longest, buf, screen, screen.cells
      ensures Valid() && View() == Step(old(View()), KB_CTRL_V, Limit())
      ensures screen.View().cells[TEXT..] == old(screen.View()).cells[TEXT..]
      ensures Fits() && PlainLine(old(View())) && old(Agrees()) ==> Agrees()
    {
      var n := clipboardLen;
      if len + n >= buf.Length {
        n := buf.Length - 1 - len;
      }
      assert clipboard[..n] == Clip(View().clip, Limit() - len);
      if n > 0 {
        SpliceAndShow(clipboard[..n]);
      }
    }

    // A character to be inserted
    method Type(c: byte)
      requires Valid()
      modifies this`len, this`cursor, this`longest, buf, screen, screen.cells
      ensures Valid() && View() == if old(len) + 1 < buf.Length then Inserted(old(View()), [c]) else old(View())
      ensures screen.View().cells[TEXT..] == old(screen.View()).cells[TEXT..]
      ensures Fits() && PlainLine(old(View())) && Plain([c]) && old(Agrees()) ==> Agrees()
    {
      if len + 1 < buf.Length {
        SpliceAndShow([c]);
      }
    }

    method FillClipboard(t: seq<byte>)
      requires |t| < clipboard.Length
      modifies clipboard
      ensures clipboard[..|t|] == t
    {
      MemCpy(clipboard, 0, t);
      clipboard[|t|] := 0;
    }

    // The buffer's part of KB_CTRL_C
    method CopyOut()
      requires Valid()
      modifies this`clipboardLen, this`copied, clipboard
      ensures Valid() && View() == Step(old(View()), KB_CTRL_C, Limit())
    {
      var n := if len < CLIPBOARD_MAX - 1 then len else CLIPBOARD_MAX - 1;
      FillClipboard(buf[..n]);
      clipboardLen := n;
      copied := true;
      assert buf[..n] == buf[..len][..n];
    }

    // The message in the status row
    method ShowCopied()
      requires Valid()
      modifies screen.cells
      ensures Valid()
      ensures screen.View() == WithStatus(old(screen.View()), clipboard[..clipboardLen])
    {
      var msg := COPIED;
      var i := 0;
      while i < clipboardLen && |msg| < COLS
        invariant 0 <= i <= clipboardLen && msg == COPIED + clipboard[..i] && |msg| <= COLS
      {
        msg := msg + [clipboard[i]];
        i := i + 1;
      }
      assert msg == Message(clipboard[..clipboardLen]);
      screen.StatusLine(msg + [0], COPIED_COLOR);
    }

    // KB_CTRL_C
    method Copy()
      requires Valid()
      modifies this`clipboardLen, this`copied, clipboard, screen, screen.cells
      ensures Valid() && View() == Step(old(View()), KB_CTRL_C, Limit())
      ensures screen.View().cells[..TEXT] == old(screen.View()).cells[..TEXT]
      ensures Fits() && PlainLine(old(View())) && old(Agrees()) ==> Agrees()
    {
      ghost var was, shown := View(), Fits() && PlainLine(View()) && Agrees();
      CopyOut();
      ShowClip(was, shown);
    }

    // The screen's part of KB_CTRL_C
    method ShowClip(ghost was: Line, ghost shown: bool)
      requires Valid() && LineOk(was, Limit()) && View() == Step(was, KB_CTRL_C, Limit())
      requires shown ==> Fits() && PlainLine(was) && screen.View() == Render(base, base.pos, was)
      modifies screen, screen.cells
      ensures Valid() && screen.View().cells[..TEXT] == old(screen.View()).cells[..TEXT]
      ensures shown ==> Agrees()
    {
      ShowCopied();
      if shown {
        PlainStep(was, KB_CTRL_C, Limit());
        CopyShows(base, base.pos, was, View());
      }
      SetCursorAtIndex(cursor);
    }

    // One turn of kb_readline's loop, for any key but Enter
    method HandleKey(c: byte)
      requires Valid() && c != NEWLINE
      modifies this`len, this`cursor, this`longest, this`clipboardLen, this`copied, buf, clipboard, screen, screen.cells
      ensures Valid() && View() == Step(old(View()), c, Limit())
      ensures c != KB_CTRL_C ==> screen.View().cells[TEXT..] == old(screen.View()).cells[TEXT..]
      ensures Fits() && PlainLine(old(View())) && Plain([c]) && old(Agrees()) ==> Agrees()
    {
      if c == BACKSPACE {
        Backspace();
      } else if c == KB_LEFT {
        Left();
      } else if c == KB_RIGHT {
        Right();
      } else if c == KB_CTRL_C {
        Copy();
      } else if c == KB_CTRL_V {
        Paste();
      } else {
        Type(c);
      }
    }

    // The head of kb_readline
    method Begin(b: array<byte>, ghost start: Display, ghost clip: seq<byte>)
      requires screen.Valid() && clipboard.Length == CLIPBOARD_MAX && clipboardLen < CLIPBOARD_MAX
      requires b != clipboard && b.Length > 0 && start == screen.View() && clip == clipboard[..clipboardLen]
      modifies this`buf, this`len, this`cursor, this`row0, this`col0, this`base, this`longest, this`copied
      ensures After(b, start, clip, [])
    {
      Clear(b, start, clip);
      NewLineShowsNothing(start, clip);
    }

    method Clear(b: array<byte>, ghost start: Display, ghost clip: seq<byte>)
      requires screen.Valid() && clipboard.Length == CLIPBOARD_MAX && clipboardLen < CLIPBOARD_MAX
      requires b != clipboard && b.Length > 0 && start == screen.View() && clip == clipboard[..clipboardLen]
      modifies this`buf, this`len, this`cursor, this`row0, this`col0, this`base, this`longest, this`copied
      ensures Valid() && buf == b && base == start == screen.View() && View() == NewLine(clip)
    {
      buf := b;
      len := 0;
      cursor := 0;
      row0 := screen.curRow;
      col0 := screen.curCol;
      base := screen.View();
      longest := 0;
      copied := false;
      assert buf[..0] == [];
    }

    // Enter: the cursor behind the text, a new line, the terminator
    method Finish()
      requires Valid()
      modifies buf, screen, screen.cells
      ensures Valid() && View() == old(View()) && buf[len] == 0
      ensures Plain(buf[..len]) ==> CName(buf[..]) == buf[..len]
      ensures screen.View() == Put(Placed(old(screen.View()), base.pos, len), NEWLINE)
    {
      SetCursorAtIndex(len);
      screen.Putc(NEWLINE);
      ghost var text := buf[..len];
      buf[len] := 0;
      assert buf[..len] == text && buf[cursor..len] == text[cursor..] && buf[..cursor] == text[..cursor];
      if Plain(text) {
        CNameStops(buf[..], len);
      }
    }

    /** The line after the keys typed: buffer, cursor and clipboard are those of the ideal
        line; without Ctrl+C the status row is as at the beginning; and if the line fits the
        screen and the keys come from the keyboard, the screen shows it. */
    ghost predicate After(b: array<byte>, start: Display, clip: seq<byte>, typed: seq<byte>)
      requires |clip| < CLIPBOARD_MAX
      reads this, buf, clipboard, screen, screen.cells
    {
      && Valid() && buf == b && base == start && View() == Steps(NewLine(clip), typed, Limit())
      && (KB_CTRL_C !in typed ==> screen.View().cells[TEXT..] == base.cells[TEXT..])
      && (Fits() && FromKeyboard(clip, typed) ==> Agrees())
    }

    method OneKey(c: byte, ghost b: array<byte>, ghost start: Display, ghost clip: seq<byte>, ghost typed: seq<byte>)
      requires |clip| < CLIPBOARD_MAX && After(b, start, clip, typed) && c != NEWLINE
      modifies this`len, this`cursor, this`longest, this`clipboardLen, this`copied, buf, clipboard, screen, screen.cells
      ensures After(b, start, clip, typed + [c])
    {
      ghost var shown := Fits() && FromKeyboard(clip, typed + [c]);
      if shown {
        TypedPlain(clip, typed, c, Limit());
      }
      StepsSnoc(NewLine(clip), typed, c, Limit());
      HandleKey(c);
    }

    /** The same after Enter: the buffer holds the ideal line as a C string, and the screen the
        line with the cursor brought behind it and a new line begun. */
    ghost predicate Entered(b: array<byte>, start: Display, clip: seq<byte>, typed: seq<byte>)
      requires |clip| < CLIPBOARD_MAX
      reads this, buf, clipboard, screen, screen.cells
    {
      && Valid() && buf == b && base == start && View() == Steps(NewLine(clip), typed, Limit()) && buf[len] == 0
      && (FromKeyboard(clip, typed) ==> CName(buf[..]) == Text(View()))
      && (KB_CTRL_C !in typed ==> screen.View().cells[TEXT..] == base.cells[TEXT..])
      && (Fits() && FromKeyboard(clip, typed) ==>
            screen.View() == Put(Placed(Render(base, base.pos, View()), base.pos, len), NEWLINE))
    }

    method Enter(ghost b: array<byte>, ghost start: Display, ghost clip: seq<byte>, ghost typed: seq<byte>)
      requires |clip| < CLIPBOARD_MAX && After(b, start, clip, typed)
      modifies buf, screen, screen.cells
      ensures Entered(b, start, clip, typed)
    {
      PutKeepsStatus(Placed(screen.View(), base.pos, len), NEWLINE);
      if FromKeyboard(clip, typed) {
        DeliverablePlain(NewLine(clip), typed, Limit());
      }
      Finish();
    }

    // One turn of the loop, on the key in place n
    method NextKey(keys: seq<byte>, n: nat, ghost b: array<byte>, ghost start: Display, ghost clip: seq<byte>)
      requires |clip| < CLIPBOARD_MAX && n < |keys| && keys[n] != NEWLINE && After(b, start, clip, keys[..n])
      modifies this`len, this`cursor, this`longest, this`clipboardLen, this`copied, buf, clipboard, screen, screen.cells
      ensures After(b, start, clip, keys[..n + 1])
    {
      TakeOneMore(keys, n);
      OneKey(keys[n], b, start, clip, keys[..n]);
    }

    // The loop of kb_readline, up to Enter
    method TypeUntilEnter(keys: seq<byte>, ghost b: array<byte>, ghost start: Display, ghost clip: seq<byte>)
      returns (used: nat)
      requires |clip| < CLIPBOARD_MAX && After(b, start, clip, [])
      modifies this`len, this`cursor, this`longest, this`clipboardLen, this`copied, buf, clipboard, screen, screen.cells
      ensures used <= |keys| && NoEnter(keys, used) && (used < |keys| ==> keys[used] == NEWLINE)
      ensures After(b, start, clip, keys[..used])
    {
      used := 0;
      while used < |keys| && keys[used] != NEWLINE
        invariant used <= |keys| && NoEnter(keys, used)
        invariant After(b, start, clip, keys[..used])
      {
        NextKey(keys, used, b, start, clip);
        used := used + 1;
      }
    }

    // kb_readline behind its head
    method ReadOn(keys: seq<byte>, ghost b: array<byte>, ghost start: Display, ghost clip: seq<byte>)
      returns (used: nat, done: bool)
      requires |clip| < CLIPBOARD_MAX && After(b, start, clip, [])
      modifies this`len, this`cursor, this`longest, this`clipboardLen, this`copied, buf, clipboard, screen, screen.cells
      ensures used <= |keys| && NoEnter(keys, used)
      ensures if done then used < |keys| && keys[used] == NEWLINE else used == |keys|
      ensures if done then Entered(b, start, clip, keys[..used]) else After(b, start, clip, keys[..used])
    {
      used := TypeUntilEnter(keys, b, start, clip);
      done := used < |keys|;
      if done {
        Enter(b, start, clip, keys[..used]);
      }
    }

    /** kb_readline on the keys that come, up to Enter or as far as they go. */
    method ReadLine(b: array<byte>, keys: seq<byte>) returns (used: nat, done: bool)
      requires screen.Valid() && clipboard.Length == CLIPBOARD_MAX && clipboardLen < CLIPBOARD_MAX
      requires b != clipboard && b.Length > 0
      modifies this, b, clipboard, screen, screen.cells
      ensures used <= |keys| && NoEnter(keys, used)
      ensures if done then used < |keys| && keys[used] == NEWLINE else used == |keys|
      ensures if done then Entered(b, old(screen.View()), old(clipboard[..clipboardLen]), keys[..used])
              else After(b, old(screen.View()), old(clipboard[..clipboardLen]), keys[..used])
    {
      ghost var clip, start := clipboard[..clipboardLen], screen.View();
      Begin(b, start, clip);
      used, done := ReadOn(keys, b, start, clip);
    }
  }

  ghost predicate NoEnter(keys: seq<byte>, n: nat)
    requires n <= |keys|
  {
    forall i :: 0 <= i < n ==> keys[i] != NEWLINE
  }

  ghost predicate FromKeyboard(clip: seq<byte>, keys: seq<byte>) {
    Plain(clip) && forall i :: 0 <= i < |keys| ==> Deliverable(keys[i])
  }

  lemma TakeOneMore(keys: seq<byte>, n: nat)
    requires n < |keys|
    ensures keys[..n + 1] == keys[..n] + [keys[n]]
  {
  }

  lemma TypedPlain(clip: seq<byte>, typed: seq<byte>, c: byte, limit: nat)
    requires |clip| < CLIPBOARD_MAX && FromKeyboard(clip, typed + [c])
    ensures FromKeyboard(clip, typed) && PlainLine(Steps(NewLine(clip), typed, limit)) && (c != NEWLINE ==> Plain([c]))
  {
    forall i | 0 <= i < |typed|
      ensures Deliverable(typed[i])
    {
      assert (typed + [c])[i] == typed[i];
    }
    assert Deliverable((typed + [c])[|typed|]);
    DeliverablePlain(NewLine(clip), typed, limit);
  }

  // ------------------------------------------------------------------
  // Redrawing shows the line
  // ------------------------------------------------------------------

  lemma SamePrefix(x: seq<byte>, y: seq<byte>, n: nat)
    requires n <= |x| && n <= |y| && x[..n] == y[..n]
    ensures forall i :: 0 <= i < n ==> x[i] == y[i]
  {
    assert forall i :: 0 <= i < n ==> x[..n][i] == y[..n][i];
  }

  // Backspace leaves the text before it.
  lemma HeadStays(l: Line)
    requires l.before != []
    ensures var n := |l.before| - 1; Text(l)[..n] == l.before[..n]
  {
  }

  /** The text from `from` on printed anew, and the cursor put in its place, show a line that
      has grown or kept its length. */
  lemma RedrawShows(d: Display, start: nat, l: Line, l': Line, from: nat)
    requires DisplayOk(d) && from <= |Text(l)| <= |Text(l')| && Text(l)[..from] == Text(l')[..from]
    requires l'.clip == l.clip && l'.copied == l.copied && |Text(l)| <= l.longest
    requires l'.longest == if |Text(l')| > l.longest then |Text(l')| else l.longest
    requires start + |Text(l')| < TEXT && Plain(Text(l')) && DisplayOk(Render(d, start, l))
    ensures Placed(Redrawn(Render(d, start, l), start, Text(l'), from), start, |l'.before|) == Render(d, start, l')
  {
    var shown, t := Render(d, start, l), Text(l');
    PutAllWrites(Placed(shown, start, from), t[from..]);
    var cells := Written(shown.cells, start + from, t[from..], d.color);
    SamePrefix(Text(l), t, from);
    forall k | 0 <= k < CELLS
      ensures cells[k] == Shown(d, start, l', k)
    {
    }
    assert cells == Render(d, start, l').cells;
  }

  /** The same for a line one character shorter, whose old last cell is blanked. */
  lemma EraseShows(d: Display, start: nat, l: Line, l': Line, from: nat)
    requires DisplayOk(d) && from <= |Text(l')| == |Text(l)| - 1 && Text(l)[..from] == Text(l')[..from]
    requires l'.clip == l.clip && l'.copied == l.copied && |Text(l)| <= l.longest == l'.longest
    requires start + |Text(l)| < TEXT && Plain(Text(l')) && DisplayOk(Render(d, start, l))
    ensures Placed(Put(Redrawn(Render(d, start, l), start, Text(l'), from), SPACE), start, |l'.before|)
            == Render(d, start, l')
  {
    var shown, t := Render(d, start, l), Text(l');
    var tail := t[from..];
    PutAllWrites(Placed(shown, start, from), tail);
    PutScrollsIff(Redrawn(shown, start, t, from), SPACE);
    var cells := Written(shown.cells, start + from, tail, d.color)[start + |t| := Cell(SPACE, d.color)];
    ErasedCells(d, start, l, l', from);
    assert cells == Render(d, start, l').cells;
  }

  lemma ErasedCells(d: Display, start: nat, l: Line, l': Line, from: nat)
    requires DisplayOk(d) && from <= |Text(l')| == |Text(l)| - 1 && Text(l)[..from] == Text(l')[..from]
    requires l'.clip == l.clip && l'.copied == l.copied && |Text(l)| <= l.longest == l'.longest
    requires start + |Text(l)| < TEXT
    ensures var t := Text(l');
            Written(Render(d, start, l).cells, start + from, t[from..], d.color)[start + |t| := Cell(SPACE, d.color)]
            == Render(d, start, l').cells
  {
    var t := Text(l');
    var cells := Written(Render(d, start, l).cells, start + from, t[from..], d.color);
    SamePrefix(Text(l), t, from);
    forall k | 0 <= k < CELLS
      ensures cells[start + |t| := Cell(SPACE, d.color)][k] == Shown(d, start, l', k)
    {
    }
  }

  lemma MoveShows(d: Display, start: nat, l: Line, l': Line)
    requires DisplayOk(d) && Text(l') == Text(l) && l' == l.(before := l'.before, after := l'.after)
    ensures Render(d, start, l').cells == Render(d, start, l).cells
  {
  }

  lemma GapFilled(b: seq<byte>, cursor: nat, len: nat, t: seq<byte>)
    requires cursor <= len && len + |t| <= |b|
    ensures var m := Moved(b, cursor + |t|, cursor, len - cursor);
            var r := m[..cursor] + t + m[cursor + |t|..];
            r[..cursor + |t|] == b[..cursor] + t && r[cursor + |t|..len + |t|] == b[cursor..len]
  {
    var m := Moved(b, cursor + |t|, cursor, len - cursor);
    var r := m[..cursor] + t + m[cursor + |t|..];
    assert m[..cursor] == b[..cursor];
    assert m[cursor + |t|..] == b[cursor..len] + b[len + |t|..];
    assert r[cursor + |t|..] == m[cursor + |t|..];
    assert r[cursor + |t|..len + |t|] == r[cursor + |t|..][..len - cursor];
  }

  // The two copies of an insertion
  method InsertBytes(b: array<byte>, cursor: nat, len: nat, t: seq<byte>)
    requires cursor <= len && len + |t| <= b.Length
    modifies b
    ensures b[..cursor + |t|] == old(b[..cursor]) + t && b[cursor + |t|..len + |t|] == old(b[cursor..len])
  {
    ghost var bytes := b[..];
    MemMove(b, cursor + |t|, cursor, len - cursor);
    MemCpy(b, cursor, t);
    GapFilled(bytes, cursor, len, t);
    assert b[..cursor + |t|] == b[..][..cursor + |t|] && b[cursor + |t|..len + |t|] == b[..][cursor + |t|..len + |t|];
    assert bytes[..cursor] == old(b[..cursor]) && bytes[cursor..len] == old(b[cursor..len]);
  }

  function StatusRow(text: seq<byte>): (r: seq<Cell>)
    ensures |r| == COLS
  {
    seq(COLS, c requires 0 <= c < COLS => StatusCell(text, COPIED_COLOR, c))
  }

  // The message for a clipboard in the status row
  function WithStatus(d: Display, clip: seq<byte>): Display
    requires DisplayOk(d)
  {
    d.(cells := d.cells[..TEXT] + StatusRow(CName(Message(clip) + [0])))
  }

  lemma CopyShows(d: Display, start: nat, l: Line, l': Line)
    requires DisplayOk(d) && PlainLine(l) && l' == l.(clip := l'.clip, copied := true) && Plain(l'.clip)
    ensures Render(d, start, l').cells
         == Render(d, start, l).cells[..TEXT] + StatusRow(CName(Message(l'.clip) + [0]))
  {
    assert Plain(COPIED);
    assert 0 !in Message(l'.clip);
    CNameOfPadded(Message(l'.clip), 1);
    assert Zeros(1) == [0];
  }
}
