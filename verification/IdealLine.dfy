/** The ideal line editor: text before and after a cursor, and a clipboard. kb_readline
    (keyboard.c) is proved to be this editor. */
module IdealLine {
  import opened Bytes
  import opened Keyboard
  import opened Vga

  const CLIPBOARD_MAX: nat := 128
  const BACKSPACE: byte := 8

  /** `longest` is the greatest length the text has had, `copied` whether Ctrl+C was used. */
  datatype Line = Line(before: seq<byte>, after: seq<byte>, clip: seq<byte>, longest: nat, copied: bool)

  function Text(l: Line): seq<byte> {
    l.before + l.after
  }

  function NewLine(clip: seq<byte>): Line {
    Line([], [], clip, 0, false)
  }

  // Text put in at the cursor
  function Inserted(l: Line, t: seq<byte>): Line {
    var n := |l.before| + |t| + |l.after|;
    l.(before := l.before + t, longest := if n > l.longest then n else l.longest)
  }

  function Clip(t: seq<byte>, n: int): (r: seq<byte>)
    requires n >= 0
    ensures |r| <= n && r <= t
  {
    if |t| < n then t else t[..n]
  }

  /** One key other than Enter, with room for `limit` characters. */
  function Step(l: Line, c: byte, limit: nat): Line
    requires |Text(l)| <= limit
  {
    var n := |l.before|;
    if c == NEWLINE then l
    else if c == BACKSPACE then (if n == 0 then l else l.(before := l.before[..n - 1]))
    else if c == KB_LEFT then
      (if n == 0 then l else l.(before := l.before[..n - 1], after := l.before[n - 1..] + l.after))
    else if c == KB_RIGHT then
      (if l.after == [] then l else l.(before := l.before + l.after[..1], after := l.after[1..]))
    else if c == KB_CTRL_C then l.(clip := Clip(Text(l), CLIPBOARD_MAX - 1), copied := true)
    else if c == KB_CTRL_V then Inserted(l, Clip(l.clip, limit - |Text(l)|))
    else if |Text(l)| < limit then Inserted(l, [c])
    else l
  }

  // The text keeps within the limit, and longest within it too.
  ghost predicate LineOk(l: Line, limit: nat) {
    |Text(l)| <= l.longest <= limit && |l.clip| < CLIPBOARD_MAX
  }

  lemma StepOk(l: Line, c: byte, limit: nat)
    requires LineOk(l, limit)
    ensures LineOk(Step(l, c, limit), limit)
  {
  }

  function Steps(l: Line, keys: seq<byte>, limit: nat): (r: Line)
    requires LineOk(l, limit)
    ensures LineOk(r, limit)
    decreases |keys|
  {
    if keys == [] then l
    else
      StepOk(l, keys[0], limit);
      Steps(Step(l, keys[0], limit), keys[1..], limit)
  }

  lemma {:induction false} StepsSnoc(l: Line, keys: seq<byte>, c: byte, limit: nat)
    requires LineOk(l, limit)
    ensures Steps(l, keys + [c], limit) == Step(Steps(l, keys, limit), c, limit)
    decreases |keys|
  {
    StepOk(l, c, limit);
    if keys == [] {
      assert [] + [c] == [c];
    } else {
      StepOk(l, keys[0], limit);
      StepsSnoc(Step(l, keys[0], limit), keys[1..], c, limit);
      assert (keys + [c])[1..] == keys[1..] + [c];
    }
  }

  // ------------------------------------------------------------------
  // Laws
  // ------------------------------------------------------------------

  // Characters that stand for themselves in a line
  predicate Ordinary(c: byte) {
    c !in {0, BACKSPACE, NEWLINE, RETURN, KB_LEFT, KB_RIGHT, KB_CTRL_C, KB_CTRL_V}
  }

  /** Typing and erasing cancel, as long as the line is not full. */
  lemma TypeThenErase(l: Line, c: byte, limit: nat)
    requires |Text(l)| < limit && Ordinary(c)
    ensures var r := Step(Step(l, c, limit), BACKSPACE, limit);
            r.before == l.before && r.after == l.after && r.clip == l.clip
  {
    assert (l.before + [c])[..|l.before|] == l.before;
  }

  lemma LeftMoves(l: Line, limit: nat)
    requires |Text(l)| <= limit
    ensures Text(Step(l, KB_LEFT, limit)) == Text(l)
    ensures l.before != [] ==> Step(Step(l, KB_LEFT, limit), KB_RIGHT, limit) == l
  {
    var n := |l.before|;
    if n > 0 {
      var head, last := l.before[..n - 1], l.before[n - 1..];
      assert head + last == l.before && head + (last + l.after) == head + last + l.after;
      assert (last + l.after)[..1] == last && (last + l.after)[1..] == l.after;
    }
  }

  lemma RightMoves(l: Line, limit: nat)
    requires |Text(l)| <= limit
    ensures Text(Step(l, KB_RIGHT, limit)) == Text(l)
    ensures l.after != [] ==> Step(Step(l, KB_RIGHT, limit), KB_LEFT, limit) == l
  {
    var n := |l.before|;
    if l.after != [] {
      var first, rest := l.after[..1], l.after[1..];
      assert first + rest == l.after && l.before + (first + rest) == l.before + first + rest;
      assert (l.before + first)[..n] == l.before && (l.before + first)[n..] == first;
    }
  }

  /** Moving left and back again changes nothing, and neither way changes the text. */
  lemma LeftThenRight(l: Line, limit: nat)
    requires |Text(l)| <= limit
    ensures Text(Step(l, KB_LEFT, limit)) == Text(l) == Text(Step(l, KB_RIGHT, limit))
    ensures l.before != [] ==> Step(Step(l, KB_LEFT, limit), KB_RIGHT, limit) == l
    ensures l.after != [] ==> Step(Step(l, KB_RIGHT, limit), KB_LEFT, limit) == l
  {
    LeftMoves(l, limit);
    RightMoves(l, limit);
  }

  /** Copy and paste doubles a line with the cursor at its end, if it is short enough for the
      clipboard and twice fits. */
  lemma CopyThenPaste(l: Line, limit: nat)
    requires LineOk(l, limit) && l.after == [] && |Text(l)| < CLIPBOARD_MAX && 2 * |Text(l)| <= limit
    ensures Text(Step(Step(l, KB_CTRL_C, limit), KB_CTRL_V, limit)) == Text(l) + Text(l)
  {
    assert Text(l) == l.before;
  }

  // What Ctrl+V puts in
  function Pasted(l: Line, limit: nat): (p: seq<byte>)
    requires |Text(l)| <= limit
    ensures p <= l.clip && (p == l.clip || |Text(l)| + |p| == limit)
  {
    Clip(l.clip, limit - |Text(l)|)
  }

  /** What the keys mean for the text t and the cursor n characters into it: backspace takes out the
      character before the cursor; the arrows move it by one within the text. */
  lemma MovingKeys(l: Line, limit: nat, t: seq<byte>, n: nat)
    requires LineOk(l, limit) && t == Text(l) && n == |l.before|
    ensures var r := Step(l, 8, limit);
            r.clip == l.clip && if n > 0 then Text(r) == t[..n - 1] + t[n..] && |r.before| == n - 1 else r == l
    ensures var r := Step(l, 0x11, limit);
            r.clip == l.clip && Text(r) == t && |r.before| == if n > 0 then n - 1 else 0
    ensures var r := Step(l, 0x12, limit);
            r.clip == l.clip && Text(r) == t && |r.before| == if n < |t| then n + 1 else n
  {
    LeftThenRight(l, limit);
    assert t[n..] == l.after && t[..n] == l.before;
    assert n > 0 ==> t[..n - 1] == l.before[..n - 1];
  }

  /** Ctrl+C copies at most 127 characters; Ctrl+V and every character that is no other key put in
      text at the cursor, as far as there is room. */
  lemma TypingKeys(l: Line, c: byte, limit: nat, t: seq<byte>, n: nat, r: Line)
    requires LineOk(l, limit) && t == Text(l) && n == |l.before| && r == Step(l, c, limit)
    ensures c == 3 ==> Text(r) == t && |r.before| == n && r.clip == if |t| < 127 then t else t[..127]
    ensures c == 22 ==>
              var p := Pasted(l, limit); Text(r) == t[..n] + p + t[n..] && |r.before| == n + |p| && r.clip == l.clip
    ensures c !in {3, 8, 10, 0x11, 0x12, 22} ==>
              if |t| < limit then Text(r) == t[..n] + [c] + t[n..] && |r.before| == n + 1 && r.clip == l.clip
              else r == l
  {
    assert t[n..] == l.after && t[..n] == l.before;
  }

  /** Typed characters are the line: keys that are ordinary characters, as many as fit, give the
      text they spell. */
  lemma {:induction false} TextIsEntered(clip: seq<byte>, keys: seq<byte>, limit: nat)
    requires |clip| < CLIPBOARD_MAX && |keys| <= limit && forall k :: 0 <= k < |keys| ==> Ordinary(keys[k])
    ensures Text(Steps(NewLine(clip), keys, limit)) == keys
    ensures Steps(NewLine(clip), keys, limit).after == []
    decreases |keys|
  {
    if keys == [] {
    } else {
      var n := |keys| - 1;
      TextIsEntered(clip, keys[..n], limit);
      StepsSnoc(NewLine(clip), keys[..n], keys[n], limit);
      assert keys == keys[..n] + [keys[n]];
    }
  }

  // ------------------------------------------------------------------
  // What is typed
  // ------------------------------------------------------------------

  ghost predicate PlainLine(l: Line) {
    Plain(l.before) && Plain(l.after) && Plain(l.clip)
  }

  lemma PlainStep(l: Line, c: byte, limit: nat)
    requires |Text(l)| <= limit && c != 0 && c != RETURN
    ensures PlainLine(l) ==> PlainLine(Step(l, c, limit)) && Plain(Text(Step(l, c, limit)))
  {
    if PlainLine(l) {
      if c == KB_CTRL_C {
        PlainPart(Text(l), 0, |Clip(Text(l), CLIPBOARD_MAX - 1)|);
      } else if c == KB_CTRL_V {
        PlainPart(l.clip, 0, |Clip(l.clip, limit - |Text(l)|)|);
      } else if c == KB_LEFT && l.before != [] {
        PlainPart(l.before, |l.before| - 1, |l.before|);
      } else if c == KB_RIGHT && l.after != [] {
        PlainPart(l.after, 0, 1);
      }
    }
  }

  lemma PlainPart(t: seq<byte>, i: nat, j: nat)
    requires Plain(t) && i <= j <= |t|
    ensures Plain(t[i..j])
  {
  }

  /** Lines made of what the keyboard delivers are plain. */
  lemma {:induction false} DeliverablePlain(l: Line, keys: seq<byte>, limit: nat)
    requires LineOk(l, limit) && PlainLine(l) && forall i :: 0 <= i < |keys| ==> Deliverable(keys[i])
    ensures PlainLine(Steps(l, keys, limit))
    decreases |keys|
  {
    if keys == [] {
    } else {
      assert Deliverable(keys[0]);
      StepOk(l, keys[0], limit);
      PlainStep(l, keys[0], limit);
      DeliverablePlain(Step(l, keys[0], limit), keys[1..], limit);
    }
  }

  // ------------------------------------------------------------------
  // What is shown
  // ------------------------------------------------------------------

  const COPIED: seq<byte> := [32, 67, 111, 112, 105, 97, 100, 111, 58, 32]
  const COPIED_COLOR: byte := 160

  // The message after Ctrl+C: " Copiado: " and the clipboard, cut to a row
  function Message(clip: seq<byte>): (m: seq<byte>)
    ensures |m| <= COLS
  {
    COPIED + Clip(clip, COLS - |COPIED|)
  }

  // Text position k with the line shown from position start on, over the screen d
  function Shown(d: Display, start: nat, l: Line, k: nat): Cell
    requires DisplayOk(d) && k < CELLS
  {
    if k >= TEXT then (if l.copied then StatusCell(Message(l.clip), COPIED_COLOR, k - TEXT) else d.cells[k])
    else if start <= k < start + |Text(l)| then Cell(Text(l)[k - start], d.color)
    else if start <= k < start + l.longest then Cell(SPACE, d.color)
    else d.cells[k]
  }

  /** The whole screen while the line is edited: the text, blanks where it has shrunk, the
      message if any, and otherwise what was there before; the cursor at its place in the text. */
  function Render(d: Display, start: nat, l: Line): (r: Display)
    requires DisplayOk(d)
    ensures |r.cells| == CELLS
  {
    Display(seq(CELLS, k requires 0 <= k < CELLS => Shown(d, start, l, k)), start + |l.before|, d.color)
  }

  lemma NewLineShowsNothing(d: Display, clip: seq<byte>)
    requires DisplayOk(d)
    ensures Render(d, d.pos, NewLine(clip)) == d
  {
  }

  function Typed(n: nat, c: byte): (keys: seq<byte>)
    ensures |keys| == n
  {
    seq(n, _ => c)
  }

  lemma {:induction false} TypedSteps(l: Line, n: nat, c: byte, limit: nat)
    requires LineOk(l, limit) && |Text(l)| + n <= limit && Ordinary(c)
    ensures Steps(l, Typed(n, c), limit).before == l.before + Typed(n, c)
    decreases n
  {
    if n > 0 {
      StepOk(l, c, limit);
      assert Typed(n, c)[1..] == Typed(n - 1, c);
      TypedSteps(Step(l, c, limit), n - 1, c, limit);
      assert [c] + Typed(n - 1, c) == Typed(n, c);
      assert l.before + [c] + Typed(n - 1, c) == l.before + ([c] + Typed(n - 1, c));
    } else {
      assert l.before + [] == l.before;
    }
  }

  // Every line the keys can lead to can be shown by some screen.
  ghost predicate AlwaysShowable(d: Display, limit: nat)
    requires DisplayOk(d)
  {
    forall clip: seq<byte>, keys: seq<byte> :: |clip| < CLIPBOARD_MAX ==>
      DisplayOk(Render(d, d.pos, Steps(NewLine(clip), keys, limit)))
  }

  /** Screen and line can agree after every key exactly if the line, with its terminator, fits
      between its start and the end of the text area; otherwise typing enough characters takes
      the cursor beyond every screen. */
  lemma ShowableIff(d: Display, limit: nat)
    requires DisplayOk(d)
    ensures AlwaysShowable(d, limit) <==> d.pos + limit + 1 <= TEXT
  {
    if d.pos + limit + 1 > TEXT {
      var n := TEXT - d.pos;
      TypedSteps(NewLine([]), n, 97, limit);
      assert Render(d, d.pos, Steps(NewLine([]), Typed(n, 97), limit)).pos == TEXT;
    } else {
      forall clip: seq<byte>, keys: seq<byte> | |clip| < CLIPBOARD_MAX
        ensures DisplayOk(Render(d, d.pos, Steps(NewLine(clip), keys, limit)))
      {
        assert |Text(Steps(NewLine(clip), keys, limit))| <= limit;
      }
    }
  }
}
