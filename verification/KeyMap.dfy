/** Which key gives which character: the US layout by its rows, as scan code set 1 numbers the keys,
    and what typing a text on it delivers. */
module KeyMap {
  import opened Bytes
  import opened Keyboard

  // A row of keys: the first one's scan code, and the characters without and with shift
  datatype Keys = Keys(first: nat, plain: string, shifted: string)

  const DIGIT_KEYS: Keys := Keys(2, "1234567890-=", "!@#$%^&*()_+")
  const UPPER_KEYS: Keys := Keys(16, "qwertyuiop[]", "QWERTYUIOP{}")
  const HOME_KEYS: Keys := Keys(30, "asdfghjkl;'`", "ASDFGHJKL:\"~")
  const LOWER_KEYS: Keys := Keys(43, "\\zxcvbnm,./", "|ZXCVBNM<>?")

  predicate IsRow(k: Keys) {
    k == DIGIT_KEYS || k == UPPER_KEYS || k == HOME_KEYS || k == LOWER_KEYS
  }

  // The tables read by rows
  lemma TablesByRows()
    ensures |ASCII| == |ASCII_SHIFT| == 59
    ensures ASCII[2..14] == DIGITS[2..14] && ASCII[16..28] == UPPER_ROW[1..13]
    ensures ASCII[30..42] == HOME_ROW[1..13] && ASCII[43..54] == LOWER_ROW[1..12]
    ensures ASCII_SHIFT[2..14] == DIGITS_SHIFT[2..14] && ASCII_SHIFT[16..28] == UPPER_SHIFT[1..13]
    ensures ASCII_SHIFT[30..42] == HOME_SHIFT[1..13] && ASCII_SHIFT[43..54] == LOWER_SHIFT[1..12]
  {
  }

  ghost predicate Spells(b: seq<byte>, s: string) {
    |b| == |s| && forall i :: 0 <= i < |s| ==> s[i] < 128 as char && b[i] == s[i] as int
  }

  lemma DigitSpells()
    ensures Spells(DIGITS[2..14], DIGIT_KEYS.plain)
  {
  }

  lemma DigitSpellsShifted()
    ensures Spells(DIGITS_SHIFT[2..14], DIGIT_KEYS.shifted)
  {
  }

  lemma UpperSpells()
    ensures Spells(UPPER_ROW[1..13], UPPER_KEYS.plain)
  {
  }

  lemma UpperSpellsShifted()
    ensures Spells(UPPER_SHIFT[1..13], UPPER_KEYS.shifted)
  {
  }

  lemma HomeSpells()
    ensures Spells(HOME_ROW[1..13], HOME_KEYS.plain)
  {
  }

  lemma HomeSpellsShifted()
    ensures Spells(HOME_SHIFT[1..13], HOME_KEYS.shifted)
  {
  }

  lemma LowerSpells()
    ensures Spells(LOWER_ROW[1..12], LOWER_KEYS.plain)
  {
  }

  lemma LowerSpellsShifted()
    ensures Spells(LOWER_SHIFT[1..12], LOWER_KEYS.shifted)
  {
  }

  // Both tables have the row's characters from the row's first scan code on.
  ghost predicate Tabled(k: Keys) {
    && k.first + |k.plain| <= |ASCII| == |ASCII_SHIFT| && |k.shifted| == |k.plain|
    && Spells(ASCII[k.first..k.first + |k.plain|], k.plain)
    && Spells(ASCII_SHIFT[k.first..k.first + |k.plain|], k.shifted)
  }

  lemma RowsTabled(k: Keys)
    requires IsRow(k)
    ensures Tabled(k)
  {
    TablesByRows();
    DigitSpells();
    DigitSpellsShifted();
    UpperSpells();
    UpperSpellsShifted();
    HomeSpells();
    HomeSpellsShifted();
    LowerSpells();
    LowerSpellsShifted();
  }

  // ------------------------------------------------------------------
  // Single keys
  // ------------------------------------------------------------------

  // Ctrl+C and Ctrl+V
  predicate Editing(m: Modifiers, sc: byte) {
    m.ctrl && (sc == 46 || sc == 47)
  }

  /** The i-th key of a row gives the row's i-th character, by the state of shift. */
  lemma RowKey(k: Keys, i: nat, m: Modifiers)
    requires IsRow(k) && i < |k.plain| && |k.shifted| == |k.plain| && !m.extended && k.first + i < 256
    requires !Editing(m, k.first + i)
    ensures var key := Translate(m, k.first + i);
            key.mods == m && key.c as int == (if m.shift then k.shifted[i] else k.plain[i]) as int
  {
    RowsTabled(k);
    RowCodes(k, i);
    TabledAt(k, i, k.first + i);
    TableKey(m, k.first + i);
  }

  lemma TableKey(m: Modifiers, sc: byte)
    requires !m.extended && sc < |ASCII| == |ASCII_SHIFT| && sc < 128 && sc !in {29, 42, 54} && !Editing(m, sc)
    ensures Translate(m, sc) == Key(m, if m.shift then ASCII_SHIFT[sc] else ASCII[sc])
  {
  }

  lemma RowCodes(k: Keys, i: nat)
    requires IsRow(k) && i < |k.plain|
    ensures 2 <= k.first + i < 54 && k.first + i !in {29, 42}
  {
  }

  lemma TabledAt(k: Keys, i: nat, sc: nat)
    requires Tabled(k) && i < |k.plain| && sc == k.first + i
    ensures sc < |ASCII| && ASCII[sc] as int == k.plain[i] as int && ASCII_SHIFT[sc] as int == k.shifted[i] as int
  {
    SpelledAt(ASCII, k.first, k.plain, i, sc);
    SpelledAt(ASCII_SHIFT, k.first, k.shifted, i, sc);
  }

  lemma SpelledAt(table: seq<byte>, first: nat, s: string, i: nat, sc: nat)
    requires first + |s| <= |table| && Spells(table[first..first + |s|], s) && i < |s| && sc == first + i
    ensures table[sc] as int == s[i] as int
  {
    var part := table[first..first + |s|];
    assert part[i] == table[sc];
  }

  lemma KeysBeside()
    ensures |ASCII| == |ASCII_SHIFT| == 59
    ensures ASCII[14] == 8 && ASCII[15] == 9 && ASCII[28] == 10 && ASCII[55] == 42 && ASCII[57] == 32
    ensures ASCII_SHIFT[14] == 8 && ASCII_SHIFT[15] == 9 && ASCII_SHIFT[28] == 10
    ensures ASCII_SHIFT[55] == 42 && ASCII_SHIFT[57] == 32
    ensures ASCII[0] == ASCII[1] == ASCII[29] == ASCII[42] == ASCII[54] == ASCII[56] == ASCII[58] == 0
    ensures ASCII_SHIFT[0] == ASCII_SHIFT[1] == ASCII_SHIFT[29] == ASCII_SHIFT[42] == ASCII_SHIFT[54] == 0
    ensures ASCII_SHIFT[56] == ASCII_SHIFT[58] == 0
  {
  }

  /** The keys outside the rows: backspace, tab, Enter, the asterisk and the space bar, the same with
      shift; the arrows behind the prefix; copy and paste with Ctrl. */
  lemma OtherKeys(m: Modifiers)
    requires !m.extended
    ensures Translate(m, 14) == Key(m, 8) && Translate(m, 15) == Key(m, 9) && Translate(m, 28) == Key(m, 10)
    ensures Translate(m, 55) == Key(m, 42) && Translate(m, 57) == Key(m, 32)
    ensures m.ctrl ==> Translate(m, 46) == Key(m, 3) && Translate(m, 47) == Key(m, 22)
    ensures Translate(m, 0xE0) == Key(m.(extended := true), 0)
    ensures Translate(m.(extended := true), 0x4B) == Key(m, 17)
    ensures Translate(m.(extended := true), 0x4D) == Key(m, 18)
    ensures forall sc: byte :: sc !in {0x4B, 0x4D, 0xE0} ==> Translate(m.(extended := true), sc) == Key(m, 0)
  {
    KeysBeside();
  }

  /** Shift and Ctrl follow their keys going down and up; every other key going up, and the keys
      without a character, change nothing. */
  lemma SilentKeys(m: Modifiers)
    requires !m.extended
    ensures forall sc :: sc in {42, 54} ==> Translate(m, sc) == Key(m.(shift := true), 0)
    ensures forall sc :: sc in {42 + 128, 54 + 128} ==> Translate(m, sc) == Key(m.(shift := false), 0)
    ensures Translate(m, 29) == Key(m.(ctrl := true), 0) && Translate(m, 29 + 128) == Key(m.(ctrl := false), 0)
    ensures forall sc: byte :: sc in {0, 1, 56} || 58 <= sc < 128 ==> Translate(m, sc) == Key(m, 0)
    ensures forall sc: byte :: sc >= 128 && sc !in {0xE0, 42 + 128, 54 + 128, 29 + 128} ==>
              Translate(m, sc) == Key(m, 0)
  {
    KeysBeside();
  }

  // ------------------------------------------------------------------
  // Typing
  // ------------------------------------------------------------------

  // A key pressed and released: of a row, with or without shift, or the space bar, tab, Enter or
  // backspace
  datatype Stroke = Character(row: Keys, i: nat, shift: bool) | Space | Tab | Enter | Erase

  predicate OnKeyboard(s: Stroke) {
    s.Character? ==> IsRow(s.row) && s.i < |s.row.plain|
  }

  lemma RowBounds(k: Keys)
    requires IsRow(k)
    ensures |k.shifted| == |k.plain| && k.first + |k.plain| <= 58
  {
  }

  function Code(s: Stroke): (sc: byte)
    requires OnKeyboard(s)
    ensures sc < 58
  {
    match s
    case Character(row, i, _) => RowBounds(row); row.first + i
    case Space => 57
    case Tab => 15
    case Enter => 28
    case Erase => 14
  }

  // The scan codes of a stroke, shift held down around it if needed
  function Codes(s: Stroke): seq<byte>
    requires OnKeyboard(s)
  {
    var press: seq<byte> := [Code(s), Code(s) + 128];
    if s.Character? && s.shift then [42] + press + [42 + 128] else press
  }

  function Meant(s: Stroke): int
    requires OnKeyboard(s)
  {
    match s
    case Character(row, i, shift) => RowBounds(row); (if shift then row.shifted[i] else row.plain[i]) as int
    case Space => 32
    case Tab => 9
    case Enter => 10
    case Erase => 8
  }

  // The modifiers after some scan codes, and the characters they gave
  datatype Typed = Typed(mods: Modifiers, text: seq<byte>)

  function Type(m: Modifiers, codes: seq<byte>): (t: Typed)
    decreases |codes|
  {
    if codes == [] then Typed(m, [])
    else
      var key := Translate(m, codes[0]);
      var rest := Type(key.mods, codes[1..]);
      Typed(rest.mods, (if key.c == 0 then [] else [key.c]) + rest.text)
  }

  const NO_MODIFIERS: Modifiers := Modifiers(false, false, false)

  lemma TypeOne(m: Modifiers, sc: byte, rest: seq<byte>)
    ensures var key, t := Translate(m, sc), Type(m, [sc] + rest);
            var after := Type(key.mods, rest);
            t == Typed(after.mods, (if key.c == 0 then [] else [key.c]) + after.text)
  {
    assert ([sc] + rest)[1..] == rest;
  }

  lemma {:induction false} TypeAppends(m: Modifiers, a: seq<byte>, b: seq<byte>)
    ensures var x := Type(m, a); var y := Type(x.mods, b);
            Type(m, a + b) == Typed(y.mods, x.text + y.text)
    decreases |a|
  {
    if a == [] {
      assert a + b == b;
      assert [] + Type(m, b).text == Type(m, b).text;
    } else {
      var key := Translate(m, a[0]);
      TypeAppends(key.mods, a[1..], b);
      TypeMore(m, a[0], a[1..], b);
      assert a + b == [a[0]] + (a[1..] + b) && a == [a[0]] + a[1..];
    }
  }

  lemma TypeMore(m: Modifiers, sc: byte, a: seq<byte>, b: seq<byte>)
    requires var key := Translate(m, sc); var x := Type(key.mods, a); var y := Type(x.mods, b);
             Type(key.mods, a + b) == Typed(y.mods, x.text + y.text)
    ensures var x := Type(m, [sc] + a); var y := Type(x.mods, b);
            Type(m, [sc] + (a + b)) == Typed(y.mods, x.text + y.text)
  {
    var key := Translate(m, sc);
    TypeOne(m, sc, a);
    TypeOne(m, sc, a + b);
    Grouped(if key.c == 0 then [] else [key.c], Type(key.mods, a).text, Type(Type(key.mods, a).mods, b).text);
  }

  lemma Grouped(a: seq<byte>, b: seq<byte>, c: seq<byte>)
    ensures a + (b + c) == a + b + c
  {
  }

  // A stroke's character, whatever the state of shift fits it
  lemma StrokeKey(s: Stroke, m: Modifiers)
    requires OnKeyboard(s) && !m.ctrl && !m.extended && (s.Character? ==> m.shift == s.shift)
    ensures Translate(m, Code(s)).mods == m && Translate(m, Code(s)).c as int == Meant(s)
    ensures Code(s) !in {29, 42, 54} ==> Translate(m, Code(s) + 128) == Key(m, 0)
  {
    if s.Character? {
      RowBounds(s.row);
      RowKey(s.row, s.i, m);
    } else {
      OtherKeys(m);
    }
    SilentKeys(m);
  }

  function AllCodes(strokes: seq<Stroke>): seq<byte>
    requires forall k :: 0 <= k < |strokes| ==> OnKeyboard(strokes[k])
    decreases |strokes|
  {
    if strokes == [] then [] else Codes(strokes[0]) + AllCodes(strokes[1..])
  }

  lemma TypeTwo(m: Modifiers, a: byte, b: byte)
    ensures var x := Translate(m, a); var y := Translate(x.mods, b);
            x.c != 0 && y.c == 0 ==> Type(m, [a, b]) == Typed(y.mods, [x.c])
  {
    var x := Translate(m, a);
    assert [a, b] == [a] + [b] && [b] == [b] + [];
    TypeOne(m, a, [b]);
    TypeOne(x.mods, b, []);
  }

  lemma MeantIsByte(s: Stroke)
    requires OnKeyboard(s)
    ensures 0 < Meant(s) < 128
  {
    if s.Character? {
      RowBounds(s.row);
      CharsPrintable(s.row, s.i);
    }
  }

  lemma CharsPrintable(k: Keys, i: nat)
    requires IsRow(k) && i < |k.plain| == |k.shifted|
    ensures 32 < k.plain[i] as int < 127 && 32 < k.shifted[i] as int < 127
  {
  }

  // One stroke with no modifier down types its character, and leaves none down.
  lemma StrokeTypes(s: Stroke)
    requires OnKeyboard(s)
    ensures 0 < Meant(s) < 128 && Type(NO_MODIFIERS, Codes(s)) == Typed(NO_MODIFIERS, [Meant(s)])
  {
    var sc, held := Code(s), NO_MODIFIERS.(shift := true);
    MeantIsByte(s);
    StrokeCode(s);
    if s.Character? && s.shift {
      StrokeKey(s, held);
      TypeTwo(held, sc, sc + 128);
      TypeShifted([sc, sc + 128]);
    } else {
      StrokeKey(s, NO_MODIFIERS);
      TypeTwo(NO_MODIFIERS, sc, sc + 128);
    }
  }

  lemma StrokeCode(s: Stroke)
    requires OnKeyboard(s)
    ensures Code(s) !in {29, 42, 54}
  {
    if s.Character? {
      RowCodes(s.row, s.i);
    }
  }

  lemma TypeShifted(press: seq<byte>)
    requires var held := NO_MODIFIERS.(shift := true); Type(held, press).mods == held
    ensures Type(NO_MODIFIERS, [42] + press + [42 + 128])
            == Typed(NO_MODIFIERS, Type(NO_MODIFIERS.(shift := true), press).text)
  {
    var held := NO_MODIFIERS.(shift := true);
    SilentKeys(NO_MODIFIERS);
    SilentKeys(held);
    assert [42] + press + [42 + 128] == [42] + (press + [42 + 128]);
    TypeOne(NO_MODIFIERS, 42, press + [42 + 128]);
    TypeAppends(held, press, [42 + 128]);
    assert [42 + 128] == [42 + 128] + [];
    TypeOne(held, 42 + 128, []);
  }

  /** Typing a text, key by key, each pressed and released, shift held where needed, delivers exactly
      the text: the layout as a person knows it. */
  lemma {:induction false} TextIsTyped(strokes: seq<Stroke>)
    requires forall k :: 0 <= k < |strokes| ==> OnKeyboard(strokes[k])
    ensures var t := Type(NO_MODIFIERS, AllCodes(strokes));
            t.mods == NO_MODIFIERS && |t.text| == |strokes| && forall k :: 0 <= k < |strokes| ==>
              t.text[k] as int == Meant(strokes[k])
    decreases |strokes|
  {
    if strokes == [] {
    } else {
      StrokeTypes(strokes[0]);
      TextIsTyped(strokes[1..]);
      TypeAppends(NO_MODIFIERS, Codes(strokes[0]), AllCodes(strokes[1..]));
      assert forall k :: 0 < k < |strokes| ==> strokes[k] == strokes[1..][k - 1];
    }
  }
}
