/**
 What the frame buffer console does with plain text and with each of the escape
 sequences that it handles, from the bytes to the cells on the screen.
 */
module ConsoleText {
  import opened Words
  import opened Raster
  import opened Palette
  import opened Terminal
  import opened Scrollback
  import AnsiEsc

  // ---- Plain text ---------------------------------------------------------

  // A character that is passed through outside a sequence
  predicate IsPlain(c: int) {
    c >= 0 && c != 0x1b
  }

  lemma {:induction false} TypeLast(g: Geometry, t: Term, pen: Pen, s: seq<int>, c: int)
    requires ValidTerm(g, t)
    ensures 0 <= g.width <= |t.text| && ValidTerm(g, TypeAll(g, t, pen, s)) && g.width <= |TypeAll(g, t, pen, s).text|
    ensures TypeAll(g, t, pen, s + [c]) == PutChar(g, TypeAll(g, t, pen, s), pen, c)
    decreases |s|
  {
    hide PutChar;
    PutCharKeeps(g, t, pen, c);
    if s == [] {
      assert (s + [c])[1..] == [];
    } else {
      PutCharKeeps(g, t, pen, s[0]);
      var u := PutChar(g, t, pen, s[0]);
      WidthFits(g, u);
      assert (s + [c])[1..] == s[1..] + [c];
      TypeLast(g, u, pen, s[1..], c);
    }
  }

  // Outside a sequence the characters reach the text one by one, and the cursor
  // is drawn where they end.
  lemma {:induction false} PlainTyped(g: Geometry, cm: ColourMap, k: Console, s: seq<int>)
    requires ValidConsole(g, k) && k.esc.count == 0 && forall i :: 0 <= i < |s| ==> IsPlain(s[i])
    ensures 0 <= g.width <= |k.term.text|
    ensures s != [] ==> TypedAll(g, cm, k, s) == WithCursor(g, k.(term := TypeAll(g, k.term, k.pen, s)))
    decreases |s|
  {
    hide PutChar, WithCursor, Typed, ValidTerm;
    PutCharKeeps(g, k.term, k.pen, 0);
    if s != [] {
      var front, c := s[..|s| - 1], s[|s| - 1];
      assert front + [c] == s;
      TypeLast(g, k.term, k.pen, front, c);
      PlainTyped(g, cm, k, front);
      var t := TypeAll(g, k.term, k.pen, front);
      if front == [] {
        assert t == k.term;
        OneTyped(g, cm, k, k, k.term, c);
      } else {
        OneTyped(g, cm, k, WithCursor(g, k.(term := t)), t, c);
      }
    }
  }

  lemma OneTyped(g: Geometry, cm: ColourMap, k: Console, before: Console, t: Term, c: int)
    requires k.esc.count == 0 && IsPlain(c) && 0 <= g.width <= |t.text|
    requires before == k.(term := t) || before == WithCursor(g, k.(term := t))
    ensures Typed(g, cm, before, c) == WithCursor(g, k.(term := PutChar(g, t, k.pen, c)))
  {
    hide PutChar, WithCursor;
    Drawn(g, k.(term := t));
    Redrawn(g, before, k, PutChar(g, t, k.pen, c));
  }

  // A negative character is ignored.
  lemma NegativeIgnored(g: Geometry, cm: ColourMap, k: Console, c: int)
    requires k.esc.count == 0 && c < 0
    ensures Typed(g, cm, k, c) == k
  {
  }

  // Drawing the cursor changes only what was last drawn under it.
  lemma Drawn(g: Geometry, k: Console)
    ensures var d := WithCursor(g, k).drawn;
            && WithCursor(g, k) == k.(drawn := d)
            && (!k.show ==> d == Under(g, k.term))
            && (k.show ==> d.character == Under(g, k.term).character && d.background == k.pen.foreground
                           && d.foreground == if k.pen.background == TRANSPARENT then 0 else k.pen.background)
  {
  }

  lemma Redrawn(g: Geometry, k: Console, l: Console, t: Term)
    requires k.pen == l.pen && k.show == l.show && k.esc == l.esc
    ensures WithCursor(g, k.(term := t)) == WithCursor(g, l.(term := t))
  {
  }

  // Plain text on the console, whatever its length: the screen is the end of a
  // roll on which the text is in one piece.
  lemma PlainOnRoll(g: Geometry, cm: ColourMap, k: Console, s: seq<int>)
    requires ValidConsole(g, k) && k.esc.count == 0 && s != [] && forall i :: 0 <= i < |s| ==> IsPlain(s[i])
    ensures var r := Rolled(g, Roll(k.term.text, Position(g, k.term), 0), k.pen, s);
            ValidRoll(g, r) && TypedAll(g, cm, k, s).term == Screen(g, r)
  {
    hide Rolled, Screen, TypeAll, TypedAll, ValidRoll;
    PlainTyped(g, cm, k, s);
    RollOf(g, k.term);
    ScreenOfRoll(g, Roll(k.term.text, Position(g, k.term), 0), k.pen, s);
    Drawn(g, k.(term := TypeAll(g, k.term, k.pen, s)));
  }

  // ---- Escape sequences ---------------------------------------------------

  // The console after the sequence ESC [ marks p ; ... ; p final
  function After(g: Geometry, cm: ColourMap, k: Console, marks: seq<int>, ps: seq<int>, final: int): Console
    requires ps != []
  {
    TypedAll(g, cm, k, AnsiEsc.Opening(marks, ps) + [final])
  }

  // Only the escape sequence context differs, which is between sequences.
  ghost predicate Same(k: Console, l: Console) {
    k == l.(esc := k.esc) && k.esc.count == 0
  }

  lemma CodeOf(final: int)
    requires 0 <= final < 256
    ensures AnsiEsc.WithByte(AnsiEsc.Identifier(0, []), final) == final
  {
    hide AnsiEsc.WithByte;
    AnsiEsc.ByteAdded(0, final);
  }

  lemma PrivateCodeOf(final: int)
    requires 0 <= final < 256
    ensures AnsiEsc.WithByte(AnsiEsc.Identifier(0, [AnsiEsc.QUESTION]), final) == 0x3f00 + final
  {
    hide AnsiEsc.WithByte;
    AnsiEsc.ByteAdded(0, AnsiEsc.QUESTION);
    AnsiEsc.ByteAdded(0x3f, final);
    assert [AnsiEsc.QUESTION][1..] == [];
    assert AnsiEsc.Identifier(0, [AnsiEsc.QUESTION]) == AnsiEsc.Identifier(AnsiEsc.WithByte(0, AnsiEsc.QUESTION), []);
  }

  // ESC [ row ; column H goes to that row and column, counted from one; to the
  // first if it is not on the screen or omitted.
  lemma CursorGoes(g: Geometry, cm: ColourMap, k: Console, row: int, column: int)
    requires ValidConsole(g, k) && k.esc.count == 0 && g.width < 0x1_0000_0000 - 1 && g.height < 0x1_0000_0000 - 1
    requires -1 <= row < 0x8000_0000 && -1 <= column < 0x8000_0000
    ensures var x, y := if 1 <= column <= g.width then column - 1 else 0, if 1 <= row <= g.height then row - 1 else 0;
            Same(After(g, cm, k, [], [row, column], 0x48), WithCursor(g, k.(term := Term(k.term.text, x, y))))
  {
    hide AnsiEsc.Opening, AnsiEsc.Feed, TypedAll, AnsiEsc.WithByte, AnsiEsc.Padded, AnsiEsc.Identifier, Rendered;
    SequenceTyped(g, cm, k, [], [row, column], 0x48);
    CodeOf(0x48);
    FirstTwo([row, column]);
    Wraps(row);
    Wraps(column);
  }

  lemma Wraps(n: int)
    requires -1 <= n < 0x8000_0000
    ensures (n - 1) % 0x1_0000_0000 == if n >= 1 then n - 1 else 0x1_0000_0000 + n - 1
  {
  }

  // ESC [ 2 J leaves blanks in the pen's colours everywhere and the cursor in
  // the first place.
  lemma PageErased(g: Geometry, cm: ColourMap, k: Console, what: int)
    requires ValidConsole(g, k) && k.esc.count == 0 && -1 <= what < 0x8000_0000
    ensures var t := After(g, cm, k, [], [what], 0x4a).term;
            && ValidTerm(g, t) && t.x == 0 && t.y == 0 && |t.text| == |k.term.text|
            && forall i :: 0 <= i < |t.text| ==> t.text[i] == Cell(k.pen.foreground, k.pen.background, 0x20)
    ensures Same(After(g, cm, k, [], [what], 0x4a),
                 WithCursor(g, k.(term := After(g, cm, k, [], [what], 0x4a).term)))
  {
    hide AnsiEsc.Opening, AnsiEsc.Feed, TypedAll, AnsiEsc.WithByte, AnsiEsc.Padded, AnsiEsc.Identifier, Rendered;
    SequenceTyped(g, cm, k, [], [what], 0x4a);
    CodeOf(0x4a);
  }

  // ESC [ p ; ... ; p m changes the pen and nothing else.
  lemma PenChanged(g: Geometry, cm: ColourMap, k: Console, ps: seq<int>)
    requires ValidConsole(g, k) && k.esc.count == 0 && AnsiEsc.Parameters(ps)
    ensures Same(After(g, cm, k, [], ps, 0x6d), k.(pen := Rendered(cm, k.pen, ps, 0)))
  {
    hide AnsiEsc.Opening, AnsiEsc.Feed, TypedAll, AnsiEsc.WithByte, AnsiEsc.Identifier, Rendered, WithCursor;
    SequenceTyped(g, cm, k, [], ps, 0x6d);
    CodeOf(0x6d);
    assert AnsiEsc.Padded([], ps)[..|ps|] == ps;
  }

  // ESC [ ? 25 h shows the cursor, and ESC [ ? 25 l hides it.
  lemma CursorShown(g: Geometry, cm: ColourMap, k: Console, what: int)
    requires ValidConsole(g, k) && k.esc.count == 0 && -1 <= what < 0x8000_0000
    ensures Same(After(g, cm, k, [0x3f], [what], 0x68), WithCursor(g, k.(show := true)))
    ensures Same(After(g, cm, k, [0x3f], [what], 0x6c), WithCursor(g, k.(show := false)))
  {
    hide AnsiEsc.Opening, AnsiEsc.Feed, TypedAll, AnsiEsc.WithByte, AnsiEsc.Padded, AnsiEsc.Identifier, Rendered;
    SequenceTyped(g, cm, k, [0x3f], [what], 0x68);
    SequenceTyped(g, cm, k, [0x3f], [what], 0x6c);
    PrivateCodeOf(0x68);
    PrivateCodeOf(0x6c);
  }

  // Any other sequence is swallowed without effect.
  lemma OthersIgnored(g: Geometry, cm: ColourMap, k: Console, ps: seq<int>, final: int)
    requires ValidConsole(g, k) && k.esc.count == 0 && AnsiEsc.Parameters(ps)
    requires AnsiEsc.IsFinal(final) && 0 <= final < 256 && final != 0x48 && final != 0x4a && final != 0x6d
    ensures Same(After(g, cm, k, [], ps, final), k)
  {
    hide AnsiEsc.Opening, AnsiEsc.Feed, TypedAll, AnsiEsc.WithByte, AnsiEsc.Padded, AnsiEsc.Identifier, Rendered;
    SequenceTyped(g, cm, k, [], ps, final);
    CodeOf(final);
  }
}
