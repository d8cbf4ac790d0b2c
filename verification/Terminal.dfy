/**
 The text side of the frame buffer console as a value: the stored cells and the
 cursor, and what each character and each handled escape sequence does to them.
 */
module Terminal {
  import opened Words
  import opened Raster
  import opened Palette
  import AnsiEsc

  const CR := 13
  const LF := 10
  const BS := 8
  const SPACE := 32

  datatype Term = Term(text: seq<Cell>, x: int, y: int)

  ghost predicate ValidTerm(g: Geometry, t: Term) {
    && g.width >= 1 && g.height >= 1 && |t.text| == g.width * g.height
    && 0 <= t.x < g.width && 0 <= t.y < g.height
  }

  function BlankOf(pen: Pen): Cell {
    Cell(pen.foreground, pen.background, SPACE)
  }

  function Blanks(pen: Pen, n: int): seq<Cell>
    requires n >= 0
  {
    seq(n, _ => BlankOf(pen))
  }

  // fbcon_clear()
  function Cleared(g: Geometry, text: seq<Cell>, y: int, pen: Pen): seq<Cell>
    requires 0 <= y * g.width <= |text|
  {
    text[..y * g.width] + Blanks(pen, |text| - y * g.width)
  }

  // The text moved up by one row.
  function ScrolledUp(g: Geometry, text: seq<Cell>, pen: Pen): seq<Cell>
    requires 0 <= g.width <= |text|
  {
    text[g.width..] + Blanks(pen, g.width)
  }

  // Moving the rows up and clearing the last one.
  lemma ScrollSteps(g: Geometry, text: seq<Cell>, shifted: seq<Cell>, pen: Pen)
    requires g.width >= 1 && g.height >= 1 && |text| == g.width * g.height == |shifted|
    requires 0 <= (g.height - 1) * g.width <= |text| && 0 <= g.width <= |text|
    requires shifted[..(g.height - 1) * g.width] == text[g.width..]
    ensures Cleared(g, shifted, g.height - 1, pen) == ScrolledUp(g, text, pen)
  {
    Distribute(g.height - 1, 1, g.width);
  }

  // Scroll if the cursor has left the screen.
  function Scrolled(g: Geometry, t: Term, pen: Pen): Term
    requires 0 <= g.width <= |t.text|
  {
    if t.y >= g.height then Term(ScrolledUp(g, t.text, pen), t.x, t.y - 1) else t
  }

  function Printed(pen: Pen, c: int): Cell {
    Cell(pen.foreground | pen.bold, pen.background, c)
  }

  function Advanced(g: Geometry, t: Term): Term {
    if t.x + 1 >= g.width then Term(t.text, 0, t.y + 1) else Term(t.text, t.x + 1, t.y)
  }

  // The cursor and the text after a character, before any scrolling.
  function Moved(g: Geometry, t: Term, pen: Pen, c: int): Term {
    if c == CR then Term(t.text, 0, t.y)
    else if c == LF then Term(t.text, 0, t.y + 1)
    else if c == BS then
      if t.x > 0 then Term(t.text, t.x - 1, t.y)
      else if t.y > 0 then Term(t.text, g.width - 1, t.y - 1)
      else t
    else
      var i := t.y * g.width + t.x;
      Advanced(g, Term(if 0 <= i < |t.text| then t.text[i := Printed(pen, c)] else t.text, t.x, t.y))
  }

  // fbcon_putchar(), for a character that is not part of an escape sequence
  function PutChar(g: Geometry, t: Term, pen: Pen, c: int): Term
    requires 0 <= g.width <= |t.text|
  {
    Scrolled(g, Moved(g, t, pen, c), pen)
  }

  // fbcon_handle_cup(): positions outside the screen become the first.
  function MoveTo(g: Geometry, t: Term, row: int, column: int): Term {
    var x, y := (column - 1) % 0x1_0000_0000, (row - 1) % 0x1_0000_0000;
    Term(t.text, if x >= g.width then 0 else x, if y >= g.height then 0 else y)
  }

  // fbcon_handle_ed()
  function Erased(g: Geometry, t: Term, pen: Pen): Term {
    Term(Blanks(pen, |t.text|), 0, 0)
  }

  lemma WidthFits(g: Geometry, t: Term)
    requires ValidTerm(g, t)
    ensures g.width <= |t.text| && 0 <= t.y * g.width + t.x < |t.text|
  {
    MulMono(1, g.height, g.width);
    IndexInText(g, t.x, t.y);
  }

  lemma PutCharKeeps(g: Geometry, t: Term, pen: Pen, c: int)
    requires ValidTerm(g, t)
    ensures 0 <= g.width <= |t.text| && ValidTerm(g, PutChar(g, t, pen, c))
  {
    WidthFits(g, t);
  }

  lemma MoveToKeeps(g: Geometry, t: Term, row: int, column: int)
    requires ValidTerm(g, t)
    ensures ValidTerm(g, MoveTo(g, t, row, column))
  {
  }

  // ---- Typing -------------------------------------------------------------

  predicate Printable(c: int) {
    c != CR && c != LF && c != BS
  }

  function TypeAll(g: Geometry, t: Term, pen: Pen, s: seq<int>): Term
    requires 0 <= g.width <= |t.text|
    decreases |s|
  {
    if s == [] then t
    else
      var u := PutChar(g, t, pen, s[0]);
      if g.width <= |u.text| then TypeAll(g, u, pen, s[1..]) else u
  }

  function Cells(pen: Pen, s: seq<int>): (cells: seq<Cell>)
    ensures |cells| == |s|
  {
    seq(|s|, i requires 0 <= i < |s| => Printed(pen, s[i]))
  }

  // Where the cursor is in the text.
  function Position(g: Geometry, t: Term): int {
    t.y * g.width + t.x
  }

  // One printable character fills the cell under the cursor and moves to the
  // next, whether or not that is on the next line.
  lemma TypeOne(g: Geometry, t: Term, pen: Pen, c: int)
    requires ValidTerm(g, t) && Printable(c) && Position(g, t) + 1 < g.width * g.height
    ensures 0 <= g.width <= |t.text| && 0 <= Position(g, t) < |t.text|
    ensures var u := PutChar(g, t, pen, c);
            && ValidTerm(g, u) && Position(g, u) == Position(g, t) + 1
            && u.text == t.text[Position(g, t) := Printed(pen, c)]
  {
    WidthFits(g, t);
    PutCharKeeps(g, t, pen, c);
    Distribute(t.y, 1, g.width);
    if t.x + 1 >= g.width && t.y + 1 >= g.height {
      MulMono(g.height, t.y + 1, g.width);
    }
  }

  // Printable text that ends before the last cell fills consecutive cells of
  // the screen across line ends, and leaves every other cell alone.
  lemma {:induction false} TypedText(g: Geometry, t: Term, pen: Pen, s: seq<int>)
    requires ValidTerm(g, t) && forall i :: 0 <= i < |s| ==> Printable(s[i])
    requires Position(g, t) + |s| < g.width * g.height
    ensures 0 <= g.width <= |t.text| && 0 <= Position(g, t)
    ensures var u := TypeAll(g, t, pen, s);
            && ValidTerm(g, u) && Position(g, u) == Position(g, t) + |s|
            && u.text == t.text[..Position(g, t)] + Cells(pen, s) + t.text[Position(g, t) + |s|..]
    decreases |s|
  {
    hide PutChar;
    WidthFits(g, t);
    if s != [] {
      TypeOne(g, t, pen, s[0]);
      var u := PutChar(g, t, pen, s[0]);
      WidthFits(g, u);
      TypedText(g, u, pen, s[1..]);
      var i := Position(g, t);
      assert Cells(pen, s) == [Printed(pen, s[0])] + Cells(pen, s[1..]);
      assert u.text[..i + 1] == t.text[..i] + [Printed(pen, s[0])];
      assert u.text[i + |s|..] == t.text[i + |s|..];
    }
  }

  // A line feed on the last line drops the first line and blanks the last.
  lemma LineFeedScrolls(g: Geometry, t: Term, pen: Pen, x: int, y: int)
    requires ValidTerm(g, t) && t.y == g.height - 1 && 0 <= x < g.width && 0 <= y < g.height
    ensures 0 <= g.width <= |t.text|
    ensures var u := PutChar(g, t, pen, LF);
            && ValidTerm(g, u) && u.x == 0 && u.y == t.y
            && 0 <= y * g.width + x < |u.text|
            && u.text[y * g.width + x] ==
               (if y + 1 < g.height && 0 <= (y + 1) * g.width + x < |t.text|
                then t.text[(y + 1) * g.width + x] else BlankOf(pen))
  {
    WidthFits(g, t);
    PutCharKeeps(g, t, pen, LF);
    IndexInText(g, x, y);
    Distribute(y, 1, g.width);
    if y + 1 < g.height {
      IndexInText(g, x, y + 1);
    } else {
      assert y + 1 == g.height;
      assert y * g.width == g.width * g.height - g.width;
    }
  }

  // ---- The whole console --------------------------------------------------

  // ANSIESC_CUP, ANSIESC_ED, ANSIESC_SGR, ANSIESC_DECTCEM_SET and _RESET
  const CUP := 0x48
  const ED := 0x4a
  const SGR := 0x6d
  const CURSOR_ON := 0x3f68
  const CURSOR_OFF := 0x3f6c

  /** The stored text and cursor, the colours, the escape sequence context,
      whether the cursor is to be shown, and the cell last drawn under it. */
  datatype Console = Console(term: Term, pen: Pen, esc: AnsiEsc.State, show: bool, drawn: Cell)

  ghost predicate ValidConsole(g: Geometry, k: Console) {
    ValidTerm(g, k.term) && AnsiEsc.Valid(k.esc)
  }

  function Under(g: Geometry, t: Term): Cell {
    if 0 <= Position(g, t) < |t.text| then t.text[Position(g, t)] else Cell(0, 0, 0)
  }

  // fbcon_draw_cursor(): the cursor shows the pen's colours swapped.
  function CursorCell(pen: Pen, show: bool, cell: Cell): Cell {
    if show
    then Cell(if pen.background == TRANSPARENT then 0 else pen.background, pen.foreground, cell.character)
    else cell
  }

  function WithCursor(g: Geometry, k: Console): Console {
    k.(drawn := CursorCell(k.pen, k.show, Under(g, k.term)))
  }

  // What the screen is to show.
  function View(g: Geometry, k: Console): seq<Cell> {
    if 0 <= Position(g, k.term) < |k.term.text|
    then k.term.text[Position(g, k.term) := k.drawn] else k.term.text
  }

  lemma DrawnOver(g: Geometry, k: Console, cell: Cell)
    requires ValidTerm(g, k.term)
    ensures 0 <= Position(g, k.term) < |View(g, k)| == g.width * g.height
    ensures View(g, k)[Position(g, k.term) := cell] == View(g, k.(drawn := cell))
    ensures View(g, k)[Position(g, k.term) := cell] == k.term.text[Position(g, k.term) := cell]
    ensures View(g, k.(drawn := Under(g, k.term))) == k.term.text
  {
    WidthFits(g, k.term);
  }

  lemma SameView(g: Geometry, k: Console, l: Console)
    requires k.term == l.term && k.drawn == l.drawn
    ensures View(g, k) == View(g, l)
  {
  }

  // A character moves the cursor at most to the row after the last.
  lemma MovedRow(g: Geometry, t: Term, pen: Pen, c: int)
    requires ValidTerm(g, t)
    ensures var u := Moved(g, t, pen, c); |u.text| == |t.text| && 0 <= u.x < g.width && 0 <= u.y <= g.height
  {
  }

  function Handled(g: Geometry, cm: ColourMap, k: Console, code: int, count: int, params: seq<int>): Console {
    if code == CUP then
      if |params| < 2 then k else WithCursor(g, k.(term := MoveTo(g, k.term, params[0], params[1])))
    else if code == ED then WithCursor(g, k.(term := Erased(g, k.term, k.pen)))
    else if code == SGR then
      if 0 <= count <= |params| then k.(pen := Rendered(cm, k.pen, params[..count], 0)) else k
    else if code == CURSOR_ON then WithCursor(g, k.(show := true))
    else if code == CURSOR_OFF then WithCursor(g, k.(show := false))
    else k
  }

  // fbcon_putchar(), which ignores a character that is negative
  function Typed(g: Geometry, cm: ColourMap, k: Console, c: int): Console {
    var (esc, event) := AnsiEsc.Step(k.esc, c);
    var next := k.(esc := esc);
    match event
    case Swallowed => next
    case Normal(c) =>
      if c >= 0 && 0 <= g.width <= |k.term.text|
      then WithCursor(g, next.(term := PutChar(g, k.term, k.pen, c))) else next
    case Call(code, count, params) => Handled(g, cm, next, code, count, params)
  }

  function TypedAll(g: Geometry, cm: ColourMap, k: Console, s: seq<int>): Console {
    if s == [] then k else Typed(g, cm, TypedAll(g, cm, k, s[..|s| - 1]), s[|s| - 1])
  }

  lemma TypedKeeps(g: Geometry, cm: ColourMap, k: Console, c: int)
    requires ValidConsole(g, k)
    ensures ValidConsole(g, Typed(g, cm, k, c))
  {
    hide PutChar, MoveTo;
    AnsiEsc.StepKeeps(k.esc, c);
    PutCharKeeps(g, k.term, k.pen, c);
    var (_, event) := AnsiEsc.Step(k.esc, c);
    match event
    case Swallowed =>
    case Normal(n) => PutCharKeeps(g, k.term, k.pen, n);
    case Call(_, _, params) => MoveToKeeps(g, k.term, params[0], params[1]);
  }

  // Characters that are swallowed change only the escape sequence context.
  lemma {:induction false} TypedReads(g: Geometry, cm: ColourMap, k: Console, s: seq<int>, esc: AnsiEsc.State)
    requires AnsiEsc.Reads(k.esc, s, esc)
    ensures TypedAll(g, cm, k, s) == k.(esc := esc)
  {
    hide Handled, WithCursor, PutChar;
    if s != [] {
      var front := s[..|s| - 1];
      var y := AnsiEsc.Feed(k.esc, front);
      assert forall i :: 0 <= i < |front| ==> AnsiEsc.Events(k.esc, front)[i] == AnsiEsc.Events(k.esc, s)[i];
      TypedReads(g, cm, k, front, y);
      assert AnsiEsc.Events(k.esc, s)[|s| - 1] == AnsiEsc.Step(y, s[|s| - 1]).1;
    }
  }

  // A whole sequence does what its handler does, and prints nothing.
  lemma SequenceTyped(g: Geometry, cm: ColourMap, k: Console, marks: seq<int>, ps: seq<int>, final: int)
    requires k.esc.count == 0 && AnsiEsc.Marks(marks) && AnsiEsc.Parameters(ps) && AnsiEsc.IsFinal(final)
    ensures var s := AnsiEsc.Opening(marks, ps) + [final];
            var code := AnsiEsc.WithByte(AnsiEsc.Identifier(0, marks), final);
            && AnsiEsc.Feed(k.esc, s).count == 0
            && TypedAll(g, cm, k, s) ==
               Handled(g, cm, k.(esc := AnsiEsc.Feed(k.esc, s)), code, |ps|, AnsiEsc.Padded([], ps))
  {
    hide Handled, WithCursor, PutChar, AnsiEsc.Opening, AnsiEsc.Padded, AnsiEsc.Identifier, AnsiEsc.WithByte;
    var s := AnsiEsc.Opening(marks, ps);
    var esc := AnsiEsc.State(|ps|, AnsiEsc.Padded([], ps), AnsiEsc.Identifier(0, marks));
    AnsiEsc.OpeningRead(k.esc, marks, ps);
    TypedReads(g, cm, k, s, esc);
    assert (s + [final])[..|s|] == s;
    assert TypedAll(g, cm, k, s + [final]) == Typed(g, cm, TypedAll(g, cm, k, s), final);
  }

  // ESC [ row ; column H moves the cursor there and changes nothing else.
  lemma CursorAddressed(g: Geometry, cm: ColourMap, k: Console, row: nat, column: nat)
    requires ValidConsole(g, k) && k.esc.count == 0 && 1 <= row <= g.height && 1 <= column <= g.width
    requires row < 0x8000_0000 && column < 0x8000_0000
    ensures var s := AnsiEsc.Opening([], [row as int, column as int]) + [CUP];
            var esc := AnsiEsc.Feed(k.esc, s);
            TypedAll(g, cm, k, s) ==
            WithCursor(g, k.(esc := esc, term := Term(k.term.text, column - 1, row - 1)))
  {
    hide AnsiEsc.Opening, AnsiEsc.Feed, WithCursor, TypedAll, AnsiEsc.WithByte, AnsiEsc.Padded, Rendered;
    var ps := [row as int, column as int];
    SequenceTyped(g, cm, k, [], ps, CUP);
    AnsiEsc.ByteAdded(0, CUP);
    FirstTwo(ps);
  }

  lemma FirstTwo(ps: seq<int>)
    requires 2 <= |ps| <= AnsiEsc.MAX_PARAMS
    ensures var qs := AnsiEsc.Padded([], ps); |qs| == AnsiEsc.MAX_PARAMS && qs[0] == ps[0] && qs[1] == ps[1]
  {
  }
}
