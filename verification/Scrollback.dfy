/**
 The text of the frame buffer console as the last rows of an endless roll of
 paper, on which a character needs only its place in reading order.
 */
module Scrollback {
  import opened Words
  import opened Raster
  import opened Palette
  import opened Terminal

  // ---- Where each character leaves the cursor -----------------------------

  // A place in reading order is in one row and column only.
  lemma PlaceOf(g: Geometry, t: Term)
    requires ValidTerm(g, t)
    ensures t.x == Position(g, t) % g.width && t.y == Position(g, t) / g.width
    ensures 0 <= Position(g, t) < |t.text|
  {
    WidthFits(g, t);
    DivModUnique(Position(g, t), g.width, t.y, t.x);
  }

  lemma SamePlace(g: Geometry, t: Term, u: Term)
    requires ValidTerm(g, t) && ValidTerm(g, u) && t.text == u.text && Position(g, t) == Position(g, u)
    ensures t == u
  {
    PlaceOf(g, t);
    PlaceOf(g, u);
  }

  // A carriage return goes back to the start of the row and prints nothing.
  lemma CarriageReturns(g: Geometry, t: Term, pen: Pen)
    requires ValidTerm(g, t)
    ensures 0 <= g.width <= |t.text|
    ensures var u := PutChar(g, t, pen, CR);
            ValidTerm(g, u) && u.text == t.text && Position(g, u) == Position(g, t) - Position(g, t) % g.width
  {
    PutCharKeeps(g, t, pen, CR);
    PlaceOf(g, t);
  }

  // A backspace goes back by one place, across the start of a row but not of the
  // screen, and erases nothing.
  lemma BackspaceGoesBack(g: Geometry, t: Term, pen: Pen)
    requires ValidTerm(g, t)
    ensures 0 <= g.width <= |t.text|
    ensures var u := PutChar(g, t, pen, BS);
            && ValidTerm(g, u) && u.text == t.text
            && Position(g, u) == if Position(g, t) > 0 then Position(g, t) - 1 else 0
  {
    PutCharKeeps(g, t, pen, BS);
    PlaceOf(g, t);
    Distribute(t.y, -1, g.width);
    if t.y > 0 {
      MulMono(1, t.y, g.width);
    }
  }

  // A line feed goes to the start of the next row, which may need scrolling.
  lemma LineFeedGoesDown(g: Geometry, t: Term, pen: Pen)
    requires ValidTerm(g, t)
    ensures 0 <= g.width <= |t.text|
    ensures var u, p := PutChar(g, t, pen, LF), Position(g, t) - Position(g, t) % g.width + g.width;
            && ValidTerm(g, u)
            && (if p < |t.text| then u.text == t.text && Position(g, u) == p
                else u.text == t.text[g.width..] + Blanks(pen, g.width) && Position(g, u) == p - g.width)
  {
    PutCharKeeps(g, t, pen, LF);
    PlaceOf(g, t);
    RowBelow(g, t.y);
  }

  lemma RowBelow(g: Geometry, y: int)
    requires 0 <= y < g.height && 1 <= g.width
    ensures (y + 1) * g.width == y * g.width + g.width
    ensures y * g.width + g.width < g.width * g.height <==> y + 1 < g.height
  {
    Distribute(y, 1, g.width);
    if y + 1 < g.height {
      MulMono(y + 2, g.height, g.width);
      Distribute(y + 1, 1, g.width);
    }
  }

  // A character in the pen's ink, made bold by the bits of its bold colour, on
  // the pen's ground
  function Ink(pen: Pen, c: int): Cell {
    Cell(pen.foreground | pen.bold, pen.background, c)
  }

  lemma InkPrints(pen: Pen, c: int)
    ensures Printed(pen, c) == Ink(pen, c)
  {
  }

  // Anything else is printed and goes on by one place; after the last place of
  // the screen it scrolls.
  lemma CharacterPrints(g: Geometry, t: Term, pen: Pen, c: int)
    requires ValidTerm(g, t) && Printable(c)
    ensures 0 <= g.width <= |t.text| && 0 <= Position(g, t) < |t.text|
    ensures var u, p := PutChar(g, t, pen, c), Position(g, t);
            var text := t.text[p := Ink(pen, c)];
            && ValidTerm(g, u)
            && (if p + 1 < |t.text| then u.text == text && Position(g, u) == p + 1
                else u.text == text[g.width..] + Blanks(pen, g.width) && Position(g, u) == p + 1 - g.width)
  {
    hide Printed, Ink, Blanks;
    PutCharKeeps(g, t, pen, c);
    WidthFits(g, t);
    InkPrints(pen, c);
    var p, text := Position(g, t), t.text[Position(g, t) := Ink(pen, c)];
    assert Moved(g, t, pen, c) == Advanced(g, Term(text, t.x, t.y));
    if p + 1 < |t.text| {
      TypeOne(g, t, pen, c);
    } else {
      LastPlace(g, t);
    }
  }

  // The last place of the screen is at the end of its last row.
  lemma LastPlace(g: Geometry, t: Term)
    requires ValidTerm(g, t) && Position(g, t) + 1 >= |t.text|
    ensures t.x == g.width - 1 && t.y == g.height - 1 && Position(g, t) + 1 == |t.text|
  {
    WidthFits(g, t);
    RowBelow(g, t.y);
    if t.y + 1 == g.height {
      assert t.y * g.width + g.width == g.width * g.height;
    }
  }

  // ---- The roll -----------------------------------------------------------

  /** All cells ever shown, in reading order; where the next character goes; and
      the first cell that is still on the screen. */
  datatype Roll = Roll(cells: seq<Cell>, pos: int, top: int)

  ghost predicate ValidRoll(g: Geometry, r: Roll) {
    && g.width >= 1 && g.height >= 1
    && |r.cells| == r.top + g.width * g.height && 0 <= r.top <= r.pos < |r.cells| && r.top % g.width == 0
  }

  // Another row of paper, once the screen is full
  function FedOn(g: Geometry, r: Roll, pen: Pen): Roll
    requires g.width >= 0
  {
    if r.pos < |r.cells| then r else Roll(r.cells + Blanks(pen, g.width), r.pos, r.top + g.width)
  }

  // CR, LF and BS by their numbers
  function Struck(g: Geometry, r: Roll, pen: Pen, c: int): Roll
    requires g.width >= 1
  {
    if c == 0x0d then r.(pos := r.pos - r.pos % g.width)
    else if c == 0x0a then r.(pos := r.pos - r.pos % g.width + g.width)
    else if c == 0x08 then if r.pos > r.top then r.(pos := r.pos - 1) else r
    else if 0 <= r.pos < |r.cells|
    then Roll(r.cells[r.pos := Ink(pen, c)], r.pos + 1, r.top) else r
  }

  function Rolled(g: Geometry, r: Roll, pen: Pen, s: seq<int>): Roll
    requires g.width >= 1
    decreases |s|
  {
    if s == [] then r else Rolled(g, FedOn(g, Struck(g, r, pen, s[0]), pen), pen, s[1..])
  }

  // What is on the screen
  function Screen(g: Geometry, r: Roll): Term
    requires g.width >= 1 && 0 <= r.top <= |r.cells|
  {
    Term(r.cells[r.top..], (r.pos - r.top) % g.width, (r.pos - r.top) / g.width)
  }

  lemma ScreenFits(g: Geometry, r: Roll)
    requires ValidRoll(g, r)
    ensures ValidTerm(g, Screen(g, r)) && Position(g, Screen(g, r)) == r.pos - r.top
    ensures (r.pos - r.top) % g.width == r.pos % g.width
  {
    hide Blanks;
    RowOf(r.pos - r.top, g.width, g.height);
    SameColumn(r.pos, r.top, g.width);
  }

  lemma RowOf(p: int, width: int, height: int)
    requires width >= 1 && 0 <= p < width * height
    ensures 0 <= p / width < height && (p / width) * width + p % width == p
  {
    var q := p / width;
    Quotient(p, width);
    assert p == width * q + p % width;
    if q >= height {
      MulMono(height, q, width);
    }
  }

  lemma SameColumn(pos: int, top: int, width: int)
    requires width >= 1 && top % width == 0
    ensures (pos - top) % width == pos % width
  {
    var k := top / width;
    assert top == k * width;
    ModShift(pos - top, k, width);
  }

  lemma RowStart(g: Geometry, r: Roll)
    requires ValidRoll(g, r)
    ensures r.top <= r.pos - r.pos % g.width
    ensures r.pos - r.pos % g.width + g.width <= |r.cells|
  {
    ScreenFits(g, r);
    var t := Screen(g, r);
    RowBelow(g, t.y);
    MulMono(t.y + 1, g.height, g.width);
    MulMono(0, t.y, g.width);
  }

  lemma NextTop(g: Geometry, r: Roll)
    requires ValidRoll(g, r)
    ensures (r.top + g.width) % g.width == 0
  {
    ModShift(r.top, 1, g.width);
  }

  lemma RollKeeps(g: Geometry, r: Roll, pen: Pen, c: int)
    requires ValidRoll(g, r)
    ensures ValidRoll(g, FedOn(g, Struck(g, r, pen, c), pen))
  {
    RowStart(g, r);
    NextTop(g, r);
    MulMono(1, g.height, g.width);
  }

  lemma OneStruck(g: Geometry, r: Roll, pen: Pen, c: int)
    requires ValidRoll(g, r)
    ensures ValidRoll(g, FedOn(g, Struck(g, r, pen, c), pen)) && 0 <= g.width <= |Screen(g, r).text|
    ensures Screen(g, FedOn(g, Struck(g, r, pen, c), pen)) == PutChar(g, Screen(g, r), pen, c)
  {
    hide PutChar, Ink, Blanks, Position;
    RollKeeps(g, r, pen, c);
    ScreenFits(g, r);
    var q := FedOn(g, Struck(g, r, pen, c), pen);
    ScreenFits(g, q);
    WidthFits(g, Screen(g, r));
    StruckText(g, r, pen, c);
    SamePlace(g, Screen(g, q), PutChar(g, Screen(g, r), pen, c));
  }

  lemma StruckText(g: Geometry, r: Roll, pen: Pen, c: int)
    requires ValidRoll(g, r)
    ensures 0 <= g.width <= |Screen(g, r).text|
    ensures var q, u := FedOn(g, Struck(g, r, pen, c), pen), PutChar(g, Screen(g, r), pen, c);
            ValidTerm(g, u) && 0 <= q.top <= |q.cells| && u.text == q.cells[q.top..] && Position(g, u) == q.pos - q.top
  {
    hide PutChar, Struck, FedOn, ValidRoll, Screen;
    if Printable(c) {
      StruckPrints(g, r, pen, c);
    } else {
      StruckMoves(g, r, pen, c);
    }
  }

  lemma StruckMoves(g: Geometry, r: Roll, pen: Pen, c: int)
    requires ValidRoll(g, r) && !Printable(c)
    ensures 0 <= g.width <= |Screen(g, r).text|
    ensures var q, u := FedOn(g, Struck(g, r, pen, c), pen), PutChar(g, Screen(g, r), pen, c);
            ValidTerm(g, u) && 0 <= q.top <= |q.cells| && u.text == q.cells[q.top..] && Position(g, u) == q.pos - q.top
  {
    hide PutChar, Blanks, Position;
    ScreenFits(g, r);
    var t := Screen(g, r);
    WidthFits(g, t);
    RowStart(g, r);
    if c == CR {
      CarriageReturns(g, t, pen);
    } else if c == LF {
      LineFeedGoesDown(g, t, pen);
      PaperTail(g, r.cells, r.top, pen);
    } else {
      BackspaceGoesBack(g, t, pen);
    }
  }

  lemma StruckPrints(g: Geometry, r: Roll, pen: Pen, c: int)
    requires ValidRoll(g, r) && Printable(c)
    ensures 0 <= g.width <= |Screen(g, r).text|
    ensures var q, u := FedOn(g, Struck(g, r, pen, c), pen), PutChar(g, Screen(g, r), pen, c);
            ValidTerm(g, u) && 0 <= q.top <= |q.cells| && u.text == q.cells[q.top..] && Position(g, u) == q.pos - q.top
  {
    hide PutChar, Ink, Blanks, Position;
    ScreenFits(g, r);
    WidthFits(g, Screen(g, r));
    CharacterPrints(g, Screen(g, r), pen, c);
    var cells := r.cells[r.pos := Ink(pen, c)];
    assert cells[r.top..] == r.cells[r.top..][r.pos - r.top := Ink(pen, c)];
    PaperTail(g, cells, r.top, pen);
  }

  lemma PaperTail(g: Geometry, cells: seq<Cell>, top: int, pen: Pen)
    requires 0 <= top <= |cells| && 0 <= g.width <= |cells| - top
    ensures (cells + Blanks(pen, g.width))[top + g.width..] == cells[top..][g.width..] + Blanks(pen, g.width)
  {
    hide BlankOf;
  }

  // Whatever is typed, the screen shows the last rows of the roll.
  lemma {:induction false} ScreenOfRoll(g: Geometry, r: Roll, pen: Pen, s: seq<int>)
    requires ValidRoll(g, r)
    ensures ValidRoll(g, Rolled(g, r, pen, s)) && 0 <= g.width <= |Screen(g, r).text|
    ensures Screen(g, Rolled(g, r, pen, s)) == TypeAll(g, Screen(g, r), pen, s)
    decreases |s|
  {
    hide PutChar, Struck, FedOn;
    ScreenFits(g, r);
    WidthFits(g, Screen(g, r));
    if s != [] {
      OneStruck(g, r, pen, s[0]);
      var q := FedOn(g, Struck(g, r, pen, s[0]), pen);
      ScreenOfRoll(g, q, pen, s[1..]);
    }
  }

  // Any screen is the end of some roll.
  lemma RollOf(g: Geometry, t: Term)
    requires ValidTerm(g, t)
    ensures var r := Roll(t.text, Position(g, t), 0); ValidRoll(g, r) && Screen(g, r) == t
  {
    PlaceOf(g, t);
  }

  // Text of any length without control characters is laid out in one piece,
  // over row ends and scrolling alike.
  lemma {:induction false} TextInOnePiece(g: Geometry, r: Roll, pen: Pen, s: seq<int>)
    requires ValidRoll(g, r) && forall i :: 0 <= i < |s| ==> Printable(s[i])
    ensures var q := Rolled(g, r, pen, s);
            && ValidRoll(g, q) && q.pos == r.pos + |s| && |q.cells| >= |r.cells|
            && q.cells[..q.pos] == r.cells[..r.pos] + Cells(pen, s)
            && forall i :: q.pos <= i < |q.cells| ==>
                             q.cells[i] == if i < |r.cells| then r.cells[i] else BlankOf(pen)
    decreases |s|
  {
    if s == [] {
      assert Cells(pen, s) == [];
    } else {
      var q := FedOn(g, Struck(g, r, pen, s[0]), pen);
      RollKeeps(g, r, pen, s[0]);
      TextInOnePiece(g, q, pen, s[1..]);
      assert Cells(pen, s) == [Printed(pen, s[0])] + Cells(pen, s[1..]);
      assert q.cells[..q.pos] == r.cells[..r.pos] + [Printed(pen, s[0])];
    }
  }

  // A line of text that is shorter than a row, and the end of the line: the next
  // line starts at the next row.
  lemma LineThenNext(g: Geometry, r: Roll, pen: Pen, s: seq<int>)
    requires ValidRoll(g, r) && r.pos % g.width == 0 && |s| < g.width
    requires forall i :: 0 <= i < |s| ==> Printable(s[i])
    ensures var q := Rolled(g, r, pen, s + [CR, LF]);
            && ValidRoll(g, q) && q.pos == r.pos + g.width && r.pos + |s| <= |r.cells| <= |q.cells|
            && q.cells[..r.pos + |s|] == r.cells[..r.pos] + Cells(pen, s)
            && forall i :: r.pos + |s| <= i < |q.cells| ==>
                             q.cells[i] == if i < |r.cells| then r.cells[i] else BlankOf(pen)
  {
    hide Rolled, Cells;
    RowStart(g, r);
    TextInOnePiece(g, r, pen, s);
    RolledConcat(g, r, pen, s, [CR, LF]);
    var q := Rolled(g, r, pen, s);
    EndOfLine(g, q, pen, r.pos, |s|);
  }

  lemma EndOfLine(g: Geometry, q: Roll, pen: Pen, start: int, n: nat)
    requires ValidRoll(g, q) && start % g.width == 0 && n < g.width && q.pos == start + n
    ensures var v := Rolled(g, q, pen, [CR, LF]);
            && ValidRoll(g, v) && v.pos == start + g.width && q.cells <= v.cells
            && forall i :: |q.cells| <= i < |v.cells| ==> v.cells[i] == BlankOf(pen)
  {
    hide BlankOf;
    assert start == (start / g.width) * g.width;
    DivModUnique(q.pos, g.width, start / g.width, n);
    RowStart(g, q);
    var u := q.(pos := start);
    assert FedOn(g, Struck(g, q, pen, CR), pen) == u;
    DivModUnique(start, g.width, start / g.width, 0);
    RollKeeps(g, u, pen, LF);
    RolledTwo(g, q, pen, CR, LF);
  }

  lemma RolledTwo(g: Geometry, r: Roll, pen: Pen, a: int, b: int)
    requires g.width >= 1
    ensures Rolled(g, r, pen, [a, b]) == FedOn(g, Struck(g, FedOn(g, Struck(g, r, pen, a), pen), pen, b), pen)
  {
    hide Struck, FedOn;
    assert [a, b][1..] == [b];
    var q := FedOn(g, Struck(g, r, pen, a), pen);
    assert Rolled(g, q, pen, [b]) == Rolled(g, FedOn(g, Struck(g, q, pen, b), pen), pen, [b][1..]);
  }

  lemma {:induction false} RolledConcat(g: Geometry, r: Roll, pen: Pen, s: seq<int>, t: seq<int>)
    requires g.width >= 1
    ensures Rolled(g, r, pen, s + t) == Rolled(g, Rolled(g, r, pen, s), pen, t)
    decreases |s|
  {
    hide Struck, FedOn;
    if s == [] {
      assert s + t == t;
    } else {
      assert (s + t)[1..] == s[1..] + t;
      RolledConcat(g, FedOn(g, Struck(g, r, pen, s[0]), pen), pen, s[1..], t);
    }
  }
}
