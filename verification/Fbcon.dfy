/**
 The frame buffer console: a stored array of text cells and incremental drawing
 into the frame buffer.
 */
module Fbcon {
  import opened Words
  import opened Raster
  import opened Palette
  import opened Terminal
  import opened ScreenLayout

  // The bytes of a row of a transparent cell before its glyph is drawn.
  function Backdrop(st: Style, p: int): byte {
    if 0 <= p < |st.picture| then st.picture[p] else 0
  }

  // Black everywhere, including the margins
  method Blacken(fb: array<byte>)
    modifies fb
    ensures forall p :: 0 <= p < fb.Length ==> fb[p] == 0
  {
    for p := 0 to fb.Length
      invariant forall q :: 0 <= q < p ==> fb[q] == 0
    {
      fb[p] := 0;
    }
  }

  // The background picture, if there is one, over a black screen
  method CopyPicture(fb: array<byte>, st: Style)
    requires st.picture == [] || |st.picture| == fb.Length
    requires forall p :: 0 <= p < fb.Length ==> fb[p] == 0
    modifies fb
    ensures forall p :: 0 <= p < fb.Length ==> fb[p] == Backdrop(st, p)
  {
    if st.picture != [] {
      for p := 0 to fb.Length
        invariant forall q :: 0 <= q < p ==> fb[q] == st.picture[q]
      {
        fb[p] := st.picture[p];
      }
    }
  }

  class Fbcon {
    const g: Geometry
    const st: Style
    const fb: array<byte>
    const text: array<Cell>
    const ctx: AnsiEsc.Context
    const cm: ColourMap
    var xpos: int
    var ypos: int
    var foreground: bv32
    var background: bv32
    var bold: bv32
    var showCursor: bool
    ghost var drawn: Cell

    // fbcon_init(), once the geometry is known and the text array allocated, up
    // to the blackening of the whole screen
    constructor (g: Geometry, st: Style, fb: array<byte>, text: array<Cell>, cm: ColourMap)
      requires ValidGeometry(g) && ValidStyle(g, st) && fb.Length >= Extent(g)
      requires text.Length == g.width * g.height
      modifies fb, text
      ensures this.g == g && this.st == st && this.fb == fb && this.text == text && this.cm == cm
      ensures Valid() && fresh(ctx) && fresh(ctx.params) && showCursor && xpos == 0 && ypos == 0
      ensures text[..] == Blanks(DefaultPen(cm), text.Length) && drawn == BlankOf(DefaultPen(cm))
      ensures forall p :: 0 <= p < fb.Length ==> fb[p] == 0
    {
      this.g, this.st, this.fb, this.text, this.cm := g, st, fb, text, cm;
      xpos, ypos, showCursor := 0, 0, true;
      foreground, background, bold := AnsiColour(cm, 7), TRANSPARENT, 0;
      drawn := BlankOf(DefaultPen(cm));
      ctx := new AnsiEsc.Context();
      hide ValidGeometry, ValidStyle, Extent, AnsiColour;
      new;
      TextSize(g);
      Clear(0);
      Blacken(fb);
      assert text[..] == Blanks(DefaultPen(cm), text.Length);
    }

    // fbcon_init(), the background picture over the black screen
    method DrawPicture()
      requires Valid() && (st.picture == [] || |st.picture| == fb.Length)
      requires text[..] == Blanks(DefaultPen(cm), text.Length) && drawn == BlankOf(DefaultPen(cm))
      requires xpos == 0 && ypos == 0
      requires forall p :: 0 <= p < fb.Length ==> fb[p] == 0
      modifies fb
      ensures forall p :: 0 <= p < fb.Length ==> fb[p] == Backdrop(st, p)
      ensures (forall row :: 0 <= row < g.fontHeight ==> st.glyph(SPACE)[row] == 0) ==> Looks(View(g, State()))
    {
      CopyPicture(fb, st);
      assert View(g, State()) == text[..];
      if forall row :: 0 <= row < g.fontHeight ==> st.glyph(SPACE)[row] == 0 {
        forall p | 0 <= p < fb.Length && InArea(g, p)
          ensures fb[p] == Expected(g, st, text[..], p)
        {
          BlankScreen(g, st, text[..], DefaultPen(cm), p);
        }
      }
    }

    ghost predicate Machine() {
      && ValidGeometry(g) && ValidStyle(g, st) && fb.Length >= Extent(g)
      && text.Length == g.width * g.height
    }

    // copy_to_user() of a colour, for one pixel
    method PutPixel(offset: int, colour: bv32)
      requires Machine() && 0 <= offset && offset + g.len <= fb.Length
      modifies fb
      ensures forall p :: offset <= p < offset + g.len ==> fb[p] == ColourByte(colour, p - offset)
      ensures forall p :: 0 <= p < fb.Length && !(offset <= p < offset + g.len) ==> fb[p] == old(fb[p])
    {
      for k := 0 to g.len
        invariant forall p :: offset <= p < offset + k ==> fb[p] == ColourByte(colour, p - offset)
        invariant forall p :: 0 <= p < fb.Length && !(offset <= p < offset + k) ==> fb[p] == old(fb[p])
      {
        fb[offset + k] := ColourByte(colour, k);
      }
    }

    // Draw the background picture, or black, behind one pixel row of a cell.
    method PutBackdrop(offset: int)
      requires Machine() && 0 <= offset && offset + CellLen(g) <= Extent(g)
      modifies fb
      ensures forall p :: offset <= p < offset + CellLen(g) ==> fb[p] == Backdrop(st, p)
      ensures forall p :: 0 <= p < fb.Length && !(offset <= p < offset + CellLen(g)) ==> fb[p] == old(fb[p])
    {
      for k := 0 to CellLen(g)
        invariant forall p :: offset <= p < offset + k ==> fb[p] == Backdrop(st, p)
        invariant forall p :: 0 <= p < fb.Length && !(offset <= p < offset + k) ==> fb[p] == old(fb[p])
      {
        fb[offset + k] := if st.picture != [] then st.picture[offset + k] else 0;
      }
    }

    // One pixel of a cell, over its backdrop if the cell is transparent
    method DrawPixel(cell: Cell, row: int, column: int, start: int, offset: int, bitmask: bv8)
      requires Machine() && 0 <= row < g.fontHeight && 0 <= column < CHAR_WIDTH
      requires 0 <= start && start + CellLen(g) <= Extent(g) && offset == start + column * g.len
      requires bitmask == Shifted(st.glyph(cell.character)[row], column)
      requires offset + g.len <= start + CellLen(g)
      requires cell.background == TRANSPARENT ==> forall p :: offset <= p < offset + g.len ==> fb[p] == Backdrop(st, p)
      modifies fb
      ensures forall p :: offset <= p < offset + g.len ==> fb[p] == CellByte(g, st, cell, row, p - start, p)
      ensures forall p :: 0 <= p < fb.Length && !(offset <= p < offset + g.len) ==> fb[p] == old(fb[p])
    {
      hide CellByte, Shifted;
      if bitmask & 0x80 != 0 {
        PutPixel(offset, cell.foreground);
      } else if cell.background != TRANSPARENT {
        PutPixel(offset, cell.background);
      }
      forall p | offset <= p < offset + g.len
        ensures fb[p] == CellByte(g, st, cell, row, p - start, p)
      {
        PixelByte(g, st, cell, row, column, start, p);
      }
    }

    // One pixel row of fbcon_draw()
    method DrawRow(cell: Cell, row: int, start: int)
      requires Machine() && 0 <= row < g.fontHeight
      requires 0 <= start && start + CellLen(g) <= Extent(g)
      modifies fb
      ensures forall p :: start <= p < start + CellLen(g) ==> fb[p] == CellByte(g, st, cell, row, p - start, p)
      ensures forall p :: 0 <= p < fb.Length && !(start <= p < start + CellLen(g)) ==> fb[p] == old(fb[p])
    {
      hide CellByte, Backdrop;
      var transparent := cell.background == TRANSPARENT;
      if transparent {
        PutBackdrop(start);
      }
      var bitmask := st.glyph(cell.character)[row];
      var offset, column := start, 0;
      while column < CHAR_WIDTH
        invariant 0 <= column <= CHAR_WIDTH && offset == start + column * g.len
        invariant bitmask == Shifted(st.glyph(cell.character)[row], column)
        invariant forall p :: start <= p < offset ==> fb[p] == CellByte(g, st, cell, row, p - start, p)
        invariant transparent ==> forall p :: offset <= p < start + CellLen(g) ==> fb[p] == Backdrop(st, p)
        invariant forall p :: 0 <= p < fb.Length && !(start <= p < start + CellLen(g)) ==> fb[p] == old(fb[p])
      {
        NextPixel(g, column);
        DrawPixel(cell, row, column, start, offset, bitmask);
        bitmask := bitmask << 1;
        offset := offset + g.len;
        column := column + 1;
      }
    }

    // fbcon_draw()
    method Draw(cell: Cell, x: int, y: int)
      requires Machine() && 0 <= x < g.width && 0 <= y < g.height
      modifies fb
      ensures forall p :: 0 <= p < fb.Length && OnCell(g, p, x, y) ==> fb[p] == Want(g, st, cell, p)
      ensures forall p :: 0 <= p < fb.Length && !OnCell(g, p, x, y) ==> fb[p] == old(fb[p])
    {
      hide OnCell, Want, CellByte, Offset;
      var offset := Start(g, x, y);
      var row := 0;
      while row < g.fontHeight
        invariant 0 <= row <= g.fontHeight && offset == Offset(g, Place(x, y, row, 0))
        invariant forall p :: 0 <= p < fb.Length && AboveRow(g, p, x, y, row) ==> fb[p] == Want(g, st, cell, p)
        invariant forall p :: 0 <= p < fb.Length && !AboveRow(g, p, x, y, row) ==> fb[p] == old(fb[p])
      {
        RowOfCell(g, x, y, row);
        label before:
        DrawRow(cell, row, offset);
        forall p | 0 <= p < fb.Length
          ensures AboveRow(g, p, x, y, row + 1) ==> fb[p] == Want(g, st, cell, p)
          ensures !AboveRow(g, p, x, y, row + 1) ==> fb[p] == old(fb[p])
        {
          if RowOf(g, p, x, y, row) { RowWant(g, st, cell, x, y, row, p); }
        }
        offset := offset + g.stride;
        row := row + 1;
      }
      AllRows(g, x, y);
    }

    // ---- The whole screen -------------------------------------------------

    // The text, the cursor and the colours.
    ghost function State(): Console
      reads this, text, ctx, ctx.params
    {
      Console(Term(text[..], xpos, ypos), Pen(foreground, background, bold), ctx.Abs(), showCursor, drawn)
    }

    ghost predicate Valid()
      reads this, text, ctx, ctx.params
    {
      Machine() && ValidConsole(g, State()) && ctx.params as object != fb && ctx.params as object != text
    }

    // The character area is a full drawing of these cells.
    ghost predicate Looks(cells: seq<Cell>)
      reads fb
    {
      forall p :: 0 <= p < fb.Length && InArea(g, p) ==> fb[p] == Expected(g, st, cells, p)
    }

    // The frame buffer outside the character area is as it was.
    twostate predicate Framed()
      reads fb
    {
      forall p :: 0 <= p < fb.Length && !InArea(g, p) ==> fb[p] == old(fb[p])
    }

    // Drawing one cell changes exactly that cell of what is shown.
    method DrawOver(ghost cells: seq<Cell>, cell: Cell, x: int, y: int)
      requires Machine() && 0 <= x < g.width && 0 <= y < g.height
      requires |cells| == g.width * g.height && Looks(cells)
      modifies fb
      ensures 0 <= y * g.width + x < |cells| && Looks(cells[y * g.width + x := cell]) && Framed()
    {
      hide InArea, Expected, OnCell, Want;
      IndexInText(g, x, y);
      CellFacts(g, st, cells, cell, x, y);
      Draw(cell, x, y);
    }

    // fbcon_redraw()
    method Redraw()
      requires Machine()
      modifies fb
      ensures Looks(text[..]) && Framed()
    {
      hide InArea, Expected, OnCell, Index, Want;
      var i, y := 0, 0;
      AreaIndexed(g);
      while y < g.height
        invariant 0 <= y <= g.height && i == y * g.width
        invariant forall p :: 0 <= p < fb.Length && InArea(g, p) && Index(g, p) < i ==>
                    fb[p] == Expected(g, st, text[..], p)
        invariant Framed()
      {
        var x := 0;
        while x < g.width
          invariant 0 <= x <= g.width && i == y * g.width + x
          invariant forall p :: 0 <= p < fb.Length && InArea(g, p) && Index(g, p) < i ==>
                      fb[p] == Expected(g, st, text[..], p)
          invariant Framed()
        {
          IndexInText(g, x, y);
          CellFacts(g, st, text[..], text[i], x, y);
          assert text[..][i := text[i]] == text[..];
          Draw(text[i], x, y);
          i := i + 1;
          x := x + 1;
        }
        Distribute(y, 1, g.width);
        y := y + 1;
      }
    }

    // fbcon_clear()
    method Clear(from: int)
      requires Machine() && 0 <= from <= g.height
      modifies text
      ensures 0 <= from * g.width <= text.Length
      ensures text[..] == Cleared(g, old(text[..]), from, Pen(foreground, background, bold))
    {
      var cell := Cell(foreground, background, SPACE);
      var y := from;
      ghost var first, end := from * g.width, from * g.width;
      MulMono(0, from, g.width);
      MulMono(from, g.height, g.width);
      while y < g.height
        invariant from <= y <= g.height && end == y * g.width && 0 <= first <= end <= text.Length
        invariant forall j :: 0 <= j < first ==> text[j] == old(text[j])
        invariant forall j :: first <= j < end ==> text[j] == cell
      {
        Distribute(y, 1, g.width);
        MulMono(y + 1, g.height, g.width);
        ClearRow(y * g.width, cell);
        end := end + g.width;
        y := y + 1;
      }
    }

    // One row of that
    method ClearRow(start: int, cell: Cell)
      requires 0 <= start && 0 <= g.width && start + g.width <= text.Length
      modifies text
      ensures forall j :: start <= j < start + g.width ==> text[j] == cell
      ensures forall j :: 0 <= j < text.Length && !(start <= j < start + g.width) ==> text[j] == old(text[j])
    {
      var offset, x := start, 0;
      while x < g.width
        invariant 0 <= x <= g.width && offset == start + x
        invariant forall j :: start <= j < offset ==> text[j] == cell
        invariant forall j :: 0 <= j < text.Length && !(start <= j < offset) ==> text[j] == old(text[j])
      {
        text[offset] := cell;
        offset := offset + 1;
        x := x + 1;
      }
    }

    // fbcon_scroll()
    method Scroll()
      requires Machine() && ypos == g.height
      modifies this`ypos, text, fb
      ensures g.width <= text.Length && ypos == old(ypos) - 1
      ensures text[..] == ScrolledUp(g, old(text[..]), Pen(foreground, background, bold))
      ensures Looks(text[..]) && Framed()
    {
      ScrollText();
      ypos := ypos - 1;
      Redraw();
    }

    method ScrollText()
      requires Machine()
      modifies text
      ensures g.width <= text.Length
      ensures text[..] == ScrolledUp(g, old(text[..]), Pen(foreground, background, bold))
    {
      hide Cleared, ScrolledUp;
      MoveUp();
      ScrollSteps(g, old(text[..]), text[..], Pen(foreground, background, bold));
      Clear(g.height - 1);
    }

    method MoveUp()
      requires Machine()
      modifies text
      ensures 0 <= (g.height - 1) * g.width <= text.Length && g.width <= text.Length
      ensures text[..(g.height - 1) * g.width] == old(text[..])[g.width..]
    {
      MulMono(1, g.height, g.width);
      Distribute(g.height - 1, 1, g.width);
      var kept := (g.height - 1) * g.width;
      assert kept + g.width == text.Length;
      forall i | 0 <= i < kept {
        text[i] := text[i + g.width];
      }
    }

    // fbcon_draw_cursor()
    method DrawCursor(show: bool)
      requires Valid() && Looks(View(g, State()))
      modifies this`drawn, fb
      ensures Valid() && Looks(View(g, State())) && Framed() && (!show ==> Looks(text[..]))
      ensures State() ==
              old(State()).(drawn := CursorCell(Pen(foreground, background, bold), show, Under(g, old(State().term))))
    {
      hide Looks, View;
      WidthFits(g, State().term);
      ghost var k := State();
      var cell := text[ypos * g.width + xpos];
      if show {
        cell := Cell(if background == TRANSPARENT then 0 else background, foreground, cell.character);
      }
      DrawnOver(g, k, cell);
      DrawOver(View(g, k), cell, xpos, ypos);
      drawn := cell;
      assert State() == k.(drawn := cell);
    }

    // Move the cursor, or change the text, when no cursor is drawn.
    ghost method Undrawn()
      requires Valid() && Looks(text[..])
      modifies this`drawn
      ensures Valid() && Looks(View(g, State()))
      ensures State() == old(State()).(drawn := Under(g, old(State().term)))
    {
      hide Looks, View;
      DrawnOver(g, State(), drawn);
      drawn := Under(g, State().term);
    }

    // fbcon_handle_cup()
    method HandleCup(params: seq<int>)
      requires Valid() && Looks(View(g, State())) && |params| >= 2
      modifies this, fb
      ensures Valid() && Looks(View(g, State())) && Framed()
      ensures State() == WithCursor(g, old(State()).(term := MoveTo(g, old(State().term), params[0], params[1])))
    {
      hide Looks, View, Under, CursorCell;
      DrawCursor(false);
      xpos := (params[1] - 1) % 0x1_0000_0000;
      if xpos >= g.width {
        xpos := 0;
      }
      ypos := (params[0] - 1) % 0x1_0000_0000;
      if ypos >= g.height {
        ypos := 0;
      }
      Undrawn();
      DrawCursor(showCursor);
    }

    // fbcon_handle_ed()
    method HandleEd()
      requires Valid() && Looks(View(g, State()))
      modifies this, text, fb
      ensures Valid() && Looks(View(g, State())) && Framed()
      ensures State() == WithCursor(g, old(State()).(term := Erased(g, old(State().term), old(State().pen))))
    {
      hide Looks, View, Under, CursorCell;
      Clear(0);
      assert text[..] == Blanks(State().pen, text.Length);
      Redraw();
      xpos, ypos := 0, 0;
      Undrawn();
      DrawCursor(showCursor);
    }

    // fbcon_handle_dectcem_set() and fbcon_handle_dectcem_reset()
    method HandleCursor(on: bool)
      requires Valid() && Looks(View(g, State()))
      modifies this, fb
      ensures Valid() && Looks(View(g, State())) && Framed()
      ensures State() == WithCursor(g, old(State()).(show := on))
    {
      hide Looks, View, Under, CursorCell;
      assert View(g, State()) == View(g, State().(show := on)) by { SameView(g, State(), State().(show := on)); }
      showCursor := on;
      DrawCursor(on);
    }

    // fbcon_handle_sgr()
    method HandleSgr(count: int, params: seq<int>)
      requires Valid() && Looks(View(g, State())) && 0 <= count <= |params|
      modifies this`foreground, this`background, this`bold
      ensures Valid() && Looks(View(g, State()))
      ensures State() == old(State()).(pen := Rendered(cm, old(State().pen), params[..count], 0))
    {
      hide Looks, View, Rendered, AnsiColour, Raw, Packed;
      ghost var aspects, k := params[..count], State();
      var i := 0;
      while i < count
        invariant 0 <= i <= count + 1 && State() == k.(pen := State().pen)
        invariant Rendered(cm, State().pen, aspects, i) == Rendered(cm, k.pen, aspects, 0)
      {
        RenderedStep(cm, State().pen, aspects, i);
        if IsCustom(params[i]) {
          var rgb, end := GatherColour(params, i, count);
          if params[i] == 38 {
            foreground := Raw(cm, rgb);
          } else {
            background := Raw(cm, rgb);
          }
          i := end + 1;
        } else {
          SetAspect(params[i]);
          i := i + 1;
        }
      }
      RenderedEnd(cm, State().pen, aspects, i);
      SameView(g, k, State());
    }

    // The parameters of a custom colour
    method GatherColour(params: seq<int>, from: int, count: int) returns (rgb: bv32, end: int)
      requires 0 <= from < count <= |params|
      ensures end == CustomEnd(params[..count], from) && rgb == Packed(0, params[..count], from, end)
    {
      hide Appended, Unsigned;
      rgb := 0;
      end := from;
      ghost var aspects := params[..count];
      while end < count && end < from + 5
        invariant from <= end <= CustomEnd(aspects, from)
        invariant var last := CustomEnd(aspects, from);
                  Packed(rgb, aspects, end, last) == Packed(0, aspects, from, last)
      {
        rgb := Appended(rgb, Unsigned(params[end]));
        end := end + 1;
      }
    }

    method SetAspect(a: int)
      requires !IsCustom(a)
      modifies this`foreground, this`background, this`bold
      ensures Pen(foreground, background, bold) == Aspect(cm, old(Pen(foreground, background, bold)), a)
    {
      hide AnsiColour, Raw;
      if a == 0 {
        foreground, bold := AnsiColour(cm, 7), 0;
        background := TRANSPARENT;
      } else if a == 1 {
        bold := Raw(cm, BOLD);
      } else if a == 22 {
        bold := 0;
      } else if 30 <= a <= 37 {
        foreground := AnsiColour(cm, a - 30);
      } else if a == 39 {
        foreground, bold := AnsiColour(cm, 7), 0;
      } else if 40 <= a <= 47 {
        background := AnsiColour(cm, a - 40);
      } else if a == 49 {
        background := TRANSPARENT;
      }
    }

    // Print a character at the cursor position.
    method Print(c: int)
      requires Valid() && Looks(View(g, State()))
      modifies text, fb
      ensures 0 <= Position(g, old(State().term)) < text.Length && Looks(text[..]) && Framed()
      ensures text[..] == old(text[..])[Position(g, old(State().term)) := Printed(old(State().pen), c)]
    {
      hide Looks, View;
      var cell := Cell(foreground | bold, background, c);
      ghost var k := State();
      DrawnOver(g, k, cell);
      WidthFits(g, k.term);
      text[ypos * g.width + xpos] := cell;
      DrawOver(View(g, k), cell, xpos, ypos);
    }

    // The effect of a character, before any scrolling
    method Advance(c: int)
      requires Valid() && Looks(View(g, State()))
      modifies this`xpos, this`ypos, this`drawn, text, fb
      ensures Looks(text[..]) && Framed()
      ensures Term(text[..], xpos, ypos) == Moved(g, old(State().term), old(State().pen), c)
    {
      hide Looks, View, Printed;
      if c == CR {
        DrawCursor(false);
        xpos := 0;
      } else if c == LF {
        DrawCursor(false);
        xpos := 0;
        ypos := ypos + 1;
      } else if c == BS {
        DrawCursor(false);
        if xpos > 0 {
          xpos := xpos - 1;
        } else if ypos > 0 {
          xpos := g.width - 1;
          ypos := ypos - 1;
        }
      } else {
        Print(c);
        xpos := xpos + 1;
        if xpos >= g.width {
          xpos := 0;
          ypos := ypos + 1;
        }
      }
    }

    method PutNormal(c: int)
      requires Valid() && Looks(View(g, State()))
      modifies this`xpos, this`ypos, this`drawn, text, fb
      ensures Valid() && Looks(View(g, State())) && Framed() && g.width <= |old(State().term.text)|
      ensures State() == WithCursor(g, old(State()).(term := PutChar(g, old(State().term), old(State().pen), c)))
    {
      hide Looks, View, Moved, Under, CursorCell, ScrolledUp;
      ghost var k := State();
      PutCharKeeps(g, k.term, k.pen, c);
      MovedRow(g, k.term, k.pen, c);
      Advance(c);
      if ypos >= g.height {
        Scroll();
      }
      assert Term(text[..], xpos, ypos) == PutChar(g, k.term, k.pen, c);
      Undrawn();
      DrawCursor(showCursor);
    }

    // fbcon_putchar(): whatever the character, the frame buffer goes on
    // showing exactly the text and the cursor.
    method Putchar(c: int)
      requires Valid() && Looks(View(g, State()))
      modifies this, text, fb, ctx, ctx.params
      ensures Valid() && Looks(View(g, State())) && Framed() && ctx.params == old(ctx.params)
      ensures State() == Typed(g, cm, old(State()), c)
    {
      hide Looks, View, WithCursor, PutChar, MoveTo, Erased;
      ghost var k := State();
      AnsiEsc.StepKeeps(k.esc, c);
      var event := ctx.Process(c);
      SameView(g, k, State());
      match event {
        case Swallowed =>
        case Normal(n) =>
          if n >= 0 {
            PutNormal(n);
          }
        case Call(code, count, params) =>
          if code == CUP {
            HandleCup(params);
          } else if code == ED {
            HandleEd();
          } else if code == SGR {
            HandleSgr(count, params);
          } else if code == CURSOR_ON {
            HandleCursor(true);
          } else if code == CURSOR_OFF {
            HandleCursor(false);
          }
      }
    }

    // Any sequence of characters
    method PutString(s: seq<int>)
      requires Valid() && Looks(View(g, State()))
      modifies this, text, fb, ctx, ctx.params
      ensures Valid() && Looks(View(g, State())) && Framed() && ctx.params == old(ctx.params)
      ensures State() == TypedAll(g, cm, old(State()), s)
    {
      hide Looks, View, Typed;
      var i := 0;
      while i < |s|
        invariant 0 <= i <= |s|
        invariant Valid() && Looks(View(g, State())) && Framed() && ctx.params == old(ctx.params)
        invariant State() == TypedAll(g, cm, old(State()), s[..i])
      {
        Putchar(s[i]);
        assert s[..i + 1][..i] == s[..i];
        i := i + 1;
      }
      assert s[..|s|] == s;
    }
  }

  // How one cell relates to the whole screen.
  lemma CellFacts(g: Geometry, st: Style, cells: seq<Cell>, cell: Cell, x: int, y: int)
    requires ValidGeometry(g) && |cells| == g.width * g.height && 0 <= x < g.width && 0 <= y < g.height
    ensures 0 <= y * g.width + x < |cells|
    ensures forall p :: OnCell(g, p, x, y) ==> InArea(g, p)
    ensures forall p :: InArea(g, p) ==> (OnCell(g, p, x, y) <==> Index(g, p) == y * g.width + x)
    ensures var after := cells[y * g.width + x := cell];
            && (forall p :: OnCell(g, p, x, y) ==> Expected(g, st, after, p) == Want(g, st, cell, p))
            && (forall p :: InArea(g, p) && !OnCell(g, p, x, y) ==> Expected(g, st, after, p) == Expected(g, st, cells, p))
  {
    IndexInText(g, x, y);
    forall p | InArea(g, p)
      ensures OnCell(g, p, x, y) <==> Index(g, p) == y * g.width + x
    {
      IndexOfCell(g, p, x, y);
    }
  }

  // A screen of blanks shows the backdrop.
  lemma BlankScreen(g: Geometry, st: Style, text: seq<Cell>, pen: Pen, p: int)
    requires ValidGeometry(g) && ValidStyle(g, st) && |text| == g.width * g.height && InArea(g, p)
    requires text == Blanks(pen, |text|) && pen.background == TRANSPARENT
    requires forall row :: 0 <= row < g.fontHeight ==> st.glyph(SPACE)[row] == 0
    ensures Expected(g, st, text, p) == Backdrop(st, p)
  {
    hide CellByte;
    IndexOfCell(g, p, 0, 0);
    BlankCell(g, st, BlankOf(pen), Locate(g, p).row, Locate(g, p).byte, p);
  }

  lemma AreaIndexed(g: Geometry)
    requires ValidGeometry(g)
    ensures forall p :: InArea(g, p) ==> 0 <= Index(g, p) < g.height * g.width
  {
    forall p | InArea(g, p)
      ensures 0 <= Index(g, p) < g.height * g.width
    {
      IndexOfCell(g, p, 0, 0);
    }
  }

  // The pixel rows of a cell that lie above the given one.
  ghost predicate AboveRow(g: Geometry, p: int, x: int, y: int, row: int) {
    OnCell(g, p, x, y) && Locate(g, p).row < row
  }

  function Start(g: Geometry, x: int, y: int): (offset: int)
    ensures offset == Offset(g, Place(x, y, 0, 0))
  {
    g.indent + y * (g.stride * g.fontHeight) + x * CellLen(g)
  }

  lemma AllRows(g: Geometry, x: int, y: int)
    ensures forall p :: OnCell(g, p, x, y) <==> AboveRow(g, p, x, y, g.fontHeight)
  {
  }

  lemma NextPixel(g: Geometry, column: int)
    requires ValidGeometry(g) && 0 <= column < CHAR_WIDTH
    ensures 0 <= column * g.len && column * g.len + g.len <= CellLen(g)
    ensures (column + 1) * g.len == column * g.len + g.len
  {
    Distribute(column, 1, g.len);
    MulMono(0, column, g.len);
    MulMono(column + 1, CHAR_WIDTH, g.len);
  }

  // The look of a byte of a pixel.
  lemma PixelByte(g: Geometry, st: Style, cell: Cell, row: int, column: int, start: int, p: int)
    requires ValidGeometry(g) && ValidStyle(g, st) && 0 <= row < g.fontHeight && 0 <= column < CHAR_WIDTH
    requires start + column * g.len <= p < start + column * g.len + g.len
    ensures CellByte(g, st, cell, row, p - start, p) ==
            if Lit(st.glyph(cell.character)[row], column) then
              ColourByte(cell.foreground, p - (start + column * g.len))
            else if cell.background != TRANSPARENT then
              ColourByte(cell.background, p - (start + column * g.len))
            else Backdrop(st, p)
  {
    MulMono(0, column, g.len);
    DivModUnique(p - start, g.len, column, p - (start + column * g.len));
  }

  /** A failure, a console that draws only on the screen, or one that would draw
      outside it, which the code does not notice */
  datatype Opened = Failed | Opened(console: Fbcon) | Astray

  // The layout is not refused.
  ghost predicate Usable(across: Axis, down: Axis) {
    ValidAxis(across) && ValidAxis(down) && Fit(across).Span? && Fit(down).Span?
  }

  // fbcon_init(): a screen with room for a character, and memory for the text
  // and for the background picture if there is one, becomes a console. Without
  // memory for the picture the screen is black.
  method Init(px: Pixels, across: Axis, down: Axis, st: Style, fb: array<byte>, cm: ColourMap,
              textMemory: bool, pictureMemory: bool) returns (r: Opened)
    requires ValidPixels(px) && ValidAxis(across) && ValidAxis(down)
    requires across.size == px.width && across.unit == CHAR_WIDTH && down.size == px.height
    requires forall c :: |st.glyph(c)| == down.unit
    requires fb.Length == px.height * px.stride && (st.picture == [] || |st.picture| == fb.Length)
    modifies fb
    ensures r.Failed? <==> !Usable(across, down) || !textMemory || (!pictureMemory && st.picture != [])
    ensures r.Opened? ==> Inside(across, Fit(across)) && Inside(down, Fit(down))
    ensures r.Astray? ==> !Inside(across, Fit(across)) || !Inside(down, Fit(down))
    ensures !Usable(across, down) || !textMemory ==> unchanged(fb)
    ensures Usable(across, down) && textMemory ==>
              forall p :: 0 <= p < fb.Length ==> fb[p] == if pictureMemory then Backdrop(st, p) else 0
    ensures r.Opened? ==> fresh(r.console) && r.console.fb == fb && r.console.Valid()
    ensures r.Opened? ==> r.console.g == Placed(px, down.unit, Fit(across), Fit(down))
    ensures r.Opened? ==> r.console.text[..] == Blanks(DefaultPen(cm), r.console.text.Length)
    ensures r.Opened? && (forall row :: 0 <= row < down.unit ==> st.glyph(SPACE)[row] == 0) ==>
              r.console.Looks(View(r.console.g, r.console.State()))
  {
    hide Fit, ValidGeometry, Extent, Inside, View, InArea, Expected;
    var x, y := Fit(across), Fit(down);
    if x.Unusable? || y.Unusable? {
      return Failed;
    }
    if !textMemory {
      return Failed;
    }
    InsideByMargins(across);
    InsideByMargins(down);
    if x.before > across.size || x.after > across.size || y.before > down.size || y.after > down.size {
      r := InitAstray(st, fb, pictureMemory);
      return;
    }
    var g := Placed(px, down.unit, x, y);
    PlacedFits(px, across, down, x, y);
    TextSize(g);
    var text := new Cell[g.width * g.height](_ => BlankOf(DefaultPen(cm)));
    var console := new Fbcon(g, st, fb, text, cm);
    if st.picture != [] && !pictureMemory {
      return Failed;
    }
    console.DrawPicture();
    return Opened(console);
  }

  // The same for a layout outside the screen, as far as the screen goes
  method InitAstray(st: Style, fb: array<byte>, pictureMemory: bool) returns (r: Opened)
    requires st.picture == [] || |st.picture| == fb.Length
    modifies fb
    ensures r == if pictureMemory || st.picture == [] then Astray else Failed
    ensures forall p :: 0 <= p < fb.Length ==> fb[p] == if pictureMemory then Backdrop(st, p) else 0
  {
    Blacken(fb);
    if st.picture != [] && !pictureMemory {
      return Failed;
    }
    CopyPicture(fb, st);
    return Astray;
  }

  lemma TextSize(g: Geometry)
    requires ValidGeometry(g)
    ensures g.width * g.height >= 1 && g.width >= 1 && g.height >= 1
  {
    MulMono(1, g.height, g.width);
  }
}
