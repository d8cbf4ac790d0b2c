/**
 Geometry of the frame buffer console: which byte of the frame buffer belongs
 to which character cell, and what a drawn cell looks like.
 */
module Raster {
  import opened Words

  // FBCON_CHAR_WIDTH, in pixels
  const CHAR_WIDTH := 9

  // FBCON_TRANSPARENT
  const TRANSPARENT: bv32 := 0xffff_ffff

  /** Bytes per pixel, bytes per pixel row, font height, offset of the first
      character, and the size of the screen in characters. */
  datatype Geometry = Geometry(len: int, stride: int, fontHeight: int, indent: int, width: int, height: int)

  function CellLen(g: Geometry): int {
    g.len * CHAR_WIDTH
  }

  ghost predicate ValidGeometry(g: Geometry) {
    && 1 <= g.len <= 4 && g.fontHeight >= 1 && g.indent >= 0 && g.width >= 1 && g.height >= 1
    && g.width * CellLen(g) <= g.stride
  }

  // The number of bytes the character area needs from the start of the buffer.
  function Extent(g: Geometry): int {
    g.indent + (g.height * g.fontHeight - 1) * g.stride + g.width * CellLen(g)
  }

  /** A byte of a cell: the cell's column and row, and the pixel row and byte
      within the cell. */
  datatype Place = Place(x: int, y: int, row: int, byte: int)

  ghost predicate InGrid(g: Geometry, q: Place) {
    0 <= q.x < g.width && 0 <= q.y < g.height && 0 <= q.row < g.fontHeight && 0 <= q.byte < CellLen(g)
  }

  // Where fbcon_draw() puts a byte.
  function Offset(g: Geometry, q: Place): int {
    g.indent + q.y * (g.stride * g.fontHeight) + q.x * CellLen(g) + q.row * g.stride + q.byte
  }

  // The place of a byte of the frame buffer, if it has one.
  function Locate(g: Geometry, p: int): Place
    requires g.stride > 0 && g.fontHeight > 0 && CellLen(g) > 0
  {
    var line, column := (p - g.indent) / g.stride, (p - g.indent) % g.stride;
    Place(column / CellLen(g), line / g.fontHeight, line % g.fontHeight, column % CellLen(g))
  }

  lemma Positive(g: Geometry)
    requires ValidGeometry(g)
    ensures g.stride > 0 && g.fontHeight > 0 && CellLen(g) > 0
  {
    MulMono(1, g.width, CellLen(g));
  }

  // A byte belongs to at most one cell, and Locate finds it.
  lemma LocateOffset(g: Geometry, q: Place)
    requires ValidGeometry(g) && InGrid(g, q)
    ensures g.stride > 0 && g.fontHeight > 0 && CellLen(g) > 0
    ensures Locate(g, Offset(g, q)) == q
  {
    Positive(g);
    var line, column := q.y * g.fontHeight + q.row, q.x * CellLen(g) + q.byte;
    ColumnInStride(g, q);
    OffsetLines(g, q);
    DivModUnique(line * g.stride + column, g.stride, line, column);
    DivModUnique(line, g.fontHeight, q.y, q.row);
    DivModUnique(column, CellLen(g), q.x, q.byte);
  }

  lemma ColumnInStride(g: Geometry, q: Place)
    requires ValidGeometry(g) && InGrid(g, q)
    ensures 0 <= q.x * CellLen(g) + q.byte < g.width * CellLen(g) <= g.stride
  {
    Positive(g);
    MulMono(q.x + 1, g.width, CellLen(g));
    MulMono(0, q.x, CellLen(g));
    Distribute(q.x, 1, CellLen(g));
  }

  lemma OffsetLines(g: Geometry, q: Place)
    ensures Offset(g, q) - g.indent == (q.y * g.fontHeight + q.row) * g.stride + (q.x * CellLen(g) + q.byte)
  {
    Distribute(q.y * g.fontHeight, q.row, g.stride);
    MulAssoc(q.y, g.fontHeight, g.stride);
    assert g.stride * g.fontHeight == g.fontHeight * g.stride;
  }

  lemma OffsetInBuffer(g: Geometry, q: Place)
    requires ValidGeometry(g) && InGrid(g, q)
    ensures g.indent <= Offset(g, q) < Extent(g)
  {
    Positive(g);
    var line := q.y * g.fontHeight + q.row;
    ColumnInStride(g, q);
    OffsetLines(g, q);
    MulMono(0, q.y, g.fontHeight);
    MulMono(q.y + 1, g.height, g.fontHeight);
    Distribute(q.y, 1, g.fontHeight);
    MulMono(0, line, g.stride);
    MulMono(line, g.height * g.fontHeight - 1, g.stride);
  }

  // The byte at p is part of the character area.
  ghost predicate InArea(g: Geometry, p: int) {
    && g.stride > 0 && g.fontHeight > 0 && CellLen(g) > 0
    && InGrid(g, Locate(g, p)) && Offset(g, Locate(g, p)) == p
  }

  // The bytes of one pixel row of a cell are contiguous.
  lemma RowRange(g: Geometry, x: int, y: int, row: int, p: int)
    requires ValidGeometry(g) && InGrid(g, Place(x, y, row, 0))
    ensures var start := Offset(g, Place(x, y, row, 0));
            start <= p < start + CellLen(g) <==> InArea(g, p) && Locate(g, p) == Place(x, y, row, p - start)
  {
    var start := Offset(g, Place(x, y, row, 0));
    Positive(g);
    if start <= p < start + CellLen(g) {
      LocateOffset(g, Place(x, y, row, p - start));
      assert Offset(g, Place(x, y, row, p - start)) == p;
    }
  }

  // ---- What a cell looks like ---------------------------------------------

  datatype Cell = Cell(foreground: bv32, background: bv32, character: int)

  /** Everything a drawing depends on besides the cell. */
  datatype Style = Style(glyph: int -> seq<bv8>, picture: seq<byte>)

  ghost predicate ValidStyle(g: Geometry, st: Style) {
    && (forall c :: |st.glyph(c)| == g.fontHeight)
    && (st.picture == [] || |st.picture| >= Extent(g))
  }

  // A bit mask after n left shifts by one.
  function Shifted(mask: bv8, n: nat): bv8 {
    if n == 0 then mask else Shifted(mask, n - 1) << 1
  }

  predicate Lit(mask: bv8, column: nat) {
    Shifted(mask, column) & 0x80 != 0
  }

  // Byte k of a raw colour in memory, which is little-endian.
  function ColourByte(colour: bv32, k: int): byte
    requires 0 <= k < 4
  {
    if k == 0 then (colour & 0xff) as int
    else if k == 1 then ((colour >> 8) & 0xff) as int
    else if k == 2 then ((colour >> 16) & 0xff) as int
    else ((colour >> 24) & 0xff) as int
  }

  // The byte at offset p, when it is byte b of pixel row `row` of this cell.
  function CellByte(g: Geometry, st: Style, cell: Cell, row: int, b: int, p: int): byte {
    if !(1 <= g.len <= 4) || b < 0 || !(0 <= row < |st.glyph(cell.character)|) then 0
    else if Lit(st.glyph(cell.character)[row], b / g.len) then ColourByte(cell.foreground, b % g.len)
    else if cell.background != TRANSPARENT then ColourByte(cell.background, b % g.len)
    else if 0 <= p < |st.picture| then st.picture[p]
    else 0
  }

  lemma {:induction false} ShiftedZero(n: nat)
    ensures Shifted(0, n) == 0
  {
    if n > 0 { ShiftedZero(n - 1); }
  }

  // A blank glyph on a transparent background shows the picture, or black.
  lemma BlankCell(g: Geometry, st: Style, cell: Cell, row: int, b: int, p: int)
    requires 1 <= g.len <= 4 && 0 <= row < |st.glyph(cell.character)| && b >= 0
    requires st.glyph(cell.character)[row] == 0 && cell.background == TRANSPARENT
    ensures CellByte(g, st, cell, row, b, p) == if 0 <= p < |st.picture| then st.picture[p] else 0
  {
    ShiftedZero(b / g.len);
  }

  // The glyph's bits are read from the most significant down; the ninth column
  // of a cell is never lit.
  lemma LitIs(mask: bv8, column: nat)
    requires column < CHAR_WIDTH
    ensures Lit(mask, column) <==> column < 8 && mask & (0x80 >> column) != 0
  {
    EightShifts(mask);
  }

  lemma EightShifts(mask: bv8)
    ensures Shifted(mask, 0) == mask && Shifted(mask, 1) == mask << 1 && Shifted(mask, 2) == mask << 2
    ensures Shifted(mask, 3) == mask << 3 && Shifted(mask, 4) == mask << 4 && Shifted(mask, 5) == mask << 5
    ensures Shifted(mask, 6) == mask << 6 && Shifted(mask, 7) == mask << 7 && Shifted(mask, 8) == 0
  {
    assert Shifted(mask, 4) == Shifted(mask, 3) << 1;
    assert Shifted(mask, 6) == Shifted(mask, 5) << 1;
    assert Shifted(mask, 8) == Shifted(mask, 7) << 1;
  }

  // A pixel has the cell's ink where the glyph has a bit, and otherwise the
  // cell's ground, through which a transparent cell shows the picture.
  lemma PixelShows(g: Geometry, st: Style, cell: Cell, row: int, column: int, k: int, p: int)
    requires 1 <= g.len <= 4 && 0 <= row < |st.glyph(cell.character)| && 0 <= column < CHAR_WIDTH && 0 <= k < g.len
    ensures CellByte(g, st, cell, row, column * g.len + k, p) ==
            if column < 8 && st.glyph(cell.character)[row] & (0x80 >> column) != 0 then ColourByte(cell.foreground, k)
            else if cell.background != 0xffff_ffff then ColourByte(cell.background, k)
            else if 0 <= p < |st.picture| then st.picture[p]
            else 0
  {
    hide Lit, ColourByte;
    DivModUnique(column * g.len + k, g.len, column, k);
    MulMono(0, column, g.len);
    LitIs(st.glyph(cell.character)[row], column);
  }

  // A colour made of four bytes is in memory as those bytes, the lowest first.
  lemma ColourBytes(a: bv8, b: bv8, c: bv8, d: bv8)
    ensures var colour := ((d as bv32) << 24) | ((c as bv32) << 16) | ((b as bv32) << 8) | (a as bv32);
            && ColourByte(colour, 0) == a as int && ColourByte(colour, 1) == b as int
            && ColourByte(colour, 2) == c as int && ColourByte(colour, 3) == d as int
  {
    var colour := ((d as bv32) << 24) | ((c as bv32) << 16) | ((b as bv32) << 8) | (a as bv32);
    assert colour & 0xff == a as bv32 && (colour >> 8) & 0xff == b as bv32;
    assert (colour >> 16) & 0xff == c as bv32 && (colour >> 24) & 0xff == d as bv32;
  }

  // ---- Cells of the screen ------------------------------------------------

  // The byte at p belongs to the cell in column x of row y.
  ghost predicate OnCell(g: Geometry, p: int, x: int, y: int) {
    InArea(g, p) && Locate(g, p).x == x && Locate(g, p).y == y
  }

  // The cell of the text array that the byte at p shows.
  function Index(g: Geometry, p: int): int {
    if g.stride > 0 && g.fontHeight > 0 && CellLen(g) > 0
    then Locate(g, p).y * g.width + Locate(g, p).x else -1
  }

  // The byte at p, when its cell shows `cell`.
  function Want(g: Geometry, st: Style, cell: Cell, p: int): byte {
    if g.stride > 0 && g.fontHeight > 0 && CellLen(g) > 0
    then CellByte(g, st, cell, Locate(g, p).row, Locate(g, p).byte, p) else 0
  }

  // The byte at p after drawing all of the text.
  function Expected(g: Geometry, st: Style, text: seq<Cell>, p: int): byte {
    if 0 <= Index(g, p) < |text| then Want(g, st, text[Index(g, p)], p) else 0
  }

  lemma IndexOfCell(g: Geometry, p: int, x: int, y: int)
    requires ValidGeometry(g) && InArea(g, p) && 0 <= x < g.width && 0 <= y < g.height
    ensures OnCell(g, p, x, y) <==> Index(g, p) == y * g.width + x
    ensures 0 <= Index(g, p) < g.width * g.height
  {
    var q := Locate(g, p);
    DivModUnique(q.y * g.width + q.x, g.width, q.y, q.x);
    DivModUnique(y * g.width + x, g.width, y, x);
    IndexInText(g, q.x, q.y);
  }

  lemma IndexInText(g: Geometry, x: int, y: int)
    requires 0 <= x < g.width && 0 <= y < g.height
    ensures 0 <= y * g.width + x < g.width * g.height
  {
    MulMono(0, y, g.width);
    MulMono(y + 1, g.height, g.width);
    Distribute(y, 1, g.width);
  }

  // One pixel row of a cell as a range of the frame buffer.
  lemma RowOfCell(g: Geometry, x: int, y: int, row: int)
    requires ValidGeometry(g) && InGrid(g, Place(x, y, row, 0))
    ensures var start := Offset(g, Place(x, y, row, 0));
            && 0 <= start && start + CellLen(g) <= Extent(g)
            && start + g.stride == Offset(g, Place(x, y, row + 1, 0))
            && forall p :: start <= p < start + CellLen(g) <==> RowOf(g, p, x, y, row)
  {
    var start := Offset(g, Place(x, y, row, 0));
    Positive(g);
    OffsetInBuffer(g, Place(x, y, row, 0));
    OffsetInBuffer(g, Place(x, y, row, CellLen(g) - 1));
    Distribute(row, 1, g.stride);
    forall p
      ensures start <= p < start + CellLen(g) <==> RowOf(g, p, x, y, row)
    {
      RowRange(g, x, y, row, p);
    }
  }

  ghost predicate RowOf(g: Geometry, p: int, x: int, y: int, row: int) {
    OnCell(g, p, x, y) && Locate(g, p).row == row
  }

  // Drawing a row puts there what its cell should look like.
  lemma RowWant(g: Geometry, st: Style, cell: Cell, x: int, y: int, row: int, p: int)
    requires ValidGeometry(g) && InGrid(g, Place(x, y, row, 0)) && RowOf(g, p, x, y, row)
    ensures CellByte(g, st, cell, row, p - Offset(g, Place(x, y, row, 0)), p) == Want(g, st, cell, p)
  {
    RowRange(g, x, y, row, p);
  }
}
