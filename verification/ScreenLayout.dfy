/**
 The placing of the character area on the screen: fbcon_init() in whole
 characters between the margins.  All of it is 32-bit unsigned arithmetic, and
 the space left is then read as a signed number.
 */
module ScreenLayout {
  import opened Words
  import opened Raster

  function Word(n: int): int {
    n % 0x1_0000_0000
  }

  function Signed(n: int): int {
    if Word(n) >= 0x8000_0000 then Word(n) - 0x1_0000_0000 else Word(n)
  }

  predicate IsWord(n: int) {
    0 <= n < 0x1_0000_0000
  }

  /** One direction of the screen: its size, the size asked for, the margins
      asked for on either side, and the size of a character. */
  datatype Axis = Axis(size: int, requested: int, before: int, after: int, unit: int)

  /** The characters that fit and the margins around them. */
  datatype Span = Unusable | Span(count: int, before: int, after: int)

  ghost predicate ValidAxis(a: Axis) {
    0 < a.unit && 0 <= a.size < 0x8000_0000 && IsWord(a.requested) && IsWord(a.before) && IsWord(a.after)
  }

  // A size that is positive as a signed integer, and margins that are well below
  ghost predicate Moderate(a: Axis) {
    ValidAxis(a) && a.requested < 0x8000_0000 && a.before < 0x4000_0000 && a.after < 0x4000_0000
  }

  // A margin: relative to the size asked for, or none at all.
  function Margin(margin: int, gap: int): int {
    Word(margin + (if margin != 0 then gap else 0))
  }

  function Before(a: Axis): int {
    Margin(a.before, Word(a.size - a.requested) / 2)
  }

  function After(a: Axis): int {
    var gap := Word(a.size - a.requested);
    Margin(a.after, gap - gap / 2)
  }

  // The margins are then widened to leave whole characters.
  function Fit(a: Axis): Span
    requires a.unit > 0
  {
    var space := Signed(a.size - Before(a) - After(a));
    if space < a.unit then Unusable
    else
      var gap := space % a.unit;
      Span(space / a.unit, Word(Before(a) + gap / 2), Word(After(a) + (gap - gap / 2)))
  }

  // The characters and the margins together make up the screen.
  ghost predicate Inside(a: Axis, s: Span) {
    s.Span? && s.before >= 0 && s.after >= 0 && s.count >= 1 && s.before + s.count * a.unit + s.after == a.size
  }

  lemma WordIs(n: int, k: int)
    requires k * 0x1_0000_0000 <= n < (k + 1) * 0x1_0000_0000
    ensures Word(n) == n - k * 0x1_0000_0000
    ensures Signed(n) == (if Word(n) >= 0x8000_0000 then Word(n) - 0x1_0000_0000 else Word(n))
  {
  }

  lemma Whole(space: int, unit: int)
    requires 0 < unit <= space
    ensures space / unit >= 1 && space / unit * unit + space % unit == space && 0 <= space % unit < unit
  {
    if space / unit <= 0 {
      MulMono(space / unit, 0, unit);
    }
  }

  // Fit() in terms of the margins and the space between them.
  lemma FitIs(a: Axis, before: int, after: int, space: int)
    requires ValidAxis(a) && before == Before(a) && after == After(a) && space == Signed(a.size - before - after)
    requires 0 <= before && before + space / 2 < 0x1_0000_0000 && 0 <= after && after + space / 2 < 0x1_0000_0000
    ensures Fit(a).Unusable? <==> space < a.unit
    ensures Fit(a).Span? ==>
              && Fit(a).count >= 1 && 0 <= space - Fit(a).count * a.unit < a.unit
              && before <= Fit(a).before && after <= Fit(a).after
              && Fit(a).before + Fit(a).count * a.unit + Fit(a).after == before + space + after
              && 0 <= (Fit(a).after - after) - (Fit(a).before - before) <= 1
  {
    hide Before, After, Word, Signed;
    if space >= a.unit {
      Whole(space, a.unit);
      var gap := space % a.unit;
      WordIs(before + gap / 2, 0);
      WordIs(after + (gap - gap / 2), 0);
    }
  }

  // When the size asked for fits the screen, or there are no margins, the
  // characters fill the space between the margins, as many as fit, centred to
  // within a pixel; a zero margin reaches the edge of the screen.
  lemma FitMeaning(a: Axis)
    requires ValidAxis(a) && a.before + a.after <= 0x8000_0000 && (a.requested <= a.size || a.before + a.after == 0)
    ensures var gap := a.size - a.requested;
            var before := if a.before == 0 then 0 else a.before + gap / 2;
            var after := if a.after == 0 then 0 else a.after + (gap - gap / 2);
            var space := a.size - before - after;
            && (Fit(a).Unusable? <==> space < a.unit)
            && (Fit(a).Span? ==>
                  && Inside(a, Fit(a)) && 0 <= space - Fit(a).count * a.unit < a.unit
                  && before <= Fit(a).before && after <= Fit(a).after
                  && 0 <= (Fit(a).after - after) - (Fit(a).before - before) <= 1)
  {
    hide Word, Signed, Fit;
    var gap := a.size - a.requested;
    var before := if a.before == 0 then 0 else a.before + gap / 2;
    var after := if a.after == 0 then 0 else a.after + (gap - gap / 2);
    var space := a.size - before - after;
    WordIs(gap, if gap < 0 then -1 else 0);
    WordIs(before, 0);
    WordIs(after, 0);
    WordIs(space, if space < 0 then -1 else 0);
    FitIs(a, before, after, space);
  }

  // A usable layout is on the screen exactly if neither of the margins it ends
  // up with is wider than the screen. Where the margins do not come near the
  // width of a word, that is if the size asked for fits or there are no margins:
  // a larger size than the screen has, with a margin, never works.
  lemma InsideExactly(a: Axis)
    requires ValidAxis(a) && Fit(a).Span?
    ensures Inside(a, Fit(a)) <==> Fit(a).before <= a.size && Fit(a).after <= a.size
    ensures Moderate(a) ==> (Inside(a, Fit(a)) <==> a.requested <= a.size || a.before + a.after == 0)
  {
    hide Fit, Inside;
    InsideByMargins(a);
    if Moderate(a) {
      if a.requested <= a.size || a.before + a.after == 0 {
        FitMeaning(a);
      } else {
        TooLarge(a);
      }
    }
  }

  lemma TooLarge(a: Axis)
    requires Moderate(a) && a.size < a.requested && 0 < a.before + a.after && Fit(a).Span?
    ensures !Inside(a, Fit(a))
  {
    hide Word, Signed, Fit;
    var gap := a.size - a.requested + 0x1_0000_0000;
    WordIs(a.size - a.requested, -1);
    var before := if a.before == 0 then 0 else a.before + gap / 2;
    var after := if a.after == 0 then 0 else a.after + (gap - gap / 2);
    WordIs(before, 0);
    WordIs(after, 0);
    assert before == Before(a) && after == After(a);
    var space := a.size - before - after;
    WordIs(space, if space < -0x1_0000_0000 then -2 else -1);
    FitIs(a, before, after, Signed(space));
    assert before + after > a.size;
  }

  lemma InsideByMargins(a: Axis)
    requires ValidAxis(a) && Fit(a).Span?
    ensures Inside(a, Fit(a)) <==> Fit(a).before <= a.size && Fit(a).after <= a.size
  {
    hide Word, Signed, Before, After;
    var space := Signed(a.size - Before(a) - After(a));
    var count, gap := space / a.unit, space % a.unit;
    Whole(space, a.unit);
    SameWord(a.size, Before(a), After(a), gap / 2, gap - gap / 2, count * a.unit);
    MulMono(1, count, a.unit);
  }

  // The margins, the characters and the size agree up to whole words.
  lemma SameWord(size: int, before: int, after: int, g1: int, g2: int, used: int)
    requires used + g1 + g2 == Signed(size - before - after)
    ensures (Word(before + g1) + used + Word(after + g2) - size) % 0x1_0000_0000 == 0
    ensures 0 <= Word(before + g1) < 0x1_0000_0000 && 0 <= Word(after + g2) < 0x1_0000_0000
    ensures used + g1 + g2 < 0x8000_0000
  {
    var n := 0x1_0000_0000;
    var x, y, z := (before + g1) / n, (after + g2) / n, (size - before - after) / n;
    assert Word(before + g1) == before + g1 - x * n && Word(after + g2) == after + g2 - y * n;
    var k := if Word(size - before - after) >= 0x8000_0000 then z + 1 else z;
    assert Signed(size - before - after) == size - before - after - k * n;
    assert Word(before + g1) + used + Word(after + g2) - size == (-x - y - k) * n;
  }

  // Asking for more than the screen has, with a margin, can put the characters
  // outside it.
  lemma TooLargeARequest()
    ensures var a := Axis(800, 1000, 200, 200, 9);
            ValidAxis(a) && Fit(a).Span? && !Inside(a, Fit(a))
  {
    hide Word, Signed;
    var a := Axis(800, 1000, 200, 200, 9);
    WordIs(-200, -1);
    WordIs(200 + 0x7fff_ff9c, 0);
    WordIs(800 - 2 * (200 + 0x7fff_ff9c), -1);
    TooLarge(a);
  }

  // ---- Both directions ----------------------------------------------------

  datatype Pixels = Pixels(width: int, height: int, len: int, stride: int)

  ghost predicate ValidPixels(px: Pixels) {
    1 <= px.len <= 4 && px.width >= 0 && px.height >= 0 && px.width * px.len <= px.stride
  }

  // fbcon->indent and the character geometry
  function Placed(px: Pixels, fontHeight: int, across: Span, down: Span): Geometry
    requires across.Span? && down.Span?
  {
    Geometry(px.len, px.stride, fontHeight, down.before * px.stride + across.before * px.len, across.count, down.count)
  }

  // A character area on the screen gives a usable geometry, and all of its
  // bytes are bytes of the screen.
  lemma PlacedFits(px: Pixels, a: Axis, d: Axis, across: Span, down: Span)
    requires ValidPixels(px) && a.size == px.width && d.size == px.height && a.unit == CHAR_WIDTH && d.unit >= 1
    requires Inside(a, across) && Inside(d, down)
    ensures ValidGeometry(Placed(px, d.unit, across, down))
    ensures Extent(Placed(px, d.unit, across, down)) <= px.height * px.stride
  {
    var g := Placed(px, d.unit, across, down);
    MulMono(0, px.width, px.len);
    MulMono(0, down.before, px.stride);
    MulMono(0, across.before, px.len);
    MulMono(across.count * CHAR_WIDTH, px.width, px.len);
    MulAssoc(across.count, CHAR_WIDTH, px.len);
    assert CHAR_WIDTH * px.len == CellLen(g);
    MulMono(across.before + across.count * CHAR_WIDTH, px.width, px.len);
    Distribute(across.before, across.count * CHAR_WIDTH, px.len);
    var lines := down.count * d.unit;
    MulMono(down.before + lines, px.height, px.stride);
    Distribute(down.before, lines - 1, px.stride);
    Distribute(down.before + lines - 1, 1, px.stride);
  }

  // Every byte of the character area is a byte of a pixel between the margins.
  lemma AreaBetweenMargins(px: Pixels, a: Axis, d: Axis, across: Span, down: Span, p: int)
    requires ValidPixels(px) && a.size == px.width && d.size == px.height && a.unit == CHAR_WIDTH && d.unit >= 1
    requires Inside(a, across) && Inside(d, down) && px.stride > 0
    requires InArea(Placed(px, d.unit, across, down), p)
    ensures down.before <= p / px.stride < px.height - down.after
    ensures across.before * px.len <= p % px.stride < (px.width - across.after) * px.len
  {
    var g := Placed(px, d.unit, across, down);
    PlacedFits(px, a, d, across, down);
    var q := Locate(g, p);
    var line, column := q.y * g.fontHeight + q.row, q.x * CellLen(g) + q.byte;
    OffsetLines(g, q);
    ColumnInStride(g, q);
    LineInArea(g, q);
    AreaColumns(px, a, across);
    Distribute(down.before, line, px.stride);
    DivModUnique(p, px.stride, down.before + line, across.before * px.len + column);
  }

  lemma LineInArea(g: Geometry, q: Place)
    requires ValidGeometry(g) && InGrid(g, q)
    ensures 0 <= q.y * g.fontHeight + q.row < g.height * g.fontHeight
  {
    MulMono(0, q.y, g.fontHeight);
    MulMono(q.y + 1, g.height, g.fontHeight);
    Distribute(q.y, 1, g.fontHeight);
  }

  lemma AreaColumns(px: Pixels, a: Axis, across: Span)
    requires ValidPixels(px) && a.size == px.width && a.unit == CHAR_WIDTH && Inside(a, across)
    ensures 0 <= across.before * px.len
    ensures across.before * px.len + across.count * (px.len * CHAR_WIDTH) == (px.width - across.after) * px.len
    ensures (px.width - across.after) * px.len <= px.stride
  {
    MulMono(0, across.before, px.len);
    Distribute(across.before, across.count * CHAR_WIDTH, px.len);
    MulAssoc(across.count, CHAR_WIDTH, px.len);
    assert CHAR_WIDTH * px.len == px.len * CHAR_WIDTH;
    MulMono(px.width - across.after, px.width, px.len);
  }
}
