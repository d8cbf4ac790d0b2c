/**
 The colours of the frame buffer console: the mapping of RGB values to raw
 pixels and the graphic rendition sequence.
 */
module Palette {
  import opened Raster

  type Shift = n: int | 0 <= n < 32

  /** How far each component is scaled down, and where its lowest bit goes */
  datatype ColourMap = ColourMap(redScale: Shift, greenScale: Shift, blueScale: Shift,
                                 redLsb: Shift, greenLsb: Shift, blueLsb: Shift)

  datatype Pen = Pen(foreground: bv32, background: bv32, bold: bv32)

  // FBCON_BOLD
  const BOLD: bv32 := 0x55_5555

  function Red(rgb: bv32): bv32 {
    (rgb >> 16) & 0xff
  }

  function Green(rgb: bv32): bv32 {
    (rgb >> 8) & 0xff
  }

  function Blue(rgb: bv32): bv32 {
    rgb & 0xff
  }

  function Down(x: bv32, n: Shift): bv32 {
    x >> n
  }

  function Up(x: bv32, n: Shift): bv32 {
    x << n
  }

  function Mixed(cm: ColourMap, red: bv32, green: bv32, blue: bv32): bv32 {
    Up(Down(red, cm.redScale), cm.redLsb)
    | Up(Down(green, cm.greenScale), cm.greenLsb)
    | Up(Down(blue, cm.blueScale), cm.blueLsb)
  }

  // fbcon_colour()
  function Raw(cm: ColourMap, rgb: bv32): bv32 {
    Mixed(cm, Red(rgb), Green(rgb), Blue(rgb))
  }

  // fbcon_ansi_colour()
  function AnsiColour(cm: ColourMap, colour: int): bv32 {
    Raw(cm, (if colour % 2 == 1 then 0xaa_0000 else 0)
             | (if colour / 2 % 2 == 1 then 0x00_aa00 else 0)
             | (if colour / 4 % 2 == 1 then 0x00_00aa else 0))
  }

  // fbcon_set_default_foreground()
  function PlainText(cm: ColourMap, pen: Pen): Pen {
    pen.(foreground := AnsiColour(cm, 7), bold := 0)
  }

  // fbcon_set_default_background()
  function ClearGround(pen: Pen): Pen {
    pen.(background := TRANSPARENT)
  }

  function DefaultPen(cm: ColourMap): Pen {
    Pen(AnsiColour(cm, 7), TRANSPARENT, 0)
  }

  // One aspect that stands for itself
  function Aspect(cm: ColourMap, pen: Pen, a: int): Pen {
    if a == 0 then ClearGround(PlainText(cm, pen))
    else if a == 1 then pen.(bold := Raw(cm, BOLD))
    else if a == 22 then pen.(bold := 0)
    else if 30 <= a <= 37 then pen.(foreground := AnsiColour(cm, a - 30))
    else if a == 39 then PlainText(cm, pen)
    else if 40 <= a <= 47 then pen.(background := AnsiColour(cm, a - 40))
    else if a == 49 then ClearGround(pen)
    else pen
  }

  predicate IsCustom(a: int) {
    a == 38 || a == 48
  }

  function Unsigned(n: int): bv32 {
    (n % 0x1_0000_0000) as bv32
  }

  function Appended(rgb: bv32, x: bv32): bv32 {
    (rgb << 8) | x
  }

  // The parameters from i up to end, shifted into each other
  function Packed(rgb: bv32, aspects: seq<int>, i: nat, end: nat): bv32
    requires end <= |aspects|
    decreases end - i
  {
    if i >= end then rgb else Packed(Appended(rgb, Unsigned(aspects[i])), aspects, i + 1, end)
  }

  function CustomEnd(aspects: seq<int>, i: nat): nat {
    if i + 5 <= |aspects| then i + 5 else |aspects|
  }

  function Custom(cm: ColourMap, pen: Pen, a: int, rgb: bv32): Pen {
    if a == 38 then pen.(foreground := Raw(cm, rgb)) else pen.(background := Raw(cm, rgb))
  }

  // fbcon_handle_sgr(), from the i-th aspect on: a custom colour takes up to
  // five parameters, and the one after it is passed over.
  function Rendered(cm: ColourMap, pen: Pen, aspects: seq<int>, i: nat): Pen
    decreases |aspects| - i
  {
    if i >= |aspects| then pen
    else if IsCustom(aspects[i]) then
      var end := CustomEnd(aspects, i);
      Rendered(cm, Custom(cm, pen, aspects[i], Packed(0, aspects, i, end)), aspects, end + 1)
    else Rendered(cm, Aspect(cm, pen, aspects[i]), aspects, i + 1)
  }

  lemma RenderedStep(cm: ColourMap, pen: Pen, aspects: seq<int>, i: nat)
    requires i < |aspects|
    ensures Rendered(cm, pen, aspects, i) ==
            if IsCustom(aspects[i])
            then Rendered(cm, Custom(cm, pen, aspects[i], Packed(0, aspects, i, CustomEnd(aspects, i))), aspects,
                          CustomEnd(aspects, i) + 1)
            else Rendered(cm, Aspect(cm, pen, aspects[i]), aspects, i + 1)
  {
  }

  lemma RenderedEnd(cm: ColourMap, pen: Pen, aspects: seq<int>, i: nat)
    requires i >= |aspects|
    ensures Rendered(cm, pen, aspects, i) == pen
  {
  }

  // ---- What it means ------------------------------------------------------

  function Rgb(red: bv32, green: bv32, blue: bv32): bv32 {
    (red << 16) | (green << 8) | blue
  }

  ghost predicate Component(x: bv32) {
    x & 0xff == x
  }

  lemma ByteComponent(n: int)
    requires 0 <= n < 256
    ensures Component(Unsigned(n))
  {
  }

  // The two leading parameters are shifted out of the colour.
  lemma LeadingShiftedOut(a: bv32, b: bv32, red: bv32, green: bv32, blue: bv32)
    requires Component(red) && Component(green) && Component(blue)
    ensures var rgb := Appended(Appended(Appended(Appended(a, b), red), green), blue);
            var want := Rgb(red, green, blue);
            Red(rgb) == Red(want) && Green(rgb) == Green(want) && Blue(rgb) == Blue(want)
  {
  }

  // The xterm sequences 38;2;red;green;blue and 48;2;red;green;blue set the
  // foreground or the background to that colour, and nothing else.
  lemma CustomColour(cm: ColourMap, pen: Pen, a: int, red: int, green: int, blue: int)
    requires IsCustom(a) && 0 <= red < 256 && 0 <= green < 256 && 0 <= blue < 256
    ensures Rendered(cm, pen, [a, 2, red, green, blue], 0) ==
            Custom(cm, pen, a, Rgb(Unsigned(red), Unsigned(green), Unsigned(blue)))
  {
    hide Raw, Packed, Rgb, Aspect, Unsigned;
    var s := [a, 2, red, green, blue];
    FiveTaken(cm, s, red, green, blue);
    assert CustomEnd(s, 0) == 5;
  }

  lemma FiveTaken(cm: ColourMap, s: seq<int>, red: int, green: int, blue: int)
    requires |s| == 5 && s[2] == red && s[3] == green && s[4] == blue
    requires 0 <= red < 256 && 0 <= green < 256 && 0 <= blue < 256
    ensures Raw(cm, Packed(0, s, 0, 5)) == Raw(cm, Rgb(Unsigned(red), Unsigned(green), Unsigned(blue)))
  {
    hide Mixed, Red, Green, Blue, Unsigned, Packed, Appended, Component, Rgb;
    ByteComponent(red);
    ByteComponent(green);
    ByteComponent(blue);
    PackedFive(s);
    LeadingShiftedOut(Unsigned(s[0]), Unsigned(s[1]), Unsigned(red), Unsigned(green), Unsigned(blue));
  }

  lemma PackedFive(s: seq<int>)
    requires |s| == 5
    ensures Packed(0, s, 0, 5) ==
            Appended(Appended(Appended(Appended(Unsigned(s[0]), Unsigned(s[1])), Unsigned(s[2])), Unsigned(s[3])),
                    Unsigned(s[4]))
  {
    hide Unsigned, Appended;
    FirstAppended(Unsigned(s[0]));
  }

  lemma FirstAppended(x: bv32)
    ensures Appended(0, x) == x
  {
  }

  // Aspects before a custom colour act one after the other.
  lemma {:induction false} RenderedConcat(cm: ColourMap, pen: Pen, s: seq<int>, t: seq<int>, i: nat)
    requires i <= |s| && forall j :: 0 <= j < |s| ==> !IsCustom(s[j])
    ensures Rendered(cm, pen, s + t, i) == Rendered(cm, Rendered(cm, pen, s, i), t, 0)
    decreases |s| - i
  {
    hide Aspect;
    if i < |s| {
      RenderedConcat(cm, Aspect(cm, pen, s[i]), s, t, i + 1);
    } else {
      RenderedFrom(cm, pen, s, t, 0);
    }
  }

  lemma {:induction false} RenderedFrom(cm: ColourMap, pen: Pen, s: seq<int>, t: seq<int>, i: nat)
    ensures Rendered(cm, pen, s + t, |s| + i) == Rendered(cm, pen, t, i)
    decreases |t| - i
  {
    hide Aspect, Custom, Packed, Unsigned, Raw;
    if i < |t| {
      if IsCustom(t[i]) {
        var end := CustomEnd(t, i);
        PackedFrom(0, s, t, i, end);
        RenderedFrom(cm, Custom(cm, pen, t[i], Packed(0, t, i, end)), s, t, end + 1);
      } else {
        RenderedFrom(cm, Aspect(cm, pen, t[i]), s, t, i + 1);
      }
    }
  }

  lemma {:induction false} PackedFrom(rgb: bv32, s: seq<int>, t: seq<int>, i: nat, end: nat)
    requires end <= |t|
    ensures Packed(rgb, s + t, |s| + i, |s| + end) == Packed(rgb, t, i, end)
    decreases end - i
  {
    hide Unsigned, Appended;
    if i < end {
      PackedFrom(Appended(rgb, Unsigned(t[i])), s, t, i + 1, end);
    }
  }

  // A sequence that begins by resetting everything forgets the colours before.
  lemma ResetForgets(cm: ColourMap, pen: Pen, t: seq<int>)
    ensures Rendered(cm, pen, [0] + t, 0) == Rendered(cm, DefaultPen(cm), t, 0)
  {
    RenderedConcat(cm, pen, [0], t, 0);
    assert Rendered(cm, pen, [0], 0) == DefaultPen(cm);
  }

  // ---- The colours by name ------------------------------------------------

  // Each component goes to its own place.
  lemma RawParts(cm: ColourMap, red: bv32, green: bv32, blue: bv32)
    requires Component(red) && Component(green) && Component(blue)
    ensures Raw(cm, Rgb(red, 0, 0)) == Up(Down(red, cm.redScale), cm.redLsb)
    ensures Raw(cm, Rgb(0, green, 0)) == Up(Down(green, cm.greenScale), cm.greenLsb)
    ensures Raw(cm, Rgb(0, 0, blue)) == Up(Down(blue, cm.blueScale), cm.blueLsb)
  {
    hide Up, Down, Red, Green, Blue, Rgb;
    NoColour(cm.redScale, cm.redLsb);
    NoColour(cm.greenScale, cm.greenLsb);
    NoColour(cm.blueScale, cm.blueLsb);
    Unmixed(red, 0, 0);
    Unmixed(0, green, 0);
    Unmixed(0, 0, blue);
  }

  lemma Unmixed(red: bv32, green: bv32, blue: bv32)
    requires Component(red) && Component(green) && Component(blue)
    ensures var rgb := Rgb(red, green, blue); Red(rgb) == red && Green(rgb) == green && Blue(rgb) == blue
  {
  }

  lemma NoColour(scale: Shift, lsb: Shift)
    ensures Up(Down(0, scale), lsb) == 0
  {
  }

  function Full(on: bool): bv32 {
    if on then 0xaa else 0
  }

  function Bgr(red: bool, green: bool, blue: bool): int {
    (if red then 1 else 0) + (if green then 2 else 0) + (if blue then 4 else 0)
  }

  lemma AnsiIs(cm: ColourMap, red: bool, green: bool, blue: bool)
    ensures AnsiColour(cm, Bgr(red, green, blue)) == Raw(cm, Rgb(Full(red), Full(green), Full(blue)))
  {
    hide Raw;
  }

  // 30 to 37 set the ink and 40 to 47 the ground, to a mixture of red, green and
  // blue in this order of bits, and nothing else.
  lemma EightColours(cm: ColourMap, pen: Pen, red: bool, green: bool, blue: bool)
    ensures var colour := Raw(cm, Rgb(Full(red), Full(green), Full(blue)));
            && Rendered(cm, pen, [30 + Bgr(red, green, blue)], 0) == pen.(foreground := colour)
            && Rendered(cm, pen, [40 + Bgr(red, green, blue)], 0) == pen.(background := colour)
  {
    hide Raw, AnsiColour, Rgb, Full;
    AnsiIs(cm, red, green, blue);
    var a, b := [30 + Bgr(red, green, blue)], [40 + Bgr(red, green, blue)];
    assert Rendered(cm, pen, a, 0) == Rendered(cm, Aspect(cm, pen, a[0]), a, 1);
    assert Rendered(cm, pen, b, 0) == Rendered(cm, Aspect(cm, pen, b[0]), b, 1);
  }

  // 31 is red ink and 44 blue ground, 1 and 22 change only the boldness, and 39,
  // 49 and 0 go back to plain white ink, to no ground, and to both.
  lemma NamedAspects(cm: ColourMap, pen: Pen)
    ensures Rendered(cm, pen, [31], 0) == pen.(foreground := Raw(cm, 0xaa_0000))
    ensures Rendered(cm, pen, [44], 0) == pen.(background := Raw(cm, 0x00_00aa))
    ensures Rendered(cm, pen, [1], 0) == pen.(bold := Raw(cm, 0x55_5555))
    ensures Rendered(cm, pen, [22], 0) == pen.(bold := 0)
    ensures Rendered(cm, pen, [39], 0) == Pen(Raw(cm, 0xaa_aaaa), pen.background, 0)
    ensures Rendered(cm, pen, [49], 0) == Pen(pen.foreground, 0xffff_ffff, pen.bold)
    ensures Rendered(cm, pen, [0], 0) == Pen(Raw(cm, 0xaa_aaaa), 0xffff_ffff, 0)
  {
    hide Raw, Aspect, AnsiColour;
    OneAspect(cm, pen, 31);
    OneAspect(cm, pen, 44);
    OneAspect(cm, pen, 1);
    OneAspect(cm, pen, 22);
    OneAspect(cm, pen, 39);
    OneAspect(cm, pen, 49);
    OneAspect(cm, pen, 0);
    NamedColours(cm);
    AspectIs(cm, pen);
  }

  lemma OneAspect(cm: ColourMap, pen: Pen, a: int)
    requires !IsCustom(a)
    ensures Rendered(cm, pen, [a], 0) == Aspect(cm, pen, a)
  {
    hide Aspect;
  }

  lemma NamedColours(cm: ColourMap)
    ensures AnsiColour(cm, 1) == Raw(cm, 0xaa_0000) && AnsiColour(cm, 4) == Raw(cm, 0x00_00aa)
    ensures AnsiColour(cm, 7) == Raw(cm, 0xaa_aaaa)
  {
    hide Raw;
  }

  lemma AspectIs(cm: ColourMap, pen: Pen)
    ensures Aspect(cm, pen, 31) == pen.(foreground := AnsiColour(cm, 1))
    ensures Aspect(cm, pen, 44) == pen.(background := AnsiColour(cm, 4))
    ensures Aspect(cm, pen, 1) == pen.(bold := Raw(cm, 0x55_5555)) && Aspect(cm, pen, 22) == pen.(bold := 0)
    ensures Aspect(cm, pen, 39) == Pen(AnsiColour(cm, 7), pen.background, 0)
    ensures Aspect(cm, pen, 49) == Pen(pen.foreground, 0xffff_ffff, pen.bold)
    ensures Aspect(cm, pen, 0) == Pen(AnsiColour(cm, 7), 0xffff_ffff, 0)
  {
    hide Raw, AnsiColour;
  }

  function Both(x: bv32, y: bv32): bv32 {
    x | y
  }

  lemma ShrOr(a: bv32, b: bv32, n: Shift)
    ensures (a | b) >> n == (a >> n) | (b >> n)
  {
  }

  lemma ShlOr(a: bv32, b: bv32, n: Shift)
    ensures (a | b) << n == (a << n) | (b << n)
  {
  }

  lemma DownOr(a: bv32, b: bv32, n: Shift)
    ensures Down(a | b, n) == Down(a, n) | Down(b, n)
  {
    ShrOr(a, b, n);
  }

  lemma UpOr(a: bv32, b: bv32, n: Shift)
    ensures Up(a | b, n) == Up(a, n) | Up(b, n)
  {
    ShlOr(a, b, n);
  }

  lemma BothIs(x: bv32, y: bv32)
    ensures Both(x, y) == x | y
  {
  }

  lemma BothSwaps(x: bv32, y: bv32, z: bv32)
    ensures Both(Both(x, y), z) == Both(Both(x, z), y) && Both(Both(x, y), z) == Both(x, Both(y, z))
  {
    hide Both;
    BothAssociates(x, y, z);
    BothAssociates(x, z, y);
    BothCommutes(y, z);
  }

  lemma BothCommutes(x: bv32, y: bv32)
    ensures Both(x, y) == Both(y, x)
  {
  }

  lemma BothAssociates(x: bv32, y: bv32, z: bv32)
    ensures Both(Both(x, y), z) == Both(x, Both(y, z))
  {
    assert (x | y) | z == x | (y | z);
  }

  lemma DownBoth(a: bv32, b: bv32, n: Shift)
    ensures Down(Both(a, b), n) == Both(Down(a, n), Down(b, n))
  {
    hide Both, Down;
    BothIs(a, b);
    BothIs(Down(a, n), Down(b, n));
    DownOr(a, b, n);
  }

  lemma UpBoth(a: bv32, b: bv32, n: Shift)
    ensures Up(Both(a, b), n) == Both(Up(a, n), Up(b, n))
  {
    hide Both, Up;
    BothIs(a, b);
    BothIs(Up(a, n), Up(b, n));
    UpOr(a, b, n);
  }

  lemma ShiftBoth(a: bv32, b: bv32, scale: Shift, lsb: Shift)
    ensures Up(Down(Both(a, b), scale), lsb) == Both(Up(Down(a, scale), lsb), Up(Down(b, scale), lsb))
  {
    hide Down, Up, Both;
    DownBoth(a, b, scale);
    UpBoth(Down(a, scale), Down(b, scale), lsb);
  }

  lemma ComponentsBoth(a: bv32, b: bv32)
    ensures Red(Both(a, b)) == Both(Red(a), Red(b)) && Green(Both(a, b)) == Both(Green(a), Green(b))
    ensures Blue(Both(a, b)) == Both(Blue(a), Blue(b))
  {
  }

  lemma MixedIs(cm: ColourMap, red: bv32, green: bv32, blue: bv32)
    ensures Mixed(cm, red, green, blue) ==
            Both(Both(Up(Down(red, cm.redScale), cm.redLsb), Up(Down(green, cm.greenScale), cm.greenLsb)),
                 Up(Down(blue, cm.blueScale), cm.blueLsb))
  {
    hide Up, Down;
  }

  lemma BothSix(a: bv32, b: bv32, c: bv32, x: bv32, y: bv32, z: bv32)
    ensures Both(Both(Both(a, b), c), Both(Both(x, y), z)) == Both(Both(Both(a, x), Both(b, y)), Both(c, z))
  {
    hide Both;
    calc {
      Both(Both(Both(a, b), c), Both(Both(x, y), z));
      { BothSwaps(Both(Both(a, b), c), Both(x, y), z); }
      Both(Both(Both(Both(a, b), c), Both(x, y)), z);
      { BothSwaps(Both(Both(a, b), c), x, y); }
      Both(Both(Both(Both(Both(a, b), c), x), y), z);
      { BothSwaps(Both(a, b), c, x); BothSwaps(a, b, x); }
      Both(Both(Both(Both(Both(a, x), b), c), y), z);
      { BothSwaps(Both(Both(a, x), b), c, y); BothSwaps(Both(a, x), b, y); }
      Both(Both(Both(Both(a, x), Both(b, y)), c), z);
      { BothSwaps(Both(Both(a, x), Both(b, y)), c, z); }
      Both(Both(Both(a, x), Both(b, y)), Both(c, z));
    }
  }

  // Colours combine bit by bit, before or after they are mapped.
  lemma RawBoth(cm: ColourMap, a: bv32, b: bv32)
    ensures Both(Raw(cm, a), Raw(cm, b)) == Raw(cm, Both(a, b))
  {
    hide Red, Green, Blue, Mixed, Up, Down, Both;
    ComponentsBoth(a, b);
    MixedIs(cm, Red(a), Green(a), Blue(a));
    MixedIs(cm, Red(b), Green(b), Blue(b));
    MixedIs(cm, Both(Red(a), Red(b)), Both(Green(a), Green(b)), Both(Blue(a), Blue(b)));
    ShiftBoth(Red(a), Red(b), cm.redScale, cm.redLsb);
    ShiftBoth(Green(a), Green(b), cm.greenScale, cm.greenLsb);
    ShiftBoth(Blue(a), Blue(b), cm.blueScale, cm.blueLsb);
    BothSix(Up(Down(Red(a), cm.redScale), cm.redLsb), Up(Down(Green(a), cm.greenScale), cm.greenLsb),
            Up(Down(Blue(a), cm.blueScale), cm.blueLsb), Up(Down(Red(b), cm.redScale), cm.redLsb),
            Up(Down(Green(b), cm.greenScale), cm.greenLsb), Up(Down(Blue(b), cm.blueScale), cm.blueLsb));
  }

  // Bold red is the brighter red.
  lemma BoldRed(cm: ColourMap, pen: Pen)
    ensures var p := Rendered(cm, pen, [1, 31], 0); p.foreground | p.bold == Raw(cm, 0xff_5555)
  {
    hide Raw;
    RenderedConcat(cm, pen, [1], [31], 0);
    assert [1] + [31] == [1, 31];
    NamedAspects(cm, pen);
    NamedAspects(cm, pen.(bold := Raw(cm, 0x55_5555)));
    RawBoth(cm, 0xaa_0000, 0x55_5555);
  }
}
