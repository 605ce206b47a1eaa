/** The pixels written by Engine::DrawTextLine, as a pure function.

    Each character other than '\n' selects the 8x8 glyph at column
    (c - 32) % 16 and row (c - 32) / 16 of the font sheet (C++ division,
    truncating toward zero), and every glyph pixel whose colour is positive
    becomes a z-by-z block of the destination, where z is the scale when the
    scale exceeds 1 and 1 otherwise. The cursor (sx, sy) starts at (0, 0); a
    '\n' moves it to (0, sy + 8*scale), every other character to
    (sx + 8*scale, sy). */
module TextLayout {

  import opened Arith
  import opened Raster
  import opened CTypes

  const NewLine: CChar := 10

  /** The colour plane of the font sprite, as DrawTextLine reads it. */
  datatype Font = Font(colors: seq<int>, width: int, height: int)

  predicate FontOk(f: Font) {
    0 <= f.width && 0 <= f.height && |f.colors| == f.width * f.height
  }

  /** Sprite::GetPixelColor on the font: 0 outside the sheet. */
  function FontPixel(f: Font, x: int, y: int): int
    requires FontOk(f)
  {
    Get(f.colors, f.width, f.height, x, y, 0)
  }

  /** The sheet pixels with a positive colour: the ones that are drawn. */
  function LitPixels(f: Font): (lit: set<(int, int)>)
    requires FontOk(f)
    ensures forall x, y :: (x, y) in lit <==> FontPixel(f, x, y) > 0
  {
    set x, y | 0 <= x < f.width && 0 <= y < f.height && FontPixel(f, x, y) > 0 :: (x, y)
  }

  /** Glyph column and row of a character in the sheet's 16-column grid. */
  function GlyphX(c: CChar): (gx: int)
    ensures -16 < gx < 16
    ensures c >= 32 ==> 0 <= gx
  {
    TruncMod(c - 32, 16)
  }

  /** A signed char lies in -128 .. 127, so its row lies in -10 .. 5. */
  function GlyphY(c: CChar): (gy: int)
    ensures -10 <= gy <= 5
    ensures c >= 32 ==> 0 <= gy
  {
    TruncDiv(c - 32, 16)
  }

  /** Block size of one glyph pixel: only a scale above 1 magnifies. */
  function Zoom(scale: nat): nat {
    if scale > 1 then scale else 1
  }

  function Advance(cursor: (int, int), c: CChar, scale: nat): (int, int) {
    if c == NewLine then (0, cursor.1 + 8 * scale) else (cursor.0 + 8 * scale, cursor.1)
  }

  /** The cursor (sx, sy) after a prefix of the text. */
  function Cursor(text: seq<CChar>, scale: nat): (int, int) {
    if text == [] then (0, 0)
    else Advance(Cursor(text[..|text| - 1], scale), text[|text| - 1], scale)
  }

  /** k cells of size z side by side span k * z pixels; written as repeated
      addition, which is how the loops below reach each cell. */
  function Span(k: nat, z: nat): nat {
    if k == 0 then 0 else Span(k - 1, z) + z
  }

  lemma {:induction false} SpanIsProduct(k: nat, z: nat)
    ensures Span(k, z) == k * z
  {
    if k > 0 {
      SpanIsProduct(k - 1, z);
    }
  }

  /** Innermost loop: (ax, ay + js) for js < n. */
  function Column(ax: int, ay: int, n: nat): seq<(int, int)> {
    if n == 0 then [] else Column(ax, ay, n - 1) + [(ax, ay + n - 1)]
  }

  /** The two block loops: column (ax + is) for is < n, each z tall. */
  function Block(ax: int, ay: int, z: nat, n: nat): seq<(int, int)> {
    if n == 0 then [] else Block(ax, ay, z, n - 1) + Column(ax + n - 1, ay, z)
  }

  /** Glyph pixel (i, j): a z-by-z block at its place in the cell when the
      sheet pixel is lit, nothing otherwise. */
  function GlyphCell(lit: set<(int, int)>, gx: int, gy: int, cx: int, cy: int, z: nat, i: nat, j: nat): seq<(int, int)> {
    if (gx + i, gy + j) in lit then Block(cx + Span(i, z), cy + Span(j, z), z, z) else []
  }

  /** The j loop of glyph column i, for j < n: a block for each lit pixel,
      where (gx, gy) is the glyph's top-left pixel in the sheet. */
  function GlyphColumn(lit: set<(int, int)>, gx: int, gy: int, cx: int, cy: int, z: nat, i: nat, n: nat): seq<(int, int)> {
    if n == 0 then []
    else GlyphColumn(lit, gx, gy, cx, cy, z, i, n - 1) + GlyphCell(lit, gx, gy, cx, cy, z, i, n - 1)
  }

  /** The i loop of a glyph, for i < n. */
  function Glyph(lit: set<(int, int)>, gx: int, gy: int, cx: int, cy: int, z: nat, n: nat): seq<(int, int)> {
    if n == 0 then [] else Glyph(lit, gx, gy, cx, cy, z, n - 1) + GlyphColumn(lit, gx, gy, cx, cy, z, n - 1, 8)
  }

  /** The pixels written for one character whose cell starts at (cx, cy). */
  function CharPoints(f: Font, c: CChar, cx: int, cy: int, scale: nat): seq<(int, int)>
    requires FontOk(f)
  {
    if c == NewLine then [] else Glyph(LitPixels(f), 8 * GlyphX(c), 8 * GlyphY(c), cx, cy, Zoom(scale), 8)
  }

  /** The pixels written for the rest of the text when the cursor is at
      (sx, sy), in order. */
  function PointsFrom(f: Font, x: int, y: int, text: seq<CChar>, scale: nat, sx: int, sy: int): seq<(int, int)>
    requires FontOk(f)
    decreases |text|
  {
    if text == [] then []
    else
      var next := Advance((sx, sy), text[0], scale);
      CharPoints(f, text[0], x + sx, y + sy, scale) + PointsFrom(f, x, y, text[1..], scale, next.0, next.1)
  }

  /** The pixels written for the whole text, in order. */
  function Points(f: Font, x: int, y: int, text: seq<CChar>, scale: nat): seq<(int, int)>
    requires FontOk(f)
  {
    PointsFrom(f, x, y, text, scale, 0, 0)
  }

  // ----- the buffer after one more loop iteration -----

  lemma PlotColumnStep(b: seq<int>, w: int, h: int, ax: int, ay: int, j: nat, v: int)
    requires 0 <= w && 0 <= h && |b| == w * h
    ensures PlotAll(b, w, h, Column(ax, ay, j + 1), v) == Put(PlotAll(b, w, h, Column(ax, ay, j), v), w, h, ax, ay + j, v)
  {
    assert Column(ax, ay, j + 1) == Column(ax, ay, j) + [(ax, ay + j)];
    PlotAllSnoc(b, w, h, Column(ax, ay, j), (ax, ay + j), v);
  }

  lemma PlotBlockStep(b: seq<int>, w: int, h: int, ax: int, ay: int, z: nat, i: nat, v: int)
    requires 0 <= w && 0 <= h && |b| == w * h
    ensures PlotAll(b, w, h, Block(ax, ay, z, i + 1), v) ==
            PlotAll(PlotAll(b, w, h, Block(ax, ay, z, i), v), w, h, Column(ax + i, ay, z), v)
  {
    assert Block(ax, ay, z, i + 1) == Block(ax, ay, z, i) + Column(ax + i, ay, z);
    PlotAllAppend(b, w, h, Block(ax, ay, z, i), Column(ax + i, ay, z), v);
  }

  /** In the 1:1 branch a lit glyph pixel is a single point. */
  lemma PlotUnitBlock(b: seq<int>, w: int, h: int, ax: int, ay: int, v: int)
    requires 0 <= w && 0 <= h && |b| == w * h
    ensures PlotAll(b, w, h, Block(ax, ay, 1, 1), v) == Put(b, w, h, ax, ay, v)
  {
    assert Column(ax, ay, 1) == [(ax, ay)];
    assert Block(ax, ay, 1, 1) == Block(ax, ay, 1, 0) + Column(ax, ay, 1);
    PlotAllSnoc(b, w, h, [], (ax, ay), v);
  }

  /** The block of glyph pixel (i, j) as the magnified branch writes it. */
  lemma ZoomedBlock(cx: int, cy: int, i: nat, j: nat, scale: nat)
    requires scale > 1
    ensures var z := Zoom(scale);
            Block(cx + Span(i, z), cy + Span(j, z), z, z) == Block(cx + i * scale, cy + j * scale, scale, scale)
  {
    SpanIsProduct(i, scale);
    SpanIsProduct(j, scale);
  }

  /** The block of glyph pixel (i, j) as the 1:1 branch writes it. */
  lemma UnitBlock(cx: int, cy: int, i: nat, j: nat, scale: nat)
    requires scale <= 1
    ensures var z := Zoom(scale);
            Block(cx + Span(i, z), cy + Span(j, z), z, z) == Block(cx + i, cy + j, 1, 1)
  {
    SpanIsProduct(i, 1);
    SpanIsProduct(j, 1);
  }

  lemma PlotGlyphColumnStep(b: seq<int>, w: int, h: int, lit: set<(int, int)>, gx: int, gy: int, cx: int, cy: int, z: nat, i: nat, j: nat, v: int)
    requires 0 <= w && 0 <= h && |b| == w * h
    ensures PlotAll(b, w, h, GlyphColumn(lit, gx, gy, cx, cy, z, i, j + 1), v) ==
            PlotAll(PlotAll(b, w, h, GlyphColumn(lit, gx, gy, cx, cy, z, i, j), v), w, h, GlyphCell(lit, gx, gy, cx, cy, z, i, j), v)
  {
    PlotAllAppend(b, w, h, GlyphColumn(lit, gx, gy, cx, cy, z, i, j), GlyphCell(lit, gx, gy, cx, cy, z, i, j), v);
  }

  lemma PlotGlyphStep(b: seq<int>, w: int, h: int, lit: set<(int, int)>, gx: int, gy: int, cx: int, cy: int, z: nat, i: nat, v: int)
    requires 0 <= w && 0 <= h && |b| == w * h
    ensures PlotAll(b, w, h, Glyph(lit, gx, gy, cx, cy, z, i + 1), v) ==
            PlotAll(PlotAll(b, w, h, Glyph(lit, gx, gy, cx, cy, z, i), v), w, h, GlyphColumn(lit, gx, gy, cx, cy, z, i, 8), v)
  {
    assert Glyph(lit, gx, gy, cx, cy, z, i + 1) == Glyph(lit, gx, gy, cx, cy, z, i) + GlyphColumn(lit, gx, gy, cx, cy, z, i, 8);
    PlotAllAppend(b, w, h, Glyph(lit, gx, gy, cx, cy, z, i), GlyphColumn(lit, gx, gy, cx, cy, z, i, 8), v);
  }

  /** One character of the text loop: the characters drawn so far followed
      by the rest of the text are the whole text, and the cursor moves as
      Advance says. */
  lemma TextStep(f: Font, x: int, y: int, text: seq<CChar>, scale: nat, k: nat, sx: int, sy: int,
                 drawn: seq<(int, int)>, whole: seq<(int, int)>)
    requires FontOk(f) && k < |text|
    requires drawn + PointsFrom(f, x, y, text[k..], scale, sx, sy) == whole
    ensures var next := Advance((sx, sy), text[k], scale);
            (drawn + CharPoints(f, text[k], x + sx, y + sy, scale)) + PointsFrom(f, x, y, text[k + 1..], scale, next.0, next.1) == whole
    ensures Cursor(text[..k + 1], scale) == Advance(Cursor(text[..k], scale), text[k], scale)
  {
    var next := Advance((sx, sy), text[k], scale);
    var here := CharPoints(f, text[k], x + sx, y + sy, scale);
    var rest := PointsFrom(f, x, y, text[k + 1..], scale, next.0, next.1);
    assert text[k..][1..] == text[k + 1..];
    assert PointsFrom(f, x, y, text[k..], scale, sx, sy) == here + rest;
    assert drawn + (here + rest) == (drawn + here) + rest;
    assert text[..k + 1][..k] == text[..k];
  }

  /** After the last character the points drawn are the whole text's. */
  lemma TextEnd(f: Font, x: int, y: int, text: seq<CChar>, scale: nat, sx: int, sy: int,
                drawn: seq<(int, int)>, whole: seq<(int, int)>)
    requires FontOk(f)
    requires drawn + PointsFrom(f, x, y, text[|text|..], scale, sx, sy) == whole
    ensures drawn == whole
  {
    assert text[|text|..] == [];
    assert drawn + [] == drawn;
  }

  // ----- the cursor -----

  function CountNewLines(text: seq<CChar>): nat {
    if text == [] then 0
    else CountNewLines(text[..|text| - 1]) + (if text[|text| - 1] == NewLine then 1 else 0)
  }

  /** Number of characters after the last '\n'. */
  function LineLength(text: seq<CChar>): nat {
    if text == [] then 0
    else if text[|text| - 1] == NewLine then 0
    else LineLength(text[..|text| - 1]) + 1
  }

  /** The cursor is 8*scale per character since the last '\n' across, and
      8*scale per '\n' down. */
  lemma {:induction false} CursorForm(text: seq<CChar>, scale: nat)
    ensures Cursor(text, scale) == (8 * scale * LineLength(text), 8 * scale * CountNewLines(text))
  {
    if text != [] {
      var init := text[..|text| - 1];
      CursorForm(init, scale);
      var k := 8 * scale;
      var lines, col := CountNewLines(init), LineLength(init);
      if text[|text| - 1] == NewLine {
        assert k * (lines + 1) == k * lines + k;
      } else {
        assert k * (col + 1) == k * col + k;
      }
    }
  }

  /** With scale 0 the cursor never moves: every glyph is drawn at (x, y). */
  lemma {:induction false} CursorZeroScale(text: seq<CChar>)
    ensures Cursor(text, 0) == (0, 0)
  {
    if text != [] {
      CursorZeroScale(text[..|text| - 1]);
    }
  }

  // ----- the pixels of one glyph -----

  lemma {:induction false} ColumnMembers(ax: int, ay: int, n: nat, p: (int, int))
    ensures p in Column(ax, ay, n) <==> p.0 == ax && ay <= p.1 < ay + n
  {
    if n > 0 {
      ColumnMembers(ax, ay, n - 1, p);
    }
  }

  /** Membership in a concatenation is membership in one of its parts. */
  lemma InConcat(whole: seq<(int, int)>, a: seq<(int, int)>, b: seq<(int, int)>, p: (int, int))
    requires whole == a + b
    ensures p in whole <==> p in a || p in b
  {
  }

  /** One more column of a block: `whole` is its first n columns, `prev`
      its first n - 1. */
  lemma BlockColumnAdded(ax: int, ay: int, z: nat, n: nat, p: (int, int), whole: seq<(int, int)>, prev: seq<(int, int)>)
    requires n > 0 && whole == prev + Column(ax + n - 1, ay, z)
    requires p in prev <==> ax <= p.0 < ax + n - 1 && ay <= p.1 < ay + z
    ensures p in whole <==> ax <= p.0 < ax + n && ay <= p.1 < ay + z
  {
    var col := Column(ax + n - 1, ay, z);
    var inCol := p in col;
    assert inCol <==> p.0 == ax + n - 1 && ay <= p.1 < ay + z by {
      ColumnMembers(ax + n - 1, ay, z, p);
    }
    InConcat(whole, prev, col, p);
  }

  lemma {:induction false} BlockMembers(ax: int, ay: int, z: nat, n: nat, p: (int, int))
    ensures p in Block(ax, ay, z, n) <==> ax <= p.0 < ax + n && ay <= p.1 < ay + z
  {
    if n > 0 {
      BlockMembers(ax, ay, z, n - 1, p);
      BlockColumnAdded(ax, ay, z, n, p, Block(ax, ay, z, n), Block(ax, ay, z, n - 1));
    }
  }

  /** The cells of glyph column i whose first n pixels are drawn: the column's
      z-wide stripe, the first n z-tall rows, and only rows whose glyph pixel
      is lit. */
  predicate InGlyphColumn(lit: set<(int, int)>, gx: int, gy: int, cx: int, cy: int, z: nat, i: nat, n: nat, p: (int, int))
    requires z > 0
  {
    cx + i * z <= p.0 < cx + i * z + z && cy <= p.1 && (p.1 - cy) / z < n &&
    (gx + i, gy + (p.1 - cy) / z) in lit
  }

  /** One more row of a glyph column: `whole` is the column's first n
      rows, `prev` its first n - 1. */
  lemma GlyphColumnRow(lit: set<(int, int)>, gx: int, gy: int, cx: int, cy: int, z: nat, i: nat, n: nat, p: (int, int),
                       whole: seq<(int, int)>, prev: seq<(int, int)>)
    requires z > 0 && n > 0
    requires whole == prev + GlyphCell(lit, gx, gy, cx, cy, z, i, n - 1)
    requires p in prev <==> InGlyphColumn(lit, gx, gy, cx, cy, z, i, n - 1, p)
    ensures p in whole <==> InGlyphColumn(lit, gx, gy, cx, cy, z, i, n, p)
  {
    var a, b := cx + Span(i, z), cy + Span(n - 1, z);
    assert a == cx + i * z && b == cy + (n - 1) * z by {
      SpanIsProduct(i, z);
      SpanIsProduct(n - 1, z);
    }
    var q := (p.1 - cy) / z;
    var here := (gx + i, gy + n - 1) in lit;
    var blk := if here then Block(a, b, z, z) else [];
    var inPrev, inBlk := p in prev, p in blk;
    assert inBlk <==> here && a <= p.0 < a + z && b <= p.1 < b + z by {
      BlockMembers(a, b, z, z, p);
    }
    assert b <= p.1 < b + z <==> cy <= p.1 && q == n - 1 by {
      Stripe(p.1 - cy, z, n - 1);
    }
    assert p in whole <==> inPrev || inBlk by {
      InConcat(whole, prev, blk, p);
    }
  }

  lemma {:induction false} GlyphColumnMembers(lit: set<(int, int)>, gx: int, gy: int, cx: int, cy: int, z: nat, i: nat, n: nat, p: (int, int))
    requires z > 0
    ensures p in GlyphColumn(lit, gx, gy, cx, cy, z, i, n) <==> InGlyphColumn(lit, gx, gy, cx, cy, z, i, n, p)
  {
    if n > 0 {
      GlyphColumnMembers(lit, gx, gy, cx, cy, z, i, n - 1, p);
      GlyphColumnRow(lit, gx, gy, cx, cy, z, i, n, p,
                     GlyphColumn(lit, gx, gy, cx, cy, z, i, n), GlyphColumn(lit, gx, gy, cx, cy, z, i, n - 1));
    }
  }

  /** The cells of a glyph whose first n columns are drawn. */
  predicate InGlyph(lit: set<(int, int)>, gx: int, gy: int, cx: int, cy: int, z: nat, n: nat, p: (int, int))
    requires z > 0
  {
    cx <= p.0 && (p.0 - cx) / z < n && cy <= p.1 && (p.1 - cy) / z < 8 &&
    (gx + (p.0 - cx) / z, gy + (p.1 - cy) / z) in lit
  }

  /** One more column of a glyph: `whole` is the glyph's first n columns,
      `prev` its first n - 1. */
  lemma GlyphColumnAdded(lit: set<(int, int)>, gx: int, gy: int, cx: int, cy: int, z: nat, n: nat, p: (int, int),
                         whole: seq<(int, int)>, prev: seq<(int, int)>)
    requires z > 0 && n > 0
    requires whole == prev + GlyphColumn(lit, gx, gy, cx, cy, z, n - 1, 8)
    requires p in prev <==> InGlyph(lit, gx, gy, cx, cy, z, n - 1, p)
    ensures p in whole <==> InGlyph(lit, gx, gy, cx, cy, z, n, p)
  {
    var col := GlyphColumn(lit, gx, gy, cx, cy, z, n - 1, 8);
    var u := (p.0 - cx) / z;
    var a := cx + (n - 1) * z;
    var inPrev, inCol := p in prev, p in col;
    assert inCol <==> InGlyphColumn(lit, gx, gy, cx, cy, z, n - 1, 8, p) by {
      GlyphColumnMembers(lit, gx, gy, cx, cy, z, n - 1, 8, p);
    }
    assert a <= p.0 < a + z <==> cx <= p.0 && u == n - 1 by {
      Stripe(p.0 - cx, z, n - 1);
    }
    assert p in whole <==> inPrev || inCol by {
      InConcat(whole, prev, col, p);
    }
  }

  lemma {:induction false} GlyphMembers(lit: set<(int, int)>, gx: int, gy: int, cx: int, cy: int, z: nat, n: nat, p: (int, int))
    requires z > 0
    ensures p in Glyph(lit, gx, gy, cx, cy, z, n) <==> InGlyph(lit, gx, gy, cx, cy, z, n, p)
  {
    if n > 0 {
      GlyphMembers(lit, gx, gy, cx, cy, z, n - 1, p);
      GlyphColumnAdded(lit, gx, gy, cx, cy, z, n, p,
                       Glyph(lit, gx, gy, cx, cy, z, n), Glyph(lit, gx, gy, cx, cy, z, n - 1));
    }
  }

  /** Pixel p lies in the 8z-by-8z cell at (cx, cy), and the pixel of
      glyph c it magnifies, found by dividing its offset in the cell by z,
      has a positive colour. */
  predicate InCell(f: Font, c: CChar, cx: int, cy: int, scale: nat, p: (int, int))
    requires FontOk(f)
  {
    var z := Zoom(scale);
    cx <= p.0 < cx + 8 * z && cy <= p.1 < cy + 8 * z &&
    FontPixel(f, 8 * GlyphX(c) + (p.0 - cx) / z, 8 * GlyphY(c) + (p.1 - cy) / z) > 0
  }

  /** A pixel is written for character c exactly when it lies in the
      character's cell and magnifies a glyph pixel with a positive colour. */
  lemma CharPointsExact(f: Font, c: CChar, cx: int, cy: int, scale: nat, p: (int, int))
    requires FontOk(f) && c != NewLine
    ensures p in CharPoints(f, c, cx, cy, scale) <==> InCell(f, c, cx, cy, scale, p)
  {
    var z := Zoom(scale);
    var gx, gy := 8 * GlyphX(c), 8 * GlyphY(c);
    var u, v := (p.0 - cx) / z, (p.1 - cy) / z;
    var lit := LitPixels(f);
    assert p in CharPoints(f, c, cx, cy, scale) <==> InGlyph(lit, gx, gy, cx, cy, z, 8, p) by {
      GlyphMembers(lit, gx, gy, cx, cy, z, 8, p);
    }
    assert cx <= p.0 < cx + 8 * z <==> cx <= p.0 && u < 8 by {
      if cx <= p.0 {
        DivLess(p.0 - cx, z, 8);
      }
    }
    assert cy <= p.1 < cy + 8 * z <==> cy <= p.1 && v < 8 by {
      if cy <= p.1 {
        DivLess(p.1 - cy, z, 8);
      }
    }
    assert (gx + u, gy + v) in lit <==> FontPixel(f, gx + u, gy + v) > 0;
  }

  /** A character below 32 selects a glyph left of or above the sheet, so it
      writes nothing (its cursor advance is still 8*scale). */
  lemma ControlCharsDrawNothing(f: Font, c: CChar, cx: int, cy: int, scale: nat)
    requires FontOk(f) && c < 32
    ensures CharPoints(f, c, cx, cy, scale) == []
  {
    if c != NewLine {
      var pts := CharPoints(f, c, cx, cy, scale);
      var z := Zoom(scale);
      TruncDivMod(c - 32, 16);
      assert GlyphX(c) < 0 || GlyphY(c) < 0;
      if pts != [] {
        var p := pts[0];
        CharPointsExact(f, c, cx, cy, scale, p);
        DivBelow(p.0 - cx, z, 8);
        DivBelow(p.1 - cy, z, 8);
        assert false;
      }
    }
  }

  /** A character from 32 to 127 selects an 8x8 glyph inside the 128x48
      sheet. */
  lemma PrintableGlyphInSheet(c: CChar)
    requires 32 <= c
    ensures 0 <= 8 * GlyphX(c) && 8 * GlyphX(c) + 8 <= 128
    ensures 0 <= 8 * GlyphY(c) && 8 * GlyphY(c) + 8 <= 48
  {
    TruncDivMod(c - 32, 16);
  }
}
