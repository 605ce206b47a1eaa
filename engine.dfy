/** The engine's software rasterizer: an off-screen pixel buffer of
    RectWidth*RectHeight colours, addressed y*RectWidth + x, the point,
    line and text primitives drawing into it, and the font sheet decoded
    once when the window is created. Each drawing method is specified by
    the pure list of points it plots (Bresenham.Points,
    TextLayout.Points): the buffer afterwards is the old buffer with those
    points written in order. */
module Engines {

  import opened Raster
  import opened CTypes
  import opened Sprites
  import Bresenham
  import opened TextLayout
  import opened FontSheet

  /** The colour plane of a sprite, as the text blitter reads it. */
  ghost function FontOf(s: Sprite): (f: Font)
    requires s.Valid()
    reads s, s.Colors
    ensures FontOk(f)
    ensures forall x, y :: FontPixel(f, x, y) == s.GetPixelColor(x, y)
  {
    Font(s.Colors[..], s.Width, s.Height)
  }

  /** The text blitter draws pixel (i, j) of glyph (ox, oy) exactly when
      its colour in the sheet is positive. */
  lemma LitPixelOf(s: Sprite, ox: int, oy: int, i: int, j: int)
    requires s.Valid()
    ensures s.GetPixelColor(i + ox * 8, j + oy * 8) > 0 <==> (8 * ox + i, 8 * oy + j) in LitPixels(FontOf(s))
  {
    assert (i + ox * 8, j + oy * 8) == (8 * ox + i, 8 * oy + j);
  }

  /** The set-up of SetLine before its loop: swap the axes of a line
      steeper than 45 degrees, order the endpoints by the working x, and
      take the deltas and the direction of the minor coordinate. */
  method OrientLine(startX: int, startY: int, endX: int, endY: int)
    returns (axisSwapped: bool, sx: int, sy: int, ex: int, ey: int, deltaX: nat, deltaY: nat, dirY: int)
    ensures Bresenham.Prepare(startX, startY, endX, endY) == Bresenham.Setup(axisSwapped, sx, sy, ex, ey, deltaX, deltaY, dirY)
  {
    sx, sy, ex, ey := startX, startY, endX, endY;
    axisSwapped := false;
    if Bresenham.Abs(ex - sx) < Bresenham.Abs(ey - sy) {
      axisSwapped := true;
      sx, sy := sy, sx;
      ex, ey := ey, ex;
    }
    deltaX := Bresenham.Abs(ex - sx);
    deltaY := Bresenham.Abs(ey - sy);
    if sx > ex {
      sx, ex := ex, sx;
      sy, ey := ey, sy;
    }
    dirY := ey - sy;
    if dirY > 0 {
      dirY := 1;
    }
    if dirY < 0 {
      dirY := -1;
    }
  }

  /** A sprite holding the completed fill reads back every fill colour,
      and every pixel is opaque. */
  lemma FontSheetReadBack(s: Sprite, data: seq<bv8>, pix: seq<int>)
    requires |data| == DataLength && pix == FillColors(data)
    requires s.Valid() && s.Width == SheetWidth && s.Height == SheetHeight
    requires s.Colors[..] == SheetColors(pix, PixelCount) && s.Alpha[..] == SheetAlpha(PixelCount)
    ensures forall px, py :: InBounds(SheetWidth, SheetHeight, px, py) ==>
              s.GetPixelColor(px, py) == PixelColor(data, px * SheetHeight + py) && s.GetPixelAlpha(px, py)
  {
    forall px, py | InBounds(SheetWidth, SheetHeight, px, py)
      ensures s.GetPixelColor(px, py) == PixelColor(data, px * SheetHeight + py) && s.GetPixelAlpha(px, py)
    {
      SheetComplete(data, pix, s.Colors[..], s.Alpha[..], px, py);
    }
  }

  /** The inner loop of CreateFontSheet: the 24 low bits of word r, lowest
      first, become fill pixels g * 24 .. g * 24 + 23, (px, py) moving down
      the current sheet column and on to the next one after row 47. */
  method DecodeGroup(sheet: Sprite, data: seq<bv8>, ghost g: int, r: bv32, px0: int, py0: int) returns (px: int, py: int)
    requires |data| == DataLength && 0 <= g < PixelCount / BitsPerGroup && r == Word(data, g)
    requires sheet.Valid() && sheet.Width == SheetWidth && sheet.Height == SheetHeight
    requires px0 * SheetHeight + py0 == g * BitsPerGroup && 0 <= py0 < SheetHeight
    requires sheet.Colors[..] == SheetColors(FillColors(data), g * BitsPerGroup)
    requires sheet.Alpha[..] == SheetAlpha(g * BitsPerGroup)
    modifies sheet.Colors, sheet.Alpha
    ensures px * SheetHeight + py == (g + 1) * BitsPerGroup && 0 <= py < SheetHeight
    ensures sheet.Colors[..] == SheetColors(FillColors(data), (g + 1) * BitsPerGroup)
    ensures sheet.Alpha[..] == SheetAlpha((g + 1) * BitsPerGroup)
  {
    ghost var pix := FillColors(data);
    ghost var p := g * BitsPerGroup;
    px, py := px0, py0;
    for i := 0 to 24
      invariant p == g * BitsPerGroup + i
      invariant px * SheetHeight + py == p && 0 <= py < SheetHeight
      invariant sheet.Valid() && sheet.Width == SheetWidth && sheet.Height == SheetHeight
      invariant sheet.Colors[..] == SheetColors(pix, p) && sheet.Alpha[..] == SheetAlpha(p)
    {
      FillColorAt(data, pix, g, r, i);
      SheetStep(pix, p, px, py);
      var k := if Bit(r, i) then 255 else 0;
      sheet.SetPixel(px, py, k + k + k);
      py := py + 1;
      if py == 48 {
        px := px + 1;
        py := 0;
      }
      p := p + 1;
    }
  }

  /** The outer loop of CreateFontSheet: groups of four characters, each
      giving the next 24 fill pixels of the blank sheet. */
  method FillSheet(sheet: Sprite, data: seq<bv8>)
    requires |data| == DataLength
    requires sheet.Valid() && sheet.Width == SheetWidth && sheet.Height == SheetHeight
    requires sheet.Colors[..] == SheetColors(FillColors(data), 0) && sheet.Alpha[..] == SheetAlpha(0)
    modifies sheet.Colors, sheet.Alpha
    ensures sheet.Colors[..] == SheetColors(FillColors(data), PixelCount) && sheet.Alpha[..] == SheetAlpha(PixelCount)
  {
    ghost var pix := FillColors(data);
    var px, py := 0, 0;
    var b := 0;
    ghost var g := 0;
    while b < 1024
      invariant 0 <= g <= PixelCount / BitsPerGroup && b == 4 * g
      invariant px * SheetHeight + py == g * BitsPerGroup && 0 <= py < SheetHeight
      invariant sheet.Valid() && sheet.Width == SheetWidth && sheet.Height == SheetHeight
      invariant sheet.Colors[..] == SheetColors(pix, g * BitsPerGroup) && sheet.Alpha[..] == SheetAlpha(g * BitsPerGroup)
    {
      var sym1 := Digit(data[b + 0]);
      var sym2 := Digit(data[b + 1]);
      var sym3 := Digit(data[b + 2]);
      var sym4 := Digit(data[b + 3]);
      var r := Pack(sym1, sym2, sym3, sym4);
      WordAt(data, b, g);
      px, py := DecodeGroup(sheet, data, g, r, px, py);
      b := b + 4;
      g := g + 1;
    }
    assert g * BitsPerGroup == PixelCount;
  }

  class Engine {
    const RectWidth: int
    const RectHeight: int
    /** The DIB section memory the window is blitted from. */
    const Buffer: array<int>
    var isRunning: bool
    var font: Sprite?

    /** The buffer holds RectWidth*RectHeight pixels. */
    ghost predicate Valid() {
      0 <= RectWidth && 0 <= RectHeight && Buffer.Length == RectWidth * RectHeight
    }

    /** The font sheet exists, is well formed and is not the buffer. */
    ghost predicate HasFont()
      reads this, font
    {
      font != null && font.Valid() && font.Colors != Buffer
    }

    /** The engine after the buffer allocation of Engine::Create: a zeroed
        buffer of the client size, no font yet, running. */
    constructor (width: int, height: int)
      requires 0 <= width && 0 <= height
      ensures Valid() && RectWidth == width && RectHeight == height
      ensures fresh(Buffer) && font == null && isRunning
      ensures forall i :: 0 <= i < Buffer.Length ==> Buffer[i] == 0
    {
      RectWidth := width;
      RectHeight := height;
      Buffer := new int[width * height](_ => 0);
      isRunning := true;
      font := null;
    }

    function GetWidth(): (w: int)
      requires Valid()
      ensures 0 <= w && w * RectHeight == Buffer.Length
    {
      RectWidth
    }

    function GetHeight(): (h: int)
      requires Valid()
      ensures 0 <= h && RectWidth * h == Buffer.Length
    {
      RectHeight
    }

    /** SetPoint writes one pixel and drops writes outside the buffer. */
    method SetPoint(x: int, y: int, color: int)
      requires Valid()
      modifies Buffer
      ensures Buffer[..] == Put(old(Buffer[..]), RectWidth, RectHeight, x, y, color)
    {
      if x < 0 || x >= GetWidth() || y < 0 || y >= GetHeight() {
        return;
      }
      IndexInRange(RectWidth, RectHeight, x, y);
      Buffer[y * RectWidth + x] := color;
    }

    /** SetLine plots the Bresenham walk from (startX, startY) to
        (endX, endY). */
    method SetLine(startX: int, startY: int, endX: int, endY: int, color: int)
      requires Valid()
      modifies Buffer
      ensures Buffer[..] == PlotAll(old(Buffer[..]), RectWidth, RectHeight, Bresenham.Points(startX, startY, endX, endY), color)
    {
      var axisSwapped, sx, sy, ex, ey, deltaX, deltaY, dirY := OrientLine(startX, startY, endX, endY);
      var error := 0;
      var deltaErr := deltaY + 1;
      var y := sy;
      ghost var st := Bresenham.Prepare(startX, startY, endX, endY);
      ghost var b0 := Buffer[..];
      ghost var plotted: seq<(int, int)> := [];
      var x := sx;
      while x <= ex
        invariant sx <= x <= ex + 1
        invariant Bresenham.ErrorInRange(st, error)
        invariant plotted + Bresenham.Steps(st, x, y, error) == Bresenham.Steps(st, st.x0, st.y0, 0)
        invariant Buffer[..] == PlotAll(b0, RectWidth, RectHeight, plotted, color)
        decreases ex + 1 - x
      {
        ghost var p := Bresenham.Emit(axisSwapped, x, y);
        Bresenham.StepsAdvance(st, plotted, x, y, error, Bresenham.Steps(st, st.x0, st.y0, 0));
        if !axisSwapped {
          SetPoint(x, y, color);
        } else {
          SetPoint(y, x, color);
        }
        PlotAllSnoc(b0, RectWidth, RectHeight, plotted, p, color);
        error := error + deltaErr;
        if error >= deltaX + 1 {
          y := y + dirY;
          error := error - (deltaX + 1);
        }
        plotted := plotted + [p];
        x := x + 1;
      }
      assert plotted == Bresenham.Points(startX, startY, endX, endY);
    }

    /** The innermost loop of the magnified branch: n pixels down from
        (ax, ay). */
    method DrawColumn(ax: int, ay: int, n: nat, color: int)
      requires Valid()
      modifies Buffer
      ensures Buffer[..] == PlotAll(old(Buffer[..]), RectWidth, RectHeight, Column(ax, ay, n), color)
    {
      ghost var b0 := Buffer[..];
      var j := 0;
      while j < n
        invariant 0 <= j <= n
        invariant Buffer[..] == PlotAll(b0, RectWidth, RectHeight, Column(ax, ay, j), color)
      {
        PlotColumnStep(b0, RectWidth, RectHeight, ax, ay, j, color);
        SetPoint(ax, ay + j, color);
        j := j + 1;
      }
    }

    /** The two innermost loops of the magnified branch: a z-by-z block of
        pixels at (ax, ay), column by column. */
    method DrawBlock(ax: int, ay: int, z: nat, color: int)
      requires Valid()
      modifies Buffer
      ensures Buffer[..] == PlotAll(old(Buffer[..]), RectWidth, RectHeight, Block(ax, ay, z, z), color)
    {
      ghost var b0 := Buffer[..];
      var i := 0;
      while i < z
        invariant 0 <= i <= z
        invariant Buffer[..] == PlotAll(b0, RectWidth, RectHeight, Block(ax, ay, z, i), color)
      {
        PlotBlockStep(b0, RectWidth, RectHeight, ax, ay, z, i, color);
        DrawColumn(ax + i, ay, z, color);
        i := i + 1;
      }
    }

    /** One lit glyph pixel (i, j) of a glyph cell at (cx, cy): a
        scale-by-scale block when the scale exceeds 1, a single pixel
        otherwise. */
    method DrawGlyphPixel(cx: int, cy: int, i: nat, j: nat, scale: nat, color: int)
      requires Valid()
      modifies Buffer
      ensures var z := Zoom(scale);
              Buffer[..] == PlotAll(old(Buffer[..]), RectWidth, RectHeight, Block(cx + Span(i, z), cy + Span(j, z), z, z), color)
    {
      if scale > 1 {
        ZoomedBlock(cx, cy, i, j, scale);
        DrawBlock(cx + i * scale, cy + j * scale, scale, color);
      } else {
        ghost var before := Buffer[..];
        UnitBlock(cx, cy, i, j, scale);
        SetPoint(cx + i, cy + j, color);
        PlotUnitBlock(before, RectWidth, RectHeight, cx + i, cy + j, color);
      }
    }

    /** Glyph pixel (i, j) of glyph (ox, oy): drawn only when its colour in
        the font sheet is positive. */
    method DrawGlyphCell(ox: int, oy: int, cx: int, cy: int, scale: nat, i: nat, j: nat, color: int)
      requires Valid() && HasFont()
      modifies Buffer
      ensures Buffer[..] == PlotAll(old(Buffer[..]), RectWidth, RectHeight,
                                    GlyphCell(LitPixels(old(FontOf(font))), 8 * ox, 8 * oy, cx, cy, Zoom(scale), i, j), color)
    {
      ghost var lit := LitPixels(FontOf(font));
      LitPixelOf(font, ox, oy, i, j);
      if font.GetPixelColor(i + ox * 8, j + oy * 8) > 0 {
        DrawGlyphPixel(cx, cy, i, j, scale, color);
      } else {
        assert GlyphCell(lit, 8 * ox, 8 * oy, cx, cy, Zoom(scale), i, j) == [];
      }
    }

    /** The j loop of DrawTextLine for column i of glyph (ox, oy). */
    method DrawGlyphColumn(ox: int, oy: int, cx: int, cy: int, scale: nat, i: nat, color: int)
      requires Valid() && HasFont()
      modifies Buffer
      ensures Buffer[..] == PlotAll(old(Buffer[..]), RectWidth, RectHeight,
                                    GlyphColumn(LitPixels(FontOf(font)), 8 * ox, 8 * oy, cx, cy, Zoom(scale), i, 8), color)
    {
      ghost var lit := LitPixels(FontOf(font));
      ghost var b0 := Buffer[..];
      var j := 0;
      while j < 8
        invariant HasFont() && LitPixels(FontOf(font)) == lit
        invariant 0 <= j <= 8
        invariant Buffer[..] == PlotAll(b0, RectWidth, RectHeight, GlyphColumn(lit, 8 * ox, 8 * oy, cx, cy, Zoom(scale), i, j), color)
      {
        PlotGlyphColumnStep(b0, RectWidth, RectHeight, lit, 8 * ox, 8 * oy, cx, cy, Zoom(scale), i, j, color);
        DrawGlyphCell(ox, oy, cx, cy, scale, i, j, color);
        j := j + 1;
      }
    }

    /** The glyph loops of DrawTextLine for one character: glyph (ox, oy) of
        the font sheet drawn with its top-left corner at (cx, cy), column by
        column. */
    method DrawGlyph(ox: int, oy: int, cx: int, cy: int, scale: nat, color: int)
      requires Valid() && HasFont()
      modifies Buffer
      ensures Buffer[..] == PlotAll(old(Buffer[..]), RectWidth, RectHeight,
                                    Glyph(LitPixels(old(FontOf(font))), 8 * ox, 8 * oy, cx, cy, Zoom(scale), 8), color)
    {
      ghost var lit := LitPixels(FontOf(font));
      ghost var z := Zoom(scale);
      ghost var b0 := Buffer[..];
      var i := 0;
      while i < 8
        invariant HasFont() && LitPixels(FontOf(font)) == lit
        invariant 0 <= i <= 8
        invariant Buffer[..] == PlotAll(b0, RectWidth, RectHeight, Glyph(lit, 8 * ox, 8 * oy, cx, cy, z, i), color)
      {
        PlotGlyphStep(b0, RectWidth, RectHeight, lit, 8 * ox, 8 * oy, cx, cy, z, i, color);
        DrawGlyphColumn(ox, oy, cx, cy, scale, i, color);
        i := i + 1;
      }
    }

    /** One iteration of DrawTextLine's loop: character c drawn with the
        cursor at (sx, sy), and the cursor after it. */
    method DrawChar(x: int, y: int, c: CChar, sx: int, sy: int, color: int, scale: nat) returns (nx: int, ny: int)
      requires Valid() && HasFont()
      modifies Buffer
      ensures (nx, ny) == Advance((sx, sy), c, scale)
      ensures Buffer[..] == PlotAll(old(Buffer[..]), RectWidth, RectHeight, CharPoints(old(FontOf(font)), c, x + sx, y + sy, scale), color)
    {
      ghost var f := FontOf(font);
      if c == NewLine {
        assert CharPoints(f, c, x + sx, y + sy, scale) == [];
        nx := 0;
        ny := sy + 8 * scale;
      } else {
        var ox := TruncMod(c as int - 32, 16);
        var oy := TruncDiv(c as int - 32, 16);
        assert CharPoints(f, c, x + sx, y + sy, scale) == Glyph(LitPixels(f), 8 * ox, 8 * oy, x + sx, y + sy, Zoom(scale), 8);
        DrawGlyph(ox, oy, x + sx, y + sy, scale, color);
        nx := sx + 8 * scale;
        ny := sy;
      }
    }

    /** DrawTextLine draws the characters of text from (x, y) on, moving the
        cursor 8*scale right per character and to the start of the next
        text line on '\n'. */
    method DrawTextLine(x: int, y: int, text: seq<CChar>, color: int, scale: nat)
      requires Valid() && HasFont()
      modifies Buffer
      ensures Buffer[..] == PlotAll(old(Buffer[..]), RectWidth, RectHeight,
                                    TextLayout.Points(FontOf(font), x, y, text, scale), color)
    {
      ghost var f := FontOf(font);
      ghost var whole := TextLayout.Points(f, x, y, text, scale);
      ghost var b0 := Buffer[..];
      ghost var drawn: seq<(int, int)> := [];
      var sx, sy := 0, 0;
      for k := 0 to |text|
        invariant HasFont() && FontOf(font) == f
        invariant (sx, sy) == Cursor(text[..k], scale)
        invariant drawn + PointsFrom(f, x, y, text[k..], scale, sx, sy) == whole
        invariant Buffer[..] == PlotAll(b0, RectWidth, RectHeight, drawn, color)
      {
        TextStep(f, x, y, text, scale, k, sx, sy, drawn, whole);
        ghost var here := CharPoints(f, text[k], x + sx, y + sy, scale);
        PlotAllAppend(b0, RectWidth, RectHeight, drawn, here, color);
        sx, sy := DrawChar(x, y, text[k], sx, sy, color, scale);
        drawn := drawn + here;
      }
      TextEnd(f, x, y, text, scale, sx, sy, drawn, whole);
    }

    /** CreateFontSheet decodes the font string into a fresh 128x48 sprite,
        24 bits per group of four characters, filling the sheet column by
        column. */
    method CreateFontSheet(data: seq<bv8>)
      requires Valid() && |data| == DataLength
      modifies this
      ensures HasFont() && fresh(font)
      ensures isRunning == old(isRunning)
      ensures font.Width == SheetWidth && font.Height == SheetHeight
      ensures forall px, py :: InBounds(SheetWidth, SheetHeight, px, py) ==>
                font.GetPixelColor(px, py) == PixelColor(data, px * SheetHeight + py) &&
                font.GetPixelAlpha(px, py)
    {
      var sheet := new Sprite(128, 48);
      font := sheet;
      FillSheet(sheet, data);
      FontSheetReadBack(sheet, data, FillColors(data));
    }
  }
}
