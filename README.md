# WinAPI-GameEnigne rasterizer core in Dafny

This project models the software rasterizer of the `tde` engine (`Enigne.cpp` / `Enigne.h`) and the small game-side state holders it ships with, and proves what these routines do.

- **Sprite storage.** A `Sprite` keeps two row-major planes, colour and alpha, each `Width*Height` long. Reads outside the sprite return the sentinels `0` and `false`. Writes outside it are dropped, and a write inside also marks the pixel opaque.
- **Engine off-screen buffer.** The buffer holds `RectWidth*RectHeight` colours, addressed `y*RectWidth + x`. The drawing primitives write into it:
  - `SetPoint` writes one pixel.
  - `SetLine` is the engine's integer Bresenham walk.
  - `DrawTextLine` blits 8x8 glyphs from the font sheet, magnified `scale` times when the scale exceeds 1.
- **Font sheet.** `CreateFontSheet` decodes the baked font string into a 128x48 sprite, 24 pixels per group of four characters, filling the sheet column by column.
- **Colour packing.** `ConvertGdiColorToHEX` is modelled over three integer components.
- **State holders.**
  - `Animation`: its frame queue and flags.
  - `GameObject` and `Weapon`: their `GameObjectState`-keyed animation tables, with `std::map::operator[]`'s insert-on-miss behaviour.

Every drawing method is proved against a pure list of the points it plots:
- `Bresenham.Points` for `SetLine`.
- `TextLayout.Points` for `DrawTextLine`.

The buffer afterwards is the old buffer with those points written in order (`Raster.PlotAll`). The lemmas then say what those lists are:
- `SetLine` plots `max(|dx|, |dy|) + 1` points, from one endpoint to the other, one major-axis step at a time, with the closed form of the error accumulator.
- `DrawTextLine` plots a point (passes it to `SetPoint`) exactly when, for some character k other than a newline, it lies in that character's `8z x 8z` cell and magnifies a lit glyph pixel. The cell is placed at `(x, y)` plus the cursor after the first k characters (`TextPlacement.TextPointsExact`). `SetPoint` drops the points outside the buffer; `Raster.PlotAllEffect` says what the buffer holds afterwards.
- The cursor is `8*scale` per character since the last newline across, and `8*scale` per newline down. With scale 0 it never moves, so every glyph is drawn at `(x, y)` (`TextPlacement.TextZeroScale`).
- Characters below 32, including negative `char`s, draw nothing; the cursor still advances past them.

The font decoder is proved to give every sheet pixel the colour of its fill bit and to make every pixel opaque.

Modules, one per file:

| module | file | contents |
|---|---|---|
| `Arith` | arith.dfy | division and multiplication facts |
| `Raster` | raster.dfy | row-major addressing, the guarded read and write, plotting a point list |
| `CTypes` | ctypes.dfy | the signed `char`, C++ truncating `/` and `%` |
| `Palette` | palette.dfy | `ConvertGdiColorToHEX` |
| `Sprites` | sprite.dfy | `Sprite` |
| `Bresenham` | bresenham.dfy | the points `SetLine` plots |
| `TextLayout` | text.dfy | the points `DrawTextLine` plots |
| `TextPlacement` | placement.dfy | where each character of the text is drawn |
| `FontSheet` | font.dfy | the decoding done by `CreateFontSheet` |
| `Engines` | engine.dfy | `Engine`, its drawing methods and the font-sheet loops |
| `Entities` | entities.dfy | the enumerations, `Animation`, `GameObject`, `Weapon` |

Some loop nests of the source are split into one method per loop, each with its own contract:
- `DrawColumn`, `DrawBlock`, `DrawGlyphPixel`, `DrawGlyphCell`, `DrawGlyphColumn`, `DrawGlyph` and `DrawChar` for `DrawTextLine`.
- `DecodeGroup` and `FillSheet` for `CreateFontSheet`.
- `OrientLine` for the set-up of `SetLine`.

The statements run in the source's order. One exception: the `scale > 1` test sits in `DrawGlyphPixel`, at each lit glyph pixel, rather than around the loops. Both branches plot the same `Zoom(scale)`-sized blocks in the same order, so the points written are the same.

## Model

| member | source | states |
|---|---|---|
| Raster.IndexInRange | Enigne.cpp:60-66 | an in-bounds pixel's address `y*w + x` lies inside the `w*h` plane |
| Raster.IndexInjective | Enigne.cpp:86-93 | two in-bounds pixels share an address only when they are the same pixel |
| Raster.Get | Enigne.cpp:60-66 | the guarded read gives the sentinel for every pixel outside the plane |
| Raster.Put | Enigne.cpp:86-93 | the guarded write keeps the plane's length and changes nothing for a pixel outside it |
| Raster.GetPut | Enigne.cpp:86-93 | after a write, the written in-bounds pixel reads the new value and every other pixel reads what it read before |
| Raster.PlotAll | Enigne.cpp:311-319 | writing a list of points in order keeps the buffer's length |
| Raster.PlotAllAppend | Enigne.cpp:297-307 | plotting a concatenation is plotting the first list and then the second |
| Raster.PlotAllSnoc | Enigne.cpp:297-307 | plotting one more point is one more guarded write |
| Raster.PlotAllEffect | Enigne.cpp:311-319 | after plotting, an in-bounds pixel on the list holds the colour and a pixel off the list is unchanged |
| CTypes.TruncDiv | Enigne.cpp:334-335 | C++ `/` truncates toward zero: for `a >= 0`, `q*b` is the largest multiple of b not above a; for `a < 0`, the smallest not below it, and never positive |
| CTypes.TruncMod | Enigne.cpp:334-335 | C++ `%` has the sign of a and is smaller than b in size |
| CTypes.TruncDivMod | Enigne.cpp:334-335 | C++ `/` and `%` satisfy `a == b*(a/b) + a%b`, agree with Euclidean division for `a >= 0`, and give a non-positive quotient and a remainder in `(-b, 0]` for `a < 0` |
| Palette.ConvertGdiColorToHex | Enigne.cpp:16-19 | the packed colour is below `2^24` |
| Palette.HexComponents | Enigne.cpp:16-19 | red, green and blue, each taken modulo 256, are recovered from bits 16-23, 8-15 and 0-7 |
| Palette.HexInjective | Enigne.cpp:16-19 | two colours pack to the same word exactly when their three bytes agree |
| Sprites.Sprite.constructor | Enigne.cpp:32-37 | a `width x height` sprite with fresh planes, every pixel colour 0 and transparent |
| Sprites.Sprite.Create | Enigne.cpp:95-105 | both planes are fresh, `width*height` long, and cleared to 0 and `false` |
| Sprites.Sprite.SpriteWidth | Enigne.cpp:42 | the width is non-negative, and width times height is the plane's length |
| Sprites.Sprite.SpriteHeight | Enigne.cpp:40 | the height is non-negative, and width times height is the plane's length |
| Sprites.Sprite.GetPixelColor | Enigne.cpp:60-66 | the colour at `y*Width + x` inside the sprite, 0 outside it |
| Sprites.Sprite.GetPixelAlpha | Enigne.cpp:78-84 | the alpha at `y*Width + x` inside the sprite, `false` outside it |
| Sprites.Sprite.SetPixel | Enigne.cpp:86-93 | inside the sprite the pixel reads back the colour and is opaque; every other pixel is unchanged; outside nothing changes |
| Bresenham.Prepare | Enigne.cpp:272-295 | axes swapped exactly when `abs(dx) < abs(dy)`; endpoints ordered by the working x; `deltaY <= deltaX`; `dirY` is the sign of the minor delta |
| Bresenham.Steps | Enigne.cpp:297-307 | definition, no contract: the points the loop plots from working column x with row y and accumulator `error`. `StepsLength`, `StepsAt`, `StepsStep` and `StepsEnds` are the lemmas about it |
| Bresenham.Points | Enigne.cpp:268-309 | definition, no contract: `Prepare`, then the walk from the first working endpoint with accumulator 0. `PointsLength`, `Endpoints` and `PointsStep` are the lemmas about it |
| Bresenham.StepsAdvance | Enigne.cpp:297-307 | one loop iteration: the points plotted so far plus the rest of the walk stay the whole walk, and `0 <= error < deltaX + 1` is kept |
| Bresenham.StepsLength | Enigne.cpp:297 | the walk from working column x plots `x1 + 1 - x` points |
| Bresenham.CarryStep | Enigne.cpp:302-306 | one step either moves the row by `dirY` or leaves the carry in the accumulator, and the row plus the carries still due is unchanged |
| Bresenham.StepsAt | Enigne.cpp:297-307 | the k-th point is at working column `x + k`, its row moved by `dirY` times the number of whole `deltaX + 1` in `error + k*(deltaY + 1)` |
| Bresenham.FinalRow | Enigne.cpp:302-306 | after `deltaX` steps the accumulator has carried exactly `deltaY` times |
| Bresenham.StepsEnds | Enigne.cpp:283-307 | the walk has `deltaX + 1` points, from the first working endpoint to the second |
| Bresenham.PointsLength | Enigne.cpp:268-309 | `SetLine` plots exactly `max(abs(dx), abs(dy)) + 1` points |
| Bresenham.Endpoints | Enigne.cpp:268-309 | the first plotted point is the endpoint with the smaller major coordinate and the last is the other one |
| Bresenham.StepsStep | Enigne.cpp:297-307 | consecutive working points: major coordinate +1, minor coordinate +0 or +`dirY` |
| Bresenham.PointsStep | Enigne.cpp:268-309 | consecutive plotted points: major coordinate +1, minor coordinate +0 or one unit toward the last point |
| Bresenham.SlopedExample | Enigne.cpp:268-309 | `SetLine(0,0,3,1)` plots (0,0), (1,0), (2,1), (3,1) |
| Bresenham.SteepExample | Enigne.cpp:272-286 | `SetLine(0,2,0,0)` swaps both the axes and the endpoints, and plots (0,0), (0,1), (0,2) |
| TextLayout.GlyphX | Enigne.cpp:334 | the glyph column `(c - 32) % 16` lies strictly between -16 and 16, and is non-negative for a character from 32 on |
| TextLayout.GlyphY | Enigne.cpp:335 | the glyph row `(c - 32) / 16` of a signed char lies in -10 .. 5, and is non-negative for a character from 32 on |
| TextLayout.Advance | Enigne.cpp:328-353 | definition, no contract: a '\n' moves the cursor to column 0 and `8*scale` down; any other character moves it `8*scale` right. `CursorForm` and `CursorStep` are the lemmas about it |
| TextLayout.CharPoints | Enigne.cpp:334-351 | definition, no contract: nothing for a '\n', otherwise the glyph's lit blocks column by column. `CharPointsExact` and `ControlCharsDrawNothing` are the lemmas about it |
| TextLayout.PointsFrom | Enigne.cpp:326-355 | definition, no contract: each character's points at the running cursor, in text order. `TextStep`, `PointsFromFirst` and `SuffixMembers` are the lemmas about it |
| TextLayout.Points | Enigne.cpp:321-356 | definition, no contract: the text drawn from cursor (0, 0). `TextMembers`, `TextPointsExact` and `TextZeroScale` are the lemmas about it |
| TextLayout.LitPixels | Enigne.cpp:341 | the sheet pixels drawn are exactly those whose `GetPixelColor` is positive |
| TextLayout.SpanIsProduct | Enigne.cpp:344 | k cells of size z span `k*z` pixels |
| TextLayout.PlotColumnStep | Enigne.cpp:343-344 | the `js` loop, one more iteration: one more `SetPoint` below the last |
| TextLayout.PlotBlockStep | Enigne.cpp:342-344 | the `is` loop, one more iteration: one more column of `scale` pixels |
| TextLayout.PlotUnitBlock | Enigne.cpp:351 | in the 1:1 branch a lit glyph pixel is one `SetPoint` |
| TextLayout.ZoomedBlock | Enigne.cpp:344 | the block of glyph pixel (i, j) starts at `(cx + i*scale, cy + j*scale)` and is `scale x scale` |
| TextLayout.UnitBlock | Enigne.cpp:351 | in the 1:1 branch the block of glyph pixel (i, j) is the single pixel `(cx + i, cy + j)` |
| TextLayout.PlotGlyphColumnStep | Enigne.cpp:340-344 | the j loop, one more iteration: the block of pixel (i, j), or nothing when it is not lit |
| TextLayout.PlotGlyphStep | Enigne.cpp:339-344 | the i loop, one more iteration: the next glyph column |
| TextLayout.TextStep | Enigne.cpp:326-355 | one character of the text loop: the characters drawn plus the rest stay the whole text, and the cursor moves one `Advance` |
| TextLayout.TextEnd | Enigne.cpp:326-355 | loop glue: the exit step of `DrawTextLine`'s loop invariant, where the points drawn are the whole text's |
| TextLayout.CursorForm | Enigne.cpp:323-353 | after any prefix the cursor is `(8*scale*`characters since the last newline`, 8*scale*`newlines`)` |
| TextLayout.CursorZeroScale | Enigne.cpp:328-353 | with scale 0 the cursor stays at (0, 0) after any prefix of the text |
| TextLayout.ColumnMembers | Enigne.cpp:343-344 | the `js` loop plots exactly the points `(ax, ay .. ay+n-1)` |
| TextLayout.BlockColumnAdded | Enigne.cpp:342-344 | one more `is` column extends the written rectangle by one column |
| TextLayout.BlockMembers | Enigne.cpp:342-344 | the `is`/`js` loops write exactly the `n x z` rectangle at (ax, ay) |
| TextLayout.GlyphColumnRow | Enigne.cpp:340-344 | one more j row adds exactly the block of that row when its glyph pixel is lit |
| TextLayout.GlyphColumnMembers | Enigne.cpp:340-344 | glyph column i plots a point exactly when it is in the column's stripe and the glyph pixel it magnifies is lit |
| TextLayout.GlyphColumnAdded | Enigne.cpp:339-344 | one more i column adds exactly that column's lit blocks |
| TextLayout.GlyphMembers | Enigne.cpp:339-351 | a glyph plots a point exactly when it lies in the `8z x 8z` cell and the glyph pixel it magnifies is lit |
| TextLayout.CharPointsExact | Enigne.cpp:334-351 | a character other than a newline plots a point exactly when `InCell` holds: the pixel lies in its cell and the glyph pixel it magnifies, found by dividing the offset by z, has a positive colour |
| TextLayout.ControlCharsDrawNothing | Enigne.cpp:334-353 | a character below 32 (including negative `char`s) plots nothing |
| TextLayout.PrintableGlyphInSheet | Enigne.cpp:334-335 | a character from 32 to 127 selects an 8x8 glyph inside the 128x48 sheet |
| TextPlacement.PointsFromFirst | Enigne.cpp:326-355 | a pixel of a non-empty text is written by its first character at the cursor, or by the rest of the text drawn from the cursor advanced past it |
| TextPlacement.CursorStep | Enigne.cpp:328-353 | the cursor after k + 1 characters is the cursor after k characters advanced past character k |
| TextPlacement.SuffixMembers | Enigne.cpp:326-355 | from the cursor after the first k characters, the rest of the text plots exactly the points of characters k onwards, each drawn at `(x, y)` plus the cursor after the characters before it |
| TextPlacement.TextMembers | Enigne.cpp:321-356 | `DrawTextLine` plots a point exactly when some character k plots it with its cell at `(x, y)` plus `Cursor(text[..k])` |
| TextPlacement.CharAtExact | Enigne.cpp:328-353 | character k plots a point exactly when it is not a newline and the pixel is `InCell` for its glyph with the cell at `(x, y)` plus its cursor |
| TextPlacement.TextPointsExact | Enigne.cpp:321-356 | `DrawTextLine` plots a point (passes it to `SetPoint`, which drops it outside the buffer; see `Raster.PlotAllEffect`) exactly when some character other than a newline has it in its `8z x 8z` cell, placed at `(x, y)` plus that character's cursor, and the glyph pixel it magnifies is lit |
| TextPlacement.CharAtZeroScale | Enigne.cpp:328-353 | with scale 0 character k is drawn with its cell at `(x, y)` |
| TextPlacement.TextZeroScale | Enigne.cpp:321-356 | with scale 0 `DrawTextLine` plots a point exactly when the glyph of some character, drawn at `(x, y)`, plots it |
| FontSheet.Digit | Enigne.cpp:398-401 | definition, no contract: the char sign-extended to 32 bits, minus 48, modulo `2^32`. `DigitValue` is the lemma about it |
| FontSheet.Pack | Enigne.cpp:402 | definition, no contract: four digits shifted 18, 12, 6 and 0 bits and or-ed. `PackValue` and `PackBit` are the lemmas about it |
| FontSheet.Word | Enigne.cpp:398-402 | definition, no contract: the packed word of group g's four characters. `WordValue` and `FillColorAt` are the lemmas about it |
| FontSheet.Bit | Enigne.cpp:406 | definition, no contract: `r & (1 << i)` taken as a truth value. `PackBit` and `PixelColor` are stated with it |
| FontSheet.PixelColor | Enigne.cpp:406-407 | a fill pixel's colour is 765 or 0, and 765 exactly when its bit of the group word is set |
| FontSheet.WordAt | Enigne.cpp:398-402 | loop glue: `Word` unfolded at the loop's index `b = 4g`, which `DecodeGroup` needs |
| FontSheet.DigitValue | Enigne.cpp:398-401 | a character from '0' to 'o' gives the 6-bit digit `c - 48` |
| FontSheet.PackValue | Enigne.cpp:402 | with 6-bit digits the packed word is their base-64 value and is below `2^24` |
| FontSheet.PackBit | Enigne.cpp:402-406 | bit i of the word is bit `i mod 6` of digit `3 - i/6` |
| FontSheet.WordValue | Enigne.cpp:398-402 | with baked-string digits every group word is below `2^24`, so the 24 bits read are the whole word |
| FontSheet.FillOrder | Enigne.cpp:404-408 | sheet pixel (px, py) is fill pixel `px*48 + py`, and this correspondence is one-to-one |
| FontSheet.FillOrderInverse | Enigne.cpp:404-408 | fill pixel p lands on (p/48, p%48), inside the sheet |
| FontSheet.FillColors | Enigne.cpp:404-407 | the 6144 fill colours, each the colour of its bit |
| FontSheet.SheetColors | Enigne.cpp:407 | the colour plane after n fill steps has the sheet's size |
| FontSheet.SheetAlpha | Enigne.cpp:407 | the alpha plane after n fill steps has the sheet's size |
| FontSheet.FillColorAt | Enigne.cpp:404-407 | bit i of group g's word is the colour of fill pixel `g*24 + i` |
| FontSheet.SheetStep | Enigne.cpp:407-408 | fill step p writes sheet pixel (px, py) exactly when `p == px*48 + py` |
| FontSheet.SheetColorsAt | Enigne.cpp:395-410 | after n fill steps exactly the pixels numbered below n hold their fill colour and the rest are 0 |
| FontSheet.SheetAlphaAt | Enigne.cpp:395-410 | after n fill steps exactly the pixels numbered below n are opaque |
| FontSheet.SheetComplete | Enigne.cpp:395-410 | after all 6144 steps every sheet pixel holds its fill colour and is opaque |
| Engines.FontOf | Enigne.cpp:341 | the font as `DrawTextLine` reads it agrees with `GetPixelColor` at every pixel |
| Engines.LitPixelOf | Enigne.cpp:341 | glyph pixel (i, j) of glyph (ox, oy) is drawn exactly when the sheet's colour at `(i + 8*ox, j + 8*oy)` is positive |
| Engines.OrientLine | Enigne.cpp:272-295 | the set-up statements of `SetLine` compute `Bresenham.Prepare` |
| Engines.FontSheetReadBack | Enigne.cpp:395-410 | the completed sheet reads back every fill colour through `GetPixelColor` and is opaque through `GetPixelAlpha` |
| Engines.DecodeGroup | Enigne.cpp:404-409 | the 24 bits of one word become the next 24 fill pixels, with (px, py) advancing down the column and wrapping after row 47 |
| Engines.FillSheet | Enigne.cpp:395-410 | the 256 groups fill all 6144 pixels of the blank sheet |
| Engines.Engine.constructor | Enigne.h:175-181 | a zeroed `RectWidth*RectHeight` buffer, no font, running |
| Engines.Engine.GetWidth | Enigne.cpp:362-364 | the width is non-negative, and width times height is the buffer's length |
| Engines.Engine.GetHeight | Enigne.cpp:358-360 | the height is non-negative, and width times height is the buffer's length |
| Engines.Engine.SetPoint | Enigne.cpp:311-319 | the buffer is the guarded write of (x, y): unchanged outside, only `y*RectWidth + x` changed inside |
| Engines.Engine.SetLine | Enigne.cpp:268-309 | the buffer is the old one with the Bresenham points plotted in order |
| Engines.Engine.DrawColumn | Enigne.cpp:343-344 | the `js` loop plots its column of pixels |
| Engines.Engine.DrawBlock | Enigne.cpp:342-344 | the `is`/`js` loops plot the `scale x scale` block |
| Engines.Engine.DrawGlyphPixel | Enigne.cpp:337-351 | one lit glyph pixel plots its `Zoom(scale)`-sized block |
| Engines.Engine.DrawGlyphCell | Enigne.cpp:341-351 | glyph pixel (i, j) plots its block when its sheet colour is positive and nothing otherwise |
| Engines.Engine.DrawGlyphColumn | Enigne.cpp:340-351 | the j loop plots the lit blocks of glyph column i |
| Engines.Engine.DrawGlyph | Enigne.cpp:337-352 | the i and j loops plot the lit blocks of the glyph |
| Engines.Engine.DrawChar | Enigne.cpp:328-354 | one character plots its glyph (nothing for '\n') and moves the cursor as `Advance` says |
| Engines.Engine.DrawTextLine | Enigne.cpp:321-356 | the buffer is the old one with `TextLayout.Points` of the text plotted in order |
| Engines.Engine.CreateFontSheet | Enigne.cpp:373-411 | a fresh 128x48 font sheet whose every pixel holds its decoded fill colour and is opaque |
| Entities.GameObjectState.Value | Enigne.h:22-30 | the enumerator numbers lie in 0..6, and 0 is exactly `NONE` |
| Entities.StateOf | Enigne.h:22-30 | a number names a state exactly when it is in 0..6, and then that state's number is the given one |
| Entities.StateValueRoundTrip | Enigne.h:22-30 | every state is recovered from its number |
| Entities.StateValueInjective | Enigne.h:22-30 | two states have the same number exactly when they are equal |
| Entities.WeaponType.Value | Enigne.h:32-35 | `Cold` is 0 and `FireArm` is 1 |
| Entities.Animation.constructor | Enigne.h:71-95 | a new animation has no frames, no current sprite, and every flag and the frame count clear |
| Entities.Animation.IsPlaing | Enigne.cpp:131-133 | accessor, no contract: the playing flag. The constructor clears it and `Play`, `DeleyedStart` and `AssignFrame` keep it, so the base class never reports playing |
| Entities.Animation.IsEmpty | Enigne.cpp:135-137 | empty exactly when no frame was assigned, and then there is no current sprite |
| Entities.Animation.GetCurrentSprite | Enigne.cpp:139-142 | the frame assigned last, or null before any |
| Entities.Animation.Play | Enigne.cpp:144-147 | changes nothing and hands back the frame assigned last, or null |
| Entities.Animation.DeleyedStart | Enigne.cpp:149-152 | sets the delayed flag to the argument and changes nothing else |
| Entities.Animation.AssignFrame | Enigne.cpp:154-158 | pushes the sprite at the back of the queue; it becomes the current sprite and the animation is no longer empty |
| Entities.Subscript | Enigne.h:200-203 | `operator[]`: the key set grows by at most the key, no existing entry changes, an absent key gets null, and the value read is the key's entry |
| Entities.SubscriptIdempotent | Enigne.h:200-203 | a second `operator[]` with the same key inserts nothing and reads the same entry |
| Entities.GameObject.constructor | Enigne.cpp:413-420 | no animations, not marked for removal, the given initial state |
| Entities.GameObject.GetCurrentState | Enigne.cpp:446-449 | accessor, no contract: the current state, which `SetCurrentState`'s contract is stated with |
| Entities.GameObject.SetCurrentState | Enigne.cpp:438-444 | `NONE` leaves the state as it was and any other state is stored; once a real state is set the object never returns to `NONE` |
| Entities.GameObject.GetAnimation | Enigne.cpp:422-428 | `NONE` gives a fresh empty animation and leaves the table unchanged; any other state is an `operator[]` lookup |
| Entities.GameObject.GetAnimationByCurrentState | Enigne.cpp:430-436 | the same lookup for the current state |
| Entities.Weapon.constructor | Enigne.h:190-197 | an empty animation table and no current animation |
| Entities.Weapon.GetAnimation | Enigne.h:200-203 | an `operator[]` lookup on the weapon's table |
| Entities.Weapon.GetCurrentAnimation | Enigne.h:205-208 | accessor, no contract: the animation the last trigger started, which `OnMouseButtonDown`'s contract is stated with |
| Entities.Weapon.OnMouseButtonDown | Enigne.h:212-216 | for a non-null entry: it becomes the current animation, it is marked delayed, the table and the rest of that animation are unchanged |

## Left out

- Win32 and GDI+ glue is not modelled: `WindowProc`, `Engine::Create`, `Show`, `Run`, the window thread, `StretchDIBits`, `VirtualAlloc`, `GdiplusStartup` and `Sleep`. This is operating-system I/O. The off-screen buffer and its size are arguments of the `Engine` constructor, and the buffer starts zeroed, as `VirtualAlloc` memory does.
- `Sprite(const wchar_t*)` and `Sprite::Load` are file I/O and are not modelled. Nor is the file name with its accessor `GetFileName`, which is set only by that constructor. The file constructor and `Load` are the only paths that leave a sprite's planes null (a failed open). Every sprite in the model therefore has both planes. So the `AplhaChannels == nullptr` guard of `GetPixelAlpha` and `GetSampleAlpha` never fires, and the model does not include it.
- `Sprites.Sprite.constructor` requires a non-negative width and height: the path where C++ `new int[width * height]` throws for a negative size is not modelled. The only sprite the core creates is the 128x48 font sheet.
- The default `Sprite()` is not modelled. It calls `Create(8, 8)` while `Width` and `Height` are still uninitialised, and `Create`'s clearing loop runs to `Width*Height`. In the one modelled constructor, the fields equal `Create`'s arguments.
- `GetSampleColor` and `GetSampleAlpha` scale floats and truncate them to int; floating point is not modelled.
- Destructors are not modelled: `delete` where `delete[]` is due, and `shared_ptr` reference counting. Memory management is outside the model.
- `AudioSource`, the float fields of `GameObject` (`X`, `Y`, `Vx`, `Vy`) and its `Audio` map are not modelled. The audio class is an empty stub and its playback is commented out.
- `Reload` and the pure virtual hooks (`OnWindowCreate`, `OnWindowUpdate`, `Process`, `DrawSelf`) are abstract, game-specific code and are not modelled.
- `Animation`'s `counter` and `idleTime` have no initialiser and no operation in the core uses them, so they are not modelled. `Play`'s float parameters are accepted and ignored, as they are in the source.
- `Entities.GameObject.constructor`: `CurrentState` is never initialised in the C++ constructor, so the model takes it as an argument. `Weapon::Type` has no initialiser either and is likewise an argument of `Entities.Weapon.constructor`.
- `Engines.Engine.CreateFontSheet`: the 1024-character baked string is a parameter `data` of bytes rather than a transcribed constant. The decoding is exact for any bytes, including the sign extension of a negative `char`. The digit bounds of `FontSheet.WordValue` hold for the baked string, whose every character lies from '0' to 'o'.
- `Engines.Engine.SetLine`, `Engines.Engine.DrawTextLine` and `Engines.Engine.SetPoint` use unbounded integers for coordinates, the cursor and `8*scale`. They do not model the 32-bit wrap-around of `int`, `int32_t` and `uint32_t`. Values are taken to be in range, so `i + ox*8` and `x + sx + i*scale + is` are computed exactly.
- Colours are unbounded integers, so the `uint32_t` to `int32_t` conversions between `SetPixel`, `SetPoint` and `DrawTextLine` are not modelled. The colours the core computes itself are below `2^24`, where those conversions change nothing.
- C++ default arguments are not modelled: `DrawTextLine`'s `color = 0, scale = 3` (Enigne.h:159) and `Play`'s `animationSpeed = 1.0f, force = true` (Enigne.h:79). Every call in the model passes all arguments.
- The text is a sequence of signed 8-bit values (`CTypes.CChar`); `std::string` storage is not modelled.
