# spxfont rendering core in Dafny

This project models the rendering half of `spxfont.h`, the Simple Pixel Font header library. That half has three parts:

- **The glyph cache.** `spxFontSize` rebuilds a font's table of 128 glyphs in place. The table is the class `GlyphCache.Font2D`, which holds an `array<Glyph>`. The FreeType face is a deterministic function `Face` from (pixel size, character code) to an optional bitmap.
- **The glyph blitter.** `spxFontDrawGlyph`, together with `pxMix` and `mix8`, blends a glyph's coverage mask into a caller-owned pixel array. It also returns an overflow count.
  - The method `Blitter.DrawGlyph` is proved against two things. One is `Blit`, a scan-order specification of the pixels it leaves. The other is `OverflowCount`, a closed formula for the value it returns.
  - `mix8` is an abstract function `Mix8`. Only its two exact values are assumed, through the predicate `ExactAtEndpoints`: weight 0 gives `a` and weight 255 gives `b`.
- **The text compositor.** `spxFontDrawText` walks a string, draws each glyph at the pen, and moves the pen right by `advance >> 6`. It stops, adding one to its result, once the pen reaches the texture width.
  - The method `TextLayout.DrawText` is proved against the function `Layout`.
  - `Layout` is then characterised as a fold over the first `DrawnCount` characters (`LayoutDrawsPrefix`). Character i is blitted at the start pen shifted by the advances before it. The loop stops at the first character that moves the pen to `width` or beyond. The result is the sum of the drawn glyphs' counts, plus one exactly when the loop broke.

Modules:

| module | file | contents |
|---|---|---|
| `SpxTypes` | `types.dfy` | `Px`, `IVec2`, `Glyph`, `Tex2D`, `Option`, and the cache invariant `Consistent` |
| `Blend` | `blend.dfy` | `Mix8`, `ExactAtEndpoints`, `PxMix` |
| `GlyphCache` | `glyph_cache.dfy` | `Bitmap`, `Face`, `Font2D` with the constructor and `SetSize`, the rebuild specification `Rebuilt` |
| `Blitter` | `blitter.dfy` | `DrawGlyph` and `BlendRow`, the specifications `Blit` and `OverflowCount`, and their lemmas |
| `TextLayout` | `text_layout.dfy` | `DrawText`, the specification `Layout`, the pen and prefix characterisation |

Three behaviours of the code are easy to misread. The model follows the code in each:

- **Out-of-range pixels are written, not skipped.** `spxfont.h:222-224` write through `pixbuf + y * width + x` without a bounds check.
  - `DrawGlyph` and `Blit` therefore write every pixel of the rectangle.
  - The precondition `GlyphFits` demands that every flat index `y * width + x` lies inside the buffer and that the mask holds at least `size.x * size.y` bytes when both sizes are positive. It still allows a column right of the texture to land in the next row.
- **The counter adds one per scanned pixel, not one per column.** The increment `ret += x > resx` at spxfont.h:225 sits inside the row loop. So columns right of the texture add `rows × columns`.
- **A glyph outside the texture is still written through its flat indices.** Nothing in the code returns early. Left or right of the texture, the indices land in neighbouring rows, which `GlyphFits` allows. Above or below it, they leave the array, which `GlyphFits` excludes. So nothing guarantees an unchanged buffer; only the count reports the overflow. While the glyph is no wider than the texture, each wrapped pixel is still blended exactly once (`Blitter.BlitPixel`).

## Model

| member | source | states |
|---|---|---|
| SpxTypes.ZeroTableConsistent | spxfont.h:207 | the all-zero slot that `calloc` produces satisfies mask length == `size.x * size.y`, and so does a table of 128 of them |
| Blend.PxMix | spxfont.h:120-133 | each of the four channels goes through `mix8` on its own; weight 0 returns the destination pixel, weight 255 returns the colour |
| GlyphCache.FromBitmap | spxfont.h:164-171 | the slot written after a successful load holds exactly `width * rows` mask bytes, with size (width, rows), so the cache invariant holds |
| GlyphCache.Font2D.constructor | spxfont.h:207 | a fresh table of 128 zeroed slots that satisfies the cache invariant |
| GlyphCache.Font2D.SetSize | spxfont.h:152-173 | after the loop over codes 0..127, a slot whose load failed keeps its old glyph; a slot whose load succeeded holds the bitmap's bytes, size, bearing and advance (`unsigned int`); the invariant is kept |
| GlyphCache.RebuiltSlot | spxfont.h:158-172 | per slot: failure keeps the old glyph; success gives pixmap = first width*rows bytes, size = (width, rows), bearing = (left, top), advance = advance.x mod 2^32 |
| GlyphCache.RebuildKeepsConsistent | spxfont.h:164-171 | a rebuild keeps mask length == `size.x * size.y` in all 128 slots |
| GlyphCache.RebuildIdempotent | spxfont.h:156-171 | rebuilding twice at the same size gives the same table as rebuilding once |
| GlyphCache.LastSizeWins | spxfont.h:156-171 | a slot that rasterizes at the last size is the same whatever the table held, so nothing of an earlier size survives in it; a failing slot keeps what the earlier rebuild left |
| GlyphCache.Load | spxfont.h:159-171 | one iteration of the rebuild: a failed load keeps the slot, a successful one writes `FromBitmap`; either way a consistent slot stays consistent |
| GlyphCache.Rebuilt | spxfont.h:158-172 | the table after the loop: 128 slots, each the result of `Load` on its old slot and the rasterizer's output for that code |
| Blitter.MaskIndex | spxfont.h:217-223 | for every scanned (x, y), the mask index `(size.y-1-(y-p.y))*size.x + (x-p.x)` lies in `[0, size.x*size.y)` |
| Blitter.MaskRowFlipped | spxfont.h:223 | the index for scan row y lies in mask row `size.y-1-(y-p.y)` at column `x-p.x`, so mask row 0 is drawn on row `p.y+size.y-1` |
| Blitter.ConsistentMaskFits | spxfont.h:164-171 | a slot that satisfies the cache invariant has a mask large enough for every index the blitter reads |
| Blitter.DrawGlyph | spxfont.h:213-229 | the buffer ends as `Blit` of the old buffer, every rectangle pixel blended in scan order with no bounds check; the return value equals `OverflowCount` |
| Blitter.BlendRow | spxfont.h:221-226 | one row of the inner loop: the pixels of columns `[p.x, p.x+size.x)` of row y are blended in order, and the value added is the number of those columns `>= width` |
| Blitter.ColumnStep | spxfont.h:222-224 | one inner iteration writes exactly flat index `y*width+x`, blending with mask byte `index`; both indices are in range |
| Blitter.Blit | spxfont.h:219-227 | the pixels after the nested scan: every rectangle pixel blended in row-then-column order, the buffer's length kept |
| Blitter.OverflowCount | spxfont.h:216-228 | the return value: the negative-origin flag, plus the scanned rows at or above `height`, plus `size.y` times the scanned columns at or beyond `width`; never negative |
| Blitter.ScannedOverflowClosedForm | spxfont.h:219-227 | after scanning rows `[p.y, yEnd)`, the counter holds the rows `>= height` plus the number of rows times the columns `>= width` |
| Blitter.ScannedOverflowTotal | spxfont.h:218-228 | the negative-origin flag plus the full scan is `OverflowCount` |
| Blitter.NoOverflowIffInside | spxfont.h:216-228 | the count is never negative, and it is 0 exactly when the origin is non-negative and the scanned rectangle lies inside the texture |
| Blitter.BlitOutsideUnchanged | spxfont.h:219-226 | a pixel that no point of the glyph rectangle maps to keeps its value |
| Blitter.BlitPixel | spxfont.h:219-226 | for a glyph no wider than the texture (`size.x <= width`), including one whose columns wrap past either edge, each rectangle pixel ends as `pxMix(old pixel, colour, mask byte of the flipped row)` |
| Blitter.PixelUntouchedBefore | spxfont.h:219-221 | for a glyph no wider than the texture (`size.x <= width`), rows scanned before row y leave pixel (x, y) alone |
| Blitter.PixelBlendedOnItsRow | spxfont.h:221-226 | scanning row y blends pixel (x, y) exactly once |
| Blitter.PixelUntouchedAfter | spxfont.h:219-221 | for a glyph no wider than the texture (`size.x <= width`), rows scanned after row y leave pixel (x, y) as row y left it |
| Blitter.OtherRowsMiss | spxfont.h:222 | for a rectangle no wider than the texture (`size.x <= width`), a pixel of another row never shares the flat index of pixel (x, y) |
| Blitter.FlatIndexSeparatesRows | spxfont.h:222 | a pixel of a lower row has a smaller flat index than a pixel of a higher row whenever its column exceeds the other's by less than `width` |
| Blitter.BlitEndpoints | spxfont.h:120-133 | for a glyph no wider than the texture (`size.x <= width`), at a scanned pixel coverage 0 keeps the pixel and coverage 255 sets all four channels to the colour |
| Blitter.EmptyGlyph | spxfont.h:216-228 | a glyph with no columns or no rows writes nothing; size (0, 0) returns only the negative-origin flag |
| Blitter.BlitIgnoresBearing | spxfont.h:213-229 | the blit does not depend on the glyph's bearing |
| TextLayout.Advance | spxfont.h:237 | `advance >> 6` is the advance in whole pixels, rounded down |
| TextLayout.NextPen | spxfont.h:237 | each step moves only the pen's x, and never to the left |
| TextLayout.Layout | spxfont.h:234-243 | per iteration: blit the glyph at the pen, add its count, move the pen by `advance >> 6`, and stop with one more once the pen is at or beyond `width`; the buffer's length is kept |
| TextLayout.ConsistentLayoutFits | spxfont.h:235-237 | with the cache invariant in every slot, the buffer bounds at the pens of the drawn characters are all the loop needs |
| TextLayout.DrawText | spxfont.h:231-244 | the pixels and the return value equal `Layout` of the old buffer; an empty string returns 0 and leaves the buffer unchanged |
| TextLayout.Pen | spxfont.h:235-237 | character i is drawn on the starting row, at or right of the start |
| TextLayout.PenShift | spxfont.h:237 | character i+1 is drawn where character i of the tail would be drawn from the second pen position |
| TextLayout.PenStart | spxfont.h:234-236 | the first character is drawn at p |
| TextLayout.DrawnCount | spxfont.h:235-241 | the number of characters the loop draws never exceeds the string's length |
| TextLayout.DrawnCountIsFirstBreak | spxfont.h:235-241 | the number of characters drawn is at most the length and is 0 only for the empty string; every pen before the last drawn character is left of `width`; when characters remain the last pen is at or beyond `width` |
| TextLayout.LayoutDrawsPrefix | spxfont.h:234-243 | the output is the first DrawnCount characters, each blitted at its pen in order; the result is the sum of their overflow counts plus one exactly when the loop broke on `p.x >= width` |
| TextLayout.LayoutIgnoresRest | spxfont.h:238-241 | characters after the break are never drawn and do not affect the result |
| TextLayout.LayoutIgnoresBearing | spxfont.h:236-237 | tables that differ only in bearings give the same pixels and the same result |
| TextLayout.PrefixFitsShift | spxfont.h:235-237 | the first k+1 characters fit exactly when the first fits at p and the next k fit from the second pen |
| TextLayout.DrawPrefixShift | spxfont.h:235-237 | drawing k+1 characters is drawing the first at p and then k of the tail from the next pen |
| TextLayout.CountPrefixShift | spxfont.h:236 | the counts of k+1 characters are the first glyph's count plus the tail's k counts |

## Left out

- `spxFontStart`, `spxFontEnd`, `spxFontLoad`, `spxFontFree` (spxfont.h:135-211): these manage the FreeType library and face lifecycle, `calloc`/`free`, and the global `ftInit` reference count. They are calls into FreeType and process-global state. Only the zeroed table that `spxFontLoad` allocates is modelled, as `Font2D`'s constructor.
- FreeType rasterization (`FT_Set_Pixel_Sizes`, `FT_Load_Char`) is the parameter `Face`.
  - A load is taken to depend only on the size and the code. This includes taking the ignored return of `FT_Set_Pixel_Sizes` (spxfont.h:156) as success: after a failed call the face would keep its earlier size, so loads would depend on history. `GlyphCache.LastSizeWins` rests on this.
  - The bitmap's pitch is taken to be its width, because `memcpy` copies the first `width * rows` bytes of the buffer.
  - The `size_t` to `FT_UInt` conversion of the pixel size is not modelled.
- `Blend.PxMix`: the intermediate values of `mix8` come from a float multiply and a truncation, so they are not modelled. `Mix8` is any function; only weights 0 and 255 are given exact results.
- The `fprintf` diagnostics (spxfont.h:160, 203) are not modelled; they do not change state.
- Undefined behaviour becomes preconditions:
  - writes outside the pixel array (`GlyphFits`);
  - mask reads outside the pixmap;
  - negative glyph indices from codes of 128 and above through signed `char` (text codes are `TextCode`, 1..127; the NUL terminator is the end of the sequence).
- `realloc` is taken to succeed; its unchecked NULL return (spxfont.h:165) is not modelled.
- The glyph count is fixed at 128; the `SPXF_GLYPH_COUNT` override (spxfont.h:108-110) is not modelled.
- C `int` overflow of `p.x`, of the loop bounds `p.x + size.x` and `p.y + size.y`, and of the flat index `y * width + x` is not modelled: integers are unbounded. The `unsigned int` product `width * rows` (spxfont.h:164) is not reduced modulo 2^32.
- `advance` is reduced modulo 2^32 when it is stored, as for C's `unsigned int`. `p.x += advance >> 6` is modelled as an integer addition, which is what the unsigned-to-int conversion gives while no overflow occurs.
- Blitter.BlitPixel, Blitter.BlitEndpoints: these state the exact per-pixel blend for every glyph no wider than the texture, including one whose columns wrap into a neighbouring row. Only a glyph wider than the texture can reach one flat index from two rows and blend it twice; `Blit` still describes that case, in scan order.
- Blitter.DrawGlyph: the inner loop is the separate method `BlendRow`, so a row's `x > resx` increments are added once the row is done, not one at a time. The returned value is the same.
- `test.c` is not part of this model. It holds PPM file output and a program entry point.
