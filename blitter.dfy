/** The glyph blitter of spxfont.h (spxFontDrawGlyph): blends a glyph's
    coverage mask into a texture and counts how far it overflows. */
module Blitter {
  import opened SpxTypes
  import opened Blend

  /** Number of iterations of `for (v = lo; v < lo + n; ++v)`. */
  function Span(n: int): nat {
    if n < 0 then 0 else n
  }

  /** Offset of pixel (x, y) from the start of pixbuf. With x outside
      [0, width) the offset lands in a neighbouring row. */
  function FlatIndex(width: int, x: int, y: int): int {
    y * width + x
  }

  /** Mask byte for glyph-local column `col` and destination-scan row `row`
      (the row's distance from p.y): the mask is read vertically flipped. */
  function MaskIndex(size: IVec2, col: int, row: int): (r: int)
    requires 0 <= col < size.x && 0 <= row < size.y
    ensures 0 <= r < size.x * size.y
  {
    MaskBound(size.x, size.y, size.y - 1 - row, col);
    (size.y - 1 - row) * size.x + col
  }

  /** The byte read for scan row `row` lies in mask row size.y - 1 - row at
      column `col`: mask row 0 is drawn on destination row p.y + size.y - 1. */
  lemma MaskRowFlipped(size: IVec2, col: int, row: int)
    requires 0 <= col < size.x && 0 <= row < size.y
    ensures MaskIndex(size, col, row) / size.x == size.y - 1 - row
    ensures MaskIndex(size, col, row) % size.x == col
  {
    var w, maskRow := size.x, size.y - 1 - row;
    var n := maskRow * w + col;
    var d, m := n / w, n % w;
    assert n == d * w + m;
    assert (d - maskRow) * w == col - m;
    if d - maskRow >= 1 { MulAtLeast(d - maskRow, w); }
    if maskRow - d >= 1 { MulAtLeast(maskRow - d, w); }
  }

  lemma MulAtLeast(a: int, w: int)
    requires a >= 1 && w > 0
    ensures a * w >= w
  {
  }

  lemma MulSucc(a: int, w: int)
    ensures (a + 1) * w == a * w + w
  {
  }

  lemma MulMonotone(a: int, b: int, w: int)
    requires a <= b && w >= 0
    ensures a * w <= b * w
  {
    assert b * w - a * w == (b - a) * w;
  }

  lemma MaskBound(w: int, h: int, maskRow: int, col: int)
    requires 0 <= col < w && 0 <= maskRow < h
    ensures 0 <= maskRow * w + col < h * w
  {
    MulSucc(maskRow, w);
    MulMonotone(maskRow + 1, h, w);
    MulMonotone(0, maskRow, w);
  }

  /** The source reads glyph.pixmap at every mask index it scans. */
  predicate MaskFits(g: Glyph) {
    g.size.x > 0 && g.size.y > 0 ==> g.size.x * g.size.y <= |g.pixmap|
  }

  /** The source writes pixbuf at every flat index of the glyph rectangle
      without a bounds check, so all of them must lie inside the buffer. */
  predicate RectFits(len: int, width: int, size: IVec2, p: IVec2) {
    forall y, x | p.y <= y < p.y + size.y && p.x <= x < p.x + size.x ::
      0 <= FlatIndex(width, x, y) < len
  }

  predicate GlyphFits(len: int, width: int, g: Glyph, p: IVec2) {
    MaskFits(g) && RectFits(len, width, g.size, p)
  }

  lemma ConsistentMaskFits(g: Glyph)
    requires Consistent(g)
    ensures MaskFits(g)
  {
  }

  function Coverage(g: Glyph, col: int, row: int): Byte
    requires MaskFits(g) && 0 <= col < g.size.x && 0 <= row < g.size.y
  {
    g.pixmap[MaskIndex(g.size, col, row)]
  }

  /** The value the loop variable of `for (v = lo; v < lo + n; ++v)` ends with. */
  function ScanEnd(lo: int, n: int): int {
    if n < 0 then lo else lo + n
  }

  /** The buffer after the inner loop has blended columns [p.x, xEnd) of
      destination row y. */
  function BlitColumns(buf: seq<Px>, width: int, g: Glyph, p: IVec2, color: Px, mix: Mix8,
                       y: int, xEnd: int): (r: seq<Px>)
    requires GlyphFits(|buf|, width, g, p)
    requires p.y <= y < p.y + g.size.y && p.x <= xEnd <= ScanEnd(p.x, g.size.x)
    ensures |r| == |buf|
    decreases xEnd - p.x
  {
    if xEnd == p.x then buf
    else
      var b := BlitColumns(buf, width, g, p, color, mix, y, xEnd - 1);
      var i := FlatIndex(width, xEnd - 1, y);
      b[i := PxMix(mix, b[i], color, Coverage(g, xEnd - 1 - p.x, y - p.y))]
  }

  /** The buffer after the outer loop has scanned rows [p.y, yEnd). */
  function BlitRows(buf: seq<Px>, width: int, g: Glyph, p: IVec2, color: Px, mix: Mix8,
                    yEnd: int): (r: seq<Px>)
    requires GlyphFits(|buf|, width, g, p)
    requires p.y <= yEnd <= ScanEnd(p.y, g.size.y)
    ensures |r| == |buf|
    decreases yEnd - p.y
  {
    if yEnd == p.y then buf
    else
      BlitColumns(BlitRows(buf, width, g, p, color, mix, yEnd - 1), width, g, p, color, mix,
                  yEnd - 1, ScanEnd(p.x, g.size.x))
  }

  /** The pixels spxFontDrawGlyph leaves: every pixel of the rectangle is
      blended in scan order, bottom row first, left to right. */
  function Blit(buf: seq<Px>, width: int, g: Glyph, p: IVec2, color: Px, mix: Mix8): (r: seq<Px>)
    requires GlyphFits(|buf|, width, g, p)
    ensures |r| == |buf|
  {
    BlitRows(buf, width, g, p, color, mix, ScanEnd(p.y, g.size.y))
  }

  /** Number of v in [lo, hi) with v >= t. */
  function CountAtLeast(lo: int, hi: int, t: int): nat {
    if hi <= lo || hi <= t then 0 else hi - (if lo < t then t else lo)
  }

  lemma CountStep(lo: int, v: int, t: int)
    requires lo <= v
    ensures CountAtLeast(lo, v + 1, t) == CountAtLeast(lo, v, t) + (if v >= t then 1 else 0)
  {
  }

  /** spxFontDrawGlyph's return value: 1 if the origin is negative, plus one
      per scanned row above the last valid row, plus one per scanned pixel
      whose column lies right of the last valid column. */
  function OverflowCount(p: IVec2, size: IVec2, width: int, height: int): (r: int)
    ensures r >= 0
  {
    (if p.y < 0 || p.x < 0 then 1 else 0)
    + CountAtLeast(p.y, p.y + size.y, height)
    + Span(size.y) * CountAtLeast(p.x, p.x + size.x, width)
  }

  /** The counter after the outer loop has scanned rows [p.y, yEnd), row by row. */
  function ScannedOverflow(p: IVec2, size: IVec2, width: int, height: int, yEnd: int): int
    requires p.y <= yEnd
    decreases yEnd - p.y
  {
    if yEnd == p.y then 0
    else
      ScannedOverflow(p, size, width, height, yEnd - 1)
      + (if yEnd - 1 >= height then 1 else 0) + CountAtLeast(p.x, p.x + size.x, width)
  }

  lemma {:induction false} ScannedOverflowClosedForm(p: IVec2, size: IVec2, width: int, height: int, yEnd: int)
    requires p.y <= yEnd
    ensures ScannedOverflow(p, size, width, height, yEnd)
         == CountAtLeast(p.y, yEnd, height) + (yEnd - p.y) * CountAtLeast(p.x, p.x + size.x, width)
    decreases yEnd - p.y
  {
    if yEnd > p.y {
      ScannedOverflowClosedForm(p, size, width, height, yEnd - 1);
      CountStep(p.y, yEnd - 1, height);
      MulSucc(yEnd - 1 - p.y, CountAtLeast(p.x, p.x + size.x, width));
    }
  }

  /** Scanning every row, with the negative-origin flag added, gives OverflowCount. */
  lemma ScannedOverflowTotal(p: IVec2, size: IVec2, width: int, height: int)
    ensures (if p.y < 0 || p.x < 0 then 1 else 0) + ScannedOverflow(p, size, width, height, ScanEnd(p.y, size.y))
         == OverflowCount(p, size, width, height)
  {
    ScannedOverflowClosedForm(p, size, width, height, ScanEnd(p.y, size.y));
    assert ScanEnd(p.y, size.y) - p.y == Span(size.y);
  }

  /** No overflow is reported exactly when the origin is not negative and the
      part of the rectangle that is scanned lies inside the texture. */
  lemma NoOverflowIffInside(p: IVec2, size: IVec2, width: int, height: int)
    ensures OverflowCount(p, size, width, height) >= 0
    ensures OverflowCount(p, size, width, height) == 0 <==>
      && p.x >= 0 && p.y >= 0
      && (size.y > 0 ==> p.y + size.y <= height && (size.x > 0 ==> p.x + size.x <= width))
  {
    var c := CountAtLeast(p.x, p.x + size.x, width);
    if size.y > 0 && c > 0 {
      assert Span(size.y) * c > 0;
    }
  }

  /** spxFontDrawGlyph. y scans the rows of the glyph rectangle, bottom to
      top; the inner loop over x is BlendRow. */
  method DrawGlyph(texture: Tex2D, glyph: Glyph, p: IVec2, color: Px, mix: Mix8) returns (ret: int)
    requires GlyphFits(texture.pixbuf.Length, texture.width, glyph, p)
    modifies texture.pixbuf
    ensures texture.pixbuf[..] == Blit(old(texture.pixbuf[..]), texture.width, glyph, p, color, mix)
    ensures ret == OverflowCount(p, glyph.size, texture.width, texture.height)
  {
    ghost var start := texture.pixbuf[..];
    var resy := texture.height - 1;
    var endy := p.y + glyph.size.y;
    ret := if p.y < 0 || p.x < 0 then 1 else 0;
    ghost var flag := ret;
    var y := p.y;
    while y < endy
      invariant p.y <= y <= ScanEnd(p.y, glyph.size.y)
      invariant texture.pixbuf[..] == BlitRows(start, texture.width, glyph, p, color, mix, y)
      invariant ret == flag + ScannedOverflow(p, glyph.size, texture.width, texture.height, y)
    {
      ret := ret + (if y > resy then 1 else 0);
      var beyond := BlendRow(texture, glyph, p, color, mix, y);
      ret := ret + beyond;
      y := y + 1;
    }
    ScannedOverflowTotal(p, glyph.size, texture.width, texture.height);
  }

  /** The inner loop of spxFontDrawGlyph for destination row y: x scans the
      columns left to right, each pixel is blended with `color` weighted by
      the vertically flipped mask byte, and `beyond` counts the pixels whose
      x lies right of the last valid column. */
  method BlendRow(texture: Tex2D, glyph: Glyph, p: IVec2, color: Px, mix: Mix8, y: int) returns (beyond: int)
    requires GlyphFits(texture.pixbuf.Length, texture.width, glyph, p)
    requires p.y <= y < p.y + glyph.size.y
    modifies texture.pixbuf
    ensures texture.pixbuf[..] == BlitColumns(old(texture.pixbuf[..]), texture.width, glyph, p, color, mix,
                                              y, ScanEnd(p.x, glyph.size.x))
    ensures beyond == CountAtLeast(p.x, p.x + glyph.size.x, texture.width)
  {
    ghost var rowStart := texture.pixbuf[..];
    var resx := texture.width - 1;
    var endx := p.x + glyph.size.x;
    beyond := 0;
    var x := p.x;
    while x < endx
      invariant p.x <= x <= ScanEnd(p.x, glyph.size.x)
      invariant texture.pixbuf[..] == BlitColumns(rowStart, texture.width, glyph, p, color, mix, y, x)
      invariant beyond == CountAtLeast(p.x, x, texture.width)
    {
      var px := y * texture.width + x;
      var index := (glyph.size.y - 1 - (y - p.y)) * glyph.size.x + (x - p.x);
      ColumnStep(rowStart, texture.width, glyph, p, color, mix, y, x, px, index);
      texture.pixbuf[px] := PxMix(mix, texture.pixbuf[px], color, glyph.pixmap[index]);
      beyond := beyond + (if x > resx then 1 else 0);
      CountStep(p.x, x, texture.width);
      x := x + 1;
    }
  }

  /** One iteration of the inner loop: pixel px = (x, y) is blended with
      mask byte `index`. */
  lemma ColumnStep(buf: seq<Px>, width: int, g: Glyph, p: IVec2, color: Px, mix: Mix8, y: int, x: int,
                   px: int, index: int)
    requires GlyphFits(|buf|, width, g, p)
    requires p.y <= y < p.y + g.size.y && p.x <= x < p.x + g.size.x
    requires px == y * width + x && index == (g.size.y - 1 - (y - p.y)) * g.size.x + (x - p.x)
    ensures 0 <= px < |buf| && 0 <= index < |g.pixmap|
    ensures var b := BlitColumns(buf, width, g, p, color, mix, y, x);
      BlitColumns(buf, width, g, p, color, mix, y, x + 1) == b[px := PxMix(mix, b[px], color, g.pixmap[index])]
  {
    assert px == FlatIndex(width, x, y);
    assert index == MaskIndex(g.size, x - p.x, y - p.y);
  }

  /** No column of [lo, hi) on row y has flat index i. */
  predicate RowMisses(width: int, y: int, lo: int, hi: int, i: int) {
    forall x | lo <= x < hi :: FlatIndex(width, x, y) != i
  }

  /** Columns [x1, x2) of row y leave pixel i alone when none of them
      lands on it. */
  lemma {:induction false} ColumnsKeep(buf: seq<Px>, width: int, g: Glyph, p: IVec2, color: Px, mix: Mix8,
                                       y: int, x1: int, x2: int, i: int)
    requires GlyphFits(|buf|, width, g, p)
    requires p.y <= y < p.y + g.size.y && p.x <= x1 <= x2 <= ScanEnd(p.x, g.size.x) && 0 <= i < |buf|
    requires RowMisses(width, y, x1, x2, i)
    ensures BlitColumns(buf, width, g, p, color, mix, y, x2)[i]
         == BlitColumns(buf, width, g, p, color, mix, y, x1)[i]
    decreases x2 - x1
  {
    if x2 > x1 {
      ColumnsKeep(buf, width, g, p, color, mix, y, x1, x2 - 1, i);
      assert FlatIndex(width, x2 - 1, y) != i;
    }
  }

  /** Rows [y1, y2) leave pixel i alone when none of their pixels lands on it. */
  lemma {:induction false} RowsKeep(buf: seq<Px>, width: int, g: Glyph, p: IVec2, color: Px, mix: Mix8,
                                    y1: int, y2: int, i: int)
    requires GlyphFits(|buf|, width, g, p)
    requires p.y <= y1 <= y2 <= ScanEnd(p.y, g.size.y) && 0 <= i < |buf|
    requires forall y, x | y1 <= y < y2 && p.x <= x < p.x + g.size.x :: FlatIndex(width, x, y) != i
    ensures BlitRows(buf, width, g, p, color, mix, y2)[i] == BlitRows(buf, width, g, p, color, mix, y1)[i]
    decreases y2 - y1
  {
    if y2 > y1 {
      RowsKeep(buf, width, g, p, color, mix, y1, y2 - 1, i);
      var b := BlitRows(buf, width, g, p, color, mix, y2 - 1);
      ColumnsKeep(b, width, g, p, color, mix, y2 - 1, p.x, ScanEnd(p.x, g.size.x), i);
    }
  }

  /** A pixel that no point of the glyph rectangle maps to keeps its value. */
  lemma BlitOutsideUnchanged(buf: seq<Px>, width: int, g: Glyph, p: IVec2, color: Px, mix: Mix8, i: int)
    requires GlyphFits(|buf|, width, g, p) && 0 <= i < |buf|
    requires forall y, x | p.y <= y < p.y + g.size.y && p.x <= x < p.x + g.size.x ::
      FlatIndex(width, x, y) != i
    ensures |Blit(buf, width, g, p, color, mix)| == |buf|
    ensures Blit(buf, width, g, p, color, mix)[i] == buf[i]
  {
    RowsKeep(buf, width, g, p, color, mix, p.y, ScanEnd(p.y, g.size.y), i);
  }

  /** Two pixels of different rows never share a flat index when the
      earlier row's column exceeds the later row's by less than the width;
      the columns themselves may lie outside [0, width). */
  lemma FlatIndexSeparatesRows(width: int, x1: int, y1: int, x2: int, y2: int)
    requires width > 0 && x1 - x2 < width && y1 < y2
    ensures FlatIndex(width, x1, y1) < FlatIndex(width, x2, y2)
  {
    MulAtLeast(y2 - y1, width);
    assert y2 * width - y1 * width == (y2 - y1) * width;
  }

  /** For a glyph no wider than the texture, every pixel of the rectangle,
      wrapped into a neighbouring row or not, is blended exactly once,
      from its original value, with the mask byte of the vertically
      flipped mask row. */
  lemma BlitPixel(buf: seq<Px>, width: int, g: Glyph, p: IVec2, color: Px, mix: Mix8, x: int, y: int)
    requires GlyphFits(|buf|, width, g, p)
    requires g.size.x <= width
    requires p.x <= x < p.x + g.size.x && p.y <= y < p.y + g.size.y
    ensures 0 <= FlatIndex(width, x, y) < |buf|
    ensures |Blit(buf, width, g, p, color, mix)| == |buf|
    ensures Blit(buf, width, g, p, color, mix)[FlatIndex(width, x, y)]
         == PxMix(mix, buf[FlatIndex(width, x, y)], color, Coverage(g, x - p.x, y - p.y))
  {
    PixelUntouchedBefore(buf, width, g, p, color, mix, x, y);
    PixelBlendedOnItsRow(BlitRows(buf, width, g, p, color, mix, y), width, g, p, color, mix, x, y);
    PixelUntouchedAfter(buf, width, g, p, color, mix, x, y);
  }

  /** Rows [p.y, y) leave pixel (x, y) as it was. */
  lemma PixelUntouchedBefore(buf: seq<Px>, width: int, g: Glyph, p: IVec2, color: Px, mix: Mix8, x: int, y: int)
    requires GlyphFits(|buf|, width, g, p)
    requires g.size.x <= width
    requires p.x <= x < p.x + g.size.x && p.y <= y < p.y + g.size.y
    ensures 0 <= FlatIndex(width, x, y) < |buf|
    ensures BlitRows(buf, width, g, p, color, mix, y)[FlatIndex(width, x, y)] == buf[FlatIndex(width, x, y)]
  {
    OtherRowsMiss(width, g.size, p, x, y, p.y, y);
    RowsKeep(buf, width, g, p, color, mix, p.y, y, FlatIndex(width, x, y));
  }

  /** Scanning row y blends pixel (x, y) once: the columns before and after
      x land elsewhere on that row. */
  lemma PixelBlendedOnItsRow(buf: seq<Px>, width: int, g: Glyph, p: IVec2, color: Px, mix: Mix8, x: int, y: int)
    requires GlyphFits(|buf|, width, g, p)
    requires p.x <= x < p.x + g.size.x && p.y <= y < p.y + g.size.y
    ensures 0 <= FlatIndex(width, x, y) < |buf|
    ensures BlitColumns(buf, width, g, p, color, mix, y, p.x + g.size.x)[FlatIndex(width, x, y)]
         == PxMix(mix, buf[FlatIndex(width, x, y)], color, Coverage(g, x - p.x, y - p.y))
  {
    var i := FlatIndex(width, x, y);
    ColumnsKeep(buf, width, g, p, color, mix, y, p.x, x, i);
    ColumnStep(buf, width, g, p, color, mix, y, x, FlatIndex(width, x, y), (g.size.y - 1 - (y - p.y)) * g.size.x + (x - p.x));
    ColumnsKeep(buf, width, g, p, color, mix, y, x + 1, p.x + g.size.x, i);
  }

  /** Rows [y + 1, p.y + size.y) leave pixel (x, y) as row y left it. */
  lemma PixelUntouchedAfter(buf: seq<Px>, width: int, g: Glyph, p: IVec2, color: Px, mix: Mix8, x: int, y: int)
    requires GlyphFits(|buf|, width, g, p)
    requires g.size.x <= width
    requires p.x <= x < p.x + g.size.x && p.y <= y < p.y + g.size.y
    ensures 0 <= FlatIndex(width, x, y) < |buf|
    ensures BlitRows(buf, width, g, p, color, mix, p.y + g.size.y)[FlatIndex(width, x, y)]
         == BlitRows(buf, width, g, p, color, mix, y + 1)[FlatIndex(width, x, y)]
  {
    OtherRowsMiss(width, g.size, p, x, y, y + 1, p.y + g.size.y);
    RowsKeep(buf, width, g, p, color, mix, y + 1, p.y + g.size.y, FlatIndex(width, x, y));
  }

  /** For a rectangle no wider than the texture, no pixel of rows [y1, y2)
      shares the flat index of pixel (x, y) when y is not among those rows:
      two columns of the rectangle differ by less than the width. */
  lemma OtherRowsMiss(width: int, size: IVec2, p: IVec2, x: int, y: int, y1: int, y2: int)
    requires size.x <= width && p.x <= x < p.x + size.x
    requires y < y1 || y2 <= y
    ensures forall y', x' | y1 <= y' < y2 && p.x <= x' < p.x + size.x ::
      FlatIndex(width, x', y') != FlatIndex(width, x, y)
  {
    forall y', x' | y1 <= y' < y2 && p.x <= x' < p.x + size.x
      ensures FlatIndex(width, x', y') != FlatIndex(width, x, y)
    {
      if y' < y {
        FlatIndexSeparatesRows(width, x', y', x, y);
      } else {
        FlatIndexSeparatesRows(width, x, y, x', y');
      }
    }
  }

  /** At a pixel of a glyph no wider than the texture, coverage 0 keeps the
      pixel and coverage 255 paints all four channels with `color`. */
  lemma BlitEndpoints(buf: seq<Px>, width: int, g: Glyph, p: IVec2, color: Px, mix: Mix8, x: int, y: int)
    requires ExactAtEndpoints(mix) && GlyphFits(|buf|, width, g, p)
    requires g.size.x <= width
    requires p.x <= x < p.x + g.size.x && p.y <= y < p.y + g.size.y
    ensures 0 <= FlatIndex(width, x, y) < |buf| == |Blit(buf, width, g, p, color, mix)|
    ensures Coverage(g, x - p.x, y - p.y) == 0 ==>
      Blit(buf, width, g, p, color, mix)[FlatIndex(width, x, y)] == buf[FlatIndex(width, x, y)]
    ensures Coverage(g, x - p.x, y - p.y) == 255 ==>
      Blit(buf, width, g, p, color, mix)[FlatIndex(width, x, y)] == color
  {
    BlitPixel(buf, width, g, p, color, mix, x, y);
  }

  /** A glyph with no columns or no rows writes nothing; one of size (0, 0)
      reports only the negative-origin flag. */
  lemma EmptyGlyph(buf: seq<Px>, width: int, height: int, g: Glyph, p: IVec2, color: Px, mix: Mix8)
    requires GlyphFits(|buf|, width, g, p) && (g.size.x <= 0 || g.size.y <= 0)
    ensures Blit(buf, width, g, p, color, mix) == buf
    ensures g.size == IVec2(0, 0) ==>
      OverflowCount(p, g.size, width, height) == if p.x < 0 || p.y < 0 then 1 else 0
  {
    EmptyRows(buf, width, g, p, color, mix, ScanEnd(p.y, g.size.y));
  }

  lemma {:induction false} EmptyRows(buf: seq<Px>, width: int, g: Glyph, p: IVec2, color: Px, mix: Mix8, yEnd: int)
    requires GlyphFits(|buf|, width, g, p) && (g.size.x <= 0 || g.size.y <= 0)
    requires p.y <= yEnd <= ScanEnd(p.y, g.size.y)
    ensures BlitRows(buf, width, g, p, color, mix, yEnd) == buf
    decreases yEnd - p.y
  {
    if yEnd > p.y {
      EmptyRows(buf, width, g, p, color, mix, yEnd - 1);
    }
  }

  /** The blit reads the mask and the size of a glyph, never its bearing. */
  lemma BlitIgnoresBearing(buf: seq<Px>, width: int, g: Glyph, bearing: IVec2, p: IVec2, color: Px, mix: Mix8)
    requires GlyphFits(|buf|, width, g, p)
    ensures GlyphFits(|buf|, width, g.(bearing := bearing), p)
    ensures Blit(buf, width, g.(bearing := bearing), p, color, mix) == Blit(buf, width, g, p, color, mix)
  {
    RowsIgnoreBearing(buf, width, g, bearing, p, color, mix, ScanEnd(p.y, g.size.y));
  }

  lemma {:induction false} RowsIgnoreBearing(buf: seq<Px>, width: int, g: Glyph, bearing: IVec2, p: IVec2,
                                             color: Px, mix: Mix8, yEnd: int)
    requires GlyphFits(|buf|, width, g, p) && p.y <= yEnd <= ScanEnd(p.y, g.size.y)
    ensures GlyphFits(|buf|, width, g.(bearing := bearing), p)
    ensures BlitRows(buf, width, g.(bearing := bearing), p, color, mix, yEnd)
         == BlitRows(buf, width, g, p, color, mix, yEnd)
    decreases yEnd - p.y
  {
    if yEnd > p.y {
      RowsIgnoreBearing(buf, width, g, bearing, p, color, mix, yEnd - 1);
      ColumnsIgnoreBearing(BlitRows(buf, width, g, p, color, mix, yEnd - 1), width, g, bearing, p, color, mix,
                           yEnd - 1, ScanEnd(p.x, g.size.x));
    }
  }

  lemma {:induction false} ColumnsIgnoreBearing(buf: seq<Px>, width: int, g: Glyph, bearing: IVec2, p: IVec2,
                                                color: Px, mix: Mix8, y: int, xEnd: int)
    requires GlyphFits(|buf|, width, g, p)
    requires p.y <= y < p.y + g.size.y && p.x <= xEnd <= ScanEnd(p.x, g.size.x)
    ensures GlyphFits(|buf|, width, g.(bearing := bearing), p)
    ensures BlitColumns(buf, width, g.(bearing := bearing), p, color, mix, y, xEnd)
         == BlitColumns(buf, width, g, p, color, mix, y, xEnd)
    decreases xEnd - p.x
  {
    if xEnd > p.x {
      ColumnsIgnoreBearing(buf, width, g, bearing, p, color, mix, y, xEnd - 1);
    }
  }
}
