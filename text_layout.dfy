/** The text compositor of spxfont.h (spxFontDrawText): draws a string glyph
    by glyph along a horizontal pen line and stops once the pen leaves the
    texture on the right. */
module TextLayout {
  import opened SpxTypes
  import opened Blend
  import opened Blitter
  import opened GlyphCache

  /** The pixels left in the texture and the value returned. */
  datatype Rendering = Rendering(pixels: seq<Px>, ret: int)

  /** `advance >> 6`: the advance in whole pixels, rounded down. */
  function Advance(g: Glyph): (r: nat)
    ensures r * 64 <= g.advance < r * 64 + 64
  {
    g.advance / 64
  }

  /** The pen after drawing code c at p: only x moves. */
  function NextPen(table: seq<Glyph>, c: TextCode, p: IVec2): (q: IVec2)
    requires |table| == GlyphCount
    ensures q.y == p.y && q.x >= p.x
  {
    IVec2(p.x + Advance(table[c]), p.y)
  }

  /** Every glyph the loop reaches can be drawn without leaving the buffer;
      the glyph after the one that moves the pen to `width` or beyond is
      never reached. */
  predicate LayoutFits(len: int, width: int, table: seq<Glyph>, text: seq<TextCode>, p: IVec2)
    requires |table| == GlyphCount
    decreases |text|
  {
    || text == []
    || (&& GlyphFits(len, width, table[text[0]], p)
        && (NextPen(table, text[0], p).x >= width
            || LayoutFits(len, width, table, text[1..], NextPen(table, text[0], p))))
  }

  /** What spxFontDrawText leaves and returns, one loop iteration per step:
      draw the glyph at the pen, add its overflow count, move the pen, and
      stop with one more when the pen has reached `width`. */
  function Layout(buf: seq<Px>, width: int, height: int, table: seq<Glyph>, text: seq<TextCode>,
                  p: IVec2, color: Px, mix: Mix8): (r: Rendering)
    requires |table| == GlyphCount && LayoutFits(|buf|, width, table, text, p)
    ensures |r.pixels| == |buf|
    decreases |text|
  {
    if text == [] then Rendering(buf, 0)
    else
      var g := table[text[0]];
      var drawn := Blit(buf, width, g, p, color, mix);
      var count := OverflowCount(p, g.size, width, height);
      var q := NextPen(table, text[0], p);
      if q.x >= width then Rendering(drawn, count + 1)
      else
        var rest := Layout(drawn, width, height, table, text[1..], q, color, mix);
        Rendering(rest.pixels, count + rest.ret)
  }

  /** spxFontDrawText. The glyph table is read through the font on every
      iteration, as the source does. */
  method DrawText(texture: Tex2D, font: Font2D, text: seq<TextCode>, p: IVec2, color: Px, mix: Mix8)
    returns (ret: int)
    requires font.glyphs.Length == GlyphCount
    requires LayoutFits(texture.pixbuf.Length, texture.width, font.glyphs[..], text, p)
    modifies texture.pixbuf
    ensures Rendering(texture.pixbuf[..], ret)
         == Layout(old(texture.pixbuf[..]), texture.width, texture.height, font.glyphs[..], text, p, color, mix)
    ensures text == [] ==> ret == 0 && texture.pixbuf[..] == old(texture.pixbuf[..])
  {
    ghost var table := font.glyphs[..];
    ghost var final := Layout(texture.pixbuf[..], texture.width, texture.height, table, text, p, color, mix);
    var pen := p;
    ret := 0;
    var i := 0;
    while i < |text|
      invariant 0 <= i <= |text| && pen.y == p.y
      invariant font.glyphs[..] == table
      invariant LayoutFits(texture.pixbuf.Length, texture.width, table, text[i..], pen)
      invariant Layout(texture.pixbuf[..], texture.width, texture.height, table, text[i..], pen, color, mix)
             == Rendering(final.pixels, final.ret - ret)
    {
      assert text[i..][0] == text[i] && text[i..][1..] == text[i + 1..];
      var glyph := font.glyphs[text[i]];
      var count := DrawGlyph(texture, glyph, pen, color, mix);
      ret := ret + count;
      pen := IVec2(pen.x + glyph.advance / 64, pen.y);
      if pen.x >= texture.width {
        ret := ret + 1;
        break;
      }
      i := i + 1;
    }
  }

  /** Sum of `advance >> 6` over a string. */
  function AdvanceSum(table: seq<Glyph>, s: seq<TextCode>): (r: nat)
    requires |table| == GlyphCount
    decreases |s|
  {
    if s == [] then 0 else Advance(table[s[0]]) + AdvanceSum(table, s[1..])
  }

  /** Where character i is drawn: the start moved right by the advances of
      the characters before it, on the starting row. */
  function Pen(table: seq<Glyph>, text: seq<TextCode>, p: IVec2, i: int): (q: IVec2)
    requires |table| == GlyphCount && 0 <= i <= |text|
    ensures q.y == p.y && q.x >= p.x
  {
    IVec2(p.x + AdvanceSum(table, text[..i]), p.y)
  }

  /** Number of characters the loop draws. */
  function DrawnCount(table: seq<Glyph>, text: seq<TextCode>, p: IVec2, width: int): (n: nat)
    requires |table| == GlyphCount
    ensures n <= |text|
    decreases |text|
  {
    if text == [] then 0
    else if NextPen(table, text[0], p).x >= width then 1
    else 1 + DrawnCount(table, text[1..], NextPen(table, text[0], p), width)
  }

  /** Character i + 1 of a string is drawn where character i of its tail
      is drawn when the tail starts at the second pen position. */
  lemma PenShift(table: seq<Glyph>, text: seq<TextCode>, p: IVec2, i: int)
    requires |table| == GlyphCount && text != [] && 0 <= i < |text|
    ensures Pen(table, text, p, i + 1) == Pen(table, text[1..], NextPen(table, text[0], p), i)
  {
    assert text[..i + 1][0] == text[0];
    assert text[..i + 1][1..] == text[1..][..i];
  }

  lemma PenStart(table: seq<Glyph>, text: seq<TextCode>, p: IVec2)
    requires |table| == GlyphCount
    ensures Pen(table, text, p, 0) == p
  {
    assert text[..0] == [];
  }

  /** The loop stops at the first character after which the pen is at or
      beyond `width`, and draws every character when there is none. */
  lemma {:induction false} DrawnCountIsFirstBreak(table: seq<Glyph>, text: seq<TextCode>, p: IVec2, width: int)
    requires |table| == GlyphCount
    ensures DrawnCount(table, text, p, width) <= |text|
    ensures (DrawnCount(table, text, p, width) == 0) == (text == [])
    ensures forall i | 1 <= i < DrawnCount(table, text, p, width) :: Pen(table, text, p, i).x < width
    ensures DrawnCount(table, text, p, width) < |text| ==>
      Pen(table, text, p, DrawnCount(table, text, p, width)).x >= width
    decreases |text|
  {
    if text != [] {
      var q := NextPen(table, text[0], p);
      PenShift(table, text, p, 0);
      PenStart(table, text[1..], q);
      if q.x < width {
        DrawnCountIsFirstBreak(table, text[1..], q, width);
        var n := DrawnCount(table, text, p, width);
        forall i | 1 <= i < n
          ensures Pen(table, text, p, i).x < width
        {
          PenShift(table, text, p, i - 1);
          if i - 1 == 0 {
            PenStart(table, text[1..], q);
          }
        }
        PenShift(table, text, p, n - 1);
      }
    }
  }

  /** Every one of the first k characters fits where it is drawn. */
  predicate PrefixFits(len: int, width: int, table: seq<Glyph>, text: seq<TextCode>, p: IVec2, k: int)
    requires |table| == GlyphCount && 0 <= k <= |text|
  {
    forall j | 0 <= j < k :: GlyphFits(len, width, table[text[j]], Pen(table, text, p, j))
  }

  /** The first k characters, each blitted at its own pen position, in order. */
  function DrawPrefix(buf: seq<Px>, width: int, table: seq<Glyph>, text: seq<TextCode>, p: IVec2,
                      color: Px, mix: Mix8, k: int): (r: seq<Px>)
    requires |table| == GlyphCount && 0 <= k <= |text| && PrefixFits(|buf|, width, table, text, p, k)
    ensures |r| == |buf|
    decreases k
  {
    if k == 0 then buf
    else
      Blit(DrawPrefix(buf, width, table, text, p, color, mix, k - 1), width,
           table[text[k - 1]], Pen(table, text, p, k - 1), color, mix)
  }

  /** The overflow counts of the first k characters at their pen positions. */
  function CountPrefix(width: int, height: int, table: seq<Glyph>, text: seq<TextCode>, p: IVec2, k: int): int
    requires |table| == GlyphCount && 0 <= k <= |text|
    decreases k
  {
    if k == 0 then 0
    else
      CountPrefix(width, height, table, text, p, k - 1)
      + OverflowCount(Pen(table, text, p, k - 1), table[text[k - 1]].size, width, height)
  }

  lemma PrefixFitsShift(len: int, width: int, table: seq<Glyph>, text: seq<TextCode>, p: IVec2, k: int)
    requires |table| == GlyphCount && text != [] && 0 <= k < |text|
    ensures PrefixFits(len, width, table, text, p, k + 1)
        <==> GlyphFits(len, width, table[text[0]], p)
             && PrefixFits(len, width, table, text[1..], NextPen(table, text[0], p), k)
  {
    var q := NextPen(table, text[0], p);
    PenStart(table, text, p);
    forall j | 1 <= j < k + 1
      ensures Pen(table, text, p, j) == Pen(table, text[1..], q, j - 1)
    {
      PenShift(table, text, p, j - 1);
    }
    if PrefixFits(len, width, table, text, p, k + 1) {
      forall j | 0 <= j < k
        ensures GlyphFits(len, width, table[text[1..][j]], Pen(table, text[1..], q, j))
      {
        assert text[1..][j] == text[j + 1];
        assert Pen(table, text, p, j + 1) == Pen(table, text[1..], q, j);
      }
    }
    if GlyphFits(len, width, table[text[0]], p) && PrefixFits(len, width, table, text[1..], q, k) {
      forall j | 0 <= j < k + 1
        ensures GlyphFits(len, width, table[text[j]], Pen(table, text, p, j))
      {
        if j > 0 {
          assert text[1..][j - 1] == text[j];
          assert Pen(table, text, p, j) == Pen(table, text[1..], q, j - 1);
        }
      }
    }
  }

  /** Drawing k + 1 characters is drawing the first one at p and then k
      characters of the tail from the next pen position. */
  lemma {:induction false} DrawPrefixShift(buf: seq<Px>, width: int, table: seq<Glyph>, text: seq<TextCode>,
                                           p: IVec2, color: Px, mix: Mix8, k: int)
    requires |table| == GlyphCount && text != [] && 0 <= k < |text|
    requires PrefixFits(|buf|, width, table, text, p, k + 1)
    ensures GlyphFits(|buf|, width, table[text[0]], p)
    ensures PrefixFits(|buf|, width, table, text[1..], NextPen(table, text[0], p), k)
    ensures DrawPrefix(buf, width, table, text, p, color, mix, k + 1)
         == DrawPrefix(Blit(buf, width, table[text[0]], p, color, mix), width, table, text[1..],
                       NextPen(table, text[0], p), color, mix, k)
    decreases k
  {
    PrefixFitsShift(|buf|, width, table, text, p, k);
    PenStart(table, text, p);
    if k > 0 {
      PrefixFitsShift(|buf|, width, table, text, p, k - 1);
      DrawPrefixShift(buf, width, table, text, p, color, mix, k - 1);
      PenShift(table, text, p, k - 1);
      assert text[1..][k - 1] == text[k];
    }
  }

  lemma {:induction false} CountPrefixShift(width: int, height: int, table: seq<Glyph>, text: seq<TextCode>,
                                            p: IVec2, k: int)
    requires |table| == GlyphCount && text != [] && 0 <= k < |text|
    ensures CountPrefix(width, height, table, text, p, k + 1)
         == OverflowCount(p, table[text[0]].size, width, height)
            + CountPrefix(width, height, table, text[1..], NextPen(table, text[0], p), k)
    decreases k
  {
    PenStart(table, text, p);
    if k > 0 {
      CountPrefixShift(width, height, table, text, p, k - 1);
      PenShift(table, text, p, k - 1);
      assert text[1..][k - 1] == text[k];
    }
  }

  /** spxFontDrawText's result in closed form: the first DrawnCount
      characters are blitted, each at the pen the advances of the characters
      before it give, nothing after them is drawn, and the return value is
      the sum of their overflow counts plus one exactly when the loop broke
      because the pen reached `width`. */
  lemma {:induction false} LayoutDrawsPrefix(buf: seq<Px>, width: int, height: int, table: seq<Glyph>,
                                             text: seq<TextCode>, p: IVec2, color: Px, mix: Mix8)
    requires |table| == GlyphCount && LayoutFits(|buf|, width, table, text, p)
    ensures DrawnCount(table, text, p, width) <= |text|
    ensures PrefixFits(|buf|, width, table, text, p, DrawnCount(table, text, p, width))
    ensures var n := DrawnCount(table, text, p, width);
      Layout(buf, width, height, table, text, p, color, mix)
      == Rendering(DrawPrefix(buf, width, table, text, p, color, mix, n),
                   CountPrefix(width, height, table, text, p, n)
                   + (if n > 0 && Pen(table, text, p, n).x >= width then 1 else 0))
    decreases |text|
  {
    DrawnCountIsFirstBreak(table, text, p, width);
    if text != [] {
      var g := table[text[0]];
      var q := NextPen(table, text[0], p);
      var drawn := Blit(buf, width, g, p, color, mix);
      PenStart(table, text[1..], q);
      PenShift(table, text, p, 0);
      PrefixFitsShift(|buf|, width, table, text, p, 0);
      CountPrefixShift(width, height, table, text, p, 0);
      if q.x < width {
        LayoutDrawsPrefix(drawn, width, height, table, text[1..], q, color, mix);
        var m := DrawnCount(table, text[1..], q, width);
        PrefixFitsShift(|buf|, width, table, text, p, m);
        DrawPrefixShift(buf, width, table, text, p, color, mix, m);
        CountPrefixShift(width, height, table, text, p, m);
        PenShift(table, text, p, m);
      } else {
        DrawPrefixShift(buf, width, table, text, p, color, mix, 0);
      }
    }
  }

  /** Characters after the one that moves the pen past the texture are
      never looked at. */
  lemma {:induction false} LayoutIgnoresRest(buf: seq<Px>, width: int, height: int, table: seq<Glyph>,
                                             text: seq<TextCode>, rest: seq<TextCode>, p: IVec2,
                                             color: Px, mix: Mix8)
    requires |table| == GlyphCount && LayoutFits(|buf|, width, table, text, p)
    requires DrawnCount(table, text, p, width) < |text|
    ensures LayoutFits(|buf|, width, table, text + rest, p)
    ensures Layout(buf, width, height, table, text + rest, p, color, mix)
         == Layout(buf, width, height, table, text, p, color, mix)
    decreases |text|
  {
    assert (text + rest)[0] == text[0];
    assert (text + rest)[1..] == text[1..] + rest;
    var q := NextPen(table, text[0], p);
    if q.x < width {
      var drawn := Blit(buf, width, table[text[0]], p, color, mix);
      LayoutIgnoresRest(drawn, width, height, table, text[1..], rest, q, color, mix);
    }
  }

  /** The bearing of a glyph is never used: two tables that differ only in
      bearings give the same pixels and the same result. */
  lemma {:induction false} LayoutIgnoresBearing(buf: seq<Px>, width: int, height: int, table: seq<Glyph>,
                                                other: seq<Glyph>, text: seq<TextCode>, p: IVec2,
                                                color: Px, mix: Mix8)
    requires |table| == GlyphCount && |other| == GlyphCount
    requires forall c | 0 <= c < GlyphCount :: other[c] == table[c].(bearing := other[c].bearing)
    requires LayoutFits(|buf|, width, table, text, p)
    ensures LayoutFits(|buf|, width, other, text, p)
    ensures Layout(buf, width, height, other, text, p, color, mix)
         == Layout(buf, width, height, table, text, p, color, mix)
    decreases |text|
  {
    if text != [] {
      var g := table[text[0]];
      assert other[text[0]] == g.(bearing := other[text[0]].bearing);
      BlitIgnoresBearing(buf, width, g, other[text[0]].bearing, p, color, mix);
      var q := NextPen(table, text[0], p);
      if q.x < width {
        LayoutIgnoresBearing(Blit(buf, width, g, p, color, mix), width, height, table, other, text[1..], q,
                             color, mix);
      }
    }
  }

  /** The cache invariant discharges the mask half of the blitter's
      precondition: with every slot consistent, the loop only needs each
      drawn character's rectangle to lie inside the buffer at its pen. */
  lemma {:induction false} ConsistentLayoutFits(len: int, width: int, table: seq<Glyph>, text: seq<TextCode>, p: IVec2)
    requires TableConsistent(table)
    requires forall j | 0 <= j < DrawnCount(table, text, p, width) ::
      RectFits(len, width, table[text[j]].size, Pen(table, text, p, j))
    ensures LayoutFits(len, width, table, text, p)
    decreases |text|
  {
    if text != [] {
      var q := NextPen(table, text[0], p);
      ConsistentMaskFits(table[text[0]]);
      PenStart(table, text, p);
      assert RectFits(len, width, table[text[0]].size, Pen(table, text, p, 0));
      if q.x < width {
        DrawnCountIsFirstBreak(table, text[1..], q, width);
        forall j | 0 <= j < DrawnCount(table, text[1..], q, width)
          ensures RectFits(len, width, table[text[1..][j]].size, Pen(table, text[1..], q, j))
        {
          PenShift(table, text, p, j);
          assert text[1..][j] == text[j + 1];
          assert RectFits(len, width, table[text[j + 1]].size, Pen(table, text, p, j + 1));
        }
        ConsistentLayoutFits(len, width, table, text[1..], q);
      }
    }
  }
}
