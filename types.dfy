/** Value types shared by the glyph cache, the blitter and the text compositor
    of spxfont.h: pixels, integer vectors, glyphs and the texture descriptor. */
module SpxTypes {

  /** Number of glyph slots in a font (SPXF_GLYPH_COUNT). */
  const GlyphCount: int := 128

  /** 2^32: the modulus of C's `unsigned int`. */
  const Uint32Modulus: int := 0x1_0000_0000

  type Byte = b: int | 0 <= b < 256

  type Uint32 = n: int | 0 <= n < Uint32Modulus

  /** A character code a C string can hold before its terminator and that
      indexes the glyph table without going negative through signed `char`. */
  type TextCode = c: int | 1 <= c < GlyphCount witness 1

  datatype Option<T> = None | Some(value: T)

  /** One RGBA pixel (struct Px). */
  datatype Px = Px(r: Byte, g: Byte, b: Byte, a: Byte)

  /** struct ivec2. C's `int` is modelled unbounded; overflow is excluded. */
  datatype IVec2 = IVec2(x: int, y: int)

  /** One rasterized character: its coverage mask (row-major, top row first),
      the mask's size, the bearing and the advance in 1/64 pixel. */
  datatype Glyph = Glyph(pixmap: seq<Byte>, size: IVec2, bearing: IVec2, advance: Uint32)

  /** struct Tex2D: a caller-owned pixel array with its width and height.
      Flat index y * width + x addresses pixel (x, y); row 0 is the bottom row. */
  datatype Tex2D = Tex2D(pixbuf: array<Px>, width: int, height: int)

  /** The state `calloc` gives a slot: null mask, zero size, zero bearing and advance. */
  const ZeroGlyph: Glyph := Glyph([], IVec2(0, 0), IVec2(0, 0), 0)

  /** The cache invariant the blitter relies on: the mask holds exactly
      size.x * size.y bytes, and the size is not negative. */
  predicate Consistent(g: Glyph) {
    g.size.x >= 0 && g.size.y >= 0 && |g.pixmap| == g.size.x * g.size.y
  }

  predicate TableConsistent(table: seq<Glyph>) {
    |table| == GlyphCount && forall c | 0 <= c < |table| :: Consistent(table[c])
  }

  lemma ZeroTableConsistent()
    ensures Consistent(ZeroGlyph)
    ensures TableConsistent(seq(GlyphCount, _ => ZeroGlyph))
  {
  }
}
