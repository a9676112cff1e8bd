/** The glyph cache of spxfont.h: a font's table of GlyphCount glyphs,
    rebuilt in place by spxFontSize whenever a pixel size is requested. */
module GlyphCache {
  import opened SpxTypes

  /** What FreeType leaves in face->glyph after a successful FT_Load_Char with
      FT_LOAD_RENDER: the coverage bytes, bitmap.width, bitmap.rows,
      bitmap_left, bitmap_top and advance.x (an FT_Pos, hence signed). */
  datatype Bitmap = Bitmap(buffer: seq<Byte>, width: nat, rows: nat, left: int, top: int, advance: int)

  /** The rasterizer behind a face: FT_Set_Pixel_Sizes(face, 0, size) followed
      by FT_Load_Char(face, code, FT_LOAD_RENDER), as a deterministic function
      of the size and the code. None stands for a non-zero FreeType error. */
  type Face = (nat, nat) -> Option<Bitmap>

  /** A successful rendering holds at least width * rows coverage bytes,
      which is what memcpy reads. */
  predicate Rendered(o: Option<Bitmap>) {
    o.Some? ==> o.value.width * o.value.rows <= |o.value.buffer|
  }

  predicate Renders(face: Face, size: nat) {
    forall c | 0 <= c < GlyphCount :: Rendered(face(size, c))
  }

  /** The slot spxFontSize writes for a successful rendering: the mask is
      reallocated to width * rows bytes and filled with a copy of the bitmap;
      the signed advance is stored into an `unsigned int`. */
  function FromBitmap(b: Bitmap): (r: Glyph)
    requires b.width * b.rows <= |b.buffer|
    ensures Consistent(r)
  {
    var len := b.width * b.rows;
    Glyph(b.buffer[..len], IVec2(b.width, b.rows), IVec2(b.left, b.top), b.advance % Uint32Modulus)
  }

  /** One iteration of spxFontSize's loop: a failed load keeps the slot. */
  function Load(g: Glyph, o: Option<Bitmap>): (r: Glyph)
    requires Rendered(o)
    ensures Consistent(g) ==> Consistent(r)
  {
    match o
    case None => g
    case Some(b) => FromBitmap(b)
  }

  /** The table spxFontSize leaves behind, slot by slot. */
  function Rebuilt(table: seq<Glyph>, face: Face, size: nat): (r: seq<Glyph>)
    requires |table| == GlyphCount && Renders(face, size)
    ensures |r| == GlyphCount
  {
    seq(GlyphCount, c requires 0 <= c < GlyphCount => Load(table[c], face(size, c)))
  }

  /** Font2D. The face handle is the rasterizer; `glyphs` is the calloc'ed
      array that spxFontSize updates in place. */
  class Font2D {
    const face: Face
    const glyphs: array<Glyph>

    ghost predicate Valid()
      reads glyphs
    {
      glyphs.Length == GlyphCount && TableConsistent(glyphs[..])
    }

    /** The font as spxFontLoad has it right after calloc, before the first
        spxFontSize: every slot zeroed. */
    constructor (face: Face)
      ensures this.face == face && fresh(glyphs)
      ensures glyphs.Length == GlyphCount
      ensures forall c | 0 <= c < GlyphCount :: glyphs[c] == ZeroGlyph
      ensures Valid()
    {
      this.face := face;
      glyphs := new Glyph[GlyphCount](_ => ZeroGlyph);
    }

    /** spxFontSize: for every code, a successful rendering replaces the slot
        with an exact copy of the bitmap and its metrics; a failed one leaves
        the slot as it was. */
    method SetSize(size: nat)
      requires Valid() && Renders(face, size)
      modifies glyphs
      ensures Valid()
      ensures glyphs[..] == Rebuilt(old(glyphs[..]), face, size)
      ensures forall c | 0 <= c < GlyphCount && face(size, c).None? :: glyphs[c] == old(glyphs[c])
      ensures forall c | 0 <= c < GlyphCount && face(size, c).Some? :: glyphs[c] == FromBitmap(face(size, c).value)
    {
      for c := 0 to GlyphCount
        invariant forall k | 0 <= k < c :: glyphs[k] == Load(old(glyphs[k]), face(size, k))
        invariant forall k | c <= k < GlyphCount :: glyphs[k] == old(glyphs[k])
      {
        var loaded := face(size, c);
        if loaded.None? {
          continue;
        }
        glyphs[c] := FromBitmap(loaded.value);
      }
      RebuildKeepsConsistent(old(glyphs[..]), face, size);
    }
  }

  /** What a rebuild leaves in slot c, in terms of the rasterizer's output. */
  lemma RebuiltSlot(table: seq<Glyph>, face: Face, size: nat, c: int)
    requires |table| == GlyphCount && Renders(face, size) && 0 <= c < GlyphCount
    ensures face(size, c).None? ==> Rebuilt(table, face, size)[c] == table[c]
    ensures face(size, c).Some? ==>
      var b, g := face(size, c).value, Rebuilt(table, face, size)[c];
      && g.pixmap == b.buffer[..b.width * b.rows]
      && g.size == IVec2(b.width, b.rows)
      && g.bearing == IVec2(b.left, b.top)
      && g.advance == b.advance % Uint32Modulus
  {
  }

  /** A rebuild keeps |pixmap| == size.x * size.y in every slot. */
  lemma RebuildKeepsConsistent(table: seq<Glyph>, face: Face, size: nat)
    requires TableConsistent(table) && Renders(face, size)
    ensures TableConsistent(Rebuilt(table, face, size))
  {
    var r := Rebuilt(table, face, size);
    forall c | 0 <= c < GlyphCount
      ensures Consistent(r[c])
    {
      assert r[c] == Load(table[c], face(size, c));
    }
  }

  /** Rebuilding twice at the same size gives the same table as once. */
  lemma RebuildIdempotent(table: seq<Glyph>, face: Face, size: nat)
    requires |table| == GlyphCount && Renders(face, size)
    ensures Rebuilt(Rebuilt(table, face, size), face, size) == Rebuilt(table, face, size)
  {
    var once := Rebuilt(table, face, size);
    var twice := Rebuilt(once, face, size);
    forall c | 0 <= c < GlyphCount
      ensures twice[c] == once[c]
    {
      assert once[c] == Load(table[c], face(size, c));
      assert twice[c] == Load(once[c], face(size, c));
    }
  }

  /** A slot that renders at the last requested size holds the same glyph
      whatever the table held before, so nothing of an earlier size survives
      in it; a slot that fails keeps what the earlier rebuild left. */
  lemma LastSizeWins(table: seq<Glyph>, other: seq<Glyph>, face: Face, size1: nat, size2: nat, c: int)
    requires |table| == GlyphCount && |other| == GlyphCount
    requires Renders(face, size1) && Renders(face, size2) && 0 <= c < GlyphCount
    ensures face(size2, c).Some? ==>
      Rebuilt(Rebuilt(table, face, size1), face, size2)[c] == Rebuilt(other, face, size2)[c]
    ensures face(size2, c).None? ==>
      Rebuilt(Rebuilt(table, face, size1), face, size2)[c] == Rebuilt(table, face, size1)[c]
  {
  }
}
