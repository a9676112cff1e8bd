/** The per-pixel blend of spxfont.h (mix8 and pxMix). */
module Blend {
  import opened SpxTypes

  /** mix8 applied to two channel values and the mask byte m whose fraction
      m / 255.0F is the blend weight. The float multiply and truncation are
      not modelled: any deterministic function of this shape stands for it. */
  type Mix8 = (Byte, Byte, Byte) -> Byte

  /** The two values mix8 computes exactly: weight 0.0F yields `a`, and
      weight 255 / 255.0F == 1.0F yields a + (b - a) == b. */
  predicate ExactAtEndpoints(mix: Mix8) {
    forall a: Byte, b: Byte :: mix(a, b, 0) == a && mix(a, b, 255) == b
  }

  /** pxMix: every channel, alpha included, is blended on its own with the
      same weight. Coverage 0 keeps the pixel, coverage 255 gives the colour. */
  function PxMix(mix: Mix8, a: Px, b: Px, m: Byte): (r: Px)
    ensures ExactAtEndpoints(mix) && m == 0 ==> r == a
    ensures ExactAtEndpoints(mix) && m == 255 ==> r == b
  {
    Px(mix(a.r, b.r, m), mix(a.g, b.g, m), mix(a.b, b.b, m), mix(a.a, b.a, m))
  }
}
