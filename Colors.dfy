/** Colours of the rasteriser: three real channels, blended linearly for smooth shading. */
module Colors {

  /** An RGB colour; each channel is nominally in [0, 1]. */
  datatype Color = Color(r: real, g: real, b: real)

  /** Channel-wise blend `(1 - t) * a + t * b`, the interpolation used by smooth shading. */
  function Lerp(a: Color, b: Color, t: real): (c: Color)
    ensures t == 0.0 ==> c == a
    ensures t == 1.0 ==> c == b
    ensures a == b ==> c == a
  {
    Color((1.0 - t) * a.r + t * b.r, (1.0 - t) * a.g + t * b.g, (1.0 - t) * a.b + t * b.b)
  }

  /** Every channel of `c` lies between the matching channels of `lo` and `hi`. */
  predicate Within(c: Color, lo: Color, hi: Color) {
    lo.r <= c.r <= hi.r && lo.g <= c.g <= hi.g && lo.b <= c.b <= hi.b
  }

  lemma ProductNonneg(x: real, y: real)
    requires x >= 0.0 && y >= 0.0
    ensures x * y >= 0.0
  {
  }

  lemma RealLerpWithin(u: real, v: real, lo: real, hi: real, t: real)
    requires lo <= u <= hi && lo <= v <= hi && 0.0 <= t <= 1.0
    ensures lo <= (1.0 - t) * u + t * v <= hi
  {
    ProductNonneg(1.0 - t, u - lo);
    ProductNonneg(t, v - lo);
    ProductNonneg(1.0 - t, hi - u);
    ProductNonneg(t, hi - v);
  }

  /** A blend with weight in [0, 1] stays inside any box that holds both endpoints. */
  lemma LerpWithin(a: Color, b: Color, lo: Color, hi: Color, t: real)
    requires Within(a, lo, hi) && Within(b, lo, hi) && 0.0 <= t <= 1.0
    ensures Within(Lerp(a, b, t), lo, hi)
  {
    RealLerpWithin(a.r, b.r, lo.r, hi.r, t);
    RealLerpWithin(a.g, b.g, lo.g, hi.g, t);
    RealLerpWithin(a.b, b.b, lo.b, hi.b, t);
  }
}
