/** The scalar helpers every rasteriser uses (`ipart`, `round_`, `fpart`,
    `rfpart`), Python's `int()` on a float, and the gray level that
    `intensity_to_hex` derives from a coverage value. */
module Scalar {

  /** Python's `int(v)` for a float: truncation toward zero. */
  function Trunc(v: real): (r: int)
    ensures 0.0 <= v ==> 0 <= r && r as real <= v < r as real + 1.0
    ensures v < 0.0 ==> r <= 0 && r as real - 1.0 < v <= r as real
  {
    if v >= 0.0 then v.Floor else -((-v).Floor)
  }

  /** The magnitude of a real. */
  function Abs(v: real): (r: real)
    ensures r >= 0.0 && (r == v || r == -v)
  {
    if v < 0.0 then -v else v
  }

  /** The magnitude of an integer. */
  function IAbs(v: int): (r: nat)
    ensures r == v || r == -v
  {
    if v < 0 then -v else v
  }

  /** `ipart`: the largest integer not above `v`. */
  function IPart(v: real): (r: int)
    ensures r as real <= v < r as real + 1.0
  {
    v.Floor
  }

  /** `round_`: rounds to the nearest integer, ties toward +infinity. */
  function Round(v: real): (r: int)
    ensures r as real - 0.5 <= v < r as real + 0.5
  {
    IPart(v + 0.5)
  }

  /** `fpart`: the fractional part, always in [0, 1). */
  function FPart(v: real): (r: real)
    ensures 0.0 <= r < 1.0
    ensures v - r == IPart(v) as real
  {
    v - IPart(v) as real
  }

  /** `rfpart`: the complement of the fractional part, always in (0, 1]. */
  function RFPart(v: real): (r: real)
    ensures 0.0 < r <= 1.0
    ensures r + FPart(v) == 1.0
  {
    1.0 - FPart(v)
  }

  function Clamp01(c: real): (r: real)
    ensures 0.0 <= r <= 1.0
    ensures 0.0 <= c <= 1.0 ==> r == c
  {
    if c < 0.0 then 0.0 else if c > 1.0 then 1.0 else c
  }

  /** The gray level written three times into the colour `#vvvvvv` by
      `intensity_to_hex`: full coverage is black (0), none is white (255). */
  function GrayLevel(c: real): (r: int)
    ensures 0 <= r <= 255
    ensures c >= 1.0 ==> r == 0
    ensures c <= 0.0 ==> r == 255
  {
    Trunc(255.0 * (1.0 - Clamp01(c)))
  }

  /** More coverage never gives a lighter gray. */
  lemma GrayLevelAntitone(c1: real, c2: real)
    requires c1 <= c2
    ensures GrayLevel(c2) <= GrayLevel(c1)
  {
    var v1, v2 := 255.0 * (1.0 - Clamp01(c1)), 255.0 * (1.0 - Clamp01(c2));
    assert 0.0 <= v2 <= v1;
    assert GrayLevel(c2) as real <= v2;
  }

  // ---------------------------------------------------------------------
  // Facts about products and quotients of reals used by the geometry proofs

  lemma MulNonNegative(u: real, v: real)
    requires 0.0 <= u && 0.0 <= v
    ensures 0.0 <= u * v
  {
  }

  lemma ScaleBetween(t: real, d: real)
    requires 0.0 <= t <= 1.0
    ensures d >= 0.0 ==> 0.0 <= t * d <= d
    ensures d <= 0.0 ==> d <= t * d <= 0.0
  {
    assert d - t * d == (1.0 - t) * d;
    if d >= 0.0 {
      MulNonNegative(t, d);
      MulNonNegative(1.0 - t, d);
    } else {
      MulNonNegative(t, -d);
      MulNonNegative(1.0 - t, -d);
    }
  }

  lemma FractionInUnit(num: real, den: real)
    requires (0.0 <= num < den) || (den <= num < 0.0)
    ensures 0.0 <= num / den <= 1.0
  {
    if den < 0.0 {
      assert num / den == (-num) / (-den);
    }
  }

  lemma DivScale(d: real, num: real, den: real)
    requires den != 0.0
    ensures d * num / den == (num / den) * d
  {
    var t := num / den;
    assert t * den == num;
    assert d * num == (t * d) * den;
  }
}
