/**
 * The widget's `calculateContrastRatio`: the WCAG 2.x contrast ratio
 * (L1 + 0.05) / (L2 + 0.05) of the lighter over the darker of two relative
 * luminances. The luminances are inputs here; how they are computed from a
 * colour is not part of this model.
 */
module Contrast {
  import opened HexColor

  /** Relative luminance lies between black (0) and white (1). */
  predicate IsLuminance(l: real) {
    0.0 <= l <= 1.0
  }

  /**
   * The ratio of two luminances, lighter over darker, each offset by 0.05.
   * Neither denominator can vanish, and the ratio is never below 1.
   */
  function ContrastRatio(l1: real, l2: real): (ratio: real)
    requires 0.0 <= l1 && 0.0 <= l2
    ensures ratio >= 1.0
    ensures (l1 == l2) <==> (ratio == 1.0)
  {
    var lighter := if l1 > l2 then l1 else l2;
    var darker := if l1 < l2 then l1 else l2;
    RatioAtLeastOne(lighter + 0.05, darker + 0.05);
    (lighter + 0.05) / (darker + 0.05)
  }

  /**
   * `calculateContrastRatio(color1, color2)`: the contrast ratio of the two
   * colours' luminances, for any luminance function into [0, 1].
   */
  function ColourContrast(luminance: Rgb -> real, c1: Rgb, c2: Rgb): (ratio: real)
    requires IsLuminance(luminance(c1)) && IsLuminance(luminance(c2))
    ensures 1.0 <= ratio <= 21.0
  {
    AtMostTwentyOne(luminance(c1), luminance(c2));
    ContrastRatio(luminance(c1), luminance(c2))
  }

  lemma RatioAtLeastOne(x: real, y: real)
    requires 0.0 < y <= x
    ensures x / y >= 1.0
    ensures x / y == 1.0 <==> x == y
  {
  }

  /** The order of the two colours does not matter. */
  lemma Symmetric(l1: real, l2: real)
    requires 0.0 <= l1 && 0.0 <= l2
    ensures ContrastRatio(l1, l2) == ContrastRatio(l2, l1)
  {
  }

  /** A colour against itself, or two colours of equal luminance, give exactly 1:1. */
  lemma SameLuminanceIsOne(l: real)
    requires 0.0 <= l
    ensures ContrastRatio(l, l) == 1.0
  {
  }

  /** Between luminances in [0, 1] the ratio is at most 21, reached only by white against black. */
  lemma AtMostTwentyOne(l1: real, l2: real)
    requires IsLuminance(l1) && IsLuminance(l2)
    ensures ContrastRatio(l1, l2) <= 21.0
    ensures ContrastRatio(l1, l2) == 21.0 <==> (l1 == 1.0 && l2 == 0.0) || (l1 == 0.0 && l2 == 1.0)
  {
    var lighter := if l1 > l2 then l1 else l2;
    var darker := if l1 < l2 then l1 else l2;
    var x, y := lighter + 0.05, darker + 0.05;
    var q := x / y;
    assert ContrastRatio(l1, l2) == q;
    assert q * y == x;
    if q >= 21.0 {
      ScaleBelow(21.0, q, y);
      assert lighter == 1.0 && darker == 0.0;
    }
  }

  lemma ScaleBelow(a: real, q: real, y: real)
    requires a <= q && y > 0.0
    ensures a * y <= q * y
  {
  }

  lemma ScaleStrict(q: real, y1: real, y2: real)
    requires q > 0.0 && y1 < y2
    ensures q * y1 < q * y2
  {
  }

  lemma Cancel(a: real, b: real, y: real)
    requires y > 0.0 && a * y > b * y
    ensures a > b
  {
  }

  /** Contrast grows as the darker luminance falls, the lighter one held fixed. */
  lemma {:induction false} DarkerRaisesContrast(lighter: real, d1: real, d2: real)
    requires 0.0 <= d1 < d2 <= lighter
    ensures ContrastRatio(lighter, d1) > ContrastRatio(lighter, d2)
  {
    var x, y1, y2 := lighter + 0.05, d1 + 0.05, d2 + 0.05;
    var q1, q2 := x / y1, x / y2;
    assert ContrastRatio(lighter, d1) == q1 && ContrastRatio(lighter, d2) == q2;
    assert q1 * y1 == x && q2 * y2 == x;
    assert q2 >= 1.0;
    ScaleStrict(q2, y1, y2);
    var p1, p2 := q1 * y1, q2 * y1;
    assert p1 == x && p2 < x;
    Cancel(q1, q2, y1);
  }
}
